/** collect_action.py: an interactive session that, for each action the
    operator picks from a menu, records one take from each of two cameras
    into `Dataset/<action>/take_NN_<serial>.bag`, numbering takes one past
    the highest number already on disk for the first camera.

    Cameras, timing and console output are abstract: the operator's input is
    a sequence of lines, the dataset is a map from directory path to the
    names it holds, and a recording adds its two files to its directory. */
module Recorder {
  import opened PyText
  import Extractor

  /** The settings at the top of collect_action.py. */
  datatype Config = Config(serial1: string, serial2: string, datasetDir: string, actions: map<int, string>)

  const Shipped: Config := Config(
    "832112070255", "213622078112", "Dataset",
    map[1 := "Approaching", 2 := "Grasping", 3 := "Transporting", 4 := "Releasing", 5 := "Idle/Resting"])

  // ---------------------------------------------------------------------------
  // get_next_take_number

  /** `f.startswith('take_') and f.endswith(f'_{SERIAL_NUMBER_1}.bag')` */
  predicate IsTakeFile(filename: string, serial1: string)
  {
    StartsWith(filename, "take_") && EndsWith(filename, Extractor.BagSuffix(serial1))
  }

  /** The comprehension `takes`: the first camera's take files, in listing
      order. */
  function TakeFiles(listing: seq<string>, serial1: string): seq<string>
  {
    if listing == [] then []
    else
      var front, f := listing[..|listing| - 1], listing[|listing| - 1];
      TakeFiles(front, serial1) + if IsTakeFile(f, serial1) then [f] else []
  }

  /** The comprehension keeps exactly the first camera's take files. */
  lemma {:induction false} TakeFilesMembers(listing: seq<string>, serial1: string)
    ensures forall f :: f in TakeFiles(listing, serial1) <==> f in listing && IsTakeFile(f, serial1)
  {
    if listing != [] {
      var front, f := listing[..|listing| - 1], listing[|listing| - 1];
      assert listing == front + [f];
      TakeFilesMembers(front, serial1);
    }
  }

  /** `[int(t.split('_')[1]) for t in takes]`: the numbers, or the first name
      whose number does not parse. */
  datatype Numbers = Parsed(values: seq<int>) | BadName(filename: string)

  function ParseTakeNumbers(takes: seq<string>): Numbers
  {
    if takes == [] then Parsed([])
    else
      match Extractor.TakeField(takes[0])
      case None => BadName(takes[0])
      case Some(v) =>
        match ParseTakeNumbers(takes[1..])
        case BadName(f) => BadName(f)
        case Parsed(vs) => Parsed([v] + vs)
  }

  /** The numbers are read in order, one per name, and the first name that
      does not parse stops the comprehension. */
  lemma {:induction false} ParseTakeNumbersMeaning(takes: seq<string>)
    ensures var r := ParseTakeNumbers(takes);
      && (r.Parsed? ==> (|r.values| == |takes|
            && forall i :: 0 <= i < |takes| ==> Extractor.TakeField(takes[i]) == Some(r.values[i])))
      && (r.BadName? <==> exists i :: 0 <= i < |takes| && Extractor.TakeField(takes[i]).None?)
      && (r.BadName? ==> r.filename in takes && Extractor.TakeField(r.filename).None?)
  {
    if takes != [] && Extractor.TakeField(takes[0]).Some? {
      ParseTakeNumbersMeaning(takes[1..]);
      assert forall i :: 1 <= i < |takes| ==> takes[i] == takes[1..][i - 1];
    }
  }

  function Max(s: seq<int>): (m: int)
    requires s != []
    ensures m in s && forall x :: x in s ==> x <= m
  {
    if |s| == 1 then s[0]
    else
      var rest := Max(s[1..]);
      assert s == [s[0]] + s[1..];
      if s[0] >= rest then s[0] else rest
  }

  /** What `get_next_take_number` returns, or the `ValueError` it raises. */
  datatype NextTake = Next(take: int) | Unparseable(filename: string)

  function NextTakeNumber(listing: seq<string>, serial1: string): NextTake
  {
    var takes := TakeFiles(listing, serial1);
    if takes == [] then Next(1)
    else
      match ParseTakeNumbers(takes)
      case BadName(f) => Unparseable(f)
      case Parsed(values) => Next(Max(values) + 1)
  }

  /** Some take file of the first camera carries no number. */
  predicate HasBadTakeFile(listing: seq<string>, serial1: string)
  {
    exists f :: f in listing && IsTakeFile(f, serial1) && Extractor.TakeField(f).None?
  }

  /** `get_next_take_number` fails exactly when some take file of the first
      camera carries no number, and then names one. */
  lemma NextTakeFails(listing: seq<string>, serial1: string)
    ensures var r := NextTakeNumber(listing, serial1);
      && (r.Unparseable? <==> HasBadTakeFile(listing, serial1))
      && (r.Unparseable? ==> (r.filename in listing && IsTakeFile(r.filename, serial1)
            && Extractor.TakeField(r.filename).None?))
  {
    var takes := TakeFiles(listing, serial1);
    TakeFilesMembers(listing, serial1);
    ParseTakeNumbersMeaning(takes);
    if takes != [] && HasBadTakeFile(listing, serial1) {
      var f :| f in listing && IsTakeFile(f, serial1) && Extractor.TakeField(f).None?;
      var i :| 0 <= i < |takes| && takes[i] == f;
    }
  }

  /** Otherwise the next take number is one past the largest number of a take
      file of the first camera, and 1 when there is none. */
  lemma NextTakeExceeds(listing: seq<string>, serial1: string)
    requires NextTakeNumber(listing, serial1).Next?
    ensures var n := NextTakeNumber(listing, serial1).take;
      && (forall f :: f in listing && IsTakeFile(f, serial1) ==>
            Extractor.TakeField(f).Some? && Extractor.TakeField(f).value < n)
      && ((n == 1 && forall f :: f in listing ==> !IsTakeFile(f, serial1))
            || exists f :: f in listing && IsTakeFile(f, serial1) && Extractor.TakeField(f) == Some(n - 1))
  {
    var takes := TakeFiles(listing, serial1);
    TakeFilesMembers(listing, serial1);
    if takes != [] {
      var values := ParseTakeNumbers(takes).values;
      assert NextTakeNumber(listing, serial1).take == Max(values) + 1;
      forall f | f in listing && IsTakeFile(f, serial1)
        ensures Extractor.TakeField(f).Some? && Extractor.TakeField(f).value < Max(values) + 1
      {
        NumberAtMostMax(takes, values, f);
      }
      var g := MaxNumbered(takes, values);
      assert g in listing && IsTakeFile(g, serial1);
    }
  }

  /** Every parsed take number is at most the largest one ... */
  lemma NumberAtMostMax(takes: seq<string>, values: seq<int>, f: string)
    requires ParseTakeNumbers(takes) == Parsed(values) && values != [] && f in takes
    ensures Extractor.TakeField(f).Some? && Extractor.TakeField(f).value <= Max(values)
  {
    ParseTakeNumbersMeaning(takes);
    var i :| 0 <= i < |takes| && takes[i] == f;
    assert values[i] in values;
  }

  /** ... and some take file carries the largest one. */
  lemma MaxNumbered(takes: seq<string>, values: seq<int>) returns (f: string)
    requires ParseTakeNumbers(takes) == Parsed(values) && values != []
    ensures f in takes && Extractor.TakeField(f) == Some(Max(values))
  {
    ParseTakeNumbersMeaning(takes);
    var k :| 0 <= k < |values| && values[k] == Max(values);
    f := takes[k];
  }

  /** When there is a take file, some take file carries the largest number. */
  lemma NextTakeAttained(listing: seq<string>, serial1: string, g: string) returns (f: string)
    requires NextTakeNumber(listing, serial1).Next?
    requires g in listing && IsTakeFile(g, serial1)
    ensures f in listing && IsTakeFile(f, serial1)
    ensures Extractor.TakeField(f) == Some(NextTakeNumber(listing, serial1).take - 1)
  {
    NextTakeExceeds(listing, serial1);
    f :| f in listing && IsTakeFile(f, serial1)
      && Extractor.TakeField(f) == Some(NextTakeNumber(listing, serial1).take - 1);
  }

  // ---------------------------------------------------------------------------
  // The menu

  datatype Choice = Quit | Select(action: string) | Invalid

  /** `choice.lower() == 'q'`, else `ACTION_POOL[int(choice)]`, where a
      `ValueError` or `KeyError` makes the choice invalid. */
  function Classify(choice: string, actions: map<int, string>): Choice
  {
    if Lower(choice) == "q" then Quit
    else
      match ParseInt(choice)
      case None => Invalid
      case Some(k) => if k in actions then Select(actions[k]) else Invalid
  }

  /** `q` or `Q` quits; an input whose `int()` is a menu key selects that
      key's action; anything else is invalid. */
  lemma ClassifyCases(choice: string, actions: map<int, string>)
    ensures var c := Classify(choice, actions);
      && (c == Quit <==> choice == "q" || choice == "Q")
      && (c.Select? <==> (!(choice == "q" || choice == "Q")
            && ParseInt(choice).Some? && ParseInt(choice).value in actions))
      && (c.Select? ==> c.action == actions[ParseInt(choice).value])
  {
    LowerIsQ(choice);
  }

  lemma LowerIsQ(s: string)
    ensures Lower(s) == "q" <==> s == "q" || s == "Q"
  {
    if |s| == 1 {
      assert Lower(s)[0] == LowerChar(s[0]);
      if Lower(s) == "q" {
        assert LowerChar(s[0]) == 'q';
      }
    }
  }

  /** Typing a menu key selects its action. */
  lemma MenuKeySelects(k: nat, actions: map<int, string>)
    requires k in actions
    ensures Classify(Decimal(k), actions) == Select(actions[k])
  {
    ClassifyCases(Decimal(k), actions);
    ParseFormatInt(k, 0);
    assert FormatInt(k, 0) == Decimal(k);
    assert IsDigit(Decimal(k)[0]);
  }

  // ---------------------------------------------------------------------------
  // Output files

  /** `os.path.join(DATASET_DIR, action_name)` */
  function ActionPath(cfg: Config, action: string): string
  {
    PathJoin(cfg.datasetDir, action)
  }

  /** `output_filename_1` and `output_filename_2`: the same base path
      `<dir>/take_NN`, each with its own camera's serial. */
  function OutputFiles(cfg: Config, action: string, take: int): (paths: (string, string))
    ensures paths.0 == PathJoin(ActionPath(cfg, action), Extractor.BagName(take, cfg.serial1))
    ensures paths.1 == PathJoin(ActionPath(cfg, action), Extractor.BagName(take, cfg.serial2))
  {
    var base := PathJoin(ActionPath(cfg, action), Extractor.TakeName(take));
    (base + Extractor.BagSuffix(cfg.serial1), base + Extractor.BagSuffix(cfg.serial2))
  }

  /** The first camera's file is a take file of the first camera, and reads
      back as its take number. */
  lemma OutputNameIsTakeFile(take: int, serial1: string)
    ensures IsTakeFile(Extractor.BagName(take, serial1), serial1)
    ensures Extractor.TakeField(Extractor.BagName(take, serial1)) == Some(take)
  {
    var takeName := Extractor.TakeName(take);
    PrefixOfConcat("take_", FormatInt(take, 2));
    PrefixExtends(takeName, "take_", Extractor.BagSuffix(serial1));
    SuffixOfConcat(takeName, Extractor.BagSuffix(serial1));
    Extractor.BagNameTakeField(take, serial1);
  }

  /** With two serial numbers of the same length, the second camera's files
      are never taken for the first camera's. */
  lemma OtherCameraIgnored(take: int, serial1: string, serial2: string)
    requires |serial1| == |serial2| && serial1 != serial2
    ensures !IsTakeFile(Extractor.BagName(take, serial2), serial1)
  {
    Extractor.BagSuffixInjective(serial2, serial1);
    SuffixOfEqualLength(Extractor.TakeName(take), Extractor.BagSuffix(serial2), Extractor.BagSuffix(serial1));
  }

  /** The take number chosen names a first-camera file not yet on disk. */
  lemma NextTakeIsFresh(listing: seq<string>, serial1: string)
    requires NextTakeNumber(listing, serial1).Next?
    ensures Extractor.BagName(NextTakeNumber(listing, serial1).take, serial1) !in listing
  {
    var n := NextTakeNumber(listing, serial1).take;
    NextTakeExceeds(listing, serial1);
    OutputNameIsTakeFile(n, serial1);
  }

  /** The listing of a directory after file `f` is written into it: a file
      written over an existing one is still listed once. */
  function WithFile(listing: seq<string>, f: string): (r: seq<string>)
    ensures forall g :: g in r <==> g in listing || g == f
  {
    if f in listing then listing else listing + [f]
  }

  /** No name is listed twice. */
  predicate NoRepeats(listing: seq<string>)
  {
    forall i, j :: 0 <= i < j < |listing| ==> listing[i] != listing[j]
  }

  /** Writing a file keeps a listing free of repeats and never drops a
      name. */
  lemma WithFileKeepsListing(listing: seq<string>, f: string)
    requires NoRepeats(listing)
    ensures NoRepeats(WithFile(listing, f)) && listing <= WithFile(listing, f)
  {
    if f !in listing {
      var r := listing + [f];
      forall i, j | 0 <= i < j < |r| ensures r[i] != r[j] {
        if j == |listing| {
          assert r[i] == listing[i];
        }
      }
    }
  }

  /** The action directory's listing after take `n` is recorded by both
      cameras. */
  function Recorded(listing: seq<string>, n: int, serial1: string, serial2: string): seq<string>
  {
    WithFile(WithFile(listing, Extractor.BagName(n, serial1)), Extractor.BagName(n, serial2))
  }

  /** Adding a take file numbered `n`, where `n` is the next take number,
      and a file that is no take file moves the next take number to `n + 1`. */
  lemma NextAfterAppending(listing: seq<string>, serial1: string, file1: string, file2: string)
    requires NextTakeNumber(listing, serial1).Next?
    requires IsTakeFile(file1, serial1) && Extractor.TakeField(file1) == Some(NextTakeNumber(listing, serial1).take)
    requires !IsTakeFile(file2, serial1)
    ensures NextTakeNumber(WithFile(WithFile(listing, file1), file2), serial1) == Next(NextTakeNumber(listing, serial1).take + 1)
  {
    var n := NextTakeNumber(listing, serial1).take;
    var after := WithFile(WithFile(listing, file1), file2);
    assert forall f :: f in after && IsTakeFile(f, serial1) ==> f == file1 || f in listing by {
      forall f | f in after && IsTakeFile(f, serial1) ensures f == file1 || f in listing {
        assert f == file1 || f == file2 || f in listing;
      }
    }
    assert NextTakeNumber(after, serial1).Next? by {
      NextTakeFails(listing, serial1);
      assert !HasBadTakeFile(after, serial1);
      NextTakeFails(after, serial1);
    }
    var m := NextTakeNumber(after, serial1).take;
    assert n < m by {
      assert file1 in after;
      NextTakeExceeds(after, serial1);
    }
    assert file1 in after;
    var f := NextTakeAttained(after, serial1, file1);
    assert m - 1 <= n by {
      if f != file1 {
        NextTakeExceeds(listing, serial1);
      }
    }
  }

  /** After a take is recorded, the next take in the same directory gets the
      following number. */
  lemma NextAfterRecording(listing: seq<string>, serial1: string, serial2: string)
    requires |serial1| == |serial2| && serial1 != serial2
    requires NextTakeNumber(listing, serial1).Next?
    ensures var n := NextTakeNumber(listing, serial1).take;
      NextTakeNumber(Recorded(listing, n, serial1, serial2), serial1) == Next(n + 1)
  {
    var n := NextTakeNumber(listing, serial1).take;
    OutputNameIsTakeFile(n, serial1);
    OtherCameraIgnored(n, serial1, serial2);
    NextAfterAppending(listing, serial1, Extractor.BagName(n, serial1), Extractor.BagName(n, serial2));
  }

  // ---------------------------------------------------------------------------
  // The session

  /** How a session ends: the placeholder check, the camera count check, the
      operator's `q`, or an exception caught by the outer `except`: the end
      of input, or the `ValueError` of `get_next_take_number`. */
  datatype SessionEnd =
    | PlaceholderSerials
    | TooFewCameras
    | UserQuit
    | InputClosed
    | TakeNumberFailed(filename: string)

  /** One recorded take: the action, its number, and its two files. */
  datatype Take = Take(action: string, take: int, file1: string, file2: string)

  datatype Session = Session(end: SessionEnd, takes: seq<Take>, disk: map<string, seq<string>>)

  /** The names a directory holds; `os.makedirs` makes a missing one empty. */
  function Listing(disk: map<string, seq<string>>, dir: string): seq<string>
  {
    if dir in disk then disk[dir] else []
  }

  /** Each input line classified against the menu. */
  function Choices(choices: seq<string>, actions: map<int, string>): (cs: seq<Choice>)
    ensures |cs| == |choices| && forall j :: 0 <= j < |choices| ==> cs[j] == Classify(choices[j], actions)
  {
    seq(|choices|, j requires 0 <= j < |choices| => Classify(choices[j], actions))
  }

  /** The menu loop from input line `i` on, in closed form, over the
      classified lines `cs`. */
  function SessionFrom(cfg: Config, cs: seq<Choice>, i: nat, takes: seq<Take>,
                       disk: map<string, seq<string>>): Session
    requires i <= |cs|
    decreases |cs| - i
  {
    if i == |cs| then Session(InputClosed, takes, disk)
    else
      match cs[i]
      case Quit => Session(UserQuit, takes, disk)
      case Invalid => SessionFrom(cfg, cs, i + 1, takes, disk)
      case Select(action) =>
        var dir := ActionPath(cfg, action);
        var listing := Listing(disk, dir);
        match NextTakeNumber(listing, cfg.serial1)
        case Unparseable(f) => Session(TakeNumberFailed(f), takes, disk[dir := listing])
        case Next(n) =>
          var (file1, file2) := OutputFiles(cfg, action, n);
          SessionFrom(cfg, cs, i + 1, takes + [Take(action, n, file1, file2)],
                      disk[dir := Recorded(listing, n, cfg.serial1, cfg.serial2)])
  }

  function SessionSpec(cfg: Config, cameras: nat, choices: seq<string>, disk: map<string, seq<string>>): Session
  {
    if cfg.serial1 == Extractor.Placeholder || cfg.serial2 == Extractor.Placeholder then
      Session(PlaceholderSerials, [], disk)
    else if cameras < 2 then Session(TooFewCameras, [], disk)
    else SessionFrom(cfg, Choices(choices, cfg.actions), 0, [], disk)
  }

  /** `main`: `cameras` is the number of devices connected, `choices` the
      lines the operator types before input ends, `disk` the dataset. */
  method RecordSession(cfg: Config, cameras: nat, choices: seq<string>, disk: map<string, seq<string>>)
    returns (end: SessionEnd, takes: seq<Take>, finalDisk: map<string, seq<string>>)
    ensures Session(end, takes, finalDisk) == SessionSpec(cfg, cameras, choices, disk)
  {
    if cfg.serial1 == Extractor.Placeholder || cfg.serial2 == Extractor.Placeholder {
      return PlaceholderSerials, [], disk;
    }
    if cameras < 2 {
      return TooFewCameras, [], disk;
    }
    takes, finalDisk := [], disk;
    ghost var cs := Choices(choices, cfg.actions);
    var i := 0;
    while true
      invariant i <= |choices|
      invariant SessionFrom(cfg, cs, i, takes, finalDisk) == SessionSpec(cfg, cameras, choices, disk)
      decreases |choices| - i
    {
      if i == |choices| {
        // `input()` raises EOFError, caught by the outer `except`
        end := InputClosed;
        return;
      }
      var choice := choices[i];
      var c := Classify(choice, cfg.actions);
      assert c == cs[i];
      if c == Quit {
        end := UserQuit;
        assert SessionFrom(cfg, cs, i, takes, finalDisk) == Session(end, takes, finalDisk);
        return;
      }
      if c == Invalid {
        assert SessionFrom(cfg, cs, i + 1, takes, finalDisk) == SessionFrom(cfg, cs, i, takes, finalDisk);
        i := i + 1;
        continue;
      }
      var dir := ActionPath(cfg, c.action);
      // `get_next_take_number`: `os.makedirs(action_path, exist_ok=True)`,
      // then the listing
      var listing := Listing(finalDisk, dir);
      var next := NextTakeNumber(listing, cfg.serial1);
      if next.Unparseable? {
        assert SessionFrom(cfg, cs, i, takes, finalDisk)
          == Session(TakeNumberFailed(next.filename), takes, finalDisk[dir := listing]);
        end, finalDisk := TakeNumberFailed(next.filename), finalDisk[dir := listing];
        return;
      }
      var (file1, file2) := OutputFiles(cfg, c.action, next.take);
      // the made directory now holds the two recordings
      var recorded := Recorded(listing, next.take, cfg.serial1, cfg.serial2);
      var take := Take(c.action, next.take, file1, file2);
      assert SessionFrom(cfg, cs, i + 1, takes + [take], finalDisk[dir := recorded])
        == SessionFrom(cfg, cs, i, takes, finalDisk);
      takes := takes + [take];
      finalDisk := finalDisk[dir := recorded];
      i := i + 1;
    }
  }

  // ---------------------------------------------------------------------------
  // What a session guarantees

  /** Every take recorded so far has its first file in its directory. */
  predicate OnDisk(cfg: Config, takes: seq<Take>, disk: map<string, seq<string>>)
  {
    forall k :: 0 <= k < |takes| ==>
      Extractor.BagName(takes[k].take, cfg.serial1) in Listing(disk, ActionPath(cfg, takes[k].action))
  }

  /** Takes of one action are numbered in increasing order. */
  predicate Increasing(takes: seq<Take>)
  {
    forall k, l :: 0 <= k < l < |takes| && takes[k].action == takes[l].action ==> takes[k].take < takes[l].take
  }

  /** Within a session, a take never reuses the number of an earlier take of
      the same action, so no recording overwrites another; each new first
      camera file was absent from its directory when it was chosen. */
  lemma {:induction false} SessionNumbersIncrease(cfg: Config, cs: seq<Choice>, i: nat,
                                                   takes: seq<Take>, disk: map<string, seq<string>>)
    requires i <= |cs| && OnDisk(cfg, takes, disk) && Increasing(takes)
    ensures Increasing(SessionFrom(cfg, cs, i, takes, disk).takes)
    decreases |cs| - i
  {
    if i < |cs| {
      var c := cs[i];
      if c.Invalid? {
        SessionNumbersIncrease(cfg, cs, i + 1, takes, disk);
      } else if c.Select? {
        var dir := ActionPath(cfg, c.action);
        var listing := Listing(disk, dir);
        var next := NextTakeNumber(listing, cfg.serial1);
        if next.Next? {
          var n := next.take;
          var (file1, file2) := OutputFiles(cfg, c.action, n);
          var takes' := takes + [Take(c.action, n, file1, file2)];
          var disk' := disk[dir := Recorded(listing, n, cfg.serial1, cfg.serial2)];
          NextTakeExceeds(listing, cfg.serial1);
          forall k | 0 <= k < |takes| && takes[k].action == c.action
            ensures takes[k].take < n
          {
            OutputNameIsTakeFile(takes[k].take, cfg.serial1);
          }
          assert Increasing(takes');
          forall k | 0 <= k < |takes'|
            ensures Extractor.BagName(takes'[k].take, cfg.serial1) in Listing(disk', ActionPath(cfg, takes'[k].action))
          {
            if k < |takes| {
              assert takes'[k] == takes[k];
            }
          }
          SessionNumbersIncrease(cfg, cs, i + 1, takes', disk');
        }
      }
    }
  }

  lemma SessionSpecIncreasing(cfg: Config, cameras: nat, choices: seq<string>, disk: map<string, seq<string>>)
    ensures Increasing(SessionSpec(cfg, cameras, choices, disk).takes)
  {
    SessionNumbersIncrease(cfg, Choices(choices, cfg.actions), 0, [], disk);
  }

  /** The menu loop only ends by the operator's `q`, the end of input or a
      failed take number: never by one of the checks made before it. */
  lemma {:induction false} SessionFromEnds(cfg: Config, cs: seq<Choice>, i: nat,
                                           takes: seq<Take>, disk: map<string, seq<string>>)
    requires i <= |cs|
    ensures var end := SessionFrom(cfg, cs, i, takes, disk).end;
      end.UserQuit? || end.InputClosed? || end.TakeNumberFailed?
    decreases |cs| - i
  {
    if i < |cs| {
      var c := cs[i];
      if c.Invalid? {
        SessionFromEnds(cfg, cs, i + 1, takes, disk);
      } else if c.Select? {
        var dir := ActionPath(cfg, c.action);
        var listing := Listing(disk, dir);
        var next := NextTakeNumber(listing, cfg.serial1);
        if next.Next? {
          var n := next.take;
          var (file1, file2) := OutputFiles(cfg, c.action, n);
          SessionFromEnds(cfg, cs, i + 1, takes + [Take(c.action, n, file1, file2)],
                          disk[dir := Recorded(listing, n, cfg.serial1, cfg.serial2)]);
        }
      }
    }
  }

  /** A placeholder serial stops the session before anything else, and two
      connected cameras are needed next; either refusal records nothing and
      leaves the dataset as it was. */
  lemma SessionChecks(cfg: Config, cameras: nat, choices: seq<string>, disk: map<string, seq<string>>)
    ensures var s := SessionSpec(cfg, cameras, choices, disk);
      var placeholder := cfg.serial1 == Extractor.Placeholder || cfg.serial2 == Extractor.Placeholder;
      && (s.end == PlaceholderSerials <==> placeholder)
      && (s.end == TooFewCameras <==> !placeholder && cameras < 2)
      && (s.end == PlaceholderSerials || s.end == TooFewCameras ==> s.takes == [] && s.disk == disk)
  {
    SessionFromEnds(cfg, Choices(choices, cfg.actions), 0, [], disk);
  }

  /** As shipped, the recorder's serial numbers are real ones, so the session
      goes past the placeholder check, unlike the extractor's. */
  lemma ShippedSerialsDiffer()
    ensures Shipped.serial1 != Extractor.Placeholder && Shipped.serial2 != Extractor.Placeholder
    ensures |Shipped.serial1| == |Shipped.serial2| && Shipped.serial1 != Shipped.serial2
  {
  }
}
