/** What `process_take` guarantees, proved about the closed form `Expected`
    that the worker method is verified against. */
module ExtractorFacts {
  import opened PyText
  import opened Extractor

  // ---------------------------------------------------------------------------
  // Pairing

  /** The pairs before step `n` are exactly the steps below `n` at which both
      reads are complete, in increasing step order, each carrying that
      step's rasters. */
  lemma PairsBeforeCharacterized(s1: seq<Read>, s2: seq<Read>, n: nat)
    requires n <= |s1| && n <= |s2|
    ensures var ps := PairsBefore(s1, s2, n);
      && (forall k :: 0 <= k < |ps| ==>
            ps[k].step < n && Complete(s1[ps[k].step]) && Complete(s2[ps[k].step])
            && ps[k] == PairAt(s1, s2, ps[k].step))
      && (forall k, l :: 0 <= k < l < |ps| ==> ps[k].step < ps[l].step)
      && (forall i :: 0 <= i < n && Complete(s1[i]) && Complete(s2[i]) ==>
            exists k :: 0 <= k < |ps| && ps[k].step == i)
  {
    PairsBeforeSound(s1, s2, n);
    PairsBeforeOrdered(s1, s2, n);
    PairsBeforeComplete(s1, s2, n);
    var ps := PairsBefore(s1, s2, n);
    assert forall k :: 0 <= k < |ps| ==> FromCompleteStep(s1, s2, n, ps[k]);
  }

  /** Pair `p` comes from a complete step below `n` and carries its
      rasters. */
  predicate FromCompleteStep(s1: seq<Read>, s2: seq<Read>, n: nat, p: Pair)
  {
    p.step < n && p.step < |s1| && p.step < |s2| && Complete(s1[p.step]) && Complete(s2[p.step])
    && p == PairAt(s1, s2, p.step)
  }

  /** Each pair before step `n` comes from a complete step ... */
  lemma {:induction false} PairsBeforeSound(s1: seq<Read>, s2: seq<Read>, n: nat)
    requires n <= |s1| && n <= |s2|
    ensures forall k :: 0 <= k < |PairsBefore(s1, s2, n)| ==>
      FromCompleteStep(s1, s2, n, PairsBefore(s1, s2, n)[k])
  {
    if n > 0 {
      PairsBeforeSound(s1, s2, n - 1);
      var done := PairsBefore(s1, s2, n - 1);
      var i := n - 1;
      if Complete(s1[i]) && Complete(s2[i]) {
        var ps := done + [PairAt(s1, s2, i)];
        assert PairsBefore(s1, s2, n) == ps;
        forall k | 0 <= k < |ps|
          ensures FromCompleteStep(s1, s2, n, ps[k])
        {
          if k < |done| {
            assert ps[k] == done[k] && FromCompleteStep(s1, s2, i, done[k]);
          }
        }
      } else {
        assert PairsBefore(s1, s2, n) == done;
        forall k | 0 <= k < |done|
          ensures FromCompleteStep(s1, s2, n, done[k])
        {
          assert FromCompleteStep(s1, s2, i, done[k]);
        }
      }
    }
  }

  /** ... the pairs follow step order ... */
  lemma {:induction false} PairsBeforeOrdered(s1: seq<Read>, s2: seq<Read>, n: nat)
    requires n <= |s1| && n <= |s2|
    ensures forall k, l :: 0 <= k < l < |PairsBefore(s1, s2, n)| ==>
      PairsBefore(s1, s2, n)[k].step < PairsBefore(s1, s2, n)[l].step
  {
    if n > 0 {
      PairsBeforeOrdered(s1, s2, n - 1);
      PairsBeforeSound(s1, s2, n - 1);
      var done := PairsBefore(s1, s2, n - 1);
      var i := n - 1;
      if Complete(s1[i]) && Complete(s2[i]) {
        var ps := done + [PairAt(s1, s2, i)];
        assert PairsBefore(s1, s2, n) == ps;
        forall k, l | 0 <= k < l < |ps|
          ensures ps[k].step < ps[l].step
        {
          assert ps[k] == done[k] && FromCompleteStep(s1, s2, i, done[k]);
          if l < |done| {
            assert ps[l] == done[l];
          }
        }
      } else {
        assert PairsBefore(s1, s2, n) == done;
      }
    }
  }

  /** ... and no complete step below `n` is missing. */
  lemma {:induction false} PairsBeforeComplete(s1: seq<Read>, s2: seq<Read>, n: nat)
    requires n <= |s1| && n <= |s2|
    ensures forall i :: 0 <= i < n && Complete(s1[i]) && Complete(s2[i]) ==>
      exists k :: 0 <= k < |PairsBefore(s1, s2, n)| && PairsBefore(s1, s2, n)[k].step == i
  {
    if n > 0 {
      PairsBeforeComplete(s1, s2, n - 1);
      var done := PairsBefore(s1, s2, n - 1);
      var i := n - 1;
      if Complete(s1[i]) && Complete(s2[i]) {
        var ps := done + [PairAt(s1, s2, i)];
        assert PairsBefore(s1, s2, n) == ps;
        assert ps[|done|].step == i;
        forall j | 0 <= j < n && Complete(s1[j]) && Complete(s2[j])
          ensures exists k :: 0 <= k < |ps| && ps[k].step == j
        {
          if j < i {
            var k :| 0 <= k < |done| && done[k].step == j;
            assert ps[k] == done[k];
          }
        }
      } else {
        assert PairsBefore(s1, s2, n) == done;
      }
    }
  }

  /** `Pairs` holds one pair for each step before the first failing read at
      which both frame sets are complete, and nothing else. */
  lemma PairsCharacterized(s1: seq<Read>, s2: seq<Read>)
    ensures var ps, stop := Pairs(s1, s2), StopStep(s1, s2);
      && stop <= FirstFailure(s1) && stop <= FirstFailure(s2)
      && (stop < |s1| ==> stop < |s2| ==> s1[stop].Failed? || s2[stop].Failed?)
      && (forall k :: 0 <= k < |ps| ==>
            ps[k].step < stop && Complete(s1[ps[k].step]) && Complete(s2[ps[k].step])
            && ps[k] == PairAt(s1, s2, ps[k].step))
      && (forall k, l :: 0 <= k < l < |ps| ==> ps[k].step < ps[l].step)
      && (forall i :: 0 <= i < stop && Complete(s1[i]) && Complete(s2[i]) ==>
            exists k :: 0 <= k < |ps| && ps[k].step == i)
  {
    PairsBeforeCharacterized(s1, s2, StopStep(s1, s2));
  }

  /** The frame count never exceeds the number of successful reads of either
      recording. */
  lemma FrameCountBound(s1: seq<Read>, s2: seq<Read>)
    ensures |Pairs(s1, s2)| <= FirstFailure(s1) && |Pairs(s1, s2)| <= FirstFailure(s2)
  {
  }

  /** Every one of the first `n` steps is written exactly when all four
      rasters are present at each of them. */
  lemma {:induction false} AllStepsWrittenIff(s1: seq<Read>, s2: seq<Read>, n: nat)
    requires n <= |s1| && n <= |s2|
    ensures |PairsBefore(s1, s2, n)| == n <==> forall i :: 0 <= i < n ==> Complete(s1[i]) && Complete(s2[i])
  {
    if n > 0 {
      AllStepsWrittenIff(s1, s2, n - 1);
      if !(Complete(s1[n - 1]) && Complete(s2[n - 1])) {
        assert |PairsBefore(s1, s2, n)| == |PairsBefore(s1, s2, n - 1)| <= n - 1;
      }
    }
  }

  /** The take yields as many frames as the shorter recording has successful
      reads exactly when no raster is missing before the loop stops. */
  lemma ShorterIffAllComplete(s1: seq<Read>, s2: seq<Read>)
    ensures StopStep(s1, s2) == if FirstFailure(s1) <= FirstFailure(s2) then FirstFailure(s1) else FirstFailure(s2)
    ensures |Pairs(s1, s2)| == StopStep(s1, s2) <==>
      forall i :: 0 <= i < StopStep(s1, s2) ==> Complete(s1[i]) && Complete(s2[i])
  {
    AllStepsWrittenIff(s1, s2, StopStep(s1, s2));
  }

  /** Pairing is by position: each recording below has one complete frame
      set, yet no step has both, so the take writes no frame. */
  lemma PairingIsPositional()
    ensures var s1 := [Got(None, Some(1)), Got(Some(2), Some(3))];
      var s2 := [Got(Some(4), Some(5)), Got(None, Some(6))];
      && Complete(s1[1]) && Complete(s2[0])
      && Pairs(s1, s2) == []
  {
    var s1 := [Got(None, Some(1)), Got(Some(2), Some(3))];
    var s2 := [Got(Some(4), Some(5)), Got(None, Some(6))];
    assert FirstFailure(s1[1..][1..]) == 0;
    assert FirstFailure(s2[1..][1..]) == 0;
    assert StopStep(s1, s2) == 2;
  }

  // ---------------------------------------------------------------------------
  // The writes of the frames

  /** Write `j` of frame `k` sits at position `6 * k + j` of the log. */
  lemma {:induction false} WritesAt(ps: seq<Pair>)
    ensures forall k, j :: 0 <= k < |ps| && 0 <= j < 6 ==>
      AllWrites(ps)[6 * k + j] == FrameWrites(k, ps[k])[j]
  {
    if ps != [] {
      var front := ps[..|ps| - 1];
      WritesAt(front);
      assert ps == front + [ps[|ps| - 1]];
      AllWritesAppend(front, ps[|ps| - 1]);
    }
  }

  /** Every write of the pairing loop is a video frame or an image file;
      each image of a depth directory holds the raw 16-bit raster, each image
      of a colour directory a colour raster, and the merged depth video only
      colour-mapped depth. */
  predicate WellFormedWrite(e: Effect)
  {
    match e
    case VideoFrame(video, left, right) =>
      if video == MergedRgb then left.Color? && right.Color? else left.DepthJet? && right.DepthJet?
    case ImageFile(dir, _, raster) =>
      if dir == Cam1Color || dir == Cam2Color then raster.Color? else raster.Depth16?
    case _ => false
  }

  lemma {:induction false} AllWritesWellFormed(ps: seq<Pair>)
    ensures forall i :: 0 <= i < |AllWrites(ps)| ==> WellFormedWrite(AllWrites(ps)[i])
  {
    if ps != [] {
      AllWritesWellFormed(ps[..|ps| - 1]);
    }
  }

  /** Image writes carry the frame number of the step that issued them. */
  lemma {:induction false} ImageIndexBelow(ps: seq<Pair>)
    ensures forall i :: 0 <= i < |AllWrites(ps)| && AllWrites(ps)[i].ImageFile? ==>
      AllWrites(ps)[i].index < |ps|
  {
    if ps != [] {
      ImageIndexBelow(ps[..|ps| - 1]);
    }
  }

  /** No two image writes of a take target the same directory and frame
      number. */
  predicate ImagesDistinct(ws: seq<Effect>)
  {
    forall i, j :: 0 <= i < j < |ws| && ws[i].ImageFile? && ws[j].ImageFile? ==>
      ws[i].dir != ws[j].dir || ws[i].index != ws[j].index
  }

  lemma {:induction false} NoImageWrittenTwice(ps: seq<Pair>)
    ensures ImagesDistinct(AllWrites(ps))
  {
    if ps != [] {
      var front := ps[..|ps| - 1];
      NoImageWrittenTwice(front);
      ImageIndexBelow(front);
      var a, block := AllWrites(front), FrameWrites(|front|, ps[|ps| - 1]);
      var ws := AllWrites(ps);
      assert ws == a + block;
      BlockImagesDistinct(|front|, ps[|ps| - 1]);
      forall i, j | 0 <= i < j < |ws| && ws[i].ImageFile? && ws[j].ImageFile?
        ensures ws[i].dir != ws[j].dir || ws[i].index != ws[j].index
      {
        if j < |a| {
          assert ws[i] == a[i] && ws[j] == a[j];
        } else if i < |a| {
          assert ws[i] == a[i] && ws[j] == block[j - |a|];
          assert a[i].index < |front|;
          assert block[j - |a|].index == |front|;
        } else {
          assert ws[i] == block[i - |a|] && ws[j] == block[j - |a|];
        }
      }
    }
  }

  lemma BlockImagesDistinct(k: nat, p: Pair)
    ensures var b := FrameWrites(k, p);
      && (forall x, y :: 0 <= x < y < 6 && b[x].ImageFile? && b[y].ImageFile? ==> b[x].dir != b[y].dir)
      && (forall x :: 0 <= x < 6 && b[x].ImageFile? ==> b[x].index == k)
  {
  }

  /** Every image of every frame is written. */
  lemma EveryImageWritten(ps: seq<Pair>, d: ImageDir, k: nat)
    requires k < |ps|
    ensures exists i, r :: 0 <= i < |AllWrites(ps)| && AllWrites(ps)[i] == ImageFile(d, k, r)
  {
    WritesAt(ps);
    var j := match d
      case Cam1Color => 2
      case Cam2Color => 3
      case Cam1Depth => 4
      case Cam2Depth => 5;
    assert AllWrites(ps)[6 * k + j] == FrameWrites(k, ps[k])[j];
  }

  /** The frame files of a take have distinct paths, so no write overwrites
      another. */
  lemma ImageFilePathInjective(out: string, d1: ImageDir, k1: nat, d2: ImageDir, k2: nat)
    requires ImageFilePath(out, d1, k1) == ImageFilePath(out, d2, k2)
    ensures d1 == d2 && k1 == k2
  {
    var f1, f2 := FormatInt(k1, 4), FormatInt(k2, 4);
    var n1, n2 := FrameName(k1), FrameName(k2);
    var dir1, dir2 := PathJoin(out, DirName(d1)), PathJoin(out, DirName(d2));
    assert |dir1 + "/"| == |dir2 + "/"|;
    ConcatSplit(dir1 + "/", n1, dir2 + "/", n2);
    ConcatSplit(dir1, "/", dir2, "/");
    ConcatSplit(out + "/", DirName(d1), out + "/", DirName(d2));
    assert d1 == d2;
    ConcatSplit("frame_" + f1, ".png", "frame_" + f2, ".png");
    ConcatSplit("frame_", f1, "frame_", f2);
    FormatIntInjective(k1, k2, 4);
  }

  lemma ConcatSplit(a: string, b: string, c: string, d: string)
    requires a + b == c + d && |a| == |c|
    ensures a == c && b == d
  {
    assert a == (a + b)[..|a|] && c == (c + d)[..|c|];
    assert b == (a + b)[|a|..] && d == (c + d)[|c|..];
  }

  // ---------------------------------------------------------------------------
  // Counting frames per output

  /** The outputs a take fills frame by frame. */
  datatype Output = VideoOut(video: Video) | ImageOut(dir: ImageDir)

  predicate WritesTo(e: Effect, o: Output)
  {
    match o
    case VideoOut(v) => e.VideoFrame? && e.video == v
    case ImageOut(d) => e.ImageFile? && e.dir == d
  }

  /** How many frames a log writes to output `o`. */
  function FramesTo(ws: seq<Effect>, o: Output): nat
  {
    if ws == [] then 0
    else FramesTo(ws[..|ws| - 1], o) + if WritesTo(ws[|ws| - 1], o) then 1 else 0
  }

  lemma {:induction false} FramesToAppend(a: seq<Effect>, b: seq<Effect>, o: Output)
    ensures FramesTo(a + b, o) == FramesTo(a, o) + FramesTo(b, o)
    decreases |b|
  {
    if b != [] {
      var front := b[..|b| - 1];
      FramesToAppend(a, front, o);
      assert (a + b)[..|a + b| - 1] == a + front;
    } else {
      assert a + b == a;
    }
  }

  lemma {:induction false} FramesPerOutput(ps: seq<Pair>, o: Output)
    ensures FramesTo(AllWrites(ps), o) == |ps|
  {
    if ps != [] {
      var front := ps[..|ps| - 1];
      FramesPerOutput(front, o);
      var block := FrameWrites(|front|, ps[|ps| - 1]);
      FramesToAppend(AllWrites(front), block, o);
      FramesToSix(block, o);
    }
  }

  lemma NoFramesOutsideLoop(cfg: Config, action: string, take: int, bag1: string, bag2: string, o: Output)
    ensures FramesTo(Setup(cfg, action, take) + [StartPlayback(Cam1, bag1), StartPlayback(Cam2, bag2)], o) == 0
    ensures FramesTo(Teardown, o) == 0
  {
    var s := Setup(cfg, action, take) + [StartPlayback(Cam1, bag1), StartPlayback(Cam2, bag2)];
    NoFrames(s, o);
    NoFrames(Teardown, o);
  }

  lemma {:induction false} NoFrames(ws: seq<Effect>, o: Output)
    requires forall i :: 0 <= i < |ws| ==> !ws[i].VideoFrame? && !ws[i].ImageFile?
    ensures FramesTo(ws, o) == 0
  {
    if ws != [] {
      NoFrames(ws[..|ws| - 1], o);
    }
  }

  lemma FramesToSix(b: seq<Effect>, o: Output)
    requires |b| == 6
    ensures FramesTo(b, o) == (if WritesTo(b[0], o) then 1 else 0) + (if WritesTo(b[1], o) then 1 else 0)
      + (if WritesTo(b[2], o) then 1 else 0) + (if WritesTo(b[3], o) then 1 else 0)
      + (if WritesTo(b[4], o) then 1 else 0) + (if WritesTo(b[5], o) then 1 else 0)
  {
    forall m | 1 <= m <= 6
      ensures FramesTo(b[..m], o) == FramesTo(b[..m - 1], o) + if WritesTo(b[m - 1], o) then 1 else 0
    {
      assert b[..m][..m - 1] == b[..m - 1];
    }
    assert b[..6] == b;
  }

  // ---------------------------------------------------------------------------
  // Outcomes of a take

  predicate Starts(bags: map<string, Recording>, bag1: string, bag2: string)
  {
    bag1 in bags && bag2 in bags && bags[bag1].Playable? && bags[bag2].Playable?
  }

  predicate IsTeardown(e: Effect)
  {
    e.StopPlayback? || e.ReleaseVideo?
  }

  /** A take with a missing recording is skipped and touches nothing, and
      only such a take is. */
  lemma SkippedIffMissing(cfg: Config, action: string, take: int, bags: map<string, Recording>,
                          fault: Option<nat>)
    ensures var run := Expected(cfg, action, take, bags, fault);
      var missing := BagPath(cfg, action, take, cfg.serial1) !in bags
                     || BagPath(cfg, action, take, cfg.serial2) !in bags;
      && (run.ending == Returned(Skipped(take)) <==> missing)
      && (run.effects == [] <==> missing)
  {
    assert |Setup(cfg, action, take)| == 6;
  }

  /** When a playback cannot start, the take reports the SDK's message; what
      was already opened (the image directories, both video writers and,
      when the second recording is the bad one, the first playback) is never
      stopped or released. */
  lemma StartFailureLeaks(cfg: Config, action: string, take: int, bags: map<string, Recording>,
                          fault: Option<nat>)
    requires var bag1, bag2 := BagPath(cfg, action, take, cfg.serial1), BagPath(cfg, action, take, cfg.serial2);
      bag1 in bags && bag2 in bags && (bags[bag1].Unplayable? || bags[bag2].Unplayable?)
    ensures var run := Expected(cfg, action, take, bags, fault);
      var bag1, bag2 := BagPath(cfg, action, take, cfg.serial1), BagPath(cfg, action, take, cfg.serial2);
      && run.ending.Returned? && run.ending.status.StartFailed?
      && run.ending.status.reason == (if bags[bag1].Unplayable? then bags[bag1].reason else bags[bag2].reason)
      && (forall i :: 0 <= i < |run.effects| ==> !IsTeardown(run.effects[i]))
      && OpenVideo(MergedRgb, VideoPath(cfg, action, take, MergedRgb), 2 * cfg.width, cfg.height, cfg.fps) in run.effects
      && (bags[bag1].Playable? <==> StartPlayback(Cam1, bag1) in run.effects)
  {
    var setup := Setup(cfg, action, take);
    assert setup[4] == OpenVideo(MergedRgb, VideoPath(cfg, action, take, MergedRgb), 2 * cfg.width, cfg.height, cfg.fps);
    assert forall i :: 0 <= i < |setup| ==> setup[i].MakeDir? || setup[i].OpenVideo?;
  }

  /** Once both playbacks have started, the `finally` runs whichever way the
      loop ends: the log is the set-up, the loop's writes and then the four
      teardown calls, and nothing else stops or releases anything. The take
      raises exactly when the fault falls on a write or right after the last
      one, and then its writes are the first `fault` writes of a fault-free
      run; otherwise they are all of them. */
  lemma TeardownOnEveryExit(cfg: Config, action: string, take: int, bags: map<string, Recording>,
                            fault: Option<nat>)
    requires Starts(bags, BagPath(cfg, action, take, cfg.serial1), BagPath(cfg, action, take, cfg.serial2))
    ensures var run := Expected(cfg, action, take, bags, fault);
      var bag1, bag2 := BagPath(cfg, action, take, cfg.serial1), BagPath(cfg, action, take, cfg.serial2);
      var started := Setup(cfg, action, take) + [StartPlayback(Cam1, bag1), StartPlayback(Cam2, bag2)];
      var all := AllWrites(Pairs(bags[bag1].playback, bags[bag2].playback));
      && (run.ending == Raised <==> fault.Some? && fault.value <= |all|)
      && exists ws: seq<Effect> ::
        && run.effects == started + ws + Teardown
        && ws <= all
        && (run.ending == Raised ==> |ws| == fault.value)
        && (run.ending != Raised ==> ws == all)
        && (forall i :: 0 <= i < |run.effects| - 4 ==> !IsTeardown(run.effects[i]))
  {
    var bag1, bag2 := BagPath(cfg, action, take, cfg.serial1), BagPath(cfg, action, take, cfg.serial2);
    var started := Setup(cfg, action, take) + [StartPlayback(Cam1, bag1), StartPlayback(Cam2, bag2)];
    var ps := Pairs(bags[bag1].playback, bags[bag2].playback);
    var all := AllWrites(ps);
    var ws := if fault.Some? && fault.value <= |all| then all[..fault.value] else all;
    var run := Expected(cfg, action, take, bags, fault);
    var effects := run.effects;
    assert effects == started + ws + Teardown;
    assert ws <= all;
    assert run.ending == Raised <==> fault.Some? && fault.value <= |all|;
    AllWritesWellFormed(ps);
    assert forall i :: 0 <= i < |started| ==> !IsTeardown(started[i]);
    NoEarlyTeardown(started, ws);
    assert && effects == started + ws + Teardown
           && ws <= all
           && (run.ending == Raised ==> |ws| == fault.value)
           && (run.ending != Raised ==> ws == all)
           && (forall i :: 0 <= i < |effects| - 4 ==> !IsTeardown(effects[i]));
  }

  /** Set-up calls and well-formed writes are not teardown calls, so only the
      last four effects of a run stop or release anything. */
  lemma NoEarlyTeardown(started: seq<Effect>, ws: seq<Effect>)
    requires forall i :: 0 <= i < |started| ==> !IsTeardown(started[i])
    requires forall i :: 0 <= i < |ws| ==> WellFormedWrite(ws[i])
    ensures forall i :: 0 <= i < |started + ws + Teardown| - 4 ==> !IsTeardown((started + ws + Teardown)[i])
  {
    var effects := started + ws + Teardown;
    forall i | 0 <= i < |effects| - 4
      ensures !IsTeardown(effects[i])
    {
      if i < |started| {
        assert effects[i] == started[i];
      } else {
        assert effects[i] == ws[i - |started|];
      }
    }
  }

  /** A take that completes reports as its frame count the number of frames
      each of its six outputs received. */
  lemma ProcessedCountsFrames(cfg: Config, action: string, take: int, bags: map<string, Recording>,
                              fault: Option<nat>, o: Output)
    requires Expected(cfg, action, take, bags, fault).ending.Returned?
    requires Expected(cfg, action, take, bags, fault).ending.status.Processed?
    ensures var run := Expected(cfg, action, take, bags, fault);
      run.ending.status.frames == FramesTo(run.effects, o)
  {
    var bag1, bag2 := BagPath(cfg, action, take, cfg.serial1), BagPath(cfg, action, take, cfg.serial2);
    var started := Setup(cfg, action, take) + [StartPlayback(Cam1, bag1), StartPlayback(Cam2, bag2)];
    var ps := Pairs(bags[bag1].playback, bags[bag2].playback);
    var ws := AllWrites(ps);
    assert Expected(cfg, action, take, bags, fault).effects == started + ws + Teardown;
    FramesToAppend(started + ws, Teardown, o);
    FramesToAppend(started, ws, o);
    NoFramesOutsideLoop(cfg, action, take, bag1, bag2, o);
    FramesPerOutput(ps, o);
  }

  /** A fault changes a take only by cutting its writes short: what it does
      before the failing call is what a fault-free run does. A fault after
      the last write leaves the whole log of a fault-free run; only the
      ending differs. */
  lemma FaultKeepsPrefix(cfg: Config, action: string, take: int, bags: map<string, Recording>, f: nat)
    requires Expected(cfg, action, take, bags, Some(f)).ending == Raised
    ensures var faulty, clean := Expected(cfg, action, take, bags, Some(f)), Expected(cfg, action, take, bags, None);
      var n := |faulty.effects| - 4;
      && clean.ending.Returned? && clean.ending.status.Processed?
      && faulty.effects[..n] == clean.effects[..n]
      && n <= |clean.effects| - 4
      && (n == |clean.effects| - 4 ==> faulty.effects == clean.effects)
  {
    var bag1, bag2 := BagPath(cfg, action, take, cfg.serial1), BagPath(cfg, action, take, cfg.serial2);
    var started := Setup(cfg, action, take) + [StartPlayback(Cam1, bag1), StartPlayback(Cam2, bag2)];
    var ws := AllWrites(Pairs(bags[bag1].playback, bags[bag2].playback));
    var faulty := Expected(cfg, action, take, bags, Some(f)).effects;
    var clean := Expected(cfg, action, take, bags, None).effects;
    assert faulty == started + ws[..f] + Teardown;
    assert clean == started + ws + Teardown;
    var n := |started| + f;
    assert faulty[..n] == started + ws[..f];
    assert clean[..n] == started + ws[..f];
    if n == |clean| - 4 {
      assert ws[..f] == ws;
    }
  }

  /** An exception after the last write, in a later read, in alignment or in
      the read that would end the loop, raises after making every write a
      fault-free run makes. */
  lemma RaiseAfterLastWrite(cfg: Config, action: string, take: int, bags: map<string, Recording>)
    requires Starts(bags, BagPath(cfg, action, take, cfg.serial1), BagPath(cfg, action, take, cfg.serial2))
    ensures exists f: nat ::
      Expected(cfg, action, take, bags, Some(f)) == TakeRun(Raised, Expected(cfg, action, take, bags, None).effects)
  {
    var bag1, bag2 := BagPath(cfg, action, take, cfg.serial1), BagPath(cfg, action, take, cfg.serial2);
    var ws := AllWrites(Pairs(bags[bag1].playback, bags[bag2].playback));
    assert ws[..|ws|] == ws;
    assert Expected(cfg, action, take, bags, Some(|ws|))
      == TakeRun(Raised, Expected(cfg, action, take, bags, None).effects);
  }
}
