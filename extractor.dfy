/** The per-take worker `process_take` of process.py: it checks that both
    camera recordings of a take exist, creates the four image directories and
    the two merged videos, starts playback of both recordings, pairs their
    frame sets step by step, writes one merged colour frame, one merged
    false-colour depth frame and four raw images per complete step, tears
    everything down in a `finally`, and reports a status.

    The SDK and the encoders are abstract: a recording is the sequence of read
    results it plays back, rasters are identifiers, and what the take does to
    the outside world is an ordered log of effects. */
module Extractor {
  import opened PyText

  /** The read-only settings at the top of process.py. */
  datatype Config = Config(
    serial1: string, serial2: string,
    width: nat, height: nat, fps: nat,
    datasetDir: string, outputDir: string)

  /** The serial number the script ships with and asks to be replaced. */
  const Placeholder: string := "000000000000"

  const Shipped: Config := Config(Placeholder, Placeholder, 640, 480, 15, "Dataset", "Dataset_Extracted")

  /** One call of `try_wait_for_frames(100)` followed by `align.process`:
      a failure (timeout or end of playback), or a frame set whose colour and
      aligned depth rasters may each be missing. Rasters are identifiers. */
  datatype Read = Failed | Got(color: Option<nat>, depth: Option<nat>)

  /** A .bag file on disk: one whose playback cannot start (the text of the
      SDK's RuntimeError), or one that plays back as a sequence of reads;
      every read past its end fails. */
  datatype Recording = Unplayable(reason: string) | Playable(playback: seq<Read>)

  datatype Camera = Cam1 | Cam2

  datatype Video = MergedRgb | MergedDepth

  /** The pixels that reach an output: a colour raster, a raw 16-bit depth
      raster, or a depth raster scaled and colour-mapped for viewing. */
  datatype Raster = Color(id: nat) | Depth16(id: nat) | DepthJet(id: nat)

  /** The four per-frame image directories of a take. */
  datatype ImageDir = Cam1Color | Cam1Depth | Cam2Color | Cam2Depth

  /** What a take does to the world outside it, in order. An image write
      names its directory and frame index; `ImageFilePath` spells out the
      file it creates. */
  datatype Effect =
    | MakeDir(path: string)
    | OpenVideo(video: Video, path: string, width: nat, height: nat, fps: nat)
    | StartPlayback(camera: Camera, bag: string)
    | VideoFrame(video: Video, left: Raster, right: Raster)
    | ImageFile(dir: ImageDir, index: nat, raster: Raster)
    | StopPlayback(camera: Camera)
    | ReleaseVideo(video: Video)

  /** The three status strings `process_take` can return. */
  datatype Status =
    | Skipped(take: int)
    | StartFailed(take: int, reason: string)
    | Processed(take: int, frames: nat)

  /** A take either returns a status, or an exception raised inside the
      pairing loop leaves it once the `finally` has run. */
  datatype Ending = Returned(status: Status) | Raised

  datatype TakeRun = TakeRun(ending: Ending, effects: seq<Effect>)

  // ---------------------------------------------------------------------------
  // Names

  /** `f"take_{take_number:02d}"` */
  function TakeName(take: int): string
  {
    "take_" + FormatInt(take, 2)
  }

  /** `int(name.split('_')[1])`: the take number both scripts read back
      from a file name; `None` stands for the `IndexError` or `ValueError`. */
  function TakeField(filename: string): Option<int>
  {
    var parts := Split(filename, '_');
    if |parts| < 2 then None else ParseInt(parts[1])
  }

  /** For a name starting with `take_` the `IndexError` cannot happen: the
      split yields `take` and at least one more field. */
  lemma TakePrefixSplits(filename: string)
    requires StartsWith(filename, "take_")
    ensures var parts := Split(filename, '_');
      |parts| >= 2 && parts[0] == "take" && parts[1..] == Split(filename[5..], '_')
  {
    assert filename == "take" + ['_'] + filename[5..];
    SplitField("take", '_', filename[5..]);
  }

  /** Reading back a name built from `take_NN` followed by `_` and anything
      gives the take number: `int(f"take_{n:02d}_...".split('_')[1]) == n`. */
  lemma TakeFieldOfName(take: int, rest: string)
    ensures TakeField(TakeName(take) + "_" + rest) == Some(take)
  {
    var digits := FormatInt(take, 2);
    FormatIntShape(take, 2);
    assert TakeName(take) + "_" + rest == "take" + ['_'] + (digits + ['_'] + rest);
    SplitField(digits, '_', rest);
    SplitField("take", '_', digits + ['_'] + rest);
    ParseFormatInt(take, 2);
  }

  /** `_<serial>.bag`: how the name of camera `serial`'s recording ends. */
  function BagSuffix(serial: string): string
  {
    "_" + serial + ".bag"
  }

  /** `take_NN_<serial>.bag` */
  function BagName(take: int, serial: string): string
  {
    TakeName(take) + BagSuffix(serial)
  }

  lemma BagSuffixInjective(serial1: string, serial2: string)
    ensures BagSuffix(serial1) == BagSuffix(serial2) ==> serial1 == serial2
  {
    var t1, t2 := BagSuffix(serial1), BagSuffix(serial2);
    assert t1[1..|t1| - 4] == serial1 && t2[1..|t2| - 4] == serial2;
  }

  /** A recording's name reads back as its take number. */
  lemma BagNameTakeField(take: int, serial: string)
    ensures TakeField(BagName(take, serial)) == Some(take)
  {
    assert BagName(take, serial) == TakeName(take) + "_" + (serial + ".bag");
    TakeFieldOfName(take, serial + ".bag");
  }

  /** `Dataset/<action>/take_NN_<serial>.bag` */
  function BagPath(cfg: Config, action: string, take: int, serial: string): string
  {
    PathJoin(PathJoin(cfg.datasetDir, action), BagName(take, serial))
  }

  /** `Dataset_Extracted/<action>/take_NN` */
  function OutputPath(cfg: Config, action: string, take: int): string
  {
    PathJoin(PathJoin(cfg.outputDir, action), TakeName(take))
  }

  function DirName(d: ImageDir): string
  {
    match d
    case Cam1Color => "cam1_color"
    case Cam1Depth => "cam1_depth"
    case Cam2Color => "cam2_color"
    case Cam2Depth => "cam2_depth"
  }

  /** The four image directories, in the order the dictionary lists them. */
  const ImageDirOrder: seq<ImageDir> := [Cam1Color, Cam1Depth, Cam2Color, Cam2Depth]

  function ImageDirs(out: string): seq<string>
  {
    seq(4, i requires 0 <= i < 4 => PathJoin(out, DirName(ImageDirOrder[i])))
  }

  /** `<output>/<action>/<action>_take_NN_merged_rgb.mov` and its depth twin. */
  function VideoPath(cfg: Config, action: string, take: int, video: Video): string
  {
    var suffix := if video == MergedRgb then "_merged_rgb.mov" else "_merged_depth.mov";
    PathJoin(PathJoin(cfg.outputDir, action), action + "_take_" + FormatInt(take, 2) + suffix)
  }

  /** `f"frame_{frame_count:04d}.png"` */
  function FrameName(k: nat): string
  {
    "frame_" + FormatInt(k, 4) + ".png"
  }

  /** `os.path.join(paths_to_create[<dir>], f"frame_{frame_count:04d}.png")` */
  function ImageFilePath(out: string, d: ImageDir, k: nat): string
  {
    PathJoin(PathJoin(out, DirName(d)), FrameName(k))
  }

  /** The string `process_take` returns. */
  function StatusText(s: Status): string
  {
    match s
    case Skipped(take) =>
      "Skipped take " + FormatInt(take, 2) + ": one or both .bag files are missing."
    case StartFailed(take, reason) =>
      "ERROR processing take " + FormatInt(take, 2) + ": " + reason + ". Skipping."
    case Processed(take, frames) =>
      "Processed take " + FormatInt(take, 2) + " (" + Decimal(frames) + " frames)"
  }

  // ---------------------------------------------------------------------------
  // The pairing of two streams, stated without the loop

  function ReadAt(s: seq<Read>, i: nat): Read
  {
    if i < |s| then s[i] else Failed
  }

  /** Both rasters of a frame set are present. */
  predicate Complete(r: Read)
  {
    r.Got? && r.color.Some? && r.depth.Some?
  }

  /** How many reads of a stream succeed before the first failing one. */
  function FirstFailure(s: seq<Read>): (n: nat)
    ensures n <= |s|
    ensures forall j :: 0 <= j < n ==> s[j].Got?
    ensures n < |s| ==> s[n].Failed?
  {
    if s == [] || s[0].Failed? then 0 else 1 + FirstFailure(s[1..])
  }

  /** The step at which the pairing loop stops: the first where either
      stream's read fails. */
  function StopStep(s1: seq<Read>, s2: seq<Read>): nat
  {
    var f1, f2 := FirstFailure(s1), FirstFailure(s2);
    if f1 <= f2 then f1 else f2
  }

  /** The rasters of one complete pairing step, and the step it came from. */
  datatype Pair = Pair(step: nat, color1: nat, depth1: nat, color2: nat, depth2: nat)

  function PairAt(s1: seq<Read>, s2: seq<Read>, i: nat): Pair
    requires i < |s1| && i < |s2| && Complete(s1[i]) && Complete(s2[i])
  {
    Pair(i, s1[i].color.value, s1[i].depth.value, s2[i].color.value, s2[i].depth.value)
  }

  /** The complete steps among the first `n`, in order. */
  function PairsBefore(s1: seq<Read>, s2: seq<Read>, n: nat): (ps: seq<Pair>)
    requires n <= |s1| && n <= |s2|
    ensures |ps| <= n
  {
    if n == 0 then []
    else
      var i := n - 1;
      PairsBefore(s1, s2, i) + if Complete(s1[i]) && Complete(s2[i]) then [PairAt(s1, s2, i)] else []
  }

  /** The frame sets a take writes, one per complete step before the stop. */
  function Pairs(s1: seq<Read>, s2: seq<Read>): seq<Pair>
  {
    PairsBefore(s1, s2, StopStep(s1, s2))
  }

  /** The six writes of one complete step, in the order the source issues
      them: merged colour frame, merged colour-mapped depth frame, then the
      colour images of both cameras and the raw depth images of both. */
  function FrameWrites(k: nat, p: Pair): seq<Effect>
  {
    seq(6, j requires 0 <= j < 6 => FrameWrite(k, p, j))
  }

  function FrameWrite(k: nat, p: Pair, j: nat): Effect
    requires j < 6
  {
    match j
    case 0 => VideoFrame(MergedRgb, Color(p.color1), Color(p.color2))
    case 1 => VideoFrame(MergedDepth, DepthJet(p.depth1), DepthJet(p.depth2))
    case 2 => ImageFile(Cam1Color, k, Color(p.color1))
    case 3 => ImageFile(Cam2Color, k, Color(p.color2))
    case 4 => ImageFile(Cam1Depth, k, Depth16(p.depth1))
    case 5 => ImageFile(Cam2Depth, k, Depth16(p.depth2))
  }

  /** The writes of a sequence of steps, the k-th numbered k. */
  function AllWrites(ps: seq<Pair>): (ws: seq<Effect>)
    ensures |ws| == 6 * |ps|
  {
    if ps == [] then []
    else AllWrites(ps[..|ps| - 1]) + FrameWrites(|ps| - 1, ps[|ps| - 1])
  }

  function Setup(cfg: Config, action: string, take: int): seq<Effect>
  {
    var dirs := ImageDirs(OutputPath(cfg, action, take));
    seq(4, i requires 0 <= i < 4 => MakeDir(dirs[i]))
    + [ OpenVideo(MergedRgb, VideoPath(cfg, action, take, MergedRgb), 2 * cfg.width, cfg.height, cfg.fps),
        OpenVideo(MergedDepth, VideoPath(cfg, action, take, MergedDepth), 2 * cfg.width, cfg.height, cfg.fps) ]
  }

  /** The body of the `finally`. */
  const Teardown: seq<Effect> :=
    [StopPlayback(Cam1), StopPlayback(Cam2), ReleaseVideo(MergedRgb), ReleaseVideo(MergedDepth)]

  /** What a take does, stated in closed form. `fault` is the ordinal of the
      write call (counting six per complete step) that raises, if any. An
      ordinal equal to the number of writes stands for an exception after
      the last write: in a later read or alignment, or in the read that
      would end the loop. A larger ordinal never comes into play. */
  function Expected(cfg: Config, action: string, take: int, bags: map<string, Recording>,
                    fault: Option<nat>): TakeRun
  {
    var bag1, bag2 := BagPath(cfg, action, take, cfg.serial1), BagPath(cfg, action, take, cfg.serial2);
    if bag1 !in bags || bag2 !in bags then TakeRun(Returned(Skipped(take)), [])
    else
      var setup := Setup(cfg, action, take);
      if bags[bag1].Unplayable? then TakeRun(Returned(StartFailed(take, bags[bag1].reason)), setup)
      else if bags[bag2].Unplayable? then
        TakeRun(Returned(StartFailed(take, bags[bag2].reason)), setup + [StartPlayback(Cam1, bag1)])
      else
        var started := setup + [StartPlayback(Cam1, bag1), StartPlayback(Cam2, bag2)];
        var ps := Pairs(bags[bag1].playback, bags[bag2].playback);
        var ws := AllWrites(ps);
        if fault.Some? && fault.value <= |ws| then
          TakeRun(Raised, started + ws[..fault.value] + Teardown)
        else
          TakeRun(Returned(Processed(take, |ps|)), started + ws + Teardown)
  }

  // ---------------------------------------------------------------------------
  // The worker

  /** The directories and video writers a take creates before it starts
      playback: `os.makedirs` for each of the four image directories, then
      one `VideoWriter` per merged video at twice the camera width. */
  method CreateOutputs(cfg: Config, action: string, take: int) returns (effects: seq<Effect>)
    ensures effects == Setup(cfg, action, take)
  {
    var dirs := ImageDirs(OutputPath(cfg, action, take));
    effects := [];
    for i := 0 to |dirs|
      invariant |effects| == i
      invariant forall j :: 0 <= j < i ==> effects[j] == MakeDir(dirs[j])
    {
      effects := effects + [MakeDir(dirs[i])];
    }
    effects := effects + [
      OpenVideo(MergedRgb, VideoPath(cfg, action, take, MergedRgb), 2 * cfg.width, cfg.height, cfg.fps),
      OpenVideo(MergedDepth, VideoPath(cfg, action, take, MergedDepth), 2 * cfg.width, cfg.height, cfg.fps)];
  }

  /** The `while True` loop of `process_take`: one read from each stream per
      step; stop at the first failing read; drop a step with a missing
      raster; otherwise issue the step's six writes and count the frame. A
      write whose ordinal is `fault` raises, and the writes before it stand.
      When `fault` is the number of writes made so far at the top of a step,
      that step's reads or alignment raise before anything more is written;
      this is how an exception after the last write shows. */
  method PairingLoop(s1: seq<Read>, s2: seq<Read>, fault: Option<nat>)
    returns (raised: bool, frameCount: nat, writes: seq<Effect>)
    ensures raised == (fault.Some? && fault.value <= |AllWrites(Pairs(s1, s2))|)
    ensures raised ==> writes == AllWrites(Pairs(s1, s2))[..fault.value]
    ensures !raised ==> writes == AllWrites(Pairs(s1, s2)) && frameCount == |Pairs(s1, s2)|
  {
    ghost var stop := StopStep(s1, s2);
    ghost var done: seq<Pair> := [];
    var step: nat := 0;
    frameCount, writes, raised := 0, [], false;
    while true
      invariant step <= stop
      invariant done == PairsBefore(s1, s2, step)
      invariant frameCount == |done|
      invariant fault.Some? ==> 6 * frameCount <= fault.value
      invariant writes == AllWrites(done)
      decreases stop - step
    {
      if fault.Some? && fault.value == 6 * frameCount {
        raised := true;
        FaultBeforeStep(s1, s2, step, fault.value);
        break;
      }
      var r1, r2 := ReadAt(s1, step), ReadAt(s2, step);
      if r1.Failed? || r2.Failed? {
        StopsAtFailure(s1, s2, step);
        break;
      }
      BeforeStop(s1, s2, step);
      step := step + 1;
      if !(Complete(r1) && Complete(r2)) {
        IncompleteStep(s1, s2, step - 1);
        continue;
      }
      var pair := PairAt(s1, s2, step - 1);
      var block := FrameWrites(frameCount, pair);
      CompleteStep(s1, s2, step - 1);
      if fault.Some? && fault.value < 6 * frameCount + 6 {
        writes := writes + block[..fault.value - 6 * frameCount];
        raised := true;
        FaultInStep(s1, s2, step, fault.value, done, pair);
        break;
      }
      AllWritesAppend(done, pair);
      done := done + [pair];
      writes := writes + block;
      frameCount := frameCount + 1;
    }
  }

  /** A failing read at a step the loop reaches is the stop step, so the
      pairs so far are all of them. */
  lemma StopsAtFailure(s1: seq<Read>, s2: seq<Read>, n: nat)
    requires n <= StopStep(s1, s2)
    requires ReadAt(s1, n).Failed? || ReadAt(s2, n).Failed?
    ensures n == StopStep(s1, s2) && PairsBefore(s1, s2, n) == Pairs(s1, s2)
  {
  }

  /** A fault inside the step that completes pair `pair` leaves the writes
      of the earlier pairs and the first few of this one: a prefix of the
      writes of the whole take. */
  lemma FaultInStep(s1: seq<Read>, s2: seq<Read>, n: nat, f: nat, done: seq<Pair>, pair: Pair)
    requires n <= StopStep(s1, s2) && n <= |s1| && n <= |s2|
    requires PairsBefore(s1, s2, n) == done + [pair]
    requires 6 * |done| <= f < 6 * |done| + 6
    ensures f < |AllWrites(Pairs(s1, s2))|
    ensures AllWrites(done) + FrameWrites(|done|, pair)[..f - 6 * |done|] == AllWrites(Pairs(s1, s2))[..f]
  {
    AllWritesAppend(done, pair);
    TruncatedBlock(AllWrites(done), FrameWrites(|done|, pair), f - 6 * |done|);
    FaultPrefix(s1, s2, n, f);
  }

  /** A fault at the top of step `n`, before it reads, leaves the writes of
      the pairs so far: a prefix of the writes of the whole take. */
  lemma FaultBeforeStep(s1: seq<Read>, s2: seq<Read>, n: nat, f: nat)
    requires n <= StopStep(s1, s2) && f == |AllWrites(PairsBefore(s1, s2, n))|
    ensures f <= |AllWrites(Pairs(s1, s2))|
    ensures AllWrites(Pairs(s1, s2))[..f] == AllWrites(PairsBefore(s1, s2, n))
  {
    var done, all := PairsBefore(s1, s2, n), Pairs(s1, s2);
    PairsBeforePrefix(s1, s2, n, StopStep(s1, s2));
    AllWritesMonotone(done, all);
  }

  lemma TruncatedBlock(ws: seq<Effect>, block: seq<Effect>, k: nat)
    requires k <= |block|
    ensures ws + block[..k] == (ws + block)[..|ws| + k]
  {
  }

  /** The writes issued up to a fault inside step `n` are a prefix of the
      writes of the whole take. */
  lemma FaultPrefix(s1: seq<Read>, s2: seq<Read>, n: nat, f: nat)
    requires n <= StopStep(s1, s2) && f < |AllWrites(PairsBefore(s1, s2, n))|
    ensures f < |AllWrites(Pairs(s1, s2))|
    ensures AllWrites(Pairs(s1, s2))[..f] == AllWrites(PairsBefore(s1, s2, n))[..f]
  {
    var done, all := PairsBefore(s1, s2, n), Pairs(s1, s2);
    PairsBeforePrefix(s1, s2, n, StopStep(s1, s2));
    AllWritesMonotone(done, all);
    PrefixTake(AllWrites(done), AllWrites(all), f);
  }

  lemma PrefixTake<T>(a: seq<T>, b: seq<T>, f: nat)
    requires a <= b && f < |a|
    ensures f < |b| && b[..f] == a[..f]
  {
  }

  /** A step before the stop reads from both streams. */
  lemma BeforeStop(s1: seq<Read>, s2: seq<Read>, n: nat)
    requires n <= StopStep(s1, s2) && ReadAt(s1, n).Got? && ReadAt(s2, n).Got?
    ensures n < StopStep(s1, s2) && n < |s1| && n < |s2|
  {
  }

  /** A step with a missing raster adds no pair. */
  lemma IncompleteStep(s1: seq<Read>, s2: seq<Read>, n: nat)
    requires n < |s1| && n < |s2| && !(Complete(s1[n]) && Complete(s2[n]))
    ensures PairsBefore(s1, s2, n + 1) == PairsBefore(s1, s2, n)
  {
  }

  /** A complete step adds its pair. */
  lemma CompleteStep(s1: seq<Read>, s2: seq<Read>, n: nat)
    requires n < |s1| && n < |s2| && Complete(s1[n]) && Complete(s2[n])
    ensures PairsBefore(s1, s2, n + 1) == PairsBefore(s1, s2, n) + [PairAt(s1, s2, n)]
  {
  }

  /** `process_take(action_name, take_number)`. */
  method ProcessTake(cfg: Config, action: string, take: int, bags: map<string, Recording>,
                     fault: Option<nat>)
    returns (ending: Ending, effects: seq<Effect>)
    ensures TakeRun(ending, effects) == Expected(cfg, action, take, bags, fault)
  {
    var bag1 := BagPath(cfg, action, take, cfg.serial1);
    var bag2 := BagPath(cfg, action, take, cfg.serial2);
    if bag1 !in bags || bag2 !in bags {
      return Returned(Skipped(take)), [];
    }
    effects := CreateOutputs(cfg, action, take);
    var rec1, rec2 := bags[bag1], bags[bag2];
    if rec1.Unplayable? {
      return Returned(StartFailed(take, rec1.reason)), effects;
    }
    effects := effects + [StartPlayback(Cam1, bag1)];
    if rec2.Unplayable? {
      return Returned(StartFailed(take, rec2.reason)), effects;
    }
    effects := effects + [StartPlayback(Cam2, bag2)];
    ghost var started := Setup(cfg, action, take) + [StartPlayback(Cam1, bag1), StartPlayback(Cam2, bag2)];
    assert effects == started;

    var raised, frameCount, writes := PairingLoop(rec1.playback, rec2.playback, fault);
    // the `finally`
    effects := effects + writes + Teardown;
    ghost var ws := AllWrites(Pairs(rec1.playback, rec2.playback));
    if raised {
      assert effects == started + ws[..fault.value] + Teardown;
      return Raised, effects;
    }
    assert effects == started + ws + Teardown;
    return Returned(Processed(take, frameCount)), effects;
  }

  lemma AllWritesAppend(ps: seq<Pair>, p: Pair)
    ensures AllWrites(ps + [p]) == AllWrites(ps) + FrameWrites(|ps|, p)
  {
    assert (ps + [p])[..|ps|] == ps;
  }

  lemma {:induction false} PairsBeforePrefix(s1: seq<Read>, s2: seq<Read>, m: nat, n: nat)
    requires m <= n <= |s1| && n <= |s2|
    ensures PairsBefore(s1, s2, m) <= PairsBefore(s1, s2, n)
    decreases n - m
  {
    if m < n {
      PairsBeforePrefix(s1, s2, m, n - 1);
    }
  }

  lemma {:induction false} AllWritesMonotone(ps: seq<Pair>, qs: seq<Pair>)
    requires ps <= qs
    ensures AllWrites(ps) <= AllWrites(qs)
    decreases |qs|
  {
    if |ps| < |qs| {
      var front := qs[..|qs| - 1];
      assert ps <= front;
      AllWritesMonotone(ps, front);
      assert AllWrites(qs) == AllWrites(front) + FrameWrites(|qs| - 1, qs[|qs| - 1]);
    } else {
      assert ps == qs;
    }
  }
}
