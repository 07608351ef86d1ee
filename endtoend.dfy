/** How the two scripts fit together: the files the recorder writes are the
    ones the manager finds and the worker opens, except where the naming
    rules of the two scripts part ways. */
module EndToEnd {
  import opened PyText
  import Extractor
  import Manager
  import Recorder

  /** A file the recorder counts as a take of the first camera is one the
      manager counts too (the manager only asks for `_<serial>.bag`
      somewhere in the name, the recorder at its end). */
  lemma RecorderTakeFileIsCandidate(filename: string, serial1: string)
    requires Recorder.IsTakeFile(filename, serial1)
    ensures Manager.IsCandidate(filename, serial1)
  {
    EndsWithContains(filename, Extractor.BagSuffix(serial1));
  }

  /** The manager reads back the take number the recorder wrote. */
  lemma RecordedTakeReadBack(take: int, serial1: string)
    ensures Manager.TakeOf(Extractor.BagName(take, serial1), serial1) == Some(take)
  {
    Recorder.OutputNameIsTakeFile(take, serial1);
    RecorderTakeFileIsCandidate(Extractor.BagName(take, serial1), serial1);
  }

  /** Where the recorder writes camera `serial`'s file is where the worker
      looks for it. */
  lemma RecordedWhereExtractorLooks(rcfg: Recorder.Config, cfg: Extractor.Config, action: string, take: int)
    requires rcfg.datasetDir == cfg.datasetDir
    requires rcfg.serial1 == cfg.serial1 && rcfg.serial2 == cfg.serial2
    ensures Recorder.OutputFiles(rcfg, action, take).0 == Extractor.BagPath(cfg, action, take, cfg.serial1)
    ensures Recorder.OutputFiles(rcfg, action, take).1 == Extractor.BagPath(cfg, action, take, cfg.serial2)
  {
  }

  /** A recorded take is dispatched: if the dataset directory holds a
      directory `action` whose listing contains the first camera's file of
      take `take`, the manager hands out the task `(action, take)`. */
  lemma RecordedTakeDispatched(entries: seq<Manager.Entry>, serial1: string, e: Manager.Entry, take: int)
    requires e in entries && e.isDir && Extractor.BagName(take, serial1) in e.listing
    ensures Manager.Task(e.name, take) in Manager.AllTasks(entries, serial1)
  {
    var i :| 0 <= i < |e.listing| && e.listing[i] == Extractor.BagName(take, serial1);
    RecordedTakeReadBack(take, serial1);
    Manager.TasksExact(entries, serial1, e.name, take);
  }

  /** The recorder's fifth action, `Idle/Resting`, is written one directory
      further down, under `Dataset/Idle/Resting`. The manager only lists the
      dataset directory's own entries, whose names hold no `/`, so no task
      of a name holding `/` is ever dispatched: those takes are never
      extracted. */
  lemma NestedActionNeverDispatched(entries: seq<Manager.Entry>, serial1: string, action: string, take: int)
    requires forall e :: e in entries ==> '/' !in e.name
    requires '/' in action
    ensures Manager.Task(action, take) !in Manager.AllTasks(entries, serial1)
  {
    Manager.TasksExact(entries, serial1, action, take);
  }

  lemma IdleRestingIsNested()
    ensures Recorder.Shipped.actions[5] == "Idle/Resting" && '/' in Recorder.Shipped.actions[5]
    ensures Recorder.ActionPath(Recorder.Shipped, Recorder.Shipped.actions[5]) == "Dataset/Idle/Resting"
  {
    assert "Idle/Resting"[4] == '/';
  }

  /** A take file named without zero padding (`take_3_...`) is dispatched as
      take 3 ... */
  lemma UnpaddedNameDispatched(serial1: string)
    ensures Manager.TakeOf("take_3_" + serial1 + ".bag", serial1) == Some(3)
  {
    var name1 := "take_3_" + serial1 + ".bag";
    assert name1 == "take" + ['_'] + ("3" + ['_'] + (serial1 + ".bag"));
    SplitField("3", '_', serial1 + ".bag");
    SplitField("take", '_', "3" + ['_'] + (serial1 + ".bag"));
    ParseFormatInt(3, 0);
    assert FormatInt(3, 0) == "3";
    assert name1[..5] == "take_";
    assert name1[6..6 + |"_" + serial1 + ".bag"|] == "_" + serial1 + ".bag";
    ContainsAt(name1, "_" + serial1 + ".bag", 6);
  }

  /** ... but the worker looks for `take_03_...` and skips it. */
  lemma UnpaddedNameSkipped(cfg: Extractor.Config, action: string, recording: Extractor.Recording,
                            fault: Option<nat>)
    ensures var dir := PathJoin(cfg.datasetDir, action);
      var bags := map[PathJoin(dir, "take_3_" + cfg.serial1 + ".bag") := recording,
                      PathJoin(dir, "take_3_" + cfg.serial2 + ".bag") := recording];
      Extractor.Expected(cfg, action, 3, bags, fault).ending == Extractor.Returned(Extractor.Skipped(3))
  {
    var dir := PathJoin(cfg.datasetDir, action);
    var key1 := PathJoin(dir, "take_3_" + cfg.serial1 + ".bag");
    var key2 := PathJoin(dir, "take_3_" + cfg.serial2 + ".bag");
    assert FormatInt(3, 2) == "03" by {
      assert Decimal(3) == "3";
      assert Zeros(1) == "0";
    }
    var bag1 := Extractor.BagPath(cfg, action, 3, cfg.serial1);
    assert bag1 == dir + "/" + "take_03" + "_" + cfg.serial1 + ".bag";
    var p := |dir| + 7;
    assert bag1[p] == '3';
    assert key1[p] == '_' && key2[p] == '_';
  }
}
