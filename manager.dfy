/** The manager half of process.py (`main`): refuse to run with placeholder
    serial numbers or without a dataset directory, then enumerate one task
    per distinct take number of each action directory, actions in name
    order and take numbers ascending. Dispatching the tasks to a process
    pool is not modelled; the tasks are the result. */
module Manager {
  import opened PyText
  import opened Sorting
  import Extractor

  /** An entry of the dataset directory: its name, whether it is a
      directory, and the names `os.listdir` returns inside it. */
  datatype Entry = Entry(name: string, isDir: bool, listing: seq<string>)

  datatype Task = Task(action: string, take: int)

  /** How `main` ends: one of its three early returns, or with the tasks
      handed to the pool. */
  datatype Plan =
    | PlaceholderSerials
    | MissingDataset
    | NoTakes
    | Dispatched(tasks: seq<Task>)

  // ---------------------------------------------------------------------------
  // Recognising take files

  /** `filename.startswith('take_') and f'_{SERIAL_NUMBER_1}.bag' in filename` */
  predicate IsCandidate(filename: string, serial1: string)
  {
    StartsWith(filename, "take_") && Contains(filename, Extractor.BagSuffix(serial1))
  }

  /** The take number a directory entry contributes, if any. */
  function TakeOf(filename: string, serial1: string): Option<int>
  {
    if IsCandidate(filename, serial1) then Extractor.TakeField(filename) else None
  }

  /** What each entry of a directory listing contributes, in listing order. */
  function Contributions(listing: seq<string>, serial1: string): (vals: seq<Option<int>>)
    ensures |vals| == |listing|
  {
    seq(|listing|, i requires 0 <= i < |listing| => TakeOf(listing[i], serial1))
  }

  /** `sorted(list(s))` for the set `s` of values present: kept ascending and
      duplicate-free as each value is added. */
  function Collect(vals: seq<Option<int>>): (r: seq<int>)
    ensures StrictlyIncreasing(r)
  {
    if vals == [] then []
    else
      var prev := Collect(vals[..|vals| - 1]);
      match vals[|vals| - 1]
      case Some(n) => InsertUnique(prev, n)
      case None => prev
  }

  lemma {:induction false} CollectExact(vals: seq<Option<int>>, n: int)
    ensures n in Collect(vals) <==> Some(n) in vals
  {
    if vals != [] {
      var front, last := vals[..|vals| - 1], vals[|vals| - 1];
      CollectExact(front, n);
      assert vals == front + [last];
      assert Some(n) in vals <==> Some(n) in front || last == Some(n);
      assert n in Collect(vals) <==> n in Collect(front) || last == Some(n);
    }
  }

  /** The take numbers of one action directory, `sorted(list(take_numbers))`. */
  function TakeNumbers(listing: seq<string>, serial1: string): seq<int>
  {
    Collect(Contributions(listing, serial1))
  }

  /** A number is listed exactly when some candidate file of the directory
      carries it in its second field; the list is ascending without
      repeats. */
  lemma TakeNumbersExact(listing: seq<string>, serial1: string, n: int)
    ensures StrictlyIncreasing(TakeNumbers(listing, serial1))
    ensures n in TakeNumbers(listing, serial1) <==>
      exists i :: 0 <= i < |listing| && TakeOf(listing[i], serial1) == Some(n)
  {
    var vals := Contributions(listing, serial1);
    CollectExact(vals, n);
    if Some(n) in vals {
      var i :| 0 <= i < |vals| && vals[i] == Some(n);
      assert TakeOf(listing[i], serial1) == Some(n);
    }
    if exists i :: 0 <= i < |listing| && TakeOf(listing[i], serial1) == Some(n) {
      var i :| 0 <= i < |listing| && TakeOf(listing[i], serial1) == Some(n);
      assert vals[i] == Some(n);
    }
  }

  // ---------------------------------------------------------------------------
  // Action directories in name order

  predicate SortedByName(s: seq<Entry>)
  {
    forall i, j :: 0 <= i < j < |s| ==> LexLessEq(s[i].name, s[j].name)
  }

  /** No two entries share a name, as in any directory listing. */
  predicate DistinctNames(s: seq<Entry>)
  {
    forall i, j :: 0 <= i < j < |s| ==> s[i].name != s[j].name
  }

  function InsertByName(e: Entry, s: seq<Entry>): (r: seq<Entry>)
    requires SortedByName(s)
    ensures SortedByName(r)
    ensures multiset(r) == multiset(s) + multiset{e}
  {
    if s == [] then [e]
    else if LexLessEq(e.name, s[0].name) then
      InsertAtFront(e, s);
      [e] + s
    else
      var rest := InsertByName(e, s[1..]);
      InsertAfterHead(e, s, rest);
      [s[0]] + rest
  }

  /** An entry no later than the head of a sorted listing may go first. */
  lemma InsertAtFront(e: Entry, s: seq<Entry>)
    requires SortedByName(s) && s != [] && LexLessEq(e.name, s[0].name)
    ensures SortedByName([e] + s)
  {
    forall j | 0 <= j < |s| ensures LexLessEq(e.name, s[j].name) {
      if j > 0 { LexTransitive(e.name, s[0].name, s[j].name); }
    }
    PrependSorted(e, s);
  }

  /** An entry later than the head goes into the tail, behind the head. */
  lemma InsertAfterHead(e: Entry, s: seq<Entry>, rest: seq<Entry>)
    requires SortedByName(s) && s != [] && !LexLessEq(e.name, s[0].name)
    requires SortedByName(rest) && multiset(rest) == multiset(s[1..]) + multiset{e}
    ensures SortedByName([s[0]] + rest)
    ensures multiset([s[0]] + rest) == multiset(s) + multiset{e}
  {
    var tail := s[1..];
    LexTotal(e.name, s[0].name);
    HeadLeast(s);
    forall j | 0 <= j < |rest| ensures LexLessEq(s[0].name, rest[j].name) {
      var x := rest[j];
      assert x in multiset(rest);
      assert x == e || x in multiset(tail);
    }
    PrependSorted(s[0], rest);
    assert s == [s[0]] + tail;
  }

  lemma PrependSorted(h: Entry, s: seq<Entry>)
    requires SortedByName(s)
    requires forall j :: 0 <= j < |s| ==> LexLessEq(h.name, s[j].name)
    ensures SortedByName([h] + s)
  {
    var r := [h] + s;
    forall i, j | 0 <= i < j < |r| ensures LexLessEq(r[i].name, r[j].name) {
      assert r[j] == s[j - 1];
      if i > 0 { assert r[i] == s[i - 1]; }
    }
  }

  lemma HeadLeast(s: seq<Entry>)
    requires SortedByName(s) && s != []
    ensures forall x :: x in s[1..] ==> LexLessEq(s[0].name, x.name)
  {
    forall x | x in s[1..] ensures LexLessEq(s[0].name, x.name) {
      var j :| 0 <= j < |s[1..]| && s[1..][j] == x;
      assert s[j + 1] == x;
    }
  }

  /** `sorted(...)` on the directory names, carrying each entry along. */
  function SortByName(s: seq<Entry>): (r: seq<Entry>)
    ensures SortedByName(r) && multiset(r) == multiset(s)
  {
    if s == [] then []
    else
      assert s == s[..|s| - 1] + [s[|s| - 1]];
      InsertByName(s[|s| - 1], SortByName(s[..|s| - 1]))
  }

  lemma {:induction false} AtMostOnce(s: seq<Entry>, x: Entry)
    requires DistinctNames(s)
    ensures multiset(s)[x] <= 1
  {
    if s != [] {
      var front, last := s[..|s| - 1], s[|s| - 1];
      assert s == front + [last];
      AtMostOnce(front, x);
    }
  }

  lemma Twice(r: seq<Entry>, i: nat, j: nat)
    requires i < j < |r| && r[i] == r[j]
    ensures multiset(r)[r[i]] >= 2
  {
    assert r == r[..j] + [r[j]] + r[j + 1..];
    assert r[..j][i] == r[i];
  }

  /** Rearranging a listing keeps its names distinct. */
  lemma DistinctPermutation(r: seq<Entry>, s: seq<Entry>)
    requires multiset(r) == multiset(s) && DistinctNames(s)
    ensures DistinctNames(r)
  {
    forall i, j | 0 <= i < j < |r| ensures r[i].name != r[j].name {
      if r[i] == r[j] {
        Twice(r, i, j);
        AtMostOnce(s, r[i]);
      } else {
        assert r[i] in multiset(s) && r[j] in multiset(s);
      }
    }
  }

  /** The entries of the dataset directory that are directories. */
  function Directories(entries: seq<Entry>): (r: seq<Entry>)
    ensures forall e :: e in r <==> e in entries && e.isDir
    ensures DistinctNames(entries) ==> DistinctNames(r)
  {
    if entries == [] then []
    else
      var front, e := entries[..|entries| - 1], entries[|entries| - 1];
      var prev := Directories(front);
      assert entries == front + [e];
      assert DistinctNames(entries) ==> forall x :: x in front ==> x.name != e.name;
      if e.isDir then prev + [e] else prev
  }

  /** `sorted([d for d in os.listdir(BASE_DATASET_DIR) if os.path.isdir(...)])` */
  function ActionDirs(entries: seq<Entry>): (r: seq<Entry>)
    ensures SortedByName(r)
    ensures forall e :: e in r <==> e in entries && e.isDir
    ensures DistinctNames(entries) ==> DistinctNames(r)
  {
    var dirs := Directories(entries);
    var r := SortByName(dirs);
    assert forall e :: e in r <==> e in multiset(dirs);
    if DistinctNames(entries) then
      DistinctPermutation(r, dirs);
      r
    else r
  }

  // ---------------------------------------------------------------------------
  // The task list

  function TasksOf(action: string, takes: seq<int>): (ts: seq<Task>)
  {
    seq(|takes|, i requires 0 <= i < |takes| => Task(action, takes[i]))
  }

  /** The tasks of the first `n` action directories. */
  function TasksBefore(actions: seq<Entry>, serial1: string, n: nat): seq<Task>
    requires n <= |actions|
  {
    if n == 0 then []
    else
      TasksBefore(actions, serial1, n - 1)
      + TasksOf(actions[n - 1].name, TakeNumbers(actions[n - 1].listing, serial1))
  }

  function AllTasks(entries: seq<Entry>, serial1: string): seq<Task>
  {
    var actions := ActionDirs(entries);
    TasksBefore(actions, serial1, |actions|)
  }

  /** What `main` does, stated in closed form. `dataset` is `None` when the
      dataset path is not a directory. */
  function PlanOf(cfg: Extractor.Config, dataset: Option<seq<Entry>>): Plan
  {
    if cfg.serial1 == Extractor.Placeholder || cfg.serial2 == Extractor.Placeholder then PlaceholderSerials
    else if dataset.None? then MissingDataset
    else
      var tasks := AllTasks(dataset.value, cfg.serial1);
      if tasks == [] then NoTakes else Dispatched(tasks)
  }

  /** The inner loop of `main`: the take numbers of one action directory. */
  method CollectTakeNumbers(listing: seq<string>, serial1: string) returns (takeNumbers: seq<int>)
    ensures takeNumbers == TakeNumbers(listing, serial1)
  {
    ghost var vals := Contributions(listing, serial1);
    takeNumbers := [];
    for f := 0 to |listing|
      invariant takeNumbers == Collect(vals[..f])
    {
      var filename := listing[f];
      assert vals[..f + 1][..f] == vals[..f];
      assert vals[f] == TakeOf(filename, serial1);
      if IsCandidate(filename, serial1) {
        var parsed := Extractor.TakeField(filename);
        if parsed.Some? {
          takeNumbers := InsertUnique(takeNumbers, parsed.value);
        }
      }
    }
    assert vals[..|listing|] == vals;
  }

  /** `for take_number in sorted(...): tasks.append((action_name, take_number))` */
  method AppendTasks(tasks: seq<Task>, action: string, takeNumbers: seq<int>) returns (extended: seq<Task>)
    ensures extended == tasks + TasksOf(action, takeNumbers)
  {
    extended := tasks;
    for t := 0 to |takeNumbers|
      invariant extended == tasks + TasksOf(action, takeNumbers[..t])
    {
      extended := extended + [Task(action, takeNumbers[t])];
      assert TasksOf(action, takeNumbers[..t + 1]) == TasksOf(action, takeNumbers[..t]) + [Task(action, takeNumbers[t])];
    }
    assert takeNumbers[..|takeNumbers|] == takeNumbers;
  }

  /** `main` up to the pool: the checks, then the two nested loops that
      build the task list. */
  method PlanTasks(cfg: Extractor.Config, dataset: Option<seq<Entry>>) returns (plan: Plan)
    ensures plan == PlanOf(cfg, dataset)
  {
    if cfg.serial1 == Extractor.Placeholder || cfg.serial2 == Extractor.Placeholder {
      return PlaceholderSerials;
    }
    if dataset.None? {
      return MissingDataset;
    }
    var actions := ActionDirs(dataset.value);
    var tasks: seq<Task> := [];
    for a := 0 to |actions|
      invariant tasks == TasksBefore(actions, cfg.serial1, a)
    {
      var takeNumbers := CollectTakeNumbers(actions[a].listing, cfg.serial1);
      tasks := AppendTasks(tasks, actions[a].name, takeNumbers);
    }
    if tasks == [] {
      return NoTakes;
    }
    return Dispatched(tasks);
  }

  // ---------------------------------------------------------------------------
  // What the task list holds

  lemma TasksOfExact(action: string, takes: seq<int>, t: Task)
    ensures t in TasksOf(action, takes) <==> t.action == action && t.take in takes
  {
    if t.action == action && t.take in takes {
      var i :| 0 <= i < |takes| && takes[i] == t.take;
      assert TasksOf(action, takes)[i] == t;
    }
  }

  /** Task `t` is one of those the `k`-th action directory yields. */
  predicate YieldedBy(actions: seq<Entry>, serial1: string, k: nat, t: Task)
    requires k < |actions|
  {
    actions[k].name == t.action && t.take in TakeNumbers(actions[k].listing, serial1)
  }

  lemma {:induction false} TasksBeforeExact(actions: seq<Entry>, serial1: string, n: nat, t: Task)
    requires n <= |actions|
    ensures t in TasksBefore(actions, serial1, n) <==>
      exists k :: 0 <= k < n && YieldedBy(actions, serial1, k, t)
  {
    if n > 0 {
      TasksBeforeExact(actions, serial1, n - 1, t);
      TasksOfExact(actions[n - 1].name, TakeNumbers(actions[n - 1].listing, serial1), t);
      var prev := TasksBefore(actions, serial1, n - 1);
      var block := TasksOf(actions[n - 1].name, TakeNumbers(actions[n - 1].listing, serial1));
      assert TasksBefore(actions, serial1, n) == prev + block;
      assert t in prev + block <==> t in prev || t in block;
      assert t in block <==> YieldedBy(actions, serial1, n - 1, t);
      if exists k :: 0 <= k < n && YieldedBy(actions, serial1, k, t) {
        var k :| 0 <= k < n && YieldedBy(actions, serial1, k, t);
        if k < n - 1 {
          assert t in prev;
        }
      }
    }
  }

  /** A task is dispatched exactly when the dataset has a directory of that
      name holding a candidate file whose second field is that number. */
  lemma TasksExact(entries: seq<Entry>, serial1: string, action: string, take: int)
    ensures Task(action, take) in AllTasks(entries, serial1) <==>
      exists e, i :: e in entries && e.isDir && e.name == action
        && 0 <= i < |e.listing| && TakeOf(e.listing[i], serial1) == Some(take)
  {
    if Task(action, take) in AllTasks(entries, serial1) {
      TaskFromDirectory(entries, serial1, Task(action, take));
    }
    if exists e, i :: e in entries && e.isDir && e.name == action
        && 0 <= i < |e.listing| && TakeOf(e.listing[i], serial1) == Some(take) {
      var e, i :| e in entries && e.isDir && e.name == action
        && 0 <= i < |e.listing| && TakeOf(e.listing[i], serial1) == Some(take);
      DirectoryYieldsTask(entries, serial1, e, i, take);
    }
  }

  lemma TaskFromDirectory(entries: seq<Entry>, serial1: string, t: Task)
    requires t in AllTasks(entries, serial1)
    ensures exists e, i ::
      e in entries && e.isDir && e.name == t.action
      && 0 <= i < |e.listing| && TakeOf(e.listing[i], serial1) == Some(t.take)
  {
    var actions := ActionDirs(entries);
    TasksBeforeExact(actions, serial1, |actions|, t);
    var k :| 0 <= k < |actions| && YieldedBy(actions, serial1, k, t);
    TakeNumbersExact(actions[k].listing, serial1, t.take);
    assert actions[k] in actions;
  }

  lemma DirectoryYieldsTask(entries: seq<Entry>, serial1: string, e: Entry, i: nat, take: int)
    requires e in entries && e.isDir && i < |e.listing| && TakeOf(e.listing[i], serial1) == Some(take)
    ensures Task(e.name, take) in AllTasks(entries, serial1)
  {
    var actions := ActionDirs(entries);
    var t := Task(e.name, take);
    assert e in actions;
    var k :| 0 <= k < |actions| && actions[k] == e;
    TakeNumbersExact(e.listing, serial1, take);
    assert YieldedBy(actions, serial1, k, t);
    TasksBeforeExact(actions, serial1, |actions|, t);
  }

  /** Tasks come action by action in name order, and within an action in
      ascending take order; no task repeats. */
  predicate TasksOrdered(ts: seq<Task>)
  {
    forall i, j :: 0 <= i < j < |ts| ==>
      LexLessEq(ts[i].action, ts[j].action) && (ts[i].action == ts[j].action ==> ts[i].take < ts[j].take)
  }

  lemma BlockOrdered(action: string, takes: seq<int>)
    requires StrictlyIncreasing(takes)
    ensures TasksOrdered(TasksOf(action, takes))
  {
    LexReflexive(action);
  }

  lemma OrderedAppend(prev: seq<Task>, block: seq<Task>)
    requires TasksOrdered(prev) && TasksOrdered(block)
    requires forall x, y :: x in prev && y in block ==> LexLessEq(x.action, y.action) && x.action != y.action
    ensures TasksOrdered(prev + block)
  {
    var ts := prev + block;
    forall i, j | 0 <= i < j < |ts|
      ensures LexLessEq(ts[i].action, ts[j].action) && (ts[i].action == ts[j].action ==> ts[i].take < ts[j].take)
    {
      if j < |prev| {
        assert ts[i] == prev[i] && ts[j] == prev[j];
      } else if i < |prev| {
        assert ts[i] == prev[i] && ts[j] == block[j - |prev|];
        assert ts[i] in prev && ts[j] in block;
      } else {
        assert ts[i] == block[i - |prev|] && ts[j] == block[j - |prev|];
      }
    }
  }

  lemma {:induction false} TasksBeforeOrdered(actions: seq<Entry>, serial1: string, n: nat)
    requires n <= |actions| && SortedByName(actions) && DistinctNames(actions)
    ensures TasksOrdered(TasksBefore(actions, serial1, n))
  {
    if n > 0 {
      TasksBeforeOrdered(actions, serial1, n - 1);
      var prev := TasksBefore(actions, serial1, n - 1);
      var name := actions[n - 1].name;
      var nums := TakeNumbers(actions[n - 1].listing, serial1);
      var block := TasksOf(name, nums);
      BlockOrdered(name, nums);
      forall x, y | x in prev && y in block
        ensures LexLessEq(x.action, y.action) && x.action != y.action
      {
        TasksBeforeExact(actions, serial1, n - 1, x);
        var k :| 0 <= k < n - 1 && YieldedBy(actions, serial1, k, x);
        TasksOfExact(name, nums, y);
      }
      OrderedAppend(prev, block);
    }
  }

  lemma AllTasksOrdered(entries: seq<Entry>, serial1: string)
    requires DistinctNames(entries)
    ensures TasksOrdered(AllTasks(entries, serial1))
  {
    var actions := ActionDirs(entries);
    TasksBeforeOrdered(actions, serial1, |actions|);
  }

  /** `main`'s four endings, each exactly when its condition holds. */
  lemma PlanCases(cfg: Extractor.Config, dataset: Option<seq<Entry>>)
    ensures var placeholder := cfg.serial1 == Extractor.Placeholder || cfg.serial2 == Extractor.Placeholder;
      && (PlanOf(cfg, dataset) == PlaceholderSerials <==> placeholder)
      && (PlanOf(cfg, dataset) == MissingDataset <==> !placeholder && dataset.None?)
      && (PlanOf(cfg, dataset) == NoTakes <==>
            !placeholder && dataset.Some? && AllTasks(dataset.value, cfg.serial1) == [])
      && (PlanOf(cfg, dataset).Dispatched? ==> PlanOf(cfg, dataset).tasks != [])
  {
  }

  /** As shipped, with both serial numbers left at the placeholder, the
      manager refuses to run whatever the dataset holds. */
  lemma ShippedRefuses(dataset: Option<seq<Entry>>)
    ensures PlanOf(Extractor.Shipped, dataset) == PlaceholderSerials
  {
  }
}
