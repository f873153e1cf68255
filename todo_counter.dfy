/**
 The task registry of `test_todo.py`: the same two dictionaries as `todo.py`,
 plus the counter `_next_id`. A new task gets the counter's value and the
 counter moves on by one, so an id is never handed out twice, deletes or not.
 */
module TodoCounter {
  import opened Keys
  import opened Decimal
  import opened Listing
  import opened Commands

  const Header := "=== Your Todo List ==="

  /** The f-string `show_tasks` prints for an incomplete task: `{tid}. {desc}`. */
  function TaskLine(tid: int, description: string): string {
    IntToString(tid) + ". " + description
  }

  /** Reads a task line back into its id and description. */
  function ParseTaskLine(line: string): Option<(int, string)> {
    var n := NumeralPrefix(line);
    var rest := line[n..];
    if |rest| >= 2 && rest[..2] == ". " then
      match ParseInt(line[..n])
      case Some(tid) => Some((tid, rest[2..]))
      case None => None
    else None
  }

  lemma ParseTaskLineRoundTrip(tid: int, description: string)
    ensures ParseTaskLine(TaskLine(tid, description)) == Some((tid, description))
  {
    assert TaskLine(tid, description) == IntToString(tid) + (". " + description);
    ParseIntToString(tid);
    ParseFramed(IntToString(tid), tid, description);
  }

  lemma ParseFramed(num: string, tid: int, description: string)
    requires forall i | 0 <= i < |num| :: IsNumeral(num[i])
    requires ParseInt(num) == Some(tid)
    ensures ParseTaskLine(num + (". " + description)) == Some((tid, description))
  {
    var rest := ". " + description;
    NumeralPrefixAfter(num, rest);
    var line := num + rest;
    assert line[..|num|] == num;
    assert line[|num|..] == rest;
    assert rest[..2] == ". ";
    assert rest[2..] == description;
  }

  /** The header does not read as a task line. */
  lemma HeaderIsNotTaskLine()
    ensures ParseTaskLine(Header) == None
  {
    assert NumeralPrefix(Header) == 0;
    assert Header[..0] == [];
  }

  /** The printed lines for a sequence of incomplete tasks, one per task. */
  function TaskLines(ps: seq<(int, string)>): (lines: seq<string>)
    ensures |lines| == |ps|
  {
    seq(|ps|, i requires 0 <= i < |ps| => TaskLine(ps[i].0, ps[i].1))
  }

  /** The two dictionaries and the counter, as one value. */
  datatype Registry = Registry(tasks: map<int, string>, stats: map<int, bool>, nextId: int) {

    /**
     What the module keeps true: both dictionaries hold the same ids, the
     counter is positive, and it is above every id in use.
     */
    predicate Valid() {
      tasks.Keys == stats.Keys && nextId >= 1 && forall k | k in tasks :: k < nextId
    }

    /** The registry after `create_task(description)`, which returns `nextId`. */
    function Create(description: string): (r: Registry)
      ensures r.nextId == nextId + 1
      ensures forall k :: k in r.tasks <==> k in tasks || k == nextId
      ensures forall k :: k in r.stats <==> k in stats || k == nextId
      ensures forall k | k in r.tasks :: r.tasks[k] == if k == nextId then description else tasks[k]
      ensures forall k | k in r.stats :: r.stats[k] == if k == nextId then false else stats[k]
    {
      Registry(tasks[nextId := description], stats[nextId := false], nextId + 1)
    }

    /** What `complete_task(tid)` and `delete_task(tid)` check: `tid` is in both dictionaries. */
    predicate Has(tid: int) {
      tid in tasks && tid in stats
    }

    /** The registry after `complete_task(tid)`. */
    function Complete(tid: int): (r: Registry)
      ensures r.tasks == tasks && r.nextId == nextId && r.stats.Keys == stats.Keys
      ensures Has(tid) ==> r.stats[tid]
      ensures !Has(tid) ==> r == this
      ensures forall k | k in stats && k != tid :: r.stats[k] == stats[k]
    {
      if tid !in tasks || tid !in stats then this else Registry(tasks, stats[tid := true], nextId)
    }

    /** The registry after `delete_task(tid)`; the counter is left alone. */
    function Delete(tid: int): (r: Registry)
      ensures r.nextId == nextId
      ensures Has(tid) ==> r.tasks.Keys == tasks.Keys - {tid} && r.stats.Keys == stats.Keys - {tid}
      ensures !Has(tid) ==> r == this
      ensures forall k | k in r.tasks :: r.tasks[k] == tasks[k]
      ensures forall k | k in r.stats :: r.stats[k] == stats[k]
    {
      if tid !in tasks || tid !in stats then this else Registry(tasks - {tid}, stats - {tid}, nextId)
    }

    /** The lines `show_tasks` prints: the header, then one line per incomplete task. */
    function Show(): seq<string> {
      [Header] + TaskLines(IncompletePairs(tasks, stats))
    }

    function Step(op: Op): Registry {
      match op
      case CreateOp(d) => Create(d)
      case CompleteOp(tid) => Complete(tid)
      case DeleteOp(tid) => Delete(tid)
    }

    /** The registry after running `ops` in order. */
    function Run(ops: seq<Op>): Registry
      decreases |ops|
    {
      if ops == [] then this else Step(ops[0]).Run(ops[1..])
    }

    /** The ids the `create_task` calls among `ops` return, in order. */
    function Issued(ops: seq<Op>): seq<int>
      decreases |ops|
    {
      if ops == [] then []
      else (if ops[0].CreateOp? then [nextId] else []) + Step(ops[0]).Issued(ops[1..])
    }
  }

  /** The module's state at import: no tasks and `_next_id = 1`. */
  const Initial := Registry(map[], map[], 1)

  lemma InitialValid()
    ensures Initial.Valid()
  {
  }

  /** Each operation keeps `Valid`. */
  lemma StepKeepsValid(r: Registry, op: Op)
    requires r.Valid()
    ensures r.Step(op).Valid()
  {
    match op
    case CreateOp(d) =>
      var after := r.Create(d);
      assert after.tasks.Keys == r.tasks.Keys + {r.nextId};
      assert after.stats.Keys == r.stats.Keys + {r.nextId};
    case CompleteOp(tid) =>
    case DeleteOp(tid) =>
  }

  lemma {:induction false} RunKeepsValid(r: Registry, ops: seq<Op>)
    requires r.Valid()
    ensures r.Run(ops).Valid()
    decreases |ops|
  {
    if ops != [] {
      StepKeepsValid(r, ops[0]);
      RunKeepsValid(r.Step(ops[0]), ops[1..]);
    }
  }

  /** In a valid registry the id `create_task` hands out is in neither dictionary, so nothing is overwritten. */
  lemma CreateIsFresh(r: Registry)
    requires r.Valid()
    ensures r.nextId !in r.tasks && r.nextId !in r.stats
  {
  }

  /** No operation moves the counter back; only `create_task` moves it at all. */
  lemma {:induction false} RunCounterGrows(r: Registry, ops: seq<Op>)
    ensures r.nextId + |r.Issued(ops)| == r.Run(ops).nextId
    decreases |ops|
  {
    if ops != [] {
      RunCounterGrows(r.Step(ops[0]), ops[1..]);
    }
  }

  /** Every id `create_task` returns during `ops` lies between the counter before and after. */
  lemma {:induction false} IssuedInRange(r: Registry, ops: seq<Op>)
    ensures forall i | 0 <= i < |r.Issued(ops)| :: r.nextId <= r.Issued(ops)[i] < r.Run(ops).nextId
    decreases |ops|
  {
    if ops != [] {
      var next := r.Step(ops[0]);
      IssuedInRange(next, ops[1..]);
      RunCounterGrows(next, ops[1..]);
      var later := next.Issued(ops[1..]);
      if ops[0].CreateOp? {
        assert r.Issued(ops) == [r.nextId] + later;
      } else {
        assert r.Issued(ops) == later;
      }
    }
  }

  /** Successive `create_task` calls return strictly increasing ids, whatever else happens between them. */
  lemma {:induction false} IssuedIncreasing(r: Registry, ops: seq<Op>)
    ensures StrictlyIncreasing(r.Issued(ops))
    decreases |ops|
  {
    if ops != [] {
      var next := r.Step(ops[0]);
      IssuedIncreasing(next, ops[1..]);
      var later := next.Issued(ops[1..]);
      if ops[0].CreateOp? {
        IssuedInRange(next, ops[1..]);
        PrependIncreasing(r.nextId, later);
        assert r.Issued(ops) == [r.nextId] + later;
      } else {
        assert r.Issued(ops) == later;
      }
    }
  }

  /** The first id handed out is the counter's value: 1 from the initial state. */
  lemma IssuedFirst(r: Registry, ops: seq<Op>)
    ensures r.Issued(ops) != [] ==> r.Issued(ops)[0] == r.nextId
    ensures r == Initial && r.Issued(ops) != [] ==> r.Issued(ops)[0] == 1
  {
    if r.Issued(ops) != [] {
      IssuedInRange(r, ops);
      IssuedFirstIsCounter(r, ops);
    }
  }

  lemma {:induction false} IssuedFirstIsCounter(r: Registry, ops: seq<Op>)
    ensures r.Issued(ops) != [] ==> r.Issued(ops)[0] == r.nextId
    decreases |ops|
  {
    if ops != [] {
      var next := r.Step(ops[0]);
      if !ops[0].CreateOp? {
        IssuedFirstIsCounter(next, ops[1..]);
        assert r.Issued(ops) == next.Issued(ops[1..]);
      }
    }
  }

  /**
   Ids are never reused: from a valid registry, every id handed out during
   `ops` differs from every id present at the start and from every other id
   handed out, even when tasks are deleted in between.
   */
  lemma NeverReused(r: Registry, ops: seq<Op>)
    requires r.Valid()
    ensures forall i, k | 0 <= i < |r.Issued(ops)| && k in r.tasks :: r.Issued(ops)[i] != k
    ensures forall i, j | 0 <= i < j < |r.Issued(ops)| :: r.Issued(ops)[i] != r.Issued(ops)[j]
  {
    IssuedInRange(r, ops);
    IssuedIncreasing(r, ops);
  }

  /** Unlike `todo.py`, deleting the task just created and creating again yields a new id. */
  lemma DeleteNewestThenCreate(r: Registry, first: string)
    ensures var created := r.Create(first);
      created.Delete(r.nextId).nextId == r.nextId + 1
  {
  }

  /** `complete_task` twice: true both times, and the second call changes nothing. */
  lemma CompleteIdempotent(r: Registry, tid: int)
    ensures r.Complete(tid).Has(tid) == r.Has(tid)
    ensures r.Complete(tid).Complete(tid) == r.Complete(tid)
  {
  }

  /** A second `delete_task` of the same id returns false. */
  lemma DeleteTwiceFails(r: Registry, tid: int)
    ensures !r.Delete(tid).Has(tid)
  {
  }

  lemma TaskLinesReadBack(ps: seq<(int, string)>)
    ensures forall i | 0 <= i < |ps| :: ParseTaskLine(TaskLines(ps)[i]) == Some(ps[i])
  {
    forall i | 0 <= i < |ps| ensures ParseTaskLine(TaskLines(ps)[i]) == Some(ps[i]) {
      ParseTaskLineRoundTrip(ps[i].0, ps[i].1);
    }
  }

  /**
   Reading `show_tasks`'s output back: line 0 is the header and is not a task
   line; lines 1 to n are the n incomplete tasks in ascending id order.
   */
  lemma ShowReadsBack(r: Registry)
    ensures var lines := r.Show(); var ps := IncompletePairs(r.tasks, r.stats);
      && |lines| == 1 + |ps| && lines[0] == Header && ParseTaskLine(lines[0]) == None
      && forall i | 1 <= i < |lines| :: ParseTaskLine(lines[i]) == Some(ps[i - 1])
  {
    var ps := IncompletePairs(r.tasks, r.stats);
    assert r.Show() == [Header] + TaskLines(ps);
    HeaderIsNotTaskLine();
    FramedTaskLinesReadBack(ps);
  }

  lemma FramedTaskLinesReadBack(ps: seq<(int, string)>)
    ensures var lines := [Header] + TaskLines(ps);
      forall i | 1 <= i < |lines| :: ParseTaskLine(lines[i]) == Some(ps[i - 1])
  {
    var lines := [Header] + TaskLines(ps);
    forall i | 1 <= i < |lines| ensures ParseTaskLine(lines[i]) == Some(ps[i - 1]) {
      FramedParseAt(ps, i);
    }
  }

  lemma FramedParseAt(ps: seq<(int, string)>, i: nat)
    requires 1 <= i <= |ps|
    ensures ParseTaskLine(([Header] + TaskLines(ps))[i]) == Some(ps[i - 1])
  {
    FramedLineAt(ps, i - 1);
    ParseTaskLineRoundTrip(ps[i - 1].0, ps[i - 1].1);
  }

  /** Line `i + 1` of `show_tasks`'s output is the line of the `i`-th incomplete task. */
  lemma ShowLineAt(r: Registry, i: nat)
    requires i < |IncompletePairs(r.tasks, r.stats)|
    ensures var p := IncompletePairs(r.tasks, r.stats)[i];
      i + 1 < |r.Show()| && r.Show()[i + 1] == TaskLine(p.0, p.1)
  {
    var ps := IncompletePairs(r.tasks, r.stats);
    assert r.Show() == [Header] + TaskLines(ps);
    FramedLineAt(ps, i);
  }

  lemma FramedLineAt(ps: seq<(int, string)>, i: nat)
    requires i < |ps|
    ensures ([Header] + TaskLines(ps))[i + 1] == TaskLine(ps[i].0, ps[i].1)
  {
    assert ([Header] + TaskLines(ps))[i + 1] == TaskLines(ps)[i];
  }

  /** A task's line appears in the output exactly when `stats.get(tid, False)` is false. */
  lemma ShowListsExactlyIncomplete(r: Registry)
    ensures forall k | k in r.tasks :: TaskLine(k, r.tasks[k]) in r.Show() <==> !Get(r.stats, k, false)
  {
    forall k | k in r.tasks ensures TaskLine(k, r.tasks[k]) in r.Show() <==> !Get(r.stats, k, false) {
      if !Get(r.stats, k, false) {
        ShowListsIncompleteTask(r, k);
      }
      if TaskLine(k, r.tasks[k]) in r.Show() {
        ShowHidesCompletedTask(r, k);
      }
    }
  }

  lemma ShowListsIncompleteTask(r: Registry, k: int)
    requires k in r.tasks && !Get(r.stats, k, false)
    ensures TaskLine(k, r.tasks[k]) in r.Show()
  {
    var ps := IncompletePairs(r.tasks, r.stats);
    assert (k, r.tasks[k]) in ps;
    var i :| 0 <= i < |ps| && ps[i] == (k, r.tasks[k]);
    ShowLineAt(r, i);
  }

  lemma ShowHidesCompletedTask(r: Registry, k: int)
    requires k in r.tasks && TaskLine(k, r.tasks[k]) in r.Show()
    ensures !Get(r.stats, k, false)
  {
    var ps := IncompletePairs(r.tasks, r.stats);
    var lines := [Header] + TaskLines(ps);
    assert r.Show() == lines;
    var i :| 0 <= i < |lines| && lines[i] == TaskLine(k, r.tasks[k]);
    ParseTaskLineRoundTrip(k, r.tasks[k]);
    HeaderIsNotTaskLine();
    assert i != 0;
    FramedParseAt(ps, i);
    assert ps[i - 1] in ps;
  }

  /** The task lines of the output come in ascending id order and name tasks that are not completed. */
  lemma ShowAscending(r: Registry)
    ensures var lines := r.Show();
      forall i | 1 <= i < |lines| :: ParseTaskLine(lines[i]).Some?
    ensures var lines := r.Show();
      forall i, j | 1 <= i < j < |lines| ::
        ParseTaskLine(lines[i]).Some? && ParseTaskLine(lines[j]).Some? &&
        ParseTaskLine(lines[i]).value.0 < ParseTaskLine(lines[j]).value.0
  {
    ShowReadsBack(r);
  }

  /** With every task completed, or no task at all, only the header is printed. */
  lemma ShowOnlyHeader(r: Registry)
    requires forall k | k in r.tasks :: Get(r.stats, k, false)
    ensures r.Show() == [Header]
  {
    IncompletePairsEmpty(r.tasks, r.stats);
  }

  /** One turn of `show_tasks`'s loop: the key at `i` adds its line when its task is incomplete. */
  lemma ShowStep(tasks: map<int, string>, stats: map<int, bool>, keys: seq<int>, i: nat)
    requires i < |keys| && forall j | 0 <= j < |keys| :: keys[j] in tasks
    ensures var k := keys[i];
      TaskLines(IncompleteIn(tasks, stats, keys[..i + 1]))
      == TaskLines(IncompleteIn(tasks, stats, keys[..i])) + if IsIncomplete(stats, k) then [TaskLine(k, tasks[k])] else []
  {
    var done := IncompleteIn(tasks, stats, keys[..i]);
    assert keys[..i + 1][..i] == keys[..i];
    if IsIncomplete(stats, keys[i]) {
      var p := (keys[i], tasks[keys[i]]);
      assert (done + [p])[..|done|] == done;
    }
  }

  /** The module-level state of `test_todo.py`, updated in place by its functions. */
  class TodoList {
    var tasks: map<int, string>
    var stats: map<int, bool>
    var nextId: int

    function Value(): Registry
      reads this
    {
      Registry(tasks, stats, nextId)
    }

    ghost predicate Valid()
      reads this
    {
      Value().Valid()
    }

    constructor ()
      ensures Value() == Initial && Valid()
    {
      tasks := map[];
      stats := map[];
      nextId := 1;
    }

    method CreateTask(description: string) returns (tid: int)
      modifies this
      ensures tid == old(nextId) && Value() == old(Value()).Create(description)
      ensures old(Valid()) ==> Valid() && tid !in old(tasks)
    {
      if Valid() { StepKeepsValid(Value(), CreateOp(description)); }
      tid := nextId;
      nextId := nextId + 1;
      tasks := tasks[tid := description];
      stats := stats[tid := false];
    }

    method CompleteTask(tid: int) returns (changed: bool)
      modifies this
      ensures changed == old(Value()).Has(tid) && Value() == old(Value()).Complete(tid)
      ensures old(Valid()) ==> Valid()
    {
      if Valid() { StepKeepsValid(Value(), CompleteOp(tid)); }
      if tid !in tasks || tid !in stats {
        return false;
      }
      stats := stats[tid := true];
      return true;
    }

    method DeleteTask(tid: int) returns (removed: bool)
      modifies this
      ensures removed == old(Value()).Has(tid) && Value() == old(Value()).Delete(tid)
      ensures old(Valid()) ==> Valid()
    {
      if Valid() { StepKeepsValid(Value(), DeleteOp(tid)); }
      if tid !in tasks || tid !in stats {
        return false;
      }
      tasks := tasks - {tid};
      stats := stats - {tid};
      return true;
    }

    /** The lines `show_tasks` prints, in order. */
    method ShowTasks() returns (lines: seq<string>)
      ensures lines == Value().Show()
    {
      var taskLines := ListIncomplete(SortedKeys(tasks.Keys));
      lines := [Header] + taskLines;
    }

    /** The `for` loop of `show_tasks` over the given ids: renders each task not marked completed. */
    method ListIncomplete(keys: seq<int>) returns (lines: seq<string>)
      requires forall j | 0 <= j < |keys| :: keys[j] in tasks
      ensures lines == TaskLines(IncompleteIn(tasks, stats, keys))
    {
      lines := [];
      for i := 0 to |keys|
        invariant lines == TaskLines(IncompleteIn(tasks, stats, keys[..i]))
      {
        var tid := keys[i];
        ShowStep(tasks, stats, keys, i);
        if !Get(stats, tid, false) {
          lines := lines + [TaskLine(tid, tasks[tid])];
        }
      }
      assert keys[..|keys|] == keys;
    }
  }

  /** Create, delete that task, create again: the calls return 1 and then 2; id 1 is not handed out again. */
  method Session() returns (first: int, removed: bool, second: int)
    ensures first == 1 && removed && second == 2
  {
    var todo := new TodoList();
    first := todo.CreateTask("Buy milk");
    removed := todo.DeleteTask(first);
    second := todo.CreateTask("Walk dog");
  }
}
