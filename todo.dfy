/**
 The task registry of `todo.py`: two dictionaries keyed by task id, `tasks`
 (id to description) and `stats` (id to completed flag). A new task gets the
 largest existing id plus one, or 1 when there is no task, so deleting the
 task just created and creating again hands its id out a second time.
 */
module Todo {
  import opened Keys
  import opened Decimal
  import opened Listing
  import opened Commands

  const Header := "\n=== Your Todo List ==="
  const NoTasks := "No tasks yet!"
  const AllDone := "No incompleted tasks! Great job!"
  const NotCompleted := " - not completed"

  /** The f-string `show_tasks` prints for a task: `{tid}: {desc} - {status_text}`. */
  function FormatLine(tid: int, description: string, statusText: string): string {
    IntToString(tid) + ": " + description + " - " + statusText
  }

  /** The line printed for an incomplete task. */
  function TaskLine(tid: int, description: string): string {
    FormatLine(tid, description, "not completed")
  }

  /** Reads a task line back into its id and description. */
  function ParseTaskLine(line: string): Option<(int, string)> {
    var n := NumeralPrefix(line);
    var rest := line[n..];
    if |rest| >= 2 + |NotCompleted| && rest[..2] == ": " && rest[|rest| - |NotCompleted|..] == NotCompleted then
      match ParseInt(line[..n])
      case Some(tid) => Some((tid, rest[2..|rest| - |NotCompleted|]))
      case None => None
    else None
  }

  lemma ParseTaskLineRoundTrip(tid: int, description: string)
    ensures ParseTaskLine(TaskLine(tid, description)) == Some((tid, description))
  {
    TaskLineSplit(tid, description);
    ParseIntToString(tid);
    ParseFramed(IntToString(tid), tid, description);
  }

  lemma TaskLineSplit(tid: int, description: string)
    ensures TaskLine(tid, description) == IntToString(tid) + (": " + description + NotCompleted)
  {
  }

  lemma ParseFramed(num: string, tid: int, description: string)
    requires forall i | 0 <= i < |num| :: IsNumeral(num[i])
    requires ParseInt(num) == Some(tid)
    ensures ParseTaskLine(num + (": " + description + NotCompleted)) == Some((tid, description))
  {
    var rest := ": " + description + NotCompleted;
    NumeralPrefixAfter(num, rest);
    var line := num + rest;
    assert line[..|num|] == num;
    assert line[|num|..] == rest;
    assert rest[..2] == ": ";
    assert rest[|rest| - |NotCompleted|..] == NotCompleted;
    assert rest[2..|rest| - |NotCompleted|] == description;
  }

  /** The printed lines for a sequence of incomplete tasks, one per task. */
  function TaskLines(ps: seq<(int, string)>): (lines: seq<string>)
    ensures |lines| == |ps|
  {
    seq(|ps|, i requires 0 <= i < |ps| => TaskLine(ps[i].0, ps[i].1))
  }

  /** The id `create_task` hands out: one more than the largest id, or 1 with no tasks. */
  function NextId(tasks: map<int, string>): (id: int)
    ensures id !in tasks
    ensures tasks == map[] ==> id == 1
    ensures tasks != map[] ==> id - 1 in tasks && forall k | k in tasks :: k < id
  {
    if |tasks| == 0 then 1 else MaxKey(tasks.Keys) + 1
  }

  /** The two dictionaries, as one value. */
  datatype Registry = Registry(tasks: map<int, string>, stats: map<int, bool>) {

    /** Both dictionaries hold the same ids. */
    predicate Paired() {
      tasks.Keys == stats.Keys
    }

    /** The registry after `create_task(description)`. */
    function Create(description: string): (r: Registry)
      ensures var id := NextId(tasks);
        && (forall k :: k in r.tasks <==> k in tasks || k == id)
        && (forall k :: k in r.stats <==> k in stats || k == id)
        && (forall k | k in r.tasks :: r.tasks[k] == if k == id then description else tasks[k])
        && (forall k | k in r.stats :: r.stats[k] == if k == id then false else stats[k])
    {
      var id := NextId(tasks);
      Registry(tasks[id := description], stats[id := false])
    }

    /** What `complete_task(tid)` returns: whether `tid` has a status. */
    predicate CanComplete(tid: int) {
      tid in stats
    }

    /** The registry after `complete_task(tid)`. */
    function Complete(tid: int): (r: Registry)
      ensures r.tasks == tasks && r.stats.Keys == stats.Keys
      ensures CanComplete(tid) ==> r.stats[tid]
      ensures !CanComplete(tid) ==> r == this
      ensures forall k | k in stats && k != tid :: r.stats[k] == stats[k]
    {
      if tid in stats then Registry(tasks, stats[tid := true]) else this
    }

    /** What `delete_task(tid)` returns: whether `tid` is in both dictionaries. */
    predicate CanDelete(tid: int) {
      tid in tasks && tid in stats
    }

    /** The registry after `delete_task(tid)`. */
    function Delete(tid: int): (r: Registry)
      ensures CanDelete(tid) ==> r.tasks.Keys == tasks.Keys - {tid} && r.stats.Keys == stats.Keys - {tid}
      ensures !CanDelete(tid) ==> r == this
      ensures forall k | k in r.tasks :: r.tasks[k] == tasks[k]
      ensures forall k | k in r.stats :: r.stats[k] == stats[k]
    {
      if tid in tasks && tid in stats then Registry(tasks - {tid}, stats - {tid}) else this
    }

    /**
     The lines `show_tasks` prints. It looks up `stats[tid]` for every listed
     id, which raises for an id without a status, hence the precondition.
     */
    function Show(): seq<string>
      requires tasks.Keys <= stats.Keys
    {
      var ps := IncompletePairs(tasks, stats);
      [Header] + if |tasks| == 0 then [NoTasks] else TaskLines(ps) + if ps == [] then [AllDone] else []
    }

    function Step(op: Op): Registry {
      match op
      case CreateOp(d) => Create(d)
      case CompleteOp(tid) => Complete(tid)
      case DeleteOp(tid) => Delete(tid)
    }

    /** The registry after running `ops` in order. */
    function Run(ops: seq<Op>): Registry
      decreases |ops|
    {
      if ops == [] then this else Step(ops[0]).Run(ops[1..])
    }

    /** The ids the `create_task` calls among `ops` return, in order. */
    function Issued(ops: seq<Op>): seq<int>
      decreases |ops|
    {
      if ops == [] then []
      else (if ops[0].CreateOp? then [NextId(tasks)] else []) + Step(ops[0]).Issued(ops[1..])
    }
  }

  const Empty := Registry(map[], map[])

  /** Every operation keeps the two dictionaries' ids equal, over any run. */
  lemma {:induction false} RunKeepsPaired(r: Registry, ops: seq<Op>)
    requires r.Paired()
    ensures r.Run(ops).Paired()
    decreases |ops|
  {
    if ops != [] {
      StepKeepsPaired(r, ops[0]);
      RunKeepsPaired(r.Step(ops[0]), ops[1..]);
    }
  }

  /** Each of `create_task`, `complete_task` and `delete_task` keeps the two dictionaries' ids equal. */
  lemma StepKeepsPaired(r: Registry, op: Op)
    requires r.Paired()
    ensures r.Step(op).Paired()
  {
    match op
    case CreateOp(d) =>
      var id := NextId(r.tasks);
      assert r.Create(d).tasks.Keys == r.tasks.Keys + {id};
    case CompleteOp(tid) =>
    case DeleteOp(tid) =>
  }

  lemma NoDeletesTail(ops: seq<Op>)
    requires ops != [] && NoDeletes(ops)
    ensures !ops[0].DeleteOp? && NoDeletes(ops[1..])
  {
    forall i | 0 <= i < |ops[1..]| ensures !ops[1..][i].DeleteOp? {
      assert ops[1..][i] == ops[i + 1];
    }
  }

  /** While nothing is deleted, every id `create_task` returns is above every id present before. */
  lemma {:induction false} IssuedAboveExisting(r: Registry, ops: seq<Op>)
    requires NoDeletes(ops)
    ensures forall i, k | 0 <= i < |r.Issued(ops)| && k in r.tasks :: k < r.Issued(ops)[i]
    decreases |ops|
  {
    if ops != [] {
      NoDeletesTail(ops);
      var next := r.Step(ops[0]);
      IssuedAboveExisting(next, ops[1..]);
      var later := next.Issued(ops[1..]);
      assert r.tasks.Keys <= next.tasks.Keys;
      if ops[0].CreateOp? {
        assert r.Issued(ops) == [NextId(r.tasks)] + later;
      } else {
        assert r.Issued(ops) == later;
      }
    }
  }

  /** While nothing is deleted, the first id handed out is `NextId(r.tasks)`: 1 from an empty registry. */
  lemma {:induction false} IssuedFirst(r: Registry, ops: seq<Op>)
    requires NoDeletes(ops)
    ensures r.Issued(ops) != [] ==> r.Issued(ops)[0] == NextId(r.tasks)
    ensures r.tasks == map[] && r.Issued(ops) != [] ==> r.Issued(ops)[0] == 1
    decreases |ops|
  {
    if ops != [] {
      NoDeletesTail(ops);
      var next := r.Step(ops[0]);
      IssuedFirst(next, ops[1..]);
      if !ops[0].CreateOp? {
        assert next.tasks == r.tasks;
        assert r.Issued(ops) == next.Issued(ops[1..]);
      }
    }
  }

  /** While nothing is deleted, `create_task` returns strictly increasing ids. */
  lemma {:induction false} IssuedIncreasingWithoutDeletes(r: Registry, ops: seq<Op>)
    requires NoDeletes(ops)
    ensures StrictlyIncreasing(r.Issued(ops))
    decreases |ops|
  {
    if ops != [] {
      NoDeletesTail(ops);
      var next := r.Step(ops[0]);
      IssuedIncreasingWithoutDeletes(next, ops[1..]);
      var later := next.Issued(ops[1..]);
      if ops[0].CreateOp? {
        var id := NextId(r.tasks);
        IssuedAboveExisting(next, ops[1..]);
        assert id in next.tasks;
        PrependIncreasing(id, later);
        assert r.Issued(ops) == [id] + later;
      } else {
        assert r.Issued(ops) == later;
      }
    }
  }

  /** Deleting the id just created makes `create_task` hand it out again. */
  lemma DeletingNewestReusesId(r: Registry, description: string)
    ensures NextId(r.Create(description).Delete(NextId(r.tasks)).tasks) == NextId(r.tasks)
  {
    var k := NextId(r.tasks);
    var after := r.Create(description).Delete(k);
    assert after.tasks.Keys == r.tasks.Keys;
  }

  /**
   Deleting the largest id hands that id out again exactly when the id below it
   is still present, or when it was the only task and was 1; otherwise the next
   id drops below it.
   */
  lemma DeletingLargestId(r: Registry, tid: int)
    requires r.CanDelete(tid) && forall k | k in r.tasks :: k <= tid
    ensures NextId(r.Delete(tid).tasks) == tid <==> tid - 1 in r.tasks || (tid == 1 && r.tasks.Keys == {tid})
    ensures r.Delete(tid).tasks != map[] ==> NextId(r.Delete(tid).tasks) <= tid
  {
    var after := r.Delete(tid).tasks;
    if after == map[] {
      assert r.tasks.Keys == {tid} by {
        assert r.tasks.Keys - {tid} == after.Keys;
      }
    } else {
      assert NextId(after) - 1 in r.tasks;
      assert r.tasks.Keys != {tid} by {
        var k :| k in after;
        assert k in r.tasks.Keys;
      }
      if tid - 1 in r.tasks {
        assert tid - 1 in after;
      }
    }
  }

  /** After creating ids 1, 2 and 3 and deleting 2, deleting 3 makes the next id 2, not 3. */
  lemma DeletingLargestMayNotReuse()
    ensures var r := Registry(map[1 := "a", 3 := "c"], map[1 := false, 3 := false]);
      NextId(r.Delete(3).tasks) == 2
  {
    var r := Registry(map[1 := "a", 3 := "c"], map[1 := false, 3 := false]);
    var after := r.Delete(3).tasks;
    assert 1 in after && after.Keys == {1};
  }

  /** Deleting any id other than the largest leaves the next id unchanged. */
  lemma DeletingLowerIdKeepsNextId(r: Registry, tid: int)
    requires tid in r.tasks && tid + 1 < NextId(r.tasks)
    ensures NextId(r.Delete(tid).tasks) == NextId(r.tasks)
  {
    var after := r.Delete(tid);
    var top := NextId(r.tasks) - 1;
    if r.CanDelete(tid) {
      assert top in after.tasks;
      assert NextId(after.tasks) - 1 in r.tasks;
    }
  }

  /** `complete_task` twice: true both times, and the second call changes nothing. */
  lemma CompleteIdempotent(r: Registry, tid: int)
    ensures r.Complete(tid).CanComplete(tid) == r.CanComplete(tid)
    ensures r.Complete(tid).Complete(tid) == r.Complete(tid)
  {
  }

  /** `delete_task` of a present id succeeds once; a second delete of it fails. */
  lemma DeleteTwiceFails(r: Registry, tid: int)
    ensures !r.Delete(tid).CanDelete(tid)
  {
  }

  /** The header and the two messages never read as task lines. */
  lemma MessagesAreNotTaskLines()
    ensures ParseTaskLine(Header) == None
    ensures ParseTaskLine(NoTasks) == None
    ensures ParseTaskLine(AllDone) == None
  {
    NoNumeralNotTaskLine(Header);
    NoNumeralNotTaskLine(NoTasks);
    NoNumeralNotTaskLine(AllDone);
  }

  /** A line that does not start with a digit or a minus sign is not a task line. */
  lemma NoNumeralNotTaskLine(line: string)
    requires line != [] && !IsNumeral(line[0])
    ensures ParseTaskLine(line) == None
  {
    assert NumeralPrefix(line) == 0;
    assert line[..0] == [];
  }

  lemma TaskLinesReadBack(ps: seq<(int, string)>)
    ensures forall i | 0 <= i < |ps| :: ParseTaskLine(TaskLines(ps)[i]) == Some(ps[i])
  {
    forall i | 0 <= i < |ps| ensures ParseTaskLine(TaskLines(ps)[i]) == Some(ps[i]) {
      ParseTaskLineRoundTrip(ps[i].0, ps[i].1);
    }
  }

  lemma FramedTaskLinesReadBack(ps: seq<(int, string)>, tail: seq<string>)
    requires forall i | 0 <= i < |tail| :: ParseTaskLine(tail[i]) == None
    ensures var lines := [Header] + (TaskLines(ps) + tail);
      forall i | 0 <= i < |lines| :: ParseTaskLine(lines[i]) == if 1 <= i <= |ps| then Some(ps[i - 1]) else None
  {
    var body := TaskLines(ps) + tail;
    var lines := [Header] + body;
    MessagesAreNotTaskLines();
    TaskLinesReadBack(ps);
    forall i | 0 <= i < |lines|
      ensures ParseTaskLine(lines[i]) == if 1 <= i <= |ps| then Some(ps[i - 1]) else None
    {
      if i > 0 {
        assert lines[i] == body[i - 1];
        if i <= |ps| {
          assert body[i - 1] == TaskLines(ps)[i - 1];
        } else {
          assert body[i - 1] == tail[i - 1 - |ps|];
        }
      }
    }
  }

  /** `show_tasks` prints the header, then one line per incomplete task, or else one message. */
  lemma ShowLength(r: Registry)
    requires r.tasks.Keys <= r.stats.Keys
    ensures var ps := IncompletePairs(r.tasks, r.stats);
      |r.Show()| == if ps == [] then 2 else 1 + |ps|
  {
    IncompletePairsEmpty(r.tasks, r.stats);
  }

  /**
   Reading `show_tasks`'s output back string by string: lines 1 to n are the n
   incomplete tasks in the order `IncompletePairs` gives; no other line reads
   as a task line.
   */
  lemma ShowReadsBack(r: Registry)
    requires r.tasks.Keys <= r.stats.Keys
    ensures var lines := r.Show(); var ps := IncompletePairs(r.tasks, r.stats);
      forall i | 0 <= i < |lines| :: ParseTaskLine(lines[i]) == if 1 <= i <= |ps| then Some(ps[i - 1]) else None
  {
    ShowShape(r);
    MessagesNotTaskLines(ShowTail(r));
    FramedTaskLinesReadBack(IncompletePairs(r.tasks, r.stats), ShowTail(r));
  }

  lemma MessagesNotTaskLines(tail: seq<string>)
    requires tail == [] || tail == [NoTasks] || tail == [AllDone]
    ensures forall i | 0 <= i < |tail| :: ParseTaskLine(tail[i]) == None
  {
    MessagesAreNotTaskLines();
    assert |tail| <= 1 && (tail != [] ==> ParseTaskLine(tail[0]) == None);
  }

  /** What `show_tasks` prints after the task lines: "No tasks yet!", the all-done message, or nothing. */
  function ShowTail(r: Registry): (tail: seq<string>)
    requires r.tasks.Keys <= r.stats.Keys
    ensures tail == [] || tail == [NoTasks] || tail == [AllDone]
  {
    if |r.tasks| == 0 then [NoTasks] else if IncompletePairs(r.tasks, r.stats) == [] then [AllDone] else []
  }

  /** The output of `show_tasks` is the header, the incomplete tasks' lines, then `ShowTail`. */
  lemma ShowShape(r: Registry)
    requires r.tasks.Keys <= r.stats.Keys
    ensures r.Show() == [Header] + (TaskLines(IncompletePairs(r.tasks, r.stats)) + ShowTail(r))
  {
    if |r.tasks| == 0 {
      NoTasksNoPairs(r.tasks, r.stats);
    }
  }

  lemma NoTasksNoPairs(tasks: map<int, string>, stats: map<int, bool>)
    requires |tasks| == 0
    ensures IncompletePairs(tasks, stats) == []
  {
    assert tasks == map[];
    IncompletePairsEmpty(tasks, stats);
  }

  /** With no tasks, `show_tasks` prints the header and "No tasks yet!". */
  lemma ShowEmpty(r: Registry)
    requires |r.tasks| == 0
    ensures r.Show() == [Header, NoTasks]
  {
  }

  /** The loop of `show_tasks` over the sorted ids, followed by its all-done check, yields `Show`. */
  lemma ShowFromLoop(r: Registry, taskLines: seq<string>, printedAny: bool)
    requires r.tasks.Keys <= r.stats.Keys && |r.tasks| != 0
    requires taskLines == TaskLines(IncompletePairs(r.tasks, r.stats))
    requires printedAny <==> IncompletePairs(r.tasks, r.stats) != []
    ensures r.Show() == [Header] + taskLines + if printedAny then [] else [AllDone]
  {
  }

  /** With tasks, all completed, it prints the header and "No incompleted tasks! Great job!". */
  lemma ShowAllDone(r: Registry)
    requires r.tasks != map[] && r.tasks.Keys <= r.stats.Keys
    requires forall k | k in r.tasks :: r.stats[k]
    ensures r.Show() == [Header, AllDone]
  {
    IncompletePairsEmpty(r.tasks, r.stats);
  }

  /** Line `i + 1` of `show_tasks`'s output is the line of the `i`-th incomplete task. */
  lemma ShowLineAt(r: Registry, i: nat)
    requires r.tasks.Keys <= r.stats.Keys
    requires i < |IncompletePairs(r.tasks, r.stats)|
    ensures var p := IncompletePairs(r.tasks, r.stats)[i];
      i + 1 < |r.Show()| && r.Show()[i + 1] == TaskLine(p.0, p.1)
  {
    var ps := IncompletePairs(r.tasks, r.stats);
    assert ps[i] in ps;
    assert |r.tasks| != 0;
    var tail := if ps == [] then [AllDone] else [];
    assert r.Show() == [Header] + (TaskLines(ps) + tail);
    assert ([Header] + (TaskLines(ps) + tail))[i + 1] == TaskLines(ps)[i];
  }

  /** A task's line appears in `show_tasks`'s output exactly when the task is not completed. */
  lemma ShowListsExactlyIncomplete(r: Registry)
    requires r.tasks.Keys <= r.stats.Keys
    ensures forall k | k in r.tasks :: TaskLine(k, r.tasks[k]) in r.Show() <==> !r.stats[k]
  {
    forall k | k in r.tasks ensures TaskLine(k, r.tasks[k]) in r.Show() <==> !r.stats[k] {
      ShowListsTask(r, k);
    }
  }

  lemma ShowListsTask(r: Registry, k: int)
    requires r.tasks.Keys <= r.stats.Keys && k in r.tasks
    ensures TaskLine(k, r.tasks[k]) in r.Show() <==> !r.stats[k]
  {
    if !r.stats[k] {
      ShowListsIncompleteTask(r, k);
    }
    if TaskLine(k, r.tasks[k]) in r.Show() {
      ShowHidesCompletedTask(r, k);
    }
  }

  lemma ShowListsIncompleteTask(r: Registry, k: int)
    requires r.tasks.Keys <= r.stats.Keys && k in r.tasks && !r.stats[k]
    ensures TaskLine(k, r.tasks[k]) in r.Show()
  {
    var ps := IncompletePairs(r.tasks, r.stats);
    assert (k, r.tasks[k]) in ps;
    var i :| 0 <= i < |ps| && ps[i] == (k, r.tasks[k]);
    ShowLineAt(r, i);
  }

  lemma ShowHidesCompletedTask(r: Registry, k: int)
    requires r.tasks.Keys <= r.stats.Keys && k in r.tasks
    requires TaskLine(k, r.tasks[k]) in r.Show()
    ensures !r.stats[k]
  {
    var lines := r.Show();
    var ps := IncompletePairs(r.tasks, r.stats);
    var i :| 0 <= i < |lines| && lines[i] == TaskLine(k, r.tasks[k]);
    ShowReadsBack(r);
    ParseTaskLineRoundTrip(k, r.tasks[k]);
    assert ps[i - 1] in ps;
  }

  /** Every line of `show_tasks`'s output that reads as a task line names an incomplete task and its description. */
  lemma ShowLinesNameIncompleteTasks(r: Registry)
    requires r.tasks.Keys <= r.stats.Keys
    ensures var lines := r.Show();
      forall i | 0 <= i < |lines| && ParseTaskLine(lines[i]).Some? ::
        var p := ParseTaskLine(lines[i]).value; p.0 in r.tasks && r.tasks[p.0] == p.1 && !r.stats[p.0]
  {
    var lines := r.Show();
    var ps := IncompletePairs(r.tasks, r.stats);
    ShowReadsBack(r);
    forall i | 0 <= i < |lines| && ParseTaskLine(lines[i]).Some?
      ensures var p := ParseTaskLine(lines[i]).value; p.0 in r.tasks && r.tasks[p.0] == p.1 && !r.stats[p.0]
    {
      assert ps[i - 1] in ps;
    }
  }

  /** The task lines of `show_tasks`'s output come in ascending id order. */
  lemma ShowAscending(r: Registry)
    requires r.tasks.Keys <= r.stats.Keys
    ensures var lines := r.Show();
      forall i, j | 0 <= i < j < |lines| && ParseTaskLine(lines[i]).Some? && ParseTaskLine(lines[j]).Some? ::
        ParseTaskLine(lines[i]).value.0 < ParseTaskLine(lines[j]).value.0
  {
    ShowReadsBack(r);
  }

  /** When some task is incomplete, every line after the header is a task line. */
  lemma ShowOnlyTaskLines(r: Registry)
    requires r.tasks.Keys <= r.stats.Keys
    requires exists k :: k in r.tasks && !r.stats[k]
    ensures var lines := r.Show();
      lines[0] == Header && forall i | 1 <= i < |lines| :: ParseTaskLine(lines[i]).Some?
  {
    var ps := IncompletePairs(r.tasks, r.stats);
    var k :| k in r.tasks && !r.stats[k];
    assert (k, r.tasks[k]) in ps;
    ShowLength(r);
    ShowReadsBack(r);
  }

  /** After `create_task(d)` returns `k`, task `k` is listed; once `complete_task(k)` succeeds it is not. */
  lemma CreateThenCompleteHides(r: Registry, description: string)
    requires r.tasks.Keys <= r.stats.Keys
    ensures var k := NextId(r.tasks); var created := r.Create(description);
      && TaskLine(k, description) in created.Show()
      && created.CanComplete(k)
      && TaskLine(k, description) !in created.Complete(k).Show()
  {
    var k := NextId(r.tasks);
    var created := r.Create(description);
    ShowListsExactlyIncomplete(created);
    ShowListsExactlyIncomplete(created.Complete(k));
  }

  /** `complete_task` and `delete_task` of an id that is not present return false and change nothing. */
  lemma AbsentIdFails(r: Registry, tid: int)
    requires r.Paired() && tid !in r.tasks
    ensures !r.CanComplete(tid) && r.Complete(tid) == r
    ensures !r.CanDelete(tid) && r.Delete(tid) == r
  {
  }

  /** One turn of `show_tasks`'s loop: the key at `i` adds its line when its task is incomplete. */
  lemma ShowStep(tasks: map<int, string>, stats: map<int, bool>, keys: seq<int>, i: nat)
    requires i < |keys| && forall j | 0 <= j < |keys| :: keys[j] in tasks
    ensures var done := IncompleteIn(tasks, stats, keys[..i]); var k := keys[i];
      && (IncompleteIn(tasks, stats, keys[..i + 1]) != [] <==> done != [] || IsIncomplete(stats, k))
      && TaskLines(IncompleteIn(tasks, stats, keys[..i + 1]))
         == TaskLines(done) + if IsIncomplete(stats, k) then [TaskLine(k, tasks[k])] else []
  {
    var done := IncompleteIn(tasks, stats, keys[..i]);
    assert keys[..i + 1][..i] == keys[..i];
    if IsIncomplete(stats, keys[i]) {
      TaskLinesAppend(done, (keys[i], tasks[keys[i]]));
    }
  }

  lemma TaskLinesAppend(ps: seq<(int, string)>, p: (int, string))
    ensures TaskLines(ps + [p]) == TaskLines(ps) + [TaskLine(p.0, p.1)]
  {
    assert (ps + [p])[..|ps|] == ps;
  }

  /** The module-level dictionaries of `todo.py`, updated in place by its functions. */
  class TodoList {
    var tasks: map<int, string>
    var stats: map<int, bool>

    function Value(): Registry
      reads this
    {
      Registry(tasks, stats)
    }

    ghost predicate Valid()
      reads this
    {
      Value().Paired()
    }

    constructor ()
      ensures Value() == Empty && Valid()
    {
      tasks := map[];
      stats := map[];
    }

    method CreateTask(description: string) returns (newId: int)
      modifies this
      ensures newId == NextId(old(tasks)) && Value() == old(Value()).Create(description)
      ensures old(Valid()) ==> Valid()
    {
      if Valid() { StepKeepsPaired(Value(), CreateOp(description)); }
      if |tasks| == 0 {
        newId := 1;
      } else {
        newId := MaxKey(tasks.Keys) + 1;
      }
      tasks := tasks[newId := description];
      stats := stats[newId := false];
    }

    method CompleteTask(tid: int) returns (changed: bool)
      modifies this
      ensures changed == old(Value()).CanComplete(tid) && Value() == old(Value()).Complete(tid)
      ensures old(Valid()) ==> Valid()
    {
      if Valid() { StepKeepsPaired(Value(), CompleteOp(tid)); }
      if tid in stats {
        stats := stats[tid := true];
        changed := true;
      } else {
        changed := false;
      }
    }

    method DeleteTask(tid: int) returns (removed: bool)
      modifies this
      ensures removed == old(Value()).CanDelete(tid) && Value() == old(Value()).Delete(tid)
      ensures old(Valid()) ==> Valid()
    {
      if Valid() { StepKeepsPaired(Value(), DeleteOp(tid)); }
      if tid in tasks && tid in stats {
        tasks := tasks - {tid};
        stats := stats - {tid};
        removed := true;
      } else {
        removed := false;
      }
    }

    /** The lines `show_tasks` prints, in order. */
    method ShowTasks() returns (lines: seq<string>)
      requires tasks.Keys <= stats.Keys
      ensures lines == Value().Show()
    {
      lines := [Header];
      if |tasks| == 0 {
        lines := lines + [NoTasks];
        ShowEmpty(Value());
        return;
      }
      var taskLines, printedAny := ListIncomplete(SortedKeys(tasks.Keys));
      ShowFromLoop(Value(), taskLines, printedAny);
      lines := lines + taskLines;
      if !printedAny {
        lines := lines + [AllDone];
      }
    }

    /**
     The `for` loop of `show_tasks` over the given ids: skips completed tasks
     and renders the rest, noting whether any line was produced.
     */
    method ListIncomplete(keys: seq<int>) returns (lines: seq<string>, printedAny: bool)
      requires tasks.Keys <= stats.Keys
      requires forall j | 0 <= j < |keys| :: keys[j] in tasks
      ensures lines == TaskLines(IncompleteIn(tasks, stats, keys))
      ensures printedAny <==> IncompleteIn(tasks, stats, keys) != []
    {
      lines := [];
      printedAny := false;
      for i := 0 to |keys|
        invariant lines == TaskLines(IncompleteIn(tasks, stats, keys[..i]))
        invariant printedAny == (IncompleteIn(tasks, stats, keys[..i]) != [])
      {
        var tid := keys[i];
        ShowStep(tasks, stats, keys, i);
        if Get(stats, tid, false) == true {
          continue;
        }
        var statusText := if stats[tid] then "completed" else "not completed";
        lines := lines + [FormatLine(tid, tasks[tid], statusText)];
        printedAny := true;
      }
      assert keys[..|keys|] == keys;
    }
  }

  /** The two registries the session below passes through before each `show_tasks`. */
  const Listed := Registry(map[1 := "Buy milk", 2 := "Walk dog"], map[1 := true, 2 := false])
  const Finished := Registry(map[1 := "Buy milk"], map[1 := true])

  const OneOpen := Registry(map[1 := "Buy milk"], map[1 := false])
  const TwoOpen := Registry(map[1 := "Buy milk", 2 := "Walk dog"], map[1 := false, 2 := false])

  lemma SessionStates()
    ensures NextId(Empty.tasks) == 1 && Empty.Create("Buy milk") == OneOpen
    ensures NextId(OneOpen.tasks) == 2 && OneOpen.Create("Walk dog") == TwoOpen
    ensures TwoOpen.CanComplete(1) && TwoOpen.Complete(1) == Listed
    ensures Listed.CanDelete(2) && Listed.Delete(2) == Finished
  {
    FirstCreate();
    SecondCreate();
    CompleteFirst();
    DeleteSecond();
  }

  lemma FirstCreate()
    ensures NextId(Empty.tasks) == 1 && Empty.Create("Buy milk") == OneOpen
  {
    assert Empty.Create("Buy milk").tasks == OneOpen.tasks;
    assert Empty.Create("Buy milk").stats == OneOpen.stats;
  }

  lemma SecondCreate()
    ensures NextId(OneOpen.tasks) == 2 && OneOpen.Create("Walk dog") == TwoOpen
  {
    assert OneOpen.tasks.Keys == {1};
    assert NextId(OneOpen.tasks) == 2;
    assert OneOpen.Create("Walk dog").tasks == TwoOpen.tasks;
    assert OneOpen.Create("Walk dog").stats == TwoOpen.stats;
  }

  lemma CompleteFirst()
    ensures TwoOpen.CanComplete(1) && TwoOpen.Complete(1) == Listed
  {
    assert TwoOpen.Complete(1).stats == Listed.stats;
  }

  lemma DeleteSecond()
    ensures Listed.CanDelete(2) && Listed.Delete(2) == Finished
  {
    assert Listed.Delete(2).tasks == Finished.tasks;
    assert Listed.Delete(2).stats == Finished.stats;
  }

  /** With task 1 completed and task 2 open, only task 2 is printed. */
  lemma ListedShow()
    ensures Listed.Show() == [Header, "2: Walk dog - not completed"]
  {
    ListedIncomplete();
    assert 1 in Listed.tasks;
    ShowSingle(Listed, (2, "Walk dog"));
    WalkDogLine();
  }

  /** When exactly one task is incomplete, `show_tasks` prints the header and that task's line. */
  lemma ShowSingle(r: Registry, p: (int, string))
    requires r.tasks.Keys <= r.stats.Keys && |r.tasks| != 0
    requires IncompletePairs(r.tasks, r.stats) == [p]
    ensures r.Show() == [Header, TaskLine(p.0, p.1)]
  {
    assert TaskLines([p]) == [TaskLine(p.0, p.1)];
  }

  lemma ListedIncomplete()
    ensures IncompletePairs(Listed.tasks, Listed.stats) == [(2, "Walk dog")]
  {
    var tasks, stats := Listed.tasks, Listed.stats;
    forall k | k in tasks ensures (k, tasks[k]) in [(2, "Walk dog")] <==> IsIncomplete(stats, k) {
      assert k == 1 || k == 2;
    }
    IncompletePairsUnique(tasks, stats, [(2, "Walk dog")]);
  }

  lemma WalkDogLine()
    ensures TaskLine(2, "Walk dog") == "2: Walk dog - not completed"
  {
    assert IntToString(2) == "2";
  }

  lemma FinishedShow()
    ensures Finished.Show() == [Header, AllDone]
  {
    assert 1 in Finished.tasks;
    ShowAllDone(Finished);
  }

  /**
   A session: create "Buy milk" (id 1), create "Walk dog" (id 2), complete 1,
   show, delete 2, show. The first listing holds only task 2; the second says
   every task is done.
   */
  method Session() returns (first: int, second: int, completed: bool, listed: seq<string>, deleted: bool, final: seq<string>)
    ensures first == 1 && second == 2 && completed && deleted
    ensures listed == [Header, "2: Walk dog - not completed"]
    ensures final == [Header, AllDone]
  {
    SessionStates();
    ListedShow();
    FinishedShow();
    var todo := new TodoList();
    first := todo.CreateTask("Buy milk");
    second := todo.CreateTask("Walk dog");
    completed := todo.CompleteTask(1);
    listed := todo.ShowTasks();
    deleted := todo.DeleteTask(2);
    final := todo.ShowTasks();
  }

  /** Create, delete that task, create again: both calls return 1, the deleted id is handed out again. */
  method ReuseSession() returns (first: int, removed: bool, second: int)
    ensures first == 1 && removed && second == 1
  {
    var todo := new TodoList();
    first := todo.CreateTask("Buy milk");
    removed := todo.DeleteTask(first);
    DeletingNewestReusesId(Empty, "Buy milk");
    second := todo.CreateTask("Walk dog");
  }
}
