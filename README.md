# Todo registry, modelled in Dafny

The repository holds two versions of one small module: an in-memory task
registry. Each version has two dictionaries keyed by task id: `tasks` maps an
id to its description, and `stats` maps an id to a completed flag. Each version
offers four functions:

- `create_task` adds a task and returns its id.
- `complete_task` marks a task as done and returns whether it did.
- `delete_task` removes a task from both dictionaries and returns whether it did.
- `show_tasks` prints the tasks that are not completed, in ascending id order.

The two versions differ in how they choose ids:

- `todo.py` gives a new task the largest id present plus one, or 1 when there
  are no tasks. Deleting the task just created and creating another hands the
  same id out again.
- `test_todo.py` keeps a counter `_next_id`, which starts at 1 and goes up by one
  on every create. It never hands out an id twice.

The versions also differ in what `show_tasks` prints. `todo.py` prints
`{tid}: {desc} - not completed`, plus a message when there are no tasks or no
incomplete tasks. `test_todo.py` prints `{tid}. {desc}` and nothing else.

The project has these modules:

- `Decimal` (`decimal.dfy`): `str(int)` as the f-strings use it, and a decimal
  reader that undoes it. Reading a printed line back into its id and
  description relies on this.
- `Keys` (`keys.dfy`): `sorted(d.keys())`, `max(d.keys())` and `d.get(k, default)`.
- `Listing` (`listing.dfy`): the incomplete `(id, description)` pairs in
  ascending id order. Both versions of `show_tasks` walk through them.
- `Commands` (`commands.dfy`): the three state-changing calls as values, so
  that lemmas can quantify over any sequence of calls.
- `Todo` (`todo.dfy`): `todo.py`.
- `TodoCounter` (`todo_counter.dfy`): `test_todo.py`.

Each version is modelled twice:

- **A `Registry` datatype.** Its member functions (`Create`, `Complete`,
  `Delete`, `Show`) say what each call does to the dictionaries and what it
  returns or prints. The lemmas are stated over this value.
- **A `TodoList` class.** It holds the module-level globals as fields (`tasks`,
  `stats`, and `nextId` for the counter version). Its methods change those
  fields in place, in the same steps as the Python code. Each method is proved
  to return what the matching `Registry` function says and to leave the state
  that function describes. `show_tasks` is a `for` loop over the sorted ids in
  both versions, and so is the model, with loop invariants.

The two files also differ in details that are easy to miss:

- `todo.py` can hand out an id again after it was deleted
  (`Todo.DeletingNewestReusesId`). `test_todo.py` never does
  (`TodoCounter.NeverReused`), and its ids strictly increase
  (`TodoCounter.IssuedIncreasing`).
- `todo.py`'s `complete_task` checks only `tid in stats`. `test_todo.py`
  checks both dictionaries.
- `todo.py` prints the header with a leading newline
  (`"\n=== Your Todo List ==="`), so `Todo.Header` includes that newline.
  `test_todo.py` prints it without one.

## Model

| member | source | states |
|---|---|---|
| Decimal.IntToString | todo.py:83 | `str(tid)`: non-empty, only digits and a minus sign, and it starts with `-` exactly when the number is negative |
| Decimal.ParseIntToString | todo.py:83 | reading back the decimal text of any integer gives that integer |
| Decimal.IntToStringInjective | todo.py:83 | two different ids never print the same way |
| Keys.MaxKey | todo.py:42 | `max(tasks.keys())` is a key, and no key is larger |
| Keys.SortedKeys | todo.py:76 | `sorted(tasks.keys())`: strictly ascending, every key exactly once, nothing else |
| Listing.IncompleteInSpec | todo.py:76-79 | walking ids in the given order and keeping those whose status is not true keeps exactly those tasks, each with its description, and keeps ascending order |
| Listing.IncompletePairs | todo.py:76-79 | the incomplete tasks in ascending id order: every pair is a task with its description and is not completed, and every such task appears |
| Listing.IncompletePairsUnique | todo.py:76-79 | any ascending list of exactly the incomplete tasks equals `IncompletePairs` |
| Listing.IncompletePairsEmpty | todo.py:86-88 | the listing is empty exactly when every task has status true |
| Todo.NextId | todo.py:37-42 | the id `create_task` chooses is not in use; it is 1 when there are no tasks, and otherwise one more than the largest id, so it is above every id present |
| Todo.Registry.Create | todo.py:44-48 | the new id is added to both dictionaries with the description and status false; every other entry is unchanged |
| Todo.Registry.Complete | todo.py:102-107 | sets the status of `tid` to true when `tid` has a status; otherwise returns the registry unchanged; `tasks` and every other status are unchanged |
| Todo.Registry.Delete | todo.py:120-126 | when `tid` is in both dictionaries it is removed from both; otherwise nothing changes; the remaining entries keep their values |
| Todo.StepKeepsPaired | todo.py:44-46 | create, complete and delete each keep the key sets of `tasks` and `stats` equal |
| Todo.RunKeepsPaired | todo.py:6-9 | any sequence of calls keeps the key sets of `tasks` and `stats` equal |
| Todo.IssuedFirst | todo.py:38-39 | with no deletes, the first id handed out is `NextId` of the starting state, so 1 from an empty registry |
| Todo.IssuedAboveExisting | todo.py:40-42 | with no deletes, every id handed out is above every id present at the start |
| Todo.IssuedIncreasingWithoutDeletes | todo.py:40-42 | with no deletes, successive creates return strictly increasing ids |
| Todo.DeletingNewestReusesId | todo.py:40-42 | deleting the task just created makes the next create return the same id again |
| Todo.DeletingLargestId | todo.py:40-42 | after the largest id is deleted, the next create returns that id again exactly when the id below it is still present, or when it was 1 and the only task; while tasks remain, the next id is never above the deleted one |
| Todo.DeletingLargestMayNotReuse | todo.py:40-42 | with tasks 1 and 3, deleting 3 makes the next id 2, not 3 |
| Todo.DeletingLowerIdKeepsNextId | todo.py:40-42 | deleting any id other than the largest leaves the next id unchanged |
| Todo.CompleteIdempotent | todo.py:103-105 | completing twice succeeds both times when the first one did, and the second call changes nothing |
| Todo.DeleteTwiceFails | todo.py:121-126 | after a delete, deleting the same id again fails |
| Todo.AbsentIdFails | todo.py:103-126 | for an id that is not present, complete and delete both return false and change nothing |
| Todo.ParseTaskLineRoundTrip | todo.py:83 | a printed task line reads back as exactly its id and description |
| Todo.MessagesAreNotTaskLines | todo.py:65-70 | the header and the two messages never read as task lines |
| Todo.ShowEmpty | todo.py:67-70 | with no tasks, the output is the header then "No tasks yet!" |
| Todo.ShowAllDone | todo.py:86-88 | with tasks that are all completed, the output is the header then "No incompleted tasks! Great job!" |
| Todo.ShowLength | todo.py:65-88 | the output is the header plus one line per incomplete task, or the header plus one message when none is incomplete |
| Todo.ShowReadsBack | todo.py:65-88 | read back string by string, lines 1 to n are the n incomplete tasks in listing order, and no other line is a task line |
| Todo.ShowListsExactlyIncomplete | todo.py:76-84 | a task's line appears in the output exactly when its status is false |
| Todo.ShowLinesNameIncompleteTasks | todo.py:77-83 | every task line in the output names a present, incomplete task with its own description |
| Todo.ShowAscending | todo.py:75-76 | the task lines in the output are in strictly ascending id order |
| Todo.ShowOnlyTaskLines | todo.py:72-84 | when some task is incomplete, every line after the header is a task line |
| Todo.CreateThenCompleteHides | todo.py:103-105 | after `create_task(d)` returns `k`, task `k` is listed; completing `k` succeeds, and afterwards `k` is not listed |
| Todo.TodoList.constructor | todo.py:17-18 | the globals start as two empty dictionaries |
| Todo.TodoList.CreateTask | todo.py:37-48 | returns `NextId` of the old tasks and leaves the state `Registry.Create` describes; keeps the key sets equal |
| Todo.TodoList.CompleteTask | todo.py:102-107 | returns `CanComplete(tid)` and leaves the state `Registry.Complete` describes |
| Todo.TodoList.DeleteTask | todo.py:120-126 | returns `CanDelete(tid)` and leaves the state `Registry.Delete` describes |
| Todo.TodoList.ListIncomplete | todo.py:73-84 | the loop over the given ids produces the lines of the incomplete tasks, and sets `printedAny` exactly when it produced one |
| Todo.TodoList.ShowTasks | todo.py:65-88 | the printed lines are `Registry.Show` of the current state |
| Todo.Session | todo.py:37-126 | create "Buy milk" returns 1; create "Walk dog" returns 2; complete 1 succeeds; the listing is the header and "2: Walk dog - not completed"; delete 2 succeeds; the next listing is the header and the all-done message |
| Todo.ReuseSession | todo.py:37-48 | create returns 1, deleting it succeeds, and a second create returns 1 again |
| TodoCounter.Registry.Create | test_todo.py:19-25 | the counter's value becomes the new id in both dictionaries, with the description and status false; the counter goes up by one; every other entry is unchanged |
| TodoCounter.Registry.Complete | test_todo.py:43-46 | when `tid` is in both dictionaries its status becomes true; otherwise nothing changes; `tasks`, the counter and the other statuses are unchanged |
| TodoCounter.Registry.Delete | test_todo.py:54-58 | when `tid` is in both dictionaries it is removed from both; otherwise nothing changes; the counter is never touched |
| TodoCounter.StepKeepsValid | test_todo.py:19-58 | each call keeps these true: the key sets are equal, the counter is positive, and the counter is above every id in use |
| TodoCounter.RunKeepsValid | test_todo.py:10-12 | from any valid state, including the initial one, any sequence of calls keeps the invariant |
| TodoCounter.CreateIsFresh | test_todo.py:20-24 | in a valid state the id handed out is in neither dictionary, so no entry is overwritten |
| TodoCounter.RunCounterGrows | test_todo.py:20-21 | the counter grows by exactly the number of creates; complete and delete leave it alone |
| TodoCounter.IssuedInRange | test_todo.py:20-21 | every id handed out lies between the counter before and after the calls |
| TodoCounter.IssuedIncreasing | test_todo.py:20-21 | successive creates return strictly increasing ids, even with deletes in between |
| TodoCounter.IssuedFirst | test_todo.py:12 | the first id handed out is the counter's value, so 1 from the initial state |
| TodoCounter.NeverReused | test_todo.py:20-21 | from a valid state, no id handed out equals an id present at the start, and no two ids handed out are equal |
| TodoCounter.DeleteNewestThenCreate | test_todo.py:54-58 | deleting the task just created does not move the counter back |
| TodoCounter.CompleteIdempotent | test_todo.py:43-46 | completing twice succeeds both times when the first one did, and the second call changes nothing |
| TodoCounter.DeleteTwiceFails | test_todo.py:54-58 | after a delete, deleting the same id again fails |
| TodoCounter.ParseTaskLineRoundTrip | test_todo.py:35 | a printed `{tid}. {desc}` line reads back as exactly its id and description |
| TodoCounter.HeaderIsNotTaskLine | test_todo.py:32 | the header never reads as a task line |
| TodoCounter.ShowReadsBack | test_todo.py:32-35 | the output is the header followed by exactly one line per incomplete task, in ascending id order |
| TodoCounter.ShowListsExactlyIncomplete | test_todo.py:33-35 | a task's line appears exactly when `stats.get(tid, False)` is false |
| TodoCounter.ShowAscending | test_todo.py:32-35 | every string after the header reads back as a task line, and the task lines come in strictly ascending id order |
| TodoCounter.ShowOnlyHeader | test_todo.py:32-35 | when no task is incomplete, only the header is printed |
| TodoCounter.TodoList.constructor | test_todo.py:10-12 | the globals start empty, with the counter at 1 |
| TodoCounter.TodoList.CreateTask | test_todo.py:19-25 | returns the old counter value and leaves the state `Registry.Create` describes; in a valid state the id was not in use and the invariant still holds |
| TodoCounter.TodoList.CompleteTask | test_todo.py:43-46 | returns `Has(tid)` and leaves the state `Registry.Complete` describes |
| TodoCounter.TodoList.DeleteTask | test_todo.py:54-58 | returns `Has(tid)` and leaves the state `Registry.Delete` describes |
| TodoCounter.TodoList.ListIncomplete | test_todo.py:33-35 | the loop over the given ids produces one line per task whose status is not true, in the given order |
| TodoCounter.TodoList.ShowTasks | test_todo.py:32-35 | the printed lines are `Registry.Show` of the current state |
| TodoCounter.Session | test_todo.py:19-58 | create returns 1, deleting it succeeds, and a second create returns 2 |

## Left out

- `main()` in both files (todo.py:129-213, test_todo.py:61-100) is not modelled. It is console I/O: an `input()`/`print()` menu loop that dispatches to the registry.
- `int(...)` parsing of ids and its `ValueError` branch (todo.py:182-186, test_todo.py:82-85) are not modelled. Ids reach the model as already-parsed integers.
- Printing is not modelled. `show_tasks` returns one string per `print` call, in order. A string can hold a newline, as `Todo.Header` and a description may, so on the console it can take more than one line.
- The empty-description check (todo.py:174-175) is not modelled. It lives in the menu loop, not in `create_task`.
- Todo.Registry.Show: requires every task id to have a status. For an id in `tasks` that is missing from `stats`, `stats.get` returns False, and then `stats[tid]` raises `KeyError`. The precondition always holds while the two dictionaries keep equal keys (`Todo.RunKeepsPaired`).
- Todo.TodoList.ShowTasks: has the same precondition as `Registry.Show`, for the same reason.
- Statuses are modelled as `bool`. The check `stats.get(tid, False) is True` in todo.py is therefore the same as comparing with `true`. Non-boolean status values are not modelled, because neither file ever stores one.
- The module-level globals are modelled as the fields of one `TodoList` object. Python's module import and global rebinding are not modelled.
