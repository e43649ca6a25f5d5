# Task manager of the to-do list application

The application keeps its tasks in a task manager. The manager is a fixed
array of 100 `Task` slots plus a live count `taskCount`. Only the slots
`[0, taskCount)` are live; the rest are stale. It has three operations:

- `addTask` refuses with "Task limit reached." once the count reaches 100;
- `removeTask(index)` closes the gap by shifting later tasks left;
- `markTaskCompleted(index)` sets one task's completion flag.

Both index operations refuse with "Invalid task index." when
`index < 0 || index >= taskCount`.

The repository has two variants of the manager, and the model covers both:

- `Main.java`, the priority variant. Each task carries an `int` priority.
  `addTask` is one step of insertion sort: walking back from the end, it
  moves every task of strictly greater priority up one slot, then puts the
  new task into the slot left free. The live range therefore stays in
  non-decreasing priority order, and tasks of equal priority stay in the
  order they were added.
- `ToDoListApp.java`, the plain variant. Tasks have no priority, and
  `addTask` appends at slot `taskCount`.

Layout:

- `task_errors.dfy` (`TaskErrors`): the two exception messages, and the
  `Outcome` each operation returns instead of throwing.
- `rendering.dfy` (`Rendering`): the " (Completed)" marker, and the decimal
  rendering Java's string concatenation gives an `int`.
- `sequences.dfy` (`Sequences`): positional insertion and deletion on
  sequences. They are the abstract effect of the right and left shifts.
- `priority_todo.dfy` (`PriorityTodo`): the priority variant. It contains
  the `Task` datatype and `InsertByPriority`, the specification function of
  `addTask`, with its lemmas. It also contains `InsertInPlace`, the
  shifting loop on the array, and the `TaskManager` class.
- `plain_todo.dfy` (`PlainTodo`): the plain variant, built the same way.
- `scenarios.dfy` (`Scenarios`): the application's worked examples, traced
  through the contracts.

Each `TaskManager` class has:

- the fields `tasks: array<Task>` and `taskCount`;
- `Valid()`, which says the array has 100 slots, that
  `0 <= taskCount <= 100` and, for the priority variant, that the live
  range is sorted;
- the ghost view `Live() == tasks[..taskCount]`.

Every operation states its new live range as a function of the old one:

| variant | operation | new live range |
|---|---|---|
| priority | add | `InsertByPriority` of the old range |
| plain | add | the old range plus the new task |
| both | remove | `Delete` of the old range |
| both | mark completed | `MarkAt` of the old range |

The lemmas about those functions carry the promises: sorted order,
stability, permutation, round trips, idempotence, and "nothing else
changes".

## Model

| member | source | states |
|---|---|---|
| TaskErrors.TaskError.Message | Main.java:79-81 | Each exception message is non-empty and ends in a full stop ("Task limit reached.", "Invalid task index."). |
| TaskErrors.MessageIdentifiesError | Main.java:98-100 | The two messages are equal exactly when the errors are, so a caller can tell a full manager from a bad index. |
| Rendering.DigitChar | Main.java:71 | A digit below ten becomes the decimal character whose code is that far above '0'. |
| Rendering.NatToString | Main.java:71 | The decimal form of a natural number is a non-empty run of digits, with a leading '0' only for zero. |
| Rendering.IntToString | Main.java:71 | The decimal form of an `int` ends in a digit and starts with '-' exactly when the value is negative. |
| Rendering.NatToStringRoundTrip | Main.java:71 | Reading the digits back gives the rendered number, so the rendering loses nothing. |
| Rendering.IntToStringRoundTrip | Main.java:71 | After the sign, the rendering of an `int` reads back as its magnitude. |
| Sequences.InsertAt | Main.java:85-92 | Inserting at `k` keeps the entries before `k`, puts the new one at `k` and moves the rest up by one. |
| Sequences.Delete | Main.java:102-105 | Deleting at `k` keeps the entries before `k` and moves every later entry down by one, so the others keep their relative order. |
| Sequences.InsertAtMultiset | Main.java:88-93 | Insertion adds exactly one occurrence of the new entry and loses nothing. |
| Sequences.DeleteMultiset | Main.java:102-105 | Deletion removes exactly one occurrence, that of the deleted entry. |
| Sequences.DeleteInsertAt | Main.java:88-93 | Deleting at the insertion point undoes the insertion. |
| Sequences.InsertAtDelete | Main.java:102-105 | Putting the deleted entry back where it was undoes the deletion. |
| PriorityTodo.Task.MarkCompleted | Main.java:65-67 | The task becomes completed; its name and priority are unchanged. |
| PriorityTodo.Task.ToString | Main.java:69-72 | The rendering starts with the task name and ends with " (Completed)" exactly when the task is completed, whatever the name (the priority part ends in a digit). |
| PriorityTodo.NewTask | Main.java:46-50 | A new task has the given name and priority and is not completed. |
| PriorityTodo.SortedPairwise | Main.java:87-92 | Non-decreasing priority between neighbours is the same as non-decreasing priority between every pair of live tasks. |
| PriorityTodo.InsertionIndex | Main.java:85-91 | The backward scan stops at a position `k` where every task from `k` on has a strictly greater priority and the task before `k` (if any) does not. |
| PriorityTodo.InsertionIndexUnique | Main.java:85-91 | Those two facts determine the stopping position: any position that has them is the one the scan reaches. |
| PriorityTodo.InsertByPriority | Main.java:84-93 | Adding gives one more live task, with the new task at the scan's stopping position. |
| PriorityTodo.MarkAt | Main.java:109-114 | Marking keeps the number of live tasks. |
| PriorityTodo.InsertKeepsSorted | Main.java:85-93 | If the live range is sorted by priority before an add, it is sorted after it. |
| PriorityTodo.InsertIsStable | Main.java:87-91 | Every existing task of priority at most the new one's stays in front of it, and the existing tasks keep their order. |
| PriorityTodo.RemoveUndoesInsert | Main.java:88-106 | Removing the new task at the position it landed restores the live range. |
| PriorityTodo.InsertIsPermutation | Main.java:88-93 | The new live range is the old one plus exactly the new task, as a multiset. |
| PriorityTodo.DeleteKeepsSorted | Main.java:102-105 | Removing a task keeps the live range sorted by priority. |
| PriorityTodo.MarkAtChangesOnlyFlag | Main.java:109-114 | Marking sets the flag of the chosen task only; its name and priority and every other task are unchanged. |
| PriorityTodo.MarkAtIdempotent | Main.java:109-114 | Marking the same task twice is the same as marking it once. |
| PriorityTodo.MarkAtKeepsSorted | Main.java:109-114 | Marking keeps the live range sorted and never clears a completion flag. |
| PriorityTodo.GapFilled | Main.java:88-92 | The contents the shifting loop leaves behind, once the new task fills the gap, are exactly `InsertByPriority` of the old live range. |
| PriorityTodo.InsertInPlace | Main.java:84-92 | The in-place shift and fill turns array slots `0..n-1` into `InsertByPriority` of their old contents, held in slots `0..n`. |
| PriorityTodo.TaskManager.constructor | Main.java:19-24 | A new manager has 100 slots and no live tasks. |
| PriorityTodo.TaskManager.GetTasks | Main.java:31-33 | Returns the manager's own array, whose first `taskCount` slots are the live tasks. |
| PriorityTodo.TaskManager.GetTaskCount | Main.java:35-37 | Returns the number of live tasks, which lies between 0 and 100. |
| PriorityTodo.TaskManager.AddTask | Main.java:78-94 | Refuses with TaskLimitReached, changing nothing, when `taskCount >= 100`. Otherwise the count grows by one, the live range becomes `InsertByPriority` of the old one and it stays sorted. |
| PriorityTodo.TaskManager.RemoveTask | Main.java:97-106 | Refuses with InvalidTaskIndex, changing nothing, when the index is outside `[0, taskCount)`. Otherwise the count drops by one, the live range becomes `Delete` of the old one and it stays sorted. |
| PriorityTodo.TaskManager.MarkTaskCompleted | Main.java:109-114 | Refuses with InvalidTaskIndex, changing nothing, on the same indices. Otherwise the live range becomes `MarkAt` of the old one. |
| PlainTodo.Task.MarkCompleted | ToDoListApp.java:65-67 | The task becomes completed and keeps its name. |
| PlainTodo.Task.ToString | ToDoListApp.java:71-73 | A pending task renders as its name. A completed task renders as its name followed by " (Completed)". The rendering ends in the suffix exactly when the task is completed or its name already ends in it. |
| PlainTodo.NameFromRendering | ToDoListApp.java:71-73 | Stripping the suffix from a completed task's rendering gives back its name. |
| PlainTodo.SuffixDoesNotShowCompletion | ToDoListApp.java:71-73 | A pending task named "Call mom (Completed)" renders with the suffix, so in this variant the suffix alone does not show completion. |
| PlainTodo.NewTask | ToDoListApp.java:49-52 | A new task has the given name and is not completed. |
| PlainTodo.MarkAt | ToDoListApp.java:103-108 | Marking keeps the number of live tasks. |
| PlainTodo.RemoveUndoesAppend | ToDoListApp.java:85-98 | Removing the last task right after appending it restores the live range. |
| PlainTodo.AppendKeepsOrder | ToDoListApp.java:85 | Appending keeps every earlier task in its slot, puts the new task last and adds exactly that task. |
| PlainTodo.MarkAtChangesOnlyFlag | ToDoListApp.java:103-108 | Marking sets the flag of the chosen task only; its name and every other task are unchanged. |
| PlainTodo.MarkAtIdempotent | ToDoListApp.java:103-108 | Marking the same task twice is the same as marking it once. |
| PlainTodo.TaskManager.constructor | ToDoListApp.java:19-26 | A new manager has 100 slots and no live tasks. |
| PlainTodo.TaskManager.GetTasks | ToDoListApp.java:34-36 | Returns the manager's own array, whose first `taskCount` slots are the live tasks. |
| PlainTodo.TaskManager.GetTaskCount | ToDoListApp.java:39-41 | Returns the number of live tasks, which lies between 0 and 100. |
| PlainTodo.TaskManager.AddTask | ToDoListApp.java:81-86 | Refuses with TaskLimitReached, changing nothing, when `taskCount >= 100`. Otherwise the count grows by one and the new pending task is appended after the old live tasks. |
| PlainTodo.TaskManager.RemoveTask | ToDoListApp.java:90-99 | Refuses with InvalidTaskIndex, changing nothing, when the index is outside `[0, taskCount)`. Otherwise the count drops by one and the live range becomes `Delete` of the old one. |
| PlainTodo.TaskManager.MarkTaskCompleted | ToDoListApp.java:103-108 | Refuses with InvalidTaskIndex, changing nothing, on the same indices. Otherwise the live range becomes `MarkAt` of the old one. |
| Scenarios.ThreeTasksOrder | Main.java:78-114 | Adding "Wash dishes" (3), "Pay bills" (1) and "Call mom" (2) gives the order Pay bills, Call mom, Wash dishes. Removing entry 0 and marking the new entry 0 leaves a completed Call mom followed by Wash dishes. |
| Scenarios.CallMomRendering | Main.java:69-72 | A completed "Call mom" of priority 2 renders as "Call mom (Priority: 2) (Completed)". |
| Scenarios.FillToCapacity | Main.java:78-81 | After 100 successful adds to a new manager, the next add fails with "Task limit reached." and the count stays at 100. |

## Left out

- The JavaFX application is not modelled: window and widget construction, event handlers, alert and error dialogs, and `main`/`launch`. This is UI code bound to a library.
- `TaskListRefresher` is not modelled. It is a thread that sleeps and re-renders the list forever, and its only concerns are threading and UI refresh.
- The handlers' input checks are not modelled: parsing the priority text with `Integer.parseInt`, and refusing empty names. The managers accept any name and any `int` priority, which is what the model's operations take.
- `updateTaskList` is not modelled. It only copies the live prefix into a list widget; `Live()` is what it reads.
- In-place mutation of a `Task` object is modelled as replacing the slot's value (`tasks[index] := tasks[index].MarkCompleted()`).
  - Every add creates a fresh object, and the live range never holds the same object twice, so the manager observes the same thing either way.
  - What is not captured is a `Task` reference held outside the manager: `getTasks` hands out the array itself, and such a holder would see the flag change.
- Unused array slots hold a default `Task` value where Java holds `null`. Slots at or after `taskCount` are stale in both, and no contract says anything about them. The stale duplicate that `removeTask` leaves in the last old live slot is likewise unconstrained.
- Java's 32-bit `int` is kept as the range of `Int32` for priorities. The model needs no wrap-around, because priorities are only compared and rendered, and the count never passes 100.
- The exception is modelled by its message only, through the `Outcome` returned by each operation. There is no `TaskManagerException` class and no stack unwinding.
- The abstract base class `TaskManagerBase` is folded into each variant's `TaskManager` class, because each file defines and extends its own.
- The capacity check follows the code (`taskCount >= maxTasks`) rather than a test for equality. Under `Valid()` the two agree.
