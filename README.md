# To-do list task store, modelled in Dafny

The to-do list page (`script.js`) keeps three page-level variables: `tasks`,
an ordered list of task records, newest first; `currentFilter`, the view the
filter buttons chose; and `taskIdCounter`, the next id, seeded from the clock.
Its handlers add a task, delete one, toggle one, save an edit, complete all
tasks, clear the completed ones and change the filter. Each change is written
back to local storage. The page also derives the filtered list, the three
counters and the progress percentage it shows. A separate `keydown` handler
keeps a sliding window of the last ten key codes and fires an effect when they
spell a fixed sequence.

The model has four modules:

- `JsString` (`js_string.dfy`) models the two string built-ins the page relies on.
  `Trim` is `String.prototype.trim`, with ECMAScript's whitespace and
  line-terminator set. `JoinWithCommas` is `join(',')`.
- `Tasks` (`tasks.dfy`) holds the `Task` record and the derived views. For each
  mutation it also gives the list that the mutation leaves behind
  (`Without`, `Toggled`, `Edited`, `AllCompleted`, and `WithStatus` for clearing).
  The page's promises are proved here as lemmas about these functions.
- `TaskStore` (`store.dfy`) has the class `TodoList`, with the three variables as
  fields. Its handlers are methods that change the fields in place. Two ghost
  fields stand for local storage: `saved` is the list last written and `writes`
  counts the writes. Each method ties the new state to the matching function in
  `Tasks`. It also says whether the list was saved. The invariant `Valid` keeps
  storage in step with the list, keeps ids unique, and keeps the counter above
  every id.
- `Konami` (`konami.dfy`) has the class `KeySequence`, which models the key
  buffer and its handler.

Task records are values in a `seq<Task>`. The source's field writes
(`task.completed = …`, `task.text = …`) become updates of one element of that
sequence. The `forEach` in `completeAllTasks` becomes a loop over the indices.

Two behaviours of the page are easy to miss, and the model keeps both:

- `deleteTask` saves the list even when no task has the id (script.js:124-125).
- `addTask` puts no length cap on the text. The edit box's 100-character limit
  applies only to what is typed into it: the box opens holding the task's
  current text, which may be longer, so a saved edit can be longer than 100.

`TaskStore.AddThenComplete` is a worked scenario. It starts from an empty
list, adds one non-blank text and toggles the new task. Its assertions,
proved from the handlers' contracts alone, state that the list holds that single
task, now completed, that the counters read one total and one completed, that
progress is 100 and that storage was written twice.

## Model

| member | source | states |
|---|---|---|
| `JsString.TrimStartSpec` | script.js:73 | the leading-whitespace cut leaves a suffix of the input that does not start with whitespace, and what it drops is blank |
| `JsString.TrimEndSpec` | script.js:201 | the trailing-whitespace cut leaves a prefix of the input that does not end with whitespace, and what it drops is blank |
| `JsString.Trim` | script.js:73-74 | the trimmed text starts and ends with non-whitespace and is empty exactly when the input is blank (the `!text` rejection test) |
| `JsString.TrimPadding` | script.js:201 | what `trim` removes is blank padding before and after the result, which is a contiguous part of the input |
| `JsString.TrimTrimmed` | script.js:201-202 | a text that neither starts nor ends with whitespace is its own trim, so a text stored by add or edit compares equal to its own re-trim |
| `JsString.JoinWithCommas` | script.js:537 | `join(',')` of no parts is the empty string, and the text before the first comma of the join is the first part when that part holds no comma |
| `JsString.JoinsEqual` | script.js:537 | for non-empty lists of comma-free codes, the `join(',')` strings are equal exactly when the lists are |
| `JsString.JoinInjective` | script.js:537 | for non-empty lists of comma-free codes, equal `join(',')` strings mean equal lists |
| `Tasks.WithStatus` | script.js:382-384 | the status filter keeps every task with that status and nothing else |
| `Tasks.WithStatusIsSubsequence` | script.js:382-384 | both status views keep the tasks in list order, as an order-preserving subsequence |
| `Tasks.StatusPartition` | script.js:392-394 | the active and completed views together hold every task of the list exactly once, so their lengths add up to the list length |
| `Tasks.StatusIdsPartition` | script.js:379-388 | when ids are unique, the id sets of the active and completed views are disjoint and their union is the ids of the whole list |
| `Tasks.FilteredView` | script.js:379-388 | `getFilteredTasks` returns an order-preserving subsequence of the list: exactly the active tasks for 'active', exactly the completed ones for 'completed', the list itself for any other value |
| `Tasks.StatsOf` | script.js:392-394 | total is the list length, completed is the size of the completed view, pending is the size of the active view, and completed + pending = total |
| `Tasks.Percentage` | script.js:427 | the percentage lies in 0..100, is 0 for an empty list and 100 when all are done, and rounds 100·completed/total to the nearest integer, with halves rounded up |
| `Tasks.Progress` | script.js:425-427 | the progress is in 0..100, 0 for an empty list, and 100 when no task is active |
| `Tasks.ProgressOneOfThree` | script.js:425-427 | one completed task out of three shows 33% |
| `Tasks.FindIndex` | script.js:135-136 | `find` returns the first task with the id, or nothing exactly when no task has it |
| `Tasks.FindIndexUnique` | script.js:135 | when ids are unique, `find` by a task's id returns that very task |
| `Tasks.Without` | script.js:124 | after deleting, no task has the id and every other task is still there; an id that no task has leaves the list equal |
| `Tasks.WithoutIsSubsequence` | script.js:124 | deleting keeps the remaining tasks in their original relative order |
| `Tasks.PrependKeepsIds` | script.js:79-86 | putting a task numbered by the counter in front keeps ids unique, and the counter moved on by one stays above every id |
| `Tasks.SubsequenceKeepsIds` | script.js:293 | removing tasks (delete, clear completed) keeps ids unique and below the counter |
| `Tasks.Toggled` | script.js:134-142 | toggling keeps the length, and keeps each task's id, text and creation time |
| `Tasks.ToggledExactly` | script.js:135-142 | when ids are unique, toggling flips `completed` on the task with the id and on no other task |
| `Tasks.ToggleTwice` | script.js:142 | toggling the same id twice restores the list |
| `Tasks.Edited` | script.js:200-205 | editing keeps the length, and keeps every id, completion flag and creation time; a text either stays or becomes the non-empty trimmed input |
| `Tasks.EditedExactly` | script.js:200-205 | when ids are unique, the task with the id takes the trimmed input exactly when that is non-empty and differs from its current text; every other task, and the list for an unknown id, stay as they were |
| `Tasks.EditIdempotent` | script.js:200-229 | saving the same input twice (Enter, then blur) gives the same list as saving it once |
| `Tasks.EditWithCurrentText` | script.js:182-205 | saving a task's current text, when that text is already trimmed, changes nothing |
| `Tasks.AllCompleted` | script.js:264 | the `forEach` leaves the same number of tasks, each one completed and otherwise equal to the task it was |
| `Tasks.AllCompletedViews` | script.js:264 | after completing all, the list has the same length, and only the completion flags differ; no task is active and every task is completed |
| `Tasks.AllCompletedWhenNoneActive` | script.js:254-255 | when no task is active, completing all changes nothing |
| `Tasks.ClearWhenNoneCompleted` | script.js:273-274 | when no task is completed, the active view is the whole list |
| `TaskStore.TodoList.View` | script.js:379-388 | the list the page shows is an order-preserving subsequence of the task list, and the whole list under the 'all' filter |
| `TaskStore.TodoList.constructor` | script.js:20-22 | the page starts with the stored list, the 'all' filter and the counter at the clock value; the stored ids must be unique and below it |
| `TaskStore.TodoList.SaveTasks` | script.js:446-448 | a save makes storage equal to the list and counts one write |
| `TaskStore.TodoList.AddTask` | script.js:72-88 | blank input changes nothing and writes nothing. Otherwise a new, not-completed task with the trimmed text and the old counter as its id goes in front of the unchanged old list; the counter rises by one and one write happens. Ids stay unique |
| `TaskStore.TodoList.DeleteTask` | script.js:124-125 | the list becomes `Without(old list, id)` and is written once |
| `TaskStore.TodoList.ToggleTask` | script.js:134-165 | the list becomes `Toggled(old list, id)`; it is written once when the id is found and not at all otherwise |
| `TaskStore.TodoList.SaveEdit` | script.js:200-205 | the list becomes `Edited(old list, id, input)`; it is written exactly when it changed, and an edited text is no longer than the input; with `EditedExactly`, only the task with the id takes the trimmed input |
| `TaskStore.TodoList.SetFilter` | script.js:233-234 | only the filter changes; the list, counter and storage stay as they were, and the shown list becomes the filtered view for the new filter |
| `TaskStore.TodoList.CompleteAllTasks` | script.js:253-265 | the list becomes the all-completed list; it is written once unless no task was active, in which case nothing changes |
| `TaskStore.TodoList.ClearCompletedTasks` | script.js:272-294 | the list becomes the former active view; it is written once unless no task was completed, in which case nothing changes |
| `Konami.Recent` | script.js:532-535 | the buffer is the most recent part of the key history, in arrival order, at most ten codes long |
| `Konami.RecentPush` | script.js:532-535 | a push followed by dropping the oldest code on overflow gives the window of the extended history |
| `Konami.TargetCommaFree` | script.js:525-529 | no code of the target sequence holds a comma |
| `Konami.MatchIsTarget` | script.js:537 | for a non-empty window of comma-free codes, the joined-string comparison holds exactly when the window equals the target sequence |
| `Konami.KeySequence.constructor` | script.js:524 | the buffer starts empty |
| `Konami.KeySequence.KeyDown` | script.js:531-548 | the handler fires exactly when the joined window matches. The buffer stays the window of the codes pressed since the last reset, and it is empty afterwards exactly when the handler fired |
| `Konami.FiresOnTarget` | script.js:531-548 | while key codes carry no commas, the handler fires exactly when the last ten codes since the previous reset are the target sequence |

## Left out

- Animation (every GSAP call, timeline, counter tween and the floating
  particles), rendering (`renderTasks`, `createTaskElement`, showing and hiding
  elements) and event wiring. They only display the state.
- Local storage and JSON. A write is the ghost `saved`/`writes` pair. The
  stored list is a constructor parameter, and a corrupt or absent slot is the
  caller's concern.
- The clock. `Date.now()` is the constructor's `now` parameter and the ISO
  timestamp is `AddTask`'s `createdAt` parameter.
- The Ctrl+Enter and Escape shortcuts call `addTask` or clear the input box.
  They add no store logic.
- `TaskStore.TodoList.constructor`: requires the stored ids to be unique and
  below the clock value. The source assumes this of `Date.now()` and does not
  check it.
- `TaskStore.TodoList.DeleteTask`: the removal runs as one step. In the source
  it waits for the removal animation to finish.
- `TaskStore.TodoList.ClearCompletedTasks`: the removal runs as one step. In the
  source it waits for the removal animation to finish.
- `TaskStore.TodoList.ToggleTask`: the model does not capture the failed DOM
  lookup that would throw before the flip when the task has no rendered element.
  The handler is only reachable from a rendered element.
- `TaskStore.TodoList.SaveEdit`: looks the task up by id when saving. The source
  uses the record captured when the edit box opened. If that task was deleted
  meanwhile, the source changes the detached record and writes the unchanged
  list. The model leaves the list the same but counts no write.
- `Tasks.Percentage`: rounds 100·completed/total exactly. The source computes
  `completed / total * 100` in floating point before `Math.round`, and that can
  differ by one at an exact half.
- Ids are unbounded integers. The source's ids are doubles, which are exact for
  clock-sized integers.
