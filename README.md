# To-do list: the task store

A model of the data side of a single-page to-do list, `script.js`. The page
keeps an ordered list of tasks, each with an id (the `Date.now()` value at
creation), a text, a `completed` flag and an ISO-8601 creation timestamp. It
also keeps the selected filter ("all", "active" or "completed") and mirrors
the whole list into the `"tasks"` slot of local storage after every change.
The handlers that change the list are these:

- `addTask` trims the input box. It rejects a blank value and otherwise
  appends a new open task.
- `toggleTask` flips `completed` on every task with the id. It then runs the
  celebration when the list is non-empty and entirely completed.
- `deleteTask` filters out every task with the id.
- `editTask` gives the first task with the id the trimmed answer of the edit
  dialog. It does nothing when there is no such task, when the dialog is
  cancelled, or when the answer is blank.

`renderTasks` shows the list through the filter, or an empty-state block.
`updateStats` shows the total and completed counts of the whole list.

The project has four modules:

- `Text` (`text.dfy`) models `String.prototype.trim`. That is the ECMA-262
  whitespace and line-terminator set cut off at both ends. It is stated once
  for any character class (`Strip`) and used with the whitespace class
  (`Trim`).
- `Filtering` (`filtering.dfy`) models `Array.prototype.filter` as `Where`,
  together with what it means to keep a subsequence in order.
- `Tasks` (`tasks.dfy`) holds the list as a value: what each handler does to
  it, the filtered view, the counters and the celebration test. Each
  operation comes with lemmas about what it preserves and how it combines.
- `Store` (`store.dfy`) holds the page state as the class `TaskStore`. It has
  the fields `tasks`, `currentFilter` and `slot` (local storage), and one
  method per handler. Each method states its new state through the `Tasks`
  functions, and states that the list stays valid (trimmed non-empty texts,
  unique ids) and that storage mirrors memory.

Some behaviours of the code are easy to miss:

- Toggling an id that no task has still saves the list. It also runs the
  celebration if every task is already completed (`Store.TaskStore.Toggle`).
- Toggling flips every task with that id, not just one.
- An edit with a blank answer is silently ignored. Only a blank add gives
  the rejection signal (`accepted` is false).
- Content in local storage that is not valid JSON makes `JSON.parse` throw
  at load rather than giving an empty list. The model has no such state, see
  below.

## Model

| member | source | states |
|---|---|---|
| Text.Trim | script.js:60 | the result is the infix of the input left after cutting a whitespace prefix and a whitespace suffix; it starts and ends with non-whitespace; it is empty exactly when the input is all whitespace |
| Text.TrimKeepsTrimmed | script.js:60 | a string with no whitespace at its ends trims to itself, so trimming is idempotent |
| Filtering.Where | script.js:103-105 | the filter result is an in-order subsequence of the list, every element of which the test accepts |
| Filtering.WhereCounts | script.js:103-105 | every accepted value occurs in the result as often as in the list, and no rejected value occurs |
| Filtering.WhereIsUnique | script.js:103-105 | the filter result is the only subsequence of accepted elements with its length |
| Tasks.Added | script.js:59-81 | blank input leaves the list unchanged; other input appends exactly one open task with the trimmed text, the given id and the given timestamp, after the old tasks in order |
| Tasks.AddCounts | script.js:73-80 | adding raises the total by one, or by zero on blank input, and leaves the completed count alone |
| Tasks.AddKeepsValid | script.js:60-80 | adding keeps every text trimmed and non-empty; it keeps ids unique when the new id is unused |
| Tasks.Toggled | script.js:180-202 | same length, order, ids, texts and timestamps; `completed` is flipped exactly at the tasks whose id matches |
| Tasks.ToggleUnknownId | script.js:180-202 | toggling an id no task has leaves the list equal |
| Tasks.ToggleTwice | script.js:180-202 | toggling the same id twice gives back the original list |
| Tasks.ToggleOne | script.js:180-202 | with unique ids, toggling the id at position k replaces only that task, by its copy with `completed` flipped |
| Tasks.ToggleOneCount | script.js:180-202 | with unique ids, the completed count moves by +1 when the toggled task was open and by -1 when it was completed |
| Tasks.ToggleKeepsValid | script.js:180-202 | toggling keeps texts valid and ids unique |
| Tasks.Celebrates | script.js:209-211 | the celebration runs if and only if the list is non-empty and every task in it is completed |
| Tasks.Deleted | script.js:233 | the result is an in-order subsequence of the list in which no task has the id |
| Tasks.DeleteExact | script.js:233 | every task with the id is removed; every other task keeps its number of occurrences |
| Tasks.DeleteUnknownId | script.js:233 | deleting an id no task has leaves the list equal |
| Tasks.DeleteIdempotent | script.js:233 | deleting twice is deleting once |
| Tasks.DeleteOne | script.js:233 | with unique ids, deleting the id at position k removes exactly that task and closes the gap |
| Tasks.DeleteKeepsValid | script.js:233 | deleting keeps texts valid and ids unique |
| Tasks.FindIndex | script.js:242-243 | `None` exactly when no task has the id; otherwise the position of the first task with the id |
| Tasks.Edited | script.js:241-247 | same length and order; ids, completion flags and timestamps unchanged everywhere |
| Tasks.EditNoOp | script.js:242-246 | an unknown id, a cancelled dialog or an all-whitespace answer leaves the list equal |
| Tasks.EditFirstMatch | script.js:242-247 | otherwise only the first task with the id changes, and only its text, which becomes the trimmed answer and is valid task text |
| Tasks.EditKeepsCountsAndValid | script.js:245-247 | editing changes neither counter and keeps texts valid and ids unique |
| Tasks.Project | script.js:101-106 | the view is an in-order subsequence of tasks the filter shows; under any filter value other than "active" and "completed" it is the whole list |
| Tasks.ProjectExact | script.js:101-106 | every task the filter shows occurs in the view as often as in the list |
| Tasks.ProjectIsLongest | script.js:101-106 | no subsequence of shown tasks is longer than the view, and one of the same length is the view |
| Tasks.ProjectIdempotent | script.js:101-106 | applying the same filter to the view changes nothing |
| Tasks.ProjectEmpty | script.js:101-109 | the "active" view is empty iff every task is completed; the "completed" view is empty iff none is; any other view is empty iff the list is |
| Tasks.StatsOf | script.js:272-273 | total is the list length; completed is the size of the "completed" view; their difference is the size of the "active" view |
| Tasks.EmptyStateFor | script.js:109-113 | the empty-state block appears iff the view is empty; its message is "No completed tasks yet!" iff the filter is "completed", and the empty-list prompt otherwise |
| Store.TaskStore.constructor | script.js:10-11 | the list is the stored one, or empty when nothing is stored; the filter is "all"; storage mirrors memory |
| Store.TaskStore.Save | script.js:336-338 | the storage slot holds the current list |
| Store.TaskStore.Add | script.js:59-81 | accepted iff the input is not all whitespace; the new list is `Added` of the old; saved only when accepted; filter unchanged; validity and mirroring kept |
| Store.TaskStore.Toggle | script.js:179-213 | the new list is `Toggled` of the old and is always saved; the returned celebration flag holds iff the new list is non-empty and all completed; validity kept |
| Store.TaskStore.Delete | script.js:216-238 | the new list is `Deleted` of the old and is saved; filter unchanged; validity kept |
| Store.TaskStore.Edit | script.js:241-248 | the new list is `Edited` of the old; saved exactly when the id exists and the answer is given and not blank; validity and mirroring kept |
| Store.TaskStore.SetFilter | script.js:43 | the filter becomes the button's value |
| Store.TaskStore.View | script.js:99-113 | returns the projected view under the current filter and the empty-state block for it |
| Store.TaskStore.Stats | script.js:271-273 | total and completed counts over the whole list, equal to the sizes of the "completed" and "active" views as stated above |

## Left out

- Animations (GSAP tweens, the shake on blank input, the pulse, the confetti of `celebrate`) and their timers are left out. They change no task data. The celebration is modelled as the boolean `Toggle` returns.
- DOM rendering is left out: the markup of each task row, `formatDate`, event wiring, and clearing the input box after an add.
- Store.TaskStore.Delete: on the animated path the deletion runs in the tween's completion callback. It is modelled as happening at once, and interleavings of events before the callback fires are not modelled.
- The animated delete and edit look up the first task row regardless of the id. That only chooses which row is animated, so it is not modelled.
- Store.TaskStore.Save: every write to local storage is modelled as succeeding. In the page `localStorage.setItem` can throw, for example when the quota is full or storage is blocked. Every handler saves only after changing the list in memory, so a throwing write leaves the new list in memory but unsaved. It also skips the re-render and the counters, and in `toggleTask` it skips the celebration test. `Persisted()`, "storage mirrors memory" and the `celebrate` result of `Toggle` hold only when the write succeeds.
- JSON encoding of the storage slot is left out. The slot holds the list itself. Content that is not valid JSON, which makes the page throw at load, is not modelled.
- `Date.now()`, `new Date().toISOString()` and the reply of `prompt` are inputs: `Add` takes an id and a timestamp, and `Edit` takes an optional answer. Ids are unbounded integers, and two adds within one millisecond could get the same id; `Add` keeps ids unique only when the given id is unused.
- Store.TaskStore.Edit: the source changes the found task object in place. Since tasks are values here, the model replaces the list element, and aliasing of that object is not modelled.
