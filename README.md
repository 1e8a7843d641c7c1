# Task planner: a Dafny model of the `TaskPlanner` component

The task planner is a single React component. The user picks a calendar
date and types a draft text. Tasks are added under that date, edited,
deleted and marked done. All state lives in four `useState` fields:

- `selectedDate`: the picked date, or none;
- `tasksByDate`: a map from a date key such as `2024-01-05` to the ordered
  list of task records `{ id, task, date, done }` filed under it;
- `taskText`: the draft, shared by adding and editing;
- `editingTaskId`: the id of the task being edited, or none.

The handlers are guarded transitions over that state. This project models
them as the methods of class `Planner.TaskPlanner`, one per handler, each
run as one atomic step. Each method's postcondition gives the whole new
state. The new store is given by a pure function of module `TaskStore`,
which rebuilds only the one key it is given, as the source's
`{ ...tasksByDate, [key]: updatedTasks }` does. The per-date list
transforms (`find`, the two `map`s, `filter`) are recursive functions of
module `Tasks`. Their contracts describe them element by element, and
lemmas give their algebra: toggle is an involution, delete keeps the order
of the tasks it keeps, and an absent id changes nothing. Module `Text`
models the guard `taskText.trim() !== ''`. It uses the exact set of code
points that ECMAScript's `String.prototype.trim` strips (WhiteSpace and
LineTerminator, sections 12.2 and 12.3 of ECMA-262).

The store invariant `TaskStore.Consistent` has two parts. Every task is
filed under its own date, and ids are distinct within one date. Every
handler preserves it. For add, this holds when the new id is not yet used
under that date.

Modelling choices:

- The selected date is the already-formatted key (`Option<string>`).
  `toISOString().split('T')[0]` is not modelled.
- The new task's id (`Date.now()`) is a parameter of `AddTask`.
- Begin-edit requires a selected date. The Edit button is only rendered
  inside the `selectedDate && (...)` block
  (src/components/TaskPlanner.jsx:81,103), so it is never called without
  one.
- The text inputs' inline `onChange` setters
  (src/components/TaskPlanner.jsx:72,90) are modelled as `ChangeText`.
- `Planner.Session` and `Planner.EditThenCommit` are clients of the class.
  `Session` replays a short session: add to an empty planner, toggle
  twice, delete. `EditThenCommit` runs begin-edit, typing and commit on
  any task of the selected date. Both check what the method contracts let
  a caller conclude.

## Model

| member | source | states |
|---|---|---|
| `Text.IsTrimmable` | src/components/TaskPlanner.jsx:16 | the code points `trim` strips: ECMAScript's WhiteSpace and LineTerminator characters |
| `Text.FirstKept` | src/components/TaskPlanner.jsx:16 | the first kept index: everything skipped is whitespace, the character found is not |
| `Text.EndKept` | src/components/TaskPlanner.jsx:16 | the end of the kept part: everything cut from the end is whitespace, the last kept character is not |
| `Text.Trim` | src/components/TaskPlanner.jsx:16 | `trim` gives a contiguous slice of the draft; everything outside it is whitespace, and a non-empty result starts and ends with a kept character |
| `Text.HasText` | src/components/TaskPlanner.jsx:16 | the guard `taskText.trim() !== ''` of add and commit-update (also line 36); `HasTextIff` gives its meaning |
| `Text.HasTextIff` | src/components/TaskPlanner.jsx:16 | the add/update guard `trim() !== ''` holds exactly when the draft has a non-whitespace character, so an empty or whitespace-only draft fails it |
| `Tasks.Find` | src/components/TaskPlanner.jsx:28 | `find` returns nothing exactly when no task has the id; otherwise it returns the first task with that id |
| `Tasks.ReplaceText` | src/components/TaskPlanner.jsx:39-41 | the update `map` keeps length and order and keeps `id`, `date` and `done` of every task; it replaces the text of exactly the tasks with the id |
| `Tasks.ToggleDone` | src/components/TaskPlanner.jsx:58-60 | the toggle `map` keeps length and order and keeps `id`, `task` and `date` of every task; it flips `done` on exactly the tasks with the id |
| `Tasks.RemoveId` | src/components/TaskPlanner.jsx:50 | the `filter` keeps exactly the tasks whose id differs and never lengthens the list |
| `Tasks.ReplaceTextAt` | src/components/TaskPlanner.jsx:39-41 | with distinct ids, update changes the one task with that id, and only its text |
| `Tasks.ToggleDoneAt` | src/components/TaskPlanner.jsx:58-60 | with distinct ids, toggle changes the one task with that id, and only its `done` |
| `Tasks.ReplaceTextAbsent` | src/components/TaskPlanner.jsx:39-41 | an update whose id is absent leaves the list unchanged |
| `Tasks.ToggleDoneAbsent` | src/components/TaskPlanner.jsx:58-60 | a toggle whose id is absent leaves the list unchanged |
| `Tasks.ToggleDoneTwice` | src/components/TaskPlanner.jsx:58-60 | toggling the same id twice restores the list (involution) |
| `Tasks.RemoveIdAbsent` | src/components/TaskPlanner.jsx:50 | deleting an absent id leaves the list unchanged |
| `Tasks.RemoveIdConcat` | src/components/TaskPlanner.jsx:50 | filtering distributes over concatenation, so the kept tasks stay in their original relative order |
| `Tasks.RemoveIdAt` | src/components/TaskPlanner.jsx:50 | with distinct ids, deleting the id of the task at index k removes exactly that task and keeps the rest in order |
| `Tasks.RemoveIdKeepsDistinct` | src/components/TaskPlanner.jsx:50 | deleting keeps the remaining ids distinct |
| `TaskStore.TasksFor` | src/components/TaskPlanner.jsx:18 | the stored list under the key, or the empty-list fallback `[]` when the key is absent (the same lookup at lines 27, 38, 49 and 57) |
| `TaskStore.Consistent` | src/components/TaskPlanner.jsx:19-21 | the store invariant the handlers keep: every task is filed under its own `date` key, and ids are distinct within one date |
| `TaskStore.AddTask` | src/components/TaskPlanner.jsx:17-21 | other keys are untouched; under the key the old tasks stay as a prefix, in order, followed by exactly one new task with the given id and text, that date and `done = false`; the invariant is kept when the id is new under that date |
| `TaskStore.UpdateTask` | src/components/TaskPlanner.jsx:37-42 | other keys are untouched; the key's tasks are the update `map` of the old ones; the invariant is kept |
| `TaskStore.DeleteTask` | src/components/TaskPlanner.jsx:49-51 | other keys are untouched; the key's tasks are the `filter` of the old ones; the invariant is kept |
| `TaskStore.ToggleTask` | src/components/TaskPlanner.jsx:57-61 | other keys are untouched; the key's tasks are the toggle `map` of the old ones; the invariant is kept |
| `TaskStore.ToggleTaskTwice` | src/components/TaskPlanner.jsx:56-62 | toggling twice gives every date the tasks it had before; if the key existed, the store is exactly restored |
| `TaskStore.DeleteTaskAbsent` | src/components/TaskPlanner.jsx:48-51 | deleting an id absent from the date's tasks changes no date's tasks |
| `TaskStore.UpdateTaskAbsent` | src/components/TaskPlanner.jsx:35-42 | committing an edit to an absent id changes no date's tasks |
| `TaskStore.DeleteTaskRemovesOne` | src/components/TaskPlanner.jsx:48-51 | in a consistent store, deleting a present task removes exactly that one entry from its date |
| `Planner.TaskPlanner.constructor` | src/components/TaskPlanner.jsx:6-9 | initial state: no date, empty store, empty draft, no edit; the invariant holds |
| `Planner.TaskPlanner.ChangeDate` | src/components/TaskPlanner.jsx:11-13 | only the selection changes |
| `Planner.TaskPlanner.ChangeText` | src/components/TaskPlanner.jsx:72 | only the draft changes |
| `Planner.TaskPlanner.AddTask` | src/components/TaskPlanner.jsx:15-24 | with a date and a non-blank draft, the draft is added verbatim (not trimmed) as a new task under that date and then cleared, the selection and edit stay; otherwise nothing changes |
| `Planner.TaskPlanner.EditTask` | src/components/TaskPlanner.jsx:26-33 | if `find` locates the id under the selected date, the id becomes the edit and that task's text the draft; otherwise nothing changes; the store never changes |
| `Planner.TaskPlanner.UpdateTask` | src/components/TaskPlanner.jsx:35-46 | with a date, a non-blank draft and an edit in progress, the edited task's text becomes the draft and the draft and edit are cleared, even when the id is absent; otherwise nothing changes |
| `Planner.TaskPlanner.DeleteTask` | src/components/TaskPlanner.jsx:48-54 | the given date's tasks are filtered, and the draft and edit are always cleared; the selection stays |
| `Planner.EditThenCommit` | src/components/TaskPlanner.jsx:26-46 | begin-edit on a task of the selected date, typing, then commit: only that task's text changes, to the typed text, and the draft and edit end cleared |
| `Planner.TaskPlanner.ToggleTask` | src/components/TaskPlanner.jsx:56-62 | the given date's matching task flips `done`; the selection, draft and edit stay |

## Left out

- Rendering (src/components/TaskPlanner.jsx:64-111) is not modelled. The
  one exception is that the Edit button exists only while a date is
  selected, which `EditTask` states as its precondition.
- `react-datepicker` and the stylesheet import are not modelled. The date
  picker appears only as the value given to `ChangeDate`.
- Date formatting (`toISOString().split('T')[0]`, with its UTC
  conversion) is not modelled. The selected date is held as its key.
- The clock read `Date.now()` is not modelled. The id is a parameter of
  `AddTask`; the model does not assume it is fresh. The invariant is kept
  only when it is.
- React's asynchronous setter scheduling and batching are not modelled.
  Each handler is one atomic transition.
- Planner.TaskPlanner.UpdateTask: the source tests `editingTaskId` by
  JavaScript truthiness, so an id of `0` would count as no edit. The model
  uses `Option`, where any id counts. Ids are positive `Date.now()`
  timestamps, so this never arises.
- `Text.IsTrimmable` follows the Unicode space-separator category
  (`Zs`) as ECMAScript defines it today. A JavaScript engine built on an
  older Unicode version may differ.
- Moving a task between dates and the one-second display clock are not
  part of this component and are not modelled.
