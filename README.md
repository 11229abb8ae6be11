# To-do list state machine

The to-do page (`src/App.jsx`) keeps an ordered list of tasks `{id, text, completed}`. The user can add, toggle, delete, edit and clear tasks. The list is saved in the browser's local storage under the key `todo_tasks`. This project models the page's state and its event handlers in Dafny and proves what each one does to the list, the counters and the storage slot.

- `text.dfy`, module `Text`: JavaScript's `String.prototype.trim`, removing the ECMAScript WhiteSpace and LineTerminator code points.
- `tasks.dfy`, module `Tasks`: the `Task` record and the pure list operations the handlers pass to `setTasks`. These are append, toggle (a `map`), delete (a `filter`), edit (a `map`) and the completed filter behind the counter. The lemmas prove order preservation, involution, idempotence, no-op on an absent id, the counter arithmetic, unique ids and committed texts.
- `storage.dfy`, module `Storage`: the storage slot and `JSON.parse`/`JSON.stringify` over abstract values. It also holds the mount effect's decision about what to load.
- `app.dfy`, module `TodoApp`: the two components as classes. `App` has the fields `tasks`, `inputValue`, `isLoading` and `slot`. `TaskItem` has the fields `isEditing` and `editValue`. Each handler is a method that updates these fields. Its `ensures` gives the new state in terms of the `Tasks` and `Storage` functions.

`App.Valid()` is the load gate. Once `isLoading` is false, the slot holds the serialisation of the current list. While loading goes on, the persist effect leaves the slot alone.

Each handler is one atomic transition. A handler that calls `setTasks` ends by running the persist effect from lines 57-61. React fires that effect after every such change, because every new list is a fresh array.

Some behaviours of the code are easy to misread. The model follows the code:

- **Load does not check element shape.** Loading keeps any stored JSON array. It does not check that the elements look like tasks (line 35). So loaded texts may be blank or untrimmed. "Every text is committed" (`Tasks.AllCommitted`) is therefore proved as an invariant that add, toggle, delete and the row editor *preserve*. It is not an invariant of every state.
- **Clear-all ends with `[]`, not an empty slot.** `clearAllTasks` removes the key (line 104). The persist effect then fires, because `setTasks([])` set a new array. Unless loading is still going on, it writes `[]` under the key again. So a confirmed clear ends with the slot holding an empty list rather than no entry. Either way a later load gives the empty list.
- **Ids are not guaranteed unique.** Ids come from `Date.now()` and are not checked. Uniqueness is proved preserved only under an explicit freshness assumption (`Tasks.AppendUnique`, `App.AddTask`).
- **A same-text edit still persists.** `editTask` runs whenever the row editor commits a text that is not blank, even one equal to the current text. The list is then persisted again with the same content.
- **A blank Enter does not revert.** Enter on a blank draft does nothing: the row stays in edit mode and keeps the draft. Only blur resets a blank draft to the task's text.

## Model

| member | source | states |
|---|---|---|
| Text.TrimStart | src/App.jsx:64 | the result is the suffix of the input from its first non-whitespace character on; everything dropped is whitespace |
| Text.TrimEnd | src/App.jsx:64 | the result is the prefix of the input up to its last non-whitespace character; everything dropped is whitespace |
| Text.Trim | src/App.jsx:64-67 | `trim()` leaves no whitespace at either end, and its result is empty (falsy) exactly when the input is blank |
| Text.TrimSlice | src/App.jsx:64-67 | the trimmed text is the slice of the input that starts right after its leading whitespace |
| Text.TrimDropsWhitespace | src/App.jsx:64-67 | everything trimming drops, before and after that slice, is whitespace, so only the outer whitespace goes |
| Text.TrimOfTrimmed | src/App.jsx:172-173 | trimming a string without outer whitespace returns it unchanged |
| Text.TrimIdempotent | src/App.jsx:172-173 | trimming twice equals trimming once |
| Tasks.Toggle | src/App.jsx:81-87 | same length and order; every id and text kept; `completed` flipped exactly on the tasks whose id matches |
| Tasks.Delete | src/App.jsx:89-91 | no task with the id remains, and the length drops by exactly the number of tasks that carried it |
| Tasks.DeleteMembers | src/App.jsx:90 | a task remains exactly when it was in the list under another id |
| Tasks.Edit | src/App.jsx:93-99 | same length and order; every id and flag kept; `text` replaced exactly on the tasks whose id matches |
| Tasks.Completed | src/App.jsx:109 | holds exactly the completed tasks, and is never longer than the list |
| Tasks.ToggleTwice | src/App.jsx:81-87 | toggling the same id twice restores the original list |
| Tasks.ToggleAbsent | src/App.jsx:81-87 | toggling an id no task carries leaves the list unchanged |
| Tasks.ToggleCompleted | src/App.jsx:81-87 | the completed count after a toggle loses the matching completed tasks and gains the matching open ones |
| Tasks.ToggleOneCompleted | src/App.jsx:81-87 | with unique ids, toggling one task changes the completed count by exactly one, in the direction of its new flag |
| Tasks.DeleteConcat | src/App.jsx:90 | delete distributes over concatenation, so the remaining tasks keep their relative order |
| Tasks.DeleteAbsent | src/App.jsx:89-91 | deleting an id no task carries leaves the list unchanged |
| Tasks.DeleteIdempotent | src/App.jsx:89-91 | deleting the same id twice equals deleting it once |
| Tasks.DeleteCompleted | src/App.jsx:89-91 | the completed count after a delete drops by exactly the matching completed tasks |
| Tasks.DeleteCommitted | src/App.jsx:89-91 | deleting keeps every text non-empty and trimmed |
| Tasks.DeleteUnique | src/App.jsx:89-91 | deleting keeps ids pairwise distinct |
| Tasks.EditAbsent | src/App.jsx:93-99 | editing an id no task carries leaves the list unchanged |
| Tasks.EditLastWins | src/App.jsx:93-99 | a second edit of the same id overrides the first; editing twice with one text equals editing once |
| Tasks.EditCompleted | src/App.jsx:93-99 | editing never changes the completed count |
| Tasks.EditCommitted | src/App.jsx:171-185 | committing a non-empty trimmed text keeps every text non-empty and trimmed |
| Tasks.CompletedAppend | src/App.jsx:70 | appending a task extends the completed tasks by that task exactly when it is completed |
| Tasks.AppendUnique | src/App.jsx:65-70 | appending a task under an id no task carries keeps ids pairwise distinct |
| Storage.Parse | src/App.jsx:34 | `JSON.parse` throws exactly on text that is not JSON, and a serialised task array parses back to the same array |
| Storage.LoadedTasks | src/App.jsx:29-45 | a stored array is loaded as the list (and re-serialises to exactly what was stored); an absent key, an empty string, a parse failure or a non-array value give the empty list |
| Storage.LoadAfterSave | src/App.jsx:59 | loading what was saved gives back the same tasks in the same order |
| TodoApp.App.constructor | src/App.jsx:5-8 | the first state: empty list, empty input, loading, the slot as the earlier session left it |
| TodoApp.App.ReloadRestores | src/App.jsx:29-61 | the load gate: once loading is over, loading the slot again gives back exactly the list on screen |
| TodoApp.App.TotalTasks | src/App.jsx:108 | the total counter is zero exactly when the list is empty |
| TodoApp.App.CompletedTasks | src/App.jsx:108-109 | the completed counter never exceeds the total counter |
| TodoApp.App.Persist | src/App.jsx:57-61 | writes the serialised list only when loading is over, and leaves the slot alone while loading |
| TodoApp.App.Load | src/App.jsx:29-50 | the list becomes what the slot yields, then loading ends; a stored array is left in the slot exactly as it was, and anything else is replaced by an empty list |
| TodoApp.App.InputChange | src/App.jsx:118 | the input line takes the typed value |
| TodoApp.App.AddTask | src/App.jsx:63-73 | blank input: nothing changes. Otherwise one open task with the trimmed text is appended after the unchanged earlier tasks, the input is cleared, the total rises by one, the completed count stays, and the list is persisted |
| TodoApp.App.KeyPress | src/App.jsx:75-79 | Enter runs addTask: non-blank input appends the trimmed open task, clears the input and persists the list once loading is over; any other key, and a blank input, change nothing |
| TodoApp.App.ToggleTask | src/App.jsx:81-87 | the list becomes its toggle, the total stays, committed texts and unique ids are kept, and the list is persisted |
| TodoApp.App.DeleteTask | src/App.jsx:89-91 | the list becomes its filter, the completed count does not rise, unique ids are kept, and the list is persisted |
| TodoApp.App.EditTask | src/App.jsx:93-99 | the list becomes its edit, both counters stay, and the list is persisted |
| TodoApp.App.ClearAllTasks | src/App.jsx:101-106 | refused: nothing changes. Confirmed: the list is empty, the slot holds `[]` (or nothing, while loading), and a later load gives the empty list |
| TodoApp.TaskItem.constructor | src/App.jsx:153-154 | a row starts out of edit mode, with the task's text as its draft |
| TodoApp.TaskItem.DoubleClick | src/App.jsx:163-165 | a double click enters edit mode |
| TodoApp.TaskItem.EditChange | src/App.jsx:167-169 | the draft takes the typed value |
| TodoApp.TaskItem.EditKeyPress | src/App.jsx:171-176 | Enter with a non-blank draft commits the trimmed draft, persists the list once loading is over (the slot is untouched while loading) and leaves edit mode; otherwise nothing changes and edit mode stays; committed texts stay committed |
| TodoApp.TaskItem.EditBlur | src/App.jsx:178-185 | a non-blank draft is committed trimmed and the list persisted once loading is over (the slot is untouched while loading); a blank one is reset to the task's current text and nothing else changes; edit mode always ends; committed texts stay committed |
| TodoApp.AddAddToggle | src/App.jsx:63-109 | on an empty slot, adding "A" and "B" and toggling "A" gives total 2 and completed 1 |

## Left out

- Rendering is left out: the JSX markup, CSS classes and the empty-list markup (lines 111-149 and 187-221). The counters are modelled as functions of the state.
- The placeholder text that `updatePlaceholder` picks by window width (lines 13-27) is left out. It is cosmetic and nothing reads it.
- The resize listener's registration and removal (lines 48 and 52-54) are left out, and so is focusing inputs through refs (lines 49 and 157-161). These are DOM side effects.
- `Date.now()` is not modelled. The id of a new task is the parameter `now` of `App.AddTask`.
- `window.confirm` is not modelled. Its answer is the parameter `confirmed` of `App.ClearAllTasks`.
- A key event is reduced to whether the key was Enter.
- JSON text is not modelled character by character. A stored string is either the serialisation of a JSON value or text that `JSON.parse` rejects. `Storage.Raw.NotJson` stands only for text that is not JSON; the model does not enforce this, so a `NotJson` holding, say, the text of an array would wrongly load as `[]`. A JSON array is taken to hold tasks, because the source does not check element shape.
- JavaScript strings are sequences of UTF-16 code units, while a Dafny `string` is a sequence of Unicode scalar values. Lone surrogates cannot be represented, and lengths differ for characters outside the Basic Multilingual Plane. `trim` is unaffected, because every whitespace character it removes lies inside that plane.
- `localStorage` is the field `App.slot`. Only the one key `todo_tasks` is modelled.
- React's batching of state updates and its effect scheduling are not modelled. Each handler is one atomic transition. The persist effect runs at the end of every handler that calls `setTasks`.
- Events that fire while loading is still going on are admitted by the model. The browser only delivers user events after the mount effect has run.
- The events a browser may fire when it removes the edit field (a blur after Enter closes edit mode) are left out. Each handler runs only for the event it is named after.
