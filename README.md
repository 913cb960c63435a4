# TODO list: task store, commands, filters and event emitter

A Dafny model of the task-list logic of a browser TODO app in two variants:

- `script.js`: the tasks are kept as one array under the key `tasks` of local storage. Every operation reads the array, changes it and writes it back. Handlers cover add, complete, delete and Enter-to-edit.
- `classApproach.js`: the tasks live in a small REST backend. Static classes hold the handlers: `TaskList` for complete, delete and edit commits; `ToDoForm` for add; `TaskFilter` for clear-completed, filtering and the filter buttons; `ToDoApp` for rendering and filter state. An `EventEmitter` dispatches UI events to the handlers.

The model keeps the data these pieces compute. The DOM and the I/O are left out.

| file | module | models |
|---|---|---|
| `seqs.dfy` | `Seqs` | order-preserving selection, the meaning of `Array.prototype.filter`; the subsequence relation |
| `tasks.dfy` | `Tasks` | the `{id, title, completed}` record, object-spread patches, `String.prototype.trim`, the blank-title test |
| `task_store.dfy` | `TaskStore` | script.js: the list operations, the `LocalStorage` class and its three store functions, the three event handlers |
| `emitter.dfy` | `Emitter` | the `EventEmitter` class |
| `task_list.dfy` | `TaskList` | `TaskList` commands as functions on the backend's collection: toggle, edit commit, clear completed |
| `task_filter.dfy` | `TaskFilter` | `filterTasks` selection, the filter-button state, `clearFilters` |
| `todo_app.dfy` | `ToDoApp` | the `App` class: backend collection, rendered rows, filter visibility, buttons and input, with every handler as a method |

Imperative code becomes classes with `modifies` clauses:
- `localStorage` becomes `TaskStore.LocalStorage`. Its `items` map is reassigned by each store function.
- The emitter's `events` dictionary becomes `Emitter.EventEmitter.events`.
- The page state becomes `ToDoApp.App`, including the static `ToDoApp.previousActiveFilter`.

Each `forEach` loop in the source is a `for` loop:
- `emit` (the list of calls made);
- `renderTasks` and `filterTasks` (the rows appended);
- `clearCompleted` (the DELETEs issued).

Each loop is proved against a specification function. The `filter`, `map` and `find` expressions are functions, and the lemmas about them state the source's promises:
- `filter` keeps exactly the matching elements, in order. The spec is a subsequence with exact multiset counts, and `Seqs.SelectUnique` shows that this pair determines the result.
- `map` keeps length and order, and changes only the records with the id.
- `find` returns the first match.
- Toggling twice restores the list.
- A blank edit commit is a removal.
- Clear-completed leaves exactly the active tasks.
- Only one filter button is ever marked.

The `Task` constructor (classApproach.js:34-38) is `Tasks.NewTask`, a task with the given id and title that is not completed. Its effect appears in the contracts of `ToDoApp.App.HandleAddTask` and `TaskStore.OnAddClick`.

Code and design differ in four places:
- Enter in a script.js title field writes the value even when it is blank (script.js:131-133). No deletion happens, and the model follows the code.
- In classApproach.js a blank commit deletes the task and then still sends the PUT (classApproach.js:136-144, 155-171). The model keeps that PUT. `TaskList.BlankCommitRemoves` proves the PUT changes nothing, because no task carries the id any more.
- A blank edit commit never calls `turnFilters` (classApproach.js:136-171). Emptying the list this way leaves the filter group and the clear-completed button shown, although they should show only while a task exists. The model follows the code: the edit handlers cannot change `filtersShown`. `ToDoApp.BlankEditOfLastTaskKeepsFilters` builds the one-task page, commits a blank edit, and ends with no task while the filters are still shown.
- In `handleFilterButtons` the toggle-off branch is dead (classApproach.js:251-263; see "## Findings"). Here the model does not follow the code: `ToDoApp.App.HandleFilterButtons` uses the corrected rule.

## Model

| member | source | states |
|---|---|---|
| `Tasks.TrimStart` | script.js:92 | the result is a suffix of the title; every dropped character is white space; the result does not start with white space |
| `Tasks.TrimEnd` | script.js:92 | the result is a prefix of the title; every dropped character is white space; the result does not end with white space |
| `Tasks.BlankIffAllWhitespace` | script.js:92 | `!title \|\| title.trim() === ''` holds exactly when every character of the title is ECMAScript white space or a line terminator |
| `Tasks.TrimIsInfix` | classApproach.js:188 | `trim` yields a contiguous part of the title that neither starts nor ends with white space |
| `Tasks.MergeTitlePatch` | script.js:133 | spreading `{title}` over a task replaces only its title |
| `Tasks.MergeCompletedPatch` | script.js:115 | spreading `{completed}` over a task replaces only its completion flag |
| `Tasks.MergeFullPatch` | classApproach.js:97 | spreading a whole record over a task yields that record |
| `TaskStore.WithoutId` | script.js:70 | a task is in the result iff it was stored and its id differs from the removed one |
| `TaskStore.WithoutIdIsExact` | script.js:67-72 | removal by id keeps every other task exactly as often as before, in original relative order, and none with the id |
| `TaskStore.WithoutAbsentId` | script.js:70 | removing an id no task carries leaves the list unchanged |
| `TaskStore.WithoutUniqueIdLength` | classApproach.js:103 | removing an id held by exactly one task shortens the list by one |
| `TaskStore.UpdatedById` | script.js:74-83 | update keeps length and order; tasks with another id are unchanged; tasks with the id take the patch's fields and keep the rest |
| `TaskStore.UpdateAbsentId` | script.js:76-81 | updating an id that no task carries leaves the list unchanged |
| `TaskStore.FindIndex` | script.js:113 | `find` stops at the first task with the id, or reports that none has it |
| `TaskStore.LocalStorage.AppendToLocalStorage` | script.js:60-65 | the key's list (empty if missing) gets the record at its end; other keys are untouched |
| `TaskStore.LocalStorage.RemoveFromLocalStorage` | script.js:67-72 | the key's list (empty if missing) loses the tasks with the id; other keys are untouched |
| `TaskStore.LocalStorage.UpdateLocalStorage` | script.js:74-83 | the key's list gets the patch spread over the tasks with the id; other keys are untouched |
| `TaskStore.Toggled` | script.js:113-116 | the complete click fails (TypeError on `undefined`) exactly when no stored task has the id |
| `TaskStore.ToggledFlipsOnlyCompleted` | script.js:113-116 | the complete click flips the flag of the tasks with the id; length, order and every other field and task stay |
| `TaskStore.ToggleTwiceRestores` | script.js:113-116 | two complete clicks on the same task restore the stored list |
| `TaskStore.EditTitleChangesOnlyTitle` | script.js:131-133 | an Enter commit changes only the title of the tasks with the id, blank or not |
| `TaskStore.OnAddClick` | script.js:90-102 | a blank title changes nothing; otherwise a task with that title, the given id and `completed = false` is appended |
| `TaskStore.OnListClick` | script.js:104-121 | complete toggles (or throws and changes nothing when the task is missing); delete removes by id; other clicks change nothing |
| `TaskStore.OnKeyUp` | script.js:127-136 | only Enter in a row's title field writes `{title: value}` for that task; any other key changes nothing |
| `Emitter.Without` | classApproach.js:15-17 | the unsubscribed callback no longer appears in the list |
| `Emitter.WithoutIsExact` | classApproach.js:14-18 | unsubscribe removes every equal entry and keeps the others, as often as before and in subscription order |
| `Emitter.WithoutAbsent` | classApproach.js:14-18 | unsubscribing a callback that is not in the list leaves it unchanged |
| `Emitter.EventEmitter.constructor` | classApproach.js:5-7 | a new emitter has no event names |
| `Emitter.EventEmitter.Subscribe` | classApproach.js:9-12 | the name's list (created empty if unseen) gets the callback at its end; other names are unchanged |
| `Emitter.EventEmitter.Unsubscribe` | classApproach.js:14-18 | a subscribed name's list loses every equal callback; an unseen name throws, and nothing changes |
| `Emitter.EventEmitter.Emit` | classApproach.js:20-24 | every listener of the name is called with the arguments, once per subscription and in order; an unknown name calls nothing |
| `TaskList.ToggleChangesOnlyCompleted` | classApproach.js:95-97 | PUT `{...task, completed: !task.completed}` flips only that task's flag; the rest of the collection is unchanged |
| `TaskList.ToggleTwiceRestores` | classApproach.js:95-97 | toggling a task twice restores the collection |
| `TaskList.BlankCommitRemoves` | classApproach.js:136-144 | a blank commit leaves exactly the collection without the task, even with the PUT that follows the DELETE |
| `TaskList.CommitChangesOnlyTitle` | classApproach.js:141-144 | a non-blank commit replaces only the task's title, keeping its id and flag; other tasks are unchanged |
| `TaskList.RemoveEachIsExact` | classApproach.js:214-216 | DELETEs for a list of tasks keep exactly the tasks whose id none of them carries, in order |
| `TaskList.ClearCompletedLeavesNoCompleted` | classApproach.js:211-217 | after clear-completed no completed task remains, and the rest is an order-preserving sublist |
| `TaskList.ClearCompletedKeepsActive` | classApproach.js:211-217 | when no id mixes completed and active tasks, clear-completed leaves exactly the active tasks, in order |
| `TaskList.DeleteVisibility` | classApproach.js:100-104 | `turnFilters(tasks.length - 1 > 0)` shows the filters iff a task remains, for a task with a unique id |
| `TaskFilter.FilteredIsExact` | classApproach.js:219-244 | Active renders exactly the unfinished tasks, Completed the finished ones, any other option all of them, each in store order and as often as stored; an empty store renders nothing |
| `TaskFilter.ActiveAndCompletedPartition` | classApproach.js:225-239 | the Active and the Completed views together are the whole collection |
| `TaskFilter.FilteredSnoc` | classApproach.js:227-241 | one more task at the end adds one row at the end iff the option shows it |
| `TaskFilter.AtMostOneMarked` | classApproach.js:251-263 | at most one filter button carries `active` |
| `TaskFilter.AsWrittenNeverTogglesOff` | classApproach.js:251-263 | as written, every click marks the clicked button and renders its own option, even when it was already active |
| `TaskFilter.AsWrittenSecondClickKeepsFilter` | classApproach.js:251-263 | as written, clicking 'active' twice on a fresh page leaves 'active' marked and the Active view shown |
| `TaskFilter.ClickButtonRule` | classApproach.js:245-264 | clicking the marked button shows all tasks and unmarks it; clicking another marks only it and shows its option; the one-marked-button rule is kept |
| `TaskFilter.ClearFiltersMarksAll` | classApproach.js:316-322 | once a button has been remembered, `clearFilters` makes 'all' the only marked and remembered button; it is idempotent and keeps the rule |
| `ToDoApp.CommittedRows` | classApproach.js:137-152 | a blank commit removes the row; any other value becomes the row's title, and other rows stay |
| `ToDoApp.BlankEditOfLastTaskKeepsFilters` | classApproach.js:136-144 | a blank Enter commit on the only task leaves no task and no row, while the filters stay shown |
| `ToDoApp.App.constructor` | classApproach.js:276-295 | the page starts with no marked button and an empty input; all stored tasks are rendered, and the filters show iff there are any |
| `ToDoApp.App.TurnFilters` | classApproach.js:307-315 | sets whether the filters and the clear-completed button are shown |
| `ToDoApp.App.ClearFilters` | classApproach.js:316-322 | the buttons become `clearFilters` of the old buttons, keeping the one-marked-button rule |
| `ToDoApp.App.RenderTasks` | classApproach.js:323-332 | the rows are the stored tasks in order; the filters show iff the store is non-empty, and then `clearFilters` runs, so 'all' becomes the marked button once some filter button has been remembered |
| `ToDoApp.App.FilterTasks` | classApproach.js:219-244 | the rows are exactly the filtered selection of the stored tasks |
| `ToDoApp.App.HandleFilterButtons` | classApproach.js:245-264 | a click on a filter button applies the corrected one-active-button rule and renders the matching rows; other clicks change nothing |
| `ToDoApp.App.HandleAddTask` | classApproach.js:185-201 | a blank input changes nothing; otherwise the new incomplete task is appended, all rows are rendered, the filters are shown, the input is cleared, and `clearFilters` runs, so 'all' becomes the marked button once some filter button has been remembered |
| `ToDoApp.App.HandleCompleteDelete` | classApproach.js:84-105 | complete toggles the task in the store and on its row; delete removes the task and its row and sets the filters from the pre-delete length; clicks outside a row change nothing |
| `ToDoApp.App.Commit` | classApproach.js:137-144 | the store becomes the edit commit of the row's task, and the rows become the committed rows |
| `ToDoApp.App.HandleSaveEdittedTask` | classApproach.js:129-154 | only Enter in a title field commits; every other key changes nothing |
| `ToDoApp.App.SaveOnBlur` | classApproach.js:155-171 | losing focus commits the edit field's value to the row's task |
| `ToDoApp.App.ClearCompleted` | classApproach.js:211-218 | the store becomes the collection after one DELETE per completed task; then all rows are rendered, the filters show iff a task remains, and then `clearFilters` runs on the buttons |

## Findings

| source | as written | input that shows it | evidently intended | confidence | as-written member | corrected member |
|---|---|---|---|---|---|---|
| classApproach.js:251-263 | `handleFilterButtons` removes `active` from `previousActiveFilter` before it reads `isInitiallyActive`. `active` only ever sits on that button, so `isInitiallyActive` is always false and the toggle-off branch is dead | on a fresh page, click 'active' twice | the second click renders all tasks and leaves no button marked | high; not executed | `TaskFilter.AsWrittenSecondClickKeepsFilter` | `TaskFilter.ClickButtonRule` |

`ToDoApp.App.HandleFilterButtons` uses the corrected rule `TaskFilter.ClickButton`. The rule as written is `TaskFilter.ClickAsWritten`, and `TaskFilter.AsWrittenNeverTogglesOff` proves that in every reachable state it never turns a filter off.

## Left out

- The DOM is not modelled: markup, element creation, `replaceWith`, and classes other than `active` (classApproach.js:276-349, script.js:15-58). The rendered list is modelled as a sequence of the tasks its rows display.
- script.js rendering is not modelled: `renderTasks`, `renderNewTask`, the row's class toggle and row removal. Its handlers are modelled only through their effect on storage.
- `handleEditTask` (classApproach.js:106-128) is not modelled. It only swaps a label for an input and registers the blur listener. The edit session is therefore not state here: `SaveOnBlur` and `HandleSaveEdittedTask` are given the row whose field is committed.
- HTTP (`fetch`) and its swallowed errors are not modelled (classApproach.js:42-82, 175-184). The backend is an abstract `seq<Task>`:
  - POST appends;
  - DELETE removes by id;
  - PUT spreads the body over the tasks with the id, so a PUT to an id that no task carries changes nothing;
  - GET by id finds the first task with it.
- `localStorage` strings and JSON are not modelled. A stored item is a `seq<Task>`, and a missing key stands for `null`. An item holding the empty string would also read as empty; it is not modelled. Malformed JSON is not modelled either: the source would throw there.
- Id generation from `Date.now()` and `getTime()` is not modelled. Ids are parameters, and their uniqueness is not claimed. The classApproach.js string ids and their `+` conversion to numbers are modelled as one `int`.
- Async interleaving is not modelled, including the un-awaited POST, PUT and DELETE calls (classApproach.js:97, 101, 193, 216). Every request completes in program order.
- Event wiring and logging are not modelled (classApproach.js:352-381, script.js:123-125, script.js:129).
- script.js:108 reads `taskElement` before checking it for null. This is not modelled: the click handler is given the row's id.
- `Emitter.EventEmitter` leaves out three JavaScript details: event names that `{}` inherits from `Object.prototype` (such as `constructor`), listeners that subscribe or unsubscribe while `emit` runs, and `...args` as a list. The arguments are one value of type `A`.
- `ToDoApp.App.HandleFilterButtons`: uses the corrected rule `TaskFilter.ClickButton`, not the code as written. A second click on the marked button therefore shows all tasks and unmarks it, while the code keeps the button marked and its filter applied. The behaviour as written is `TaskFilter.ClickAsWritten`, characterised by `TaskFilter.AsWrittenNeverTogglesOff`.
- `ToDoApp.App.HandleCompleteDelete`: a complete click on a task the backend no longer has is modelled as the TypeError path, where nothing changes. The source could instead receive an empty JSON object, PUT `{completed: true}` to a missing id, and still toggle the row's `completed` class (classApproach.js:98-99). On that path the model leaves the rows unchanged too.
- `TaskList.ToggleChangesOnlyCompleted`, `TaskList.ToggleTwiceRestores`, `TaskList.CommitChangesOnlyTitle` and `TaskList.DeleteVisibility` assume the id is held by exactly one task. With colliding ids, the PUT of one full record overwrites all tasks with that id.
- `TaskStore.ToggledFlipsOnlyCompleted` and `TaskStore.ToggleTwiceRestores` assume that all tasks with the id agree on `completed`. Otherwise every such task gets the negation of the first one's flag.
- `TaskList.ClearCompletedKeepsActive` assumes no id is shared by a completed and an active task. Otherwise the DELETE for the completed one also removes the active one. `TaskList.ClearCompletedLeavesNoCompleted` needs no assumption.
