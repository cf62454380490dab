# To-do list core, modelled in Dafny

The page's logic lives in `script.js`. It keeps a module-level array `todos`
of tasks and a string `currentFilter`. Each task is a record
`{ id, text, completed, due, createdAt }`.

The handlers change this state in different ways:

- The submit handler changes `todos` in place with `unshift`. A blank submission returns before anything is saved or rendered.
- Toggle, delete, clear-completed and a saved edit each replace `todos` with a transformed copy, save it and re-render.
- An edit that is discarded only re-renders.
- The filter buttons set `currentFilter` and re-render. They neither touch `todos` nor save.

This project models that state and those transformations:

- the submit handler: trim the text, ignore it if blank, otherwise put a new task at the front;
- `toggleTodo` and `deleteTodo`;
- the clear-completed handler;
- the edit commit `finish(save)`;
- `getVisibleTodos`: select by the filter, then the dated tasks by ascending due day, then the undated ones newest first;
- the "N item(s) left" counter that `render` writes.

Layout:

- `seqs.dfy` (`Seqs`): `Filter`, standing for `Array.prototype.filter`, and its lemmas.
- `text.dfy` (`Text`): JavaScript's `String.prototype.trim` over the ECMAScript white-space and line-terminator set, and the decimal rendering of a count.
- `todos.dfy` (`TodoList`): the `Todo` record and each list transformation as a function from the old list to the new one, with its properties.
- `sorting.dfy` (`Sorting`): a stable insertion sort by an integer key. `InsertionSorted` is the function; `InsertionSort` sorts an array in place and is proved equal to it.
- `view.dfy` (`View`): the visible list, its ordering guarantees, and the counter text.
- `store.dfy` (`Store`): the class `TodoStore`. Its fields `todos` and `currentFilter` are updated by one method per handler. `Add`, `Toggle`, `Delete`, `ClearCompleted` and `CommitEdit` are each proved to produce the matching function of `todos.dfy` and to keep the list well formed. `SetFilter` sets the filter. `VisibleTodos` and `Render` are queries, proved equal to the functions of `view.dfy`.

"Well formed" means two things:

- ids are unique;
- every text is non-empty and already trimmed.

The handlers keep this, provided that the id generator gives an id not yet in the list.

## Model

| member | source | states |
|---|---|---|
| Store.TodoStore.constructor | script.js:11-12 | the list starts as the stored list, or empty when nothing usable is stored; the filter starts as "all" |
| Store.TodoStore.Add | script.js:16-33 | the new list is `TodoList.Added(old(todos), text, due, id, now)`: the input trimmed by `Text.Trim`, ignored when blank, otherwise a new task in front; with a fresh id, a well-formed list stays well formed |
| Store.TodoStore.Toggle | script.js:66-70 | the new list is `TodoList.Toggled(old(todos), id)`, the old one toggled at `id`; well-formedness is kept |
| Store.TodoStore.Delete | script.js:72-76 | the new list is `TodoList.Deleted(old(todos), id)`, the old one without the tasks of `id`; well-formedness is kept |
| Store.TodoStore.ClearCompleted | script.js:51-55 | the new list is `TodoList.Cleared(old(todos))`, the active tasks of the old one, so `TodoList.ActiveCount` of it is its length; well-formedness is kept |
| Store.TodoStore.CommitEdit | script.js:168-175 | the new list is `TodoList.Edited(old(todos), id, value, save)`, the edit applied to the old one (discarded unless saved with a value that `Text.Trim` leaves non-empty); well-formedness is kept |
| Store.TodoStore.SetFilter | script.js:57-64 | the current filter becomes the button's mode |
| Store.TodoStore.VisibleTodos | script.js:78-92 | sorting the two groups in arrays in place yields exactly `View.Visible(todos, currentFilter)`, the `Sorting.InsertionSorted` dated group then undated group of `View.Select`, a permutation of that selection |
| Store.TodoStore.Render | script.js:94-141 | the visible list (line 95) is `Visible`; the counter (lines 140-141) is `View.ItemsLeftLabel(TodoList.ActiveCount(todos))`, the label of the active count of the whole list, and its number equals the size of the "active" view |
| Sorting.InsertionSort | script.js:88-89 | sorting an array in place gives `InsertionSorted` of its old contents |
| Sorting.InsertInPlace | script.js:88-89 | one pass of the inner loop places `a[i]` within the sorted prefix and leaves the rest of the array alone |
| Sorting.SortedIsSorted | script.js:88-89 | the sort's result is in non-decreasing key order |
| Sorting.SortedIsPermutation | script.js:88-89 | the sort's result is a permutation of its input |
| Sorting.SortedIsStable | script.js:88-89 | among elements of any one key, the sort keeps the input order, as `Array.prototype.sort` does |
| Text.TrimIsSlice | script.js:18 | `trim` yields a slice of the text with only white space cut from both ends and no white space left at either end |
| Text.TrimEmptyIff | script.js:18-19 | a text trims to empty exactly when it is all white space |
| Text.TrimIdempotent | script.js:169 | trimming a trimmed text changes nothing |
| Text.NatToString | script.js:141 | the rendered count is a non-empty string of digits with no leading zero |
| Text.ParseNatToString | script.js:141 | reading back the rendered count gives the count |
| TodoList.AddBlankIsNoOp | script.js:18-19 | a blank or all-white-space submission leaves the list unchanged |
| TodoList.AddPrepends | script.js:18-27 | a non-blank submission puts one task in front with the trimmed text, not completed, the given due day, id and time, and keeps the old list behind it |
| TodoList.AddKeepsWellFormed | script.js:21-27 | with a fresh id, adding keeps ids unique and texts trimmed and non-empty |
| TodoList.AddedAllLength | script.js:16-33 | after a series of submissions, the list has grown by the number of non-blank ones |
| TodoList.ToggleOnlyFlips | script.js:67 | toggling flips `completed` exactly on the tasks with that id and changes no other field |
| TodoList.ToggleTwice | script.js:67 | toggling the same id twice restores the list |
| TodoList.ToggleAbsent | script.js:67 | toggling an id not in the list changes nothing |
| TodoList.ToggleKeepsWellFormed | script.js:67 | toggling keeps ids and texts |
| TodoList.DeleteRemovesExactly | script.js:73 | the result has exactly the tasks of other ids, each as often as before, and none of that id |
| TodoList.DeleteOne | script.js:73 | with unique ids, deleting a task's id removes that one position and keeps the order of the others |
| TodoList.DeleteTwice | script.js:73 | deleting is idempotent |
| TodoList.DeleteAbsent | script.js:73 | deleting an unknown id changes nothing |
| TodoList.DeleteKeepsWellFormed | script.js:73 | deleting keeps the list well formed |
| TodoList.SubsequenceWellFormed | script.js:52 | any order-preserving selection of a well-formed list is well formed |
| TodoList.ClearKeepsExactlyActive | script.js:52 | clearing keeps exactly the active tasks, each as often as before |
| TodoList.ClearIdempotent | script.js:52 | clearing twice is clearing once |
| TodoList.ClearThenAllActive | script.js:52 | after clearing, the active count is the list's length |
| TodoList.ActiveCountComplement | script.js:140 | the active count is the length minus the number of completed tasks |
| TodoList.ClearKeepsWellFormed | script.js:52 | clearing keeps the list well formed |
| TodoList.EditDiscarded | script.js:169-170 | an unsaved edit or an all-white-space value leaves the list unchanged |
| TodoList.EditOnlyRenames | script.js:169-171 | a saved non-blank edit sets the trimmed value as text on the tasks with that id and changes nothing else |
| TodoList.EditKeepsWellFormed | script.js:168-173 | committing an edit keeps the list well formed |
| View.SelectContents | script.js:79-82 | the selection holds every task the mode does not hide ("active": the completed ones, "completed": the active ones, any other mode: none), each as often as in the list and in list order |
| View.VisiblePermutesSelection | script.js:78-91 | the visible list is a permutation of the mode's selection |
| View.VisibleContents | script.js:78-91 | a task is shown as often as it is in the list unless the mode hides it |
| View.VisibleGroups | script.js:85-91 | the visible list is the dated group followed by the undated group |
| View.DatedBeforeUndated | script.js:91 | every dated task comes before every undated one |
| View.DatedAscending | script.js:88 | dated tasks are in non-decreasing due-day order |
| View.UndatedNewestFirst | script.js:89 | undated tasks are in non-increasing creation-time order |
| View.DatedTiesStable | script.js:88 | tasks due the same day keep their list order |
| View.UndatedTiesStable | script.js:89 | undated tasks created at the same time keep their list order |
| View.ActiveCountFromWholeList | script.js:140 | the counter's count is the size of the "active" view whatever filter is shown; any view has its selection's size; "all" splits into active plus completed |
| View.ItemsLeftLabelShowsCount | script.js:141 | the counter text starts with the decimal count |
| View.ItemsLeftLabelPlural | script.js:141 | the counter text ends in "items left" exactly when the count is not 1 |
| View.ExampleOrdering | script.js:84-91 | tasks due on days 10 and 5 and undated tasks created at 100 and 200 show as: due 5, due 10, created 200, created 100 |

## Left out

- The DOM: building the `li` elements, the due-date label, the checkbox and button markup, and the filter buttons' `active` class. Only the list `render` shows and the counter text are modelled.
- Event wiring: the click handler finding the `li` and its `data-id`, and ignoring clicks without one. Its effect is one call of `Toggle` or `Delete`.
- `startEdit`: finding the task, `li` and span, and swapping in the input box. Only its `finish(save)` commit is modelled. Enter calls it with `true` and Escape with `false`. Blur calls it with `true`, including the blur after an Escape. These are calls of `CommitEdit` and are not modelled as events.
- `saveTodos` and `loadTodos`: `localStorage` and JSON. The constructor takes the loaded list as `Option`. `None` stands for a missing, empty or unparseable value, which `loadTodos` turns into the empty list. A stored value that parses to something other than an array, such as `null`, `{}` or `5`, is returned unchanged and makes the first render throw. Such values are not modelled.
- Store.TodoStore.Add: the source's in-place `todos.unshift(...)` is modelled as the reassignment `todos := [new task] + todos`. The two are equivalent here, because no other reference to the array exists.
- `crypto.randomUUID()` and `Date.now()` are parameters (`id`, `now`). A fresh id is an assumption of the well-formedness results, not something proved.
- Due dates are day numbers (`Option<int>`), not `YYYY-MM-DD` strings. `dueInput.value || null` is `None` for an empty input. `new Date(a.due) - new Date(b.due)` is the key difference of the day numbers. Invalid date strings, whose difference is `NaN`, are not modelled. Neither is a stored `due` of `""`, which `getVisibleTodos` would treat as undated.
- The sorts: `Array.prototype.sort` itself is an engine routine whose algorithm is unspecified. Only its result, a stable sort by the comparator, is modelled, by an insertion sort. `Recency` sorts by `-createdAt`, which orders exactly like the comparator `b.createdAt - a.createdAt`.
- `createdAt` values are unbounded integers, not floating-point milliseconds.
- Strings are sequences of Unicode scalar values, not UTF-16 code units. A text holding a lone surrogate cannot be represented. `Trim` is unaffected: every character it removes lies in the Basic Multilingual Plane, and no surrogate counts as white space.
- Stored records of any other shape are not modelled: missing fields, or a non-boolean `completed`.
