# Task list manager: a verified model of the in-memory task list

The application is a single-page task-list manager. It loads seed records
once, then lets the user add, edit, filter, search and delete tasks. All of
this happens in browser memory. Two components each keep their own copy of
the list:

- the table component (`ui/src/components/TaskTable.js`) formats the seed
  records and validates the add form. It renumbers the remaining tasks
  1..N after a delete, searches by title or description, and counts tasks
  per status;
- the application root (`ui/src/App.js`) keeps the first twenty seed
  records. It appends, updates and deletes tasks without renumbering, and
  filters by status.

This model states every one of those list operations as a function over
`seq<Task>`. The table component's state and event handlers become the
class `TaskTable.TaskTableState`. Each handler replaces whole fields, as
the component's state setters do. The model's one central invariant is
`Tasks.ContiguousIds`: the ids are exactly 1..N in list order. It is the
only reason that the id `length + 1` given by add is fresh. Add and the
table's renumbering delete preserve it. The root's delete does not (see
Findings).

Modules and files:

- `sequences.dfy`, module `Sequences`: an order-preserving `Filter` and its
  properties. These are subsequence, multiplicity, membership, the
  all/none cases, idempotence, concatenation, and length as the number of
  matching indices.
- `text.dfy`, module `Text`: `trim` with JavaScript's fixed whitespace set,
  `toLowerCase` on ASCII letters, and `includes`. It also has the decimal
  numeral of an integer, with a round trip; it matches a template string's
  rendering of an id for magnitudes below 2^53.
- `tasks.dfy`, module `Tasks`: the data model (`Status`, `Task`,
  `RawTask`, `Draft`, `StatusFilter`, `Result`), seed formatting, the id
  invariant, append-with-next-id and the status filter.
- `task_table.dfy`, module `TaskTable`: the table component.
- `app.dfy`, module `App`: the application root.

The table component stores its search results in its status-filter state
(`ui/src/components/TaskTable.js:74,81`), so one field holds either a
status label or a list of tasks. The model does not copy that. Search is
its own function, and the state class has a separate `searchResults`
field.

Notes on what the code does:

- `App.UpdateTask` replaces each matching task by the edited task as a
  whole, as `ui/src/App.js:28` does. It does not merge fields.
- Both deletes remove every task with the given id, not just one. Under
  the id invariant exactly one task has a present id, and
  `TaskTable.DeleteAndRenumberContiguity` proves that exactly one task
  is then removed.
- Only the table component renumbers after a delete.

## Model

| member | source | states |
|---|---|---|
| Tasks.FormatTask | ui/src/components/TaskTable.js:18-23 | one record as a task: same id and title, description "Description for task " followed by the id, status Done exactly when `completed` is true and To Do exactly when it is false |
| Tasks.FormatSeed | ui/src/components/TaskTable.js:18-23 | one task per raw record, in order. Each keeps its id and title and has description "Description for task " followed by the id; its status is Done exactly when `completed` is true and To Do exactly when it is false |
| Tasks.SeedDescriptionNamesId | ui/src/components/TaskTable.js:21 | a seed description starts with the fixed prefix, and reading the rest as a signed decimal gives back the record's id |
| Tasks.SeedDescriptionsDistinct | ui/src/components/TaskTable.js:21 | records with different ids get different descriptions |
| Tasks.StatusLabel | ui/src/components/TaskTable.js:44 | every status is shown as one of the three labels the status editor offers |
| Tasks.ParseFilter | ui/src/components/TaskTable.js:180-183 | a filter value is accepted exactly when it is one of "All", "To Do", "In Progress", "Done" |
| Tasks.FilterLabelRoundTrip | ui/src/components/TaskTable.js:180-183 | reading a filter's label gives back that filter, so comparing labels is comparing statuses |
| Text.TrimStart | ui/src/components/TaskTable.js:86 | the result is a suffix of the input, what it drops is all whitespace, and it does not start with whitespace |
| Text.TrimEnd | ui/src/components/TaskTable.js:86 | the result is a prefix of the input, what it drops is all whitespace, and it does not end with whitespace |
| Text.Trim | ui/src/components/TaskTable.js:86 | the result is a slice of the input that neither starts nor ends with whitespace; Text.TrimDropsOnlyWhitespace states that only whitespace is dropped, and Text.TrimEmptyIffAllWhitespace states when it is empty |
| Text.TrimDropsOnlyWhitespace | ui/src/components/TaskTable.js:86 | the trimmed string sits in the input between an all-whitespace prefix and an all-whitespace suffix, so only whitespace is dropped at each end; with Text.Trim's contract this fixes the result |
| Text.TrimEmptyIffAllWhitespace | ui/src/components/TaskTable.js:86 | a string trims to the empty string exactly when every character is whitespace |
| Text.ToLower | ui/src/components/TaskTable.js:70 | same length, each character lower-cased |
| Text.ToLowerIdempotent | ui/src/components/TaskTable.js:70 | lower-casing twice equals lower-casing once, and the result has no upper-case ASCII letter |
| Text.Contains | ui/src/components/TaskTable.js:78-79 | a prefix is contained, and a contained term is no longer than the string; Text.ContainsIffOccurs gives the full characterization |
| Text.ContainsIffOccurs | ui/src/components/TaskTable.js:78-79 | `includes` holds exactly when the term occurs at some offset of the string |
| Text.ContainsEmpty | ui/src/components/TaskTable.js:73-74 | every string contains the empty term |
| Text.NatToDecimal | ui/src/components/TaskTable.js:21 | the rendering of a natural number is non-empty, all digits, with no leading zero |
| Text.IntToDecimal | ui/src/components/TaskTable.js:21 | a non-empty numeral that starts with a minus sign exactly when the integer is negative, all digits after it, with no leading zero; Text.IntToDecimalRoundTrip reads it back |
| Text.NatToDecimalRoundTrip | ui/src/components/TaskTable.js:21 | reading a rendered natural number gives back the number |
| Text.IntToDecimalRoundTrip | ui/src/components/TaskTable.js:21 | reading a rendered integer, sign included, gives back the integer |
| Tasks.ContiguousIdsAreFresh | ui/src/components/TaskTable.js:90 | under the id invariant ids are pairwise distinct and lie in 1..N, so N+1 is taken by no task |
| TaskTable.AddTask | ui/src/components/TaskTable.js:85-93 | rejects the draft with "Please fill in all fields" exactly when its title or its description is all whitespace. Otherwise the result has length N+1, starts with the old list, and ends with the draft's title, description and status under id N+1 |
| TaskTable.AddTaskPreservesContiguity | ui/src/components/TaskTable.js:90 | a valid add turns ids 1..N into ids 1..N+1, and no existing task has the new id |
| TaskTable.AddTaskRaisesOneCount | ui/src/components/TaskTable.js:90 | a draft with no blank field is accepted, and the add raises the count of the new task's status by one and leaves the other counts unchanged |
| TaskTable.Renumber | ui/src/components/TaskTable.js:50 | same length, ids become 1..N in order, and titles, descriptions and statuses are kept |
| TaskTable.RenumberContiguousIsIdentity | ui/src/components/TaskTable.js:50 | renumbering a list whose ids are already 1..N changes nothing |
| Tasks.WithoutId | ui/src/components/TaskTable.js:50 | the filter half of both deletes: a subsequence of the list holding exactly the tasks with another id, shorter by the number of tasks with that id |
| TaskTable.DeleteAndRenumber | ui/src/components/TaskTable.js:50 | the result has ids 1..N. Its length is the old length minus the number of tasks with that id. Element i is the i-th surviving task, with id i+1. The surviving tasks are `Tasks.WithoutId`'s result, whose contract makes them a subsequence of the old list holding exactly the tasks without that id |
| TaskTable.WithoutCountingIds | ui/src/components/TaskTable.js:50 | when ids count up from some first value, removing one of them cuts out exactly the task at its position, and removing any other id changes nothing |
| TaskTable.FilterCountingIds | ui/src/components/TaskTable.js:50 | the same cut, stated for the `filter` call the id filter is made of, by induction on the list |
| TaskTable.DeleteAndRenumberContiguity | ui/src/components/TaskTable.js:50 | for ids 1..N, deleting a present id gives N-1 tasks. The tasks before it are unchanged, and each later task moves down one place and is renumbered by that place. Deleting an absent id changes nothing |
| TaskTable.Mentions | ui/src/components/TaskTable.js:77-79 | a task matches exactly when the term occurs at some offset of its lower-cased title or of its lower-cased description |
| TaskTable.Search | ui/src/components/TaskTable.js:76-80 | the result is a subsequence of the list. A task is in it exactly when its lower-cased title or lower-cased description contains the lower-cased term |
| TaskTable.SearchKeepsEveryMatch | ui/src/components/TaskTable.js:76-80 | each matching task occurs in the result as often as in the list, and a non-matching one does not occur at all |
| TaskTable.SearchEmptyTermIsIdentity | ui/src/components/TaskTable.js:73-74 | an empty term gives the whole list, so the empty-term branch agrees with the search |
| TaskTable.SearchIgnoresTermCase | ui/src/components/TaskTable.js:70 | searching for the lower-cased term gives the same result as searching for the term |
| TaskTable.StatusCount | ui/src/components/TaskTable.js:95 | the count equals the number of indices whose task has that status |
| TaskTable.StatusCountsSum | ui/src/components/TaskTable.js:116-118 | the three status counts add up to the length of the list |
| TaskTable.TaskTableState.constructor | ui/src/components/TaskTable.js:8-12 | empty list, empty form with status To Do, filter All, empty search term, results and notification |
| TaskTable.TaskTableState.LoadSeed | ui/src/components/TaskTable.js:18-24 | the list becomes the formatted seed collection |
| TaskTable.TaskTableState.EditTitle | ui/src/components/TaskTable.js:131 | only the form's title changes |
| TaskTable.TaskTableState.EditDescription | ui/src/components/TaskTable.js:140 | only the form's description changes |
| TaskTable.TaskTableState.EditStatus | ui/src/components/TaskTable.js:147 | only the form's status changes |
| TaskTable.TaskTableState.HandleAddTask | ui/src/components/TaskTable.js:85-93 | added exactly when neither field is blank. When rejected, the list, form and notification are unchanged. When added, the draft is appended with the next id, the form is reset and the success notification is set. The id invariant is kept either way |
| TaskTable.TaskTableState.DeleteRow | ui/src/components/TaskTable.js:49-53 | the list becomes the renumbering delete of the row's id, so it has ids 1..N. Starting from ids 1..N with a present id, it loses exactly one task. The notification is set |
| TaskTable.TaskTableState.HandleSearch | ui/src/components/TaskTable.js:69-83 | the stored term is the lower-cased input, and the results equal the search of the list by that input, including the empty-term branch |
| TaskTable.TaskTableState.SelectFilter | ui/src/components/TaskTable.js:177 | a select value is accepted exactly when it is one of the four labels, and the stored filter then has that label; any other value leaves the filter unchanged |
| TaskTable.TaskTableState.Rows | ui/src/components/TaskTable.js:58-62 | with All the grid gets the whole list; otherwise it gets exactly the tasks with the selected status, in their original order |
| Tasks.FilterByStatusKeepsEveryMatch | ui/src/components/TaskTable.js:58-62 | each task with the selected status occurs as often as in the list, and no other task occurs |
| App.Load | ui/src/App.js:12-17 | exactly min(20, number of records) tasks, the i-th formatted from the i-th record |
| App.LoadCountingIdsIsContiguous | ui/src/App.js:12-17 | seed ids 1, 2, 3, … give a loaded list with ids 1..N |
| Tasks.AppendNew | ui/src/App.js:23-25 | exactly one task is appended: the old tasks are the prefix, and the new last task has id N+1 and the draft's fields |
| Tasks.AppendNewPreservesContiguity | ui/src/App.js:24 | appending to a list with ids 1..N gives ids 1..N+1, and the new id collides with none |
| App.UpdateTask | ui/src/App.js:27-29 | same length. Every task with the edited task's id becomes the edited task, and every other task is unchanged |
| App.UpdateMissingIsNoOp | ui/src/App.js:28 | when no task has the edited id, the list is unchanged |
| App.UpdateKeepsIds | ui/src/App.js:28 | every position keeps its id, so ids 1..N stay 1..N |
| App.UpdateIdempotent | ui/src/App.js:28 | applying the same edit twice equals applying it once |
| App.DeleteTask | ui/src/App.js:31-33 | the result is a subsequence of the list and holds exactly the tasks without that id. Its length is the old length minus the number of tasks with that id |
| App.DeleteTaskKeepsOthers | ui/src/App.js:32 | each task without that id survives as often as it occurred, and no task with it survives |
| App.DeleteMissingIsNoOp | ui/src/App.js:32 | deleting an id no task has changes nothing |
| App.DeleteTaskIdempotent | ui/src/App.js:32 | deleting the same id twice equals deleting it once |
| App.TableDeleteRenumbersRootDelete | ui/src/components/TaskTable.js:50 | the table's delete is the root's delete followed by renumbering |
| App.DeleteThenAddDuplicatesId | ui/src/App.js:23-33 | from ids 1, 2, 3, deleting id 1 and then adding gives two tasks with id 3 |
| App.RenumberedDeleteThenAddKeepsIdsUnique | ui/src/components/TaskTable.js:50 | after the renumbering delete, an add leaves ids 1..N, pairwise distinct |
| Tasks.FilterByStatus | ui/src/App.js:35-38 | with All it is the identity. Otherwise it is a subsequence of the list holding exactly the tasks with that status |
| Tasks.FilterByStatusIdempotent | ui/src/App.js:38 | filtering twice by the same status equals filtering once |
| Sequences.Filter | ui/src/App.js:32 | `Array.prototype.filter`: never longer than its input, and every element of the result is in the input and accepted; the lemmas below give order, multiplicity and length |
| Sequences.FilterIsSubsequence | ui/src/App.js:32 | a filter result is a subsequence of its input |
| Sequences.FilterMultiplicity | ui/src/App.js:32 | a filter keeps each accepted element as often as it occurs and drops every rejected one |
| Sequences.FilterMembership | ui/src/App.js:38 | an element is in the filter result exactly when it is in the input and accepted |
| Sequences.FilterKeepsAll | ui/src/App.js:38 | a filter returns its whole input exactly when every element is accepted |
| Sequences.FilterKeepsNone | ui/src/App.js:38 | a filter returns nothing exactly when no element is accepted |
| Sequences.FilterIdempotent | ui/src/App.js:38 | filtering twice by the same predicate equals filtering once |
| Sequences.FilterConcat | ui/src/components/TaskTable.js:95 | filtering a concatenation equals concatenating the filtered parts |
| Sequences.FilterSplit | ui/src/App.js:32 | the elements kept by a predicate and by its negation together number the whole input |
| Sequences.FilterLengthCountsMatches | ui/src/components/TaskTable.js:95 | the length of a filter result equals the number of accepted indices |
| Sequences.ShiftedCardinality | ui/src/components/TaskTable.js:95 | shifting a set of naturals by one keeps its size |
| Sequences.MatchingSplit | ui/src/components/TaskTable.js:95 | the accepted indices of a non-empty sequence are possibly 0 and the accepted indices of its tail, each moved one further on |

## Left out

- Fetching the seed collection over HTTP is left out (`ui/src/App.js:10-11`, `ui/src/components/TaskTable.js:15-16`). So are the limit of 20 records on the table component's request and the silent failure of that request. These are network I/O. The model starts from a received sequence of records.
- React's state hooks, effect scheduling and JSX markup are left out. The handlers of `TaskTable.TaskTableState` stand for the state setters.
- Also left out is the grid widget's configuration: columns, pagination size, inline editors and teardown (`ui/src/components/TaskTable.js:29-56,64-66`). It is third-party code. The filter rule the widget is told to apply is modelled by `TaskTable.TaskTableState.Rows`. The widget's cell edits are not wired to `App.UpdateTask` in the source, and they are not wired in the model either.
- The notification timer (`ui/src/components/TaskTable.js:99`) is left out, because it is an asynchronous timer. So is the blocking validation dialog (`ui/src/components/TaskTable.js:87`), a UI side effect. The model keeps the last message set and the error value returned by `TaskTable.AddTask`.
- The search results are stored in a field of their own and not in the status filter. The lists held in the status-filter state (`ui/src/components/TaskTable.js:74,81`) are therefore not modelled.
- Text.IntToDecimal: ids are modelled as unbounded integers and written out digit by digit. For an integer below 2^53 in magnitude JavaScript writes out every digit. Above that, a number may not hold the id exactly, and from 10^21 on it is written with an exponent (2^60 renders as "1152921504606847000", 10^21 as "1e+21"). So this rendering, and the round trip behind Tasks.SeedDescriptionNamesId, are guaranteed to match the source only for ids below 2^53.
- TaskTable.TaskTableState.SelectFilter: the source stores any string the select reports (`ui/src/components/TaskTable.js:177`). The select offers only the four labels, so the model accepts only those and keeps the filter otherwise.
- Text.ToLower: lower-cases ASCII letters only. JavaScript's `toLowerCase` also maps non-ASCII letters.
- Status is a three-value enumeration, so a task cannot hold a status string outside it. This is why `TaskTable.StatusCountsSum` holds unconditionally.
- `App.js` passes its filtered list and callbacks to the table component, which ignores them (`ui/src/App.js:42-46`). This wiring is not modelled. The root's `addTask` is `Tasks.AppendNew`, and its filter is `Tasks.FilterByStatus`.

## Findings

| source | as written | input that shows it | evidently intended | confidence | as-written member | corrected member |
|---|---|---|---|---|---|---|
| ui/src/App.js:31-33 | the root deletes a task without renumbering the rest, while add still assigns id `length + 1` (ui/src/App.js:24) | tasks with ids 1, 2, 3; delete id 1, then add: two tasks have id 3 | ids stay 1..N after a delete, so the id add assigns is fresh, as the table component does at ui/src/components/TaskTable.js:50 | medium, not executed; the root's `addTask` and `deleteTask` are never called (ui/src/App.js:42-46 passes no add callback, and ui/src/components/TaskTable.js:7 ignores its props), so the duplicate cannot yet happen in the running application | App.DeleteThenAddDuplicatesId | App.RenumberedDeleteThenAddKeepsIdsUnique |
