# Todo-App task store, router and client helpers in Dafny

This project models the backend of the Todo-App together with the pure parts of its single-page client.

The backend is a PHP front controller in front of one MySQL table `task`:

- It removes the mount directory `/todo_app/backend` from the request path.
- It answers pre-flight `OPTIONS` requests before anything else.
- It dispatches on five exact paths and three `/tasks/<verb>/<digits>` patterns, in that order.
- Otherwise it answers `{"message":"API is running"}`.

Each route handler checks its input, runs one SQL statement and answers with JSON. The model treats the whole backend as a pure transition: `(Store, Request) -> Reply(Response, Store)`.

The client part covers these pieces of the React component:

- the blank-title check, using `String.prototype.trim`
- the first-five split of the task list
- the relative-time buckets of `formatDate`
- the client-side re-sort
- the header text
- the create, start-edit, save-edit and cancel-edit state changes
- the URLs the client builds, checked against the router

Modules, one per file:

- `Options`: an optional value.
- `Text`: `str_replace` with an empty replacement as a single left-to-right scan, the `\d` class, `intval` on strings, and the decimal rendering of naturals.
- `TaskStore`: the table as a sequence of rows plus the AUTO_INCREMENT counter; the three SQL query shapes and the four row writes (`MarkCompleted`, `Rewrite`, `RemoveId`, `Insert`); the validity invariant and the legal-step relation `Evolves`.
- `Handlers`: one function per route file.
- `Router`: `index.php`.
- `Client`: `App.tsx`.
- `Scenarios`: properties that span several requests.

Conventions:

- `now` is the database clock at insert time.
- `ok` says whether the handler's statement executed.
- `delivered` or a reply value says how a client call came back.

Three facts about the code that shape the model:

- The router has three id routes: complete, delete and update.
- The create handler does not require a title: a missing title is stored as the empty string.
- Complete and update report success for any id that matches no row. Delete does so only for a positive id; it refuses ids `<= 0` with "Invalid task ID".

## Model

| member | source | states |
|---|---|---|
| Text.RemoveAll | backend/index.php:14 | never lengthens the path; a path without the mount string is returned unchanged |
| Text.RemoveLeading | backend/index.php:14 | a leading occurrence is dropped and the scan resumes just after it, without rescanning |
| Text.RemovePlain | backend/index.php:14 | characters at which the needle does not start are copied through in order |
| Text.MissingCharNoOccurrence | backend/index.php:14 | a path lacking some character of the needle contains no occurrence of it |
| Text.NatToString | frontend/src/App.tsx:21 | `${id}` of a non-negative id is a non-empty digit string with no leading zero that denotes the id |
| Text.DigitPrefix | backend/routes/complete_task.php:14 | `intval` reads the longest run of leading digits and stops at the first non-digit |
| Text.SkipSpace | backend/routes/complete_task.php:14 | `intval` skips only leading whitespace, and what it keeps is a suffix of the input that starts with a non-space |
| Text.IntVal | backend/routes/complete_task.php:14 | `intval` (also at delete.php:9 and update_task.php:14) of an all-digit string is its decimal value; a negative result needs a `-` as the first non-space character, and such a sign never gives a positive result |
| Text.IntValOfNatToString | backend/routes/delete.php:9 | `intval` of the client-rendered id gives back the id |
| TaskStore.Filter | backend/routes/uncompleted.php:9 | `WHERE completed = flag` returns every matching row with its multiplicity and no other row |
| TaskStore.InsertDesc | backend/routes/get_tasks.php:4 | the insertion step adds exactly the one row to the list |
| TaskStore.InsertDescSorted | backend/routes/get_tasks.php:4 | inserting into a newest-first list keeps it newest first |
| TaskStore.SortDesc | backend/routes/get_tasks.php:4 | `ORDER BY created_at DESC` is a permutation that is non-increasing in created_at |
| TaskStore.SortDescOfSorted | frontend/src/App.tsx:84 | a list already newest first comes back from the sort unchanged |
| TaskStore.Count | backend/routes/count.php:9 | `COUNT(*)` is at most the number of rows |
| TaskStore.CountIsFilterLength | backend/routes/count.php:9 | the count equals the length of the filtered listing for the same flag |
| TaskStore.FiltersPartition | backend/routes/get_completed_tasks.php:9 | with flags 0 or 1, the rows with flag 0 and the rows with flag 1 together make up the table |
| TaskStore.MarkCompleted | backend/routes/complete_task.php:16 | rows with the id get completed = 1 and keep every other field; all other rows are untouched |
| TaskStore.CountAfterMark | backend/routes/complete_task.php:16 | completing the single uncompleted row with an id lowers the uncompleted count by exactly one |
| TaskStore.Rewrite | backend/routes/update_task.php:27 | rows with the id get the new title and description; all other fields and rows are untouched |
| TaskStore.RewriteSame | backend/routes/update_task.php:27 | writing a row's own text back under its unique id leaves the table identical |
| TaskStore.RemoveId | backend/routes/delete.php:16 | exactly the rows with the id disappear; every other row keeps its multiplicity |
| TaskStore.RemoveIdKeepsOrigin | backend/routes/delete.php:16 | every row left after the delete was already in the table |
| TaskStore.RemoveIdUnique | backend/routes/delete.php:16 | a delete keeps ids unique |
| TaskStore.Insert | backend/routes/create_task.php:10 | the insert keeps every existing row in place and appends one row with the counter as id, the given text, flag 0 and the insert time; the counter advances; in a valid table the new id is carried by no existing row |
| TaskStore.InPlaceStep | backend/routes/complete_task.php:16 | a write that keeps ids and creation times and never clears a flag is valid and a legal step |
| TaskStore.DropStep | backend/routes/delete.php:16 | a write that only drops rows is valid and a legal step |
| TaskStore.AppendStep | backend/routes/create_task.php:10 | an insert under the counter keeps the table valid and is a legal step |
| TaskStore.AppendValid | backend/routes/create_task.php:10 | the new id is fresh, so ids stay unique and below the advanced counter |
| TaskStore.AppendEvolves | backend/routes/create_task.php:10 | an insert is a legal step: existing rows keep their creation times and flags, and every id below the old counter was already present |
| TaskStore.EvolvesRefl | backend/routes/get_tasks.php:4-13 | a request that writes nothing is a legal step |
| Handlers.GetTasks | backend/routes/get_tasks.php:4-13 | lists every row exactly once, newest first, leaves the table unchanged, and gives `[]` on an empty table |
| Handlers.Uncompleted | backend/routes/uncompleted.php:9-18 | lists exactly the rows with completed = 0 with their multiplicities, newest first, read-only |
| Handlers.CompletedTasks | backend/routes/get_completed_tasks.php:9-20 | lists exactly the rows with completed = 1, newest first, read-only; a failed query gives `[]` |
| Handlers.CountUncompleted | backend/routes/count.php:9-16 | answers an uncompleted count no larger than the table, read-only |
| Handlers.CountMatchesUncompletedList | backend/routes/count.php:9 | the count equals the length of the uncompleted listing of the same table |
| Handlers.ListsPartition | backend/routes/uncompleted.php:9 | in a valid table the uncompleted and completed listings split the rows between them |
| Handlers.Create | backend/routes/create_task.php:7-17 | appends one row with the given or defaulted title and description; answers status success exactly when the insert executes, and changes nothing otherwise |
| Handlers.CreateNotIdempotent | backend/routes/create_task.php:10 | two identical creates add two rows with the same title and different ids |
| Handlers.CompleteTask | backend/routes/complete_task.php:9-24 | an absent id is refused with "Task ID required"; otherwise only the flag of rows whose id is `intval(id)` becomes 1, and success follows the statement |
| Handlers.CompleteMissingId | backend/routes/complete_task.php:20-21 | an id no row carries, 0 included, reports "Task marked as complete" and changes nothing |
| Handlers.CompleteIdempotent | backend/routes/complete_task.php:16 | completing twice leaves the table as completing once |
| Handlers.UpdateTask | backend/routes/update_task.php:9-35 | an absent id or title is refused and changes nothing; an empty title passes; a missing description is written as `''`; only title and description of matching rows change |
| Handlers.UpdateMissingId | backend/routes/update_task.php:31-32 | an id no row carries reports "Task updated successfully" and changes nothing |
| Handlers.DeleteId | backend/routes/delete.php:9 | an absent id is taken as 0 |
| Handlers.DeleteTask | backend/routes/delete.php:9-24 | ids `<= 0` get "Invalid task ID" and change nothing; otherwise exactly the rows with that id go |
| Handlers.DeleteRejectsOnlyZero | backend/routes/delete.php:9-14 | on a digit-string id, delete answers "Invalid task ID" exactly when the digits denote 0 |
| Handlers.RemoveAbsentId | backend/routes/delete.php:16 | deleting an id no row carries keeps the table identical |
| Handlers.DeleteMissingId | backend/routes/delete.php:20-21 | a positive id no row carries reports "Task deleted" and changes nothing |
| Handlers.DeleteIdempotent | backend/routes/delete.php:16 | deleting twice leaves the table as deleting once |
| Handlers.CreateStep | backend/routes/create_task.php:10-17 | create keeps a valid table valid and is a legal step |
| Handlers.CompleteStep | backend/routes/complete_task.php:14-24 | complete keeps a valid table valid and never clears a flag |
| Handlers.UpdateStep | backend/routes/update_task.php:24-35 | update keeps a valid table valid and is a legal step |
| Handlers.DeleteStep | backend/routes/delete.php:9-24 | delete keeps a valid table valid, and a deleted id never returns |
| Handlers.RemoveStep | backend/routes/delete.php:16 | removing an id keeps the table valid and is a legal step |
| Router.Capture | backend/index.php:41 | a capture exists exactly when the path is the prefix followed by a non-empty run of digits and nothing else |
| Router.Dispatch | backend/index.php:16-59 | path dispatch never yields the pre-flight route, and every id route carries a non-empty digit string |
| Router.RouteOf | backend/index.php:7-14 | the pre-flight route is chosen exactly for OPTIONS, whatever the path |
| Router.Apply | backend/index.php:16-59 | pre-flight answers empty and the fallback answers "API is running", both leaving the table unchanged; id routes answer success/message |
| Router.Handle | backend/index.php:7-10 | an OPTIONS request reaches no handler and changes nothing; an unmatched path answers "API is running" |
| Router.IdRequiredUnreachable | backend/index.php:42 | through the router, no request ever gets "Task ID required" |
| Router.ApplyNeverIdRequired | backend/index.php:41-57 | every route hands complete and update an id, so no route answers "Task ID required" |
| Router.MountRemovedAnywhere | backend/index.php:14 | instances: a mount after `/tasks`, and mounts on both sides of it, are both removed |
| Router.MountRemovedAfter | backend/index.php:14 | after any underscore-free text, an occurrence of the mount string is removed and the rest is scanned on, so the mount is removed wherever it occurs behind such text |
| Router.MountedPathStripped | backend/index.php:14 | a mounted path without `_` routes on exactly the part after the mount |
| Router.RouteOfMounted | backend/index.php:12-14 | a non-OPTIONS request to such a mounted path dispatches on the part after the mount |
| Router.NoCaptureAt | backend/index.php:41 | a path that differs from the prefix at some position captures nothing |
| Router.LiteralRoutesExact | backend/index.php:16-39 | each literal route is reached by exactly its own path: `/tasks`, `/tasks/uncompleted`, `/tasks/completed`, `/tasks/count`, `/tasks/create` |
| Router.LiteralsAreExact | backend/index.php:16-39 | literal routes match only by equality: `/tasks/`, `/tasks/count/` and `/tasks/create/` fall through |
| Router.NegativeIdFallsThrough | backend/index.php:47 | `/tasks/delete/-1` gets the fallback, not the delete handler |
| Router.UpdateNonDigitsFallsThrough | backend/index.php:53-59 | the update prefix followed by anything but a non-empty digit run (`null`, say) matches no rule and gets the fallback |
| Router.CaptureOf | backend/index.php:41-42 | a prefix followed by a non-empty digit run captures exactly that run |
| Router.NotShortLiteral | backend/index.php:16-39 | a path of 14 or more characters matches none of the three short literal routes |
| Router.NotListingLiteral | backend/index.php:21-29 | a path whose eighth character is neither `u` nor `c` matches neither listing route |
| Router.CompletePathDispatches | backend/index.php:41-45 | `/tasks/complete/` followed by digits passes every earlier rule and reaches complete |
| Router.DeletePathDispatches | backend/index.php:47-51 | `/tasks/delete/` followed by digits passes every earlier rule and reaches delete |
| Router.UpdatePathDispatches | backend/index.php:53-57 | `/tasks/update/` followed by digits passes every earlier rule and reaches update |
| Router.DispatchCompleteIff | backend/index.php:41-45 | `/tasks/complete/x` reaches complete with id x exactly when x is a non-empty digit string |
| Router.DispatchDeleteIff | backend/index.php:47-51 | the same equivalence for delete |
| Router.DispatchUpdateIff | backend/index.php:53-57 | the same equivalence for update |
| Router.CapturedIdNonNegative | backend/index.php:41-57 | any captured id reads as a non-negative integer |
| Router.MountedIdRoute | backend/index.php:14-57 | a mounted id URL reaches its handler with exactly the digits after the verb |
| Router.MountedUnderPrefix | backend/index.php:14 | the mount followed by an underscore-free prefix and digits is dispatched on the prefix and digits alone |
| Router.MountedCompleteRoute | backend/index.php:14-45 | a mounted complete URL with digits reaches complete with exactly those digits |
| Router.MountedDeleteRoute | backend/index.php:14-51 | a mounted delete URL with digits reaches delete with exactly those digits |
| Router.MountedUpdateRoute | backend/index.php:14-57 | a mounted update URL with digits reaches update with exactly those digits |
| Router.HandleOnRoute | backend/index.php:16-59 | a request is answered by whatever the route it reaches answers |
| Router.HandleUpdatePath | backend/index.php:53-57 | a request routed to update runs the update handler on the captured id and the request body |
| Router.RoutedDeleteRejectsOnlyZero | backend/index.php:47-49 | a request routed to delete with id x carries a digit string x and gets "Invalid task ID" exactly when the digits denote 0 |
| Router.ApplyKeepsValid | backend/index.php:16-59 | every route keeps a valid table valid |
| Router.ApplyEvolves | backend/index.php:16-59 | every route is a legal step: creation times fixed, flags never cleared, deleted ids never reused |
| Router.HandleKeepsInvariants | backend/index.php:7-59 | any request keeps a valid table valid and evolves it legally |
| Client.TrimStart | frontend/src/App.tsx:107 | drops exactly the leading whitespace |
| Client.TrimEnd | frontend/src/App.tsx:107 | drops exactly the trailing whitespace |
| Client.Trim | frontend/src/App.tsx:107 | the trimmed text is the slice of the input that is left once exactly its leading and trailing whitespace are dropped, and it neither starts nor ends with whitespace |
| Client.BlankIffAllSpace | frontend/src/App.tsx:107 | `Blank`, the `!title.trim()` test of frontend/src/App.tsx:107 and :163, holds exactly when all the title's characters are whitespace |
| Client.RecentTasks | frontend/src/App.tsx:103 | completed mode shows the whole list; active mode shows the first min(5, n) tasks |
| Client.OlderTasks | frontend/src/App.tsx:104 | the recent part followed by the older part is the whole list; completed mode has no older part |
| Client.AgeOf | frontend/src/App.tsx:193-202 | the exact ms thresholds of each bucket (below one minute, future dates included, is "Just now"), and N in 1..59, 1..23 or 1..6 is the floor of the age |
| Client.AgeMonotone | frontend/src/App.tsx:193-202 | an older date never lands in a more recent bucket |
| Client.FormatDate | frontend/src/App.tsx:198-202 | below a minute "Just now"; below an hour "Nm ago" with N the floored minutes; below a day "Nh ago"; below a week "Nd ago"; from a week on the absolute date |
| Client.HeaderAllDoneIff | frontend/src/App.tsx:221 | `Header`, the header text of frontend/src/App.tsx:221: on a numeric count, the header reads "All done!" exactly when the count is 0 |
| Client.HeaderAsWrittenNeverAllDone | backend/routes/count.php:15 | `CountFieldAsSent` is the count field as count.php:15 sends it, a JSON string, and `HeaderAsWritten` is the header of frontend/src/App.tsx:221 applied to it: with the count sent as a string, the header never reads "All done!"; 0 shows "0 pending" |
| Client.CorrectedHeaderAllDoneIff | frontend/src/App.tsx:221 | with the count sent as a number, "All done!" shows exactly when nothing is pending |
| Client.ClientIdRoundTrip | frontend/src/App.tsx:20-42 | `CompleteRequest`, `DeleteRequest` and `UpdateRequest` are the fetch calls of frontend/src/App.tsx:20-42: the complete, delete and update URLs they build reach their handlers with an id that `intval` reads back as the task id |
| Client.ClientCompleteRoutes | frontend/src/App.tsx:20-23 | the complete URL for a task id reaches the complete handler with that id's digits |
| Client.ClientDeleteRoutes | frontend/src/App.tsx:25-28 | the delete URL for a task id reaches the delete handler with that id's digits |
| Client.ClientUpdateRoutes | frontend/src/App.tsx:36-42 | the update URL for a task id reaches the update handler with that id's digits and the typed title and description |
| Client.NullEditIdFallsThrough | frontend/src/App.tsx:169 | `UpdateRequest` writes an absent id as `null`, as the template literal does: saving while `editingId` is null sends `/tasks/update/null`, which reaches no handler, is answered "API is running" and changes nothing |
| Client.ClientCreateRoutes | frontend/src/App.tsx:44-51 | `CreateRequest`, the create fetch call, is answered exactly as the create handler answers a body with the typed title and description |
| Client.HandleTaskCreated | frontend/src/App.tsx:106-124 | a blank title sends nothing and changes nothing; otherwise the untrimmed title is sent, and the inputs are cleared once the call returns |
| Client.StartEdit | frontend/src/App.tsx:156-160 | edit mode for the task, seeded with its current title and description; the rest of the view stays |
| Client.SaveEdit | frontend/src/App.tsx:162-182 | the same blank-title rejection; otherwise the update is sent, and edit state is cleared only when the reply reports success |
| Client.CancelEdit | frontend/src/App.tsx:184-188 | editingId becomes null and both edit fields `""`; the rest of the view stays |
| Client.CancelThenSaveSendsNothing | frontend/src/App.tsx:163-165 | after a cancel, saving sends no request |
| Client.LoadTasks | frontend/src/App.tsx:74-95 | after a load the list is newest first and holds exactly the rows of the current mode; the count is the uncompleted count, kept as a number as the corrected count handler sends it |
| Client.ClientSortKeepsServerOrder | frontend/src/App.tsx:84 | the client's re-sort keeps the order the server sent |
| Client.AllDoneIffNoActiveTasks | frontend/src/App.tsx:221 | with the count sent as a number (the corrected count.php), in active mode after a load "All done!" shows exactly when the list is empty |
| Client.LoadedHeaderAsWritten | backend/routes/count.php:15 | with the count sent as a string (count.php as written), an empty active list after a load is headed "0 pending" |
| Client.EditUnchangedIsNoOp | frontend/src/App.tsx:156-170 | saving an edit without changes reports success and leaves the table identical |
| Client.CreatedRowKeepsTypedText | frontend/src/App.tsx:114 | the created row carries exactly the typed, untrimmed title and description |
| Scenarios.CreateThenListedOnce | backend/routes/uncompleted.php:9 | after a create, the new row is listed as uncompleted exactly once, and it is the only listed row with its id |
| Scenarios.CompleteMovesTask | backend/routes/complete_task.php:16 | completing an uncompleted task moves it from the uncompleted list to the completed one, and the count drops by exactly one |
| Scenarios.MarkedIsCompleted | backend/routes/get_completed_tasks.php:9 | a completed row appears, flagged, in the completed listing |
| Scenarios.MarkedFlagged | backend/routes/complete_task.php:16 | after the update, every stored row with that id has completed = 1 |
| Scenarios.ListedUncompletedIsStored | backend/routes/uncompleted.php:9-16 | a row in the uncompleted listing is a stored row with flag 0 |
| Scenarios.MarkedNotUncompleted | backend/routes/uncompleted.php:9 | no row with a just-completed id remains in the uncompleted listing |
| Scenarios.DeleteRemovesFromBoth | backend/routes/delete.php:16-21 | a deleted id is gone from both listings; deleting it again reports "Task deleted" and changes nothing |

## Left out

- HTTP headers and CORS, `parse_url`, `json_decode`/`json_encode` and `file_get_contents`. A request is an already-parsed path plus a decoded body whose title and description are present or absent.
- The mysqli connection (`backend/db.php`, which is not part of this model). The table is an abstract sequence of rows.
- Statement failure is a single boolean input. Failure details are not modelled.
- The list-all, uncompleted and count queries are assumed to succeed. Their unguarded failure paths (a fatal error on `false`) are not modelled.
- Database defaults are taken as given: completed = 0, created_at = the insert time, ids from AUTO_INCREMENT starting at 1. The schema is not shown.
- `created_at` is an integer timestamp. Date strings, `Date` parsing and `toLocaleDateString` are not modelled; `FormatDate` takes the absolute date text as a parameter.
- The PCRE rule that `$` also matches before a trailing newline. `$` is treated as end of string.
- `intval` clamping is not modelled: neither clamping of huge digit strings to PHP_INT_MAX, nor exponent or other numeric-string forms. Ids are unbounded naturals.
- PHP type juggling of non-string titles and descriptions: body fields are strings.
- `frontend/src/lib/api.ts`, `TaskCard.tsx` and `TaskForm.tsx`: fetch wrappers and rendering. The copies of the fetch calls inside `App.tsx` are modelled as the request builders.
- React effects, toasts, `confirm`, the loading flag, the show-all toggle and all JSX.
- The `loadTasks()` reloads after a create (frontend/src/App.tsx:118) and after a save (frontend/src/App.tsx:172): `HandleTaskCreated` and `SaveEdit` do not reload the list. A create reloads whenever the call returns, a save only when the reply reports success; a reload is `LoadTasks` on the new table.
- `handleTaskCompleted` and `handleDelete` (frontend/src/App.tsx:126-154): they only send a request and reload on success, which the request builders and `LoadTasks` already cover.
- Client.LoadTasks: reads the table directly instead of going through the router, and does not model a failed fetch leaving the previous list in place. It keeps the uncompleted count as a number, that is, with the corrected count.php of "## Findings"; the string count of the code as written is covered by Client.LoadedHeaderAsWritten.
- AllDoneIffNoActiveTasks: holds with the count sent as a number (the corrected count.php); as written, the header never reads "All done!" after a load, see Client.LoadedHeaderAsWritten.
- The order among rows with equal created_at is unspecified. The contracts promise only a permutation that is non-increasing in created_at.
- `Math.floor` on floating-point division is taken as exact integer floor division.
- Concurrency between requests and between clients.

## Findings

| source | as written | input that shows it | evidently intended | confidence | as-written member | corrected member |
|---|---|---|---|---|---|---|
| backend/routes/count.php:15 with frontend/src/App.tsx:221 | count.php sends `$row['uncompleted_count']` from `query()`, which mysqli returns as a string by default; the header tests `uncompletedCount === 0` | a table with no uncompleted rows: the count arrives as `"0"` and the header shows "0 pending" | "All done!" when nothing is pending, so the count should be sent as a number (for example with an `(int)` cast) | medium, not executed; holds unless the connection in db.php enables native integer results | Client.HeaderAsWrittenNeverAllDone | Client.CorrectedHeaderAllDoneIff |
