# To-do list core in Dafny

This project models the logic behind the ToDoListComposed app in Dafny:

- the task list controller `TaskViewModel`, whose fields are the pending
  new-task text and an inline-editing session;
- the Room DAO `TaskDao` over the `tasks` table, with the `Task` entity
  it stores;
- the builder of the navigation route for the notes screen, which
  form-URL-encodes an optional title.

The model is organised in layers:

- **`TaskEntity`** holds the `Task` row as a datatype with the entity's
  defaults.
- **`TaskStore`** holds the table as a value, `Table(rows, nextId)`.
  - Each DAO statement is a pure function on that value: insert-or-ignore
    with AUTOINCREMENT key generation, lookup by id, update, delete, and
    the done-status update.
  - `TaskStore.TaskDao` is the table as an object, a map plus the key
    counter, updated in place. Each of its methods is proved to perform
    the matching pure function.
  - `getAllTasks` appends each `isDone` group in an order the engine
    picks, and is proved to return every row exactly once, not-done rows
    first.
- **`TaskRules`** gives every controller operation as a pure transition
  on `State(table, session)`. It also holds lemmas about the call
  sequences the UI performs: the checkbox of a task being edited, and the
  "Add" button while an edit is pending.
- **`TaskController.TaskViewModel`** is the controller as an object. Its
  three fields change in place and it drives a `TaskDao`. Each of its
  methods is proved to perform the matching `TaskRules` transition.
- **`Whitespace`** models Kotlin's `trim()` and `isBlank()`.
- **`FormUrlEncoding`** models `URLEncoder.encode(s, "UTF-8")`. That is
  the `application/x-www-form-urlencoded` scheme of section 17.13.4.1 of
  the HTML 4.01 specification, over UTF-8 as in section 3 of RFC 3629.
  The module adds a decoder and proves the round trip.
- **`NavRoutes`** holds the route constants and
  `notesWritingScreenWithOptionalTitle`, with a route parser and its
  round trip.

The model makes three simplifications:

- The clock (`System.currentTimeMillis()`) is the parameter `now`.
- Every coroutine body launched by the controller runs to completion inside
  the call that launches it.
- `TaskRepository` only delegates to the DAO, so the controller drives the
  DAO directly.

Where the comments in the code and the code itself disagree, the model
follows the code:

- `onCurrentEditTextChange` assigns the edit text even when no edit session
  is active, although its comment says it updates only during an edit.
- The list query orders by `isDone` only. The comments in `insertNewTask`
  speak of an ascending timestamp order, but nothing in the model sorts
  by timestamp or id within a group.

`allTasks` projects the stored rows (TaskViewModel.kt:26-32), so the model's
listing shows each task's stored text.

## Model

| member | source | states |
|---|---|---|
| TaskEntity.NewTask | ToDoListComposed/app/src/main/java/com/example/todolistcomposed/Task.kt:7-13 | a task built from its text alone carries that text, the unassigned id 0, is not done and has no timestamp |
| TaskStore.Inserted | ToDoListComposed/app/src/main/java/com/example/todolistcomposed/TaskDao.kt:21-22 | insert-or-ignore: a task whose nonzero id is already a key leaves the table unchanged, rows and AUTOINCREMENT counter alike; otherwise exactly one row is added under a key no row had, an id of 0 being replaced by a generated nonzero key; no existing row changes, the counter never decreases and the table stays well formed |
| TaskStore.Lookup | ToDoListComposed/app/src/main/java/com/example/todolistcomposed/TaskDao.kt:18-19 | `getTaskById`: a row is returned exactly when the id is a key, it is the stored row, and its id is the one asked for |
| TaskStore.Updated | ToDoListComposed/app/src/main/java/com/example/todolistcomposed/TaskDao.kt:24-25 | `@Update`: the row keyed by the task's id becomes the task if it exists, no key is added or removed, every other id looks up the same |
| TaskStore.Deleted | ToDoListComposed/app/src/main/java/com/example/todolistcomposed/TaskDao.kt:27-28 | the key set loses exactly `taskId` (nothing if absent) and every other id looks up the same |
| TaskStore.DoneStatusSet | ToDoListComposed/app/src/main/java/com/example/todolistcomposed/TaskDao.kt:30-31 | only `isDone` of row `taskId` changes; its text, timestamp and id stay, no key is added or removed, other ids look up the same |
| TaskStore.IdsAppend | ToDoListComposed/app/src/main/java/com/example/todolistcomposed/TaskDao.kt:14-16 | the ids of a list extended by one task are the old ids plus that task's id |
| TaskStore.AppendFresh | ToDoListComposed/app/src/main/java/com/example/todolistcomposed/TaskDao.kt:14-16 | appending a task whose id is not yet listed keeps the listed ids distinct |
| TaskStore.DistinctIdsCount | ToDoListComposed/app/src/main/java/com/example/todolistcomposed/TaskDao.kt:14-16 | a list with distinct ids has as many ids as elements |
| TaskStore.AllTasksCount | ToDoListComposed/app/src/main/java/com/example/todolistcomposed/TaskDao.kt:14-16 | any result of `getAllTasks` has exactly as many elements as the table has rows |
| TaskStore.TaskDao.constructor | ToDoListComposed/app/src/main/java/com/example/todolistcomposed/Task.kt:8-9 | a new database has no rows and its AUTOINCREMENT counter starts at 1 |
| TaskStore.TaskDao.InsertTask | ToDoListComposed/app/src/main/java/com/example/todolistcomposed/TaskDao.kt:21-22 | the map and counter become `Inserted` of their old value |
| TaskStore.TaskDao.UpdateTask | ToDoListComposed/app/src/main/java/com/example/todolistcomposed/TaskDao.kt:24-25 | the map becomes `Updated` of its old value |
| TaskStore.TaskDao.DeleteTaskById | ToDoListComposed/app/src/main/java/com/example/todolistcomposed/TaskDao.kt:27-28 | the map becomes `Deleted` of its old value |
| TaskStore.TaskDao.UpdateTaskDoneStatus | ToDoListComposed/app/src/main/java/com/example/todolistcomposed/TaskDao.kt:30-31 | the map becomes `DoneStatusSet` of its old value |
| TaskStore.TaskDao.AppendGroup | ToDoListComposed/app/src/main/java/com/example/todolistcomposed/TaskDao.kt:14-16 | appends every row of one `isDone` group exactly once, as stored, after the given prefix, which is kept |
| TaskStore.TaskDao.GetAllTasks | ToDoListComposed/app/src/main/java/com/example/todolistcomposed/TaskDao.kt:14-16 | every row is listed exactly once, as stored, and no not-done task follows a done one |
| Whitespace.TrimStart | ToDoListComposed/app/src/main/java/com/example/todolistcomposed/TaskViewModel.kt:48 | the result is the suffix of the input left after a whitespace-only prefix, and it does not start with whitespace |
| Whitespace.TrimEnd | ToDoListComposed/app/src/main/java/com/example/todolistcomposed/TaskViewModel.kt:48 | the result is the prefix of the input left before a whitespace-only suffix, and it does not end with whitespace |
| Whitespace.Trim | ToDoListComposed/app/src/main/java/com/example/todolistcomposed/TaskViewModel.kt:48 | neither end of `trim()`'s result is whitespace, and it is empty exactly when the input is blank |
| Whitespace.TrimIsInfix | ToDoListComposed/app/src/main/java/com/example/todolistcomposed/TaskViewModel.kt:142 | `trim()` keeps a contiguous part of the input whose surroundings are whitespace only |
| Whitespace.TrimKeepsTrimmed | ToDoListComposed/app/src/main/java/com/example/todolistcomposed/TaskViewModel.kt:142 | a string with non-whitespace at both ends is its own trim |
| Whitespace.TrimIdempotent | ToDoListComposed/app/src/main/java/com/example/todolistcomposed/TaskViewModel.kt:142 | trimming twice is trimming once |
| Whitespace.BlankAfterTrim | ToDoListComposed/app/src/main/java/com/example/todolistcomposed/TaskViewModel.kt:142-143 | the trimmed text is blank exactly when it is empty, and exactly when the original text is blank |
| TaskRules.AllTasks | ToDoListComposed/app/src/main/java/com/example/todolistcomposed/TaskViewModel.kt:26-32 | the projection keeps length and order, and element `i` carries the id, text and `isDone` of task `i` |
| TaskRules.AllTasksListsTable | ToDoListComposed/app/src/main/java/com/example/todolistcomposed/TaskViewModel.kt:26-32 | projecting any result of the list query shows every row of the table exactly once, as `(id, text, isDone)` of the stored row, with not-done rows first |
| TaskRules.ProjectedIds | ToDoListComposed/app/src/main/java/com/example/todolistcomposed/TaskViewModel.kt:26-32 | the projected list shows exactly the ids of the store's list |
| TaskRules.SaveEditedTask | ToDoListComposed/app/src/main/java/com/example/todolistcomposed/TaskViewModel.kt:140-154 | a text that trims to blank deletes the task; otherwise the task keeps its presence and, if present, gets the trimmed text with its `isDone`, timestamp and id unchanged; other ids look up the same and the counter is unchanged |
| TaskRules.OnNewTaskTextChange | ToDoListComposed/app/src/main/java/com/example/todolistcomposed/TaskViewModel.kt:43-45 | only the pending new-task text changes, to the given text |
| TaskRules.InsertNewTask | ToDoListComposed/app/src/main/java/com/example/todolistcomposed/TaskViewModel.kt:47-65 | blank trimmed text: the whole state is unchanged, the pending text included; otherwise exactly one row is added under the fresh key, with the trimmed text, not done and stamped `now`, and the pending text becomes empty while the editing session stays |
| TaskRules.Cleared | ToDoListComposed/app/src/main/java/com/example/todolistcomposed/TaskViewModel.kt:132-134 | ending a session leaves no task under edit and an empty edit text, and keeps the pending new-task text |
| TaskRules.SaveOrDeleteCurrentEditedTask | ToDoListComposed/app/src/main/java/com/example/todolistcomposed/TaskViewModel.kt:127-136 | with no session nothing changes; with a session on `k` the table is `SaveEditedTask` of `k` and the current edit text, and the session ends |
| TaskRules.FinishEditing | ToDoListComposed/app/src/main/java/com/example/todolistcomposed/TaskViewModel.kt:156-158 | `finishEditing` is the same transition as `saveOrDeleteCurrentEditedTask` |
| TaskRules.CommittedFor | ToDoListComposed/app/src/main/java/com/example/todolistcomposed/TaskViewModel.kt:72-83 | the commit that `updateTaskDoneStatus` performs first: without a session on `taskId` the table is unchanged; with one, a text that trims to blank deletes `taskId`, and otherwise `taskId` keeps its presence and, if present, gets the trimmed text and nothing else; other ids and the counter are unchanged |
| TaskRules.UpdateTaskDoneStatus | ToDoListComposed/app/src/main/java/com/example/todolistcomposed/TaskViewModel.kt:68-106 | a session on `taskId` is committed and ends, any other session is kept; then the committed row, if still present, gets `isDone` and the timestamp `now` with its text as committed; if it is absent the table stays as the commit left it; other ids and the counter are unchanged |
| TaskRules.StartEditingTask | ToDoListComposed/app/src/main/java/com/example/todolistcomposed/TaskViewModel.kt:109-120 | the session targets the task with its text pre-filled; a session on another task is committed first by `SaveEditedTask`, while a session on the same task (or none) leaves the table unchanged |
| TaskRules.OnCurrentEditTextChange | ToDoListComposed/app/src/main/java/com/example/todolistcomposed/TaskViewModel.kt:122-125 | the edit text is replaced whether or not a session is active; nothing else changes |
| TaskRules.SwitchingCommitsFirst | ToDoListComposed/app/src/main/java/com/example/todolistcomposed/TaskViewModel.kt:111-117 | starting an edit on another task equals committing the current edit and then starting the new one |
| TaskRules.RestartingSameTaskSavesNothing | ToDoListComposed/app/src/main/java/com/example/todolistcomposed/TaskViewModel.kt:111-119 | starting an edit of the task already under edit saves nothing and only resets the edit text |
| TaskRules.CommitIsIdempotent | ToDoListComposed/app/src/main/java/com/example/todolistcomposed/TaskViewModel.kt:127-136 | a second commit right after a commit changes nothing |
| TaskRules.CheckboxCommitsThenToggles | ToDoListComposed/app/src/main/java/com/example/todolistcomposed/MainActivity.kt:256-259 | the checkbox of the task under edit finishes the edit and then toggles done: the outcome equals `updateTaskDoneStatus` alone, the session has ended, a blank edit deletes the task and otherwise the row has the trimmed text, the new `isDone` and the timestamp `now` |
| TaskRules.AddCommitsThenInserts | ToDoListComposed/app/src/main/java/com/example/todolistcomposed/ToDoScreenWithScaffold.kt:63-69 | "Add" during an edit ends the session with an empty edit text, and the outcome equals inserting first and committing afterwards |
| TaskRules.CommitAndInsertCommute | ToDoListComposed/app/src/main/java/com/example/todolistcomposed/ToDoScreenWithScaffold.kt:65-68 | committing an edit of an issued key and inserting a task with a generated id commute |
| TaskRules.DeleteAndInsertCommute | ToDoListComposed/app/src/main/java/com/example/todolistcomposed/TaskViewModel.kt:143-144 | deleting an issued key and inserting a task with a generated id commute |
| TaskRules.EditAndInsertCommute | ToDoListComposed/app/src/main/java/com/example/todolistcomposed/TaskViewModel.kt:146-150 | rewriting a stored row and inserting a task with a generated id commute |
| TaskRules.OperationsKeepEditTargetIssued | ToDoListComposed/app/src/main/java/com/example/todolistcomposed/TaskViewModel.kt:109-120 | every controller operation keeps the session naming a key the table has handed out, provided an edit is started only on a task whose key was issued, which includes a listed task deleted since it was listed |
| TaskController.TaskViewModel.constructor | ToDoListComposed/app/src/main/java/com/example/todolistcomposed/TaskViewModel.kt:39-41 | the pending text and the edit text start empty and no task is under edit |
| TaskController.TaskViewModel.AllTasks | ToDoListComposed/app/src/main/java/com/example/todolistcomposed/TaskViewModel.kt:26-32 | the list shown is a faithful listing of the current table, as `IsUiListing` states |
| TaskController.TaskViewModel.OnNewTaskTextChange | ToDoListComposed/app/src/main/java/com/example/todolistcomposed/TaskViewModel.kt:43-45 | the fields become `TaskRules.OnNewTaskTextChange` of their old value |
| TaskController.TaskViewModel.InsertNewTask | ToDoListComposed/app/src/main/java/com/example/todolistcomposed/TaskViewModel.kt:47-65 | the fields and the store become `TaskRules.InsertNewTask` of their old value |
| TaskController.TaskViewModel.UpdateTaskDoneStatus | ToDoListComposed/app/src/main/java/com/example/todolistcomposed/TaskViewModel.kt:68-106 | the fields and the store become `TaskRules.UpdateTaskDoneStatus` of their old value |
| TaskController.TaskViewModel.StartEditingTask | ToDoListComposed/app/src/main/java/com/example/todolistcomposed/TaskViewModel.kt:109-120 | the fields and the store become `TaskRules.StartEditingTask` of their old value |
| TaskController.TaskViewModel.OnCurrentEditTextChange | ToDoListComposed/app/src/main/java/com/example/todolistcomposed/TaskViewModel.kt:122-125 | the fields become `TaskRules.OnCurrentEditTextChange` of their old value |
| TaskController.TaskViewModel.SaveOrDeleteCurrentEditedTask | ToDoListComposed/app/src/main/java/com/example/todolistcomposed/TaskViewModel.kt:127-136 | the fields and the store become `TaskRules.SaveOrDeleteCurrentEditedTask` of their old value |
| TaskController.TaskViewModel.SaveEditedTask | ToDoListComposed/app/src/main/java/com/example/todolistcomposed/TaskViewModel.kt:140-154 | only the store changes, to `TaskRules.SaveEditedTask` of its old value |
| TaskController.TaskViewModel.FinishEditing | ToDoListComposed/app/src/main/java/com/example/todolistcomposed/TaskViewModel.kt:156-158 | the fields and the store become `TaskRules.FinishEditing` of their old value |
| FormUrlEncoding.Utf8 | ToDoListComposed/app/src/main/java/com/example/todolistcomposed/NavRoutes.kt:15 | a character takes one to four UTF-8 bytes, and one byte exactly when it is ASCII |
| FormUrlEncoding.DecodeFirst | ToDoListComposed/app/src/main/java/com/example/todolistcomposed/NavRoutes.kt:15 | a decoded character consumes at least one and at most all of the bytes |
| FormUrlEncoding.HexDigit | ToDoListComposed/app/src/main/java/com/example/todolistcomposed/NavRoutes.kt:15 | escapes use upper-case hexadecimal digits |
| FormUrlEncoding.HexValue | ToDoListComposed/app/src/main/java/com/example/todolistcomposed/NavRoutes.kt:15 | a hexadecimal digit of either case has a value below 16 |
| FormUrlEncoding.PercentEncode | ToDoListComposed/app/src/main/java/com/example/todolistcomposed/NavRoutes.kt:15 | every byte becomes three form-safe characters |
| FormUrlEncoding.EncodeChar | ToDoListComposed/app/src/main/java/com/example/todolistcomposed/NavRoutes.kt:15 | each character encodes to form-safe characters only |
| FormUrlEncoding.Encode | ToDoListComposed/app/src/main/java/com/example/todolistcomposed/NavRoutes.kt:12-15 | the encoded title holds only letters, digits, `.` `-` `*` `_` `+` and `%` |
| FormUrlEncoding.DecodeFirstUtf8 | ToDoListComposed/app/src/main/java/com/example/todolistcomposed/NavRoutes.kt:15 | the first character of a UTF-8 encoded sequence decodes back, consuming exactly its own bytes |
| FormUrlEncoding.Utf8RoundTrip | ToDoListComposed/app/src/main/java/com/example/todolistcomposed/NavRoutes.kt:15 | UTF-8 decoding undoes UTF-8 encoding |
| FormUrlEncoding.HexRoundTrip | ToDoListComposed/app/src/main/java/com/example/todolistcomposed/NavRoutes.kt:15 | the two hexadecimal digits of a byte read back as that byte |
| FormUrlEncoding.EscapeRoundTrip | ToDoListComposed/app/src/main/java/com/example/todolistcomposed/NavRoutes.kt:15 | one `%XY` escape decodes to the byte it encodes |
| FormUrlEncoding.PercentRoundTrip | ToDoListComposed/app/src/main/java/com/example/todolistcomposed/NavRoutes.kt:15 | a run of escapes decodes to the bytes it encodes, followed by whatever the rest decodes to |
| FormUrlEncoding.EncodeCharRoundTrip | ToDoListComposed/app/src/main/java/com/example/todolistcomposed/NavRoutes.kt:15 | each encoded character decodes to its UTF-8 bytes: unreserved characters as themselves, `+` as a space, escapes as their bytes |
| FormUrlEncoding.DecodeToBytesRoundTrip | ToDoListComposed/app/src/main/java/com/example/todolistcomposed/NavRoutes.kt:15 | form-decoding an encoded string gives its UTF-8 bytes |
| FormUrlEncoding.RoundTrip | ToDoListComposed/app/src/main/java/com/example/todolistcomposed/NavRoutes.kt:12-15 | form-decoding the encoded title gives back the original title |
| FormUrlEncoding.EncodeInjective | ToDoListComposed/app/src/main/java/com/example/todolistcomposed/NavRoutes.kt:12-15 | different titles encode differently |
| FormUrlEncoding.EncodeHasNoSeparators | ToDoListComposed/app/src/main/java/com/example/todolistcomposed/NavRoutes.kt:12-15 | an encoded title contains no `/`, `?`, `&`, `=`, `#` or space |
| FormUrlEncoding.EncodeKeepsUnreserved | ToDoListComposed/app/src/main/java/com/example/todolistcomposed/NavRoutes.kt:15 | a title made of unreserved characters only is its own encoding |
| NavRoutes.RouteConstants | ToDoListComposed/app/src/main/java/com/example/todolistcomposed/NavRoutes.kt:4-10 | the registered route pattern is `notesWritingScreen?noteTitle={noteTitle}`, the query prefix followed by the placeholder |
| NavRoutes.NotesWritingScreenWithOptionalTitle | ToDoListComposed/app/src/main/java/com/example/todolistcomposed/NavRoutes.kt:13-20 | no title gives exactly `notesWritingScreen`; any title, the empty one included, gives `notesWritingScreen?noteTitle=` followed by its encoding |
| NavRoutes.ParseRouteRoundTrip | ToDoListComposed/app/src/main/java/com/example/todolistcomposed/NavRoutes.kt:13-20 | reading a built route back yields exactly the title, or no title, it was built from |
| NavRoutes.DistinctTitlesDistinctRoutes | ToDoListComposed/app/src/main/java/com/example/todolistcomposed/NavRoutes.kt:13-16 | distinct titles, and a title versus none, give distinct routes |
| NavRoutes.TitleCannotBreakRoute | ToDoListComposed/app/src/main/java/com/example/todolistcomposed/NavRoutes.kt:12-16 | after the fixed prefix a titled route contains no `/`, `?`, `&`, `=` or `#`, whatever the title |

## Left out

- Compose UI (MainActivity.kt, ToDoScreenWithScaffold.kt, the other screens, the round checkbox and the theme): layout, focus and keyboard handling. This includes the task row showing the pending edit text in place of the stored text while that row is under edit. Of these files only the call orders of the checkbox and of the "Add" button are modelled, as lemmas over the controller's transitions.
- Concurrency: each `viewModelScope.launch` body is atomic and immediate. Because of that, the model does not capture these effects:
  - the lost update that interleaving at Room suspension points can cause, in `saveEditedTask` (TaskViewModel.kt:146-150) and in `updateTaskDoneStatus` (TaskViewModel.kt:95-101), which both read a row and then write it back;
  - `newTaskText` being cleared only once the insert has run (TaskViewModel.kt:62).
- The `Flow`/`StateFlow` streams, including `stateIn` with its initial empty list: `allTasks` and `getAllTasks` are modelled as one snapshot of the query per call.
- The clock is the parameter `now`, and `Log` calls are dropped. The unused `taskBeingModified` (TaskViewModel.kt:69) is dropped too.
- Integer widths: ids are unbounded `int` rather than Kotlin's 32-bit `Int`, and timestamps are `int` rather than 64-bit `Long`. SQLite's rowid limit and its failure on overflow are not modelled.
- `TaskRepository` is modelled as the DAO it delegates to. Its `updateTaskDoneStatus` (TaskRepository.kt:33-35) calls `updateTaskDoneStatusAndTimestamp`, which the DAO does not declare, and nothing in the controller calls it.
- Construction and wiring are not part of this model: `TaskViewModelFactory`, `AppDatabase` (its synchronized singleton), the Hilt module and the build script.
- The copy of the controller in ui/mainscreen/MainScreenViewModel.kt is not modelled, and neither are the placeholder view models. The copy does not compile against Task.kt; the placeholders hold no logic.
- Timestamp ordering: the list query orders by `isDone` only, so the model sorts neither by timestamp nor by id within a group.
- Whitespace.IsWs: the model fixes Kotlin's JVM whitespace set (`Character.isWhitespace` or `Character.isSpaceChar`) as a concrete character list, and no lemma depends on which characters are in it.
- FormUrlEncoding.Encode: characters are Unicode scalar values, so Java's replacement of an unpaired surrogate by `?` has no counterpart.
- FormUrlEncoding.Decode: `URLDecoder` is not called by the app. The decoder is this model's own partner for the round trip, and it reads any character other than `+` and `%` as its UTF-8 bytes.
