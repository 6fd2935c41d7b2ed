# Ordered tasks and projects: a Dafny model

The application is a grid of projects (or goals). Each project holds an ordered list of tasks. The model covers four parts:

- **The position engine of the store.** Rows carry an integer `position` that orders them inside their scope: a task inside its project, a project inside its owner. SQLite enforces `UNIQUE(scope, position)` on every row write.
  - Creating a task either appends it or shifts its siblings up, in two UPDATE statements that pass through negative positions inside BEGIN/ROLLBACK.
  - Creating a project appends it or inserts it at the given position as is.
  - Reorders rewrite positions one row at a time.
  - Deletes renumber nothing.
  - Field updaters patch one row.
- **The client grid store.** Its state is the projects with their tasks, the keyboard focus `(column, task, topBar)`, the edit in progress, the project-type menu flag, the error and the loading flag.
  - Navigation moves.
  - Local list updates applied after API replies.
  - `saveEdit`'s choice between create, update, delete and cancel, including where an "insert after" task lands.
- **The credential checks** `validatePassword` and `validateEmail`.
- **The validation chain** of `POST /api/projects`.

## How the model is built

- **Tables.** `Tables.Table<P>` is one table: a `rows` sequence in storage order and a `saved` snapshot that BEGIN takes and ROLLBACK restores.
  - Every row write is checked against the uniqueness of `(scope, position)`. A refused write fails its whole statement, and the statement's earlier writes are undone.
  - An UPDATE over many rows is a loop over the rows in storage order (`UpdatePositions`).
  - The reorder loop is a loop of single-row UPDATEs (`Reorder`).
  - Tasks and projects are `Table<TaskFields>` and `Table<ProjectFields>` (`Schema`).
- **Store calls.** Operations on the store are methods over these tables.
  - Ids that the store generates are inputs (`newId`).
  - A store I/O failure inside `createTask`'s transaction is the input `storeFault`.
- **Client.** The client store is the class `GridStore.Store`. Every API reply is an input `Result`: a Success carries the server's JSON, a Failure carries the error message.
- **Foreign keys and uniqueness.** src/lib/db/connection.ts:27-28 turns foreign keys on.
  - The schema itself is not part of this model.
  - The model takes the uniqueness of `(project_id, position)` and `(user_id, position)` from the comments at src/lib/db/tasks.ts:69 and :100 and src/lib/db/projects.ts:59.
  - It takes the cascade from tasks to projects from src/lib/db/projects.ts:136.
- **Defaults.** A new task's `is_completed` is false and its `how_explanation` is NULL. These column defaults are assumed; the INSERT at src/lib/db/tasks.ts:93-97 does not set them.
- **Parameter binding.** Parameters are bound by their order in the SQL text (src/lib/db/connection.ts:51-52 rewrites `$n` to `?`). In every statement modelled here, text order and array order agree.

## Model

| member | source | states |
|---|---|---|
| Ordering.SortBy | src/lib/stores/grid.ts:187 | the result is sorted by the key and is a permutation of the input |
| Ordering.InsertByStable | src/lib/stores/grid.ts:187 | inserting an entry into a sorted list puts it after every entry with its key and keeps the order among equal keys |
| Ordering.SortByStable | src/lib/stores/grid.ts:187 | the sort is stable, like `Array.prototype.sort`: for every key, the entries with that key come out in their input order |
| Ordering.AppendMaxThenSort | src/lib/stores/grid.ts:187 | sorting a sorted list with an element appended whose key is at least every other key leaves the list as it is |
| Ordering.SortStrictWhenKeysDistinct | src/lib/db/tasks.ts:13 | when no two entries share a key, the sorted result is strictly ascending |
| Ordering.SubsequenceKeepsOrder | src/lib/stores/grid.ts:240 | leaving entries out of a list sorted by position, strictly or not, keeps it sorted in the same way |
| Tables.FindById | src/lib/db/tasks.ts:38-45 | returns a row exactly when a row has the id, and the row it returns has that id |
| Tables.FindAt | src/lib/db/tasks.ts:101-104 | `WHERE scope = $1 AND position = $2` finds nothing exactly when the slot is free, and otherwise returns a row in that slot |
| Tables.NextPosition | src/lib/db/tasks.ts:61-66 | `COALESCE(MAX(position), -1) + 1` is above every position in the scope, and is 0 for an empty scope |
| Tables.TargetPosition | src/lib/db/projects.ts:43-50 | a given position is used as is; with none, the result is a free slot of the scope |
| Tables.Filter | src/lib/db/tasks.ts:251 | the rows kept are exactly the rows of the table for which the WHERE test has the requested outcome |
| Tables.FilterKeepsOrder | src/lib/db/tasks.ts:251 | the kept rows are an ordered subsequence of the table, each matching row as often as in the table, and no other row |
| Tables.ListScope | src/lib/db/tasks.ts:13 | `WHERE scope = $1 ORDER BY position ASC` holds exactly the scope's rows, sorted by position |
| Tables.CountScopeIsListingLength | src/lib/db/tasks.ts:257-264 | `COUNT(*)` over a scope equals the length of the scope's listing |
| Tables.ListScopeStrictlyAscending | src/lib/db/tasks.ts:100 | on a table with unique `(scope, position)`, a scope's listing is strictly ascending |
| Tables.FilterKeepsUnique | src/lib/db/tasks.ts:250-252 | a DELETE keeps ids and `(scope, position)` unique |
| Tables.FindAfterPatch | src/lib/db/tasks.ts:130-135 | reading a row back after patching it by id returns the old row with its payload patched, and nothing when there was no such row |
| Tables.PatchKeepsKeys | src/lib/db/tasks.ts:125-128 | a payload UPDATE by id changes no id, scope or position, and no row with another id |
| Tables.KeyIdentifiesRow | src/lib/db/tasks.ts:100-104 | after an INSERT into a table that stays key-unique, the read-back by `(scope, position)` can only return the inserted row |
| Tables.UniqueAfterWriteMeansFree | src/lib/db/tasks.ts:73-78 | a single row write that leaves the table key-unique went to a free slot |
| Tables.FreeWhenEveryPartialStateUnique | src/lib/db/tasks.ts:72-88 | when every partially applied state of an UPDATE is key-unique, every one of its row writes passes, whatever order SQLite visits the rows in: each write passes after any set of the other writes, and so also in table order |
| Tables.Table.WritePosition | src/lib/db/tasks.ts:233 | one row write succeeds exactly when no other row of its scope holds the new position; the table changes only on success |
| Tables.Table.UpdatePositions | src/lib/db/tasks.ts:73-87 | the statement succeeds exactly when every row write passes in table order; it then yields all affected rows rewritten, and otherwise leaves the table unchanged |
| Tables.Table.RewriteRow | src/lib/db/tasks.ts:74-76 | the loop step: the writes so far still pass after row k exactly when row k is unaffected or its new slot is free, and the rows are then the UPDATE applied through row k |
| Tables.FirstWritesFreeIff | src/lib/db/tasks.ts:73-87 | the row-by-row check of the first n writes holds exactly when each of those writes, made after the ones before it, finds its slot free |
| Tables.FirstWritesFreeShrinks | src/lib/db/tasks.ts:73-87 | once a write is refused, the statement as a whole is refused: a check that passes for n writes passes for every shorter prefix |
| Tables.Table.SetPositionWhere | src/lib/db/tasks.ts:232-235 | `UPDATE ... WHERE id = $2 AND scope = $3` succeeds exactly when the write is free and then sets that row's position |
| Tables.Table.Insert | src/lib/db/tasks.ts:93-97 | an INSERT succeeds exactly when the id is new and the slot is free; it appends the row |
| Tables.Table.DeleteWhere | src/lib/db/tasks.ts:251 | a DELETE leaves the other rows, in order, with their positions; the table stays key- and id-unique |
| Tables.Table.PatchPayload | src/lib/db/tasks.ts:125-128 | a payload UPDATE by id patches exactly the rows with that id |
| Tables.Table.Begin | src/lib/db/tasks.ts:57 | BEGIN snapshots the rows |
| Tables.Table.Rollback | src/lib/db/tasks.ts:109-112 | ROLLBACK restores the snapshot |
| Tables.LastIndexOf | src/lib/db/tasks.ts:231-236 | when an id is listed twice, its last index is the one it keeps: the index holds the id and no later index does |
| Tables.FirstMovesFreeIff | src/lib/db/tasks.ts:231-236 | the reorder loop's first n writes pass exactly when each write i, made after the writes before it, finds its slot free |
| Tables.Table.MoveRow | src/lib/db/tasks.ts:232-235 | one write of the loop succeeds exactly when its slot is free, and then extends the placement by that id; a refused write changes nothing |
| Tables.Table.Reorder | src/lib/db/tasks.ts:223-245 | the reorder loop succeeds exactly when every `SET position = i` write is free in turn, and then gives every listed row of the scope the index of its last mention; on failure the table is rolled back unchanged |
| Tables.ReorderCollides | src/lib/db/tasks.ts:231-236 | when a listed row's new index is already held by another row of the scope that has not moved yet, the loop cannot succeed |
| Tables.PlainReorderMovesNothing | src/lib/db/tasks.ts:231-236 | on a scope numbered 0..n-1, a reorder loop whose writes all pass leaves each listed row at the index it already had |
| Tables.PlainReorderChangesNothing | src/lib/db/projects.ts:119-124 | on such a scope, a successful reorder returns the table unchanged, so a reorder that changes anything rolls back |
| Tables.SwapOfTwoCollides | src/lib/db/tasks.ts:231-236 | swapping two tasks at positions 0 and 1 always fails |
| Tables.PlacedGivesIndex | src/lib/db/tasks.ts:231-236 | with distinct ids, the placed table gives the i-th listed row position i and keeps every other row and every id, scope and payload |
| Tables.ReorderTwiceSameResult | src/lib/db/tasks.ts:223-245 | when a reorder's result is key-unique and the list has no repeated id or the first run passed, running the same reorder on that result passes and changes nothing |
| Tables.RepeatedIdSecondRunCollides | src/lib/db/tasks.ts:231-236 | with a repeated id and a first run that fails, the second run can fail although the placement is key-unique: `[a, b, a]` with an unlisted row at 0 |
| Tables.Table.ReorderStaged | src/lib/db/tasks.ts:223-245 | corrected reorder: it refuses a list that does not name exactly the scope's rows, always succeeds on a non-negative scope, and then gives each row the index of its last mention |
| Tables.Table.Stage | src/lib/db/tasks.ts:231-236 | staging every listed row at `-i - 1` cannot collide on a non-negative scope |
| Tables.Table.Unstage | src/lib/db/tasks.ts:231-236 | moving the staged rows from `-i - 1` to `i` cannot collide and yields the intended placement |
| Tables.StagingWriteFree | src/lib/db/tasks.ts:231-236 | every staging write goes to a free slot when the scope's positions are non-negative |
| Tables.UnstagingWriteFree | src/lib/db/tasks.ts:231-236 | every unstaging write goes to a free slot when all scope rows are listed |
| Tables.PlacedOverStaged | src/lib/db/tasks.ts:231-236 | placing over the staged table gives the same result as placing over the original |
| Schema.ParseType | src/lib/db/types.ts:6 | only "project" and "goal" name a project type, and each names the type whose column value it is |
| Schema.TypeNameRoundTrip | src/lib/db/types.ts:6 | parsing a type's column value gives the type back |
| Tasks.ShiftOutPartialUnique | src/lib/db/tasks.ts:73-78 | step 1 (`-position - 1000` for positions at or above p), applied to any subset of its rows, keeps the project key-unique when positions are non-negative |
| Tasks.ShiftBackPartialUnique | src/lib/db/tasks.ts:82-87 | step 2 (`-position - 999` for negative positions), applied to any subset of its rows after step 1, keeps the project key-unique |
| Tasks.TwoStepWritesFree | src/lib/db/tasks.ts:72-88 | neither UPDATE of the shift can meet a UNIQUE violation, whichever of its other rows were written first, and so also in table order |
| Tasks.TwoStepIsShiftUp | src/lib/db/tasks.ts:68-88 | the two steps together move exactly the project's tasks at or above p up by one |
| Tasks.ShiftedUpProperties | src/lib/db/tasks.ts:68-89 | the shift keeps positions and ids unique, frees position p, keeps the relative order of the project's tasks (both directions) and changes no id, scope or payload |
| Tasks.CreateTask | src/lib/db/tasks.ts:50-116 | success exactly when there is no store fault, the project exists (foreign key), the id is new and the insert slot is free. The new task has its content, is not completed, has no explanation, and sits at the requested or next position after the shift. A failure rolls the table back; tasks stay linked to projects |
| Tasks.LinkedAfterCreate | src/lib/db/tasks.ts:93-97 | a task inserted for an existing project keeps every task linked to a project |
| Tasks.CreateTaskAdmittedWhenNonNegative | src/lib/db/tasks.ts:67-97 | on a well-formed, non-negative table, creation is refused only for a missing project or a taken id, and the prepared table is the shift-up (or the table itself for an append) |
| Tasks.GetTasksByProjectId | src/lib/db/tasks.ts:11-18 | exactly the project's tasks, in position order |
| Tasks.TaskListingStrictlyAscending | src/lib/db/tasks.ts:13 | on a well-formed table, the listing is strictly ascending |
| Tasks.GetTaskById | src/lib/db/tasks.ts:38-45 | the task with the id, or nothing exactly when there is none |
| Tasks.CountProjectTasksIsListingLength | src/lib/db/tasks.ts:257-264 | the project count equals the length of the project listing |
| Tasks.GetTasksByUserId | src/lib/db/tasks.ts:23-33 | exactly the tasks whose project belongs to the user |
| Tasks.JoinTasks | src/lib/db/tasks.ts:25-28 | the join holds exactly the tasks of the listed projects |
| Tasks.CountUserTasksIsListingLength | src/lib/db/tasks.ts:269-278 | the user's task count equals the length of the user's task listing |
| Tasks.CountJoinedIsJoinLength | src/lib/db/tasks.ts:270-274 | counting project by project equals the length of the join |
| Tasks.GetProjectTaskHistory | src/lib/db/tasks.ts:284-297 | the first `limit` contents of the project's listing (50 by default, all for a negative limit), in position order |
| Tasks.ReorderTasks | src/lib/db/tasks.ts:223-245 | the reorder loop over one project's tasks (as `Tables.Table.Reorder`) |
| Tasks.DeleteTask | src/lib/db/tasks.ts:250-252 | removes the task with that id and renumbers nothing |
| Tasks.DeleteKeepsListing | src/lib/db/tasks.ts:250-252 | after a delete, each project's listing holds exactly its other tasks, still strictly ascending |
| Tasks.PatchedRow | src/lib/db/tasks.ts:130-135 | the read-back after an update by id: the old row patched, or nothing when the id is unknown |
| Tasks.UpdateTaskContent | src/lib/db/tasks.ts:121-136 | only the content of that task changes; the row read back is the patched row |
| Tasks.SetTaskCompletion | src/lib/db/tasks.ts:203-218 | only the completion flag of that task changes; the row read back is the patched row |
| Tasks.ToggleTaskCompletion | src/lib/db/tasks.ts:186-198 | `is_completed = NOT is_completed` on that task only; the row read back is the patched row |
| Tasks.ToggleTwiceRestores | src/lib/db/tasks.ts:188 | toggling twice restores the table |
| Tasks.ApplySetsIgnoresLaterValues | src/lib/db/tasks.ts:145-162 | appending a parameter value does not change what the earlier SET clauses assign |
| Tasks.PushSet | src/lib/db/tasks.ts:149-152 | pushing one `column = $n` clause with its value applies that assignment after the earlier ones |
| Tasks.StepPatched | src/lib/db/tasks.ts:149-162 | each `updates.push` / `values.push` pair keeps the items numbered from `$1` with one value each, and extends the update they perform by that one field |
| Tasks.FinishStatement | src/lib/db/tasks.ts:168-173 | pushing the task id after the SET items gives a well-numbered statement whose `WHERE id` placeholder holds the id, and the SET items still perform the update |
| Tasks.BuildTaskUpdate | src/lib/db/tasks.ts:141-173 | the builder refuses exactly the update with no field ('No valid fields to update'). Otherwise its SET clauses, run on any row, set exactly the given fields, and the last parameter binds the task id |
| Tasks.UpdateTask | src/lib/db/tasks.ts:141-181 | fails exactly for an empty update; otherwise patches exactly the given fields of that task and reads the patched row back |
| Projects.GetProjectsByUserId | src/lib/db/projects.ts:11-18 | exactly the user's projects, in position order |
| Projects.GetProjectById | src/lib/db/projects.ts:23-30 | the project with the id, or nothing exactly when there is none |
| Projects.CountUserProjectsIsListingLength | src/lib/db/projects.ts:145-152 | the user's project count equals the length of the user's listing |
| Projects.StoredGoal | src/lib/db/projects.ts:56 | `goalDescription \|\| null`: a missing or empty description is stored as NULL, any other as given |
| Projects.NewProject | src/lib/db/projects.ts:39-56 | the inserted row: the type defaults to 'project', the description is stored as `StoredGoal` |
| Projects.CreateProject | src/lib/db/projects.ts:35-66 | succeeds exactly when the id is new and the target slot is free; an append always succeeds for a new id. Nothing is shifted: the row is appended as given and read back by `(user_id, position)`; a failure changes nothing |
| Projects.ReorderProjects | src/lib/db/projects.ts:111-133 | the reorder loop over one user's projects (as `Tables.Table.Reorder`) |
| Projects.DeleteProject | src/lib/db/projects.ts:135-140 | removes the project and, when it existed, its tasks; renumbers no other project; tasks stay linked |
| Projects.LinkedAfterDelete | src/lib/db/projects.ts:136 | after the cascade, every remaining task still names an existing project |
| Projects.UpdateProjectName | src/lib/db/projects.ts:71-86 | only that project's name changes; the read-back is the patched row, or nothing for an unknown id |
| Projects.UpdateGoalDescription | src/lib/db/projects.ts:91-106 | only that project's description changes, an empty one included; the read-back is the patched row |
| Projects.FieldUpdateChangesOneField | src/lib/db/projects.ts:75-78 | a field update changes that one field of the matching row and leaves every other row as it was |
| Text.Trim | src/lib/stores/grid.ts:432 | `trim()` removes exactly the leading and trailing JavaScript white space: the result is a slice with only white space outside it and none at its ends |
| Text.TrimEmptyIffBlank | src/lib/stores/grid.ts:497 | the trimmed draft is empty exactly when the draft is all white space |
| Text.TrimIdempotent | src/lib/stores/grid.ts:461 | trimming twice is trimming once |
| Password.HasAsciiLetter | src/lib/auth/password.ts:40 | `/[a-zA-Z]/.test` holds exactly when some character is an ASCII letter |
| Password.HasAsciiDigit | src/lib/auth/password.ts:44 | `/[0-9]/.test` holds exactly when some character is an ASCII digit |
| Password.ValidatePassword | src/lib/auth/password.ts:30-49 | null exactly when 8 <= length <= 128 with a letter and a digit; otherwise the message of the first failing check, in the order short, long, letter, digit |
| Password.PasswordBoundsInclusive | src/lib/auth/password.ts:31-37 | for a password with a letter and a digit, it is accepted exactly when its length is 8 to 128, both included, and lengths 7 and 129 get the length messages |
| Password.RegexMatchesIffShape | src/lib/auth/password.ts:55 | a string matches `^[^\s@]+@[^\s@]+\.[^\s@]+$` exactly when it has no white space, exactly one `@` that is not first, and a `.` at least two characters after the `@` and before the last character |
| Password.ValidateEmail | src/lib/auth/password.ts:54-66 | null exactly when the pattern matches and the length is at most 255; the format error is reported before the length error |
| ProjectRoute.KindOf | src/routes/api/projects/+server.ts:38 | the type defaults to 'project' only when the field is missing; only "project" and "goal" are types |
| ProjectRoute.HandlePost | src/routes/api/projects/+server.ts:37-80 | a body reaches creation exactly when the name is a non-empty string of at most 255 characters, the type is valid, and a goal has a non-empty string description. Each failure gives its own message, in order. The name, type, position and description reach creation unchanged |
| ProjectRoute.GoalNeedsDescription | src/routes/api/projects/+server.ts:64-69 | a goal is created exactly when its description is a non-empty string |
| ProjectRoute.NullTypeRefused | src/routes/api/projects/+server.ts:56-61 | an explicit `null` type is refused, not defaulted |
| ProjectRoute.StorePosition | src/lib/db/projects.ts:43 | a missing position asks the store for an append, and a number is used as the position |
| ProjectRoute.StoreGoal | src/routes/api/projects/+server.ts:79 | a missing or null description reaches the store as none, and a string as given |
| ProjectRoute.AcceptedBodyStored | src/routes/api/projects/+server.ts:74-80 | an accepted body becomes the inserted row: its name, its parsed type, the given position or one past the user's highest, and a description that is NULL exactly when the body had no non-empty string; a goal always keeps its description |
| GridState.ProjectIndex | src/lib/stores/grid.ts:467 | the first project with the id, or none exactly when no project has it |
| GridState.TaskIndex | src/lib/stores/grid.ts:470 | the first task with the id, or none exactly when no task has it |
| GridState.Renamed | src/lib/stores/grid.ts:142-146 | the matching project takes the name, and the description when one was given; every other field and every other project stays |
| GridState.WithoutProject | src/lib/stores/grid.ts:159 | exactly the projects with another id remain, each as often as before and in their column order |
| GridState.WithTasks | src/lib/stores/grid.ts:176-182 | the reloaded list replaces only the matching project's tasks |
| GridState.AppendSorted | src/lib/stores/grid.ts:187 | the appended list is sorted by position and holds the old tasks plus the new one |
| GridState.AppendAboveAllKeepsOrder | src/lib/stores/grid.ts:185-190 | an append whose position is above all others (the server's append) leaves the sorted list with the task at its end |
| GridState.WithAppended | src/lib/stores/grid.ts:185-190 | only the matching project gains the task, and its list stays sorted by position |
| GridState.Replaced | src/lib/stores/grid.ts:206-209 | in every project, exactly the tasks with the id are replaced by the reply and the rest stay in place |
| GridState.ReplaceKeepsIds | src/lib/stores/grid.ts:222-225 | a reply carrying the same id keeps every project's id order, so lookups by id find the same slots |
| GridState.WithoutTask | src/lib/stores/grid.ts:238-241 | in every project exactly the tasks with another id remain, each as often as before and in their order; project data stays |
| GridState.WithoutTaskKeepsOrder | src/lib/stores/grid.ts:238-241 | a column listed by position, strictly or not, is still listed that way after the delete |
| GridState.DeletedTaskIsGone | src/lib/stores/grid.ts:240 | after a delete, no project holds a task with that id |
| GridState.InsertAfter | src/lib/stores/grid.ts:442-454 | no position (an append) exactly when no task has the anchor id |
| GridState.Anchor | src/lib/stores/grid.ts:443 | the anchor is a task of the project with the requested id |
| GridState.InsertAfterIsNextAbove | src/lib/stores/grid.ts:445-454 | with distinct positions, the resolved position is above the anchor and no task lies strictly between them. When some task lies above the anchor it is a task's position (the successor's); when none does it is the anchor's position + 1 |
| GridState.InsertAfterLandsNextToAnchor | src/lib/stores/grid.ts:447-452 | after the server's shift at the resolved position, the anchor is unchanged and no task sits between the anchor and the new task |
| GridState.ResolveInsertPosition | src/lib/stores/grid.ts:436-457 | an unknown project gives an append; otherwise the insert-after resolution on the first project with the id |
| GridNav.NextRight | src/lib/stores/grid.ts:254-274 | the menu opens exactly on the last column or past it. Otherwise the focus moves one column right, clamps the task index to the next column (title when it is empty) and leaves the top bar; a column below -1 raises a TypeError |
| GridNav.NextLeft | src/lib/stores/grid.ts:279-295 | a no-op at column 0 and before; otherwise one column left with the same clamping, or a TypeError when the column left of it does not exist |
| GridNav.NextDown | src/lib/stores/grid.ts:300-319 | the top bar goes down to the title, the title to task 0, and a task to the next one only while one exists |
| GridNav.NextUp | src/lib/stores/grid.ts:324-337 | the title goes up to the top bar's first button, task 0 to the title, and task k to k-1 |
| GridNav.NextTopBarLeft | src/lib/stores/grid.ts:342-349 | decrements exactly when the top bar is above 0, changes nothing else, and leaves the focus as it is otherwise |
| GridNav.NextTopBarRight | src/lib/stores/grid.ts:354-362 | increments exactly when the top bar is 0 or 1, changes nothing else, and leaves the focus as it is otherwise |
| GridNav.MovesKeepNavOk | src/lib/stores/grid.ts:254-362 | from a well-formed position no move raises, and every move gives a well-formed position (column exists, task within the column or the title, top bar in -1..2, top bar only above the title) |
| GridNav.TopBarStaysInRange | src/lib/stores/grid.ts:342-362 | the top-bar index stays within -1..2 |
| GridNav.DownThenUpFromTopBar | src/lib/stores/grid.ts:306-328 | down from the top bar and back up lands on its first button |
| GridNav.UpThenDownReturns | src/lib/stores/grid.ts:313-333 | up then down from task k > 0 returns to k |
| GridStore.SaveRequest | src/lib/stores/grid.ts:429-519 | the branch of `saveEdit`. A new task with non-blank text is created with the trimmed text at the resolved position. An existing task with non-blank text is updated with the untrimmed draft. An existing task with a blank draft is deleted. Anything else makes no call |
| GridStore.SaveRequestByDraft | src/lib/stores/grid.ts:497 | a delete happens exactly for an existing task whose draft is all white space; a created task's text neither starts nor ends with white space |
| GridStore.FocusOn | src/lib/stores/grid.ts:466-475 | the focus moves onto the new task when the refreshed list shows it, and otherwise stays; the column and task are the first matches, as `findIndex` gives |
| GridStore.FocusOnIsNavOk | src/lib/stores/grid.ts:473 | focusing a task found in the list gives a well-formed position |
| GridStore.FirstSelection | src/lib/stores/grid.ts:94-98 | the first project's first task, or its title when it has none; a well-formed position |
| GridStore.Store.constructor | src/lib/stores/grid.ts:46-58 | the initial stores |
| GridStore.Store.LoadData | src/lib/stores/grid.ts:77-105 | on success the projects are replaced and, when there are any, the first is selected; on failure only the error is set; loading ends false |
| GridStore.Store.CreateProject | src/lib/stores/grid.ts:110-133 | the created project is added last with no tasks; a failure records the error and is passed on |
| GridStore.Store.UpdateProject | src/lib/stores/grid.ts:139-151 | on success the local copy is renamed as in `Renamed` |
| GridStore.Store.DeleteProject | src/lib/stores/grid.ts:156-164 | on success the project is dropped locally |
| GridStore.Store.CreateTask | src/lib/stores/grid.ts:169-198 | an insert reloads the project's tasks, and an append adds the reply sorted by position. It succeeds exactly when the calls it makes succeed; a failure changes nothing but the error |
| GridStore.Store.ApplyTaskReply | src/lib/stores/grid.ts:203-230 | `updateTask` and `toggleTask`: the reply replaces the task with that id in every project |
| GridStore.Store.DeleteTask | src/lib/stores/grid.ts:235-246 | the task is dropped from every project on success |
| GridStore.Store.MoveRight | src/lib/stores/grid.ts:254-274 | the focus follows `NextRight`; the menu flag is set exactly when the menu opens |
| GridStore.Store.MoveLeft | src/lib/stores/grid.ts:279-295 | the focus follows `NextLeft`; a TypeError leaves it as it was |
| GridStore.Store.MoveDown | src/lib/stores/grid.ts:300-319 | the focus follows `NextDown` over the current task counts |
| GridStore.Store.MoveUp | src/lib/stores/grid.ts:324-337 | the focus follows `NextUp` |
| GridStore.Store.MoveTopBarLeft | src/lib/stores/grid.ts:342-349 | the focus follows `NextTopBarLeft` |
| GridStore.Store.MoveTopBarRight | src/lib/stores/grid.ts:354-362 | the focus follows `NextTopBarRight` |
| GridStore.Store.SetPosition | src/lib/stores/grid.ts:367-369 | the focus is set as given, unchecked; the top bar defaults to -1 |
| GridStore.Store.StartEdit | src/lib/stores/grid.ts:384-393 | editing the task with its current content |
| GridStore.Store.StartNewTask | src/lib/stores/grid.ts:401-410 | editing a new task of the project with an empty draft; the position and the task to insert after default to none |
| GridStore.Store.UpdateDraft | src/lib/stores/grid.ts:415-424 | only the draft changes |
| GridStore.Store.CancelEdit | src/lib/stores/grid.ts:524-533 | the edit state is cleared |
| GridStore.Store.SaveEdit | src/lib/stores/grid.ts:429-519 | makes the call `SaveRequest` chooses and applies its reply as the matching action does. After a create, the focus moves to the new task. Every successful branch clears the edit state; a failed call leaves the edit open and records, and returns, the failing reply's message (the task reply's, or the reload's when only that failed) |

## Left out

- I/O, timing and concurrency: the API client, `Promise.all` in `loadData`, the debounced autosave that `updateDraft` schedules, and the race between the maximum read and the INSERT in the untransacted `createProject`. API replies are inputs; the autosave is not modelled.
- Store failures other than uniqueness, the foreign key and missing ids: a single `storeFault` input fails `createTask` after all its writes and rolls it back. The other operations are not given I/O faults.
- Tasks.CreateTask: a store failure is modelled at one point only, after the writes; a failure in the middle also rolls back to the same state.
- Generated ids, `created_at`, `updated_at` and `goal_step_count`: ids are inputs and the other three are not modelled.
- The users table and the foreign key from projects to users: a project's owner is any id.
- Positions are integers. JavaScript numbers that are not integers, and request values of other JSON types, are not modelled. `ProjectRoute.StorePosition` gives such a value no store position, and `ProjectRoute.StoreGoal` gives a description of another JSON type no stored value.
- The SQL text of the UPDATE builder is modelled as a list of assignments with parameter numbers, not as a string.
- Binding a JavaScript boolean through the SQLite driver (for `is_completed`) is taken to store the flag; the driver's own conversion rules are not part of this model.
- Tasks.GetTasksByUserId: the order of the result (`ORDER BY p.position, t.position`) is built by the join but not stated in the contract; only membership is.
- String lengths are counted in characters, not in UTF-16 code units as JavaScript counts them.
- JavaScript's `trim` and `\s` are modelled by the fixed set of ECMAScript white-space and line-terminator code points.
- The schema file is not part of this model. Uniqueness of `(scope, position)` and the task-to-project cascade come from the code's comments; the defaults of `is_completed` (false) and `how_explanation` (NULL) are assumed.
- `newTaskPosition` in the edit state is stored but never read by `saveEdit`; it is modelled as stored.
- The derived stores `currentProject` and `currentTask` are not modelled; navigation reads the task counts directly.
- password.ts hashing (bcrypt), JWT handling, the auth helpers and routes other than `POST /api/projects` are not part of this model.

## Findings

| source | as written | input that shows it | evidently intended | confidence | as-written member | corrected member |
|---|---|---|---|---|---|---|
| src/lib/db/tasks.ts:231-236 (and src/lib/db/projects.ts:119-124) | each `UPDATE ... SET position = i` runs while the row that holds `i` has not moved yet, so with `UNIQUE(scope, position)` any reorder of a scope numbered 0..n-1 that changes something hits a UNIQUE violation and rolls back | tasks `a` at 0 and `b` at 1, reorder `[b, a]`: the first write gives `b` position 0, still held by `a` | every listed row ends at its index (moving rows out of the way first, as `createTask` does for its shift) | not executed | Tables.Table.Reorder (with Tables.PlainReorderChangesNothing, Tables.SwapOfTwoCollides) | Tables.Table.ReorderStaged |
