/**
 * Task operations: tasks are rows of the task table scoped by `project_id`.
 * Creating a task either appends it after the highest position of its
 * project or inserts it at a given position after shifting the tasks at or
 * above that position up by one, in two UPDATE statements that pass through
 * negative positions.
 */
module Tasks {
  import opened Wrappers
  import opened Tables
  import opened Schema

  // ---------------------------------------------------------------------------
  // The two-step shift
  // ---------------------------------------------------------------------------

  /** The intended effect of the shift: every task of `s` at or above `p` moves up by one. */
  function ShiftedUp<P>(rows: seq<Row<P>>, s: Id, p: int): (r: seq<Row<P>>)
    ensures |r| == |rows|
  {
    seq(|rows|, k requires 0 <= k < |rows| =>
      if rows[k].scope == s && rows[k].position >= p then rows[k].(position := rows[k].position + 1) else rows[k])
  }

  /** Step 1: `UPDATE tasks SET position = -position - 1000 WHERE project_id = s AND position >= p`. */
  function ShiftOut<P>(rows: seq<Row<P>>, s: Id, p: int): (r: seq<Row<P>>)
    ensures |r| == |rows|
  {
    Rewrite(rows, s, AtLeast(p), 1000, Upto(|rows|))
  }

  /** Step 2: `UPDATE tasks SET position = -position - 999 WHERE project_id = s AND position < 0`. */
  function ShiftBack<P>(rows: seq<Row<P>>, s: Id): (r: seq<Row<P>>)
    ensures |r| == |rows|
  {
    Rewrite(rows, s, Below(0), 999, Upto(|rows|))
  }

  /**
   * Whatever subset of its rows step 1 has rewritten, no two rows of a
   * scope share a position, provided the scope started with distinct
   * non-negative positions.
   */
  lemma ShiftOutPartialUnique<P>(rows: seq<Row<P>>, s: Id, p: int, done: set<int>)
    requires KeysUnique(rows) && NonNegativeIn(rows, s)
    ensures KeysUnique(Rewrite(rows, s, AtLeast(p), 1000, done))
  {
    var q := Rewrite(rows, s, AtLeast(p), 1000, done);
    forall i, j | 0 <= i < j < |q| && q[i].scope == q[j].scope
      ensures q[i].position != q[j].position
    {
      assert rows[i].scope == q[i].scope && rows[j].scope == q[j].scope;
      assert rows[i].position != rows[j].position;
    }
  }

  /** The same for step 2, starting from the rows step 1 produced. */
  lemma ShiftBackPartialUnique<P>(rows: seq<Row<P>>, s: Id, p: int, done: set<int>)
    requires KeysUnique(rows) && NonNegativeIn(rows, s)
    ensures KeysUnique(Rewrite(ShiftOut(rows, s, p), s, Below(0), 999, done))
  {
    var mid := ShiftOut(rows, s, p);
    var q := Rewrite(mid, s, Below(0), 999, done);
    forall i, j | 0 <= i < j < |q| && q[i].scope == q[j].scope
      ensures q[i].position != q[j].position
    {
      assert rows[i].scope == q[i].scope && rows[j].scope == q[j].scope;
      assert rows[i].position != rows[j].position;
    }
  }

  /** Neither step has a row write that the uniqueness check refuses, in whatever order the rows are visited. */
  lemma TwoStepWritesFree<P>(rows: seq<Row<P>>, s: Id, p: int)
    requires KeysUnique(rows) && NonNegativeIn(rows, s)
    ensures AnyOrderFree(rows, s, AtLeast(p), 1000) && RowByRowFree(rows, s, AtLeast(p), 1000)
    ensures AnyOrderFree(ShiftOut(rows, s, p), s, Below(0), 999) && RowByRowFree(ShiftOut(rows, s, p), s, Below(0), 999)
  {
    forall done: set<int> ensures KeysUnique(Rewrite(rows, s, AtLeast(p), 1000, done)) {
      ShiftOutPartialUnique(rows, s, p, done);
    }
    FreeWhenEveryPartialStateUnique(rows, s, AtLeast(p), 1000);
    forall done: set<int> ensures KeysUnique(Rewrite(ShiftOut(rows, s, p), s, Below(0), 999, done)) {
      ShiftBackPartialUnique(rows, s, p, done);
    }
    FreeWhenEveryPartialStateUnique(ShiftOut(rows, s, p), s, Below(0), 999);
  }

  /** The two steps together move every task of `s` at or above `p` up by one and touch nothing else. */
  lemma TwoStepIsShiftUp<P>(rows: seq<Row<P>>, s: Id, p: int)
    requires NonNegativeIn(rows, s)
    ensures ShiftBack(ShiftOut(rows, s, p), s) == ShiftedUp(rows, s, p)
  {
    var mid := ShiftOut(rows, s, p);
    assert forall k | 0 <= k < |rows| :: ShiftBack(mid, s)[k] == ShiftedUp(rows, s, p)[k];
  }

  /**
   * The shift keeps positions unique and the relative order of the tasks of
   * `s`, frees position `p` in `s`, and changes no id, scope or payload.
   */
  lemma ShiftedUpProperties<P>(rows: seq<Row<P>>, s: Id, p: int)
    ensures KeysUnique(rows) ==> KeysUnique(ShiftedUp(rows, s, p))
    ensures IdsUnique(rows) ==> IdsUnique(ShiftedUp(rows, s, p))
    ensures SlotFree(ShiftedUp(rows, s, p), |rows|, s, p)
    ensures forall i, j | 0 <= i < |rows| && 0 <= j < |rows| && rows[i].scope == s && rows[j].scope == s ::
      (rows[i].position < rows[j].position <==> ShiftedUp(rows, s, p)[i].position < ShiftedUp(rows, s, p)[j].position)
    ensures forall k | 0 <= k < |rows| ::
      var x := ShiftedUp(rows, s, p)[k];
      x.id == rows[k].id && x.scope == rows[k].scope && x.payload == rows[k].payload
  {
  }

  // ---------------------------------------------------------------------------
  // createTask
  // ---------------------------------------------------------------------------

  /** The row the INSERT adds: `is_completed` and `how_explanation` take their defaults. */
  function NewTask(id: Id, projectId: Id, content: string, pos: int): (r: TaskRow)
    ensures r.id == id && r.scope == projectId && r.position == pos
    ensures r.payload == TaskFields(content, false, None)
  {
    Row(id, projectId, pos, TaskFields(content, false, None))
  }

  /** The rows after the statements that run before the INSERT. */
  function Prepared<P>(rows: seq<Row<P>>, projectId: Id, position: Option<int>): (r: seq<Row<P>>)
    ensures |r| == |rows|
  {
    match position
    case None => rows
    case Some(p) => ShiftBack(ShiftOut(rows, projectId, p), projectId)
  }

  /** Every statement of the transaction passes the store's constraints. */
  ghost predicate CreateTaskAdmitted(tasks: seq<TaskRow>, projects: seq<ProjectRow>, projectId: Id,
                                     position: Option<int>, newId: Id)
  {
    && (position.Some? ==>
          RowByRowFree(tasks, projectId, AtLeast(position.value), 1000) &&
          RowByRowFree(ShiftOut(tasks, projectId, position.value), projectId, Below(0), 999))
    && HasId(projects, projectId)
    && !HasId(Prepared(tasks, projectId, position), newId)
    && SlotFree(Prepared(tasks, projectId, position), |tasks|, projectId, TargetPosition(tasks, projectId, position))
  }

  /**
   * `createTask`: BEGIN; with no position, read one above the highest
   * position of the project; otherwise run the two shift statements; INSERT
   * the task; read it back by `(project_id, position)`; COMMIT. Any failure
   * rolls the transaction back. `storeFault` stands for a failure of the
   * store itself, taken after every write of the transaction.
   */
  method CreateTask(tasks: Table<TaskFields>, projects: Table<ProjectFields>, projectId: Id, content: string,
                    position: Option<int>, newId: Id, storeFault: bool)
    returns (r: Result<TaskRow, DbError>)
    requires tasks.Valid()
    modifies tasks
    ensures tasks.Valid()
    ensures r.Success? <==> !storeFault && CreateTaskAdmitted(old(tasks.rows), projects.rows, projectId, position, newId)
    ensures r.Failure? ==> tasks.rows == old(tasks.rows)
    ensures r.Success? ==>
      var t := TargetPosition(old(tasks.rows), projectId, position);
      && r.value == NewTask(newId, projectId, content, t)
      && tasks.rows == Prepared(old(tasks.rows), projectId, position) + [r.value]
    ensures Linked(old(tasks.rows), projects.rows) ==> Linked(tasks.rows, projects.rows)
  {
    tasks.Begin();
    var pos: int;
    if position.None? {
      pos := NextPosition(tasks.rows, projectId);
    } else {
      pos := position.value;
      var ok := tasks.UpdatePositions(projectId, AtLeast(pos), 1000);
      if !ok {
        tasks.Rollback();
        return Failure(UniqueViolation);
      }
      ok := tasks.UpdatePositions(projectId, Below(0), 999);
      if !ok {
        tasks.Rollback();
        return Failure(UniqueViolation);
      }
    }
    if !HasId(projects.rows, projectId) {
      tasks.Rollback();
      return Failure(ForeignKeyViolation);
    }
    var row := NewTask(newId, projectId, content, pos);
    var ok := tasks.Insert(row);
    if !ok {
      tasks.Rollback();
      return Failure(UniqueViolation);
    }
    var found := FindAt(tasks.rows, projectId, pos);
    if storeFault {
      tasks.Rollback();
      return Failure(IoFailure);
    }
    assert found.Some? by {
      assert !SlotFree(tasks.rows, |tasks.rows|, projectId, pos) by {
        assert tasks.rows[|tasks.rows| - 1] == row;
      }
    }
    KeyIdentifiesRow(tasks.rows[..|tasks.rows| - 1], row, found.value);
    LinkedAfterCreate(old(tasks.rows), projects.rows, projectId, position, row);
    r := Success(found.value);
  }

  /** Creating a task in an existing project keeps every task linked to its project. */
  lemma LinkedAfterCreate(tasks: seq<TaskRow>, projects: seq<ProjectRow>, projectId: Id,
                          position: Option<int>, row: TaskRow)
    requires HasId(projects, projectId) && row.scope == projectId
    ensures Linked(tasks, projects) ==> Linked(Prepared(tasks, projectId, position) + [row], projects)
  {
    var after := Prepared(tasks, projectId, position) + [row];
    assert forall k | 0 <= k < |tasks| :: after[k].scope == tasks[k].scope;
  }

  /**
   * When the project's positions are non-negative, the transaction is refused
   * only for a missing project or a taken id, and the statements before the
   * INSERT amount to the one-step shift.
   */
  lemma CreateTaskAdmittedWhenNonNegative(tasks: seq<TaskRow>, projects: seq<ProjectRow>, projectId: Id,
                                          position: Option<int>, newId: Id)
    requires KeysUnique(tasks) && NonNegativeIn(tasks, projectId)
    ensures CreateTaskAdmitted(tasks, projects, projectId, position, newId) <==>
      HasId(projects, projectId) && !HasId(tasks, newId)
    ensures Prepared(tasks, projectId, position) ==
      if position.Some? then ShiftedUp(tasks, projectId, position.value) else tasks
  {
    var prep := Prepared(tasks, projectId, position);
    if position.Some? {
      TwoStepWritesFree(tasks, projectId, position.value);
      TwoStepIsShiftUp(tasks, projectId, position.value);
      ShiftedUpProperties(tasks, projectId, position.value);
    }
    assert forall k | 0 <= k < |tasks| :: prep[k].id == tasks[k].id;
    assert HasId(prep, newId) <==> HasId(tasks, newId);
  }

  // ---------------------------------------------------------------------------
  // Reads
  // ---------------------------------------------------------------------------

  /** `getTasksByProjectId`: the project's tasks, in position order. */
  function GetTasksByProjectId(tasks: seq<TaskRow>, projectId: Id): (r: seq<TaskRow>)
    ensures forall x | x in r :: x in tasks && x.scope == projectId
    ensures forall x | x in tasks && x.scope == projectId :: x in r
    ensures Ordering.Sorted(r, PositionOf)
  {
    ListScope(tasks, projectId)
  }

  /** On a well-formed table the listing is strictly ascending: no two tasks share a slot. */
  lemma TaskListingStrictlyAscending(tasks: seq<TaskRow>, projectId: Id)
    requires KeysUnique(tasks) && IdsUnique(tasks)
    ensures Ordering.StrictlyAscending(GetTasksByProjectId(tasks, projectId), PositionOf)
  {
    ListScopeStrictlyAscending(tasks, projectId);
  }

  /** `getTaskById`. */
  function GetTaskById(tasks: seq<TaskRow>, taskId: Id): (r: Option<TaskRow>)
    ensures r.Some? <==> HasId(tasks, taskId)
    ensures r.Some? ==> r.value in tasks && r.value.id == taskId
  {
    FindById(tasks, taskId)
  }

  /** `countProjectTasks`. */
  function CountProjectTasks(tasks: seq<TaskRow>, projectId: Id): nat {
    CountScope(tasks, projectId)
  }

  /** The count query agrees with the length of the listing query. */
  lemma CountProjectTasksIsListingLength(tasks: seq<TaskRow>, projectId: Id)
    ensures CountProjectTasks(tasks, projectId) == |GetTasksByProjectId(tasks, projectId)|
  {
    CountScopeIsListingLength(tasks, projectId);
  }

  /**
   * `getTasksByUserId`: the tasks of the user's projects, project by project
   * in the order of the projects' positions, each project's tasks in the
   * order of their positions.
   */
  function GetTasksByUserId(tasks: seq<TaskRow>, projects: seq<ProjectRow>, userId: Id): (r: seq<TaskRow>)
    ensures forall x | x in r :: x in tasks && exists k | 0 <= k < |projects| :: OwnedBy(projects[k], userId, x)
    ensures forall x | x in tasks && (exists k | 0 <= k < |projects| :: OwnedBy(projects[k], userId, x)) :: x in r
  {
    var owned := ListScope(projects, userId);
    JoinTasks(owned, tasks)
  }

  /** The join condition `t.project_id = p.id AND p.user_id = $1`. */
  predicate OwnedBy(p: ProjectRow, userId: Id, t: TaskRow) {
    p.scope == userId && p.id == t.scope
  }

  function JoinTasks(ps: seq<ProjectRow>, tasks: seq<TaskRow>): (r: seq<TaskRow>)
    ensures forall x | x in r :: x in tasks && exists p | p in ps :: p.id == x.scope
    ensures forall x | x in tasks && (exists p | p in ps :: p.id == x.scope) :: x in r
  {
    if ps == [] then []
    else
      var head := ListScope(tasks, ps[0].id);
      var rest := JoinTasks(ps[1..], tasks);
      assert forall p | p in ps :: p == ps[0] || p in ps[1..];
      head + rest
  }

  /** `countUserTasks`: `COUNT(*)` over the same join, project by project. */
  function CountUserTasks(tasks: seq<TaskRow>, projects: seq<ProjectRow>, userId: Id): nat {
    CountJoined(ListScope(projects, userId), tasks)
  }

  function CountJoined(ps: seq<ProjectRow>, tasks: seq<TaskRow>): nat {
    if ps == [] then 0 else CountScope(tasks, ps[0].id) + CountJoined(ps[1..], tasks)
  }

  /** The count query agrees with the length of the listing query. */
  lemma CountUserTasksIsListingLength(tasks: seq<TaskRow>, projects: seq<ProjectRow>, userId: Id)
    ensures CountUserTasks(tasks, projects, userId) == |GetTasksByUserId(tasks, projects, userId)|
  {
    CountJoinedIsJoinLength(ListScope(projects, userId), tasks);
  }

  lemma {:induction false} CountJoinedIsJoinLength(ps: seq<ProjectRow>, tasks: seq<TaskRow>)
    ensures CountJoined(ps, tasks) == |JoinTasks(ps, tasks)|
    decreases |ps|
  {
    if ps != [] {
      CountJoinedIsJoinLength(ps[1..], tasks);
    }
  }

  /**
   * `getProjectTaskHistory`: the contents of the project's tasks in position
   * order, at most `limit` of them (50 when not given); a negative limit, as
   * SQLite reads `LIMIT`, means no limit.
   */
  function GetProjectTaskHistory(tasks: seq<TaskRow>, projectId: Id, limit: Option<int>): (r: seq<string>)
    ensures var all := ListScope(tasks, projectId);
      var n := if limit.None? then 50 else limit.value;
      && |r| == (if 0 <= n < |all| then n else |all|)
      && forall i | 0 <= i < |r| :: r[i] == all[i].payload.content
  {
    var all := ListScope(tasks, projectId);
    var n := if limit.None? then 50 else limit.value;
    var kept := if 0 <= n < |all| then all[..n] else all;
    seq(|kept|, i requires 0 <= i < |kept| => kept[i].payload.content)
  }

  // ---------------------------------------------------------------------------
  // Writes
  // ---------------------------------------------------------------------------

  /** `reorderTasks`: the reorder loop over the tasks of one project. */
  method ReorderTasks(tasks: Table<TaskFields>, projectId: Id, taskIdsInOrder: seq<Id>) returns (r: Result<(), DbError>)
    requires tasks.Valid()
    modifies tasks
    ensures tasks.Valid()
    ensures r.Success? == ReorderWritesFree(old(tasks.rows), projectId, taskIdsInOrder, false)
    ensures r.Failure? ==> r.error == UniqueViolation
    ensures tasks.rows == if r.Success? then Placed(old(tasks.rows), projectId, taskIdsInOrder, false) else old(tasks.rows)
  {
    r := tasks.Reorder(projectId, taskIdsInOrder);
  }

  /** `deleteTask`: only the rows with that id go; no other task is renumbered. */
  method DeleteTask(tasks: Table<TaskFields>, taskId: Id)
    requires tasks.Valid()
    modifies tasks
    ensures tasks.Valid()
    ensures tasks.rows == Filter(old(tasks.rows), IdIs(taskId), false)
  {
    tasks.DeleteWhere(IdIs(taskId));
  }

  /**
   * After a delete, the listing of any project holds exactly its remaining
   * tasks, at their old positions, still strictly ascending.
   */
  lemma DeleteKeepsListing(tasks: seq<TaskRow>, taskId: Id, projectId: Id)
    requires KeysUnique(tasks) && IdsUnique(tasks)
    ensures var after := ListScope(Filter(tasks, IdIs(taskId), false), projectId);
      && Ordering.StrictlyAscending(after, PositionOf)
      && (forall x | x in after :: x in ListScope(tasks, projectId) && x.id != taskId)
      && (forall x | x in ListScope(tasks, projectId) && x.id != taskId :: x in after)
  {
    FilterKeepsUnique(tasks, IdIs(taskId), false);
    ListScopeStrictlyAscending(Filter(tasks, IdIs(taskId), false), projectId);
  }

  function WithContent(f: TaskFields, content: string): TaskFields {
    f.(content := content)
  }

  function WithCompletion(f: TaskFields, isCompleted: bool): TaskFields {
    f.(isCompleted := isCompleted)
  }

  /** `is_completed = NOT is_completed`. */
  function Toggled(f: TaskFields): TaskFields {
    f.(isCompleted := !f.isCompleted)
  }

  /** The row the read-back after a patch returns, or None when no task has that id. */
  function PatchedRow(rows: seq<TaskRow>, taskId: Id, g: TaskFields -> TaskFields): (r: Option<TaskRow>)
    ensures r.Some? <==> HasId(rows, taskId)
    ensures r.Some? ==> r.value.id == taskId && r.value == FindById(rows, taskId).value.(payload := g(FindById(rows, taskId).value.payload))
  {
    match FindById(rows, taskId)
    case None => None
    case Some(x) => Some(x.(payload := g(x.payload)))
  }

  /** `updateTaskContent`: set the content of one task and read it back. */
  method UpdateTaskContent(tasks: Table<TaskFields>, taskId: Id, content: string) returns (r: Option<TaskRow>)
    requires tasks.Valid()
    modifies tasks
    ensures tasks.Valid()
    ensures tasks.rows == PatchWhere(old(tasks.rows), taskId, f => WithContent(f, content))
    ensures r == PatchedRow(old(tasks.rows), taskId, f => WithContent(f, content))
  {
    tasks.PatchPayload(taskId, f => WithContent(f, content));
    FindAfterPatch(old(tasks.rows), taskId, f => WithContent(f, content));
    r := FindById(tasks.rows, taskId);
  }

  /** `setTaskCompletion`. */
  method SetTaskCompletion(tasks: Table<TaskFields>, taskId: Id, isCompleted: bool) returns (r: Option<TaskRow>)
    requires tasks.Valid()
    modifies tasks
    ensures tasks.Valid()
    ensures tasks.rows == PatchWhere(old(tasks.rows), taskId, f => WithCompletion(f, isCompleted))
    ensures r == PatchedRow(old(tasks.rows), taskId, f => WithCompletion(f, isCompleted))
  {
    tasks.PatchPayload(taskId, f => WithCompletion(f, isCompleted));
    FindAfterPatch(old(tasks.rows), taskId, f => WithCompletion(f, isCompleted));
    r := FindById(tasks.rows, taskId);
  }

  /** `toggleTaskCompletion`. */
  method ToggleTaskCompletion(tasks: Table<TaskFields>, taskId: Id) returns (r: Option<TaskRow>)
    requires tasks.Valid()
    modifies tasks
    ensures tasks.Valid()
    ensures tasks.rows == PatchWhere(old(tasks.rows), taskId, Toggled)
    ensures r == PatchedRow(old(tasks.rows), taskId, Toggled)
  {
    tasks.PatchPayload(taskId, Toggled);
    FindAfterPatch(old(tasks.rows), taskId, Toggled);
    r := FindById(tasks.rows, taskId);
  }

  /** Toggling a task twice restores the table. */
  lemma ToggleTwiceRestores(rows: seq<TaskRow>, taskId: Id)
    ensures PatchWhere(PatchWhere(rows, taskId, Toggled), taskId, Toggled) == rows
  {
    var twice := PatchWhere(PatchWhere(rows, taskId, Toggled), taskId, Toggled);
    var once := PatchWhere(rows, taskId, Toggled);
    forall k | 0 <= k < |rows| ensures twice[k] == rows[k] {
      assert once[k].id == rows[k].id;
      if rows[k].id == taskId {
        assert once[k].payload == Toggled(rows[k].payload);
      }
    }
  }

  // ---------------------------------------------------------------------------
  // updateTask
  // ---------------------------------------------------------------------------

  /** The fields a partial update may carry; `None` is a field left undefined. */
  datatype TaskUpdate = TaskUpdate(content: Option<string>, isCompleted: Option<bool>, howExplanation: Option<Option<string>>)

  datatype Column = ContentColumn | IsCompletedColumn | HowExplanationColumn

  datatype SqlValue = Text(text: string) | Flag(flag: bool) | Null

  /** One `column = $param` item of the SET clause. */
  datatype Assignment = Assignment(column: Column, param: nat)

  /** `UPDATE tasks SET <sets> WHERE id = $<idParam>` with its bound values. */
  datatype UpdateStatement = UpdateStatement(sets: seq<Assignment>, values: seq<SqlValue>, idParam: nat)

  /** The value bound to placeholder `$n`; the store binds placeholders by their order in the text. */
  function Bound(values: seq<SqlValue>, n: nat): Option<SqlValue> {
    if 1 <= n <= |values| then Some(values[n - 1]) else None
  }

  /** Placeholders run `$1..$n` in text order and there is one value for each. */
  predicate WellNumbered(stmt: UpdateStatement) {
    && (forall i | 0 <= i < |stmt.sets| :: stmt.sets[i].param == i + 1)
    && stmt.idParam == |stmt.sets| + 1
    && |stmt.values| == stmt.idParam
  }

  /** The intended effect of an update: every supplied field is replaced, the others are kept. */
  function Patched(f: TaskFields, d: TaskUpdate): TaskFields {
    TaskFields(
      if d.content.Some? then d.content.value else f.content,
      if d.isCompleted.Some? then d.isCompleted.value else f.isCompleted,
      if d.howExplanation.Some? then d.howExplanation.value else f.howExplanation)
  }

  function Assign(f: TaskFields, c: Column, v: SqlValue): TaskFields {
    match (c, v)
    case (ContentColumn, Text(t)) => f.(content := t)
    case (IsCompletedColumn, Flag(b)) => f.(isCompleted := b)
    case (HowExplanationColumn, Text(t)) => f.(howExplanation := Some(t))
    case (HowExplanationColumn, Null) => f.(howExplanation := None)
    case _ => f
  }

  /** One SET item, reading its placeholder's value. */
  function ApplySet(f: TaskFields, a: Assignment, values: seq<SqlValue>): TaskFields {
    match Bound(values, a.param)
    case Some(v) => Assign(f, a.column, v)
    case None => f
  }

  /** What the SET clause does to one row: its items from left to right. */
  function ApplySets(f: TaskFields, sets: seq<Assignment>, values: seq<SqlValue>): TaskFields
    decreases |sets|
  {
    if sets == [] then f
    else ApplySet(ApplySets(f, sets[..|sets| - 1], values), sets[|sets| - 1], values)
  }

  /** Values bound after every placeholder of the SET items do not change what the items do. */
  lemma {:induction false} ApplySetsIgnoresLaterValues(f: TaskFields, sets: seq<Assignment>, values: seq<SqlValue>, v: SqlValue)
    requires forall i | 0 <= i < |sets| :: 1 <= sets[i].param <= |values|
    ensures ApplySets(f, sets, values + [v]) == ApplySets(f, sets, values)
    decreases |sets|
  {
    if sets != [] {
      ApplySetsIgnoresLaterValues(f, sets[..|sets| - 1], values, v);
    }
  }

  /** One more SET item with the next placeholder and its value. */
  lemma PushSet(sets: seq<Assignment>, values: seq<SqlValue>, c: Column, v: SqlValue)
    requires |values| == |sets|
    requires forall i | 0 <= i < |sets| :: sets[i].param == i + 1
    ensures forall f ::
      ApplySets(f, sets + [Assignment(c, |sets| + 1)], values + [v]) == Assign(ApplySets(f, sets, values), c, v)
  {
    forall f ensures ApplySets(f, sets + [Assignment(c, |sets| + 1)], values + [v]) ==
      Assign(ApplySets(f, sets, values), c, v)
    {
      assert (sets + [Assignment(c, |sets| + 1)])[..|sets|] == sets;
      ApplySetsIgnoresLaterValues(f, sets, values, v);
    }
  }

  /**
   * The builder's state after some fields: the SET items so far are numbered
   * `$1..$n` with one value each, `paramCount` is the next placeholder, and
   * the items perform exactly the update `done`.
   */
  ghost predicate Building(sets: seq<Assignment>, values: seq<SqlValue>, paramCount: nat, done: TaskUpdate) {
    && |values| == |sets| && paramCount == |sets| + 1
    && (forall i | 0 <= i < |sets| :: sets[i].param == i + 1)
    && (forall f :: ApplySets(f, sets, values) == Patched(f, done))
  }

  /** Pushing the SET item of a field extends the update the builder performs by that field. */
  lemma StepPatched(sets: seq<Assignment>, values: seq<SqlValue>, paramCount: nat, c: Column, v: SqlValue,
                    d: TaskUpdate, d': TaskUpdate)
    requires Building(sets, values, paramCount, d)
    requires forall f :: Assign(Patched(f, d), c, v) == Patched(f, d')
    ensures Building(sets + [Assignment(c, paramCount)], values + [v], paramCount + 1, d')
  {
    PushSet(sets, values, c, v);
    var sets' := sets + [Assignment(c, paramCount)];
    assert forall i | 0 <= i < |sets'| :: sets'[i].param == i + 1 by {
      forall i | 0 <= i < |sets'| ensures sets'[i].param == i + 1 {
        if i < |sets| { assert sets'[i] == sets[i]; }
      }
    }
  }

  /** Binding the task id after the SET items completes a well-numbered statement. */
  lemma FinishStatement(sets: seq<Assignment>, values: seq<SqlValue>, paramCount: nat, done: TaskUpdate, taskId: Id)
    requires Building(sets, values, paramCount, done)
    ensures WellNumbered(UpdateStatement(sets, values + [Text(taskId)], paramCount))
    ensures Bound(values + [Text(taskId)], paramCount) == Some(Text(taskId))
    ensures forall f :: ApplySets(f, sets, values + [Text(taskId)]) == Patched(f, done)
  {
    forall f ensures ApplySets(f, sets, values + [Text(taskId)]) == Patched(f, done) {
      ApplySetsIgnoresLaterValues(f, sets, values, Text(taskId));
    }
  }

  lemma ContentPatched(d: TaskUpdate, t: string)
    ensures forall f :: Assign(Patched(f, d), ContentColumn, Text(t)) == Patched(f, d.(content := Some(t)))
  {
  }

  lemma CompletionPatched(d: TaskUpdate, b: bool)
    ensures forall f :: Assign(Patched(f, d), IsCompletedColumn, Flag(b)) == Patched(f, d.(isCompleted := Some(b)))
  {
  }

  lemma ExplanationPatched(d: TaskUpdate, h: Option<string>)
    ensures forall f :: Assign(Patched(f, d), HowExplanationColumn, ExplanationValue(h)) == Patched(f, d.(howExplanation := Some(h)))
  {
  }

  function ExplanationValue(h: Option<string>): SqlValue {
    if h.Some? then Text(h.value) else Null
  }

  /**
   * The statement `updateTask` builds: one SET item per supplied field, in
   * the order content, is_completed, how_explanation, numbered from `$1`;
   * the task id is bound to the placeholder after the last item.
   */
  method BuildTaskUpdate(taskId: Id, data: TaskUpdate) returns (r: Result<UpdateStatement, DbError>)
    ensures r.Failure? <==> data == TaskUpdate(None, None, None)
    ensures r.Failure? ==> r.error == NoValidFields
    ensures r.Success? ==> WellNumbered(r.value) && Bound(r.value.values, r.value.idParam) == Some(Text(taskId))
    ensures r.Success? ==> forall f :: ApplySets(f, r.value.sets, r.value.values) == Patched(f, data)
  {
    var updates: seq<Assignment> := [];
    var values: seq<SqlValue> := [];
    var paramCount := 1;
    ghost var done := TaskUpdate(None, None, None);
    assert Building(updates, values, paramCount, done);
    if data.content.Some? {
      var v := Text(data.content.value);
      ContentPatched(done, data.content.value);
      StepPatched(updates, values, paramCount, ContentColumn, v, done, done.(content := data.content));
      done := done.(content := data.content);
      updates := updates + [Assignment(ContentColumn, paramCount)];
      paramCount := paramCount + 1;
      values := values + [v];
    }
    if data.isCompleted.Some? {
      var v := Flag(data.isCompleted.value);
      CompletionPatched(done, data.isCompleted.value);
      StepPatched(updates, values, paramCount, IsCompletedColumn, v, done, done.(isCompleted := data.isCompleted));
      done := done.(isCompleted := data.isCompleted);
      updates := updates + [Assignment(IsCompletedColumn, paramCount)];
      paramCount := paramCount + 1;
      values := values + [v];
    }
    if data.howExplanation.Some? {
      var v := ExplanationValue(data.howExplanation.value);
      ExplanationPatched(done, data.howExplanation.value);
      StepPatched(updates, values, paramCount, HowExplanationColumn, v, done, done.(howExplanation := data.howExplanation));
      done := done.(howExplanation := data.howExplanation);
      updates := updates + [Assignment(HowExplanationColumn, paramCount)];
      paramCount := paramCount + 1;
      values := values + [v];
    }
    assert done == data;
    if |updates| == 0 {
      return Failure(NoValidFields);
    }
    FinishStatement(updates, values, paramCount, done, taskId);
    values := values + [Text(taskId)];
    r := Success(UpdateStatement(updates, values, paramCount));
  }

  /**
   * `updateTask`: build the statement, run it against the row whose id the
   * last placeholder carries, and read the task back.
   */
  method UpdateTask(tasks: Table<TaskFields>, taskId: Id, data: TaskUpdate) returns (r: Result<Option<TaskRow>, DbError>)
    requires tasks.Valid()
    modifies tasks
    ensures tasks.Valid()
    ensures r.Failure? <==> data == TaskUpdate(None, None, None)
    ensures r.Failure? ==> r.error == NoValidFields && tasks.rows == old(tasks.rows)
    ensures r.Success? ==> tasks.rows == PatchWhere(old(tasks.rows), taskId, f => Patched(f, data))
    ensures r.Success? ==> r.value == PatchedRow(old(tasks.rows), taskId, f => Patched(f, data))
  {
    var built := BuildTaskUpdate(taskId, data);
    if built.Failure? {
      return Failure(built.error);
    }
    var stmt := built.value;
    var id := stmt.values[stmt.idParam - 1].text;
    tasks.PatchPayload(id, f => ApplySets(f, stmt.sets, stmt.values));
    assert id == taskId;
    forall k | 0 <= k < |tasks.rows|
      ensures tasks.rows[k] == PatchWhere(old(tasks.rows), taskId, f => Patched(f, data))[k]
    {
      var p := old(tasks.rows)[k].payload;
      assert ApplySets(p, stmt.sets, stmt.values) == Patched(p, data);
    }
    FindAfterPatch(old(tasks.rows), taskId, f => Patched(f, data));
    r := Success(FindById(tasks.rows, taskId));
  }
}
