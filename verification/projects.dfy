/**
 * Project operations: projects (and goals) are rows of the project table
 * scoped by `user_id`. Unlike a task, a project created at an explicit
 * position is inserted there as is: nothing is shifted, and a position that
 * is already taken makes the INSERT fail. Creation runs without a
 * transaction.
 */
module Projects {
  import opened Wrappers
  import opened Tables
  import opened Schema

  /** `getProjectsByUserId`: the user's projects, in position order. */
  function GetProjectsByUserId(projects: seq<ProjectRow>, userId: Id): (r: seq<ProjectRow>)
    ensures forall x | x in r :: x in projects && x.scope == userId
    ensures forall x | x in projects && x.scope == userId :: x in r
    ensures Ordering.Sorted(r, PositionOf)
  {
    ListScope(projects, userId)
  }

  /** `getProjectById`. */
  function GetProjectById(projects: seq<ProjectRow>, projectId: Id): (r: Option<ProjectRow>)
    ensures r.Some? <==> HasId(projects, projectId)
    ensures r.Some? ==> r.value in projects && r.value.id == projectId
  {
    FindById(projects, projectId)
  }

  /** `countUserProjects`. */
  function CountUserProjects(projects: seq<ProjectRow>, userId: Id): nat {
    CountScope(projects, userId)
  }

  /** The count query agrees with the length of the listing query. */
  lemma CountUserProjectsIsListingLength(projects: seq<ProjectRow>, userId: Id)
    ensures CountUserProjects(projects, userId) == |GetProjectsByUserId(projects, userId)|
  {
    CountScopeIsListingLength(projects, userId);
  }

  /** `goalDescription || null`: an absent or empty description is stored as NULL. */
  function StoredGoal(goalDescription: Option<string>): (r: Option<string>)
    ensures r.None? <==> goalDescription.None? || goalDescription.value == ""
    ensures r.Some? ==> r == goalDescription
  {
    if goalDescription.Some? && goalDescription.value != "" then goalDescription else None
  }

  /** The row the INSERT adds; the type defaults to `'project'` when not given. */
  function NewProject(id: Id, userId: Id, name: string, pos: int, kind: Option<ProjectType>,
                      goalDescription: Option<string>): (r: ProjectRow)
    ensures r.id == id && r.scope == userId && r.position == pos && r.payload.name == name
    ensures r.payload.kind == if kind.Some? then kind.value else ProjectKind
    ensures r.payload.goalDescription == StoredGoal(goalDescription)
  {
    Row(id, userId, pos, ProjectFields(name, if kind.Some? then kind.value else ProjectKind, StoredGoal(goalDescription)))
  }

  /**
   * `createProject`: with no position, read one above the user's highest
   * position; INSERT the project at the position; read it back by
   * `(user_id, position)`.
   */
  method CreateProject(projects: Table<ProjectFields>, userId: Id, name: string, position: Option<int>,
                       kind: Option<ProjectType>, goalDescription: Option<string>, newId: Id)
    returns (r: Result<ProjectRow, DbError>)
    requires projects.Valid()
    modifies projects`rows
    ensures projects.Valid()
    ensures r.Success? <==>
      !HasId(old(projects.rows), newId) &&
      SlotFree(old(projects.rows), |old(projects.rows)|, userId, TargetPosition(old(projects.rows), userId, position))
    ensures position.None? ==> (r.Success? <==> !HasId(old(projects.rows), newId))
    ensures r.Failure? ==> r.error == UniqueViolation && projects.rows == old(projects.rows)
    ensures r.Success? ==>
      && r.value == NewProject(newId, userId, name, TargetPosition(old(projects.rows), userId, position), kind, goalDescription)
      && projects.rows == old(projects.rows) + [r.value]
  {
    var pos: int;
    if position.None? {
      pos := NextPosition(projects.rows, userId);
    } else {
      pos := position.value;
    }
    var row := NewProject(newId, userId, name, pos, kind, goalDescription);
    var ok := projects.Insert(row);
    if !ok {
      return Failure(UniqueViolation);
    }
    var found := FindAt(projects.rows, userId, pos);
    assert found.Some? by {
      assert !SlotFree(projects.rows, |projects.rows|, userId, pos) by {
        assert projects.rows[|projects.rows| - 1] == row;
      }
    }
    KeyIdentifiesRow(old(projects.rows), row, found.value);
    r := Success(found.value);
  }

  /** `reorderProjects`: the reorder loop over the projects of one user. */
  method ReorderProjects(projects: Table<ProjectFields>, userId: Id, projectIdsInOrder: seq<Id>)
    returns (r: Result<(), DbError>)
    requires projects.Valid()
    modifies projects
    ensures projects.Valid()
    ensures r.Success? == ReorderWritesFree(old(projects.rows), userId, projectIdsInOrder, false)
    ensures r.Failure? ==> r.error == UniqueViolation
    ensures projects.rows ==
      if r.Success? then Placed(old(projects.rows), userId, projectIdsInOrder, false) else old(projects.rows)
  {
    r := projects.Reorder(userId, projectIdsInOrder);
  }

  /**
   * `deleteProject`: the project goes, and with it (the foreign key cascades)
   * its tasks; no other project is renumbered.
   */
  method DeleteProject(projects: Table<ProjectFields>, tasks: Table<TaskFields>, projectId: Id)
    requires projects.Valid() && tasks.Valid()
    modifies projects`rows, tasks`rows
    ensures projects.Valid() && tasks.Valid()
    ensures projects.rows == Filter(old(projects.rows), IdIs(projectId), false)
    ensures tasks.rows ==
      if HasId(old(projects.rows), projectId) then Filter(old(tasks.rows), ScopeIs(projectId), false) else old(tasks.rows)
    ensures Linked(old(tasks.rows), old(projects.rows)) ==> Linked(tasks.rows, projects.rows)
  {
    var existed := HasId(projects.rows, projectId);
    projects.DeleteWhere(IdIs(projectId));
    if existed {
      tasks.DeleteWhere(ScopeIs(projectId));
    }
    LinkedAfterDelete(old(tasks.rows), old(projects.rows), projectId);
  }

  /** The cascade keeps every remaining task linked to a remaining project. */
  lemma LinkedAfterDelete(tasks: seq<TaskRow>, projects: seq<ProjectRow>, projectId: Id)
    ensures Linked(tasks, projects) ==> Linked(
      if HasId(projects, projectId) then Filter(tasks, ScopeIs(projectId), false) else tasks,
      Filter(projects, IdIs(projectId), false))
  {
    if !Linked(tasks, projects) {
      return;
    }
    var ps := Filter(projects, IdIs(projectId), false);
    var ts := if HasId(projects, projectId) then Filter(tasks, ScopeIs(projectId), false) else tasks;
    forall k | 0 <= k < |ts| ensures HasId(ps, ts[k].scope) {
      var t := ts[k];
      assert t in tasks;
      var j :| 0 <= j < |tasks| && tasks[j] == t;
      var m :| 0 <= m < |projects| && projects[m].id == t.scope;
      assert projects[m] in ps;
      var n :| 0 <= n < |ps| && ps[n] == projects[m];
    }
  }

  function WithName(f: ProjectFields, name: string): ProjectFields {
    f.(name := name)
  }

  function WithGoal(f: ProjectFields, goalDescription: string): ProjectFields {
    f.(goalDescription := Some(goalDescription))
  }

  /** `updateProjectName`: set the name of one project and read it back. */
  method UpdateProjectName(projects: Table<ProjectFields>, projectId: Id, name: string) returns (r: Option<ProjectRow>)
    requires projects.Valid()
    modifies projects`rows
    ensures projects.Valid()
    ensures projects.rows == PatchWhere(old(projects.rows), projectId, f => WithName(f, name))
    ensures r.Some? <==> HasId(old(projects.rows), projectId)
    ensures r.Some? ==> r.value == FindById(old(projects.rows), projectId).value.(payload := WithName(FindById(old(projects.rows), projectId).value.payload, name))
  {
    projects.PatchPayload(projectId, f => WithName(f, name));
    FindAfterPatch(old(projects.rows), projectId, f => WithName(f, name));
    r := FindById(projects.rows, projectId);
  }

  /** `updateGoalDescription`: the description is stored as given, an empty one included. */
  method UpdateGoalDescription(projects: Table<ProjectFields>, projectId: Id, goalDescription: string)
    returns (r: Option<ProjectRow>)
    requires projects.Valid()
    modifies projects`rows
    ensures projects.Valid()
    ensures projects.rows == PatchWhere(old(projects.rows), projectId, f => WithGoal(f, goalDescription))
    ensures r.Some? <==> HasId(old(projects.rows), projectId)
    ensures r.Some? ==> r.value == FindById(old(projects.rows), projectId).value.(payload := WithGoal(FindById(old(projects.rows), projectId).value.payload, goalDescription))
  {
    projects.PatchPayload(projectId, f => WithGoal(f, goalDescription));
    FindAfterPatch(old(projects.rows), projectId, f => WithGoal(f, goalDescription));
    r := FindById(projects.rows, projectId);
  }

  /** A field update changes one field of one row and nothing else. */
  lemma FieldUpdateChangesOneField(projects: seq<ProjectRow>, projectId: Id, name: string, goal: string)
    ensures forall k | 0 <= k < |projects| ::
      var x := PatchWhere(projects, projectId, f => WithName(f, name))[k];
      var y := projects[k];
      if y.id == projectId then x == y.(payload := y.payload.(name := name)) else x == y
    ensures forall k | 0 <= k < |projects| ::
      var x := PatchWhere(projects, projectId, f => WithGoal(f, goal))[k];
      var y := projects[k];
      if y.id == projectId then x == y.(payload := y.payload.(goalDescription := Some(goal))) else x == y
  {
  }
}
