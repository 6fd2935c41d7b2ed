/**
 * The two ordered tables of the store. A task row is scoped by its project
 * (`project_id`), a project row by its owner (`user_id`); both carry an
 * integer `position` that orders them inside their scope.
 */
module Schema {
  import opened Wrappers
  import opened Tables

  /** `'project' | 'goal'`. */
  datatype ProjectType = ProjectKind | GoalKind

  /** The column values of a project type. */
  function TypeName(t: ProjectType): (r: string)
    ensures |r| > 0
  {
    match t
    case ProjectKind => "project"
    case GoalKind => "goal"
  }

  /** The project type a string names, if any. */
  function ParseType(s: string): (r: Option<ProjectType>)
    ensures r.Some? ==> TypeName(r.value) == s
    ensures r.None? ==> s != "project" && s != "goal"
  {
    if s == "project" then Some(ProjectKind)
    else if s == "goal" then Some(GoalKind)
    else None
  }

  lemma TypeNameRoundTrip(t: ProjectType)
    ensures ParseType(TypeName(t)) == Some(t)
  {
  }

  /** The task columns besides id, project_id and position. */
  datatype TaskFields = TaskFields(content: string, isCompleted: bool, howExplanation: Option<string>)

  /** The project columns besides id, user_id and position. */
  datatype ProjectFields = ProjectFields(name: string, kind: ProjectType, goalDescription: Option<string>)

  type TaskRow = Row<TaskFields>
  type ProjectRow = Row<ProjectFields>

  /** The foreign key `tasks.project_id -> projects.id`: every task names an existing project. */
  ghost predicate Linked(tasks: seq<TaskRow>, projects: seq<ProjectRow>) {
    forall k | 0 <= k < |tasks| :: HasId(projects, tasks[k].scope)
  }
}
