/**
 * The validation chain of `POST /api/projects`. The request body is a JSON
 * object whose fields may be missing or of any JSON type; the handler checks
 * the name, the type and (for goals) the description, in that order, and
 * answers 400 with the first failure, or hands the fields to project creation.
 */
module ProjectRoute {
  import opened Wrappers
  import opened Schema
  import opened Tables
  import Projects

  /** A field of the request body as JavaScript sees it. */
  datatype JsValue = Undefined | Null | Str(s: string) | Num(n: int) | Bool(b: bool) | Other

  /** JavaScript truthiness of a field. */
  predicate Truthy(v: JsValue) {
    match v
    case Undefined => false
    case Null => false
    case Str(s) => s != ""
    case Num(n) => n != 0
    case Bool(b) => b
    case Other => true
  }

  datatype Body = Body(name: JsValue, position: JsValue, kind: JsValue, goalDescription: JsValue)

  datatype Outcome =
    | BadRequest(message: string)
    | Create(name: string, position: JsValue, kind: ProjectType, goalDescription: JsValue)

  const NameRequired := "Project name is required"
  const NameTooLong := "Project name must be less than 255 characters"
  const BadType := "Type must be \"project\" or \"goal\""
  const GoalRequired := "Goal description is required for goal type"

  /** A usable name: a non-empty string. */
  predicate NamePresent(b: Body) { b.name.Str? && b.name.s != "" }

  /** The type after the destructuring default, which applies only to a missing field. */
  function KindOf(b: Body): (r: Option<ProjectType>)
    ensures r == Some(ProjectKind) <==> b.kind.Undefined? || b.kind == Str("project")
    ensures r == Some(GoalKind) <==> b.kind == Str("goal")
  {
    if b.kind.Undefined? then Some(ProjectKind)
    else if b.kind.Str? then ParseType(b.kind.s)
    else None
  }

  /** The handler's decision for one body. */
  function HandlePost(b: Body): (r: Outcome)
    ensures r.Create? <==>
      && NamePresent(b) && |b.name.s| <= 255 && KindOf(b).Some?
      && (KindOf(b) == Some(GoalKind) ==> b.goalDescription.Str? && b.goalDescription.s != "")
    ensures !NamePresent(b) ==> r == BadRequest(NameRequired)
    ensures NamePresent(b) && |b.name.s| > 255 ==> r == BadRequest(NameTooLong)
    ensures NamePresent(b) && |b.name.s| <= 255 && KindOf(b).None? ==> r == BadRequest(BadType)
    ensures r.Create? ==>
      r.name == b.name.s && Some(r.kind) == KindOf(b) &&
      r.position == b.position && r.goalDescription == b.goalDescription
  {
    if !Truthy(b.name) || !b.name.Str? then BadRequest(NameRequired)
    else if |b.name.s| > 255 then BadRequest(NameTooLong)
    else
      match KindOf(b)
      case None => BadRequest(BadType)
      case Some(kind) =>
        if kind == GoalKind && (!Truthy(b.goalDescription) || !b.goalDescription.Str?) then BadRequest(GoalRequired)
        else Create(b.name.s, b.position, kind, b.goalDescription)
  }

  /** A goal without a usable description is refused, whatever its name. */
  lemma GoalNeedsDescription(b: Body)
    requires NamePresent(b) && |b.name.s| <= 255 && b.kind == Str("goal")
    ensures HandlePost(b).Create? <==> b.goalDescription.Str? && b.goalDescription.s != ""
    ensures !HandlePost(b).Create? ==> HandlePost(b) == BadRequest(GoalRequired)
  {
  }

  /** An explicit `null` type is not defaulted: it is refused like any other non-type. */
  lemma NullTypeRefused(b: Body)
    requires NamePresent(b) && |b.name.s| <= 255 && b.kind == Null
    ensures HandlePost(b) == BadRequest(BadType)
  {
  }

  /** The position the store sees: a missing field asks for an append, a number is used as is. */
  function StorePosition(v: JsValue): (r: Option<Option<int>>)
    ensures r == Some(None) <==> v.Undefined?
    ensures v.Num? ==> r == Some(Some(v.n))
    ensures r.None? <==> !v.Undefined? && !v.Num?
  {
    match v
    case Undefined => Some(None)
    case Num(n) => Some(Some(n))
    case _ => None
  }

  /**
   * The description the store sees: a missing or null field is no
   * description and a string is passed as is; other JSON types have no
   * counterpart in the store's text column.
   */
  function StoreGoal(v: JsValue): (r: Option<Option<string>>)
    ensures r == Some(None) <==> v.Undefined? || v.Null?
    ensures v.Str? ==> r == Some(Some(v.s))
    ensures r.None? <==> !(v.Undefined? || v.Null? || v.Str?)
  {
    match v
    case Undefined => Some(None)
    case Null => Some(None)
    case Str(s) => Some(Some(s))
    case _ => None
  }

  /**
   * An accepted body becomes the row `createProject` inserts: the body's
   * name, the parsed type, the given position or one past the user's highest,
   * and a description that a goal always keeps and that is NULL exactly when
   * the body had no non-empty string.
   */
  lemma AcceptedBodyStored(b: Body, rows: seq<ProjectRow>, userId: Id, newId: Id)
    requires HandlePost(b).Create?
    requires StorePosition(b.position).Some? && StoreGoal(b.goalDescription).Some?
    ensures
      var o := HandlePost(b);
      var pos := TargetPosition(rows, userId, StorePosition(o.position).value);
      var row := Projects.NewProject(newId, userId, o.name, pos, Some(o.kind), StoreGoal(o.goalDescription).value);
      && row.id == newId && row.scope == userId
      && row.payload.name == b.name.s
      && Some(row.payload.kind) == KindOf(b)
      && (b.position.Num? ==> row.position == b.position.n)
      && (b.position.Undefined? ==> row.position == NextPosition(rows, userId))
      && (row.payload.goalDescription.Some? <==> b.goalDescription.Str? && b.goalDescription.s != "")
      && (row.payload.goalDescription.Some? ==> row.payload.goalDescription.value == b.goalDescription.s)
      && (row.payload.kind == GoalKind ==> row.payload.goalDescription == Some(b.goalDescription.s))
  {
  }
}
