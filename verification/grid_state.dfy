/**
 * The client's copy of the grid: the user's projects, each with its tasks,
 * and the pure list updates the grid store applies after an API call
 * succeeds. Tasks and projects are the rows the API returns.
 */
module GridState {
  import opened Wrappers
  import opened Tables
  import opened Schema
  import Ordering
  import Tasks

  /** A project as the client holds it: its row and its tasks. */
  datatype GridProject = GridProject(info: ProjectRow, tasks: seq<TaskRow>)

  /** The number of tasks in each column. */
  function Counts(ps: seq<GridProject>): (r: seq<nat>)
    ensures |r| == |ps|
    ensures forall i | 0 <= i < |ps| :: r[i] == |ps[i].tasks|
  {
    seq(|ps|, i requires 0 <= i < |ps| => |ps[i].tasks|)
  }

  /** `findIndex(p => p.id === id)`. */
  function ProjectIndex(ps: seq<GridProject>, id: Id): (r: Option<nat>)
    ensures r.None? <==> forall j | 0 <= j < |ps| :: ps[j].info.id != id
    ensures r.Some? ==> r.value < |ps| && ps[r.value].info.id == id
    ensures r.Some? ==> forall j | 0 <= j < r.value :: ps[j].info.id != id
  {
    if ps == [] then None
    else if ps[0].info.id == id then Some(0)
    else
      match ProjectIndex(ps[1..], id)
      case None => None
      case Some(i) => Some(i + 1)
  }

  /** `findIndex(t => t.id === id)`. */
  function TaskIndex(ts: seq<TaskRow>, id: Id): (r: Option<nat>)
    ensures r.None? <==> !HasId(ts, id)
    ensures r.Some? ==> r.value < |ts| && ts[r.value].id == id
    ensures r.Some? ==> forall j | 0 <= j < r.value :: ts[j].id != id
  {
    if ts == [] then None
    else if ts[0].id == id then Some(0)
    else
      match TaskIndex(ts[1..], id)
      case None =>
        assert forall j | 1 <= j < |ts| :: ts[j] == ts[1..][j - 1];
        None
      case Some(i) => Some(i + 1)
  }

  // ---------------------------------------------------------------------------
  // Local list updates
  // ---------------------------------------------------------------------------

  /**
   * `updateProject`'s local change: the name is replaced, and the goal
   * description too when one was passed.
   */
  function Renamed(ps: seq<GridProject>, projectId: Id, name: string, goal: Option<string>): (r: seq<GridProject>)
    ensures |r| == |ps|
    ensures forall i | 0 <= i < |ps| && ps[i].info.id != projectId :: r[i] == ps[i]
    ensures forall i | 0 <= i < |ps| && ps[i].info.id == projectId ::
      && r[i].tasks == ps[i].tasks
      && r[i].info.(payload := ps[i].info.payload) == ps[i].info
      && r[i].info.payload.name == name
      && r[i].info.payload.kind == ps[i].info.payload.kind
      && r[i].info.payload.goalDescription == if goal.Some? then goal else ps[i].info.payload.goalDescription
  {
    seq(|ps|, i requires 0 <= i < |ps| =>
      var p := ps[i];
      if p.info.id != projectId then p
      else
        var f := p.info.payload.(name := name);
        var f' := if goal.Some? then f.(goalDescription := goal) else f;
        p.(info := p.info.(payload := f')))
  }

  /** `filter(proj => proj.id !== projectId)`, order kept. */
  function WithoutProject(ps: seq<GridProject>, projectId: Id): (r: seq<GridProject>)
    ensures forall p | p in r :: p in ps && p.info.id != projectId
    ensures forall p | p in ps && p.info.id != projectId :: p in r
    ensures |r| <= |ps|
    ensures Ordering.Subsequence(r, ps)
    ensures forall p | p in ps :: multiset(r)[p] == if p.info.id != projectId then multiset(ps)[p] else 0
  {
    if ps == [] then []
    else
      assert forall p | p in ps :: p == ps[0] || p in ps[1..];
      assert ps == [ps[0]] + ps[1..];
      var rest := WithoutProject(ps[1..], projectId);
      if ps[0].info.id != projectId then
        assert ([ps[0]] + rest)[1..] == rest;
        [ps[0]] + rest
      else
        rest
  }

  /** The tasks of the project with the id replaced by a freshly loaded list. */
  function WithTasks(ps: seq<GridProject>, projectId: Id, tasks: seq<TaskRow>): (r: seq<GridProject>)
    ensures |r| == |ps|
    ensures forall i | 0 <= i < |ps| :: r[i].info == ps[i].info
    ensures forall i | 0 <= i < |ps| :: r[i].tasks == if ps[i].info.id == projectId then tasks else ps[i].tasks
  {
    seq(|ps|, i requires 0 <= i < |ps| =>
      if ps[i].info.id == projectId then ps[i].(tasks := tasks) else ps[i])
  }

  /** `[...proj.tasks, task].sort((a, b) => a.position - b.position)`. */
  function AppendSorted(tasks: seq<TaskRow>, task: TaskRow): (r: seq<TaskRow>)
    ensures Ordering.Sorted(r, PositionOf)
    ensures multiset(r) == multiset(tasks) + multiset{task}
  {
    Ordering.SortBy(tasks + [task], PositionOf)
  }

  /** A task above every other one, on a list already in order, lands at the end and nothing moves. */
  lemma AppendAboveAllKeepsOrder(tasks: seq<TaskRow>, task: TaskRow)
    requires Ordering.Sorted(tasks, PositionOf)
    requires forall k | 0 <= k < |tasks| :: tasks[k].position < task.position
    ensures AppendSorted(tasks, task) == tasks + [task]
  {
    Ordering.AppendMaxThenSort(tasks, task, PositionOf);
  }

  /** `createTask`'s local change when no position was given. */
  function WithAppended(ps: seq<GridProject>, projectId: Id, task: TaskRow): (r: seq<GridProject>)
    ensures |r| == |ps|
    ensures forall i | 0 <= i < |ps| :: r[i].info == ps[i].info
    ensures forall i | 0 <= i < |ps| && ps[i].info.id != projectId :: r[i].tasks == ps[i].tasks
    ensures forall i | 0 <= i < |ps| && ps[i].info.id == projectId ::
      Ordering.Sorted(r[i].tasks, PositionOf) && multiset(r[i].tasks) == multiset(ps[i].tasks) + multiset{task}
  {
    seq(|ps|, i requires 0 <= i < |ps| =>
      if ps[i].info.id == projectId then ps[i].(tasks := AppendSorted(ps[i].tasks, task)) else ps[i])
  }

  /** `tasks.map(t => t.id === taskId ? task : t)` in every project. */
  function Replaced(ps: seq<GridProject>, taskId: Id, task: TaskRow): (r: seq<GridProject>)
    ensures |r| == |ps|
    ensures forall i | 0 <= i < |ps| :: r[i].info == ps[i].info && |r[i].tasks| == |ps[i].tasks|
    ensures forall i, k | 0 <= i < |ps| && 0 <= k < |ps[i].tasks| ::
      r[i].tasks[k] == if ps[i].tasks[k].id == taskId then task else ps[i].tasks[k]
  {
    seq(|ps|, i requires 0 <= i < |ps| =>
      var ts := ps[i].tasks;
      ps[i].(tasks := seq(|ts|, k requires 0 <= k < |ts| => if ts[k].id == taskId then task else ts[k])))
  }

  /** `tasks.filter(t => t.id !== taskId)` in every project. */
  function WithoutTask(ps: seq<GridProject>, taskId: Id): (r: seq<GridProject>)
    ensures |r| == |ps|
    ensures forall i | 0 <= i < |ps| :: r[i].info == ps[i].info
    ensures forall i | 0 <= i < |ps| :: forall t | t in r[i].tasks :: t in ps[i].tasks && t.id != taskId
    ensures forall i | 0 <= i < |ps| :: forall t | t in ps[i].tasks && t.id != taskId :: t in r[i].tasks
    ensures forall i | 0 <= i < |ps| :: Ordering.Subsequence(r[i].tasks, ps[i].tasks)
    ensures forall i | 0 <= i < |ps| :: forall t | t in ps[i].tasks ::
      multiset(r[i].tasks)[t] == if t.id != taskId then multiset(ps[i].tasks)[t] else 0
  {
    var r := seq(|ps|, i requires 0 <= i < |ps| => ps[i].(tasks := Filter(ps[i].tasks, IdIs(taskId), false)));
    forall i | 0 <= i < |ps|
      ensures Ordering.Subsequence(r[i].tasks, ps[i].tasks)
      ensures forall t | t in ps[i].tasks :: multiset(r[i].tasks)[t] == if t.id != taskId then multiset(ps[i].tasks)[t] else 0
    {
      FilterKeepsOrder(ps[i].tasks, IdIs(taskId), false);
    }
    r
  }

  /**
   * The tasks left in a column keep their order: a column listed by position
   * (strictly or not) is still listed by position after the delete.
   */
  lemma WithoutTaskKeepsOrder(ps: seq<GridProject>, taskId: Id)
    ensures forall i | 0 <= i < |ps| && Ordering.Sorted(ps[i].tasks, PositionOf) ::
      Ordering.Sorted(WithoutTask(ps, taskId)[i].tasks, PositionOf)
    ensures forall i | 0 <= i < |ps| && Ordering.StrictlyAscending(ps[i].tasks, PositionOf) ::
      Ordering.StrictlyAscending(WithoutTask(ps, taskId)[i].tasks, PositionOf)
  {
    var r := WithoutTask(ps, taskId);
    forall i | 0 <= i < |ps|
      ensures Ordering.Sorted(ps[i].tasks, PositionOf) ==> Ordering.Sorted(r[i].tasks, PositionOf)
      ensures Ordering.StrictlyAscending(ps[i].tasks, PositionOf) ==> Ordering.StrictlyAscending(r[i].tasks, PositionOf)
    {
      Ordering.SubsequenceKeepsOrder(r[i].tasks, ps[i].tasks, PositionOf);
    }
  }

  /**
   * A reply carrying the same id leaves every project holding the same ids in
   * the same order, so a later lookup by id finds the same slot.
   */
  lemma ReplaceKeepsIds(ps: seq<GridProject>, taskId: Id, task: TaskRow)
    requires task.id == taskId
    ensures forall i, k | 0 <= i < |ps| && 0 <= k < |ps[i].tasks| ::
      Replaced(ps, taskId, task)[i].tasks[k].id == ps[i].tasks[k].id
    ensures forall i, id | 0 <= i < |ps| ::
      TaskIndex(Replaced(ps, taskId, task)[i].tasks, id) == TaskIndex(ps[i].tasks, id)
  {
    var r := Replaced(ps, taskId, task);
    forall i, id | 0 <= i < |ps| ensures TaskIndex(r[i].tasks, id) == TaskIndex(ps[i].tasks, id) {
      SameIdsSameIndex(r[i].tasks, ps[i].tasks, id);
    }
  }

  lemma {:induction false} SameIdsSameIndex(a: seq<TaskRow>, b: seq<TaskRow>, id: Id)
    requires |a| == |b| && forall k | 0 <= k < |a| :: a[k].id == b[k].id
    ensures TaskIndex(a, id) == TaskIndex(b, id)
    decreases |a|
  {
    if a != [] && a[0].id != id {
      SameIdsSameIndex(a[1..], b[1..], id);
    }
  }

  /** After a delete no project holds a task with that id. */
  lemma DeletedTaskIsGone(ps: seq<GridProject>, taskId: Id)
    ensures forall i | 0 <= i < |ps| :: !HasId(WithoutTask(ps, taskId)[i].tasks, taskId)
  {
    var r := WithoutTask(ps, taskId);
    forall i | 0 <= i < |ps| ensures !HasId(r[i].tasks, taskId) {
      forall k | 0 <= k < |r[i].tasks| ensures r[i].tasks[k].id != taskId {
        assert r[i].tasks[k] in r[i].tasks;
      }
    }
  }

  // ---------------------------------------------------------------------------
  // Insert-after position resolution
  // ---------------------------------------------------------------------------

  /**
   * The position a new task inserted after `after` asks for: on the tasks
   * sorted by position, the next task's position, or one past the anchor when
   * the anchor is last; None (an append) when no task has that id.
   */
  function InsertAfter(tasks: seq<TaskRow>, after: Id): (r: Option<int>)
    ensures r.None? <==> !HasId(tasks, after)
  {
    var sorted := Ordering.SortBy(tasks, PositionOf);
    match TaskIndex(sorted, after)
    case None =>
      assert !HasId(tasks, after) by {
        forall k | 0 <= k < |tasks| ensures tasks[k].id != after {
          assert tasks[k] in multiset(sorted);
        }
      }
      None
    case Some(i) =>
      assert sorted[i] in multiset(tasks);
      assert HasId(tasks, after) by {
        var k :| 0 <= k < |tasks| && tasks[k] == sorted[i];
      }
      if i + 1 < |sorted| then Some(sorted[i + 1].position) else Some(sorted[i].position + 1)
  }

  /** The task the new one goes after: the first with the id in position order. */
  function Anchor(tasks: seq<TaskRow>, after: Id): (a: TaskRow)
    requires HasId(tasks, after)
    ensures a in tasks && a.id == after
  {
    var sorted := Ordering.SortBy(tasks, PositionOf);
    assert HasId(sorted, after) by {
      var k :| 0 <= k < |tasks| && tasks[k].id == after;
      assert tasks[k] in multiset(sorted);
    }
    var a := sorted[TaskIndex(sorted, after).value];
    assert a in multiset(tasks);
    a
  }

  /**
   * With distinct positions the resolved position is the position of the
   * anchor's successor when some task lies above the anchor, and one past the
   * anchor when none does; no task sits strictly between the anchor and the
   * result.
   */
  lemma InsertAfterIsNextAbove(tasks: seq<TaskRow>, after: Id)
    requires Ordering.KeysDistinct(tasks, PositionOf)
    requires InsertAfter(tasks, after).Some?
    ensures
      var a := Anchor(tasks, after);
      var q := InsertAfter(tasks, after).value;
      && a.position < q
      && (forall t | t in tasks :: !(a.position < t.position < q))
      && ((exists t | t in tasks :: a.position < t.position) ==> exists t | t in tasks :: t.position == q)
      && ((forall t | t in tasks :: t.position <= a.position) ==> q == a.position + 1)
  {
    var sorted := Ordering.SortBy(tasks, PositionOf);
    Ordering.SortStrictWhenKeysDistinct(tasks, PositionOf);
    var i := TaskIndex(sorted, after).value;
    var q := InsertAfter(tasks, after).value;
    var a := sorted[i];
    assert a == Anchor(tasks, after);
    forall t | t in tasks ensures !(a.position < t.position < q) {
      assert t in multiset(sorted);
      var j :| 0 <= j < |sorted| && sorted[j] == t;
      if j > i + 1 {
        assert PositionOf(sorted[i + 1]) < PositionOf(sorted[j]);
      }
    }
    if i + 1 < |sorted| {
      assert sorted[i + 1] in multiset(tasks);
      assert sorted[i + 1] in tasks && sorted[i + 1].position == q;
      assert PositionOf(sorted[i]) < PositionOf(sorted[i + 1]);
    } else {
      NothingAboveLast(tasks, sorted);
    }
  }

  /** A sorted permutation of the tasks ends with one that no task lies above. */
  lemma NothingAboveLast(tasks: seq<TaskRow>, sorted: seq<TaskRow>)
    requires |sorted| > 0 && multiset(sorted) == multiset(tasks) && Ordering.Sorted(sorted, PositionOf)
    ensures forall t | t in tasks :: t.position <= sorted[|sorted| - 1].position
  {
    forall t | t in tasks ensures t.position <= sorted[|sorted| - 1].position {
      assert t in multiset(sorted);
      var j :| 0 <= j < |sorted| && sorted[j] == t;
      assert PositionOf(sorted[j]) <= PositionOf(sorted[|sorted| - 1]);
    }
  }

  /**
   * The position resolved on the client, handed to the server's insert
   * (which moves every task at or above it up by one), puts the new task
   * directly after the anchor: the anchor keeps its position and no task of
   * the project ends up between the anchor and the new task.
   */
  lemma InsertAfterLandsNextToAnchor(tasks: seq<TaskRow>, after: Id, s: Id)
    requires Ordering.KeysDistinct(tasks, PositionOf)
    requires forall k | 0 <= k < |tasks| :: tasks[k].scope == s
    requires InsertAfter(tasks, after).Some?
    ensures
      var a := Anchor(tasks, after);
      var q := InsertAfter(tasks, after).value;
      var shifted := Tasks.ShiftedUp(tasks, s, q);
      && (forall k | 0 <= k < |tasks| && tasks[k] == a :: shifted[k] == a)
      && (forall k | 0 <= k < |tasks| :: !(a.position < shifted[k].position <= q))
  {
    var a := Anchor(tasks, after);
    var q := InsertAfter(tasks, after).value;
    var shifted := Tasks.ShiftedUp(tasks, s, q);
    InsertAfterIsNextAbove(tasks, after);
    forall k | 0 <= k < |tasks| ensures !(a.position < shifted[k].position <= q) {
      assert tasks[k] in tasks;
    }
  }

  /** The project found first by id, then its insert-after position. */
  function ResolveInsertPosition(ps: seq<GridProject>, projectId: Id, after: Id): (r: Option<int>)
    ensures ProjectIndex(ps, projectId).None? ==> r.None?
    ensures ProjectIndex(ps, projectId).Some? ==> r == InsertAfter(ps[ProjectIndex(ps, projectId).value].tasks, after)
  {
    match ProjectIndex(ps, projectId)
    case None => None
    case Some(i) => InsertAfter(ps[i].tasks, after)
  }
}
