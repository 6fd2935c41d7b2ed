/**
 * Keyboard navigation over the grid. A position is a column (project), a
 * task in it (-1 is the project title) and a top-bar button (-1 when the
 * focus is not in the top bar; 0 Settings, 1 Dark Mode, 2 Logout). Each move
 * is a function of the position and the number of tasks in each column.
 */
module GridNav {

  datatype Nav = Nav(column: int, task: int, topBar: int)

  /** The position before anything is loaded. */
  const Home := Nav(0, 0, -1)

  /**
   * The result of a horizontal move: a new position, the request to open the
   * project-type menu, or the TypeError JavaScript raises when it reads
   * `.tasks` of a column that does not exist.
   */
  datatype Move = Go(to: Nav) | OpenMenu | TypeError

  /** The task index kept when entering a column with `len` tasks. */
  function Entering(task: int, len: nat): (r: int)
    ensures len == 0 ==> r == -1
    ensures len > 0 ==> r <= len - 1 && (task < len ==> r == task) && (task >= len ==> r == len - 1)
  {
    if len == 0 then -1 else if task >= len then len - 1 else task
  }

  /** `moveRight`. */
  function NextRight(nav: Nav, counts: seq<nat>): (r: Move)
    ensures r == OpenMenu <==> nav.column >= |counts| - 1
    ensures r == TypeError <==> nav.column < -1
    ensures r.Go? ==>
      && 0 <= nav.column + 1 < |counts|
      && r.to == Nav(nav.column + 1, Entering(nav.task, counts[nav.column + 1]), -1)
  {
    if nav.column < |counts| - 1 then
      if nav.column + 1 < 0 then TypeError
      else Go(Nav(nav.column + 1, Entering(nav.task, counts[nav.column + 1]), -1))
    else OpenMenu
  }

  /** `moveLeft`: a no-op at column 0 and before it. */
  function NextLeft(nav: Nav, counts: seq<nat>): (r: Move)
    ensures r != OpenMenu
    ensures r == TypeError <==> nav.column > 0 && nav.column - 1 >= |counts|
    ensures nav.column <= 0 ==> r == Go(nav)
    ensures nav.column > 0 && r.Go? ==>
      r.to == Nav(nav.column - 1, Entering(nav.task, counts[nav.column - 1]), -1)
  {
    if nav.column > 0 then
      if nav.column - 1 >= |counts| then TypeError
      else Go(Nav(nav.column - 1, Entering(nav.task, counts[nav.column - 1]), -1))
    else Go(nav)
  }

  /** `moveDown`. A missing column is read as `undefined` and counts as no move. */
  function NextDown(nav: Nav, counts: seq<nat>): (r: Nav)
    ensures nav.topBar >= 0 ==> r == nav.(task := -1, topBar := -1)
    ensures nav.topBar < 0 && nav.task == -1 ==> r == nav.(task := 0)
    ensures nav.topBar < 0 && nav.task != -1 ==>
      r == if 0 <= nav.column < |counts| && nav.task + 1 < counts[nav.column] then nav.(task := nav.task + 1) else nav
  {
    if nav.topBar >= 0 then nav.(task := -1, topBar := -1)
    else if nav.task == -1 then nav.(task := 0)
    else if 0 <= nav.column < |counts| && nav.task + 1 < counts[nav.column] then nav.(task := nav.task + 1)
    else nav
  }

  /** `moveUp`: from the title into the top bar, from the first task to the title. */
  function NextUp(nav: Nav): (r: Nav)
    ensures r.column == nav.column
    ensures nav.task == -1 ==> r == nav.(topBar := 0)
    ensures nav.task >= 0 ==> r == nav.(task := nav.task - 1)
    ensures nav.task < -1 ==> r == nav
  {
    if nav.task == -1 then nav.(topBar := 0)
    else if nav.task == 0 then nav.(task := -1)
    else if nav.task > 0 then nav.(task := nav.task - 1)
    else nav
  }

  /** `moveTopBarLeft`. */
  function NextTopBarLeft(nav: Nav): (r: Nav)
    ensures r.column == nav.column && r.task == nav.task
    ensures r.topBar == nav.topBar - 1 <==> nav.topBar > 0
    ensures r.topBar == nav.topBar || r.topBar == nav.topBar - 1
    ensures nav.topBar <= 0 ==> r == nav
  {
    if nav.topBar > 0 then nav.(topBar := nav.topBar - 1) else nav
  }

  /** `moveTopBarRight`: stops at the last button. */
  function NextTopBarRight(nav: Nav): (r: Nav)
    ensures r.column == nav.column && r.task == nav.task
    ensures r.topBar == nav.topBar + 1 <==> 0 <= nav.topBar < 2
    ensures r.topBar == nav.topBar || r.topBar == nav.topBar + 1
    ensures !(0 <= nav.topBar < 2) ==> r == nav
  {
    if 0 <= nav.topBar < 2 then nav.(topBar := nav.topBar + 1) else nav
  }

  /** The number of tasks in the focused column; 0 when there is none. */
  function Focused(nav: Nav, counts: seq<nat>): nat {
    if 0 <= nav.column < |counts| then counts[nav.column] else 0
  }

  /**
   * A well-formed position: the column exists (column 0 when there are none);
   * the task is the title, a task of the column, or the new-task slot 0 of an
   * empty column; the top-bar button exists; and only the title can hand the
   * focus to the top bar.
   */
  predicate NavOk(nav: Nav, counts: seq<nat>) {
    && (if |counts| == 0 then nav.column == 0 else 0 <= nav.column < |counts|)
    && -1 <= nav.task
    && (nav.task <= 0 || nav.task < Focused(nav, counts))
    && -1 <= nav.topBar <= 2
    && (nav.topBar >= 0 ==> nav.task == -1)
  }

  /** No move raises a TypeError from a well-formed position, and every move keeps it well-formed. */
  lemma MovesKeepNavOk(nav: Nav, counts: seq<nat>)
    requires NavOk(nav, counts)
    ensures NextRight(nav, counts) != TypeError && NextLeft(nav, counts) != TypeError
    ensures NextRight(nav, counts).Go? ==> NavOk(NextRight(nav, counts).to, counts)
    ensures NextLeft(nav, counts).Go? ==> NavOk(NextLeft(nav, counts).to, counts)
    ensures NavOk(NextDown(nav, counts), counts)
    ensures NavOk(NextUp(nav), counts)
    ensures NavOk(NextTopBarLeft(nav), counts) && NavOk(NextTopBarRight(nav), counts)
  {
  }

  /** The top-bar moves keep the button index in -1..2 from any position. */
  lemma TopBarStaysInRange(nav: Nav)
    requires -1 <= nav.topBar <= 2
    ensures -1 <= NextTopBarLeft(nav).topBar <= 2 && -1 <= NextTopBarRight(nav).topBar <= 2
    ensures -1 <= NextUp(nav).topBar <= 2
  {
  }

  /** Down from the top bar and then up returns to the top bar's first button on the same column. */
  lemma DownThenUpFromTopBar(nav: Nav, counts: seq<nat>)
    requires nav.topBar >= 0
    ensures NextUp(NextDown(nav, counts)) == nav.(task := -1, topBar := 0)
  {
  }

  /** Up then down from a task other than the first returns to it. */
  lemma UpThenDownReturns(nav: Nav, counts: seq<nat>)
    requires NavOk(nav, counts) && nav.task > 0
    ensures NextDown(NextUp(nav), counts) == nav
  {
  }
}
