/**
 * The ordered-collection engine shared by tasks (scoped by project) and
 * projects (scoped by user): a table of rows `(id, scope, position, payload)`
 * whose `(scope, position)` pairs are unique. Every single-row write is checked
 * against that constraint, the way SQLite checks a UNIQUE index row by row, so
 * the intermediate states of a multi-row UPDATE exist and are checked too.
 * BEGIN takes a snapshot and ROLLBACK restores it; COMMIT keeps the current rows.
 */
module Tables {
  import opened Wrappers
  import Ordering

  type Id = string

  datatype Row<P> = Row(id: Id, scope: Id, position: int, payload: P)

  datatype DbError =
    | UniqueViolation       // a write would give two rows the same (scope, position) or the same id
    | ForeignKeyViolation   // the parent row of an inserted row does not exist
    | ReorderMismatch       // a reorder list does not name exactly the rows of its scope
    | NoValidFields         // an UPDATE with nothing to set
    | IoFailure             // the store itself failed a statement

  function PositionOf<P>(r: Row<P>): int { r.position }

  /** No two rows of one scope share a position. */
  ghost predicate KeysUnique<P>(rows: seq<Row<P>>) {
    forall i, j :: 0 <= i < j < |rows| && rows[i].scope == rows[j].scope ==> rows[i].position != rows[j].position
  }

  /** No two rows share an id (the primary key). */
  ghost predicate IdsUnique<P>(rows: seq<Row<P>>) {
    forall i, j :: 0 <= i < j < |rows| ==> rows[i].id != rows[j].id
  }

  ghost predicate NonNegativeIn<P>(rows: seq<Row<P>>, s: Id) {
    forall k | 0 <= k < |rows| && rows[k].scope == s :: rows[k].position >= 0
  }

  /**
   * The uniqueness check of one row write: no row other than the one at index
   * `k` holds `pos` in scope `s`. An INSERT, which replaces no row, passes `k == |rows|`.
   */
  predicate SlotFree<P>(rows: seq<Row<P>>, k: int, s: Id, pos: int) {
    forall j | 0 <= j < |rows| && j != k :: rows[j].scope == s ==> rows[j].position != pos
  }

  predicate HasId<P>(rows: seq<Row<P>>, id: Id) {
    exists k | 0 <= k < |rows| :: rows[k].id == id
  }

  // ---------------------------------------------------------------------------
  // Reads
  // ---------------------------------------------------------------------------

  /** `SELECT * ... WHERE id = $1`, first row. */
  function FindById<P>(rows: seq<Row<P>>, id: Id): (r: Option<Row<P>>)
    ensures r.Some? <==> HasId(rows, id)
    ensures r.Some? ==> r.value in rows && r.value.id == id
  {
    if rows == [] then None
    else if rows[0].id == id then Some(rows[0])
    else
      var r := FindById(rows[1..], id);
      assert HasId(rows, id) ==> HasId(rows[1..], id) by {
        if HasId(rows, id) {
          var k :| 0 <= k < |rows| && rows[k].id == id;
          assert rows[1..][k - 1].id == id;
        }
      }
      assert r.Some? ==> HasId(rows, id) by {
        if r.Some? {
          var k :| 0 <= k < |rows[1..]| && rows[1..][k].id == id;
          assert rows[k + 1].id == id;
        }
      }
      r
  }

  /** `SELECT * ... WHERE scope = $1 AND position = $2`, first row. */
  function FindAt<P>(rows: seq<Row<P>>, s: Id, pos: int): (r: Option<Row<P>>)
    ensures r.None? <==> SlotFree(rows, |rows|, s, pos)
    ensures r.Some? ==> r.value in rows && r.value.scope == s && r.value.position == pos
  {
    if rows == [] then None
    else if rows[0].scope == s && rows[0].position == pos then Some(rows[0])
    else
      assert forall j | 1 <= j < |rows| :: rows[1..][j - 1] == rows[j];
      FindAt(rows[1..], s, pos)
  }

  /**
   * `SELECT COALESCE(MAX(position), -1) + 1 ... WHERE scope = $1`: one above
   * the highest position of the scope, or 0 for an empty scope.
   */
  function NextPosition<P>(rows: seq<Row<P>>, s: Id): (r: int)
    ensures forall k | 0 <= k < |rows| && rows[k].scope == s :: rows[k].position < r
    ensures (r == 0 && forall k | 0 <= k < |rows| :: rows[k].scope != s)
         || exists k | 0 <= k < |rows| :: rows[k].scope == s && rows[k].position == r - 1
  {
    if rows == [] then 0
    else
      var rest := NextPosition(rows[1..], s);
      assert forall k | 1 <= k < |rows| :: rows[k] == rows[1..][k - 1];
      if rows[0].scope != s then rest
      else if rest == 0 && forall k | 0 <= k < |rows[1..]| :: rows[1..][k].scope != s then rows[0].position + 1
      else if rows[0].position + 1 > rest then rows[0].position + 1
      else rest
  }

  /**
   * The position a created row is given: the one the caller asked for, or
   * `COALESCE(MAX(position), -1) + 1` over the scope.
   */
  function TargetPosition<P>(rows: seq<Row<P>>, s: Id, position: Option<int>): (r: int)
    ensures position.Some? ==> r == position.value
    ensures position.None? ==> SlotFree(rows, |rows|, s, r)
  {
    match position
    case None => NextPosition(rows, s)
    case Some(p) => p
  }

  datatype Match = IdIs(id: Id) | ScopeIs(scope: Id)

  predicate Hits<P>(m: Match, r: Row<P>) {
    match m
    case IdIs(id) => r.id == id
    case ScopeIs(s) => r.scope == s
  }

  /** The rows, in table order, for which `Hits(m, _) == keep`. */
  function Filter<P>(rows: seq<Row<P>>, m: Match, keep: bool): (r: seq<Row<P>>)
    ensures forall x | x in r :: x in rows && Hits(m, x) == keep
    ensures forall x | x in rows && Hits(m, x) == keep :: x in r
    ensures |r| <= |rows|
  {
    if rows == [] then []
    else
      assert forall x | x in rows :: x == rows[0] || x in rows[1..];
      (if Hits(m, rows[0]) == keep then [rows[0]] else []) + Filter(rows[1..], m, keep)
  }

  /**
   * The kept rows stay in table order, and every kept row appears as often
   * as in the table: the result is exactly the matching rows, in order.
   */
  lemma FilterKeepsOrder<P>(rows: seq<Row<P>>, m: Match, keep: bool)
    ensures Ordering.Subsequence(Filter(rows, m, keep), rows)
    ensures forall x | x in rows :: multiset(Filter(rows, m, keep))[x] == if Hits(m, x) == keep then multiset(rows)[x] else 0
  {
    FilterIsSubsequence(rows, m, keep);
    FilterCounts(rows, m, keep);
  }

  lemma {:induction false} FilterIsSubsequence<P>(rows: seq<Row<P>>, m: Match, keep: bool)
    ensures Ordering.Subsequence(Filter(rows, m, keep), rows)
  {
    if rows != [] {
      var rest := Filter(rows[1..], m, keep);
      FilterIsSubsequence(rows[1..], m, keep);
      if Hits(m, rows[0]) == keep {
        assert Filter(rows, m, keep) == [rows[0]] + rest;
        assert ([rows[0]] + rest)[1..] == rest;
      } else {
        assert Filter(rows, m, keep) == rest;
      }
    }
  }

  lemma {:induction false} FilterCounts<P>(rows: seq<Row<P>>, m: Match, keep: bool)
    ensures forall x | x in rows :: multiset(Filter(rows, m, keep))[x] == if Hits(m, x) == keep then multiset(rows)[x] else 0
  {
    if rows != [] {
      var rest := Filter(rows[1..], m, keep);
      FilterCounts(rows[1..], m, keep);
      assert rows == [rows[0]] + rows[1..];
      assert multiset(rows) == multiset{rows[0]} + multiset(rows[1..]);
      assert multiset(Filter(rows, m, keep)) == (if Hits(m, rows[0]) == keep then multiset{rows[0]} else multiset{}) + multiset(rest);
      forall x | x in rows ensures multiset(Filter(rows, m, keep))[x] == if Hits(m, x) == keep then multiset(rows)[x] else 0 {
        if x !in rows[1..] {
          assert multiset(rows[1..])[x] == 0;
          assert x !in rest;
        }
      }
    }
  }

  /** `SELECT * ... WHERE scope = $1 ORDER BY position ASC`. */
  function ListScope<P>(rows: seq<Row<P>>, s: Id): (r: seq<Row<P>>)
    ensures forall x | x in r :: x in rows && x.scope == s
    ensures forall x | x in rows && x.scope == s :: x in r
    ensures Ordering.Sorted(r, PositionOf)
  {
    var f := Filter(rows, ScopeIs(s), true);
    var r := Ordering.SortBy(f, PositionOf);
    Ordering.SameMembersOfMultiset(r, f);
    r
  }

  /** `SELECT COUNT(*) ... WHERE scope = $1`. */
  function CountScope<P>(rows: seq<Row<P>>, s: Id): nat {
    |Filter(rows, ScopeIs(s), true)|
  }

  // ---------------------------------------------------------------------------
  // Statement semantics
  // ---------------------------------------------------------------------------

  /** The WHERE condition on `position` of a shifting UPDATE. */
  datatype Cond = AtLeast(bound: int) | Below(bound: int)

  predicate Holds(c: Cond, pos: int) {
    match c
    case AtLeast(b) => pos >= b
    case Below(b) => pos < b
  }

  predicate Affected<P>(r: Row<P>, s: Id, c: Cond) {
    r.scope == s && Holds(c, r.position)
  }

  /** The indices below `n`. */
  function Upto(n: int): (r: set<int>)
    ensures forall k :: k in r <==> 0 <= k < n
    decreases n
  {
    if n <= 0 then {} else Upto(n - 1) + {n - 1}
  }

  /**
   * `UPDATE ... SET position = -position - offset WHERE scope = s AND c`,
   * applied to the affected rows whose indices are in `done` only.
   */
  function Rewrite<P>(rows: seq<Row<P>>, s: Id, c: Cond, offset: int, done: set<int>): (r: seq<Row<P>>)
    ensures |r| == |rows|
  {
    seq(|rows|, k requires 0 <= k < |rows| =>
      if k in done && Affected(rows[k], s, c) then rows[k].(position := -rows[k].position - offset) else rows[k])
  }

  lemma RewriteStep<P>(rows: seq<Row<P>>, s: Id, c: Cond, offset: int, k: int)
    requires 0 <= k < |rows|
    ensures Rewrite(rows, s, c, offset, Upto(k))[k] == rows[k]
    ensures Rewrite(rows, s, c, offset, Upto(k + 1)) ==
      if Affected(rows[k], s, c)
      then Rewrite(rows, s, c, offset, Upto(k))[k := rows[k].(position := -rows[k].position - offset)]
      else Rewrite(rows, s, c, offset, Upto(k))
  {
  }

  /**
   * Every row write of the UPDATE, made in table order, passes the uniqueness
   * check (`FirstWritesFreeIff` states it write by write).
   */
  ghost predicate RowByRowFree<P>(rows: seq<Row<P>>, s: Id, c: Cond, offset: int) {
    FirstWritesFree(rows, s, c, offset, |rows|)
  }

  /** The write the UPDATE makes to row `k`, after the writes before it, passes the uniqueness check. */
  ghost predicate WriteFree<P>(rows: seq<Row<P>>, s: Id, c: Cond, offset: int, k: nat)
    requires k < |rows|
  {
    Affected(rows[k], s, c) ==> SlotFree(Rewrite(rows, s, c, offset, Upto(k)), k, s, -rows[k].position - offset)
  }

  /**
   * The write the UPDATE makes to row `k` passes the uniqueness check when
   * the affected rows in `done`, and only those, were written before it.
   */
  ghost predicate WriteFreeAfter<P>(rows: seq<Row<P>>, s: Id, c: Cond, offset: int, done: set<int>, k: nat)
    requires k < |rows|
  {
    Affected(rows[k], s, c) ==> SlotFree(Rewrite(rows, s, c, offset, done), k, s, -rows[k].position - offset)
  }

  /** Every row write of the UPDATE passes, whichever of the other rows SQLite visited before it. */
  ghost predicate AnyOrderFree<P>(rows: seq<Row<P>>, s: Id, c: Cond, offset: int) {
    forall done: set<int>, k: nat | k < |rows| && k !in done :: WriteFreeAfter(rows, s, c, offset, done, k)
  }

  /** The first `n` row writes of the UPDATE, made in table order, pass the uniqueness check. */
  ghost predicate FirstWritesFree<P>(rows: seq<Row<P>>, s: Id, c: Cond, offset: int, n: nat)
    requires n <= |rows|
  {
    n == 0 || (FirstWritesFree(rows, s, c, offset, n - 1) && WriteFree(rows, s, c, offset, n - 1))
  }

  lemma {:induction false} FirstWritesFreeIff<P>(rows: seq<Row<P>>, s: Id, c: Cond, offset: int, n: nat)
    requires n <= |rows|
    ensures FirstWritesFree(rows, s, c, offset, n) <==> forall k: nat | k < n :: WriteFree(rows, s, c, offset, k)
  {
    if n > 0 {
      FirstWritesFreeIff(rows, s, c, offset, n - 1);
    }
  }

  /** A refused write stays refused however many later writes are considered. */
  lemma {:induction false} FirstWritesFreeShrinks<P>(rows: seq<Row<P>>, s: Id, c: Cond, offset: int, m: nat, n: nat)
    requires m <= n <= |rows|
    ensures FirstWritesFree(rows, s, c, offset, n) ==> FirstWritesFree(rows, s, c, offset, m)
    decreases n
  {
    if m < n {
      FirstWritesFreeShrinks(rows, s, c, offset, m, n - 1);
    }
  }

  /** `UPDATE ... SET position = pos WHERE id = id AND scope = s`. */
  function WithPosition<P>(rows: seq<Row<P>>, id: Id, s: Id, pos: int): (r: seq<Row<P>>)
    ensures |r| == |rows|
  {
    seq(|rows|, k requires 0 <= k < |rows| =>
      if rows[k].id == id && rows[k].scope == s then rows[k].(position := pos) else rows[k])
  }

  ghost predicate PositionWriteFree<P>(rows: seq<Row<P>>, id: Id, s: Id, pos: int) {
    forall k | 0 <= k < |rows| && rows[k].id == id && rows[k].scope == s :: SlotFree(rows, k, s, pos)
  }

  /** `UPDATE ... SET payload = g(payload) WHERE id = id`. */
  function PatchWhere<P>(rows: seq<Row<P>>, id: Id, g: P -> P): (r: seq<Row<P>>)
    ensures |r| == |rows|
  {
    seq(|rows|, k requires 0 <= k < |rows| =>
      if rows[k].id == id then rows[k].(payload := g(rows[k].payload)) else rows[k])
  }

  /** The highest index at which `x` occurs in `ids`. */
  function LastIndexOf(ids: seq<Id>, x: Id): (i: int)
    requires x in ids
    ensures 0 <= i < |ids| && ids[i] == x
    ensures forall j | i < j < |ids| :: ids[j] != x
  {
    if ids[|ids| - 1] == x then |ids| - 1
    else
      assert x in ids[..|ids| - 1] by {
        var j :| 0 <= j < |ids| && ids[j] == x;
        assert ids[..|ids| - 1][j] == x;
      }
      LastIndexOf(ids[..|ids| - 1], x)
  }

  /** The position a reorder gives index `i`: `i` itself, or `-i - 1` while staging. */
  function Slot(i: int, staged: bool): int {
    if staged then -i - 1 else i
  }

  /**
   * The rows after every listed id of scope `s` was given the slot of its
   * index in `ids` (the last index when an id repeats); unlisted rows and
   * rows of other scopes keep their positions.
   */
  function Placed<P>(rows: seq<Row<P>>, s: Id, ids: seq<Id>, staged: bool): (r: seq<Row<P>>)
    ensures |r| == |rows|
  {
    seq(|rows|, k requires 0 <= k < |rows| =>
      if rows[k].scope == s && rows[k].id in ids
      then rows[k].(position := Slot(LastIndexOf(ids, rows[k].id), staged))
      else rows[k])
  }

  /** Write `i` of the reorder loop, made after the writes before it, passes the uniqueness check. */
  ghost predicate MoveFree<P>(rows: seq<Row<P>>, s: Id, ids: seq<Id>, staged: bool, i: nat)
    requires i < |ids|
  {
    PositionWriteFree(Placed(rows, s, ids[..i], staged), ids[i], s, Slot(i, staged))
  }

  /** Every write of the reorder loop, made in list order, passes the uniqueness check. */
  ghost predicate ReorderWritesFree<P>(rows: seq<Row<P>>, s: Id, ids: seq<Id>, staged: bool) {
    forall i: nat | i < |ids| :: MoveFree(rows, s, ids, staged, i)
  }

  /** The first `n` writes of the reorder loop pass the uniqueness check. */
  ghost predicate FirstMovesFree<P>(rows: seq<Row<P>>, s: Id, ids: seq<Id>, staged: bool, n: nat)
    requires n <= |ids|
  {
    n == 0 || (FirstMovesFree(rows, s, ids, staged, n - 1) && MoveFree(rows, s, ids, staged, n - 1))
  }

  lemma {:induction false} FirstMovesFreeIff<P>(rows: seq<Row<P>>, s: Id, ids: seq<Id>, staged: bool, n: nat)
    requires n <= |ids|
    ensures FirstMovesFree(rows, s, ids, staged, n) <==> forall i: nat | i < n :: MoveFree(rows, s, ids, staged, i)
  {
    if n > 0 {
      FirstMovesFreeIff(rows, s, ids, staged, n - 1);
    }
  }

  /** Some row of scope `s` sits at `pos`. */
  predicate Occupied<P>(rows: seq<Row<P>>, s: Id, pos: int) {
    exists m | 0 <= m < |rows| :: rows[m].scope == s && rows[m].position == pos
  }

  /** The ids are distinct, every row of scope `s` is listed, and every listed id is a row of scope `s`. */
  predicate SameMembers<P>(rows: seq<Row<P>>, s: Id, ids: seq<Id>) {
    && (forall i, j | 0 <= i < j < |ids| :: ids[i] != ids[j])
    && (forall k | 0 <= k < |rows| && rows[k].scope == s :: rows[k].id in ids)
    && (forall i | 0 <= i < |ids| :: exists k | 0 <= k < |rows| :: rows[k].id == ids[i] && rows[k].scope == s)
  }

  // ---------------------------------------------------------------------------
  // Lemmas about the statements
  // ---------------------------------------------------------------------------

  /** Two distinct rows may share a table: different ids, and different positions within one scope. */
  predicate Compatible<P>(x: Row<P>, y: Row<P>) {
    x.id != y.id && (x.scope == y.scope ==> x.position != y.position)
  }

  /** Putting in front a row compatible with every row keeps a table unique. */
  lemma ConsUnique<P>(x: Row<P>, rows: seq<Row<P>>)
    requires KeysUnique(rows) && IdsUnique(rows)
    requires forall y | y in rows :: Compatible(x, y)
    ensures KeysUnique([x] + rows) && IdsUnique([x] + rows)
  {
    var r := [x] + rows;
    forall i, j | 0 <= i < j < |r| ensures Compatible(r[i], r[j]) {
      if i == 0 { assert r[j] in rows; } else { assert r[i] == rows[i - 1] && r[j] == rows[j - 1]; }
    }
  }

  /** In a unique table the first row is compatible with every row that follows it. */
  lemma HeadCompatible<P>(rows: seq<Row<P>>, sub: seq<Row<P>>)
    requires rows != [] && KeysUnique(rows) && IdsUnique(rows)
    requires forall y | y in sub :: y in rows[1..]
    ensures forall y | y in sub :: Compatible(rows[0], y)
  {
    forall y | y in sub ensures Compatible(rows[0], y) {
      var j :| 0 <= j < |rows[1..]| && rows[1..][j] == y;
      assert rows[j + 1] == y;
    }
  }

  lemma {:induction false} FilterKeepsUnique<P>(rows: seq<Row<P>>, m: Match, keep: bool)
    requires KeysUnique(rows) && IdsUnique(rows)
    ensures KeysUnique(Filter(rows, m, keep)) && IdsUnique(Filter(rows, m, keep))
    decreases |rows|
  {
    if rows != [] {
      var tail := rows[1..];
      assert KeysUnique(tail) && IdsUnique(tail) by {
        forall i, j | 0 <= i < j < |tail| ensures Compatible(tail[i], tail[j]) {
          assert tail[i] == rows[i + 1] && tail[j] == rows[j + 1];
        }
      }
      FilterKeepsUnique(tail, m, keep);
      var ft := Filter(tail, m, keep);
      if Hits(m, rows[0]) == keep {
        HeadCompatible(rows, ft);
        ConsUnique(rows[0], ft);
        assert Filter(rows, m, keep) == [rows[0]] + ft;
      } else {
        assert Filter(rows, m, keep) == ft;
      }
    }
  }

  /** Reading a row back after patching it by id yields the old row with the patched payload. */
  lemma {:induction false} FindAfterPatch<P>(rows: seq<Row<P>>, id: Id, g: P -> P)
    ensures FindById(PatchWhere(rows, id, g), id) ==
      match FindById(rows, id)
      case None => None
      case Some(x) => Some(x.(payload := g(x.payload)))
    decreases |rows|
  {
    if rows != [] {
      assert PatchWhere(rows, id, g)[1..] == PatchWhere(rows[1..], id, g);
      FindAfterPatch(rows[1..], id, g);
    }
  }

  /** Patching payloads changes no id, scope or position. */
  lemma PatchKeepsKeys<P>(rows: seq<Row<P>>, id: Id, g: P -> P)
    ensures forall k | 0 <= k < |rows| ::
      var x := PatchWhere(rows, id, g)[k];
      x.id == rows[k].id && x.scope == rows[k].scope && x.position == rows[k].position
    ensures forall k | 0 <= k < |rows| && rows[k].id != id :: PatchWhere(rows, id, g)[k] == rows[k]
    ensures HasId(PatchWhere(rows, id, g), id) <==> HasId(rows, id)
  {
    var q := PatchWhere(rows, id, g);
    if HasId(rows, id) {
      var k :| 0 <= k < |rows| && rows[k].id == id;
      assert q[k].id == id;
    }
  }

  /** `COUNT(*) ... WHERE scope = $1` agrees with the length of the ordered listing. */
  lemma CountScopeIsListingLength<P>(rows: seq<Row<P>>, s: Id)
    ensures CountScope(rows, s) == |ListScope(rows, s)|
  {
  }

  /** In a key-unique table ending with `x`, the only row with the key of `x` is `x`. */
  lemma KeyIdentifiesRow<P>(rows: seq<Row<P>>, x: Row<P>, y: Row<P>)
    requires KeysUnique(rows + [x])
    requires y in rows + [x] && y.scope == x.scope && y.position == x.position
    ensures y == x
  {
    var t := rows + [x];
    forall j | 0 <= j < |rows| ensures !(rows[j].scope == x.scope && rows[j].position == x.position) {
      assert t[j] == rows[j] && t[|rows|] == x;
    }
  }

  /** Within one scope of a valid table, the ordered listing has strictly ascending positions. */
  lemma ListScopeStrictlyAscending<P>(rows: seq<Row<P>>, s: Id)
    requires KeysUnique(rows) && IdsUnique(rows)
    ensures Ordering.StrictlyAscending(ListScope(rows, s), PositionOf)
  {
    var f := Filter(rows, ScopeIs(s), true);
    FilterKeepsUnique(rows, ScopeIs(s), true);
    assert Ordering.KeysDistinct(f, PositionOf) by {
      forall i, j | 0 <= i < j < |f| ensures PositionOf(f[i]) != PositionOf(f[j]) {
        assert f[i] in f && f[j] in f;
      }
    }
    Ordering.SortStrictWhenKeysDistinct(f, PositionOf);
  }

  /** A write whose result is still key-unique passes the uniqueness check. */
  lemma UniqueAfterWriteMeansFree<P>(rows: seq<Row<P>>, k: int, pos: int)
    requires 0 <= k < |rows|
    requires KeysUnique(rows[k := rows[k].(position := pos)])
    ensures SlotFree(rows, k, rows[k].scope, pos)
  {
    var w := rows[k := rows[k].(position := pos)];
    forall j | 0 <= j < |rows| && j != k && rows[j].scope == rows[k].scope ensures rows[j].position != pos {
      assert w[j] == rows[j] && w[k].position == pos;
      if j < k { assert w[j].position != w[k].position; } else { assert w[k].position != w[j].position; }
    }
  }

  /**
   * If every partial application of an UPDATE, whatever set of affected rows
   * it has reached, is key-unique, then no row write of the UPDATE is refused:
   * not after any set of earlier writes, so in any visiting order, and in
   * particular not in table order.
   */
  lemma {:induction false} FreeWhenEveryPartialStateUnique<P>(rows: seq<Row<P>>, s: Id, c: Cond, offset: int)
    requires forall done: set<int> :: KeysUnique(Rewrite(rows, s, c, offset, done))
    ensures AnyOrderFree(rows, s, c, offset)
    ensures RowByRowFree(rows, s, c, offset)
  {
    forall done: set<int>, k: nat | k < |rows| && k !in done ensures WriteFreeAfter(rows, s, c, offset, done, k) {
      if Affected(rows[k], s, c) {
        var before := Rewrite(rows, s, c, offset, done);
        var after := Rewrite(rows, s, c, offset, done + {k});
        assert after == before[k := before[k].(position := -rows[k].position - offset)];
        UniqueAfterWriteMeansFree(before, k, -rows[k].position - offset);
      }
    }
    forall k: nat | k < |rows| ensures WriteFree(rows, s, c, offset, k) {
      assert k !in Upto(k);
      assert WriteFreeAfter(rows, s, c, offset, Upto(k), k);
    }
    FirstWritesFreeIff(rows, s, c, offset, |rows|);
  }

  lemma PlacedStep<P>(rows: seq<Row<P>>, s: Id, ids: seq<Id>, i: int, staged: bool)
    requires 0 <= i < |ids|
    ensures Placed(rows, s, ids[..i + 1], staged) == WithPosition(Placed(rows, s, ids[..i], staged), ids[i], s, Slot(i, staged))
  {
    var a, b := ids[..i + 1], ids[..i];
    assert a[..i] == b;
    forall k | 0 <= k < |rows| && rows[k].scope == s && rows[k].id in a && rows[k].id != ids[i]
      ensures rows[k].id in b && LastIndexOf(a, rows[k].id) == LastIndexOf(b, rows[k].id)
    {
      var j :| 0 <= j < |a| && a[j] == rows[k].id;
      assert j < i && b[j] == rows[k].id;
    }
  }

  /**
   * Reordering a second time with the same list passes every uniqueness check
   * and changes nothing, when the ids are distinct or the first reorder
   * passed. (With a repeated id and a failed first run it can fail:
   * `RepeatedIdSecondRunCollides`.)
   */
  lemma ReorderTwiceSameResult<P>(rows: seq<Row<P>>, s: Id, ids: seq<Id>)
    requires (forall i, j | 0 <= i < j < |ids| :: ids[i] != ids[j]) || ReorderWritesFree(rows, s, ids, false)
    requires KeysUnique(Placed(rows, s, ids, false))
    ensures ReorderWritesFree(Placed(rows, s, ids, false), s, ids, false)
    ensures Placed(Placed(rows, s, ids, false), s, ids, false) == Placed(rows, s, ids, false)
  {
    var r1 := Placed(rows, s, ids, false);
    forall i: nat | i < |ids| ensures MoveFree(r1, s, ids, false, i) {
      var pre := Placed(r1, s, ids[..i], false);
      forall k | 0 <= k < |pre| && pre[k].id == ids[i] && pre[k].scope == s ensures SlotFree(pre, k, s, i) {
        forall j | 0 <= j < |pre| && j != k && pre[j].scope == s ensures pre[j].position != i {
          SecondRunSlotFree(rows, s, ids, i, k, j);
        }
      }
    }
    forall k | 0 <= k < |r1| && r1[k].scope == s && r1[k].id in ids
      ensures Placed(r1, s, ids, false)[k] == r1[k]
    {
      assert rows[k].id == r1[k].id;
    }
  }

  /** One slot of the second run: row `j` does not hold position `i` when row `k` moves there. */
  lemma SecondRunSlotFree<P>(rows: seq<Row<P>>, s: Id, ids: seq<Id>, i: int, k: int, j: int)
    requires (forall i, j | 0 <= i < j < |ids| :: ids[i] != ids[j]) || ReorderWritesFree(rows, s, ids, false)
    requires KeysUnique(Placed(rows, s, ids, false))
    requires 0 <= i < |ids| && 0 <= k < |rows| && 0 <= j < |rows| && j != k
    requires rows[k].id == ids[i] && rows[k].scope == s && rows[j].scope == s
    ensures Placed(Placed(rows, s, ids, false), s, ids[..i], false)[j].position != i
  {
    var r1 := Placed(rows, s, ids, false);
    var pre := ids[..i];
    assert r1[j].id == rows[j].id && r1[j].scope == s && r1[k].scope == s;
    if j < k {
      assert r1[j].position != r1[k].position;
    } else {
      assert r1[k].position != r1[j].position;
    }
    if rows[j].id in pre {
      var l := LastIndexOf(pre, rows[j].id);
      assert l < i;
    } else if rows[j].id in ids {
      var l := LastIndexOf(ids, rows[j].id);
      assert r1[j].position == l;
      assert ids[l] == rows[j].id;
    } else if LastIndexOf(ids, ids[i]) != i {
      var l := LastIndexOf(ids, ids[i]);
      assert ids[i] == ids[l] && i < l;
      assert MoveFree(rows, s, ids, false, i);
      assert PositionWriteFree(Placed(rows, s, pre, false), ids[i], s, i);
      assert Placed(rows, s, pre, false)[k].id == ids[i] && Placed(rows, s, pre, false)[k].scope == s;
      assert Placed(rows, s, pre, false)[j] == rows[j];
    }
  }

  /**
   * Why `ReorderTwiceSameResult` needs distinct ids or a passing first run:
   * with `[a, b, a]` the placement leaves position 0 to nobody listed, so an
   * unlisted `c` at 0 keeps the placement key-unique, yet the second run's
   * first write (`a` to 0) collides with `c`.
   */
  lemma RepeatedIdSecondRunCollides<P>(a: Id, b: Id, c: Id, s: Id, payload: P)
    requires a != b && a != c && b != c
    ensures
      var rows := [Row(a, s, 7, payload), Row(b, s, 8, payload), Row(c, s, 0, payload)];
      var ids := [a, b, a];
      && KeysUnique(Placed(rows, s, ids, false))
      && !ReorderWritesFree(Placed(rows, s, ids, false), s, ids, false)
  {
    var rows := [Row(a, s, 7, payload), Row(b, s, 8, payload), Row(c, s, 0, payload)];
    var ids := [a, b, a];
    var r1 := Placed(rows, s, ids, false);
    assert LastIndexOf(ids, a) == 2;
    assert ids[..2] == [a, b];
    assert LastIndexOf(ids, b) == 1;
    assert r1 == [Row(a, s, 2, payload), Row(b, s, 1, payload), Row(c, s, 0, payload)];
    assert ids[..0] == [];
    assert Placed(r1, s, ids[..0], false) == r1;
    assert r1[2].scope == s && r1[2].position == 0 && 2 != 0;
    assert !SlotFree(r1, 0, s, 0);
    assert !MoveFree(r1, s, ids, false, 0);
  }

  /**
   * The plain reorder loop is refused as soon as it moves a row onto the
   * position of another row of the scope that has not moved yet: when the
   * rows named by `ids[..i]` already sit at their indices, and a different row
   * of the scope sits at `i`, the write for `ids[i]` collides.
   */
  lemma ReorderCollides<P>(rows: seq<Row<P>>, s: Id, ids: seq<Id>, i: int, k: int, m: int)
    requires 0 <= i < |ids|
    requires forall j, q | 0 <= j < i && 0 <= q < |rows| && rows[q].scope == s && rows[q].id == ids[j] :: rows[q].position == j
    requires 0 <= k < |rows| && rows[k].id == ids[i] && rows[k].scope == s
    requires 0 <= m < |rows| && m != k && rows[m].scope == s && rows[m].position == i
    ensures !ReorderWritesFree(rows, s, ids, false)
  {
    var q0 := Placed(rows, s, ids[..i], false);
    forall q | 0 <= q < |rows| && rows[q].scope == s && rows[q].id in ids[..i]
      ensures LastIndexOf(ids[..i], rows[q].id) == rows[q].position
    {
      var j := LastIndexOf(ids[..i], rows[q].id);
      assert ids[j] == rows[q].id;
    }
    assert q0 == rows;
    assert !SlotFree(q0, k, s, i);
    assert !MoveFree(rows, s, ids, false, i);
  }

  /**
   * With distinct ids, the reorder gives every listed row of the scope the
   * index of its id, and leaves every other row as it was; no id, scope or
   * payload changes.
   */
  lemma PlacedGivesIndex<P>(rows: seq<Row<P>>, s: Id, ids: seq<Id>)
    requires forall i, j | 0 <= i < j < |ids| :: ids[i] != ids[j]
    ensures forall i, k | 0 <= i < |ids| && 0 <= k < |rows| && rows[k].scope == s && rows[k].id == ids[i] ::
      Placed(rows, s, ids, false)[k].position == i
    ensures forall k | 0 <= k < |rows| && (rows[k].scope != s || rows[k].id !in ids) ::
      Placed(rows, s, ids, false)[k] == rows[k]
    ensures forall k | 0 <= k < |rows| ::
      var x := Placed(rows, s, ids, false)[k];
      x.id == rows[k].id && x.scope == rows[k].scope && x.payload == rows[k].payload
  {
    forall i, k | 0 <= i < |ids| && 0 <= k < |rows| && rows[k].scope == s && rows[k].id == ids[i]
      ensures Placed(rows, s, ids, false)[k].position == i
    {
      var t := LastIndexOf(ids, ids[i]);
    }
  }

  /**
   * On a scope whose positions run over the list's indices, the plain reorder
   * loop gets through only if every listed row already sits at its index: a
   * reorder that moves anything is refused and rolled back.
   */
  lemma {:induction false} PlainReorderMovesNothing<P>(rows: seq<Row<P>>, s: Id, ids: seq<Id>, n: int)
    requires 0 <= n <= |ids|
    requires forall i | 0 <= i < |ids| :: Occupied(rows, s, i)
    requires ReorderWritesFree(rows, s, ids, false)
    ensures forall i, k | 0 <= i < n && 0 <= k < |rows| && rows[k].scope == s && rows[k].id == ids[i] ::
      rows[k].position == i
    decreases n
  {
    if n > 0 {
      PlainReorderMovesNothing(rows, s, ids, n - 1);
      var i := n - 1;
      forall k | 0 <= k < |rows| && rows[k].scope == s && rows[k].id == ids[i]
        ensures rows[k].position == i
      {
        if rows[k].position != i {
          assert Occupied(rows, s, i);
          var m :| 0 <= m < |rows| && rows[m].scope == s && rows[m].position == i;
          ReorderCollides(rows, s, ids, i, k, m);
        }
      }
    }
  }

  /** Hence a plain reorder that gets through on such a scope leaves the rows as they were. */
  lemma PlainReorderChangesNothing<P>(rows: seq<Row<P>>, s: Id, ids: seq<Id>)
    requires forall i | 0 <= i < |ids| :: Occupied(rows, s, i)
    requires ReorderWritesFree(rows, s, ids, false)
    ensures Placed(rows, s, ids, false) == rows
  {
    PlainReorderMovesNothing(rows, s, ids, |ids|);
    forall k | 0 <= k < |rows| && rows[k].scope == s && rows[k].id in ids
      ensures Slot(LastIndexOf(ids, rows[k].id), false) == rows[k].position
    {
    }
  }

  /** Swapping the two rows of a scope numbered 0 and 1 is refused. */
  lemma SwapOfTwoCollides<P>(a: Id, b: Id, s: Id, x: P, y: P)
    requires a != b
    ensures !ReorderWritesFree([Row(a, s, 0, x), Row(b, s, 1, y)], s, [b, a], false)
  {
    ReorderCollides([Row(a, s, 0, x), Row(b, s, 1, y)], s, [b, a], 0, 1, 0);
  }

  /** Staging: while moving listed rows to `-i - 1`, no write collides. */
  lemma StagingWriteFree<P>(rows: seq<Row<P>>, s: Id, ids: seq<Id>, i: int)
    requires 0 <= i < |ids|
    ensures NonNegativeIn(rows, s) ==> PositionWriteFree(Placed(rows, s, ids[..i], true), ids[i], s, -i - 1)
  {
    if !NonNegativeIn(rows, s) { return; }
    var q := Placed(rows, s, ids[..i], true);
    forall k, j | 0 <= k < |q| && q[k].id == ids[i] && q[k].scope == s && 0 <= j < |q| && j != k && q[j].scope == s
      ensures q[j].position != -i - 1
    {
      if rows[j].id in ids[..i] {
        var t := LastIndexOf(ids[..i], rows[j].id);
        assert q[j].position == -t - 1;
      }
    }
  }

  /** Unstaging: once every row of the scope is staged, moving them to their indices never collides. */
  lemma UnstagingWriteFree<P>(rows: seq<Row<P>>, s: Id, ids: seq<Id>, i: int)
    requires forall k | 0 <= k < |rows| && rows[k].scope == s :: rows[k].id in ids
    requires 0 <= i < |ids|
    ensures PositionWriteFree(Placed(Placed(rows, s, ids, true), s, ids[..i], false), ids[i], s, i)
  {
    var p1 := Placed(rows, s, ids, true);
    var q := Placed(p1, s, ids[..i], false);
    forall k, j | 0 <= k < |q| && q[k].id == ids[i] && q[k].scope == s && 0 <= j < |q| && j != k && q[j].scope == s
      ensures q[j].position != i
    {
      if p1[j].id in ids[..i] {
        var t := LastIndexOf(ids[..i], p1[j].id);
        assert q[j].position == t;
      } else {
        assert rows[j].id in ids;
        assert p1[j].position < 0;
      }
    }
  }

  lemma PlacedOverStaged<P>(rows: seq<Row<P>>, s: Id, ids: seq<Id>)
    ensures Placed(Placed(rows, s, ids, true), s, ids, false) == Placed(rows, s, ids, false)
  {
  }

  // ---------------------------------------------------------------------------
  // The table
  // ---------------------------------------------------------------------------

  class Table<P> {
    var rows: seq<Row<P>>
    /** The snapshot taken by BEGIN, restored by ROLLBACK. */
    var saved: seq<Row<P>>

    ghost predicate Valid()
      reads this
    {
      KeysUnique(rows) && IdsUnique(rows) && KeysUnique(saved) && IdsUnique(saved)
    }

    constructor ()
      ensures Valid() && rows == [] && saved == []
    {
      rows := [];
      saved := [];
    }

    /** BEGIN */
    method Begin()
      requires Valid()
      modifies this`saved
      ensures Valid() && saved == rows
    {
      saved := rows;
    }

    /** ROLLBACK */
    method Rollback()
      requires Valid()
      modifies this`rows
      ensures Valid() && rows == saved
    {
      rows := saved;
    }

    /** One row write of `position`, refused when another row of its scope holds `pos`. */
    method WritePosition(k: nat, pos: int) returns (ok: bool)
      requires Valid() && k < |rows|
      modifies this`rows
      ensures Valid()
      ensures ok == SlotFree(old(rows), k, old(rows)[k].scope, pos)
      ensures rows == if ok then old(rows)[k := old(rows)[k].(position := pos)] else old(rows)
    {
      ok := SlotFree(rows, k, rows[k].scope, pos);
      if ok {
        var w := rows[k := rows[k].(position := pos)];
        assert forall j | 0 <= j < |w| && j != k :: w[j] == rows[j];
        rows := w;
      }
    }

    /**
     * `UPDATE ... SET position = -position - offset WHERE scope = s AND c`:
     * the affected rows are rewritten one at a time in table order; the first
     * refused write aborts the statement and undoes its earlier writes.
     */
    /** The UPDATE has made its first `k` row writes on the rows it started from. */
    ghost predicate Midway(start: seq<Row<P>>, s: Id, c: Cond, offset: int, k: nat)
      reads this
    {
      Valid() && k <= |start| && rows == Rewrite(start, s, c, offset, Upto(k)) && FirstWritesFree(start, s, c, offset, k)
    }

    method UpdatePositions(s: Id, c: Cond, offset: int) returns (ok: bool)
      requires Valid()
      modifies this`rows
      ensures Valid()
      ensures ok == RowByRowFree(old(rows), s, c, offset)
      ensures rows == if ok then Rewrite(old(rows), s, c, offset, Upto(|old(rows)|)) else old(rows)
    {
      var start := rows;
      var k := 0;
      while k < |start|
        invariant Midway(start, s, c, offset, k)
      {
        ok := RewriteRow(start, s, c, offset, k);
        if !ok {
          FirstWritesFreeShrinks(start, s, c, offset, k + 1, |start|);
          rows := start;
          return;
        }
        k := k + 1;
      }
      ok := true;
    }

    /** The write the UPDATE makes to row `k`, if the row is affected. */
    method RewriteRow(start: seq<Row<P>>, s: Id, c: Cond, offset: int, k: nat) returns (ok: bool)
      requires Midway(start, s, c, offset, k) && k < |start|
      modifies this`rows
      ensures Valid()
      ensures ok == FirstWritesFree(start, s, c, offset, k + 1)
      ensures ok ==> Midway(start, s, c, offset, k + 1)
    {
      RewriteStep(start, s, c, offset, k);
      ok := true;
      if Affected(rows[k], s, c) {
        ok := WritePosition(k, -rows[k].position - offset);
      }
    }

    /** `UPDATE ... SET position = pos WHERE id = id AND scope = s`. */
    method SetPositionWhere(id: Id, s: Id, pos: int) returns (ok: bool)
      requires Valid()
      modifies this`rows
      ensures Valid()
      ensures ok == PositionWriteFree(old(rows), id, s, pos)
      ensures rows == if ok then WithPosition(old(rows), id, s, pos) else old(rows)
    {
      var k := 0;
      while k < |rows| && !(rows[k].id == id && rows[k].scope == s)
        invariant 0 <= k <= |rows|
        invariant forall j | 0 <= j < k :: !(rows[j].id == id && rows[j].scope == s)
      {
        k := k + 1;
      }
      if k == |rows| {
        assert WithPosition(rows, id, s, pos) == rows;
        return true;
      }
      assert forall j | 0 <= j < |rows| && j != k :: rows[j].id != id;
      ok := WritePosition(k, pos);
    }

    /** `INSERT`: refused when the id or the (scope, position) pair is taken. */
    method Insert(r: Row<P>) returns (ok: bool)
      requires Valid()
      modifies this`rows
      ensures Valid()
      ensures ok == (!HasId(old(rows), r.id) && SlotFree(old(rows), |old(rows)|, r.scope, r.position))
      ensures rows == if ok then old(rows) + [r] else old(rows)
    {
      ok := !HasId(rows, r.id) && SlotFree(rows, |rows|, r.scope, r.position);
      if ok {
        rows := rows + [r];
      }
    }

    /** `DELETE ... WHERE <m>`: the other rows stay, in order and with their positions. */
    method DeleteWhere(m: Match)
      requires Valid()
      modifies this`rows
      ensures Valid()
      ensures rows == Filter(old(rows), m, false)
    {
      FilterKeepsUnique(rows, m, false);
      rows := Filter(rows, m, false);
    }

    /** `UPDATE ... SET <payload columns> WHERE id = id`. */
    method PatchPayload(id: Id, g: P -> P)
      requires Valid()
      modifies this`rows
      ensures Valid()
      ensures rows == PatchWhere(old(rows), id, g)
    {
      rows := PatchWhere(rows, id, g);
    }

    /** The reorder loop has moved the rows named by `ids[..i]` of the table it started from. */
    ghost predicate Placing(base: seq<Row<P>>, s: Id, ids: seq<Id>, staged: bool, i: nat)
      reads this
    {
      Valid() && i <= |ids| && rows == Placed(base, s, ids[..i], staged)
    }

    /** One write of the reorder loop: the row `ids[i]` of scope `s` moves to `Slot(i, staged)`. */
    method MoveRow(ghost base: seq<Row<P>>, s: Id, ids: seq<Id>, staged: bool, i: nat) returns (ok: bool)
      requires Placing(base, s, ids, staged, i) && i < |ids|
      modifies this`rows
      ensures Valid()
      ensures ok == MoveFree(base, s, ids, staged, i)
      ensures ok ==> Placing(base, s, ids, staged, i + 1)
      ensures !ok ==> rows == old(rows)
    {
      ok := SetPositionWhere(ids[i], s, Slot(i, staged));
      PlacedStep(base, s, ids, i, staged);
    }

    /**
     * The reorder loop: BEGIN, then `UPDATE ... SET position = i WHERE id = ids[i]
     * AND scope = s` for each index; a refused write rolls everything back.
     */
    method Reorder(s: Id, ids: seq<Id>) returns (r: Result<(), DbError>)
      requires Valid()
      modifies this
      ensures Valid()
      ensures r.Success? == ReorderWritesFree(old(rows), s, ids, false)
      ensures r.Failure? ==> r.error == UniqueViolation
      ensures rows == if r.Success? then Placed(old(rows), s, ids, false) else old(rows)
    {
      Begin();
      var i := 0;
      while i < |ids|
        invariant Placing(saved, s, ids, false, i) && saved == old(rows)
        invariant FirstMovesFree(saved, s, ids, false, i)
      {
        var ok := MoveRow(saved, s, ids, false, i);
        if !ok {
          FirstMovesFreeIff(saved, s, ids, false, |ids|);
          Rollback();
          return Failure(UniqueViolation);
        }
        i := i + 1;
      }
      FirstMovesFreeIff(saved, s, ids, false, |ids|);
      assert ids[..|ids|] == ids;
      r := Success(());
    }

    /**
     * Reorder as the design intends it: the list must name exactly the rows of
     * the scope, and every listed row first moves to the staging slot `-i - 1`
     * and then to `i`, so that no write meets a row that has not moved yet.
     */
    method ReorderStaged(s: Id, ids: seq<Id>) returns (r: Result<(), DbError>)
      requires Valid()
      modifies this
      ensures Valid()
      ensures r.Failure? ==> rows == old(rows)
      ensures r == Failure(ReorderMismatch) <==> !SameMembers(old(rows), s, ids)
      ensures r.Success? ==> rows == Placed(old(rows), s, ids, false)
      ensures SameMembers(old(rows), s, ids) && NonNegativeIn(old(rows), s) ==> r.Success?
    {
      if !SameMembers(rows, s, ids) {
        return Failure(ReorderMismatch);
      }
      Begin();
      var ok := Stage(s, ids);
      if !ok {
        Rollback();
        return Failure(UniqueViolation);
      }
      Unstage(s, ids, saved);
      PlacedOverStaged(saved, s, ids);
      r := Success(());
    }

    /** First phase of the staged reorder: row `ids[i]` moves to `-i - 1`. */
    method Stage(s: Id, ids: seq<Id>) returns (ok: bool)
      requires Valid()
      modifies this`rows
      ensures Valid()
      ensures ok ==> rows == Placed(old(rows), s, ids, true)
      ensures NonNegativeIn(old(rows), s) ==> ok
    {
      ghost var start := rows;
      var i := 0;
      while i < |ids|
        invariant Placing(start, s, ids, true, i)
      {
        StagingWriteFree(start, s, ids, i);
        ok := MoveRow(start, s, ids, true, i);
        if !ok {
          return;
        }
        i := i + 1;
      }
      assert ids[..|ids|] == ids;
      ok := true;
    }

    /** Second phase: every staged row moves from `-i - 1` to `i`. */
    method Unstage(s: Id, ids: seq<Id>, ghost base: seq<Row<P>>)
      requires Valid() && rows == Placed(base, s, ids, true)
      requires forall k | 0 <= k < |base| && base[k].scope == s :: base[k].id in ids
      modifies this`rows
      ensures Valid()
      ensures rows == Placed(old(rows), s, ids, false)
    {
      ghost var staged := rows;
      var i := 0;
      while i < |ids|
        invariant Placing(staged, s, ids, false, i)
      {
        UnstagingWriteFree(base, s, ids, i);
        var ok := MoveRow(staged, s, ids, false, i);
        assert ok;
        i := i + 1;
      }
      assert ids[..|ids|] == ids;
    }
  }
}
