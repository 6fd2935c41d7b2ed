/**
 * Ordering of records by an integer key, as done by `ORDER BY position ASC`
 * in the store and by `sort((a, b) => a.position - b.position)` in the client.
 * The sort is stable, as JavaScript's `Array.prototype.sort` is (`SortByStable`).
 */
module Ordering {

  ghost predicate Sorted<T>(s: seq<T>, key: T -> int) {
    forall i, j :: 0 <= i < j < |s| ==> key(s[i]) <= key(s[j])
  }

  ghost predicate StrictlyAscending<T>(s: seq<T>, key: T -> int) {
    forall i, j :: 0 <= i < j < |s| ==> key(s[i]) < key(s[j])
  }

  /** No two entries (at different indices) share a key. */
  ghost predicate KeysDistinct<T>(s: seq<T>, key: T -> int) {
    forall i, j :: 0 <= i < j < |s| ==> key(s[i]) != key(s[j])
  }

  /** `a` is `b` with some entries left out and the others kept in their order. */
  ghost predicate Subsequence<T>(a: seq<T>, b: seq<T>)
    decreases |b|
  {
    if a == [] then true
    else if b == [] then false
    else (a[0] == b[0] && Subsequence(a[1..], b[1..])) || Subsequence(a, b[1..])
  }

  lemma {:induction false} SubsequenceMembers<T>(a: seq<T>, b: seq<T>)
    requires Subsequence(a, b)
    ensures forall x | x in a :: x in b
    decreases |b|
  {
    if a != [] {
      if a[0] == b[0] && Subsequence(a[1..], b[1..]) {
        SubsequenceMembers(a[1..], b[1..]);
        assert forall x | x in a :: x == a[0] || x in a[1..];
      } else {
        SubsequenceMembers(a, b[1..]);
      }
    }
  }

  /** Leaving entries out of a sorted list keeps it sorted, and strictly so when it was strict. */
  lemma {:induction false} SubsequenceKeepsOrder<T>(a: seq<T>, b: seq<T>, key: T -> int)
    requires Subsequence(a, b)
    ensures Sorted(b, key) ==> Sorted(a, key)
    ensures StrictlyAscending(b, key) ==> StrictlyAscending(a, key)
    decreases |b|
  {
    if a != [] {
      if a[0] == b[0] && Subsequence(a[1..], b[1..]) {
        SubsequenceKeepsOrder(a[1..], b[1..], key);
        SubsequenceMembers(a[1..], b[1..]);
        forall j | 0 < j < |a| ensures a[j] in b[1..] {
          assert a[j] == a[1..][j - 1];
        }
      } else {
        SubsequenceKeepsOrder(a, b[1..], key);
      }
    }
  }

  /** Inserts `x` into sorted `s` after every entry whose key is at most `key(x)`. */
  function InsertBy<T>(s: seq<T>, x: T, key: T -> int): (r: seq<T>)
    requires Sorted(s, key)
    ensures Sorted(r, key)
    ensures multiset(r) == multiset(s) + multiset{x}
    ensures |r| == |s| + 1
    decreases |s|
  {
    if s == [] then [x]
    else if key(s[|s| - 1]) <= key(x) then
      PrefixBelowLast(s + [x], key);
      s + [x]
    else
      var front, last := s[..|s| - 1], s[|s| - 1];
      assert s == front + [last];
      PrefixBelowLast(s, key);
      var r' := InsertBy(front, x, key);
      MembersCarryOver(front, r', x, y => key(y) <= key(last));
      AppendAtTop(r', last, key);
      r' + [last]
  }

  /** In a sorted sequence the prefix is sorted and no entry of it is above the last entry. */
  lemma PrefixBelowLast<T>(s: seq<T>, key: T -> int)
    requires s != []
    ensures Sorted(s, key) ==> Sorted(s[..|s| - 1], key)
    ensures Sorted(s, key) ==> forall y | y in s[..|s| - 1] :: key(y) <= key(s[|s| - 1])
    ensures StrictlyAscending(s, key) ==> StrictlyAscending(s[..|s| - 1], key)
    ensures StrictlyAscending(s, key) ==> forall y | y in s[..|s| - 1] :: key(y) < key(s[|s| - 1])
  {
  }

  /** A property held by every entry of `front` and by `x` holds for every entry of `r`. */
  lemma MembersCarryOver<T>(front: seq<T>, r: seq<T>, x: T, p: T -> bool)
    requires multiset(r) == multiset(front) + multiset{x}
    requires forall y | y in front :: p(y)
    requires p(x)
    ensures forall y | y in r :: p(y)
  {
    forall y | y in r ensures p(y) {
      assert y in multiset(r);
      if y != x {
        assert y in multiset(front);
      }
    }
  }

  /** Appending an entry at least as high as every other keeps a sequence sorted. */
  lemma AppendAtTop<T>(s: seq<T>, x: T, key: T -> int)
    requires forall y | y in s :: key(y) <= key(x)
    ensures Sorted(s, key) ==> Sorted(s + [x], key)
    ensures StrictlyAscending(s, key) && (forall y | y in s :: key(y) != key(x)) ==> StrictlyAscending(s + [x], key)
  {
    forall i | 0 <= i < |s| ensures key((s + [x])[i]) <= key(x) {
      assert (s + [x])[i] == s[i];
    }
  }

  /** Stable sort by `key`: the last entry is inserted into the sorted prefix. */
  function SortBy<T>(s: seq<T>, key: T -> int): (r: seq<T>)
    ensures Sorted(r, key)
    ensures multiset(r) == multiset(s)
    ensures |r| == |s|
    decreases |s|
  {
    if s == [] then []
    else
      assert s == s[..|s| - 1] + [s[|s| - 1]];
      InsertBy(SortBy(s[..|s| - 1], key), s[|s| - 1], key)
  }

  /** The entries of `s` whose key is `v`, in their order in `s`. */
  function WithKey<T>(s: seq<T>, key: T -> int, v: int): seq<T>
    decreases |s|
  {
    if s == [] then []
    else WithKey(s[..|s| - 1], key, v) + (if key(s[|s| - 1]) == v then [s[|s| - 1]] else [])
  }

  /** `WithKey` of a sequence extended by one entry. */
  lemma WithKeySnoc<T>(t: seq<T>, y: T, key: T -> int, v: int)
    ensures WithKey(t + [y], key, v) == WithKey(t, key, v) + (if key(y) == v then [y] else [])
  {
    assert (t + [y])[..|t|] == t;
  }

  /** Inserting `x` puts it after every entry that shares its key, and moves no entry among equals. */
  lemma {:induction false} InsertByStable<T>(s: seq<T>, x: T, key: T -> int, v: int)
    requires Sorted(s, key)
    ensures WithKey(InsertBy(s, x, key), key, v) == WithKey(s, key, v) + (if key(x) == v then [x] else [])
    decreases |s|
  {
    if s == [] {
      WithKeySnoc([], x, key, v);
      assert [] + [x] == [x];
    } else if key(s[|s| - 1]) <= key(x) {
      WithKeySnoc(s, x, key, v);
    } else {
      var front, last := s[..|s| - 1], s[|s| - 1];
      assert s == front + [last];
      PrefixBelowLast(s, key);
      var r' := InsertBy(front, x, key);
      assert InsertBy(s, x, key) == r' + [last];
      InsertByStable(front, x, key, v);
      PassLast(front, r', last, x, key, v);
    }
  }

  /**
   * The step where `x` goes in before `last`: both keep their places among
   * equals, since `last`'s key is above `x`'s and at most one of them has key `v`.
   */
  lemma PassLast<T>(front: seq<T>, r': seq<T>, last: T, x: T, key: T -> int, v: int)
    requires key(x) < key(last)
    requires WithKey(r', key, v) == WithKey(front, key, v) + (if key(x) == v then [x] else [])
    ensures WithKey(r' + [last], key, v) == WithKey(front + [last], key, v) + (if key(x) == v then [x] else [])
  {
    WithKeySnoc(r', last, key, v);
    WithKeySnoc(front, last, key, v);
    var a, xs, ls := WithKey(front, key, v), (if key(x) == v then [x] else []), (if key(last) == v then [last] else []);
    assert xs == [] || ls == [];
    assert (a + xs) + ls == (a + ls) + xs;
  }

  /**
   * The sort is stable: for every key, the entries with that key come out in
   * the order they went in, as with `Array.prototype.sort`.
   */
  lemma {:induction false} SortByStable<T>(s: seq<T>, key: T -> int, v: int)
    ensures WithKey(SortBy(s, key), key, v) == WithKey(s, key, v)
    decreases |s|
  {
    if s != [] {
      var front, last := s[..|s| - 1], s[|s| - 1];
      SortByStable(front, key, v);
      InsertByStable(SortBy(front, key), last, key, v);
    }
  }

  /** Sequences with the same multiset have the same members. */
  lemma SameMembersOfMultiset<T>(a: seq<T>, b: seq<T>)
    requires multiset(a) == multiset(b)
    ensures forall x | x in a :: x in b
    ensures forall x | x in b :: x in a
  {
    forall x | x in a ensures x in b {
      assert x in multiset(a);
    }
    forall x | x in b ensures x in a {
      assert x in multiset(b);
    }
  }

  /** Sorting a sequence that is already sorted leaves it as it is. */
  lemma {:induction false} SortOfSorted<T>(s: seq<T>, key: T -> int)
    requires Sorted(s, key)
    ensures SortBy(s, key) == s
    decreases |s|
  {
    if s != [] {
      var front, last := s[..|s| - 1], s[|s| - 1];
      assert s == front + [last];
      PrefixBelowLast(s, key);
      SortOfSorted(front, key);
      assert SortBy(s, key) == InsertBy(SortBy(front, key), last, key);
      if front != [] {
        assert front[|front| - 1] in front;
      }
      assert InsertBy(front, last, key) == front + [last];
    }
  }

  /** Appending an entry whose key is at least every other key and sorting gives the plain append. */
  lemma AppendMaxThenSort<T>(s: seq<T>, x: T, key: T -> int)
    requires Sorted(s, key)
    requires forall y | y in s :: key(y) <= key(x)
    ensures SortBy(s + [x], key) == s + [x]
  {
    assert Sorted(s + [x], key) by {
      forall i, j | 0 <= i < j < |s + [x]| ensures key((s + [x])[i]) <= key((s + [x])[j]) {
        if j == |s| { assert (s + [x])[i] in s; }
      }
    }
    SortOfSorted(s + [x], key);
  }

  /** Inserting a key not yet present into a strictly ascending sequence keeps it strictly ascending. */
  lemma {:induction false} InsertKeepsStrict<T>(s: seq<T>, x: T, key: T -> int)
    requires StrictlyAscending(s, key)
    requires forall y | y in s :: key(y) != key(x)
    ensures StrictlyAscending(InsertBy(s, x, key), key)
    decreases |s|
  {
    if s == [] {
    } else if key(s[|s| - 1]) <= key(x) {
      PrefixBelowLast(s + [x], key);
      AppendAtTop(s, x, key);
    } else {
      var front, last := s[..|s| - 1], s[|s| - 1];
      assert s == front + [last];
      PrefixBelowLast(s, key);
      InsertKeepsStrict(front, x, key);
      var r' := InsertBy(front, x, key);
      assert InsertBy(s, x, key) == r' + [last];
      MembersCarryOver(front, r', x, y => key(y) < key(last));
      AppendAtTop(r', last, key);
    }
  }

  /** When no two entries share a key, the sorted sequence is strictly ascending. */
  lemma {:induction false} SortStrictWhenKeysDistinct<T>(s: seq<T>, key: T -> int)
    requires KeysDistinct(s, key)
    ensures StrictlyAscending(SortBy(s, key), key)
    decreases |s|
  {
    if s != [] {
      var front, last := s[..|s| - 1], s[|s| - 1];
      SortStrictWhenKeysDistinct(front, key);
      forall y | y in SortBy(front, key) ensures key(y) != key(last) {
        assert y in multiset(SortBy(front, key));
        assert y in multiset(front);
        var k :| 0 <= k < |front| && front[k] == y;
        assert s[k] == y;
      }
      InsertKeepsStrict(SortBy(front, key), last, key);
    }
  }
}
