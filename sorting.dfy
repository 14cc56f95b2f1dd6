/**
 * The in-place array algorithms behind `[...queries].sort(compareFn)` and
 * `sorted.reverse()`: a stable insertion sort and a reversal, each proved
 * against a function on sequences, and the properties of those functions.
 *
 * A comparator follows the `Array.prototype.sort` convention: `cmp(x, y) <= 0`
 * means that `x` may stay in front of `y`.
 */
module Sorting {

  /** The comparator induces a total preorder: any two elements are related, and relation is transitive. */
  ghost predicate TotalPreorder<T(!new)>(cmp: (T, T) -> int) {
    && (forall x, y :: cmp(x, y) <= 0 || cmp(y, x) <= 0)
    && (forall x, y, z :: cmp(x, y) <= 0 && cmp(y, z) <= 0 ==> cmp(x, z) <= 0)
  }

  /** Every element may stay in front of every later one. */
  ghost predicate SortedBy<T>(s: seq<T>, cmp: (T, T) -> int) {
    forall i, j :: 0 <= i < j < |s| ==> cmp(s[i], s[j]) <= 0
  }

  /**
   * Inserts `x` into `s` from the right: it passes every element the comparator
   * puts strictly after it and stops at the first one that may stay in front,
   * so equal elements keep their order (stability).
   */
  function Insert<T>(x: T, s: seq<T>, cmp: (T, T) -> int): (r: seq<T>)
    ensures |r| == |s| + 1
    decreases |s|
  {
    if s == [] then [x]
    else if cmp(s[|s| - 1], x) > 0 then Insert(x, s[..|s| - 1], cmp) + [s[|s| - 1]]
    else s + [x]
  }

  /** The stable insertion sort of `s`, as a function on sequences. */
  function InsertionSorted<T>(s: seq<T>, cmp: (T, T) -> int): (r: seq<T>)
    ensures |r| == |s|
  {
    if s == [] then [] else Insert(s[|s| - 1], InsertionSorted(s[..|s| - 1], cmp), cmp)
  }

  /** `s` read back to front. */
  function Reversed<T>(s: seq<T>): (r: seq<T>)
    ensures |r| == |s|
    ensures forall k :: 0 <= k < |s| ==> r[k] == s[|s| - 1 - k]
  {
    if s == [] then [] else Reversed(s[1..]) + [s[0]]
  }

  lemma {:induction false} InsertPermutes<T>(x: T, s: seq<T>, cmp: (T, T) -> int)
    ensures multiset(Insert(x, s, cmp)) == multiset(s) + multiset{x}
    decreases |s|
  {
    if s != [] && cmp(s[|s| - 1], x) > 0 {
      InsertPermutes(x, s[..|s| - 1], cmp);
      assert s == s[..|s| - 1] + [s[|s| - 1]];
    }
  }

  lemma MultisetSplitsLast<T>(s: seq<T>)
    requires s != []
    ensures multiset(s) == multiset(s[..|s| - 1]) + multiset{s[|s| - 1]}
  {
    assert s == s[..|s| - 1] + [s[|s| - 1]];
  }

  /** Sorting only rearranges: the result is a permutation of the input. */
  lemma {:induction false} InsertionSortedPermutes<T>(s: seq<T>, cmp: (T, T) -> int)
    ensures multiset(InsertionSorted(s, cmp)) == multiset(s)
  {
    if s != [] {
      var init, last := s[..|s| - 1], s[|s| - 1];
      MultisetSplitsLast(s);
      InsertionSortedPermutes(init, cmp);
      InsertPermutes(last, InsertionSorted(init, cmp), cmp);
    }
  }

  lemma SortedDropLast<T>(s: seq<T>, cmp: (T, T) -> int)
    requires s != [] && SortedBy(s, cmp)
    ensures SortedBy(s[..|s| - 1], cmp)
  {
    var init := s[..|s| - 1];
    forall i, j | 0 <= i < j < |init| ensures cmp(init[i], init[j]) <= 0 {
      assert init[i] == s[i] && init[j] == s[j];
    }
  }

  lemma SortedAppend<T>(p: seq<T>, y: T, cmp: (T, T) -> int)
    requires SortedBy(p, cmp)
    requires forall k :: 0 <= k < |p| ==> cmp(p[k], y) <= 0
    ensures SortedBy(p + [y], cmp)
  {
    var r := p + [y];
    forall i, j | 0 <= i < j < |r| ensures cmp(r[i], r[j]) <= 0 {
      assert r[i] == p[i];
      if j < |p| {
        assert r[j] == p[j];
      }
    }
  }

  /** Inserting an element that may stay in front of `y` into a sequence bounded by `y` keeps it bounded by `y`. */
  lemma InsertBoundedBy<T>(x: T, s: seq<T>, y: T, cmp: (T, T) -> int)
    requires cmp(x, y) <= 0
    requires forall k :: 0 <= k < |s| ==> cmp(s[k], y) <= 0
    ensures forall k :: 0 <= k < |s| + 1 ==> cmp(Insert(x, s, cmp)[k], y) <= 0
  {
    InsertPermutes(x, s, cmp);
    var p := Insert(x, s, cmp);
    forall k | 0 <= k < |p| ensures cmp(p[k], y) <= 0 {
      var e := p[k];
      assert e in multiset(p);
      if e != x {
        assert e in multiset(s);
        var i :| 0 <= i < |s| && s[i] == e;
      }
    }
  }

  lemma {:induction false} InsertKeepsSorted<T(!new)>(x: T, s: seq<T>, cmp: (T, T) -> int)
    requires TotalPreorder(cmp)
    requires SortedBy(s, cmp)
    ensures SortedBy(Insert(x, s, cmp), cmp)
    decreases |s|
  {
    if s != [] {
      var init, last := s[..|s| - 1], s[|s| - 1];
      SortedDropLast(s, cmp);
      assert forall k :: 0 <= k < |init| ==> cmp(init[k], last) <= 0 by {
        forall k | 0 <= k < |init| ensures cmp(init[k], last) <= 0 {
          assert init[k] == s[k];
        }
      }
      if cmp(last, x) > 0 {
        InsertKeepsSorted(x, init, cmp);
        InsertBoundedBy(x, init, last, cmp);
        SortedAppend(Insert(x, init, cmp), last, cmp);
      } else {
        forall k | 0 <= k < |s| ensures cmp(s[k], x) <= 0 {
          if k < |init| {
            assert s[k] == init[k];
          }
        }
        SortedAppend(s, x, cmp);
      }
    }
  }

  /** Under a total preorder the insertion sort is non-decreasing. */
  lemma {:induction false} InsertionSortedIsSorted<T(!new)>(s: seq<T>, cmp: (T, T) -> int)
    requires TotalPreorder(cmp)
    ensures SortedBy(InsertionSorted(s, cmp), cmp)
  {
    if s != [] {
      InsertionSortedIsSorted(s[..|s| - 1], cmp);
      InsertKeepsSorted(s[|s| - 1], InsertionSorted(s[..|s| - 1], cmp), cmp);
    }
  }

  /** Stability at its plainest: an input that is already in order comes back unchanged. */
  lemma {:induction false} InsertionSortedKeepsSortedInput<T>(s: seq<T>, cmp: (T, T) -> int)
    requires SortedBy(s, cmp)
    ensures InsertionSorted(s, cmp) == s
  {
    if s != [] {
      var init := s[..|s| - 1];
      assert SortedBy(init, cmp) by {
        forall i, j | 0 <= i < j < |init| ensures cmp(init[i], init[j]) <= 0 {
          assert init[i] == s[i] && init[j] == s[j];
        }
      }
      InsertionSortedKeepsSortedInput(init, cmp);
      if |s| >= 2 {
        assert cmp(s[|s| - 2], s[|s| - 1]) <= 0;
      }
      assert s == init + [s[|s| - 1]];
    }
  }

  /** Reversal only rearranges. */
  lemma {:induction false} ReversedPermutes<T>(s: seq<T>)
    ensures multiset(Reversed(s)) == multiset(s)
  {
    if s != [] {
      ReversedPermutes(s[1..]);
      assert s == [s[0]] + s[1..];
    }
  }

  /** Reversing twice gives back the original sequence. */
  lemma ReversedTwice<T>(s: seq<T>)
    ensures Reversed(Reversed(s)) == s
  {
    var r := Reversed(Reversed(s));
    assert forall k :: 0 <= k < |s| ==> r[k] == s[k];
  }

  /** The reverse of a non-decreasing sequence is non-increasing. */
  lemma ReversedOfSortedDescends<T>(s: seq<T>, cmp: (T, T) -> int)
    requires SortedBy(s, cmp)
    ensures forall i, j :: 0 <= i < j < |s| ==> cmp(Reversed(s)[j], Reversed(s)[i]) <= 0
  {
    var r := Reversed(s);
    forall i, j | 0 <= i < j < |s| ensures cmp(r[j], r[i]) <= 0 {
      assert r[j] == s[|s| - 1 - j] && r[i] == s[|s| - 1 - i];
    }
  }

  /** The insertion from the right stops at once when the last element may stay in front of `x`. */
  lemma InsertStops<T>(x: T, front: seq<T>, cmp: (T, T) -> int)
    requires front == [] || cmp(front[|front| - 1], x) <= 0
    ensures Insert(x, front, cmp) == front + [x]
  {
  }

  /**
   * When `x` must pass exactly the elements of `p[j..]`, inserting it puts it
   * between `p[..j]` and `p[j..]`.
   */
  lemma {:induction false} InsertAfterPassing<T>(x: T, p: seq<T>, j: nat, cmp: (T, T) -> int)
    requires j <= |p|
    requires forall k :: j <= k < |p| ==> cmp(p[k], x) > 0
    requires j == 0 || cmp(p[j - 1], x) <= 0
    ensures Insert(x, p, cmp) == p[..j] + [x] + p[j..]
    decreases |p| - j
  {
    if j == |p| {
      InsertStops(x, p, cmp);
      assert p[..j] == p && p[j..] == [];
    } else {
      var init, last := p[..|p| - 1], p[|p| - 1];
      assert forall k :: j <= k < |init| ==> init[k] == p[k];
      assert j > 0 ==> init[j - 1] == p[j - 1];
      InsertAfterPassing(x, init, j, cmp);
      assert init[..j] == p[..j];
      assert init[j..] + [last] == p[j..];
    }
  }

  /**
   * Shifts one place right every element of the prefix `a[..i]` (which holds `p`)
   * that `x` must pass, from the right, and returns the hole where `x` belongs.
   */
  method ShiftGreater<T>(a: array<T>, i: nat, x: T, ghost p: seq<T>, cmp: (T, T) -> int) returns (j: nat)
    requires i < a.Length && p == a[..i]
    modifies a
    ensures j <= i
    ensures forall k :: 0 <= k < j ==> a[k] == p[k]
    ensures forall k :: j < k <= i ==> a[k] == p[k - 1]
    ensures forall k :: i < k < a.Length ==> a[k] == old(a[k])
    ensures forall k :: j <= k < i ==> cmp(p[k], x) > 0
    ensures j == 0 || cmp(p[j - 1], x) <= 0
  {
    j := i;
    while j > 0 && cmp(a[j - 1], x) > 0
      invariant 0 <= j <= i
      invariant forall k :: 0 <= k < j ==> a[k] == p[k]
      invariant forall k :: j < k <= i ==> a[k] == p[k - 1]
      invariant forall k :: i < k < a.Length ==> a[k] == old(a[k])
      invariant forall k :: j <= k < i ==> cmp(p[k], x) > 0
    {
      a[j] := a[j - 1];
      j := j - 1;
    }
  }

  /** Moves `a[i]` left into the sorted prefix `a[..i]`, as `Insert` does on sequences. */
  method InsertAt<T>(a: array<T>, i: nat, cmp: (T, T) -> int)
    requires i < a.Length
    modifies a
    ensures a[..i + 1] == Insert(old(a[i]), old(a[..i]), cmp)
    ensures a[i + 1..] == old(a[i + 1..])
  {
    var x := a[i];
    ghost var p := a[..i];
    var j := ShiftGreater(a, i, x, p, cmp);
    InsertAfterPassing(x, p, j, cmp);
    ghost var inserted := p[..j] + [x] + p[j..];
    a[j] := x;
    forall k | 0 <= k <= i ensures a[k] == inserted[k] {
      if k > j {
        assert inserted[k] == p[k - 1];
      }
    }
    assert a[..i + 1] == inserted;
  }

  /** Sorts `a` in place: the stable insertion sort of its old contents. */
  method SortInPlace<T>(a: array<T>, cmp: (T, T) -> int)
    modifies a
    ensures a[..] == InsertionSorted(old(a[..]), cmp)
  {
    ghost var s := a[..];
    var i := 0;
    while i < a.Length
      invariant 0 <= i <= a.Length
      invariant a[..i] == InsertionSorted(s[..i], cmp)
      invariant a[i..] == s[i..]
    {
      assert s[..i + 1][..i] == s[..i] && s[i] == a[i];
      assert a[i + 1..] == s[i + 1..];
      InsertAt(a, i, cmp);
      i := i + 1;
    }
    assert a[..] == a[..a.Length] && s == s[..a.Length];
  }

  /** Reverses `a` in place. */
  method ReverseInPlace<T>(a: array<T>)
    modifies a
    ensures a[..] == Reversed(old(a[..]))
  {
    var i, j := 0, a.Length - 1;
    while i < j
      invariant 0 <= i <= a.Length && j == a.Length - 1 - i
      invariant forall k :: 0 <= k < i || j < k < a.Length ==> a[k] == old(a[a.Length - 1 - k])
      invariant forall k :: i <= k <= j ==> a[k] == old(a[k])
    {
      a[i], a[j] := a[j], a[i];
      i, j := i + 1, j - 1;
    }
    assert forall k :: 0 <= k < a.Length ==> a[..][k] == Reversed(old(a[..]))[k];
  }
}
