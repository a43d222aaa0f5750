/** `Array.prototype.sort` as a concrete, stable insertion sort. `after(y, x)`
    is the source's comparator `compare(y, x) > 0`: `y` must be placed after
    `x`. The comparator need not be consistent; the sort is still a
    permutation, and it orders the result when the comparator is a strict
    weak order. */
module Sorting {

  /** Inserts `x` at the end of `s`, then moves it left past every element
      that must be placed after it. */
  function Insert<T>(x: T, s: seq<T>, after: (T, T) -> bool): (r: seq<T>)
    ensures |r| == |s| + 1
  {
    if s == [] then [x]
    else if after(s[|s| - 1], x) then Insert(x, s[..|s| - 1], after) + [s[|s| - 1]]
    else s + [x]
  }

  /** Insertion adds exactly `x`. */
  lemma {:induction false} InsertPermutes<T>(x: T, s: seq<T>, after: (T, T) -> bool)
    ensures multiset(Insert(x, s, after)) == multiset(s) + multiset{x}
  {
    if s != [] && after(s[|s| - 1], x) {
      assert s == s[..|s| - 1] + [s[|s| - 1]];
      InsertPermutes(x, s[..|s| - 1], after);
    }
  }

  /** Each element in turn is inserted into the sorted prefix before it. */
  function InsertionSorted<T>(s: seq<T>, after: (T, T) -> bool): (r: seq<T>)
    ensures |r| == |s|
  {
    if s == [] then []
    else Insert(s[|s| - 1], InsertionSorted(s[..|s| - 1], after), after)
  }

  /** The sort is a permutation of its input, whatever the comparator. */
  lemma {:induction false} InsertionSortedPermutes<T>(s: seq<T>, after: (T, T) -> bool)
    ensures multiset(InsertionSorted(s, after)) == multiset(s)
  {
    if s != [] {
      assert s == s[..|s| - 1] + [s[|s| - 1]];
      InsertionSortedPermutes(s[..|s| - 1], after);
      InsertPermutes(s[|s| - 1], InsertionSorted(s[..|s| - 1], after), after);
    }
  }

  /** An element that need not pass the first one leaves it in front. */
  lemma {:induction false} InsertKeepsFront<T>(x: T, s: seq<T>, after: (T, T) -> bool)
    requires s != [] && !after(s[0], x)
    ensures Insert(x, s, after)[0] == s[0]
  {
    if |s| > 1 && after(s[|s| - 1], x) {
      InsertKeepsFront(x, s[..|s| - 1], after);
    }
  }

  /** An element that every other one must follow goes to the front. */
  lemma {:induction false} InsertToFront<T>(x: T, s: seq<T>, after: (T, T) -> bool)
    requires forall y :: y in s ==> after(y, x)
    ensures Insert(x, s, after) == [x] + s
  {
    if s != [] {
      assert s[|s| - 1] in s;
      assert forall y :: y in s[..|s| - 1] ==> y in s;
      InsertToFront(x, s[..|s| - 1], after);
      assert s == s[..|s| - 1] + [s[|s| - 1]];
    }
  }

  /** No element is placed before one that must come before it. */
  ghost predicate SortedBy<T>(s: seq<T>, after: (T, T) -> bool)
  {
    forall i, j :: 0 <= i < j < |s| ==> !after(s[i], s[j])
  }

  /** `after` is irreflexive, transitive and its complement is transitive. */
  ghost predicate StrictWeakOrder<T(!new)>(after: (T, T) -> bool)
  {
    && (forall x :: !after(x, x))
    && (forall x, y, z :: after(x, y) && after(y, z) ==> after(x, z))
    && (forall x, y, z :: !after(x, y) && !after(y, z) ==> !after(x, z))
  }

  lemma {:induction false} InsertSorted<T(!new)>(x: T, s: seq<T>, after: (T, T) -> bool)
    requires StrictWeakOrder(after) && SortedBy(s, after)
    ensures SortedBy(Insert(x, s, after), after)
  {
    if s != [] {
      var y := s[|s| - 1];
      if after(y, x) {
        var init := s[..|s| - 1];
        InsertSorted(x, init, after);
        var r := Insert(x, init, after);
        InsertPermutes(x, init, after);
        assert !after(x, y);
        forall k | 0 <= k < |r|
          ensures !after(r[k], y)
        {
          assert r[k] in multiset(r);
          if r[k] != x {
            assert r[k] in multiset(init);
            var m :| 0 <= m < |init| && init[m] == r[k];
            assert s[m] == r[k];
          }
        }
      } else {
        forall k | 0 <= k < |s|
          ensures !after(s[k], x)
        {
          if k < |s| - 1 {
            assert !after(s[k], y);
          }
        }
      }
    }
  }

  /** Under a strict weak order the sort orders its result. */
  lemma {:induction false} InsertionSortedSorted<T(!new)>(s: seq<T>, after: (T, T) -> bool)
    requires StrictWeakOrder(after)
    ensures SortedBy(InsertionSorted(s, after), after)
  {
    if s != [] {
      InsertionSortedSorted(s[..|s| - 1], after);
      InsertSorted(s[|s| - 1], InsertionSorted(s[..|s| - 1], after), after);
    }
  }

  /** Moving `x` left past `s[j - 1]`, which must be placed after it. */
  lemma InsertShift<T>(x: T, s: seq<T>, j: nat, after: (T, T) -> bool)
    requires 0 < j <= |s| && after(s[j - 1], x)
    ensures Insert(x, s[..j], after) + s[j..] == Insert(x, s[..j - 1], after) + s[j - 1..]
  {
    assert s[..j][..j - 1] == s[..j - 1];
    assert s[j - 1..] == [s[j - 1]] + s[j..];
  }

  /** `x` stops in front of the first element (from the right) that need not follow it. */
  lemma InsertStop<T>(x: T, s: seq<T>, j: nat, after: (T, T) -> bool)
    requires j <= |s| && (j == 0 || !after(s[j - 1], x))
    ensures Insert(x, s[..j], after) == s[..j] + [x]
  {
  }

  /** A sequence that agrees with `sorted` before `j`, holds `x` at `j` and
      agrees with `sorted` shifted by one after `j` is `sorted` with `x`
      inserted at `j`. */
  lemma PlacedAt<T>(b: seq<T>, sorted: seq<T>, x: T, j: nat)
    requires |b| == |sorted| + 1 && j < |b| && b[j] == x
    requires forall k :: 0 <= k < j ==> b[k] == sorted[k]
    requires forall k :: j < k < |b| ==> b[k] == sorted[k - 1]
    ensures b == sorted[..j] + [x] + sorted[j..]
  {
  }

  /** The loop of one pass: moves one place right, from the right, every
      element of `a[..i]` that must be placed after `x`, and returns the
      place left free for `x`. */
  method ShiftAfter<T>(a: array<T>, i: nat, x: T, after: (T, T) -> bool) returns (j: nat)
    requires i < a.Length
    modifies a
    ensures j <= i
    ensures forall k :: 0 <= k < j ==> a[k] == old(a[k])
    ensures forall k :: j < k <= i ==> a[k] == old(a[k - 1])
    ensures forall k :: i < k < a.Length ==> a[k] == old(a[k])
    ensures Insert(x, old(a[..i]), after) == old(a[..i])[..j] + [x] + old(a[..i])[j..]
  {
    ghost var sorted := a[..i];
    j := i;
    assert sorted[..j] == sorted && sorted[j..] == [];
    while j > 0 && after(a[j - 1], x)
      invariant 0 <= j <= i
      invariant forall k :: 0 <= k < j ==> a[k] == sorted[k]
      invariant forall k :: j < k <= i ==> a[k] == sorted[k - 1]
      invariant forall k :: i < k < a.Length ==> a[k] == old(a[k])
      invariant Insert(x, sorted, after) == Insert(x, sorted[..j], after) + sorted[j..]
    {
      InsertShift(x, sorted, j, after);
      a[j] := a[j - 1];
      j := j - 1;
    }
    InsertStop(x, sorted, j, after);
    assert sorted == old(a[..i]);
  }

  /** One pass of the insertion sort: `a[i]` moves left into the sorted
      prefix `a[..i]`, past every element that must be placed after it. */
  method InsertAt<T>(a: array<T>, i: nat, after: (T, T) -> bool)
    requires i < a.Length
    modifies a
    ensures a[..i + 1] == Insert(old(a[i]), old(a[..i]), after)
    ensures a[i + 1..] == old(a[i + 1..])
  {
    ghost var sorted := a[..i];
    var x := a[i];
    var j := ShiftAfter(a, i, x, after);
    a[j] := x;
    PlacedAt(a[..i + 1], sorted, x, j);
  }

  lemma InsertionSortedStep<T>(s: seq<T>, i: nat, after: (T, T) -> bool)
    requires i < |s|
    ensures InsertionSorted(s[..i + 1], after) == Insert(s[i], InsertionSorted(s[..i], after), after)
  {
    assert s[..i + 1][..i] == s[..i];
  }

  /** Insertion sort in place. */
  method InsertionSort<T>(a: array<T>, after: (T, T) -> bool)
    modifies a
    ensures a[..] == InsertionSorted(old(a[..]), after)
  {
    ghost var input := a[..];
    var i := 0;
    while i < a.Length
      invariant 0 <= i <= a.Length
      invariant a[..i] == InsertionSorted(input[..i], after)
      invariant a[i..] == input[i..]
    {
      ghost var before := a[..];
      InsertAt(a, i, after);
      InsertionSortedStep(input, i, after);
      assert before[i] == input[i] && before[..i] == InsertionSorted(input[..i], after);
      assert before[i + 1..] == input[i + 1..];
      i := i + 1;
    }
    assert input[..a.Length] == input;
  }
}
