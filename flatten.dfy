/** `flatten`: a value that is an array, possibly of arrays, becomes a
    one-dimensional array of its leaves. */
module FlattenUtil {
  import opened Seqs

  /** A JavaScript value as `flatten` sees it: an array or anything else. */
  datatype Nested<T> = Leaf(value: T) | Arr(items: seq<Nested<T>>)

  predicate HasArray<T>(items: seq<Nested<T>>)
  {
    exists i :: 0 <= i < |items| && items[i].Arr?
  }

  /** What `flat.concat(x)` appends: the elements of an array, or a single leaf. */
  function Spread<T>(x: Nested<T>): seq<Nested<T>>
  {
    match x
    case Leaf(_) => [x]
    case Arr(items) => items
  }

  function Flatten<T>(x: Nested<T>): (r: Nested<T>)
    ensures x.Leaf? ==> r == x
    ensures x.Arr? ==> r.Arr? && (!HasArray(x.items) ==> r == x)
    decreases x
  {
    match x
    case Leaf(_) => x
    case Arr(items) =>
      if !HasArray(items) then x
      else Arr(Concat(seq(|items|, i requires 0 <= i < |items| => Spread(Flatten(items[i])))))
  }

  /** The leaves of a value, left to right. */
  function Leaves<T>(x: Nested<T>): seq<T>
    decreases x
  {
    match x
    case Leaf(v) => [v]
    case Arr(items) => Concat(seq(|items|, i requires 0 <= i < |items| => Leaves(items[i])))
  }

  function LeavesOfAll<T>(xs: seq<Nested<T>>): seq<T>
  {
    Concat(seq(|xs|, i requires 0 <= i < |xs| => Leaves(xs[i])))
  }

  lemma {:induction false} LeavesOfAllJoin<T>(xs: seq<Nested<T>>, ys: seq<Nested<T>>)
    ensures LeavesOfAll(xs + ys) == LeavesOfAll(xs) + LeavesOfAll(ys)
  {
    var f := (zs: seq<Nested<T>>) => seq(|zs|, i requires 0 <= i < |zs| => Leaves(zs[i]));
    assert f(xs + ys) == f(xs) + f(ys);
    ConcatJoin(f(xs), f(ys));
  }

  lemma {:induction false} LeavesOfAllFlat<T>(xs: seq<Nested<T>>)
    requires forall i :: 0 <= i < |xs| ==> xs[i].Leaf?
    ensures LeavesOfAll(xs) == seq(|xs|, i requires 0 <= i < |xs| => xs[i].value)
  {
    if xs != [] {
      LeavesOfAllJoin([xs[0]], xs[1..]);
      assert xs == [xs[0]] + xs[1..];
      assert seq(1, i requires 0 <= i < 1 => Leaves([xs[0]][i])) == [[xs[0].value]];
      ConcatSingle([xs[0].value]);
      LeavesOfAllFlat(xs[1..]);
    }
  }

  /** An array of arrays of plain values, as `buildTree` hands `flatten` its
      partitioned groups. */
  function Nest<T>(p: seq<seq<T>>): Nested<T>
  {
    Arr(seq(|p|, j requires 0 <= j < |p| => Arr(seq(|p[j]|, k requires 0 <= k < |p[j]| => Leaf(p[j][k])))))
  }

  /** Flattening an array of arrays of plain values gives their
      concatenation, so the resolver writes `flatten` as `Concat`. */
  lemma FlattenNest<T>(p: seq<seq<T>>)
    ensures Flatten(Nest(p)) == Arr(seq(|Concat(p)|, i requires 0 <= i < |Concat(p)| => Leaf(Concat(p)[i])))
  {
    var x := Nest(p);
    var rows := seq(|p|, j requires 0 <= j < |p| => Leaves(x.items[j]));
    forall j | 0 <= j < |p|
      ensures rows[j] == p[j]
    {
      var row := x.items[j].items;
      LeavesOfAllFlat(row);
      assert LeavesOfAll(row) == p[j];
    }
    assert rows == p;
    FlattenIsFlat(x);
    var items := Flatten(x).items;
    LeavesOfAllFlat(items);
    assert Leaves(Flatten(x)) == LeavesOfAll(items);
    assert Leaves(x) == Concat(p);
    forall i | 0 <= i < |items|
      ensures items[i] == Leaf(Concat(p)[i])
    {
      assert LeavesOfAll(items)[i] == items[i].value;
    }
  }

  /** A non-array is returned unchanged, and so is an array with no array in it. */
  lemma FlattenUnchanged<T>(x: Nested<T>)
    requires x.Leaf? || !HasArray(x.items)
    ensures Flatten(x) == x
  {
  }

  /** The result of flattening an array holds no array, and it keeps the
      leaves, their number and their left-to-right order. */
  lemma {:induction false} FlattenIsFlat<T>(x: Nested<T>)
    ensures x.Arr? ==> Flatten(x).Arr? && forall i :: 0 <= i < |Flatten(x).items| ==> Flatten(x).items[i].Leaf?
    ensures Leaves(Flatten(x)) == Leaves(x)
    decreases x
  {
    match x
    case Leaf(_) =>
    case Arr(items) =>
      if HasArray(items) {
        var parts: seq<seq<Nested<T>>> := seq(|items|, i requires 0 <= i < |items| => Spread(Flatten(items[i])));
        forall i | 0 <= i < |items|
          ensures forall j :: 0 <= j < |parts[i]| ==> parts[i][j].Leaf?
          ensures LeavesOfAll(parts[i]) == Leaves(items[i])
        {
          FlattenIsFlat(items[i]);
          if items[i].Leaf? {
            LeavesOfAllFlat(parts[i]);
          }
        }
        SpreadAllFlat(parts);
        LeavesOfConcat(parts);
        assert seq(|parts|, i requires 0 <= i < |parts| => LeavesOfAll(parts[i]))
            == seq(|items|, i requires 0 <= i < |items| => Leaves(items[i]));
      }
  }

  lemma {:induction false} SpreadAllFlat<T>(parts: seq<seq<Nested<T>>>)
    requires forall i, j :: 0 <= i < |parts| && 0 <= j < |parts[i]| ==> parts[i][j].Leaf?
    ensures forall j :: 0 <= j < |Concat(parts)| ==> Concat(parts)[j].Leaf?
  {
    if parts != [] {
      SpreadAllFlat(parts[1..]);
    }
  }

  lemma {:induction false} LeavesOfConcat<T>(parts: seq<seq<Nested<T>>>)
    ensures LeavesOfAll(Concat(parts)) == Concat(seq(|parts|, i requires 0 <= i < |parts| => LeavesOfAll(parts[i])))
  {
    if parts != [] {
      LeavesOfAllJoin(parts[0], Concat(parts[1..]));
      LeavesOfConcat(parts[1..]);
      var f := seq(|parts|, i requires 0 <= i < |parts| => LeavesOfAll(parts[i]));
      assert f[1..] == seq(|parts[1..]|, i requires 0 <= i < |parts[1..]| => LeavesOfAll(parts[1..][i]));
    }
  }
}
