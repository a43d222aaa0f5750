/** Sequence helpers shared by the model: concatenation of a sequence of
    sequences, and the exact semantics of JavaScript's `slice` on a string. */
module Seqs {
  import opened Wrappers

  /** All the sequences of `ss`, one after the other (a one-level flatten). */
  function Concat<T>(ss: seq<seq<T>>): (r: seq<T>)
  {
    if ss == [] then [] else ss[0] + Concat(ss[1..])
  }

  /** A non-empty sequence is its initial part followed by its last element. */
  lemma InitLast<T>(s: seq<T>)
    requires s != []
    ensures s == s[..|s| - 1] + [s[|s| - 1]]
  {
  }

  /** Two one-element sequences, joined, are the pair. */
  lemma Pair<T>(x: T, y: T)
    ensures [x] + [y] == [x, y]
  {
  }

  lemma ConcatSingle<T>(s: seq<T>)
    ensures Concat([s]) == s
  {
    assert [s][1..] == [];
  }

  lemma {:induction false} ConcatAppend<T>(ss: seq<seq<T>>, s: seq<T>)
    ensures Concat(ss + [s]) == Concat(ss) + s
  {
    if ss == [] {
      assert [s][1..] == [];
    } else {
      assert (ss + [s])[1..] == ss[1..] + [s];
      ConcatAppend(ss[1..], s);
    }
  }

  lemma {:induction false} ConcatJoin<T>(xs: seq<seq<T>>, ys: seq<seq<T>>)
    ensures Concat(xs + ys) == Concat(xs) + Concat(ys)
  {
    if xs == [] {
      assert xs + ys == ys;
    } else {
      assert (xs + ys)[1..] == xs[1..] + ys;
      ConcatJoin(xs[1..], ys);
    }
  }

  /** The element at offset `j` of the `m`-th sequence sits, in the
      concatenation, after all the sequences before it. */
  lemma ConcatAt<T>(ps: seq<seq<T>>, m: nat, j: nat)
    requires m < |ps| && j < |ps[m]|
    ensures |Concat(ps[..m])| + j < |Concat(ps)|
    ensures Concat(ps)[|Concat(ps[..m])| + j] == ps[m][j]
  {
    assert ps == ps[..m] + ([ps[m]] + ps[m + 1..]);
    ConcatJoin(ps[..m], [ps[m]] + ps[m + 1..]);
    ConcatJoin([ps[m]], ps[m + 1..]);
    ConcatSingle(ps[m]);
  }

  /** A prefix keeps the elements it takes. */
  lemma TakeKeeps<T>(s: seq<T>, n: nat)
    requires n <= |s|
    ensures forall k :: 0 <= k < n ==> s[..n][k] == s[k]
  {
  }

  /** After the first element come the elements of the rest. */
  lemma ConsEach<T>(x: T, rest: seq<T>, whole: seq<T>)
    requires whole == [x] + rest
    ensures |whole| == |rest| + 1 && whole[0] == x
    ensures forall j :: 0 < j < |whole| ==> whole[j] == rest[j - 1]
  {
  }

  /** Dropping the first element shifts the others down by one. */
  lemma TakeKeepsTail<T>(s: seq<T>)
    requires s != []
    ensures forall j :: 0 < j < |s| ==> s[1..][j - 1] == s[j]
  {
  }

  /** Taking nothing leaves nothing. */
  lemma TakeNone<T>(s: seq<T>)
    ensures s[..0] == []
  {
  }

  /** A slice cut at an inner point is the two slices on either side. */
  lemma SliceSplit<T>(s: seq<T>, lo: nat, mid: nat, hi: nat)
    requires lo <= mid <= hi <= |s|
    ensures s[lo..hi] == s[lo..mid] + s[mid..hi]
  {
    var left, right := s[lo..mid], s[mid..hi];
    assert |s[lo..hi]| == |left + right|;
    forall k | 0 <= k < hi - lo
      ensures s[lo..hi][k] == (left + right)[k]
    {
      if k < mid - lo {
        assert (left + right)[k] == left[k] == s[lo + k];
      } else {
        assert (left + right)[k] == right[k - (mid - lo)] == s[lo + k];
      }
    }
  }

  /** Taking one more element appends it. */
  lemma TakeNext<T>(s: seq<T>, k: nat)
    requires k < |s|
    ensures s[..k + 1] == s[..k] + [s[k]]
  {
  }

  /** The concatenation of one more sequence extends the concatenation of
      those before it. */
  lemma ConcatTakeNext<T>(ss: seq<seq<T>>, k: nat, prefix: seq<T>, next: seq<T>)
    requires k < |ss| && prefix == Concat(ss[..k]) && next == ss[k]
    ensures Concat(ss[..k + 1]) == prefix + next
  {
    TakeNext(ss, k);
    ConcatAppend(ss[..k], ss[k]);
  }

  lemma {:induction false} ConcatMember<T>(ss: seq<seq<T>>, i: nat, x: T)
    requires i < |ss| && x in ss[i]
    ensures x in Concat(ss)
  {
    if i > 0 { ConcatMember(ss[1..], i - 1, x); }
  }

  lemma {:induction false} ConcatMemberInv<T>(ss: seq<seq<T>>, x: T)
    requires x in Concat(ss)
    ensures exists i :: 0 <= i < |ss| && x in ss[i]
  {
    if x !in ss[0] {
      ConcatMemberInv(ss[1..], x);
      var i :| 0 <= i < |ss[1..]| && x in ss[1..][i];
      assert x in ss[i + 1];
    }
  }

  /** How `slice` turns one of its arguments into a position of a sequence
      of length `n`: a negative argument counts from the end, and the result
      is clamped to `0..n`. */
  function SliceIndex(i: int, n: nat): (k: nat)
    ensures k <= n
    ensures 0 <= i <= n ==> k == i
    ensures i > n ==> k == n
  {
    if i < 0 then (if n + i < 0 then 0 else n + i) else if i > n then n else i
  }

  /** JavaScript's `s.slice(start, end)`: never fails; it is empty when the
      normalised start is not before the normalised end. */
  function JsSlice<T>(s: seq<T>, start: int, end: int): (r: seq<T>)
    ensures 0 <= start <= end <= |s| ==> r == s[start..end]
    ensures 0 <= end <= start ==> r == []
    ensures |r| <= |s|
  {
    Section(s, SliceIndex(start, |s|), SliceIndex(end, |s|))
  }

  /** The elements of `s` from position `from` up to, not including,
      position `to`; empty unless `from < to`. */
  function Section<T>(s: seq<T>, from: nat, to: nat): (r: seq<T>)
    requires to <= |s|
    ensures from <= to ==> r == s[from..to]
    ensures to <= from ==> r == []
    decreases if from < to then to - from else 0
  {
    if from < to then [s[from]] + Section(s, from + 1, to) else []
  }

  /** Splits `s` at the first `c`: what comes before it and what comes after
      it; `None` when `s` has no `c`. */
  function Until<T(==)>(s: seq<T>, c: T): (r: Option<(seq<T>, seq<T>)>)
    ensures r.Some? ==> s == r.value.0 + [c] + r.value.1 && c !in r.value.0
  {
    if s == [] then None
    else if s[0] == c then Some(([], s[1..]))
    else match Until(s[1..], c)
      case None => None
      case Some((v, rest)) => Some(([s[0]] + v, rest))
  }

  /** Splitting undoes joining with a separator absent from the first part. */
  lemma {:induction false} UntilWritten<T>(v: seq<T>, c: T, rest: seq<T>)
    requires c !in v
    ensures Until(v + [c] + rest, c) == Some((v, rest))
  {
    var s := v + [c] + rest;
    if v == [] {
      assert s == [c] + rest;
    } else {
      assert s[0] == v[0] && s[1..] == v[1..] + [c] + rest;
      UntilWritten(v[1..], c, rest);
      assert [v[0]] + v[1..] == v;
    }
  }
}
