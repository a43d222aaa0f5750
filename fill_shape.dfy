/** The shape of what `fill` returns: the nodes it is given, in their order,
    each at a fixed slot, with a text node between every two of them and a
    text node before the first and after the last exactly where the nodes
    leave a gap to the bounds. */
module FillShape {
  import opened Seqs
  import opened Nodes
  import opened NodeTree

  /** A step appends its node right after the gap before it. */
  lemma PieceNode(text: string, tree: seq<SpanNode>, bounds: Bounds, i: nat)
    requires i < |tree|
    ensures var n := if i == 0 then LeadGap(tree, bounds) else 1;
      n < |Piece(text, tree, bounds, i)| && Piece(text, tree, bounds, i)[n] == tree[i]
  {
  }

  /** A later step starts with the text node between its node and the one
      before. */
  lemma PieceGap(text: string, tree: seq<SpanNode>, bounds: Bounds, i: nat)
    requires 0 < i < |tree|
    ensures 0 < |Piece(text, tree, bounds, i)| && Piece(text, tree, bounds, i)[0] == Between(text, tree, i - 1)
  {
  }

  /** The steps of `fill`, one per node. */
  function Pieces(text: string, tree: seq<SpanNode>, bounds: Bounds): (ps: seq<seq<SpanNode>>)
    ensures |ps| == |tree|
    ensures forall i :: 0 <= i < |tree| ==> ps[i] == Piece(text, tree, bounds, i)
  {
    seq(|tree|, i requires 0 <= i < |tree| => Piece(text, tree, bounds, i))
  }

  /** After `k` nodes, `fill` has the first `k` steps one after the other. */
  lemma {:induction false} FillUpToConcat(text: string, tree: seq<SpanNode>, bounds: Bounds, k: nat)
    requires k <= |tree|
    ensures FillUpTo(text, tree, bounds, k) == Concat(Pieces(text, tree, bounds)[..k])
    decreases k
  {
    var ps := Pieces(text, tree, bounds);
    if k == 0 {
      TakeNone(ps);
    } else {
      FillUpToConcat(text, tree, bounds, k - 1);
      assert ps[k - 1] == Piece(text, tree, bounds, k - 1);
      ConcatTakeNext(ps, k - 1, FillUpTo(text, tree, bounds, k - 1), Piece(text, tree, bounds, k - 1));
    }
  }

  /** `fill`'s result is all the steps one after the other. */
  lemma FilledConcat(text: string, tree: seq<SpanNode>, bounds: Bounds)
    ensures Filled(text, tree, bounds) == Concat(Pieces(text, tree, bounds))
  {
    var ps := Pieces(text, tree, bounds);
    if tree == [] {
      assert ps == [];
    } else {
      FillUpToConcat(text, tree, bounds, |tree|);
      assert ps[..|tree|] == ps;
    }
  }

  /** The length of the steps before step `i`. */
  lemma PiecesBefore(text: string, tree: seq<SpanNode>, bounds: Bounds, i: nat)
    requires i < |tree|
    ensures |Concat(Pieces(text, tree, bounds)[..i])| == if i == 0 then 0 else LeadGap(tree, bounds) + 2 * i - 1
  {
    FillUpToConcat(text, tree, bounds, i);
    if i > 0 {
      FillUpToLength(text, tree, bounds, i);
    }
  }

  /** Node `i` sits at `Slot(i)`. */
  lemma FillNodeAt(text: string, tree: seq<SpanNode>, bounds: Bounds, i: nat)
    requires i < |tree|
    ensures Slot(tree, bounds, i) < |Filled(text, tree, bounds)|
    ensures Filled(text, tree, bounds)[Slot(tree, bounds, i)] == tree[i]
  {
    FilledConcat(text, tree, bounds);
    PiecesNodeAt(text, tree, bounds, i);
  }

  lemma PiecesNodeAt(text: string, tree: seq<SpanNode>, bounds: Bounds, i: nat)
    requires i < |tree|
    ensures var c := Concat(Pieces(text, tree, bounds));
      Slot(tree, bounds, i) < |c| && c[Slot(tree, bounds, i)] == tree[i]
  {
    var ps := Pieces(text, tree, bounds);
    PiecesBefore(text, tree, bounds, i);
    PieceNode(text, tree, bounds, i);
    assert ps[i] == Piece(text, tree, bounds, i);
    ConcatAt(ps, i, if i == 0 then LeadGap(tree, bounds) else 1);
  }

  /** The text node between nodes `i` and `i + 1` sits right after node `i`. */
  lemma FillGapAt(text: string, tree: seq<SpanNode>, bounds: Bounds, i: nat)
    requires i + 1 < |tree|
    ensures Slot(tree, bounds, i) + 1 < |Filled(text, tree, bounds)|
    ensures Filled(text, tree, bounds)[Slot(tree, bounds, i) + 1] == Between(text, tree, i)
  {
    FilledConcat(text, tree, bounds);
    PiecesGapAt(text, tree, bounds, i);
  }

  lemma PiecesGapAt(text: string, tree: seq<SpanNode>, bounds: Bounds, i: nat)
    requires i + 1 < |tree|
    ensures var c := Concat(Pieces(text, tree, bounds));
      Slot(tree, bounds, i) + 1 < |c| && c[Slot(tree, bounds, i) + 1] == Between(text, tree, i)
  {
    var ps := Pieces(text, tree, bounds);
    PiecesBefore(text, tree, bounds, i + 1);
    PieceGap(text, tree, bounds, i + 1);
    assert ps[i + 1] == Piece(text, tree, bounds, i + 1);
    ConcatAt(ps, i + 1, 0);
  }

  /** Node `i` of `tree` sits at `Slot(i)` in `fill`'s result. */
  lemma FillSlots(text: string, tree: seq<SpanNode>, bounds: Bounds)
    requires tree != []
    ensures var r := Filled(text, tree, bounds);
      && |r| == LeadGap(tree, bounds) + 2 * |tree| - 1 + TrailGap(tree, bounds)
      && (forall i {:trigger Slot(tree, bounds, i)} :: 0 <= i < |tree| ==> r[Slot(tree, bounds, i)] == tree[i])
  {
    var k := |tree|;
    var r := Filled(text, tree, bounds);
    forall i {:trigger Slot(tree, bounds, i)} | 0 <= i < k
      ensures Slot(tree, bounds, i) < |r| && r[Slot(tree, bounds, i)] == tree[i]
    {
      FillNodeAt(text, tree, bounds, i);
    }
  }

  /** The text node between nodes `i` and `i + 1` sits right after node `i`
      in `fill`'s result. */
  lemma FillGaps(text: string, tree: seq<SpanNode>, bounds: Bounds)
    requires tree != []
    ensures var r := Filled(text, tree, bounds);
      forall i {:trigger Slot(tree, bounds, i)} :: 0 <= i < |tree| - 1 ==>
        Slot(tree, bounds, i) + 1 < |r| && r[Slot(tree, bounds, i) + 1] == Between(text, tree, i)
  {
    var k := |tree|;
    var r := Filled(text, tree, bounds);
    forall i {:trigger Slot(tree, bounds, i)} | 0 <= i < k - 1
      ensures Slot(tree, bounds, i) + 1 < |r| && r[Slot(tree, bounds, i) + 1] == Between(text, tree, i)
    {
      FillGapAt(text, tree, bounds, i);
    }
  }

  /** `fill`'s result starts with a text node exactly when the first node
      starts after the lower bound, and ends with one exactly when the last
      node ends before the upper bound. */
  lemma FillEnds(text: string, tree: seq<SpanNode>, bounds: Bounds)
    requires tree != []
    ensures var r := Filled(text, tree, bounds);
      var last := tree[|tree| - 1];
      && r != []
      && (tree[0].start > bounds.lower ==>
            r[0] == TextNode(bounds.lower, tree[0].start, JsSlice(text, bounds.lower, tree[0].start)))
      && (tree[0].start <= bounds.lower ==> r[0] == tree[0])
      && (bounds.upper > last.end ==> r[|r| - 1] == TextNode(last.end, bounds.upper, JsSlice(text, last.end, bounds.upper)))
      && (bounds.upper <= last.end ==> r[|r| - 1] == last)
  {
    FillFirst(text, tree, bounds);
    FillLast(text, tree, bounds);
  }

  /** The first step starts with the leading text node, if there is one. */
  lemma PieceFirst(text: string, tree: seq<SpanNode>, bounds: Bounds)
    requires tree != []
    ensures var piece := Piece(text, tree, bounds, 0);
      && piece != []
      && (LeadGap(tree, bounds) == 1 ==>
            piece[0] == TextNode(bounds.lower, tree[0].start, JsSlice(text, bounds.lower, tree[0].start)))
      && (LeadGap(tree, bounds) == 0 ==> piece[0] == tree[0])
  {
  }

  /** The last step ends with the trailing text node, if there is one. */
  lemma PieceLast(text: string, tree: seq<SpanNode>, bounds: Bounds)
    requires tree != []
    ensures var n := |tree|;
      var piece := Piece(text, tree, bounds, n - 1);
      && |piece| == (if n == 1 then LeadGap(tree, bounds) else 1) + 1 + TrailGap(tree, bounds)
      && (TrailGap(tree, bounds) == 1 ==>
            piece[|piece| - 1] == TextNode(tree[n - 1].end, bounds.upper, JsSlice(text, tree[n - 1].end, bounds.upper)))
      && (TrailGap(tree, bounds) == 0 ==> piece[|piece| - 1] == tree[n - 1])
  {
  }

  lemma FillFirst(text: string, tree: seq<SpanNode>, bounds: Bounds)
    requires tree != []
    ensures var r := Filled(text, tree, bounds);
      && r != []
      && (tree[0].start > bounds.lower ==>
            r[0] == TextNode(bounds.lower, tree[0].start, JsSlice(text, bounds.lower, tree[0].start)))
      && (tree[0].start <= bounds.lower ==> r[0] == tree[0])
  {
    var ps := Pieces(text, tree, bounds);
    FilledConcat(text, tree, bounds);
    PieceFirst(text, tree, bounds);
    TakeNone(ps);
    assert ps[0] == Piece(text, tree, bounds, 0);
    ConcatAt(ps, 0, 0);
  }

  lemma FillLast(text: string, tree: seq<SpanNode>, bounds: Bounds)
    requires tree != []
    ensures var r := Filled(text, tree, bounds);
      var last := tree[|tree| - 1];
      && r != []
      && (bounds.upper > last.end ==> r[|r| - 1] == TextNode(last.end, bounds.upper, JsSlice(text, last.end, bounds.upper)))
      && (bounds.upper <= last.end ==> r[|r| - 1] == last)
  {
    var ps := Pieces(text, tree, bounds);
    var n := |tree|;
    FilledConcat(text, tree, bounds);
    PieceLast(text, tree, bounds);
    PiecesBefore(text, tree, bounds, n - 1);
    assert ps[n - 1] == Piece(text, tree, bounds, n - 1);
    ConcatAt(ps, n - 1, |ps[n - 1]| - 1);
  }

  /** `fill` adds only text nodes: every element of its result is a node of
      `tree`, at that node's slot, or a text node. */
  lemma FillAddsOnlyText(text: string, tree: seq<SpanNode>, bounds: Bounds)
    requires tree != []
    ensures var r := Filled(text, tree, bounds);
      forall p :: 0 <= p < |r| ==>
        IsTextNode(r[p]) || exists i :: 0 <= i < |tree| && p == Slot(tree, bounds, i) && r[p] == tree[i]
  {
    var r := Filled(text, tree, bounds);
    forall p | 0 <= p < |r|
      ensures IsTextNode(r[p]) || exists i :: 0 <= i < |tree| && p == Slot(tree, bounds, i) && r[p] == tree[i]
    {
      FillElement(text, tree, bounds, p);
    }
  }

  lemma FillElement(text: string, tree: seq<SpanNode>, bounds: Bounds, p: nat)
    requires tree != [] && p < |Filled(text, tree, bounds)|
    ensures var r := Filled(text, tree, bounds);
      IsTextNode(r[p]) || exists i :: 0 <= i < |tree| && p == Slot(tree, bounds, i) && r[p] == tree[i]
  {
    var r := Filled(text, tree, bounds);
    var l := LeadGap(tree, bounds);
    var i := (p - l) / 2;
    if p < l {
      FillEnds(text, tree, bounds);
      assert IsTextNode(r[p]);
    } else if p == l + 2 * i && i < |tree| {
      FillSlots(text, tree, bounds);
      assert r[Slot(tree, bounds, i)] == tree[i];
    } else if p == l + 2 * i + 1 && i < |tree| - 1 {
      FillGaps(text, tree, bounds);
      assert r[Slot(tree, bounds, i) + 1] == Between(text, tree, i);
    } else {
      FillSlots(text, tree, bounds);
      assert p == |r| - 1 && TrailGap(tree, bounds) == 1;
      FillEnds(text, tree, bounds);
      assert IsTextNode(r[p]);
    }
  }
}
