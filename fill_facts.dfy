/** What `fill` guarantees: over nodes that are ordered, do not overlap and
    lie within the bounds, the filled level tiles the bounds without gap and
    its texts spell out the text of the bounds. Also the result of a block
    with no span and of a block with one span. */
module FillFacts {
  import opened Wrappers
  import opened Seqs
  import opened NodeTypes
  import opened Nodes
  import opened Sorting
  import opened NodeTree
  import opened ResolverFacts

  /** `r` covers `[lo, hi)` node after node, each starting where the one
      before it ends. */
  ghost predicate Tiles(r: seq<SpanNode>, lo: int, hi: int)
  {
    && r != [] && r[0].start == lo && r[|r| - 1].end == hi
    && forall i :: 0 <= i < |r| - 1 ==> r[i].end == r[i + 1].start
  }

  /** The texts of a node list, joined. */
  function Texts(r: seq<SpanNode>): (t: string)
    ensures r == [] ==> t == ""
  {
    if r == [] then "" else Texts(r[..|r| - 1]) + r[|r| - 1].text
  }

  lemma {:induction false} TextsJoin(a: seq<SpanNode>, b: seq<SpanNode>)
    ensures Texts(a + b) == Texts(a) + Texts(b)
    decreases |b|
  {
    if b != [] {
      assert (a + b)[..|a + b| - 1] == a + b[..|b| - 1];
      assert (a + b)[|a + b| - 1] == b[|b| - 1];
      TextsJoin(a, b[..|b| - 1]);
      assert Texts(b) == Texts(b[..|b| - 1]) + b[|b| - 1].text;
      assert Texts(a + b) == Texts(a) + Texts(b[..|b| - 1]) + b[|b| - 1].text;
    } else {
      assert a + b == a;
    }
  }

  lemma TilesJoin(a: seq<SpanNode>, b: seq<SpanNode>, lo: int, mid: int, hi: int)
    requires Tiles(a, lo, mid) && Tiles(b, mid, hi)
    ensures Tiles(a + b, lo, hi)
  {
    var ab := a + b;
    forall i | 0 <= i < |ab| - 1
      ensures ab[i].end == ab[i + 1].start
    {
      if i < |a| - 1 {
      } else if i == |a| - 1 {
      } else {
        assert ab[i] == b[i - |a|] && ab[i + 1] == b[i + 1 - |a|];
      }
    }
  }

  /** The tree `fill` is given: ordered, not overlapping, inside the bounds
      and each node holding the text of its range. */
  ghost predicate Fillable(text: string, tree: seq<SpanNode>, bounds: Bounds)
  {
    && 0 <= bounds.lower && bounds.upper <= |text|
    && (forall i :: 0 <= i < |tree| ==> bounds.lower <= tree[i].start <= tree[i].end <= bounds.upper)
    && (forall i :: 0 <= i < |tree| ==> tree[i].text == text[tree[i].start..tree[i].end])
    && (forall i :: 0 <= i < |tree| - 1 ==> tree[i].end <= tree[i + 1].start)
  }

  /** Where the nodes `fill` adds around `tree[i]` begin and end. */
  function PieceStart(tree: seq<SpanNode>, bounds: Bounds, i: nat): int
    requires i < |tree|
  {
    if i == 0 then bounds.lower else tree[i - 1].end
  }

  function PieceEnd(tree: seq<SpanNode>, bounds: Bounds, i: nat): int
    requires i < |tree|
  {
    if i == |tree| - 1 then bounds.upper else tree[i].end
  }

  lemma CoversJoin(text: string, a: seq<SpanNode>, b: seq<SpanNode>, lo: int, mid: int, hi: int)
    requires 0 <= lo <= mid <= hi <= |text|
    requires Tiles(a, lo, mid) && Texts(a) == text[lo..mid]
    requires Tiles(b, mid, hi) && Texts(b) == text[mid..hi]
    ensures Tiles(a + b, lo, hi) && Texts(a + b) == text[lo..hi]
  {
    TilesJoin(a, b, lo, mid, hi);
    TextsJoin(a, b);
    SliceSplit(text, lo, mid, hi);
  }

  lemma NodeCovers(text: string, n: SpanNode)
    requires 0 <= n.start <= n.end <= |text| && n.text == text[n.start..n.end]
    ensures Tiles([n], n.start, n.end) && Texts([n]) == text[n.start..n.end]
  {
    assert [n][..0] == [];
  }

  /** A node between an optional text node before it and an optional one
      after it covers `[lo, hi)`. */
  lemma PieceCoversRange(text: string, lead: seq<SpanNode>, n: SpanNode, trail: seq<SpanNode>, lo: int, hi: int)
    requires 0 <= lo <= n.start <= n.end <= hi <= |text| && n.text == text[n.start..n.end]
    requires (lead == [] && lo == n.start) || lead == [TextNode(lo, n.start, text[lo..n.start])]
    requires (trail == [] && hi == n.end) || trail == [TextNode(n.end, hi, text[n.end..hi])]
    ensures Tiles(lead + [n] + trail, lo, hi) && Texts(lead + [n] + trail) == text[lo..hi]
  {
    NodeCovers(text, n);
    if lead == [] {
      assert lead + [n] == [n];
    } else {
      NodeCovers(text, lead[0]);
      CoversJoin(text, lead, [n], lo, n.start, n.end);
    }
    if trail == [] {
      assert lead + [n] + trail == lead + [n];
    } else {
      NodeCovers(text, trail[0]);
      CoversJoin(text, lead + [n], trail, lo, n.end, hi);
    }
  }

  /** The nodes `fill` adds around `tree[i]` and `tree[i]` itself cover the
      range from the end of the node before to the end of `tree[i]` (the
      bounds' ends for the first and last node). */
  lemma PieceCovers(text: string, tree: seq<SpanNode>, bounds: Bounds, i: nat)
    requires i < |tree| && 0 <= bounds.lower && bounds.upper <= |text|
    requires bounds.lower <= tree[i].start <= tree[i].end <= bounds.upper
    requires tree[i].text == text[tree[i].start..tree[i].end]
    requires i > 0 ==> bounds.lower <= tree[i - 1].end <= tree[i].start
    ensures var piece := Lead(text, tree, bounds, i) + [tree[i]] + Trail(text, tree, bounds, i);
      && Tiles(piece, PieceStart(tree, bounds, i), PieceEnd(tree, bounds, i))
      && Texts(piece) == text[PieceStart(tree, bounds, i)..PieceEnd(tree, bounds, i)]
  {
    PieceCoversRange(text, Lead(text, tree, bounds, i), tree[i], Trail(text, tree, bounds, i),
      PieceStart(tree, bounds, i), PieceEnd(tree, bounds, i));
  }

  /** One step of `fill`: the prefix before `tree[k - 1]` extended by the
      nodes added around it. */
  lemma FillStepCovers(text: string, tree: seq<SpanNode>, bounds: Bounds, k: nat)
    requires 1 < k <= |tree| && 0 <= bounds.lower && bounds.upper <= |text|
    requires bounds.lower <= tree[k - 1].start <= tree[k - 1].end <= bounds.upper
    requires tree[k - 1].text == text[tree[k - 1].start..tree[k - 1].end]
    requires bounds.lower <= tree[k - 2].end <= tree[k - 1].start
    requires Tiles(FillUpTo(text, tree, bounds, k - 1), bounds.lower, tree[k - 2].end)
    requires Texts(FillUpTo(text, tree, bounds, k - 1)) == text[bounds.lower..tree[k - 2].end]
    ensures Tiles(FillUpTo(text, tree, bounds, k), bounds.lower, PieceEnd(tree, bounds, k - 1))
    ensures Texts(FillUpTo(text, tree, bounds, k)) == text[bounds.lower..PieceEnd(tree, bounds, k - 1)]
  {
    var prefix := FillUpTo(text, tree, bounds, k - 1);
    var piece := Lead(text, tree, bounds, k - 1) + [tree[k - 1]] + Trail(text, tree, bounds, k - 1);
    PieceCovers(text, tree, bounds, k - 1);
    assert FillUpTo(text, tree, bounds, k) == prefix + piece;
    CoversJoin(text, prefix, piece, bounds.lower, tree[k - 2].end, PieceEnd(tree, bounds, k - 1));
  }

  lemma {:induction false} FillUpToCovers(text: string, tree: seq<SpanNode>, bounds: Bounds, k: nat)
    requires 0 < k <= |tree| && Fillable(text, tree, bounds)
    ensures Tiles(FillUpTo(text, tree, bounds, k), bounds.lower, PieceEnd(tree, bounds, k - 1))
    ensures Texts(FillUpTo(text, tree, bounds, k)) == text[bounds.lower..PieceEnd(tree, bounds, k - 1)]
  {
    if k == 1 {
      PieceCovers(text, tree, bounds, 0);
      assert FillUpTo(text, tree, bounds, 0) == [];
      assert FillUpTo(text, tree, bounds, 1)
        == Lead(text, tree, bounds, 0) + [tree[0]] + Trail(text, tree, bounds, 0);
    } else {
      FillUpToCovers(text, tree, bounds, k - 1);
      assert bounds.lower <= tree[k - 2].start;
      FillStepCovers(text, tree, bounds, k);
    }
  }

  /** Filling an ordered, non-overlapping tree inside its bounds tiles the
      bounds exactly, and the texts of the result spell the bounded text. */
  lemma FillCovers(text: string, tree: seq<SpanNode>, bounds: Bounds)
    requires tree != [] && Fillable(text, tree, bounds)
    ensures Tiles(Filled(text, tree, bounds), bounds.lower, bounds.upper)
    ensures Texts(Filled(text, tree, bounds)) == text[bounds.lower..bounds.upper]
  {
    FillUpToCovers(text, tree, bounds, |tree|);
  }

  /** A block without spans is one text node spelling its whole text. */
  lemma PlainBlock(block: Block)
    requires block.spans == []
    ensures ProcessTextBlock(block) == [TextNode(0, |block.text|, block.text)]
    ensures Texts(ProcessTextBlock(block)) == block.text
  {
    assert block.text[0..|block.text|] == block.text;
  }

  /** A single span resolves to itself with one text node over its own
      range as its only child. */
  lemma OneSpanTree(text: string, n: SpanNode)
    ensures BuildTree(text, [n]) == [n.SetChildren([TextNode(n.start, n.end, JsSlice(text, n.start, n.end))])]
  {
    assert [n][..0] == [];
    assert InsertionSorted([n], StartEndAfter) == [n];
    assert InsertionSorted([n], ElectionAfter) == [n];
    assert Groups([n]) == [[n]];
    var e := Election(n, []);
    assert ElectGroup([n]) == Some(e);
    assert [[n]][1..] == [];
    assert CreateElection([]) == Some([]);
    assert [e] + [] == [e];
    assert CreateElection([[n]]) == Some([e]);
    assert BuildTreeAndFill(text, [], n.Boundaries()) == [TextNode(n.start, n.end, JsSlice(text, n.start, n.end))];
    var head := n.SetChildren([TextNode(n.start, n.end, JsSlice(text, n.start, n.end))]);
    assert PartitionGroup(text, e) == [head];
    assert PartitionGroups(text, [e]) == [[head]];
    ConcatSingle([head]);
    assert [head][..0] == [];
    assert InsertionSorted([head], StartAfter) == [head];
  }

  /** Filling around a single node adds the text before it and the text
      after it, each only when it is not empty. */
  lemma FillOne(text: string, head: SpanNode, b: Bounds)
    requires 0 <= b.lower <= head.start <= head.end <= b.upper <= |text|
    ensures Filled(text, [head], b) ==
      (if head.start > b.lower then [TextNode(b.lower, head.start, text[b.lower..head.start])] else [])
      + [head]
      + (if b.upper > head.end then [TextNode(head.end, b.upper, text[head.end..b.upper])] else [])
  {
    assert FillUpTo(text, [head], b, 0) == [];
    assert Filled(text, [head], b) == Lead(text, [head], b, 0) + [head] + Trail(text, [head], b, 0);
  }

  /** A block with one span inside its text: the span's node, holding one
      text node of the same range, between the text nodes before and after
      it (left out when empty). */
  lemma OneSpan(block: Block, s: RawSpan)
    requires block.spans == [s] && 0 <= s.start <= s.end <= |block.text|
    ensures var text := block.text;
      var inner := text[s.start..s.end];
      ProcessTextBlock(block) ==
        (if s.start > 0 then [TextNode(0, s.start, text[..s.start])] else [])
        + [SpanNode(s.start, s.end, s.kind, inner, [TextNode(s.start, s.end, inner)], FromSpan(s))]
        + (if |text| > s.end then [TextNode(s.end, |text|, text[s.end..])] else [])
  {
    var text := block.text;
    var n := ToSpanNode(text, s);
    assert SpanNodesOf(block) == [n];
    OneSpanTree(text, n);
    var head := n.SetChildren([TextNode(s.start, s.end, text[s.start..s.end])]);
    FillOne(text, head, Bounds(0, |text|));
    assert text[0..s.start] == text[..s.start] && text[s.end..|text|] == text[s.end..];
  }
}
