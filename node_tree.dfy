/** The span-overlap resolver and the document-tree builder: spans of a
    block are sorted, grouped, one head is elected per group, the other spans
    are cut at the head's edges, the pieces inside become the head's
    children and the pieces outside are resolved again as its siblings;
    gaps are filled with text nodes. Blocks are then assembled into the
    document tree, consecutive list items merging into list groupings. */
module NodeTree {
  import opened Wrappers
  import opened Seqs
  import opened NodeTypes
  import opened Nodes
  import opened Sorting
  import opened GetLastUtil
  import opened ReplaceLastUtil

  const NoEmbed := OEmbed("", "", "", "")

  /** `createEmptyList`: the element of a new list grouping. */
  function CreateEmptyList(ordered: bool): (b: Block)
    ensures b.blockType == if ordered then "group-o-list-item" else "group-list-item"
    ensures b.text == "" && b.spans == []
  {
    Block(if ordered then TypeString(OList) else TypeString(List), "", [], "", "", "", None, NoEmbed)
  }

  // ---------------------------------------------------------------- orders

  /** The span sort: `a.start - b.start || a.end - b.end` is positive. */
  predicate StartEndAfter(a: SpanNode, b: SpanNode)
  {
    a.start > b.start || (a.start == b.start && a.end > b.end)
  }

  /** The final sort of a level: `nodeA.start - nodeB.start` is positive. */
  predicate StartAfter(a: SpanNode, b: SpanNode)
  {
    a.start > b.start
  }

  /** Both span orders of `buildTree` are strict weak orders. */
  lemma StartOrdersAreStrictWeak()
    ensures StrictWeakOrder(StartEndAfter) && StrictWeakOrder(StartAfter)
  {
  }

  /** The election comparator: parenthood first, then priority, then text
      length. A negative result puts `a` first. */
  function ElectionCompare(a: SpanNode, b: SpanNode): (r: int)
    ensures a.IsParentOf(b) ==> r < 0
    ensures !a.IsParentOf(b) && b.IsParentOf(a) ==> r > 0
    ensures !a.IsParentOf(b) && !b.IsParentOf(a) && Priority(a.kind) < Priority(b.kind) ==> r < 0
    ensures !a.IsParentOf(b) && !b.IsParentOf(a) && Priority(a.kind) > Priority(b.kind) ==> r > 0
    ensures r == 0 <==> !a.IsParentOf(b) && !b.IsParentOf(a) && Priority(a.kind) == Priority(b.kind) && |a.text| == |b.text|
  {
    if a.IsParentOf(b) then -1
    else if b.IsParentOf(a) then 1
    else
      var priorityDiff := Priority(a.kind) - Priority(b.kind);
      if priorityDiff != 0 then priorityDiff else |a.text| - |b.text|
  }

  predicate ElectionAfter(a: SpanNode, b: SpanNode)
  {
    ElectionCompare(a, b) > 0
  }

  // -------------------------------------------------------------- grouping

  /** `currentGroup.some(span => span.isParentOf(current))`. */
  predicate AnyParentOf(group: seq<SpanNode>, current: SpanNode)
  {
    exists i :: 0 <= i < |group| && group[i].IsParentOf(current)
  }

  /** Whether `current` joins the group whose last span is `previous`. */
  predicate Joins(group: seq<SpanNode>, previous: SpanNode, current: SpanNode)
  {
    AnyParentOf(group, current) || previous.end >= current.start
  }

  /** The groups of a span list, built left to right as the loop of
      `groupSpans` builds them. */
  function Groups(spans: seq<SpanNode>): (r: seq<seq<SpanNode>>)
    ensures spans == [] <==> r == []
    ensures forall j :: 0 <= j < |r| ==> r[j] != []
    ensures Concat(r) == spans
  {
    if spans == [] then []
    else if |spans| == 1 then
      ConcatSingle(spans);
      [spans]
    else
      var init := spans[..|spans| - 1];
      var gs := Groups(init);
      var current := spans[|spans| - 1];
      var previous := spans[|spans| - 2];
      var group := gs[|gs| - 1];
      InitLast(gs);
      ConcatAppend(gs[..|gs| - 1], group);
      assert spans == init + [current];
      if Joins(group, previous, current) then
        ConcatAppend(gs[..|gs| - 1], group + [current]);
        gs[..|gs| - 1] + [group + [current]]
      else
        ConcatAppend(gs, [current]);
        gs + [[current]]
  }

  /** How the groups of a prefix grow by one span. */
  lemma GroupsStep(spans: seq<SpanNode>, i: nat)
    requires 1 <= i < |spans|
    ensures var gs := Groups(spans[..i]);
      Groups(spans[..i + 1]) ==
        if Joins(gs[|gs| - 1], spans[i - 1], spans[i]) then gs[..|gs| - 1] + [gs[|gs| - 1] + [spans[i]]]
        else gs + [[spans[i]]]
  {
    var p := spans[..i + 1];
    assert p[..|p| - 1] == spans[..i];
    assert p[|p| - 1] == spans[i] && p[|p| - 2] == spans[i - 1];
  }

  /** `groupSpans`. */
  method GroupSpans(spans: seq<SpanNode>) returns (groupedSpans: seq<seq<SpanNode>>)
    ensures groupedSpans == Groups(spans)
  {
    if |spans| == 0 {
      return [];
    }
    var current := spans[0];
    var currentGroup := [current];
    var closed: seq<seq<SpanNode>> := [];
    assert spans[..1] == [spans[0]];
    for i := 1 to |spans|
      invariant current == spans[i - 1]
      invariant closed + [currentGroup] == Groups(spans[..i])
    {
      var previous := current;
      current := spans[i];
      GroupsStep(spans, i);
      if AnyParentOf(currentGroup, current) || previous.end >= current.start {
        currentGroup := currentGroup + [current];
      } else {
        closed := closed + [currentGroup];
        currentGroup := [current];
      }
    }
    assert spans[..|spans|] == spans;
    groupedSpans := closed + [currentGroup];
  }

  // -------------------------------------------------------------- election

  datatype Election = Election(elected: SpanNode, others: seq<SpanNode>)

  /** The election in one group: the first span after the election sort;
      an empty group is an error. */
  function ElectGroup(group: seq<SpanNode>): (r: Option<Election>)
    ensures r.None? <==> group == []
    ensures r.Some? ==> 1 + |r.value.others| == |group|
  {
    if group == [] then None
    else
      var sorted := InsertionSorted(group, ElectionAfter);
      Some(Election(sorted[0], sorted[1..]))
  }

  /** The number of spans in a list of elections. */
  function Size(es: seq<Election>): nat
  {
    if es == [] then 0 else 1 + |es[0].others| + Size(es[1..])
  }

  /** `createElection`: fails (the source throws) if some group is empty. */
  function CreateElection(groups: seq<seq<SpanNode>>): (r: Option<seq<Election>>)
    ensures r.Some? <==> forall j :: 0 <= j < |groups| ==> groups[j] != []
    ensures r.Some? ==> |r.value| == |groups|
    ensures r.Some? ==> forall j :: 0 <= j < |groups| ==> ElectGroup(groups[j]) == Some(r.value[j])
    ensures r.Some? ==> Size(r.value) == |Concat(groups)|
  {
    if groups == [] then Some([])
    else
      var head := ElectGroup(groups[0]);
      var tail := CreateElection(groups[1..]);
      assert forall j :: 1 <= j < |groups| ==> groups[j] == groups[1..][j - 1];
      if head.Some? && tail.Some? then
        var es := [head.value] + tail.value;
        assert es[0] == head.value && es[1..] == tail.value;
        Some(es)
      else None
  }

  // ------------------------------------------------------------- partition

  datatype Sliced = Sliced(inner: SpanNode, outer: Option<SpanNode>)

  /** `sliceSpan`: the part of `span` inside the elected span and the part
      outside it, cut at the elected span's start if `span` starts before
      it, else at its end if `span` ends after it. */
  function SliceSpan(text: string, span: SpanNode, elected: SpanNode): (r: Sliced)
    ensures r.outer.None? ==> r.inner == span
    ensures r.outer.Some? ==>
      var o := r.outer.value;
      && r.inner.kind == o.kind == span.kind
      && r.inner.element == o.element == span.element
      && r.inner.children == o.children == span.children
      && ((o.start == span.start && o.end == r.inner.start && r.inner.end == span.end)
          || (r.inner.start == span.start && r.inner.end == o.start && o.end == span.end))
  {
    if span.start < elected.start then
      Sliced(Slice(span, elected.start, span.end, text), Some(Slice(span, span.start, elected.start, text)))
    else if span.end > elected.end then
      Sliced(Slice(span, span.start, elected.end, text), Some(Slice(span, elected.end, span.end, text)))
    else
      Sliced(span, None)
  }

  datatype Parts = Parts(inner: seq<SpanNode>, outer: seq<SpanNode>)

  /** The outer piece of each span, as a list of zero or one node. */
  function OuterPieces(text: string, others: seq<SpanNode>, elected: SpanNode): (r: seq<seq<SpanNode>>)
    ensures |r| == |others|
  {
    seq(|others|, k requires 0 <= k < |others| =>
      var o := SliceSpan(text, others[k], elected).outer;
      if o.Some? then [o.value] else [])
  }

  lemma OuterPiecesLast(text: string, others: seq<SpanNode>, elected: SpanNode)
    requires others != []
    ensures var n := |others| - 1;
      var o := SliceSpan(text, others[n], elected).outer;
      OuterPieces(text, others, elected) == OuterPieces(text, others[..n], elected) + [if o.Some? then [o.value] else []]
  {
    var n := |others| - 1;
    assert forall k :: 0 <= k < n ==> others[..n][k] == others[k];
  }

  /** The `reduce` of `partitionGroups` over the spans that were not elected:
      the inner piece of every span, and the outer piece of every span that
      has one, both in the order of the spans. */
  function PartitionOthers(text: string, others: seq<SpanNode>, elected: SpanNode): (r: Parts)
    ensures |r.inner| == |others| && |r.outer| <= |others|
    ensures forall k {:trigger r.inner[k]} :: 0 <= k < |others| ==> r.inner[k] == SliceSpan(text, others[k], elected).inner
    ensures r.outer == Concat(OuterPieces(text, others, elected))
  {
    if others == [] then
      assert OuterPieces(text, others, elected) == [];
      Parts([], [])
    else
      var n := |others| - 1;
      var p := PartitionOthers(text, others[..n], elected);
      var s := SliceSpan(text, others[n], elected);
      TakeKeeps(others, n);
      OuterPiecesLast(text, others, elected);
      ConcatAppend(OuterPieces(text, others[..n], elected), if s.outer.Some? then [s.outer.value] else []);
      Parts(p.inner + [s.inner], if s.outer.Some? then p.outer + [s.outer.value] else p.outer)
  }

  // -------------------------------------------------------------- resolver

  /** `buildTreeAndFill`: a single text node over the bounds when there is
      no span, otherwise the resolved spans with the gaps filled. */
  function BuildTreeAndFill(text: string, spans: seq<SpanNode>, bounds: Bounds): (r: seq<SpanNode>)
    ensures spans == [] ==> r == [TextNode(bounds.lower, bounds.upper, JsSlice(text, bounds.lower, bounds.upper))]
    decreases |spans|, 3
  {
    if |spans| > 0 then Filled(text, BuildTree(text, spans), bounds)
    else [TextNode(bounds.lower, bounds.upper, JsSlice(text, bounds.lower, bounds.upper))]
  }

  /** `buildTree`: sort, group, elect, partition, flatten, sort by start. The
      level it returns is sorted by start. */
  function BuildTree(text: string, spans: seq<SpanNode>): (r: seq<SpanNode>)
    ensures spans == [] ==> r == []
    ensures forall i, j :: 0 <= i < j < |r| ==> r[i].start <= r[j].start
    decreases |spans|, 2
  {
    var sortedSpans := InsertionSorted(spans, StartEndAfter);
    var groupedSpans := Groups(sortedSpans);
    var postElection := CreateElection(groupedSpans).value;
    var partitionedGroups := PartitionGroups(text, postElection);
    // `flatten` on this array of node arrays is `Concat` (FlattenUtil.FlattenNest)
    StartOrdersAreStrictWeak();
    InsertionSortedSorted(Concat(partitionedGroups), StartAfter);
    InsertionSorted(Concat(partitionedGroups), StartAfter)
  }

  /** `partitionGroups`: one list of nodes per group. */
  function PartitionGroups(text: string, groups: seq<Election>): (r: seq<seq<SpanNode>>)
    ensures |r| == |groups|
    decreases Size(groups), 1
  {
    if groups == [] then []
    else [PartitionGroup(text, groups[0])] + PartitionGroups(text, groups[1..])
  }

  /** One group: the head (the elected span, its inner pieces resolved and
      filled within its bounds as children), then its outer pieces resolved. */
  function PartitionGroup(text: string, group: Election): (r: seq<SpanNode>)
    ensures r != [] && r[0].start == group.elected.start && r[0].end == group.elected.end
    ensures r[0].kind == group.elected.kind && r[0].text == group.elected.text && r[0].element == group.elected.element
    ensures r[0].children == BuildTreeAndFill(text, PartitionOthers(text, group.others, group.elected).inner, group.elected.Boundaries())
    ensures r[1..] == BuildTree(text, PartitionOthers(text, group.others, group.elected).outer)
    decreases 1 + |group.others|, 0
  {
    var parts := PartitionOthers(text, group.others, group.elected);
    var head := group.elected.SetChildren(BuildTreeAndFill(text, parts.inner, group.elected.Boundaries()));
    [head] + BuildTree(text, parts.outer)
  }

  // ------------------------------------------------------------------ fill

  /** 1 when `fill` puts a text node before the first node, else 0. */
  function LeadGap(tree: seq<SpanNode>, bounds: Bounds): nat
    requires tree != []
  {
    if tree[0].start > bounds.lower then 1 else 0
  }

  /** 1 when `fill` puts a text node after the last node, else 0. */
  function TrailGap(tree: seq<SpanNode>, bounds: Bounds): nat
    requires tree != []
  {
    if bounds.upper > tree[|tree| - 1].end then 1 else 0
  }

  /** Where `fill` puts node `i` of `tree`: after the leading gap, if any,
      and the `i` earlier nodes with the gap after each. */
  function Slot(tree: seq<SpanNode>, bounds: Bounds, i: nat): nat
    requires tree != []
  {
    LeadGap(tree, bounds) + 2 * i
  }

  /** The text node `fill` puts between `tree[i]` and `tree[i + 1]`, over the
      text from the end of one to the start of the next. */
  function Between(text: string, tree: seq<SpanNode>, i: nat): (r: SpanNode)
    requires i + 1 < |tree|
    ensures r.start == tree[i].end && r.end == tree[i + 1].start && IsTextNode(r)
  {
    TextNode(tree[i].end, tree[i + 1].start, JsSlice(text, tree[i].end, tree[i + 1].start))
  }

  /** The text node `fill` inserts before `tree[i]`, if any. */
  function Lead(text: string, tree: seq<SpanNode>, bounds: Bounds, i: nat): seq<SpanNode>
    requires i < |tree|
  {
    if i == 0 then
      (if tree[0].start > bounds.lower
       then [TextNode(bounds.lower, tree[0].start, JsSlice(text, bounds.lower, tree[0].start))]
       else [])
    else [TextNode(tree[i - 1].end, tree[i].start, JsSlice(text, tree[i - 1].end, tree[i].start))]
  }

  /** The text node `fill` inserts after `tree[i]`, if any. */
  function Trail(text: string, tree: seq<SpanNode>, bounds: Bounds, i: nat): seq<SpanNode>
    requires i < |tree|
  {
    if i == |tree| - 1 && bounds.upper > tree[i].end
    then [TextNode(tree[i].end, bounds.upper, JsSlice(text, tree[i].end, bounds.upper))]
    else []
  }

  /** What one step of `fill` appends: the gap before node `i`, the node, and
      the gap after it. */
  function Piece(text: string, tree: seq<SpanNode>, bounds: Bounds, i: nat): seq<SpanNode>
    requires i < |tree|
  {
    Lead(text, tree, bounds, i) + [tree[i]] + Trail(text, tree, bounds, i)
  }

  /** What `fill` has accumulated after the first `k` nodes. */
  function FillUpTo(text: string, tree: seq<SpanNode>, bounds: Bounds, k: nat): seq<SpanNode>
    requires k <= |tree|
  {
    if k == 0 then [] else FillUpTo(text, tree, bounds, k - 1) + Piece(text, tree, bounds, k - 1)
  }

  /** `fill` appends the nodes of one step one after the other. */
  lemma FillUpToNext(text: string, tree: seq<SpanNode>, bounds: Bounds, k: nat)
    requires k < |tree|
    ensures FillUpTo(text, tree, bounds, k + 1)
      == FillUpTo(text, tree, bounds, k) + Lead(text, tree, bounds, k) + [tree[k]] + Trail(text, tree, bounds, k)
  {
    var p := FillUpTo(text, tree, bounds, k);
    var lead := Lead(text, tree, bounds, k);
    var trail := Trail(text, tree, bounds, k);
    assert p + (lead + [tree[k]] + trail) == p + lead + [tree[k]] + trail;
  }

  /** Where node `i` and the gaps around it sit in the step that appends it. */
  lemma PieceShape(text: string, tree: seq<SpanNode>, bounds: Bounds, i: nat)
    requires i < |tree|
    ensures var lead := if i == 0 then LeadGap(tree, bounds) else 1;
      var piece := Piece(text, tree, bounds, i);
      && |piece| == lead + 1 + (if i == |tree| - 1 then TrailGap(tree, bounds) else 0)
      && piece[lead] == tree[i]
      && (i > 0 ==> piece[0] == Between(text, tree, i - 1))
      && (i == 0 && LeadGap(tree, bounds) == 1 ==>
            piece[0] == TextNode(bounds.lower, tree[0].start, JsSlice(text, bounds.lower, tree[0].start)))
      && (i == |tree| - 1 && TrailGap(tree, bounds) == 1 ==>
            piece[|piece| - 1] == TextNode(tree[i].end, bounds.upper, JsSlice(text, tree[i].end, bounds.upper)))
  {
  }

  lemma {:induction false} FillUpToLength(text: string, tree: seq<SpanNode>, bounds: Bounds, k: nat)
    requires 0 < k <= |tree|
    ensures |FillUpTo(text, tree, bounds, k)|
      == LeadGap(tree, bounds) + 2 * k - 1 + (if k == |tree| then TrailGap(tree, bounds) else 0)
  {
    PieceShape(text, tree, bounds, k - 1);
    if k > 1 {
      FillUpToLength(text, tree, bounds, k - 1);
    }
  }

  /** `fill`'s result: the nodes of `tree` with a text node between each
      two, and one before the first and after the last where these leave a
      gap to the bounds. */
  function Filled(text: string, tree: seq<SpanNode>, bounds: Bounds): (r: seq<SpanNode>)
    ensures tree == [] ==> r == []
    ensures tree != [] ==> |r| == LeadGap(tree, bounds) + 2 * |tree| - 1 + TrailGap(tree, bounds)
  {
    if tree == [] then []
    else
      FillUpToLength(text, tree, bounds, |tree|);
      FillUpTo(text, tree, bounds, |tree|)
  }

  /** `fill`. */
  method Fill(text: string, tree: seq<SpanNode>, bounds: Bounds) returns (result: seq<SpanNode>)
    ensures result == Filled(text, tree, bounds)
  {
    result := [];
    for index := 0 to |tree|
      invariant result == FillUpTo(text, tree, bounds, index)
    {
      var span := tree[index];
      var fillStart := index == 0 && span.start > bounds.lower;
      var fillEnd := index == |tree| - 1 && bounds.upper > span.end;
      if fillStart || index > 0 {
        var sliceStart := if fillStart then bounds.lower else tree[index - 1].end;
        result := result + [TextNode(sliceStart, span.start, JsSlice(text, sliceStart, span.start))];
      }
      result := result + [span];
      if fillEnd {
        result := result + [TextNode(span.end, bounds.upper, JsSlice(text, span.end, bounds.upper))];
      }
      FillUpToNext(text, tree, bounds, index);
    }
  }

  // ---------------------------------------------------------- text blocks

  /** The span node `processTextBlock` makes of a raw span. */
  function ToSpanNode(text: string, span: RawSpan): (n: SpanNode)
    ensures n.start == span.start && n.end == span.end && n.kind == span.kind
    ensures n.text == JsSlice(text, span.start, span.end) && n.children == [] && n.element == FromSpan(span)
  {
    SpanNode(span.start, span.end, span.kind, JsSlice(text, span.start, span.end), [], FromSpan(span))
  }

  function SpanNodesOf(block: Block): (r: seq<SpanNode>)
    ensures |r| == |block.spans|
    ensures forall i :: 0 <= i < |r| ==> r[i] == ToSpanNode(block.text, block.spans[i])
  {
    seq(|block.spans|, i requires 0 <= i < |block.spans| => ToSpanNode(block.text, block.spans[i]))
  }

  /** `processTextBlock`: the resolved and filled nodes over the whole text. */
  function ProcessTextBlock(block: Block): (r: seq<SpanNode>)
    ensures block.spans == [] ==> r == [TextNode(0, |block.text|, block.text)]
  {
    assert block.spans == [] ==> SpanNodesOf(block) == [];
    assert block.text[0..|block.text|] == block.text;
    BuildTreeAndFill(block.text, SpanNodesOf(block), Bounds(0, |block.text|))
  }

  // ------------------------------------------------------------- assembly

  predicate IsMedia(t: string)
  {
    t == TypeString(Embed) || t == TypeString(Image)
  }

  /** One step of the `reduce` in `NodeTree._createChildren`; `textNodes`
      are the block's processed text nodes, used unless it is an image or an
      embed. */
  function AppendBlock(children: seq<Node>, block: Block, textNodes: seq<SpanNode>): (r: seq<Node>)
    ensures r != [] && |children| <= |r| <= |children| + 1
    ensures forall i :: 0 <= i < |children| - 1 ==> r[i] == children[i]
    ensures |r| == |children| + 1 && children != [] ==> r[|children| - 1] == children[|children| - 1]
  {
    var t := block.blockType;
    if IsMedia(t) then children + [BlockNode(t, block, [])]
    else
      var previousBlock := GetLast(children);
      if t == TypeString(ListItem) then
        var listItem := ListItemNode(block, textNodes);
        if previousBlock.Some? && previousBlock.value.ListNode?
        then ReplacedLast(children, AddChild(previousBlock.value, listItem))
        else children + [ListNode(CreateEmptyList(false), [listItem])]
      else if t == TypeString(OListItem) then
        var orderedListItem := OListItemNode(block, textNodes);
        if previousBlock.Some? && previousBlock.value.OListNode?
        then ReplacedLast(children, AddChild(previousBlock.value, orderedListItem))
        else children + [OListNode(CreateEmptyList(true), [orderedListItem])]
      else children + [BlockNode(t, block, textNodes)]
  }

  /** The document tree of a block list, given the text nodes of each block. */
  function AssembleWith(blocks: seq<Block>, texts: seq<seq<SpanNode>>): (r: seq<Node>)
    requires |texts| == |blocks|
    ensures |r| <= |blocks|
    ensures blocks != [] ==> r != []
  {
    if blocks == [] then []
    else
      var n := |blocks| - 1;
      AppendBlock(AssembleWith(blocks[..n], texts[..n]), blocks[n], texts[n])
  }

  /** The processed text nodes of each block. */
  function Processed(blocks: seq<Block>): (r: seq<seq<SpanNode>>)
    ensures |r| == |blocks|
    ensures forall i :: 0 <= i < |blocks| ==> r[i] == ProcessTextBlock(blocks[i])
  {
    seq(|blocks|, i requires 0 <= i < |blocks| => ProcessTextBlock(blocks[i]))
  }

  /** The document tree of a block list: at most one node per block, and at
      least one node when there is a block. */
  function Assemble(blocks: seq<Block>): (r: seq<Node>)
    ensures |r| <= |blocks|
    ensures blocks != [] ==> r != []
  {
    AssembleWith(blocks, Processed(blocks))
  }

  /** `NodeTree._createChildren`, with its accumulator as a JavaScript array
      that `replaceLast` overwrites in place. */
  method CreateChildren(richText: seq<Block>) returns (nodes: seq<Node>)
    ensures nodes == Assemble(richText)
  {
    var children := new JsArray<Node>([]);
    ghost var texts := Processed(richText);
    for i := 0 to |richText|
      invariant fresh(children)
      invariant children.items == AssembleWith(richText[..i], texts[..i])
    {
      var currentBlock := richText[i];
      var t := currentBlock.blockType;
      assert richText[..i + 1][..i] == richText[..i] && texts[..i + 1][..i] == texts[..i];
      if t == TypeString(Embed) || t == TypeString(Image) {
        children := children.Concat(BlockNode(t, currentBlock, []));
      } else {
        var textNodes := ProcessTextBlock(currentBlock);
        var previousBlock := GetLast(children.items);
        if t == TypeString(ListItem) {
          var listItem := ListItemNode(currentBlock, textNodes);
          if previousBlock.Some? && previousBlock.value.ListNode? {
            children := children.ReplaceLast(AddChild(previousBlock.value, listItem));
          } else {
            children := children.Concat(ListNode(CreateEmptyList(false), [listItem]));
          }
        } else if t == TypeString(OListItem) {
          var orderedListItem := OListItemNode(currentBlock, textNodes);
          if previousBlock.Some? && previousBlock.value.OListNode? {
            children := children.ReplaceLast(AddChild(previousBlock.value, orderedListItem));
          } else {
            children := children.Concat(OListNode(CreateEmptyList(true), [orderedListItem]));
          }
        } else {
          children := children.Concat(BlockNode(t, currentBlock, textNodes));
        }
      }
    }
    assert richText[..|richText|] == richText && texts[..|richText|] == texts;
    nodes := children.items;
  }
}
