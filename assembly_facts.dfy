/** Properties of the block assembly: every block appears exactly once and
    in order, consecutive list items share one list grouping, two groupings
    of the same kind are never adjacent, and each grouping holds items of
    its own kind only. */
module AssemblyFacts {
  import opened Wrappers
  import opened Seqs
  import opened NodeTypes
  import opened Nodes
  import opened GetLastUtil
  import opened ReplaceLastUtil
  import opened NodeTree

  /** The blocks a node stands for: the items' blocks for a list grouping,
      otherwise its own block. */
  function BlocksOf(n: Node): (r: seq<Block>)
    ensures !(n.ListNode? || n.OListNode?) ==> r == [n.element]
    ensures (n.ListNode? || n.OListNode?) ==> |r| == |n.items|
  {
    if n.ListNode? || n.OListNode? then seq(|n.items|, i requires 0 <= i < |n.items| => n.items[i].element)
    else [n.element]
  }

  /** The blocks of a node list, in order. */
  function Blocks(r: seq<Node>): seq<Block>
  {
    if r == [] then [] else Blocks(r[..|r| - 1]) + BlocksOf(r[|r| - 1])
  }

  lemma AddChildBlocks(list: Node, x: Node)
    requires (list.ListNode? || list.OListNode?) && !(x.ListNode? || x.OListNode?)
    ensures BlocksOf(AddChild(list, x)) == BlocksOf(list) + [x.element]
  {
  }

  /** Assembling one more block is one more step of the `reduce`. */
  lemma AssembleStep(blocks: seq<Block>, texts: seq<seq<SpanNode>>, block: Block, textNodes: seq<SpanNode>)
    requires |texts| == |blocks|
    ensures AssembleWith(blocks + [block], texts + [textNodes]) == AppendBlock(AssembleWith(blocks, texts), block, textNodes)
  {
    assert (blocks + [block])[..|blocks|] == blocks;
    assert (texts + [textNodes])[..|blocks|] == texts;
  }

  /** A step adds exactly its block, at the end. */
  lemma AppendBlockKeepsBlocks(children: seq<Node>, block: Block, textNodes: seq<SpanNode>)
    ensures Blocks(AppendBlock(children, block, textNodes)) == Blocks(children) + [block]
  {
    var r := AppendBlock(children, block, textNodes);
    var t := block.blockType;
    if !IsMedia(t) && children != [] &&
       ((t == "list-item" && children[|children| - 1].ListNode?) || (t == "o-list-item" && children[|children| - 1].OListNode?)) {
      var last := children[|children| - 1];
      var item := if t == "list-item" then ListItemNode(block, textNodes) else OListItemNode(block, textNodes);
      var front := children[..|children| - 1];
      if t == "list-item" {
        ListItemJoins(children, block, textNodes);
      } else {
        OListItemJoins(children, block, textNodes);
      }
      assert r == front + [AddChild(last, item)];
      assert r[..|r| - 1] == front;
      AddChildBlocks(last, item);
    } else {
      AppendsOneNode(children, block, textNodes);
      assert r[..|r| - 1] == children;
    }
  }

  /** Outside the joining case a step appends one node standing for the block. */
  lemma AppendsOneNode(children: seq<Node>, block: Block, textNodes: seq<SpanNode>)
    requires var t := block.blockType;
      IsMedia(t) || children == [] ||
      !((t == "list-item" && children[|children| - 1].ListNode?) || (t == "o-list-item" && children[|children| - 1].OListNode?))
    ensures var r := AppendBlock(children, block, textNodes);
      |r| == |children| + 1 && r[..|children|] == children && BlocksOf(r[|children|]) == [block]
  {
    var t := block.blockType;
    if IsMedia(t) {
      MediaIsLeaf(children, block, textNodes);
    } else if t == "list-item" {
      ListItemOpens(children, block, textNodes);
    } else if t == "o-list-item" {
      OListItemOpens(children, block, textNodes);
    } else {
      OtherBlock(children, block, textNodes);
    }
  }

  lemma {:induction false} AssembleWithKeepsBlocks(blocks: seq<Block>, texts: seq<seq<SpanNode>>)
    requires |texts| == |blocks|
    ensures Blocks(AssembleWith(blocks, texts)) == blocks
    decreases |blocks|
  {
    if blocks != [] {
      var n := |blocks| - 1;
      AssembleWithKeepsBlocks(blocks[..n], texts[..n]);
      AppendBlockKeepsBlocks(AssembleWith(blocks[..n], texts[..n]), blocks[n], texts[n]);
      InitLast(blocks);
    }
  }

  /** Every block is in the tree once, in document order: reading the tree
      with list groupings opened gives back the blocks. */
  lemma AssembleKeepsBlocks(blocks: seq<Block>)
    ensures Blocks(Assemble(blocks)) == blocks
  {
    AssembleWithKeepsBlocks(blocks, Processed(blocks));
  }

  /** A list grouping holds only items of its own kind. */
  ghost predicate Homogeneous(n: Node)
  {
    && (n.ListNode? ==> forall k :: 0 <= k < |n.items| ==> n.items[k].ListItemNode?)
    && (n.OListNode? ==> forall k :: 0 <= k < |n.items| ==> n.items[k].OListItemNode?)
  }

  /** Two nodes that are list groupings of the same kind. */
  predicate SameGrouping(a: Node, b: Node)
  {
    (a.ListNode? && b.ListNode?) || (a.OListNode? && b.OListNode?)
  }

  /** No two list groupings of the same kind are adjacent, and each grouping
      holds only items of its kind. */
  ghost predicate WellListed(r: seq<Node>)
  {
    && (forall i :: 0 <= i < |r| - 1 ==> !SameGrouping(r[i], r[i + 1]))
    && (forall i :: 0 <= i < |r| ==> Homogeneous(r[i]))
  }

  lemma AppendWellListed(children: seq<Node>, x: Node)
    requires WellListed(children) && Homogeneous(x)
    requires children != [] ==> !SameGrouping(children[|children| - 1], x)
    ensures WellListed(children + [x])
  {
    var r := children + [x];
    assert forall i :: 0 <= i < |children| ==> r[i] == children[i];
  }

  lemma JoinWellListed(children: seq<Node>, x: Node)
    requires WellListed(children) && children != []
    requires var last := children[|children| - 1];
      (last.ListNode? && x.ListItemNode?) || (last.OListNode? && x.OListItemNode?)
    ensures WellListed(children[..|children| - 1] + [AddChild(children[|children| - 1], x)])
  {
    var front := children[..|children| - 1];
    var last := children[|children| - 1];
    var joined := AddChild(last, x);
    assert Homogeneous(last);
    assert forall k :: 0 <= k < |joined.items| - 1 ==> joined.items[k] == last.items[k];
    assert Homogeneous(joined);
    assert WellListed(front);
    if front != [] {
      assert !SameGrouping(front[|front| - 1], last);
    }
    AppendWellListed(front, joined);
  }

  lemma AppendBlockWellListed(children: seq<Node>, block: Block, textNodes: seq<SpanNode>)
    requires WellListed(children)
    ensures WellListed(AppendBlock(children, block, textNodes))
  {
    var t := block.blockType;
    var joins := !IsMedia(t) && children != [] &&
       ((t == "list-item" && children[|children| - 1].ListNode?) || (t == "o-list-item" && children[|children| - 1].OListNode?));
    if joins && t == "list-item" {
      ListItemJoins(children, block, textNodes);
      JoinWellListed(children, ListItemNode(block, textNodes));
    } else if joins {
      OListItemJoins(children, block, textNodes);
      JoinWellListed(children, OListItemNode(block, textNodes));
    } else if IsMedia(t) {
      MediaIsLeaf(children, block, textNodes);
      AppendWellListed(children, BlockNode(t, block, []));
    } else if t == "list-item" {
      ListItemOpens(children, block, textNodes);
      AppendWellListed(children, ListNode(CreateEmptyList(false), [ListItemNode(block, textNodes)]));
    } else if t == "o-list-item" {
      OListItemOpens(children, block, textNodes);
      AppendWellListed(children, OListNode(CreateEmptyList(true), [OListItemNode(block, textNodes)]));
    } else {
      OtherBlock(children, block, textNodes);
      AppendWellListed(children, BlockNode(t, block, textNodes));
    }
  }

  lemma {:induction false} AssembleWithWellListed(blocks: seq<Block>, texts: seq<seq<SpanNode>>)
    requires |texts| == |blocks|
    ensures WellListed(AssembleWith(blocks, texts))
    decreases |blocks|
  {
    if blocks != [] {
      var n := |blocks| - 1;
      AssembleWithWellListed(blocks[..n], texts[..n]);
      AppendBlockWellListed(AssembleWith(blocks[..n], texts[..n]), blocks[n], texts[n]);
    }
  }

  /** Consecutive list items always share a grouping: the assembled tree
      never has two groupings of the same kind side by side, and groupings
      hold items of their own kind only. */
  lemma AssembleWellListed(blocks: seq<Block>)
    ensures WellListed(Assemble(blocks))
  {
    AssembleWithWellListed(blocks, Processed(blocks));
  }

  /** The two item types are text types, distinct from each other. */
  lemma ItemTypes()
    ensures !IsMedia("list-item") && !IsMedia("o-list-item")
    ensures TypeString(ListItem) == "list-item" && TypeString(OListItem) == "o-list-item"
    ensures "o-list-item" != "list-item"
  {
  }

  /** A list item that follows a list grouping joins it: the grouping is
      replaced by one with the item appended, the rest is unchanged. */
  lemma ListItemJoins(children: seq<Node>, block: Block, textNodes: seq<SpanNode>)
    requires block.blockType == "list-item"
    requires children != [] && children[|children| - 1].ListNode?
    ensures var last := children[|children| - 1];
      AppendBlock(children, block, textNodes)
        == children[..|children| - 1] + [ListNode(last.element, last.items + [ListItemNode(block, textNodes)])]
  {
    ItemTypes();
  }

  /** A list item that does not follow a list grouping opens a new one. */
  lemma ListItemOpens(children: seq<Node>, block: Block, textNodes: seq<SpanNode>)
    requires block.blockType == "list-item"
    requires children == [] || !children[|children| - 1].ListNode?
    ensures AppendBlock(children, block, textNodes) == children + [ListNode(CreateEmptyList(false), [ListItemNode(block, textNodes)])]
  {
    ItemTypes();
  }

  /** An ordered list item that follows an ordered grouping joins it. */
  lemma OListItemJoins(children: seq<Node>, block: Block, textNodes: seq<SpanNode>)
    requires block.blockType == "o-list-item"
    requires children != [] && children[|children| - 1].OListNode?
    ensures var last := children[|children| - 1];
      AppendBlock(children, block, textNodes)
        == children[..|children| - 1] + [OListNode(last.element, last.items + [OListItemNode(block, textNodes)])]
  {
    ItemTypes();
  }

  /** An ordered list item that does not follow an ordered grouping opens a
      new one, even right after an unordered grouping. */
  lemma OListItemOpens(children: seq<Node>, block: Block, textNodes: seq<SpanNode>)
    requires block.blockType == "o-list-item"
    requires children == [] || !children[|children| - 1].OListNode?
    ensures AppendBlock(children, block, textNodes) == children + [OListNode(CreateEmptyList(true), [OListItemNode(block, textNodes)])]
  {
    ItemTypes();
  }

  /** An image or an embed becomes a leaf node of its own, without text nodes. */
  lemma MediaIsLeaf(children: seq<Node>, block: Block, textNodes: seq<SpanNode>)
    requires IsMedia(block.blockType)
    ensures AppendBlock(children, block, textNodes) == children + [BlockNode(block.blockType, block, [])]
  {
  }

  /** Any other block becomes a node of its own type holding its text nodes. */
  lemma OtherBlock(children: seq<Node>, block: Block, textNodes: seq<SpanNode>)
    requires !IsMedia(block.blockType) && block.blockType != "list-item" && block.blockType != "o-list-item"
    ensures AppendBlock(children, block, textNodes) == children + [BlockNode(block.blockType, block, textNodes)]
  {
  }

  /** A lone list item opens a grouping holding it. */
  lemma OneListItem(a: Block, ta: seq<SpanNode>)
    requires a.blockType == "list-item"
    ensures AssembleWith([a], [ta]) == [ListNode(CreateEmptyList(false), [ListItemNode(a, ta)])]
  {
    AssembleStep([], [], a, ta);
    assert [] + [a] == [a] && [] + [ta] == [ta];
    ListItemOpens([], a, ta);
  }

  /** A list item after a lone list grouping joins that grouping. */
  lemma ListItemAfterList(e: Block, items: seq<Node>, b: Block, tb: seq<SpanNode>)
    requires b.blockType == "list-item"
    ensures AppendBlock([ListNode(e, items)], b, tb) == [ListNode(e, items + [ListItemNode(b, tb)])]
  {
    ListItemJoins([ListNode(e, items)], b, tb);
    assert [ListNode(e, items)][..0] == [];
  }

  /** Two consecutive list items make one grouping holding both. */
  lemma TwoListItems(a: Block, b: Block, ta: seq<SpanNode>, tb: seq<SpanNode>)
    requires a.blockType == "list-item" && b.blockType == "list-item"
    ensures AssembleWith([a, b], [ta, tb]) == [ListNode(CreateEmptyList(false), [ListItemNode(a, ta), ListItemNode(b, tb)])]
  {
    OneListItem(a, ta);
    AssembleStep([a], [ta], b, tb);
    Pair(a, b);
    Pair(ta, tb);
    ListItemAfterList(CreateEmptyList(false), [ListItemNode(a, ta)], b, tb);
    Pair(ListItemNode(a, ta), ListItemNode(b, tb));
  }
}
