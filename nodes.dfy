/** The value types of the document tree: the raw spans and blocks of a
    document, span nodes with their containment and slicing operations, text
    nodes, and the block-level nodes including the two list groupings. */
module Nodes {
  import opened Wrappers
  import opened Seqs
  import opened NodeTypes
  import opened ResolveUrlUtil

  /** The `data` object of a raw span: read as a link by hyperlinks and for
      its `label` field (here `labelName`) by labels; an absent field is the empty string. */
  datatype SpanData = SpanData(link: Link, labelName: string)

  /** A raw span of a document block: `[start, end)` styled with `kind`. */
  datatype RawSpan = RawSpan(start: int, end: int, kind: Kind, data: SpanData)

  /** The `oembed` object of an embed block. */
  datatype OEmbed = OEmbed(embedUrl: string, embedType: string, providerName: string, html: string)

  /** A block of a document. Text-bearing blocks use `text` and `spans`,
      image blocks `url`, `alt`, `copyright` and `linkTo`, embed blocks
      `oembed`; an absent field is empty. */
  datatype Block = Block(
    blockType: string, text: string, spans: seq<RawSpan>,
    url: string, alt: string, copyright: string, linkTo: Option<Link>,
    oembed: OEmbed)

  /** What a span node was made from: a raw span, or (for a text node) the
      record `{type, start, end, text}`. */
  datatype SpanElement =
    | FromSpan(span: RawSpan)
    | FromText(kind: Kind, start: int, end: int, text: string)

  datatype Bounds = Bounds(lower: int, upper: int)

  datatype SpanNode = SpanNode(
    start: int, end: int, kind: Kind, text: string,
    children: seq<SpanNode>, element: SpanElement)
  {
    /** `{lower: start, upper: end}`. */
    function Boundaries(): (b: Bounds)
      ensures b.lower == start && b.upper == end
    {
      Bounds(start, end)
    }

    /** Containment of ranges, equality included. */
    predicate IsParentOf(other: SpanNode)
      ensures IsParentOf(other) ==> other.end - other.start <= end - start
      ensures other.start == start && other.end == end ==> IsParentOf(other)
    {
      start <= other.start && end >= other.end
    }

    /** The same node with other children. */
    function SetChildren(cs: seq<SpanNode>): (r: SpanNode)
      ensures r.children == cs
      ensures r.start == start && r.end == end && r.kind == kind && r.text == text && r.element == element
    {
      this.(children := cs)
    }
  }

  /** Every node is a parent of itself, and containment is transitive. */
  lemma ParentOfIsPreorder(a: SpanNode, b: SpanNode, c: SpanNode)
    ensures a.IsParentOf(a)
    ensures a.IsParentOf(b) && b.IsParentOf(c) ==> a.IsParentOf(c)
    ensures a.IsParentOf(b) && b.IsParentOf(a) <==> a.start == b.start && a.end == b.end
  {
  }

  /** `SpanNode.slice`: the range `[start, end)` of `n` over `text`, with
      `n`'s kind, children and element. */
  function Slice(n: SpanNode, start: int, end: int, text: string): (r: SpanNode)
    ensures r.start == start && r.end == end
    ensures r.kind == n.kind && r.children == n.children && r.element == n.element
    ensures 0 <= start <= end <= |text| ==> r.text == text[start..end]
  {
    SpanNode(start, end, n.kind, JsSlice(text, start, end), n.children, n.element)
  }

  /** Slicing a node to its own range gives it back when its text is the
      text of that range. */
  lemma SliceIdempotent(n: SpanNode, text: string)
    requires 0 <= n.start <= n.end <= |text| && n.text == text[n.start..n.end]
    ensures Slice(n, n.start, n.end, text) == n
  {
  }

  /** A plain-text node: kind `span`, no children, its element recording
      type, range and text. */
  function TextNode(start: int, end: int, text: string): (r: SpanNode)
    ensures r.start == start && r.end == end && r.text == text
    ensures r.kind == Span && r.children == []
    ensures r.element == FromText(Span, start, end, text)
  {
    SpanNode(start, end, Span, text, [], FromText(Span, start, end, text))
  }

  predicate IsTextNode(n: SpanNode)
  {
    n == TextNode(n.start, n.end, n.text)
  }

  /** Block-level nodes. `BlockNode` is the generic node; the four list
      classes carry a fixed type. */
  datatype Node =
    | BlockNode(nodeType: string, element: Block, spans: seq<SpanNode>)
    | ListItemNode(element: Block, spans: seq<SpanNode>)
    | OListItemNode(element: Block, spans: seq<SpanNode>)
    | ListNode(element: Block, items: seq<Node>)
    | OListNode(element: Block, items: seq<Node>)
  {
    function Type(): (t: string)
      ensures ListItemNode? ==> t == "list-item"
      ensures OListItemNode? ==> t == "o-list-item"
      ensures ListNode? ==> t == "group-list-item"
      ensures OListNode? ==> t == "group-o-list-item"
    {
      match this
      case BlockNode(t, _, _) => t
      case ListItemNode(_, _) => TypeString(ListItem)
      case OListItemNode(_, _) => TypeString(OListItem)
      case ListNode(_, _) => TypeString(List)
      case OListNode(_, _) => TypeString(OList)
    }
  }

  /** `addChild` of the two list groupings: a new grouping of the same
      class, same element, with `x` appended to the items. */
  function AddChild(list: Node, x: Node): (r: Node)
    requires list.ListNode? || list.OListNode?
    ensures r.ListNode? == list.ListNode? && r.OListNode? == list.OListNode?
    ensures r.element == list.element && r.items == list.items + [x]
  {
    if list.ListNode? then ListNode(list.element, list.items + [x])
    else OListNode(list.element, list.items + [x])
  }
}
