/** The HTML serializer: each node of the document tree becomes an HTML
    string built from its type, its element and its children's strings.
    Every value taken from the document is HTML-escaped before it is placed
    in an attribute or in text; a node of unknown type gives `null`, here
    `None`, which joins as the empty string. */
module HtmlSerializer {
  import opened Wrappers
  import opened Seqs
  import opened NodeTypes
  import opened Nodes
  import opened EscapeHtmlUtil
  import opened ResolveUrlUtil

  /** The serializer's options. */
  datatype Config = Config(defaultHyperlinkTarget: string, imageCopyrightAttribute: string)

  /** The constructor: an absent or empty option takes its default. */
  function NewSerializer(defaultHyperlinkTarget: string, imageCopyrightAttribute: string): (c: Config)
    ensures c.defaultHyperlinkTarget != "" && c.imageCopyrightAttribute != ""
    ensures defaultHyperlinkTarget != "" ==> c.defaultHyperlinkTarget == defaultHyperlinkTarget
    ensures imageCopyrightAttribute != "" ==> c.imageCopyrightAttribute == imageCopyrightAttribute
    ensures defaultHyperlinkTarget == "" ==> c.defaultHyperlinkTarget == "_self"
    ensures imageCopyrightAttribute == "" ==> c.imageCopyrightAttribute == "data-copyright"
  {
    Config(if defaultHyperlinkTarget != "" then defaultHyperlinkTarget else "_self",
           if imageCopyrightAttribute != "" then imageCopyrightAttribute else "data-copyright")
  }

  /** `array.join('')` over serialized children: `null` joins as "". */
  function JoinAll(parts: seq<Option<string>>): (r: string)
    ensures parts == [] ==> r == ""
  {
    if parts == [] then ""
    else JoinAll(parts[..|parts| - 1]) + (if parts[|parts| - 1].Some? then parts[|parts| - 1].value else "")
  }

  lemma {:induction false} JoinAllAppend(a: seq<Option<string>>, b: seq<Option<string>>)
    ensures JoinAll(a + b) == JoinAll(a) + JoinAll(b)
    decreases |b|
  {
    if b == [] {
      assert a + b == a;
    } else {
      assert (a + b)[..|a + b| - 1] == a + b[..|b| - 1];
      JoinAllAppend(a, b[..|b| - 1]);
    }
  }

  /** A node that serializes to nothing leaves no trace in the joined
      output, wherever it stands. */
  lemma JoinAllNone(a: seq<Option<string>>, b: seq<Option<string>>)
    ensures JoinAll(a + [None] + b) == JoinAll(a + b)
  {
    JoinAllAppend(a + [None], b);
    JoinAllAppend(a, [None]);
    var none: seq<Option<string>> := [None];
    assert none[..0] == [];
    JoinAllAppend(a, b);
  }

  /** A serialized string joins as itself. */
  lemma JoinAllSingle(s: string)
    ensures JoinAll([Some(s)]) == s
  {
    assert [Some(s)][..0] == [];
  }

  // ------------------------------------------------------------ elements

  /** `serializeStandardTag`. */
  function SerializeStandardTag(tag: string, children: seq<Option<string>>): (r: string)
    ensures |r| == 2 * |tag| + 5 + |JoinAll(children)|
  {
    "<" + tag + ">" + JoinAll(children) + "</" + tag + ">"
  }

  /** `name="value"` with the value escaped: how every attribute taken from
      the document is written. */
  function Attribute(name: string, value: string): (r: string)
    ensures |r| == |name| + |Escape(value)| + 3
  {
    name + "=\"" + Escape(value) + "\""
  }

  /** `serializeHyperlink`: the escaped target (the link's own, else the
      default) and the escaped resolved URL around `content`. */
  function SerializeHyperlink(cfg: Config, link: Link, content: string): (r: string)
    ensures |r| >= |content| + 7 && r[..3] == "<a " && r[|r| - |content| - 4..] == content + "</a>"
  {
    var targetSegment := Attribute("target", if link.target != "" then link.target else cfg.defaultHyperlinkTarget) + " rel=\"noopener\"";
    "<a " + targetSegment + " " + Attribute("href", ResolveUrl(link)) + ">" + content + "</a>"
  }

  /** `serializeImage`: an `img` with escaped source, alternative text and
      copyright, wrapped in a link when the image links somewhere, in a `p`. */
  function SerializeImage(cfg: Config, element: Block): (r: string)
    ensures |r| >= 12 && r[..3] == "<p>" && r[|r| - 4..] == "</p>"
    ensures element.linkTo.None? ==> r[3..8] == "<img "
    ensures element.linkTo.Some? ==> r[3..6] == "<a "
  {
    var img := "<img " + Attribute("src", element.url) + " " + Attribute("alt", element.alt) + " "
      + Attribute(cfg.imageCopyrightAttribute, element.copyright) + ">";
    var content := if element.linkTo.Some? then SerializeHyperlink(cfg, element.linkTo.value, img) else img;
    "<p>" + content + "</p>"
  }

  /** `serializeEmbed`: a `div` carrying the escaped embed URL, type and
      provider, around the provider's HTML, which is not escaped. The
      whitespace is the template's own: lines indented by 8 and 10 spaces,
      and 6 spaces after the last line break. */
  function SerializeEmbed(element: Block): (r: string)
    ensures var tail := "\n        </div>\n      ";
      |r| >= |element.oembed.html| + |tail| && r[|r| - |tail| - |element.oembed.html|..] == element.oembed.html + tail
  {
    var o := element.oembed;
    "\n        <div " + Attribute("data-oembed", o.embedUrl)
    + "\n          " + Attribute("data-oembed-type", o.embedType)
    + "\n          " + Attribute("data-oembed-provider", o.providerName)
    + "\n        >\n          " + o.html
    + "\n        </div>\n      "
  }

  /** `serializeLabel`: a `span` whose class is the escaped label, with no
      class attribute when the label is empty. */
  function SerializeLabel(labelName: string, children: seq<Option<string>>): (r: string)
    ensures |r| >= |JoinAll(children)| + 14 && r[..6] == "<span " && r[|r| - |JoinAll(children)| - 7..] == JoinAll(children) + "</span>"
    ensures labelName == "" <==> |r| == |JoinAll(children)| + 14
  {
    var head := "<span " + (if labelName != "" then Attribute("class", labelName) else "") + ">";
    var body := JoinAll(children) + "</span>";
    assert (head + body)[..6] == head[..6];
    assert (head + body)[|head|..] == body;
    head + body
  }

  /** The `replace(/\n/g, '<br>')` of `serializeSpan`. */
  function BreakLines(s: string): (r: string)
    ensures '\n' !in r
    ensures '\n' !in s ==> r == s
  {
    if s == [] then ""
    else (if s[0] == '\n' then "<br>" else [s[0]]) + BreakLines(s[1..])
  }

  /** `serializeSpan`: the escaped text with line breaks as `<br>`. */
  function SerializeSpan(text: string): (r: string)
    ensures '\n' !in r
  {
    BreakLines(Escape(text))
  }

  // ------------------------------------------------------------- dispatch

  /** The element a node carries: a block, or what a span node was made from. */
  datatype Element = OfBlock(block: Block) | OfSpan(span: SpanElement)

  /** The types serialized by `serializeStandardTag`. */
  predicate IsStandard(k: Kind)
  {
    !(k == Image || k == Embed || k == Hyperlink || k == Label || k == Span)
  }

  /** The tag of each standard type. */
  function TagOf(k: Kind): string
    requires IsStandard(k)
  {
    match k
    case Heading1 => "h1"
    case Heading2 => "h2"
    case Heading3 => "h3"
    case Heading4 => "h4"
    case Heading5 => "h5"
    case Heading6 => "h6"
    case Paragraph => "p"
    case Preformatted => "pre"
    case Strong => "strong"
    case Em => "em"
    case ListItem => "li"
    case OListItem => "li"
    case List => "ul"
    case OList => "ol"
  }

  /** The `switch` of `serialize`, on a known type. */
  function SerializeKind(cfg: Config, k: Kind, element: Element, content: Option<string>, children: seq<Option<string>>): (r: Option<string>)
  {
    match k
    case Image => if element.OfBlock? then Some(SerializeImage(cfg, element.block)) else None
    case Embed => if element.OfBlock? then Some(SerializeEmbed(element.block)) else None
    case Hyperlink =>
      if element.OfSpan? && element.span.FromSpan?
      then Some(SerializeHyperlink(cfg, element.span.span.data.link, JoinAll(children)))
      else None
    case Label =>
      if element.OfSpan? && element.span.FromSpan?
      then Some(SerializeLabel(element.span.span.data.labelName, children))
      else None
    case Span => Some(SerializeSpan(if content.Some? then content.value else ""))
    case _ => Some(SerializeStandardTag(TagOf(k), children))
  }

  /** `serialize`: chooses the serialization by the node's type. `content`
      is the node's text for a span node and absent otherwise. An unknown
      type gives `None`; so do a link or a label without span data and an
      image or embed that is not a block, on which the source fails. */
  function Serialize(cfg: Config, nodeType: string, element: Element, content: Option<string>, children: seq<Option<string>>): (r: Option<string>)
    ensures KindOf(nodeType).None? ==> r.None?
    ensures (KindOf(nodeType).Some? && IsStandard(KindOf(nodeType).value)) ==> r.Some?
  {
    match KindOf(nodeType)
    case None => None
    case Some(k) => SerializeKind(cfg, k, element, content, children)
  }

  /** The `step` of `serializeNodeTree` on a span node: its children first. */
  function SerializeSpanNode(cfg: Config, n: SpanNode): (r: Option<string>)
    decreases n
  {
    var children := seq(|n.children|, i requires 0 <= i < |n.children| => SerializeSpanNode(cfg, n.children[i]));
    Serialize(cfg, TypeString(n.kind), OfSpan(n.element), Some(n.text), children)
  }

  /** The `step` of `serializeNodeTree` on a block-level node. */
  function SerializeNode(cfg: Config, n: Node): (r: Option<string>)
    ensures !n.BlockNode? ==> r.Some?
    decreases n
  {
    match n
    case BlockNode(t, b, spans) =>
      Serialize(cfg, t, OfBlock(b), None, seq(|spans|, i requires 0 <= i < |spans| => SerializeSpanNode(cfg, spans[i])))
    case ListItemNode(b, spans) =>
      Serialize(cfg, n.Type(), OfBlock(b), None, seq(|spans|, i requires 0 <= i < |spans| => SerializeSpanNode(cfg, spans[i])))
    case OListItemNode(b, spans) =>
      Serialize(cfg, n.Type(), OfBlock(b), None, seq(|spans|, i requires 0 <= i < |spans| => SerializeSpanNode(cfg, spans[i])))
    case ListNode(b, items) =>
      Serialize(cfg, n.Type(), OfBlock(b), None, seq(|items|, i requires 0 <= i < |items| => SerializeNode(cfg, items[i])))
    case OListNode(b, items) =>
      Serialize(cfg, n.Type(), OfBlock(b), None, seq(|items|, i requires 0 <= i < |items| => SerializeNode(cfg, items[i])))
  }

  /** `serializeNodeTree`: one string (or `null`) per top-level node. */
  function SerializeNodeTree(cfg: Config, nodes: seq<Node>): (r: seq<Option<string>>)
    ensures |r| == |nodes|
    ensures forall i :: 0 <= i < |nodes| ==> r[i] == SerializeNode(cfg, nodes[i])
  {
    seq(|nodes|, i requires 0 <= i < |nodes| => SerializeNode(cfg, nodes[i]))
  }
}
