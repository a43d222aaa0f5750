/** Properties of the entry points: plain text can be split back into the
    blocks' texts, the HTML of a document grows block by block, and the
    HTML of a paragraph gives its text back. */
module ParserFacts {
  import opened Wrappers
  import opened Seqs
  import opened NodeTypes
  import opened Nodes
  import opened EscapeHtmlUtil
  import opened NodeTree
  import opened FillFacts
  import opened AssemblyFacts
  import opened HtmlSerializer
  import opened HtmlFacts
  import opened RichTextParser

  // ------------------------------------------------------------ plain text

  /** `String.prototype.split` on one character: the pieces between the
      occurrences of `c`. */
  function Split(s: string, c: char): (r: seq<string>)
    ensures |r| >= 1
    decreases |s|
  {
    match Until(s, c)
    case None => [s]
    case Some((v, rest)) => [v] + Split(rest, c)
  }

  /** Joining with a one-character separator that occurs in no part is
      undone by splitting at that character. */
  lemma {:induction false} SplitJoin(parts: seq<string>, c: char)
    requires parts != []
    requires forall i :: 0 <= i < |parts| ==> c !in parts[i]
    ensures Split(Join(parts, [c]), c) == parts
  {
    if |parts| == 1 {
      assert Until(parts[0], c) == None;
    } else {
      var rest := Join(parts[1..], [c]);
      assert Join(parts, [c]) == parts[0] + [c] + rest;
      UntilWritten(parts[0], c, rest);
      SplitJoin(parts[1..], c);
      assert [parts[0]] + parts[1..] == parts;
    }
  }

  /** The plain text of a non-empty document, joined by a character that
      occurs in no block's text, splits back into the blocks' texts. */
  lemma TextSplitsBack(richText: seq<Block>, c: char)
    requires richText != []
    requires forall i :: 0 <= i < |richText| ==> c !in richText[i].text
    ensures Split(ParseAsText(richText, Some([c])), c) == BlockTexts(richText)
  {
    SplitJoin(BlockTexts(richText), c);
  }

  /** The total length of the parts. */
  function TotalLength(parts: seq<string>): nat
  {
    if parts == [] then 0 else |parts[0]| + TotalLength(parts[1..])
  }

  /** Each separator stands between two parts. */
  lemma {:induction false} JoinLength(parts: seq<string>, separator: string)
    requires parts != []
    ensures |Join(parts, separator)| == TotalLength(parts) + (|parts| - 1) * |separator|
  {
    if |parts| > 1 {
      JoinLength(parts[1..], separator);
      assert |parts[1..][1..]| == |parts| - 2;
    } else {
      assert parts[1..] == [];
    }
  }

  /** With the empty separator the parts are simply concatenated. */
  lemma {:induction false} JoinWithoutSeparator(parts: seq<string>)
    ensures Join(parts, "") == Concat(parts)
  {
    if |parts| == 1 {
      ConcatSingle(parts[0]);
      assert parts == [parts[0]];
    } else if |parts| > 1 {
      JoinWithoutSeparator(parts[1..]);
    }
  }

  /** The plain text of a document is its blocks' texts, separated by
      single spaces by default. */
  lemma TextOfTwoBlocks(a: Block, b: Block)
    ensures ParseAsText([a, b], None) == a.text + " " + b.text
  {
    assert BlockTexts([a, b]) == [a.text, b.text];
    assert [a.text, b.text][1..] == [b.text];
  }

  // ------------------------------------------------------------------ HTML

  /** The top-level node a block that is not a list item becomes. */
  function LeafNode(b: Block): (n: Node)
    ensures n.BlockNode? && n.nodeType == b.blockType && n.element == b
  {
    BlockNode(b.blockType, b, if IsMedia(b.blockType) then [] else ProcessTextBlock(b))
  }

  lemma ProcessedAppend(blocks: seq<Block>, b: Block)
    ensures Processed(blocks + [b]) == Processed(blocks) + [ProcessTextBlock(b)]
  {
  }

  lemma SerializeNodeTreeAppend(cfg: Config, nodes: seq<Node>, n: Node)
    ensures SerializeNodeTree(cfg, nodes + [n]) == SerializeNodeTree(cfg, nodes) + [SerializeNode(cfg, n)]
  {
  }

  /** A block that is not a list item adds its own HTML after the HTML of
      the blocks before it. */
  lemma ParseAsHtmlAppend(blocks: seq<Block>, b: Block)
    requires b.blockType != "list-item" && b.blockType != "o-list-item"
    ensures ParseAsHtml(blocks + [b]) == ParseAsHtml(blocks) + JoinAll([SerializeNode(DefaultSerializer(), LeafNode(b))])
  {
    var cfg := DefaultSerializer();
    var t := ProcessTextBlock(b);
    ProcessedAppend(blocks, b);
    AssembleStep(blocks, Processed(blocks), b, t);
    if IsMedia(b.blockType) {
      MediaIsLeaf(Assemble(blocks), b, t);
    } else {
      OtherBlock(Assemble(blocks), b, t);
    }
    assert Assemble(blocks + [b]) == Assemble(blocks) + [LeafNode(b)];
    SerializeNodeTreeAppend(cfg, Assemble(blocks), LeafNode(b));
    JoinAllAppend(SerializeNodeTree(cfg, Assemble(blocks)), [SerializeNode(cfg, LeafNode(b))]);
  }

  /** The document tree of a single block that is not a list item is that
      block's node. */
  lemma AssembleOne(b: Block)
    requires b.blockType != "list-item" && b.blockType != "o-list-item"
    ensures Assemble([b]) == [LeafNode(b)]
  {
    AssembleStep([], [], b, ProcessTextBlock(b));
    assert [] + [b] == [b] && [] + [ProcessTextBlock(b)] == [ProcessTextBlock(b)];
    assert Processed([b]) == [ProcessTextBlock(b)];
    if IsMedia(b.blockType) {
      MediaIsLeaf([], b, ProcessTextBlock(b));
    } else {
      OtherBlock([], b, ProcessTextBlock(b));
    }
  }

  /** An element around one serialized child. */
  lemma ElementAround(tag: string, inner: string)
    requires tag == "p" || tag == "strong" || tag == "em" || tag == "li"
    ensures SerializeStandardTag(tag, [Some(inner)]) == "<" + tag + ">" + inner + "</" + tag + ">"
    ensures tag == "p" ==> SerializeStandardTag(tag, [Some(inner)]) == "<p>" + inner + "</p>"
    ensures tag == "strong" ==> SerializeStandardTag(tag, [Some(inner)]) == "<strong>" + inner + "</strong>"
    ensures tag == "li" ==> SerializeStandardTag(tag, [Some(inner)]) == "<li>" + inner + "</li>"
  {
    JoinAllSingle(inner);
  }

  /** A `p` around one serialized child. */
  lemma ParagraphAround(cfg: Config, b: Block, inner: string)
    ensures Serialize(cfg, "paragraph", OfBlock(b), None, [Some(inner)]) == Some("<p>" + inner + "</p>")
  {
    KindOfTypeString(Paragraph);
    assert KindOf("paragraph") == Some(Paragraph);
    ElementAround("p", inner);
  }

  /** A block node's children are its span nodes, serialized. */
  lemma OneChild(cfg: Config, t: string, b: Block, n: SpanNode)
    ensures SerializeNode(cfg, BlockNode(t, b, [n])) == Serialize(cfg, t, OfBlock(b), None, [SerializeSpanNode(cfg, n)])
  {
    assert seq(1, i requires 0 <= i < 1 => SerializeSpanNode(cfg, [n][i])) == [SerializeSpanNode(cfg, n)];
  }

  /** A paragraph node holding one text node is the escaped text in a `p`. */
  lemma ParagraphOfText(cfg: Config, b: Block, text: string)
    ensures SerializeNode(cfg, BlockNode("paragraph", b, [TextNode(0, |text|, text)]))
         == Some("<p>" + SerializeSpan(text) + "</p>")
  {
    OneChild(cfg, "paragraph", b, TextNode(0, |text|, text));
    TextNodeSerializes(cfg, 0, |text|, text);
    ParagraphAround(cfg, b, SerializeSpan(text));
  }

  /** The HTML of a one-block document is that block's HTML. */
  lemma OneBlockHtml(cfg: Config, n: Node, html: string)
    requires cfg == DefaultSerializer() && SerializeNode(cfg, n) == Some(html)
    ensures JoinAll(SerializeNodeTree(cfg, [n])) == html
  {
    assert SerializeNodeTree(cfg, [n]) == [Some(html)];
    JoinAllSingle(html);
  }

  /** A paragraph without spans is one text node inside a `p`. */
  lemma PlainParagraphNode(b: Block)
    requires b.blockType == "paragraph" && b.spans == []
    ensures SerializeNode(DefaultSerializer(), LeafNode(b)) == Some("<p>" + SerializeSpan(b.text) + "</p>")
  {
    PlainBlock(b);
    assert !IsMedia(b.blockType);
    assert LeafNode(b) == BlockNode("paragraph", b, [TextNode(0, |b.text|, b.text)]);
    ParagraphOfText(DefaultSerializer(), b, b.text);
  }

  /** The HTML of a paragraph without spans is its escaped text in a `p`. */
  lemma PlainParagraphHtml(b: Block)
    requires b.blockType == "paragraph" && b.spans == []
    ensures ParseAsHtml([b]) == "<p>" + SerializeSpan(b.text) + "</p>"
  {
    PlainParagraphNode(b);
    OneBlockDocument(b, "<p>" + SerializeSpan(b.text) + "</p>");
  }

  /** Reading the HTML of a paragraph without spans gives back the `p` tag
      and, once line breaks and entities are decoded, the text. */
  lemma PlainParagraphReadsBack(b: Block)
    requires b.blockType == "paragraph" && b.spans == []
    ensures ReadTag(ParseAsHtml([b])).Some?
    ensures ReadTag(ParseAsHtml([b])).value.0 == "p"
    ensures Unescape(RestoreLines(ReadTag(ParseAsHtml([b])).value.1)) == b.text
  {
    PlainParagraphHtml(b);
    ElementAround("p", SerializeSpan(b.text));
    StandardTagReadsBack("p", [Some(SerializeSpan(b.text))]);
    JoinAllSingle(SerializeSpan(b.text));
    SpanReadsBack(b.text);
  }

  /** The HTML of a one-block document is the HTML of that block's node. */
  lemma OneBlockDocument(b: Block, html: string)
    requires b.blockType != "list-item" && b.blockType != "o-list-item"
    requires SerializeNode(DefaultSerializer(), LeafNode(b)) == Some(html)
    ensures ParseAsHtml([b]) == html
  {
    AssembleOne(b);
    OneBlockHtml(DefaultSerializer(), LeafNode(b), html);
  }
}
