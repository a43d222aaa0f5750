/** The literal strings of the sample document's tests: their words need
    no escaping, and the expected markup is the concatenation of its tags. */
module MockWords {
  import opened Wrappers
  import opened EscapeHtmlUtil
  import opened HtmlSerializer

  /** Text with no character to escape and no line break, one character
      at a time. */
  predicate Plain(s: string)
  {
    s == [] || (!IsSpecial(s[0]) && s[0] != '\n' && Plain(s[1..]))
  }

  lemma {:induction false} PlainChars(s: string)
    requires Plain(s)
    ensures forall i :: 0 <= i < |s| ==> !IsSpecial(s[i]) && s[i] != '\n'
  {
    if s != [] {
      PlainChars(s[1..]);
      assert forall i :: 1 <= i < |s| ==> s[i] == s[1..][i - 1];
    }
  }

  /** Plain text is written as it is. */
  lemma SerializePlainText(text: string)
    requires Plain(text)
    ensures SerializeSpan(text) == text
  {
    PlainChars(text);
    EscapeLength(text);
  }

  lemma BoldTextIsPlain()
    ensures SerializeSpan("I am bold") == "I am bold"
  {
    SerializePlainText("I am bold");
  }

  lemma UnorderedWord()
    ensures SerializeSpan("unordered") == "unordered"
  {
    SerializePlainText("unordered");
  }

  lemma ListWord()
    ensures SerializeSpan("list") == "list"
  {
    SerializePlainText("list");
  }

  /** An element around one serialized child. */
  lemma TagAroundOne(tag: string, x: string)
    ensures SerializeStandardTag(tag, [Some(x)]) == "<" + tag + ">" + x + "</" + tag + ">"
  {
    JoinAllSingle(x);
  }

  /** An element around two serialized children. */
  lemma TagAroundTwo(tag: string, x: string, y: string)
    ensures SerializeStandardTag(tag, [Some(x), Some(y)]) == "<" + tag + ">" + x + y + "</" + tag + ">"
  {
    JoinTwo(x, y);
  }

  lemma UnorderedItemMarkup()
    ensures "<" + "li" + ">" + "unordered" + "</" + "li" + ">" == "<li>unordered</li>"
  {
  }

  lemma ListItemMarkup()
    ensures "<" + "li" + ">" + "list" + "</" + "li" + ">" == "<li>list</li>"
  {
  }

  lemma TwoItemListMarkup()
    ensures "<" + "ul" + ">" + "<li>unordered</li>" + "<li>list</li>" + "</" + "ul" + ">" == "<ul><li>unordered</li><li>list</li></ul>"
  {
  }

  lemma TwoItemMarkup()
    ensures SerializeStandardTag("ul", [Some(SerializeStandardTag("li", [Some("unordered")])), Some(SerializeStandardTag("li", [Some("list")]))])
         == "<ul><li>unordered</li><li>list</li></ul>"
  {
    TagAroundOne("li", "unordered");
    UnorderedItemMarkup();
    TagAroundOne("li", "list");
    ListItemMarkup();
    TagAroundTwo("ul", "<li>unordered</li>", "<li>list</li>");
    TwoItemListMarkup();
  }

  lemma JoinTwo(x: string, y: string)
    ensures JoinAll([Some(x), Some(y)]) == x + y
  {
    assert [Some(x), Some(y)][..1] == [Some(x)];
    JoinAllSingle(x);
  }

  lemma BoldMarkup()
    ensures "<p>" + ("<strong>" + "I am bold" + "</strong>") + "</p>" == "<p><strong>I am bold</strong></p>"
  {
  }

}

/** Blocks of the sample document that the library's own tests parse, and
    the HTML the model gives for them. */
module MockDocument {
  import opened Wrappers
  import opened NodeTypes
  import opened ResolveUrlUtil
  import opened Nodes
  import opened EscapeHtmlUtil
  import opened NodeTree
  import opened FillFacts
  import opened AssemblyFacts
  import opened HtmlSerializer
  import opened HtmlFacts
  import opened RichTextParser
  import opened ParserFacts
  import opened MockWords

  const NoData := SpanData(Link("", "", ""), "")

  /** A text block with no other field. */
  function TextBlock(blockType: string, text: string, spans: seq<RawSpan>): (b: Block)
    ensures b.blockType == blockType && b.text == text && b.spans == spans
  {
    Block(blockType, text, spans, "", "", "", None, NoEmbed)
  }

  const Bold := TextBlock("paragraph", "I am bold", [RawSpan(0, 9, Strong, NoData)])
  const Italic := TextBlock("paragraph", "I am italic", [RawSpan(0, 11, Em, NoData)])
  const Unordered := TextBlock("list-item", "unordered", [])
  const UnorderedList := TextBlock("list-item", "list", [])

  /** A strong span node's one child is serialized before it. */
  lemma StrongChild(cfg: Config, start: int, end: int, text: string, c: SpanNode, element: SpanElement)
    ensures SerializeSpanNode(cfg, SpanNode(start, end, Strong, text, [c], element))
         == Serialize(cfg, "strong", OfSpan(element), Some(text), [SerializeSpanNode(cfg, c)])
  {
    assert seq(1, i requires 0 <= i < 1 => SerializeSpanNode(cfg, [c][i])) == [SerializeSpanNode(cfg, c)];
  }

  lemma StrongAround(cfg: Config, element: Element, content: Option<string>, inner: string)
    ensures Serialize(cfg, "strong", element, content, [Some(inner)]) == Some("<strong>" + inner + "</strong>")
  {
    KindOfTypeString(Strong);
    assert KindOf("strong") == Some(Strong);
    ElementAround("strong", inner);
  }

  /** The strong node over the whole text "I am bold". */
  lemma BoldNodes()
    ensures ProcessTextBlock(Bold) == [SpanNode(0, 9, Strong, "I am bold", [TextNode(0, 9, "I am bold")], FromSpan(Bold.spans[0]))]
  {
    var text := Bold.text;
    OneSpan(Bold, Bold.spans[0]);
    assert text[0..9] == text;
  }

  lemma BoldStrong(cfg: Config)
    ensures SerializeSpanNode(cfg, SpanNode(0, 9, Strong, "I am bold", [TextNode(0, 9, "I am bold")], FromSpan(Bold.spans[0])))
         == Some("<strong>" + "I am bold" + "</strong>")
  {
    var text := TextNode(0, 9, "I am bold");
    var strong := SpanNode(0, 9, Strong, "I am bold", [text], FromSpan(Bold.spans[0]));
    TextNodeSerializes(cfg, 0, 9, "I am bold");
    BoldTextIsPlain();
    var c := SerializeSpanNode(cfg, text);
    assert [c] == [Some("I am bold")];
    StrongChild(cfg, 0, 9, "I am bold", text, FromSpan(Bold.spans[0]));
    StrongAround(cfg, OfSpan(strong.element), Some("I am bold"), "I am bold");
  }

  /** The test's bold paragraph: `<p><strong>I am bold</strong></p>`. */
  lemma BoldParagraph()
    ensures ParseAsHtml([Bold]) == "<p><strong>I am bold</strong></p>"
  {
    var cfg := DefaultSerializer();
    var strong := SpanNode(0, 9, Strong, "I am bold", [TextNode(0, 9, "I am bold")], FromSpan(Bold.spans[0]));
    var html := "<p>" + ("<strong>" + "I am bold" + "</strong>") + "</p>";
    BoldNodes();
    assert LeafNode(Bold) == BlockNode("paragraph", Bold, [strong]);
    BoldStrong(cfg);
    OneChild(cfg, "paragraph", Bold, strong);
    ParagraphAround(cfg, Bold, "<strong>" + "I am bold" + "</strong>");
    assert SerializeNode(cfg, BlockNode("paragraph", Bold, [strong])) == Some(html);
    OneBlockDocument(Bold, html);
    BoldMarkup();
  }

  /** The test's plain text starts with its first two blocks' texts, joined
      by a space. */
  lemma BoldThenItalicText()
    ensures ParseAsText([Bold, Italic], None) == "I am bold I am italic"
  {
    TextOfTwoBlocks(Bold, Italic);
  }

  lemma ListItemOfText(cfg: Config, b: Block, text: string)
    ensures SerializeNode(cfg, ListItemNode(b, [TextNode(0, |text|, text)])) == Some(SerializeStandardTag("li", [Some(SerializeSpan(text))]))
  {
    var n := TextNode(0, |text|, text);
    assert seq(1, i requires 0 <= i < 1 => SerializeSpanNode(cfg, [n][i])) == [SerializeSpanNode(cfg, n)];
    TextNodeSerializes(cfg, 0, |text|, text);
    StandardSerializes(cfg, ListItem, OfBlock(b), None, [Some(SerializeSpan(text))]);
  }

  lemma ListOfTwo(cfg: Config, e: Block, m: Node, n: Node)
    ensures SerializeNode(cfg, ListNode(e, [m, n])) == Serialize(cfg, "group-list-item", OfBlock(e), None, [SerializeNode(cfg, m), SerializeNode(cfg, n)])
  {
    assert seq(2, i requires 0 <= i < 2 => SerializeNode(cfg, [m, n][i])) == [SerializeNode(cfg, m), SerializeNode(cfg, n)];
  }

  /** The document tree of the two list items. */
  lemma TwoItemTree()
    ensures Assemble([Unordered, UnorderedList])
         == [ListNode(CreateEmptyList(false), [ListItemNode(Unordered, [TextNode(0, 9, "unordered")]), ListItemNode(UnorderedList, [TextNode(0, 4, "list")])])]
  {
    var ta := [TextNode(0, 9, "unordered")];
    var tb := [TextNode(0, 4, "list")];
    PlainBlock(Unordered);
    PlainBlock(UnorderedList);
    assert Processed([Unordered, UnorderedList]) == [ta, tb];
    TwoListItems(Unordered, UnorderedList, ta, tb);
  }

  lemma UnorderedItem(cfg: Config)
    ensures SerializeNode(cfg, ListItemNode(Unordered, [TextNode(0, 9, "unordered")])) == Some(SerializeStandardTag("li", [Some("unordered")]))
  {
    ListItemOfText(cfg, Unordered, "unordered");
    UnorderedWord();
  }

  lemma ListWordItem(cfg: Config)
    ensures SerializeNode(cfg, ListItemNode(UnorderedList, [TextNode(0, 4, "list")])) == Some(SerializeStandardTag("li", [Some("list")]))
  {
    ListItemOfText(cfg, UnorderedList, "list");
    ListWord();
  }

  /** An unordered list grouping is a `ul` around its children. */
  lemma UnorderedTag(cfg: Config, element: Element, children: seq<Option<string>>)
    ensures Serialize(cfg, "group-list-item", element, None, children) == Some(SerializeStandardTag("ul", children))
  {
    StandardSerializes(cfg, List, element, None, children);
    assert TypeString(List) == "group-list-item" && TagOf(List) == "ul";
  }

  /** An unordered list grouping of two items is a `ul` around theirs. */
  lemma UnorderedOfTwo(cfg: Config, m: Node, n: Node, x: string, y: string)
    requires SerializeNode(cfg, m) == Some(x) && SerializeNode(cfg, n) == Some(y)
    ensures SerializeNode(cfg, ListNode(CreateEmptyList(false), [m, n])) == Some(SerializeStandardTag("ul", [Some(x), Some(y)]))
  {
    ListOfTwo(cfg, CreateEmptyList(false), m, n);
    UnorderedTag(cfg, OfBlock(CreateEmptyList(false)), [Some(x), Some(y)]);
  }

  /** The list grouping of the two items is a `ul` holding two `li`. */
  lemma TwoItemNode(cfg: Config)
    ensures SerializeNode(cfg, ListNode(CreateEmptyList(false), [ListItemNode(Unordered, [TextNode(0, 9, "unordered")]), ListItemNode(UnorderedList, [TextNode(0, 4, "list")])]))
         == Some(SerializeStandardTag("ul", [Some(SerializeStandardTag("li", [Some("unordered")])), Some(SerializeStandardTag("li", [Some("list")]))]))
  {
    UnorderedItem(cfg);
    ListWordItem(cfg);
    UnorderedOfTwo(cfg, ListItemNode(Unordered, [TextNode(0, 9, "unordered")]), ListItemNode(UnorderedList, [TextNode(0, 4, "list")]),
      SerializeStandardTag("li", [Some("unordered")]), SerializeStandardTag("li", [Some("list")]));
  }

  /** The test's unordered list: two list items become one `ul`. */
  lemma TwoItemList()
    ensures ParseAsHtml([Unordered, UnorderedList]) == "<ul><li>unordered</li><li>list</li></ul>"
  {
    var cfg := DefaultSerializer();
    var list := ListNode(CreateEmptyList(false), [ListItemNode(Unordered, [TextNode(0, 9, "unordered")]), ListItemNode(UnorderedList, [TextNode(0, 4, "list")])]);
    TwoItemTree();
    TwoItemNode(cfg);
    TwoItemMarkup();
    OneBlockHtml(cfg, list, "<ul><li>unordered</li><li>list</li></ul>");
  }
}
