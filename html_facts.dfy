/** What the serializer's output says about its input: each kind of element
    is read back by a small reader of the markup it produces, and the reader
    recovers every value the serializer wrote. This is what the escaping is
    for: no value can end its attribute or its element early. */
module HtmlFacts {
  import opened Wrappers
  import opened Seqs
  import opened NodeTypes
  import opened EscapeHtmlUtil
  import opened ResolveUrlUtil
  import opened Nodes
  import opened HtmlSerializer

  /** Escaped text contains no markup delimiter. */
  lemma EscapedHasNoDelimiter(s: string)
    ensures '"' !in Escape(s) && '<' !in Escape(s) && '>' !in Escape(s)
  {
    EscapeIsSafe(s);
    assert forall i :: 0 <= i < |Escape(s)| ==> Escape(s)[i] != '"' && Escape(s)[i] != '<' && Escape(s)[i] != '>';
  }

  // ------------------------------------------------------------- reading

  /** Joining strings does not depend on the grouping: the serializer's
      concatenations, grouped from the left, equal the grouping from the
      right in which the readers consume them. */
  lemma ReassociateHalves(a: string, b: string, c: string, d: string, e: string)
    ensures (a + b + c) + (d + e) == a + (b + (c + (d + e)))
  {
  }

  lemma Reassociate7(a: string, b: string, c: string, d: string, e: string, f: string, g: string)
    ensures a + b + c + d + e + f + g == a + (b + (c + (d + (e + (f + g)))))
  {
  }

  lemma Reassociate9(a: string, b: string, c: string, d: string, e: string, f: string, g: string, h: string, i: string)
    ensures a + b + c + d + e + f + g + h + i == a + (b + (c + (d + (e + (f + (g + (h + i)))))))
  {
  }

  predicate StartsWith(s: string, p: string)
  {
    |p| <= |s| && s[..|p|] == p
  }

  /** Strips the literal prefix `p`. */
  function Expect(s: string, p: string): (r: Option<string>)
    ensures r.Some? <==> StartsWith(s, p)
    ensures r.Some? ==> s == p + r.value
  {
    if StartsWith(s, p) then Some(s[|p|..]) else None
  }

  lemma ExpectWritten(p: string, rest: string)
    ensures Expect(p + rest, p) == Some(rest)
  {
    assert (p + rest)[..|p|] == p;
  }

  /** Strips the literal suffix `p`. */
  function DropSuffix(s: string, p: string): (r: Option<string>)
    ensures r.Some? ==> s == r.value + p
  {
    if |p| <= |s| && s[|s| - |p|..] == p then Some(s[..|s| - |p|]) else None
  }

  lemma DropSuffixWritten(rest: string, p: string)
    ensures DropSuffix(rest + p, p) == Some(rest)
  {
    assert (rest + p)[|rest + p| - |p|..] == p;
    assert (rest + p)[..|rest + p| - |p|] == rest;
  }

  /** Reads `name="value"`, giving the decoded value and what follows. */
  function ReadAttribute(s: string, name: string): (r: Option<(string, string)>)
  {
    var rest :- Expect(s, name + "=\"");
    var split :- Until(rest, '"');
    Some((Unescape(split.0), split.1))
  }

  /** An attribute reads back as the value it was written with. */
  lemma ReadAttributeWritten(name: string, value: string, rest: string)
    ensures ReadAttribute(Attribute(name, value) + rest, name) == Some((value, rest))
  {
    var key := name + "=\"";
    assert Attribute(name, value) + rest == key + (Escape(value) + ['"'] + rest);
    ExpectWritten(key, Escape(value) + ['"'] + rest);
    EscapedHasNoDelimiter(value);
    UntilWritten(Escape(value), '"', rest);
    UnescapeEscape(value);
  }

  // ------------------------------------------------------------ hyperlinks

  datatype LinkParts = LinkParts(target: string, href: string, content: string)

  /** Reads `<a target="…" rel="noopener" href="…">content</a>`. */
  function ReadHyperlink(s: string): (r: Option<LinkParts>)
  {
    var s1 :- Expect(s, "<a ");
    var target :- ReadAttribute(s1, "target");
    var s2 :- Expect(target.1, " rel=\"noopener\"");
    var s3 :- Expect(s2, " ");
    var href :- ReadAttribute(s3, "href");
    var s4 :- Expect(href.1, ">");
    var content :- DropSuffix(s4, "</a>");
    Some(LinkParts(target.0, href.0, content))
  }

  /** The target a link is written with: its own, else the default. */
  function TargetOf(cfg: Config, link: Link): (t: string)
    ensures link.target != "" ==> t == link.target
    ensures link.target == "" ==> t == cfg.defaultHyperlinkTarget
  {
    if link.target != "" then link.target else cfg.defaultHyperlinkTarget
  }

  lemma HyperlinkMarkupReads(t: string, u: string, content: string)
    ensures ReadHyperlink("<a " + (Attribute("target", t) + (" rel=\"noopener\"" + (" " + (Attribute("href", u) + (">" + (content + "</a>")))))))
         == Some(LinkParts(t, u, content))
  {
    var s4 := ">" + (content + "</a>");
    var s3 := Attribute("href", u) + s4;
    var s2 := " " + s3;
    var s1 := Attribute("target", t) + (" rel=\"noopener\"" + s2);
    ExpectWritten("<a ", s1);
    ReadAttributeWritten("target", t, " rel=\"noopener\"" + s2);
    ExpectWritten(" rel=\"noopener\"", s2);
    ExpectWritten(" ", s3);
    ReadAttributeWritten("href", u, s4);
    ExpectWritten(">", content + "</a>");
    DropSuffixWritten(content, "</a>");
  }

  /** A hyperlink reads back as its target, its resolved URL and exactly the
      content it wraps. */
  lemma HyperlinkReadsBack(cfg: Config, link: Link, content: string)
    ensures ReadHyperlink(SerializeHyperlink(cfg, link, content))
         == Some(LinkParts(TargetOf(cfg, link), ResolveUrl(link), content))
  {
    var t := TargetOf(cfg, link);
    var u := ResolveUrl(link);
    var a := Attribute("target", t);
    var rest := " " + (Attribute("href", u) + (">" + (content + "</a>")));
    Reassociate7("<a ", a + " rel=\"noopener\"", " ", Attribute("href", u), ">", content, "</a>");
    assert (a + " rel=\"noopener\"") + rest == a + (" rel=\"noopener\"" + rest);
    HyperlinkMarkupReads(t, u, content);
  }

  // ---------------------------------------------------------------- images

  datatype ImgParts = ImgParts(src: string, alt: string, copyright: string)

  /** Reads `<img src="…" alt="…" ATTR="…">`, `ATTR` being the configured
      copyright attribute. */
  function ReadImg(s: string, attribute: string): (r: Option<ImgParts>)
  {
    var s1 :- Expect(s, "<img ");
    var src :- ReadAttribute(s1, "src");
    var s2 :- Expect(src.1, " ");
    var alt :- ReadAttribute(s2, "alt");
    var s3 :- Expect(alt.1, " ");
    var copyright :- ReadAttribute(s3, attribute);
    if copyright.1 == ">" then Some(ImgParts(src.0, alt.0, copyright.0)) else None
  }

  datatype ImageParts = ImageParts(img: ImgParts, link: Option<(string, string)>)

  /** Reads an image paragraph: the `img`, and the target and URL of the link
      around it when there is one. */
  function ReadImage(cfg: Config, s: string): (r: Option<ImageParts>)
  {
    var s1 :- Expect(s, "<p>");
    var inner :- DropSuffix(s1, "</p>");
    if StartsWith(inner, "<a ") then
      var link :- ReadHyperlink(inner);
      var img :- ReadImg(link.content, cfg.imageCopyrightAttribute);
      Some(ImageParts(img, Some((link.target, link.href))))
    else
      var img :- ReadImg(inner, cfg.imageCopyrightAttribute);
      Some(ImageParts(img, None))
  }

  /** The `img` tag of an image block. */
  function ImgTag(cfg: Config, b: Block): (r: string)
  {
    "<img " + Attribute("src", b.url) + " " + Attribute("alt", b.alt) + " "
      + Attribute(cfg.imageCopyrightAttribute, b.copyright) + ">"
  }

  lemma ImgReadsBack(cfg: Config, b: Block)
    ensures ReadImg(ImgTag(cfg, b), cfg.imageCopyrightAttribute) == Some(ImgParts(b.url, b.alt, b.copyright))
  {
    var attribute := cfg.imageCopyrightAttribute;
    var s3 := Attribute(attribute, b.copyright) + ">";
    var s2 := Attribute("alt", b.alt) + (" " + s3);
    var s1 := Attribute("src", b.url) + (" " + s2);
    Reassociate7("<img ", Attribute("src", b.url), " ", Attribute("alt", b.alt), " ", Attribute(attribute, b.copyright), ">");
    ExpectWritten("<img ", s1);
    ReadAttributeWritten("src", b.url, " " + s2);
    ExpectWritten(" ", s2);
    ReadAttributeWritten("alt", b.alt, " " + s3);
    ExpectWritten(" ", s3);
    ReadAttributeWritten(attribute, b.copyright, ">");
  }

  /** The paragraph around an image is stripped back to its content. */
  lemma ParagraphStrips(content: string)
    ensures Expect("<p>" + content + "</p>", "<p>") == Some(content + "</p>")
    ensures DropSuffix(content + "</p>", "</p>") == Some(content)
  {
    assert "<p>" + content + "</p>" == "<p>" + (content + "</p>");
    ExpectWritten("<p>", content + "</p>");
    DropSuffixWritten(content, "</p>");
  }

  lemma PlainImageReadsBack(cfg: Config, b: Block)
    requires b.linkTo.None?
    ensures ReadImage(cfg, SerializeImage(cfg, b)) == Some(ImageParts(ImgParts(b.url, b.alt, b.copyright), None))
  {
    var img := ImgTag(cfg, b);
    assert SerializeImage(cfg, b) == "<p>" + img + "</p>";
    ParagraphStrips(img);
    ImgReadsBack(cfg, b);
    assert img[1] == 'i';
  }

  lemma LinkedImageReadsBack(cfg: Config, b: Block)
    requires b.linkTo.Some?
    ensures ReadImage(cfg, SerializeImage(cfg, b))
         == Some(ImageParts(ImgParts(b.url, b.alt, b.copyright), Some((TargetOf(cfg, b.linkTo.value), ResolveUrl(b.linkTo.value)))))
  {
    var img := ImgTag(cfg, b);
    var content := SerializeHyperlink(cfg, b.linkTo.value, img);
    assert SerializeImage(cfg, b) == "<p>" + content + "</p>";
    ParagraphStrips(content);
    ImgReadsBack(cfg, b);
    HyperlinkReadsBack(cfg, b.linkTo.value, img);
    assert StartsWith(content, "<a ");
  }

  /** An image reads back as its URL, alternative text and copyright, and
      as the target and resolved URL of its link when it has one. */
  lemma ImageReadsBack(cfg: Config, b: Block)
    ensures ReadImage(cfg, SerializeImage(cfg, b))
         == Some(ImageParts(ImgParts(b.url, b.alt, b.copyright),
                            if b.linkTo.Some? then Some((TargetOf(cfg, b.linkTo.value), ResolveUrl(b.linkTo.value))) else None))
  {
    if b.linkTo.Some? {
      LinkedImageReadsBack(cfg, b);
    } else {
      PlainImageReadsBack(cfg, b);
    }
  }

  // ---------------------------------------------------------------- embeds

  datatype EmbedParts = EmbedParts(embedUrl: string, embedType: string, providerName: string, html: string)

  /** Reads the three attributes of the embed `div`, one per line. */
  function ReadEmbedAttributes(s: string): (r: Option<(string, string, string, string)>)
  {
    var url :- ReadAttribute(s, "data-oembed");
    var s2 :- Expect(url.1, "\n          ");
    var embedType :- ReadAttribute(s2, "data-oembed-type");
    var s3 :- Expect(embedType.1, "\n          ");
    var provider :- ReadAttribute(s3, "data-oembed-provider");
    Some((url.0, embedType.0, provider.0, provider.1))
  }

  /** Reads the embed `div` back into the `oembed` fields it shows. */
  function ReadEmbed(s: string): (r: Option<EmbedParts>)
  {
    var s1 :- Expect(s, "\n        <div ");
    var attributes :- ReadEmbedAttributes(s1);
    var s4 :- Expect(attributes.3, "\n        >\n          ");
    var html :- DropSuffix(s4, "\n        </div>\n      ");
    Some(EmbedParts(attributes.0, attributes.1, attributes.2, html))
  }

  lemma EmbedAttributesReadBack(o: OEmbed, rest: string)
    ensures ReadEmbedAttributes(
              Attribute("data-oembed", o.embedUrl) + ("\n          " +
              (Attribute("data-oembed-type", o.embedType) + ("\n          " +
              (Attribute("data-oembed-provider", o.providerName) + rest)))))
         == Some((o.embedUrl, o.embedType, o.providerName, rest))
  {
    var indent := "\n          ";
    var s3 := Attribute("data-oembed-provider", o.providerName) + rest;
    var s2 := Attribute("data-oembed-type", o.embedType) + (indent + s3);
    ReadAttributeWritten("data-oembed", o.embedUrl, indent + s2);
    ExpectWritten(indent, s2);
    ReadAttributeWritten("data-oembed-type", o.embedType, indent + s3);
    ExpectWritten(indent, s3);
    ReadAttributeWritten("data-oembed-provider", o.providerName, rest);
  }

  /** The embed markup, grouped the way it is read. */
  lemma EmbedShape(o: OEmbed, b: Block)
    requires b.oembed == o
    ensures SerializeEmbed(b) == "\n        <div " + (Attribute("data-oembed", o.embedUrl) + ("\n          " +
              (Attribute("data-oembed-type", o.embedType) + ("\n          " +
              (Attribute("data-oembed-provider", o.providerName) + ("\n        >\n          " + (o.html + "\n        </div>\n      ")))))))
  {
    var o := b.oembed;
    Reassociate9("\n        <div ", Attribute("data-oembed", o.embedUrl), "\n          ",
      Attribute("data-oembed-type", o.embedType), "\n          ",
      Attribute("data-oembed-provider", o.providerName), "\n        >\n          ", o.html,
      "\n        </div>\n      ");
  }

  /** An embed reads back as its URL, type and provider, and as the
      provider's HTML, which is inserted as it is. */
  lemma EmbedReadsBack(b: Block)
    ensures ReadEmbed(SerializeEmbed(b))
         == Some(EmbedParts(b.oembed.embedUrl, b.oembed.embedType, b.oembed.providerName, b.oembed.html))
  {
    var o := b.oembed;
    var open := "\n        >\n          ";
    var tail := "\n        </div>\n      ";
    var s4 := o.html + tail;
    var s1 := Attribute("data-oembed", o.embedUrl) + ("\n          " +
              (Attribute("data-oembed-type", o.embedType) + ("\n          " +
              (Attribute("data-oembed-provider", o.providerName) + (open + s4)))));
    EmbedShape(o, b);
    ExpectWritten("\n        <div ", s1);
    EmbedAttributesReadBack(o, open + s4);
    ExpectWritten(open, s4);
    DropSuffixWritten(o.html, tail);
  }

  // ---------------------------------------------------------------- labels

  /** Reads a label `span`: its class (empty when it has none) and its inner HTML. */
  function ReadLabel(s: string): (r: Option<(string, string)>)
  {
    var s1 :- Expect(s, "<span ");
    if StartsWith(s1, "class=\"") then
      var cls :- ReadAttribute(s1, "class");
      var s2 :- Expect(cls.1, ">");
      var inner :- DropSuffix(s2, "</span>");
      Some((cls.0, inner))
    else
      var s2 :- Expect(s1, ">");
      var inner :- DropSuffix(s2, "</span>");
      Some(("", inner))
  }

  lemma ClassPrefix(labelName: string, rest: string)
    ensures StartsWith(Attribute("class", labelName) + rest, "class=\"")
  {
    assert Attribute("class", labelName) + rest == "class=\"" + (Escape(labelName) + "\"" + rest);
  }

  lemma ClassLabelReads(labelName: string, inner: string)
    requires labelName != ""
    ensures ReadLabel("<span " + (Attribute("class", labelName) + (">" + (inner + "</span>")))) == Some((labelName, inner))
  {
    var s2 := ">" + (inner + "</span>");
    ExpectWritten("<span ", Attribute("class", labelName) + s2);
    ClassPrefix(labelName, s2);
    ReadAttributeWritten("class", labelName, s2);
    ExpectWritten(">", inner + "</span>");
    DropSuffixWritten(inner, "</span>");
  }

  lemma PlainLabelReads(inner: string)
    ensures ReadLabel("<span " + (">" + (inner + "</span>"))) == Some(("", inner))
  {
    var s2 := ">" + (inner + "</span>");
    ExpectWritten("<span ", s2);
    assert s2[0] == '>';
    ExpectWritten(">", inner + "</span>");
    DropSuffixWritten(inner, "</span>");
  }

  lemma LabelMarkupReads(labelName: string, inner: string)
    ensures ReadLabel("<span " + ((if labelName != "" then Attribute("class", labelName) else "") + (">" + (inner + "</span>"))))
         == Some((labelName, inner))
  {
    if labelName != "" {
      ClassLabelReads(labelName, inner);
    } else {
      PlainLabelReads(inner);
      assert "" + (">" + (inner + "</span>")) == ">" + (inner + "</span>");
    }
  }

  /** A label reads back as its name and its children's joined HTML. */
  lemma LabelReadsBack(labelName: string, children: seq<Option<string>>)
    ensures ReadLabel(SerializeLabel(labelName, children)) == Some((labelName, JoinAll(children)))
  {
    var a := if labelName != "" then Attribute("class", labelName) else "";
    ReassociateHalves("<span ", a, ">", JoinAll(children), "</span>");
    LabelMarkupReads(labelName, JoinAll(children));
  }

  // ---------------------------------------------------------- standard tags

  /** Reads `<tag>inner</tag>`. */
  function ReadTag(s: string): (r: Option<(string, string)>)
  {
    var s1 :- Expect(s, "<");
    var tag :- Until(s1, '>');
    var inner :- DropSuffix(tag.1, "</" + tag.0 + ">");
    Some((tag.0, inner))
  }

  lemma StandardTagShape(tag: string, inner: string)
    ensures "<" + tag + ">" + inner + "</" + tag + ">" == "<" + (tag + ['>'] + (inner + ("</" + tag + ">")))
  {
    Reassociate7("<", tag, ">", inner, "</", tag, ">");
    assert "</" + tag + ">" == "</" + (tag + ">");
    assert tag + ['>'] + (inner + ("</" + tag + ">")) == tag + (">" + (inner + ("</" + (tag + ">"))));
  }

  /** An element written around `inner` reads back as its tag and `inner`. */
  lemma TagReadsBack(tag: string, inner: string)
    requires '>' !in tag
    ensures ReadTag("<" + tag + ">" + inner + "</" + tag + ">") == Some((tag, inner))
  {
    var s1 := tag + ['>'] + (inner + ("</" + tag + ">"));
    StandardTagShape(tag, inner);
    ExpectWritten("<", s1);
    UntilWritten(tag, '>', inner + ("</" + tag + ">"));
    DropSuffixWritten(inner, "</" + tag + ">");
  }

  /** A standard element reads back as its tag and its children's joined HTML. */
  lemma StandardTagReadsBack(tag: string, children: seq<Option<string>>)
    requires '>' !in tag
    ensures ReadTag(SerializeStandardTag(tag, children)) == Some((tag, JoinAll(children)))
  {
    TagReadsBack(tag, JoinAll(children));
  }

  /** The tag table: every tag is a plain name, and two types share a tag
      only when both are list items. */
  lemma TagTable(a: Kind, b: Kind)
    requires IsStandard(a) && IsStandard(b)
    ensures '>' !in TagOf(a)
    ensures TagOf(a) == TagOf(b) <==> a == b || (a in {ListItem, OListItem} && b in {ListItem, OListItem})
  {
  }

  /** Every standard type, including list items and list groupings, is
      serialized as its own element around its children. */
  lemma StandardReadsBack(cfg: Config, t: string, element: Element, content: Option<string>, children: seq<Option<string>>)
    requires KindOf(t).Some? && IsStandard(KindOf(t).value)
    ensures Serialize(cfg, t, element, content, children).Some?
    ensures ReadTag(Serialize(cfg, t, element, content, children).value) == Some((TagOf(KindOf(t).value), JoinAll(children)))
  {
    TagTable(KindOf(t).value, KindOf(t).value);
    StandardTagReadsBack(TagOf(KindOf(t).value), children);
  }

  /** A node whose kind is a standard type is that type's element. */
  lemma StandardSerializes(cfg: Config, k: Kind, element: Element, content: Option<string>, children: seq<Option<string>>)
    requires IsStandard(k)
    ensures Serialize(cfg, TypeString(k), element, content, children) == Some(SerializeStandardTag(TagOf(k), children))
  {
    KindOfTypeString(k);
  }

  // ----------------------------------------------------------------- spans

  /** Turns every `<br>` back into a line break. */
  function RestoreLines(s: string): (r: string)
  {
    if s == [] then []
    else if StartsWith(s, "<br>") then "\n" + RestoreLines(s[4..])
    else [s[0]] + RestoreLines(s[1..])
  }

  /** One character other than `<`, after the line-break replacement, is
      restored ahead of the rest. */
  lemma RestoreStep(c: char, rest: string)
    requires c != '<'
    ensures RestoreLines((if c == '\n' then "<br>" else [c]) + rest) == [c] + RestoreLines(rest)
  {
    var t := (if c == '\n' then "<br>" else [c]) + rest;
    if c == '\n' {
      assert t[..4] == "<br>" && t[4..] == rest;
    } else {
      assert t[0] == c && t[1..] == rest;
    }
  }

  lemma {:induction false} RestoreBreakLines(s: string)
    requires '<' !in s
    ensures RestoreLines(BreakLines(s)) == s
  {
    if s != [] {
      assert '<' !in s[1..];
      RestoreBreakLines(s[1..]);
      RestoreStep(s[0], BreakLines(s[1..]));
      assert [s[0]] + s[1..] == s;
    }
  }

  /** The text of a span node is recovered from its HTML: line breaks
      become `<br>` and everything else is escaped, and both are undone. */
  lemma SpanReadsBack(text: string)
    ensures Unescape(RestoreLines(SerializeSpan(text))) == text
  {
    EscapedHasNoDelimiter(text);
    RestoreBreakLines(Escape(text));
    UnescapeEscape(text);
  }

  /** A text node serializes as its escaped text. */
  lemma TextNodeSerializes(cfg: Config, start: int, end: int, text: string)
    ensures SerializeSpanNode(cfg, TextNode(start, end, text)) == Some(SerializeSpan(text))
  {
    KindOfTypeString(Span);
  }

  /** A type the serializer does not know serializes as nothing. */
  lemma UnknownTypeIsNull(cfg: Config, t: string, element: Element, content: Option<string>, children: seq<Option<string>>)
    requires forall k :: TypeString(k) != t
    ensures Serialize(cfg, t, element, content, children) == None
  {
  }
}
