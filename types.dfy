/** The fixed table of node types: the type string each kind carries and its
    election priority (a smaller number wins an election). */
module NodeTypes {
  import opened Wrappers

  datatype Kind =
    | Heading1 | Heading2 | Heading3 | Heading4 | Heading5 | Heading6
    | Paragraph | Preformatted | Strong | Em
    | ListItem | OListItem | List | OList
    | Image | Embed | Hyperlink | Label | Span

  /** The type string of a kind, as it appears in documents and in nodes. */
  function TypeString(k: Kind): (s: string)
    ensures s != [] && forall c :: c in s ==> 'a' <= c <= 'z' || '1' <= c <= '6' || c == '-'
  {
    match k
    case Heading1 => "heading1"
    case Heading2 => "heading2"
    case Heading3 => "heading3"
    case Heading4 => "heading4"
    case Heading5 => "heading5"
    case Heading6 => "heading6"
    case Paragraph => "paragraph"
    case Preformatted => "preformatted"
    case Strong => "strong"
    case Em => "em"
    case ListItem => "list-item"
    case OListItem => "o-list-item"
    case List => "group-list-item"
    case OList => "group-o-list-item"
    case Image => "image"
    case Embed => "embed"
    case Hyperlink => "hyperlink"
    case Label => "label"
    case Span => "span"
  }

  /** The election priority of a kind. */
  function Priority(k: Kind): (p: nat)
    ensures 1 <= p <= 7
    ensures p == 7 <==> k == Span
    ensures p == 1 <==> k in {ListItem, OListItem, List, OList, Image, Embed}
  {
    match k
    case Heading1 => 4
    case Heading2 => 4
    case Heading3 => 4
    case Heading4 => 4
    case Heading5 => 4
    case Heading6 => 4
    case Paragraph => 3
    case Preformatted => 5
    case Strong => 6
    case Em => 6
    case ListItem => 1
    case OListItem => 1
    case List => 1
    case OList => 1
    case Image => 1
    case Embed => 1
    case Hyperlink => 3
    case Label => 4
    case Span => 7
  }

  /** The table looked up by type string: `None` for a string that names no kind. */
  function KindOf(t: string): (r: Option<Kind>)
    ensures r.Some? ==> TypeString(r.value) == t
  {
    if t == "heading1" then Some(Heading1)
    else if t == "heading2" then Some(Heading2)
    else if t == "heading3" then Some(Heading3)
    else if t == "heading4" then Some(Heading4)
    else if t == "heading5" then Some(Heading5)
    else if t == "heading6" then Some(Heading6)
    else if t == "paragraph" then Some(Paragraph)
    else if t == "preformatted" then Some(Preformatted)
    else if t == "strong" then Some(Strong)
    else if t == "em" then Some(Em)
    else if t == "list-item" then Some(ListItem)
    else if t == "o-list-item" then Some(OListItem)
    else if t == "group-list-item" then Some(List)
    else if t == "group-o-list-item" then Some(OList)
    else if t == "image" then Some(Image)
    else if t == "embed" then Some(Embed)
    else if t == "hyperlink" then Some(Hyperlink)
    else if t == "label" then Some(Label)
    else if t == "span" then Some(Span)
    else None
  }

  /** `KindOf` on the heading kinds. */
  lemma HeadingKinds()
    ensures KindOf(TypeString(Heading1)) == Some(Heading1)
    ensures KindOf(TypeString(Heading2)) == Some(Heading2)
    ensures KindOf(TypeString(Heading3)) == Some(Heading3)
    ensures KindOf(TypeString(Heading4)) == Some(Heading4)
    ensures KindOf(TypeString(Heading5)) == Some(Heading5)
    ensures KindOf(TypeString(Heading6)) == Some(Heading6)
  {
  }

  /** `KindOf` on the paragraph, preformatted and inline kinds. */
  lemma TextKinds()
    ensures KindOf(TypeString(Paragraph)) == Some(Paragraph)
    ensures KindOf(TypeString(Preformatted)) == Some(Preformatted)
    ensures KindOf(TypeString(Strong)) == Some(Strong)
    ensures KindOf(TypeString(Em)) == Some(Em)
  {
  }

  /** `KindOf` on the list kinds. */
  lemma ListKinds()
    ensures KindOf(TypeString(ListItem)) == Some(ListItem)
    ensures KindOf(TypeString(OListItem)) == Some(OListItem)
    ensures KindOf(TypeString(List)) == Some(List)
    ensures KindOf(TypeString(OList)) == Some(OList)
  {
  }

  /** `KindOf` on the media, link, label and span kinds. */
  lemma EmbeddedKinds()
    ensures KindOf(TypeString(Image)) == Some(Image)
    ensures KindOf(TypeString(Embed)) == Some(Embed)
    ensures KindOf(TypeString(Hyperlink)) == Some(Hyperlink)
    ensures KindOf(TypeString(Label)) == Some(Label)
    ensures KindOf(TypeString(Span)) == Some(Span)
  {
  }

  /** Looking up a kind's own type string finds that kind again. */
  lemma KindOfTypeString(k: Kind)
    ensures KindOf(TypeString(k)) == Some(k)
  {
    HeadingKinds();
    TextKinds();
    ListKinds();
    EmbeddedKinds();
  }

  /** The type strings are pairwise distinct. */
  lemma TypeStringInjective(a: Kind, b: Kind)
    ensures TypeString(a) == TypeString(b) <==> a == b
  {
    KindOfTypeString(a);
    KindOfTypeString(b);
  }

  predicate IsHeading(k: Kind)
  {
    k in {Heading1, Heading2, Heading3, Heading4, Heading5, Heading6}
  }

  /** All six headings share priority 4. */
  lemma HeadingPriority(k: Kind)
    requires IsHeading(k)
    ensures Priority(k) == 4
  {
  }

  /** `hyperlink` ranks before `strong` and `em`, which tie with each other;
      `span` has the largest priority of the table. */
  lemma PriorityOrder(k: Kind)
    ensures Priority(Hyperlink) == 3 && Priority(Hyperlink) < Priority(Strong)
    ensures Priority(Strong) == Priority(Em) == 6
    ensures Priority(k) <= Priority(Span) == 7
    ensures Priority(k) == Priority(Span) <==> k == Span
  {
  }

  /** The list-group types differ from the list-item types. */
  lemma GroupTypesAreNotItemTypes()
    ensures TypeString(List) != TypeString(ListItem) && TypeString(List) != TypeString(OListItem)
    ensures TypeString(OList) != TypeString(ListItem) && TypeString(OList) != TypeString(OListItem)
    ensures TypeString(List) != TypeString(OList) && TypeString(ListItem) != TypeString(OListItem)
  {
    TypeStringInjective(List, ListItem);
    TypeStringInjective(List, OListItem);
    TypeStringInjective(OList, ListItem);
    TypeStringInjective(OList, OListItem);
    TypeStringInjective(List, OList);
    TypeStringInjective(ListItem, OListItem);
  }
}
