/** The public entry points: a document's blocks as HTML, through the
    document tree and the serializer, and as plain text. */
module RichTextParser {
  import opened Wrappers
  import opened Nodes
  import opened NodeTree
  import opened HtmlSerializer

  /** `Array.prototype.join`: the parts with `separator` between each two. */
  function Join(parts: seq<string>, separator: string): (r: string)
    ensures parts == [] ==> r == ""
    ensures |parts| == 1 ==> r == parts[0]
  {
    if parts == [] then ""
    else if |parts| == 1 then parts[0]
    else parts[0] + separator + Join(parts[1..], separator)
  }

  /** The `text` of every block, in order; an absent text is empty. */
  function BlockTexts(richText: seq<Block>): (r: seq<string>)
    ensures |r| == |richText| && forall i :: 0 <= i < |r| ==> r[i] == richText[i].text
  {
    seq(|richText|, i requires 0 <= i < |richText| => richText[i].text)
  }

  /** `parseAsText`: the blocks' texts joined by `joinString`, a single
      space when it is not given. */
  function ParseAsText(richText: seq<Block>, joinString: Option<string>): (r: string)
    ensures richText == [] ==> r == ""
    ensures |richText| == 1 ==> r == richText[0].text
  {
    Join(BlockTexts(richText), if joinString.Some? then joinString.value else " ")
  }

  /** The serializer `parseAsHtml` uses: every option at its default. */
  function DefaultSerializer(): (c: Config)
    ensures c == Config("_self", "data-copyright")
  {
    NewSerializer("", "")
  }

  /** `parseAsHtml`: the serialized top-level nodes of the document tree,
      joined without separator. */
  function ParseAsHtml(richText: seq<Block>): (r: string)
    ensures richText == [] ==> r == ""
  {
    JoinAll(SerializeNodeTree(DefaultSerializer(), Assemble(richText)))
  }
}
