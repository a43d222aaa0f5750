# minimalistic-prismic-dom-parser, modelled in Dafny

This project models the rich-text parser of `minimalistic-prismic-dom-parser`. The parser turns a Prismic
rich-text document into HTML or into plain text. A document is a list of blocks (paragraphs, headings, list
items, images, embeds). A text block carries a string plus style spans over `[start, end)` ranges of it
(strong, em, hyperlink, label), and those spans may overlap.

The library works in three stages, and the model follows the same split:

1. **Span resolver** (`NodeTree`). It sorts the spans and groups the ones that touch or nest. It elects one
   head per group: containment first, then priority, then shorter text. It cuts every other span at the
   head's edges. Pieces inside the head become its children and pieces outside are resolved again as its
   siblings. Gaps are filled with plain text nodes.
2. **Tree builder** (`NodeTree.CreateChildren`). It walks the blocks and merges consecutive list items into
   `group-list-item` / `group-o-list-item` nodes.
3. **Serializer** (`HtmlSerializer`) and the entry points (`RichTextParser`).
   - The serializer writes the tree as HTML. Every text and attribute value is HTML-escaped.
   - The entry points are `parseAsHtml` and `parseAsText`.

Each source file has its own module:
- `NodeTypes`: the type and priority table.
- `Nodes`: node values.
- Small utilities: `GetLastUtil`, `ReplaceLastUtil`, `FlattenUtil`, `EscapeHtmlUtil` and `ResolveUrlUtil`.
- `NodeTree`, `HtmlSerializer` and `RichTextParser`.

Properties spanning several operations live in the `…Facts` modules and in `FillShape`:
- `NodeTreeFacts`: grouping and election.
- `ResolverFacts`: slicing, sizes, and the invariant that every node is cut from a document span.
- `FillShape`: where `fill` puts each node and each gap.
- `FillFacts`: gap filling.
- `AssemblyFacts`: list merging.
- `HtmlFacts`: HTML read-back.
- `ParserFacts`: the entry points.
- `MockWords` and `MockDocument`: the scenarios of the test suite, stated as lemmas.

Modelling choices:
- **Values, not objects.** JavaScript objects that are never mutated are modelled as datatypes. The nodes are
  one example; `setChildren`, `slice` and `addChild` build new values.
- **Imperative parts.** These are written as methods proved equal to the functions the rest of the model
  uses:
  - the `groupSpans` loop;
  - the `fill` accumulator;
  - the `_createChildren` reduction over an array that `replaceLast` overwrites in place;
  - the in-place `Array.prototype.sort`, modelled as a stable insertion sort over an `array`.
- **Out-of-range indices.** `String.prototype.slice` is modelled with its clamping (`Seqs.JsSlice`). The
  resolver is therefore total, and bounds appear only as preconditions of the lemmas that need them.

## Model

| member | source | states |
|---|---|---|
| NodeTypes.KindOf | src/utils/types.js:1-78 | a type string is recognised only as the kind whose type string it is |
| NodeTypes.KindOfTypeString | src/utils/types.js:1-78 | every kind's type string is recognised as that kind, so unknown and known types are told apart exactly |
| NodeTypes.TypeString | src/utils/types.js:1-78 | every type string is non-empty and made of lower-case letters, the digits 1 to 6 and `-` |
| NodeTypes.Priority | src/utils/types.js:1-78 | priorities lie between 1 and 7; 7 belongs to `span` alone, and 1 exactly to the list, item, image and embed kinds |
| NodeTypes.TypeStringInjective | src/utils/types.js:1-78 | the type strings of the table are pairwise distinct (both directions) |
| NodeTypes.HeadingPriority | src/utils/types.js:2-25 | all six headings have priority 4 |
| NodeTypes.PriorityOrder | src/utils/types.js:34-41 | hyperlink has priority 3, below strong; strong and em share priority 6; span has 7, and it is the only kind with the largest priority |
| NodeTypes.GroupTypesAreNotItemTypes | src/utils/types.js:42-57 | `group-list-item` and `group-o-list-item` differ from `list-item` and `o-list-item` and from each other |
| ResolveUrlUtil.ResolveUrl | src/utils/resolve-url.js:10-11 | a `Document` link resolves to the empty string; any other link resolves to its URL unchanged |
| ResolveUrlUtil.ResolveUrlIgnoresTarget | src/utils/resolve-url.js:10-11 | the result depends only on the link type and the URL |
| Nodes.SpanNode.Boundaries | src/utils/nodes.js:20-25 | the bounds are the node's start and end |
| Nodes.SpanNode.IsParentOf | src/utils/nodes.js:27-29 | a parent's range is at least as long as its child's; a node with the same range as another is its parent |
| Nodes.SpanNode.SetChildren | src/utils/nodes.js:31-40 | a node equal to the receiver in every field except its children, which are the given ones |
| Nodes.ParentOfIsPreorder | src/utils/nodes.js:27-29 | `isParentOf` is reflexive and transitive; two nodes are parents of each other exactly when their ranges coincide |
| Nodes.Slice | src/utils/nodes.js:42-51 | the piece has the new range and the source's kind, children and element; its text is the text in that range |
| Nodes.SliceIdempotent | src/utils/nodes.js:42-51 | slicing a node at its own range, over the text it was cut from, gives the node back |
| Nodes.TextNode | src/utils/nodes.js:54-66 | a text node has kind span, no children, and an element recording type, start, end and text |
| Nodes.Node.Type | src/utils/nodes.js:68-98 | the list item and list grouping nodes carry the fixed types `list-item`, `o-list-item`, `group-list-item`, `group-o-list-item` |
| Nodes.AddChild | src/utils/nodes.js:80-98 | a grouping of the same class and element, whose items are the old items followed by the new one |
| Sorting.InsertPermutes | src/node-tree.js:53-61 | inserting into a list adds exactly that element to its multiset |
| Sorting.InsertionSortedPermutes | src/node-tree.js:53-61 | the sort is a permutation of its input |
| Sorting.InsertionSortedSorted | src/node-tree.js:53-61 | under a strict weak order, the result of the sort is sorted |
| Sorting.InsertKeepsFront | src/node-tree.js:95-115 | an element that does not sort before the front leaves the front in place |
| Sorting.InsertToFront | src/node-tree.js:95-115 | an element that every other sorts after goes to the front |
| Sorting.InsertionSortedStep | src/node-tree.js:53-61 | sorting one more element is inserting it into the sorted prefix |
| Sorting.ShiftAfter | src/node-tree.js:54 | the elements after the new element's place move up by one slot; that place is where the functional insertion puts it |
| Sorting.InsertAt | src/node-tree.js:54 | the array prefix becomes the functional insertion of the next element; the rest of the array is unchanged |
| Sorting.InsertionSort | src/node-tree.js:54 | the array, sorted in place, equals the functional sort of its old contents |
| GetLastUtil.GetLast | src/utils/get-last.js:7 | absent exactly for the empty array; otherwise the last element; for a singleton, its only element |
| ReplaceLastUtil.ReplacedLast | src/utils/replace-last.js:13-14 | length `max(old length, 1)`; every element but the last unchanged; the last is the replacement; an empty array becomes `[replacement]` |
| ReplaceLastUtil.JsArray.ReplaceLast | src/utils/replace-last.js:13-14 | the array's own contents are overwritten and the same array object is returned |
| ReplaceLastUtil.JsArray.Concat | src/node-tree.js:237 | a new array holding the old elements plus the new one; the receiver is unchanged |
| FlattenUtil.FlattenUnchanged | src/utils/flatten.js:11-12 | a non-array, or an array with no array elements, is returned unchanged |
| FlattenUtil.FlattenIsFlat | src/utils/flatten.js:10-13 | flattening an array gives an array with no nested array; its leaves, in order, are the leaves of the input |
| FlattenUtil.LeavesOfAllJoin | src/utils/flatten.js:13 | the leaves of a concatenation are the leaves of the parts in order |
| FlattenUtil.LeavesOfConcat | src/utils/flatten.js:13 | flattening one level keeps the leaves of every part in order |
| FlattenUtil.Flatten | src/utils/flatten.js:10-13 | a non-array comes back as it is; an array stays an array, and comes back unchanged when it holds no array |
| NodeTree.CreateEmptyList | src/node-tree.js:21-25 | the element of a new grouping: `group-o-list-item` when ordered, else `group-list-item`, with no text or spans |
| NodeTree.ElectionCompare | src/node-tree.js:99-111 | negative when the first span contains the second, positive when only the second contains the first, otherwise the lower priority value first; zero exactly when neither contains the other and both priority and text length are equal |
| NodeTree.Groups | src/node-tree.js:69-87 | no groups exactly for no spans; every group non-empty; the groups concatenated give back the spans |
| NodeTree.GroupSpans | src/node-tree.js:69-87 | the loop computes the grouping |
| NodeTreeFacts.GroupsWellGrouped | src/node-tree.js:76-84 | inside a group every span joins its predecessor; across groups the first span of a group does not |
| NodeTreeFacts.GroupsCharacterized | src/node-tree.js:69-87 | a list of groups is the grouping of the spans exactly when it is well grouped and concatenates to the spans |
| NodeTreeFacts.GroupsUnique | src/node-tree.js:69-87 | any well-grouped partition of the spans is the grouping |
| NodeTree.ElectGroup | src/node-tree.js:95-113 | no election exactly for an empty group (the source throws); otherwise head plus others has the group's size |
| NodeTree.CreateElection | src/node-tree.js:95-115 | defined exactly when every group is non-empty; one election per group; the total size is the number of spans |
| NodeTreeFacts.ElectionPermutes | src/node-tree.js:97-113 | the head followed by the others is a permutation of the group |
| NodeTreeFacts.ElectContainer | src/node-tree.js:99-111 | a span containing every span of its group, and sharing its range with no other span, is elected |
| NodeTreeFacts.EnclosingSpanSortsFirst | src/node-tree.js:99-111 | under the election sort, a span containing all others comes first |
| NodeTreeFacts.ElectPair | src/node-tree.js:99-111 | of two spans not containing each other, the lower priority wins, then the shorter text, else the first |
| NodeTreeFacts.HyperlinkBeatsEmphasis | src/node-tree.js:99-111 | a hyperlink overlapping a strong or em span without containment is elected, in either order |
| NodeTreeFacts.ElectionCycle | src/node-tree.js:99-111 | the election comparator is not transitive: three spans where each beats the next |
| NodeTree.StartOrdersAreStrictWeak | src/node-tree.js:53-61 | both span sort orders of `buildTree` are strict weak orders |
| NodeTreeFacts.SortedSpansAscend | src/node-tree.js:54 | after the first sort, spans ascend by start and then by end |
| NodeTree.SliceSpan | src/node-tree.js:155-167 | without an outer piece the span is kept whole; otherwise both pieces keep kind, element and children, and together they split the range from the span's start to its end at one point; for a span of a chained group lying before or after the head, that point is outside the span's own range |
| ResolverFacts.SliceSpanInside | src/node-tree.js:155-167 | a span meeting the head and not wrapping it: the inner piece lies within the head, any outer piece lies outside it, and there is no outer piece exactly when the head contains the span |
| ResolverFacts.SliceSpanWrapping | src/node-tree.js:156-160 | a span wrapping the head is cut at the head's start only: the outer piece is the part before the head, and the inner piece runs past the head's end |
| ResolverFacts.SliceSpanBefore | src/node-tree.js:156-160 | a span lying wholly before the head gets a reversed inner piece and an outer piece reaching the head's start |
| ResolverFacts.SliceSpanAfter | src/node-tree.js:161-165 | a span starting at or after the head's end gets an inner piece running backwards with no text, and an outer piece reaching back to the head's end, carrying the text of the gap as well as its own |
| ResolverFacts.SliceSpanAfterRepeats | src/node-tree.js:155-167 | over `abcdefgh` with a head on `[0, 2)` and chained spans on `[2, 5)` and `[5, 8)`, the outer pieces carry `cde` and `cdefgh`: the text `cde` is handed on twice |
| ResolverFacts.HeadNotWrapped | src/node-tree.js:95-115 | in a group sorted by start, no span strictly wraps the elected head |
| NodeTree.PartitionOthers | src/node-tree.js:126-136 | one inner piece per other span, each its slice at the head; the outer pieces are exactly the outer slices the spans have, in the order of the spans |
| NodeTree.PartitionGroup | src/node-tree.js:138-143 | a group yields its head first, with the elected span's range, kind, text and element, whose children are the inner pieces resolved and filled within the head's bounds; the rest is the resolved level of the outer pieces |
| ResolverFacts.PartitionGroupsEach | src/node-tree.js:124-145 | one list of nodes per group, in the order of the groups, each the partition of its own group |
| NodeTree.BuildTree | src/node-tree.js:53-61 | no spans give an empty level; the level is sorted by start |
| NodeTree.BuildTreeAndFill | src/node-tree.js:43-51 | with no spans the result is one text node over the bounds, carrying the text between them |
| ResolverFacts.BuildTreePermutes | src/node-tree.js:53-61 | the level holds exactly the nodes of the partitioned groups, flattened, each as often as it occurs: sorting by start loses and adds none |
| ResolverFacts.BuildTreeKeepsHeads | src/node-tree.js:53-61 | the head of every group's partition appears in the level |
| ResolverFacts.PartitionGroupSize | src/node-tree.js:138-143 | a group yields at most as many nodes as it has spans |
| ResolverFacts.PartitionGroupsSize | src/node-tree.js:124-145 | the groups together yield at most as many nodes as they have spans, and at least one if there is a group |
| ResolverFacts.BuildTreeSize | src/node-tree.js:53-61 | a level has at most as many nodes as spans, and at least one when there are spans |
| ResolverFacts.BuildTreeAndFillResolved | src/node-tree.js:43-61 | every resolved node, at every depth, carries the text of its own range and is a text node or keeps the kind of the document span it was cut from |
| ResolverFacts.BuildTreeFromRaw | src/node-tree.js:53-61 | every node of a resolved level is cut from a document span |
| ResolverFacts.PartitionGroupFromRaw | src/node-tree.js:138-143 | the nodes of one group are cut from document spans |
| ResolverFacts.PartitionGroupsFromRaw | src/node-tree.js:124-145 | the nodes of every group are cut from document spans |
| ResolverFacts.PartitionOthersFromRaw | src/node-tree.js:126-136 | the inner and outer pieces are cut from document spans |
| ResolverFacts.ElectionsFromRaw | src/node-tree.js:95-115 | the heads and the others of the elections are spans of the level |
| ResolverFacts.SortedFromRaw | src/node-tree.js:54 | sorting keeps every node cut from a document span |
| ResolverFacts.PartitionOthersWithin | src/node-tree.js:126-136 | when the head and the others lie in a range, so do all inner and outer pieces |
| ResolverFacts.PartitionGroupWithin | src/node-tree.js:138-143 | when a group's head and others lie in a range, so does every node of its partition |
| ResolverFacts.PartitionGroupsWithin | src/node-tree.js:124-145 | when every group lies in a range, so does every partition |
| ResolverFacts.BuildTreeWithin | src/node-tree.js:53-61 | every node of a level built from spans in a range lies in that range |
| ResolverFacts.FillWithin | src/node-tree.js:178-212 | filling a tree lying within the boundaries adds only nodes within them |
| ResolverFacts.BuildTreeAndFillWithin | src/node-tree.js:43-51 | from spans within the boundaries, every node of the filled level lies within them |
| ResolverFacts.HeadChildrenWithin | src/node-tree.js:138-143 | when every other span of a group meets the head without wrapping it, every child the head gets lies within the head's range |
| FlattenUtil.FlattenNest | src/utils/flatten.js:10-13 | flattening an array of arrays of plain values gives their concatenation, which is how the level is flattened (src/node-tree.js:58) |
| ResolverFacts.FillResolved | src/node-tree.js:178-212 | the text nodes `fill` inserts carry the text of their range |
| ResolverFacts.ProcessTextBlockResolved | src/node-tree.js:33-41 | every node made from a block carries the block text of its range, and every styled node keeps the kind of a span of the block |
| NodeTree.ProcessTextBlock | src/node-tree.js:33-41 | a block without spans becomes one text node over its whole text |
| NodeTree.ToSpanNode | src/node-tree.js:35-38 | the node has the span's range and kind, the text in that range, no children, and the span as element |
| NodeTree.SpanNodesOf | src/node-tree.js:35-38 | one node per span of the block, in order |
| Seqs.JsSlice | src/node-tree.js:36 | within range it is the text between the two offsets; an end not after the start gives the empty text; it is never longer than the text |
| NodeTree.Fill | src/node-tree.js:178-212 | the accumulator loop computes the filled level |
| NodeTree.Filled | src/node-tree.js:178-212 | no nodes give no output; otherwise the output has the nodes, one text node between each two, and one before and after only where there is a gap to the bounds |
| FillShape.FillSlots | src/node-tree.js:179-211 | node `i` of the level sits at position `lead + 2i` of the output, where `lead` is 1 when there is a gap before the first node, else 0 |
| FillShape.FillGaps | src/node-tree.js:184-197 | right after node `i`, except the last, comes the text node from that node's end to the next node's start |
| FillShape.FillEnds | src/node-tree.js:181-208 | the output starts with a text node from the lower bound exactly when the first node starts after it, else with that node; it ends with a text node to the upper bound exactly when the last node ends before it, else with that node |
| FillShape.FillAddsOnlyText | src/node-tree.js:179-211 | every element of the output is a text node or a node of the level at that node's own position |
| FillFacts.FillCovers | src/node-tree.js:178-212 | for sorted, non-overlapping nodes within the bounds, the output ranges are contiguous from the lower bound to the upper bound, and their texts concatenate to the text between the bounds |
| FillFacts.FillOne | src/node-tree.js:178-212 | a single node is preceded by a text node only when a gap exists before it, and followed by one only when a gap exists after it |
| FillFacts.PieceCovers | src/node-tree.js:179-211 | each step's output covers the range from the previous end to the step's end |
| FillFacts.TextsJoin | src/node-tree.js:178-212 | the text of a concatenation is the concatenation of the texts |
| FillFacts.TilesJoin | src/node-tree.js:178-212 | two contiguous tilings of adjacent ranges make one |
| FillFacts.PlainBlock | src/node-tree.js:33-51 | a block with no spans becomes one text node over its whole text |
| FillFacts.OneSpanTree | src/node-tree.js:53-61 | a single span becomes itself, with one text node over its range as its child |
| FillFacts.OneSpan | src/node-tree.js:33-51 | a block with one in-bounds span becomes the leading gap (if any), the styled node with its text as child, and the trailing gap (if any) |
| NodeTree.CreateChildren | src/node-tree.js:229-273 | the reduction over the mutated accumulator computes the document tree |
| NodeTree.Processed | src/node-tree.js:239 | one list per block, each the processed text nodes of that block |
| NodeTree.AppendBlock | src/node-tree.js:230-272 | one step adds at most one node; every node but the last is kept, and the last too when a node is added |
| NodeTree.Assemble | src/node-tree.js:229-273 | the tree has at most as many nodes as there are blocks, and at least one if there is a block |
| AssemblyFacts.MediaIsLeaf | src/node-tree.js:233-237 | an image or embed block becomes a leaf node with no children |
| AssemblyFacts.ListItemJoins | src/node-tree.js:243-249 | a list item after an unordered grouping is appended to that grouping |
| AssemblyFacts.ListItemOpens | src/node-tree.js:250-253 | a list item with no unordered grouping before it opens a new one-item grouping |
| AssemblyFacts.OListItemJoins | src/node-tree.js:255-263 | an ordered list item after an ordered grouping is appended to it |
| AssemblyFacts.OListItemOpens | src/node-tree.js:264-268 | an ordered list item with no ordered grouping before it opens a new one |
| AssemblyFacts.OtherBlock | src/node-tree.js:271 | every other block becomes a node of its type with its resolved text nodes |
| AssemblyFacts.AppendsOneNode | src/node-tree.js:230-272 | a block that does not merge adds exactly one node and leaves the others unchanged |
| AssemblyFacts.AssembleKeepsBlocks | src/node-tree.js:229-273 | reading the tree's blocks in order, groupings expanded, gives back the input blocks |
| AssemblyFacts.AssembleWellListed | src/node-tree.js:229-273 | each grouping holds only items of its own kind, and no two adjacent top-level nodes are groupings of the same kind |
| AssemblyFacts.AddChildBlocks | src/utils/nodes.js:85-87 | adding an item to a grouping appends its block |
| AssemblyFacts.TwoListItems | src/node-tree.js:243-253 | two consecutive list items become one grouping with both items |
| AssemblyFacts.ItemTypes | src/utils/types.js:42-49 | list items are not media, and their type strings are `list-item` and `o-list-item` |
| EscapeHtmlUtil.EscapeChar | src/utils/escape-html.js:1-8 | each of `& < > " ' /` maps to its entity, and every other character is kept |
| EscapeHtmlUtil.Escape | src/utils/escape-html.js:19-20 | the output is at least as long as the input and at most six times as long |
| EscapeHtmlUtil.EscapeConcat | src/utils/escape-html.js:19-20 | escaping distributes over concatenation |
| EscapeHtmlUtil.EscapeIsSafe | src/utils/escape-html.js:1-20 | the output holds none of `< > " ' /`; its only special character is `&` |
| EscapeHtmlUtil.EscapeLength | src/utils/escape-html.js:19-20 | the output is never shorter; it has the same length exactly when no special character occurs, and is then the input |
| EscapeHtmlUtil.UnescapeEscape | src/utils/escape-html.js:1-20 | decoding the six entities recovers the input, so escaping loses nothing |
| HtmlSerializer.NewSerializer | src/html-serializer.js:16-19 | given options are kept; missing ones default to `_self` and `data-copyright` |
| HtmlSerializer.JoinAllAppend | src/html-serializer.js:50 | joining with no separator distributes over concatenation; a null part contributes nothing |
| HtmlSerializer.JoinAllNone | src/html-serializer.js:50 | a part that serialized to null adds nothing to the joined output, wherever it stands |
| HtmlSerializer.SerializeStandardTag | src/html-serializer.js:49-51 | the tag, opened and closed, adds exactly `2·|tag| + 5` characters to the joined children |
| HtmlFacts.StandardTagReadsBack | src/html-serializer.js:49-51 | reading the markup back gives the tag and the joined children |
| HtmlSerializer.Attribute | src/html-serializer.js:61-65 | an attribute is its name, the escaped value and the three delimiters |
| HtmlSerializer.SerializeHyperlink | src/html-serializer.js:102-108 | the markup opens with `<a ` and ends with the content, unescaped, then `</a>` |
| HtmlFacts.HyperlinkReadsBack | src/html-serializer.js:102-108 | the link markup reads back as the link's own target (else the default), the resolved URL, and the content |
| HtmlFacts.TargetOf | src/html-serializer.js:104 | the link's target when given, else the configured default |
| HtmlSerializer.SerializeImage | src/html-serializer.js:60-72 | the markup is wrapped in `<p>` and `</p>`, and inside it starts with `<img ` when the image links nowhere, else with `<a ` |
| HtmlFacts.ImageReadsBack | src/html-serializer.js:60-72 | the image markup reads back as URL, alt and copyright in the configured attribute, plus the link's target and URL exactly when the image links somewhere |
| HtmlSerializer.SerializeEmbed | src/html-serializer.js:80-93 | the provider HTML appears unescaped right before the closing `</div>` and its whitespace |
| HtmlFacts.EmbedReadsBack | src/html-serializer.js:80-93 | the embed markup reads back as the embed URL, type, provider and HTML |
| HtmlSerializer.SerializeLabel | src/html-serializer.js:117-122 | the markup opens with `<span ` and ends with the joined children and `</span>`; it is 14 characters longer than the children exactly when the label is empty |
| HtmlFacts.LabelReadsBack | src/html-serializer.js:117-122 | the label markup reads back as the label (a class only when it is non-empty) and the joined children |
| HtmlSerializer.BreakLines | src/html-serializer.js:131 | no line break is left, and a text without one is unchanged |
| HtmlSerializer.SerializeSpan | src/html-serializer.js:130-132 | the serialized text has no line break |
| HtmlFacts.SpanReadsBack | src/html-serializer.js:130-132 | turning `<br>` back into line breaks and decoding entities recovers the text |
| HtmlFacts.TextNodeSerializes | src/html-serializer.js:182-183 | a text node serializes to its serialized text |
| HtmlSerializer.Serialize | src/html-serializer.js:141-187 | an unknown type serializes to null; every standard type serializes to a string |
| HtmlFacts.StandardSerializes | src/html-serializer.js:146-173 | each standard type serializes with its tag around the joined children |
| HtmlFacts.TagTable | src/html-serializer.js:146-173 | heading1..6 give h1..h6, paragraph p, preformatted pre, strong, em, both item kinds li, the groupings ul and ol; tags differ except for the two item kinds |
| HtmlFacts.StandardReadsBack | src/html-serializer.js:146-173 | a standard node's markup reads back as its tag and its joined children |
| HtmlFacts.UnknownTypeIsNull | src/html-serializer.js:184-185 | a type outside the table serializes to null |
| HtmlSerializer.SerializeNode | src/html-serializer.js:141-187 | list items and list groupings always serialize to a string |
| HtmlSerializer.SerializeNodeTree | src/html-serializer.js:27-40 | one result per top-level node, each its depth-first serialization |
| ParserFacts.SerializeNodeTreeAppend | src/html-serializer.js:37-39 | serializing one more top-level node appends its serialization |
| RichTextParser.Join | src/rich-text-parser.js:23 | no parts give the empty string and one part gives itself |
| RichTextParser.BlockTexts | src/rich-text-parser.js:23 | one text per block, each the block's text |
| RichTextParser.DefaultSerializer | src/rich-text-parser.js:12 | the serializer with default options |
| RichTextParser.ParseAsText | src/rich-text-parser.js:22-24 | no blocks give the empty text, and one block gives its text |
| RichTextParser.ParseAsHtml | src/rich-text-parser.js:11-13 | no blocks give the empty HTML |
| ParserFacts.TextSplitsBack | src/rich-text-parser.js:22-24 | with a one-character separator absent from the texts, splitting `parseAsText` recovers the block texts |
| ParserFacts.JoinLength | src/rich-text-parser.js:23 | the length of the text is the texts' lengths plus one separator between each pair |
| ParserFacts.TextOfTwoBlocks | src/rich-text-parser.js:22-24 | with the default separator, two blocks give their texts around a single space |
| ParserFacts.ParseAsHtmlAppend | src/rich-text-parser.js:11-13 | a non-list block appends its serialization to the HTML, with no separator |
| ParserFacts.OneBlockDocument | src/rich-text-parser.js:11-13 | the HTML of a one-block document is that block's serialization |
| ParserFacts.PlainParagraphHtml | src/rich-text-parser.js:11-13 | a paragraph without spans becomes `<p>` around its serialized text |
| ParserFacts.PlainParagraphReadsBack | src/rich-text-parser.js:11-13 | its HTML reads back as a `p` whose content decodes to the paragraph's text |
| MockDocument.BoldParagraph | test/specs/rich-text-parser.spec.js:11-13 | the bold paragraph of the mock document serializes to `<p><strong>I am bold</strong></p>` |
| MockDocument.BoldThenItalicText | test/specs/rich-text-parser.spec.js:91-94 | the first two mock blocks give `I am bold I am italic` as text |
| MockDocument.TwoItemTree | test/mock-data/prismic.js:49-50 | the two mock list items become one unordered grouping |
| MockDocument.TwoItemList | test/specs/rich-text-parser.spec.js:29-31 | those two list items serialize to `<ul><li>unordered</li><li>list</li></ul>` |

## Left out

- Exceptions are modelled as absent values, and the inputs that cause them are otherwise not modelled:
  - an unknown span type makes the election comparator throw; span types are the kinds of `NodeTypes.Kind`, so it cannot occur;
  - block fields the source reads without a fallback are always present as strings: a text block's `text`, whose `length` `processTextBlock` reads (src/node-tree.js:34), and an image's `url`, an embed's `oembed` and a label's `data`;
  - `null` and missing alt, copyright, target and label are the empty string, which the source treats the same way through `||`.
- NodeTree.PartitionGroup: children are proved to lie within their head's range only one level down and only when every other span of the group meets the head without wrapping it (ResolverFacts.HeadChildrenWithin); a chained group breaks that condition (see NodeTree.SliceSpan below), so nesting at every depth is not claimed.
- NodeTree.SliceSpan: a span wholly before the elected one, possible when a group chains through touching spans, gets an inner piece whose end precedes its start (ResolverFacts.SliceSpanBefore). A span starting at or after the elected one's end gets such an inner piece too, and its outer piece reaches back to the elected span's end, so the text of the gap appears in two nodes (ResolverFacts.SliceSpanAfter, ResolverFacts.SliceSpanAfterRepeats). Both are stated as the code behaves rather than corrected.
- NodeTree.ElectionCompare: takes the priority of every kind from the table. The source indexes the element table by type string (src/node-tree.js:101-103); for `list-item`, `o-list-item`, `group-list-item` and `group-o-list-item` the table key differs from the type string, so the lookup finds nothing and the comparator throws. Spans never have those kinds.
- FillFacts.FillCovers: coverage is proved only for sorted, non-overlapping nodes within the bounds. The grouping compares each span only with the previous one, so the resolver's own output need not meet that condition.
- NodeTreeFacts.ElectPair: election facts are permutation, containment and pairwise facts only. The comparator is not a consistent order (NodeTreeFacts.ElectionCycle), so no sortedness is claimed for the election sort.
- The engine's `Array.prototype.sort` algorithm is modelled by a stable insertion sort. On an inconsistent comparator another engine may order spans differently.
- The pure resolver functions work on values. The in-place array sort is modelled separately, in Sorting.InsertionSort.
- Hyperlinks, labels, images and embeds whose element has the wrong shape serialize to null. On those inputs the source throws or reads `undefined`.
- `serializeImage` calls `serializeHyperlink` as a static method, which the class does not have. The model calls it on the receiver, so the image link uses the receiver's default target.
- `parseAsHtml` calls `serializeNodeTree` as a static method too. The model uses a serializer with the default options there.
- Strings are sequences of characters, standing for the sequence of UTF-16 code units of a JavaScript string. `length`, `slice` and span offsets all count code units (src/node-tree.js:34-36, src/utils/nodes.js:42-51); surrogate pairs and normalisation are not modelled.
- `src/types/nodes.js` and `src/types/prismic-elements.js`, which `node-tree.js` imports, are not part of this model. `src/utils/nodes.js` and `src/utils/types.js` stand in for them.
- Object identity and `instanceof` are modelled by datatype constructors. Node classes are told apart by constructor, not by prototype.
- RichTextParser.ParseAsText: an explicit `null` join string makes JavaScript join with `"null"`. The model treats it like an omitted one.
- The test expecting `<a href=…>` without `target` and `rel` contradicts the code. The model follows the code, which writes both.
