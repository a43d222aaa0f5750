/** Properties of the resolved span trees: how slicing cuts a span, the size
    of a resolved level, and that every node of a processed block carries
    the text of its own range and comes from one of the block's spans or is
    a plain-text node. */
module ResolverFacts {
  import opened Wrappers
  import opened Seqs
  import opened NodeTypes
  import opened Nodes
  import opened Sorting
  import opened NodeTree
  import opened NodeTreeFacts

  // --------------------------------------------------------------- slicing

  /** A span that touches the elected one and does not stick out on both
      sides is cut into a piece inside the elected span and, if any, a piece
      that does not overlap it. */
  lemma SliceSpanInside(text: string, span: SpanNode, elected: SpanNode)
    requires span.start <= span.end && elected.start <= elected.end
    requires elected.start <= span.end && span.start <= elected.end
    requires !(span.start < elected.start && span.end > elected.end)
    ensures var r := SliceSpan(text, span, elected);
      && elected.start <= r.inner.start <= r.inner.end <= elected.end
      && (r.outer.Some? ==> r.outer.value.end <= elected.start || r.outer.value.start >= elected.end)
      && (r.outer.None? <==> elected.IsParentOf(span))
  {
  }

  /** A span wrapping the elected one on both sides loses its part after
      the elected span: its inner piece runs past the elected span's end. */
  lemma SliceSpanWrapping(text: string, span: SpanNode, elected: SpanNode)
    requires span.start < elected.start <= elected.end < span.end
    ensures var r := SliceSpan(text, span, elected);
      && r.inner.start == elected.start && r.inner.end == span.end > elected.end
      && r.outer == Some(Slice(span, span.start, elected.start, text))
  {
  }

  /** A span of a chained group that ends before the elected span starts is
      cut at the elected span's start: its outer piece reaches beyond its
      own end and its inner piece has a negative extent. */
  lemma SliceSpanBefore(text: string, span: SpanNode, elected: SpanNode)
    requires span.start <= span.end < elected.start
    ensures var r := SliceSpan(text, span, elected);
      && r.inner.start == elected.start > r.inner.end == span.end
      && r.outer.Some? && r.outer.value.start == span.start && r.outer.value.end == elected.start > span.end
  {
  }

  /** A span of a chained group that starts at or after the elected span's
      end is cut there: its inner piece runs backwards (a negative extent
      when there is a gap) and has no text, and its outer piece reaches back
      over the gap between the two spans, whose text it carries. */
  lemma SliceSpanAfter(text: string, span: SpanNode, elected: SpanNode)
    requires 0 <= elected.start <= elected.end <= span.start <= span.end <= |text|
    requires elected.end < span.end
    ensures var r := SliceSpan(text, span, elected);
      && r.inner.start == span.start >= r.inner.end == elected.end && r.inner.text == ""
      && r.outer.Some? && r.outer.value.start == elected.end <= span.start
      && r.outer.value.end == span.end && r.outer.value.text == text[elected.end..span.end]
  {
  }

  /** In "abcdefgh" with a head over [0, 2) and two chained spans over
      [2, 5) and [5, 8), both outer pieces carry "cde": the text of the
      first chained span appears twice among the nodes handed on. */
  lemma SliceSpanAfterRepeats(head: SpanNode, first: SpanNode, second: SpanNode)
    requires head.start == 0 && head.end == 2
    requires first.start == 2 && first.end == 5 && second.start == 5 && second.end == 8
    ensures var a := SliceSpan("abcdefgh", first, head).outer;
      var b := SliceSpan("abcdefgh", second, head).outer;
      && a.Some? && a.value.text == "cde"
      && b.Some? && b.value.text == "cdefgh" && b.value.text[..3] == a.value.text
  {
    SliceSpanAfter("abcdefgh", first, head);
    SliceSpanAfter("abcdefgh", second, head);
  }

  /** Under the insertion sort, no span of a start-sorted group that wraps
      another on both sides is ever placed after it, so the head of a group
      is never wrapped by one of its others. */
  lemma {:induction false} WrapperStaysAhead(s: seq<SpanNode>, w: SpanNode, e: SpanNode)
    requires w in s && e in s
    requires w.start < e.start && e.end < w.end
    requires forall i, j :: 0 <= i < j < |s| ==> s[i].start <= s[j].start
    ensures InsertionSorted(s, ElectionAfter)[0] != e
    decreases |s|
  {
    var init := s[..|s| - 1];
    var x := s[|s| - 1];
    InitLast(s);
    assert w != x by {
      var i :| 0 <= i < |s| && s[i] == e;
    }
    var sorted := InsertionSorted(init, ElectionAfter);
    InsertionSortedPermutes(init, ElectionAfter);
    assert w in init;
    if e in init {
      assert forall i, j :: 0 <= i < j < |init| ==> init[i].start <= init[j].start;
      WrapperStaysAhead(init, w, e);
    } else {
      assert sorted[0] in multiset(init);
    }
    assert w in multiset(sorted);
    assert !ElectionAfter(w, e);
    InsertHeadNot(x, sorted, w, e, ElectionAfter);
  }

  /** Insertion does not bring `e` to the front of a sequence that does not
      start with it, when `e` is inserted only behind an element it need not
      pass. */
  lemma InsertHeadNot<T>(x: T, s: seq<T>, w: T, e: T, after: (T, T) -> bool)
    requires w in s && s[0] != e && (x == e ==> !after(w, x))
    ensures Insert(x, s, after)[0] != e
  {
    if Insert(x, s, after)[0] != s[0] {
      InsertFrontIsNew(x, s, after);
      if x == e {
        InsertNotBefore(e, s, w, after);
      }
    }
  }

  /** When insertion changes the first element, the new first is the
      inserted one. */
  lemma {:induction false} InsertFrontIsNew<T>(x: T, s: seq<T>, after: (T, T) -> bool)
    requires s != [] && Insert(x, s, after)[0] != s[0]
    ensures Insert(x, s, after)[0] == x
  {
    if |s| > 1 && after(s[|s| - 1], x) {
      InsertFrontIsNew(x, s[..|s| - 1], after);
    }
  }

  /** An inserted element does not pass an element it need not follow. */
  lemma {:induction false} InsertNotBefore<T>(x: T, s: seq<T>, w: T, after: (T, T) -> bool)
    requires w in s && !after(w, x)
    ensures Insert(x, s, after)[0] != x || s[0] == x
  {
    if s[|s| - 1] == w {
      if |s| > 1 {
        assert Insert(x, s, after) == s + [x];
      }
    } else if after(s[|s| - 1], x) {
      InitLast(s);
      assert w in s[..|s| - 1];
      InsertNotBefore(x, s[..|s| - 1], w, after);
    }
  }

  /** The head of a group sorted by start is never wrapped on both sides by
      another span of the group, so the wrapping cut does not arise there. */
  lemma HeadNotWrapped(group: seq<SpanNode>, w: SpanNode)
    requires w in group
    requires forall i, j :: 0 <= i < j < |group| ==> group[i].start <= group[j].start
    ensures var head := ElectGroup(group).value.elected;
      !(w.start < head.start && head.end < w.end)
  {
    var head := ElectGroup(group).value.elected;
    if w.start < head.start && head.end < w.end {
      var sorted := InsertionSorted(group, ElectionAfter);
      InsertionSortedPermutes(group, ElectionAfter);
      assert sorted[0] in multiset(group);
      WrapperStaysAhead(group, w, head);
      assert false;
    }
  }

  // ------------------------------------------------------------------ size

  /** A resolved level has at least one node and at most one per span. */
  lemma {:induction false} BuildTreeSize(text: string, spans: seq<SpanNode>)
    ensures |BuildTree(text, spans)| <= |spans|
    ensures spans != [] ==> |BuildTree(text, spans)| >= 1
    decreases |spans|, 2
  {
    var sorted := InsertionSorted(spans, StartEndAfter);
    var groups := Groups(sorted);
    var es := CreateElection(groups).value;
    PartitionGroupsSize(text, es);
  }

  lemma {:induction false} PartitionGroupsSize(text: string, es: seq<Election>)
    ensures |Concat(PartitionGroups(text, es))| <= Size(es)
    ensures es != [] ==> |Concat(PartitionGroups(text, es))| >= 1
    decreases Size(es), 1
  {
    if es != [] {
      PartitionGroupSize(text, es[0]);
      PartitionGroupsSize(text, es[1..]);
      ConcatJoin([PartitionGroup(text, es[0])], PartitionGroups(text, es[1..]));
      ConcatSingle(PartitionGroup(text, es[0]));
    }
  }

  /** `partitionGroups` maps every group to its own list of nodes, in the
      order of the groups. */
  lemma {:induction false} PartitionGroupsEach(text: string, es: seq<Election>)
    ensures var r := PartitionGroups(text, es);
      |r| == |es| && forall j :: 0 <= j < |es| ==> r[j] == PartitionGroup(text, es[j])
  {
    if es != [] {
      PartitionGroupsEach(text, es[1..]);
      var r := PartitionGroups(text, es);
      var rest := PartitionGroups(text, es[1..]);
      ConsEach(PartitionGroup(text, es[0]), rest, r);
      TakeKeepsTail(es);
    }
  }

  /** A resolved level holds exactly the nodes of every group's partition,
      the same number of times: the final sort only reorders them. */
  lemma BuildTreePermutes(text: string, spans: seq<SpanNode>)
    ensures var es := CreateElection(Groups(InsertionSorted(spans, StartEndAfter)));
      es.Some? && multiset(BuildTree(text, spans)) == multiset(Concat(PartitionGroups(text, es.value)))
  {
    var es := CreateElection(Groups(InsertionSorted(spans, StartEndAfter))).value;
    InsertionSortedPermutes(Concat(PartitionGroups(text, es)), StartAfter);
  }

  /** The head of every group is a node of the resolved level. */
  lemma BuildTreeKeepsHeads(text: string, spans: seq<SpanNode>)
    ensures var es := CreateElection(Groups(InsertionSorted(spans, StartEndAfter)));
      es.Some? && forall j :: 0 <= j < |es.value| ==> PartitionGroup(text, es.value[j])[0] in BuildTree(text, spans)
  {
    var es := CreateElection(Groups(InsertionSorted(spans, StartEndAfter))).value;
    var parts := PartitionGroups(text, es);
    BuildTreePermutes(text, spans);
    PartitionGroupsEach(text, es);
    forall j | 0 <= j < |es|
      ensures PartitionGroup(text, es[j])[0] in BuildTree(text, spans)
    {
      var head := PartitionGroup(text, es[j])[0];
      assert head in parts[j];
      ConcatMember(parts, j, head);
      assert head in multiset(Concat(parts));
    }
  }

  lemma {:induction false} PartitionGroupSize(text: string, e: Election)
    ensures |PartitionGroup(text, e)| <= 1 + |e.others|
    decreases 1 + |e.others|, 0
  {
    var parts := PartitionOthers(text, e.others, e.elected);
    BuildTreeSize(text, parts.outer);
  }

  // ------------------------------------------------------------ invariant

  /** A node carries the text of its own range, is a text node or keeps the
      kind of the document span it was cut from, and so do its children. */
  ghost predicate Resolved(text: string, raws: seq<RawSpan>, n: SpanNode)
    decreases n
  {
    && n.text == JsSlice(text, n.start, n.end)
    && (IsTextNode(n) || (n.element.FromSpan? && n.element.span in raws && n.kind == n.element.span.kind))
    && forall c :: c in n.children ==> Resolved(text, raws, c)
  }

  /** A resolved node made from a document span (not a text node). */
  ghost predicate FromRaw(text: string, raws: seq<RawSpan>, n: SpanNode)
  {
    Resolved(text, raws, n) && n.element.FromSpan?
  }

  ghost predicate AllResolved(text: string, raws: seq<RawSpan>, ns: seq<SpanNode>)
  {
    forall n :: n in ns ==> Resolved(text, raws, n)
  }

  ghost predicate AllFromRaw(text: string, raws: seq<RawSpan>, ns: seq<SpanNode>)
  {
    forall n :: n in ns ==> FromRaw(text, raws, n)
  }

  lemma SortedFromRaw(text: string, raws: seq<RawSpan>, s: seq<SpanNode>, after: (SpanNode, SpanNode) -> bool)
    requires AllFromRaw(text, raws, s)
    ensures AllFromRaw(text, raws, InsertionSorted(s, after))
  {
    InsertionSortedPermutes(s, after);
    forall n | n in InsertionSorted(s, after)
      ensures FromRaw(text, raws, n)
    {
      assert n in multiset(InsertionSorted(s, after));
      assert n in s;
    }
  }

  lemma ElectionsFromRaw(text: string, raws: seq<RawSpan>, spans: seq<SpanNode>, es: seq<Election>)
    requires AllFromRaw(text, raws, spans) && CreateElection(Groups(spans)) == Some(es)
    ensures forall j :: 0 <= j < |es| ==> FromRaw(text, raws, es[j].elected) && AllFromRaw(text, raws, es[j].others)
  {
    var groups := Groups(spans);
    forall j | 0 <= j < |es|
      ensures FromRaw(text, raws, es[j].elected) && AllFromRaw(text, raws, es[j].others)
    {
      var g := groups[j];
      forall n | n in g
        ensures FromRaw(text, raws, n)
      {
        ConcatMember(groups, j, n);
      }
      ElectionPermutes(g);
      var e := es[j];
      assert e.elected in multiset([e.elected] + e.others);
      forall n | n in e.others
        ensures FromRaw(text, raws, n)
      {
        assert n in multiset([e.elected] + e.others);
      }
    }
  }

  lemma PartitionOthersFromRaw(text: string, raws: seq<RawSpan>, others: seq<SpanNode>, elected: SpanNode)
    requires AllFromRaw(text, raws, others)
    ensures var p := PartitionOthers(text, others, elected);
      AllFromRaw(text, raws, p.inner) && AllFromRaw(text, raws, p.outer)
  {
    InnerFromRaw(text, raws, others, elected);
    OuterFromRaw(text, raws, others, elected);
  }

  lemma InnerFromRaw(text: string, raws: seq<RawSpan>, others: seq<SpanNode>, elected: SpanNode)
    requires AllFromRaw(text, raws, others)
    ensures AllFromRaw(text, raws, PartitionOthers(text, others, elected).inner)
  {
    var inner := PartitionOthers(text, others, elected).inner;
    forall n | n in inner
      ensures FromRaw(text, raws, n)
    {
      var k :| 0 <= k < |inner| && inner[k] == n;
      assert others[k] in others;
    }
  }

  lemma OuterFromRaw(text: string, raws: seq<RawSpan>, others: seq<SpanNode>, elected: SpanNode)
    requires AllFromRaw(text, raws, others)
    ensures AllFromRaw(text, raws, PartitionOthers(text, others, elected).outer)
  {
    var outer := PartitionOthers(text, others, elected).outer;
    var ps := OuterPieces(text, others, elected);
    forall n | n in outer
      ensures FromRaw(text, raws, n)
    {
      ConcatMemberInv(ps, n);
      var k :| 0 <= k < |ps| && n in ps[k];
      assert SliceSpan(text, others[k], elected).outer == Some(n);
      assert others[k] in others;
    }
  }

  lemma FillResolved(text: string, raws: seq<RawSpan>, tree: seq<SpanNode>, bounds: Bounds, k: nat)
    requires k <= |tree| && AllResolved(text, raws, tree)
    ensures AllResolved(text, raws, FillUpTo(text, tree, bounds, k))
  {
    if k > 0 {
      FillResolved(text, raws, tree, bounds, k - 1);
      assert tree[k - 1] in tree;
    }
  }

  /** The resolver keeps the invariant: spans made from document spans come
      out as resolved nodes, at every depth. */
  lemma {:induction false} BuildTreeAndFillResolved(text: string, raws: seq<RawSpan>, spans: seq<SpanNode>, bounds: Bounds)
    requires AllFromRaw(text, raws, spans)
    ensures AllResolved(text, raws, BuildTreeAndFill(text, spans, bounds))
    decreases |spans|, 3
  {
    if |spans| > 0 {
      var tree := BuildTree(text, spans);
      BuildTreeFromRaw(text, raws, spans);
      FillResolved(text, raws, tree, bounds, |tree|);
    }
  }

  lemma {:induction false} BuildTreeFromRaw(text: string, raws: seq<RawSpan>, spans: seq<SpanNode>)
    requires AllFromRaw(text, raws, spans)
    ensures AllFromRaw(text, raws, BuildTree(text, spans))
    decreases |spans|, 2
  {
    var sorted := InsertionSorted(spans, StartEndAfter);
    SortedFromRaw(text, raws, spans, StartEndAfter);
    var es := CreateElection(Groups(sorted)).value;
    ElectionsFromRaw(text, raws, sorted, es);
    var parts := PartitionGroups(text, es);
    PartitionGroupsFromRaw(text, raws, es);
    forall n | n in Concat(parts)
      ensures FromRaw(text, raws, n)
    {
      ConcatMemberInv(parts, n);
      var i :| 0 <= i < |parts| && n in parts[i];
      assert AllFromRaw(text, raws, parts[i]);
    }
    SortedFromRaw(text, raws, Concat(parts), StartAfter);
  }

  lemma {:induction false} PartitionGroupsFromRaw(text: string, raws: seq<RawSpan>, es: seq<Election>)
    requires forall j :: 0 <= j < |es| ==> FromRaw(text, raws, es[j].elected) && AllFromRaw(text, raws, es[j].others)
    ensures forall j :: 0 <= j < |es| ==> AllFromRaw(text, raws, PartitionGroups(text, es)[j])
    decreases Size(es), 1
  {
    if es != [] {
      PartitionGroupFromRaw(text, raws, es[0]);
      var tail := es[1..];
      forall j | 0 <= j < |tail|
        ensures FromRaw(text, raws, tail[j].elected) && AllFromRaw(text, raws, tail[j].others)
      {
        assert tail[j] == es[j + 1];
      }
      PartitionGroupsFromRaw(text, raws, tail);
      var rest := PartitionGroups(text, tail);
      var r := PartitionGroups(text, es);
      assert r == [PartitionGroup(text, es[0])] + rest;
      forall j | 0 <= j < |r|
        ensures AllFromRaw(text, raws, r[j])
      {
        if j > 0 {
          assert r[j] == rest[j - 1];
        }
      }
    }
  }

  lemma {:induction false} PartitionGroupFromRaw(text: string, raws: seq<RawSpan>, e: Election)
    requires FromRaw(text, raws, e.elected) && AllFromRaw(text, raws, e.others)
    ensures AllFromRaw(text, raws, PartitionGroup(text, e))
    decreases 1 + |e.others|, 0
  {
    var parts := PartitionOthers(text, e.others, e.elected);
    PartitionOthersFromRaw(text, raws, e.others, e.elected);
    var children := BuildTreeAndFill(text, parts.inner, e.elected.Boundaries());
    BuildTreeAndFillResolved(text, raws, parts.inner, e.elected.Boundaries());
    var head := e.elected.SetChildren(children);
    assert FromRaw(text, raws, head);
    BuildTreeFromRaw(text, raws, parts.outer);
  }

  // ---------------------------------------------------------- containment

  /** A node both of whose ends lie between `lo` and `hi`. */
  predicate Within(lo: int, hi: int, n: SpanNode)
  {
    lo <= n.start <= hi && lo <= n.end <= hi
  }

  predicate AllWithin(lo: int, hi: int, ns: seq<SpanNode>)
  {
    forall n :: n in ns ==> Within(lo, hi, n)
  }

  lemma SortedWithin(lo: int, hi: int, s: seq<SpanNode>, after: (SpanNode, SpanNode) -> bool)
    requires AllWithin(lo, hi, s)
    ensures AllWithin(lo, hi, InsertionSorted(s, after))
  {
    InsertionSortedPermutes(s, after);
    forall n | n in InsertionSorted(s, after)
      ensures Within(lo, hi, n)
    {
      assert n in multiset(InsertionSorted(s, after));
      assert n in s;
    }
  }

  lemma ElectionsWithin(lo: int, hi: int, spans: seq<SpanNode>, es: seq<Election>)
    requires AllWithin(lo, hi, spans) && CreateElection(Groups(spans)) == Some(es)
    ensures forall j :: 0 <= j < |es| ==> Within(lo, hi, es[j].elected) && AllWithin(lo, hi, es[j].others)
  {
    var groups := Groups(spans);
    forall j | 0 <= j < |es|
      ensures Within(lo, hi, es[j].elected) && AllWithin(lo, hi, es[j].others)
    {
      var g := groups[j];
      forall n | n in g
        ensures Within(lo, hi, n)
      {
        ConcatMember(groups, j, n);
      }
      ElectionPermutes(g);
      var e := es[j];
      assert e.elected in multiset([e.elected] + e.others);
      forall n | n in e.others
        ensures Within(lo, hi, n)
      {
        assert n in multiset([e.elected] + e.others);
      }
    }
  }

  /** Slicing cuts only at the ends of the span and of the elected span, so
      both pieces stay within any range holding the two. */
  lemma SliceSpanWithin(lo: int, hi: int, text: string, span: SpanNode, elected: SpanNode)
    requires Within(lo, hi, elected) && Within(lo, hi, span)
    ensures var r := SliceSpan(text, span, elected);
      Within(lo, hi, r.inner) && (r.outer.Some? ==> Within(lo, hi, r.outer.value))
  {
  }

  lemma PartitionOthersWithin(lo: int, hi: int, text: string, others: seq<SpanNode>, elected: SpanNode)
    requires Within(lo, hi, elected) && AllWithin(lo, hi, others)
    ensures var p := PartitionOthers(text, others, elected);
      AllWithin(lo, hi, p.inner) && AllWithin(lo, hi, p.outer)
  {
    var p := PartitionOthers(text, others, elected);
    forall n | n in p.inner
      ensures Within(lo, hi, n)
    {
      var k :| 0 <= k < |p.inner| && p.inner[k] == n;
      assert others[k] in others;
      SliceSpanWithin(lo, hi, text, others[k], elected);
    }
    var ps := OuterPieces(text, others, elected);
    forall n | n in p.outer
      ensures Within(lo, hi, n)
    {
      ConcatMemberInv(ps, n);
      var k :| 0 <= k < |ps| && n in ps[k];
      assert SliceSpan(text, others[k], elected).outer == Some(n);
      assert others[k] in others;
      SliceSpanWithin(lo, hi, text, others[k], elected);
    }
  }

  /** The nodes of a resolved level stay within any range that holds all the
      spans it was resolved from. */
  lemma {:induction false} BuildTreeWithin(lo: int, hi: int, text: string, spans: seq<SpanNode>)
    requires AllWithin(lo, hi, spans)
    ensures AllWithin(lo, hi, BuildTree(text, spans))
    decreases |spans|, 2
  {
    var sorted := InsertionSorted(spans, StartEndAfter);
    SortedWithin(lo, hi, spans, StartEndAfter);
    var es := CreateElection(Groups(sorted)).value;
    ElectionsWithin(lo, hi, sorted, es);
    var parts := PartitionGroups(text, es);
    PartitionGroupsWithin(lo, hi, text, es);
    forall n | n in Concat(parts)
      ensures Within(lo, hi, n)
    {
      ConcatMemberInv(parts, n);
      var i :| 0 <= i < |parts| && n in parts[i];
      assert AllWithin(lo, hi, parts[i]);
    }
    SortedWithin(lo, hi, Concat(parts), StartAfter);
  }

  lemma {:induction false} PartitionGroupsWithin(lo: int, hi: int, text: string, es: seq<Election>)
    requires forall j :: 0 <= j < |es| ==> Within(lo, hi, es[j].elected) && AllWithin(lo, hi, es[j].others)
    ensures forall j :: 0 <= j < |es| ==> AllWithin(lo, hi, PartitionGroups(text, es)[j])
    decreases Size(es), 1
  {
    PartitionGroupsEach(text, es);
    forall j | 0 <= j < |es|
      ensures AllWithin(lo, hi, PartitionGroups(text, es)[j])
    {
      assert Size(es) >= 1 + |es[j].others| by {
        SizeBound(es, j);
      }
      PartitionGroupWithin(lo, hi, text, es[j], Size(es));
    }
  }

  /** One election weighs at most the whole list. */
  lemma {:induction false} SizeBound(es: seq<Election>, j: nat)
    requires j < |es|
    ensures 1 + |es[j].others| <= Size(es)
  {
    if j > 0 {
      SizeBound(es[1..], j - 1);
    }
  }

  lemma {:induction false} PartitionGroupWithin(lo: int, hi: int, text: string, e: Election, bound: nat)
    requires Within(lo, hi, e.elected) && AllWithin(lo, hi, e.others)
    requires 1 + |e.others| <= bound
    ensures AllWithin(lo, hi, PartitionGroup(text, e))
    decreases bound, 0
  {
    var parts := PartitionOthers(text, e.others, e.elected);
    PartitionOthersWithin(lo, hi, text, e.others, e.elected);
    BuildTreeWithin(lo, hi, text, parts.outer);
  }

  /** `fill` keeps every node within its bounds when the tree lies within
      them. */
  lemma {:induction false} FillWithin(text: string, tree: seq<SpanNode>, bounds: Bounds, k: nat)
    requires k <= |tree| && AllWithin(bounds.lower, bounds.upper, tree)
    ensures AllWithin(bounds.lower, bounds.upper, FillUpTo(text, tree, bounds, k))
  {
    if k > 0 {
      FillWithin(text, tree, bounds, k - 1);
      PieceWithin(text, tree, bounds, k - 1);
      AppendWithin(bounds.lower, bounds.upper, FillUpTo(text, tree, bounds, k - 1), Piece(text, tree, bounds, k - 1));
    }
  }

  /** The nodes one step of `fill` appends lie within the bounds. */
  lemma PieceWithin(text: string, tree: seq<SpanNode>, bounds: Bounds, i: nat)
    requires i < |tree| && AllWithin(bounds.lower, bounds.upper, tree)
    ensures AllWithin(bounds.lower, bounds.upper, Piece(text, tree, bounds, i))
  {
    assert tree[i] in tree;
    if i > 0 {
      assert tree[i - 1] in tree;
    }
    var lead, trail := Lead(text, tree, bounds, i), Trail(text, tree, bounds, i);
    assert AllWithin(bounds.lower, bounds.upper, lead);
    assert AllWithin(bounds.lower, bounds.upper, trail);
    AppendWithin(bounds.lower, bounds.upper, lead, [tree[i]]);
    AppendWithin(bounds.lower, bounds.upper, lead + [tree[i]], trail);
  }

  lemma AppendWithin(lo: int, hi: int, a: seq<SpanNode>, b: seq<SpanNode>)
    requires AllWithin(lo, hi, a) && AllWithin(lo, hi, b)
    ensures AllWithin(lo, hi, a + b)
  {
  }

  /** Resolving and filling spans that lie within the bounds gives nodes
      that lie within the bounds. */
  lemma BuildTreeAndFillWithin(text: string, spans: seq<SpanNode>, bounds: Bounds)
    requires bounds.lower <= bounds.upper && AllWithin(bounds.lower, bounds.upper, spans)
    ensures AllWithin(bounds.lower, bounds.upper, BuildTreeAndFill(text, spans, bounds))
  {
    if |spans| > 0 {
      var tree := BuildTree(text, spans);
      BuildTreeWithin(bounds.lower, bounds.upper, text, spans);
      FillWithin(text, tree, bounds, |tree|);
    }
  }

  /** When every other span of a group meets the elected one without
      wrapping it, every child of the head lies within the head's range. */
  lemma HeadChildrenWithin(text: string, e: Election)
    requires forall s :: s in e.others ==>
      && s.start <= s.end && e.elected.start <= s.end && s.start <= e.elected.end
      && !(s.start < e.elected.start && s.end > e.elected.end)
    requires e.elected.start <= e.elected.end
    ensures var head := PartitionGroup(text, e)[0];
      forall c :: c in head.children ==> Within(e.elected.start, e.elected.end, c)
  {
    var elected := e.elected;
    var parts := PartitionOthers(text, e.others, elected);
    forall n | n in parts.inner
      ensures Within(elected.start, elected.end, n)
    {
      var k :| 0 <= k < |parts.inner| && parts.inner[k] == n;
      assert e.others[k] in e.others;
      SliceSpanInside(text, e.others[k], elected);
    }
    BuildTreeAndFillWithin(text, parts.inner, elected.Boundaries());
  }

  /** Every node of a processed block, at every depth, holds exactly the
      text of its range and is a text node or keeps the kind of one of the
      block's spans. */
  lemma ProcessTextBlockResolved(block: Block)
    ensures AllResolved(block.text, block.spans, ProcessTextBlock(block))
  {
    var nodes := SpanNodesOf(block);
    forall n | n in nodes
      ensures FromRaw(block.text, block.spans, n)
    {
      var i :| 0 <= i < |nodes| && nodes[i] == n;
      assert block.spans[i] in block.spans;
    }
    BuildTreeAndFillResolved(block.text, block.spans, nodes, Bounds(0, |block.text|));
  }
}
