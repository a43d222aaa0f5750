/** Properties of the resolver: the order of its sorts, an exact
    characterization of the grouping, what the election picks, how slicing
    cuts a span, and bounds on the size of a resolved level. */
module NodeTreeFacts {
  import opened Wrappers
  import opened Seqs
  import opened NodeTypes
  import opened Nodes
  import opened Sorting
  import opened NodeTree

  // ----------------------------------------------------------------- sorts

  /** The spans are grouped in ascending `(start, end)` order. */
  lemma SortedSpansAscend(spans: seq<SpanNode>)
    ensures var s := InsertionSorted(spans, StartEndAfter);
      forall i, j :: 0 <= i < j < |s| ==> s[i].start < s[j].start || (s[i].start == s[j].start && s[i].end <= s[j].end)
  {
    StartOrdersAreStrictWeak();
    InsertionSortedSorted(spans, StartEndAfter);
  }

  // -------------------------------------------------------------- grouping

  /** The span at `k` joins the spans before it in `g`. */
  ghost predicate JoinsAt(g: seq<SpanNode>, k: int)
    requires 0 < k < |g|
  {
    Joins(g[..k], g[k - 1], g[k])
  }

  /** Every span of `g` joins the spans before it in `g`. */
  ghost predicate Chained(g: seq<SpanNode>)
  {
    g != [] && forall k :: 0 < k < |g| ==> JoinsAt(g, k)
  }

  /** The first span of `b` does not join the group `a` before it. */
  ghost predicate Breaks(a: seq<SpanNode>, b: seq<SpanNode>)
  {
    a != [] && b != [] && !Joins(a, a[|a| - 1], b[0])
  }

  /** A split of a span list into groups as the grouping loop must make it. */
  ghost predicate WellGrouped(gs: seq<seq<SpanNode>>)
  {
    && (forall j :: 0 <= j < |gs| ==> Chained(gs[j]))
    && (forall j :: 0 < j < |gs| ==> Breaks(gs[j - 1], gs[j]))
  }

  lemma ChainedExtend(g: seq<SpanNode>, x: SpanNode)
    requires Chained(g) && Joins(g, g[|g| - 1], x)
    ensures Chained(g + [x])
  {
    var g2 := g + [x];
    forall k | 0 < k < |g2|
      ensures JoinsAt(g2, k)
    {
      if k < |g| {
        assert JoinsAt(g, k);
        assert g2[..k] == g[..k];
      } else {
        assert g2[..k] == g;
      }
    }
  }

  lemma ChainedInit(g: seq<SpanNode>)
    requires Chained(g) && |g| > 1
    ensures var init := g[..|g| - 1];
      Chained(init) && Joins(init, init[|init| - 1], g[|g| - 1])
  {
    var init := g[..|g| - 1];
    forall k | 0 < k < |init|
      ensures JoinsAt(init, k)
    {
      assert JoinsAt(g, k);
      assert init[..k] == g[..k];
    }
    assert JoinsAt(g, |g| - 1);
  }

  lemma WellGroupedAppend(gs: seq<seq<SpanNode>>, g: seq<SpanNode>)
    requires WellGrouped(gs) && Chained(g) && (gs != [] ==> Breaks(gs[|gs| - 1], g))
    ensures WellGrouped(gs + [g])
  {
  }

  lemma WellGroupedInit(gs: seq<seq<SpanNode>>)
    requires WellGrouped(gs) && gs != []
    ensures WellGrouped(gs[..|gs| - 1]) && Chained(gs[|gs| - 1])
    ensures |gs| > 1 ==> Breaks(gs[|gs| - 2], gs[|gs| - 1])
  {
  }

  lemma LastOfConcat(gs: seq<seq<SpanNode>>)
    requires gs != [] && gs[|gs| - 1] != []
    ensures Concat(gs) != [] && Concat(gs)[|Concat(gs)| - 1] == gs[|gs| - 1][|gs[|gs| - 1]| - 1]
  {
    InitLast(gs);
    ConcatAppend(gs[..|gs| - 1], gs[|gs| - 1]);
  }

  /** The groups are well formed. */
  lemma {:induction false} GroupsWellGrouped(spans: seq<SpanNode>)
    ensures WellGrouped(Groups(spans))
    decreases |spans|
  {
    if |spans| == 1 {
      assert Groups(spans) == [spans];
    } else if |spans| > 1 {
      var init := spans[..|spans| - 1];
      GroupsWellGrouped(init);
      var gs := Groups(init);
      var group := gs[|gs| - 1];
      LastOfConcat(gs);
      assert init[|init| - 1] == spans[|spans| - 2];
      var current := spans[|spans| - 1];
      WellGroupedInit(gs);
      if Joins(group, spans[|spans| - 2], current) {
        ChainedExtend(group, current);
        assert Groups(spans) == gs[..|gs| - 1] + [group + [current]];
        WellGroupedAppend(gs[..|gs| - 1], group + [current]);
      } else {
        assert Groups(spans) == gs + [[current]];
        WellGroupedAppend(gs, [current]);
      }
    }
  }

  lemma ConcatEmptyGroups(gs: seq<seq<SpanNode>>)
    requires forall j :: 0 <= j < |gs| ==> gs[j] != []
    ensures Concat(gs) == [] ==> gs == []
  {
    if gs != [] {
      assert |Concat(gs)| >= |gs[0]| > 0;
    }
  }

  /** How the groups grow by the last span. */
  lemma GroupsLast(spans: seq<SpanNode>)
    requires |spans| > 1
    ensures var gs := Groups(spans[..|spans| - 1]);
      Groups(spans) ==
        if Joins(gs[|gs| - 1], spans[|spans| - 2], spans[|spans| - 1]) then gs[..|gs| - 1] + [gs[|gs| - 1] + [spans[|spans| - 1]]]
        else gs + [[spans[|spans| - 1]]]
  {
  }

  /** A last span that joins the last group extends it. */
  lemma GroupsLastJoins(spans: seq<SpanNode>, front: seq<seq<SpanNode>>, group: seq<SpanNode>)
    requires |spans| > 1 && Groups(spans[..|spans| - 1]) == front + [group]
    requires Joins(group, spans[|spans| - 2], spans[|spans| - 1])
    ensures Groups(spans) == front + [group + [spans[|spans| - 1]]]
  {
    GroupsLast(spans);
    var gs := front + [group];
    assert gs[|gs| - 1] == group && gs[..|gs| - 1] == front;
  }

  /** A last span that does not join the last group starts a new one. */
  lemma GroupsLastBreaks(spans: seq<SpanNode>, gs: seq<seq<SpanNode>>)
    requires |spans| > 1 && Groups(spans[..|spans| - 1]) == gs && gs != []
    requires !Joins(gs[|gs| - 1], spans[|spans| - 2], spans[|spans| - 1])
    ensures Groups(spans) == gs + [[spans[|spans| - 1]]]
  {
    GroupsLast(spans);
  }

  /** A last group of one span that breaks from the groups before it
      follows the grouping of the spans before it. */
  lemma GroupsUniqueNewGroup(spans: seq<SpanNode>, front: seq<seq<SpanNode>>, x: SpanNode)
    requires spans == Concat(front) + [x] && front == Groups(spans[..|spans| - 1])
    requires front != [] ==> Breaks(front[|front| - 1], [x])
    ensures front + [[x]] == Groups(spans)
  {
    if |spans| > 1 {
      LastOfConcat(front);
      assert spans[|spans| - 2] == Concat(front)[|Concat(front)| - 1];
      GroupsLastBreaks(spans, front);
    }
  }

  /** A last group of several spans extends the last group of the spans
      before its last one. */
  lemma GroupsUniqueExtend(spans: seq<SpanNode>, front: seq<seq<SpanNode>>, last: seq<SpanNode>)
    requires |last| > 1 && |spans| > 1
    requires spans[|spans| - 2] == last[|last| - 2] && spans[|spans| - 1] == last[|last| - 1]
    requires Joins(last[..|last| - 1], last[|last| - 2], last[|last| - 1])
    requires front + [last[..|last| - 1]] == Groups(spans[..|spans| - 1])
    ensures front + [last] == Groups(spans)
  {
    var shorter := last[..|last| - 1];
    GroupsLastJoins(spans, front, shorter);
    InitLast(last);
  }

  /** Dropping the last span of the last group drops the last span of the
      concatenation. */
  lemma ConcatDropLast(front: seq<seq<SpanNode>>, last: seq<SpanNode>)
    requires last != []
    ensures Concat(front + [last[..|last| - 1]]) == (Concat(front) + last)[..|Concat(front) + last| - 1]
  {
    ConcatAppend(front, last[..|last| - 1]);
    InitLast(last);
    assert Concat(front) + last == (Concat(front) + last[..|last| - 1]) + [last[|last| - 1]];
  }

  /** Grouping is determined: any well-formed split of the spans is theirs. */
  lemma {:induction false} GroupsUnique(spans: seq<SpanNode>, gs: seq<seq<SpanNode>>)
    requires WellGrouped(gs) && Concat(gs) == spans
    ensures gs == Groups(spans)
    decreases |spans|
  {
    assert forall j :: 0 <= j < |gs| ==> Chained(gs[j]);
    ConcatEmptyGroups(gs);
    if spans != [] {
      var n := |gs|;
      var front := gs[..n - 1];
      var last := gs[n - 1];
      WellGroupedInit(gs);
      InitLast(gs);
      ConcatAppend(front, last);
      var init := spans[..|spans| - 1];
      if |last| == 1 {
        assert last == [spans[|spans| - 1]];
        assert Concat(front) == init;
        GroupsUnique(init, front);
        GroupsUniqueNewGroup(spans, front, last[0]);
      } else {
        var shorter := last[..|last| - 1];
        ChainedInit(last);
        assert JoinsAt(last, |last| - 1);
        ConcatDropLast(front, last);
        assert spans[|spans| - 2] == last[|last| - 2] && spans[|spans| - 1] == last[|last| - 1];
        assert front != [] ==> shorter[0] == last[0];
        WellGroupedAppend(front, shorter);
        GroupsUnique(init, front + [shorter]);
        GroupsUniqueExtend(spans, front, last);
      }
    }
  }

  /** Both directions: `gs` is the grouping of `spans` exactly when it is a
      well-formed split of them. */
  lemma GroupsCharacterized(spans: seq<SpanNode>, gs: seq<seq<SpanNode>>)
    ensures gs == Groups(spans) <==> WellGrouped(gs) && Concat(gs) == spans
  {
    GroupsWellGrouped(spans);
    if WellGrouped(gs) && Concat(gs) == spans {
      GroupsUnique(spans, gs);
    }
  }

  // -------------------------------------------------------------- election

  /** The election keeps the group's spans: the elected one and the others
      are the group rearranged. */
  lemma ElectionPermutes(group: seq<SpanNode>)
    requires group != []
    ensures var e := ElectGroup(group).value;
      multiset([e.elected] + e.others) == multiset(group)
  {
    var sorted := InsertionSorted(group, ElectionAfter);
    InsertionSortedPermutes(group, ElectionAfter);
    assert sorted == [sorted[0]] + sorted[1..];
  }

  /** `p` covers every span of `s`, and no other span has `p`'s range. */
  ghost predicate Encloses(p: SpanNode, s: seq<SpanNode>)
  {
    forall q :: q in s ==> p.IsParentOf(q) && (q.IsParentOf(p) ==> q == p)
  }

  lemma {:induction false} EnclosingSpanSortsFirst(s: seq<SpanNode>, p: SpanNode)
    requires p in s && Encloses(p, s)
    ensures InsertionSorted(s, ElectionAfter)[0] == p
    decreases |s|
  {
    var init := s[..|s| - 1];
    var x := s[|s| - 1];
    assert s == init + [x];
    var sorted := InsertionSorted(init, ElectionAfter);
    if p in init {
      EnclosingSpanSortsFirst(init, p);
      assert !ElectionAfter(p, x);
      InsertKeepsFront(x, sorted, ElectionAfter);
    } else {
      InsertionSortedPermutes(init, ElectionAfter);
      forall y | y in sorted
        ensures ElectionAfter(y, p)
      {
        assert y in multiset(sorted);
        assert y in init;
      }
      InsertToFront(p, sorted, ElectionAfter);
    }
  }

  /** A span that covers all the others of its group is its head, whatever
      the priorities. */
  lemma ElectContainer(group: seq<SpanNode>, p: SpanNode)
    requires p in group && Encloses(p, group)
    ensures ElectGroup(group).value.elected == p
  {
    EnclosingSpanSortsFirst(group, p);
  }

  /** Of two spans neither of which covers the other, the one of lower
      priority value wins, and the shorter text on a tie, the first on a
      full tie. */
  lemma ElectPair(a: SpanNode, b: SpanNode)
    requires !a.IsParentOf(b) && !b.IsParentOf(a)
    ensures ElectGroup([a, b]).value.elected ==
      if Priority(b.kind) < Priority(a.kind) || (Priority(b.kind) == Priority(a.kind) && |b.text| < |a.text|)
      then b else a
  {
    assert [a, b][..1] == [a];
    assert InsertionSorted([a], ElectionAfter) == [a];
    assert InsertionSorted([a, b], ElectionAfter) == Insert(b, [a], ElectionAfter);
    if ElectionAfter(a, b) {
      assert Insert(b, [a], ElectionAfter) == [b, a];
    } else {
      assert Insert(b, [a], ElectionAfter) == [a, b];
    }
  }

  /** A link wins over crossing bold or italic text, in either order. */
  lemma HyperlinkBeatsEmphasis(a: SpanNode, b: SpanNode)
    requires a.kind == Strong || a.kind == Em
    requires b.kind == Hyperlink
    requires !a.IsParentOf(b) && !b.IsParentOf(a)
    ensures ElectGroup([a, b]).value.elected == b
    ensures ElectGroup([b, a]).value.elected == b
  {
    ElectPair(a, b);
    ElectPair(b, a);
  }

  /** The election comparator is not an order: three crossing spans can
      each beat the next, so the head of such a group depends on the sort
      algorithm and not only on the spans. */
  lemma ElectionCycle()
    ensures var x := SpanNode(0, 10, Span, "", [], FromText(Span, 0, 10, ""));
      var y := SpanNode(2, 4, Hyperlink, "", [], FromText(Hyperlink, 2, 4, ""));
      var z := SpanNode(3, 12, Label, "", [], FromText(Label, 3, 12, ""));
      && !ElectionAfter(x, y) && ElectionAfter(y, x)
      && !ElectionAfter(y, z) && ElectionAfter(z, y)
      && !ElectionAfter(z, x) && ElectionAfter(x, z)
  {
  }
}
