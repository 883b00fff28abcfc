/**
  The matcher as it runs: candidates come from the hash index on static segments and from the
  list of the other children, and `path_can_resolve` looks ahead through them.
 */
module Resolver {
  import opened Options
  import opened Slices
  import opened Segments
  import opened RouteTrees

  // ---------------------------------------------------------------- the index

  /**
    What compilation establishes at every node: the index holds each static child under its own
    segment, the list holds the others in order, and the frozen copy is the node itself.
   */
  predicate Indexed(t: RouteTree) {
    NodeIndexed(t) && forall i | 0 <= i < |t.children| :: Indexed(t.children[i])
  }

  predicate NodeIndexed(t: RouteTree) {
    && t.dynamicChildren == IndicesWhere(t.children, false)
    && (forall key | key in t.staticChildren ::
          t.staticChildren[key] < |t.children| && t.children[t.staticChildren[key]].segment == Static(key))
    && (forall i | 0 <= i < |t.children| && t.children[i].segment.Static? ::
          && var key := t.children[i].segment.value;
          key != "" && SLASH !in key && key in t.staticChildren && t.staticChildren[key] == i)
    && (t.hasHandler <==> t.handler != map[])
    && t.middlewareStart <= |t.middlewares|
    && (t.selfArc.Some? ==> t.selfArc.value == t.(selfArc := None))
  }

  /** Only the child whose key is the segment the index is asked for can match. */
  ghost predicate OnlyMatches(t: RouteTree, segment: string, ctx: Ctx, off: nat)
    requires off <= |ctx.full|
  {
    forall i | 0 <= i < |t.children| && t.children[i].segment.Static? ::
      Try(t, i, ctx, off).Some? ==> t.children[i].segment.value == segment
  }

  lemma IndexedSegmentOnly(t: RouteTree, ctx: Ctx, off: nat)
    requires NodeIndexed(t) && off <= |ctx.full|
    ensures OnlyMatches(t, StripOneSegment(ctx.From(off), ctx.empty).0.text, ctx, off)
  {
    hide StripOneSegment, IndicesWhere, Advance;
    forall i | 0 <= i < |t.children| && t.children[i].segment.Static?
      ensures Try(t, i, ctx, off).Some? ==>
        t.children[i].segment.value == StripOneSegment(ctx.From(off), ctx.empty).0.text
    {
      StaticStep(t.children[i].segment.value, t.children[i].children == [], ctx, off);
    }
  }

  lemma StaticChildDeadAtEnd(t: RouteTree, i: nat, ctx: Ctx)
    requires NodeIndexed(t) && i < |t.children| && t.children[i].segment.Static?
    ensures Dead(t, i, ctx, |ctx.full|)
  {
    hide StripOneSegment, IndicesWhere, Try, Search;
    IndexedSegmentOnly(t, ctx, |ctx.full|);
    assert ctx.From(|ctx.full|).text == "";
    EmptySegment(ctx.From(|ctx.full|), ctx.empty);
  }

  lemma {:induction false} SearchInSkipsDead(t: RouteTree, xs: seq<nat>, ys: seq<nat>, ctx: Ctx, off: nat)
    requires off <= |ctx.full| && Within(xs, |t.children|) && Within(ys, |t.children|)
    requires forall j | 0 <= j < |xs| :: Dead(t, xs[j], ctx, off)
    ensures SearchIn(t, xs + ys, ctx, off) == SearchIn(t, ys, ctx, off)
    decreases |xs|
  {
    hide Try, Search, IndicesWhere;
    if xs == [] {
      assert xs + ys == ys;
    } else {
      assert Dead(t, xs[0], ctx, off);
      assert (xs + ys)[1..] == xs[1..] + ys;
      SearchInSkipsDead(t, xs[1..], ys, ctx, off);
    }
  }

  /** If only one entry of `xs` can be alive, the others may be left out. */
  lemma {:induction false} SearchInOnlyOne(t: RouteTree, xs: seq<nat>, p: nat, ys: seq<nat>, ctx: Ctx, off: nat)
    requires off <= |ctx.full| && Within(xs, |t.children|) && Within(ys, |t.children|) && p < |xs|
    requires forall j | 0 <= j < |xs| && j != p :: Dead(t, xs[j], ctx, off)
    ensures SearchIn(t, xs + ys, ctx, off) == SearchIn(t, [xs[p]] + ys, ctx, off)
  {
    hide Try, Search, Dead, SearchIn;
    var one := [xs[p]];
    assert xs + ys == xs[..p] + (one + (xs[p + 1..] + ys));
    SearchInSkipsDead(t, xs[..p], one + (xs[p + 1..] + ys), ctx, off);
    SearchInSkipsDead(t, xs[p + 1..], ys, ctx, off);
    SearchInCons(t, xs[p], xs[p + 1..] + ys, ys, ctx, off);
  }

  lemma SearchInCons(t: RouteTree, i: nat, xs: seq<nat>, ys: seq<nat>, ctx: Ctx, off: nat)
    requires off <= |ctx.full| && i < |t.children| && Within(xs, |t.children|) && Within(ys, |t.children|)
    requires SearchIn(t, xs, ctx, off) == SearchIn(t, ys, ctx, off)
    ensures SearchIn(t, [i] + xs, ctx, off) == SearchIn(t, [i] + ys, ctx, off)
  {
    hide Try, Search;
    assert ([i] + xs)[1..] == xs && ([i] + ys)[1..] == ys;
  }

  /**
    At the end of the path the router tries every indexed child in hash order; elsewhere it asks
    the index for the one whose key is the next segment. Both agree with the scan.
   */
  lemma IndexAgreesAtEnd(t: RouteTree, statics: seq<nat>, ctx: Ctx)
    requires NodeIndexed(t) && Within(statics, |t.children|)
    requires forall j | 0 <= j < |statics| :: t.children[statics[j]].segment.Static?
    ensures SearchIn(t, statics + t.dynamicChildren, ctx, |ctx.full|) == SearchIn(t, ScanOrder(t), ctx, |ctx.full|)
  {
    hide Try, Search, SearchIn;
    var all := IndicesWhere(t.children, true);
    forall j | 0 <= j < |statics| ensures Dead(t, statics[j], ctx, |ctx.full|) {
      StaticChildDeadAtEnd(t, statics[j], ctx);
    }
    forall j | 0 <= j < |all| ensures Dead(t, all[j], ctx, |ctx.full|) {
      StaticChildDeadAtEnd(t, all[j], ctx);
    }
    SearchInSkipsDead(t, statics, t.dynamicChildren, ctx, |ctx.full|);
    SearchInSkipsDead(t, all, t.dynamicChildren, ctx, |ctx.full|);
  }

  /** The child the index holds under a segment, if any. */
  function Hit(t: RouteTree, segment: string): seq<nat> {
    if segment in t.staticChildren then [t.staticChildren[segment]] else []
  }

  lemma IndexAgreesInside(t: RouteTree, segment: string, ctx: Ctx, off: nat)
    requires NodeIndexed(t) && off <= |ctx.full| && OnlyMatches(t, segment, ctx, off)
    ensures SearchIn(t, Hit(t, segment) + t.dynamicChildren, ctx, off) == SearchIn(t, ScanOrder(t), ctx, off)
  {
    hide Try, Search, SearchIn;
    forall j, k | 0 <= j < k < |IndicesWhere(t.children, true)|
      ensures IndicesWhere(t.children, true)[j] != IndicesWhere(t.children, true)[k]
    {
      IndicesAscend(t.children, true, j, k);
    }
    HitAgrees(t, IndicesWhere(t.children, true), segment, ctx, off);
  }

  /** Of any list of all static children, only the one the index names can be alive. */
  lemma HitAgrees(t: RouteTree, statics: seq<nat>, segment: string, ctx: Ctx, off: nat)
    requires NodeIndexed(t) && off <= |ctx.full| && OnlyMatches(t, segment, ctx, off) && Within(statics, |t.children|)
    requires forall j | 0 <= j < |statics| :: t.children[statics[j]].segment.Static?
    requires forall i | 0 <= i < |t.children| && t.children[i].segment.Static? :: i in statics
    requires forall j, k | 0 <= j < k < |statics| :: statics[j] != statics[k]
    ensures SearchIn(t, Hit(t, segment) + t.dynamicChildren, ctx, off) ==
      SearchIn(t, statics + t.dynamicChildren, ctx, off)
  {
    hide Try, Search, SearchIn, IndicesWhere;
    if segment in t.staticChildren {
      assert t.staticChildren[segment] in statics;
      var p :| 0 <= p < |statics| && statics[p] == t.staticChildren[segment];
      forall j | 0 <= j < |statics| && j != p ensures Dead(t, statics[j], ctx, off) {
        assert t.children[statics[j]].segment.value != segment;
      }
      SearchInOnlyOne(t, statics, p, t.dynamicChildren, ctx, off);
    } else {
      SearchInSkipsDead(t, statics, t.dynamicChildren, ctx, off);
      assert [] + t.dynamicChildren == t.dynamicChildren;
    }
  }

  // ---------------------------------------------------------------- the loops

  /** The values of the index, in an arbitrary order. */
  method IndexedValues(t: RouteTree) returns (values: seq<nat>)
    requires NodeIndexed(t)
    ensures Within(values, |t.children|)
    ensures forall j | 0 <= j < |values| :: t.children[values[j]].segment.Static?
  {
    hide IndicesWhere;
    values := [];
    var keys := t.staticChildren.Keys;
    while keys != {}
      invariant keys <= t.staticChildren.Keys
      invariant Within(values, |t.children|)
      invariant forall j | 0 <= j < |values| :: t.children[values[j]].segment.Static?
    {
      var key :| key in keys;
      values := values + [t.staticChildren[key]];
      keys := keys - {key};
    }
  }

  lemma IndexBounds(t: RouteTree)
    requires NodeIndexed(t)
    ensures Within(t.dynamicChildren, |t.children|)
    ensures forall key | key in t.staticChildren :: t.staticChildren[key] < |t.children|
  {
    hide IndicesWhere;
  }

  /** The child indexed under the next segment and the others are all the candidates there are. */
  lemma HitSuffices(t: RouteTree, ctx: Ctx, off: nat)
    requires NodeIndexed(t) && off <= |ctx.full|
    ensures var hit := Hit(t, StripOneSegment(ctx.From(off), ctx.empty).0.text);
      && Within(hit, |t.children|) && Within(t.dynamicChildren, |t.children|)
      && Within(hit + t.dynamicChildren, |t.children|)
      && SearchIn(t, hit + t.dynamicChildren, ctx, off) == SearchIn(t, ScanOrder(t), ctx, off)
  {
    hide StripOneSegment, CutsTail, CutAs, StripLeadingSlash, Try, Search, SearchIn, IndicesWhere, ScanOrder,
      OnlyMatches;
    IndexedSegmentOnly(t, ctx, off);
    IndexAgreesInside(t, StripOneSegment(ctx.From(off), ctx.empty).0.text, ctx, off);
  }

  /** The candidates of one step. */
  method CandidateIndices(t: RouteTree, ctx: Ctx, off: nat) returns (candidates: seq<nat>)
    requires NodeIndexed(t) && off <= |ctx.full|
    ensures Within(candidates, |t.children|)
    ensures SearchIn(t, candidates, ctx, off) == SearchIn(t, ScanOrder(t), ctx, off)
  {
    hide StripOneSegment, CutsTail, CutAs, StripLeadingSlash, Try, Search, SearchIn, IndicesWhere, ScanOrder,
      OnlyMatches, NodeIndexed;
    IndexBounds(t);
    candidates := [];
    if off == |ctx.full| {
      candidates := IndexedValues(t);
      IndexAgreesAtEnd(t, candidates, ctx);
    } else {
      var (segment, _) := StripOneSegment(ctx.From(off), ctx.empty);
      if segment.text in t.staticChildren {
        candidates := [t.staticChildren[segment.text]];
      }
      HitSuffices(t, ctx, off);
    }
    candidates := candidates + t.dynamicChildren;
  }

  method PathCanResolve(t: RouteTree, ctx: Ctx, off: nat) returns (resolves: bool)
    requires Indexed(t) && off <= |ctx.full|
    ensures resolves <==> Search(t, ctx, off).Some?
    decreases t
  {
    hide Try, Search, Dead, SearchIn, IndicesWhere;
    var candidates := CandidateIndices(t, ctx, off);
    var k := 0;
    while k < |candidates|
      invariant k <= |candidates|
      invariant forall j | 0 <= j < k :: Dead(t, candidates[j], ctx, off)
    {
      var child := t.children[candidates[k]];
      var candidate := Try(t, candidates[k], ctx, off);
      if candidate.Some? {
        var deeper := PathCanResolve(child, ctx, candidate.value.next);
        if deeper {
          ResolvesThrough(t, candidates, ctx, off, k);
          return true;
        }
      }
      DeadOr(t, candidates[k], ctx, off);
      k := k + 1;
    }
    ResolvesThrough(t, candidates, ctx, off, k);
    return Stops(t, ctx, off);
  }

  lemma DeadOr(t: RouteTree, i: nat, ctx: Ctx, off: nat)
    requires i < |t.children| && off <= |ctx.full|
    ensures Dead(t, i, ctx, off) <==>
      Try(t, i, ctx, off).None? || Search(t.children[i], ctx, Try(t, i, ctx, off).value.next).None?
  {
  }

  /** Committing to the first live candidate is what the search would have chosen. */
  lemma ResolvesThrough(t: RouteTree, candidates: seq<nat>, ctx: Ctx, off: nat, k: nat)
    requires off <= |ctx.full| && Within(candidates, |t.children|)
    requires SearchIn(t, candidates, ctx, off) == SearchIn(t, ScanOrder(t), ctx, off)
    requires k <= |candidates| && forall j | 0 <= j < k :: Dead(t, candidates[j], ctx, off)
    requires k < |candidates| ==>
      var hop := Try(t, candidates[k], ctx, off);
      hop.Some? && Search(t.children[candidates[k]], ctx, hop.value.next).Some?
    ensures Search(t, ctx, off) ==
      if k < |candidates| then
        Some([candidates[k]] + Search(t.children[candidates[k]], ctx, Try(t, candidates[k], ctx, off).value.next).value)
      else if Stops(t, ctx, off) then Some([])
      else None
  {
    hide Try, SearchIn, IndicesWhere, ScanOrder;
    SearchInAt(t, candidates, ctx, off, k);
  }
}
