/**
  Which requests the commitment loses: the look-ahead asks only whether a path can be consumed, so the
  node it leads to may have no handler although another way through the tree ends at one that has.
 */
module LostRequests {
  import opened Options
  import opened Slices
  import opened Segments
  import opened RouteTrees
  import opened Resolver
  import opened Serving
  import opened Onion

  /** `trace` consumes the path and ends at a node with handlers. */
  ghost predicate WouldServe(t: RouteTree, ctx: Ctx, off: nat, trace: Trace)
    requires off <= |ctx.full|
  {
    Accepts(t, ctx, off, trace) && Walk(t, ctx, off, trace).value.0.hasHandler
  }

  /**
    A request that some trace would serve is lost exactly when no middleware on the way stops it and
    the node the router commits to has no handler; that node's trace then hides the other.
   */
  lemma LostIff(t: RouteTree, ctx: Ctx, req: Req, policy: Policy, other: Trace)
    requires var hop := Advance(t.segment, t.children == [], ctx, 0);
      hop.Some? && WouldServe(t, ctx, hop.value.next, other)
    ensures var hop := Advance(t.segment, t.children == [], ctx, 0).value;
      var trace := Search(t, ctx, hop.next);
      && trace.Some? && Walk(t, ctx, hop.next, trace.value).Some?
      && var node := Walk(t, ctx, hop.next, trace.value).value.0;
      && var stages := Stages(t, trace.value, ctx, hop.next, Bound(WithRootState(req, t), t.segment, hop.capture));
      && (Handle(t, ctx, req, policy).outcome == NotFound <==>
        FirstStop(stages, policy) == |stages| && !node.hasHandler)
      && (!node.hasHandler ==> Before(t, trace.value, other))
  {
    hide Advance, Search, Bound, Walk, Wrap, FirstStop, Bracket, Stages, WithState, Arrival, WithRootState, Descend,
      Own, Before, Middlewares;
    var hop := Advance(t.segment, t.children == [], ctx, 0).value;
    SearchIsLeast(t, ctx, hop.next, other);
    var trace := Search(t, ctx, hop.next).value;
    SearchAccepts(t, ctx, hop.next);
    var entry := Bound(WithRootState(req, t), t.segment, hop.capture);
    var (node, end) := Walk(t, ctx, hop.next, trace).value;
    var stages := Stages(t, trace, ctx, hop.next, entry);
    var answer := Terminal(node, ctx, end, Arrival(t, trace, ctx, hop.next, entry));
    assert Handle(t, ctx, req, policy) == EnterNode(t, trace, ctx, hop.next, entry, policy);
    EnterIsWrap(t, trace, ctx, hop.next, entry, policy);
    WrapIsBracket(stages, answer, policy);
    CoreIsBracketed(stages, answer, policy);
  }

  lemma CoreIsBracketed(stages: seq<Stage>, inner: Reply, policy: Policy)
    ensures var ms := Middlewares(stages)[..FirstStop(stages, policy)];
      Bracket(ms, Core(stages, inner, policy)).outcome ==
        if FirstStop(stages, policy) == |stages| then inner.outcome else Stopped(stages[FirstStop(stages, policy)].m)
  {
    hide FirstStop;
  }

  // ---------------------------------------------------------------- trees that lose nothing

  /** Every node has a handler. */
  predicate AllServe(t: RouteTree) {
    t.hasHandler && forall i | 0 <= i < |t.children| :: AllServe(t.children[i])
  }

  /**
    Nothing in `t` could take a request that child `i` can consume: no other child after it, and no handler of
    `t` itself.
   */
  predicate Unrivalled(t: RouteTree, i: nat)
    requires i < |t.children|
  {
    if t.children[i].segment.Static? then t.dynamicChildren == [] && !(t.segment.FullPath? && t.hasHandler)
    else !t.hasHandler && forall j | i < j < |t.children| :: t.children[j].segment.Static?
  }

  /** A child below which some node has no handler is one that hides nothing. */
  predicate HidesNothing(t: RouteTree) {
    forall i | 0 <= i < |t.children| :: AllServe(t.children[i]) || (Unrivalled(t, i) && HidesNothing(t.children[i]))
  }

  lemma {:induction false} AllServeBelow(t: RouteTree, ctx: Ctx, off: nat, trace: Trace)
    requires off <= |ctx.full| && AllServe(t) && Walk(t, ctx, off, trace).Some?
    ensures Walk(t, ctx, off, trace).value.0.hasHandler
    decreases |trace|
  {
    hide Try;
    if trace != [] {
      AllServeBelow(t.children[trace[0]], ctx, Try(t, trace[0], ctx, off).value.next, trace[1..]);
    }
  }

  /** Two static siblings never match at the same offset. */
  lemma OneStaticMatches(t: RouteTree, i: nat, j: nat, ctx: Ctx, off: nat)
    requires NodeIndexed(t) && off <= |ctx.full| && i < |t.children| && j < |t.children|
    requires t.children[i].segment.Static? && t.children[j].segment.Static?
    requires Try(t, i, ctx, off).Some? && Try(t, j, ctx, off).Some?
    ensures i == j && off < |ctx.full|
  {
    hide Try, Search, StripOneSegment, IndicesWhere;
    IndexedSegmentOnly(t, ctx, off);
    if off == |ctx.full| {
      assert ctx.From(off).text == "";
      EmptySegment(ctx.From(off), ctx.empty);
    }
  }

  lemma OnlyStatics(t: RouteTree)
    requires NodeIndexed(t) && t.dynamicChildren == []
    ensures forall i | 0 <= i < |t.children| :: t.children[i].segment.Static?
  {
    hide IndicesWhere;
    assert forall i | 0 <= i < |t.children| && !t.children[i].segment.Static? :: i in IndicesWhere(t.children, false);
  }

  /** Where the search enters an unrivalled child, every accepting trace to a handler does. */
  lemma UnrivalledTaken(t: RouteTree, ctx: Ctx, off: nat, trace: Trace, other: Trace)
    requires NodeIndexed(t) && off <= |ctx.full|
    requires trace != [] && Accepts(t, ctx, off, trace) && Unrivalled(t, trace[0])
    requires WouldServe(t, ctx, off, other) && (trace == other || Before(t, trace, other))
    ensures other != [] && other[0] == trace[0]
  {
    hide Try, IndicesWhere;
    var i := trace[0];
    if t.children[i].segment.Static? {
      OneStaticMatches(t, i, i, ctx, off);
      OnlyStatics(t);
      if other != [] {
        OneStaticMatches(t, i, other[0], ctx, off);
      }
    }
  }

  /** In such a tree whatever some trace would serve is served. */
  lemma {:induction false} CommitsToHandler(t: RouteTree, ctx: Ctx, off: nat, other: Trace)
    requires Indexed(t) && HidesNothing(t) && off <= |ctx.full| && WouldServe(t, ctx, off, other)
    ensures Search(t, ctx, off).Some?
    ensures var end := Walk(t, ctx, off, Search(t, ctx, off).value);
      end.Some? && end.value.0.hasHandler
    decreases t
  {
    hide Try, Search, NodeIndexed, Unrivalled, AllServe;
    SearchIsLeast(t, ctx, off, other);
    SearchAccepts(t, ctx, off);
    var trace := Search(t, ctx, off).value;
    if trace != [] {
      var child, next := t.children[trace[0]], Try(t, trace[0], ctx, off).value.next;
      if AllServe(child) {
        AllServeBelow(child, ctx, next, trace[1..]);
      } else {
        UnrivalledTaken(t, ctx, off, trace, other);
        CommitsToHandler(child, ctx, next, other[1..]);
        SearchDescends(t, ctx, off);
      }
    }
  }

  /** The search below the child it enters is the rest of its trace. */
  lemma SearchDescends(t: RouteTree, ctx: Ctx, off: nat)
    requires off <= |ctx.full| && Search(t, ctx, off).Some? && Search(t, ctx, off).value != []
    ensures var trace := Search(t, ctx, off).value;
      && trace[0] < |t.children| && Try(t, trace[0], ctx, off).Some?
      && Search(t.children[trace[0]], ctx, Try(t, trace[0], ctx, off).value.next) == Some(trace[1..])
  {
    hide Try, IndicesWhere, ScanOrder;
    var order := ScanOrder(t);
    var k := FirstAlive(t, order, ctx, off);
    FirstAliveIsFirst(t, order, ctx, off);
    SearchInAt(t, order, ctx, off, k);
    var trace := Search(t, ctx, off).value;
    if k < |order| {
      var deeper := Search(t.children[order[k]], ctx, Try(t, order[k], ctx, off).value.next).value;
      assert ([order[k]] + deeper)[1..] == deeper;
    }
  }

  /** It answers no request NotFound that some trace would serve. */
  lemma NothingIsLost(t: RouteTree, ctx: Ctx, req: Req, policy: Policy, other: Trace)
    requires Indexed(t) && HidesNothing(t)
    requires var hop := Advance(t.segment, t.children == [], ctx, 0);
      hop.Some? && WouldServe(t, ctx, hop.value.next, other)
    ensures Handle(t, ctx, req, policy).outcome != NotFound
  {
    hide Advance, Search, Bound, Walk, FirstStop, Stages, WithRootState, Before, Handle, NodeIndexed, HidesNothing,
      WouldServe;
    CommitsToHandler(t, ctx, Advance(t.segment, t.children == [], ctx, 0).value.next, other);
    LostIff(t, ctx, req, policy, other);
  }

  /** No parameter below the root. */
  predicate StaticTree(t: RouteTree) {
    !t.segment.FullPath? && t.dynamicChildren == [] && forall i | 0 <= i < |t.children| :: StaticTree(t.children[i])
  }

  /** Static trees are such trees, whichever of their nodes have handlers. */
  lemma {:induction false} StaticHidesNothing(t: RouteTree)
    requires Indexed(t) && StaticTree(t)
    ensures HidesNothing(t)
    decreases t
  {
    hide NodeIndexed, AllServe;
    OnlyStatics(t);
    forall i | 0 <= i < |t.children| ensures Unrivalled(t, i) && HidesNothing(t.children[i]) {
      StaticHidesNothing(t.children[i]);
    }
  }
}
