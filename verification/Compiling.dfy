/**
  Compilation of a built route into the indexed tree: segments are parsed, every node stores the
  whole middleware chain down to itself, and the children are indexed.
 */
module Compiling {
  import opened Options
  import opened Http
  import opened Routes
  import opened RouteTrees
  import opened Segments
  import opened BuiltRoutes
  import opened Serving
  import Slices
  import Freezing
  import Onion
  import Resolver

  /** The index after inserting the static children in order. */
  function StaticIndex(children: seq<RouteTree>): map<string, nat> {
    if children == [] then map[]
    else
      var last := |children| - 1;
      var rest := StaticIndex(children[..last]);
      if children[last].segment.Static? then rest[children[last].segment.value := last] else rest
  }

  function Node(r: Route, inherited: seq<Middleware>, children: seq<RouteTree>): RouteTree {
    RouteTree(children, r.handler, inherited + r.middlewares, StaticIndex(children), IndicesWhere(children, false),
              |inherited|, r.state, ParseSegment(r.path), r.handler != map[], None)
  }

  /** `into_route_tree_with_chain`. */
  function Compile(r: Route, inherited: seq<Middleware>): RouteTree {
    Node(r, inherited, CompileAll(r.children, inherited + r.middlewares))
  }

  function CompileAll(rs: seq<Route>, inherited: seq<Middleware>): seq<RouteTree> {
    seq(|rs|, i requires 0 <= i < |rs| => Compile(rs[i], inherited))
  }

  lemma CompiledParts(r: Route, inherited: seq<Middleware>)
    ensures var t := Compile(r, inherited);
      && t.middlewares == inherited + r.middlewares && t.middlewareStart == |inherited| && t.selfArc.None?
      && |t.children| == |r.children|
      && forall i | 0 <= i < |r.children| :: t.children[i] == Compile(r.children[i], t.middlewares)
  {
    hide StaticIndex, IndicesWhere, ParseSegment;
  }

  // ---------------------------------------------------------------- the loops

  method IndexChildren(children: seq<RouteTree>) returns (statics: map<string, nat>, others: seq<nat>)
    ensures statics == StaticIndex(children) && others == IndicesWhere(children, false)
  {
    statics, others := map[], [];
    for idx := 0 to |children|
      invariant statics == StaticIndex(children[..idx]) && others == IndicesWhere(children[..idx], false)
    {
      assert children[..idx + 1][..idx] == children[..idx];
      if children[idx].segment.Static? {
        statics := statics[children[idx].segment.value := idx];
      } else {
        others := others + [idx];
      }
    }
    assert children[..|children|] == children;
  }

  method IntoRouteTree(r: Route, inherited: seq<Middleware>) returns (t: RouteTree)
    ensures t == Compile(r, inherited)
    decreases r
  {
    hide StaticIndex, IndicesWhere, ParseSegment;
    var current := inherited;
    if r.middlewares != [] {
      current := current + r.middlewares;
    }
    assert current == inherited + r.middlewares;
    var children := [];
    for i := 0 to |r.children|
      invariant children == CompileAll(r.children[..i], current)
    {
      assert r.children[..i + 1][..i] == r.children[..i];
      var child := IntoRouteTree(r.children[i], current);
      children := children + [child];
    }
    assert r.children[..|r.children|] == r.children;
    var statics, others := IndexChildren(children);
    t := RouteTree(children, r.handler, current, statics, others, |inherited|, r.state, ParseSegment(r.path),
                   r.handler != map[], None);
  }

  /** `convert_to_route_tree`. */
  method ConvertToRouteTree(r: Route) returns (t: RouteTree)
    ensures t == Freezing.Freeze(Compile(r, []))
  {
    t := IntoRouteTree(r, []);
    t := Freezing.Freeze(t);
  }

  // ---------------------------------------------------------------- the index

  /** No two static children share a key. */
  predicate StaticsDistinct(children: seq<RouteTree>) {
    forall i, j | 0 <= i < j < |children| && children[i].segment.Static? && children[j].segment.Static? ::
      children[i].segment.value != children[j].segment.value
  }

  lemma {:induction false} StaticIndexIsExact(children: seq<RouteTree>)
    requires StaticsDistinct(children)
    ensures forall key | key in StaticIndex(children) ::
      StaticIndex(children)[key] < |children| && children[StaticIndex(children)[key]].segment == Static(key)
    ensures forall i | 0 <= i < |children| && children[i].segment.Static? ::
      children[i].segment.value in StaticIndex(children) && StaticIndex(children)[children[i].segment.value] == i
    decreases |children|
  {
    if children != [] {
      var last := |children| - 1;
      StaticIndexIsExact(children[..last]);
      assert forall i | 0 <= i < last :: children[..last][i] == children[i];
    }
  }

  /** Siblings with distinct keys compile to static children with distinct segments. */
  lemma SiblingsCompileDistinct(rs: seq<Route>, inherited: seq<Middleware>)
    requires Distinct(rs) && EverywhereIn(rs, CleanNode)
    ensures StaticsDistinct(CompileAll(rs, inherited))
    ensures forall i | 0 <= i < |rs| && ParseSegment(rs[i].path).Static? ::
      rs[i].path != "" && Slices.SLASH !in rs[i].path && ParseSegment(rs[i].path).value == rs[i].path
  {
    hide Compile, SpecialSegment;
    var ts := CompileAll(rs, inherited);
    assert forall i | 0 <= i < |rs| :: ts[i].segment == ParseSegment(rs[i].path) by {
      forall i | 0 <= i < |rs| ensures ts[i].segment == ParseSegment(rs[i].path) {
        CompiledSegment(rs[i], inherited);
      }
    }
    forall i, j | 0 <= i < j < |ts| && ts[i].segment.Static? && ts[j].segment.Static?
      ensures ts[i].segment.value != ts[j].segment.value
    {
      assert CleanNode(Head(rs[i])) && CleanNode(Head(rs[j]));
      assert !SameKey(rs[i], rs[j]);
    }
    forall i | 0 <= i < |rs| && ParseSegment(rs[i].path).Static? ensures Slices.SLASH !in rs[i].path {
      assert CleanNode(Head(rs[i]));
    }
  }

  lemma CompiledSegment(r: Route, inherited: seq<Middleware>)
    ensures Compile(r, inherited).segment == ParseSegment(r.path)
  {
  }

  /** Every compiled route is correctly indexed, at every depth. */
  lemma {:induction false} CompileIsIndexed(r: Route, inherited: seq<Middleware>)
    requires Built(r)
    ensures Resolver.Indexed(Compile(r, inherited))
    decreases r
  {
    hide ParseSegment, IndicesWhere, StaticIndex, CleanNode;
    var current := inherited + r.middlewares;
    var ts := CompileAll(r.children, current);
    forall i | 0 <= i < |ts| ensures Resolver.Indexed(ts[i]) {
      ChildBuilt(r, i);
      CompileIsIndexed(r.children[i], current);
    }
    SiblingsCompileDistinct(r.children, current);
    StaticIndexIsExact(ts);
    assert forall i | 0 <= i < |ts| :: ts[i].segment == ParseSegment(r.children[i].path);
    assert Resolver.NodeIndexed(Compile(r, inherited));
  }

  /** Static children and the others partition the children, and no insertion overwrote another. */
  lemma IndexPartitionsChildren(t: RouteTree, i: nat)
    requires Resolver.NodeIndexed(t) && i < |t.children|
    ensures (i in t.staticChildren.Values) != (i in t.dynamicChildren)
    ensures forall k, l | k in t.staticChildren && l in t.staticChildren && k != l ::
      t.staticChildren[k] != t.staticChildren[l]
  {
    hide IndicesWhere;
    if t.children[i].segment.Static? {
      var key := t.children[i].segment.value;
      assert t.staticChildren[key] in t.staticChildren.Values;
    }
  }

  /** Replacing the children by ones with the same segments leaves the index right. */
  lemma SameSegmentsSameIndex(t: RouteTree, children: seq<RouteTree>)
    requires Resolver.NodeIndexed(t) && |children| == |t.children|
    requires forall i | 0 <= i < |children| :: children[i].segment == t.children[i].segment
    ensures Resolver.NodeIndexed(t.(children := children, selfArc := None))
  {
    hide IndicesWhere;
    Freezing.EraseIndices(t.children, children, false);
  }

  /** Freezing keeps the index, and makes every shared copy agree with its node. */
  lemma {:induction false} FreezeIsIndexed(t: RouteTree)
    requires Resolver.Indexed(t)
    ensures Resolver.Indexed(Freezing.Freeze(t))
    decreases t
  {
    hide IndicesWhere, Resolver.NodeIndexed;
    var frozen := Freezing.Freeze(t);
    forall i | 0 <= i < |t.children|
      ensures Resolver.Indexed(frozen.children[i]) && frozen.children[i].segment == t.children[i].segment
    {
      FreezeIsIndexed(t.children[i]);
    }
    SameSegmentsSameIndex(t, frozen.children);
    CopyAgrees(frozen.(selfArc := None));
  }

  lemma CopyAgrees(t: RouteTree)
    requires Resolver.NodeIndexed(t)
    ensures Resolver.NodeIndexed(t.(selfArc := Some(t.(selfArc := None))))
  {
    hide IndicesWhere;
  }

  // ---------------------------------------------------------------- the chain

  /** Each node stores the chain of its parent followed by its own middlewares. */
  lemma {:induction false} CompileInherits(r: Route, inherited: seq<Middleware>)
    ensures Onion.Inherits(Compile(r, inherited))
    ensures Compile(r, inherited).middlewareStart == |inherited|
    ensures Compile(r, inherited).middlewares == inherited + r.middlewares
    decreases r
  {
    hide Compile;
    CompiledParts(r, inherited);
    var t := Compile(r, inherited);
    forall i | 0 <= i < |t.children|
      ensures t.children[i].middlewareStart == |t.middlewares| && t.middlewares <= t.children[i].middlewares
      ensures Onion.Inherits(t.children[i])
    {
      CompileInherits(r.children[i], t.middlewares);
    }
  }

  lemma {:induction false} CompileIsUnfrozen(r: Route, inherited: seq<Middleware>)
    ensures Freezing.Unfrozen(Compile(r, inherited))
    decreases r
  {
    hide Compile;
    CompiledParts(r, inherited);
    var t := Compile(r, inherited);
    forall i | 0 <= i < |t.children| ensures Freezing.Unfrozen(t.children[i]) {
      CompileIsUnfrozen(r.children[i], t.middlewares);
    }
  }

  /** The compiled node that a list of child indices leads to. */
  function NodeBy(t: RouteTree, trace: Trace): Option<RouteTree>
    decreases |trace|
  {
    if trace == [] then Some(t)
    else if trace[0] < |t.children| then NodeBy(t.children[trace[0]], trace[1..]) else None
  }

  /** The middlewares of all routes on the way, outermost first. */
  function ChainBy(r: Route, trace: Trace): seq<Middleware>
    decreases |trace|
  {
    r.middlewares +
    if trace == [] || trace[0] >= |r.children| then [] else ChainBy(r.children[trace[0]], trace[1..])
  }

  /** Each node keeps its route's handlers and state, and stores the chain of all its ancestors before its own. */
  lemma {:induction false} CompiledNode(r: Route, inherited: seq<Middleware>, trace: Trace)
    ensures NodeBy(Compile(r, inherited), trace).Some? <==> RouteBy(r, trace).Some?
    ensures RouteBy(r, trace).Some? ==>
      var node, route := NodeBy(Compile(r, inherited), trace).value, RouteBy(r, trace).value;
      && node.middlewares == inherited + ChainBy(r, trace)
      && node.middlewareStart + |route.middlewares| == |node.middlewares|
      && node.handler == route.handler && node.state == route.state && node.segment == ParseSegment(route.path)
      && (node.hasHandler <==> route.handler != map[])
    decreases |trace|
  {
    hide ParseSegment, IndicesWhere, StaticIndex;
    CompiledParts(r, inherited);
    if trace != [] && trace[0] < |r.children| {
      CompiledNode(r.children[trace[0]], inherited + r.middlewares, trace[1..]);
    }
  }

  /** The node a walk ends at is the one its trace leads to. */
  lemma {:induction false} WalkEndsAtNode(t: RouteTree, ctx: Ctx, off: nat, trace: Trace)
    requires off <= |ctx.full| && Walk(t, ctx, off, trace).Some?
    ensures NodeBy(t, trace) == Some(Walk(t, ctx, off, trace).value.0)
    decreases |trace|
  {
    hide Try;
    if trace != [] {
      WalkEndsAtNode(t.children[trace[0]], ctx, Try(t, trace[0], ctx, off).value.next, trace[1..]);
    }
  }

  /** Without its shared copies a frozen compiled tree is the compiled tree. */
  lemma FrozenCompileErases(r: Route)
    ensures Freezing.Erase(Freezing.Freeze(Compile(r, []))) == Compile(r, [])
  {
    hide Compile;
    Freezing.FreezeErases(Compile(r, []));
    CompileIsUnfrozen(r, []);
    Freezing.EraseUnfrozen(Compile(r, []));
  }

  // ---------------------------------------------------------------- the onion of a route

  /**
    A request that resolves in a dispatched route runs the middlewares of all routes along its trace,
    outermost first, as one bracket around the handlers of the last of them; the first middleware that
    answers by itself cuts the bracket.
   */
  lemma RouteOnion(r: Route, ctx: Ctx, req: Req, policy: Policy)
    requires var t := Compile(r, []);
      var hop := Advance(t.segment, t.children == [], ctx, 0);
      hop.Some? && Search(t, ctx, hop.value.next).Some?
    ensures var t := Compile(r, []);
      var hop := Advance(t.segment, t.children == [], ctx, 0).value;
      var trace := Search(t, ctx, hop.next).value;
      Walk(t, ctx, hop.next, trace).Some? && RouteBy(r, trace).Some? &&
      var handler, ms := RouteBy(r, trace).value.handler, ChainBy(r, trace);
      var entry := Bound(WithRootState(req, t), t.segment, hop.capture);
      var stages := Onion.Stages(t, trace, ctx, hop.next, entry);
      var j := Onion.FirstStop(stages, policy);
      var arrival := Onion.Arrival(t, trace, ctx, hop.next, entry);
      var answer := if handler != map[] then HandlerCall(handler, arrival) else Reply(NotFound, []);
      && Onion.Middlewares(stages) == ms
      && Handle(Freezing.Freeze(t), ctx, req, policy) ==
         if j == |ms| then Onion.Bracket(ms, answer)
         else Onion.Bracket(ms[..j], Reply(Stopped(ms[j]), [Pre(ms[j]), Short(ms[j])]))
  {
    hide Compile, Advance, Search, Walk, Handle, Bound, HandlerCall, Freezing.Freeze, Onion.Stages, Onion.Arrival,
      Onion.FirstStop, Onion.Bracket, Onion.Inherits, Onion.Middlewares, RouteBy, ChainBy, NodeBy, WithRootState,
      Stops, Terminal, Accepts;
    var t := Compile(r, []);
    var hop := Advance(t.segment, t.children == [], ctx, 0).value;
    var trace := Search(t, ctx, hop.next).value;
    CompileInherits(r, []);
    Onion.OnionTheorem(t, ctx, req, policy);
    SearchAccepts(t, ctx, hop.next);
    WalkEndsAtNode(t, ctx, hop.next, trace);
    CompiledNode(r, [], trace);
    var entry := Bound(WithRootState(req, t), t.segment, hop.capture);
    AcceptedAnswers(t, ctx, hop.next, trace, Onion.Arrival(t, trace, ctx, hop.next, entry));
    FreezeServe(t, ctx, req, policy);
  }

  /** The node an accepting trace ends at answers if it has a handler. */
  lemma AcceptedAnswers(t: RouteTree, ctx: Ctx, off: nat, trace: Trace, req: Req)
    requires off <= |ctx.full| && Accepts(t, ctx, off, trace)
    ensures Walk(t, ctx, off, trace).Some?
    ensures var (node, end) := Walk(t, ctx, off, trace).value;
      Terminal(node, ctx, end, req) == if node.hasHandler then HandlerCall(node.handler, req) else Reply(NotFound, [])
  {
    hide Walk, HandlerCall;
  }

  /**
    One that does not resolve runs the route's own middlewares around NotFound, or nothing if the route
    itself does not match.
   */
  lemma UnresolvedRoute(r: Route, ctx: Ctx, req: Req, policy: Policy)
    requires var t := Compile(r, []);
      var hop := Advance(t.segment, t.children == [], ctx, 0);
      hop.Some? ==> Search(t, ctx, hop.value.next).None?
    ensures var t, ms := Compile(r, []), r.middlewares;
      var hop := Advance(t.segment, t.children == [], ctx, 0);
      Handle(Freezing.Freeze(t), ctx, req, policy) ==
        if hop.None? then Reply(NotFound, [])
        else
          var stages := Onion.Staged(ms, WithState(Bound(WithRootState(req, t), t.segment, hop.value.capture), t));
          var j := Onion.FirstStop(stages, policy);
          if j == |ms| then Onion.Bracket(ms, Reply(NotFound, []))
          else Onion.Bracket(ms[..j], Reply(Stopped(ms[j]), [Pre(ms[j]), Short(ms[j])]))
  {
    hide Compile, Advance, Search, Bound, Freezing.Freeze, Onion.FirstStop, Onion.Bracket, Onion.Inherits,
      WithRootState, ServeNode, WithState;
    var t := Compile(r, []);
    FreezeServe(t, ctx, req, policy);
    CompileInherits(r, []);
    assert [] + r.middlewares == r.middlewares;
    if Advance(t.segment, t.children == [], ctx, 0).Some? {
      Onion.UnresolvedRunsRootOnly(t, ctx, req, policy);
    }
  }
}
