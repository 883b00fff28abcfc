/**
  The onion theorem: serving along a trace is one bracket of pre- and post-events around the
  terminal node, over exactly the middlewares stored there; and what the handler sees is decided
  by that trace alone.
 */
module Onion {
  import opened Options
  import opened Segments
  import opened Http
  import opened States
  import opened RouteTrees
  import opened Serving

  /** A middleware of the chain with the request as it stands when that middleware runs. */
  datatype Stage = Stage(m: Middleware, seen: Req)

  function Staged(ms: seq<Middleware>, req: Req): seq<Stage> {
    seq(|ms|, i requires 0 <= i < |ms| => Stage(ms[i], req))
  }

  function Middlewares(stages: seq<Stage>): seq<Middleware> {
    seq(|stages|, i requires 0 <= i < |stages| => stages[i].m)
  }

  function Wrap(stages: seq<Stage>, inner: Reply, policy: Policy): Reply {
    if stages == [] then inner
    else
      var m := stages[0].m;
      if policy(m, stages[0].seen) then Reply(Stopped(m), [Pre(m), Short(m)])
      else
        var rest := Wrap(stages[1..], inner, policy);
        Reply(rest.outcome, [Pre(m)] + rest.events + [Post(m)])
  }

  // ---------------------------------------------------------------- one node at a time, or all at once

  lemma {:induction false} NestIsWrap(ms: seq<Middleware>, req: Req, inner: Reply, policy: Policy)
    ensures Nest(ms, req, inner, policy) == Wrap(Staged(ms, req), inner, policy)
  {
    if ms != [] {
      assert Staged(ms, req)[1..] == Staged(ms[1..], req);
      NestIsWrap(ms[1..], req, inner, policy);
    }
  }

  lemma {:induction false} WrapAppend(a: seq<Stage>, b: seq<Stage>, inner: Reply, policy: Policy)
    ensures Wrap(a + b, inner, policy) == Wrap(a, Wrap(b, inner, policy), policy)
  {
    if a == [] {
      assert a + b == b;
    } else {
      assert (a + b)[1..] == a[1..] + b;
      WrapAppend(a[1..], b, inner, policy);
    }
  }

  /** The middleware chain along a trace, each link with the request it sees. */
  function Stages(t: RouteTree, trace: Trace, ctx: Ctx, off: nat, req: Req): seq<Stage>
    requires off <= |ctx.full| && Walk(t, ctx, off, trace).Some?
    decreases |trace|
  {
    var here := WithState(req, t);
    Staged(Own(t), here) +
    if trace == [] then []
    else
      var child, hop := t.children[trace[0]], Try(t, trace[0], ctx, off).value;
      Stages(child, trace[1..], ctx, hop.next, Bound(here, child.segment, hop.capture))
  }

  /** The request as it reaches the end of a trace. */
  function Arrival(t: RouteTree, trace: Trace, ctx: Ctx, off: nat, req: Req): Req
    requires off <= |ctx.full| && Walk(t, ctx, off, trace).Some?
    decreases |trace|
  {
    var here := WithState(req, t);
    if trace == [] then here
    else
      var child, hop := t.children[trace[0]], Try(t, trace[0], ctx, off).value;
      Arrival(child, trace[1..], ctx, hop.next, Bound(here, child.segment, hop.capture))
  }

  lemma {:induction false} EnterIsWrap(t: RouteTree, trace: Trace, ctx: Ctx, off: nat, req: Req, policy: Policy)
    requires off <= |ctx.full| && Walk(t, ctx, off, trace).Some?
    ensures var (node, end) := Walk(t, ctx, off, trace).value;
      EnterNode(t, trace, ctx, off, req, policy) ==
      Wrap(Stages(t, trace, ctx, off, req), Terminal(node, ctx, end, Arrival(t, trace, ctx, off, req)), policy)
    decreases |trace|
  {
    hide Try, Bound, Own, Nest, Terminal, WithState, Wrap;
    var here := WithState(req, t);
    var inner := Descend(t, trace, ctx, off, here, policy);
    NestIsWrap(Own(t), here, inner, policy);
    if trace == [] {
      assert Stages(t, trace, ctx, off, req) == Staged(Own(t), here);
    } else {
      var child, hop := t.children[trace[0]], Try(t, trace[0], ctx, off).value;
      var bound := Bound(here, child.segment, hop.capture);
      var (node, end) := Walk(t, ctx, off, trace).value;
      EnterIsWrap(child, trace[1..], ctx, hop.next, bound, policy);
      WrapAppend(Staged(Own(t), here), Stages(child, trace[1..], ctx, hop.next, bound),
                 Terminal(node, ctx, end, Arrival(t, trace, ctx, off, req)), policy);
    }
  }

  // ---------------------------------------------------------------- the log in closed form

  function Pres(ms: seq<Middleware>): seq<Event> {
    seq(|ms|, i requires 0 <= i < |ms| => Pre(ms[i]))
  }

  function PostsReversed(ms: seq<Middleware>): seq<Event> {
    seq(|ms|, i requires 0 <= i < |ms| => Post(ms[|ms| - 1 - i]))
  }

  /** The first stage whose middleware answers by itself, or the number of stages. */
  function FirstStop(stages: seq<Stage>, policy: Policy): (j: nat)
    ensures j <= |stages|
    ensures forall i | 0 <= i < j :: !policy(stages[i].m, stages[i].seen)
    ensures j < |stages| ==> policy(stages[j].m, stages[j].seen)
  {
    if stages == [] || policy(stages[0].m, stages[0].seen) then 0 else 1 + FirstStop(stages[1..], policy)
  }

  /** Pre-events of `ms` inward, the core, and the post-events outward in exact reverse. */
  function Bracket(ms: seq<Middleware>, core: Reply): Reply {
    Reply(core.outcome, Pres(ms) + core.events + PostsReversed(ms))
  }

  lemma BracketUnfolds(ms: seq<Middleware>, core: Reply)
    ensures ms == [] ==> Bracket(ms, core) == core
    ensures ms != [] ==>
      var rest := Bracket(ms[1..], core);
      Bracket(ms, core) == Reply(rest.outcome, [Pre(ms[0])] + rest.events + [Post(ms[0])])
  {
    if ms != [] {
      assert Pres(ms) == [Pre(ms[0])] + Pres(ms[1..]);
      assert PostsReversed(ms) == PostsReversed(ms[1..]) + [Post(ms[0])];
    }
  }

  /** The inside of the bracket: the terminal answer, or the first middleware that stops. */
  function Core(stages: seq<Stage>, inner: Reply, policy: Policy): Reply {
    var j := FirstStop(stages, policy);
    if j == |stages| then inner else Reply(Stopped(stages[j].m), [Pre(stages[j].m), Short(stages[j].m)])
  }

  /** The log is one bracket; a short circuit cuts it where it happens. */
  lemma {:induction false} WrapIsBracket(stages: seq<Stage>, inner: Reply, policy: Policy)
    ensures Wrap(stages, inner, policy) ==
      Bracket(Middlewares(stages)[..FirstStop(stages, policy)], Core(stages, inner, policy))
    decreases |stages|
  {
    hide Bracket;
    var j := FirstStop(stages, policy);
    var ms := Middlewares(stages);
    BracketUnfolds(ms[..j], Core(stages, inner, policy));
    if j > 0 {
      WrapIsBracket(stages[1..], inner, policy);
      assert Middlewares(stages[1..]) == ms[1..];
      assert ms[1..][..j - 1] == ms[..j][1..];
    }
  }

  // ---------------------------------------------------------------- the stored chain

  /** Every child stores its parent's whole chain in front of its own middlewares. */
  predicate Inherits(t: RouteTree) {
    && t.middlewareStart <= |t.middlewares|
    && forall i | 0 <= i < |t.children| ::
         && t.children[i].middlewareStart == |t.middlewares|
         && t.middlewares <= t.children[i].middlewares
         && Inherits(t.children[i])
  }

  /** What runs along a trace is what the terminal node has stored, after what the top inherited. */
  lemma {:induction false} StoredChainRuns(t: RouteTree, trace: Trace, ctx: Ctx, off: nat, req: Req)
    requires off <= |ctx.full| && Walk(t, ctx, off, trace).Some? && Inherits(t)
    ensures var node := Walk(t, ctx, off, trace).value.0;
      node.middlewares == t.middlewares[..t.middlewareStart] + Middlewares(Stages(t, trace, ctx, off, req))
    decreases |trace|
  {
    hide Try, Bound, WithState, Middlewares, Staged, Own;
    var here := WithState(req, t);
    MiddlewaresOfStaged(Own(t), here);
    OwnIsRest(t);
    if trace == [] {
      assert Stages(t, trace, ctx, off, req) == Staged(Own(t), here);
    } else {
      var child, hop := t.children[trace[0]], Try(t, trace[0], ctx, off).value;
      var bound := Bound(here, child.segment, hop.capture);
      StoredChainRuns(child, trace[1..], ctx, hop.next, bound);
      MiddlewaresAppend(Staged(Own(t), here), Stages(child, trace[1..], ctx, hop.next, bound));
      assert child.middlewares[..child.middlewareStart] == t.middlewares;
    }
  }

  lemma OwnIsRest(t: RouteTree)
    requires t.middlewareStart <= |t.middlewares|
    ensures t.middlewares == t.middlewares[..t.middlewareStart] + Own(t)
  {
  }

  lemma MiddlewaresOfStaged(ms: seq<Middleware>, req: Req)
    ensures Middlewares(Staged(ms, req)) == ms
  {
  }

  lemma MiddlewaresAppend(a: seq<Stage>, b: seq<Stage>)
    ensures Middlewares(a + b) == Middlewares(a) + Middlewares(b)
  {
  }

  // ---------------------------------------------------------------- the theorem

  /**
    For a request that resolves: the chain that runs is the terminal node's `middlewares`, the log
    is that chain's bracket around the terminal answer, and a short circuit cuts it at the first
    middleware that stops.
   */
  lemma OnionTheorem(t: RouteTree, ctx: Ctx, req: Req, policy: Policy)
    requires Inherits(t) && t.middlewareStart == 0
    requires var hop := Advance(t.segment, t.children == [], ctx, 0);
      hop.Some? && Search(t, ctx, hop.value.next).Some?
    ensures var hop := Advance(t.segment, t.children == [], ctx, 0).value;
      var trace := Search(t, ctx, hop.next).value;
      Walk(t, ctx, hop.next, trace).Some? &&
      var (node, end) := Walk(t, ctx, hop.next, trace).value;
      var entry := Bound(WithRootState(req, t), t.segment, hop.capture);
      var stages := Stages(t, trace, ctx, hop.next, entry);
      var j := FirstStop(stages, policy);
      var ms := node.middlewares;
      var answer := Terminal(node, ctx, end, Arrival(t, trace, ctx, hop.next, entry));
      && Middlewares(stages) == ms
      && Handle(t, ctx, req, policy) ==
         if j == |ms| then Bracket(ms, answer)
         else Bracket(ms[..j], Reply(Stopped(ms[j]), [Pre(ms[j]), Short(ms[j])]))
  {
    hide Advance, Search, Bound, Nest, Terminal, Wrap, FirstStop, Bracket, Own, Walk, Descend, Stages, WithState,
      Inherits, Arrival, WithRootState;
    var hop := Advance(t.segment, t.children == [], ctx, 0).value;
    var trace := Search(t, ctx, hop.next).value;
    SearchAccepts(t, ctx, hop.next);
    var entry := Bound(WithRootState(req, t), t.segment, hop.capture);
    var (node, end) := Walk(t, ctx, hop.next, trace).value;
    var stages := Stages(t, trace, ctx, hop.next, entry);
    var answer := Terminal(node, ctx, end, Arrival(t, trace, ctx, hop.next, entry));
    assert Handle(t, ctx, req, policy) == EnterNode(t, trace, ctx, hop.next, entry, policy);
    EnterIsWrap(t, trace, ctx, hop.next, entry, policy);
    WrapIsBracket(stages, answer, policy);
    StoredChainRuns(t, trace, ctx, hop.next, entry);
    assert t.middlewares[..0] + Middlewares(stages) == Middlewares(stages);
    assert node.middlewares[..|stages|] == node.middlewares;
  }

  /** A path that does not resolve runs the root's own middlewares around NotFound, and nothing else. */
  lemma UnresolvedRunsRootOnly(t: RouteTree, ctx: Ctx, req: Req, policy: Policy)
    requires t.middlewareStart == 0
    requires var hop := Advance(t.segment, t.children == [], ctx, 0);
      hop.Some? && Search(t, ctx, hop.value.next).None?
    ensures var hop := Advance(t.segment, t.children == [], ctx, 0).value;
      var here := WithState(Bound(WithRootState(req, t), t.segment, hop.capture), t);
      var ms := t.middlewares;
      var j := FirstStop(Staged(ms, here), policy);
      Handle(t, ctx, req, policy) ==
        if j == |ms| then Bracket(ms, Reply(NotFound, []))
        else Bracket(ms[..j], Reply(Stopped(ms[j]), [Pre(ms[j]), Short(ms[j])]))
  {
    hide Advance, Search, Bound, Nest, Wrap, FirstStop, Bracket;
    var hop := Advance(t.segment, t.children == [], ctx, 0).value;
    var here := WithState(Bound(WithRootState(req, t), t.segment, hop.capture), t);
    var stages := Staged(t.middlewares, here);
    NestIsWrap(t.middlewares, here, Reply(NotFound, []), policy);
    WrapIsBracket(stages, Reply(NotFound, []), policy);
    MiddlewaresOfStaged(t.middlewares, here);
    assert t.middlewares[..|stages|] == t.middlewares;
  }

  // ---------------------------------------------------------------- what the handler sees

  /** The nodes of a trace, top first. */
  function Nodes(t: RouteTree, trace: Trace, ctx: Ctx, off: nat): seq<RouteTree>
    requires off <= |ctx.full| && Walk(t, ctx, off, trace).Some?
    decreases |trace|
  {
    [t] +
    if trace == [] then []
    else Nodes(t.children[trace[0]], trace[1..], ctx, Try(t, trace[0], ctx, off).value.next)
  }

  /** The value of the deepest node that has one. */
  function DeepestState(nodes: seq<RouteTree>, k: TypeId): Option<Value> {
    if nodes == [] then None
    else
      OrElse(DeepestState(nodes[1..], k),
             if nodes[0].state.Some? then Lookup(nodes[0].state.value, k) else None)
  }

  lemma {:induction false} ArrivalState(t: RouteTree, trace: Trace, ctx: Ctx, off: nat, req: Req, k: TypeId)
    requires off <= |ctx.full| && Walk(t, ctx, off, trace).Some?
    ensures Lookup(Arrival(t, trace, ctx, off, req).state, k) ==
      OrElse(DeepestState(Nodes(t, trace, ctx, off), k), Lookup(req.state, k))
    decreases |trace|
  {
    hide Try, BindParams, Overlay, Lookup;
    if t.state.Some? {
      OverlayLookup(req.state, t.state.value, k);
    }
    if trace == [] {
      assert Nodes(t, trace, ctx, off)[1..] == [];
    } else {
      var child, hop := t.children[trace[0]], Try(t, trace[0], ctx, off).value;
      var bound := Bound(WithState(req, t), child.segment, hop.capture);
      ArrivalState(child, trace[1..], ctx, hop.next, bound, k);
      assert Nodes(t, trace, ctx, off)[1..] == Nodes(child, trace[1..], ctx, hop.next);
    }
  }

  function ParamOf(capture: Capture): PathParam {
    match capture
    case StrCapture(range) => StrParam(range)
    case PathCapture(range) => PathParam(range)
    case FullCapture(range) => PathParam(range)
    case I32Capture(v) => IntParam(v)
    case I64Capture(v) => Int64Param(v)
    case U64Capture(v) => UInt64Param(v)
    case U32Capture(v) => UInt32Param(v)
    case UuidCapture(v) => UuidParam(v)
  }

  /** The capture under `key` of the deepest child on the trace that binds it. */
  function DeepestCapture(t: RouteTree, trace: Trace, ctx: Ctx, off: nat, key: string): Option<PathParam>
    requires off <= |ctx.full| && Walk(t, ctx, off, trace).Some?
    decreases |trace|
  {
    if trace == [] then None
    else
      var child, hop := t.children[trace[0]], Try(t, trace[0], ctx, off).value;
      OrElse(DeepestCapture(child, trace[1..], ctx, hop.next, key),
             if BoundKey(child.segment) == Some(key) then Some(ParamOf(hop.capture.value)) else None)
  }

  lemma BoundLookup(req: Req, seg: Segment, capture: Option<Capture>, key: string)
    requires CaptureFits(seg, capture)
    ensures Get(Bound(req, seg, capture).params, key) ==
      if BoundKey(seg) == Some(key) then Some(ParamOf(capture.value)) else Get(req.params, key)
  {
  }

  /** The path parameters at the handler are the captures of the trace; deeper ones overwrite. */
  lemma {:induction false} ArrivalParams(t: RouteTree, trace: Trace, ctx: Ctx, off: nat, req: Req, key: string)
    requires off <= |ctx.full| && Walk(t, ctx, off, trace).Some?
    ensures Get(Arrival(t, trace, ctx, off, req).params, key) ==
      OrElse(DeepestCapture(t, trace, ctx, off, key), Get(req.params, key))
    decreases |trace|
  {
    hide Try, Bound, BoundKey, ParamOf;
    if trace != [] {
      var child, hop := t.children[trace[0]], Try(t, trace[0], ctx, off).value;
      var bound := Bound(WithState(req, t), child.segment, hop.capture);
      BoundLookup(WithState(req, t), child.segment, hop.capture, key);
      ArrivalParams(child, trace[1..], ctx, hop.next, bound, key);
    }
  }

  /** A request that is served shows the handler exactly what the resolved trace made of it. */
  lemma HandlerSeesTrace(t: RouteTree, ctx: Ctx, req: Req, policy: Policy, k: TypeId, key: string)
    requires Handle(t, ctx, req, policy).outcome.Served?
    ensures var hop := Advance(t.segment, t.children == [], ctx, 0);
      && hop.Some? && Search(t, ctx, hop.value.next).Some?
      && var trace := Search(t, ctx, hop.value.next).value;
      && Walk(t, ctx, hop.value.next, trace).Some?
      && var seen := Handle(t, ctx, req, policy).outcome.seen;
      && seen.verb == req.verb
      && Lookup(seen.state, k) ==
         OrElse(DeepestState(Nodes(t, trace, ctx, hop.value.next), k),
                if t.state.Some? then None else Lookup(req.state, k))
      && Get(seen.params, key) ==
         OrElse(DeepestCapture(t, trace, ctx, hop.value.next, key),
                if BoundKey(t.segment) == Some(key) then Some(ParamOf(hop.value.capture.value))
                else Get(req.params, key))
  {
    hide Advance, Search, Wrap, FirstStop, Bracket, Bound, Terminal, Arrival, Walk, Stages, Nest, Descend, Nodes,
      DeepestState, DeepestCapture, BoundKey, ParamOf, Lookup, Middlewares, Own;
    var hop := Advance(t.segment, t.children == [], ctx, 0).value;
    var entry := Bound(WithRootState(req, t), t.segment, hop.capture);
    if Search(t, ctx, hop.next).None? {
      NestOutcome(Own(t), WithState(entry, t), Reply(NotFound, []), policy);
    }
    var trace := Search(t, ctx, hop.next).value;
    SearchAccepts(t, ctx, hop.next);
    var (node, end) := Walk(t, ctx, hop.next, trace).value;
    var stages := Stages(t, trace, ctx, hop.next, entry);
    var arrival := Arrival(t, trace, ctx, hop.next, entry);
    assert Handle(t, ctx, req, policy) == EnterNode(t, trace, ctx, hop.next, entry, policy);
    EnterIsWrap(t, trace, ctx, hop.next, entry, policy);
    WrapOutcome(stages, Terminal(node, ctx, end, arrival), policy);
    TerminalSees(node, ctx, end, arrival);
    ArrivalVerb(t, trace, ctx, hop.next, entry);
    ArrivalState(t, trace, ctx, hop.next, entry, k);
    ArrivalParams(t, trace, ctx, hop.next, entry, key);
    BoundLookup(WithRootState(req, t), t.segment, hop.capture, key);
    BoundKeepsRest(WithRootState(req, t), t.segment, hop.capture);
    RootStateInNodes(t, trace, ctx, hop.next, k);
  }

  lemma {:induction false} NestOutcome(ms: seq<Middleware>, req: Req, inner: Reply, policy: Policy)
    ensures Nest(ms, req, inner, policy).outcome.Stopped? || Nest(ms, req, inner, policy).outcome == inner.outcome
    decreases |ms|
  {
    if ms != [] {
      NestOutcome(ms[1..], req, inner, policy);
    }
  }

  lemma {:induction false} WrapOutcome(stages: seq<Stage>, inner: Reply, policy: Policy)
    ensures Wrap(stages, inner, policy).outcome.Stopped? || Wrap(stages, inner, policy).outcome == inner.outcome
    decreases |stages|
  {
    if stages != [] {
      WrapOutcome(stages[1..], inner, policy);
    }
  }

  lemma TerminalSees(t: RouteTree, ctx: Ctx, off: nat, req: Req)
    ensures var outcome := Terminal(t, ctx, off, req).outcome;
      outcome.Served? ==> outcome.seen == req
  {
  }

  lemma BoundKeepsRest(req: Req, seg: Segment, capture: Option<Capture>)
    requires CaptureFits(seg, capture)
    ensures Bound(req, seg, capture).state == req.state && Bound(req, seg, capture).verb == req.verb
  {
    hide BindParams;
  }

  lemma {:induction false} ArrivalVerb(t: RouteTree, trace: Trace, ctx: Ctx, off: nat, req: Req)
    requires off <= |ctx.full| && Walk(t, ctx, off, trace).Some?
    ensures Arrival(t, trace, ctx, off, req).verb == req.verb
    decreases |trace|
  {
    hide Try, BindParams;
    if trace != [] {
      var child, hop := t.children[trace[0]], Try(t, trace[0], ctx, off).value;
      ArrivalVerb(child, trace[1..], ctx, hop.next, Bound(WithState(req, t), child.segment, hop.capture));
    }
  }

  /** The root's own state is already among those of the trace. */
  lemma RootStateInNodes(t: RouteTree, trace: Trace, ctx: Ctx, off: nat, k: TypeId)
    requires off <= |ctx.full| && Walk(t, ctx, off, trace).Some?
    ensures t.state.Some? ==>
      OrElse(DeepestState(Nodes(t, trace, ctx, off), k), Lookup(t.state.value, k)) ==
        DeepestState(Nodes(t, trace, ctx, off), k)
  {
    hide Try, Lookup;
  }
}
