/**
  What serving a request means, stated along the trace the search found: each node on the trace
  overlays its state, runs its own middlewares around everything below it, and binds its capture;
  the last node answers.
 */
module Serving {
  import opened Options
  import opened Segments
  import opened Http
  import opened States
  import opened RouteTrees
  import opened Freezing

  datatype Req = Req(verb: Method, params: Params, state: Entries)

  /** `bodyCleared` marks a HEAD request answered by the GET handler. */
  datatype Outcome =
    | Served(handler: Handler, bodyCleared: bool, seen: Req)
    | MethodNotAllowed
    | NotFound
    | Stopped(m: Middleware)

  datatype Event = Pre(m: Middleware) | Post(m: Middleware) | Short(m: Middleware) | Ran(h: Handler)

  datatype Reply = Reply(outcome: Outcome, events: seq<Event>)

  /** Whether a middleware, seeing this request, answers by itself instead of calling the next one. */
  type Policy = (Middleware, Req) -> bool

  /** The handler map as a handler: exact method, else HEAD through GET, else 405. */
  function HandlerCall(handler: map<Method, Handler>, req: Req): Reply {
    if req.verb in handler then Reply(Served(handler[req.verb], false, req), [Ran(handler[req.verb])])
    else if req.verb == HEAD && GET in handler then Reply(Served(handler[GET], true, req), [Ran(handler[GET])])
    else Reply(MethodNotAllowed, [])
  }

  /** Middlewares `ms` around `inner`. */
  function Nest(ms: seq<Middleware>, req: Req, inner: Reply, policy: Policy): Reply {
    if ms == [] then inner
    else if policy(ms[0], req) then Reply(Stopped(ms[0]), [Pre(ms[0]), Short(ms[0])])
    else
      var rest := Nest(ms[1..], req, inner, policy);
      Reply(rest.outcome, [Pre(ms[0])] + rest.events + [Post(ms[0])])
  }

  /** The middlewares a node adds to those it inherited. */
  function Own(t: RouteTree): seq<Middleware> {
    if t.middlewareStart <= |t.middlewares| then t.middlewares[t.middlewareStart..] else []
  }

  function WithState(req: Req, t: RouteTree): Req {
    if t.state.Some? then req.(state := Overlay(req.state, t.state.value)) else req
  }

  function Bound(req: Req, seg: Segment, capture: Option<Capture>): Req
    requires CaptureFits(seg, capture)
  {
    req.(params := BindParams(seg, capture, req.params).value)
  }

  function Terminal(t: RouteTree, ctx: Ctx, off: nat, req: Req): Reply {
    if Stops(t, ctx, off) && t.hasHandler then HandlerCall(t.handler, req) else Reply(NotFound, [])
  }

  /** The part of the trace below a node. */
  function Descend(t: RouteTree, trace: Trace, ctx: Ctx, off: nat, req: Req, policy: Policy): Reply
    requires off <= |ctx.full| && Walk(t, ctx, off, trace).Some?
    decreases |trace|, 0
  {
    if trace == [] then Terminal(t, ctx, off, req)
    else
      var child, hop := t.children[trace[0]], Try(t, trace[0], ctx, off).value;
      EnterNode(child, trace[1..], ctx, hop.next, Bound(req, child.segment, hop.capture), policy)
  }

  function EnterNode(t: RouteTree, trace: Trace, ctx: Ctx, off: nat, req: Req, policy: Policy): Reply
    requires off <= |ctx.full| && Walk(t, ctx, off, trace).Some?
    decreases |trace|, 1
  {
    Nest(Own(t), WithState(req, t), Descend(t, trace, ctx, off, WithState(req, t), policy), policy)
  }

  /** `call_children`: along the trace found by the search, or nothing at all. */
  function Serve(t: RouteTree, ctx: Ctx, off: nat, req: Req, policy: Policy): Reply
    requires off <= |ctx.full|
  {
    match Search(t, ctx, off)
    case None => Reply(NotFound, [])
    case Some(trace) =>
      SearchAccepts(t, ctx, off);
      Descend(t, trace, ctx, off, req, policy)
  }

  /** `call_with_path`. */
  function ServeNode(t: RouteTree, ctx: Ctx, off: nat, req: Req, policy: Policy): Reply
    requires off <= |ctx.full|
  {
    Nest(Own(t), WithState(req, t), Serve(t, ctx, off, WithState(req, t), policy), policy)
  }

  /** The root's own state, when it has one, replaces the request's. */
  function WithRootState(req: Req, t: RouteTree): Req {
    if t.state.Some? then req.(state := t.state.value) else req
  }

  /** `RouteTree::call` on a whole request path. */
  function Handle(t: RouteTree, ctx: Ctx, req: Req, policy: Policy): Reply {
    match Advance(t.segment, t.children == [], ctx, 0)
    case None => Reply(NotFound, [])
    case Some(hop) => ServeNode(t, ctx, hop.next, Bound(WithRootState(req, t), t.segment, hop.capture), policy)
  }

  /** Committing to the first child of the trace serves the rest of it there. */
  lemma ServeThroughChild(t: RouteTree, i: nat, ctx: Ctx, off: nat, req: Req, policy: Policy)
    requires off <= |ctx.full| && i < |t.children| && Try(t, i, ctx, off).Some?
    requires var deeper := Search(t.children[i], ctx, Try(t, i, ctx, off).value.next);
      deeper.Some? && Search(t, ctx, off) == Some([i] + deeper.value)
    ensures var hop := Try(t, i, ctx, off).value;
      Serve(t, ctx, off, req, policy) ==
      ServeNode(t.children[i], ctx, hop.next, Bound(req, t.children[i].segment, hop.capture), policy)
  {
    hide Try, Search, Bound, Nest, Own, WithState, Terminal;
    var hop := Try(t, i, ctx, off).value;
    var deeper := Search(t.children[i], ctx, hop.next).value;
    SearchAccepts(t, ctx, off);
    SearchAccepts(t.children[i], ctx, hop.next);
    var bound := Bound(req, t.children[i].segment, hop.capture);
    assert ([i] + deeper)[1..] == deeper;
    assert Descend(t, [i] + deeper, ctx, off, req, policy) ==
      EnterNode(t.children[i], deeper, ctx, hop.next, bound, policy);
  }

  /**
    Where no child takes the request, the node answers it exactly when it has a handler and nothing is
    left of the path or the node takes a full path.
   */
  lemma StopsHere(t: RouteTree, ctx: Ctx, off: nat, req: Req, policy: Policy)
    requires off <= |ctx.full| && SearchIn(t, ScanOrder(t), ctx, off).None?
    ensures Serve(t, ctx, off, req, policy) ==
      if t.hasHandler && (off == |ctx.full| || t.segment.FullPath?) then HandlerCall(t.handler, req)
      else Reply(NotFound, [])
  {
    hide SearchIn, ScanOrder, HandlerCall;
  }

  /** A leaf answers every request that it can take at all. */
  lemma LeafServes(t: RouteTree, ctx: Ctx, off: nat, req: Req, policy: Policy)
    requires off <= |ctx.full| && t.children == []
    ensures Serve(t, ctx, off, req, policy) ==
      if t.hasHandler && (off == |ctx.full| || t.segment.FullPath?) then HandlerCall(t.handler, req)
      else Reply(NotFound, [])
    ensures Search(t, ctx, off) == if off == |ctx.full| || t.segment.FullPath? then Some([]) else None
  {
    hide HandlerCall;
    assert ScanOrder(t) == [];
    StopsHere(t, ctx, off, req, policy);
  }

  // ---------------------------------------------------------------- the shared copies

  lemma {:induction false} EraseWalk(t: RouteTree, ctx: Ctx, off: nat, trace: Trace)
    requires off <= |ctx.full|
    ensures Walk(Erase(t), ctx, off, trace).Some? <==> Walk(t, ctx, off, trace).Some?
    decreases |trace|
  {
    hide Try;
    if trace != [] && trace[0] < |t.children| {
      EraseTry(t, trace[0], ctx, off);
      var hop := Try(t, trace[0], ctx, off);
      if hop.Some? {
        EraseWalk(t.children[trace[0]], ctx, hop.value.next, trace[1..]);
      }
    }
  }

  lemma {:induction false} EraseDescend(t: RouteTree, trace: Trace, ctx: Ctx, off: nat, req: Req, policy: Policy)
    requires off <= |ctx.full| && Walk(t, ctx, off, trace).Some?
    ensures Walk(Erase(t), ctx, off, trace).Some?
    ensures Descend(Erase(t), trace, ctx, off, req, policy) == Descend(t, trace, ctx, off, req, policy)
    decreases |trace|
  {
    hide Try, Nest, Bound, HandlerCall;
    EraseWalk(t, ctx, off, trace);
    if trace != [] {
      EraseTry(t, trace[0], ctx, off);
      var child, hop := t.children[trace[0]], Try(t, trace[0], ctx, off).value;
      var req1 := WithState(Bound(req, child.segment, hop.capture), child);
      EraseDescend(child, trace[1..], ctx, hop.next, req1, policy);
    }
  }

  /** Serving through a shared copy, or through the frozen tree, is serving through the tree itself. */
  lemma EraseServe(t: RouteTree, ctx: Ctx, off: nat, req: Req, policy: Policy)
    requires off <= |ctx.full|
    ensures Serve(Erase(t), ctx, off, req, policy) == Serve(t, ctx, off, req, policy)
  {
    hide Search, Descend;
    EraseSearch(t, ctx, off);
    if Search(t, ctx, off).Some? {
      SearchAccepts(t, ctx, off);
      EraseDescend(t, Search(t, ctx, off).value, ctx, off, req, policy);
    }
  }

  lemma FreezeServe(t: RouteTree, ctx: Ctx, req: Req, policy: Policy)
    ensures Handle(Freeze(t), ctx, req, policy) == Handle(t, ctx, req, policy)
  {
    hide Advance, Serve, Nest, Bound;
    var hop := Advance(t.segment, t.children == [], ctx, 0);
    if hop.Some? {
      var req1 := WithState(Bound(WithRootState(req, t), t.segment, hop.value.capture), t);
      FreezeErases(t);
      EraseServe(t, ctx, hop.value.next, req1, policy);
      EraseServe(Freeze(t), ctx, hop.value.next, req1, policy);
    }
  }
}
