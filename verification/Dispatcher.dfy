/**
  Serving as it runs: a request object that is updated on the way down, a middleware chain built
  per node, a shared copy of the node at the end of that chain, and a commitment to the first
  child whose look-ahead succeeds. Every method is proved to do what `Serving` says.
 */
module Dispatcher {
  import opened Options
  import opened Segments
  import opened Http
  import opened States
  import opened RouteTrees
  import opened Serving
  import Freezing
  import Resolver

  /** A request is handed down and not read again by its sender, so contracts speak of its state on entry. */
  class Request {
    const verb: Method
    var params: Params
    var state: Entries

    constructor (verb: Method, params: Params, state: Entries)
      ensures View() == Req(verb, params, state)
    {
      this.verb, this.params, this.state := verb, params, state;
    }

    function View(): Req
      reads this
    {
      Req(verb, params, state)
    }

    method BindParams(seg: Segment, capture: Option<Capture>) returns (ok: bool)
      modifies this
      ensures ok <==> Segments.BindParams(seg, capture, old(params)).Some?
      ensures View() == old(View()).(params :=
        if ok then Segments.BindParams(seg, capture, old(params)).value else old(params))
    {
      var bound := Segments.BindParams(seg, capture, params);
      ok := bound.Some?;
      if ok {
        params := bound.value;
      }
    }
  }

  /** What happened, in order; middlewares and handlers write to it. */
  class Journal {
    var events: seq<Event>

    constructor ()
      ensures events == []
    {
      events := [];
    }

    method Record(e: Event)
      modifies this
      ensures events == old(events) + [e]
    {
      events := events + [e];
    }
  }

  // ---------------------------------------------------------------- the middleware chain

  datatype Instance = MiddlewareAt(m: Middleware) | EndPoint(node: RouteTree, off: nat)

  datatype Next = Next(inner: Instance, next: Option<Next>)

  ghost function ChainOf(endpoint: Instance, ms: seq<Middleware>): Next {
    if ms == [] then Next(endpoint, None)
    else Next(MiddlewareAt(ms[0]), Some(ChainOf(endpoint, ms[1..])))
  }

  /** `Next::build`: the list is walked from its end, so its first middleware is outermost. */
  method BuildNext(endpoint: Instance, ms: seq<Middleware>) returns (next: Next)
    ensures next == ChainOf(endpoint, ms)
  {
    next := Next(endpoint, None);
    if ms == [] {
      return;
    }
    var k := |ms|;
    while k > 0
      invariant 0 <= k <= |ms|
      invariant next == ChainOf(endpoint, ms[k..])
    {
      k := k - 1;
      assert ms[k..][1..] == ms[k + 1..];
      next := Next(MiddlewareAt(ms[k]), Some(next));
    }
    assert ms[0..] == ms;
  }

  ghost predicate Answers(outcome: Outcome, before: seq<Event>, after: seq<Event>, reply: Reply) {
    outcome == reply.outcome && after == before + reply.events
  }

  /** `Next::call`, a wrapping middleware's own `handle` included. */
  method CallNext(next: Next, ghost ms: seq<Middleware>, ghost node: RouteTree, ctx: Ctx, ghost off: nat,
                  req: Request, journal: Journal, policy: Policy)
    returns (outcome: Outcome)
    requires off <= |ctx.full| && Resolver.Indexed(node) && next == ChainOf(EndPoint(node, off), ms)
    modifies req, journal
    ensures Answers(outcome, old(journal.events), journal.events,
                    Nest(ms, old(req.View()), Serve(node, ctx, off, old(req.View()), policy), policy))
    decreases node, 2, |ms|
  {
    hide Serve, Resolver.Indexed;
    match next.inner
    case MiddlewareAt(m) =>
      journal.Record(Pre(m));
      if policy(m, req.View()) {
        journal.Record(Short(m));
        return Stopped(m);
      }
      outcome := CallNext(next.next.value, ms[1..], node, ctx, off, req, journal, policy);
      journal.Record(Post(m));
    case EndPoint(n, o) =>
      outcome := CallChildren(n, ctx, o, req, journal, policy);
  }

  // ---------------------------------------------------------------- descending the tree

  method CallHandler(handler: map<Method, Handler>, req: Request, journal: Journal) returns (outcome: Outcome)
    modifies journal
    ensures Answers(outcome, old(journal.events), journal.events, HandlerCall(handler, req.View()))
  {
    if req.verb in handler {
      journal.Record(Ran(handler[req.verb]));
      return Served(handler[req.verb], false, req.View());
    }
    if req.verb == HEAD && GET in handler {
      journal.Record(Ran(handler[GET]));
      return Served(handler[GET], true, req.View());
    }
    return MethodNotAllowed;
  }

  method CallWithPath(t: RouteTree, ctx: Ctx, off: nat, req: Request, journal: Journal, policy: Policy)
    returns (outcome: Outcome)
    requires off <= |ctx.full| && Resolver.Indexed(t)
    modifies req, journal
    ensures Answers(outcome, old(journal.events), journal.events, ServeNode(t, ctx, off, old(req.View()), policy))
    decreases t, 3, 0
  {
    hide Serve, Freezing.Erase;
    if t.state.Some? {
      req.state := Overlay(req.state, t.state.value);
    }
    var own := t.middlewares[t.middlewareStart..];
    if own == [] {
      outcome := CallChildren(t, ctx, off, req, journal, policy);
      return;
    }
    var node := t;
    if t.selfArc.Some? {
      node := t.selfArc.value;
      SharedCopyServes(t, ctx, off, req.View(), policy);
    }
    var next := BuildNext(EndPoint(node, off), own);
    outcome := CallNext(next, own, node, ctx, off, req, journal, policy);
  }

  lemma SharedCopyServes(t: RouteTree, ctx: Ctx, off: nat, req: Req, policy: Policy)
    requires off <= |ctx.full| && Resolver.Indexed(t) && t.selfArc.Some?
    ensures Serve(t.selfArc.value, ctx, off, req, policy) == Serve(t, ctx, off, req, policy)
    ensures Resolver.Indexed(t.selfArc.value)
  {
    hide Serve, IndicesWhere;
    EraseServe(t, ctx, off, req, policy);
    EraseServe(t.selfArc.value, ctx, off, req, policy);
  }

  method CallChildren(t: RouteTree, ctx: Ctx, off: nat, req: Request, journal: Journal, policy: Policy)
    returns (outcome: Outcome)
    requires off <= |ctx.full| && Resolver.Indexed(t)
    modifies req, journal
    ensures Answers(outcome, old(journal.events), journal.events, Serve(t, ctx, off, old(req.View()), policy))
    decreases t, 1, 0
  {
    hide Try, Search, Dead, SearchIn, IndicesWhere, ScanOrder, ServeNode, HandlerCall;
    var candidates := Resolver.CandidateIndices(t, ctx, off);
    var k := 0;
    while k < |candidates|
      invariant k <= |candidates| && unchanged(req) && unchanged(journal)
      invariant forall j | 0 <= j < k :: Dead(t, candidates[j], ctx, off)
    {
      var i := candidates[k];
      var child, candidate := t.children[i], Try(t, i, ctx, off);
      if candidate.Some? {
        var resolves := Resolver.PathCanResolve(child, ctx, candidate.value.next);
        if resolves {
          Resolver.ResolvesThrough(t, candidates, ctx, off, k);
          ServeThroughChild(t, i, ctx, off, req.View(), policy);
          var ok := req.BindParams(child.segment, candidate.value.capture);
          if !ok {
            return NotFound;
          }
          outcome := CallWithPath(child, ctx, candidate.value.next, req, journal, policy);
          return;
        }
      }
      Resolver.DeadOr(t, i, ctx, off);
      k := k + 1;
    }
    Resolver.ResolvesThrough(t, candidates, ctx, off, k);
    if off == |ctx.full| {
      if !t.hasHandler {
        return NotFound;
      }
      outcome := CallHandler(t.handler, req, journal);
    } else if t.segment.FullPath? && t.hasHandler {
      outcome := CallHandler(t.handler, req, journal);
    } else {
      outcome := NotFound;
    }
  }

  /** `RouteTree::call`: the whole path, from the root. */
  method Call(t: RouteTree, ctx: Ctx, req: Request, journal: Journal, policy: Policy) returns (outcome: Outcome)
    requires Resolver.Indexed(t)
    modifies req, journal
    ensures Answers(outcome, old(journal.events), journal.events, Handle(t, ctx, old(req.View()), policy))
  {
    hide Advance, ServeNode, Segments.BindParams, Resolver.Indexed;
    if t.state.Some? {
      req.state := t.state.value;
    }
    var candidate := Advance(t.segment, t.children == [], ctx, 0);
    if candidate.None? {
      return NotFound;
    }
    var ok := req.BindParams(t.segment, candidate.value.capture);
    if !ok {
      return NotFound;
    }
    outcome := CallWithPath(t, ctx, candidate.value.next, req, journal, policy);
  }
}
