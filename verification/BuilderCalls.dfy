/**
  What whole sequences of builder calls leave in the node they are made on: its middlewares, its state and
  its handlers, and how the hooked middlewares run.
 */
module BuilderCalls {
  import opened Options
  import opened Http
  import opened States
  import opened Routes
  import opened RouteTables
  import opened Builder
  import opened Segments
  import opened RouteTrees
  import opened Serving
  import opened Compiling
  import Freezing
  import Onion

  /** The middlewares given to `hook`, in the order of the calls. */
  function Hooked(calls: seq<Call>): seq<Middleware> {
    if calls == [] then []
    else (if calls[0].Hook? then [calls[0].mw] else []) + Hooked(calls[1..])
  }

  /** Those given to `hook_first`, the last call first. */
  function HookedFirst(calls: seq<Call>): seq<Middleware> {
    if calls == [] then []
    else HookedFirst(calls[1..]) + if calls[0].HookFirst? then [calls[0].mw] else []
  }

  /** The last value of a type given to `with_state`. */
  function LastState(calls: seq<Call>, k: TypeId): Option<Value> {
    if calls == [] then None
    else OrElse(LastState(calls[1..], k), if calls[0].WithState? && calls[0].k == k then Some(calls[0].v) else None)
  }

  /** The last handler inserted into the node itself; `own` says that `handler` finds no other node. */
  function LastHandler(calls: seq<Call>, m: Method, own: bool): Option<Handler> {
    if calls == [] then None
    else
      var call := calls[0];
      OrElse(LastHandler(calls[1..], m, own),
             if (call.InsertHandler? || (call.AddHandler? && own)) && call.m == m then Some(call.h) else None)
  }

  /** Adding children changes nothing but the children. */
  lemma ExtendKeepsOwn(r: Route, routes: seq<Route>)
    requires Extend(r, routes).Some?
    ensures var next := Extend(r, routes).value; next == r.(children := next.children)
  {
    hide MergeChildren, SplitOnce, FindCreated;
  }

  /** `handler` changes the node's own map if it is its own tail, and else nothing but the children. */
  lemma SetHandlerKeepsOwn(r: Route, m: Method, h: Handler)
    requires SetHandler(r, m, h).Some?
    ensures var next := SetHandler(r, m, h).value;
      if r.path == r.createPath then next == r.(handler := r.handler[m := h]) else next == r.(children := next.children)
  {
    hide SplitOnce, FindCreated;
  }

  lemma StateAfter(r: Route, k: TypeId, v: Value, j: TypeId)
    ensures StateOf(Apply(r, WithState(k, v)).value, j) == if j == k then Some(v) else StateOf(r, j)
  {
    hide Overlay, Lookup;
    OverlayLookup(if r.state.Some? then r.state.value else None, Some(map[k := v]), j);
    OneEntry(k, v, j);
    NoEntry(j);
  }

  /** One call changes no field of the node but the one it is about. */
  lemma OneCall(r: Route, call: Call, k: TypeId, m: Method)
    requires Apply(r, call).Some?
    ensures var next := Apply(r, call).value;
      && next.path == r.path && next.createPath == r.createPath && next.special == r.special
      && next.middlewares == HookedFirst([call]) + r.middlewares + Hooked([call])
      && StateOf(next, k) == OrElse(LastState([call], k), StateOf(r, k))
      && Get(next.handler, m) == OrElse(LastHandler([call], m, r.path == r.createPath), Get(r.handler, m))
  {
    hide Extend, SetHandler, Overlay, StateOf, HookedFirst, Hooked, LastState, LastHandler;
    OfOne(call, k, m, r.path == r.createPath);
    match call
    case AddChildren(routes) =>
      ExtendKeepsOwn(r, routes);
      SameState(r, Extend(r, routes).value, k);
    case AddHandler(n, h) =>
      SetHandlerKeepsOwn(r, n, h);
      SameState(r, SetHandler(r, n, h).value, k);
    case WithState(j, v) => StateAfter(r, j, v, k);
    case _ => SameState(r, Apply(r, call).value, k);
  }

  lemma SameState(a: Route, b: Route, k: TypeId)
    requires a.state == b.state
    ensures StateOf(a, k) == StateOf(b, k)
  {
  }

  lemma OfOne(call: Call, k: TypeId, m: Method, own: bool)
    ensures Hooked([call]) == if call.Hook? then [call.mw] else []
    ensures HookedFirst([call]) == if call.HookFirst? then [call.mw] else []
    ensures LastState([call], k) == if call.WithState? && call.k == k then Some(call.v) else None
    ensures LastHandler([call], m, own) ==
      if (call.InsertHandler? || (call.AddHandler? && own)) && call.m == m then Some(call.h) else None
  {
    assert [call][1..] == [];
  }

  lemma OneEntry(k: TypeId, v: Value, j: TypeId)
    ensures Lookup(Some(map[k := v]), j) == if j == k then Some(v) else None
  {
  }

  lemma NoEntry(k: TypeId)
    ensures Lookup(None, k) == None
  {
  }

  /**
    After any calls: the `hook_first` middlewares, the last one first, before the old ones, and the `hook`
    middlewares after them in order; for each type its last value, and for each method its last handler.
   */
  lemma {:induction false} CallsLeave(r: Route, calls: seq<Call>, k: TypeId, m: Method)
    requires ApplyAll(r, calls).Some?
    ensures var last := ApplyAll(r, calls).value;
      && last.path == r.path && last.createPath == r.createPath && last.special == r.special
      && last.middlewares == HookedFirst(calls) + r.middlewares + Hooked(calls)
      && StateOf(last, k) == OrElse(LastState(calls, k), StateOf(r, k))
      && Get(last.handler, m) == OrElse(LastHandler(calls, m, r.path == r.createPath), Get(r.handler, m))
    decreases |calls|
  {
    hide Apply, StateOf, Hooked, HookedFirst, LastState, LastHandler;
    if calls == [] {
      NoCalls(k, m, r.path == r.createPath);
      assert [] + r.middlewares + [] == r.middlewares;
    } else {
      var next := Apply(r, calls[0]).value;
      OneCall(r, calls[0], k, m);
      CallsLeave(next, calls[1..], k, m);
      FirstCall(calls, k, m, r.path == r.createPath);
    }
  }

  lemma NoCalls(k: TypeId, m: Method, own: bool)
    ensures Hooked([]) == [] && HookedFirst([]) == [] && LastState([], k) == None && LastHandler([], m, own) == None
  {
  }

  lemma FirstCall(calls: seq<Call>, k: TypeId, m: Method, own: bool)
    requires calls != []
    ensures var one := [calls[0]];
      && Hooked(calls) == Hooked(one) + Hooked(calls[1..])
      && HookedFirst(calls) == HookedFirst(calls[1..]) + HookedFirst(one)
      && LastState(calls, k) == OrElse(LastState(calls[1..], k), LastState(one, k))
      && LastHandler(calls, m, own) == OrElse(LastHandler(calls[1..], m, own), LastHandler(one, m, own))
  {
    assert [calls[0]][1..] == [];
  }

  // ---------------------------------------------------------------- how they run

  /** The request as the node of `t` sees it, when `t` is dispatched. */
  function Entered(t: RouteTree, ctx: Ctx, req: Req): Req
    requires Advance(t.segment, t.children == [], ctx, 0).Some?
  {
    var hop := Advance(t.segment, t.children == [], ctx, 0).value;
    Serving.WithState(Bound(WithRootState(req, t), t.segment, hop.capture), t)
  }

  /**
    Whatever a request finds below it, the hooked middlewares of a dispatched route run around all of it in
    this order: their pre-events, what happens inside, their post-events in exact reverse; the first that
    answers by itself cuts that off.
   */
  lemma HooksAreOutermost(r: Route, calls: seq<Call>, ctx: Ctx, req: Req, policy: Policy) returns (inner: Reply)
    requires ApplyAll(r, calls).Some?
    requires var t := Compile(ApplyAll(r, calls).value, []);
      Advance(t.segment, t.children == [], ctx, 0).Some?
    ensures var t := Compile(ApplyAll(r, calls).value, []);
      inner == Serve(t, ctx, Advance(t.segment, t.children == [], ctx, 0).value.next, Entered(t, ctx, req), policy)
    ensures var t, ms := Compile(ApplyAll(r, calls).value, []), HookedFirst(calls) + r.middlewares + Hooked(calls);
      var j := Onion.FirstStop(Onion.Staged(ms, Entered(t, ctx, req)), policy);
      Handle(Freezing.Freeze(t), ctx, req, policy) ==
        if j == |ms| then Onion.Bracket(ms, inner)
        else Onion.Bracket(ms[..j], Reply(Stopped(ms[j]), [Pre(ms[j]), Short(ms[j])]))
  {
    hide Compile, Advance, Handle, Freezing.Freeze, ApplyAll, Hooked, HookedFirst, Bound, Serving.WithState,
      WithRootState, ServeNode, Nest, Serve, Onion.Bracket, Onion.FirstStop;
    var last := ApplyAll(r, calls).value;
    var t := Compile(last, []);
    CallsLeave(r, calls, 0, GET);
    CompiledParts(last, []);
    assert [] + last.middlewares == last.middlewares;
    FreezeServe(t, ctx, req, policy);
    inner := Serve(t, ctx, Advance(t.segment, t.children == [], ctx, 0).value.next, Entered(t, ctx, req), policy);
    HandleIsNest(t, ctx, req, policy);
    NestIsBracket(last.middlewares, Entered(t, ctx, req), inner, policy);
  }

  lemma HandleIsNest(t: RouteTree, ctx: Ctx, req: Req, policy: Policy)
    requires Advance(t.segment, t.children == [], ctx, 0).Some? && t.middlewareStart == 0
    ensures var here := Entered(t, ctx, req);
      var off := Advance(t.segment, t.children == [], ctx, 0).value.next;
      Handle(t, ctx, req, policy) == Nest(t.middlewares, here, Serve(t, ctx, off, here, policy), policy)
  {
    hide Advance, Nest, Serve, Bound, WithRootState, Serving.WithState;
  }

  lemma NestIsBracket(ms: seq<Middleware>, req: Req, inner: Reply, policy: Policy)
    ensures var j := Onion.FirstStop(Onion.Staged(ms, req), policy);
      Nest(ms, req, inner, policy) ==
        if j == |ms| then Onion.Bracket(ms, inner)
        else Onion.Bracket(ms[..j], Reply(Stopped(ms[j]), [Pre(ms[j]), Short(ms[j])]))
  {
    hide Nest, Onion.Wrap, Onion.Bracket, Onion.FirstStop;
    Onion.NestIsWrap(ms, req, inner, policy);
    Onion.WrapIsBracket(Onion.Staged(ms, req), inner, policy);
    Onion.MiddlewaresOfStaged(ms, req);
    assert ms[..|ms|] == ms;
  }
}
