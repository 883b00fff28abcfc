/** A route used as a handler: it is compiled, frozen and dispatched. */
module RouteCalls {
  import opened Segments
  import opened Routes
  import opened Serving
  import opened Dispatcher
  import opened States
  import BuiltRoutes
  import Compiling
  import Resolver

  /** `Route::call`: whatever the builder made, indexed, frozen and run, does what serving it means. */
  method Call(r: Route, ctx: Ctx, req: Request, journal: Journal, policy: Policy) returns (outcome: Outcome)
    requires BuiltRoutes.Built(r)
    modifies req, journal
    ensures Answers(outcome, old(journal.events), journal.events,
                    Handle(Compiling.Compile(r, []), ctx, old(req.View()), policy))
  {
    hide Handle, Compiling.Compile, BuiltRoutes.Built, Resolver.Indexed;
    ghost var first := req.View();
    if r.state.Some? {
      req.state := Overlay(req.state, r.state.value);
    }
    var tree := Compiling.ConvertToRouteTree(r);
    Compiling.CompileIsIndexed(r, []);
    Compiling.FreezeIsIndexed(Compiling.Compile(r, []));
    FreezeServe(Compiling.Compile(r, []), ctx, req.View(), policy);
    RootStateWins(r, ctx, first, req.View(), policy);
    outcome := Dispatcher.Call(tree, ctx, req, journal, policy);
  }

  /** What was overlaid before is replaced by the root's own state. */
  lemma RootStateWins(r: Route, ctx: Ctx, first: Req, second: Req, policy: Policy)
    requires second == if r.state.Some? then first.(state := Overlay(first.state, r.state.value)) else first
    ensures Handle(Compiling.Compile(r, []), ctx, second, policy) ==
      Handle(Compiling.Compile(r, []), ctx, first, policy)
  {
    hide Advance, ServeNode, Bound;
    CompiledState(r);
  }

  lemma CompiledState(r: Route)
    ensures Compiling.Compile(r, []).state == r.state
  {
  }
}
