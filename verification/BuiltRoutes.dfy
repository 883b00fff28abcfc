/**
  What every route made by the constructors satisfies at every node, and that merging and the
  builder calls keep it.
 */
module BuiltRoutes {
  import opened Http
  import opened Routes
  import Builder
  import Segments
  import Slices

  /** A node's own fields. */
  function Head(r: Route): Route {
    r.(children := [], createPath := "")
  }

  ghost predicate Everywhere(r: Route, p: Route -> bool) {
    p(Head(r)) && forall i | 0 <= i < |r.children| :: Everywhere(r.children[i], p)
  }

  ghost predicate EverywhereIn(rs: seq<Route>, p: Route -> bool) {
    forall i | 0 <= i < |rs| :: Everywhere(rs[i], p)
  }

  /** `p` survives merging two nodes with the same key. */
  ghost predicate MergeClosed(p: Route -> bool) {
    forall a, b | p(a) && p(b) && SameKey(a, b) :: p(Head(MergeFrom(a, b)))
  }

  lemma HeadOfMerge(a: Route, b: Route)
    ensures Head(MergeFrom(a, b)) == Head(MergeFrom(Head(a), Head(b)))
  {
  }

  lemma {:induction false} MergeFromEverywhere(a: Route, b: Route, p: Route -> bool)
    requires MergeClosed(p) && Everywhere(a, p) && Everywhere(b, p) && SameKey(a, b)
    ensures Everywhere(MergeFrom(a, b), p)
    decreases b, 0
  {
    HeadOfMerge(a, b);
    assert SameKey(Head(a), Head(b));
    MergeChildrenEverywhere(a.children, b.children, p);
  }

  lemma {:induction false} MergeChildEverywhere(rs: seq<Route>, r: Route, p: Route -> bool)
    requires MergeClosed(p) && EverywhereIn(rs, p) && Everywhere(r, p)
    ensures EverywhereIn(MergeChild(rs, r), p)
    decreases r, 1
  {
    hide MergeFrom, FindChild, Everywhere, MergeClosed;
    var k := FindChild(rs, r.Key());
    if k < |rs| {
      MergeFromEverywhere(rs[k], r, p);
    }
  }

  lemma {:induction false} MergeChildrenEverywhere(rs: seq<Route>, more: seq<Route>, p: Route -> bool)
    requires MergeClosed(p) && EverywhereIn(rs, p) && EverywhereIn(more, p)
    ensures EverywhereIn(MergeChildren(rs, more), p)
    decreases more, 2
  {
    hide MergeChild, Everywhere, MergeClosed;
    if more != [] {
      MergeChildrenEverywhere(rs, more[..|more| - 1], p);
      MergeChildEverywhere(MergeChildren(rs, more[..|more| - 1]), more[|more| - 1], p);
    }
  }

  // ---------------------------------------------------------------- what constructors establish

  /** A path is one segment, and the special mark says whether it is a parameter pattern. */
  predicate CleanNode(h: Route) {
    h.special == Segments.Bracketed(h.path) && Slices.SLASH !in h.path
  }

  ghost predicate Built(r: Route) {
    WellFormed(r) && Everywhere(r, CleanNode)
  }

  lemma CleanIsMergeClosed()
    ensures MergeClosed(CleanNode)
  {
    hide MergeChildren, MergeState;
  }

  lemma {:induction false} NewRouteBuilt(pattern: string)
    ensures Built(Builder.NewRoute(pattern))
    decreases |pattern|
  {
    hide Segments.Bracketed, Builder.NewRoute, Segments.SplitOnce;
    var path := Builder.TrimSlashes(pattern);
    var (first, last) := Segments.SplitOnce(path, Slices.SLASH);
    Builder.NewRouteChild(pattern);
    if last != "" {
      NewRouteBuilt(last);
    }
    NewRouteHead(pattern);
  }

  lemma NewRouteHead(pattern: string)
    ensures CleanNode(Head(Builder.NewRoute(pattern)))
  {
    hide Segments.Bracketed, MergeChild;
  }

  lemma {:induction false} ExtendBuilt(r: Route, createPath: string, routes: seq<Route>)
    requires Built(r) && forall j | 0 <= j < |routes| :: Built(routes[j])
    requires Builder.ExtendAt(r, createPath, routes).Some?
    ensures Built(Builder.ExtendAt(r, createPath, routes).value)
    ensures Head(Builder.ExtendAt(r, createPath, routes).value) == Head(r)
    decreases r
  {
    hide MergeChildren, Segments.SplitOnce, Builder.FindCreated;
    if Slices.SLASH !in createPath {
      CleanIsMergeClosed();
      MergeChildrenWellFormed(r.children, routes);
      MergeChildrenEverywhere(r.children, routes, CleanNode);
    } else {
      var last := Segments.SplitOnce(createPath, Slices.SLASH).1;
      var k := Builder.FindCreated(r.children, last);
      ChildBuilt(r, k);
      ExtendBuilt(r.children[k], last, routes);
      ReplaceChildBuilt(r, k, Builder.ExtendAt(r.children[k], last, routes).value);
    }
  }

  lemma ReplaceChildBuilt(r: Route, k: nat, child: Route)
    requires Built(r) && k < |r.children| && Built(child) && child.Key() == r.children[k].Key()
    ensures Built(r.(children := r.children[k := child]))
  {
    var changed := r.(children := r.children[k := child]);
    assert Head(changed) == Head(r);
  }

  lemma ChildBuilt(r: Route, k: nat)
    requires Built(r) && k < |r.children|
    ensures Built(r.children[k])
  {
  }

  lemma {:induction false} SetHandlerBuilt(r: Route, m: Method, h: Handler)
    requires Built(r) && Builder.SetHandler(r, m, h).Some?
    ensures Built(Builder.SetHandler(r, m, h).value)
    ensures Builder.SetHandler(r, m, h).value.Key() == r.Key()
    decreases r
  {
    hide Segments.SplitOnce, Builder.FindCreated;
    if r.path != r.createPath {
      var last := Segments.SplitOnce(r.createPath, Slices.SLASH).1;
      var k := Builder.FindCreated(r.children, last);
      ChildBuilt(r, k);
      SetHandlerBuilt(r.children[k], m, h);
      ReplaceChildBuilt(r, k, Builder.SetHandler(r.children[k], m, h).value);
    }
  }

  /** Any builder call on a built route, with built routes to add, gives a built route. */
  lemma ApplyKeepsBuilt(r: Route, call: Builder.Call)
    requires Built(r) && Builder.Apply(r, call).Some?
    requires call.AddChildren? ==> forall j | 0 <= j < |call.routes| :: Built(call.routes[j])
    ensures Built(Builder.Apply(r, call).value)
  {
    hide Builder.ExtendAt, Builder.SetHandler;
    match call
    case AddChildren(routes) => ExtendBuilt(r, r.createPath, routes);
    case AddHandler(m, h) => SetHandlerBuilt(r, m, h);
    case _ =>
  }
}
