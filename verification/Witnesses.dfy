/**
  Two routes a reader may not expect to answer as they do: a node without handlers that hides a
  parameter route, and a path capture that cannot be read back.
 */
module Witnesses {
  import opened Options
  import opened Http
  import opened Slices
  import opened Segments
  import opened Routes
  import opened RouteTrees
  import opened Builder
  import opened Serving
  import opened Compiling
  import opened Tables
  import opened SingleRoutes
  import Freezing
  import LostRequests

  lemma StaticFirst(t: RouteTree)
    requires |t.children| == 2 && t.children[0].segment.Static?
    ensures ScanOrder(t) != [] && ScanOrder(t)[0] == 0
  {
    assert t.children[..1][..0] == [];
  }

  lemma NoStaticAtEnd(value: string, leaf: bool, ctx: Ctx)
    requires value != "" && SLASH !in value
    ensures Advance(Static(value), leaf, ctx, |ctx.full|).None?
  {
    hide StripOneSegment, Advance;
    StaticStep(value, leaf, ctx, |ctx.full|);
    assert ctx.From(|ctx.full|).text == "";
    EmptySegment(ctx.From(|ctx.full|), ctx.empty);
  }

  /** The first cut of `/a` and of `/a/`. */
  lemma CutsA(path: Slice, empty: nat)
    requires path.text == "/a" || path.text == "/a/"
    ensures StripOneSegment(path, empty).0.text == "a" && StripOneSegment(path, empty).1.text == ""
  {
    hide StripOneSegment, StripLeadingSlash, CutsTail, CutAs, IsSuffix;
    TrimShape(path);
    var trimmed := StripLeadingSlash(path).text;
    assert trimmed == path.text[1..];
    assert trimmed == if path.text == "/a" then "a" else "a/";
    CutShape(path, empty);
    var (segment, remain) := StripOneSegment(path, empty);
    OneCut(trimmed, segment.text, remain.text, "a", "");
  }

  lemma EntersA(t: RouteTree, i: nat, ctx: Ctx)
    requires i < |t.children| && t.children[i].segment == Static("a") && (ctx.full == "/a" || ctx.full == "/a/")
    ensures Try(t, i, ctx, 0) == Some(Hop(|ctx.full|, None))
  {
    hide StripOneSegment, Advance;
    assert ctx.From(0).text == ctx.full;
    CutsA(ctx.From(0), ctx.empty);
    StaticStep("a", t.children[i].children == [], ctx, 0);
  }

  // ---------------------------------------------------------------- a hidden route

  /** `a/b` and `<x>`, in that order. */
  function Hiding(): Route {
    Below([Branch(["a", "b"], GET, 1), Branch(["<x>"], GET, 2)])
  }

  lemma HidingIsBuilt()
    ensures var first, second := SetHandler(NewRoute("a/b"), GET, 1), SetHandler(NewRoute("<x>"), GET, 2);
      first.Some? && second.Some? && Extend(NewRoute(""), [first.value, second.value]) == Some(Hiding())
  {
    hide NewRoute, SetHandler, MergeChildren, Branch;
    NewWithHandler("a/b", ["a", "b"], GET, 1);
    NewWithHandler("<x>", ["<x>"], GET, 2);
    var a, x := Branch(["a", "b"], GET, 1), Branch(["<x>"], GET, 2);
    assert a.path == "a" && x.path == "<x>" by {
      BranchPath(["a", "b"], GET, 1);
      BranchPath(["<x>"], GET, 2);
    }
    BareRoot();
    TwoChildren(a, x);
  }

  lemma BranchPath(segs: seq<string>, m: Method, h: Handler)
    requires segs != []
    ensures Branch(segs, m, h).path == segs[0]
  {
    hide Join, Bracketed;
  }

  lemma BareRoot()
    ensures NewRoute("") == Bare("", "")
  {
    assert SplitOnce("", SLASH) == ("", "");
  }

  lemma TwoChildren(a: Route, b: Route)
    requires !SameKey(a, b)
    ensures MergeChildren([], [a, b]) == [a, b]
  {
    hide MergeFrom, MergeChildren, FindChild;
    assert [a] + [b] == [a, b];
    MergeChildrenSplit([], [a], [b]);
    MergeOne([], a);
    MergeOne([a], b);
    assert MergeChild([], a) == [a];
    FindChildIs([a], b.Key(), 1);
    assert MergeChild([a], b) == [a] + [b];
  }

  /** A request for `/a` would be served by `<x>`, and is answered NotFound by the node of `a/b`. */
  lemma HiddenRoute(at: nat, empty: nat, parsers: Parsers, req: Req)
    ensures var t, ctx := Compile(Hiding(), []), Ctx("/a", at, empty, parsers);
      && LostRequests.WouldServe(t, ctx, 0, [1])
      && Handle(Freezing.Freeze(t), ctx, req, (m, seen) => false).outcome == NotFound
  {
    hide Compile, Advance, Handle, Freezing.Freeze, Try, Search, ScanOrder, Branch, LostRequests.WouldServe;
    var t, ctx, policy := Compile(Hiding(), []), Ctx("/a", at, empty, parsers), (m, seen) => false;
    CompiledBelow(Hiding().children);
    CompiledBranch(["a", "b"], GET, 1);
    CompiledBranch(["b"], GET, 1);
    assert ["a", "b"][1..] == ["b"];
    RootStep(false, ctx);
    ServesX(t, ctx);
    CommitsToA(t, ctx);
    LostRequests.LostIff(t, ctx, req, policy, [1]);
    FreezeServe(t, ctx, req, policy);
  }

  lemma ServesX(t: RouteTree, ctx: Ctx)
    requires ctx.full == "/a" && |t.children| == 2 && t.children[1] == Compile(Branch(["<x>"], GET, 2), [])
    ensures LostRequests.WouldServe(t, ctx, 0, [1])
  {
    hide Compile, Advance, Branch, Try, ParseSegment;
    CompiledBranch(["<x>"], GET, 2);
    ParsedX();
    MatchesX(t, 1, ctx);
    assert [1][1..] == [];
  }

  lemma ParsedX()
    ensures ParseSegment("<x>") == Str("x")
  {
    hide ParseSegment;
    TypedPattern("x", "");
    assert "<" + "x" + ">" == "<x>";
  }

  lemma MatchesX(t: RouteTree, i: nat, ctx: Ctx)
    requires i < |t.children| && t.children[i].segment == Str("x") && ctx.full == "/a"
    ensures Try(t, i, ctx, 0).Some? && Try(t, i, ctx, 0).value.next == 2
  {
    hide StripOneSegment, Advance;
    assert ctx.From(0).text == ctx.full;
    CutsA(ctx.From(0), ctx.empty);
    TextSegmentStep(Str("x"), t.children[i].children == [], ctx, 0);
  }

  /** The search ends at the node of `a`, which has no handler. */
  lemma CommitsToA(t: RouteTree, ctx: Ctx)
    requires ctx.full == "/a" && |t.children| == 2 && t.children[0].segment == Static("a")
    requires |t.children[0].children| == 1 && t.children[0].children[0].segment == Static("b")
    ensures Search(t, ctx, 0) == Some([0])
    ensures Walk(t, ctx, 0, [0]) == Some((t.children[0], 2))
  {
    hide Advance, Try, ScanOrder, IndicesWhere, Search;
    var a := t.children[0];
    EntersA(t, 0, ctx);
    OnlyChildFirst(a);
    NoStaticAtEnd("b", a.children[0].children == [], ctx);
    NoWayDown(a, ctx);
    StaticFirst(t);
    FirstTaken(t, 0, ctx, 0);
    assert [0] + [] == [0] && [0][1..] == [];
  }

  lemma NoWayDown(t: RouteTree, ctx: Ctx)
    requires ScanOrder(t) == [0] && |t.children| == 1
    requires Advance(t.children[0].segment, t.children[0].children == [], ctx, |ctx.full|).None?
    ensures Search(t, ctx, |ctx.full|) == Some([])
  {
    hide Advance, ScanOrder, IndicesWhere;
    SearchInAt(t, [0], ctx, |ctx.full|, 1);
  }

  // ---------------------------------------------------------------- a capture that cannot be read

  /** `a/<rest:*>`. */
  function Trailing(): Route {
    Below([Branch(["a", "<rest:*>"], GET, 1)])
  }

  lemma TrailingIsBuilt()
    ensures var route := SetHandler(NewRoute("a/<rest:*>"), GET, 1);
      route.Some? && Extend(NewRoute(""), [route.value]) == Some(Trailing())
  {
    hide NewRoute, SetHandler, MergeChildren, Branch;
    NewWithHandler("a/<rest:*>", ["a", "<rest:*>"], GET, 1);
    BareRoot();
    var a := Branch(["a", "<rest:*>"], GET, 1);
    MergeOne([], a);
    assert MergeChild([], a) == [a];
  }

  /**
    A request for `/a/` reaches the handler with a path parameter whose range lies outside the path
    whenever the literal `""` is stored after the path.
   */
  lemma PathCaptureCanFail(at: nat, empty: nat, parsers: Parsers, req: Req)
    requires empty > at + 3 && req.verb == GET
    ensures var t, ctx := Compile(Trailing(), []), Ctx("/a/", at, empty, parsers);
      var outcome := Handle(Freezing.Freeze(t), ctx, req, (m, seen) => false).outcome;
      && outcome.Served? && outcome.handler == 1
      && "rest" in outcome.seen.params && outcome.seen.params["rest"].PathParam?
      && ReadBack(ctx.full, outcome.seen.params["rest"].range).None?
  {
    hide Compile, Advance, Serve, Freezing.Freeze, Try, Search, ScanOrder, Branch, ReadBack, ParseSegment;
    var t, ctx, policy := Compile(Trailing(), []), Ctx("/a/", at, empty, parsers), (m, seen) => false;
    CompiledBelow(Trailing().children);
    CompiledBranch(["a", "<rest:*>"], GET, 1);
    CompiledBranch(["<rest:*>"], GET, 1);
    assert ["a", "<rest:*>"][1..] == ["<rest:*>"];
    ParsedRest();
    RootStep(false, ctx);
    ServesRest(t, ctx, Bound(WithRootState(req, t), t.segment, None), policy);
    FreezeServe(t, ctx, req, policy);
  }

  lemma ParsedRest()
    ensures ParseSegment("<rest:*>") == Path("rest") && ParseSegment("a") == Static("a")
  {
    hide ParseSegment;
    TypedPattern("rest", "*");
    assert "<" + ("rest" + ":" + "*") + ">" == "<rest:*>";
  }

  lemma MatchesRest(t: RouteTree, i: nat, ctx: Ctx)
    requires i < |t.children| && t.children[i].segment == Path("rest") && ctx.full == "/a/" && ctx.empty > ctx.at + 3
    ensures var range := Range(ctx.empty - ctx.at, ctx.empty - ctx.at);
      Try(t, i, ctx, 3) == Some(Hop(3, Some(PathCapture(range)))) && ReadBack(ctx.full, range).None?
  {
    hide StripOneSegment, Advance;
    assert ctx.From(3).text == "";
    EmptySegment(ctx.From(3), ctx.empty);
    TextSegmentStep(Path("rest"), t.children[i].children == [], ctx, 3);
  }

  lemma ServesRest(t: RouteTree, ctx: Ctx, req: Req, policy: Policy)
    requires |t.children| == 1 && ctx.full == "/a/" && ctx.empty > ctx.at + 3 && req.verb == GET
    requires t.children[0].segment == Static("a") && t.children[0].state.None? && Own(t.children[0]) == []
    requires |t.children[0].children| == 1
    requires var leaf := t.children[0].children[0];
      && leaf.segment == Path("rest") && leaf.children == [] && leaf.state.None? && Own(leaf) == []
      && leaf.hasHandler && leaf.handler == map[GET := 1]
    ensures var outcome := Serve(t, ctx, 0, req, policy).outcome;
      && outcome.Served? && outcome.handler == 1
      && "rest" in outcome.seen.params && outcome.seen.params["rest"].PathParam?
      && ReadBack(ctx.full, outcome.seen.params["rest"].range).None?
  {
    hide Advance, Serve, Try, Search, ScanOrder, ReadBack, Own;
    var a := t.children[0];
    var leaf := a.children[0];
    OnlyChildFirst(t);
    OnlyChildFirst(a);
    EntersA(t, 0, ctx);
    MatchesRest(a, 0, ctx);
    var bound := Bound(req, leaf.segment, Try(a, 0, ctx, 3).value.capture);
    LeafServes(leaf, ctx, 3, bound, policy);
    FirstTaken(a, 0, ctx, 3);
    assert [0] + [] == [0];
    FirstTaken(t, 0, ctx, 0);
    Enters(t, 0, [0], ctx, 0, req, policy);
    Enters(a, 0, [], ctx, 3, req, policy);
  }
}
