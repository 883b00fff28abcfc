/**
  Building a route: `Route::new` splits a pattern into a chain of nodes, and every later call that
  adds children or handlers has to find the tail of that chain again through `create_path`.
 */
module Builder {
  import opened Options
  import opened Http
  import opened States
  import opened Routes
  import opened Slices
  import Segments

  /** `trim_start_matches('/')`. */
  function TrimSlashes(s: string): (r: string)
    ensures r == "" || r[0] != SLASH
    ensures |r| <= |s|
  {
    if s != "" && s[0] == SLASH then TrimSlashes(s[1..]) else s
  }

  /** What is trimmed is exactly the slashes in front. */
  lemma {:induction false} TrimStartShape(s: string)
    ensures var n := |s| - |TrimSlashes(s)|;
      s[n..] == TrimSlashes(s) && forall i | 0 <= i < n :: s[i] == SLASH
    decreases |s|
  {
    if s != "" && s[0] == SLASH {
      TrimStartShape(s[1..]);
    }
  }

  function Bare(first: string, createPath: string): Route {
    Route(first, map[], [], [], Segments.Bracketed(first), createPath, None)
  }

  /** `Route::new`. */
  function NewRoute(pattern: string): (r: Route)
    ensures r.createPath == TrimSlashes(pattern)
    decreases |pattern|
  {
    var path := TrimSlashes(pattern);
    var (first, last) := Segments.SplitOnce(path, SLASH);
    if last == "" then Bare(first, path)
    else Bare(first, path).(children := MergeChild([], NewRoute(last)))
  }

  /** The first child with this `create_path`, or the number of children. */
  function FindCreated(children: seq<Route>, createPath: string): (k: nat)
    ensures k <= |children|
    ensures forall j | 0 <= j < k :: children[j].createPath != createPath
    ensures k < |children| ==> children[k].createPath == createPath
  {
    if children == [] || children[0].createPath == createPath then 0
    else 1 + FindCreated(children[1..], createPath)
  }

  /**
    `append`, `push` and `extend`: the routes are merged into the children of the node that
    `get_append_real_route` finds. None where its `unwrap` has no child to find.
   */
  function ExtendAt(r: Route, createPath: string, routes: seq<Route>): Option<Route> {
    if SLASH !in createPath then Some(r.(children := MergeChildren(r.children, routes)))
    else
      var last := Segments.SplitOnce(createPath, SLASH).1;
      var k := FindCreated(r.children, last);
      if k == |r.children| then None
      else
        match ExtendAt(r.children[k], last, routes)
        case None => None
        case Some(child) => Some(r.(children := r.children[k := child]))
  }

  function Extend(r: Route, routes: seq<Route>): Option<Route> {
    ExtendAt(r, r.createPath, routes)
  }

  /** `handler`: insert into the map that `get_handler_mut` finds. */
  function SetHandler(r: Route, m: Method, h: Handler): Option<Route> {
    if r.path == r.createPath then Some(r.(handler := r.handler[m := h]))
    else
      var last := Segments.SplitOnce(r.createPath, SLASH).1;
      var k := FindCreated(r.children, last);
      if k == |r.children| then None
      else
        match SetHandler(r.children[k], m, h)
        case None => None
        case Some(child) => Some(r.(children := r.children[k := child]))
  }

  // ---------------------------------------------------------------- which patterns work

  /** No empty segment: the path neither ends in a slash nor holds two in a row. */
  predicate NoEmptySegment(path: string) {
    && (path != "" ==> path[|path| - 1] != SLASH)
    && forall i | 0 <= i < |path| - 1 :: !(path[i] == SLASH && path[i + 1] == SLASH)
  }

  lemma NoEmptySegmentSplits(path: string)
    requires SLASH in path && path[0] != SLASH
    ensures var last := Segments.SplitOnce(path, SLASH).1;
      NoEmptySegment(path) <==> last != "" && last[0] != SLASH && NoEmptySegment(last)
  {
    hide Segments.SplitOnce, NoEmptySegment;
    var (first, last) := Segments.SplitOnce(path, SLASH);
    if NoEmptySegment(path) {
      EmptySegmentsDown(first, last);
    }
    if last != "" && last[0] != SLASH && NoEmptySegment(last) {
      EmptySegmentsUp(first, last);
    }
  }

  lemma EmptySegmentsDown(first: string, last: string)
    requires NoEmptySegment(first + [SLASH] + last)
    ensures last != "" && last[0] != SLASH && NoEmptySegment(last)
  {
    var path, n := first + [SLASH] + last, |first| + 1;
    assert path[n - 1] == SLASH;
    assert last != "";
    assert path[n] == last[0];
    forall i | 0 <= i < |last| - 1 ensures !(last[i] == SLASH && last[i + 1] == SLASH) {
      assert path[n + i] == last[i] && path[n + i + 1] == last[i + 1];
    }
  }

  lemma EmptySegmentsUp(first: string, last: string)
    requires SLASH !in first && last != "" && last[0] != SLASH && NoEmptySegment(last)
    ensures NoEmptySegment(first + [SLASH] + last)
  {
    var path, n := first + [SLASH] + last, |first| + 1;
    forall i | 0 <= i < |path| - 1 ensures !(path[i] == SLASH && path[i + 1] == SLASH) {
      if i < |first| {
        assert path[i] == first[i];
      } else if i >= n {
        assert path[i] == last[i - n] && path[i + 1] == last[i - n + 1];
      }
    }
  }

  lemma TrimIsIdentity(s: string)
    ensures TrimSlashes(s) == s <==> s == "" || s[0] != SLASH
  {
  }

  lemma SplitWithoutSlash(path: string)
    ensures SLASH !in path ==> Segments.SplitOnce(path, SLASH) == (path, "")
    ensures SLASH in path ==> Segments.SplitOnce(path, SLASH).0 != path
  {
  }

  /** The only child of a new route is found again exactly when its own pattern needed no trimming. */
  lemma NewRouteChild(pattern: string)
    ensures var path := TrimSlashes(pattern);
      var last := Segments.SplitOnce(path, SLASH).1;
      && NewRoute(pattern).children == (if last == "" then [] else [NewRoute(last)])
      && NewRoute(pattern).path == Segments.SplitOnce(path, SLASH).0
      && FindCreated(NewRoute(pattern).children, last) ==
        (if last != "" && last[0] != SLASH then 0 else |NewRoute(pattern).children|)
  {
    hide Segments.SplitOnce;
    var last := Segments.SplitOnce(TrimSlashes(pattern), SLASH).1;
    if last != "" {
      assert MergeChild([], NewRoute(last)) == [NewRoute(last)];
      TrimIsIdentity(last);
    }
  }

  /** Children can be added to a fresh route exactly when its trimmed pattern has no empty segment. */
  lemma {:induction false} ExtendNewIff(pattern: string, routes: seq<Route>)
    ensures Extend(NewRoute(pattern), routes).Some? <==> NoEmptySegment(TrimSlashes(pattern))
    decreases |pattern|
  {
    hide NewRoute, FindCreated, Segments.SplitOnce, NoEmptySegment, TrimSlashes;
    var path := TrimSlashes(pattern);
    NewRouteChild(pattern);
    SplitWithoutSlash(path);
    if SLASH in path {
      NoEmptySegmentSplits(path);
      var last := Segments.SplitOnce(path, SLASH).1;
      if last != "" && last[0] != SLASH {
        TrimIsIdentity(last);
        ExtendNewIff(last, routes);
      }
    } else {
      SlashFreeHasNoEmptySegment(path);
    }
  }

  lemma SlashFreeHasNoEmptySegment(path: string)
    requires SLASH !in path
    ensures NoEmptySegment(path)
  {
  }

  /** The same holds for adding a handler. */
  lemma {:induction false} SetHandlerNewIff(pattern: string, m: Method, h: Handler)
    ensures SetHandler(NewRoute(pattern), m, h).Some? <==> NoEmptySegment(TrimSlashes(pattern))
    decreases |pattern|
  {
    hide NewRoute, FindCreated, Segments.SplitOnce, NoEmptySegment, TrimSlashes;
    var path := TrimSlashes(pattern);
    NewRouteChild(pattern);
    SplitWithoutSlash(path);
    if SLASH in path {
      NoEmptySegmentSplits(path);
      var last := Segments.SplitOnce(path, SLASH).1;
      if last != "" && last[0] != SLASH {
        TrimIsIdentity(last);
        SetHandlerNewIff(last, m, h);
      }
    } else {
      SlashFreeHasNoEmptySegment(path);
    }
  }

  /** A doubled and a trailing slash are such patterns: adding a child to either panics. */
  lemma DoubledAndTrailingSlashFail(routes: seq<Route>)
    ensures Extend(NewRoute("a//b"), routes).None? && Extend(NewRoute("a/"), routes).None?
  {
    hide Extend, NewRoute;
    ExtendNewIff("a//b", routes);
    ExtendNewIff("a/", routes);
    TrimIsIdentity("a//b");
    TrimIsIdentity("a/");
    assert "a//b"[1] == SLASH && "a//b"[2] == SLASH;
    assert "a/"[1] == SLASH;
  }

  // ---------------------------------------------------------------- the chain of a pattern

  function Join(segs: seq<string>): string {
    if segs == [] then "" else if |segs| == 1 then segs[0] else segs[0] + [SLASH] + Join(segs[1..])
  }

  predicate GoodSegment(s: string) {
    s != "" && SLASH !in s
  }

  predicate GoodSegments(segs: seq<string>) {
    segs != [] && forall i | 0 <= i < |segs| :: GoodSegment(segs[i])
  }

  /** One node per segment, each the only child of the one before. */
  function Chain(segs: seq<string>): Route
    requires segs != []
  {
    Bare(segs[0], Join(segs)).(children := if |segs| == 1 then [] else [Chain(segs[1..])])
  }

  lemma JoinSplits(segs: seq<string>)
    requires GoodSegments(segs)
    ensures Join(segs) != "" && Join(segs)[0] != SLASH
    ensures |segs| > 1 ==> Segments.SplitOnce(Join(segs), SLASH) == (segs[0], Join(segs[1..]))
    ensures |segs| == 1 ==> SLASH !in Join(segs)
    ensures |segs| > 1 ==> SLASH in Join(segs)
  {
    if |segs| > 1 {
      SplitAtFirstSlash(segs[0], Join(segs[1..]));
    }
    assert GoodSegment(segs[0]);
  }

  lemma SplitAtFirstSlash(first: string, rest: string)
    requires SLASH !in first
    ensures SLASH in first + [SLASH] + rest
    ensures Segments.SplitOnce(first + [SLASH] + rest, SLASH) == (first, rest)
  {
    hide IndexOf;
    var s := first + [SLASH] + rest;
    assert s[|first|] == SLASH;
    var i := IndexOf(s, SLASH).value;
    assert i >= |first|;
    assert s[|first|] !in s[..i];
    assert s[..|first|] == first && s[|first| + 1..] == rest;
  }

  lemma {:induction false} JoinedIsChain(segs: seq<string>)
    requires GoodSegments(segs)
    ensures NewRoute(Join(segs)) == Chain(segs)
    decreases |segs|
  {
    hide Segments.SplitOnce, Segments.Bracketed, Join;
    JoinSplits(segs);
    TrimIsIdentity(Join(segs));
    NewRouteChild(Join(segs));
    if |segs| > 1 {
      JoinSplits(segs[1..]);
      JoinedIsChain(segs[1..]);
    } else {
      EmptyOrGood(segs);
      SplitWithoutSlash(Join(segs));
    }
  }

  lemma LeadingSlashIgnored(pattern: string)
    ensures NewRoute([SLASH] + pattern) == NewRoute(pattern)
  {
    assert ([SLASH] + pattern)[1..] == pattern;
  }

  /** No number of leading slashes makes a difference. */
  lemma {:induction false} TrimmedAlike(pattern: string)
    ensures NewRoute(pattern) == NewRoute(TrimSlashes(pattern))
    decreases |pattern|
  {
    hide NewRoute;
    if pattern != "" && pattern[0] == SLASH {
      assert pattern == [SLASH] + pattern[1..];
      LeadingSlashIgnored(pattern[1..]);
      TrimmedAlike(pattern[1..]);
    }
  }

  /**
    A pattern without empty segments behind its leading slashes becomes the chain whose paths, joined,
    give the trimmed pattern back.
   */
  lemma NewRouteIsChain(pattern: string, segs: seq<string>)
    requires GoodSegments(segs) && TrimSlashes(pattern) == Join(segs)
    ensures NewRoute(pattern) == Chain(segs)
  {
    hide NewRoute, Chain, Join;
    TrimmedAlike(pattern);
    JoinedIsChain(segs);
  }

  // ---------------------------------------------------------------- keeping the tail

  /** The route still carries the chain it was created with; only its tail has other children. */
  predicate Spine(r: Route, segs: seq<string>)
    requires segs != []
  {
    && r.path == segs[0] && r.createPath == Join(segs) && r.special == Segments.Bracketed(segs[0])
    && (|segs| > 1 ==> |r.children| == 1 && Spine(r.children[0], segs[1..]))
  }

  function TailOf(r: Route, n: nat): Route {
    if n == 0 || r.children == [] then r else TailOf(r.children[0], n - 1)
  }

  /** `r` with the node `n` levels down its chain replaced. */
  function ReplaceTail(r: Route, n: nat, tail: Route): Route {
    if n == 0 || r.children == [] then tail else r.(children := [ReplaceTail(r.children[0], n - 1, tail)])
  }

  /** An empty pattern is a chain of one nameless node. */
  predicate SpineSegments(segs: seq<string>) {
    segs == [""] || GoodSegments(segs)
  }

  lemma {:induction false} ChainIsSpine(segs: seq<string>)
    requires segs != []
    ensures Spine(Chain(segs), segs)
    decreases |segs|
  {
    if |segs| > 1 {
      ChainIsSpine(segs[1..]);
    }
  }

  /** Adding children finds the tail, changes its children and nothing above it. */
  lemma {:induction false} ExtendFindsTail(r: Route, segs: seq<string>, routes: seq<Route>)
    requires SpineSegments(segs) && Spine(r, segs)
    ensures var tail := TailOf(r, |segs| - 1);
      Extend(r, routes) == Some(ReplaceTail(r, |segs| - 1, tail.(children := MergeChildren(tail.children, routes))))
    decreases |segs|
  {
    hide Segments.SplitOnce, Segments.Bracketed, Join, MergeChildren;
    if |segs| > 1 {
      JoinSplits(segs);
      ExtendFindsTail(r.children[0], segs[1..], routes);
      assert r.children[0 := Extend(r.children[0], routes).value] == [Extend(r.children[0], routes).value];
    } else {
      EmptyOrGood(segs);
    }
  }

  lemma EmptyOrGood(segs: seq<string>)
    requires SpineSegments(segs) && |segs| == 1
    ensures Join(segs) == segs[0] && SLASH !in Join(segs)
  {
    assert segs != [""] ==> GoodSegment(segs[0]);
  }

  lemma {:induction false} SetHandlerFindsTail(r: Route, segs: seq<string>, m: Method, h: Handler)
    requires SpineSegments(segs) && Spine(r, segs)
    ensures var tail := TailOf(r, |segs| - 1);
      SetHandler(r, m, h) == Some(ReplaceTail(r, |segs| - 1, tail.(handler := tail.handler[m := h])))
    decreases |segs|
  {
    hide Segments.SplitOnce, Segments.Bracketed, Join;
    if |segs| > 1 {
      JoinSplits(segs);
      SetHandlerFindsTail(r.children[0], segs[1..], m, h);
      SplitWithoutSlash(Join(segs));
      var child := SetHandler(r.children[0], m, h).value;
      assert r.children[0 := child] == [child];
    } else {
      EmptyOrGood(segs);
    }
  }

  lemma {:induction false} ReplaceTailKeepsSpine(r: Route, segs: seq<string>, tail: Route)
    requires segs != [] && Spine(r, segs)
    requires var before := TailOf(r, |segs| - 1);
      tail.path == before.path && tail.createPath == before.createPath && tail.special == before.special
    ensures Spine(ReplaceTail(r, |segs| - 1, tail), segs)
    decreases |segs|
  {
    hide Join, Segments.Bracketed;
    if |segs| > 1 {
      ReplaceTailKeepsSpine(r.children[0], segs[1..], tail);
    }
  }

  // ---------------------------------------------------------------- whole sequences of calls

  datatype Call =
    | AddChildren(routes: seq<Route>)
    | AddHandler(m: Method, h: Handler)
    | InsertHandler(m: Method, h: Handler)
    | Hook(mw: Middleware)
    | HookFirst(mw: Middleware)
    | WithState(k: TypeId, v: Value)

  function Apply(r: Route, call: Call): Option<Route> {
    match call
    case AddChildren(routes) => Extend(r, routes)
    case AddHandler(m, h) => SetHandler(r, m, h)
    case InsertHandler(m, h) => Some(r.(handler := r.handler[m := h]))
    case Hook(mw) => Some(r.(middlewares := r.middlewares + [mw]))
    case HookFirst(mw) => Some(r.(middlewares := [mw] + r.middlewares))
    case WithState(k, v) =>
      Some(r.(state := Some(Overlay(if r.state.Some? then r.state.value else None, Some(map[k := v])))))
  }

  function ApplyAll(r: Route, calls: seq<Call>): Option<Route>
    decreases |calls|
  {
    if calls == [] then Some(r)
    else
      var next := Apply(r, calls[0]);
      if next.None? then None else ApplyAll(next.value, calls[1..])
  }

  lemma ApplyKeepsSpine(r: Route, segs: seq<string>, call: Call)
    requires SpineSegments(segs) && Spine(r, segs)
    ensures Apply(r, call).Some? && Spine(Apply(r, call).value, segs)
  {
    hide Extend, SetHandler, TailOf, ReplaceTail, MergeChildren, Join, Segments.Bracketed;
    var tail := TailOf(r, |segs| - 1);
    match call
    case AddChildren(routes) =>
      ExtendFindsTail(r, segs, routes);
      ReplaceTailKeepsSpine(r, segs, tail.(children := MergeChildren(tail.children, routes)));
    case AddHandler(m, h) =>
      SetHandlerFindsTail(r, segs, m, h);
      ReplaceTailKeepsSpine(r, segs, tail.(handler := tail.handler[m := h]));
    case _ =>
  }

  /** No sequence of builder calls on a well-formed pattern ever fails to find the tail. */
  lemma {:induction false} BuilderNeverLosesTail(r: Route, segs: seq<string>, calls: seq<Call>)
    requires SpineSegments(segs) && Spine(r, segs)
    ensures ApplyAll(r, calls).Some? && Spine(ApplyAll(r, calls).value, segs)
    decreases |calls|
  {
    hide Spine, SpineSegments, Apply;
    if calls != [] {
      ApplyKeepsSpine(r, segs, calls[0]);
      BuilderNeverLosesTail(Apply(r, calls[0]).value, segs, calls[1..]);
    }
  }

  /** The segments of a trimmed pattern. */
  function SegmentsIn(path: string): (segs: seq<string>)
    ensures segs != []
    decreases |path|
  {
    if SLASH !in path then [path]
    else
      var (first, last) := Segments.SplitOnce(path, SLASH);
      [first] + SegmentsIn(last)
  }

  lemma {:induction false} SegmentsInJoin(path: string)
    requires NoEmptySegment(path) && (path == "" || path[0] != SLASH)
    ensures Join(SegmentsIn(path)) == path
    ensures if path == "" then SegmentsIn(path) == [""] else GoodSegments(SegmentsIn(path))
    decreases |path|
  {
    hide NoEmptySegment, Segments.SplitOnce;
    if SLASH in path {
      var (first, last) := Segments.SplitOnce(path, SLASH);
      NoEmptySegmentSplits(path);
      SegmentsInJoin(last);
      assert first != "";
      assert SegmentsIn(path)[1..] == SegmentsIn(last);
    }
  }

  lemma NewRouteIsSpine(pattern: string)
    requires NoEmptySegment(TrimSlashes(pattern))
    ensures var segs := SegmentsIn(TrimSlashes(pattern));
      SpineSegments(segs) && Spine(NewRoute(pattern), segs)
  {
    hide NoEmptySegment, NewRoute, Segments.Bracketed, GoodSegments, SegmentsIn, Chain;
    var path := TrimSlashes(pattern);
    SegmentsInJoin(path);
    if path == "" {
      TrimmedAlike(pattern);
      EmptyIsSpine();
    } else {
      NewRouteIsChain(pattern, SegmentsIn(path));
      ChainIsSpine(SegmentsIn(path));
    }
  }

  lemma EmptyIsSpine()
    ensures Spine(NewRoute(""), [""])
  {
    NewRouteChild("");
    assert NewRoute("").createPath == "";
  }

  ghost predicate AllCallsWork(r: Route) {
    forall calls :: ApplyAll(r, calls).Some?
  }

  /** Every sequence of builder calls on a fresh route works exactly when its trimmed pattern has no empty segment. */
  lemma AllCallsWorkIff(pattern: string)
    ensures AllCallsWork(NewRoute(pattern)) <==> NoEmptySegment(TrimSlashes(pattern))
  {
    hide NewRoute, NoEmptySegment, TrimSlashes, Spine, SegmentsIn, ExtendAt;
    if NoEmptySegment(TrimSlashes(pattern)) {
      NewRouteIsSpine(pattern);
      forall calls ensures ApplyAll(NewRoute(pattern), calls).Some? {
        BuilderNeverLosesTail(NewRoute(pattern), SegmentsIn(TrimSlashes(pattern)), calls);
      }
    } else {
      ExtendNewIff(pattern, []);
      var calls := [AddChildren([])];
      assert Apply(NewRoute(pattern), calls[0]).None?;
      assert !ApplyAll(NewRoute(pattern), calls).Some?;
    }
  }
}
