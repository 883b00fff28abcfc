/**
  The order in which static siblings were registered does not matter, at any depth: two trees that
  differ only in that order, and in the indexes that follow from it, answer every request alike.
 */
module Reordering {
  import opened Options
  import opened Http
  import opened Slices
  import opened Segments
  import opened Routes
  import opened RouteTrees
  import opened Resolver
  import opened Serving
  import opened BuiltRoutes
  import opened Compiling
  import Freezing

  // ---------------------------------------------------------------- trees

  /** The same fields, up to the children and what refers to their positions. */
  predicate SameNode(t: RouteTree, u: RouteTree) {
    u == t.(children := u.children, staticChildren := u.staticChildren, dynamicChildren := u.dynamicChildren,
            selfArc := u.selfArc)
  }

  /**
    Static children are compared by their segments, wherever they stand; the others position by
    position. The shared copies are left to the index.
   */
  ghost predicate Reordered(t: RouteTree, u: RouteTree) {
    && SameNode(t, u)
    && t.staticChildren.Keys == u.staticChildren.Keys
    && (forall key | key in t.staticChildren ::
          && t.staticChildren[key] < |t.children| && u.staticChildren[key] < |u.children|
          && Reordered(t.children[t.staticChildren[key]], u.children[u.staticChildren[key]]))
    && |t.dynamicChildren| == |u.dynamicChildren|
    && (forall k | 0 <= k < |t.dynamicChildren| ::
          && t.dynamicChildren[k] < |t.children| && u.dynamicChildren[k] < |u.children|
          && Reordered(t.children[t.dynamicChildren[k]], u.children[u.dynamicChildren[k]]))
  }

  /** The candidates that can match: the indexed child, if the path goes on, and the others. */
  ghost function Candidates(t: RouteTree, segment: Option<string>): seq<nat> {
    HitIn(t, segment) + t.dynamicChildren
  }

  ghost function HitIn(t: RouteTree, segment: Option<string>): seq<nat> {
    if segment.Some? then Hit(t, segment.value) else []
  }

  ghost function NextSegment(ctx: Ctx, off: nat): Option<string>
    requires off <= |ctx.full|
  {
    if off == |ctx.full| then None else Some(StripOneSegment(ctx.From(off), ctx.empty).0.text)
  }

  lemma CandidatesSuffice(t: RouteTree, ctx: Ctx, off: nat)
    requires NodeIndexed(t) && off <= |ctx.full|
    ensures var candidates := Candidates(t, NextSegment(ctx, off));
      Within(candidates, |t.children|) && SearchIn(t, candidates, ctx, off) == SearchIn(t, ScanOrder(t), ctx, off)
  {
    hide StripOneSegment, Try, Search, SearchIn, IndicesWhere, ScanOrder, OnlyMatches;
    if off == |ctx.full| {
      IndexAgreesAtEnd(t, [], ctx);
    } else {
      HitSuffices(t, ctx, off);
    }
  }

  ghost predicate Paired(t: RouteTree, u: RouteTree, xs: seq<nat>, ys: seq<nat>) {
    && Within(xs, |t.children|) && Within(ys, |u.children|) && |xs| == |ys|
    && forall k | 0 <= k < |xs| :: Reordered(t.children[xs[k]], u.children[ys[k]])
  }

  lemma HitsPaired(t: RouteTree, u: RouteTree, segment: Option<string>)
    requires Reordered(t, u)
    ensures Paired(t, u, HitIn(t, segment), HitIn(u, segment))
  {
    hide Reordered;
    if segment.Some? {
      ReorderedUnder(t, u, segment.value);
    }
  }

  lemma ReorderedUnder(t: RouteTree, u: RouteTree, key: string)
    requires Reordered(t, u)
    ensures key in t.staticChildren <==> key in u.staticChildren
    ensures key in t.staticChildren ==>
      && t.staticChildren[key] < |t.children| && u.staticChildren[key] < |u.children|
      && Reordered(t.children[t.staticChildren[key]], u.children[u.staticChildren[key]])
  {
    assert key in t.staticChildren.Keys <==> key in u.staticChildren.Keys;
  }

  lemma CandidatesPaired(t: RouteTree, u: RouteTree, segment: Option<string>)
    requires Reordered(t, u)
    ensures Paired(t, u, Candidates(t, segment), Candidates(u, segment))
  {
    HitsPaired(t, u, segment);
    PairedAppend(t, u, HitIn(t, segment), HitIn(u, segment), t.dynamicChildren, u.dynamicChildren);
  }

  lemma PairedAppend(t: RouteTree, u: RouteTree, xs: seq<nat>, ys: seq<nat>, xs2: seq<nat>, ys2: seq<nat>)
    requires Paired(t, u, xs, ys) && Paired(t, u, xs2, ys2)
    ensures Paired(t, u, xs + xs2, ys + ys2)
  {
    hide Reordered;
  }

  /** A node has children exactly when its indexes name some. */
  lemma SameLeaf(t: RouteTree, u: RouteTree)
    requires Reordered(t, u) && NodeIndexed(t) && NodeIndexed(u)
    ensures t.children == [] <==> u.children == []
  {
    hide IndicesWhere;
    ChildIsIndexed(t);
    ChildIsIndexed(u);
  }

  lemma ChildIsIndexed(t: RouteTree)
    requires NodeIndexed(t)
    ensures t.children == [] <==> t.staticChildren == map[] && t.dynamicChildren == []
  {
    hide IndicesWhere;
    if t.children != [] {
      assert !t.children[0].segment.Static? ==> 0 in IndicesWhere(t.children, false);
    }
    if t.staticChildren != map[] {
      var key :| key in t.staticChildren;
    }
    assert t.dynamicChildren != [] ==> t.dynamicChildren[0] < |t.children|;
  }

  lemma TryAlike(t: RouteTree, u: RouteTree, i: nat, j: nat, ctx: Ctx, off: nat)
    requires i < |t.children| && j < |u.children| && off <= |ctx.full|
    requires Reordered(t.children[i], u.children[j]) && Indexed(t.children[i]) && Indexed(u.children[j])
    ensures Try(t, i, ctx, off) == Try(u, j, ctx, off)
  {
    hide Advance, NodeIndexed;
    SameLeaf(t.children[i], u.children[j]);
  }

  lemma {:induction false} ResolvesAlike(t: RouteTree, u: RouteTree, ctx: Ctx, off: nat)
    requires Reordered(t, u) && Indexed(t) && Indexed(u) && off <= |ctx.full|
    ensures Search(t, ctx, off).Some? <==> Search(u, ctx, off).Some?
    decreases t, 0
  {
    hide Try, Search, SearchIn, Dead, NodeIndexed, Candidates, NextSegment, Reordered, ScanOrder;
    var xs, ys := Candidates(t, NextSegment(ctx, off)), Candidates(u, NextSegment(ctx, off));
    CandidatesPaired(t, u, NextSegment(ctx, off));
    CandidatesSuffice(t, ctx, off);
    CandidatesSuffice(u, ctx, off);
    forall k | 0 <= k < |xs| ensures Dead(t, xs[k], ctx, off) <==> Dead(u, ys[k], ctx, off) {
      DeadAlike(t, u, xs[k], ys[k], ctx, off);
    }
    var _ := FirstLive(t, u, xs, ys, ctx, off);
    StopsAlike(t, u, ctx, off);
  }

  lemma {:induction false} DeadAlike(t: RouteTree, u: RouteTree, i: nat, j: nat, ctx: Ctx, off: nat)
    requires i < |t.children| && j < |u.children| && off <= |ctx.full|
    requires Reordered(t.children[i], u.children[j]) && Indexed(t.children[i]) && Indexed(u.children[j])
    ensures Dead(t, i, ctx, off) <==> Dead(u, j, ctx, off)
    decreases t.children[i], 1
  {
    hide Try, Search, NodeIndexed, Reordered;
    TryAlike(t, u, i, j, ctx, off);
    if Try(t, i, ctx, off).Some? {
      ResolvesAlike(t.children[i], u.children[j], ctx, Try(t, i, ctx, off).value.next);
    }
  }

  lemma StopsAlike(t: RouteTree, u: RouteTree, ctx: Ctx, off: nat)
    requires Reordered(t, u)
    ensures Stops(t, ctx, off) <==> Stops(u, ctx, off)
  {
  }

  /** Both searches go through candidates at the same place, or both through none. */
  lemma FirstLive(t: RouteTree, u: RouteTree, xs: seq<nat>, ys: seq<nat>, ctx: Ctx, off: nat) returns (k: nat)
    requires off <= |ctx.full| && Paired(t, u, xs, ys)
    requires SearchIn(t, xs, ctx, off) == SearchIn(t, ScanOrder(t), ctx, off)
    requires SearchIn(u, ys, ctx, off) == SearchIn(u, ScanOrder(u), ctx, off)
    requires forall i | 0 <= i < |xs| :: Dead(t, xs[i], ctx, off) <==> Dead(u, ys[i], ctx, off)
    ensures k <= |xs|
    ensures if k < |xs| then Through(t, xs[k], ctx, off) && Through(u, ys[k], ctx, off)
      else Halts(t, ctx, off) && Halts(u, ctx, off)
  {
    hide Try, Search, SearchIn, ScanOrder, Reordered;
    k := FirstAlive(t, xs, ctx, off);
    FirstAliveIsFirst(t, xs, ctx, off);
    ResolvesThrough(t, xs, ctx, off, k);
    ResolvesThrough(u, ys, ctx, off, k);
  }

  /** The search goes through child `i`. */
  ghost predicate Through(t: RouteTree, i: nat, ctx: Ctx, off: nat)
    requires off <= |ctx.full|
  {
    && i < |t.children| && Try(t, i, ctx, off).Some?
    && var deeper := Search(t.children[i], ctx, Try(t, i, ctx, off).value.next);
      deeper.Some? && Search(t, ctx, off) == Some([i] + deeper.value)
  }

  /** The search goes through no child. */
  ghost predicate Halts(t: RouteTree, ctx: Ctx, off: nat)
    requires off <= |ctx.full|
  {
    Search(t, ctx, off) == if Stops(t, ctx, off) then Some([]) else None
  }

  lemma ServeAtHalt(t: RouteTree, ctx: Ctx, off: nat, req: Req, policy: Policy)
    requires off <= |ctx.full| && Halts(t, ctx, off)
    ensures Serve(t, ctx, off, req, policy) ==
      if Stops(t, ctx, off) && t.hasHandler then HandlerCall(t.handler, req) else Reply(NotFound, [])
  {
    hide Search, HandlerCall;
  }

  /** Serving does not see the order of static siblings. */
  lemma {:induction false} ServeAlike(t: RouteTree, u: RouteTree, ctx: Ctx, off: nat, req: Req, policy: Policy)
    requires Reordered(t, u) && Indexed(t) && Indexed(u) && off <= |ctx.full|
    ensures Serve(t, ctx, off, req, policy) == Serve(u, ctx, off, req, policy)
    decreases t, 0
  {
    hide Try, Search, SearchIn, Dead, NodeIndexed, Candidates, NextSegment, Reordered, ScanOrder, Serve, Stops,
      Bound, HandlerCall;
    var xs, ys := Candidates(t, NextSegment(ctx, off)), Candidates(u, NextSegment(ctx, off));
    CandidatesPaired(t, u, NextSegment(ctx, off));
    CandidatesSuffice(t, ctx, off);
    CandidatesSuffice(u, ctx, off);
    forall k | 0 <= k < |xs| ensures Dead(t, xs[k], ctx, off) <==> Dead(u, ys[k], ctx, off) {
      DeadAlike(t, u, xs[k], ys[k], ctx, off);
    }
    var k := FirstLive(t, u, xs, ys, ctx, off);
    if k < |xs| {
      var child, other := t.children[xs[k]], u.children[ys[k]];
      var hop := Try(t, xs[k], ctx, off).value;
      TryAlike(t, u, xs[k], ys[k], ctx, off);
      SameFields(child, other);
      ServeThroughChild(t, xs[k], ctx, off, req, policy);
      ServeThroughChild(u, ys[k], ctx, off, req, policy);
      ServeNodeAlike(child, other, ctx, hop.next, Bound(req, child.segment, hop.capture), policy);
    } else {
      ServeAtHalt(t, ctx, off, req, policy);
      ServeAtHalt(u, ctx, off, req, policy);
      StopsAlike(t, u, ctx, off);
      SameFields(t, u);
    }
  }

  lemma {:induction false} ServeNodeAlike(t: RouteTree, u: RouteTree, ctx: Ctx, off: nat, req: Req, policy: Policy)
    requires Reordered(t, u) && Indexed(t) && Indexed(u) && off <= |ctx.full|
    ensures ServeNode(t, ctx, off, req, policy) == ServeNode(u, ctx, off, req, policy)
    decreases t, 1
  {
    hide Serve, Reordered, Indexed, Nest;
    SameFields(t, u);
    ServeAlike(t, u, ctx, off, WithState(req, t), policy);
  }

  lemma SameFields(t: RouteTree, u: RouteTree)
    requires Reordered(t, u)
    ensures t.segment == u.segment && t.state == u.state && Own(t) == Own(u)
    ensures t.handler == u.handler && t.hasHandler == u.hasHandler
  {
  }

  /** A whole request is answered alike, events included. */
  lemma HandleAlike(t: RouteTree, u: RouteTree, ctx: Ctx, req: Req, policy: Policy)
    requires Reordered(t, u) && Indexed(t) && Indexed(u)
    ensures Handle(t, ctx, req, policy) == Handle(u, ctx, req, policy)
  {
    hide Reordered, NodeIndexed, Advance, ServeNode, Bound;
    SameFields(t, u);
    SameLeaf(t, u);
    var hop := Advance(t.segment, t.children == [], ctx, 0);
    if hop.Some? {
      ServeNodeAlike(t, u, ctx, hop.value.next, Bound(WithRootState(req, t), t.segment, hop.value.capture), policy);
    }
  }

  // ---------------------------------------------------------------- built routes

  predicate StaticPath(path: string) {
    path != "" && !Bracketed(path)
  }

  /** The positions of the children that are not static. */
  function Others(rs: seq<Route>): (ix: seq<nat>)
    ensures Within(ix, |rs|)
  {
    if rs == [] then []
    else
      var last := |rs| - 1;
      if StaticPath(rs[last].path) then Others(rs[..last]) else Others(rs[..last]) + [last]
  }

  /** The same routes at every depth, static siblings in any order; how they were created is left out. */
  ghost predicate SameButOrder(r: Route, q: Route)
    decreases r, 0
  {
    && r.path == q.path && r.handler == q.handler && r.middlewares == q.middlewares && r.state == q.state
    && (forall i | 0 <= i < |r.children| && StaticPath(r.children[i].path) :: IsAmong(r.children[i], q.children))
    && (forall j | 0 <= j < |q.children| && StaticPath(q.children[j].path) :: HasLike(r.children, q.children[j]))
    && SameInOrder(r.children, Others(r.children), q.children, Others(q.children))
  }

  ghost predicate IsAmong(r: Route, qs: seq<Route>)
    decreases r, 1
  {
    exists j | 0 <= j < |qs| :: SameButOrder(r, qs[j])
  }

  ghost predicate HasLike(rs: seq<Route>, q: Route)
    decreases rs
  {
    exists i | 0 <= i < |rs| :: SameButOrder(rs[i], q)
  }

  ghost predicate SameInOrder(rs: seq<Route>, ix: seq<nat>, qs: seq<Route>, jx: seq<nat>)
    requires Within(ix, |rs|) && Within(jx, |qs|)
    decreases rs
  {
    |ix| == |jx| && forall k | 0 <= k < |ix| :: SameButOrder(rs[ix[k]], qs[jx[k]])
  }

  lemma {:induction false} SameAsItself(r: Route)
    ensures SameButOrder(r, r)
    decreases r
  {
    hide Others, StaticPath;
    forall i | 0 <= i < |r.children| ensures SameButOrder(r.children[i], r.children[i]) {
      SameAsItself(r.children[i]);
    }
    forall i | 0 <= i < |r.children| ensures IsAmong(r.children[i], r.children) && HasLike(r.children, r.children[i]) {
      assert SameButOrder(r.children[i], r.children[i]);
    }
  }

  lemma {:induction false} SameOthers(rs: seq<Route>, qs: seq<Route>)
    requires |rs| == |qs| && forall i | 0 <= i < |rs| :: StaticPath(rs[i].path) == StaticPath(qs[i].path)
    ensures Others(rs) == Others(qs)
    ensures forall k | 0 <= k < |Others(rs)| :: !StaticPath(rs[Others(rs)[k]].path)
    decreases |rs|
  {
    hide StaticPath;
    if rs != [] {
      SameOthers(rs[..|rs| - 1], qs[..|qs| - 1]);
    }
  }

  function Swapped(rs: seq<Route>, i: nat, j: nat): seq<Route>
    requires i < |rs| && j < |rs|
  {
    rs[i := rs[j]][j := rs[i]]
  }

  /** Exchanging two static siblings is such a change of order. */
  lemma SwapIsSameButOrder(r: Route, i: nat, j: nat)
    requires i < |r.children| && j < |r.children| && StaticPath(r.children[i].path) && StaticPath(r.children[j].path)
    ensures SameButOrder(r, r.(children := Swapped(r.children, i, j)))
  {
    hide Others, StaticPath, SameButOrder, IsAmong, HasLike, SameInOrder;
    var rs, qs := r.children, Swapped(r.children, i, j);
    forall k | 0 <= k < |rs| ensures SameButOrder(rs[k], rs[k]) && IsAmong(rs[k], qs) && HasLike(rs, qs[k]) {
      var other := if k == i then j else if k == j then i else k;
      SameAsItself(rs[k]);
      SameAsItself(qs[k]);
      Among(rs[k], qs, other);
      Like(rs, other, qs[k]);
    }
    SameOthers(rs, qs);
    SameButOrderParts(r, r.(children := qs));
  }

  lemma Among(r: Route, qs: seq<Route>, j: nat)
    requires j < |qs| && SameButOrder(r, qs[j])
    ensures IsAmong(r, qs)
  {
    hide SameButOrder;
  }

  lemma Like(rs: seq<Route>, i: nat, q: Route)
    requires i < |rs| && SameButOrder(rs[i], q)
    ensures HasLike(rs, q)
  {
    hide SameButOrder;
  }

  lemma SameButOrderParts(r: Route, q: Route)
    requires r.path == q.path && r.handler == q.handler && r.middlewares == q.middlewares && r.state == q.state
    requires forall i | 0 <= i < |r.children| && StaticPath(r.children[i].path) :: IsAmong(r.children[i], q.children)
    requires forall j | 0 <= j < |q.children| && StaticPath(q.children[j].path) :: HasLike(r.children, q.children[j])
    requires |Others(r.children)| == |Others(q.children)|
    requires forall k | 0 <= k < |Others(r.children)| ::
      SameButOrder(r.children[Others(r.children)[k]], q.children[Others(q.children)[k]])
    ensures SameButOrder(r, q)
  {
    hide Others, StaticPath, IsAmong, HasLike;
  }

  lemma {:induction false} OthersCompile(rs: seq<Route>, inherited: seq<Middleware>)
    ensures IndicesWhere(CompileAll(rs, inherited), false) == Others(rs)
    decreases |rs|
  {
    hide Compile, Bracketed;
    if rs != [] {
      var last := |rs| - 1;
      OthersCompile(rs[..last], inherited);
      assert CompileAll(rs, inherited)[..last] == CompileAll(rs[..last], inherited);
      CompiledSegment(rs[last], inherited);
      ParsedStatic(rs[last].path);
    }
  }

  lemma ParsedStatic(path: string)
    ensures ParseSegment(path).Static? <==> StaticPath(path)
    ensures StaticPath(path) ==> ParseSegment(path) == Static(path)
  {
    hide Bracketed;
  }

  /** Where the compiled index sends a key, in terms of the route. */
  lemma IndexedRoute(r: Route, inherited: seq<Middleware>, key: string)
    requires Built(r)
    ensures var index := Compile(r, inherited).staticChildren;
      && (key in index ==> index[key] < |r.children| && r.children[index[key]].path == key && StaticPath(key))
      && forall i | 0 <= i < |r.children| && r.children[i].path == key && StaticPath(key) ::
        key in index && index[key] == i
  {
    hide IndicesWhere, StaticIndex, Bracketed, ParseSegment;
    var t := Compile(r, inherited);
    CompileIsIndexed(r, inherited);
    CompiledParts(r, inherited);
    forall i | 0 <= i < |r.children|
      ensures t.children[i].segment == ParseSegment(r.children[i].path)
      ensures StaticPath(r.children[i].path) ==> t.children[i].segment == Static(r.children[i].path)
      ensures t.children[i].segment.Static? ==> StaticPath(r.children[i].path)
    {
      CompiledSegment(r.children[i], t.middlewares);
      ParsedStatic(r.children[i].path);
    }
  }

  /** Such routes compile to reordered trees. */
  lemma {:induction false} CompileReordered(r: Route, q: Route, inherited: seq<Middleware>)
    requires Built(r) && Built(q) && SameButOrder(r, q)
    ensures Reordered(Compile(r, inherited), Compile(q, inherited))
    decreases r
  {
    hide Compile, Built, Others, StaticPath, IsAmong, HasLike, SameInOrder, Reordered, SameButOrder;
    var t, u := Compile(r, inherited), Compile(q, inherited);
    CompiledParts(r, inherited);
    CompiledParts(q, inherited);
    CompiledFields(r, inherited);
    CompiledFields(q, inherited);
    SameHead(r, q);
    forall i, j | 0 <= i < |r.children| && 0 <= j < |q.children| && SameButOrder(r.children[i], q.children[j])
      ensures Reordered(t.children[i], u.children[j])
    {
      ChildBuilt(r, i);
      ChildBuilt(q, j);
      CompileReordered(r.children[i], q.children[j], t.middlewares);
    }
    forall key | key in t.staticChildren || key in u.staticChildren
      ensures key in t.staticChildren && key in u.staticChildren
      ensures t.staticChildren[key] < |t.children| && u.staticChildren[key] < |u.children|
      ensures SameButOrder(r.children[t.staticChildren[key]], q.children[u.staticChildren[key]])
    {
      SameKeyed(r, q, inherited, key);
    }
    OthersSame(r, q);
    ReorderedParts(t, u);
  }

  lemma SameHead(r: Route, q: Route)
    requires SameButOrder(r, q)
    ensures r.path == q.path && r.handler == q.handler && r.middlewares == q.middlewares && r.state == q.state
  {
  }

  lemma ReorderedParts(t: RouteTree, u: RouteTree)
    requires SameNode(t, u) && t.staticChildren.Keys == u.staticChildren.Keys
    requires forall key | key in t.staticChildren ::
      && t.staticChildren[key] < |t.children| && u.staticChildren[key] < |u.children|
      && Reordered(t.children[t.staticChildren[key]], u.children[u.staticChildren[key]])
    requires |t.dynamicChildren| == |u.dynamicChildren|
    requires forall k | 0 <= k < |t.dynamicChildren| ::
      && t.dynamicChildren[k] < |t.children| && u.dynamicChildren[k] < |u.children|
      && Reordered(t.children[t.dynamicChildren[k]], u.children[u.dynamicChildren[k]])
    ensures Reordered(t, u)
  {
  }

  lemma OthersSame(r: Route, q: Route)
    requires SameButOrder(r, q)
    ensures |Others(r.children)| == |Others(q.children)|
    ensures forall k | 0 <= k < |Others(r.children)| ::
      SameButOrder(r.children[Others(r.children)[k]], q.children[Others(q.children)[k]])
  {
    hide Others, StaticPath;
  }

  /** Both indexes have the same keys, and what stands under a key is the same but for the order. */
  lemma SameKeyed(r: Route, q: Route, inherited: seq<Middleware>, key: string)
    requires Built(r) && Built(q) && SameButOrder(r, q)
    ensures var mine, other := Compile(r, inherited).staticChildren, Compile(q, inherited).staticChildren;
      (key in mine || key in other) ==>
        && key in mine && key in other && mine[key] < |r.children| && other[key] < |q.children|
        && SameButOrder(r.children[mine[key]], q.children[other[key]])
  {
    hide Compile, Built, Others, StaticPath, SameInOrder;
    var mine, other := Compile(r, inherited).staticChildren, Compile(q, inherited).staticChildren;
    IndexedRoute(r, inherited, key);
    IndexedRoute(q, inherited, key);
    if key in other {
      assert HasLike(r.children, q.children[other[key]]);
      var i :| 0 <= i < |r.children| && SameButOrder(r.children[i], q.children[other[key]]);
    }
    if key in mine {
      assert IsAmong(r.children[mine[key]], q.children);
      var j :| 0 <= j < |q.children| && SameButOrder(r.children[mine[key]], q.children[j]);
    }
  }

  lemma CompiledFields(r: Route, inherited: seq<Middleware>)
    ensures var t := Compile(r, inherited);
      && t.dynamicChildren == Others(r.children) && t.handler == r.handler && t.state == r.state
      && t.segment == ParseSegment(r.path) && (t.hasHandler <==> r.handler != map[])
  {
    hide ParseSegment, StaticIndex, IndicesWhere, Others;
    OthersCompile(r.children, inherited + r.middlewares);
  }

  /** Whatever the order in which static siblings were registered, the dispatched tree answers alike. */
  lemma StaticOrderIrrelevant(r: Route, q: Route, ctx: Ctx, req: Req, policy: Policy)
    requires Built(r) && Built(q) && SameButOrder(r, q)
    ensures Handle(Freezing.Freeze(Compile(r, [])), ctx, req, policy) ==
      Handle(Freezing.Freeze(Compile(q, [])), ctx, req, policy)
  {
    hide Handle, Compile, Built, Indexed, Reordered, SameButOrder;
    CompileIsIndexed(r, []);
    CompileIsIndexed(q, []);
    CompileReordered(r, q, []);
    HandleAlike(Compile(r, []), Compile(q, []), ctx, req, policy);
    FreezeServe(Compile(r, []), ctx, req, policy);
    FreezeServe(Compile(q, []), ctx, req, policy);
  }
}
