/**
  End to end: routes registered one by one or in groups under an empty root, merged, compiled and
  frozen, answer a request exactly as the table of registrations says.
 */
module Tables {
  import opened Options
  import opened Http
  import opened Slices
  import opened Segments
  import opened Routes
  import opened RouteTables
  import opened RouteTrees
  import opened BuiltRoutes
  import opened Builder
  import opened Serving
  import opened Compiling
  import Freezing
  import Resolver

  /** One registration: a static pattern, a method and its handler. */
  datatype Entry = Entry(segs: seq<string>, m: Method, h: Handler)

  predicate StaticSegments(segs: seq<string>) {
    forall i | 0 <= i < |segs| :: GoodSegment(segs[i]) && !Bracketed(segs[i])
  }

  predicate GoodTable(table: seq<Entry>) {
    forall k | 0 <= k < |table| :: table[k].segs != [] && StaticSegments(table[k].segs)
  }

  /** The first handler registered for these segments and this method. */
  function First(table: seq<Entry>, segs: seq<string>, m: Method): Option<Handler> {
    if table == [] then None
    else
      var last := table[|table| - 1];
      OrElse(First(table[..|table| - 1], segs, m), if last.segs == segs && last.m == m then Some(last.h) else None)
  }

  ghost predicate Registered(table: seq<Entry>, segs: seq<string>) {
    exists k | 0 <= k < |table| :: table[k].segs == segs
  }

  /** What the table promises for a request. */
  ghost function Expected(table: seq<Entry>, segs: seq<string>, req: Req): Reply {
    var exact, get := First(table, segs, req.verb), First(table, segs, GET);
    if exact.Some? then Reply(Served(exact.value, false, req), [Ran(exact.value)])
    else if req.verb == HEAD && get.Some? then Reply(Served(get.value, true, req), [Ran(get.value)])
    else if Registered(table, segs) then Reply(MethodNotAllowed, [])
    else Reply(NotFound, [])
  }

  /** The segments the router cuts a request path into, one after the other. */
  function SegmentsOf(path: string): seq<string>
    decreases |path|
  {
    if path == "" then []
    else
      var (segment, remain) := StripOneSegment(Slice(0, path), 0);
      CutShrinks(Slice(0, path), 0);
      [segment.text] + SegmentsOf(remain.text)
  }

  lemma CutShrinks(path: Slice, empty: nat)
    requires path.text != ""
    ensures |StripOneSegment(path, empty).1.text| < |path.text|
  {
    hide StripOneSegment, CutsTail;
  }

  /** Where a slice is stored does not matter for the texts cut out of it. */
  lemma CutTexts(path: Slice, empty: nat)
    ensures var (a, b) := StripOneSegment(path, empty);
      var (c, d) := StripOneSegment(Slice(0, path.text), 0);
      a.text == c.text && b.text == d.text
  {
    hide StripOneSegment, StripLeadingSlash, CutsTail, CutAs, IsSuffix;
    var alone := Slice(0, path.text);
    SameTrim(path);
    if StripLeadingSlash(path).text == "" {
      EmptySegment(path, empty);
      EmptySegment(alone, 0);
    } else {
      CutShape(path, empty);
      CutShape(alone, 0);
      var (a, b) := StripOneSegment(path, empty);
      var (c, d) := StripOneSegment(alone, 0);
      OneCut(StripLeadingSlash(path).text, a.text, b.text, c.text, d.text);
    }
  }

  lemma SameTrim(path: Slice)
    ensures StripLeadingSlash(path).text == StripLeadingSlash(Slice(0, path.text)).text
  {
  }

  // ---------------------------------------------------------------- one registration

  /** The chain of a pattern with a handler at its tail. */
  function Branch(segs: seq<string>, m: Method, h: Handler): Route
    requires segs != []
  {
    Bare(segs[0], Join(segs)).(
      handler := if |segs| == 1 then map[m := h] else map[],
      children := if |segs| == 1 then [] else [Branch(segs[1..], m, h)])
  }

  /** `Route::new(pattern)`, with any leading slashes, and one handler call build exactly that chain. */
  lemma {:induction false} NewWithHandler(pattern: string, segs: seq<string>, m: Method, h: Handler)
    requires GoodSegments(segs) && TrimSlashes(pattern) == Join(segs)
    ensures SetHandler(NewRoute(pattern), m, h) == Some(Branch(segs, m, h))
  {
    hide Join, NewRoute, SetHandler;
    NewRouteIsChain(pattern, segs);
    ChainIsSpine(segs);
    SetHandlerFindsTail(Chain(segs), segs, m, h);
    ChainWithHandler(segs, m, h);
  }

  lemma {:induction false} ChainWithHandler(segs: seq<string>, m: Method, h: Handler)
    requires segs != []
    ensures var tail := TailOf(Chain(segs), |segs| - 1);
      ReplaceTail(Chain(segs), |segs| - 1, tail.(handler := tail.handler[m := h])) == Branch(segs, m, h)
    decreases |segs|
  {
    hide Join;
    if |segs| > 1 {
      ChainWithHandler(segs[1..], m, h);
    }
  }

  lemma ConsEqual(a: seq<string>, b: seq<string>)
    requires a != [] && b != []
    ensures a == b <==> a[0] == b[0] && a[1..] == b[1..]
  {
    assert a == [a[0]] + a[1..] && b == [b[0]] + b[1..];
  }

  function KeysOf(segs: seq<string>): seq<Key> {
    seq(|segs|, i requires 0 <= i < |segs| => KeyOf(segs[i], false))
  }

  lemma KeysOfCons(segs: seq<string>)
    ensures segs == [] ==> KeysOf(segs) == []
    ensures segs != [] ==>
      KeysOf(segs) != [] && KeysOf(segs)[0] == KeyOf(segs[0], false) && KeysOf(segs)[1..] == KeysOf(segs[1..])
  {
  }

  lemma {:induction false} BranchWellFormed(segs: seq<string>, m: Method, h: Handler)
    requires segs != [] && StaticSegments(segs)
    ensures WellFormed(Branch(segs, m, h)) && Branch(segs, m, h).Key() == KeyOf(segs[0], false)
    decreases |segs|
  {
    hide Join, Bracketed, GoodSegment;
    if |segs| > 1 {
      BranchWellFormed(segs[1..], m, h);
    }
  }

  lemma OnlyChild(child: Route, key: Key)
    ensures ChildAt([child], key) == if child.Key() == key then Some(child) else None
  {
  }

  lemma {:induction false} BranchTable(segs: seq<string>, m: Method, h: Handler, rest: seq<string>, verb: Method)
    requires segs != [] && StaticSegments(segs)
    ensures TableLookup(Branch(segs, m, h), KeysOf(rest), verb) ==
      if rest == segs[1..] && verb == m then Some(h) else None
    decreases |segs|
  {
    hide Join, Bracketed, ChildAt, GoodSegment, KeysOf, TableLookup, RouteAt;
    KeysOfCons(rest);
    LookupUnfolds(Branch(segs, m, h), KeysOf(rest), verb);
    if rest != [] {
      if |segs| > 1 {
        BranchWellFormed(segs[1..], m, h);
        BranchTable(segs[1..], m, h, rest[1..], verb);
        OnlyChild(Branch(segs[1..], m, h), KeysOf(rest)[0]);
        ConsEqual(rest, segs[1..]);
      } else {
        NoChild(KeysOf(rest)[0]);
      }
    }
  }

  // ---------------------------------------------------------------- the whole table

  function Branches(table: seq<Entry>): seq<Route>
    requires GoodTable(table)
  {
    seq(|table|, k requires 0 <= k < |table| => Branch(table[k].segs, table[k].m, table[k].h))
  }

  function RootOf(table: seq<Entry>): Route
    requires GoodTable(table)
  {
    NewRoute("").(children := MergeChildren([], Branches(table)))
  }

  /** Groups registered by `append`, `push` or `extend` calls, in turn, on the root. */
  function RegisterAll(root: Route, groups: seq<seq<Entry>>): Option<Route>
    requires forall g | 0 <= g < |groups| :: GoodTable(groups[g])
    decreases |groups|
  {
    if groups == [] then Some(root)
    else
      match Extend(root, Branches(groups[0]))
      case None => None
      case Some(next) => RegisterAll(next, groups[1..])
  }

  function Flatten(groups: seq<seq<Entry>>): seq<Entry> {
    if groups == [] then [] else groups[0] + Flatten(groups[1..])
  }

  lemma {:induction false} FlattenGood(groups: seq<seq<Entry>>)
    requires forall g | 0 <= g < |groups| :: GoodTable(groups[g])
    ensures GoodTable(Flatten(groups))
    decreases |groups|
  {
    hide StaticSegments;
    if groups != [] {
      FlattenGood(groups[1..]);
    }
  }

  /** Grouping does not matter: the result is the root of the flattened table. */
  lemma {:induction false} RegisterAllIsRootOf(done: seq<Entry>, groups: seq<seq<Entry>>)
    requires GoodTable(done) && forall g | 0 <= g < |groups| :: GoodTable(groups[g])
    ensures GoodTable(done + Flatten(groups))
    ensures RegisterAll(RootOf(done), groups) == Some(RootOf(done + Flatten(groups)))
    decreases |groups|
  {
    hide MergeChildren, StaticSegments;
    FlattenGood(groups);
    if groups == [] {
      assert done + Flatten(groups) == done;
    } else {
      var next := done + groups[0];
      assert Branches(next) == Branches(done) + Branches(groups[0]);
      MergeChildrenSplit([], Branches(done), Branches(groups[0]));
      assert next + Flatten(groups[1..]) == done + Flatten(groups);
      RegisterAllIsRootOf(next, groups[1..]);
    }
  }

  /** The merged root looks up, for every list of segments, what was registered first. */
  lemma {:induction false} RootTable(table: seq<Entry>, segs: seq<string>, m: Method)
    requires GoodTable(table) && segs != []
    ensures TableLookup(RootOf(table), KeysOf(segs), m) == First(table, segs, m)
    decreases |table|
  {
    hide MergeChild, TableLookup, StaticSegments, RouteAt, KeysOf, Branch, NewRoute;
    if table == [] {
      EmptyRootTable(segs, m);
    } else {
      var rest, last := table[..|table| - 1], table[|table| - 1];
      RootTable(rest, segs, m);
      assert Branches(table)[..|table| - 1] == Branches(rest);
      BranchWellFormed(last.segs, last.m, last.h);
      BranchTable(last.segs, last.m, last.h, segs[1..], m);
      MergeChildIsUnion(RootOf(rest), Branch(last.segs, last.m, last.h), KeysOf(segs), m);
      KeysOfCons(segs);
      ConsEqual(segs, last.segs);
    }
  }

  lemma EmptyRootTable(segs: seq<string>, m: Method)
    requires segs != []
    ensures TableLookup(RootOf([]), KeysOf(segs), m) == None
  {
    NoChild(KeysOf(segs)[0]);
  }

  lemma {:induction false} EntryIsFound(table: seq<Entry>, segs: seq<string>, k: nat)
    requires k < |table| && table[k].segs == segs
    ensures First(table, segs, table[k].m).Some?
    decreases |table|
  {
    if k < |table| - 1 {
      EntryIsFound(table[..|table| - 1], segs, k);
    }
  }

  lemma {:induction false} FoundIsEntry(table: seq<Entry>, segs: seq<string>, m: Method) returns (k: nat)
    requires First(table, segs, m).Some?
    ensures k < |table| && table[k].segs == segs && table[k].m == m && First(table, segs, m) == Some(table[k].h)
    ensures forall j | 0 <= j < k :: !(table[j].segs == segs && table[j].m == m)
    decreases |table|
  {
    var rest := table[..|table| - 1];
    if First(rest, segs, m).Some? {
      k := FoundIsEntry(rest, segs, m);
      assert forall j | 0 <= j < k :: rest[j] == table[j];
    } else {
      k := |table| - 1;
      forall j | 0 <= j < k ensures !(table[j].segs == segs && table[j].m == m) {
        if table[j].segs == segs && table[j].m == m {
          EntryIsFound(rest, segs, j);
        }
      }
    }
  }

  // ---------------------------------------------------------------- dispatch in a static tree

  predicate StaticNode(h: Route) {
    h.path != "" && PlainNode(h)
  }

  /** No middleware, no state, not a parameter. */
  predicate PlainNode(h: Route) {
    h.middlewares == [] && h.state.None? && !h.special && !Bracketed(h.path)
  }

  ghost predicate StaticRoute(r: Route) {
    Built(r) && PlainNode(Head(r)) && EverywhereIn(r.children, StaticNode)
  }

  function Leftover(segs: seq<string>): string {
    if segs == [] then "" else Join(segs)
  }

  /** Cutting one segment off a joined path gives the first segment and the joined rest. */
  lemma CutJoined(segs: seq<string>, path: Slice, empty: nat)
    requires GoodSegments(segs)
    requires path.text == Join(segs) || path.text == [SLASH] + Join(segs)
    ensures StripOneSegment(path, empty).0.text == segs[0]
    ensures StripOneSegment(path, empty).1.text == Leftover(segs[1..])
  {
    hide Join, StripLeadingSlash, StripOneSegment, GoodSegments;
    TrimJoined(segs, path);
    CutShape(path, empty);
    JoinShape(segs);
    var text := Join(segs);
    var (segment, remain) := StripOneSegment(path, empty);
    if |segs| > 1 {
      SameCut(text, segment.text, remain.text, segs[0], Join(segs[1..]));
    } else {
      WholeCut(text, segment.text, remain.text);
    }
  }

  lemma TrimJoined(segs: seq<string>, path: Slice)
    requires GoodSegments(segs)
    requires path.text == Join(segs) || path.text == [SLASH] + Join(segs)
    ensures StripLeadingSlash(path).text == Join(segs) && Join(segs) != ""
  {
    hide Join;
    JoinSplits(segs);
    if path.text != Join(segs) {
      assert path.text[1..] == Join(segs);
    }
  }

  lemma WholeCut(text: string, a: string, x: string)
    requires a <= text && SLASH !in text
    requires if |a| == |text| then x == "" else text[|a|] == SLASH && x == text[|a| + 1..]
    ensures a == text && x == ""
  {
  }

  lemma JoinShape(segs: seq<string>)
    requires GoodSegments(segs)
    ensures |segs| == 1 ==> Join(segs) == segs[0]
    ensures |segs| > 1 ==> Join(segs) == segs[0] + [SLASH] + Join(segs[1..])
    ensures segs != [] && SLASH !in segs[0]
  {
    assert GoodSegment(segs[0]);
  }

  lemma SameCut(text: string, a: string, x: string, b: string, y: string)
    requires a <= text && SLASH !in a && SLASH !in b && text == b + [SLASH] + y
    requires if |a| == |text| then x == "" else text[|a|] == SLASH && x == text[|a| + 1..]
    ensures a == b && x == y
  {
    assert text[|b|] == SLASH;
    assert |a| == |b|;
    assert a == text[..|b|] == b;
  }

  /** Where the search can only go into one child, serving is serving that child, or nothing. */
  lemma OneWayIn(t: RouteTree, i: nat, ctx: Ctx, off: nat, req: Req, policy: Policy)
    requires off < |ctx.full| && !t.segment.FullPath? && i < |t.children|
    requires SearchIn(t, ScanOrder(t), ctx, off) == SearchIn(t, [i], ctx, off)
    requires var hop := Try(t, i, ctx, off);
      hop.Some? && hop.value.capture.None? && (t.children[i].segment.Static? || t.children[i].segment.Root?)
    requires Own(t.children[i]) == [] && t.children[i].state.None?
    ensures Serve(t, ctx, off, req, policy) == Serve(t.children[i], ctx, Try(t, i, ctx, off).value.next, req, policy)
  {
    hide Try, Search, SearchIn, ScanOrder, Serve, Own;
    var next := Try(t, i, ctx, off).value.next;
    SearchInAt(t, [i], ctx, off, if Search(t.children[i], ctx, next).Some? then 0 else 1);
    SearchUnfolds(t, ctx, off);
    if Search(t.children[i], ctx, next).Some? {
      ServeThroughChild(t, i, ctx, off, req, policy);
    } else {
      ServeNothing(t, ctx, off, req, policy);
      ServeNothing(t.children[i], ctx, next, req, policy);
    }
  }

  lemma SearchUnfolds(t: RouteTree, ctx: Ctx, off: nat)
    requires off <= |ctx.full|
    ensures Search(t, ctx, off) ==
      var below := SearchIn(t, ScanOrder(t), ctx, off);
      if below.Some? then below else if Stops(t, ctx, off) then Some([]) else None
  {
  }

  lemma ServeNothing(t: RouteTree, ctx: Ctx, off: nat, req: Req, policy: Policy)
    requires off <= |ctx.full| && Search(t, ctx, off).None?
    ensures Serve(t, ctx, off, req, policy) == Reply(NotFound, [])
  {
  }

  /** What a static node found in the route answers. */
  function Answer(at: Option<Route>, req: Req): Reply {
    if at.Some? && at.value.handler != map[] then HandlerCall(at.value.handler, req) else Reply(NotFound, [])
  }

  /** A static route compiles to a node with static children only, and keeps that for its children. */
  lemma StaticCompiled(r: Route)
    requires StaticRoute(r)
    ensures var t := Compile(r, []);
      && Resolver.NodeIndexed(t) && t.dynamicChildren == [] && !t.segment.FullPath?
      && Own(t) == [] && t.state.None? && t.middlewares == [] && t.handler == r.handler && |t.children| == |r.children|
    ensures forall i | 0 <= i < |r.children| ::
      && Compile(r, []).children[i] == Compile(r.children[i], [])
      && Compile(r, []).children[i].segment == Static(r.children[i].path)
      && r.children[i].Key() == KeyOf(r.children[i].path, false)
      && StaticRoute(r.children[i])
  {
    hide IndicesWhere, StaticIndex, SpecialSegment;
    CompileIsIndexed(r, []);
    NoOthers(Compile(r, []).children);
    assert [] + r.middlewares == [];
    var t := Compile(r, []);
    forall i | 0 <= i < |r.children|
      ensures t.children[i].segment == Static(r.children[i].path)
      ensures StaticRoute(r.children[i]) && !r.children[i].special
    {
      ChildBuilt(r, i);
      StaticChild(r, i);
    }
  }

  lemma NoOthers(children: seq<RouteTree>)
    ensures (forall i | 0 <= i < |children| :: children[i].segment.Static?) ==> IndicesWhere(children, false) == []
  {
    hide IndicesWhere;
    var others := IndicesWhere(children, false);
    assert others != [] ==> !children[others[0]].segment.Static?;
  }

  lemma StaticChild(r: Route, i: nat)
    requires StaticRoute(r) && i < |r.children|
    ensures StaticNode(Head(r.children[i])) && EverywhereIn(r.children[i].children, StaticNode)
  {
    assert Everywhere(r.children[i], StaticNode);
  }

  /** At a static node the index alone decides where the search goes. */
  lemma IndexDecides(t: RouteTree, segment: string, ctx: Ctx, off: nat)
    requires Resolver.NodeIndexed(t) && t.dynamicChildren == [] && off <= |ctx.full|
    requires Resolver.OnlyMatches(t, segment, ctx, off)
    ensures segment in t.staticChildren ==>
      && t.staticChildren[segment] < |t.children|
      && SearchIn(t, [t.staticChildren[segment]], ctx, off) == SearchIn(t, ScanOrder(t), ctx, off)
    ensures segment !in t.staticChildren ==> SearchIn(t, [], ctx, off) == SearchIn(t, ScanOrder(t), ctx, off)
  {
    hide Search, SearchIn, Try, IndicesWhere, ScanOrder, Resolver.OnlyMatches;
    Resolver.IndexAgreesInside(t, segment, ctx, off);
    assert [] + t.dynamicChildren == [];
    if segment in t.staticChildren {
      assert [t.staticChildren[segment]] + t.dynamicChildren == [t.staticChildren[segment]];
    }
  }

  /** One step: into the child indexed under the next segment, or nowhere. */
  lemma ServeOneStep(r: Route, ctx: Ctx, off: nat, req: Req, policy: Policy) returns (next: nat)
    requires StaticRoute(r) && off < |ctx.full|
    ensures off < next <= |ctx.full| && ctx.full[next..] == StripOneSegment(ctx.From(off), ctx.empty).1.text
    ensures var child := ChildAt(r.children, KeyOf(StripOneSegment(ctx.From(off), ctx.empty).0.text, false));
      if child.None? then Serve(Compile(r, []), ctx, off, req, policy) == Reply(NotFound, [])
      else
        && StaticRoute(child.value)
        && Serve(Compile(r, []), ctx, off, req, policy) == Serve(Compile(child.value, []), ctx, next, req, policy)
  {
    hide Search, SearchIn, Try, Compile, Serve, StripOneSegment, IndicesWhere, Resolver.NodeIndexed,
      Resolver.OnlyMatches, ScanOrder, ChildAt, StaticRoute, Own;
    var t := Compile(r, []);
    var (segment, remain) := StripOneSegment(ctx.From(off), ctx.empty);
    StaticCompiled(r);
    Resolver.IndexedSegmentOnly(t, ctx, off);
    IndexDecides(t, segment.text, ctx, off);
    DistinctChildren(r);
    CutShrinks(ctx.From(off), ctx.empty);
    StripIsTail(ctx, off);
    next := RemainOffset(ctx.full, remain.text);
    if segment.text in t.staticChildren {
      var i := t.staticChildren[segment.text];
      IndexedChild(r, t, segment.text);
      StaticHop(t, i, ctx, off);
      StaticCompiled(r.children[i]);
      OneWayIn(t, i, ctx, off, req, policy);
    } else {
      NotIndexed(r, t, segment.text);
      SearchInAt(t, [], ctx, off, 0);
      SearchUnfolds(t, ctx, off);
      ServeNothing(t, ctx, off, req, policy);
    }
  }

  lemma DistinctChildren(r: Route)
    requires StaticRoute(r)
    ensures Distinct(r.children)
  {
  }

  /** Serving a static route at any offset is looking up in it the segments of what is left. */
  lemma {:induction false} ServeStatic(r: Route, ctx: Ctx, off: nat, req: Req, policy: Policy)
    requires StaticRoute(r) && off <= |ctx.full|
    ensures Serve(Compile(r, []), ctx, off, req, policy) == Answer(RouteAt(r, KeysOf(SegmentsOf(ctx.full[off..]))), req)
    decreases |ctx.full| - off
  {
    hide Compile, Serve, StaticRoute, ChildAt, HandlerCall, KeysOf, RouteAt, TableLookup, StripOneSegment;
    var segs := SegmentsOf(ctx.full[off..]);
    KeysOfCons(segs);
    LookupUnfolds(r, KeysOf(segs), req.verb);
    if off == |ctx.full| {
      StaticCompiled(r);
      ServeAtEnd(Compile(r, []), ctx, req, policy);
    } else {
      var next := ServeOneStep(r, ctx, off, req, policy);
      CutTexts(ctx.From(off), ctx.empty);
      assert segs[1..] == SegmentsOf(ctx.full[next..]);
      var child := ChildAt(r.children, KeyOf(segs[0], false));
      if child.Some? {
        ServeStatic(child.value, ctx, next, req, policy);
      }
    }
  }

  lemma ServeAtEnd(t: RouteTree, ctx: Ctx, req: Req, policy: Policy)
    requires Resolver.NodeIndexed(t) && t.dynamicChildren == []
    ensures Serve(t, ctx, |ctx.full|, req, policy) ==
      if t.handler != map[] then HandlerCall(t.handler, req) else Reply(NotFound, [])
  {
    hide Search, SearchIn, Try, IndicesWhere, ScanOrder;
    Resolver.IndexAgreesAtEnd(t, [], ctx);
    assert [] + t.dynamicChildren == [];
    SearchInAt(t, [], ctx, |ctx.full|, 0);
    SearchUnfolds(t, ctx, |ctx.full|);
  }

  lemma IndexedChild(r: Route, t: RouteTree, segment: string)
    requires Resolver.NodeIndexed(t) && |t.children| == |r.children| && Distinct(r.children)
    requires forall i | 0 <= i < |r.children| ::
      t.children[i].segment == Static(r.children[i].path) && r.children[i].Key() == KeyOf(r.children[i].path, false)
    requires segment in t.staticChildren
    ensures var i := t.staticChildren[segment];
      && i < |r.children| && t.children[i].segment == Static(segment)
      && ChildAt(r.children, KeyOf(segment, false)) == Some(r.children[i])
  {
    hide IndicesWhere, FindChild;
    var i := t.staticChildren[segment];
    assert forall j | 0 <= j < i :: !SameKey(r.children[j], r.children[i]);
    FindChildIs(r.children, KeyOf(segment, false), i);
  }

  lemma NotIndexed(r: Route, t: RouteTree, segment: string)
    requires Resolver.NodeIndexed(t) && |t.children| == |r.children|
    requires forall i | 0 <= i < |r.children| ::
      t.children[i].segment == Static(r.children[i].path) && r.children[i].Key() == KeyOf(r.children[i].path, false)
    requires segment !in t.staticChildren
    ensures ChildAt(r.children, KeyOf(segment, false)) == None
  {
    hide IndicesWhere;
  }

  lemma StaticHop(t: RouteTree, i: nat, ctx: Ctx, off: nat)
    requires off <= |ctx.full| && i < |t.children| && Resolver.NodeIndexed(t)
    requires var (segment, remain) := StripOneSegment(ctx.From(off), ctx.empty);
      t.children[i].segment == Static(segment.text)
    ensures var remain := StripOneSegment(ctx.From(off), ctx.empty).1.text;
      |remain| <= |ctx.full| && Try(t, i, ctx, off) == Some(Hop(RemainOffset(ctx.full, remain), None))
  {
    hide StripOneSegment, Advance, IndicesWhere;
    StaticStep(t.children[i].segment.value, t.children[i].children == [], ctx, off);
  }

  lemma StripIsTail(ctx: Ctx, off: nat)
    requires off <= |ctx.full|
    ensures var remain := StripOneSegment(ctx.From(off), ctx.empty).1.text;
      |remain| <= |ctx.full| && ctx.full[RemainOffset(ctx.full, remain)..] == remain
  {
    hide StripOneSegment;
    TailOfTail(ctx.full, off, StripOneSegment(ctx.From(off), ctx.empty).1.text);
  }

  // ---------------------------------------------------------------- the theorem

  lemma {:induction false} BranchIsStatic(segs: seq<string>, m: Method, h: Handler)
    requires segs != [] && StaticSegments(segs)
    ensures Everywhere(Branch(segs, m, h), StaticNode) && Everywhere(Branch(segs, m, h), CleanNode)
    decreases |segs|
  {
    hide Join, Bracketed;
    assert GoodSegment(segs[0]) && !Bracketed(segs[0]);
    if |segs| > 1 {
      BranchIsStatic(segs[1..], m, h);
    }
  }

  lemma StaticIsMergeClosed()
    ensures MergeClosed(StaticNode)
  {
    hide MergeChildren, Bracketed;
  }

  lemma RootIsStatic(table: seq<Entry>)
    requires GoodTable(table)
    ensures StaticRoute(RootOf(table)) && RootOf(table).path == "" && RootOf(table).state.None?
  {
    hide MergeChildren, StaticSegments, StaticNode, CleanNode, Branch;
    var branches := Branches(table);
    forall k | 0 <= k < |table|
      ensures WellFormed(branches[k]) && Everywhere(branches[k], StaticNode) && Everywhere(branches[k], CleanNode)
    {
      BranchWellFormed(table[k].segs, table[k].m, table[k].h);
      BranchIsStatic(table[k].segs, table[k].m, table[k].h);
    }
    StaticIsMergeClosed();
    CleanIsMergeClosed();
    MergeChildrenWellFormed([], branches);
    MergeChildrenEverywhere([], branches, StaticNode);
    MergeChildrenEverywhere([], branches, CleanNode);
    RootHead(RootOf(table));
  }

  lemma RootHead(r: Route)
    requires r == NewRoute("").(children := r.children)
    ensures CleanNode(Head(r)) && PlainNode(Head(r))
  {
  }

  /** What the route found answers is what the table promises. */
  lemma AnswerIsExpected(table: seq<Entry>, segs: seq<string>, req: Req)
    requires GoodTable(table) && segs != []
    ensures Answer(RouteAt(RootOf(table), KeysOf(segs)), req) == Expected(table, segs, req)
  {
    hide RouteAt, KeysOf, RootOf, First, StaticSegments;
    var at := RouteAt(RootOf(table), KeysOf(segs));
    RootTable(table, segs, req.verb);
    RootTable(table, segs, GET);
    if at.Some? && at.value.handler != map[] {
      var m :| m in at.value.handler;
      RootTable(table, segs, m);
      var k := FoundIsEntry(table, segs, m);
    } else if Registered(table, segs) {
      var k :| 0 <= k < |table| && table[k].segs == segs;
      EntryIsFound(table, segs, k);
      RootTable(table, segs, table[k].m);
    }
  }

  /** The root matches the whole path without consuming anything, unless nothing is left or was registered. */
  lemma RootStep(leaf: bool, ctx: Ctx)
    ensures Advance(Root, leaf, ctx, 0) ==
      if ctx.full == "" || ctx.full == "/" then Some(Hop(|ctx.full|, None))
      else if leaf then None else Some(Hop(0, None))
  {
    assert ctx.From(0).text == ctx.full;
  }

  /** Only good segments are ever registered. */
  lemma NothingRegistered(table: seq<Entry>, segs: seq<string>, req: Req)
    requires GoodTable(table) && !GoodSegments(segs)
    ensures Expected(table, segs, req) == Reply(NotFound, [])
  {
    hide First;
    forall m | First(table, segs, m).Some? ensures false {
      var k := FoundIsEntry(table, segs, m);
    }
  }

  /**
    Dispatching any path in the compiled, frozen tree of a table of static registrations gives
    exactly the answer of the table: the first handler registered there for the method.
   */
  lemma DispatchIsTable(table: seq<Entry>, ctx: Ctx, req: Req, policy: Policy)
    requires GoodTable(table)
    ensures Handle(Freezing.Freeze(Compile(RootOf(table), [])), ctx, req, policy) ==
      Expected(table, SegmentsOf(ctx.full), req)
  {
    hide RootOf, Compile, Serve, Advance, RouteAt, KeysOf, StaticSegments, Expected, Answer, StaticRoute, ChildAt,
      GoodSegments;
    var r, segs := RootOf(table), SegmentsOf(ctx.full);
    var t := Compile(r, []);
    FreezeServe(t, ctx, req, policy);
    RootIsStatic(table);
    StaticCompiled(r);
    CompiledSegment(r, []);
    RootStep(t.children == [], ctx);
    AnswerNothing(req);
    if ctx.full == "" || ctx.full == "/" {
      NoSegments();
      NothingRegistered(table, segs, req);
      ServeAtEnd(t, ctx, req, policy);
      RootHandlesNothing(table);
    } else {
      AnswerIsExpected(table, segs, req);
      if t.children == [] {
        KeysOfCons(segs);
        LookupUnfolds(r, KeysOf(segs), req.verb);
        NoChild(KeysOf(segs)[0]);
      } else {
        assert ctx.full[0..] == ctx.full;
        ServeStatic(r, ctx, 0, req, policy);
      }
    }
  }

  lemma NoSegments()
    ensures SegmentsOf("") == [] && SegmentsOf("/") == [""]
    ensures !GoodSegments([]) && !GoodSegments([""])
  {
    hide StripOneSegment;
    EmptySegment(Slice(0, "/"), 0);
    assert StripLeadingSlash(Slice(0, "/")).text == "";
    assert !GoodSegment([""][0]);
  }

  lemma RootHandlesNothing(table: seq<Entry>)
    requires GoodTable(table)
    ensures RootOf(table).handler == map[]
  {
    hide MergeChildren, Branch;
  }

  lemma AnswerNothing(req: Req)
    ensures Answer(None, req) == Reply(NotFound, [])
  {
  }

  /** The same from the builder calls: any grouping into `append`, `push` and `extend` calls. */
  lemma RegisterAndDispatch(groups: seq<seq<Entry>>, ctx: Ctx, req: Req, policy: Policy)
    requires forall g | 0 <= g < |groups| :: GoodTable(groups[g])
    ensures var root := RegisterAll(NewRoute(""), groups);
      && root.Some?
      && Handle(Freezing.Freeze(Compile(root.value, [])), ctx, req, policy) ==
        Expected(Flatten(groups), SegmentsOf(ctx.full), req)
  {
    hide Handle, Expected, RegisterAll, Compile, NewRoute, StaticSegments, SegmentsOf, Branches, Flatten,
      Freezing.Freeze, MergeChildren;
    RegisterAllIsRootOf([], groups);
    assert [] + Flatten(groups) == Flatten(groups);
    EmptyRoot();
    DispatchIsTable(Flatten(groups), ctx, req, policy);
  }

  lemma EmptyRoot()
    ensures RootOf([]) == NewRoute("")
  {
    NewRouteChild("");
    assert SplitOnce("", SLASH).1 == "";
  }

  /** The request path `/s1/.../sn`, with or without its leading slash, is cut into `s1`, ..., `sn`. */
  lemma {:induction false} JoinedSegments(segs: seq<string>, path: string)
    requires segs == [] || GoodSegments(segs)
    requires path == Leftover(segs) || (segs != [] && path == [SLASH] + Join(segs))
    ensures SegmentsOf(path) == segs
    decreases |segs|
  {
    hide Join, StripOneSegment, GoodSegments, SegmentsOf;
    SegmentsUnfold(path);
    if segs != [] {
      JoinSplits(segs);
      CutJoined(segs, Slice(0, path), 0);
      GoodRest(segs);
      JoinedSegments(segs[1..], Leftover(segs[1..]));
    }
  }

  lemma SegmentsUnfold(path: string)
    ensures SegmentsOf(path) ==
      if path == "" then []
      else var (segment, remain) := StripOneSegment(Slice(0, path), 0); [segment.text] + SegmentsOf(remain.text)
  {
    hide StripOneSegment;
  }

  lemma GoodRest(segs: seq<string>)
    requires GoodSegments(segs)
    ensures segs[1..] == [] || GoodSegments(segs[1..])
  {
  }
}
