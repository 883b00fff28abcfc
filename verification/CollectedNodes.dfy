/**
  The collected OpenAPI table in terms of the nodes of the route tree: which node is visited when, and
  what each visit says about its node.
 */
module CollectedNodes {
  import opened Options
  import opened Http
  import opened Slices
  import opened Routes
  import opened BuiltRoutes
  import opened PathCollector
  import Builder
  import PathFormat

  /** A node, by the child indices that lead to it. */
  type Position = seq<nat>

  // ---------------------------------------------------------------- the nodes in pre-order

  function Under(i: nat, ps: seq<Position>): seq<Position> {
    seq(|ps|, k requires 0 <= k < |ps| => [i] + ps[k])
  }

  function Positions(r: Route): seq<Position>
    decreases r
  {
    [[]] + PositionsOfAll(r.children)
  }

  function PositionsOfAll(rs: seq<Route>): seq<Position>
    decreases rs
  {
    if rs == [] then []
    else PositionsOfAll(rs[..|rs| - 1]) + Under(|rs| - 1, Positions(rs[|rs| - 1]))
  }

  /** A node comes before its children, and they come in order, each before what is below the next. */
  predicate PreOrder(p: Position, q: Position)
    decreases |p|
  {
    q != [] && (p == [] || p[0] < q[0] || (p[0] == q[0] && PreOrder(p[1..], q[1..])))
  }

  /** Where an index list of a list of routes comes from. */
  lemma {:induction false} OfAllAt(rs: seq<Route>, current: string, tags: seq<string>, k: nat) returns (i: nat, j: nat)
    requires k < |PositionsOfAll(rs)|
    ensures i < |rs| && j < |Positions(rs[i])| && PositionsOfAll(rs)[k] == [i] + Positions(rs[i])[j]
    ensures |VisitsOfAll(rs, current, tags)| == |PositionsOfAll(rs)|
    ensures |Visits(rs[i], current, tags)| == |Positions(rs[i])|
    ensures VisitsOfAll(rs, current, tags)[k] == Visits(rs[i], current, tags)[j]
    decreases |rs|
  {
    hide Positions, Visits;
    var last := |rs| - 1;
    var before := PositionsOfAll(rs[..last]);
    SameCount(rs[last], current, tags);
    SameCountOfAll(rs[..last], current, tags);
    if k < |before| {
      i, j := OfAllAt(rs[..last], current, tags, k);
    } else {
      i, j := last, k - |before|;
    }
  }

  lemma {:induction false} SameCount(r: Route, current: string, tags: seq<string>)
    ensures |Visits(r, current, tags)| == |Positions(r)|
    decreases r
  {
    hide VisitOf;
    var v := VisitOf(r, current, tags);
    SameCountOfAll(r.children, v.fullPath, v.tags);
  }

  lemma {:induction false} SameCountOfAll(rs: seq<Route>, current: string, tags: seq<string>)
    ensures |VisitsOfAll(rs, current, tags)| == |PositionsOfAll(rs)|
    decreases rs
  {
    hide Visits, Positions;
    if rs != [] {
      SameCountOfAll(rs[..|rs| - 1], current, tags);
      SameCount(rs[|rs| - 1], current, tags);
    }
  }

  /** The positions are those of the nodes, each once, in pre-order. */
  lemma {:induction false} PositionsAreNodes(r: Route, p: Position)
    ensures p in Positions(r) <==> RouteBy(r, p).Some?
    decreases r, 1
  {
    hide PositionsOfAll;
    if p != [] {
      PositionsOfAllAre(r.children, p);
    }
  }

  lemma {:induction false} PositionsOfAllAre(rs: seq<Route>, p: Position)
    requires p != []
    ensures p in PositionsOfAll(rs) <==> p[0] < |rs| && RouteBy(rs[p[0]], p[1..]).Some?
    decreases rs, 0
  {
    hide Positions, RouteBy;
    if rs != [] {
      var last := |rs| - 1;
      PositionsOfAllAre(rs[..last], p);
      PositionsAreNodes(rs[last], p[1..]);
      UnderHas(last, Positions(rs[last]), p);
    }
  }

  lemma UnderHas(i: nat, ps: seq<Position>, p: Position)
    requires p != []
    ensures p in Under(i, ps) <==> p[0] == i && p[1..] in ps
  {
    if p[0] == i && p[1..] in ps {
      var k :| 0 <= k < |ps| && ps[k] == p[1..];
      assert Under(i, ps)[k] == p;
    }
    if p in Under(i, ps) {
      var k :| 0 <= k < |ps| && Under(i, ps)[k] == p;
      assert p[1..] == ps[k];
    }
  }

  lemma {:induction false} PositionsInOrder(r: Route, i: nat, j: nat)
    requires i < j < |Positions(r)|
    ensures PreOrder(Positions(r)[i], Positions(r)[j])
    decreases r, 1
  {
    hide PositionsOfAll;
    var all := PositionsOfAll(r.children);
    PositionsOfAllNonEmpty(r.children, j - 1);
    if i > 0 {
      OfAllInOrder(r.children, i - 1, j - 1);
    }
  }

  lemma PositionsOfAllNonEmpty(rs: seq<Route>, k: nat)
    requires k < |PositionsOfAll(rs)|
    ensures PositionsOfAll(rs)[k] != []
  {
    hide PositionsOfAll, Positions;
    var i, j := OfAllAt(rs, "", [], k);
  }

  lemma {:induction false} OfAllInOrder(rs: seq<Route>, i: nat, j: nat)
    requires i < j < |PositionsOfAll(rs)|
    ensures PreOrder(PositionsOfAll(rs)[i], PositionsOfAll(rs)[j])
    decreases rs, 0
  {
    hide Positions;
    var last := |rs| - 1;
    var before := PositionsOfAll(rs[..last]);
    if j < |before| {
      OfAllInOrder(rs[..last], i, j);
    } else if i < |before| {
      var a, b := OfAllAt(rs[..last], "", [], i);
    } else {
      var ps := Positions(rs[last]);
      PositionsInOrder(rs[last], i - |before|, j - |before|);
      assert ([last] + ps[i - |before|])[1..] == ps[i - |before|];
      assert ([last] + ps[j - |before|])[1..] == ps[j - |before|];
    }
  }

  // ---------------------------------------------------------------- what a visit says

  /** The non-empty paths of the nodes on the way to a node, its own included. */
  function Names(r: Route, p: Position): seq<string>
    requires RouteBy(r, p).Some?
    decreases |p|
  {
    (if r.path == "" then [] else [r.path]) + if p == [] then [] else Names(r.children[p[0]], p[1..])
  }

  /** The joined names behind the base path. */
  function Behind(base: string, names: seq<string>): string {
    if names == [] then base
    else if base == "" then Builder.Join(names)
    else TrimEnd(base) + "/" + Builder.Join(names)
  }

  /** The names that are no parameters, each once, after the tags that were there. */
  function Tagged(tags: seq<string>, names: seq<string>): seq<string>
    decreases |names|
  {
    if names == [] then tags else Tagged(WithTag(tags, names[0]), names[1..])
  }

  function WithTag(tags: seq<string>, name: string): seq<string> {
    if name != "" && name[0] != '<' && name[0] != '{' && name !in tags then tags + [name] else tags
  }

  predicate AllGood(names: seq<string>) {
    forall i | 0 <= i < |names| :: Builder.GoodSegment(names[i])
  }

  /** Descending into a node puts its path behind. */
  lemma BehindMore(base: string, names: seq<string>, path: string)
    requires AllGood(names) && SLASH !in path
    ensures FullPath(Behind(base, names), path) == Behind(base, names + if path == "" then [] else [path])
  {
    hide Builder.Join, TrimEnd;
    if path == "" {
      assert names + [] == names;
    } else {
      assert Builder.GoodSegment(path);
      Builder.TrimIsIdentity(path);
      JoinSingle(path);
      assert [] + [path] == [path];
      if names != [] {
        assert Builder.GoodSegments(names);
        LastOfJoin(names);
        JoinMore(names, path);
        if base == "" {
          TrimEndIs(Builder.Join(names));
        } else {
          TrimEndIs(TrimEnd(base) + "/" + Builder.Join(names));
        }
      }
    }
  }

  lemma TrimEndIs(s: string)
    requires s == "" || s[|s| - 1] != SLASH
    ensures TrimEnd(s) == s
  {
  }

  lemma TagOne(tags: seq<string>, path: string)
    requires SLASH !in path
    ensures TagsBelow(tags, path) == Tagged(tags, if path == "" then [] else [path])
  {
    Builder.TrimIsIdentity(path);
    TrimEndIs(path);
    assert path != "" ==> [path][1..] == [];
  }

  lemma {:induction false} TaggedSplit(tags: seq<string>, a: seq<string>, b: seq<string>)
    ensures Tagged(tags, a + b) == Tagged(Tagged(tags, a), b)
    decreases |a|
  {
    if a == [] {
      assert a + b == b;
    } else {
      assert (a + b)[1..] == a[1..] + b;
      TaggedSplit(WithTag(tags, a[0]), a[1..], b);
    }
  }

  /** What the visit of a node holds. */
  predicate VisitFits(v: Visit, node: Route, fullPath: string, tags: seq<string>) {
    v == Visit(fullPath, tags, node.handler, node.middlewares)
  }

  /** The `k`-th visit is that of the `k`-th node in pre-order, with the path and the tags that lead there. */
  lemma {:induction false} VisitsAt(r: Route, base: string, above: seq<string>, tags: seq<string>, k: nat)
    requires Built(r) && AllGood(above) && k < |Positions(r)|
    ensures |Visits(r, Behind(base, above), tags)| == |Positions(r)| && RouteBy(r, Positions(r)[k]).Some?
    ensures var p := Positions(r)[k];
      VisitFits(Visits(r, Behind(base, above), tags)[k], RouteBy(r, p).value,
                Behind(base, above + Names(r, p)), Tagged(tags, Names(r, p)))
    decreases r
  {
    hide PositionsOfAll, VisitsOfAll, Behind, Tagged, FullPath, TagsBelow, VisitFits, RouteBy, Names, Built,
      Builder.GoodSegment;
    AtTop(r);
    var own := if r.path == "" then [] else [r.path];
    var v := VisitOf(r, Behind(base, above), tags);
    SameCount(r, Behind(base, above), tags);
    CleanPath(r);
    assert AllGood(own) by { OwnIsGood(r); }
    BehindMore(base, above, r.path);
    TagOne(tags, r.path);
    if k > 0 {
      var i, j := OfAllAt(r.children, v.fullPath, v.tags, k - 1);
      var q := Positions(r.children[i])[j];
      OneDown(r, i, q);
      ChildBuilt(r, i);
      VisitsAt(r.children[i], base, above + own, v.tags, j);
      assert (above + own) + Names(r.children[i], q) == above + (own + Names(r.children[i], q));
      TaggedSplit(tags, own, Names(r.children[i], q));
    } else {
      assert own + [] == own;
      FitsItself(v);
    }
  }

  lemma OwnIsGood(r: Route)
    requires SLASH !in r.path
    ensures AllGood(if r.path == "" then [] else [r.path])
  {
  }

  lemma AtTop(r: Route)
    ensures RouteBy(r, []) == Some(r) && Names(r, []) == if r.path == "" then [] else [r.path]
  {
  }

  lemma OneDown(r: Route, i: nat, q: Position)
    requires i < |r.children|
    ensures RouteBy(r, [i] + q) == RouteBy(r.children[i], q)
    ensures RouteBy(r.children[i], q).Some? ==>
      Names(r, [i] + q) == (if r.path == "" then [] else [r.path]) + Names(r.children[i], q)
  {
    assert ([i] + q)[1..] == q;
  }

  lemma FitsItself(v: Visit)
    ensures forall node: Route :: node.handler == v.handlers && node.middlewares == v.middlewares ==>
      VisitFits(v, node, v.fullPath, v.tags)
  {
  }

  lemma CleanPath(r: Route)
    requires Built(r)
    ensures SLASH !in r.path
  {
    assert CleanNode(Head(r));
  }

  // ---------------------------------------------------------------- nothing is lost

  /** The node at `p` has a handler for the method, and its path is converted to `path`. */
  ghost predicate Offers(r: Route, base: string, p: Position, path: string, m: Method) {
    RouteBy(r, p).Some? && m in RouteBy(r, p).value.handler && PathFormat.Convert(Behind(base, Names(r, p))) == path
  }

  /** It has any handler, and that path. */
  ghost predicate Listed(r: Route, base: string, p: Position, path: string) {
    RouteBy(r, p).Some? && RouteBy(r, p).value.handler != map[] && PathFormat.Convert(Behind(base, Names(r, p))) == path
  }

  /** The operation made from the node at `p`. */
  ghost function OperationAt(r: Route, base: string, p: Position, m: Method): Operation
    requires RouteBy(r, p).Some? && m in RouteBy(r, p).value.handler
  {
    var node := RouteBy(r, p).value;
    Operation(m, Behind(base, Names(r, p)), node.handler[m], Tagged([], Names(r, p)), node.middlewares)
  }

  lemma VisitOffers(r: Route, base: string, k: nat, path: string, m: Method)
    requires Built(r) && k < |Positions(r)|
    ensures |Visits(r, base, [])| == |Positions(r)| && RouteBy(r, Positions(r)[k]).Some?
    ensures var v, p := Visits(r, base, [])[k], Positions(r)[k];
      && (v.Path() == path && m in v.handlers <==> Offers(r, base, p, path, m))
      && (v.Path() == path && v.handlers != map[] <==> Listed(r, base, p, path))
      && v.handlers == RouteBy(r, p).value.handler
      && (m in v.handlers ==> v.Op(m) == OperationAt(r, base, p, m))
  {
    hide Visits, Positions, PathFormat.Convert, RouteBy, Names, Tagged;
    assert Behind(base, []) == base;
    VisitsAt(r, base, [], [], k);
    assert [] + Names(r, Positions(r)[k]) == Names(r, Positions(r)[k]);
  }

  lemma Irreflexive(p: Position)
    ensures !PreOrder(p, p)
    decreases |p|
  {
    if p != [] {
      Irreflexive(p[1..]);
    }
  }

  /**
    The collected table has one entry per converted path, an entry exactly for the paths of nodes with
    handlers, and under each supported method the operation of the first node in pre-order that offers it.
   */
  lemma CollectorLosesNothing(r: Route, base: string, path: string, m: Method) returns (p: Position)
    requires Built(r) && Supported(m)
    ensures var entries := EnterAll([], Visits(r, base, []));
      && DistinctPaths(entries)
      && (ItemOf(entries, path).Some? <==> exists q :: Listed(r, base, q, path))
      && (OpIn(entries, path, m).Some? <==> exists q :: Offers(r, base, q, path, m))
      && (OpIn(entries, path, m).Some? ==>
          && Offers(r, base, p, path, m) && OpIn(entries, path, m) == Some(OperationAt(r, base, p, m))
          && forall q | Offers(r, base, q, path, m) :: q == p || PreOrder(p, q))
  {
    hide EnterAll, Visits, FirstOp, Positions, Offers, Listed, OperationAt, PathFormat.Convert, OpIn, ItemOf,
      DistinctPaths, RouteBy, PreOrder;
    var vs, ps := Visits(r, base, []), Positions(r);
    TableOfVisits(r, base, path, m);
    SameCount(r, base, []);
    var k := FirstOpAt(vs, path, m);
    p := if k < |ps| then ps[k] else [];
    forall j | 0 <= j < |ps|
      ensures vs[j].Path() == path && m in vs[j].handlers <==> Offers(r, base, ps[j], path, m)
      ensures vs[j].Path() == path && vs[j].handlers != map[] <==> Listed(r, base, ps[j], path)
    {
      VisitOffers(r, base, j, path, m);
    }
    if k < |ps| {
      VisitOffers(r, base, k, path, m);
    }
    forall q | Offers(r, base, q, path, m) ensures k < |ps| && (q == p || PreOrder(p, q)) {
      var j := PositionOf(r, base, q, path, m);
      if k < j {
        PositionsInOrder(r, k, j);
      }
    }
    forall q | Listed(r, base, q, path) ensures Mentioned(vs, path) {
      var j := ListedAt(r, base, q, path);
    }
    if Mentioned(vs, path) {
      var j :| 0 <= j < |vs| && vs[j].Path() == path && vs[j].handlers != map[];
      assert Listed(r, base, ps[j], path);
    }
  }

  lemma PositionOf(r: Route, base: string, q: Position, path: string, m: Method) returns (j: nat)
    requires Offers(r, base, q, path, m)
    ensures j < |Positions(r)| && Positions(r)[j] == q
  {
    hide Positions, RouteBy, PathFormat.Convert;
    PositionsAreNodes(r, q);
    j :| 0 <= j < |Positions(r)| && Positions(r)[j] == q;
  }

  lemma ListedAt(r: Route, base: string, q: Position, path: string) returns (j: nat)
    requires Listed(r, base, q, path)
    ensures j < |Positions(r)| && Positions(r)[j] == q
  {
    hide Positions, RouteBy, PathFormat.Convert;
    PositionsAreNodes(r, q);
    j :| 0 <= j < |Positions(r)| && Positions(r)[j] == q;
  }

  /** Each node has one position. */
  lemma PositionsDistinct(r: Route, i: nat, j: nat)
    requires i < j < |Positions(r)|
    ensures Positions(r)[i] != Positions(r)[j]
  {
    hide Positions;
    PositionsInOrder(r, i, j);
    Irreflexive(Positions(r)[i]);
  }

  /** `collect_openapi_paths`. */
  method CollectOpenApiPaths(r: Route, base: string) returns (table: PathTable)
    ensures table.entries == EnterAll([], Visits(r, base, []))
  {
    table := new PathTable();
    table.Collect(r, base, []);
  }
}
