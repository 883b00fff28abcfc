/**
  Collecting the OpenAPI paths of a route tree: a pre-order walk that enters every handler under
  its converted path. The table is independent of the order in which a node's handler map is
  visited, has one entry per path, and keeps for every path and method the first operation met.
 */
module PathCollector {
  import opened Options
  import opened Http
  import opened Slices
  import opened Routes
  import Builder
  import PathFormat

  /** The operation document of one handler, by what it is made from. */
  datatype Operation = Operation(verb: Method, fullPath: string, handler: Handler, tags: seq<string>,
    middlewares: seq<Middleware>)

  datatype PathItem = PathItem(
    get: Option<Operation>, post: Option<Operation>, put: Option<Operation>, delete: Option<Operation>,
    patch: Option<Operation>, head: Option<Operation>, options: Option<Operation>, trace: Option<Operation>)

  const EMPTY := PathItem(None, None, None, None, None, None, None, None)

  /** `create_or_update_path_item`: methods OpenAPI does not know leave the item empty. */
  function CreateItem(m: Method, op: Operation): PathItem {
    match m
    case GET => EMPTY.(get := Some(op))
    case POST => EMPTY.(post := Some(op))
    case PUT => EMPTY.(put := Some(op))
    case DELETE => EMPTY.(delete := Some(op))
    case PATCH => EMPTY.(patch := Some(op))
    case HEAD => EMPTY.(head := Some(op))
    case OPTIONS => EMPTY.(options := Some(op))
    case TRACE => EMPTY.(trace := Some(op))
    case _ => EMPTY
  }

  /** `merge_path_items`. */
  function MergeItems(a: PathItem, b: PathItem): PathItem {
    PathItem(OrElse(a.get, b.get), OrElse(a.post, b.post), OrElse(a.put, b.put), OrElse(a.delete, b.delete),
             OrElse(a.patch, b.patch), OrElse(a.head, b.head), OrElse(a.options, b.options), OrElse(a.trace, b.trace))
  }

  predicate Supported(m: Method) {
    !m.CONNECT? && !m.Extension?
  }

  /** The operation an item holds for a method. */
  function OpAt(item: PathItem, m: Method): Option<Operation> {
    match m
    case GET => item.get
    case POST => item.post
    case PUT => item.put
    case DELETE => item.delete
    case PATCH => item.patch
    case HEAD => item.head
    case OPTIONS => item.options
    case TRACE => item.trace
    case _ => None
  }

  lemma SameItem(a: PathItem, b: PathItem)
    requires forall m :: OpAt(a, m) == OpAt(b, m)
    ensures a == b
  {
    assert OpAt(a, GET) == OpAt(b, GET) && OpAt(a, POST) == OpAt(b, POST) && OpAt(a, PUT) == OpAt(b, PUT);
    assert OpAt(a, DELETE) == OpAt(b, DELETE) && OpAt(a, PATCH) == OpAt(b, PATCH) && OpAt(a, HEAD) == OpAt(b, HEAD);
    assert OpAt(a, OPTIONS) == OpAt(b, OPTIONS) && OpAt(a, TRACE) == OpAt(b, TRACE);
  }

  lemma MergedOp(a: PathItem, b: PathItem, m: Method)
    ensures OpAt(MergeItems(a, b), m) == OrElse(OpAt(a, m), OpAt(b, m))
  {
  }

  lemma CreatedOp(m: Method, op: Operation, n: Method)
    ensures OpAt(CreateItem(m, op), n) == if n == m && Supported(m) then Some(op) else None
  {
  }

  // ---------------------------------------------------------------- the table

  type Entries = seq<(string, PathItem)>

  function FindPath(entries: Entries, path: string): (k: nat)
    ensures k <= |entries|
    ensures forall j | 0 <= j < k :: entries[j].0 != path
    ensures k < |entries| ==> entries[k].0 == path
  {
    if entries == [] || entries[0].0 == path then 0 else 1 + FindPath(entries[1..], path)
  }

  lemma {:induction false} FindPathIs(entries: Entries, path: string, k: nat)
    requires k <= |entries| && forall j | 0 <= j < k :: entries[j].0 != path
    requires k < |entries| ==> entries[k].0 == path
    ensures FindPath(entries, path) == k
  {
    if k < FindPath(entries, path) {
      assert false;
    }
  }

  /** Enter an item: merged after what the path already has, or at the end. */
  function Enter(entries: Entries, path: string, item: PathItem): Entries {
    var k := FindPath(entries, path);
    if k < |entries| then entries[k := (path, MergeItems(entries[k].1, item))] else entries + [(path, item)]
  }

  function ItemOf(entries: Entries, path: string): Option<PathItem> {
    var k := FindPath(entries, path);
    if k < |entries| then Some(entries[k].1) else None
  }

  predicate DistinctPaths(entries: Entries) {
    forall i, j | 0 <= i < j < |entries| :: entries[i].0 != entries[j].0
  }

  lemma EnterKeepsDistinct(entries: Entries, path: string, item: PathItem)
    requires DistinctPaths(entries)
    ensures DistinctPaths(Enter(entries, path, item))
  {
    hide FindPath, MergeItems;
  }

  lemma EnteredItem(entries: Entries, path: string, item: PathItem, p: string)
    ensures ItemOf(Enter(entries, path, item), p) ==
      if p != path then ItemOf(entries, p)
      else Some(if ItemOf(entries, path).Some? then MergeItems(ItemOf(entries, path).value, item) else item)
  {
    hide FindPath, MergeItems;
    var k, f := FindPath(entries, path), FindPath(entries, p);
    if k < |entries| {
      FindPathIs(Enter(entries, path, item), p, f);
    } else if p == path {
      FindPathIs(Enter(entries, path, item), p, |entries|);
    } else {
      FindPathIs(Enter(entries, path, item), p, if f < |entries| then f else |entries| + 1);
    }
  }

  /** Entering two items in turn is entering their merge once. */
  lemma EnterTwice(entries: Entries, path: string, a: PathItem, b: PathItem)
    ensures Enter(Enter(entries, path, a), path, b) == Enter(entries, path, MergeItems(a, b))
  {
    hide FindPath, MergeItems;
    var k := FindPath(entries, path);
    FindPathIs(Enter(entries, path, a), path, k);
    if k < |entries| {
      MergeItemsAssociative(entries[k].1, a, b);
    }
  }

  lemma MergeItemsAssociative(a: PathItem, b: PathItem, c: PathItem)
    ensures MergeItems(MergeItems(a, b), c) == MergeItems(a, MergeItems(b, c))
  {
  }

  // ---------------------------------------------------------------- one node

  function TrimEnd(s: string): string {
    if s != "" && s[|s| - 1] == SLASH then TrimEnd(s[..|s| - 1]) else s
  }

  /** What is trimmed is exactly the slashes at the end. */
  lemma {:induction false} TrimEndShape(s: string)
    ensures var r := TrimEnd(s);
      && r <= s && (r == "" || r[|r| - 1] != SLASH)
      && forall i | |r| <= i < |s| :: s[i] == SLASH
    decreases |s|
  {
    if s != "" && s[|s| - 1] == SLASH {
      TrimEndShape(s[..|s| - 1]);
    }
  }

  function FullPath(current: string, path: string): string {
    if current == "" then path
    else if path == "" then current
    else TrimEnd(current) + [SLASH] + Builder.TrimSlashes(path)
  }

  function TagsBelow(tags: seq<string>, path: string): seq<string> {
    var seg := TrimEnd(Builder.TrimSlashes(path));
    if seg != "" && seg[0] != '<' && seg[0] != '{' && seg !in tags then tags + [seg] else tags
  }

  lemma {:induction false} LastOfJoin(segs: seq<string>)
    requires Builder.GoodSegments(segs)
    ensures Builder.Join(segs) != "" && Builder.Join(segs)[|Builder.Join(segs)| - 1] != SLASH
    decreases |segs|
  {
    assert Builder.GoodSegment(segs[0]);
    if |segs| > 1 {
      LastOfJoin(segs[1..]);
    }
  }

  lemma {:induction false} JoinMore(segs: seq<string>, s: string)
    requires segs != []
    ensures Builder.Join(segs + [s]) == Builder.Join(segs) + [SLASH] + s
    decreases |segs|
  {
    if |segs| > 1 {
      assert (segs + [s])[1..] == segs[1..] + [s];
      JoinMore(segs[1..], s);
    }
  }

  /** Descending through one more segment appends it to the joined path. */
  lemma FullPathIsJoined(segs: seq<string>, s: string)
    requires Builder.GoodSegments(segs) && Builder.GoodSegment(s)
    ensures FullPath("", s) == Builder.Join([s])
    ensures FullPath(Builder.Join(segs), s) == Builder.Join(segs + [s])
    ensures FullPath(Builder.Join(segs), "") == Builder.Join(segs)
  {
    hide Builder.Join;
    LastOfJoin(segs);
    JoinMore(segs, s);
    Builder.TrimIsIdentity(s);
    JoinSingle(s);
  }

  lemma JoinSingle(s: string)
    ensures Builder.Join([s]) == s
  {
  }

  /** Tags are inherited, never repeated, and never parameters. */
  lemma TagsGrow(tags: seq<string>, path: string)
    requires forall i, j | 0 <= i < j < |tags| :: tags[i] != tags[j]
    ensures var more := TagsBelow(tags, path);
      && tags <= more && |more| <= |tags| + 1
      && (forall i, j | 0 <= i < j < |more| :: more[i] != more[j])
      && (|more| > |tags| ==> more[|tags|] != "" && more[|tags|][0] != '<' && more[|tags|][0] != '{')
      && (Builder.GoodSegment(path) && path[0] != '<' && path[0] != '{' ==> path in more)
  {
    if Builder.GoodSegment(path) {
      Builder.TrimIsIdentity(path);
      assert TrimEnd(path) == path;
    }
  }

  /** What one node contributes. */
  datatype Visit = Visit(fullPath: string, tags: seq<string>, handlers: map<Method, Handler>,
    middlewares: seq<Middleware>) {
    function Path(): string {
      PathFormat.Convert(fullPath)
    }

    function Op(m: Method): Operation
      requires m in handlers
    {
      Operation(m, fullPath, handlers[m], tags, middlewares)
    }
  }

  function VisitOf(r: Route, current: string, tags: seq<string>): Visit {
    Visit(FullPath(current, r.path), TagsBelow(tags, r.path), r.handler, r.middlewares)
  }

  function OpFor(v: Visit, methods: set<Method>, m: Method): Option<Operation> {
    if m in methods && m in v.handlers then Some(v.Op(m)) else None
  }

  /** The operations of some of a node's methods in one item. */
  function ItemFor(v: Visit, methods: set<Method>): PathItem {
    PathItem(OpFor(v, methods, GET), OpFor(v, methods, POST), OpFor(v, methods, PUT), OpFor(v, methods, DELETE),
             OpFor(v, methods, PATCH), OpFor(v, methods, HEAD), OpFor(v, methods, OPTIONS), OpFor(v, methods, TRACE))
  }

  lemma ItemForOp(v: Visit, methods: set<Method>, m: Method)
    ensures OpAt(ItemFor(v, methods), m) == if Supported(m) then OpFor(v, methods, m) else None
  {
  }

  lemma AddMethod(v: Visit, done: set<Method>, m: Method)
    requires m in v.handlers && m !in done
    ensures MergeItems(ItemFor(v, done), CreateItem(m, v.Op(m))) == ItemFor(v, done + {m})
  {
    hide MergeItems, CreateItem, ItemFor, OpAt;
    var merged, one := MergeItems(ItemFor(v, done), CreateItem(m, v.Op(m))), CreateItem(m, v.Op(m));
    forall n ensures OpAt(merged, n) == OpAt(ItemFor(v, done + {m}), n) {
      MergedOp(ItemFor(v, done), one, n);
      CreatedOp(m, v.Op(m), n);
      ItemForOp(v, done, n);
      ItemForOp(v, done + {m}, n);
    }
    SameItem(merged, ItemFor(v, done + {m}));
  }

  function EnterVisit(entries: Entries, v: Visit): Entries {
    if v.handlers == map[] then entries else Enter(entries, v.Path(), ItemFor(v, v.handlers.Keys))
  }

  // ---------------------------------------------------------------- the walk

  /** The nodes in pre-order. */
  function Visits(r: Route, current: string, tags: seq<string>): seq<Visit>
    decreases r
  {
    var v := VisitOf(r, current, tags);
    [v] + VisitsOfAll(r.children, v.fullPath, v.tags)
  }

  function VisitsOfAll(rs: seq<Route>, current: string, tags: seq<string>): seq<Visit>
    decreases rs
  {
    if rs == [] then [] else VisitsOfAll(rs[..|rs| - 1], current, tags) + Visits(rs[|rs| - 1], current, tags)
  }

  function EnterAll(entries: Entries, vs: seq<Visit>): Entries {
    if vs == [] then entries else EnterVisit(EnterAll(entries, vs[..|vs| - 1]), vs[|vs| - 1])
  }

  lemma {:induction false} EnterAllSplit(entries: Entries, a: seq<Visit>, b: seq<Visit>)
    ensures EnterAll(entries, a + b) == EnterAll(EnterAll(entries, a), b)
    decreases |b|
  {
    hide EnterVisit;
    if b == [] {
      assert a + b == a;
    } else {
      assert (a + b)[..|a + b| - 1] == a + b[..|b| - 1];
      EnterAllSplit(entries, a, b[..|b| - 1]);
    }
  }

  lemma EnterOne(entries: Entries, v: Visit)
    ensures EnterAll(entries, [v]) == EnterVisit(entries, v)
  {
    hide EnterVisit;
    assert [v][..0] == [];
  }

  class PathTable {
    var entries: Entries

    constructor ()
      ensures entries == []
    {
      entries := [];
    }

    /** Finds the path and merges, or pushes. */
    method Add(path: string, item: PathItem)
      modifies this
      ensures entries == Enter(old(entries), path, item)
    {
      hide FindPath, MergeItems;
      var k := 0;
      while k < |entries| && entries[k].0 != path
        invariant k <= |entries|
        invariant forall j | 0 <= j < k :: entries[j].0 != path
      {
        k := k + 1;
      }
      FindPathIs(entries, path, k);
      if k < |entries| {
        entries := entries[k := (path, MergeItems(entries[k].1, item))];
      } else {
        entries := entries + [(path, item)];
      }
    }

    /** The handlers of one node, visited in an arbitrary order. */
    method AddHandlers(v: Visit)
      modifies this
      ensures entries == EnterVisit(old(entries), v)
    {
      hide Enter, ItemFor, CreateItem, MergeItems, PathFormat.Convert;
      var todo := v.handlers.Keys;
      while todo != {}
        invariant todo <= v.handlers.Keys
        invariant v.handlers.Keys - todo == {} ==> entries == old(entries)
        invariant v.handlers.Keys - todo != {} ==>
          entries == Enter(old(entries), v.Path(), ItemFor(v, v.handlers.Keys - todo))
      {
        var m :| m in todo;
        ghost var done := v.handlers.Keys - todo;
        Add(v.Path(), CreateItem(m, v.Op(m)));
        if done == {} {
          assert done + {m} == {m};
          FirstMethod(v, m);
        } else {
          AddMethod(v, done, m);
          EnterTwice(old(entries), v.Path(), ItemFor(v, done), CreateItem(m, v.Op(m)));
        }
        assert v.handlers.Keys - (todo - {m}) == done + {m};
        todo := todo - {m};
      }
      assert v.handlers.Keys - todo == v.handlers.Keys;
    }

    /** `collect_paths_recursive`. */
    method Collect(r: Route, current: string, tags: seq<string>)
      modifies this
      ensures entries == EnterAll(old(entries), Visits(r, current, tags))
      decreases r
    {
      hide EnterVisit, VisitOf, EnterAll;
      var v := VisitOf(r, current, tags);
      AddHandlers(v);
      EnterOne(old(entries), v);
      ghost var start := entries;
      EmptyWalk(start, r.children, v.fullPath, v.tags);
      for i := 0 to |r.children|
        invariant entries == EnterAll(start, VisitsOfAll(r.children[..i], v.fullPath, v.tags))
      {
        ghost var before := VisitsOfAll(r.children[..i], v.fullPath, v.tags);
        Collect(r.children[i], v.fullPath, v.tags);
        assert r.children[..i + 1][..i] == r.children[..i];
        EnterAllSplit(start, before, Visits(r.children[i], v.fullPath, v.tags));
      }
      assert r.children[..|r.children|] == r.children;
      EnterAllSplit(old(entries), [v], VisitsOfAll(r.children, v.fullPath, v.tags));
    }
  }

  lemma EmptyWalk(start: Entries, rs: seq<Route>, current: string, tags: seq<string>)
    ensures EnterAll(start, VisitsOfAll(rs[..0], current, tags)) == start
  {
  }

  lemma FirstMethod(v: Visit, m: Method)
    requires m in v.handlers
    ensures CreateItem(m, v.Op(m)) == ItemFor(v, {m})
  {
    hide CreateItem, ItemFor, OpAt;
    forall n ensures OpAt(CreateItem(m, v.Op(m)), n) == OpAt(ItemFor(v, {m}), n) {
      CreatedOp(m, v.Op(m), n);
      ItemForOp(v, {m}, n);
    }
    SameItem(CreateItem(m, v.Op(m)), ItemFor(v, {m}));
  }

  // ---------------------------------------------------------------- nothing is lost

  /** The operation of the first visit with this path that has a handler for the method. */
  function FirstOp(vs: seq<Visit>, path: string, m: Method): Option<Operation> {
    if vs == [] then None
    else if vs[0].Path() == path && m in vs[0].handlers then Some(vs[0].Op(m))
    else FirstOp(vs[1..], path, m)
  }

  function OpIn(entries: Entries, path: string, m: Method): Option<Operation> {
    var item := ItemOf(entries, path);
    if item.Some? then OpAt(item.value, m) else None
  }

  ghost predicate Mentioned(vs: seq<Visit>, path: string) {
    exists k | 0 <= k < |vs| :: vs[k].Path() == path && vs[k].handlers != map[]
  }

  lemma {:induction false} FirstOpSplit(vs: seq<Visit>, last: Visit, path: string, m: Method)
    ensures FirstOp(vs + [last], path, m) ==
      OrElse(FirstOp(vs, path, m), if last.Path() == path && m in last.handlers then Some(last.Op(m)) else None)
    decreases |vs|
  {
    hide PathFormat.Convert;
    if vs == [] {
      assert (vs + [last])[1..] == [];
    } else {
      assert (vs + [last])[1..] == vs[1..] + [last];
      FirstOpSplit(vs[1..], last, path, m);
    }
  }

  lemma EnteredOp(entries: Entries, v: Visit, path: string, m: Method)
    requires Supported(m)
    ensures OpIn(EnterVisit(entries, v), path, m) ==
      OrElse(OpIn(entries, path, m), if v.Path() == path && m in v.handlers then Some(v.Op(m)) else None)
    ensures ItemOf(EnterVisit(entries, v), path).Some? <==>
      ItemOf(entries, path).Some? || (v.Path() == path && v.handlers != map[])
  {
    hide Enter, ItemOf, ItemFor, MergeItems, OpAt, PathFormat.Convert;
    if v.handlers != map[] {
      var item := ItemFor(v, v.handlers.Keys);
      EnteredItem(entries, v.Path(), item, path);
      ItemForOp(v, v.handlers.Keys, m);
      if v.Path() == path && ItemOf(entries, path).Some? {
        MergedOp(ItemOf(entries, path).value, item, m);
      }
    }
  }

  lemma {:induction false} EnterAllOps(entries: Entries, vs: seq<Visit>, path: string, m: Method)
    requires Supported(m) && DistinctPaths(entries)
    ensures DistinctPaths(EnterAll(entries, vs))
    ensures OpIn(EnterAll(entries, vs), path, m) == OrElse(OpIn(entries, path, m), FirstOp(vs, path, m))
    ensures ItemOf(EnterAll(entries, vs), path).Some? <==> ItemOf(entries, path).Some? || Mentioned(vs, path)
    decreases |vs|
  {
    hide EnterVisit, OpIn, ItemOf, PathFormat.Convert, DistinctPaths;
    if vs != [] {
      var rest, last := vs[..|vs| - 1], vs[|vs| - 1];
      EnterAllOps(entries, rest, path, m);
      EnteredOp(EnterAll(entries, rest), last, path, m);
      EnterVisitDistinct(EnterAll(entries, rest), last);
      assert vs == rest + [last];
      FirstOpSplit(rest, last, path, m);
      MentionedSplit(rest, last, path);
    }
  }

  lemma EnterVisitDistinct(entries: Entries, v: Visit)
    requires DistinctPaths(entries)
    ensures DistinctPaths(EnterVisit(entries, v))
  {
    hide Enter, ItemFor, DistinctPaths;
    EnterKeepsDistinct(entries, v.Path(), ItemFor(v, v.handlers.Keys));
  }

  lemma MentionedSplit(vs: seq<Visit>, last: Visit, path: string)
    ensures Mentioned(vs + [last], path) <==> Mentioned(vs, path) || (last.Path() == path && last.handlers != map[])
  {
    hide PathFormat.Convert;
    if Mentioned(vs, path) {
      var k :| 0 <= k < |vs| && vs[k].Path() == path && vs[k].handlers != map[];
      assert (vs + [last])[k] == vs[k];
    }
    assert (vs + [last])[|vs|] == last;
  }

  /** The table in terms of the visits. */
  lemma TableOfVisits(r: Route, base: string, path: string, m: Method)
    requires Supported(m)
    ensures var entries := EnterAll([], Visits(r, base, []));
      && DistinctPaths(entries)
      && OpIn(entries, path, m) == FirstOp(Visits(r, base, []), path, m)
      && (ItemOf(entries, path).Some? <==> Mentioned(Visits(r, base, []), path))
  {
    hide EnterAll, Visits, FirstOp, Mentioned;
    EnterAllOps([], Visits(r, base, []), path, m);
  }

  /** The first visit that has the operation is the one it is taken from. */
  lemma {:induction false} FirstOpAt(vs: seq<Visit>, path: string, m: Method) returns (k: nat)
    ensures k <= |vs|
    ensures forall j | 0 <= j < k :: !(vs[j].Path() == path && m in vs[j].handlers)
    ensures k < |vs| ==> vs[k].Path() == path && m in vs[k].handlers && FirstOp(vs, path, m) == Some(vs[k].Op(m))
    ensures k == |vs| ==> FirstOp(vs, path, m) == None
    decreases |vs|
  {
    hide PathFormat.Convert;
    k := 0;
    if vs != [] && !(vs[0].Path() == path && m in vs[0].handlers) {
      k := FirstOpAt(vs[1..], path, m);
      k := k + 1;
    }
  }
}
