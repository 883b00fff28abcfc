/**
  The route being built, as a value, and what merging one route into another computes. Merging is
  proved to be the left-biased union of the two routing tables and to be associative as trees.
 */
module Routes {
  import opened Options
  import opened Http
  import opened States

  datatype Route = Route(
    path: string,
    handler: map<Method, Handler>,
    children: seq<Route>,
    middlewares: seq<Middleware>,
    special: bool,
    createPath: string,
    state: Option<Entries>)
  {
    function Key(): Key {
      KeyOf(path, special)
    }
  }

  /** Children are merged when both the path and the special mark agree. */
  datatype Key = KeyOf(path: string, special: bool)

  /** The route that a list of child indices leads to. */
  function RouteBy(r: Route, trace: seq<nat>): Option<Route>
    decreases |trace|
  {
    if trace == [] then Some(r)
    else if trace[0] < |r.children| then RouteBy(r.children[trace[0]], trace[1..]) else None
  }

  // ---------------------------------------------------------------- merging

  predicate SameKey(a: Route, b: Route) {
    a.Key() == b.Key()
  }

  lemma SameKeyIff(a: Route, b: Route)
    ensures SameKey(a, b) <==> a.path == b.path && a.special == b.special
  {
  }

  /** The first child with this key, or the number of children. */
  function FindChild(children: seq<Route>, key: Key): (k: nat)
    ensures k <= |children|
    ensures forall j | 0 <= j < k :: children[j].Key() != key
    ensures k < |children| ==> children[k].Key() == key
  {
    if children == [] || children[0].Key() == key then 0 else 1 + FindChild(children[1..], key)
  }

  function MergeState(mine: Option<Entries>, other: Option<Entries>): Option<Entries> {
    if other.None? then mine
    else if mine.None? then other
    else Some(Overlay(mine.value, other.value))
  }

  function MergeChild(children: seq<Route>, route: Route): seq<Route>
    decreases route, 1
  {
    var k := FindChild(children, route.Key());
    if k < |children| then children[k := MergeFrom(children[k], route)] else children + [route]
  }

  function MergeFrom(mine: Route, other: Route): Route
    decreases other, 0
  {
    Route(mine.path, other.handler + mine.handler, MergeChildren(mine.children, other.children),
          mine.middlewares + other.middlewares, mine.special || other.special, mine.createPath,
          MergeState(mine.state, other.state))
  }

  function MergeChildren(children: seq<Route>, more: seq<Route>): seq<Route>
    decreases more, 2
  {
    if more == [] then children
    else MergeChild(MergeChildren(children, more[..|more| - 1]), more[|more| - 1])
  }

  /** No two siblings share a key, at any depth. */
  predicate Distinct(children: seq<Route>) {
    forall i, j | 0 <= i < j < |children| :: !SameKey(children[i], children[j])
  }

  predicate WellFormed(r: Route) {
    Distinct(r.children) && forall i | 0 <= i < |r.children| :: WellFormed(r.children[i])
  }

  // ---------------------------------------------------------------- associativity

  lemma MergeKeepsKey(mine: Route, other: Route)
    requires SameKey(mine, other)
    ensures SameKey(MergeFrom(mine, other), mine)
  {
  }

  /** The position a route merges into is fixed by the keys alone. */
  lemma {:induction false} FindChildIs(children: seq<Route>, key: Key, k: nat)
    requires k <= |children| && forall j | 0 <= j < k :: children[j].Key() != key
    requires k < |children| ==> children[k].Key() == key
    ensures FindChild(children, key) == k
  {
    if k < FindChild(children, key) {
      assert false;
    }
  }

  /** Merging a child whose key is present and merging one with another key commute. */
  lemma MergeChildCommutes(children: seq<Route>, a: Route, b: Route)
    requires FindChild(children, a.Key()) < |children| && !SameKey(a, b)
    ensures MergeChild(MergeChild(children, a), b) == MergeChild(MergeChild(children, b), a)
  {
    hide MergeFrom, FindChild;
    var i, k := FindChild(children, a.Key()), FindChild(children, b.Key());
    var x := MergeFrom(children[i], a);
    MergeKeepsKey(children[i], a);
    FindChildIs(MergeChild(children, a), b.Key(), k);
    if k < |children| {
      MergeKeepsKey(children[k], b);
    }
    FindChildIs(MergeChild(children, b), a.Key(), i);
  }

  lemma {:induction false} MergeChildrenCommutes(children: seq<Route>, a: Route, more: seq<Route>)
    requires FindChild(children, a.Key()) < |children|
    requires forall j | 0 <= j < |more| :: !SameKey(a, more[j])
    ensures MergeChildren(MergeChild(children, a), more) == MergeChild(MergeChildren(children, more), a)
    ensures FindChild(MergeChildren(children, more), a.Key()) ==
      FindChild(children, a.Key()) < |MergeChildren(children, more)|
    decreases |more|
  {
    hide MergeFrom, FindChild, MergeChild;
    if more != [] {
      var rest, last := more[..|more| - 1], more[|more| - 1];
      MergeChildrenCommutes(children, a, rest);
      MergeChildCommutes(MergeChildren(children, rest), a, last);
      FindAfterMerge(MergeChildren(children, rest), a, last);
    }
  }

  lemma FindAfterMerge(children: seq<Route>, a: Route, b: Route)
    requires FindChild(children, a.Key()) < |children|
    ensures FindChild(MergeChild(children, b), a.Key()) == FindChild(children, a.Key()) < |MergeChild(children, b)|
  {
    hide MergeFrom, FindChild;
    var k := FindChild(children, b.Key());
    if k < |children| {
      MergeKeepsKey(children[k], b);
    }
    FindChildIs(MergeChild(children, b), a.Key(), FindChild(children, a.Key()));
  }

  lemma {:induction false} MergeChildrenSplit(children: seq<Route>, a: seq<Route>, b: seq<Route>)
    ensures MergeChildren(children, a + b) == MergeChildren(MergeChildren(children, a), b)
    decreases |b|
  {
    hide MergeChild;
    if b == [] {
      assert a + b == a;
    } else {
      assert (a + b)[..|a + b| - 1] == a + b[..|b| - 1];
      MergeChildrenSplit(children, a, b[..|b| - 1]);
    }
  }

  /** The keys of some routes that are not among `known`, in order. */
  function NewKeys(known: seq<Key>, rs: seq<Route>): seq<Key> {
    if rs == [] then []
    else
      var rest, key := NewKeys(known, rs[..|rs| - 1]), rs[|rs| - 1].Key();
      if key in known then rest else rest + [key]
  }

  function ChildKeys(rs: seq<Route>): seq<Key> {
    seq(|rs|, i requires 0 <= i < |rs| => rs[i].Key())
  }

  lemma {:induction false} NewKeysHas(known: seq<Key>, rs: seq<Route>, key: Key)
    ensures key in NewKeys(known, rs) <==> key !in known && exists i | 0 <= i < |rs| :: rs[i].Key() == key
    decreases |rs|
  {
    if rs != [] {
      NewKeysHas(known, rs[..|rs| - 1], key);
    }
  }

  /** Merged siblings keep their places, and new ones come after them in the order they had. */
  lemma {:induction false} MergedInOrder(children: seq<Route>, more: seq<Route>)
    requires Distinct(more)
    ensures ChildKeys(MergeChildren(children, more)) == ChildKeys(children) + NewKeys(ChildKeys(children), more)
    decreases |more|
  {
    hide MergeFrom, MergeChild;
    if more != [] {
      var rest, last := more[..|more| - 1], more[|more| - 1];
      MergedInOrder(children, rest);
      MergedChildKeys(MergeChildren(children, rest), last);
      NewKeysHas(ChildKeys(children), rest, last.Key());
    }
  }

  lemma MergedChildKeys(children: seq<Route>, route: Route)
    ensures ChildKeys(MergeChild(children, route)) ==
      if route.Key() in ChildKeys(children) then ChildKeys(children) else ChildKeys(children) + [route.Key()]
  {
    hide MergeFrom, FindChild;
    var k := FindChild(children, route.Key());
    if k < |children| {
      MergeKeepsKey(children[k], route);
      assert ChildKeys(children)[k] == route.Key();
    }
  }

  /** Merging `c` after `d` with the same key, one by one or already merged together. */
  lemma {:induction false} MergeChildTwice(children: seq<Route>, d: Route, c: Route)
    requires SameKey(d, c) && WellFormed(d) && WellFormed(c)
    ensures MergeChild(children, MergeFrom(d, c)) == MergeChild(MergeChild(children, d), c)
    ensures FindChild(MergeChild(children, d), c.Key()) < |MergeChild(children, d)|
    decreases c, 3
  {
    hide MergeFrom, FindChild;
    MergeKeepsKey(d, c);
    var i := FindChild(children, d.Key());
    FindChildIs(children, MergeFrom(d, c).Key(), i);
    if i < |children| {
      MergeKeepsKey(children[i], d);
      MergeFromAssociative(children[i], d, c);
    }
    FindChildIs(MergeChild(children, d), c.Key(), i);
  }

  /** Merging into a list that already holds the other routes, or into those routes first. */
  lemma {:induction false} MergeChildAfter(children: seq<Route>, more: seq<Route>, c: Route)
    requires Distinct(more) && WellFormed(c) && forall j | 0 <= j < |more| :: WellFormed(more[j])
    ensures MergeChildren(children, MergeChild(more, c)) == MergeChild(MergeChildren(children, more), c)
    decreases c, 4
  {
    hide MergeFrom, MergeChildren, FindChild;
    var j := FindChild(more, c.Key());
    if j == |more| {
      MergeChildrenSplit(children, more, [c]);
      MergeOne(MergeChildren(children, more), c);
    } else {
      var d, before, after := more[j], more[..j], more[j + 1..];
      var xs := MergeChildren(children, before);
      MergeChildTwice(xs, d, c);
      assert more == before + [d] + after;
      assert MergeChild(more, c) == before + [MergeFrom(d, c)] + after;
      MergeAround(children, before, d, after);
      MergeAround(children, before, MergeFrom(d, c), after);
      MergeChildrenCommutes(MergeChild(xs, d), c, after);
    }
  }

  lemma MergeOne(children: seq<Route>, r: Route)
    ensures MergeChildren(children, [r]) == MergeChild(children, r)
  {
    hide MergeChild;
    assert [r][..0] == [];
  }

  lemma MergeAround(children: seq<Route>, before: seq<Route>, d: Route, after: seq<Route>)
    ensures MergeChildren(children, before + [d] + after) ==
      MergeChildren(MergeChild(MergeChildren(children, before), d), after)
  {
    hide MergeChildren, MergeChild;
    MergeChildrenSplit(children, before + [d], after);
    MergeChildrenSplit(children, before, [d]);
    MergeOne(MergeChildren(children, before), d);
  }

  lemma {:induction false} MergeChildrenAssociative(a: seq<Route>, b: seq<Route>, c: seq<Route>)
    requires Distinct(b) && Distinct(c)
    requires forall j | 0 <= j < |b| :: WellFormed(b[j])
    requires forall j | 0 <= j < |c| :: WellFormed(c[j])
    ensures MergeChildren(MergeChildren(a, b), c) == MergeChildren(a, MergeChildren(b, c))
    decreases c, 5
  {
    hide MergeChild, WellFormed, Distinct;
    if c != [] {
      var rest, last := c[..|c| - 1], c[|c| - 1];
      assert Distinct(rest) by { DistinctPrefix(c, |c| - 1); }
      MergeChildrenAssociative(a, b, rest);
      MergeChildrenWellFormed(b, rest);
      MergeChildAfter(a, MergeChildren(b, rest), last);
    }
  }

  lemma DistinctPrefix(c: seq<Route>, n: nat)
    requires Distinct(c) && n <= |c|
    ensures Distinct(c[..n])
  {
  }

  lemma {:induction false} MergeFromWellFormed(mine: Route, other: Route)
    requires WellFormed(mine) && WellFormed(other)
    ensures WellFormed(MergeFrom(mine, other))
    decreases other, 0
  {
    hide MergeChildren;
    MergeChildrenWellFormed(mine.children, other.children);
  }

  lemma {:induction false} MergeChildWellFormed(children: seq<Route>, route: Route)
    requires Distinct(children) && WellFormed(route) && forall j | 0 <= j < |children| :: WellFormed(children[j])
    ensures var merged := MergeChild(children, route);
      Distinct(merged) && forall j | 0 <= j < |merged| :: WellFormed(merged[j])
    decreases route, 1
  {
    hide MergeFrom, FindChild, WellFormed;
    var k := FindChild(children, route.Key());
    if k < |children| {
      MergeKeepsKey(children[k], route);
      MergeFromWellFormed(children[k], route);
    }
  }

  lemma {:induction false} MergeChildrenWellFormed(children: seq<Route>, more: seq<Route>)
    requires Distinct(children) && forall j | 0 <= j < |children| :: WellFormed(children[j])
    requires forall j | 0 <= j < |more| :: WellFormed(more[j])
    ensures var merged := MergeChildren(children, more);
      Distinct(merged) && forall j | 0 <= j < |merged| :: WellFormed(merged[j])
    decreases more, 2
  {
    hide MergeChild, WellFormed, Distinct;
    if more != [] {
      MergeChildrenWellFormed(children, more[..|more| - 1]);
      MergeChildWellFormed(MergeChildren(children, more[..|more| - 1]), more[|more| - 1]);
    }
  }

  lemma MergeStateAssociative(a: Option<Entries>, b: Option<Entries>, c: Option<Entries>)
    ensures MergeState(MergeState(a, b), c) == MergeState(a, MergeState(b, c))
  {
    if a.Some? && b.Some? && c.Some? {
      OverlayAssociative(a.value, b.value, c.value);
    }
  }

  /** Either grouping gives the same tree: order, handlers, middlewares and state included. */
  lemma {:induction false} MergeFromAssociative(a: Route, b: Route, c: Route)
    requires WellFormed(b) && WellFormed(c)
    ensures MergeFrom(MergeFrom(a, b), c) == MergeFrom(a, MergeFrom(b, c))
    decreases c, 0
  {
    hide MergeChildren, MergeState;
    MergeChildrenAssociative(a.children, b.children, c.children);
    MergeStateAssociative(a.state, b.state, c.state);
    assert c.handler + (b.handler + a.handler) == (c.handler + b.handler) + a.handler;
    assert (a.middlewares + b.middlewares) + c.middlewares == a.middlewares + (b.middlewares + c.middlewares);
  }
}
