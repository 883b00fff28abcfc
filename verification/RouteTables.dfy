/**
  A route read as a routing table, from a list of segment keys and a method to a handler. Merging
  two routes is the left-biased union of their tables, at every depth.
 */
module RouteTables {
  import opened Options
  import opened Http
  import opened Routes
  import opened States

  function ChildAt(children: seq<Route>, key: Key): Option<Route> {
    var k := FindChild(children, key);
    if k < |children| then Some(children[k]) else None
  }

  /** The route below `r` along `keys`. */
  function RouteAt(r: Route, keys: seq<Key>): Option<Route>
    decreases |keys|
  {
    if keys == [] then Some(r)
    else
      var child := ChildAt(r.children, keys[0]);
      if child.Some? then RouteAt(child.value, keys[1..]) else None
  }

  function TableLookup(r: Route, keys: seq<Key>, m: Method): Option<Handler> {
    var at := RouteAt(r, keys);
    if at.Some? then Get(at.value.handler, m) else None
  }

  /** One key at a time. */
  lemma LookupUnfolds(r: Route, keys: seq<Key>, m: Method)
    ensures keys == [] ==> RouteAt(r, keys) == Some(r) && TableLookup(r, keys, m) == Get(r.handler, m)
    ensures keys != [] ==>
      var child := ChildAt(r.children, keys[0]);
      && RouteAt(r, keys) == (if child.Some? then RouteAt(child.value, keys[1..]) else None)
      && TableLookup(r, keys, m) == (if child.Some? then TableLookup(child.value, keys[1..], m) else None)
  {
    hide ChildAt;
  }

  /** What `a`, `b` or both have, merged. */
  function MergeOptions(a: Option<Route>, b: Option<Route>): Option<Route> {
    if b.None? then a else if a.None? then b else Some(MergeFrom(a.value, b.value))
  }

  lemma ChildOfMergeChild(children: seq<Route>, route: Route, key: Key)
    ensures ChildAt(MergeChild(children, route), key) ==
      if key == route.Key() then MergeOptions(ChildAt(children, key), Some(route)) else ChildAt(children, key)
  {
    hide MergeFrom, FindChild;
    var k, f := FindChild(children, route.Key()), FindChild(children, key);
    if k < |children| {
      MergeKeepsKey(children[k], route);
      FindChildIs(MergeChild(children, route), key, f);
    } else if key == route.Key() {
      FindChildIs(MergeChild(children, route), key, |children|);
    } else {
      FindChildIs(MergeChild(children, route), key, if f < |children| then f else |children| + 1);
    }
  }

  lemma ChildOfPush(more: seq<Route>, route: Route, key: Key)
    requires Distinct(more + [route])
    ensures ChildAt(more + [route], key) ==
      if key == route.Key() then Some(route) else ChildAt(more, key)
    ensures key == route.Key() ==> ChildAt(more, key).None?
  {
    hide FindChild;
    var f := FindChild(more, key);
    assert f < |more| ==> !SameKey((more + [route])[f], (more + [route])[|more|]);
    FindChildIs(more + [route], key, if f < |more| then f else if key == route.Key() then |more| else |more| + 1);
  }

  lemma {:induction false} ChildOfMergeChildren(children: seq<Route>, more: seq<Route>, key: Key)
    requires Distinct(more)
    ensures ChildAt(MergeChildren(children, more), key) == MergeOptions(ChildAt(children, key), ChildAt(more, key))
    decreases |more|
  {
    hide MergeChild, MergeFrom, ChildAt, Distinct;
    if more == [] {
      NoChild(key);
    } else {
      var rest, last := more[..|more| - 1], more[|more| - 1];
      assert more == rest + [last];
      DistinctPrefix(more, |more| - 1);
      ChildOfMergeChildren(children, rest, key);
      ChildOfMergeChild(MergeChildren(children, rest), last, key);
      ChildOfPush(rest, last, key);
    }
  }

  lemma NoChild(key: Key)
    ensures ChildAt([], key) == None
  {
  }

  /** The merged route along any list of keys is the merge of what the two had there. */
  lemma {:induction false} RouteOfMerge(a: Route, b: Route, keys: seq<Key>)
    requires WellFormed(b)
    ensures RouteAt(MergeFrom(a, b), keys) == MergeOptions(RouteAt(a, keys), RouteAt(b, keys))
    decreases |keys|
  {
    hide ChildAt, MergeChildren;
    if keys != [] {
      ChildOfMergeChildren(a.children, b.children, keys[0]);
      var x, y := ChildAt(a.children, keys[0]), ChildAt(b.children, keys[0]);
      if x.Some? && y.Some? {
        ChildWellFormed(b, keys[0]);
        RouteOfMerge(x.value, y.value, keys[1..]);
      }
    }
  }

  lemma ChildWellFormed(r: Route, key: Key)
    requires WellFormed(r) && ChildAt(r.children, key).Some?
    ensures WellFormed(ChildAt(r.children, key).value)
  {
  }

  /** The table of the merge: the receiver's entries, with the other's where it has none. */
  lemma MergeIsUnion(a: Route, b: Route, keys: seq<Key>, m: Method)
    requires WellFormed(b)
    ensures TableLookup(MergeFrom(a, b), keys, m) == OrElse(TableLookup(a, keys, m), TableLookup(b, keys, m))
  {
    hide RouteAt, MergeChildren;
    RouteOfMerge(a, b, keys);
  }

  /** Merging a route into a list of children adds its table under its own key, and only there. */
  lemma MergeChildIsUnion(parent: Route, route: Route, keys: seq<Key>, m: Method)
    requires WellFormed(route)
    ensures TableLookup(parent.(children := MergeChild(parent.children, route)), keys, m) ==
      if keys != [] && keys[0] == route.Key() then
        OrElse(TableLookup(parent, keys, m), TableLookup(route, keys[1..], m))
      else TableLookup(parent, keys, m)
  {
    hide MergeChild, MergeFrom, ChildAt;
    if keys != [] {
      ChildOfMergeChild(parent.children, route, keys[0]);
      var child := ChildAt(parent.children, keys[0]);
      if child.Some? {
        MergeIsUnion(child.value, route, keys[1..], m);
      }
    }
  }

  /**
    Where both routes have a node: middlewares are concatenated, the other's state wins, the receiver's
    handlers win.
   */
  lemma MergedNode(a: Route, b: Route, keys: seq<Key>, k: TypeId)
    requires WellFormed(b) && RouteAt(a, keys).Some? && RouteAt(b, keys).Some?
    ensures RouteAt(MergeFrom(a, b), keys).Some?
    ensures var x, y, z := RouteAt(a, keys).value, RouteAt(b, keys).value, RouteAt(MergeFrom(a, b), keys).value;
      && z.middlewares == x.middlewares + y.middlewares
      && StateOf(z, k) == OrElse(StateOf(y, k), StateOf(x, k))
      && z.handler == y.handler + x.handler
  {
    hide RouteAt, MergeChildren;
    RouteOfMerge(a, b, keys);
    var x, y := RouteAt(a, keys).value, RouteAt(b, keys).value;
    if x.state.Some? && y.state.Some? {
      OverlayLookup(x.state.value, y.state.value, k);
    }
  }

  function StateOf(r: Route, k: TypeId): Option<Value> {
    if r.state.Some? then Lookup(r.state.value, k) else None
  }
}
