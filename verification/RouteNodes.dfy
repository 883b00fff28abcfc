/**
  The route as the builder mutates it: nodes with fields and child nodes, merged in place. Every
  method is proved against the value functions of `Routes` and `Builder` through the ghost field
  `model`, the value a node currently stands for.
 */
module RouteNodes {
  import opened Options
  import opened Http
  import opened States
  import opened Routes
  import Builder
  import Segments
  import Slices

  ghost predicate Separate(nodes: seq<RouteNode>)
    reads nodes
  {
    forall i, j | 0 <= i < j < |nodes| :: nodes[i].repr !! nodes[j].repr
  }

  class RouteNode {
    const path: string
    var handler: map<Method, Handler>
    var children: seq<RouteNode>
    var middlewares: seq<Middleware>
    var special: bool
    const createPath: string
    var state: Option<Entries>

    ghost var model: Route
    ghost var repr: set<RouteNode>

    ghost predicate Valid()
      reads this, repr
      ensures Valid() ==> this in repr
      decreases repr, 1
    {
      Shape()
    }

    /** The nodes below are owned: no node is reachable through two children. */
    ghost predicate Shape()
      reads this, repr
      decreases repr, 0
    {
      && this in repr
      && model == Route(path, handler, model.children, middlewares, special, createPath, state)
      && |model.children| == |children|
      && (forall i | 0 <= i < |children| ::
            && children[i] in repr && children[i].repr < repr && this !in children[i].repr
            && children[i] in children[i].repr && children[i].Valid()
            && model.children[i] == children[i].model)
      && Separate(children)
    }

    lemma Open()
      requires Valid()
      ensures Shape()
    {
    }

    lemma Close()
      requires Shape()
      ensures Valid()
    {
    }

    constructor Bare(first: string, createPath: string)
      ensures Valid() && fresh(repr) && model == Builder.Bare(first, createPath)
    {
      path, this.createPath := first, createPath;
      handler, children, middlewares := map[], [], [];
      special, state := Segments.Bracketed(first), None;
      model := Builder.Bare(first, createPath);
      repr := {this};
    }

    /** Searches the children for one with the key of `route`. */
    method FindMergeTarget(route: RouteNode) returns (k: nat)
      requires Valid() && route.Valid()
      ensures k == FindChild(model.children, route.model.Key())
    {
      hide Valid;
      Open();
      route.Open();
      k := 0;
      while k < |children| && !(children[k].path == route.path && children[k].special == route.special)
        invariant k <= |children|
        invariant forall j | 0 <= j < k :: model.children[j].Key() != route.model.Key()
      {
        children[k].Open();
        k := k + 1;
      }
      if k < |children| {
        children[k].Open();
      }
      FindChildIs(model.children, route.model.Key(), k);
    }

    /** Merges `route` into the child at `k`, which owns other nodes than its siblings do. */
    method MergeInto(k: nat, route: RouteNode)
      requires Valid() && route.Valid() && repr !! route.repr && k < |model.children|
      modifies repr, route.repr
      ensures Valid() && repr == old(repr) + old(route.repr)
      ensures model == old(model).(children :=
        old(model.children)[k := Routes.MergeFrom(old(model.children)[k], old(route.model))])
      decreases route.model, 1
    {
      hide Valid, Routes.MergeFrom;
      Open();
      var existing := children[k];
      ghost var added := route.repr;
      existing.MergeFrom(route);
      assert forall i | 0 <= i < |children| && i != k ::
        children[i].repr == old(children[i].repr) && children[i].model == old(children[i].model) && children[i].Valid();
      repr := repr + added;
      model := model.(children := model.children[k := existing.model]);
      assert Separate(children);
      Close();
    }

    method PushChild(route: RouteNode)
      requires Valid() && route.Valid() && repr !! route.repr
      modifies this
      ensures Valid() && repr == old(repr) + route.repr
      ensures model == old(model).(children := old(model.children) + [route.model])
    {
      hide Valid;
      Open();
      route.Open();
      children := children + [route];
      repr := repr + route.repr;
      model := model.(children := model.children + [route.model]);
      Close();
    }

    /** `merge_child` on this node's list of children. */
    method MergeChild(route: RouteNode)
      requires Valid() && route.Valid() && repr !! route.repr
      modifies repr, route.repr
      ensures Valid() && repr == old(repr) + old(route.repr)
      ensures model == old(model).(children := Routes.MergeChild(old(model.children), old(route.model)))
      decreases route.model, 2
    {
      hide Valid, Routes.MergeFrom, FindChild;
      Open();
      var k := FindMergeTarget(route);
      if k < |children| {
        MergeInto(k, route);
      } else {
        PushChild(route);
      }
    }

    /** `merge_from`: the other node's fields are taken, its children merged one by one. */
    method MergeFrom(other: RouteNode)
      requires Valid() && other.Valid() && repr !! other.repr
      modifies repr, other.repr
      ensures Valid() && repr == old(repr) + old(other.repr)
      ensures model == Routes.MergeFrom(old(model), old(other.model))
      decreases other.model, 0
    {
      hide Valid, MergeChildren;
      other.Open();
      ghost var theirs, nodes := other.model, repr + other.repr;
      var otherState, otherSpecial := other.state, other.special;
      TakeLists(other.handler, other.middlewares);
      var moved := other.children;
      MergeAll(moved, theirs.children, nodes);
      TakeState(otherState, otherSpecial);
    }

    method TakeLists(otherHandler: map<Method, Handler>, otherMiddlewares: seq<Middleware>)
      requires Valid()
      modifies this
      ensures Valid() && repr == old(repr)
      ensures model == old(model).(handler := otherHandler + old(model).handler,
                                   middlewares := old(model).middlewares + otherMiddlewares)
    {
      hide Valid;
      Open();
      handler := otherHandler + handler;
      if otherMiddlewares != [] {
        middlewares := middlewares + otherMiddlewares;
      }
      model := model.(handler := handler, middlewares := middlewares);
      Close();
    }

    method TakeState(otherState: Option<Entries>, otherSpecial: bool)
      requires Valid()
      modifies this
      ensures Valid() && repr == old(repr)
      ensures model == old(model).(state := MergeState(old(model).state, otherState),
                                   special := old(model).special || otherSpecial)
    {
      hide Valid;
      Open();
      if otherState.Some? {
        state := if state.Some? then Some(Overlay(state.value, otherState.value)) else otherState;
      }
      special := special || otherSpecial;
      model := model.(state := state, special := special);
      Close();
    }

    ghost method Adopt(nodes: set<RouteNode>)
      requires Valid() && repr <= nodes
      modifies this`repr
      ensures Valid() && repr == nodes && model == old(model)
    {
      hide Valid;
      Open();
      repr := nodes;
      Close();
    }

    /** Merges the routes into the children in turn; `nodes` bounds everything involved. */
    method MergeAll(routes: seq<RouteNode>, ghost models: seq<Route>, ghost nodes: set<RouteNode>)
      requires Valid() && repr <= nodes && Separate(routes) && |routes| == |models|
      requires forall j | 0 <= j < |routes| ::
        routes[j].Valid() && routes[j].model == models[j] && routes[j].repr !! repr && routes[j].repr <= nodes
      modifies nodes
      ensures Valid() && repr == nodes
      ensures model == old(model).(children := MergeChildren(old(model).children, models))
      decreases models
    {
      hide Valid, Routes.MergeChild;
      ghost var before := model.children;
      var k := 0;
      while k < |routes|
        invariant k <= |routes|
        invariant Valid() && repr <= nodes
        invariant model == old(model).(children := MergeChildren(before, models[..k]))
        invariant forall j | k <= j < |routes| ::
          && routes[j].repr == old(routes[j].repr) && routes[j].repr !! repr
          && routes[j].Valid() && routes[j].model == models[j]
      {
        assert models[..k + 1][..k] == models[..k];
        assert forall j | k < j < |routes| :: routes[j].repr !! routes[k].repr;
        MergeChild(routes[k]);
        k := k + 1;
      }
      assert models[..k] == models;
      Adopt(nodes);
    }

    // -------------------------------------------------------------- the builder calls

    /** `Route::new`. */
    static method New(pattern: string) returns (r: RouteNode)
      ensures r.Valid() && fresh(r.repr) && r.model == Builder.NewRoute(pattern)
      decreases |pattern|
    {
      hide Segments.SplitOnce, Routes.MergeChild;
      var trimmed := Builder.TrimSlashes(pattern);
      var (first, last) := Segments.SplitOnce(trimmed, Slices.SLASH);
      r := new RouteNode.Bare(first, trimmed);
      if last != "" {
        var rest := New(last);
        r.MergeChild(rest);
      }
    }

    /** Searches the children for the one created with this pattern. */
    method FindCreatedChild(created: string) returns (k: nat)
      requires Valid()
      ensures k == Builder.FindCreated(model.children, created)
    {
      hide Valid;
      Open();
      k := 0;
      while k < |children| && children[k].createPath != created
        invariant k <= |children|
        invariant forall j | 0 <= j < k :: model.children[j].createPath != created
      {
        children[k].Open();
        k := k + 1;
      }
      if k < |children| {
        children[k].Open();
      }
      FoundAt(model.children, created, k);
    }

    static lemma FoundAt(children: seq<Route>, created: string, k: nat)
      requires k <= |children| && forall j | 0 <= j < k :: children[j].createPath != created
      requires k < |children| ==> children[k].createPath == created
      ensures Builder.FindCreated(children, created) == k
    {
      if k < Builder.FindCreated(children, created) {
        assert false;
      }
    }

    /**
      `append`, `push` and `extend`: walks down to the node `create_path` leads to and merges the
      routes there. Silent panics where this returns false, and then nothing has changed.
     */
    method ExtendAt(created: string, routes: seq<RouteNode>, ghost models: seq<Route>, ghost nodes: set<RouteNode>)
      returns (ok: bool)
      requires Valid() && repr <= nodes && Separate(routes) && |routes| == |models|
      requires forall j | 0 <= j < |routes| ::
        routes[j].Valid() && routes[j].model == models[j] && routes[j].repr !! repr && routes[j].repr <= nodes
      modifies nodes
      ensures Valid() && repr == if ok then nodes else old(repr)
      ensures ok <==> Builder.ExtendAt(old(model), created, models).Some?
      ensures model == if ok then Builder.ExtendAt(old(model), created, models).value else old(model)
      decreases model
    {
      hide Valid, MergeChildren, Segments.SplitOnce, Builder.FindCreated;
      Open();
      if Slices.SLASH !in created {
        MergeAll(routes, models, nodes);
        return true;
      }
      var last := Segments.SplitOnce(created, Slices.SLASH).1;
      var k := FindCreatedChild(last);
      if k == |children| {
        return false;
      }
      ghost var siblings := repr - children[k].repr;
      ok := children[k].ExtendAt(last, routes, models, nodes - siblings);
      ChildChanged(k, if ok then nodes else repr);
    }

    /** Takes over what happened below the child at `k`, whose siblings were left alone. */
    ghost method ChildChanged(k: nat, nodes: set<RouteNode>)
      requires k < |children| == |model.children| && this in nodes && repr <= nodes
      requires model == Route(path, handler, model.children, middlewares, special, createPath, state)
      requires forall i | 0 <= i < |children| :: children[i].Valid() && children[i].repr <= nodes - {this}
      requires forall i | 0 <= i < |children| && i != k :: model.children[i] == children[i].model
      requires Separate(children)
      modifies this`repr, this`model
      ensures Valid() && repr == nodes
      ensures model == old(model).(children := old(model).children[k := children[k].model])
    {
      hide Valid;
      repr := nodes;
      model := model.(children := model.children[k := children[k].model]);
      Close();
    }

    method Extend(routes: seq<RouteNode>, ghost models: seq<Route>, ghost nodes: set<RouteNode>) returns (ok: bool)
      requires Valid() && repr <= nodes && Separate(routes) && |routes| == |models|
      requires forall j | 0 <= j < |routes| ::
        routes[j].Valid() && routes[j].model == models[j] && routes[j].repr !! repr && routes[j].repr <= nodes
      modifies nodes
      ensures Valid() && repr == if ok then nodes else old(repr)
      ensures ok <==> Builder.Extend(old(model), models).Some?
      ensures model == if ok then Builder.Extend(old(model), models).value else old(model)
    {
      hide Valid, Builder.ExtendAt;
      Open();
      ok := ExtendAt(createPath, routes, models, nodes);
    }

    /** `append` and `push`. */
    method Append(route: RouteNode) returns (ok: bool)
      requires Valid() && route.Valid() && repr !! route.repr
      modifies repr, route.repr
      ensures Valid() && repr == old(repr) + if ok then old(route.repr) else {}
      ensures ok <==> Builder.Extend(old(model), [old(route.model)]).Some?
      ensures model == if ok then Builder.Extend(old(model), [old(route.model)]).value else old(model)
    {
      hide Valid, Builder.Extend;
      ok := Extend([route], [route.model], repr + route.repr);
    }

    /** `handler`: inserts into the map `get_handler_mut` finds. */
    method SetHandler(m: Method, h: Handler) returns (ok: bool)
      requires Valid()
      modifies repr
      ensures Valid() && repr == old(repr)
      ensures ok <==> Builder.SetHandler(old(model), m, h).Some?
      ensures model == if ok then Builder.SetHandler(old(model), m, h).value else old(model)
      decreases model, 1
    {
      hide Valid, Segments.SplitOnce, Builder.FindCreated;
      Open();
      if path == createPath {
        InsertHandler(m, h);
        return true;
      }
      var last := Segments.SplitOnce(createPath, Slices.SLASH).1;
      var k := FindCreatedChild(last);
      if k == |children| {
        return false;
      }
      ok := SetHandlerIn(k, m, h);
    }

    method SetHandlerIn(k: nat, m: Method, h: Handler) returns (ok: bool)
      requires Valid() && k < |model.children|
      modifies repr
      ensures Valid() && repr == old(repr)
      ensures var child := Builder.SetHandler(old(model).children[k], m, h);
        && (ok <==> child.Some?)
        && model == if ok then old(model).(children := old(model).children[k := child.value]) else old(model)
      decreases model, 0
    {
      hide Valid, Builder.SetHandler;
      Open();
      ok := children[k].SetHandler(m, h);
      ChildChanged(k, repr);
    }

    method InsertHandler(m: Method, h: Handler)
      requires Valid()
      modifies this
      ensures Valid() && repr == old(repr)
      ensures Some(model) == Builder.Apply(old(model), Builder.InsertHandler(m, h))
    {
      hide Valid;
      Open();
      handler := handler[m := h];
      model := model.(handler := handler);
      Close();
    }

    method Hook(mw: Middleware)
      requires Valid()
      modifies this
      ensures Valid() && repr == old(repr)
      ensures Some(model) == Builder.Apply(old(model), Builder.Hook(mw))
    {
      hide Valid;
      Open();
      middlewares := middlewares + [mw];
      model := model.(middlewares := middlewares);
      Close();
    }

    method HookFirst(mw: Middleware)
      requires Valid()
      modifies this
      ensures Valid() && repr == old(repr)
      ensures Some(model) == Builder.Apply(old(model), Builder.HookFirst(mw))
    {
      hide Valid;
      Open();
      middlewares := [mw] + middlewares;
      model := model.(middlewares := middlewares);
      Close();
    }

    method WithState(k: TypeId, v: Value)
      requires Valid()
      modifies this
      ensures Valid() && repr == old(repr)
      ensures Some(model) == Builder.Apply(old(model), Builder.WithState(k, v))
    {
      hide Valid;
      Open();
      var entries := if state.Some? then state.value else None;
      state := Some(Overlay(entries, Some(map[k := v])));
      model := model.(state := state);
      Close();
    }
  }
}
