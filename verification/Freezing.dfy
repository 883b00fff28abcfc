/**
  `freeze` stores in every node a shared copy of that node, so that a middleware chain can refer
  to it without cloning the subtree. Erasing those copies again loses nothing.
 */
module Freezing {
  import opened Options
  import opened Segments
  import opened RouteTrees

  function Freeze(t: RouteTree): RouteTree {
    var thawed := t.(children := seq(|t.children|, i requires 0 <= i < |t.children| => Freeze(t.children[i])),
                     selfArc := None);
    thawed.(selfArc := Some(thawed))
  }

  /** The tree without the shared copies. */
  function Erase(t: RouteTree): RouteTree {
    t.(children := seq(|t.children|, i requires 0 <= i < |t.children| => Erase(t.children[i])), selfArc := None)
  }

  /** Freezing changes nothing but the copies, at every depth, and each copy is its own node up to erasure. */
  lemma {:induction false} FreezeErases(t: RouteTree)
    ensures Erase(Freeze(t)) == Erase(t)
    ensures Freeze(t).selfArc.Some? && Erase(Freeze(t).selfArc.value) == Erase(t)
    decreases t
  {
    forall i | 0 <= i < |t.children| ensures Erase(Freeze(t).children[i]) == Erase(t.children[i]) {
      FreezeErases(t.children[i]);
    }
    assert Erase(Freeze(t)).children == Erase(t).children;
  }

  /** Every node, at every depth, shares a copy of exactly itself. */
  predicate Frozen(t: RouteTree) {
    t.selfArc == Some(t.(selfArc := None)) && forall i | 0 <= i < |t.children| :: Frozen(t.children[i])
  }

  lemma {:induction false} FreezeIsFrozen(t: RouteTree)
    ensures Frozen(Freeze(t))
    decreases t
  {
    forall i | 0 <= i < |t.children| ensures Frozen(Freeze(t).children[i]) {
      FreezeIsFrozen(t.children[i]);
    }
  }

  /** A tree that was never frozen comes back exactly. */
  lemma {:induction false} EraseUnfrozen(t: RouteTree)
    requires Unfrozen(t)
    ensures Erase(t) == t
    decreases t
  {
    forall i | 0 <= i < |t.children| ensures Erase(t.children[i]) == t.children[i] {
      EraseUnfrozen(t.children[i]);
    }
    assert Erase(t).children == t.children;
  }

  predicate Unfrozen(t: RouteTree) {
    t.selfArc.None? && forall i | 0 <= i < |t.children| :: Unfrozen(t.children[i])
  }

  // ---------------------------------------------------------------- resolution ignores the copies

  lemma {:induction false} EraseIndices(children: seq<RouteTree>, erased: seq<RouteTree>, wantStatic: bool)
    requires |erased| == |children| && forall i | 0 <= i < |children| :: erased[i].segment == children[i].segment
    ensures IndicesWhere(erased, wantStatic) == IndicesWhere(children, wantStatic)
    decreases |children|
  {
    if children != [] {
      EraseIndices(children[..|children| - 1], erased[..|children| - 1], wantStatic);
    }
  }

  lemma EraseTry(t: RouteTree, i: nat, ctx: Ctx, off: nat)
    requires i < |t.children| && off <= |ctx.full|
    ensures Try(Erase(t), i, ctx, off) == Try(t, i, ctx, off)
  {
    hide Advance;
  }

  lemma {:induction false} EraseSearch(t: RouteTree, ctx: Ctx, off: nat)
    requires off <= |ctx.full|
    ensures Search(Erase(t), ctx, off) == Search(t, ctx, off)
    decreases t, 1, 0
  {
    hide IndicesWhere, SearchIn;
    assert forall i | 0 <= i < |t.children| :: Erase(t).children[i].segment == Erase(t.children[i]).segment;
    EraseIndices(t.children, Erase(t).children, true);
    EraseIndices(t.children, Erase(t).children, false);
    EraseSearchIn(t, ScanOrder(t), ctx, off);
  }

  lemma {:induction false} EraseSearchIn(t: RouteTree, candidates: seq<nat>, ctx: Ctx, off: nat)
    requires off <= |ctx.full| && Within(candidates, |t.children|)
    ensures SearchIn(Erase(t), candidates, ctx, off) == SearchIn(t, candidates, ctx, off)
    decreases t, 0, |candidates|
  {
    hide Try, Search;
    if candidates != [] {
      EraseTry(t, candidates[0], ctx, off);
      var hop := Try(t, candidates[0], ctx, off);
      if hop.Some? {
        EraseSearch(t.children[candidates[0]], ctx, hop.value.next);
      }
      EraseSearchIn(t, candidates[1..], ctx, off);
    }
  }
}
