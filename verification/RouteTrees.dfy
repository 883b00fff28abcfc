/**
  The compiled route tree and what it means for a path to resolve in it. Resolution is stated
  as a full backtracking search over all children, without the hash index, and characterised by
  the traces (lists of child indices) that consume the path.
 */
module RouteTrees {
  import opened Options
  import opened Slices
  import opened Segments
  import opened Http
  import States
  import Utf8

  datatype RouteTree = RouteTree(
    children: seq<RouteTree>,
    handler: map<Method, Handler>,
    middlewares: seq<Middleware>,
    staticChildren: map<string, nat>,
    dynamicChildren: seq<nat>,
    middlewareStart: nat,
    state: Option<States.Entries>,
    segment: Segment,
    hasHandler: bool,
    selfArc: Option<RouteTree>)

  type Trace = seq<nat>

  // ---------------------------------------------------------------- the search

  predicate Within(ix: seq<nat>, n: nat) {
    forall j | 0 <= j < |ix| :: ix[j] < n
  }

  /** The children with (or without) a static segment, in order. */
  function IndicesWhere(children: seq<RouteTree>, wantStatic: bool): (ix: seq<nat>)
    ensures Within(ix, |children|)
    ensures forall j | 0 <= j < |ix| :: children[ix[j]].segment.Static? == wantStatic
    ensures forall i | 0 <= i < |children| && children[i].segment.Static? == wantStatic :: i in ix
  {
    if children == [] then []
    else
      var last := |children| - 1;
      var rest := IndicesWhere(children[..last], wantStatic);
      assert forall i | 0 <= i < last && children[i].segment.Static? == wantStatic ::
        children[..last][i] == children[i] && i in rest;
      if children[last].segment.Static? == wantStatic then rest + [last] else rest
  }

  lemma {:induction false} IndicesAscend(children: seq<RouteTree>, wantStatic: bool, j: nat, k: nat)
    requires j < k < |IndicesWhere(children, wantStatic)|
    ensures IndicesWhere(children, wantStatic)[j] < IndicesWhere(children, wantStatic)[k]
    decreases |children|
  {
    var rest := IndicesWhere(children[..|children| - 1], wantStatic);
    if k < |rest| {
      IndicesAscend(children[..|children| - 1], wantStatic, j, k);
    }
  }

  /** Every child once: static children first, then the others, each group in order. */
  function ScanOrder(t: RouteTree): (ix: seq<nat>)
    ensures Within(ix, |t.children|)
  {
    IndicesWhere(t.children, true) + IndicesWhere(t.children, false)
  }

  function Try(t: RouteTree, i: nat, ctx: Ctx, off: nat): (r: Option<Hop>)
    requires i < |t.children| && off <= |ctx.full|
    ensures r.Some? ==> off <= r.value.next <= |ctx.full|
    ensures r.Some? ==> CaptureFits(t.children[i].segment, r.value.capture)
  {
    Advance(t.children[i].segment, t.children[i].children == [], ctx, off)
  }

  predicate Stops(t: RouteTree, ctx: Ctx, off: nat) {
    off == |ctx.full| || t.segment.FullPath?
  }

  /** The first way to consume the path from here: through a child if any works, else by stopping. */
  function Search(t: RouteTree, ctx: Ctx, off: nat): Option<Trace>
    requires off <= |ctx.full|
    decreases t, 1, 0
  {
    var below := SearchIn(t, ScanOrder(t), ctx, off);
    if below.Some? then below
    else if Stops(t, ctx, off) then Some([])
    else None
  }

  function SearchIn(t: RouteTree, candidates: seq<nat>, ctx: Ctx, off: nat): Option<Trace>
    requires off <= |ctx.full| && Within(candidates, |t.children|)
    decreases t, 0, |candidates|
  {
    if candidates == [] then None
    else
      var i := candidates[0];
      var hop := Try(t, i, ctx, off);
      var below := if hop.Some? then Search(t.children[i], ctx, hop.value.next) else None;
      if below.Some? then Some([i] + below.value) else SearchIn(t, candidates[1..], ctx, off)
  }

  // ---------------------------------------------------------------- how the search runs

  /** Child `i` does not match, or nothing below it consumes the rest. */
  predicate Dead(t: RouteTree, i: nat, ctx: Ctx, off: nat)
    requires i < |t.children| && off <= |ctx.full|
  {
    Try(t, i, ctx, off).None? || Search(t.children[i], ctx, Try(t, i, ctx, off).value.next).None?
  }

  function FirstAlive(t: RouteTree, candidates: seq<nat>, ctx: Ctx, off: nat): (k: nat)
    requires off <= |ctx.full| && Within(candidates, |t.children|)
    ensures k <= |candidates|
  {
    if candidates == [] || !Dead(t, candidates[0], ctx, off) then 0
    else 1 + FirstAlive(t, candidates[1..], ctx, off)
  }

  lemma {:induction false} FirstAliveIsFirst(t: RouteTree, candidates: seq<nat>, ctx: Ctx, off: nat)
    requires off <= |ctx.full| && Within(candidates, |t.children|)
    ensures var k := FirstAlive(t, candidates, ctx, off);
      && (forall j | 0 <= j < k :: Dead(t, candidates[j], ctx, off))
      && (k < |candidates| ==> !Dead(t, candidates[k], ctx, off))
    decreases |candidates|
  {
    hide Dead;
    if candidates != [] && Dead(t, candidates[0], ctx, off) {
      FirstAliveIsFirst(t, candidates[1..], ctx, off);
    }
  }

  /** The search returns through the first candidate that is alive. */
  lemma {:induction false} SearchInAt(t: RouteTree, candidates: seq<nat>, ctx: Ctx, off: nat, k: nat)
    requires off <= |ctx.full| && Within(candidates, |t.children|)
    requires k <= |candidates| && forall j | 0 <= j < k :: Dead(t, candidates[j], ctx, off)
    requires k < |candidates| ==> !Dead(t, candidates[k], ctx, off)
    ensures SearchIn(t, candidates, ctx, off) ==
      if k == |candidates| then None
      else
        var next := Try(t, candidates[k], ctx, off).value.next;
        Some([candidates[k]] + Search(t.children[candidates[k]], ctx, next).value)
    decreases k
  {
    hide Try, Search;
    if k > 0 {
      SearchInAt(t, candidates[1..], ctx, off, k - 1);
    }
  }

  // ---------------------------------------------------------------- traces

  /** Descending along `trace` through matching children: the node reached and the offset there. */
  function Walk(t: RouteTree, ctx: Ctx, off: nat, trace: Trace): (r: Option<(RouteTree, nat)>)
    requires off <= |ctx.full|
    ensures r.Some? ==> off <= r.value.1 <= |ctx.full|
    decreases |trace|
  {
    if trace == [] then Some((t, off))
    else if trace[0] >= |t.children| then None
    else
      var hop := Try(t, trace[0], ctx, off);
      if hop.None? then None else Walk(t.children[trace[0]], ctx, hop.value.next, trace[1..])
  }

  /**
    `trace` descends only through matching children and ends at a node that may stop: nothing is left
    there, or the node takes a full path.
   */
  predicate Accepts(t: RouteTree, ctx: Ctx, off: nat, trace: Trace)
    requires off <= |ctx.full|
  {
    var end := Walk(t, ctx, off, trace);
    end.Some? && (end.value.1 == |ctx.full| || end.value.0.segment.FullPath?)
  }

  /**
    Every offset reached stands right after a slash (or has taken nothing, or everything), so
    slicing a well-formed path there is always on a character boundary.
   */
  lemma {:induction false} WalkCutsAfterSlashes(t: RouteTree, ctx: Ctx, off: nat, trace: Trace)
    requires off <= |ctx.full| && StartsAfterSlash(ctx.full, off)
    requires Walk(t, ctx, off, trace).Some?
    ensures var reached := Walk(t, ctx, off, trace).value.1;
      && off <= reached
      && StartsAfterSlash(ctx.full, reached)
      && (Utf8.WellFormed(ctx.full) ==> Utf8.Boundary(ctx.full, reached) && Utf8.WellFormed(ctx.full[reached..]))
    decreases |trace|
  {
    hide Advance, Utf8.WellFormed, Utf8.Boundary;
    if trace == [] {
      if Utf8.WellFormed(ctx.full) {
        TailIsWellFormed(ctx.full, off);
        Utf8.StartIsBoundary(ctx.full, off);
      }
    } else {
      var child := t.children[trace[0]];
      OffsetIsRemainder(child.segment, child.children == [], ctx, off);
      WalkCutsAfterSlashes(child, ctx, Try(t, trace[0], ctx, off).value.next, trace[1..]);
    }
  }

  /** What each step of a walk matched, with the slashes dropped around it. */
  function Pieces(t: RouteTree, ctx: Ctx, off: nat, trace: Trace): seq<Piece>
    requires off <= |ctx.full| && Walk(t, ctx, off, trace).Some?
    decreases |trace|
  {
    if trace == [] then []
    else
      var child := t.children[trace[0]];
      [Consumed(child.segment, ctx.From(off), ctx)] +
        Pieces(child, ctx, Try(t, trace[0], ctx, off).value.next, trace[1..])
  }

  /** Each piece is made of the stored, parsed or captured text of its own step. */
  predicate PiecesFit(t: RouteTree, ctx: Ctx, off: nat, trace: Trace, pieces: seq<Piece>)
    requires off <= |ctx.full| && Walk(t, ctx, off, trace).Some?
    decreases |trace|
  {
    if trace == [] then pieces == []
    else
      var child, hop := t.children[trace[0]], Try(t, trace[0], ctx, off).value;
      && pieces != [] && PieceOf(child.segment, hop.capture, ctx, pieces[0])
      && PiecesFit(child, ctx, hop.next, trace[1..], pieces[1..])
  }

  function Concat(pieces: seq<Piece>): string {
    if pieces == [] then "" else Rendered(pieces[0]) + Concat(pieces[1..])
  }

  /** What the steps matched, with the dropped slashes put back, rebuilds what was consumed. */
  lemma {:induction false} PiecesRebuild(t: RouteTree, ctx: Ctx, off: nat, trace: Trace)
    requires off <= |ctx.full| && Walk(t, ctx, off, trace).Some?
    ensures PiecesFit(t, ctx, off, trace, Pieces(t, ctx, off, trace))
    ensures Concat(Pieces(t, ctx, off, trace)) == ctx.full[off..Walk(t, ctx, off, trace).value.1]
    decreases |trace|
  {
    hide Advance, Consumed, PieceOf, Rendered;
    if trace != [] {
      var child, next := t.children[trace[0]], Try(t, trace[0], ctx, off).value.next;
      HopConsumesPiece(child.segment, child.children == [], ctx, off);
      PiecesRebuild(child, ctx, next, trace[1..]);
      assert Pieces(t, ctx, off, trace)[1..] == Pieces(child, ctx, next, trace[1..]);
      var end := Walk(t, ctx, off, trace).value.1;
      assert ctx.full[off..next] + ctx.full[next..end] == ctx.full[off..end];
    }
  }

  /** Static children come before the others; otherwise registration order decides. */
  predicate Prior(t: RouteTree, i: nat, j: nat)
    requires i < |t.children| && j < |t.children|
  {
    var si, sj := t.children[i].segment.Static?, t.children[j].segment.Static?;
    (si && !sj) || (si == sj && i < j)
  }

  /** Lexicographic order on traces, stopping last. */
  predicate Before(t: RouteTree, a: Trace, b: Trace)
    decreases |a|
  {
    a != [] &&
    (b == [] ||
     (&& a[0] < |t.children| && b[0] < |t.children|
      && (Prior(t, a[0], b[0]) || (a[0] == b[0] && Before(t.children[a[0]], a[1..], b[1..])))))
  }

  lemma {:induction false} BeforeIsStrict(t: RouteTree, a: Trace, b: Trace)
    requires Before(t, a, b)
    ensures !Before(t, b, a) && a != b
    decreases |a|
  {
    if b != [] && a[0] == b[0] {
      BeforeIsStrict(t.children[a[0]], a[1..], b[1..]);
    }
  }

  lemma ScanOrderIsPrior(t: RouteTree, j: nat, k: nat)
    requires j < k < |ScanOrder(t)|
    ensures Prior(t, ScanOrder(t)[j], ScanOrder(t)[k])
  {
    hide IndicesWhere;
    var statics, others := IndicesWhere(t.children, true), IndicesWhere(t.children, false);
    if k < |statics| {
      IndicesAscend(t.children, true, j, k);
      assert ScanOrder(t)[j] == statics[j] && ScanOrder(t)[k] == statics[k];
    } else if j < |statics| {
      assert ScanOrder(t)[j] == statics[j] && ScanOrder(t)[k] == others[k - |statics|];
    } else {
      IndicesAscend(t.children, false, j - |statics|, k - |statics|);
      assert ScanOrder(t)[j] == others[j - |statics|] && ScanOrder(t)[k] == others[k - |statics|];
    }
  }

  lemma PositionInScanOrder(t: RouteTree, i: nat) returns (p: nat)
    requires i < |t.children|
    ensures p < |ScanOrder(t)| && ScanOrder(t)[p] == i
  {
    hide IndicesWhere;
    assert i in IndicesWhere(t.children, t.children[i].segment.Static?);
    assert i in ScanOrder(t);
    p :| 0 <= p < |ScanOrder(t)| && ScanOrder(t)[p] == i;
  }

  /** Whatever the search returns is an accepting trace. */
  lemma {:induction false} SearchAccepts(t: RouteTree, ctx: Ctx, off: nat)
    requires off <= |ctx.full| && Search(t, ctx, off).Some?
    ensures Accepts(t, ctx, off, Search(t, ctx, off).value)
    decreases t
  {
    hide Try, IndicesWhere, ScanOrder;
    var order := ScanOrder(t);
    var k := FirstAlive(t, order, ctx, off);
    FirstAliveIsFirst(t, order, ctx, off);
    SearchInAt(t, order, ctx, off, k);
    if k < |order| {
      var trace := Search(t, ctx, off).value;
      var hop := Try(t, order[k], ctx, off).value;
      SearchAccepts(t.children[order[k]], ctx, hop.next);
      assert trace[1..] == Search(t.children[order[k]], ctx, hop.next).value;
    }
  }

  /** The search misses nothing: it returns the least of all accepting traces. */
  lemma {:induction false} SearchIsLeast(t: RouteTree, ctx: Ctx, off: nat, other: Trace)
    requires off <= |ctx.full| && Accepts(t, ctx, off, other)
    ensures Search(t, ctx, off).Some?
    ensures Search(t, ctx, off).value == other || Before(t, Search(t, ctx, off).value, other)
    decreases t
  {
    hide Try, IndicesWhere, ScanOrder, Prior;
    var order := ScanOrder(t);
    var k := FirstAlive(t, order, ctx, off);
    FirstAliveIsFirst(t, order, ctx, off);
    SearchInAt(t, order, ctx, off, k);
    if other != [] {
      var i := other[0];
      var p := PositionInScanOrder(t, i);
      var hop := Try(t, i, ctx, off).value;
      SearchIsLeast(t.children[i], ctx, hop.next, other[1..]);
      var trace := Search(t, ctx, off).value;
      if k < p {
        ScanOrderIsPrior(t, k, p);
      } else {
        assert k == p;
        assert trace[1..] == Search(t.children[i], ctx, hop.next).value;
      }
    }
  }
}
