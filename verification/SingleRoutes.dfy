/**
  One route under an empty root, from the request path to the handler: static segments down to a last
  segment that takes the rest of the path, or that parses what it takes.
 */
module SingleRoutes {
  import opened Options
  import opened Http
  import opened Slices
  import opened Segments
  import opened Routes
  import opened RouteTrees
  import opened Builder
  import opened Serving
  import opened Compiling
  import opened Tables
  import Freezing
  import Onion
  import Utf8

  /** A root with these routes below it, each with one handler. */
  function Below(branches: seq<Route>): Route {
    Bare("", "").(children := branches)
  }

  /** A child of a root without middlewares and state is served as such. */
  lemma Enters(t: RouteTree, i: nat, rest: Trace, ctx: Ctx, off: nat, req: Req, policy: Policy)
    requires off <= |ctx.full| && i < |t.children| && Try(t, i, ctx, off).Some?
    requires Search(t, ctx, off) == Some([i] + rest)
    requires Search(t.children[i], ctx, Try(t, i, ctx, off).value.next) == Some(rest)
    requires Own(t.children[i]) == [] && t.children[i].state.None?
    ensures var hop := Try(t, i, ctx, off).value;
      Serve(t, ctx, off, req, policy) ==
      Serve(t.children[i], ctx, hop.next, Bound(req, t.children[i].segment, hop.capture), policy)
  {
    hide Try, Search, Serve, Own, Bound;
    ServeThroughChild(t, i, ctx, off, req, policy);
  }

  /** The search goes through the first candidate if that one resolves. */
  lemma FirstTaken(t: RouteTree, i: nat, ctx: Ctx, off: nat)
    requires off <= |ctx.full| && ScanOrder(t) != [] && ScanOrder(t)[0] == i && Try(t, i, ctx, off).Some?
    requires Search(t.children[i], ctx, Try(t, i, ctx, off).value.next).Some?
    ensures Search(t, ctx, off) == Some([i] + Search(t.children[i], ctx, Try(t, i, ctx, off).value.next).value)
  {
    hide Try, ScanOrder, IndicesWhere;
    SearchInAt(t, ScanOrder(t), ctx, off, 0);
  }

  lemma CompiledBranch(segs: seq<string>, m: Method, h: Handler)
    requires segs != []
    ensures var t := Compile(Branch(segs, m, h), []);
      && t.segment == ParseSegment(segs[0]) && t.state.None? && Own(t) == [] && (t.hasHandler <==> |segs| == 1)
      && (if |segs| == 1 then t.children == [] && t.handler == map[m := h]
          else t.children == [Compile(Branch(segs[1..], m, h), [])])
  {
    hide ParseSegment, Bracketed, Join, IndicesWhere, StaticIndex;
    var r := Branch(segs, m, h);
    CompiledParts(r, []);
    assert [] + r.middlewares == [];
    assert m in map[m := h];
  }

  lemma CompiledBelow(branches: seq<Route>)
    ensures var t := Compile(Below(branches), []);
      && t.segment == Root && t.state.None? && Own(t) == [] && |t.children| == |branches|
      && forall i | 0 <= i < |branches| :: t.children[i] == Compile(branches[i], [])
  {
    hide IndicesWhere, StaticIndex;
    var r := Below(branches);
    CompiledParts(r, []);
    assert [] + r.middlewares == [];
  }

  lemma OnlyChildFirst(t: RouteTree)
    requires |t.children| == 1
    ensures ScanOrder(t) == [0]
  {
    assert t.children[..0] == [];
    assert IndicesWhere(t.children[..0], true) == IndicesWhere(t.children[..0], false) == [];
  }

  // ---------------------------------------------------------------- down the static segments

  /** The path `s1/../sn/` followed by `tail`. */
  function PathOf(statics: seq<string>, tail: string): string {
    if statics == [] then tail else statics[0] + "/" + PathOf(statics[1..], tail)
  }

  /** What is left of the path is `rest`, perhaps behind one slash. */
  predicate Left(ctx: Ctx, off: nat, rest: string) {
    off <= |ctx.full| && (ctx.full[off..] == rest || ctx.full[off..] == "/" + rest)
  }

  lemma CutStatic(path: Slice, empty: nat, s: string, rest: string)
    requires GoodSegment(s) && (path.text == s + "/" + rest || path.text == "/" + (s + "/" + rest))
    ensures StripOneSegment(path, empty).0.text == s && StripOneSegment(path, empty).1.text == rest
  {
    hide StripOneSegment, StripLeadingSlash, CutsTail, CutAs, IsSuffix;
    var text := s + "/" + rest;
    TrimShape(path);
    assert path.text[1..] == text || path.text == text;
    assert StripLeadingSlash(path).text == text;
    CutShape(path, empty);
    var (segment, remain) := StripOneSegment(path, empty);
    assert text[..|s|] == s && text[|s| + 1..] == rest;
    OneCut(text, segment.text, remain.text, s, rest);
  }

  /** A node whose only child is the branch of the remaining static segments and a last one. */
  ghost predicate Heads(p: RouteTree, statics: seq<string>, last: string, m: Method, h: Handler) {
    !p.segment.FullPath? && p.children == [Compile(Branch(statics + [last], m, h), [])]
  }

  /** Serving goes down the static segments to the node above the last one, and changes nothing on the way. */
  lemma {:induction false} DownStatics(p: RouteTree, statics: seq<string>, last: string, m: Method, h: Handler,
      tail: string, ctx: Ctx, off: nat, req: Req, policy: Policy) returns (q: RouteTree, at: nat)
    requires StaticSegments(statics) && tail != "" && Heads(p, statics, last, m, h)
    requires Left(ctx, off, PathOf(statics, tail)) && StartsAfterSlash(ctx.full, off)
    ensures Heads(q, [], last, m, h) && Left(ctx, at, tail) && StartsAfterSlash(ctx.full, at)
    ensures Serve(p, ctx, off, req, policy) == Serve(q, ctx, at, req, policy)
    decreases |statics|
  {
    hide Compile, Branch, Serve, Try, Own, StartsAfterSlash, StaticSegments, Bracketed, Left;
    q, at := p, off;
    if statics != [] {
      var rest := PathOf(statics[1..], tail);
      var child := p.children[0];
      StaticFirstSegment(statics);
      CompiledBranch(statics + [last], m, h);
      assert (statics + [last])[1..] == statics[1..] + [last];
      StepInto(p, statics[0], rest, ctx, off);
      NothingSkipped(statics, tail, ctx, off);
      OneWayIn(p, 0, ctx, off, req, policy);
      q, at := DownStatics(child, statics[1..], last, m, h, tail, ctx, Try(p, 0, ctx, off).value.next, req, policy);
    }
  }

  lemma StaticFirstSegment(statics: seq<string>)
    requires statics != [] && StaticSegments(statics)
    ensures GoodSegment(statics[0]) && ParseSegment(statics[0]) == Static(statics[0]) && StaticSegments(statics[1..])
  {
    hide SpecialSegment;
  }

  lemma NothingSkipped(statics: seq<string>, tail: string, ctx: Ctx, off: nat)
    requires tail != "" && Left(ctx, off, PathOf(statics, tail))
    ensures off < |ctx.full|
  {
  }

  lemma StepInto(p: RouteTree, s: string, rest: string, ctx: Ctx, off: nat)
    requires |p.children| == 1 && p.children[0].segment == Static(s) && GoodSegment(s) && Left(ctx, off, s + "/" + rest)
    requires StartsAfterSlash(ctx.full, off)
    ensures Try(p, 0, ctx, off).Some? && Try(p, 0, ctx, off).value.capture.None?
    ensures var next := Try(p, 0, ctx, off).value.next;
      Left(ctx, next, rest) && StartsAfterSlash(ctx.full, next)
    ensures SearchIn(p, ScanOrder(p), ctx, off) == SearchIn(p, [0], ctx, off)
  {
    hide StripOneSegment, Advance, SearchIn, StartsAfterSlash, ScanOrder;
    CutStatic(ctx.From(off), ctx.empty, s, rest);
    StaticStep(s, p.children[0].children == [], ctx, off);
    StripIsTail(ctx, off);
    OffsetIsRemainder(Static(s), p.children[0].children == [], ctx, off);
    OnlyChildFirst(p);
  }

  /** The node above a last segment answers through it, or not at all. */
  lemma LastSegment(q: RouteTree, ctx: Ctx, at: nat, req: Req, policy: Policy)
    requires |q.children| == 1 && !q.segment.FullPath? && at < |ctx.full|
    requires var leaf := q.children[0];
      leaf.children == [] && leaf.hasHandler && leaf.state.None? && Own(leaf) == []
    ensures var leaf := q.children[0];
      var hop := Advance(leaf.segment, true, ctx, at);
      Serve(q, ctx, at, req, policy) ==
        if hop.Some? && (hop.value.next == |ctx.full| || leaf.segment.FullPath?) then
          HandlerCall(leaf.handler, Bound(req, leaf.segment, hop.value.capture))
        else Reply(NotFound, [])
  {
    hide Advance, Search, SearchIn, ScanOrder, Serve, Own, Bound, HandlerCall;
    var leaf := q.children[0];
    var hop := Advance(leaf.segment, true, ctx, at);
    OnlyChildFirst(q);
    if hop.Some? {
      LeafServes(leaf, ctx, hop.value.next, Bound(req, leaf.segment, hop.value.capture), policy);
    }
    SearchInAt(q, [0], ctx, at, if hop.Some? && Search(leaf, ctx, hop.value.next).Some? then 0 else 1);
    SearchUnfolds(q, ctx, at);
    if hop.Some? && Search(leaf, ctx, hop.value.next).Some? {
      Enters(q, 0, [], ctx, at, req, policy);
    } else {
      ServeNothing(q, ctx, at, req, policy);
    }
  }

  /** A whole request for `/s1/../sn/tail` is served below the node above the last segment. */
  lemma RootDescends(statics: seq<string>, last: string, m: Method, h: Handler, tail: string, ctx: Ctx, req: Req,
      policy: Policy) returns (q: RouteTree, at: nat)
    requires StaticSegments(statics) && tail != "" && ctx.full == "/" + PathOf(statics, tail)
    ensures Heads(q, [], last, m, h) && Left(ctx, at, tail) && StartsAfterSlash(ctx.full, at)
    ensures Handle(Freezing.Freeze(Compile(Below([Branch(statics + [last], m, h)]), [])), ctx, req, policy) ==
      Serve(q, ctx, at, req, policy)
  {
    hide Compile, Branch, Serve, Advance, Freezing.Freeze, Own, StaticSegments;
    var branch := Branch(statics + [last], m, h);
    var t := Compile(Below([branch]), []);
    CompiledBelow([branch]);
    assert t.children == [Compile(branch, [])];
    assert ctx.full[0..] == ctx.full;
    q, at := DownStatics(t, statics, last, m, h, tail, ctx, 0, req, policy);
    FreezeServe(t, ctx, req, policy);
    NothingSkipped(statics, tail, ctx, 0);
    LongerThanSlash(statics, tail);
    RootStep(false, ctx);
  }

  lemma LongerThanSlash(statics: seq<string>, tail: string)
    requires tail != ""
    ensures PathOf(statics, tail) != ""
  {
  }

  // ---------------------------------------------------------------- a full path

  /**
    A request for `/s1/../sn/tail` to the route `s1/../sn/<key:**>` is served by its handler, however many
    segments `tail` has, and `key` reads back `tail`.
   */
  lemma FullPathServes(statics: seq<string>, key: string, tail: string, h: Handler, ctx: Ctx, req: Req, policy: Policy)
    requires StaticSegments(statics) && ':' !in key && tail != "" && tail[0] != SLASH
    requires ctx.full == "/" + PathOf(statics, tail) && Utf8.WellFormed(ctx.full)
    ensures var branch := Branch(statics + ["<" + (key + ":" + "**") + ">"], req.verb, h);
      var reply := Handle(Freezing.Freeze(Compile(Below([branch]), [])), ctx, req, policy);
      && reply.outcome.Served? && reply.outcome.handler == h && reply.events == [Ran(h)]
      && key in reply.outcome.seen.params && reply.outcome.seen.params[key].PathParam?
      && ReadBack(ctx.full, reply.outcome.seen.params[key].range) == Some(tail)
  {
    hide Compile, Branch, Serve, Handle, Freezing.Freeze, Own, StaticSegments, ReadBack, Utf8.WellFormed,
      ParseSegment, StartsAfterSlash, PathOf, Left;
    var last := "<" + (key + ":" + "**") + ">";
    var q, at := RootDescends(statics, last, req.verb, h, tail, ctx, req, policy);
    CompiledBranch([last], req.verb, h);
    assert [] + [last] == [last];
    FullPattern(key);
    FullLeaf(q, key, tail, h, ctx, at, req, policy);
  }

  lemma FullLeaf(q: RouteTree, key: string, tail: string, h: Handler, ctx: Ctx, at: nat, req: Req, policy: Policy)
    requires Left(ctx, at, tail) && tail != "" && tail[0] != SLASH
    requires StartsAfterSlash(ctx.full, at) && Utf8.WellFormed(ctx.full)
    requires |q.children| == 1 && !q.segment.FullPath?
    requires var leaf := q.children[0];
      && leaf.segment == FullPath(key) && leaf.children == [] && leaf.hasHandler && leaf.state.None? && Own(leaf) == []
      && leaf.handler == map[req.verb := h]
    ensures var reply := Serve(q, ctx, at, req, policy);
      && reply.outcome.Served? && reply.outcome.handler == h && reply.events == [Ran(h)]
      && key in reply.outcome.seen.params && reply.outcome.seen.params[key].PathParam?
      && ReadBack(ctx.full, reply.outcome.seen.params[key].range) == Some(tail)
  {
    hide Advance, Serve, Own, HandlerCall, Bound, ReadBack, Utf8.WellFormed, StartsAfterSlash, Left, Onion.ParamOf;
    var range := FullCaptured(key, tail, ctx, at);
    LastSegment(q, ctx, at, req, policy);
    FullBound(key, range, req);
    OneHandler(h, Bound(req, FullPath(key), Some(FullCapture(range))));
  }

  lemma FullCaptured(key: string, tail: string, ctx: Ctx, at: nat) returns (range: Range)
    requires Left(ctx, at, tail) && tail != "" && tail[0] != SLASH
    requires StartsAfterSlash(ctx.full, at) && Utf8.WellFormed(ctx.full)
    ensures at < |ctx.full|
    ensures var hop := Advance(FullPath(key), true, ctx, at);
      hop.Some? && hop.value.capture == Some(FullCapture(range)) && ReadBack(ctx.full, range) == Some(tail)
  {
    hide Advance, StripOneSegment, StripLeadingSlash, ReadBack, Utf8.WellFormed, StartsAfterSlash, Left, CutAs,
      CutsTail, SliceRange, IsSuffix;
    LeftTrims(ctx, at, tail);
    TextSegmentStep(FullPath(key), true, ctx, at);
    FullCaptureReadsBack(key, true, ctx, at);
    range := Advance(FullPath(key), true, ctx, at).value.capture.value.range;
  }

  lemma FullBound(key: string, range: Range, req: Req)
    ensures var bound := Bound(req, FullPath(key), Some(FullCapture(range)));
      bound.verb == req.verb && key in bound.params && bound.params[key] == PathParam(range)
  {
    hide Bound;
    BoundParam(FullPath(key), FullCapture(range), req);
  }

  lemma FullPattern(key: string)
    requires ':' !in key
    ensures ParseSegment("<" + (key + ":" + "**") + ">") == FullPath(key)
  {
    hide ParseSegment;
    TypedPattern(key, "**");
  }

  lemma OneHandler(h: Handler, req: Req)
    ensures HandlerCall(map[req.verb := h], req) == Reply(Served(h, false, req), [Ran(h)])
  {
  }

  /** Binding a capture puts its parameter under the segment's key. */
  lemma BoundParam(seg: Segment, capture: Capture, req: Req)
    requires CaptureFits(seg, Some(capture)) && BoundKey(seg).Some?
    ensures var bound := Bound(req, seg, Some(capture));
      && bound.verb == req.verb && BoundKey(seg).value in bound.params
      && bound.params[BoundKey(seg).value] == Onion.ParamOf(capture)
  {
    hide Bound, BoundKey, Onion.ParamOf;
    Onion.BoundLookup(req, seg, Some(capture), BoundKey(seg).value);
    Onion.BoundKeepsRest(req, seg, Some(capture));
  }

  lemma LeftTrims(ctx: Ctx, at: nat, tail: string)
    requires Left(ctx, at, tail) && tail != "" && tail[0] != SLASH
    ensures at < |ctx.full| && StripLeadingSlash(ctx.From(at)).text == tail
  {
    TrimShape(ctx.From(at));
  }

  /** In segments: `/s1/../sn/x1/../xm`, for every `m` above 0. */
  lemma {:induction false} PathOfJoin(statics: seq<string>, rest: seq<string>)
    requires rest != []
    ensures PathOf(statics, Join(rest)) == Join(statics + rest)
    decreases |statics|
  {
    if statics == [] {
      assert statics + rest == rest;
    } else {
      assert (statics + rest)[1..] == statics[1..] + rest;
      PathOfJoin(statics[1..], rest);
    }
  }

  lemma FullPathTakesSegments(statics: seq<string>, key: string, rest: seq<string>, h: Handler, ctx: Ctx, req: Req,
      policy: Policy)
    requires StaticSegments(statics) && ':' !in key && GoodSegments(rest)
    requires ctx.full == "/" + Join(statics + rest) && Utf8.WellFormed(ctx.full)
    ensures var branch := Branch(statics + ["<" + (key + ":" + "**") + ">"], req.verb, h);
      var reply := Handle(Freezing.Freeze(Compile(Below([branch]), [])), ctx, req, policy);
      && reply.outcome.Served? && reply.outcome.handler == h
      && key in reply.outcome.seen.params && reply.outcome.seen.params[key].PathParam?
      && ReadBack(ctx.full, reply.outcome.seen.params[key].range) == Some(Join(rest))
  {
    hide Compile, Branch, Handle, Freezing.Freeze, StaticSegments, ReadBack, Utf8.WellFormed, Join;
    PathOfJoin(statics, rest);
    JoinSplits(rest);
    FullPathServes(statics, key, Join(rest), h, ctx, req, policy);
  }

  // ---------------------------------------------------------------- a typed segment

  lemma CutLast(path: Slice, empty: nat, x: string)
    requires GoodSegment(x) && (path.text == x || path.text == "/" + x)
    ensures StripOneSegment(path, empty).0.text == x && StripOneSegment(path, empty).1.text == ""
  {
    hide StripOneSegment, StripLeadingSlash, CutsTail, CutAs, IsSuffix;
    TrimShape(path);
    assert path.text[1..] == x || path.text == x;
    assert StripLeadingSlash(path).text == x;
    CutShape(path, empty);
    var (segment, remain) := StripOneSegment(path, empty);
    OneCut(x, segment.text, remain.text, x, "");
  }

  /** The handler gets the parsed value under the key, or the request is not found. */
  predicate TypedReply(reply: Reply, h: Handler, key: string, read: bool, param: PathParam) {
    if read then
      && reply.outcome.Served? && reply.outcome.handler == h && reply.events == [Ran(h)]
      && key in reply.outcome.seen.params && reply.outcome.seen.params[key] == param
    else reply == Reply(NotFound, [])
  }

  lemma TypedLeaf(q: RouteTree, seg: Segment, x: string, h: Handler, ctx: Ctx, at: nat, req: Req, policy: Policy)
    requires Typed(seg) && GoodSegment(x) && Left(ctx, at, x)
    requires |q.children| == 1 && !q.segment.FullPath?
    requires var leaf := q.children[0];
      && leaf.segment == seg && leaf.children == [] && leaf.hasHandler && leaf.state.None? && Own(leaf) == []
      && leaf.handler == map[req.verb := h]
    ensures var parsed := ParserOf(seg, ctx.parsers)(x);
      var reply := Serve(q, ctx, at, req, policy);
      if parsed.None? then reply == Reply(NotFound, [])
      else reply == Reply(Served(h, false, Bound(req, seg, Some(ParsedCapture(seg, parsed.value)))), [Ran(h)])
  {
    hide Advance, Serve, Own, StripOneSegment, ParserOf, ParsedCapture, HandlerCall, Bound, CutAs, CutsTail;
    CutLast(ctx.From(at), ctx.empty, x);
    KindStep(seg, true, ctx, at);
    LastSegment(q, ctx, at, req, policy);
    var parsed := ParserOf(seg, ctx.parsers)(x);
    if parsed.Some? {
      ParsedFits(seg, parsed.value);
      BoundParam(seg, ParsedCapture(seg, parsed.value), req);
      OneHandler(h, Bound(req, seg, Some(ParsedCapture(seg, parsed.value))));
    }
  }

  lemma ParsedFits(seg: Segment, v: int)
    requires Typed(seg)
    ensures CaptureFits(seg, Some(ParsedCapture(seg, v))) && BoundKey(seg) == Some(seg.key)
  {
  }

  /**
    A request for `/s1/../sn/x` to the route `s1/../sn/<key:type>` is served exactly when the parser of the
    type reads `x`, and the handler then finds under `key` what was read, as a value of that type.
   */
  lemma TypedServes(statics: seq<string>, key: string, kind: string, x: string, h: Handler, ctx: Ctx, req: Req,
      policy: Policy)
    requires StaticSegments(statics) && ':' !in key && GoodSegment(x) && ctx.full == "/" + PathOf(statics, x)
    ensures var branch := Branch(statics + ["<" + (key + ":" + kind) + ">"], req.verb, h);
      var reply, ps := Handle(Freezing.Freeze(Compile(Below([branch]), [])), ctx, req, policy), ctx.parsers;
      && (kind == "int" ==> TypedReply(reply, h, key, ps.i32(x).Some?, IntParam(ValueOf(ps.i32(x)))))
      && (kind == "i32" ==> TypedReply(reply, h, key, ps.i32(x).Some?, IntParam(ValueOf(ps.i32(x)))))
      && (kind == "i64" ==> TypedReply(reply, h, key, ps.i64(x).Some?, Int64Param(ValueOf(ps.i64(x)))))
      && (kind == "u64" ==> TypedReply(reply, h, key, ps.u64(x).Some?, UInt64Param(ValueOf(ps.u64(x)))))
      && (kind == "u32" ==> TypedReply(reply, h, key, ps.u32(x).Some?, UInt32Param(ValueOf(ps.u32(x)))))
      && (kind == "uuid" ==> TypedReply(reply, h, key, ps.uuid(x).Some?, UuidParam(ValueOf(ps.uuid(x)))))
  {
    hide Compile, Branch, Handle, Freezing.Freeze, StaticSegments, ParseSegment, PathOf, ParserOf, ParsedCapture,
      ValueOf, TypedReply;
    var last := "<" + (key + ":" + kind) + ">";
    TypedPattern(key, kind);
    var seg := ParseSegment(last);
    if Typed(seg) {
      assert seg.key == key;
      TypedServesAs(statics, last, seg, x, h, ctx, req, policy);
      TypedParts(key, ctx.parsers, ValueOf(ParserOf(seg, ctx.parsers)(x)));
    }
  }

  lemma TypedServesAs(statics: seq<string>, last: string, seg: Segment, x: string, h: Handler, ctx: Ctx, req: Req,
      policy: Policy)
    requires StaticSegments(statics) && Typed(seg) && ParseSegment(last) == seg && GoodSegment(x)
    requires ctx.full == "/" + PathOf(statics, x)
    ensures var branch := Branch(statics + [last], req.verb, h);
      var reply := Handle(Freezing.Freeze(Compile(Below([branch]), [])), ctx, req, policy);
      var parsed := ParserOf(seg, ctx.parsers)(x);
      TypedReply(reply, h, seg.key, parsed.Some?, Onion.ParamOf(ParsedCapture(seg, ValueOf(parsed))))
  {
    hide Compile, Branch, Serve, Handle, Freezing.Freeze, Own, StaticSegments, ParseSegment, PathOf, Left,
      StartsAfterSlash, ParserOf, ParsedCapture, Bound, Onion.ParamOf;
    var q, at := RootDescends(statics, last, req.verb, h, x, ctx, req, policy);
    CompiledBranch([last], req.verb, h);
    assert [] + [last] == [last];
    TypedLeaf(q, seg, x, h, ctx, at, req, policy);
    var v := ValueOf(ParserOf(seg, ctx.parsers)(x));
    ParsedFits(seg, v);
    BoundParam(seg, ParsedCapture(seg, v), req);
  }

  // ---------------------------------------------------------------- an empty group

  /** A child with an empty path consumes nothing, or a last slash; one without children takes no path at all. */
  lemma RootChildStep(t: RouteTree, i: nat, ctx: Ctx, off: nat)
    requires i < |t.children| && off <= |ctx.full| && t.children[i].segment == Root
    ensures Try(t, i, ctx, off) ==
      if ctx.full[off..] == "" || ctx.full[off..] == "/" then Some(Hop(|ctx.full|, None))
      else if t.children[i].children == [] then None
      else Some(Hop(off, None))
  {
    assert ctx.From(off).text == ctx.full[off..];
  }

  /** Where the only child is such a group, without middlewares and state, serving is serving the group. */
  lemma ServeGroup(t: RouteTree, ctx: Ctx, off: nat, req: Req, policy: Policy)
    requires off <= |ctx.full| && |t.children| == 1 && t.segment == Root
    requires var g := t.children[0];
      && g.segment == Root && g.state.None? && Own(g) == []
      && ctx.full[off..] != "/" && (off < |ctx.full| ==> g.children != [])
    ensures Serve(t, ctx, off, req, policy) == Serve(t.children[0], ctx, off, req, policy)
  {
    hide Try, Search, SearchIn, ScanOrder, Serve, Own;
    var g := t.children[0];
    RootChildStep(t, 0, ctx, off);
    OnlyChildFirst(t);
    if off < |ctx.full| {
      assert ctx.full[off..] != "";
      OneWayIn(t, 0, ctx, off, req, policy);
    } else {
      SearchUnfolds(g, ctx, off);
      SearchInAt(t, [0], ctx, off, 0);
      SearchUnfolds(t, ctx, off);
      Enters(t, 0, Search(g, ctx, off).value, ctx, off, req, policy);
    }
  }

  /** Routes grouped once more under an empty path answer every request as they do ungrouped. */
  lemma EmptyGroup(branches: seq<Route>, ctx: Ctx, req: Req, policy: Policy)
    ensures Handle(Freezing.Freeze(Compile(Below([Below(branches)]), [])), ctx, req, policy) ==
      Handle(Freezing.Freeze(Compile(Below(branches), [])), ctx, req, policy)
  {
    hide Compile, Serve, Advance, Freezing.Freeze, Own, Below;
    var t, g := Compile(Below([Below(branches)]), []), Compile(Below(branches), []);
    CompiledBelow([Below(branches)]);
    CompiledBelow(branches);
    assert t.children == [g];
    FreezeServe(t, ctx, req, policy);
    FreezeServe(g, ctx, req, policy);
    RootStep(false, ctx);
    RootStep(g.children == [], ctx);
    if ctx.full == "" || ctx.full == "/" {
      assert ctx.full[|ctx.full|..] == "";
      ServeGroup(t, ctx, |ctx.full|, req, policy);
    } else {
      assert ctx.full[0..] == ctx.full;
      if g.children != [] {
        ServeGroup(t, ctx, 0, req, policy);
      } else {
        NothingInGroup(t, ctx, req, policy);
      }
    }
  }

  lemma NothingInGroup(t: RouteTree, ctx: Ctx, req: Req, policy: Policy)
    requires |t.children| == 1 && t.segment == Root && t.children[0].segment == Root && t.children[0].children == []
    requires ctx.full != "" && ctx.full != "/"
    ensures Serve(t, ctx, 0, req, policy) == Reply(NotFound, [])
  {
    hide Try, Search, SearchIn, ScanOrder, Serve;
    assert ctx.full[0..] == ctx.full;
    RootChildStep(t, 0, ctx, 0);
    OnlyChildFirst(t);
    SearchInAt(t, [0], ctx, 0, 1);
    SearchUnfolds(t, ctx, 0);
    ServeNothing(t, ctx, 0, req, policy);
  }
}
