/**
  What a handler gets when it reads the text parameters of a request it was given: each reads back
  exactly the text its segment matched, with one exception.
 */
module ReadingBack {
  import opened Options
  import opened Slices
  import opened Segments
  import opened RouteTrees
  import opened Serving
  import opened Onion
  import Utf8

  /** A segment that matched at an offset; `leaf` says that its node has no children. */
  datatype Binding = Binding(seg: Segment, leaf: bool, off: nat)

  predicate CapturesText(seg: Segment) {
    seg.Str? || seg.Path? || seg.FullPath?
  }

  /** The text a segment matches at an offset. */
  function MatchedText(b: Binding, ctx: Ctx): string
    requires b.off <= |ctx.full|
  {
    if b.seg.FullPath? then StripLeadingSlash(ctx.From(b.off)).text
    else StripOneSegment(ctx.From(b.off), ctx.empty).0.text
  }

  /** A path segment with nothing left but a slash captures the literal `""` instead of a piece of the path. */
  predicate CapturesLiteral(b: Binding, ctx: Ctx)
    requires b.off <= |ctx.full|
  {
    b.seg.Path? && StripLeadingSlash(ctx.From(b.off)).text == ""
  }

  /** Where the literal is stored decides whether such a capture can be read. */
  predicate LiteralReads(ctx: Ctx) {
    ctx.empty <= ctx.at || (ctx.empty <= ctx.at + |ctx.full| && Utf8.Boundary(ctx.full, ctx.empty - ctx.at))
  }

  function ReadOf(b: Binding, ctx: Ctx): Option<string>
    requires b.off <= |ctx.full|
  {
    if CapturesLiteral(b, ctx) && !LiteralReads(ctx) then None else Some(MatchedText(b, ctx))
  }

  // ---------------------------------------------------------------- one capture

  /** Any range read back is empty if its ends are the same. */
  lemma EmptyRead(full: string, range: Range)
    requires range.start == range.end && ReadBack(full, range).Some?
    ensures ReadBack(full, range) == Some("")
  {
    assert full[range.start..range.end] == "";
  }

  lemma CutReads(ctx: Ctx, off: nat)
    requires off <= |ctx.full| && StartsAfterSlash(ctx.full, off) && Utf8.WellFormed(ctx.full)
    requires StripLeadingSlash(ctx.From(off)).text != ""
    ensures var segment := StripOneSegment(ctx.From(off), ctx.empty).0;
      ReadBack(ctx.full, SliceRange(Slice(ctx.at, ctx.full), segment)) == Some(segment.text)
  {
    hide StripOneSegment, StripLeadingSlash, SegmentAt, Utf8.WellFormed, ReadBack, SliceRange, StartsAfterSlash,
      CutAs, CutsTail, IsSuffix;
    var (segment, remain) := StripOneSegment(ctx.From(off), ctx.empty);
    CutIsSegment(ctx, off);
    SegmentReadsBack(ctx.full, off, SliceRange(Slice(ctx.at, ctx.full), segment), RemainOffset(ctx.full, remain.text));
  }

  /** Whatever a text segment captures reads back what it matched, unless it is the literal and stored out of reach. */
  lemma CaptureReads(b: Binding, ctx: Ctx)
    requires b.off <= |ctx.full| && StartsAfterSlash(ctx.full, b.off)
    requires Utf8.WellFormed(ctx.full) && CapturesText(b.seg)
    requires Advance(b.seg, b.leaf, ctx, b.off).Some?
    ensures var capture := Advance(b.seg, b.leaf, ctx, b.off).value.capture;
      && capture.Some? && (capture.value.StrCapture? || capture.value.PathCapture? || capture.value.FullCapture?)
      && ReadBack(ctx.full, capture.value.range) == ReadOf(b, ctx)
  {
    hide Advance, StripOneSegment, StripLeadingSlash, Utf8.WellFormed, ReadBack, StartsAfterSlash, CutAs, CutsTail,
      IsSuffix, Utf8.Boundary, SegmentAt;
    TextSegmentStep(b.seg, b.leaf, ctx, b.off);
    var range := Advance(b.seg, b.leaf, ctx, b.off).value.capture.value.range;
    if b.seg.FullPath? {
      FullCaptureReadsBack(b.seg.key, b.leaf, ctx, b.off);
    } else if StripLeadingSlash(ctx.From(b.off)).text != "" {
      CutReads(ctx, b.off);
    } else {
      EmptySegment(ctx.From(b.off), ctx.empty);
      PathCaptureReadsBack(b.seg.key, b.leaf, ctx, b.off);
      if ReadBack(ctx.full, range).Some? {
        EmptyRead(ctx.full, range);
      }
    }
  }

  // ---------------------------------------------------------------- along a trace

  /** The deepest child on the trace that binds `key`, and where it matched. */
  function Binder(t: RouteTree, trace: Trace, ctx: Ctx, off: nat, key: string): Option<Binding>
    requires off <= |ctx.full| && Walk(t, ctx, off, trace).Some?
    decreases |trace|
  {
    if trace == [] then None
    else
      var child, hop := t.children[trace[0]], Try(t, trace[0], ctx, off).value;
      OrElse(Binder(child, trace[1..], ctx, hop.next, key),
             if BoundKey(child.segment) == Some(key) then Some(Binding(child.segment, child.children == [], off))
             else None)
  }

  /** It matched right after a slash, and what it captured is the parameter the handler sees. */
  lemma {:induction false} BinderCaptures(t: RouteTree, trace: Trace, ctx: Ctx, off: nat, key: string)
    requires off <= |ctx.full| && Walk(t, ctx, off, trace).Some? && StartsAfterSlash(ctx.full, off)
    ensures Binder(t, trace, ctx, off, key).Some? <==> DeepestCapture(t, trace, ctx, off, key).Some?
    ensures Binder(t, trace, ctx, off, key).Some? ==>
      var b := Binder(t, trace, ctx, off, key).value;
      && b.off <= |ctx.full| && StartsAfterSlash(ctx.full, b.off)
      && Advance(b.seg, b.leaf, ctx, b.off).Some? && BoundKey(b.seg) == Some(key)
      && Advance(b.seg, b.leaf, ctx, b.off).value.capture.Some?
      && DeepestCapture(t, trace, ctx, off, key) ==
        Some(ParamOf(Advance(b.seg, b.leaf, ctx, b.off).value.capture.value))
    decreases |trace|
  {
    hide Advance, StartsAfterSlash, ParamOf;
    if trace != [] {
      var child, hop := t.children[trace[0]], Try(t, trace[0], ctx, off).value;
      OffsetIsRemainder(child.segment, child.children == [], ctx, off);
      BinderCaptures(child, trace[1..], ctx, hop.next, key);
    }
  }

  // ---------------------------------------------------------------- a served request

  /** The binding of a key on the whole trace, the root's own included. */
  function BinderOf(t: RouteTree, trace: Trace, ctx: Ctx, off: nat, key: string): Option<Binding>
    requires off <= |ctx.full| && Walk(t, ctx, off, trace).Some?
  {
    OrElse(Binder(t, trace, ctx, off, key),
           if BoundKey(t.segment) == Some(key) then Some(Binding(t.segment, t.children == [], 0)) else None)
  }

  /**
    On a well-formed path, every text parameter that dispatching bound reads back exactly the text its
    segment matched; only the literal of a path segment behind a trailing slash may be out of reach.
   */
  lemma ServedParamsReadBack(t: RouteTree, ctx: Ctx, req: Req, policy: Policy, key: string)
    requires Handle(t, ctx, req, policy).outcome.Served? && Utf8.WellFormed(ctx.full)
    ensures var hop := Advance(t.segment, t.children == [], ctx, 0);
      && hop.Some? && Search(t, ctx, hop.value.next).Some?
      && var trace := Search(t, ctx, hop.value.next).value;
      && Walk(t, ctx, hop.value.next, trace).Some?
      && var params, b := Handle(t, ctx, req, policy).outcome.seen.params, BinderOf(t, trace, ctx, hop.value.next, key);
      && (b.None? ==> Get(params, key) == Get(req.params, key))
      && (b.Some? && CapturesText(b.value.seg) ==>
          && b.value.off <= |ctx.full| && key in params && (params[key].StrParam? || params[key].PathParam?)
          && ReadBack(ctx.full, params[key].range) == ReadOf(b.value, ctx))
  {
    hide Handle, Advance, Search, Walk, Utf8.WellFormed, ReadBack, ReadOf, Binder, DeepestCapture, StartsAfterSlash,
      Nodes, DeepestState, BoundKey, CapturesText;
    HandlerSeesTrace(t, ctx, req, policy, 0, key);
    var hop := Advance(t.segment, t.children == [], ctx, 0).value;
    var trace := Search(t, ctx, hop.next).value;
    StartsAtZero(ctx);
    OffsetIsRemainder(t.segment, t.children == [], ctx, 0);
    BinderCaptures(t, trace, ctx, hop.next, key);
    var b := BinderOf(t, trace, ctx, hop.next, key);
    if b.Some? && CapturesText(b.value.seg) {
      CaptureReads(b.value, ctx);
    }
  }

  lemma StartsAtZero(ctx: Ctx)
    ensures StartsAfterSlash(ctx.full, 0)
  {
  }
}
