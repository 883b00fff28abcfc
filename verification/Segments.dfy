/**
  One route segment: how its pattern is parsed, how it matches the front of the remaining
  request path, and what it captures into the request's path parameters.
 */
module Segments {
  import opened Options
  import opened Slices
  import Utf8

  datatype Segment =
    | Root
    | Static(value: string)
    | Str(key: string)
    | Int(key: string)
    | I64(key: string)
    | I32(key: string)
    | U64(key: string)
    | U32(key: string)
    | Uuid(key: string)
    | Path(key: string)
    | FullPath(key: string)

  // ---------------------------------------------------------------- parsing a pattern

  predicate Bracketed(raw: string) {
    |raw| > 0 && raw[0] == '<' && raw[|raw| - 1] == '>'
  }

  /** `splitn(2, c)`: the text before the first `c` and the text after it. */
  function SplitOnce(s: string, c: char): (r: (string, string))
    ensures c !in r.0
    ensures if c in s then s == r.0 + [c] + r.1 else s == r.0 && r.1 == ""
  {
    match IndexOf(s, c)
    case None => (s, "")
    case Some(i) => (s[..i], s[i + 1..])
  }

  function SegmentOfKind(kind: string, key: string): Segment {
    if kind == "**" || kind == "full_path" then FullPath(key)
    else if kind == "*" || kind == "path" then Path(key)
    else if kind == "int" then Int(key)
    else if kind == "i64" then I64(key)
    else if kind == "i32" then I32(key)
    else if kind == "u64" then U64(key)
    else if kind == "u32" then U32(key)
    else if kind == "uuid" then Uuid(key)
    else Str(key)
  }

  function SpecialSegment(raw: string): Segment
    requires Bracketed(raw)
  {
    var (key, kind) := SplitOnce(raw[1..|raw| - 1], ':');
    SegmentOfKind(kind, key)
  }

  function ParseSegment(raw: string): (seg: Segment)
    ensures seg.Static? <==> raw != "" && !Bracketed(raw)
    ensures seg.Static? ==> seg.value == raw
  {
    if raw == "" then Root
    else if Bracketed(raw) then SpecialSegment(raw)
    else Static(raw)
  }

  /** The documented type name of a parameter segment. */
  function Kind(seg: Segment): string
    requires !seg.Root? && !seg.Static?
  {
    match seg
    case Str(_) => "str"
    case Int(_) => "int"
    case I64(_) => "i64"
    case I32(_) => "i32"
    case U64(_) => "u64"
    case U32(_) => "u32"
    case Uuid(_) => "uuid"
    case Path(_) => "*"
    case FullPath(_) => "**"
  }

  /** The documented pattern of a segment; keys hold no colon. */
  function Pattern(seg: Segment): string {
    match seg
    case Root => ""
    case Static(value) => value
    case _ => "<" + (seg.key + ":" + Kind(seg)) + ">"
  }

  lemma SplitAtFirst(key: string, kind: string)
    requires ':' !in key
    ensures SplitOnce(key + ":" + kind, ':') == (key, kind)
  {
    var s := key + ":" + kind;
    var i := IndexOf(s, ':').value;
    assert s[|key|] == ':';
    assert i >= |key|;
    assert s[|key|] !in s[..i];
    assert s[..|key|] == key && s[|key| + 1..] == kind;
  }

  lemma KindRoundTrip(seg: Segment)
    requires !seg.Static? && !seg.Root?
    ensures SegmentOfKind(Kind(seg), seg.key) == seg
  {
  }

  lemma PatternRoundTrip(seg: Segment)
    requires seg.Static? ==> seg.value != "" && !Bracketed(seg.value)
    requires !seg.Static? && !seg.Root? ==> ':' !in seg.key
    ensures ParseSegment(Pattern(seg)) == seg
  {
    hide Kind, SegmentOfKind, SplitOnce;
    if !seg.Static? && !seg.Root? {
      var raw := Pattern(seg);
      assert raw[1..|raw| - 1] == seg.key + ":" + Kind(seg);
      SplitAtFirst(seg.key, Kind(seg));
      KindRoundTrip(seg);
    }
  }

  /** What each type name in a `<key:type>` pattern stands for; an unknown one, or none, means a string. */
  lemma TypedPattern(key: string, kind: string)
    requires ':' !in key
    ensures var seg := ParseSegment("<" + (key + ":" + kind) + ">");
      && (kind in ["**", "full_path"] ==> seg == FullPath(key))
      && (kind in ["*", "path"] ==> seg == Path(key))
      && (kind == "int" ==> seg == Int(key)) && (kind == "uuid" ==> seg == Uuid(key))
      && (kind == "i64" ==> seg == I64(key)) && (kind == "i32" ==> seg == I32(key))
      && (kind == "u64" ==> seg == U64(key)) && (kind == "u32" ==> seg == U32(key))
      && (kind !in ["**", "full_path", "*", "path", "int", "i64", "i32", "u64", "u32", "uuid"] ==> seg == Str(key))
    ensures ParseSegment("<" + key + ">") == Str(key)
  {
    hide SplitOnce;
    var raw := "<" + (key + ":" + kind) + ">";
    assert raw[1..|raw| - 1] == key + ":" + kind;
    SplitAtFirst(key, kind);
    var bare := "<" + key + ">";
    assert bare[1..|bare| - 1] == key;
    SplitNowhere(key);
  }

  /** A pattern is a parameter exactly when it starts with `<` and ends with `>`; any other text stands for itself. */
  lemma PlainPattern(raw: string)
    ensures ParseSegment(raw) == Static(raw) <==> raw != "" && !(raw[0] == '<' && raw[|raw| - 1] == '>')
    ensures ParseSegment(raw) == Root <==> raw == ""
  {
    hide SplitOnce;
  }

  lemma SplitNowhere(key: string)
    requires ':' !in key
    ensures SplitOnce(key, ':') == (key, "")
  {
  }

  // ---------------------------------------------------------------- matching the path

  /** `str::parse` for the integer types and `Uuid::parse_str`, about which nothing is assumed. */
  datatype Parsers = Parsers(
    i32: string -> Option<int>, i64: string -> Option<int>,
    u64: string -> Option<int>, u32: string -> Option<int>,
    uuid: string -> Option<int>)

  /**
    What stays fixed while one request is dispatched: its path, the address the path is stored
    at, and the address of the literal `""`.
   */
  datatype Ctx = Ctx(full: string, at: nat, empty: nat, parsers: Parsers) {
    function From(off: nat): Slice
      requires off <= |full|
    {
      Slice(at, full).Drop(off)
    }
  }

  datatype Capture =
    | StrCapture(range: Range)
    | PathCapture(range: Range)
    | FullCapture(range: Range)
    | I32Capture(value: int)
    | I64Capture(value: int)
    | U64Capture(value: int)
    | U32Capture(value: int)
    | UuidCapture(value: int)

  datatype PathMatch = PathMatch(remain: Slice, capture: Option<Capture>)

  /** Each kind of segment captures its own kind of value. */
  predicate CaptureFits(seg: Segment, capture: Option<Capture>) {
    match seg
    case Root => capture.None?
    case Static(_) => capture.None?
    case Str(_) => capture.Some? && capture.value.StrCapture?
    case Int(_) => capture.Some? && capture.value.I32Capture?
    case I32(_) => capture.Some? && capture.value.I32Capture?
    case I64(_) => capture.Some? && capture.value.I64Capture?
    case U64(_) => capture.Some? && capture.value.U64Capture?
    case U32(_) => capture.Some? && capture.value.U32Capture?
    case Uuid(_) => capture.Some? && capture.value.UuidCapture?
    case Path(_) => capture.Some? && capture.value.PathCapture?
    case FullPath(_) => capture.Some? && capture.value.FullCapture?
  }

  /** The parser a typed segment runs on the text it cut off, and the capture it makes of the result. */
  function ParserOf(seg: Segment, parsers: Parsers): string -> Option<int> {
    match seg
    case I64(_) => parsers.i64
    case U64(_) => parsers.u64
    case U32(_) => parsers.u32
    case Uuid(_) => parsers.uuid
    case _ => parsers.i32
  }

  function ParsedCapture(seg: Segment, v: int): Capture {
    match seg
    case I64(_) => I64Capture(v)
    case U64(_) => U64Capture(v)
    case U32(_) => U32Capture(v)
    case Uuid(_) => UuidCapture(v)
    case _ => I32Capture(v)
  }

  /** `RouteTree::call_path_only`; `leaf` says that the node has no children. */
  function CallPathOnly(seg: Segment, leaf: bool, path: Slice, ctx: Ctx): Option<PathMatch> {
    var full := Slice(ctx.at, ctx.full);
    match seg
    case Root =>
      var normalized := if path.text == "/" then Slice(ctx.empty, "") else path;
      if normalized.text != "" && leaf then None else Some(PathMatch(normalized, None))
    case Static(value) =>
      (match MatchStaticSegment(value, path, ctx.empty)
       case Some(remain) => Some(PathMatch(remain, None))
       case None => None)
    case Str(_) =>
      var (segment, remain) := StripOneSegment(path, ctx.empty);
      if segment.text == "" then None
      else Some(PathMatch(remain, Some(StrCapture(SliceRange(full, segment)))))
    case Path(_) =>
      var (segment, remain) := StripOneSegment(path, ctx.empty);
      Some(PathMatch(remain, Some(PathCapture(SliceRange(full, segment)))))
    case FullPath(_) =>
      var trimmed := StripLeadingSlash(path);
      var (_, remain) := StripOneSegment(path, ctx.empty);
      Some(PathMatch(remain, Some(FullCapture(SliceRange(full, trimmed)))))
    case _ =>
      var (segment, remain) := StripOneSegment(path, ctx.empty);
      if segment.text == "" then None
      else
        match ParserOf(seg, ctx.parsers)(segment.text)
        case Some(v) => Some(PathMatch(remain, Some(ParsedCapture(seg, v))))
        case None => None
  }

  lemma MatchCutsTail(seg: Segment, leaf: bool, path: Slice, ctx: Ctx)
    requires CallPathOnly(seg, leaf, path, ctx).Some?
    ensures CutsTail(path.text, CallPathOnly(seg, leaf, path, ctx).value.remain.text)
    ensures CaptureFits(seg, CallPathOnly(seg, leaf, path, ctx).value.capture)
  {
    hide StripOneSegment, MatchStaticSegment, StripLeadingSlash, CutAs, CutsTail, SliceRange;
    if seg.Root? {
      CutsAllOrNothing(path.text);
    }
  }

  /** A match seen from the whole path: the offset after it, and the capture. */
  datatype Hop = Hop(next: nat, capture: Option<Capture>)

  function Advance(seg: Segment, leaf: bool, ctx: Ctx, off: nat): (r: Option<Hop>)
    requires off <= |ctx.full|
    ensures r.Some? ==> off <= r.value.next <= |ctx.full|
    ensures r.Some? ==> CaptureFits(seg, r.value.capture)
  {
    match CallPathOnly(seg, leaf, ctx.From(off), ctx)
    case None => None
    case Some(m) =>
      MatchCutsTail(seg, leaf, ctx.From(off), ctx);
      Some(Hop(RemainOffset(ctx.full, m.remain.text), m.capture))
  }

  /**
    The offset kept instead of the remainder stands for it exactly, and it is `off` itself, the
    end of the path, or the position after a slash.
   */
  lemma OffsetIsRemainder(seg: Segment, leaf: bool, ctx: Ctx, off: nat)
    requires off <= |ctx.full| && Advance(seg, leaf, ctx, off).Some?
    ensures var next := Advance(seg, leaf, ctx, off).value.next;
      && ctx.full[next..] == CallPathOnly(seg, leaf, ctx.From(off), ctx).value.remain.text
      && (next == off || StartsAfterSlash(ctx.full, next))
  {
    hide CallPathOnly;
    MatchCutsTail(seg, leaf, ctx.From(off), ctx);
    TailOfTail(ctx.full, off, CallPathOnly(seg, leaf, ctx.From(off), ctx).value.remain.text);
  }

  lemma TailOfTail(full: string, off: nat, remain: string)
    requires off <= |full| && CutsTail(full[off..], remain)
    ensures full[|full| - |remain|..] == remain
    ensures |full| - |remain| == off || StartsAfterSlash(full, |full| - |remain|)
  {
    SuffixOfSuffix(full, full[off..], |full| - off - |remain|);
  }

  /** A static segment matches exactly when it is the next segment of the path. */
  lemma StaticStep(value: string, leaf: bool, ctx: Ctx, off: nat)
    requires off <= |ctx.full| && value != "" && SLASH !in value
    ensures var (segment, remain) := StripOneSegment(ctx.From(off), ctx.empty);
      && (Advance(Static(value), leaf, ctx, off).Some? <==> segment.text == value)
      && |remain.text| <= |ctx.full|
      && (segment.text == value ==>
        Advance(Static(value), leaf, ctx, off).value == Hop(RemainOffset(ctx.full, remain.text), None))
  {
    hide StripOneSegment, MatchStaticSegment, StripLeadingSlash, CutAs, StartsAfterSlash;
    StaticMatchIsCut(value, ctx.From(off), ctx.empty);
  }

  // ---------------------------------------------------------------- path parameters

  datatype PathParam =
    | StrParam(range: Range)
    | IntParam(value: int)
    | Int64Param(value: int)
    | UInt64Param(value: int)
    | UInt32Param(value: int)
    | UuidParam(value: int)
    | PathParam(range: Range)

  type Params = map<string, PathParam>

  /** `RouteTree::bind_params`: the new parameter map, or None where it reports a capture that does not fit. */
  function BindParams(seg: Segment, capture: Option<Capture>, params: Params): (bound: Option<Params>)
    ensures CaptureFits(seg, capture) ==> bound.Some?
  {
    match (seg, capture)
    case (Root, _) => Some(params)
    case (Static(_), _) => Some(params)
    case (Str(key), Some(StrCapture(range))) => Some(params[key := StrParam(range)])
    case (Int(key), Some(I32Capture(v))) => Some(params[key := IntParam(v)])
    case (I32(key), Some(I32Capture(v))) => Some(params[key := IntParam(v)])
    case (I64(key), Some(I64Capture(v))) => Some(params[key := Int64Param(v)])
    case (U64(key), Some(U64Capture(v))) => Some(params[key := UInt64Param(v)])
    case (U32(key), Some(U32Capture(v))) => Some(params[key := UInt32Param(v)])
    case (Uuid(key), Some(UuidCapture(v))) => Some(params[key := UuidParam(v)])
    case (Path(key), Some(PathCapture(range))) => Some(params[key := PathParam(range)])
    case (FullPath(key), Some(FullCapture(range))) => Some(params[key := PathParam(range)])
    case _ => None
  }

  /** The key a segment binds, if any. */
  function BoundKey(seg: Segment): Option<string> {
    if seg.Root? || seg.Static? then None else Some(seg.key)
  }

  /** Binding never fails on what a match captured, and touches no key but the segment's own. */
  lemma BindAfterMatch(seg: Segment, capture: Option<Capture>, params: Params)
    requires CaptureFits(seg, capture)
    ensures var bound := BindParams(seg, capture, params);
      && bound.Some?
      && bound.value.Keys == params.Keys + (if BoundKey(seg).Some? then {BoundKey(seg).value} else {})
      && forall k | k in params && BoundKey(seg) != Some(k) :: bound.value[k] == params[k]
  {
  }

  /** `PathSlice::as_str`: None where slicing the shared path would panic. */
  function ReadBack(full: string, range: Range): Option<string> {
    if range.start <= range.end <= |full| && Utf8.Boundary(full, range.start) && Utf8.Boundary(full, range.end)
    then Some(full[range.start..range.end])
    else None
  }

  /** `text` is one whole path segment that starts at `off`, up to one leading slash. */
  ghost predicate SegmentAt(full: string, off: nat, range: Range, next: nat) {
    && off <= range.start <= range.end <= next <= |full|
    && (range.start == off || (range.start == off + 1 && full[off] == SLASH))
    && SLASH !in full[range.start..range.end]
    && ((range.end == next == |full|) || (range.end + 1 == next && full[range.end] == SLASH))
  }

  lemma CutOfTail(full: string, off: nat, start: nat, n: nat, remain: string)
    requires off <= start <= |full| && (start == off || (start == off + 1 && full[off] == SLASH))
    requires start + n <= |full| && SLASH !in full[start..][..n]
    requires if start + n == |full| then remain == "" else full[start..][n] == SLASH && remain == full[start..][n + 1..]
    ensures |remain| <= |full| && SegmentAt(full, off, Range(start, start + n), |full| - |remain|)
    ensures full[start..start + n] == full[start..][..n]
  {
    assert full[start..start + n] == full[start..][..n];
  }

  lemma TrimmedTail(ctx: Ctx, off: nat)
    requires off <= |ctx.full|
    ensures var trimmed := StripLeadingSlash(ctx.From(off));
      var start := |ctx.full| - |trimmed.text|;
      && trimmed == ctx.From(start)
      && (start == off || (start == off + 1 && ctx.full[off] == SLASH))
  {
  }

  lemma CutIsSegment(ctx: Ctx, off: nat)
    requires off <= |ctx.full| && StripLeadingSlash(ctx.From(off)).text != ""
    ensures var (segment, remain) := StripOneSegment(ctx.From(off), ctx.empty);
      var range := SliceRange(Slice(ctx.at, ctx.full), segment);
      && |remain.text| <= |ctx.full|
      && SegmentAt(ctx.full, off, range, RemainOffset(ctx.full, remain.text))
      && ctx.full[range.start..range.end] == segment.text
  {
    hide StripOneSegment, StripLeadingSlash, SegmentAt, CutsTail, CutAs, IsSuffix;
    CutShape(ctx.From(off), ctx.empty);
    TrimmedTail(ctx, off);
    var start := |ctx.full| - |StripLeadingSlash(ctx.From(off)).text|;
    var (segment, remain) := StripOneSegment(ctx.From(off), ctx.empty);
    CutOfTail(ctx.full, off, start, |segment.text|, remain.text);
  }

  /** On a well-formed path every cut the router makes reads back as well-formed text. */
  lemma SegmentReadsBack(full: string, off: nat, range: Range, next: nat)
    requires Utf8.WellFormed(full) && off <= |full| && StartsAfterSlash(full, off)
    requires SegmentAt(full, off, range, next)
    ensures ReadBack(full, range) == Some(full[range.start..range.end])
    ensures Utf8.WellFormed(full[range.start..range.end])
  {
    hide Utf8.WellFormed;
    TailIsWellFormed(full, range.start);
    Utf8.StartIsBoundary(full, range.start);
    if range.end < |full| {
      var tail := full[range.start..];
      Utf8.CutAtAscii(tail, range.end - range.start);
      assert tail[..range.end - range.start] == full[range.start..range.end];
    } else {
      assert full[range.start..] == full[range.start..range.end];
    }
  }

  lemma TailIsWellFormed(full: string, i: nat)
    requires Utf8.WellFormed(full) && i <= |full| && StartsAfterSlash(full, i)
    ensures Utf8.WellFormed(full[i..])
  {
    if i == 0 {
      assert full[0..] == full;
    } else if i == |full| {
      assert full[i..] == "";
    } else {
      Utf8.CutAtAscii(full, i - 1);
    }
  }

  function TextCapture(seg: Segment, range: Range): Capture {
    if seg.Str? then StrCapture(range) else if seg.Path? then PathCapture(range) else FullCapture(range)
  }

  lemma TextSegmentMatch(seg: Segment, leaf: bool, path: Slice, ctx: Ctx)
    requires seg.Str? || seg.Path? || seg.FullPath?
    ensures var (segment, remain) := StripOneSegment(path, ctx.empty);
      var range := SliceRange(Slice(ctx.at, ctx.full), if seg.FullPath? then StripLeadingSlash(path) else segment);
      CallPathOnly(seg, leaf, path, ctx) ==
        if seg.Str? && segment.text == "" then None else Some(PathMatch(remain, Some(TextCapture(seg, range))))
  {
    hide StripOneSegment, StripLeadingSlash, SliceRange, CutsTail, CutAs, IsSuffix;
  }

  /** What the three text segments capture, and where they leave the path. */
  lemma TextSegmentStep(seg: Segment, leaf: bool, ctx: Ctx, off: nat)
    requires off <= |ctx.full| && (seg.Str? || seg.Path? || seg.FullPath?)
    ensures var (segment, remain) := StripOneSegment(ctx.From(off), ctx.empty);
      var captured := if seg.FullPath? then StripLeadingSlash(ctx.From(off)) else segment;
      var range := SliceRange(Slice(ctx.at, ctx.full), captured);
      var next := |ctx.full| - |remain.text|;
      if seg.Str? && segment.text == "" then Advance(seg, leaf, ctx, off).None?
      else next >= 0 && Advance(seg, leaf, ctx, off) == Some(Hop(next, Some(TextCapture(seg, range))))
  {
    hide StripOneSegment, StripLeadingSlash, SliceRange, CallPathOnly, TextCapture, CutAs;
    TextSegmentMatch(seg, leaf, ctx.From(off), ctx);
    if CallPathOnly(seg, leaf, ctx.From(off), ctx).Some? {
      MatchCutsTail(seg, leaf, ctx.From(off), ctx);
    }
  }

  // ---------------------------------------------------------------- what a hop consumes

  /** A matched text with the slash that was dropped before it and the one dropped after it. */
  datatype Piece = Piece(before: string, text: string, after: string)

  function Rendered(piece: Piece): string {
    piece.before + piece.text + piece.after
  }

  predicate InRange(full: string, range: Range, text: string) {
    range.start <= range.end <= |full| && full[range.start..range.end] == text
  }

  /**
    `piece` is made of what the segment matched: a stored text as it is stored, a parsed one as the
    parser read it, a captured one as it was captured. A full path captures more than it consumes.
   */
  predicate PieceOf(seg: Segment, capture: Option<Capture>, ctx: Ctx, piece: Piece)
    requires CaptureFits(seg, capture)
  {
    && (piece.before == "" || piece.before == "/") && (piece.after == "" || piece.after == "/")
    && (seg.Static? || SLASH !in piece.text)
    && match seg
       case Root => piece.text == "" && piece.after == ""
       case Static(value) => piece.text == value
       case Str(_) => piece.text != "" && InRange(ctx.full, capture.value.range, piece.text)
       case Path(_) => piece.text == "" || InRange(ctx.full, capture.value.range, piece.text)
       case FullPath(_) =>
         var range := capture.value.range;
         range.start <= range.end == |ctx.full| && piece.text + piece.after <= ctx.full[range.start..]
       case Int(_) => piece.text != "" && ctx.parsers.i32(piece.text) == Some(capture.value.value)
       case I32(_) => piece.text != "" && ctx.parsers.i32(piece.text) == Some(capture.value.value)
       case I64(_) => piece.text != "" && ctx.parsers.i64(piece.text) == Some(capture.value.value)
       case U64(_) => piece.text != "" && ctx.parsers.u64(piece.text) == Some(capture.value.value)
       case U32(_) => piece.text != "" && ctx.parsers.u32(piece.text) == Some(capture.value.value)
       case Uuid(_) => piece.text != "" && ctx.parsers.uuid(piece.text) == Some(capture.value.value)
  }

  /** The piece that `text` makes when `remain` is left of `path`. */
  function PieceAround(path: string, text: string, remain: string): Piece {
    var before := if path != "" && path[0] == SLASH then "/" else "";
    Piece(before, text, if |before| + |text| + |remain| < |path| then "/" else "")
  }

  lemma AroundRebuilds(path: string, trimmed: string, text: string, remain: string)
    requires if path != "" && path[0] == SLASH then path == "/" + trimmed else path == trimmed
    requires CutAs(trimmed, text, remain)
    ensures var piece := PieceAround(path, text, remain);
      path == Rendered(piece) + remain && trimmed == piece.text + piece.after + remain
  {
    assert |trimmed| == |text| + |remain| ==> trimmed == text + "" + remain;
  }

  lemma CutPiece(path: Slice, empty: nat)
    ensures var (segment, remain) := StripOneSegment(path, empty);
      var piece := PieceAround(path.text, segment.text, remain.text);
      && path.text == Rendered(piece) + remain.text
      && StripLeadingSlash(path).text == piece.text + piece.after + remain.text
  {
    hide StripOneSegment, StripLeadingSlash, CutsTail, CutAs, IsSuffix, PieceAround, Rendered;
    var (segment, remain) := StripOneSegment(path, empty);
    TrimShape(path);
    AroundRebuilds(path.text, StripLeadingSlash(path).text, segment.text, remain.text);
  }

  lemma StaticPiece(value: string, path: Slice, empty: nat)
    requires value != "" && MatchStaticSegment(value, path, empty).Some?
    ensures var remain := MatchStaticSegment(value, path, empty).value.text;
      path.text == Rendered(PieceAround(path.text, value, remain)) + remain
  {
    hide MatchStaticSegment, StripLeadingSlash, CutsTail, CutAs, IsSuffix, PieceAround, Rendered;
    MatchShape(value, path, empty);
    TrimShape(path);
    AroundRebuilds(path.text, StripLeadingSlash(path).text, value, MatchStaticSegment(value, path, empty).value.text);
  }

  /** The piece a match consumed. */
  function Consumed(seg: Segment, path: Slice, ctx: Ctx): Piece {
    match seg
    case Root => Piece(if path.text == "/" then "/" else "", "", "")
    case Static(value) =>
      var remain := MatchStaticSegment(value, path, ctx.empty);
      if value == "" || remain.None? then Piece("", value, "") else PieceAround(path.text, value, remain.value.text)
    case _ =>
      var (segment, remain) := StripOneSegment(path, ctx.empty);
      PieceAround(path.text, segment.text, remain.text)
  }

  lemma ConsumedRebuilds(seg: Segment, leaf: bool, path: Slice, ctx: Ctx)
    requires CallPathOnly(seg, leaf, path, ctx).Some?
    ensures path.text == Rendered(Consumed(seg, path, ctx)) + CallPathOnly(seg, leaf, path, ctx).value.remain.text
  {
    hide StripOneSegment, MatchStaticSegment, StripLeadingSlash, CutsTail, CutAs, PieceAround, Rendered, SliceRange;
    if seg.Root? || seg == Static("") {
      NothingConsumed(path.text);
      StaticEmpty(path, ctx.empty);
    } else if seg.Static? {
      StaticPiece(seg.value, path, ctx.empty);
    } else {
      CutPiece(path, ctx.empty);
    }
  }

  lemma NothingConsumed(text: string)
    ensures Rendered(Piece("", "", "")) + text == text
    ensures text == "/" ==> Rendered(Piece("/", "", "")) + "" == text
  {
  }

  lemma StaticEmpty(path: Slice, empty: nat)
    ensures MatchStaticSegment("", path, empty) == Some(path)
  {
  }

  lemma AroundShape(path: string, text: string, remain: string)
    ensures var piece := PieceAround(path, text, remain);
      piece.text == text && (piece.before == "" || piece.before == "/") && (piece.after == "" || piece.after == "/")
  {
  }

  lemma FullIsPiece(key: string, leaf: bool, ctx: Ctx, off: nat)
    requires off <= |ctx.full| && Advance(FullPath(key), leaf, ctx, off).Some?
    ensures PieceOf(FullPath(key), Advance(FullPath(key), leaf, ctx, off).value.capture, ctx,
      Consumed(FullPath(key), ctx.From(off), ctx))
  {
    hide StripOneSegment, StripLeadingSlash, CutsTail, CutAs, IsSuffix, StartsAfterSlash, MatchStaticSegment,
      CallPathOnly, ParserOf, ParsedCapture, PieceAround, Advance, SliceRange, Rendered;
    var path := ctx.From(off);
    var (segment, remain) := StripOneSegment(path, ctx.empty);
    TextSegmentStep(FullPath(key), leaf, ctx, off);
    CutPiece(path, ctx.empty);
    AroundShape(path.text, segment.text, remain.text);
    TrimmedStart(ctx, off);
  }

  lemma OneSegmentIsPiece(seg: Segment, leaf: bool, ctx: Ctx, off: nat)
    requires off <= |ctx.full| && Advance(seg, leaf, ctx, off).Some? && (seg.Str? || seg.Path?)
    ensures PieceOf(seg, Advance(seg, leaf, ctx, off).value.capture, ctx, Consumed(seg, ctx.From(off), ctx))
  {
    hide StripOneSegment, StripLeadingSlash, CutsTail, CutAs, SegmentAt, PieceAround, Advance, SliceRange;
    var path := ctx.From(off);
    var (segment, remain) := StripOneSegment(path, ctx.empty);
    TextSegmentStep(seg, leaf, ctx, off);
    AroundShape(path.text, segment.text, remain.text);
    EmptySegment(path, ctx.empty);
    if StripLeadingSlash(path).text != "" {
      CutIsSegment(ctx, off);
      CutInside(ctx, off);
    }
  }

  lemma CutInside(ctx: Ctx, off: nat)
    requires off <= |ctx.full| && StripLeadingSlash(ctx.From(off)).text != ""
    ensures var range := SliceRange(Slice(ctx.at, ctx.full), StripOneSegment(ctx.From(off), ctx.empty).0);
      range.start <= range.end <= |ctx.full|
  {
    hide StripOneSegment, StripLeadingSlash, CutsTail, CutAs, SliceRange;
    CutIsSegment(ctx, off);
  }

  predicate Typed(seg: Segment) {
    !seg.Root? && !seg.Static? && !seg.Str? && !seg.Path? && !seg.FullPath?
  }

  lemma TypedMatch(seg: Segment, leaf: bool, path: Slice, ctx: Ctx)
    requires Typed(seg)
    ensures var (segment, remain) := StripOneSegment(path, ctx.empty);
      var v := ParserOf(seg, ctx.parsers)(segment.text);
      CallPathOnly(seg, leaf, path, ctx) ==
        if segment.text != "" && v.Some? then Some(PathMatch(remain, Some(ParsedCapture(seg, v.value)))) else None
  {
    hide StripOneSegment, StripLeadingSlash, CutsTail, CutAs, ParserOf, ParsedCapture;
  }

  /** The parser and the capture of each kind. */
  lemma TypedParts(key: string, parsers: Parsers, v: int)
    ensures ParserOf(Int(key), parsers) == parsers.i32 && ParsedCapture(Int(key), v) == I32Capture(v)
    ensures ParserOf(I32(key), parsers) == parsers.i32 && ParsedCapture(I32(key), v) == I32Capture(v)
    ensures ParserOf(I64(key), parsers) == parsers.i64 && ParsedCapture(I64(key), v) == I64Capture(v)
    ensures ParserOf(U64(key), parsers) == parsers.u64 && ParsedCapture(U64(key), v) == U64Capture(v)
    ensures ParserOf(U32(key), parsers) == parsers.u32 && ParsedCapture(U32(key), v) == U32Capture(v)
    ensures ParserOf(Uuid(key), parsers) == parsers.uuid && ParsedCapture(Uuid(key), v) == UuidCapture(v)
  {
  }

  /** Where a typed segment leaves the path and what it captures, if the text it cut off is there and was read. */
  function TypedHop(text: string, next: nat, read: bool, capture: Capture): Option<Hop> {
    if text != "" && read then Some(Hop(next, Some(capture))) else None
  }

  function ValueOf(parsed: Option<int>): int {
    if parsed.Some? then parsed.value else 0
  }

  /**
    A typed segment matches exactly when the next segment is not empty and its own parser reads it; it
    captures what was read and consumes that segment.
   */
  lemma TypedStep(key: string, leaf: bool, ctx: Ctx, off: nat)
    requires off <= |ctx.full|
    ensures var (cut, remain) := StripOneSegment(ctx.From(off), ctx.empty);
      && |remain.text| <= |ctx.full|
      && var (text, next, ps) := (cut.text, RemainOffset(ctx.full, remain.text), ctx.parsers);
      && Advance(Int(key), leaf, ctx, off) ==
         TypedHop(text, next, ps.i32(text).Some?, I32Capture(ValueOf(ps.i32(text))))
      && Advance(I32(key), leaf, ctx, off) ==
         TypedHop(text, next, ps.i32(text).Some?, I32Capture(ValueOf(ps.i32(text))))
      && Advance(I64(key), leaf, ctx, off) ==
         TypedHop(text, next, ps.i64(text).Some?, I64Capture(ValueOf(ps.i64(text))))
      && Advance(U64(key), leaf, ctx, off) ==
         TypedHop(text, next, ps.u64(text).Some?, U64Capture(ValueOf(ps.u64(text))))
      && Advance(U32(key), leaf, ctx, off) ==
         TypedHop(text, next, ps.u32(text).Some?, U32Capture(ValueOf(ps.u32(text))))
      && Advance(Uuid(key), leaf, ctx, off) ==
         TypedHop(text, next, ps.uuid(text).Some?, UuidCapture(ValueOf(ps.uuid(text))))
  {
    hide StripOneSegment, Advance, CutAs, CutsTail, StripLeadingSlash, IsSuffix, StartsAfterSlash, TypedHop, ParserOf,
      ParsedCapture, ValueOf;
    IntStep(key, leaf, ctx, off);
    I32Step(key, leaf, ctx, off);
    I64Step(key, leaf, ctx, off);
    U64Step(key, leaf, ctx, off);
    U32Step(key, leaf, ctx, off);
    UuidStep(key, leaf, ctx, off);
  }

  lemma IntStep(key: string, leaf: bool, ctx: Ctx, off: nat)
    requires off <= |ctx.full|
    ensures var (cut, remain) := StripOneSegment(ctx.From(off), ctx.empty);
      var parsed := ctx.parsers.i32(cut.text);
      && |remain.text| <= |ctx.full|
      && Advance(Int(key), leaf, ctx, off) ==
         TypedHop(cut.text, RemainOffset(ctx.full, remain.text), parsed.Some?, I32Capture(ValueOf(parsed)))
  {
    hide StripOneSegment, Advance, CutAs, CutsTail, StripLeadingSlash, IsSuffix, StartsAfterSlash, TypedHop, ParserOf,
      ParsedCapture, ValueOf;
    KindStep(Int(key), leaf, ctx, off);
    TypedParts(key, ctx.parsers, ValueOf(ctx.parsers.i32(StripOneSegment(ctx.From(off), ctx.empty).0.text)));
  }

  lemma I32Step(key: string, leaf: bool, ctx: Ctx, off: nat)
    requires off <= |ctx.full|
    ensures var (cut, remain) := StripOneSegment(ctx.From(off), ctx.empty);
      var parsed := ctx.parsers.i32(cut.text);
      && |remain.text| <= |ctx.full|
      && Advance(I32(key), leaf, ctx, off) ==
         TypedHop(cut.text, RemainOffset(ctx.full, remain.text), parsed.Some?, I32Capture(ValueOf(parsed)))
  {
    hide StripOneSegment, Advance, CutAs, CutsTail, StripLeadingSlash, IsSuffix, StartsAfterSlash, TypedHop, ParserOf,
      ParsedCapture, ValueOf;
    KindStep(I32(key), leaf, ctx, off);
    TypedParts(key, ctx.parsers, ValueOf(ctx.parsers.i32(StripOneSegment(ctx.From(off), ctx.empty).0.text)));
  }

  lemma I64Step(key: string, leaf: bool, ctx: Ctx, off: nat)
    requires off <= |ctx.full|
    ensures var (cut, remain) := StripOneSegment(ctx.From(off), ctx.empty);
      var parsed := ctx.parsers.i64(cut.text);
      && |remain.text| <= |ctx.full|
      && Advance(I64(key), leaf, ctx, off) ==
         TypedHop(cut.text, RemainOffset(ctx.full, remain.text), parsed.Some?, I64Capture(ValueOf(parsed)))
  {
    hide StripOneSegment, Advance, CutAs, CutsTail, StripLeadingSlash, IsSuffix, StartsAfterSlash, TypedHop, ParserOf,
      ParsedCapture, ValueOf;
    KindStep(I64(key), leaf, ctx, off);
    TypedParts(key, ctx.parsers, ValueOf(ctx.parsers.i64(StripOneSegment(ctx.From(off), ctx.empty).0.text)));
  }

  lemma U64Step(key: string, leaf: bool, ctx: Ctx, off: nat)
    requires off <= |ctx.full|
    ensures var (cut, remain) := StripOneSegment(ctx.From(off), ctx.empty);
      var parsed := ctx.parsers.u64(cut.text);
      && |remain.text| <= |ctx.full|
      && Advance(U64(key), leaf, ctx, off) ==
         TypedHop(cut.text, RemainOffset(ctx.full, remain.text), parsed.Some?, U64Capture(ValueOf(parsed)))
  {
    hide StripOneSegment, Advance, CutAs, CutsTail, StripLeadingSlash, IsSuffix, StartsAfterSlash, TypedHop, ParserOf,
      ParsedCapture, ValueOf;
    KindStep(U64(key), leaf, ctx, off);
    TypedParts(key, ctx.parsers, ValueOf(ctx.parsers.u64(StripOneSegment(ctx.From(off), ctx.empty).0.text)));
  }

  lemma U32Step(key: string, leaf: bool, ctx: Ctx, off: nat)
    requires off <= |ctx.full|
    ensures var (cut, remain) := StripOneSegment(ctx.From(off), ctx.empty);
      var parsed := ctx.parsers.u32(cut.text);
      && |remain.text| <= |ctx.full|
      && Advance(U32(key), leaf, ctx, off) ==
         TypedHop(cut.text, RemainOffset(ctx.full, remain.text), parsed.Some?, U32Capture(ValueOf(parsed)))
  {
    hide StripOneSegment, Advance, CutAs, CutsTail, StripLeadingSlash, IsSuffix, StartsAfterSlash, TypedHop, ParserOf,
      ParsedCapture, ValueOf;
    KindStep(U32(key), leaf, ctx, off);
    TypedParts(key, ctx.parsers, ValueOf(ctx.parsers.u32(StripOneSegment(ctx.From(off), ctx.empty).0.text)));
  }

  lemma UuidStep(key: string, leaf: bool, ctx: Ctx, off: nat)
    requires off <= |ctx.full|
    ensures var (cut, remain) := StripOneSegment(ctx.From(off), ctx.empty);
      var parsed := ctx.parsers.uuid(cut.text);
      && |remain.text| <= |ctx.full|
      && Advance(Uuid(key), leaf, ctx, off) ==
         TypedHop(cut.text, RemainOffset(ctx.full, remain.text), parsed.Some?, UuidCapture(ValueOf(parsed)))
  {
    hide StripOneSegment, Advance, CutAs, CutsTail, StripLeadingSlash, IsSuffix, StartsAfterSlash, TypedHop, ParserOf,
      ParsedCapture, ValueOf;
    KindStep(Uuid(key), leaf, ctx, off);
    TypedParts(key, ctx.parsers, ValueOf(ctx.parsers.uuid(StripOneSegment(ctx.From(off), ctx.empty).0.text)));
  }

  lemma KindStep(seg: Segment, leaf: bool, ctx: Ctx, off: nat)
    requires off <= |ctx.full| && Typed(seg)
    ensures var (cut, remain) := StripOneSegment(ctx.From(off), ctx.empty);
      var parsed := ParserOf(seg, ctx.parsers)(cut.text);
      && |remain.text| <= |ctx.full|
      && Advance(seg, leaf, ctx, off) ==
         TypedHop(cut.text, RemainOffset(ctx.full, remain.text), parsed.Some?, ParsedCapture(seg, ValueOf(parsed)))
  {
    hide StripOneSegment, CallPathOnly, ParserOf, ParsedCapture, StripLeadingSlash, IsSuffix, StartsAfterSlash,
      CutAs;
    var (cut, remain) := StripOneSegment(ctx.From(off), ctx.empty);
    TypedMatch(seg, leaf, ctx.From(off), ctx);
    CutFits(ctx, off);
  }

  lemma CutFits(ctx: Ctx, off: nat)
    requires off <= |ctx.full|
    ensures |StripOneSegment(ctx.From(off), ctx.empty).1.text| <= |ctx.full|
  {
    hide StripOneSegment, StartsAfterSlash, CutAs;
  }

  lemma ParsedIsPiece(seg: Segment, leaf: bool, ctx: Ctx, off: nat)
    requires off <= |ctx.full| && Advance(seg, leaf, ctx, off).Some?
    requires !seg.Str? && !seg.Path? && !seg.FullPath?
    ensures PieceOf(seg, Advance(seg, leaf, ctx, off).value.capture, ctx, Consumed(seg, ctx.From(off), ctx))
  {
    hide StripOneSegment, MatchStaticSegment, CutsTail, CutAs, PieceAround, CallPathOnly, ParserOf, ParsedCapture,
      SliceRange;
    var path := ctx.From(off);
    if seg.Static? {
      var remain := MatchStaticSegment(seg.value, path, ctx.empty);
      AroundShape(path.text, seg.value, if remain.Some? then remain.value.text else "");
    } else if !seg.Root? {
      var (segment, remain) := StripOneSegment(path, ctx.empty);
      TypedMatch(seg, leaf, path, ctx);
      TypedParts(seg.key, ctx.parsers, ParserOf(seg, ctx.parsers)(segment.text).value);
      AroundShape(path.text, segment.text, remain.text);
    }
  }

  /** A hop consumes exactly its piece. */
  lemma HopConsumesPiece(seg: Segment, leaf: bool, ctx: Ctx, off: nat)
    requires off <= |ctx.full| && Advance(seg, leaf, ctx, off).Some?
    ensures var hop, piece := Advance(seg, leaf, ctx, off).value, Consumed(seg, ctx.From(off), ctx);
      PieceOf(seg, hop.capture, ctx, piece) && ctx.full[off..hop.next] == Rendered(piece)
  {
    hide CallPathOnly, Consumed, PieceOf, Rendered;
    if seg.FullPath? {
      FullIsPiece(seg.key, leaf, ctx, off);
    } else if seg.Str? || seg.Path? {
      OneSegmentIsPiece(seg, leaf, ctx, off);
    } else {
      ParsedIsPiece(seg, leaf, ctx, off);
    }
    ConsumedRebuilds(seg, leaf, ctx.From(off), ctx);
    OffsetIsRemainder(seg, leaf, ctx, off);
    var hop := Advance(seg, leaf, ctx, off).value;
    assert ctx.full[off..] == ctx.full[off..hop.next] + ctx.full[hop.next..];
  }

  lemma TailReadsBack(full: string, start: nat)
    requires Utf8.WellFormed(full) && start <= |full| && StartsAfterSlash(full, start)
    ensures ReadBack(full, Range(start, |full|)) == Some(full[start..])
    ensures Utf8.WellFormed(full[start..])
  {
    hide Utf8.WellFormed;
    TailIsWellFormed(full, start);
    Utf8.StartIsBoundary(full, start);
    assert full[start..|full|] == full[start..];
  }

  lemma TrimmedStart(ctx: Ctx, off: nat)
    requires off <= |ctx.full|
    ensures var trimmed := StripLeadingSlash(ctx.From(off));
      var start := |ctx.full| - |trimmed.text|;
      && start >= 0
      && SliceRange(Slice(ctx.at, ctx.full), trimmed) == Range(start, |ctx.full|)
      && trimmed.text == ctx.full[start..]
      && (StartsAfterSlash(ctx.full, off) ==> StartsAfterSlash(ctx.full, start))
  {
    hide StripLeadingSlash;
    TrimmedTail(ctx, off);
  }

  /** A string capture reads back a non-empty slash-free segment, taken right at the offset. */
  lemma StringCaptureReadsBack(key: string, leaf: bool, ctx: Ctx, off: nat)
    requires off <= |ctx.full| && StartsAfterSlash(ctx.full, off) && Utf8.WellFormed(ctx.full)
    requires Advance(Str(key), leaf, ctx, off).Some?
    ensures var hop := Advance(Str(key), leaf, ctx, off).value;
      && SegmentAt(ctx.full, off, hop.capture.value.range, hop.next)
      && var text := ReadBack(ctx.full, hop.capture.value.range);
      && text.Some? && text.value != "" && SLASH !in text.value && Utf8.WellFormed(text.value)
  {
    hide Advance, StripOneSegment, StripLeadingSlash, SegmentAt, Utf8.WellFormed, Utf8.Boundary, ReadBack,
      SliceRange, StartsAfterSlash, CutAs, CutsTail, IsSuffix, CallPathOnly, InRange;
    var hop := Advance(Str(key), leaf, ctx, off).value;
    TextSegmentStep(Str(key), leaf, ctx, off);
    EmptySegment(ctx.From(off), ctx.empty);
    CutIsSegment(ctx, off);
    SegmentReadsBack(ctx.full, off, hop.capture.value.range, hop.next);
  }

  /** A full-path capture reads back the whole remainder without one leading slash. */
  lemma FullCaptureReadsBack(key: string, leaf: bool, ctx: Ctx, off: nat)
    requires off <= |ctx.full| && StartsAfterSlash(ctx.full, off) && Utf8.WellFormed(ctx.full)
    ensures var hop := Advance(FullPath(key), leaf, ctx, off);
      && hop.Some?
      && var text := ReadBack(ctx.full, hop.value.capture.value.range);
      && text.Some? && Utf8.WellFormed(text.value)
      && text.value == StripLeadingSlash(ctx.From(off)).text
  {
    hide Utf8.WellFormed, Advance, StripOneSegment, StripLeadingSlash, ReadBack, SliceRange, StartsAfterSlash, CutAs,
      CutsTail, IsSuffix;
    TextSegmentStep(FullPath(key), leaf, ctx, off);
    TrimmedStart(ctx, off);
    TailReadsBack(ctx.full, |ctx.full| - |StripLeadingSlash(ctx.From(off)).text|);
  }

  /**
    A path capture reads back exactly when something is left after one leading slash, or the literal
    `""` happens to be stored before the path or at one of its character boundaries.
   */
  lemma PathCaptureReadsBack(key: string, leaf: bool, ctx: Ctx, off: nat)
    requires off <= |ctx.full| && StartsAfterSlash(ctx.full, off) && Utf8.WellFormed(ctx.full)
    ensures var hop := Advance(Path(key), leaf, ctx, off);
      && hop.Some?
      && var range := hop.value.capture.value.range;
      && var left := StripLeadingSlash(ctx.From(off)).text;
      && (left != "" ==> SegmentAt(ctx.full, off, range, hop.value.next))
      && (ReadBack(ctx.full, range).Some? <==>
          left != "" || ctx.empty <= ctx.at ||
          (ctx.empty <= ctx.at + |ctx.full| && Utf8.Boundary(ctx.full, ctx.empty - ctx.at)))
  {
    hide Utf8.WellFormed, Advance, StripOneSegment, CutsTail, SegmentAt, StripLeadingSlash;
    TextSegmentStep(Path(key), leaf, ctx, off);
    var hop := Advance(Path(key), leaf, ctx, off).value;
    var range := hop.capture.value.range;
    if StripLeadingSlash(ctx.From(off)).text != "" {
      CutIsSegment(ctx, off);
      SegmentReadsBack(ctx.full, off, range, hop.next);
    } else {
      EmptySegment(ctx.From(off), ctx.empty);
    }
  }
}
