/** Borrowed string slices and the helpers that cut one segment off a request path. */
module Slices {
  import opened Options

  const SLASH := '/'

  /** A `&str`: the text and the address it starts at. */
  datatype Slice = Slice(at: nat, text: string) {
    function Take(i: nat): Slice
      requires i <= |text|
    {
      Slice(at, text[..i])
    }

    function Drop(i: nat): Slice
      requires i <= |text|
    {
      Slice(at + i, text[i..])
    }
  }

  /** A half-open byte range of the request path. */
  datatype Range = Range(start: nat, end: nat)

  /** `memchr`: the first position of `c`. */
  function IndexOf(s: string, c: char): (r: Option<nat>)
    ensures r.None? ==> c !in s
    ensures r.Some? ==> r.value < |s| && s[r.value] == c && c !in s[..r.value]
  {
    if s == "" then None
    else if s[0] == c then Some(0)
    else
      match IndexOf(s[1..], c)
      case None => None
      case Some(i) => assert s[..i + 1] == [s[0]] + s[1..][..i]; Some(i + 1)
  }

  predicate IsSuffix(tail: string, whole: string) {
    |tail| <= |whole| && whole[|whole| - |tail|..] == tail
  }

  /** Cuts happen only right after a slash, or take nothing, or take everything. */
  predicate StartsAfterSlash(whole: string, i: nat) {
    i == 0 || i == |whole| || (i < |whole| && whole[i - 1] == SLASH)
  }

  ghost predicate CutsTail(whole: string, tail: string) {
    IsSuffix(tail, whole) && StartsAfterSlash(whole, |whole| - |tail|)
  }

  lemma CutsAllOrNothing(whole: string)
    ensures CutsTail(whole, whole) && CutsTail(whole, "")
  {
  }

  function StripLeadingSlash(path: Slice): (r: Slice)
    ensures IsSuffix(r.text, path.text)
    ensures path.text == r.text || path.text == "/" + r.text
  {
    if |path.text| > 0 && path.text[0] == SLASH then path.Drop(1) else path
  }

  /** How `segment` and `remain` were cut out of `trimmed`: at most one slash after the segment is dropped. */
  ghost predicate CutAs(trimmed: string, segment: string, remain: string) {
    trimmed == segment + "/" + remain || (remain == "" && trimmed == segment)
  }

  /** `empty` is the address of the literal `""` that is returned instead of a sub-slice. */
  function StripOneSegment(path: Slice, empty: nat): (r: (Slice, Slice))
    ensures SLASH !in r.0.text
    ensures CutAs(StripLeadingSlash(path).text, r.0.text, r.1.text)
    ensures CutsTail(path.text, r.1.text)
  {
    hide StripLeadingSlash, IndexOf, StartsAfterSlash, IsSuffix, CutAs, CutsTail;
    var trimmed := StripLeadingSlash(path);
    CutsAllOrNothing(path.text);
    CutAll(trimmed.text);
    if trimmed.text == "" then (Slice(empty, ""), Slice(empty, ""))
    else
      match IndexOf(trimmed.text, SLASH)
      case Some(i) =>
        CutAfterSlash(path.text, trimmed.text, i);
        CutAround(trimmed.text, i);
        (trimmed.Take(i), trimmed.Drop(i + 1))
      case None => (trimmed, Slice(empty, ""))
  }

  lemma CutAll(trimmed: string)
    ensures CutAs(trimmed, trimmed, "")
  {
  }

  lemma CutAround(trimmed: string, i: nat)
    requires i < |trimmed| && trimmed[i] == SLASH
    ensures CutAs(trimmed, trimmed[..i], trimmed[i + 1..])
  {
    assert trimmed == trimmed[..i] + "/" + trimmed[i + 1..];
  }

  lemma SuffixOfSuffix(whole: string, tail: string, i: nat)
    requires IsSuffix(tail, whole) && i <= |tail|
    ensures IsSuffix(tail[i..], whole)
  {
    assert whole[|whole| - |tail|..][i..] == whole[|whole| - |tail| + i..];
  }

  lemma CutAfterSlash(whole: string, trimmed: string, i: nat)
    requires IsSuffix(trimmed, whole) && i < |trimmed|
    ensures trimmed[i] == SLASH ==> CutsTail(whole, trimmed[i + 1..])
  {
    SuffixOfSuffix(whole, trimmed, i);
    SuffixOfSuffix(whole, trimmed, i + 1);
  }

  function MatchStaticSegment(value: string, path: Slice, empty: nat): (r: Option<Slice>)
    ensures r.Some? ==> CutsTail(path.text, r.value.text)
  {
    if value == "" then CutsAllOrNothing(path.text); Some(path)
    else
      hide StripLeadingSlash, StartsAfterSlash;
      var trimmed := StripLeadingSlash(path);
      if trimmed.text == value then CutsAllOrNothing(path.text); Some(Slice(empty, ""))
      else if |trimmed.text| > |value| && value <= trimmed.text then
        var rest := trimmed.Drop(|value|);
        CutAfterSlash(path.text, trimmed.text, |value|);
        if rest.text[0] == SLASH then Some(rest.Drop(1)) else None
      else None
  }

  /** A cut segment starts where the trimmed path does and ends at its first slash or its end. */
  lemma CutShape(path: Slice, empty: nat)
    requires StripLeadingSlash(path).text != ""
    ensures var trimmed := StripLeadingSlash(path);
      var (segment, remain) := StripOneSegment(path, empty);
      && segment.at == trimmed.at && segment.text <= trimmed.text && SLASH !in segment.text
      && (if |segment.text| == |trimmed.text| then remain.text == ""
          else trimmed.text[|segment.text|] == SLASH && remain.text == trimmed.text[|segment.text| + 1..])
  {
    hide StripLeadingSlash, IndexOf, CutsTail, CutAs, IsSuffix, StartsAfterSlash;
  }

  /** A match takes the stored text off the trimmed path, with at most one slash behind it. */
  lemma MatchShape(value: string, path: Slice, empty: nat)
    requires value != "" && MatchStaticSegment(value, path, empty).Some?
    ensures CutAs(StripLeadingSlash(path).text, value, MatchStaticSegment(value, path, empty).value.text)
  {
    hide StripLeadingSlash, CutsTail, IsSuffix, StartsAfterSlash;
    var text := StripLeadingSlash(path).text;
    var remain := MatchStaticSegment(value, path, empty).value.text;
    if text != value {
      assert text[..|value|] == value && text[|value|] == SLASH && remain == text[|value|..][1..];
      assert text == text[..|value|] + [text[|value|]] + text[|value|..][1..];
    }
  }

  lemma TrimShape(path: Slice)
    ensures var trimmed := StripLeadingSlash(path).text;
      if path.text != "" && path.text[0] == SLASH then path.text == "/" + trimmed else path.text == trimmed
  {
  }

  /** Two slash-free starts of a text that end at a slash or at the end are the same. */
  lemma OneCut(text: string, a: string, x: string, b: string, y: string)
    requires a <= text && SLASH !in a && b <= text && SLASH !in b
    requires if |a| == |text| then x == "" else text[|a|] == SLASH && x == text[|a| + 1..]
    requires if |b| == |text| then y == "" else text[|b|] == SLASH && y == text[|b| + 1..]
    ensures a == b && x == y
  {
    assert forall i | 0 <= i < |a| :: text[i] == a[i] && text[i] != SLASH;
    assert forall i | 0 <= i < |b| :: text[i] == b[i] && text[i] != SLASH;
    assert a == text[..|a|] && b == text[..|b|];
  }

  /** Comparing against a stored segment agrees with cutting one off, which is what the hash index does. */
  lemma StaticMatchIsCut(value: string, path: Slice, empty: nat)
    requires value != "" && SLASH !in value
    ensures var (segment, remain) := StripOneSegment(path, empty);
      && (MatchStaticSegment(value, path, empty).Some? <==> segment.text == value)
      && (segment.text == value ==> MatchStaticSegment(value, path, empty).value.text == remain.text)
  {
    hide StripLeadingSlash, StripOneSegment, CutsTail, CutAs;
    var trimmed := StripLeadingSlash(path).text;
    if trimmed == "" {
      EmptySegment(path, empty);
    } else {
      CutShape(path, empty);
    }
  }

  lemma EmptySegment(path: Slice, empty: nat)
    ensures StripLeadingSlash(path).text == "" ==> StripOneSegment(path, empty) == (Slice(empty, ""), Slice(empty, ""))
  {
  }

  /** The range of `slice` inside `full`, from the two addresses. */
  function SliceRange(full: Slice, slice: Slice): Range {
    var start := if slice.at >= full.at then slice.at - full.at else 0;
    Range(start, start + |slice.text|)
  }

  function RemainOffset(full: string, remain: string): nat
    requires |remain| <= |full|
  {
    |full| - |remain|
  }
}
