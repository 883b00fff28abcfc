/**
  Rewriting a route path into an OpenAPI path: every `<name:type>` becomes `{name}`, by a loop
  that replaces all occurrences of the first parameter it finds until none is left.
 */
module PathFormat {
  import opened Options
  import opened Slices

  function Normalize(path: string): string {
    if path == "" then "/" else if path[0] == SLASH then path else [SLASH] + path
  }

  /** `str::replace`: leftmost occurrences, not overlapping. */
  function Replace(s: string, pattern: string, substitute: string): string
    requires pattern != ""
    decreases |s|
  {
    if |s| < |pattern| then s
    else if pattern <= s then substitute + Replace(s[|pattern|..], pattern, substitute)
    else [s[0]] + Replace(s[1..], pattern, substitute)
  }

  /** The first `<...>` of the path and the position of the colon in it. */
  function FirstMatch(s: string): (r: Option<(string, nat)>)
    ensures r.Some? ==> 1 <= r.value.1 < |r.value.0| && r.value.0[0] == '<'
  {
    match IndexOf(s, '<')
    case None => None
    case Some(start) =>
      (match IndexOf(s[start..], '>')
       case None => None
       case Some(end) =>
         var whole := s[start..start + end + 1];
         match IndexOf(whole, ':')
         case None => None
         case Some(colon) => Some((whole, colon)))
  }

  function Replacement(whole: string, colon: nat): string
    requires 1 <= colon < |whole|
  {
    "{" + whole[1..colon] + "}"
  }

  /** One turn of the loop, or None when it stops. */
  function Step(s: string): Option<string> {
    match FirstMatch(s)
    case None => None
    case Some((whole, colon)) => Some(Replace(s, whole, Replacement(whole, colon)))
  }

  // ---------------------------------------------------------------- termination

  lemma {:induction false} ReplaceNeverGrows(s: string, pattern: string, substitute: string)
    requires |substitute| <= |pattern| && pattern != ""
    ensures |Replace(s, pattern, substitute)| <= |s|
    decreases |s|
  {
    if |s| >= |pattern| {
      if pattern <= s {
        ReplaceNeverGrows(s[|pattern|..], pattern, substitute);
      } else {
        ReplaceNeverGrows(s[1..], pattern, substitute);
      }
    }
  }

  lemma {:induction false} ReplaceShrinks(before: string, pattern: string, after: string, substitute: string)
    requires |substitute| < |pattern|
    ensures |Replace(before + pattern + after, pattern, substitute)| < |before + pattern + after|
    decreases |before|
  {
    var s := before + pattern + after;
    if pattern <= s {
      ReplaceNeverGrows(s[|pattern|..], pattern, substitute);
    } else {
      assert before != "";
      assert s[1..] == before[1..] + pattern + after;
      ReplaceShrinks(before[1..], pattern, after, substitute);
    }
  }

  /** Every turn of the loop makes the path strictly shorter. */
  lemma StepShrinks(s: string)
    requires Step(s).Some?
    ensures |Step(s).value| < |s|
  {
    hide Replace, IndexOf;
    var start := IndexOf(s, '<').value;
    var end := start + IndexOf(s[start..], '>').value + 1;
    var (whole, colon) := FirstMatch(s).value;
    WholeOccurs(s, start, end, whole);
    ColonInside(whole, colon);
    ReplaceShrinks(s[..start], whole, s[end..], Replacement(whole, colon));
  }

  lemma WholeOccurs(s: string, start: nat, end: nat, whole: string)
    requires start <= end <= |s| && whole == s[start..end]
    ensures s == s[..start] + whole + s[end..]
  {
  }

  lemma ColonInside(whole: string, colon: nat)
    requires 1 <= colon < |whole| && whole[|whole| - 1] == '>' && whole[colon] == ':'
    ensures |Replacement(whole, colon)| < |whole|
  {
  }

  /** What the loop computes. */
  function Rewrite(s: string): string
    decreases |s|
  {
    match Step(s)
    case None => s
    case Some(next) => StepShrinks(s); Rewrite(next)
  }

  function Convert(path: string): string {
    Rewrite(Normalize(path))
  }

  /** `convert_path_format`. */
  method ConvertPathFormat(path: string) returns (result: string)
    ensures result == Convert(path)
  {
    hide Replace, IndexOf;
    result := Normalize(path);
    while true
      invariant Rewrite(result) == Convert(path)
      decreases |result|
    {
      var start := IndexOf(result, '<');
      if start.None? {
        break;
      }
      var end := IndexOf(result[start.value..], '>');
      if end.None? {
        break;
      }
      var whole := result[start.value..start.value + end.value + 1];
      var colon := IndexOf(whole, ':');
      if colon.None? {
        break;
      }
      assert FirstMatch(result) == Some((whole, colon.value));
      StepShrinks(result);
      result := Replace(result, whole, Replacement(whole, colon.value));
    }
  }

  // ---------------------------------------------------------------- idempotence

  lemma {:induction false} RewriteIsDone(s: string)
    ensures Step(Rewrite(s)) == None
    decreases |s|
  {
    hide Step;
    if Step(s).Some? {
      StepShrinks(s);
      RewriteIsDone(Step(s).value);
    }
  }

  lemma ReplaceKeepsHead(s: string, pattern: string, substitute: string)
    requires s != "" && pattern != "" && pattern[0] != s[0]
    ensures Replace(s, pattern, substitute) != "" && Replace(s, pattern, substitute)[0] == s[0]
  {
  }

  lemma {:induction false} RewriteKeepsSlash(s: string)
    requires s != "" && s[0] == SLASH
    ensures Rewrite(s) != "" && Rewrite(s)[0] == SLASH
    decreases |s|
  {
    hide Replace, FirstMatch;
    if Step(s).Some? {
      var (whole, colon) := FirstMatch(s).value;
      ReplaceKeepsHead(s, whole, Replacement(whole, colon));
      StepShrinks(s);
      RewriteKeepsSlash(Step(s).value);
    }
  }

  /** Every path is converted to one that starts with a slash, and converting it again changes nothing. */
  lemma ConvertIsIdempotent(path: string)
    ensures Convert(path) != "" && Convert(path)[0] == SLASH
    ensures Convert(Convert(path)) == Convert(path)
  {
    hide Step;
    RewriteKeepsSlash(Normalize(path));
    RewriteIsDone(Normalize(path));
  }

  // ---------------------------------------------------------------- parameters

  /** A path cut into plain text, `<name:type>` parameters and `<name>` parameters. */
  datatype Piece = Text(text: string) | Param(name: string, kind: string) | Untyped(name: string)

  predicate GoodName(name: string) {
    '<' !in name && '>' !in name && ':' !in name
  }

  predicate GoodPiece(p: Piece) {
    match p
    case Text(text) => '<' !in text
    case Param(name, kind) => GoodName(name) && '<' !in kind && '>' !in kind
    case Untyped(name) => GoodName(name)
  }

  predicate GoodPieces(ps: seq<Piece>) {
    forall i | 0 <= i < |ps| :: GoodPiece(ps[i])
  }

  predicate AllTyped(ps: seq<Piece>) {
    forall i | 0 <= i < |ps| :: !ps[i].Untyped?
  }

  function Token(name: string, kind: string): string {
    "<" + name + ":" + kind + ">"
  }

  function Show(p: Piece): string {
    match p
    case Text(text) => text
    case Param(name, kind) => Token(name, kind)
    case Untyped(name) => "<" + name + ">"
  }

  function Render(ps: seq<Piece>): string {
    if ps == [] then "" else Show(ps[0]) + Render(ps[1..])
  }

  /** A parameter rewritten once. */
  function Braced(p: Piece): string {
    if p.Param? then "{" + p.name + "}" else Show(p)
  }

  function Rewritten(ps: seq<Piece>): string {
    if ps == [] then "" else Braced(ps[0]) + Rewritten(ps[1..])
  }

  /** The pieces before the first untyped parameter. */
  function Leading(ps: seq<Piece>): seq<Piece> {
    if ps == [] || ps[0].Untyped? then [] else [ps[0]] + Leading(ps[1..])
  }

  /** Each parameter that is among `known` rewritten, the others left as they are. */
  function Settled(ps: seq<Piece>, known: seq<Piece>): string {
    if ps == [] then "" else (if ps[0] in known then Braced(ps[0]) else Show(ps[0])) + Settled(ps[1..], known)
  }

  function Substitute(ps: seq<Piece>, p: Piece): seq<Piece>
    requires p.Param?
  {
    if ps == [] then []
    else [if ps[0] == p then Text("{" + p.name + "}") else ps[0]] + Substitute(ps[1..], p)
  }

  function Params(ps: seq<Piece>): nat {
    if ps == [] then 0 else (if ps[0].Param? then 1 else 0) + Params(ps[1..])
  }

  lemma {:induction false} ReplaceSkips(text: string, rest: string, pattern: string, substitute: string)
    requires pattern != "" && pattern[0] == '<' && '<' !in text
    ensures Replace(text + rest, pattern, substitute) == text + Replace(rest, pattern, substitute)
    decreases |text|
  {
    if text == "" {
      assert text + rest == rest;
    } else {
      assert (text + rest)[1..] == text[1..] + rest;
      ReplaceSkips(text[1..], rest, pattern, substitute);
      SkipOne(text + rest, pattern, substitute);
      assert text == [text[0]] + text[1..];
    }
  }

  lemma SkipOne(s: string, pattern: string, substitute: string)
    requires pattern != "" && s != "" && s[0] != pattern[0]
    ensures Replace(s, pattern, substitute) == [s[0]] + Replace(s[1..], pattern, substitute)
  {
  }

  /** A typed token that starts another parameter's text is that parameter's own. */
  lemma TokenPrefix(a: Piece, b: Piece, rest: string)
    requires a.Param? && !b.Text? && GoodPiece(a) && GoodPiece(b)
    requires Show(a) <= Show(b) + rest
    ensures a == b
  {
    var s, x, y := Show(b) + rest, Show(a), Show(b);
    FirstCloses(a);
    FirstCloses(b);
    assert s[|x| - 1] == '>' && s[|y| - 1] == '>';
    assert |x| == |y|;
    assert x == y;
    HasColon(a);
    HasColon(b);
    if b.Param? {
      ColonSplits(a.name, a.kind, b.name, b.kind);
    }
  }

  lemma HasColon(p: Piece)
    requires !p.Text? && GoodPiece(p)
    ensures ':' in Show(p) <==> p.Param?
  {
    if p.Param? {
      assert Show(p)[|p.name| + 1] == ':';
    }
  }

  lemma FirstCloses(p: Piece)
    requires !p.Text? && GoodPiece(p)
    ensures var t := Show(p);
      |t| >= 2 && t[|t| - 1] == '>' && forall i | 0 <= i < |t| - 1 :: t[i] != '>'
  {
    var t := Show(p);
    forall i | 0 <= i < |t| - 1 ensures t[i] != '>' {
      if 1 <= i <= |p.name| {
        assert t[i] == p.name[i - 1];
      } else if p.Param? && i > |p.name| + 1 {
        assert t[i] == p.kind[i - |p.name| - 2];
      }
    }
  }

  lemma ColonSplits(a: string, x: string, b: string, y: string)
    requires ':' !in a && ':' !in b && Token(a, x) == Token(b, y)
    ensures a == b && x == y
  {
    var s, t := Token(a, x), Token(b, y);
    assert s[|a| + 1] == ':' && t[|b| + 1] == ':';
    assert |a| == |b|;
    assert a == s[1..|a| + 1] == t[1..|b| + 1] == b;
    assert x == s[|a| + 2..|s| - 1] == t[|b| + 2..|t| - 1] == y;
  }

  lemma ReplaceToken(q: Piece, p: Piece, rest: string, substitute: string)
    requires p.Param? && !q.Text? && GoodPiece(p) && GoodPiece(q)
    ensures Replace(Show(q) + rest, Show(p), substitute) ==
      (if q == p then substitute else Show(q)) + Replace(rest, Show(p), substitute)
  {
    hide Replace, Show, Token;
    ShowOpens(p);
    ShowOpens(q);
    if q == p {
      ReplaceAtStart(Show(p), rest, substitute);
    } else {
      if Show(p) <= Show(q) + rest {
        TokenPrefix(p, q, rest);
      }
      TooShort(Show(q) + rest, Show(p), substitute);
      TokenTail(q);
      var tail := Show(q)[1..];
      assert (Show(q) + rest)[1..] == tail + rest;
      ReplaceSkips(tail, rest, Show(p), substitute);
      assert Show(q) == [Show(q)[0]] + tail;
    }
  }

  lemma ReplaceAtStart(pattern: string, rest: string, substitute: string)
    requires pattern != ""
    ensures Replace(pattern + rest, pattern, substitute) == substitute + Replace(rest, pattern, substitute)
  {
    assert (pattern + rest)[|pattern|..] == rest;
  }

  lemma TokenTail(p: Piece)
    requires !p.Text? && GoodPiece(p)
    ensures Show(p) != "" && '<' !in Show(p)[1..]
  {
    assert Show(p)[1..] == p.name + (if p.Param? then ":" + p.kind + ">" else ">");
  }

  lemma TooShort(s: string, pattern: string, substitute: string)
    requires pattern != "" && s != "" && !(pattern <= s)
    ensures Replace(s, pattern, substitute) == [s[0]] + Replace(s[1..], pattern, substitute)
  {
  }

  /** Replacing a token everywhere is substituting the equal pieces. */
  lemma {:induction false} ReplaceIsSubstitute(ps: seq<Piece>, p: Piece)
    requires GoodPieces(ps) && p.Param? && GoodPiece(p)
    ensures Replace(Render(ps), Show(p), "{" + p.name + "}") == Render(Substitute(ps, p))
    decreases |ps|
  {
    hide Replace, Show, GoodPiece;
    var substitute := "{" + p.name + "}";
    ShowOpens(p);
    if ps == [] {
      ReplaceEmpty(Show(p), substitute);
    } else {
      ReplaceIsSubstitute(ps[1..], p);
      assert Substitute(ps, p)[1..] == Substitute(ps[1..], p);
      assert GoodPiece(ps[0]);
      ShowText(ps[0]);
      ShowText(Text(substitute));
      if ps[0].Text? {
        ReplaceSkips(ps[0].text, Render(ps[1..]), Show(p), substitute);
      } else {
        ReplaceToken(ps[0], p, Render(ps[1..]), substitute);
      }
    }
  }

  lemma ReplaceEmpty(pattern: string, substitute: string)
    requires pattern != ""
    ensures Replace("", pattern, substitute) == ""
  {
  }

  lemma ShowOpens(p: Piece)
    requires !p.Text?
    ensures Show(p) != "" && Show(p)[0] == '<'
  {
  }

  lemma ShowText(p: Piece)
    ensures p.Text? ==> Show(p) == p.text
    ensures p.Text? && GoodPiece(p) ==> '<' !in p.text
  {
  }

  // ---------------------------------------------------------------- the loop on such paths

  lemma MatchAfterText(text: string, rest: string)
    requires '<' !in text
    ensures FirstMatch(text + rest) == FirstMatch(rest)
    ensures '<' in text + rest <==> '<' in rest
  {
    hide IndexOf;
    var s := text + rest;
    var j := IndexOf(rest, '<');
    if j.Some? {
      var start := |text| + j.value;
      assert s[start] == '<' && s[..start] == text + rest[..j.value];
      IndexIs(s, '<', start);
      assert s[start..] == rest[j.value..];
      var end := IndexOf(rest[j.value..], '>');
      if end.Some? {
        assert s[start..start + end.value + 1] == rest[j.value..j.value + end.value + 1];
      }
    }
  }

  lemma {:induction false} IndexIs(s: string, c: char, i: nat)
    requires i < |s| && s[i] == c && c !in s[..i]
    ensures IndexOf(s, c) == Some(i)
  {
    var f := IndexOf(s, c).value;
    assert f >= i;
    assert s[i] !in s[..f];
  }

  lemma ClosesAt(p: Piece, rest: string)
    requires !p.Text? && GoodPiece(p)
    ensures var s := Show(p) + rest;
      && IndexOf(s, '<') == Some(0) && IndexOf(s[0..], '>') == Some(|Show(p)| - 1)
      && s[0..|Show(p)|] == Show(p)
  {
    hide IndexOf, Show;
    var t, s := Show(p), Show(p) + rest;
    FirstCloses(p);
    ShowOpens(p);
    assert s[..0] == "" && s[0..] == s;
    IndexIs(s, '<', 0);
    assert s[..|t| - 1] == t[..|t| - 1];
    IndexIs(s, '>', |t| - 1);
  }

  lemma MatchToken(p: Piece, rest: string)
    requires p.Param? && GoodPiece(p)
    ensures FirstMatch(Show(p) + rest) == Some((Show(p), |p.name| + 1))
    ensures Replacement(Show(p), |p.name| + 1) == "{" + p.name + "}"
  {
    hide IndexOf;
    var t := Show(p);
    ClosesAt(p, rest);
    assert t[..|p.name| + 1] == "<" + p.name;
    IndexIs(t, ':', |p.name| + 1);
    assert t[1..|p.name| + 1] == p.name;
  }

  /** At an untyped parameter the loop stops. */
  lemma NoMatchAtUntyped(p: Piece, rest: string)
    requires p.Untyped? && GoodPiece(p)
    ensures FirstMatch(Show(p) + rest) == None
  {
    hide IndexOf;
    ClosesAt(p, rest);
    assert ':' !in Show(p);
    assert IndexOf(Show(p), ':').None?;
  }

  lemma LeadingUnfolds(ps: seq<Piece>)
    ensures ps == [] || ps[0].Untyped? ==> Leading(ps) == []
    ensures ps != [] && !ps[0].Untyped? ==>
      Leading(ps) == [ps[0]] + Leading(ps[1..]) && Leading(ps)[1..] == Leading(ps[1..])
    ensures Params(Leading(ps)) ==
      if Leading(ps) == [] then 0 else (if ps[0].Param? then 1 else 0) + Params(Leading(ps)[1..])
  {
  }

  /** What the loop finds first: the first leading parameter, if there is one. */
  lemma {:induction false} RenderMatch(ps: seq<Piece>) returns (k: nat)
    requires GoodPieces(ps)
    ensures if Params(Leading(ps)) == 0 then FirstMatch(Render(ps)) == None
      else
        && k < |Leading(ps)| && k < |ps| && ps[k].Param? && Leading(ps)[k] == ps[k]
        && FirstMatch(Render(ps)) == Some((Show(ps[k]), |ps[k].name| + 1))
        && Replacement(Show(ps[k]), |ps[k].name| + 1) == "{" + ps[k].name + "}"
    decreases |ps|
  {
    hide FirstMatch, Show, Replacement, Leading, Params;
    k := 0;
    LeadingUnfolds(ps);
    if ps == [] {
      NoMatchInNothing();
    } else {
      assert GoodPiece(ps[0]);
      ShowText(ps[0]);
      if ps[0].Param? {
        MatchToken(ps[0], Render(ps[1..]));
      } else if ps[0].Untyped? {
        NoMatchAtUntyped(ps[0], Render(ps[1..]));
      } else {
        k := RenderMatch(ps[1..]);
        k := k + 1;
        MatchAfterText(ps[0].text, Render(ps[1..]));
      }
    }
  }

  lemma NoMatchInNothing()
    ensures FirstMatch("") == None
  {
  }

  lemma {:induction false} SubstituteHas(ps: seq<Piece>, p: Piece, q: Piece)
    requires p.Param? && !q.Text?
    ensures q in Substitute(ps, p) <==> q in ps && q != p
    decreases |ps|
  {
    if ps != [] {
      SubstituteHas(ps[1..], p, q);
      assert Substitute(ps, p)[1..] == Substitute(ps[1..], p);
      assert ps == [ps[0]] + ps[1..];
    }
  }

  lemma {:induction false} SubstituteLeads(ps: seq<Piece>, p: Piece)
    requires GoodPieces(ps) && p.Param? && GoodPiece(p)
    ensures GoodPieces(Substitute(ps, p)) && Leading(Substitute(ps, p)) == Substitute(Leading(ps), p)
    decreases |ps|
  {
    if ps != [] {
      SubstituteLeads(ps[1..], p);
      assert Substitute(ps, p)[1..] == Substitute(ps[1..], p);
      assert GoodPiece(ps[0]);
      if !ps[0].Untyped? {
        assert Leading(ps)[1..] == Leading(ps[1..]);
      }
    }
  }

  lemma {:induction false} SubstituteDrops(ps: seq<Piece>, p: Piece)
    requires p.Param?
    ensures Params(Substitute(ps, p)) <= Params(ps)
    ensures p in ps ==> Params(Substitute(ps, p)) < Params(ps)
    decreases |ps|
  {
    if ps != [] {
      SubstituteDrops(ps[1..], p);
      assert Substitute(ps, p)[1..] == Substitute(ps[1..], p);
    }
  }

  /** Rewriting one known parameter everywhere does not change what all of them come to. */
  lemma {:induction false} SettledSubstitute(ps: seq<Piece>, known: seq<Piece>, p: Piece)
    requires p.Param? && p in known
    ensures Settled(Substitute(ps, p), Substitute(known, p)) == Settled(ps, known)
    decreases |ps|
  {
    hide Token;
    if ps != [] {
      SettledSubstitute(ps[1..], known, p);
      assert Substitute(ps, p)[1..] == Substitute(ps[1..], p);
      if !ps[0].Text? {
        SubstituteHas(known, p, ps[0]);
      }
    }
  }

  lemma {:induction false} NothingSettled(ps: seq<Piece>, known: seq<Piece>)
    requires Params(known) == 0
    ensures Settled(ps, known) == Render(ps)
    decreases |ps|
  {
    hide Show;
    if ps != [] {
      NothingSettled(ps[1..], known);
      if ps[0].Param? && ps[0] in known {
        SubstituteDrops(known, ps[0]);
      }
    }
  }

  /**
    What the loop does: every parameter that stands before the first untyped one is rewritten, wherever else
    it stands.
   */
  lemma {:induction false} RewriteOfPieces(ps: seq<Piece>)
    requires GoodPieces(ps)
    ensures Rewrite(Render(ps)) == Settled(ps, Leading(ps))
    decreases Params(Leading(ps))
  {
    hide Replace, FirstMatch, Render, Settled, Leading, Substitute, Params, Show, Replacement, GoodPiece;
    var k := RenderMatch(ps);
    if Params(Leading(ps)) != 0 {
      var p := ps[k];
      assert GoodPiece(p);
      ReplaceIsSubstitute(ps, p);
      SubstituteLeads(ps, p);
      SubstituteDrops(Leading(ps), p);
      SettledSubstitute(ps, Leading(ps), p);
      StepShrinks(Render(ps));
      RewriteOfPieces(Substitute(ps, p));
    } else {
      NothingSettled(ps, Leading(ps));
    }
  }

  lemma {:induction false} LeadingIsAll(ps: seq<Piece>)
    ensures AllTyped(ps) ==> Leading(ps) == ps
    decreases |ps|
  {
    if ps != [] {
      LeadingIsAll(ps[1..]);
    }
  }

  lemma {:induction false} AllSettled(ps: seq<Piece>, known: seq<Piece>)
    requires forall i | 0 <= i < |ps| :: ps[i] in known
    ensures Settled(ps, known) == Rewritten(ps)
    decreases |ps|
  {
    if ps != [] {
      AllSettled(ps[1..], known);
    }
  }

  lemma {:induction false} TypedLeavesNone(ps: seq<Piece>)
    requires GoodPieces(ps)
    ensures AllTyped(ps) ==> '<' !in Rewritten(ps)
    decreases |ps|
  {
    if ps != [] {
      assert GoodPiece(ps[0]);
      TypedLeavesNone(ps[1..]);
    }
  }

  lemma {:induction false} UntypedStays(ps: seq<Piece>, known: seq<Piece>, i: nat)
    requires i < |ps| && ps[i].Untyped?
    ensures '<' in Settled(ps, known)
    decreases i
  {
    if i > 0 {
      UntypedStays(ps[1..], known, i - 1);
    } else {
      assert Show(ps[0])[0] == '<';
    }
  }

  lemma SettledOpensIff(ps: seq<Piece>)
    requires GoodPieces(ps)
    ensures '<' in Settled(ps, Leading(ps)) <==> !AllTyped(ps)
    ensures AllTyped(ps) ==> Settled(ps, Leading(ps)) == Rewritten(ps)
  {
    hide Settled, Leading, Rewritten, GoodPiece;
    if AllTyped(ps) {
      LeadingIsAll(ps);
      AllSettled(ps, ps);
      TypedLeavesNone(ps);
    } else {
      var i :| 0 <= i < |ps| && ps[i].Untyped?;
      UntypedStays(ps, Leading(ps), i);
    }
  }

  /**
    For every path made of text and parameters: the repeated global replacement equals rewriting once
    each parameter that also stands before the first untyped one. A `<` is left if and only if some
    parameter is untyped.
   */
  lemma ConvertOfPieces(ps: seq<Piece>)
    requires GoodPieces(ps)
    ensures Convert(Render(ps)) ==
      if Render(ps) != "" && Render(ps)[0] == SLASH then Settled(ps, Leading(ps)) else "/" + Settled(ps, Leading(ps))
    ensures '<' in Convert(Render(ps)) <==> exists i | 0 <= i < |ps| :: ps[i].Untyped?
  {
    hide Rewrite, Render, Settled, Leading, GoodPiece;
    RewriteOfPieces(ps);
    SettledOpensIff(ps);
    if Render(ps) == "" || Render(ps)[0] != SLASH {
      var more := [Text([SLASH])] + ps;
      assert GoodPiece(Text([SLASH])) by { SlashIsText(); }
      RewriteOfPieces(more);
      PrependSlash(ps);
      assert Normalize(Render(ps)) == [SLASH] + Render(ps);
    }
  }

  lemma SlashIsText()
    ensures GoodPiece(Text([SLASH]))
  {
  }

  lemma PrependSlash(ps: seq<Piece>)
    ensures var more := [Text([SLASH])] + ps;
      Render(more) == [SLASH] + Render(ps) && Settled(more, Leading(more)) == [SLASH] + Settled(ps, Leading(ps))
  {
    var more := [Text([SLASH])] + ps;
    assert more[1..] == ps;
    assert Leading(more) == [Text([SLASH])] + Leading(ps);
    SettledTextIgnored(ps, Text([SLASH]), Leading(ps));
  }

  lemma {:induction false} SettledTextIgnored(ps: seq<Piece>, text: Piece, known: seq<Piece>)
    requires text.Text?
    ensures Settled(ps, [text] + known) == Settled(ps, known)
    decreases |ps|
  {
    if ps != [] {
      SettledTextIgnored(ps[1..], text, known);
    }
  }

  /** On typed parameters alone: each is rewritten once, and no `<` is left. */
  lemma ConvertOfTyped(ps: seq<Piece>)
    requires GoodPieces(ps) && AllTyped(ps)
    ensures Convert(Render(ps)) ==
      if Render(ps) != "" && Render(ps)[0] == SLASH then Rewritten(ps) else "/" + Rewritten(ps)
    ensures '<' !in Convert(Render(ps))
  {
    hide Convert, Render, Settled, Leading, Rewritten, GoodPiece;
    ConvertOfPieces(ps);
    SettledOpensIff(ps);
  }

  /** A path whose first parameter is untyped is left as it is, typed parameters behind it included. */
  lemma UntypedStopsTheLoop()
    ensures Convert("/<key>/<id:i64>") == "/<key>/<id:i64>"
  {
    hide Rewrite;
    var ps := [Text("/"), Untyped("key"), Text("/"), Param("id", "i64")];
    assert ps[1..][0] == Untyped("key");
    assert Leading(ps) == [Text("/")] by { assert Leading(ps[1..]) == []; }
    RenderedExample(ps);
    RewriteOfPieces(ps);
    NothingSettled(ps, Leading(ps));
  }

  lemma RenderedExample(ps: seq<Piece>)
    requires ps == [Text("/"), Untyped("key"), Text("/"), Param("id", "i64")]
    ensures Render(ps) == "/<key>/<id:i64>"
  {
    hide Show;
    assert ps[3..] == [ps[3]] && ps[4..] == [];
    assert ps[2..][1..] == ps[3..] && ps[1..][1..] == ps[2..] && ps[3..][1..] == ps[4..];
    assert Render(ps[3..]) == Show(ps[3]) + Render(ps[4..]);
    assert Render(ps[2..]) == Show(ps[2]) + Render(ps[3..]);
    assert Render(ps[1..]) == Show(ps[1]) + Render(ps[2..]);
    ShownExample();
  }

  lemma ShownExample()
    ensures Show(Text("/")) == "/" && Show(Untyped("key")) == "<key>" && Show(Param("id", "i64")) == "<id:i64>"
  {
  }
}
