/**
  Well-formed UTF-8 (section 4 of RFC 3629) over strings that hold one byte per character.
  Rust refuses to slice a `str` anywhere but on a character boundary; the router only ever
  cuts next to the byte '/', and the lemmas here say why that is always a boundary.
 */
module Utf8 {

  predicate Between(s: string, i: nat, lo: int, hi: int) {
    i < |s| && lo <= s[i] as int <= hi
  }

  predicate Continuation(s: string, i: nat) {
    Between(s, i, 0x80, 0xBF)
  }

  /** Byte length of the character that starts `s`, or 0 when no well-formed character does. */
  function CharLen(s: string): (n: nat)
    ensures n <= |s|
    ensures forall k | 0 < k < n :: Continuation(s, k)
  {
    if Between(s, 0, 0x00, 0x7F) then 1
    else if Between(s, 0, 0xC2, 0xDF) && Continuation(s, 1) then 2
    else if Between(s, 0, 0xE0, 0xEF) && Continuation(s, 1) && Continuation(s, 2)
            && (s[0] as int == 0xE0 ==> s[1] as int >= 0xA0)
            && (s[0] as int == 0xED ==> s[1] as int <= 0x9F) then 3
    else if Between(s, 0, 0xF0, 0xF4) && Continuation(s, 1) && Continuation(s, 2) && Continuation(s, 3)
            && (s[0] as int == 0xF0 ==> s[1] as int >= 0x90)
            && (s[0] as int == 0xF4 ==> s[1] as int <= 0x8F) then 4
    else 0
  }

  predicate WellFormed(s: string) {
    s == "" || (CharLen(s) > 0 && WellFormed(s[CharLen(s)..]))
  }

  /** `str::is_char_boundary`. */
  predicate Boundary(s: string, i: nat) {
    i == 0 || i == |s| || (i < |s| && !Continuation(s, i))
  }

  lemma CharLenOfPrefix(s: string, i: nat)
    requires CharLen(s) <= i <= |s|
    ensures CharLen(s[..i]) == CharLen(s)
  {
  }

  lemma AsciiIsNoContinuation(s: string, i: nat)
    requires CharLen(s) > 0 && 0 < i < |s| && s[i] as int < 0x80
    ensures i >= CharLen(s)
  {
    assert !Continuation(s, i);
  }

  lemma AsciiAlone(s: string)
    requires s != "" && s[0] as int < 0x80
    ensures CharLen(s) == 1
  {
  }

  /** Cutting before or after an ASCII byte leaves well-formed text on both sides. */
  lemma {:induction false} CutAtAscii(s: string, i: nat)
    requires WellFormed(s) && i < |s| && s[i] as int < 0x80
    ensures WellFormed(s[..i]) && WellFormed(s[i..]) && WellFormed(s[i + 1..])
    decreases |s|
  {
    hide CharLen;
    var n := CharLen(s);
    if i == 0 {
      AsciiAlone(s);
      assert s[0..] == s;
    } else {
      AsciiIsNoContinuation(s, i);
      var rest := s[n..];
      CutAtAscii(rest, i - n);
      assert rest[i - n..] == s[i..] && rest[i - n + 1..] == s[i + 1..];
      assert s[..i][n..] == rest[..i - n];
      CharLenOfPrefix(s, i);
    }
  }

  /** The start of well-formed text is never a continuation byte. */
  lemma StartIsBoundary(s: string, i: nat)
    requires i <= |s| && WellFormed(s[i..])
    ensures Boundary(s, i)
  {
    if i < |s| {
      assert s[i..][0] == s[i];
    }
  }

  // ---------------------------------------------------------------- the encoding

  /** A Unicode scalar value: any code point but the surrogates. */
  predicate Scalar(c: int) {
    0 <= c < 0xD800 || 0xE000 <= c < 0x110000
  }

  function Tail(b: int): char
    requires 0 <= b < 0x40
  {
    (0x80 + b) as char
  }

  /** How UTF-8 encodes one scalar value (section 3 of RFC 3629). */
  function Encode(c: int): string
    requires Scalar(c)
  {
    if c < 0x80 then [c as char]
    else if c < 0x800 then [(0xC0 + c / 0x40) as char, Tail(c % 0x40)]
    else if c < 0x10000 then [(0xE0 + c / 0x1000) as char, Tail(c / 0x40 % 0x40), Tail(c % 0x40)]
    else [(0xF0 + c / 0x40000) as char, Tail(c / 0x1000 % 0x40), Tail(c / 0x40 % 0x40), Tail(c % 0x40)]
  }

  function EncodeAll(cs: seq<int>): string
    requires forall i | 0 <= i < |cs| :: Scalar(cs[i])
  {
    if cs == [] then "" else Encode(cs[0]) + EncodeAll(cs[1..])
  }

  lemma EncodeShape(c: int)
    requires Scalar(c)
    ensures var e := Encode(c);
      && (c < 0x80 ==> |e| == 1 && e[0] as int < 0x80)
      && (0x80 <= c < 0x800 ==> |e| == 2 && 0xC2 <= e[0] as int <= 0xDF)
      && (0x800 <= c < 0x10000 ==> |e| == 3 && 0xE0 <= e[0] as int <= 0xEF)
      && (0x10000 <= c ==> |e| == 4 && 0xF0 <= e[0] as int <= 0xF4)
      && forall i | 0 < i < |e| :: 0x80 <= e[i] as int <= 0xBF
  {
  }

  lemma EncodeEdges(c: int)
    requires Scalar(c) && c >= 0x800
    ensures var e := Encode(c);
      && |e| >= 3
      && (c < 0x10000 && e[0] as int == 0xE0 ==> e[1] as int >= 0xA0)
      && (c < 0x10000 && e[0] as int == 0xED ==> e[1] as int <= 0x9F)
      && (c >= 0x10000 && e[0] as int == 0xF0 ==> e[1] as int >= 0x90)
      && (c >= 0x10000 && e[0] as int == 0xF4 ==> e[1] as int <= 0x8F)
  {
  }

  lemma EncodedLength(c: int, rest: string)
    requires Scalar(c)
    ensures CharLen(Encode(c) + rest) == |Encode(c)| > 0
  {
    hide Encode;
    var s := Encode(c) + rest;
    EncodeShape(c);
    if c >= 0x800 {
      EncodeEdges(c);
    }
    assert forall i | 0 <= i < |Encode(c)| :: s[i] == Encode(c)[i];
  }

  /** The scalar value a well-formed character stands for. */
  function Decode(s: string): (c: int)
    requires CharLen(s) > 0
  {
    var n := CharLen(s);
    if n == 1 then s[0] as int
    else if n == 2 then (s[0] as int - 0xC0) * 0x40 + (s[1] as int - 0x80)
    else if n == 3 then (s[0] as int - 0xE0) * 0x1000 + (s[1] as int - 0x80) * 0x40 + (s[2] as int - 0x80)
    else
      (s[0] as int - 0xF0) * 0x40000 + (s[1] as int - 0x80) * 0x1000 +
      (s[2] as int - 0x80) * 0x40 + (s[3] as int - 0x80)
  }

  lemma Digits(x: int, y: int)
    requires 0 <= y < 0x40
    ensures (x * 0x40 + y) / 0x40 == x && (x * 0x40 + y) % 0x40 == y
  {
  }

  lemma EncodesTwo(a: int, b: int)
    requires 2 <= a < 0x20 && 0 <= b < 0x40
    ensures Scalar(a * 0x40 + b) && Encode(a * 0x40 + b) == [(0xC0 + a) as char, Tail(b)]
  {
    Digits(a, b);
  }

  lemma EncodesThree(a: int, b: int, c: int)
    requires 0 <= a < 0x10 && 0 <= b < 0x40 && 0 <= c < 0x40
    requires (a == 0 ==> b >= 0x20) && (a == 0xD ==> b < 0x20)
    ensures var n := a * 0x1000 + b * 0x40 + c;
      Scalar(n) && Encode(n) == [(0xE0 + a) as char, Tail(b), Tail(c)]
  {
    var x := a * 0x40 + b;
    assert a * 0x1000 + b * 0x40 + c == x * 0x40 + c;
    Digits(x, c);
    Digits(a, b);
  }

  lemma EncodesFour(a: int, b: int, c: int, d: int)
    requires 0 <= a < 5 && 0 <= b < 0x40 && 0 <= c < 0x40 && 0 <= d < 0x40
    requires (a == 0 ==> b >= 0x10) && (a == 4 ==> b < 0x10)
    ensures var n := a * 0x40000 + b * 0x1000 + c * 0x40 + d;
      Scalar(n) && Encode(n) == [(0xF0 + a) as char, Tail(b), Tail(c), Tail(d)]
  {
    var x := a * 0x40 + b;
    var y := x * 0x40 + c;
    assert a * 0x40000 + b * 0x1000 + c * 0x40 + d == y * 0x40 + d;
    Digits(y, d);
    Digits(x, c);
    Digits(a, b);
  }

  lemma DecodedEncodes(s: string)
    requires CharLen(s) > 0
    ensures Scalar(Decode(s)) && Encode(Decode(s)) == s[..CharLen(s)]
  {
    hide Encode, Scalar;
    var n := CharLen(s);
    if n == 1 {
      EncodesOne(s[0]);
    } else if n == 2 {
      EncodesTwo(s[0] as int - 0xC0, s[1] as int - 0x80);
    } else if n == 3 {
      EncodesThree(s[0] as int - 0xE0, s[1] as int - 0x80, s[2] as int - 0x80);
    } else {
      EncodesFour(s[0] as int - 0xF0, s[1] as int - 0x80, s[2] as int - 0x80, s[3] as int - 0x80);
    }
  }

  lemma EncodesOne(c: char)
    requires c as int < 0x80
    ensures Scalar(c as int) && Encode(c as int) == [c]
  {
  }

  /** Text is well-formed exactly when it encodes some scalar values. */
  lemma {:induction false} WellFormedEncodes(s: string) returns (cs: seq<int>)
    requires WellFormed(s)
    ensures forall i | 0 <= i < |cs| :: Scalar(cs[i])
    ensures EncodeAll(cs) == s
    decreases |s|
  {
    hide Encode, Decode, Scalar;
    cs := [];
    if s != "" {
      var rest := WellFormedEncodes(s[CharLen(s)..]);
      DecodedEncodes(s);
      cs := [Decode(s)] + rest;
      assert cs[1..] == rest;
    }
  }

  lemma {:induction false} EncodedIsWellFormed(cs: seq<int>)
    requires forall i | 0 <= i < |cs| :: Scalar(cs[i])
    ensures WellFormed(EncodeAll(cs))
    decreases |cs|
  {
    hide Encode, CharLen;
    if cs != [] {
      var rest := EncodeAll(cs[1..]);
      EncodedIsWellFormed(cs[1..]);
      EncodedLength(cs[0], rest);
      assert (Encode(cs[0]) + rest)[|Encode(cs[0])|..] == rest;
    }
  }

  /** In well-formed text the boundaries are exactly the places where it can be cut into well-formed text. */
  lemma {:induction false} BoundaryCuts(s: string, i: nat)
    requires WellFormed(s) && i <= |s|
    ensures Boundary(s, i) <==> WellFormed(s[..i]) && WellFormed(s[i..])
    decreases |s|
  {
    hide CharLen;
    var n := CharLen(s);
    if i == 0 {
      assert s[0..] == s;
    } else if i == |s| {
      assert s[..i] == s && s[i..] == "";
    } else if i < n {
      assert Continuation(s, i);
      if WellFormed(s[i..]) {
        StartIsBoundary(s, i);
      }
    } else {
      var rest := s[n..];
      BoundaryCuts(rest, i - n);
      CharLenOfPrefix(s, i);
      assert rest[i - n..] == s[i..] && s[..i][n..] == rest[..i - n];
      if i == n {
        StartIsBoundary(s, n);
      } else {
        assert rest[i - n] == s[i];
      }
    }
  }
}
