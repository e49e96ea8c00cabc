/** `btoa` and `atob`: the Base64 encoding of section 4 of RFC 4648, applied
    to a string whose code units are taken as bytes, and the forgiving
    decoder that browsers use for `atob`. */
module Base64 {
  import opened JsValue

  /** Every code unit fits in a byte: the strings `btoa` accepts. */
  predicate Latin1(s: JsString) {
    forall i :: 0 <= i < |s| ==> s[i] <= 0xFF
  }

  const Pad: Unit := 0x3D

  /** The character for a 6-bit value (Table 1 of RFC 4648). */
  function Sym(v: int): (c: Unit)
    requires 0 <= v < 64
    ensures IsSym(c)
  {
    if v < 26 then (0x41 + v) as Unit
    else if v < 52 then (0x61 + v - 26) as Unit
    else if v < 62 then (0x30 + v - 52) as Unit
    else if v == 62 then 0x2B
    else 0x2F
  }

  predicate IsSym(c: Unit) {
    (0x41 <= c <= 0x5A) || (0x61 <= c <= 0x7A) || (0x30 <= c <= 0x39) || c == 0x2B || c == 0x2F
  }

  /** The 6-bit value of an alphabet character. */
  function SymValue(c: Unit): (v: int)
    requires IsSym(c)
    ensures 0 <= v < 64
  {
    if 0x41 <= c <= 0x5A then c as int - 0x41
    else if 0x61 <= c <= 0x7A then c as int - 0x61 + 26
    else if 0x30 <= c <= 0x39 then c as int - 0x30 + 52
    else if c == 0x2B then 62
    else 63
  }

  lemma {:induction false} SymValueOfSym(v: int)
    requires 0 <= v < 64
    ensures SymValue(Sym(v)) == v
  {
  }

  /** The four characters of a group of three bytes. */
  function Chars3(a: int, b: int, c: int): (r: JsString)
    requires 0 <= a < 256 && 0 <= b < 256 && 0 <= c < 256
    ensures |r| == 4 && forall i :: 0 <= i < 4 ==> IsSym(r[i])
  {
    [Sym(a / 4), Sym(a % 4 * 16 + b / 16), Sym(b % 16 * 4 + c / 64), Sym(c % 64)]
  }

  /** The three characters of a final group of two bytes (padding aside). */
  function Chars2(a: int, b: int): (r: JsString)
    requires 0 <= a < 256 && 0 <= b < 256
    ensures |r| == 3 && forall i :: 0 <= i < 3 ==> IsSym(r[i])
  {
    [Sym(a / 4), Sym(a % 4 * 16 + b / 16), Sym(b % 16 * 4)]
  }

  /** The two characters of a final group of one byte (padding aside). */
  function Chars1(a: int): (r: JsString)
    requires 0 <= a < 256
    ensures |r| == 2 && forall i :: 0 <= i < 2 ==> IsSym(r[i])
  {
    [Sym(a / 4), Sym(a % 4 * 16)]
  }

  /** The encoded groups without the padding: four characters per three
      bytes, and two or three for a final group of one or two bytes. */
  function Unpadded(s: JsString): (r: JsString)
    requires Latin1(s)
    ensures forall i :: 0 <= i < |r| ==> IsSym(r[i])
    ensures Decodable(|r|) && Whole(|r| + |Padding(|s|)|)
    ensures |s| > 0 ==> |r| > 0
    decreases |s|
  {
    if |s| == 0 then []
    else if |s| == 1 then Chars1(s[0] as int)
    else if |s| == 2 then Chars2(s[0] as int, s[1] as int)
    else
      var t := Unpadded(s[3..]);
      PaddingStep(|s|);
      GroupLength(|t|, |Padding(|s|)|);
      Chars3(s[0] as int, s[1] as int, s[2] as int) + t
  }

  /** One more group of four keeps both length properties. */
  lemma {:induction false} GroupLength(a: nat, b: nat)
    requires Decodable(a) && Whole(a + b)
    ensures Decodable(a + 4) && Whole(a + 4 + b)
  {
    assert a + 4 + b - 4 == a + b;
  }

  /** The `=` characters that complete the final group to four. */
  function Padding(n: nat): JsString {
    if n % 3 == 1 then [Pad, Pad] else if n % 3 == 2 then [Pad] else []
  }

  lemma {:induction false} PaddingStep(n: nat)
    requires n >= 3
    ensures Padding(n) == Padding(n - 3)
  {
  }

  /** A multiple of four. */
  predicate Whole(n: nat) {
    n == 0 || (n >= 4 && Whole(n - 4))
  }

  lemma {:induction false} WholeMod(n: nat)
    ensures Whole(n) <==> n % 4 == 0
  {
    if n >= 4 {
      WholeMod(n - 4);
    }
  }

  /** `btoa`: fails (throws InvalidCharacterError) on a code unit above 0xFF;
      otherwise the padded Base64 text, a whole number of four-character
      groups. */
  function Btoa(s: JsString): (r: Option<JsString>)
    ensures r.Some? <==> Latin1(s)
    ensures r.Some? ==> |r.value| % 4 == 0
  {
    if Latin1(s) then
      var u := Unpadded(s);
      WholeMod(|u| + |Padding(|s|)|);
      Some(u + Padding(|s|))
    else None
  }

  /** ASCII whitespace, which `atob` ignores. */
  predicate IsAsciiWs(c: Unit) {
    c == 0x09 || c == 0x0A || c == 0x0C || c == 0x0D || c == 0x20
  }

  function RemoveWs(s: JsString): (r: JsString)
    ensures |r| <= |s|
    decreases |s|
  {
    if s == [] then []
    else if IsAsciiWs(s[0]) then RemoveWs(s[1..])
    else [s[0]] + RemoveWs(s[1..])
  }

  /** A length that is not of the form 4n + 1. */
  predicate Decodable(n: nat) {
    n != 1 && (n < 4 || Decodable(n - 4))
  }

  lemma {:induction false} DecodableMod(n: nat)
    ensures Decodable(n) <==> n % 4 != 1
  {
    if n >= 4 {
      DecodableMod(n - 4);
    }
  }

  /** The bytes that a group of four 6-bit values carries. */
  function Bytes3(v0: int, v1: int, v2: int, v3: int): JsString
    requires 0 <= v0 < 64 && 0 <= v1 < 64 && 0 <= v2 < 64 && 0 <= v3 < 64
  {
    [(v0 * 4 + v1 / 16) as Unit, (v1 % 16 * 16 + v2 / 4) as Unit, (v2 % 4 * 64 + v3) as Unit]
  }

  /** The bytes of a final group of three values; the low two bits of the
      last are discarded. */
  function Bytes2(v0: int, v1: int, v2: int): JsString
    requires 0 <= v0 < 64 && 0 <= v1 < 64 && 0 <= v2 < 64
  {
    [(v0 * 4 + v1 / 16) as Unit, (v1 % 16 * 16 + v2 / 4) as Unit]
  }

  /** The byte of a final group of two values; the low four bits of the
      last are discarded. */
  function Bytes1(v0: int, v1: int): JsString
    requires 0 <= v0 < 64 && 0 <= v1 < 64
  {
    [(v0 * 4 + v1 / 16) as Unit]
  }

  /** Decodes alphabet characters four at a time; a final group of two or
      three characters yields one or two bytes. */
  function Decode(t: JsString): (r: JsString)
    requires forall i :: 0 <= i < |t| ==> IsSym(t[i])
    requires Decodable(|t|)
    decreases |t|
  {
    if |t| == 0 then []
    else if |t| == 2 then Bytes1(SymValue(t[0]), SymValue(t[1]))
    else if |t| == 3 then Bytes2(SymValue(t[0]), SymValue(t[1]), SymValue(t[2]))
    else Bytes3(SymValue(t[0]), SymValue(t[1]), SymValue(t[2]), SymValue(t[3])) + Decode(t[4..])
  }

  lemma {:induction false} DecodeLatin1(t: JsString)
    requires forall i :: 0 <= i < |t| ==> IsSym(t[i])
    requires Decodable(|t|)
    ensures Latin1(Decode(t))
    decreases |t|
  {
    if |t| >= 4 {
      DecodeLatin1(t[4..]);
    }
  }

  /** The text with one or two final `=` removed, when its length is a
      multiple of four. */
  function StripPadding(t: JsString): JsString {
    if |t| % 4 == 0 && |t| >= 2 && t[|t| - 1] == Pad && t[|t| - 2] == Pad then t[..|t| - 2]
    else if |t| % 4 == 0 && |t| >= 1 && t[|t| - 1] == Pad then t[..|t| - 1]
    else t
  }

  /** `atob` (the forgiving-base64 decode): drop ASCII whitespace, drop the
      padding of a whole number of groups, then fail on a length of the form
      4n + 1 or on a character outside the alphabet. Every decoded code unit
      fits in a byte. */
  function Atob(s: JsString): (r: Option<JsString>)
    ensures r.Some? ==> Latin1(r.value)
  {
    var t := StripPadding(RemoveWs(s));
    if |t| % 4 == 1 then None
    else if !(forall i :: 0 <= i < |t| ==> IsSym(t[i])) then None
    else DecodableMod(|t|); DecodeLatin1(t); Some(Decode(t))
  }

  lemma {:induction false} Group3(a: int, b: int, c: int)
    requires 0 <= a < 256 && 0 <= b < 256 && 0 <= c < 256
    ensures (a / 4) * 4 + (a % 4 * 16 + b / 16) / 16 == a
    ensures (a % 4 * 16 + b / 16) % 16 * 16 + (b % 16 * 4 + c / 64) / 4 == b
    ensures (b % 16 * 4 + c / 64) % 4 * 64 + c % 64 == c
  {
  }

  lemma {:induction false} Group2(a: int, b: int)
    requires 0 <= a < 256 && 0 <= b < 256
    ensures (a / 4) * 4 + (a % 4 * 16 + b / 16) / 16 == a
    ensures (a % 4 * 16 + b / 16) % 16 * 16 + (b % 16 * 4) / 4 == b
  {
  }

  lemma {:induction false} Group1(a: int)
    requires 0 <= a < 256
    ensures (a / 4) * 4 + (a % 4 * 16) / 16 == a
  {
  }

  /** Decoding undoes the unpadded encoding. */
  lemma {:induction false} DecodeUnpadded(s: JsString)
    requires Latin1(s)
    ensures Decode(Unpadded(s)) == s
    decreases |s|
  {
    if |s| == 1 {
      DecodeSingle(s);
    } else if |s| == 2 {
      DecodePair(s);
    } else if |s| >= 3 {
      DecodeUnpadded(s[3..]);
      DecodeStep(s);
    }
  }

  lemma {:induction false} DecodeSingle(s: JsString)
    requires Latin1(s) && |s| == 1
    ensures Decode(Unpadded(s)) == s
  {
    DecodeOne(s[0] as int);
    assert s == [s[0]];
  }

  lemma {:induction false} DecodePair(s: JsString)
    requires Latin1(s) && |s| == 2
    ensures Decode(Unpadded(s)) == s
  {
    DecodeTwo(s[0] as int, s[1] as int);
    assert s == [s[0], s[1]];
  }

  /** One group of three bytes ahead of a tail that already round-trips. */
  lemma {:induction false} DecodeStep(s: JsString)
    requires Latin1(s) && |s| >= 3 && Decode(Unpadded(s[3..])) == s[3..]
    ensures Decode(Unpadded(s)) == s
  {
    var x, y, z := s[0], s[1], s[2];
    var u := Unpadded(s[3..]);
    UnpaddedStep(s);
    DecodeGroupOf(x, y, z, u);
    Regroup3(s);
  }

  lemma {:induction false} UnpaddedStep(s: JsString)
    requires Latin1(s) && |s| >= 3
    ensures Unpadded(s) == Chars3(s[0] as int, s[1] as int, s[2] as int) + Unpadded(s[3..])
  {
    assert |s| != 0 && |s| != 1 && |s| != 2;
  }

  lemma {:induction false} Regroup3(s: JsString)
    requires |s| >= 3
    ensures s == [s[0], s[1], s[2]] + s[3..]
  {
  }

  /** The encoding of three bytes decodes to them, ahead of what follows. */
  lemma {:induction false} DecodeGroupOf(x: Unit, y: Unit, z: Unit, u: JsString)
    requires x <= 0xFF && y <= 0xFF && z <= 0xFF
    requires forall i :: 0 <= i < |u| ==> IsSym(u[i])
    requires Decodable(|u|)
    ensures Decode(Chars3(x as int, y as int, z as int) + u) == [x, y, z] + Decode(u)
  {
    DecodeGroup(Chars3(x as int, y as int, z as int), u);
    DecodeThree(x as int, y as int, z as int);
  }

  lemma {:induction false} DecodeOne(a: int)
    requires 0 <= a < 256
    ensures Decode(Chars1(a)) == [a as Unit]
  {
    SymValueOfSym(a / 4);
    SymValueOfSym(a % 4 * 16);
    Group1(a);
  }

  lemma {:induction false} DecodeTwo(a: int, b: int)
    requires 0 <= a < 256 && 0 <= b < 256
    ensures Decode(Chars2(a, b)) == [a as Unit, b as Unit]
  {
    SymValueOfSym(a / 4);
    SymValueOfSym(a % 4 * 16 + b / 16);
    SymValueOfSym(b % 16 * 4);
    Group2(a, b);
  }

  lemma {:induction false} DecodeThree(a: int, b: int, c: int)
    requires 0 <= a < 256 && 0 <= b < 256 && 0 <= c < 256
    ensures var g := Chars3(a, b, c);
      Bytes3(SymValue(g[0]), SymValue(g[1]), SymValue(g[2]), SymValue(g[3])) == [a as Unit, b as Unit, c as Unit]
  {
    SymValueOfSym(a / 4);
    SymValueOfSym(a % 4 * 16 + b / 16);
    SymValueOfSym(b % 16 * 4 + c / 64);
    SymValueOfSym(c % 64);
    Group3(a, b, c);
  }

  /** A full group decodes on its own, ahead of what follows it. */
  lemma {:induction false} DecodeGroup(g: JsString, x: JsString)
    requires |g| == 4 && forall i :: 0 <= i < 4 ==> IsSym(g[i])
    requires forall i :: 0 <= i < |x| ==> IsSym(x[i])
    requires Decodable(|x|)
    ensures Decode(g + x) == Bytes3(SymValue(g[0]), SymValue(g[1]), SymValue(g[2]), SymValue(g[3])) + Decode(x)
  {
    var t := g + x;
    assert t[0] == g[0] && t[1] == g[1] && t[2] == g[2] && t[3] == g[3];
    assert t[4..] == x;
  }

  lemma {:induction false} RemoveWsNone(s: JsString)
    requires forall i :: 0 <= i < |s| ==> !IsAsciiWs(s[i])
    ensures RemoveWs(s) == s
    decreases |s|
  {
    if s != [] {
      RemoveWsNone(s[1..]);
    }
  }

  /** Removing the padding of a whole number of groups leaves the unpadded
      characters. */
  lemma {:induction false} StripPaddingOf(u: JsString, p: JsString)
    requires forall i :: 0 <= i < |u| ==> IsSym(u[i])
    requires p == [] || p == [Pad] || p == [Pad, Pad]
    requires Whole(|u| + |p|) && (p != [] ==> |u| > 0)
    ensures StripPadding(u + p) == u
  {
    WholeMod(|u| + |p|);
    if p == [Pad, Pad] {
      StripTwo(u);
    } else if p == [Pad] {
      StripOne(u);
    } else {
      assert u + p == u;
      if |u| > 0 {
        assert IsSym(u[|u| - 1]);
      }
    }
  }

  lemma {:induction false} StripTwo(u: JsString)
    requires (|u| + 2) % 4 == 0
    ensures StripPadding(u + [Pad, Pad]) == u
  {
    var t := u + [Pad, Pad];
    assert t[..|t| - 2] == u;
  }

  lemma {:induction false} StripOne(u: JsString)
    requires |u| > 0 && IsSym(u[|u| - 1]) && (|u| + 1) % 4 == 0
    ensures StripPadding(u + [Pad]) == u
  {
    var t := u + [Pad];
    assert t[|t| - 2] == u[|u| - 1];
    assert t[..|t| - 1] == u;
  }

  /** `atob` undoes `btoa` on every string `btoa` accepts. */
  lemma {:induction false} AtobBtoa(s: JsString)
    requires Latin1(s)
    ensures Atob(Btoa(s).value) == Some(s)
  {
    var u := Unpadded(s);
    var p := Padding(|s|);
    var t := u + p;
    assert Btoa(s).value == t;
    NoWhitespace(u, p);
    RemoveWsNone(t);
    StripPaddingOf(u, p);
    AtobOf(t, u);
    DecodeUnpadded(s);
  }

  /** Neither alphabet characters nor padding are whitespace. */
  lemma {:induction false} NoWhitespace(u: JsString, p: JsString)
    requires forall i :: 0 <= i < |u| ==> IsSym(u[i])
    requires p == [] || p == [Pad] || p == [Pad, Pad]
    ensures forall i :: 0 <= i < |u + p| ==> !IsAsciiWs((u + p)[i])
  {
    forall i | 0 <= i < |u + p|
      ensures !IsAsciiWs((u + p)[i])
    {
      if i < |u| {
        assert IsSym(u[i]);
      }
    }
  }

  /** `atob` of a text that reduces to the alphabet characters `u`. */
  lemma {:induction false} AtobOf(t: JsString, u: JsString)
    requires StripPadding(RemoveWs(t)) == u
    requires forall i :: 0 <= i < |u| ==> IsSym(u[i])
    requires Decodable(|u|)
    ensures Atob(t) == Some(Decode(u))
  {
    DecodableMod(|u|);
  }
}
