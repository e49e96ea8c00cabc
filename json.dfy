/** The JSON text that `JSON.stringify` writes for a form value and that
    `JSON.parse` reads back (ECMA-404 syntax, with the serialisation rules of
    ECMAScript's JSON object). Numbers are integers here. */
module Json {
  import opened JsValue

  const Quote: Unit := 0x22
  const Backslash: Unit := 0x5C
  const Comma: Unit := 0x2C
  const Colon: Unit := 0x3A
  const LBracket: Unit := 0x5B
  const RBracket: Unit := 0x5D
  const LBrace: Unit := 0x7B
  const RBrace: Unit := 0x7D
  const Minus: Unit := 0x2D

  const NullText: JsString := [0x6E, 0x75, 0x6C, 0x6C]
  const TrueText: JsString := [0x74, 0x72, 0x75, 0x65]
  const FalseText: JsString := [0x66, 0x61, 0x6C, 0x73, 0x65]

  // ---------------------------------------------------------------- writing

  /** The decimal text of an integer, with a leading '-' when negative. */
  function NumText(n: int): JsString {
    if n < 0 then [Minus] + Decimal(-n) else Decimal(n)
  }

  /** A lower-case hexadecimal digit. */
  function HexDigit(d: int): Unit
    requires 0 <= d < 16
  {
    if d < 10 then (0x30 + d) as Unit else (0x61 + d - 10) as Unit
  }

  /** The four hexadecimal digits of a code unit, most significant first. */
  function Hex4(c: Unit): JsString {
    var q1 := c as int / 16;
    var q2 := q1 / 16;
    [HexDigit(q2 / 16), HexDigit(q2 % 16), HexDigit(q1 % 16), HexDigit(c as int % 16)]
  }

  predicate IsHigh(c: Unit) { 0xD800 <= c <= 0xDBFF }
  predicate IsLow(c: Unit) { 0xDC00 <= c <= 0xDFFF }

  /** The text for one code point that is not half of a surrogate pair: the
      two-character escapes, `\u` escapes for other control characters and
      for lone surrogates, and the character itself otherwise. */
  function EscapeOne(c: Unit): JsString {
    if c == Quote then [Backslash, Quote]
    else if c == Backslash then [Backslash, Backslash]
    else if c == 0x08 then [Backslash, 0x62]
    else if c == 0x0C then [Backslash, 0x66]
    else if c == 0x0A then [Backslash, 0x6E]
    else if c == 0x0D then [Backslash, 0x72]
    else if c == 0x09 then [Backslash, 0x74]
    else if c < 0x20 || IsHigh(c) || IsLow(c) then [Backslash, 0x75] + Hex4(c)
    else [c]
  }

  /** The inside of a quoted string: a surrogate pair is written as it is,
      every other code unit through EscapeOne. */
  function QuoteBody(s: JsString): JsString
    decreases |s|
  {
    if s == [] then []
    else if |s| >= 2 && IsHigh(s[0]) && IsLow(s[1]) then [s[0], s[1]] + QuoteBody(s[2..])
    else EscapeOne(s[0]) + QuoteBody(s[1..])
  }

  function Quoted(s: JsString): JsString {
    [Quote] + QuoteBody(s) + [Quote]
  }

  /** The text of a value. An undefined value is written as `null`, which is
      what happens to it as an array element; as an object member it is
      skipped, and at the top it has no text (see Serialize). */
  function Text(v: Val): JsString
    decreases v
  {
    match v
    case Undef => NullText
    case Null => NullText
    case Bool(b) => if b then TrueText else FalseText
    case Num(n) => NumText(n)
    case Str(s) => Quoted(s)
    case Arr(items) =>
      if items == [] then [LBracket, RBracket]
      else [LBracket] + Text(items[0]) + ItemsTail(v, 1) + [RBracket]
    case Obj(fs) =>
      var j := NextKept(fs, 0);
      if j == |fs| then [LBrace, RBrace]
      else [LBrace] + Member(v, j) + MembersTail(v, j + 1) + [RBrace]
  }

  /** The elements of an array from index `i` on, each after a comma. */
  function ItemsTail(v: Val, i: nat): JsString
    requires v.Arr? && i <= |v.items|
    decreases v, |v.items| - i
  {
    if i == |v.items| then [] else [Comma] + Text(v.items[i]) + ItemsTail(v, i + 1)
  }

  /** The position of the first member from `i` on whose value is not
      undefined, or the number of members. */
  function NextKept(fs: seq<(JsString, Val)>, i: nat): (j: nat)
    requires i <= |fs|
    ensures i <= j <= |fs|
    ensures forall m :: i <= m < j ==> fs[m].1.Undef?
    ensures j < |fs| ==> !fs[j].1.Undef?
    decreases |fs| - i
  {
    if i == |fs| || !fs[i].1.Undef? then i else NextKept(fs, i + 1)
  }

  /** `"key":value` for the member at position `j`. */
  function Member(v: Val, j: nat): JsString
    requires v.Obj? && j < |v.fields|
    decreases v, |v.fields| - j, 0
  {
    Quoted(v.fields[j].0) + [Colon] + Text(v.fields[j].1)
  }

  /** The members from position `i` on whose value is not undefined, each
      after a comma. */
  function MembersTail(v: Val, i: nat): JsString
    requires v.Obj? && i <= |v.fields|
    decreases v, |v.fields| - i, 1
  {
    var j := NextKept(v.fields, i);
    if j == |v.fields| then [] else [Comma] + Member(v, j) + MembersTail(v, j + 1)
  }

  /** `JSON.stringify`: no text for undefined, the text otherwise. */
  function Serialize(v: Val): (r: Option<JsString>)
    ensures r.Some? <==> !v.Undef?
  {
    if v.Undef? then None else Some(Text(v))
  }

  /** What JSON can carry of a value: undefined array elements become null,
      members whose value is undefined are dropped. */
  function Normalize(v: Val): Val
    decreases v
  {
    match v
    case Undef => Null
    case Arr(items) => Arr(NormItems(v, 0))
    case Obj(fs) => Obj(NormFields(v, 0))
    case _ => v
  }

  function NormItems(v: Val, i: nat): (r: seq<Val>)
    requires v.Arr? && i <= |v.items|
    ensures |r| == |v.items| - i
    decreases v, |v.items| - i
  {
    if i == |v.items| then [] else [Normalize(v.items[i])] + NormItems(v, i + 1)
  }

  function NormFields(v: Val, i: nat): seq<(JsString, Val)>
    requires v.Obj? && i <= |v.fields|
    decreases v, |v.fields| - i
  {
    var j := NextKept(v.fields, i);
    if j == |v.fields| then []
    else [(v.fields[j].0, Normalize(v.fields[j].1))] + NormFields(v, j + 1)
  }

  /** No undefined anywhere inside the value: what JSON carries exactly. */
  predicate Defined(v: Val)
    decreases v
  {
    match v
    case Undef => false
    case Arr(items) => forall i :: 0 <= i < |items| ==> Defined(items[i])
    case Obj(fs) => forall i :: 0 <= i < |fs| ==> Defined(fs[i].1)
    case _ => true
  }

  // ---------------------------------------------------------------- reading

  /** The whitespace JSON allows between tokens. */
  predicate IsWs(c: Unit) {
    c == 0x20 || c == 0x09 || c == 0x0A || c == 0x0D
  }

  function SkipWs(s: JsString): (r: JsString)
    ensures |r| <= |s|
    ensures r == [] || !IsWs(r[0])
    ensures s != [] && !IsWs(s[0]) ==> r == s
    decreases |s|
  {
    if s != [] && IsWs(s[0]) then SkipWs(s[1..]) else s
  }

  /** The value of a hexadecimal digit of either case. */
  function HexValue(c: Unit): Option<int> {
    if 0x30 <= c <= 0x39 then Some(c as int - 0x30)
    else if 0x61 <= c <= 0x66 then Some(c as int - 0x61 + 10)
    else if 0x41 <= c <= 0x46 then Some(c as int - 0x41 + 10)
    else None
  }

  /** The code unit of four hexadecimal digits. */
  function Hex4Value(h: JsString): Option<Unit>
    requires |h| == 4
  {
    match (HexValue(h[0]), HexValue(h[1]), HexValue(h[2]), HexValue(h[3]))
    case (Some(a), Some(b), Some(c), Some(d)) =>
      assert 0 <= a < 16 && 0 <= b < 16 && 0 <= c < 16 && 0 <= d < 16 by {
        HexValueRange(h[0]);
        HexValueRange(h[1]);
        HexValueRange(h[2]);
        HexValueRange(h[3]);
      }
      Some((a * 4096 + b * 256 + c * 16 + d) as Unit)
    case _ => None
  }

  lemma {:induction false} HexValueRange(c: Unit)
    ensures HexValue(c).Some? ==> 0 <= HexValue(c).value < 16
  {
  }

  /** The character that a two-character escape `\e` stands for. */
  function Unescape(e: Unit): Option<Unit> {
    if e == Quote then Some(Quote)
    else if e == Backslash then Some(Backslash)
    else if e == 0x2F then Some(0x2F)
    else if e == 0x62 then Some(0x08)
    else if e == 0x66 then Some(0x0C)
    else if e == 0x6E then Some(0x0A)
    else if e == 0x72 then Some(0x0D)
    else if e == 0x74 then Some(0x09)
    else None
  }

  function Prepend(c: Unit, r: Option<(JsString, JsString)>): Option<(JsString, JsString)> {
    match r
    case Some((s, rest)) => Some(([c] + s, rest))
    case None => None
  }

  /** The characters of a string literal after its opening quote, up to and
      without the closing quote, and the text after that quote. A raw
      control character, a bad escape or a missing closing quote fails. */
  function ParseChars(s: JsString): (r: Option<(JsString, JsString)>)
    ensures r.Some? ==> |r.value.1| < |s|
    decreases |s|
  {
    if s == [] then None
    else if s[0] == Quote then Some(([], s[1..]))
    else if s[0] == Backslash then
      if |s| < 2 then None
      else if s[1] == 0x75 then
        if |s| < 6 then None
        else match Hex4Value(s[2..6])
          case Some(c) => Prepend(c, ParseChars(s[6..]))
          case None => None
      else match Unescape(s[1])
        case Some(c) => Prepend(c, ParseChars(s[2..]))
        case None => None
    else if s[0] < 0x20 then None
    else Prepend(s[0], ParseChars(s[1..]))
  }

  /** The length of the run of decimal digits at the start of `s`. */
  function DigitRun(s: JsString): (m: nat)
    ensures m <= |s|
    ensures forall i :: 0 <= i < m ==> IsDigit(s[i])
    ensures m < |s| ==> !IsDigit(s[m])
    decreases |s|
  {
    if s != [] && IsDigit(s[0]) then 1 + DigitRun(s[1..]) else 0
  }

  /** A number: an optional minus sign and an integer without leading zeros.
      A fraction or an exponent is not representable here and fails. */
  function ParseNumber(s: JsString): (r: Option<(Val, JsString)>)
    ensures r.Some? ==> |r.value.1| < |s|
  {
    var neg := s != [] && s[0] == Minus;
    var body := if neg then s[1..] else s;
    var m := DigitRun(body);
    if m == 0 then None
    else if body[0] == Digit0 && m > 1 then None
    else if m < |body| && (body[m] == 0x2E || body[m] == 0x65 || body[m] == 0x45) then None
    else
      var n: int := DigitsValue(body[..m]);
      Some((Num(if neg then -n else n), body[m..]))
  }

  function ParseLiteral(s: JsString): (r: Option<(Val, JsString)>)
    ensures r.Some? ==> |r.value.1| < |s|
  {
    if |s| >= 4 && s[..4] == NullText then Some((Null, s[4..]))
    else if |s| >= 4 && s[..4] == TrueText then Some((Bool(true), s[4..]))
    else if |s| >= 5 && s[..5] == FalseText then Some((Bool(false), s[5..]))
    else None
  }

  /** One value after optional whitespace, and the text after it. */
  function ParseValue(s: JsString): (r: Option<(Val, JsString)>)
    ensures r.Some? ==> |r.value.1| < |s|
    decreases |s|, 1
  {
    var t := SkipWs(s);
    if t == [] then None
    else if t[0] == LBrace then ParseObject(t[1..])
    else if t[0] == LBracket then ParseArray(t[1..])
    else if t[0] == Quote then
      match ParseChars(t[1..])
      case Some((str, rest)) => Some((Str(str), rest))
      case None => None
    else if t[0] == Minus || IsDigit(t[0]) then ParseNumber(t)
    else ParseLiteral(t)
  }

  /** An array after its opening bracket. */
  function ParseArray(s: JsString): (r: Option<(Val, JsString)>)
    ensures r.Some? ==> |r.value.1| < |s|
    decreases |s|, 3
  {
    var t := SkipWs(s);
    if t != [] && t[0] == RBracket then Some((Arr([]), t[1..]))
    else ParseElements(t, [])
  }

  /** The elements of an array from the next one on, after those in `acc`. */
  function ParseElements(s: JsString, acc: seq<Val>): (r: Option<(Val, JsString)>)
    ensures r.Some? ==> |r.value.1| < |s|
    decreases |s|, 2
  {
    match ParseValue(s)
    case None => None
    case Some((v, rest)) =>
      var u := SkipWs(rest);
      if u == [] then None
      else if u[0] == Comma then ParseElements(u[1..], acc + [v])
      else if u[0] == RBracket then Some((Arr(acc + [v]), u[1..]))
      else None
  }

  /** An object after its opening brace. */
  function ParseObject(s: JsString): (r: Option<(Val, JsString)>)
    ensures r.Some? ==> |r.value.1| < |s|
    decreases |s|, 3
  {
    var t := SkipWs(s);
    if t != [] && t[0] == RBrace then Some((Obj([]), t[1..]))
    else ParseMembers(t, Obj([]))
  }

  /** The members of an object from the next one on, each written into
      `acc` as a property assignment would (a repeated key keeps its first
      position and takes the last value). */
  function ParseMembers(s: JsString, acc: Val): (r: Option<(Val, JsString)>)
    requires acc.Obj?
    ensures r.Some? ==> |r.value.1| < |s|
    decreases |s|, 2
  {
    var t := SkipWs(s);
    if t == [] || t[0] != Quote then None
    else match ParseChars(t[1..])
      case None => None
      case Some((key, r1)) =>
        var u := SkipWs(r1);
        if u == [] || u[0] != Colon then None
        else match ParseValue(u[1..])
          case None => None
          case Some((v, r2)) =>
            var w := SkipWs(r2);
            var acc' := Put(acc, key, v);
            if w == [] then None
            else if w[0] == Comma then ParseMembers(w[1..], acc')
            else if w[0] == RBrace then Some((acc', w[1..]))
            else None
  }

  /** `JSON.parse`: one value, with nothing but whitespace after it. */
  function Parse(text: JsString): Option<Val> {
    match ParseValue(text)
    case Some((v, rest)) => if SkipWs(rest) == [] then Some(v) else None
    case None => None
  }

  // ------------------------------------------------- what JSON.parse builds

  /** A value JSON.parse can return: well-formed, without undefined. */
  predicate Parsed(v: Val) {
    WellFormed(v) && Defined(v)
  }

  /** A member added while parsing keeps the object parsed. */
  lemma {:induction false} PutParsed(acc: Val, k: JsString, x: Val)
    requires acc.Obj? && Parsed(acc) && Parsed(x)
    ensures Parsed(Put(acc, k, x))
  {
    PutWellFormed(acc, k, x);
    var i := FindKey(acc.fields, k);
    var fs' := Put(acc, k, x).fields;
    assert forall j :: 0 <= j < |fs'| ==> fs'[j].1 == (if j < |acc.fields| && j != i then acc.fields[j].1 else x);
  }

  lemma {:induction false} ParseValueParsed(s: JsString)
    ensures ParseValue(s).Some? ==> Parsed(ParseValue(s).value.0)
    decreases |s|, 1
  {
    var t := SkipWs(s);
    if t != [] {
      if t[0] == LBrace {
        ParseObjectParsed(t[1..]);
      } else if t[0] == LBracket {
        ParseArrayParsed(t[1..]);
      }
    }
  }

  lemma {:induction false} ParseArrayParsed(s: JsString)
    ensures ParseArray(s).Some? ==> Parsed(ParseArray(s).value.0)
    decreases |s|, 3
  {
    var t := SkipWs(s);
    if !(t != [] && t[0] == RBracket) {
      ParseElementsParsed(t, []);
    }
  }

  lemma {:induction false} ParseElementsParsed(s: JsString, acc: seq<Val>)
    requires forall i :: 0 <= i < |acc| ==> Parsed(acc[i])
    ensures ParseElements(s, acc).Some? ==> Parsed(ParseElements(s, acc).value.0)
    decreases |s|, 2
  {
    ParseValueParsed(s);
    match ParseValue(s)
    case None =>
    case Some((v, rest)) =>
      var u := SkipWs(rest);
      var acc' := acc + [v];
      assert forall i :: 0 <= i < |acc'| ==> acc'[i] == if i < |acc| then acc[i] else v;
      if u != [] && u[0] == Comma {
        ParseElementsParsed(u[1..], acc');
      }
  }

  lemma {:induction false} ParseObjectParsed(s: JsString)
    ensures ParseObject(s).Some? ==> Parsed(ParseObject(s).value.0)
    decreases |s|, 3
  {
    var t := SkipWs(s);
    if !(t != [] && t[0] == RBrace) {
      ParseMembersParsed(t, Obj([]));
    }
  }

  lemma {:induction false} ParseMembersParsed(s: JsString, acc: Val)
    requires acc.Obj? && Parsed(acc)
    ensures ParseMembers(s, acc).Some? ==> Parsed(ParseMembers(s, acc).value.0)
    decreases |s|, 2
  {
    var t := SkipWs(s);
    if t != [] && t[0] == Quote {
      match ParseChars(t[1..])
      case None =>
      case Some((key, r1)) =>
        var u := SkipWs(r1);
        if u != [] && u[0] == Colon {
          ParseValueParsed(u[1..]);
          match ParseValue(u[1..])
          case None =>
          case Some((v, r2)) =>
            var w := SkipWs(r2);
            PutParsed(acc, key, v);
            if w != [] && w[0] == Comma {
              ParseMembersParsed(w[1..], Put(acc, key, v));
            }
        }
    }
  }

  /** Whatever JSON.parse returns has distinct keys in every object and no
      undefined anywhere. */
  lemma {:induction false} ParseParsed(text: JsString)
    ensures Parse(text).Some? ==> Parsed(Parse(text).value)
  {
    ParseValueParsed(text);
  }
}
