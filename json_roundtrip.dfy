/** `JSON.parse(JSON.stringify(v))` gives back what JSON can carry of `v`. */
module JsonRoundTrip {
  import opened JsValue
  import opened Json

  /** What may follow a value inside JSON text written by Text. */
  predicate Delim(rest: JsString) {
    rest == [] || rest[0] == Comma || rest[0] == RBracket || rest[0] == RBrace
  }

  /** Property assignments of the entries of `E`, first to last. */
  function PutAll(acc: Val, E: seq<(JsString, Val)>): (r: Val)
    requires acc.Obj?
    ensures r.Obj?
    decreases |E|
  {
    if E == [] then acc else PutAll(Put(acc, E[0].0, E[0].1), E[1..])
  }

  lemma {:induction false} HexDigitValue(d: int)
    requires 0 <= d < 16
    ensures HexValue(HexDigit(d)) == Some(d)
  {
  }

  lemma {:induction false} Hex4Digits(c: int)
    requires 0 <= c < 0x1_0000
    ensures var q1 := c / 16; var q2 := q1 / 16;
      q2 / 16 * 4096 + q2 % 16 * 256 + q1 % 16 * 16 + c % 16 == c
  {
    var q1 := c / 16;
    var q2 := q1 / 16;
    assert c == 16 * q1 + c % 16;
    assert q1 == 16 * q2 + q1 % 16;
    assert q2 == 16 * (q2 / 16) + q2 % 16;
  }

  /** A `\u` escape reads back as the code unit it was written for. */
  lemma {:induction false} Hex4RoundTrip(c: Unit)
    ensures Hex4Value(Hex4(c)) == Some(c)
  {
    var n := c as int;
    var q1 := n / 16;
    var q2 := q1 / 16;
    HexDigitValue(q2 / 16);
    HexDigitValue(q2 % 16);
    HexDigitValue(q1 % 16);
    HexDigitValue(n % 16);
    Hex4Digits(n);
  }

  /** The text for a single code unit reads back as that code unit. */
  lemma {:induction false} EscapeOneRoundTrip(c: Unit, y: JsString)
    ensures ParseChars(EscapeOne(c) + y) == Prepend(c, ParseChars(y))
  {
    var s := EscapeOne(c) + y;
    if c == Quote || c == Backslash || c == 0x08 || c == 0x0C || c == 0x0A || c == 0x0D || c == 0x09 {
      assert s[2..] == y;
    } else if c < 0x20 || IsHigh(c) || IsLow(c) {
      assert s[2..6] == Hex4(c);
      assert s[6..] == y;
      Hex4RoundTrip(c);
    } else {
      assert s[1..] == y;
    }
  }

  /** A quoted string reads back as the string, followed by what comes after
      its closing quote. */
  lemma {:induction false} QuoteRoundTrip(s: JsString, y: JsString)
    ensures ParseChars(QuoteBody(s) + [Quote] + y) == Some((s, y))
    decreases |s|
  {
    if s == [] {
      assert QuoteBody(s) + [Quote] + y == [Quote] + y;
    } else if |s| >= 2 && IsHigh(s[0]) && IsLow(s[1]) {
      QuoteRoundTrip(s[2..], y);
      PairRoundTrip(s, y);
    } else {
      QuoteRoundTrip(s[1..], y);
      var tail := QuoteBody(s[1..]) + [Quote] + y;
      assert QuoteBody(s) + [Quote] + y == EscapeOne(s[0]) + tail;
      EscapeOneRoundTrip(s[0], tail);
      assert s == [s[0]] + s[1..];
    }
  }

  /** A surrogate pair is written as it is and read back as it is. */
  lemma {:induction false} PairRoundTrip(s: JsString, y: JsString)
    requires |s| >= 2 && IsHigh(s[0]) && IsLow(s[1])
    requires ParseChars(QuoteBody(s[2..]) + [Quote] + y) == Some((s[2..], y))
    ensures ParseChars(QuoteBody(s) + [Quote] + y) == Some((s, y))
  {
    var tail := QuoteBody(s[2..]) + [Quote] + y;
    assert QuoteBody(s) + [Quote] + y == [s[0]] + ([s[1]] + tail);
    PlainStep(s[1], tail);
    PlainStep(s[0], [s[1]] + tail);
    assert s == [s[0]] + ([s[1]] + s[2..]);
  }

  /** A character that needs no escape is read as itself. */
  lemma {:induction false} PlainStep(c: Unit, t: JsString)
    requires c >= 0x20 && c != Quote && c != Backslash
    ensures ParseChars([c] + t) == Prepend(c, ParseChars(t))
  {
    assert ([c] + t)[1..] == t;
  }

  lemma {:induction false} DigitRunOf(d: JsString, rest: JsString)
    requires forall i :: 0 <= i < |d| ==> IsDigit(d[i])
    requires rest == [] || !IsDigit(rest[0])
    ensures DigitRun(d + rest) == |d|
    decreases |d|
  {
    if d != [] {
      assert (d + rest)[1..] == d[1..] + rest;
      DigitRunOf(d[1..], rest);
    } else {
      assert d + rest == rest;
    }
  }

  lemma {:induction false} DecimalZero()
    ensures Decimal(0) == [Digit0]
  {
  }

  /** The digits of a natural number, followed by a text that does not
      start with a digit. */
  lemma {:induction false} DecimalText(m: nat, rest: JsString)
    requires rest == [] || !IsDigit(rest[0])
    ensures var d := Decimal(m); var body := d + rest;
      && DigitRun(body) == |d| && body[..|d|] == d && body[|d|..] == rest
      && (|d| < |body| ==> body[|d|] == rest[0])
      && DigitsValue(d) == m && IsDigit(body[0]) && (body[0] == Digit0 ==> |d| == 1)
  {
    var d := Decimal(m);
    var body := d + rest;
    DigitRunOf(d, rest);
    assert body[..|d|] == d;
    assert body[|d|..] == rest;
    DigitsValueOfDecimal(m);
    if d[0] == Digit0 {
      DecimalZero();
    }
  }

  /** ParseNumber on a run of digits `d` with value `m`, with a minus sign
      in front when `neg`. */
  lemma {:induction false} ParseDigits(s: JsString, body: JsString, d: JsString, rest: JsString, m: nat, neg: bool)
    requires s == (if neg then [Minus] + body else body)
    requires body == d + rest && |d| > 0 && DigitRun(body) == |d|
    requires body[..|d|] == d && body[|d|..] == rest && DigitsValue(d) == m
    requires body[0] == Digit0 ==> |d| == 1
    requires |d| < |body| ==> body[|d|] == rest[0]
    requires Delim(rest)
    ensures ParseNumber(s) == Some((Num(if neg then -(m as int) else m), rest))
  {
    assert IsDigit(body[0]);
    if neg {
      assert s[1..] == body;
    }
    UnsignedParse(body, d, rest, m, neg, s);
  }

  /** The step of ParseNumber after the sign: `body` is what follows it. */
  lemma {:induction false} UnsignedParse(body: JsString, d: JsString, rest: JsString, m: nat, neg: bool, s: JsString)
    requires s != [] && (s[0] == Minus <==> neg) && body == (if neg then s[1..] else s)
    requires |d| > 0 && DigitRun(body) == |d| && body[..|d|] == d && body[|d|..] == rest
    requires DigitsValue(d) == m && (body[0] == Digit0 ==> |d| == 1)
    requires |d| < |body| ==> body[|d|] == rest[0]
    requires Delim(rest)
    ensures ParseNumber(s) == Some((Num(if neg then -(m as int) else m), rest))
  {
    var k := DigitRun(body);
    assert body[..k] == d && body[k..] == rest;
    DelimEnds(body, k, rest);
  }

  /** A delimiter is neither a decimal point nor an exponent mark. */
  lemma {:induction false} DelimEnds(body: JsString, k: nat, rest: JsString)
    requires Delim(rest) && k <= |body| && body[k..] == rest
    ensures k < |body| ==> body[k] != 0x2E && body[k] != 0x65 && body[k] != 0x45
  {
    if k < |body| {
      assert body[k] == rest[0];
    }
  }

  /** An integer reads back as itself when a delimiter follows it. */
  lemma {:induction false} NumRoundTrip(n: int, rest: JsString)
    requires Delim(rest)
    ensures ParseNumber(NumText(n) + rest) == Some((Num(n), rest))
  {
    if n < 0 {
      var m: nat := -n;
      DecimalText(m, rest);
      SignedText(n, rest);
      ParseDigits(NumText(n) + rest, Decimal(m) + rest, Decimal(m), rest, m, true);
    } else {
      var m: nat := n;
      DecimalText(m, rest);
      SignedText(n, rest);
      ParseDigits(NumText(n) + rest, Decimal(m) + rest, Decimal(m), rest, m, false);
    }
  }

  /** The text of an integer: a minus sign for a negative one, then the
      digits of its magnitude. */
  lemma {:induction false} SignedText(n: int, rest: JsString)
    ensures n < 0 ==> NumText(n) + rest == [Minus] + (Decimal(-n) + rest)
    ensures n >= 0 ==> NumText(n) + rest == Decimal(n) + rest
  {
  }


  /** Every text starts with a character that opens a value. */
  lemma {:induction false} TextStart(v: Val)
    ensures Text(v) != []
    ensures var c := Text(v)[0];
      !IsWs(c) && c != Comma && c != RBracket && c != RBrace && c != Colon
  {
    match v
    case Num(n) =>
      var m: nat := if n < 0 then -n else n;
      assert IsDigit(Decimal(m)[0]);
    case _ =>
  }

  /** How ParseValue dispatches on the first character. */
  lemma {:induction false} ValueAt(s: JsString)
    requires s != [] && !IsWs(s[0])
    ensures s[0] == LBrace ==> ParseValue(s) == ParseObject(s[1..])
    ensures s[0] == LBracket ==> ParseValue(s) == ParseArray(s[1..])
    ensures s[0] == Quote && ParseChars(s[1..]).Some? ==>
      ParseValue(s) == Some((Str(ParseChars(s[1..]).value.0), ParseChars(s[1..]).value.1))
    ensures s[0] == Minus || IsDigit(s[0]) ==> ParseValue(s) == ParseNumber(s)
    ensures s[0] != LBrace && s[0] != LBracket && s[0] != Quote && s[0] != Minus && !IsDigit(s[0]) ==>
      ParseValue(s) == ParseLiteral(s)
  {
  }

  /** One array element and what follows it. */
  lemma {:induction false} ElementsStep(s: JsString, acc: seq<Val>, x: Val, after: JsString)
    requires ParseValue(s) == Some((x, after)) && after != [] && !IsWs(after[0])
    ensures after[0] == Comma ==> ParseElements(s, acc) == ParseElements(after[1..], acc + [x])
    ensures after[0] == RBracket ==> ParseElements(s, acc) == Some((Arr(acc + [x]), after[1..]))
  {
  }

  /** One object member and what follows it. */
  lemma {:induction false} MembersStep(s: JsString, acc: Val, k: JsString, t: JsString, x: Val, after: JsString)
    requires acc.Obj?
    requires s == [Quote] + (QuoteBody(k) + [Quote] + ([Colon] + t))
    requires ParseValue(t) == Some((x, after)) && after != [] && !IsWs(after[0])
    ensures after[0] == Comma ==> ParseMembers(s, acc) == ParseMembers(after[1..], Put(acc, k, x))
    ensures after[0] == RBrace ==> ParseMembers(s, acc) == Some((Put(acc, k, x), after[1..]))
  {
    assert s[1..] == QuoteBody(k) + [Quote] + ([Colon] + t);
    QuoteRoundTrip(k, [Colon] + t);
    var u := [Colon] + t;
    assert u[1..] == t;
  }

  /** Values, arrays and objects written by Text read back as their
      normalised form, with the rest of the text left over. */
  lemma {:induction false} ValueRoundTrip(v: Val, rest: JsString)
    requires WellFormed(v) && Delim(rest)
    ensures ParseValue(Text(v) + rest) == Some((Normalize(v), rest))
    decreases v
  {
    if v.Arr? {
      ArrayRoundTrip(v, rest);
    } else if v.Obj? {
      ObjectRoundTrip(v, rest);
    } else {
      ScalarRoundTrip(v, rest);
    }
  }

  lemma {:induction false} ScalarRoundTrip(v: Val, rest: JsString)
    requires !v.Arr? && !v.Obj? && Delim(rest)
    ensures ParseValue(Text(v) + rest) == Some((Normalize(v), rest))
  {
    var s := Text(v) + rest;
    TextStart(v);
    ValueAt(s);
    match v
    case Undef =>
      assert s[..4] == NullText;
    case Null =>
      assert s[..4] == NullText;
    case Bool(b) =>
      if b {
        assert s[..4] == TrueText;
      } else {
        assert s[..5] == FalseText;
      }
    case Num(n) =>
      NumRoundTrip(n, rest);
    case Str(str) =>
      assert s[1..] == QuoteBody(str) + [Quote] + rest;
      QuoteRoundTrip(str, rest);
  }

  lemma {:induction false} ArrayRoundTrip(v: Val, rest: JsString)
    requires v.Arr? && WellFormed(v) && Delim(rest)
    ensures ParseValue(Text(v) + rest) == Some((Normalize(v), rest))
    decreases v, |v.items| + 2
  {
    if v.items == [] {
      EmptyArrayRoundTrip(v, rest);
    } else {
      ItemsRoundTrip(v, rest);
    }
  }

  /** A non-empty array: the bracket, then its elements as ParseElements
      reads them. */
  lemma {:induction false} ItemsRoundTrip(v: Val, rest: JsString)
    requires v.Arr? && v.items != [] && WellFormed(v) && Delim(rest)
    ensures ParseValue(Text(v) + rest) == Some((Normalize(v), rest))
    decreases v, |v.items| + 1
  {
    ItemsOpen(v, rest);
    ElementsFirst(v, rest);
    ArrayNorm(v);
  }

  /** The elements of a non-empty array, read from the first one on. */
  lemma {:induction false} ElementsFirst(v: Val, rest: JsString)
    requires v.Arr? && v.items != [] && WellFormed(v) && Delim(rest)
    ensures ParseElements(Text(v.items[0]) + ItemsTail(v, 1) + [RBracket] + rest, []) == Some((Arr(NormItems(v, 0)), rest))
    decreases v, |v.items|, 2
  {
    var none: seq<Val> := [];
    ElementsRoundTrip(v, 0, none, rest);
    assert none + NormItems(v, 0) == NormItems(v, 0);
  }

  /** The opening bracket of a non-empty array hands its elements to
      ParseElements. */
  lemma {:induction false} ItemsOpen(v: Val, rest: JsString)
    requires v.Arr? && v.items != []
    ensures ParseValue(Text(v) + rest) == ParseElements(Text(v.items[0]) + ItemsTail(v, 1) + [RBracket] + rest, [])
  {
    var head := Text(v.items[0]);
    var t := head + (ItemsTail(v, 1) + [RBracket] + rest);
    ArrayText(v, rest);
    TextStart(v.items[0]);
    assert t[0] == head[0];
    BracketsOpen(t);
  }

  lemma {:induction false} ArrayNorm(v: Val)
    requires v.Arr?
    ensures Normalize(v) == Arr(NormItems(v, 0))
  {
  }

  lemma {:induction false} EmptyArrayRoundTrip(v: Val, rest: JsString)
    requires v == Arr([])
    ensures ParseValue(Text(v) + rest) == Some((Normalize(v), rest))
  {
    ArrayText(v, rest);
    BracketsOpen([RBracket] + rest);
  }

  /** The text of an array, regrouped as its bracket and what follows, and
      its normal form. */
  lemma {:induction false} ArrayText(v: Val, rest: JsString)
    requires v.Arr?
    ensures v.items == [] ==>
      (Text(v) + rest == [LBracket] + ([RBracket] + rest)
       && ([RBracket] + rest)[1..] == rest && Normalize(v) == Arr([]))
    ensures v.items != [] ==>
      (var t := Text(v.items[0]) + ItemsTail(v, 1) + [RBracket] + rest;
       Text(v) + rest == [LBracket] + t
       && t == Text(v.items[0]) + (ItemsTail(v, 1) + [RBracket] + rest))
    ensures Normalize(v) == Arr([] + NormItems(v, 0))
  {
    if v.items != [] {
      Lead(LBracket, Text(v.items[0]), ItemsTail(v, 1), RBracket, rest);
    }
    assert [] + NormItems(v, 0) == NormItems(v, 0);
  }

  /** A text that opens with a bracket is parsed as an array: empty when a
      closing bracket follows, otherwise its elements from the first on. */
  lemma {:induction false} BracketsOpen(t: JsString)
    requires t != [] && !IsWs(t[0])
    ensures t[0] == RBracket ==> ParseValue([LBracket] + t) == Some((Arr([]), t[1..]))
    ensures t[0] != RBracket ==> ParseValue([LBracket] + t) == ParseElements(t, [])
  {
    assert ([LBracket] + t)[1..] == t;
  }


  lemma {:induction false} ObjectRoundTrip(v: Val, rest: JsString)
    requires v.Obj? && WellFormed(v) && Delim(rest)
    ensures ParseValue(Text(v) + rest) == Some((Normalize(v), rest))
    decreases v, |v.fields| + 1
  {
    var s := Text(v) + rest;
    assert ParseValue(s) == ParseObject(s[1..]) by {
      TextStart(v);
      ValueAt(s);
    }
    var j := NextKept(v.fields, 0);
    KeptFields(v, 0);
    if j == |v.fields| {
      assert s[1..] == [RBrace] + rest;
    } else {
      var head := Member(v, j);
      var tail := MembersTail(v, j + 1);
      var inner := head + tail + [RBrace] + rest;
      assert s[1..] == inner by {
        Lead(LBrace, head, tail, RBrace, rest);
      }
      assert ParseObject(inner) == ParseMembers(inner, Obj([])) by {
        ObjectStart(inner);
      }
      assert ParseMembers(inner, Obj([])) == Some((PutAll(Obj([]), NormFields(v, j)), rest)) by {
        MembersRoundTrip(v, j, Obj([]), rest);
      }
      assert PutAll(Obj([]), NormFields(v, j)) == Normalize(v) by {
        NormObject(v);
      }
    }
  }

  /** An object whose first member follows its opening brace. */
  lemma {:induction false} ObjectStart(s: JsString)
    requires s != [] && s[0] == Quote
    ensures ParseObject(s) == ParseMembers(s, Obj([]))
  {
  }

  /** Assigning the normalised members into `{}` builds the normal form. */
  lemma {:induction false} NormObject(v: Val)
    requires v.Obj? && DistinctKeys(v.fields)
    ensures PutAll(Obj([]), NormFields(v, 0)) == Normalize(v)
  {
    NormFieldsDistinct(v, 0);
    PutAllFresh([], NormFields(v, 0));
    assert [] + NormFields(v, 0) == NormFields(v, 0);
  }

  /** Regrouping a text that opens with one character and closes with another. */
  lemma {:induction false} Lead(o: Unit, a: JsString, b: JsString, c: Unit, r: JsString)
    ensures [o] + a + b + [c] + r == [o] + (a + b + [c] + r)
    ensures ([o] + a + b + [c] + r)[0] == o
    ensures ([o] + a + b + [c] + r)[1..] == a + b + [c] + r
    ensures a + b + [c] + r == a + (b + [c] + r)
  {
  }

  /** A key, a colon and a value, regrouped as ParseMembers reads them. */
  lemma {:induction false} MemberRegroup(qb: JsString, t: JsString, after: JsString)
    ensures [Quote] + qb + [Quote] + [Colon] + t + after
         == [Quote] + (qb + [Quote] + ([Colon] + (t + after)))
  {
  }

  /** The elements of an array from index `i` on, after the elements `acc`
      already read. */
  lemma {:induction false} ElementsRoundTrip(v: Val, i: nat, acc: seq<Val>, rest: JsString)
    requires v.Arr? && WellFormed(v) && i < |v.items| && Delim(rest)
    ensures ParseElements(Text(v.items[i]) + ItemsTail(v, i + 1) + [RBracket] + rest, acc)
         == Some((Arr(acc + NormItems(v, i)), rest))
    decreases v, |v.items| - i, 1
  {
    var head := Text(v.items[i]);
    var tail := ItemsTail(v, i + 1);
    var after := tail + [RBracket] + rest;
    assert Delim(after) by {
      if i + 1 < |v.items| {
        assert after[0] == Comma;
      }
    }
    ValueRoundTrip(v.items[i], after);
    if i + 1 == |v.items| {
      ElementsLast(v, i, acc, rest);
    } else {
      ElementsNext(v, i, acc, rest);
    }
  }

  /** The last element, then the closing bracket. */
  lemma {:induction false} ElementsLast(v: Val, i: nat, acc: seq<Val>, rest: JsString)
    requires v.Arr? && i + 1 == |v.items|
    requires var after := ItemsTail(v, i + 1) + [RBracket] + rest;
      ParseValue(Text(v.items[i]) + after) == Some((Normalize(v.items[i]), after))
    ensures ParseElements(Text(v.items[i]) + ItemsTail(v, i + 1) + [RBracket] + rest, acc)
         == Some((Arr(acc + NormItems(v, i)), rest))
  {
    var head := Text(v.items[i]);
    var tail := ItemsTail(v, i + 1);
    var after := tail + [RBracket] + rest;
    var x := Normalize(v.items[i]);
    Lead(Comma, head, tail, RBracket, rest);
    assert after == [RBracket] + rest;
    ElementsStep(head + after, acc, x, after);
    assert after[1..] == rest;
    assert NormItems(v, i) == [x];
  }

  /** An element followed by a comma and further elements. */
  lemma {:induction false} ElementsNext(v: Val, i: nat, acc: seq<Val>, rest: JsString)
    requires v.Arr? && WellFormed(v) && i + 1 < |v.items| && Delim(rest)
    requires var after := ItemsTail(v, i + 1) + [RBracket] + rest;
      ParseValue(Text(v.items[i]) + after) == Some((Normalize(v.items[i]), after))
    ensures ParseElements(Text(v.items[i]) + ItemsTail(v, i + 1) + [RBracket] + rest, acc)
         == Some((Arr(acc + NormItems(v, i)), rest))
    decreases v, |v.items| - i, 0
  {
    var head := Text(v.items[i]);
    var tail := ItemsTail(v, i + 1);
    var after := tail + [RBracket] + rest;
    var x := Normalize(v.items[i]);
    var head' := Text(v.items[i + 1]);
    var tail' := ItemsTail(v, i + 2);
    Lead(Comma, head', tail', RBracket, rest);
    assert after == [Comma] + (head' + tail' + [RBracket] + rest);
    Lead(Comma, head, tail, RBracket, rest);
    ElementsStep(head + after, acc, x, after);
    ElementsRoundTrip(v, i + 1, acc + [x], rest);
    assert (acc + [x]) + NormItems(v, i + 1) == acc + NormItems(v, i);
  }

  /** Reading the member at the kept position `j` into `acc`, then the rest. */
  lemma {:induction false} PutAllStep(v: Val, j: nat, acc: Val)
    requires v.Obj? && j < |v.fields| && !v.fields[j].1.Undef? && acc.Obj?
    ensures PutAll(acc, NormFields(v, j))
         == PutAll(Put(acc, v.fields[j].0, Normalize(v.fields[j].1)), NormFields(v, j + 1))
  {
    KeptFields(v, j);
  }

  /** The members of an object from the kept position `j` on, assigned
      into the object `acc` read so far. */
  lemma {:induction false} MembersRoundTrip(v: Val, j: nat, acc: Val, rest: JsString)
    requires v.Obj? && WellFormed(v) && j < |v.fields| && !v.fields[j].1.Undef? && acc.Obj? && Delim(rest)
    ensures ParseMembers(Member(v, j) + MembersTail(v, j + 1) + [RBrace] + rest, acc)
         == Some((PutAll(acc, NormFields(v, j)), rest))
    decreases v, |v.fields| - j, 1
  {
    var val := v.fields[j].1;
    var after := MembersTail(v, j + 1) + [RBrace] + rest;
    assert WellFormed(val);
    if NextKept(v.fields, j + 1) < |v.fields| {
      var j' := NextKept(v.fields, j + 1);
      Lead(Comma, Member(v, j'), MembersTail(v, j' + 1), RBrace, rest);
    }
    ValueRoundTrip(val, after);
    MembersOne(v, j, acc, rest);
  }

  /** One member, then the closing brace or a comma and the next member. */
  lemma {:induction false} MembersOne(v: Val, j: nat, acc: Val, rest: JsString)
    requires v.Obj? && WellFormed(v) && j < |v.fields| && !v.fields[j].1.Undef? && acc.Obj? && Delim(rest)
    requires var after := MembersTail(v, j + 1) + [RBrace] + rest;
      ParseValue(Text(v.fields[j].1) + after) == Some((Normalize(v.fields[j].1), after))
    ensures ParseMembers(Member(v, j) + MembersTail(v, j + 1) + [RBrace] + rest, acc)
         == Some((PutAll(acc, NormFields(v, j)), rest))
    decreases v, |v.fields| - j, 0
  {
    var k := v.fields[j].0;
    var head := Member(v, j);
    var tail := MembersTail(v, j + 1);
    var t := Text(v.fields[j].1);
    var after := tail + [RBrace] + rest;
    var x := Normalize(v.fields[j].1);
    Lead(Comma, head, tail, RBrace, rest);
    MemberRegroup(QuoteBody(k), t, after);
    MembersStep(head + after, acc, k, t + after, x, after);
    PutAllStep(v, j, acc);
    var j' := NextKept(v.fields, j + 1);
    if j' == |v.fields| {
      KeptFields(v, j + 1);
      assert after == [RBrace] + rest;
      assert after[1..] == rest;
    } else {
      MembersNext(v, j, j', Put(acc, k, x), rest);
    }
  }

  /** A comma and the members from the next kept position `j'` on. */
  lemma {:induction false} MembersNext(v: Val, j: nat, j': nat, acc: Val, rest: JsString)
    requires v.Obj? && WellFormed(v) && j < |v.fields| && acc.Obj? && Delim(rest)
    requires j' == NextKept(v.fields, j + 1) < |v.fields|
    ensures var after := MembersTail(v, j + 1) + [RBrace] + rest;
      after != [] && after[0] == Comma &&
      ParseMembers(after[1..], acc) == Some((PutAll(acc, NormFields(v, j + 1)), rest))
    decreases v, |v.fields| - j', 2
  {
    var m := Member(v, j');
    var tail := MembersTail(v, j' + 1);
    var next := m + tail + [RBrace] + rest;
    assert MembersTail(v, j + 1) == [Comma] + m + tail;
    Lead(Comma, m, tail, RBrace, rest);
    var after := MembersTail(v, j + 1) + [RBrace] + rest;
    assert after == [Comma] + next;
    assert after[1..] == next;
    KeptFields(v, j + 1);
    MembersRoundTrip(v, j', acc, rest);
  }

  /** From a kept position, the normalised members start with that member;
      from any position, they start at the next kept one. */
  lemma {:induction false} KeptFields(v: Val, i: nat)
    requires v.Obj? && i <= |v.fields|
    ensures NormFields(v, i) == NormFields(v, NextKept(v.fields, i))
    ensures i < |v.fields| && !v.fields[i].1.Undef? ==>
      NormFields(v, i) == [(v.fields[i].0, Normalize(v.fields[i].1))] + NormFields(v, i + 1)
  {
    var j := NextKept(v.fields, i);
    assert NextKept(v.fields, j) == j;
  }

  /** The normalised members keep a subsequence of the keys, so no key
      repeats. */
  lemma {:induction false} NormFieldsDistinct(v: Val, i: nat)
    requires v.Obj? && DistinctKeys(v.fields) && i <= |v.fields|
    ensures DistinctKeys(NormFields(v, i))
    ensures forall p :: 0 <= p < |NormFields(v, i)| ==>
      exists m :: i <= m < |v.fields| && v.fields[m].0 == NormFields(v, i)[p].0
    decreases |v.fields| - i
  {
    var j := NextKept(v.fields, i);
    if j < |v.fields| {
      NormFieldsDistinct(v, j + 1);
      var tail := NormFields(v, j + 1);
      var N := NormFields(v, i);
      assert N == [(v.fields[j].0, Normalize(v.fields[j].1))] + tail;
      forall p | 0 <= p < |N|
        ensures exists m :: i <= m < |v.fields| && v.fields[m].0 == N[p].0
      {
        if p == 0 {
          assert v.fields[j].0 == N[0].0;
        } else {
          assert N[p] == tail[p - 1];
          var m :| j + 1 <= m < |v.fields| && v.fields[m].0 == tail[p - 1].0;
          assert v.fields[m].0 == N[p].0;
        }
      }
      forall p, q | 0 <= p < q < |N|
        ensures N[p].0 != N[q].0
      {
        assert N[q] == tail[q - 1];
        if p > 0 {
          assert N[p] == tail[p - 1];
        } else {
          var m :| j + 1 <= m < |v.fields| && v.fields[m].0 == tail[q - 1].0;
          assert v.fields[j].0 != v.fields[m].0;
        }
      }
    }
  }

  /** Assigning keys that are new, in order, appends them. */
  lemma {:induction false} PutAllFresh(A: seq<(JsString, Val)>, E: seq<(JsString, Val)>)
    requires DistinctKeys(A + E)
    ensures PutAll(Obj(A), E) == Obj(A + E)
    decreases |E|
  {
    if E != [] {
      var k := E[0].0;
      assert forall m :: 0 <= m < |A| ==> A[m].0 == (A + E)[m].0;
      assert (A + E)[|A|] == E[0];
      FindKeyAbsent(A, k);
      assert Put(Obj(A), k, E[0].1) == Obj(A + [E[0]]);
      assert (A + [E[0]]) + E[1..] == A + E;
      PutAllFresh(A + [E[0]], E[1..]);
    }
  }

  /** `JSON.parse(JSON.stringify(v))` is the normalised `v` for every value
      whose objects have distinct keys; there is no text for undefined. */
  lemma {:induction false} ParseSerialize(v: Val)
    requires WellFormed(v) && !v.Undef?
    ensures Parse(Serialize(v).value) == Some(Normalize(v))
  {
    ValueRoundTrip(v, []);
    assert Text(v) + [] == Text(v);
  }

  /** A value without undefined anywhere is its own normal form, so JSON
      carries it exactly. */
  lemma {:induction false} NormalizeDefined(v: Val)
    requires Defined(v)
    ensures Normalize(v) == v
    decreases v
  {
    match v
    case Arr(items) => NormItemsDefined(v, 0);
    case Obj(fs) => NormFieldsDefined(v, 0);
    case _ =>
  }

  lemma {:induction false} NormItemsDefined(v: Val, i: nat)
    requires v.Arr? && Defined(v) && i <= |v.items|
    ensures NormItems(v, i) == v.items[i..]
    decreases v, |v.items| - i
  {
    if i < |v.items| {
      NormalizeDefined(v.items[i]);
      NormItemsDefined(v, i + 1);
      assert v.items[i..] == [v.items[i]] + v.items[i + 1..];
    }
  }

  lemma {:induction false} NormFieldsDefined(v: Val, i: nat)
    requires v.Obj? && Defined(v) && i <= |v.fields|
    ensures NormFields(v, i) == v.fields[i..]
    decreases v, |v.fields| - i
  {
    if i < |v.fields| {
      assert NextKept(v.fields, i) == i;
      NormalizeDefined(v.fields[i].1);
      NormFieldsDefined(v, i + 1);
      assert v.fields[i..] == [v.fields[i]] + v.fields[i + 1..];
    }
  }
}
