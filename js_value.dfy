/** The JavaScript values the form engine stores, and the property access
    (`obj[key]` read and write) it is built on. */
module JsValue {

  datatype Option<+T> = None | Some(value: T)

  /** One UTF-16 code unit: a JavaScript string is a sequence of these. */
  newtype Unit = x: int | 0 <= x < 0x1_0000

  type JsString = seq<Unit>

  /** A JavaScript value as far as the form engine can observe it. Numbers are
      integers; objects are association lists in key insertion order. */
  datatype Val =
    | Undef
    | Null
    | Bool(b: bool)
    | Num(n: int)
    | Str(s: JsString)
    | Arr(items: seq<Val>)
    | Obj(fields: seq<(JsString, Val)>)

  /** `typeof val === 'object' && val !== null`: true for arrays too. */
  predicate IsObject(v: Val) {
    v.Arr? || v.Obj?
  }

  const Digit0: Unit := 0x30

  predicate IsDigit(c: Unit) {
    0x30 <= c <= 0x39
  }

  /** The canonical decimal text of a natural number. */
  function Decimal(n: nat): (r: JsString)
    ensures |r| > 0 && forall i :: 0 <= i < |r| ==> IsDigit(r[i])
    ensures r[0] == Digit0 ==> n == 0
  {
    if n < 10 then [(0x30 + n) as Unit] else Decimal(n / 10) + [(0x30 + n % 10) as Unit]
  }

  /** The value of a string of decimal digits. */
  function DigitsValue(s: JsString): nat
    requires forall i :: 0 <= i < |s| ==> IsDigit(s[i])
  {
    if s == [] then 0
    else
      var last := s[|s| - 1];
      assert IsDigit(last);
      DigitsValue(s[..|s| - 1]) * 10 + (last as int - 0x30)
  }

  /** Reads a canonical decimal (no sign, no leading zero unless the text is "0"). */
  function ParseDecimal(s: JsString): Option<nat> {
    if s != [] && (forall i :: 0 <= i < |s| ==> IsDigit(s[i])) && (s[0] == Digit0 ==> |s| == 1)
    then Some(DigitsValue(s))
    else None
  }

  lemma {:induction false} DigitsValueOfDecimal(n: nat)
    ensures DigitsValue(Decimal(n)) == n
  {
    if n >= 10 {
      var d := Decimal(n / 10);
      assert Decimal(n) == d + [(0x30 + n % 10) as Unit];
      assert Decimal(n)[..|Decimal(n)| - 1] == d;
      DigitsValueOfDecimal(n / 10);
    }
  }

  lemma {:induction false} DecimalOfDigitsValue(s: JsString)
    requires s != [] && forall i :: 0 <= i < |s| ==> IsDigit(s[i])
    requires s[0] == Digit0 ==> |s| == 1
    ensures Decimal(DigitsValue(s)) == s
  {
    var init := s[..|s| - 1];
    if init == [] {
    } else {
      DecimalOfDigitsValue(init);
      DigitsNonZero(init);
      assert s == init + [s[|s| - 1]];
    }
  }

  lemma {:induction false} DigitsNonZero(s: JsString)
    requires s != [] && forall i :: 0 <= i < |s| ==> IsDigit(s[i])
    requires s[0] != Digit0
    ensures DigitsValue(s) > 0
  {
    if |s| > 1 {
      DigitsNonZero(s[..|s| - 1]);
    }
  }

  /** Decimal text and ParseDecimal are inverse bijections between naturals
      and canonical digit strings. */
  lemma {:induction false} DecimalRoundTrip(n: nat, s: JsString)
    ensures ParseDecimal(Decimal(n)) == Some(n)
    ensures ParseDecimal(s) == Some(n) <==> s == Decimal(n)
  {
    DigitsValueOfDecimal(n);
    if ParseDecimal(s).Some? {
      DecimalOfDigitsValue(s);
    }
  }

  /** The array index that a property key names, if it names one: a
      canonical decimal below 2^32 - 1. */
  function ArrayIndex(k: JsString): Option<nat> {
    match ParseDecimal(k)
    case Some(i) => if i < 0xFFFF_FFFF then Some(i) else None
    case None => None
  }

  /** The key under which an array stores element `i`. */
  function IndexKey(i: nat): JsString {
    Decimal(i)
  }

  lemma {:induction false} IndexKeyIndex(i: nat)
    requires i < 0xFFFF_FFFF
    ensures ArrayIndex(IndexKey(i)) == Some(i)
  {
    DecimalRoundTrip(i, IndexKey(i));
  }

  lemma {:induction false} IndexKeyInjective(k: JsString, i: nat)
    ensures ArrayIndex(k) == Some(i) ==> k == IndexKey(i)
  {
    DecimalRoundTrip(i, k);
  }

  /** The position of the first entry with key `k`, or |fs| when there is none. */
  function FindKey(fs: seq<(JsString, Val)>, k: JsString): (i: nat)
    ensures i <= |fs|
    ensures i < |fs| ==> fs[i].0 == k
    ensures forall j :: 0 <= j < i ==> fs[j].0 != k
  {
    if fs == [] then 0 else if fs[0].0 == k then 0 else 1 + FindKey(fs[1..], k)
  }

  /** No key occurs twice, as in every JavaScript object. */
  predicate DistinctKeys(fs: seq<(JsString, Val)>) {
    forall i, j :: 0 <= i < j < |fs| ==> fs[i].0 != fs[j].0
  }

  /** Every object inside the value, itself included, has distinct keys:
      true of every value JavaScript can build. */
  predicate WellFormed(v: Val)
    decreases v
  {
    match v
    case Arr(items) => forall i :: 0 <= i < |items| ==> WellFormed(items[i])
    case Obj(fs) => DistinctKeys(fs) && forall i :: 0 <= i < |fs| ==> WellFormed(fs[i].1)
    case _ => true
  }

  function KeysOf(fs: seq<(JsString, Val)>): seq<JsString> {
    seq(|fs|, i requires 0 <= i < |fs| => fs[i].0)
  }

  /** `obj[key]` on an object: undefined for a missing key or an index past the end. */
  function Get(v: Val, k: JsString): (r: Val)
    requires IsObject(v)
  {
    match v
    case Obj(fs) =>
      var i := FindKey(fs, k);
      if i < |fs| then fs[i].1 else Undef
    case Arr(items) =>
      match ArrayIndex(k)
      case Some(i) => if i < |items| then items[i] else Undef
      case None => Undef
  }

  /** `obj[key] = x` on an object: an existing key keeps its place, a new key
      goes last; an array index past the end extends the array with holes
      (read back as undefined). A key that is not an index leaves an array
      unchanged: named array properties are not part of this model. */
  function Put(v: Val, k: JsString, x: Val): (r: Val)
    requires IsObject(v)
    ensures r.Obj? == v.Obj? && r.Arr? == v.Arr?
  {
    match v
    case Obj(fs) =>
      var i := FindKey(fs, k);
      if i < |fs| then Obj(fs[i := (k, x)]) else Obj(fs + [(k, x)])
    case Arr(items) =>
      match ArrayIndex(k)
      case Some(i) =>
        if i < |items| then Arr(items[i := x])
        else Arr(items + seq(i - |items|, _ => Undef) + [x])
      case None => v
  }

  /** Whether `obj[key] = x` is representable: always for objects, only for
      index keys on arrays. */
  predicate Writable(v: Val, k: JsString)
    requires IsObject(v)
  {
    v.Obj? || ArrayIndex(k).Some?
  }

  /** Whether `key` is an own property of `v`. */
  predicate Has(v: Val, k: JsString)
    requires IsObject(v)
  {
    match v
    case Obj(fs) => FindKey(fs, k) < |fs|
    case Arr(items) => ArrayIndex(k).Some? && ArrayIndex(k).value < |items|
  }

  /** A write is read back under the same key, and is invisible under every
      other key; the written key is present afterwards and no key goes away. */
  lemma {:induction false} PutGet(v: Val, k: JsString, x: Val, k': JsString)
    requires IsObject(v) && Writable(v, k)
    ensures Get(Put(v, k, x), k') == if k' == k then x else Get(v, k')
    ensures Has(Put(v, k, x), k)
    ensures Has(v, k') ==> Has(Put(v, k, x), k')
  {
    if v.Obj? {
      ObjPutGet(v.fields, k, x, k');
    } else {
      ArrPutGet(v.items, k, x, k');
    }
  }

  lemma {:induction false} ObjPutGet(fs: seq<(JsString, Val)>, k: JsString, x: Val, k': JsString)
    ensures var w := Put(Obj(fs), k, x);
      && Get(w, k') == (if k' == k then x else Get(Obj(fs), k'))
      && Has(w, k) && (Has(Obj(fs), k') ==> Has(w, k'))
  {
    var i := FindKey(fs, k);
    var fs' := if i < |fs| then fs[i := (k, x)] else fs + [(k, x)];
    assert Put(Obj(fs), k, x) == Obj(fs');
    PutFieldsAt(fs, k, x);
    FindKeyAt(fs', k, i);
    if k' != k {
      OtherKey(fs, fs', k');
    }
  }

  /** The fields after a write: the written key at its first position (or
      last, when new), every other position as before. */
  lemma {:induction false} PutFieldsAt(fs: seq<(JsString, Val)>, k: JsString, x: Val)
    ensures var i := FindKey(fs, k);
      var fs' := Put(Obj(fs), k, x).fields;
      && |fs'| == (if i < |fs| then |fs| else |fs| + 1)
      && fs'[i] == (k, x)
      && (forall j :: 0 <= j < |fs| && j != i ==> fs'[j] == fs[j])
  {
  }

  /** A key other than the written one is found where it was, or is still
      missing. */
  lemma {:induction false} OtherKey(fs: seq<(JsString, Val)>, fs': seq<(JsString, Val)>, k': JsString)
    requires |fs| <= |fs'|
    requires forall j :: 0 <= j < |fs| && fs[j].0 == k' ==> fs'[j] == fs[j]
    requires forall j :: 0 <= j < |fs| && fs[j].0 != k' ==> fs'[j].0 != k'
    requires forall j :: |fs| <= j < |fs'| ==> fs'[j].0 != k'
    ensures FindKey(fs, k') < |fs| ==> FindKey(fs', k') == FindKey(fs, k')
    ensures FindKey(fs, k') == |fs| ==> FindKey(fs', k') == |fs'|
  {
    var a := FindKey(fs, k');
    if a < |fs| {
      FindKeyAt(fs', k', a);
    } else {
      FindKeyAbsent(fs', k');
    }
  }

  lemma {:induction false} FindKeyAt(fs: seq<(JsString, Val)>, k: JsString, i: nat)
    requires i < |fs| && fs[i].0 == k
    requires forall j :: 0 <= j < i ==> fs[j].0 != k
    ensures FindKey(fs, k) == i
  {
  }

  lemma {:induction false} FindKeyAbsent(fs: seq<(JsString, Val)>, k: JsString)
    requires forall j :: 0 <= j < |fs| ==> fs[j].0 != k
    ensures FindKey(fs, k) == |fs|
  {
  }

  lemma {:induction false} ArrPutGet(items: seq<Val>, k: JsString, x: Val, k': JsString)
    requires ArrayIndex(k).Some?
    ensures var w := Put(Arr(items), k, x);
      && Get(w, k') == (if k' == k then x else Get(Arr(items), k'))
      && Has(w, k) && (Has(Arr(items), k') ==> Has(w, k'))
  {
    var i := ArrayIndex(k).value;
    IndexKeyInjective(k, i);
    if ArrayIndex(k').Some? {
      IndexKeyInjective(k', ArrayIndex(k').value);
    }
  }

  /** Writing back the value a key already holds changes nothing. */
  lemma {:induction false} PutSame(v: Val, k: JsString)
    requires IsObject(v) && Has(v, k)
    ensures Put(v, k, Get(v, k)) == v
  {
    if v.Obj? {
      var i := FindKey(v.fields, k);
      assert v.fields[i := (k, v.fields[i].1)] == v.fields;
    } else {
      var i := ArrayIndex(k).value;
      assert v.items[i := v.items[i]] == v.items;
    }
  }

  /** Every value of the (key, value) pairs is well-formed. */
  predicate ValuesWellFormed(L: seq<(JsString, Val)>) {
    forall j :: 0 <= j < |L| ==> WellFormed(L[j].1)
  }

  lemma {:induction false} ValuesWellFormedAppend(A: seq<(JsString, Val)>, B: seq<(JsString, Val)>)
    requires ValuesWellFormed(A) && ValuesWellFormed(B)
    ensures ValuesWellFormed(A + B)
  {
    assert forall j :: 0 <= j < |A + B| ==> (A + B)[j] == if j < |A| then A[j] else B[j - |A|];
  }

  /** What a property read finds inside a well-formed value is well-formed. */
  lemma {:induction false} GetWellFormed(v: Val, k: JsString)
    requires IsObject(v) && WellFormed(v)
    ensures WellFormed(Get(v, k))
  {
  }

  /** A property write keeps a value well-formed: an existing key is
      overwritten in place and a new key goes last, so no key repeats. */
  lemma {:induction false} PutWellFormed(v: Val, k: JsString, x: Val)
    requires IsObject(v) && WellFormed(v) && WellFormed(x)
    ensures WellFormed(Put(v, k, x))
  {
    match v
    case Obj(fs) =>
      var i := FindKey(fs, k);
      var fs' := Put(v, k, x).fields;
      assert forall j :: 0 <= j < |fs'| ==> fs'[j] == (if j < |fs| && j != i then fs[j] else (k, x));
    case Arr(items) =>
      match ArrayIndex(k)
      case Some(i) =>
        var items' := Put(v, k, x).items;
        assert forall j :: 0 <= j < |items'| ==> items'[j] == (if j < |items| && j != i then items[j] else if j == i then x else Undef);
      case None =>
  }
}
