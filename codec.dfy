/** The cache codec: `xor` with the secret, then Base64 over the JSON text. */
module Codec {
  import opened JsValue
  import opened Json
  import opened JsonRoundTrip
  import opened Base64

  function Pow2(n: nat): (r: nat)
    ensures r >= 1
  {
    if n == 0 then 1 else 2 * Pow2(n - 1)
  }

  lemma {:induction false} Pow2Unit()
    ensures Pow2(8) == 0x100 && Pow2(16) == 0x1_0000
  {
    assert Pow2(4) == 16;
    assert Pow2(8) == 0x100;
    assert Pow2(12) == 0x1000;
  }

  /** The exclusive or of the low `w` bits of `a` and `b`, lowest bit first. */
  function BitXor(a: nat, b: nat, w: nat): (r: nat)
    ensures r < Pow2(w)
    decreases w
  {
    if w == 0 then 0 else (if a % 2 == b % 2 then 0 else 1) + 2 * BitXor(a / 2, b / 2, w - 1)
  }

  /** Combining twice with the same `b` gives `a` back. */
  lemma {:induction false} BitXorTwice(a: nat, b: nat, w: nat)
    requires a < Pow2(w)
    ensures BitXor(BitXor(a, b, w), b, w) == a
    decreases w
  {
    if w > 0 {
      var r := BitXor(a, b, w);
      assert r % 2 == (if a % 2 == b % 2 then 0 else 1);
      assert r / 2 == BitXor(a / 2, b / 2, w - 1);
      BitXorTwice(a / 2, b / 2, w - 1);
    }
  }

  /** When `b` has no bit at or above `m`, the result is below `2^m`
      exactly when `a` is. */
  lemma {:induction false} BitXorLow(a: nat, b: nat, w: nat, m: nat)
    requires m <= w && a < Pow2(w) && b < Pow2(m)
    ensures BitXor(a, b, w) < Pow2(m) <==> a < Pow2(m)
    decreases w
  {
    if m == 0 {
      BitXorZero(a, w);
    } else {
      BitXorLow(a / 2, b / 2, w - 1, m - 1);
    }
  }

  lemma {:induction false} BitXorZero(a: nat, w: nat)
    requires a < Pow2(w)
    ensures BitXor(a, 0, w) == a
    decreases w
  {
    if w > 0 {
      BitXorZero(a / 2, w - 1);
    }
  }

  /** The code unit `c ^ k`; both are below 2^16, and so is the result. */
  function XorUnit(c: Unit, k: Unit): Unit {
    Pow2Unit();
    BitXor(c as nat, k as nat, 16) as Unit
  }

  /** Combining a unit twice with the same key unit gives it back. */
  lemma {:induction false} XorUnitTwice(c: Unit, k: Unit)
    ensures XorUnit(XorUnit(c, k), k) == c
  {
    Pow2Unit();
    BitXorTwice(c as nat, k as nat, 16);
  }

  /** The key unit that meets position `i`. JavaScript reads `key.charCodeAt(i % 0)`
      as NaN when the key is empty, and `c ^ NaN` is `c`, so an empty key
      acts as the unit 0. */
  function KeyAt(key: JsString, i: nat): Unit {
    if key == [] then 0 else key[i % |key|]
  }

  /** `xor`: every code unit of `str` combined with the key unit at its
      position, the key repeating. */
  function Xor(str: JsString, key: JsString): (r: JsString)
    ensures |r| == |str|
    ensures forall i :: 0 <= i < |str| ==> r[i] == XorUnit(str[i], KeyAt(key, i))
  {
    seq(|str|, i requires 0 <= i < |str| => XorUnit(str[i], KeyAt(key, i)))
  }

  /** Combining twice with the same key gives the text back. */
  lemma {:induction false} XorInvolution(str: JsString, key: JsString)
    ensures Xor(Xor(str, key), key) == str
  {
    var once := Xor(str, key);
    forall i | 0 <= i < |str|
      ensures Xor(once, key)[i] == str[i]
    {
      XorUnitTwice(str[i], KeyAt(key, i));
    }
  }

  /** A unit and a Latin-1 key unit give a Latin-1 unit exactly when the
      unit is Latin-1: the key only flips the low eight bits. */
  lemma {:induction false} XorUnitLatin1(c: Unit, k: Unit)
    requires k <= 0xFF
    ensures XorUnit(c, k) <= 0xFF <==> c <= 0xFF
  {
    Pow2Unit();
    BitXorLow(c as nat, k as nat, 16, 8);
  }

  /** With a Latin-1 key, the combined text is Latin-1 exactly when the
      text is. */
  lemma {:induction false} XorLatin1(str: JsString, key: JsString)
    requires Latin1(key)
    ensures Latin1(Xor(str, key)) <==> Latin1(str)
  {
    forall i | 0 <= i < |str|
      ensures Xor(str, key)[i] <= 0xFF <==> str[i] <= 0xFF
    {
      XorUnitLatin1(str[i], KeyAt(key, i));
    }
  }

  /** `encrypt`: `btoa(xor(JSON.stringify(obj), secret))`. There is no text
      for undefined, and btoa throws on a code unit above 0xFF; both are
      None. */
  function Encrypt(v: Val, secret: JsString): (r: Option<JsString>)
    ensures r.Some? <==> !v.Undef? && Latin1(Xor(Text(v), secret))
  {
    match Serialize(v)
    case None => None
    case Some(text) => Btoa(Xor(text, secret))
  }

  /** `decrypt`: `JSON.parse(xor(atob(str), secret))`; a failure of atob
      or of JSON.parse is None. Whatever it returns, for any string and
      secret, has distinct keys in every object and no undefined inside. */
  function Decrypt(str: JsString, secret: JsString): (r: Option<Val>)
    ensures (exists bytes :: Atob(str) == Some(bytes) && Parse(Xor(bytes, secret)).Some?) <==> r.Some?
    ensures r.Some? ==> WellFormed(r.value) && Defined(r.value)
  {
    match Atob(str)
    case None => None
    case Some(bytes) =>
      ParseParsed(Xor(bytes, secret));
      Parse(Xor(bytes, secret))
  }

  /** With a Latin-1 secret, encryption succeeds for every value whose JSON
      text is Latin-1, and for no other. */
  lemma {:induction false} EncryptLatin1(v: Val, secret: JsString)
    requires Latin1(secret)
    ensures Encrypt(v, secret).Some? <==> !v.Undef? && Latin1(Text(v))
  {
    XorLatin1(Text(v), secret);
  }

  /** What is encrypted decrypts, with the same secret, to what JSON
      carries of it. */
  lemma {:induction false} DecryptEncrypt(v: Val, secret: JsString)
    requires WellFormed(v) && Encrypt(v, secret).Some?
    ensures Decrypt(Encrypt(v, secret).value, secret) == Some(Normalize(v))
  {
    var x := Xor(Text(v), secret);
    AtobBtoa(x);
    XorInvolution(Text(v), secret);
    ParseSerialize(v);
  }
}
