/** `replaceValues`: every own key of the target is set to undefined, then
    the own enumerable keys of the source, if it is an object, are copied
    in with `Object.assign`. */
module Replace {
  import opened JsValue

  /** `Object.assign(target, entries)` as a left fold of property writes. */
  function Assign(t: Val, E: seq<(JsString, Val)>): (r: Val)
    requires t.Obj?
    ensures r.Obj?
    decreases |E|
  {
    if E == [] then t
    else Put(Assign(t, E[..|E| - 1]), E[|E| - 1].0, E[|E| - 1].1)
  }

  /** One write of `undefined` per own key of the target. */
  function Blanks(fs: seq<(JsString, Val)>): (E: seq<(JsString, Val)>)
    ensures |E| == |fs|
    ensures forall j :: 0 <= j < |E| ==> E[j] == (fs[j].0, Undef)
  {
    seq(|fs|, j requires 0 <= j < |fs| => (fs[j].0, Undef))
  }

  /** The own enumerable entries that `Object.assign` copies from a source:
      the fields of an object, the index keys of an array, nothing from a
      value that is not an object. */
  function Entries(s: Val): (E: seq<(JsString, Val)>)
    ensures s.Arr? ==> |E| == |s.items| && forall j :: 0 <= j < |E| ==> E[j] == (IndexKey(j), s.items[j])
    ensures s.Obj? ==> E == s.fields
    ensures !IsObject(s) ==> E == []
  {
    match s
    case Obj(fs) => fs
    case Arr(items) => seq(|items|, j requires 0 <= j < |items| => (IndexKey(j), items[j]))
    case _ => []
  }

  /** The target after replaceValues, as a value. */
  function Replaced(t: Val, s: Val): (r: Val)
    requires t.Obj?
    ensures r.Obj?
  {
    Assign(Assign(t, Blanks(t.fields)), Entries(s))
  }

  /** The value that the last entry with key `k` carries, if any. */
  function LastFor(E: seq<(JsString, Val)>, k: JsString): Option<Val>
    decreases |E|
  {
    if E == [] then None
    else if E[|E| - 1].0 == k then Some(E[|E| - 1].1)
    else LastFor(E[..|E| - 1], k)
  }

  /** A source as JavaScript can build it: an object without repeated keys,
      or an array no longer than 2^32 - 1. */
  predicate SourceShape(s: Val) {
    (s.Obj? ==> DistinctKeys(s.fields)) && (s.Arr? ==> |s.items| <= 0xFFFF_FFFF)
  }

  /** replaceValues of useForm.ts, step by step: a loop over the target's keys
      writing undefined, then, for an object source, a loop copying each of
      its entries (the deep clone of the source is the source itself, since
      values here are immutable). */
  method ReplaceValues(target: Val, source: Val) returns (r: Val)
    requires target.Obj?
    ensures r == Replaced(target, source)
  {
    var keys := KeysOf(target.fields);
    r := target;
    for i := 0 to |keys|
      invariant r == Assign(target, Blanks(target.fields)[..i])
    {
      assert Blanks(target.fields)[..i + 1][..i] == Blanks(target.fields)[..i];
      r := Put(r, keys[i], Undef);
    }
    assert Blanks(target.fields)[..|keys|] == Blanks(target.fields);
    if IsObject(source) {
      var entries := Entries(source);
      var blanked := r;
      for i := 0 to |entries|
        invariant r == Assign(blanked, entries[..i])
      {
        assert entries[..i + 1][..i] == entries[..i];
        r := Put(r, entries[i].0, entries[i].1);
      }
      assert entries[..|entries|] == entries;
    }
  }

  lemma {:induction false} ObjPutHas(fs: seq<(JsString, Val)>, k: JsString, x: Val, k': JsString)
    ensures Has(Put(Obj(fs), k, x), k') <==> k' == k || Has(Obj(fs), k')
  {
    PutGet(Obj(fs), k, x, k');
    var fs' := Put(Obj(fs), k, x).fields;
    if Has(Put(Obj(fs), k, x), k') && k' != k {
      var j := FindKey(fs', k');
      assert fs'[j].0 == k';
      var i := FindKey(fs, k);
      if i < |fs| {
        assert fs'[j] == fs[j];
      } else {
        assert j < |fs| && fs'[j] == fs[j];
      }
    }
  }

  /** After Object.assign, a key reads as the last entry that carries it, or
      as before when none does; it is present exactly when it was or some
      entry carries it. */
  lemma {:induction false} AssignGet(t: Val, E: seq<(JsString, Val)>, k: JsString)
    requires t.Obj?
    ensures Get(Assign(t, E), k) == (if LastFor(E, k).Some? then LastFor(E, k).value else Get(t, k))
    ensures Has(Assign(t, E), k) <==> Has(t, k) || LastFor(E, k).Some?
    decreases |E|
  {
    if E != [] {
      var init := E[..|E| - 1];
      var last := E[|E| - 1];
      AssignGet(t, init, k);
      PutGet(Assign(t, init), last.0, last.1, k);
      ObjPutHas(Assign(t, init).fields, last.0, last.1, k);
    }
  }

  lemma {:induction false} LastForIn(E: seq<(JsString, Val)>, k: JsString) returns (j: nat)
    requires LastFor(E, k).Some?
    ensures j < |E| && E[j] == (k, LastFor(E, k).value)
    decreases |E|
  {
    if E[|E| - 1].0 == k {
      j := |E| - 1;
    } else {
      j := LastForIn(E[..|E| - 1], k);
    }
  }

  lemma {:induction false} LastForNone(E: seq<(JsString, Val)>, k: JsString, j: nat)
    requires j < |E| && E[j].0 == k
    ensures LastFor(E, k).Some?
    decreases |E|
  {
    if E[|E| - 1].0 != k {
      LastForNone(E[..|E| - 1], k, j);
    }
  }

  lemma {:induction false} BlanksLast(fs: seq<(JsString, Val)>, k: JsString)
    ensures LastFor(Blanks(fs), k) == if Has(Obj(fs), k) then Some(Undef) else None
  {
    var E := Blanks(fs);
    if LastFor(E, k).Some? {
      var j := LastForIn(E, k);
      assert fs[j].0 == k;
    } else if Has(Obj(fs), k) {
      LastForNone(E, k, FindKey(fs, k));
    }
  }

  lemma {:induction false} EntriesLast(s: Val, k: JsString)
    requires SourceShape(s)
    ensures LastFor(Entries(s), k) == if IsObject(s) && Has(s, k) then Some(Get(s, k)) else None
  {
    var E := Entries(s);
    if LastFor(E, k).Some? {
      var j := LastForIn(E, k);
      if s.Obj? {
        FindKeyAt(s.fields, k, j);
      } else {
        IndexKeyIndex(j);
      }
    } else if IsObject(s) && Has(s, k) {
      if s.Obj? {
        LastForNone(E, k, FindKey(s.fields, k));
      } else {
        var i := ArrayIndex(k).value;
        IndexKeyInjective(k, i);
        LastForNone(E, k, i);
      }
    }
  }

  /** replaceValues: every key of the source holds the source's value; every
      other key of the target is still present and reads as undefined; no
      other key appears. A source that is not an object leaves every key of
      the target undefined. */
  lemma {:induction false} ReplacedSpec(t: Val, s: Val, k: JsString)
    requires t.Obj? && SourceShape(s)
    ensures Has(Replaced(t, s), k) <==> Has(t, k) || (IsObject(s) && Has(s, k))
    ensures IsObject(s) && Has(s, k) ==> Get(Replaced(t, s), k) == Get(s, k)
    ensures !(IsObject(s) && Has(s, k)) ==> Get(Replaced(t, s), k) == Undef
  {
    var blanked := Assign(t, Blanks(t.fields));
    AssignGet(t, Blanks(t.fields), k);
    BlanksLast(t.fields, k);
    AssignGet(blanked, Entries(s), k);
    EntriesLast(s, k);
    if !Has(t, k) {
      assert Get(t, k) == Undef;
    }
  }

  lemma {:induction false} PutKeepsKeys(v: Val, k: JsString, x: Val)
    requires v.Obj? && Has(v, k) && DistinctKeys(v.fields)
    ensures KeysOf(Put(v, k, x).fields) == KeysOf(v.fields)
    ensures DistinctKeys(Put(v, k, x).fields)
  {
  }

  /** Writing only keys that are already present keeps the key sequence. */
  lemma {:induction false} AssignKeepsKeys(t: Val, E: seq<(JsString, Val)>)
    requires t.Obj? && DistinctKeys(t.fields)
    requires forall j :: 0 <= j < |E| ==> Has(t, E[j].0)
    ensures KeysOf(Assign(t, E).fields) == KeysOf(t.fields)
    ensures DistinctKeys(Assign(t, E).fields)
    decreases |E|
  {
    if E != [] {
      var init := E[..|E| - 1];
      var last := E[|E| - 1];
      AssignKeepsKeys(t, init);
      var a := Assign(t, init);
      HasSameKeys(t, a, last.0);
      PutKeepsKeys(a, last.0, last.1);
    }
  }

  /** Whether a key is present depends only on the key sequence. */
  lemma {:induction false} HasSameKeys(a: Val, b: Val, k: JsString)
    requires a.Obj? && b.Obj? && KeysOf(a.fields) == KeysOf(b.fields)
    ensures Has(a, k) <==> Has(b, k)
  {
    assert |a.fields| == |KeysOf(a.fields)|;
    if Has(a, k) {
      var i := FindKey(a.fields, k);
      assert KeysOf(b.fields)[i] == k;
    }
    if Has(b, k) {
      var i := FindKey(b.fields, k);
      assert KeysOf(a.fields)[i] == k;
    }
  }

  /** Objects with the same keys in the same order, no key twice, and the
      same value under every key are the same object. */
  lemma {:induction false} ObjExt(a: Val, b: Val)
    requires a.Obj? && b.Obj? && KeysOf(a.fields) == KeysOf(b.fields) && DistinctKeys(a.fields)
    requires forall k :: Get(a, k) == Get(b, k)
    ensures a == b
  {
    assert |a.fields| == |KeysOf(a.fields)| == |b.fields|;
    forall i | 0 <= i < |a.fields|
      ensures a.fields[i] == b.fields[i]
    {
      var k := a.fields[i].0;
      assert KeysOf(b.fields)[i] == k;
      FindKeyAt(a.fields, k, i);
      forall j | 0 <= j < i
        ensures b.fields[j].0 != k
      {
        assert KeysOf(b.fields)[j] == KeysOf(a.fields)[j];
      }
      FindKeyAt(b.fields, k, i);
      assert Get(a, k) == Get(b, k);
    }
  }

  /** Blanking keeps the key sequence of an object without repeated keys. */
  lemma {:induction false} BlankKeepsKeys(t: Val)
    requires t.Obj? && DistinctKeys(t.fields)
    ensures KeysOf(Assign(t, Blanks(t.fields)).fields) == KeysOf(t.fields)
    ensures DistinctKeys(Assign(t, Blanks(t.fields)).fields)
  {
    forall j | 0 <= j < |t.fields|
      ensures Has(t, Blanks(t.fields)[j].0)
    {
      FindKeyAt(t.fields, t.fields[j].0, FindKey(t.fields, t.fields[j].0));
    }
    AssignKeepsKeys(t, Blanks(t.fields));
  }

  lemma {:induction false} PutDistinct(v: Val, k: JsString, x: Val)
    requires v.Obj? && DistinctKeys(v.fields)
    ensures DistinctKeys(Put(v, k, x).fields)
  {
  }

  lemma {:induction false} AssignDistinct(t: Val, E: seq<(JsString, Val)>)
    requires t.Obj? && DistinctKeys(t.fields)
    ensures DistinctKeys(Assign(t, E).fields)
    decreases |E|
  {
    if E != [] {
      AssignDistinct(t, E[..|E| - 1]);
      PutDistinct(Assign(t, E[..|E| - 1]), E[|E| - 1].0, E[|E| - 1].1);
    }
  }

  /** replaceValues with the same source twice is replaceValues once, which is
      why reset twice equals reset once. */
  lemma {:induction false} ReplacedTwice(t: Val, s: Val)
    requires t.Obj? && DistinctKeys(t.fields) && SourceShape(s)
    ensures Replaced(Replaced(t, s), s) == Replaced(t, s)
  {
    var E := Entries(s);
    var blanked := Assign(t, Blanks(t.fields));
    var r := Assign(blanked, E);
    BlankKeepsKeys(t);
    AssignDistinct(blanked, E);
    var rb := Assign(r, Blanks(r.fields));
    BlankKeepsKeys(r);
    forall j | 0 <= j < |E|
      ensures Has(rb, E[j].0)
    {
      LastForNone(E, E[j].0, j);
      AssignGet(blanked, E, E[j].0);
      HasSameKeys(r, rb, E[j].0);
    }
    AssignKeepsKeys(rb, E);
    var r2 := Assign(rb, E);
    forall k
      ensures Get(r2, k) == Get(r, k)
    {
      ReplacedSpec(t, s, k);
      ReplacedSpec(r, s, k);
    }
    ObjExt(r2, r);
  }

  lemma {:induction false} AssignWellFormed(t: Val, E: seq<(JsString, Val)>)
    requires t.Obj? && WellFormed(t) && ValuesWellFormed(E)
    ensures WellFormed(Assign(t, E))
    decreases |E|
  {
    if E != [] {
      assert ValuesWellFormed(E[..|E| - 1]);
      AssignWellFormed(t, E[..|E| - 1]);
      PutWellFormed(Assign(t, E[..|E| - 1]), E[|E| - 1].0, E[|E| - 1].1);
    }
  }

  /** replaceValues of a well-formed target with a well-formed source is
      well-formed: the blanks are undefined and the copied entries are the
      source's own values. */
  lemma {:induction false} ReplacedWellFormed(t: Val, s: Val)
    requires t.Obj? && WellFormed(t) && WellFormed(s)
    ensures WellFormed(Replaced(t, s))
  {
    AssignWellFormed(t, Blanks(t.fields));
    AssignWellFormed(Assign(t, Blanks(t.fields)), Entries(s));
  }
}
