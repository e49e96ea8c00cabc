/** `traverseLeaves`: the (path, value) pairs that the callback receives,
    in the order it receives them. */
module Traverse {
  import opened JsValue
  import opened Path
  import opened Access

  /** The leaves of `obj` below the dot path `base`: nothing unless `obj` is
      an object; every key in `Object.keys` order, descending into values
      that are objects but not arrays. */
  function Leaves(obj: Val, base: JsString): (r: seq<(JsString, Val)>)
    ensures forall j :: 0 <= j < |r| ==> !r[j].1.Obj?
    ensures !IsObject(obj) || obj == Obj([]) || obj == Arr([]) ==> r == []
  {
    match obj
    case Obj(_) => FieldLeaves(obj, 0, base)
    case Arr(items) => ItemLeaves(items, 0, base)
    case _ => []
  }

  /** The leaves contributed by the keys of an object from position `i` on. */
  function FieldLeaves(obj: Val, i: nat, base: JsString): (r: seq<(JsString, Val)>)
    requires obj.Obj? && i <= |obj.fields|
    ensures forall j :: 0 <= j < |r| ==> !r[j].1.Obj?
    decreases obj, |obj.fields| - i
  {
    if i == |obj.fields| then []
    else
      var k := obj.fields[i].0;
      var val := obj.fields[i].1;
      var path := JoinKey(base, k);
      (if val.Obj? then FieldLeaves(val, 0, path) else [(path, val)])
        + FieldLeaves(obj, i + 1, base)
  }

  /** The leaves contributed by the elements of an array from index `i` on
      (only a top-level value can be an array here: nested arrays are leaves). */
  function ItemLeaves(items: seq<Val>, i: nat, base: JsString): (r: seq<(JsString, Val)>)
    requires i <= |items|
    ensures forall j :: 0 <= j < |r| ==> !r[j].1.Obj?
    decreases |items| - i
  {
    if i == |items| then []
    else
      var val := items[i];
      var path := JoinKey(base, IndexKey(i));
      (if val.Obj? then FieldLeaves(val, 0, path) else [(path, val)])
        + ItemLeaves(items, i + 1, base)
  }

  /** Every key is plain. */
  predicate PlainPath(ks: seq<JsString>) {
    forall m :: 0 <= m < |ks| ==> PlainKey(ks[m])
  }

  /** An object whose keys, and those of every object nested in it through
      objects, are plain and pairwise distinct (arrays inside are leaves and
      are not constrained). */
  predicate PlainObj(v: Val)
    decreases v
  {
    v.Obj?
    && (forall i :: 0 <= i < |v.fields| ==> PlainKey(v.fields[i].0))
    && (forall i, j :: 0 <= i < j < |v.fields| ==> v.fields[i].0 != v.fields[j].0)
    && (forall i :: 0 <= i < |v.fields| ==> v.fields[i].1.Obj? ==> PlainObj(v.fields[i].1))
  }

  /** A key path that leads from `v` through present keys and objects that are
      not arrays to a value that is not such an object: what traverseLeaves
      calls a leaf. */
  predicate IsLeafPath(v: Val, q: seq<JsString>)
    decreases |q|
  {
    |q| >= 1 && v.Obj? && Has(v, q[0])
    && (if |q| == 1 then !Get(v, q[0]).Obj?
        else Get(v, q[0]).Obj? && IsLeafPath(Get(v, q[0]), q[1..]))
  }

  /** The dot path of a key path, or the empty base at the top. */
  function Base(bks: seq<JsString>): JsString {
    if bks == [] then [] else Join(bks)
  }

  lemma {:induction false} JoinNonEmpty(ks: seq<JsString>)
    requires |ks| >= 1 && ks[0] != []
    ensures Join(ks) != []
  {
  }

  lemma {:induction false} BaseExtends(bks: seq<JsString>, k: JsString)
    requires PlainPath(bks) && PlainKey(k)
    ensures JoinKey(Base(bks), k) == Base(bks + [k])
    ensures Split(Base(bks + [k])) == bks + [k]
  {
    if bks != [] {
      JoinNonEmpty(bks);
      JoinExtends(bks, k);
    }
    SplitJoin(bks + [k]);
  }

  lemma {:induction false} FieldAt(obj: Val, i: nat)
    requires PlainObj(obj) && i < |obj.fields|
    ensures FindKey(obj.fields, obj.fields[i].0) == i
    ensures Has(obj, obj.fields[i].0) && Get(obj, obj.fields[i].0) == obj.fields[i].1
    ensures PlainKey(obj.fields[i].0)
    ensures obj.fields[i].1.Obj? ==> PlainObj(obj.fields[i].1)
  {
    FindKeyAt(obj.fields, obj.fields[i].0, i);
  }

  /** What one reported leaf is: its path splits into the base keys followed
      by a leaf path of `obj` that starts at a key in position `i` or later,
      and its value is the value at that path. */
  predicate LeafOf(obj: Val, i: nat, bks: seq<JsString>, e: (JsString, Val))
    requires obj.Obj?
  {
    var ks := Split(e.0);
    && |ks| > |bks| && ks[..|bks|] == bks && PlainPath(ks)
    && i <= FindKey(obj.fields, ks[|bks|]) < |obj.fields|
    && IsLeafPath(obj, ks[|bks|..])
    && GetAtPath(obj, ks[|bks|..]) == e.1
  }

  lemma {:induction false} FieldLeavesSound(obj: Val, i: nat, bks: seq<JsString>)
    requires PlainObj(obj) && i <= |obj.fields| && PlainPath(bks)
    ensures forall e :: e in FieldLeaves(obj, i, Base(bks)) ==> LeafOf(obj, i, bks, e)
    decreases obj, |obj.fields| - i, 1
  {
    if i < |obj.fields| {
      FieldLeavesUnfold(obj, i, Base(bks));
      KeyLeavesSound(obj, i, bks);
      FieldLeavesSound(obj, i + 1, bks);
      forall e | e in FieldLeaves(obj, i + 1, Base(bks))
        ensures LeafOf(obj, i, bks, e)
      {
        LeafOfEarlier(obj, i, bks, e);
      }
    }
  }

  /** A leaf of the keys from `i + 1` on is one of the keys from `i` on. */
  lemma {:induction false} LeafOfEarlier(obj: Val, i: nat, bks: seq<JsString>, e: (JsString, Val))
    requires obj.Obj? && LeafOf(obj, i + 1, bks, e)
    ensures LeafOf(obj, i, bks, e)
  {
  }

  lemma {:induction false} KeyLeavesSound(obj: Val, i: nat, bks: seq<JsString>)
    requires PlainObj(obj) && i < |obj.fields| && PlainPath(bks)
    ensures forall e :: e in KeyLeaves(obj, i, Base(bks)) ==> LeafOf(obj, i, bks, e)
    decreases obj, |obj.fields| - i, 0
  {
    var k := obj.fields[i].0;
    var val := obj.fields[i].1;
    FieldAt(obj, i);
    BaseExtends(bks, k);
    var path := Base(bks + [k]);
    if val.Obj? {
      FieldLeavesSound(val, 0, bks + [k]);
      forall e | e in FieldLeaves(val, 0, path)
        ensures LeafOf(obj, i, bks, e)
      {
        NestedLeafOf(obj, i, bks, e);
      }
    } else {
      ScalarLeafOf(obj, i, bks);
    }
  }

  /** The leaf reported for a key whose value is not an object. */
  lemma {:induction false} ScalarLeafOf(obj: Val, i: nat, bks: seq<JsString>)
    requires PlainObj(obj) && i < |obj.fields| && PlainPath(bks) && !obj.fields[i].1.Obj?
    ensures LeafOf(obj, i, bks, (Base(bks + [obj.fields[i].0]), obj.fields[i].1))
  {
    var k := obj.fields[i].0;
    FieldAt(obj, i);
    BaseExtends(bks, k);
    var ks := bks + [k];
    assert ks[..|bks|] == bks && ks[|bks|..] == [k];
  }

  lemma {:induction false} NestedLeafOf(obj: Val, i: nat, bks: seq<JsString>, e: (JsString, Val))
    requires PlainObj(obj) && i < |obj.fields| && obj.fields[i].1.Obj?
    requires LeafOf(obj.fields[i].1, 0, bks + [obj.fields[i].0], e)
    ensures LeafOf(obj, i, bks, e)
  {
    var k := obj.fields[i].0;
    var val := obj.fields[i].1;
    FieldAt(obj, i);
    var ks := Split(e.0);
    var n := |bks|;
    assert ks[..n] == (bks + [k])[..n] == bks by {
      assert ks[..n + 1] == bks + [k];
    }
    assert ks[n] == k by {
      assert ks[..n + 1] == bks + [k];
    }
    assert ks[n..][1..] == ks[n + 1..];
    assert ks[n..][0] == k;
  }

  /** No reported path is a prefix of another (in particular, no path is
      reported twice). */
  predicate PrefixFree(L: seq<(JsString, Val)>) {
    forall j1, j2 :: 0 <= j1 < j2 < |L| ==> Diverge(Split(L[j1].0), Split(L[j2].0))
  }

  lemma {:induction false} DivergeAt(a: seq<JsString>, b: seq<JsString>, n: nat)
    requires |a| > n && |b| > n && a[n] != b[n]
    ensures Diverge(a, b)
  {
  }

  /** Every path of `A` parts from every path of `B`. */
  predicate Apart(A: seq<(JsString, Val)>, B: seq<(JsString, Val)>) {
    forall e1, e2 :: e1 in A && e2 in B ==> Diverge(Split(e1.0), Split(e2.0))
  }

  lemma {:induction false} PrefixFreeAppend(A: seq<(JsString, Val)>, B: seq<(JsString, Val)>)
    requires PrefixFree(A) && PrefixFree(B)
    requires Apart(A, B)
    ensures PrefixFree(A + B)
  {
    var L := A + B;
    forall j1, j2 | 0 <= j1 < j2 < |L|
      ensures Diverge(Split(L[j1].0), Split(L[j2].0))
    {
      if j2 < |A| {
        assert L[j1] == A[j1] && L[j2] == A[j2];
      } else if j1 >= |A| {
        assert L[j1] == B[j1 - |A|] && L[j2] == B[j2 - |A|];
      } else {
        assert L[j1] in A && L[j2] in B;
      }
    }
  }

  /** The leaves of the key at position `i` of `obj`, below `base`. */
  function KeyLeaves(obj: Val, i: nat, base: JsString): seq<(JsString, Val)>
    requires obj.Obj? && i < |obj.fields|
  {
    var val := obj.fields[i].1;
    var path := JoinKey(base, obj.fields[i].0);
    if val.Obj? then FieldLeaves(val, 0, path) else [(path, val)]
  }

  lemma {:induction false} FieldLeavesUnfold(obj: Val, i: nat, base: JsString)
    requires obj.Obj? && i < |obj.fields|
    ensures FieldLeaves(obj, i, base) == KeyLeaves(obj, i, base) + FieldLeaves(obj, i + 1, base)
  {
  }

  /** The first keys of a path, read off a longer prefix. */
  lemma {:induction false} PrefixKey(ks: seq<JsString>, bks: seq<JsString>, k: JsString)
    requires |ks| > |bks| && ks[..|bks| + 1] == bks + [k]
    ensures ks[..|bks|] == bks && ks[|bks|] == k
  {
    assert ks[..|bks|] == ks[..|bks| + 1][..|bks|];
    assert ks[|bks|] == ks[..|bks| + 1][|bks|];
  }

  /** The leaves of the key at position `i` all start with the base keys
      followed by that key. */
  lemma {:induction false} KeyLeavesStart(obj: Val, i: nat, bks: seq<JsString>, e: (JsString, Val))
    requires PlainObj(obj) && i < |obj.fields| && PlainPath(bks)
    requires e in KeyLeaves(obj, i, Base(bks))
    ensures |Split(e.0)| > |bks| && Split(e.0)[..|bks|] == bks
    ensures Split(e.0)[|bks|] == obj.fields[i].0
  {
    var k := obj.fields[i].0;
    FieldAt(obj, i);
    BaseExtends(bks, k);
    if obj.fields[i].1.Obj? {
      NestedLeavesStart(obj.fields[i].1, bks, k, e);
    } else {
      assert Split(e.0) == bks + [k];
    }
  }

  lemma {:induction false} NestedLeavesStart(val: Val, bks: seq<JsString>, k: JsString, e: (JsString, Val))
    requires PlainObj(val) && PlainPath(bks) && PlainKey(k)
    requires e in FieldLeaves(val, 0, Base(bks + [k]))
    ensures |Split(e.0)| > |bks| && Split(e.0)[..|bks|] == bks
    ensures Split(e.0)[|bks|] == k
  {
    assert PlainPath(bks + [k]);
    FieldLeavesSound(val, 0, bks + [k]);
    assert LeafOf(val, 0, bks + [k], e);
    PrefixKey(Split(e.0), bks, k);
  }

  /** A leaf of the key at position `i` and a leaf of a later key part at
      the first key after the base. */
  lemma {:induction false} LaterKeyDiverges(obj: Val, i: nat, bks: seq<JsString>, e1: (JsString, Val), e2: (JsString, Val))
    requires PlainObj(obj) && i < |obj.fields| && PlainPath(bks)
    requires e1 in KeyLeaves(obj, i, Base(bks))
    requires LeafOf(obj, i + 1, bks, e2)
    ensures Diverge(Split(e1.0), Split(e2.0))
  {
    KeyLeavesStart(obj, i, bks, e1);
    FieldAt(obj, i);
    var k2 := Split(e2.0)[|bks|];
    assert FindKey(obj.fields, k2) != i;
    DivergeAt(Split(e1.0), Split(e2.0), |bks|);
  }

  lemma {:induction false} FieldLeavesPrefixFree(obj: Val, i: nat, bks: seq<JsString>)
    requires PlainObj(obj) && i <= |obj.fields| && PlainPath(bks)
    ensures PrefixFree(FieldLeaves(obj, i, Base(bks)))
    decreases obj, |obj.fields| - i, 1
  {
    if i < |obj.fields| {
      KeyLeavesPrefixFree(obj, i, bks);
      FieldLeavesPrefixFree(obj, i + 1, bks);
      LaterKeysDiverge(obj, i, bks);
      PrefixFreeCons(obj, i, Base(bks));
    }
  }

  /** The leaves from key `i` on are prefix-free when those of key `i` are,
      those of the later keys are, and the two part. */
  lemma {:induction false} PrefixFreeCons(obj: Val, i: nat, base: JsString)
    requires obj.Obj? && i < |obj.fields|
    requires PrefixFree(KeyLeaves(obj, i, base)) && PrefixFree(FieldLeaves(obj, i + 1, base))
    requires Apart(KeyLeaves(obj, i, base), FieldLeaves(obj, i + 1, base))
    ensures PrefixFree(FieldLeaves(obj, i, base))
  {
    FieldLeavesUnfold(obj, i, base);
    PrefixFreeAppend(KeyLeaves(obj, i, base), FieldLeaves(obj, i + 1, base));
  }

  lemma {:induction false} KeyLeavesPrefixFree(obj: Val, i: nat, bks: seq<JsString>)
    requires PlainObj(obj) && i < |obj.fields| && PlainPath(bks)
    ensures PrefixFree(KeyLeaves(obj, i, Base(bks)))
    decreases obj, |obj.fields| - i, 0
  {
    var k := obj.fields[i].0;
    var val := obj.fields[i].1;
    FieldAt(obj, i);
    if val.Obj? {
      BaseExtends(bks, k);
      FieldLeavesPrefixFree(val, 0, bks + [k]);
    }
  }

  /** The leaves of the key at position `i` part from those of the keys
      after it. */
  lemma {:induction false} LaterKeysDiverge(obj: Val, i: nat, bks: seq<JsString>)
    requires PlainObj(obj) && i < |obj.fields| && PlainPath(bks)
    ensures Apart(KeyLeaves(obj, i, Base(bks)), FieldLeaves(obj, i + 1, Base(bks)))
  {
    FieldLeavesSound(obj, i + 1, bks);
    forall e1, e2 | e1 in KeyLeaves(obj, i, Base(bks)) && e2 in FieldLeaves(obj, i + 1, Base(bks))
      ensures Diverge(Split(e1.0), Split(e2.0))
    {
      LaterKeyDiverges(obj, i, bks, e1, e2);
    }
  }

  /** Every leaf path of `obj` whose first key sits at position `i` or later
      is reported (the leaf returned is the one reporting it). */
  lemma {:induction false} FieldLeavesComplete(obj: Val, i: nat, bks: seq<JsString>, q: seq<JsString>)
      returns (e: (JsString, Val))
    requires PlainObj(obj) && i <= |obj.fields| && PlainPath(bks)
    requires IsLeafPath(obj, q) && i <= FindKey(obj.fields, q[0])
    ensures e in FieldLeaves(obj, i, Base(bks)) && Split(e.0) == bks + q
    decreases obj, 1
  {
    var j := FindKey(obj.fields, q[0]);
    assert j < |obj.fields| by {
      assert Has(obj, q[0]);
    }
    e := KeyLeavesComplete(obj, j, bks, q);
    InLaterKey(obj, i, j, Base(bks), e);
  }

  /** A leaf of the key at `j` is a leaf of the keys from `i` on, for every
      `i` up to `j`. */
  lemma {:induction false} InLaterKey(obj: Val, i: nat, j: nat, base: JsString, e: (JsString, Val))
    requires obj.Obj? && i <= j < |obj.fields| && e in KeyLeaves(obj, j, base)
    ensures e in FieldLeaves(obj, i, base)
    decreases j - i
  {
    if i < j {
      InLaterKey(obj, i + 1, j, base, e);
    }
    InFieldLeaves(obj, i, base, e);
  }

  /** A leaf of the key at `i`, or of a key after it, is a leaf of the keys
      from `i` on. */
  lemma {:induction false} InFieldLeaves(obj: Val, i: nat, base: JsString, e: (JsString, Val))
    requires obj.Obj? && i < |obj.fields|
    requires e in KeyLeaves(obj, i, base) || e in FieldLeaves(obj, i + 1, base)
    ensures e in FieldLeaves(obj, i, base)
  {
    FieldLeavesUnfold(obj, i, base);
  }

  lemma {:induction false} KeyLeavesComplete(obj: Val, i: nat, bks: seq<JsString>, q: seq<JsString>)
      returns (e: (JsString, Val))
    requires PlainObj(obj) && i < |obj.fields| && PlainPath(bks)
    requires IsLeafPath(obj, q) && FindKey(obj.fields, q[0]) == i
    ensures e in KeyLeaves(obj, i, Base(bks)) && Split(e.0) == bks + q
    decreases obj, 0
  {
    var k := obj.fields[i].0;
    var val := obj.fields[i].1;
    FieldAt(obj, i);
    BaseExtends(bks, k);
    if |q| == 1 {
      e := (JoinKey(Base(bks), k), val);
      assert q == [k];
    } else {
      assert val.Obj? && IsLeafPath(val, q[1..]);
      e := FieldLeavesComplete(val, 0, bks + [k], q[1..]);
      ConsPath(bks, q);
    }
  }

  lemma {:induction false} ConsPath(bks: seq<JsString>, q: seq<JsString>)
    requires |q| >= 1
    ensures (bks + [q[0]]) + q[1..] == bks + q
  {
    assert q == [q[0]] + q[1..];
  }

  /** traverseLeaves on a plain object reports exactly its leaf paths, each
      with the value found there, and no path twice or as a prefix of
      another. */
  lemma {:induction false} LeavesExact(obj: Val)
    requires PlainObj(obj)
    ensures forall e :: e in Leaves(obj, []) ==>
      IsLeafPath(obj, Split(e.0)) && GetAtPath(obj, Split(e.0)) == e.1
    ensures forall q :: IsLeafPath(obj, q) ==> exists e :: e in Leaves(obj, []) && Split(e.0) == q
    ensures PrefixFree(Leaves(obj, []))
  {
    assert Base([]) == [];
    FieldLeavesSound(obj, 0, []);
    forall e | e in Leaves(obj, [])
      ensures IsLeafPath(obj, Split(e.0)) && GetAtPath(obj, Split(e.0)) == e.1
    {
      assert LeafOf(obj, 0, [], e);
      assert Split(e.0)[0..] == Split(e.0);
    }
    forall q | IsLeafPath(obj, q)
      ensures exists e :: e in Leaves(obj, []) && Split(e.0) == q
    {
      var e := FieldLeavesComplete(obj, 0, [], q);
      assert [] + q == q;
    }
    FieldLeavesPrefixFree(obj, 0, []);
  }

  /** What traverseLeaves reports for one key whose value is `val`. */
  function Visit(val: Val, path: JsString): seq<(JsString, Val)> {
    if val.Obj? then FieldLeaves(val, 0, path) else [(path, val)]
  }

  lemma {:induction false} FieldLeavesWellFormed(obj: Val, i: nat, base: JsString)
    requires obj.Obj? && i <= |obj.fields| && WellFormed(obj)
    ensures ValuesWellFormed(FieldLeaves(obj, i, base))
    decreases obj, |obj.fields| - i
  {
    if i < |obj.fields| {
      var val := obj.fields[i].1;
      var path := JoinKey(base, obj.fields[i].0);
      assert WellFormed(val);
      if val.Obj? {
        FieldLeavesWellFormed(val, 0, path);
      }
      FieldLeavesWellFormed(obj, i + 1, base);
      ValuesWellFormedAppend(Visit(val, path), FieldLeaves(obj, i + 1, base));
    }
  }

  lemma {:induction false} ItemLeavesWellFormed(items: seq<Val>, i: nat, base: JsString)
    requires i <= |items| && forall j :: 0 <= j < |items| ==> WellFormed(items[j])
    ensures ValuesWellFormed(ItemLeaves(items, i, base))
    decreases |items| - i
  {
    if i < |items| {
      var val := items[i];
      var path := JoinKey(base, IndexKey(i));
      if val.Obj? {
        FieldLeavesWellFormed(val, 0, path);
      }
      ItemLeavesWellFormed(items, i + 1, base);
      ValuesWellFormedAppend(Visit(val, path), ItemLeaves(items, i + 1, base));
    }
  }

  /** traverseLeaves of a well-formed value reports well-formed values only. */
  lemma {:induction false} LeavesWellFormed(obj: Val, base: JsString)
    requires WellFormed(obj)
    ensures ValuesWellFormed(Leaves(obj, base))
  {
    match obj
    case Obj(_) => FieldLeavesWellFormed(obj, 0, base);
    case Arr(items) => ItemLeavesWellFormed(items, 0, base);
    case _ =>
  }
}
