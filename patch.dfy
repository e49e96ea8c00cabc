/** `applyPatch`: a deep, leaf-wise merge that writes every leaf that
    `traverseLeaves` reports from the patch into the target. */
module Patch {
  import opened JsValue
  import opened Path
  import opened Access
  import opened Traverse

  /** The target after the callback has run on each reported leaf in turn:
      `setAtPath(target, path, value)` for every (path, value) of `L`. */
  function Patched(t: Val, L: seq<(JsString, Val)>): (r: Val)
    requires IsObject(t)
    ensures r.Obj? == t.Obj? && r.Arr? == t.Arr?
    decreases |L|
  {
    if L == [] then t else Patched(SetAtPath(t, Split(L[0].0), L[0].1), L[1..])
  }

  /** Writing well-formed leaves keeps the target well-formed. */
  lemma {:induction false} PatchedWellFormed(t: Val, L: seq<(JsString, Val)>)
    requires IsObject(t) && WellFormed(t) && ValuesWellFormed(L)
    ensures WellFormed(Patched(t, L))
    decreases |L|
  {
    if L != [] {
      SetWellFormed(t, Split(L[0].0), L[0].1);
      assert ValuesWellFormed(L[1..]);
      PatchedWellFormed(SetAtPath(t, Split(L[0].0), L[0].1), L[1..]);
    }
  }

  /** Running the callback on two runs of leaves is running it on the first
      and then on the second. */
  lemma {:induction false} PatchedAppend(t: Val, A: seq<(JsString, Val)>, B: seq<(JsString, Val)>)
    requires IsObject(t)
    ensures Patched(t, A + B) == Patched(Patched(t, A), B)
    decreases |A|
  {
    if A == [] {
      assert A + B == B;
    } else {
      assert (A + B)[0] == A[0];
      assert (A + B)[1..] == A[1..] + B;
      PatchedAppend(SetAtPath(t, Split(A[0].0), A[0].1), A[1..], B);
    }
  }

  /** Each write of the fold is representable in the value it is made to
      (no step writes a key that is not an index into an array). */
  predicate WritesReachable(t: Val, L: seq<(JsString, Val)>)
    requires IsObject(t)
    decreases |L|
  {
    L == [] ||
    (Reachable(t, Split(L[0].0)) && WritesReachable(SetAtPath(t, Split(L[0].0), L[0].1), L[1..]))
  }

  /** A path that diverges from every reported path reads as before, when
      every write of the fold is representable. */
  lemma {:induction false} PatchedFrame(t: Val, L: seq<(JsString, Val)>, q: seq<JsString>)
    requires IsObject(t) && WritesReachable(t, L)
    requires forall e :: e in L ==> Diverge(Split(e.0), q)
    ensures GetAtPath(Patched(t, L), q) == GetAtPath(t, q)
    decreases |L|
  {
    if L != [] {
      var t' := SetAtPath(t, Split(L[0].0), L[0].1);
      assert L[0] in L;
      SetFrame(t, Split(L[0].0), L[0].1, q);
      assert forall e :: e in L[1..] ==> e in L;
      PatchedFrame(t', L[1..], q);
    }
  }

  /** Every reported path can be written in `t` (no step writes a key that
      is not an index into an array). */
  predicate AllReachable(t: Val, L: seq<(JsString, Val)>)
    requires IsObject(t)
  {
    forall e :: e in L ==> Reachable(t, Split(e.0))
  }

  /** A write at one path keeps every diverging reported path writable. */
  lemma {:induction false} KeepsAllReachable(t: Val, ks: seq<JsString>, v: Val, L: seq<(JsString, Val)>)
    requires IsObject(t) && |ks| >= 1 && AllReachable(t, L)
    requires forall e :: e in L ==> Diverge(ks, Split(e.0))
    ensures AllReachable(SetAtPath(t, ks, v), L)
  {
    forall e | e in L
      ensures Reachable(SetAtPath(t, ks, v), Split(e.0))
    {
      SetKeepsReachable(t, ks, v, Split(e.0));
    }
  }

  /** Prefix-free paths that are all writable in `t` stay writable through
      the fold. */
  lemma {:induction false} AllWritesReachable(t: Val, L: seq<(JsString, Val)>)
    requires IsObject(t) && PrefixFree(L) && AllReachable(t, L)
    ensures WritesReachable(t, L)
    decreases |L|
  {
    if L != [] {
      var ks := Split(L[0].0);
      var rest := L[1..];
      assert L[0] in L;
      assert forall m :: 0 <= m < |rest| ==> rest[m] == L[m + 1];
      assert forall e :: e in rest ==> Diverge(ks, Split(e.0)) by {
        forall e | e in rest
          ensures Diverge(ks, Split(e.0))
        {
          var m :| 0 <= m < |rest| && rest[m] == e;
          assert L[m + 1] == e;
        }
      }
      KeepsAllReachable(t, ks, L[0].1, rest);
      assert PrefixFree(rest);
      AllWritesReachable(SetAtPath(t, ks, L[0].1), rest);
    }
  }

  /** With prefix-free, writable paths, every reported path is present
      afterwards and holds the value reported with it. */
  lemma {:induction false} PatchedWrites(t: Val, L: seq<(JsString, Val)>, j: nat)
    requires IsObject(t) && PrefixFree(L) && AllReachable(t, L) && j < |L|
    ensures Present(Patched(t, L), Split(L[j].0))
    ensures GetAtPath(Patched(t, L), Split(L[j].0)) == L[j].1
    decreases |L|
  {
    var ks := Split(L[0].0);
    var t' := SetAtPath(t, ks, L[0].1);
    var rest := L[1..];
    assert L[0] in L;
    assert forall m :: 0 <= m < |rest| ==> rest[m] == L[m + 1];
    assert forall e :: e in rest ==> Diverge(ks, Split(e.0)) by {
      forall e | e in rest
        ensures Diverge(ks, Split(e.0))
      {
        var m :| 0 <= m < |rest| && rest[m] == e;
        assert L[m + 1] == e;
      }
    }
    KeepsAllReachable(t, ks, L[0].1, rest);
    assert PrefixFree(rest);
    if j == 0 {
      SetGet(t, ks, L[0].1);
      SetPresent(t, ks, L[0].1);
      forall e | e in rest
        ensures Diverge(Split(e.0), ks)
      {
      }
      AllWritesReachable(t', rest);
      PatchedFrame(t', rest, ks);
      PatchedKeepsPresent(t', rest, ks);
    } else {
      PatchedWrites(t', rest, j - 1);
    }
  }

  /** A present path that diverges from every reported path stays present. */
  lemma {:induction false} PatchedKeepsPresent(t: Val, L: seq<(JsString, Val)>, q: seq<JsString>)
    requires IsObject(t) && |q| >= 1 && Present(t, q)
    requires forall e :: e in L ==> Diverge(Split(e.0), q)
    ensures Present(Patched(t, L), q)
    decreases |L|
  {
    if L != [] {
      assert L[0] in L;
      SetKeepsPresent(t, Split(L[0].0), L[0].1, q);
      assert forall e :: e in L[1..] ==> e in L;
      PatchedKeepsPresent(SetAtPath(t, Split(L[0].0), L[0].1), L[1..], q);
    }
  }

  /** Running the callback on leaves that are already present with their
      values changes nothing. */
  lemma {:induction false} PatchedNoop(t: Val, L: seq<(JsString, Val)>)
    requires IsObject(t)
    requires forall e :: e in L ==> Present(t, Split(e.0)) && GetAtPath(t, Split(e.0)) == e.1
    ensures Patched(t, L) == t
    decreases |L|
  {
    if L != [] {
      assert L[0] in L;
      SetSame(t, Split(L[0].0), L[0].1);
      assert forall e :: e in L[1..] ==> e in L;
      PatchedNoop(t, L[1..]);
    }
  }

  /** Applying prefix-free, writable leaves twice is applying them once. */
  lemma {:induction false} PatchedIdempotent(t: Val, L: seq<(JsString, Val)>)
    requires IsObject(t) && PrefixFree(L) && AllReachable(t, L)
    ensures Patched(Patched(t, L), L) == Patched(t, L)
  {
    var r := Patched(t, L);
    forall e | e in L
      ensures Present(r, Split(e.0)) && GetAtPath(r, Split(e.0)) == e.1
    {
      var j :| 0 <= j < |L| && L[j] == e;
      PatchedWrites(t, L, j);
    }
    PatchedNoop(r, L);
  }

  /** applyPatch with a plain object as the patch: every leaf path of the
      patch reads as the patch's value there, every path that diverges from
      all of them reads as before, and applying the patch again changes
      nothing. */
  lemma {:induction false} ApplyPatchSpec(t: Val, p: Val)
    requires t.Obj? && PlainObj(p)
    requires forall q :: IsLeafPath(p, q) ==> Reachable(t, q)
    ensures var r := Patched(t, Leaves(p, []));
      && (forall q :: IsLeafPath(p, q) ==> GetAtPath(r, q) == GetAtPath(p, q))
      && (forall q :: (forall q' :: IsLeafPath(p, q') ==> Diverge(q', q)) ==> GetAtPath(r, q) == GetAtPath(t, q))
      && Patched(r, Leaves(p, [])) == r
  {
    var L := Leaves(p, []);
    var r := Patched(t, L);
    LeavesExact(p);
    assert AllReachable(t, L);
    AllWritesReachable(t, L);
    forall q | IsLeafPath(p, q)
      ensures GetAtPath(r, q) == GetAtPath(p, q)
    {
      var e :| e in L && Split(e.0) == q;
      var j :| 0 <= j < |L| && L[j] == e;
      PatchedWrites(t, L, j);
    }
    forall q | forall q' :: IsLeafPath(p, q') ==> Diverge(q', q)
      ensures GetAtPath(r, q) == GetAtPath(t, q)
    {
      PatchedFrame(t, L, q);
    }
    PatchedIdempotent(t, L);
  }

  /** The leaves of one key of an object, and the leaves of the keys after
      it: how the loop below advances. */
  lemma {:induction false} FieldStep(r: Val, obj: Val, i: nat, base: JsString)
    requires IsObject(r) && obj.Obj? && i < |obj.fields|
    ensures Patched(r, FieldLeaves(obj, i, base))
         == Patched(Patched(r, Visit(obj.fields[i].1, JoinKey(base, obj.fields[i].0))), FieldLeaves(obj, i + 1, base))
  {
    FieldLeavesUnfold(obj, i, base);
    PatchedAppend(r, KeyLeaves(obj, i, base), FieldLeaves(obj, i + 1, base));
  }

  lemma {:induction false} ItemStep(r: Val, items: seq<Val>, i: nat, base: JsString)
    requires IsObject(r) && i < |items|
    ensures Patched(r, ItemLeaves(items, i, base))
         == Patched(Patched(r, Visit(items[i], JoinKey(base, IndexKey(i)))), ItemLeaves(items, i + 1, base))
  {
    PatchedAppend(r, Visit(items[i], JoinKey(base, IndexKey(i))), ItemLeaves(items, i + 1, base));
  }

  /** traverseLeaves of useForm.ts with the callback of applyPatch, step by step:
      nothing for a value that is not an object, otherwise a loop over its
      keys. */
  method TraversePatch(target: Val, obj: Val, base: JsString) returns (r: Val)
    requires IsObject(target)
    ensures r == Patched(target, Leaves(obj, base))
    decreases obj, 2
  {
    match obj {
      case Obj(_) => r := PatchFields(target, obj, base);
      case Arr(items) => r := PatchItems(target, obj, base);
      case _ => r := target;
    }
  }

  /** The callback on one reported key: recurse into a value that is an
      object but not an array, write any other value at its path. */
  method PatchKey(target: Val, val: Val, path: JsString) returns (r: Val)
    requires IsObject(target)
    ensures r == Patched(target, Visit(val, path))
    decreases val, 3
  {
    if val.Obj? {
      r := TraversePatch(target, val, path);
    } else {
      r := WriteAtPath(target, Split(path), val);
      assert [(path, val)][1..] == [];
    }
  }

  /** The loop over the keys of an object stands before key `i`, and
      patching the leaves of the keys from `i` on into `r` gives `goal`. */
  ghost predicate FieldsLeft(r: Val, obj: Val, i: nat, base: JsString, goal: Val) {
    IsObject(r) && obj.Obj? && i <= |obj.fields| && Patched(r, FieldLeaves(obj, i, base)) == goal
  }

  /** The same for the loop over the elements of an array. */
  ghost predicate ItemsLeft(r: Val, obj: Val, i: nat, base: JsString, goal: Val) {
    IsObject(r) && obj.Arr? && i <= |obj.items| && Patched(r, ItemLeaves(obj.items, i, base)) == goal
  }

  method PatchFields(target: Val, obj: Val, base: JsString) returns (r: Val)
    requires IsObject(target) && obj.Obj?
    ensures r == Patched(target, FieldLeaves(obj, 0, base))
    decreases obj, 1
  {
    ghost var goal := Patched(target, FieldLeaves(obj, 0, base));
    r := target;
    for i := 0 to |obj.fields|
      invariant FieldsLeft(r, obj, i, base, goal)
    {
      r := PatchField(r, obj, i, base, goal);
    }
  }

  /** One turn of the loop over the keys of an object. */
  method PatchField(t: Val, obj: Val, i: nat, base: JsString, ghost goal: Val) returns (r: Val)
    requires FieldsLeft(t, obj, i, base, goal) && i < |obj.fields|
    ensures FieldsLeft(r, obj, i + 1, base, goal)
    decreases obj, 0
  {
    FieldStep(t, obj, i, base);
    r := PatchKey(t, obj.fields[i].1, JoinKey(base, obj.fields[i].0));
  }

  method PatchItems(target: Val, obj: Val, base: JsString) returns (r: Val)
    requires IsObject(target) && obj.Arr?
    ensures r == Patched(target, ItemLeaves(obj.items, 0, base))
    decreases obj, 1
  {
    ghost var goal := Patched(target, ItemLeaves(obj.items, 0, base));
    r := target;
    for i := 0 to |obj.items|
      invariant ItemsLeft(r, obj, i, base, goal)
    {
      r := PatchItem(r, obj, i, base, goal);
    }
  }

  /** One turn of the loop over the elements of an array. */
  method PatchItem(t: Val, obj: Val, i: nat, base: JsString, ghost goal: Val) returns (r: Val)
    requires ItemsLeft(t, obj, i, base, goal) && i < |obj.items|
    ensures ItemsLeft(r, obj, i + 1, base, goal)
    decreases obj, 0
  {
    ItemStep(t, obj.items, i, base);
    r := PatchKey(t, obj.items[i], JoinKey(base, IndexKey(i)));
  }

  /** applyPatch: the leaves of `values`, from the top, written into `target`. */
  method ApplyPatch(target: Val, values: Val) returns (r: Val)
    requires IsObject(target)
    ensures r == Patched(target, Leaves(values, []))
  {
    r := TraversePatch(target, values, []);
  }
}
