/** Reading and writing the value at a key path inside a nested value:
    `getAtPath` and `setAtPath` of the form engine. Paths are the keys that
    `path.split('.')` produces; Path.Split links the two. */
module Access {
  import opened JsValue

  /** One step of the `reduce` in getAtPath: undefined unless the current
      value is an object (arrays included). */
  function Step(cur: Val, k: JsString): Val {
    if IsObject(cur) then Get(cur, k) else Undef
  }

  /** getAtPath on an already split path: a left fold of Step over the keys. */
  function GetAtPath(t: Val, ks: seq<JsString>): Val
    decreases |ks|
  {
    if ks == [] then t else GetAtPath(Step(t, ks[0]), ks[1..])
  }

  /** The value a non-last key of setAtPath leads into: the current value if
      it is an object (arrays included), otherwise a fresh `{}`. */
  function ObjectOr(x: Val): (r: Val)
    ensures IsObject(r)
    ensures IsObject(x) ==> r == x
  {
    if IsObject(x) then x else Obj([])
  }

  function Descend(cur: Val, k: JsString): Val
    requires IsObject(cur)
  {
    ObjectOr(Get(cur, k))
  }

  /** setAtPath on an already split path, as a value: each non-last key is
      replaced by an object when it does not hold one, and the value is
      stored under the last key. */
  function SetAtPath(t: Val, ks: seq<JsString>, v: Val): (r: Val)
    requires IsObject(t) && |ks| >= 1
    ensures r.Obj? == t.Obj? && r.Arr? == t.Arr?
    decreases |ks|
  {
    if |ks| == 1 then Put(t, ks[0], v)
    else Put(t, ks[0], SetAtPath(Descend(t, ks[0]), ks[1..], v))
  }

  /** Every write that setAtPath makes along `ks` is one the model represents
      (no key other than an index is written into an array). */
  predicate Reachable(t: Val, ks: seq<JsString>)
    requires IsObject(t) && |ks| >= 1
    decreases |ks|
  {
    Writable(t, ks[0]) && (|ks| == 1 || Reachable(Descend(t, ks[0]), ks[1..]))
  }

  /** Every key along `ks` is an own property, and every value before the
      last one is an object. */
  predicate Present(t: Val, ks: seq<JsString>)
    requires |ks| >= 1
    decreases |ks|
  {
    IsObject(t) && Has(t, ks[0]) && (|ks| == 1 || Present(Get(t, ks[0]), ks[1..]))
  }

  /** Neither path is a prefix of the other. */
  predicate Diverge(p: seq<JsString>, q: seq<JsString>) {
    !(p <= q) && !(q <= p)
  }

  /** getAtPath never fails: a path through a value that is not an object
      reads as undefined. */
  lemma {:induction false} GetThroughNonObject(t: Val, ks: seq<JsString>)
    requires !IsObject(t) && |ks| >= 1
    ensures GetAtPath(t, ks) == Undef
    decreases |ks|
  {
    if |ks| > 1 {
      GetThroughNonObject(Undef, ks[1..]);
    }
  }

  /** Reading a concatenated path is reading in two stages. */
  lemma {:induction false} GetAtPathAppend(t: Val, a: seq<JsString>, b: seq<JsString>)
    ensures GetAtPath(t, a + b) == GetAtPath(GetAtPath(t, a), b)
    decreases |a|
  {
    if a != [] {
      assert (a + b)[0] == a[0];
      assert (a + b)[1..] == a[1..] + b;
      assert GetAtPath(t, a + b) == GetAtPath(Step(t, a[0]), a[1..] + b);
      GetAtPathAppend(Step(t, a[0]), a[1..], b);
    } else {
      assert a + b == b;
    }
  }

  /** Set then get: afterwards the path reads as the value written. */
  lemma {:induction false} SetGet(t: Val, ks: seq<JsString>, v: Val)
    requires IsObject(t) && |ks| >= 1 && Reachable(t, ks)
    ensures GetAtPath(SetAtPath(t, ks, v), ks) == v
    decreases |ks|
  {
    var k := ks[0];
    if |ks| == 1 {
      PutGet(t, k, v, k);
    } else {
      var child := SetAtPath(Descend(t, k), ks[1..], v);
      PutGet(t, k, child, k);
      SetGet(Descend(t, k), ks[1..], v);
    }
  }

  /** Nothing unrelated changes: for a representable write, a path that is
      neither a prefix nor an extension of the written path reads as before.
      (A write of `length` into an array is not representable; in JavaScript
      it truncates or extends the array.) */
  lemma {:induction false} SetFrame(t: Val, ks: seq<JsString>, v: Val, q: seq<JsString>)
    requires IsObject(t) && |ks| >= 1 && Reachable(t, ks) && Diverge(ks, q)
    ensures GetAtPath(SetAtPath(t, ks, v), q) == GetAtPath(t, q)
    decreases |ks|
  {
    var k := ks[0];
    var child := if |ks| == 1 then v else SetAtPath(Descend(t, k), ks[1..], v);
    var w := SetAtPath(t, ks, v);
    assert w == Put(t, k, child);
    PutGet(t, k, child, q[0]);
    if q[0] == k {
      assert |ks| > 1 && |q| > 1;
      assert Diverge(ks[1..], q[1..]);
      SetFrame(Descend(t, k), ks[1..], v, q[1..]);
      if !IsObject(Get(t, k)) {
        GetThroughNonObject(Get(t, k), q[1..]);
        if |q| > 2 { GetThroughNonObject(Undef, q[1..][1..]); }
      }
    }
  }

  /** The value that a proper, non-empty prefix of the written path leads to
      afterwards: what was there if it was an object, otherwise a fresh `{}`,
      in both cases with the rest of the path written into it. */
  lemma {:induction false} SetVivifies(t: Val, ks: seq<JsString>, v: Val, j: nat)
    requires IsObject(t) && |ks| >= 1 && Reachable(t, ks) && j < |ks|
    ensures GetAtPath(SetAtPath(t, ks, v), ks[..j])
         == SetAtPath(ObjectOr(GetAtPath(t, ks[..j])), ks[j..], v)
    decreases |ks|
  {
    if j > 0 {
      var k := ks[0];
      var child := SetAtPath(Descend(t, k), ks[1..], v);
      PutGet(t, k, child, k);
      SetVivifies(Descend(t, k), ks[1..], v, j - 1);
      assert ks[..j][1..] == ks[1..][..j - 1];
      assert ks[1..][j - 1..] == ks[j..];
      if j > 1 && !IsObject(Get(t, k)) {
        var p := ks[1..][..j - 1];
        GetThroughNonObject(Get(t, k), p);
        if |p| > 1 { GetThroughNonObject(Undef, p[1..]); }
      }
    }
  }

  /** Every key of the written path is present afterwards. */
  lemma {:induction false} SetPresent(t: Val, ks: seq<JsString>, v: Val)
    requires IsObject(t) && |ks| >= 1 && Reachable(t, ks)
    ensures Present(SetAtPath(t, ks, v), ks)
    decreases |ks|
  {
    var k := ks[0];
    if |ks| == 1 {
      PutGet(t, k, v, k);
    } else {
      var child := SetAtPath(Descend(t, k), ks[1..], v);
      PutGet(t, k, child, k);
      SetPresent(Descend(t, k), ks[1..], v);
    }
  }

  /** Writing the value a present path already holds changes nothing. */
  lemma {:induction false} SetSame(t: Val, ks: seq<JsString>, v: Val)
    requires |ks| >= 1 && Present(t, ks) && GetAtPath(t, ks) == v
    ensures SetAtPath(t, ks, v) == t
    decreases |ks|
  {
    var k := ks[0];
    if |ks| > 1 {
      SetSame(Get(t, k), ks[1..], v);
    }
    PutSame(t, k);
  }

  /** Keys present along a diverging path stay present. */
  lemma {:induction false} SetKeepsPresent(t: Val, ks: seq<JsString>, v: Val, q: seq<JsString>)
    requires IsObject(t) && |ks| >= 1 && |q| >= 1 && Diverge(ks, q) && Present(t, q)
    ensures Present(SetAtPath(t, ks, v), q)
    decreases |ks|
  {
    var k := ks[0];
    var child := if |ks| == 1 then v else SetAtPath(Descend(t, k), ks[1..], v);
    assert SetAtPath(t, ks, v) == Put(t, k, child);
    if Writable(t, k) {
      PutGet(t, k, child, q[0]);
      if q[0] == k {
        assert |ks| > 1 && |q| > 1;
        assert Diverge(ks[1..], q[1..]);
        SetKeepsPresent(Descend(t, k), ks[1..], v, q[1..]);
      }
    }
  }

  /** A diverging path that was reachable stays reachable. */
  lemma {:induction false} SetKeepsReachable(t: Val, ks: seq<JsString>, v: Val, q: seq<JsString>)
    requires IsObject(t) && |ks| >= 1 && |q| >= 1 && Diverge(ks, q) && Reachable(t, q)
    ensures Reachable(SetAtPath(t, ks, v), q)
    decreases |ks|
  {
    var k := ks[0];
    var child := if |ks| == 1 then v else SetAtPath(Descend(t, k), ks[1..], v);
    assert SetAtPath(t, ks, v) == Put(t, k, child);
    if Writable(t, k) && |q| > 1 {
      PutGet(t, k, child, q[0]);
      if q[0] == k {
        assert |ks| > 1;
        assert Diverge(ks[1..], q[1..]);
        SetKeepsReachable(Descend(t, k), ks[1..], v, q[1..]);
      }
    }
  }

  /** Writing a well-formed value keeps the target well-formed: each
      container along the path is rewritten with Put, and a fresh `{}` has
      no keys to repeat. */
  lemma {:induction false} SetWellFormed(t: Val, ks: seq<JsString>, v: Val)
    requires IsObject(t) && |ks| >= 1 && WellFormed(t) && WellFormed(v)
    ensures WellFormed(SetAtPath(t, ks, v))
    decreases |ks|
  {
    if |ks| == 1 {
      PutWellFormed(t, ks[0], v);
    } else {
      GetWellFormed(t, ks[0]);
      assert WellFormed(Descend(t, ks[0]));
      SetWellFormed(Descend(t, ks[0]), ks[1..], v);
      PutWellFormed(t, ks[0], SetAtPath(Descend(t, ks[0]), ks[1..], v));
    }
  }

  /** A path that reads as anything but undefined runs through own keys
      only, and every value before the last key is an object: a missing
      key, or a step through a value that is not an object, reads as
      undefined. */
  lemma {:induction false} GetPresent(t: Val, ks: seq<JsString>)
    requires |ks| >= 1 && GetAtPath(t, ks) != Undef
    ensures Present(t, ks)
    decreases |ks|
  {
    if !IsObject(t) {
      GetThroughNonObject(t, ks);
    } else {
      var k := ks[0];
      if !Has(t, k) {
        assert Get(t, k) == Undef;
        if |ks| > 1 {
          GetThroughNonObject(Undef, ks[1..]);
        }
      } else if |ks| > 1 {
        GetPresent(Get(t, k), ks[1..]);
      }
    }
  }

  /** A path that extends the written one reads inside the written value. */
  lemma {:induction false} SetExtends(t: Val, ks: seq<JsString>, v: Val, rest: seq<JsString>)
    requires IsObject(t) && |ks| >= 1 && Reachable(t, ks)
    ensures GetAtPath(SetAtPath(t, ks, v), ks + rest) == GetAtPath(v, rest)
  {
    GetAtPathAppend(SetAtPath(t, ks, v), ks, rest);
    SetGet(t, ks, v);
  }

  /** The container that the walk of setAtPath holds after `i` keys. */
  function Along(t: Val, ks: seq<JsString>, i: nat): (c: Val)
    requires IsObject(t) && i <= |ks|
    ensures IsObject(c)
  {
    if i == 0 then t else Descend(Along(t, ks, i - 1), ks[i - 1])
  }

  lemma {:induction false} WriteBackStep(t: Val, ks: seq<JsString>, v: Val, i: nat)
    requires IsObject(t) && i + 1 < |ks|
    ensures SetAtPath(Along(t, ks, i), ks[i..], v)
         == Put(Along(t, ks, i), ks[i], SetAtPath(Along(t, ks, i + 1), ks[i + 1..], v))
  {
    assert ks[i..][1..] == ks[i + 1..];
  }

  /** setAtPath of useForm.ts, step by step: a loop over every key but the last
      gives a key that does not hold an object a fresh `{}` and steps into
      it; then the last key is written. Where JavaScript writes through the
      shared reference `cur`, this value model writes each visited container
      back into its parent. */
  method WriteAtPath(target: Val, keys: seq<JsString>, value: Val) returns (r: Val)
    requires IsObject(target) && |keys| >= 1
    ensures r == SetAtPath(target, keys, value)
  {
    var last := |keys| - 1;
    var visited: seq<Val> := [];
    var cur := target;
    for i := 0 to last
      invariant |visited| == i
      invariant cur == Along(target, keys, i)
      invariant forall j {:trigger visited[j]} :: 0 <= j < i ==> visited[j] == Along(target, keys, j)
    {
      visited := visited + [cur];
      cur := Descend(cur, keys[i]);
    }
    r := Put(cur, keys[last], value);
    assert keys[last..] == [keys[last]];
    var i := last;
    while i > 0
      invariant 0 <= i <= last
      invariant r == SetAtPath(Along(target, keys, i), keys[i..], value)
    {
      i := i - 1;
      WriteBackStep(target, keys, value, i);
      r := Put(visited[i], keys[i], r);
    }
    assert keys[0..] == keys;
  }
}
