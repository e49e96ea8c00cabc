/** Dot-separated field paths: `path.split('.')` and the joining done while
    enumerating leaves. */
module Path {
  import opened JsValue

  const Dot: Unit := 0x2E

  /** A key that survives a join followed by a split, and that keeps the
      joined path non-empty: not empty, and without a dot. */
  predicate PlainKey(k: JsString) {
    k != [] && Dot !in k
  }

  /** Index of the first dot of `s`, or |s| when there is none. */
  function FirstDot(s: JsString): (i: nat)
    ensures i <= |s| && Dot !in s[..i]
    ensures i < |s| ==> s[i] == Dot
  {
    if s == [] then 0
    else if s[0] == Dot then 0
    else
      var j := FirstDot(s[1..]);
      assert s[..1 + j] == [s[0]] + s[1..][..j];
      1 + j
  }

  /** `s.split('.')`: never empty; an empty string gives one empty key. */
  function Split(s: JsString): (ks: seq<JsString>)
    ensures |ks| >= 1
    ensures forall i :: 0 <= i < |ks| ==> Dot !in ks[i]
    decreases |s|
  {
    var i := FirstDot(s);
    if i == |s| then [s] else [s[..i]] + Split(s[i + 1..])
  }

  /** `ks.join('.')`. */
  function Join(ks: seq<JsString>): JsString
    requires |ks| >= 1
  {
    if |ks| == 1 then ks[0] else ks[0] + [Dot] + Join(ks[1..])
  }

  /** The leaf path of a key in traverseLeaves (useForm.ts): the key alone
      under an empty base, otherwise the base, a dot and the key. */
  function JoinKey(base: JsString, k: JsString): JsString {
    if base == [] then k else base + [Dot] + k
  }

  lemma {:induction false} FirstDotOfAppend(k: JsString, rest: JsString)
    requires Dot !in k
    ensures FirstDot(k + [Dot] + rest) == |k|
    ensures FirstDot(k) == |k|
  {
    if k != [] {
      assert (k + [Dot] + rest)[1..] == k[1..] + [Dot] + rest;
      FirstDotOfAppend(k[1..], rest);
    }
  }

  /** Splitting undoes joining, provided no key holds a dot. */
  lemma {:induction false} SplitJoin(ks: seq<JsString>)
    requires |ks| >= 1 && forall i :: 0 <= i < |ks| ==> Dot !in ks[i]
    ensures Split(Join(ks)) == ks
  {
    if |ks| == 1 {
      FirstDotOfAppend(ks[0], []);
    } else {
      var rest := Join(ks[1..]);
      FirstDotOfAppend(ks[0], rest);
      JoinCons(ks[0], ks[1..]);
      assert [ks[0]] + ks[1..] == ks;
      var s := ks[0] + [Dot] + rest;
      Unjoin(ks[0], rest);
      SplitAtDot(s, |ks[0]|);
      SplitJoin(ks[1..]);
    }
  }

  /** Joining undoes splitting, for every string. */
  lemma {:induction false} JoinSplit(s: JsString)
    ensures Join(Split(s)) == s
    decreases |s|
  {
    var i := FirstDot(s);
    if i < |s| {
      var tail := s[i + 1..];
      SplitAtDot(s, i);
      JoinSplit(tail);
      JoinCons(s[..i], Split(tail));
      Rejoin(s, i);
    }
  }

  lemma {:induction false} SplitAtDot(s: JsString, i: nat)
    requires i == FirstDot(s) && i < |s|
    ensures Split(s) == [s[..i]] + Split(s[i + 1..])
  {
    assert FirstDot(s) != |s|;
  }

  lemma {:induction false} JoinCons(k: JsString, ks: seq<JsString>)
    requires |ks| >= 1
    ensures Join([k] + ks) == k + [Dot] + Join(ks)
  {
    assert ([k] + ks)[1..] == ks;
  }

  lemma {:induction false} Unjoin(k: JsString, rest: JsString)
    ensures (k + [Dot] + rest)[..|k|] == k && (k + [Dot] + rest)[|k| + 1..] == rest
  {
  }

  lemma {:induction false} Rejoin(s: JsString, i: nat)
    requires i < |s| && s[i] == Dot
    ensures s[..i] + [Dot] + s[i + 1..] == s
  {
  }

  /** Extending a joined path by one key, as the leaf walk does when the
      path so far is not empty. */
  lemma {:induction false} JoinExtends(ks: seq<JsString>, k: JsString)
    requires |ks| >= 1
    ensures Join(ks + [k]) == Join(ks) + [Dot] + k
    ensures Join(ks) != [] ==> Join(ks + [k]) == JoinKey(Join(ks), k)
  {
    if |ks| > 1 {
      assert (ks + [k])[1..] == ks[1..] + [k];
      JoinExtends(ks[1..], k);
    }
  }
}
