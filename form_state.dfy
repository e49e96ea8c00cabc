/** `useForm`: a form's values, the snapshot it resets to, and the encrypted
    copy it keeps in the browser's web storage under the page's path. */
module UseForm {
  import opened JsValue
  import opened Path
  import opened Access
  import opened Traverse
  import opened Patch
  import opened Replace
  import opened Json
  import opened JsonRoundTrip
  import opened Base64
  import opened Codec

  datatype StorageType = Session | Local

  /** The browser state the form touches: the two web storage areas and
      the path of the current page. Several forms share one browser. */
  class Browser {
    var local: map<JsString, JsString>
    var session: map<JsString, JsString>
    var pathname: JsString

    constructor(local: map<JsString, JsString>, session: map<JsString, JsString>, pathname: JsString)
      ensures this.local == local && this.session == session && this.pathname == pathname
    {
      this.local := local;
      this.session := session;
      this.pathname := pathname;
    }

    /** `getStorage`: localStorage for 'local', sessionStorage otherwise. */
    function Store(kind: StorageType): (m: map<JsString, JsString>)
      reads this
      ensures kind == Local ==> m == local
      ensures kind == Session ==> m == session
    {
      if kind == Local then local else session
    }

    /** `getCacheKey`: the path of the current page, read at each call. */
    function CacheKey(): (k: JsString)
      reads this
      ensures k == pathname
    {
      pathname
    }

    /** `getItem`: the stored string, or null (None) when there is none. */
    function GetItem(kind: StorageType, key: JsString): (r: Option<JsString>)
      reads this
      ensures r.Some? <==> key in Store(kind)
      ensures r.Some? ==> r.value == Store(kind)[key]
    {
      if key in Store(kind) then Some(Store(kind)[key]) else None
    }

    method SetItem(kind: StorageType, key: JsString, value: JsString)
      modifies this
      ensures Store(kind) == old(Store(kind))[key := value]
      ensures kind == Local ==> session == old(session)
      ensures kind == Session ==> local == old(local)
      ensures pathname == old(pathname)
    {
      if kind == Local {
        local := local[key := value];
      } else {
        session := session[key := value];
      }
    }

    method RemoveItem(kind: StorageType, key: JsString)
      modifies this
      ensures Store(kind) == old(Store(kind)) - {key}
      ensures kind == Local ==> session == old(session)
      ensures kind == Session ==> local == old(local)
      ensures pathname == old(pathname)
    {
      if kind == Local {
        local := local - {key};
      } else {
        session := session - {key};
      }
    }
  }

  /** The options object; an absent option is None. */
  datatype Options = Options(cache: Option<bool>, secret: Option<JsString>, storage: Option<StorageType>, autoPersist: Option<bool>)

  /** The options in force once the defaults are filled in. */
  datatype Settings = Settings(cache: bool, secret: JsString, storage: StorageType, autoPersist: bool)

  /** The default secret, 'AK78FB'. */
  const DefaultSecret: JsString := [0x41, 0x4B, 0x37, 0x38, 0x46, 0x42]

  function Given<T>(o: Option<T>, default: T): T {
    if o.Some? then o.value else default
  }

  /** Destructuring `options ?? {}` with the defaults cache = true,
      secret = 'AK78FB', storage = 'session', autoPersist = true: a given
      option wins, an absent one takes its default. */
  function Configure(options: Option<Options>): (s: Settings)
    ensures options.None? ==> s == Settings(true, DefaultSecret, Session, true)
    ensures options.Some? && options.value.cache.Some? ==> s.cache == options.value.cache.value
    ensures options.Some? && options.value.secret.Some? ==> s.secret == options.value.secret.value
    ensures options.Some? && options.value.storage.Some? ==> s.storage == options.value.storage.value
    ensures options.Some? && options.value.autoPersist.Some? ==> s.autoPersist == options.value.autoPersist.value
    ensures options.Some? && options.value.cache.None? ==> s.cache
    ensures options.Some? && options.value.secret.None? ==> s.secret == DefaultSecret
    ensures options.Some? && options.value.storage.None? ==> s.storage == Session
    ensures options.Some? && options.value.autoPersist.None? ==> s.autoPersist
  {
    match options
    case None => Settings(true, DefaultSecret, Session, true)
    case Some(o) => Settings(Given(o.cache, true), Given(o.secret, DefaultSecret), Given(o.storage, Session), Given(o.autoPersist, true))
  }

  /** Every combination of settings can be chosen by giving all four
      options, and leaving the options out is the same as passing `{}`:
      both give the defaults, with caching on. */
  lemma {:induction false} ConfigureChoice(s: Settings)
    ensures Configure(Some(Options(Some(s.cache), Some(s.secret), Some(s.storage), Some(s.autoPersist)))) == s
    ensures Configure(None) == Configure(Some(Options(None, None, None, None)))
    ensures Caching(Configure(None)) && Configure(None).autoPersist
  {
    assert DefaultSecret != [];
  }

  /** The cache is read and written only when it is on and the secret is
      not the empty string. */
  predicate Caching(s: Settings) {
    s.cache && s.secret != []
  }

  /** What the restore at construction does with the stored entry. */
  datatype CacheAction = Keep | Load(data: Val) | Discard

  /** No entry (or an empty one, which is falsy) is left alone; an entry that
      decrypts is loaded; one whose atob or JSON.parse throws is removed. */
  function CacheEntry(cached: Option<JsString>, secret: JsString): (r: CacheAction)
    ensures (cached.None? || cached.value == []) ==> r == Keep
    ensures cached.Some? && cached.value != [] ==>
      (r.Load? <==> Decrypt(cached.value, secret).Some?) &&
      (r.Load? ==> r.data == Decrypt(cached.value, secret).value) &&
      (r.Discard? <==> Decrypt(cached.value, secret).None?)
  {
    if cached.None? || cached.value == [] then Keep
    else match Decrypt(cached.value, secret)
      case Some(data) => Load(data)
      case None => Discard
  }

  /** The form's values right after construction. */
  function Restored(initial: Val, s: Settings, cached: Option<JsString>): (r: Val)
    requires initial.Obj?
    ensures r.Obj?
    ensures !Caching(s) ==> r == initial
    ensures Caching(s) ==> match CacheEntry(cached, s.secret)
      case Load(data) => r == Replaced(initial, data)
      case _ => r == initial
  {
    if Caching(s) then
      match CacheEntry(cached, s.secret)
      case Load(data) => Replaced(initial, data)
      case _ => initial
    else initial
  }

  /** Atob of the empty string is the empty string. */
  lemma {:induction false} AtobEmpty()
    ensures Atob([]) == Some([])
  {
    assert RemoveWs([]) == [];
    assert StripPadding([]) == [];
  }

  /** An entry that persist wrote is loaded back by the next construction
      as what JSON carries of the persisted form. */
  lemma {:induction false} PersistedLoads(v: Val, secret: JsString)
    requires WellFormed(v) && Encrypt(v, secret).Some?
    ensures CacheEntry(Encrypt(v, secret), secret) == Load(Normalize(v))
  {
    var x := Xor(Text(v), secret);
    TextStart(v);
    AtobBtoa(x);
    AtobEmpty();
    assert Btoa(x).value != [];
    DecryptEncrypt(v, secret);
  }

  /** Constructing a form with caching on, after a form on the same page
      persisted `saved`, gives replaceValues of the initial values with what
      JSON carries of `saved`. */
  lemma {:induction false} RemountLoads(initial: Val, s: Settings, saved: Val)
    requires initial.Obj? && Caching(s) && WellFormed(saved) && Encrypt(saved, s.secret).Some?
    ensures Restored(initial, s, Encrypt(saved, s.secret)) == Replaced(initial, Normalize(saved))
  {
    PersistedLoads(saved, s.secret);
  }

  /** After such a remount, each key of the saved form whose value has no
      undefined inside holds exactly that value. */
  lemma {:induction false} RemountRestores(initial: Val, s: Settings, saved: Val, k: JsString)
    requires initial.Obj? && Caching(s) && saved.Obj? && WellFormed(saved) && Encrypt(saved, s.secret).Some?
    requires Has(saved, k) && Defined(Get(saved, k))
    ensures Get(Restored(initial, s, Encrypt(saved, s.secret)), k) == Get(saved, k)
  {
    RemountLoads(initial, s, saved);
    var norm := Normalize(saved);
    NormFieldsDistinct(saved, 0);
    var i := FindKey(saved.fields, k);
    var at := NormFieldsKeep(saved, 0, i);
    FindKeyAt(norm.fields, k, at);
    ReplacedSpec(initial, norm, k);
    NormalizeDefined(Get(saved, k));
  }

  /** A member whose value is not undefined keeps its key, and its value
      normalised, at a position `at` of the normalised members before which
      that key does not occur. */
  lemma {:induction false} NormFieldsKeep(v: Val, i: nat, m: nat) returns (at: nat)
    requires v.Obj? && i <= m < |v.fields| && !v.fields[m].1.Undef?
    requires forall p :: i <= p < m ==> v.fields[p].0 != v.fields[m].0
    ensures at < |NormFields(v, i)| && NormFields(v, i)[at] == (v.fields[m].0, Normalize(v.fields[m].1))
    ensures forall q :: 0 <= q < at ==> NormFields(v, i)[q].0 != v.fields[m].0
    decreases m - i
  {
    var j := NextKept(v.fields, i);
    assert j <= m;
    var head := (v.fields[j].0, Normalize(v.fields[j].1));
    var tail := NormFields(v, j + 1);
    assert NormFields(v, i) == [head] + tail;
    if j == m {
      at := 0;
    } else {
      var later := NormFieldsKeep(v, j + 1, m);
      at := later + 1;
      assert forall q :: 0 < q <= later ==> ([head] + tail)[q] == tail[q - 1];
    }
  }

  /** The objects the form works on: the values and the snapshot are
      objects, and no object inside either repeats a key. */
  predicate ObjectState(form: Val, snapshot: Val) {
    form.Obj? && WellFormed(form) && snapshot.Obj? && WellFormed(snapshot)
  }

  /** The form right after construction is well-formed whenever the
      initial values are: loaded cache data comes from JSON.parse, which
      never repeats a key. */
  lemma {:induction false} RestoredWellFormed(initial: Val, s: Settings, cached: Option<JsString>)
    requires initial.Obj? && WellFormed(initial)
    ensures WellFormed(Restored(initial, s, cached))
  {
    if Caching(s) && CacheEntry(cached, s.secret).Load? {
      ReplacedWellFormed(initial, CacheEntry(cached, s.secret).data);
    }
  }

  /** The storage effect of the restore: a stored entry that does not
      decrypt is removed from the configured storage, and nothing else
      changes. */
  predicate Restoring(s: Settings, cached: Option<JsString>,
                      local: map<JsString, JsString>, session: map<JsString, JsString>, pathname: JsString,
                      local': map<JsString, JsString>, session': map<JsString, JsString>, pathname': JsString)
  {
    var discard := Caching(s) && CacheEntry(cached, s.secret).Discard?;
    pathname' == pathname &&
    local' == (if discard && s.storage == Local then local - {pathname} else local) &&
    session' == (if discard && s.storage == Session then session - {pathname} else session)
  }

  /** The restore at construction: with caching on, read the entry under the
      page's path; load an entry that decrypts with replaceValues, remove one
      that does not. */
  method Restore(initial: Val, s: Settings, env: Browser) returns (values: Val)
    requires initial.Obj? && WellFormed(initial)
    modifies env
    ensures values.Obj? && WellFormed(values)
    ensures values == Restored(initial, s, old(env.GetItem(s.storage, env.pathname)))
    ensures Restoring(s, old(env.GetItem(s.storage, env.pathname)),
                      old(env.local), old(env.session), old(env.pathname), env.local, env.session, env.pathname)
  {
    values := initial;
    if Caching(s) {
      var cached := env.GetItem(s.storage, env.CacheKey());
      match CacheEntry(cached, s.secret) {
        case Load(data) =>
          values := ReplaceValues(initial, data);
          ReplacedWellFormed(initial, data);
        case Discard =>
          env.RemoveItem(s.storage, env.CacheKey());
        case Keep =>
      }
    }
  }

  /** What `useForm` returns, with the settings it closes over. */
  class FormState {
    var form: Val
    const snapshot: Val
    const settings: Settings
    const env: Browser

    predicate Valid()
      reads this
    {
      ObjectState(form, snapshot)
    }

    /** `useForm(initialValues, options)`: the form holds the initial values,
        the snapshot a copy of them; the cache is then restored into the
        values (see Restore). */
    constructor(initialValues: Val, options: Option<Options>, env: Browser)
      requires initialValues.Obj? && WellFormed(initialValues)
      modifies env
      ensures Valid()
      ensures this.env == env && settings == Configure(options) && snapshot == initialValues
      ensures form == Restored(initialValues, settings, old(env.GetItem(Configure(options).storage, env.pathname)))
      ensures Restoring(Configure(options), old(env.GetItem(Configure(options).storage, env.pathname)),
                        old(env.local), old(env.session), old(env.pathname), env.local, env.session, env.pathname)
    {
      var s := Configure(options);
      var values := Restore(initialValues, s, env);
      this.form := values;
      this.snapshot := initialValues;
      this.settings := s;
      this.env := env;
    }

    /** `reset`: replaceValues with the snapshot. Every key of the snapshot
        holds its snapshot value again; keys added since then are kept but
        hold undefined. */
    method Reset()
      requires Valid()
      modifies this
      ensures Valid()
      ensures form == Replaced(old(form), snapshot)
      ensures forall k :: Has(snapshot, k) ==> Get(form, k) == Get(snapshot, k)
      ensures forall k :: Has(old(form), k) && !Has(snapshot, k) ==> Has(form, k) && Get(form, k) == Undef
      ensures Replaced(form, snapshot) == form
    {
      var before := form;
      form := ReplaceValues(form, snapshot);
      ReplacedWellFormed(before, snapshot);
      forall k
        ensures Has(snapshot, k) ==> Get(form, k) == Get(snapshot, k)
        ensures Has(before, k) && !Has(snapshot, k) ==> Has(form, k) && Get(form, k) == Undef
      {
        ReplacedSpec(before, snapshot, k);
      }
      ReplacedTwice(before, snapshot);
    }

    /** `setFieldValue(path, value)`: setAtPath on the form. */
    method SetFieldValue(path: JsString, value: Val)
      requires Valid() && WellFormed(value)
      modifies this
      ensures Valid()
      ensures form == SetAtPath(old(form), Split(path), value)
      ensures Reachable(old(form), Split(path)) ==> GetFieldValue(path) == value
      ensures Reachable(old(form), Split(path)) ==>
        forall q :: Diverge(Split(path), q) ==> GetAtPath(form, q) == GetAtPath(old(form), q)
    {
      var before := form;
      form := WriteAtPath(form, Split(path), value);
      SetWellFormed(before, Split(path), value);
      if Reachable(before, Split(path)) {
        SetGet(before, Split(path), value);
        forall q | Diverge(Split(path), q)
          ensures GetAtPath(form, q) == GetAtPath(before, q)
        {
          SetFrame(before, Split(path), value, q);
        }
      }
    }

    /** `getFieldValue(path)`: getAtPath on the form. A field reads as
        something other than undefined only when every key of its path is
        an own property and every value before the last key is an object. */
    function GetFieldValue(path: JsString): (r: Val)
      reads this
      ensures r != Undef ==> Present(form, Split(path))
      ensures !IsObject(form) ==> r == Undef
    {
      var ks := Split(path);
      if GetAtPath(form, ks) != Undef then GetPresent(form, ks); GetAtPath(form, ks)
      else GetAtPath(form, ks)
    }

    /** `setFieldsValue(values)`: applyPatch on the form. */
    method SetFieldsValue(values: Val)
      requires Valid() && WellFormed(values)
      modifies this
      ensures Valid()
      ensures form == Patched(old(form), Leaves(values, []))
    {
      var before := form;
      form := ApplyPatch(form, values);
      LeavesWellFormed(values, []);
      PatchedWellFormed(before, Leaves(values, []));
    }

    /** `persist`: with caching on, store the encrypted form under the page's
        path. btoa throws when the xor'd JSON text has a code unit above
        0xFF; then `ok` is false and nothing is stored. */
    method Persist() returns (ok: bool)
      requires Valid()
      modifies env
      ensures ok <==> !Caching(settings) || Encrypt(form, settings.secret).Some?
      ensures env.pathname == old(env.pathname)
      ensures Caching(settings) && ok ==>
        env.Store(settings.storage) == old(env.Store(settings.storage))[env.pathname := Encrypt(form, settings.secret).value]
      ensures !(Caching(settings) && ok) ==> env.Store(settings.storage) == old(env.Store(settings.storage))
      ensures settings.storage == Local ==> env.session == old(env.session)
      ensures settings.storage == Session ==> env.local == old(env.local)
      ensures Caching(settings) && ok ==>
        CacheEntry(env.GetItem(settings.storage, env.pathname), settings.secret) == Load(Normalize(form))
    {
      if !Caching(settings) {
        return true;
      }
      match Encrypt(form, settings.secret) {
        case None =>
          ok := false;
        case Some(text) =>
          env.SetItem(settings.storage, env.CacheKey(), text);
          PersistedLoads(form, settings.secret);
          ok := true;
      }
    }

    /** `clearCache`: remove the entry under the page's path, whether or not
        caching is on. */
    method ClearCache()
      modifies env
      ensures env.Store(settings.storage) == old(env.Store(settings.storage)) - {old(env.pathname)}
      ensures env.pathname == old(env.pathname)
      ensures settings.storage == Local ==> env.session == old(env.session)
      ensures settings.storage == Session ==> env.local == old(env.local)
    {
      env.RemoveItem(settings.storage, env.CacheKey());
    }

    /** The unmount hook, registered when cache and autoPersist are both on:
        it persists. Otherwise unmounting touches nothing. */
    method Dispose() returns (ok: bool)
      requires Valid()
      modifies env
      ensures settings.cache && settings.autoPersist ==>
        (ok <==> !Caching(settings) || Encrypt(form, settings.secret).Some?) &&
        (Caching(settings) && ok ==>
          env.Store(settings.storage) == old(env.Store(settings.storage))[env.pathname := Encrypt(form, settings.secret).value]) &&
        (!(Caching(settings) && ok) ==> env.Store(settings.storage) == old(env.Store(settings.storage))) &&
        (Caching(settings) && ok ==>
          CacheEntry(env.GetItem(settings.storage, env.pathname), settings.secret) == Load(Normalize(form)))
      ensures !(settings.cache && settings.autoPersist) ==> ok && env.local == old(env.local) && env.session == old(env.session)
      ensures settings.storage == Local ==> env.session == old(env.session)
      ensures settings.storage == Session ==> env.local == old(env.local)
      ensures env.pathname == old(env.pathname)
    {
      if settings.cache && settings.autoPersist {
        ok := Persist();
      } else {
        ok := true;
      }
    }
  }
}
