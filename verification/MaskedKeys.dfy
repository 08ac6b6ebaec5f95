/** What the masker and to_jsonable do to the keys of dictionaries: nothing. A URL
    with credentials inside a key stays, and this says exactly when there is none. */
module MaskedKeys {
  import opened Options
  import opened UrlCredentials
  import opened Masking
  import opened Serialization

  /** No key at any depth shows URL credentials. */
  ghost predicate KeysClean(v: Value) {
    match v
    case List(items) => forall i :: 0 <= i < |items| ==> KeysClean(items[i])
    case Tuple(items) => forall i :: 0 <= i < |items| ==> KeysClean(items[i])
    case SetOf(items) => forall i :: 0 <= i < |items| ==> KeysClean(items[i])
    case Foreign(_, items) => forall i :: 0 <= i < |items| ==> KeysClean(items[i])
    case Dict(entries) => forall i :: 0 <= i < |entries| ==> Clean(entries[i].key) && KeysClean(entries[i].value)
    case Model(dump) => KeysClean(dump)
    case _ => true
  }

  /** No key that the masker leaves in the tree does: every key of a dictionary it
      visits counts, those inside a value only if the value is neither under a
      secret key nor overwritten. */
  ghost predicate KeysKept(py: Python, v: Value) {
    match v
    case List(items) => forall i :: 0 <= i < |items| ==> KeysKept(py, items[i])
    case Tuple(items) => forall i :: 0 <= i < |items| ==> KeysKept(py, items[i])
    case Dict(entries) =>
      forall i :: 0 <= i < |entries| ==>
        Clean(entries[i].key) && (Current(entries, i) && !py.SecretKey(entries[i].key) ==> KeysKept(py, entries[i].value))
    case _ => KeysClean(v)
  }

  /** The same for what to_jsonable is given. */
  ghost predicate KeysShown(py: Python, v: Value) {
    match v
    case Model(dump) => KeysKept(py, dump)
    case List(items) => forall i :: 0 <= i < |items| ==> KeysShown(py, items[i])
    case Tuple(items) => forall i :: 0 <= i < |items| ==> KeysShown(py, items[i])
    case SetOf(items) => forall i :: 0 <= i < |items| ==> KeysShown(py, items[i])
    case Dict(entries) =>
      forall i :: 0 <= i < |entries| ==>
        Clean(entries[i].key) && (Current(entries, i) && !py.SecretKey(entries[i].key) ==> KeysShown(py, entries[i].value))
    case _ => KeysClean(v)
  }

  // ----- Dictionaries, key by key -----

  ghost predicate CleanUnder(entries: seq<Entry>, k: string) {
    Lookup(entries, k).Some? ==> Clean(k) && KeysClean(Lookup(entries, k).value)
  }

  ghost predicate KeptUnder(py: Python, entries: seq<Entry>, k: string) {
    Latest(entries, k).Some? ==> Clean(k) && (!py.SecretKey(k) ==> KeysKept(py, Latest(entries, k).value))
  }

  ghost predicate GivenKeysShown(py: Python, given: Option<Value>, k: string) {
    given.Some? ==> Clean(k) && (!py.SecretKey(k) ==> KeysShown(py, given.value))
  }

  ghost predicate KeysShownUnder(py: Python, entries: seq<Entry>, k: string) {
    GivenKeysShown(py, Latest(entries, k), k)
  }

  lemma {:induction false} KeyHasLatest(entries: seq<Entry>, i: nat)
    requires i < |entries|
    ensures Latest(entries, entries[i].key).Some?
  {
    if i > 0 {
      KeyHasLatest(entries[1..], i - 1);
    }
  }

  /** A key of the dictionary and its last value, at some index. */
  lemma LatestAt(entries: seq<Entry>, k: string) returns (i: nat)
    requires Latest(entries, k).Some?
    ensures i < |entries| && entries[i] == Entry(k, Latest(entries, k).value) && Current(entries, i)
  {
    LatestIsFound(entries, k);
    i :| 0 <= i < |entries| && entries[i] == Entry(k, Latest(entries, k).value);
  }

  lemma CleanByKey(entries: seq<Entry>)
    requires DistinctKeys(entries)
    ensures KeysClean(Dict(entries)) <==> forall k :: CleanUnder(entries, k)
  {
    if KeysClean(Dict(entries)) {
      forall k | Lookup(entries, k).Some?
        ensures Clean(k) && KeysClean(Lookup(entries, k).value)
      {
        LookupIsLatest(entries, k);
        var i := LatestAt(entries, k);
      }
    }
    if forall k :: CleanUnder(entries, k) {
      forall i | 0 <= i < |entries|
        ensures Clean(entries[i].key) && KeysClean(entries[i].value)
      {
        LookupFinds(entries, i);
        assert CleanUnder(entries, entries[i].key);
      }
    }
  }

  lemma KeptByKey(py: Python, entries: seq<Entry>)
    ensures KeysKept(py, Dict(entries)) <==> forall k :: KeptUnder(py, entries, k)
  {
    if KeysKept(py, Dict(entries)) {
      forall k | Latest(entries, k).Some?
        ensures KeptUnder(py, entries, k)
      {
        var i := LatestAt(entries, k);
      }
    }
    if forall k :: KeptUnder(py, entries, k) {
      forall i | 0 <= i < |entries|
        ensures Clean(entries[i].key) && (Current(entries, i) && !py.SecretKey(entries[i].key) ==> KeysKept(py, entries[i].value))
      {
        KeyHasLatest(entries, i);
        assert KeptUnder(py, entries, entries[i].key);
      }
    }
  }

  lemma ShownKeysByKey(py: Python, entries: seq<Entry>)
    ensures KeysShown(py, Dict(entries)) <==> forall k :: KeysShownUnder(py, entries, k)
  {
    if KeysShown(py, Dict(entries)) {
      forall k | Latest(entries, k).Some?
        ensures KeysShownUnder(py, entries, k)
      {
        var i := LatestAt(entries, k);
      }
    }
    if forall k :: KeysShownUnder(py, entries, k) {
      forall i | 0 <= i < |entries|
        ensures Clean(entries[i].key) && (Current(entries, i) && !py.SecretKey(entries[i].key) ==> KeysShown(py, entries[i].value))
      {
        KeyHasLatest(entries, i);
        assert KeysShownUnder(py, entries, entries[i].key);
      }
    }
  }

  // ----- The masker -----

  /** The keys of a masked tree are clean exactly when those it was given and does
      not drop are. */
  lemma {:induction false} MaskedKeysExactly(py: Python, v: Value)
    ensures KeysClean(Mask(py, v)) <==> KeysKept(py, v)
    decreases v, 0
  {
    match v
    case List(items) => MaskedItemsKeys(py, items);
    case Tuple(items) => MaskedItemsKeys(py, items);
    case Dict(entries) => MaskedDictKeys(py, entries);
    case _ =>
  }

  lemma {:induction false} MaskedItemsKeys(py: Python, items: seq<Value>)
    ensures KeysClean(List(MaskItems(py, items))) <==> forall i :: 0 <= i < |items| ==> KeysKept(py, items[i])
    decreases items, 1
  {
    forall i | 0 <= i < |items|
      ensures KeysClean(MaskItems(py, items)[i]) <==> KeysKept(py, items[i])
    {
      MaskItemsAt(py, items, i);
      MaskedKeysExactly(py, items[i]);
    }
  }

  lemma {:induction false} MaskedDictKeys(py: Python, entries: seq<Entry>)
    ensures KeysClean(Mask(py, Dict(entries))) <==> KeysKept(py, Dict(entries))
    decreases entries, 1
  {
    var masked := Mask(py, Dict(entries)).entries;
    LookupOfMasked(py, entries, "");
    CleanByKey(masked);
    KeptByKey(py, entries);
    forall k
      ensures CleanUnder(masked, k) <==> KeptUnder(py, entries, k)
    {
      LookupOfMasked(py, entries, k);
      if Latest(entries, k).Some? && !py.SecretKey(k) {
        var i := LatestAt(entries, k);
        MaskedKeysExactly(py, entries[i].value);
      }
    }
  }

  // ----- Normalising first -----

  lemma {:induction false} JsonKeysExactly(py: Python, v: Value)
    requires py.SortedRearranges() && ToJsonable(py, v).Some?
    ensures KeysKept(py, ToJsonable(py, v).value) <==> KeysShown(py, v)
    decreases v, 0
  {
    match v
    case List(items) => JsonItemsKeys(py, items);
    case Tuple(items) => JsonItemsKeys(py, items);
    case SetOf(items) =>
      JsonItemsKeys(py, items);
      SetKeysLikeItems(py, items);
    case Dict(entries) => JsonDictKeys(py, entries);
    case _ =>
  }

  lemma SetKeysLikeItems(py: Python, items: seq<Value>)
    requires py.SortedRearranges() && ToJsonable(py, SetOf(items)).Some?
    ensures JsonItems(py, items).Some?
    ensures KeysKept(py, ToJsonable(py, SetOf(items)).value) <==>
      (forall i :: 0 <= i < |JsonItems(py, items).value| ==> KeysKept(py, JsonItems(py, items).value[i]))
  {
    var xs := JsonItems(py, items).value;
    SortedKeepsAll(xs, py.sorted(xs).value, x => KeysKept(py, x));
  }

  lemma {:induction false} JsonItemsKeys(py: Python, items: seq<Value>)
    requires py.SortedRearranges() && JsonItems(py, items).Some?
    ensures (forall i :: 0 <= i < |JsonItems(py, items).value| ==> KeysKept(py, JsonItems(py, items).value[i])) <==>
      (forall i :: 0 <= i < |items| ==> KeysShown(py, items[i]))
    decreases items, 1
  {
    JsonItemsAt(py, items);
    forall i | 0 <= i < |items|
      ensures KeysKept(py, JsonItems(py, items).value[i]) <==> KeysShown(py, items[i])
    {
      JsonKeysExactly(py, items[i]);
    }
  }

  lemma {:induction false} JsonDictKeys(py: Python, entries: seq<Entry>)
    requires py.SortedRearranges() && ToJsonable(py, Dict(entries)).Some?
    ensures KeysKept(py, ToJsonable(py, Dict(entries)).value) <==> KeysShown(py, Dict(entries))
    decreases entries, 1
  {
    JsonDictLookup(py, entries, "");
    var r := ToJsonable(py, Dict(entries)).value.entries;
    KeptByKey(py, r);
    ShownKeysByKey(py, entries);
    forall k
      ensures KeptUnder(py, r, k) <==> KeysShownUnder(py, entries, k)
    {
      JsonDictLookup(py, entries, k);
      if Latest(entries, k).Some? {
        var i := LatestAt(entries, k);
        JsonEntriesConvert(py, entries, [], i);
        JsonKeysExactly(py, entries[i].value);
      }
    }
  }

  // ----- Envelopes -----

  ghost predicate EnvelopeKeysShown(py: Python, tool: string, data: seq<Entry>, includeRaw: bool, raw: Option<Value>, limits: Option<seq<Entry>>) {
    forall k :: GivenKeysShown(py, Given(tool, data, includeRaw, raw, limits, k), k)
  }

  /** No key of an envelope, at any depth, shows URL credentials exactly when none of
      those it is given for itself does, nor any inside what it is given, values
      under a secret key and overwritten ones aside. */
  lemma EnvelopeKeysExactly(py: Python, tool: string, data: seq<Entry>, includeRaw: bool, raw: Option<Value>, limits: Option<seq<Entry>>)
    requires py.SortedRearranges()
    requires Envelope(py, tool, data, includeRaw, raw, limits).Some?
    ensures KeysClean(Envelope(py, tool, data, includeRaw, raw, limits).value) <==>
      EnvelopeKeysShown(py, tool, data, includeRaw, raw, limits)
  {
    var payload := PayloadOf(py, tool, data, includeRaw, raw, limits);
    MaskedKeysExactly(py, Dict(payload));
    KeptByKey(py, payload);
    forall k
      ensures KeptUnder(py, payload, k) <==> GivenKeysShown(py, Given(tool, data, includeRaw, raw, limits, k), k)
    {
      PayloadIsGiven(py, tool, data, includeRaw, raw, limits, k);
      var given := Given(tool, data, includeRaw, raw, limits, k);
      if given.Some? {
        JsonKeysExactly(py, given.value);
      }
    }
  }

  /** A URL that is a key leaves the server as it is, whatever its value. */
  lemma KeysAreNotMasked(py: Python, tool: string, m: Match, v: Value)
    requires py.SortedRearranges() && m.InPattern() && m.user != "***"
    ensures var r := Envelope(py, tool, [Entry(m.Source(), v)], false, None, None);
      r.Some? ==> !KeysClean(r.value)
    ensures ToJsonable(py, v).Some? ==> Envelope(py, tool, [Entry(m.Source(), v)], false, None, None).Some?
  {
    var k := m.Source();
    var data := [Entry(k, v)];
    CredentialsShow(m);
    assert data[1..] == [];
    assert Latest([], k) == None;
    assert Latest(data, k) == Some(v);
    assert ToJsonable(py, v).Some? ==> JsonEntries(py, data, []) == JsonEntries(py, [], Put([], k, ToJsonable(py, v).value));
    if Envelope(py, tool, data, false, None, None).Some? {
      EnvelopeKeysExactly(py, tool, data, false, None, None);
      assert Given(tool, data, false, None, None, k) == Some(v);
      assert !GivenKeysShown(py, Some(v), k);
    }
  }
}
