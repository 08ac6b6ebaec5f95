/** app/mcp/serialization.py: what leaves the server is normalised, then masked. */
module Serialization {
  import opened Options
  import opened UrlCredentials
  import opened Masking

  predicate JsonLeaf(v: Value) {
    v.Null? || v.Bool? || v.Number? || v.Text?
  }

  /** JSON data: what a JSON text can stand for. */
  predicate Jsonable(v: Value) {
    match v
    case List(items) => forall i :: 0 <= i < |items| ==> Jsonable(items[i])
    case Dict(entries) => DistinctKeys(entries) && forall i :: 0 <= i < |entries| ==> Jsonable(entries[i].value)
    case _ => JsonLeaf(v)
  }

  /** to_jsonable; None when sorted() raises on a set whose elements cannot be compared. */
  function ToJsonable(py: Python, v: Value): Option<Value>
    decreases v
  {
    match v
    case Model(dump) => Some(dump)
    case Dict(entries) =>
      (match JsonEntries(py, entries, [])
       case Some(es) => Some(Dict(es))
       case None => None)
    case List(items) => AsList(JsonItems(py, items))
    case Tuple(items) => AsList(JsonItems(py, items))
    case SetOf(items) =>
      (match JsonItems(py, items)
       case Some(xs) => AsList(py.sorted(xs))
       case None => None)
    case Date(iso) => Some(Text(iso))
    case Decimal(digits) => Some(Text(digits))
    case Uuid(text) => Some(Text(text))
    case _ => Some(v)
  }

  function AsList(items: Option<seq<Value>>): Option<Value> {
    match items
    case Some(xs) => Some(List(xs))
    case None => None
  }

  function JsonItems(py: Python, items: seq<Value>): Option<seq<Value>>
    decreases items
  {
    if items == [] then Some([])
    else match (ToJsonable(py, items[0]), JsonItems(py, items[1..]))
      case (Some(x), Some(xs)) => Some([x] + xs)
      case _ => None
  }

  /** The dictionary comprehension {str(key): to_jsonable(item)}: of two keys with
      the same text the later one wins. */
  function JsonEntries(py: Python, entries: seq<Entry>, result: seq<Entry>): Option<seq<Entry>>
    decreases entries
  {
    if entries == [] then Some(result)
    else match ToJsonable(py, entries[0].value)
      case Some(v) => JsonEntries(py, entries[1..], Put(result, entries[0].key, v))
      case None => None
  }

  /** Dates, decimals and identifiers become their texts; a set becomes the sorted list
      of its converted elements, lists and tuples lists of theirs, a model its dump,
      and everything else but a dictionary stays as it is. */
  lemma KindsAreConverted(py: Python, text: string, dump: Value, items: seq<Value>, v: Value)
    ensures ToJsonable(py, Date(text)) == ToJsonable(py, Decimal(text)) == ToJsonable(py, Uuid(text)) == Some(Text(text))
    ensures ToJsonable(py, Model(dump)) == Some(dump)
    ensures v.Null? || v.Bool? || v.Number? || v.Text? || v.Foreign? ==> ToJsonable(py, v) == Some(v)
    ensures ToJsonable(py, Tuple(items)) == ToJsonable(py, List(items))
    ensures (forall i :: 0 <= i < |items| ==> ToJsonable(py, items[i]).Some?) <==> ToJsonable(py, List(items)).Some?
    ensures ToJsonable(py, List(items)).Some? ==>
      var r := ToJsonable(py, List(items)).value;
      && r.List? && |r.items| == |items| && (forall i :: 0 <= i < |items| ==> ToJsonable(py, items[i]) == Some(r.items[i]))
      && ToJsonable(py, SetOf(items)) == match py.sorted(r.items) case Some(xs) => Some(List(xs)) case None => None
    ensures ToJsonable(py, List(items)).None? ==> ToJsonable(py, SetOf(items)).None?
  {
    ItemsConvertExactly(py, items);
    if JsonItems(py, items).Some? {
      JsonItemsAt(py, items);
    }
  }

  lemma {:induction false} ItemsConvertExactly(py: Python, items: seq<Value>)
    ensures JsonItems(py, items).Some? <==> forall i :: 0 <= i < |items| ==> ToJsonable(py, items[i]).Some?
  {
    if items != [] {
      ItemsConvertExactly(py, items[1..]);
      assert items == [items[0]] + items[1..];
    }
  }

  // ----- Item by item, key by key -----

  lemma {:induction false} JsonItemsAt(py: Python, items: seq<Value>)
    requires JsonItems(py, items).Some?
    ensures |JsonItems(py, items).value| == |items|
    ensures forall i :: 0 <= i < |items| ==> ToJsonable(py, items[i]) == Some(JsonItems(py, items).value[i])
  {
    if items != [] {
      JsonItemsAt(py, items[1..]);
    }
  }

  lemma {:induction false} JsonEntriesConvert(py: Python, entries: seq<Entry>, result: seq<Entry>, i: nat)
    requires JsonEntries(py, entries, result).Some? && i < |entries|
    ensures ToJsonable(py, entries[i].value).Some?
    decreases i
  {
    if i > 0 {
      JsonEntriesConvert(py, entries[1..], Put(result, entries[0].key, ToJsonable(py, entries[0].value).value), i - 1);
    }
  }

  lemma {:induction false} JsonKeysDistinct(py: Python, entries: seq<Entry>, result: seq<Entry>)
    requires JsonEntries(py, entries, result).Some? && DistinctKeys(result)
    ensures DistinctKeys(JsonEntries(py, entries, result).value)
    decreases |entries|
  {
    if entries != [] {
      var v := ToJsonable(py, entries[0].value).value;
      PutKeepsKeysDistinct(result, entries[0].key, v);
      JsonKeysDistinct(py, entries[1..], Put(result, entries[0].key, v));
    }
  }

  /** A converted dictionary holds under a key the converted form of its last value. */
  lemma {:induction false} JsonLookup(py: Python, entries: seq<Entry>, result: seq<Entry>, k: string)
    requires JsonEntries(py, entries, result).Some?
    ensures Lookup(JsonEntries(py, entries, result).value, k) ==
      if Latest(entries, k).Some? then ToJsonable(py, Latest(entries, k).value) else Lookup(result, k)
    decreases |entries|
  {
    if entries != [] {
      var v := ToJsonable(py, entries[0].value).value;
      LookupOfPut(result, entries[0].key, v, k);
      JsonLookup(py, entries[1..], Put(result, entries[0].key, v), k);
    }
  }

  lemma JsonDictLookup(py: Python, entries: seq<Entry>, k: string)
    requires ToJsonable(py, Dict(entries)).Some?
    ensures var r := ToJsonable(py, Dict(entries)).value;
      && r.Dict? && DistinctKeys(r.entries)
      && Lookup(r.entries, k) == Latest(r.entries, k)
      && Lookup(r.entries, k) == if Latest(entries, k).Some? then ToJsonable(py, Latest(entries, k).value) else None
  {
    JsonKeysDistinct(py, entries, []);
    JsonLookup(py, entries, [], k);
    LookupIsLatest(ToJsonable(py, Dict(entries)).value.entries, k);
  }

  // ----- When the result is JSON -----

  /** No foreign object at any depth, but for values that are overwritten, and
      every model dumps to JSON data. */
  predicate Convertible(v: Value) {
    match v
    case Foreign(_, _) => false
    case Model(dump) => Jsonable(dump)
    case List(items) => forall i :: 0 <= i < |items| ==> Convertible(items[i])
    case Tuple(items) => forall i :: 0 <= i < |items| ==> Convertible(items[i])
    case SetOf(items) => forall i :: 0 <= i < |items| ==> Convertible(items[i])
    case Dict(entries) => forall i :: 0 <= i < |entries| && Current(entries, i) ==> Convertible(entries[i].value)
    case _ => true
  }

  predicate JsonUnder(entries: seq<Entry>, k: string) {
    Lookup(entries, k).Some? ==> Jsonable(Lookup(entries, k).value)
  }

  predicate ConvertibleUnder(entries: seq<Entry>, k: string) {
    Latest(entries, k).Some? ==> Convertible(Latest(entries, k).value)
  }

  lemma JsonByKey(entries: seq<Entry>)
    requires DistinctKeys(entries)
    ensures Jsonable(Dict(entries)) <==> forall k :: JsonUnder(entries, k)
  {
    if Jsonable(Dict(entries)) {
      forall k | Lookup(entries, k).Some?
        ensures Jsonable(Lookup(entries, k).value)
      {
        LookupIsFound(entries, k);
        var i :| 0 <= i < |entries| && entries[i] == Entry(k, Lookup(entries, k).value);
        assert Jsonable(entries[i].value);
      }
    }
    if forall k :: JsonUnder(entries, k) {
      forall i | 0 <= i < |entries|
        ensures Jsonable(entries[i].value)
      {
        LookupFinds(entries, i);
        assert JsonUnder(entries, entries[i].key);
      }
    }
  }

  lemma ConvertibleByKey(entries: seq<Entry>)
    ensures Convertible(Dict(entries)) <==> forall k :: ConvertibleUnder(entries, k)
  {
    if Convertible(Dict(entries)) {
      forall k | Latest(entries, k).Some?
        ensures Convertible(Latest(entries, k).value)
      {
        LatestIsFound(entries, k);
        var i :| 0 <= i < |entries| && entries[i] == Entry(k, Latest(entries, k).value);
        assert Current(entries, i);
      }
    }
    if forall k :: ConvertibleUnder(entries, k) {
      forall i | 0 <= i < |entries| && Current(entries, i)
        ensures Convertible(entries[i].value)
      {
        assert ConvertibleUnder(entries, entries[i].key);
      }
    }
  }

  /** The result of to_jsonable is JSON data exactly when no foreign object and no
      model with another dump is in what it was given, overwritten values aside. */
  lemma {:induction false} ToJsonableIsJsonExactly(py: Python, v: Value)
    requires py.SortedRearranges() && ToJsonable(py, v).Some?
    ensures Jsonable(ToJsonable(py, v).value) <==> Convertible(v)
    decreases v, 0
  {
    match v
    case List(items) => ItemsAreJsonExactly(py, items);
    case Tuple(items) => ItemsAreJsonExactly(py, items);
    case SetOf(items) =>
      ItemsAreJsonExactly(py, items);
      SetIsJsonLikeItems(py, items);
    case Dict(entries) => DictIsJsonExactly(py, entries);
    case _ =>
  }

  lemma SetIsJsonLikeItems(py: Python, items: seq<Value>)
    requires py.SortedRearranges() && ToJsonable(py, SetOf(items)).Some?
    ensures JsonItems(py, items).Some?
    ensures Jsonable(ToJsonable(py, SetOf(items)).value) <==>
      (forall i :: 0 <= i < |JsonItems(py, items).value| ==> Jsonable(JsonItems(py, items).value[i]))
  {
    var xs := JsonItems(py, items).value;
    SortedKeepsAll(xs, py.sorted(xs).value, x => Jsonable(x));
  }

  lemma SortedKeepsAll(xs: seq<Value>, ys: seq<Value>, ok: Value -> bool)
    requires multiset(xs) == multiset(ys)
    ensures (forall i :: 0 <= i < |xs| ==> ok(xs[i])) <==> (forall i :: 0 <= i < |ys| ==> ok(ys[i]))
  {
    forall i | 0 <= i < |xs| ensures xs[i] in ys { assert xs[i] in multiset(xs); }
    forall i | 0 <= i < |ys| ensures ys[i] in xs { assert ys[i] in multiset(ys); }
  }

  lemma {:induction false} ItemsAreJsonExactly(py: Python, items: seq<Value>)
    requires py.SortedRearranges() && JsonItems(py, items).Some?
    ensures (forall i :: 0 <= i < |JsonItems(py, items).value| ==> Jsonable(JsonItems(py, items).value[i])) <==>
      (forall i :: 0 <= i < |items| ==> Convertible(items[i]))
    decreases items, 1
  {
    JsonItemsAt(py, items);
    forall i | 0 <= i < |items|
      ensures Jsonable(JsonItems(py, items).value[i]) <==> Convertible(items[i])
    {
      ToJsonableIsJsonExactly(py, items[i]);
    }
  }

  lemma {:induction false} DictIsJsonExactly(py: Python, entries: seq<Entry>)
    requires py.SortedRearranges() && ToJsonable(py, Dict(entries)).Some?
    ensures Jsonable(ToJsonable(py, Dict(entries)).value) <==> Convertible(Dict(entries))
    decreases entries, 1
  {
    JsonDictLookup(py, entries, "");
    var r := ToJsonable(py, Dict(entries)).value.entries;
    JsonByKey(r);
    ConvertibleByKey(entries);
    forall k
      ensures JsonUnder(r, k) <==> ConvertibleUnder(entries, k)
    {
      JsonDictLookup(py, entries, k);
      LatestIsFound(entries, k);
      if Latest(entries, k).Some? {
        var i :| 0 <= i < |entries| && entries[i] == Entry(k, Latest(entries, k).value);
        JsonEntriesConvert(py, entries, [], i);
        ToJsonableIsJsonExactly(py, entries[i].value);
      }
    }
  }

  /** Normalising leaves JSON data as it is; so normalising twice is normalising once. */
  lemma {:induction false} JsonIsKept(py: Python, v: Value)
    requires Jsonable(v)
    ensures ToJsonable(py, v) == Some(v)
    decreases v
  {
    match v
    case List(items) => JsonItemsAreKept(py, items);
    case Dict(entries) =>
      JsonEntriesAreKept(py, entries, []);
      assert [] + entries == entries;
    case _ =>
  }

  lemma {:induction false} JsonItemsAreKept(py: Python, items: seq<Value>)
    requires forall i :: 0 <= i < |items| ==> Jsonable(items[i])
    ensures JsonItems(py, items) == Some(items)
    decreases items
  {
    if items != [] {
      JsonIsKept(py, items[0]);
      JsonItemsAreKept(py, items[1..]);
      assert [items[0]] + items[1..] == items;
    }
  }

  lemma {:induction false} JsonEntriesAreKept(py: Python, entries: seq<Entry>, result: seq<Entry>)
    requires forall i :: 0 <= i < |entries| ==> Jsonable(entries[i].value)
    requires DistinctKeys(entries) && Apart(result, entries)
    ensures JsonEntries(py, entries, result) == Some(result + entries)
    decreases entries
  {
    if entries == [] {
      assert result + entries == result;
    } else {
      var e := entries[0];
      JsonIsKept(py, e.value);
      ApartFromRest(result, entries, e.value);
      JsonEntriesAreKept(py, entries[1..], result + [e]);
      AppendOne(result, e, entries[1..]);
      assert [e] + entries[1..] == entries;
    }
  }

  // ----- limit_items -----

  /** items[:limit]; a negative limit counts from the end. */
  function Slice(items: seq<Value>, limit: int): seq<Value> {
    if limit >= |items| then items
    else if limit >= 0 then items[..limit]
    else if |items| + limit > 0 then items[..|items| + limit]
    else []
  }

  /** None when the conversion of an item raises. */
  method LimitItems(py: Python, items: seq<Value>, limit: int) returns (r: Option<(seq<Value>, bool)>)
    ensures r.Some? ==> (r.value.1 <==> |items| > limit)
    ensures r.Some? && limit >= 0 ==> |r.value.0| == if |items| <= limit then |items| else limit
    ensures r.Some? && limit < 0 ==> |r.value.0| == if |items| + limit > 0 then |items| + limit else 0
    ensures r.Some? ==> forall i :: 0 <= i < |r.value.0| ==> ToJsonable(py, items[i]) == Some(r.value.0[i])
    ensures r.None? <==> exists i ::
      0 <= i < |items| && (if limit >= 0 then i < limit else i < |items| + limit) && ToJsonable(py, items[i]).None?
  {
    var kept := Slice(items, limit);
    var converted: seq<Value> := [];
    var i := 0;
    while i < |kept|
      invariant 0 <= i <= |kept| && |converted| == i
      invariant forall k :: 0 <= k < i ==> ToJsonable(py, items[k]) == Some(converted[k])
    {
      var x := ToJsonable(py, kept[i]);
      if x.None? {
        return None;
      }
      converted := converted + [x.value];
      i := i + 1;
    }
    r := Some((converted, |items| > limit));
  }

  // ----- What normalising and masking hand on -----

  /** `ok` holds of every value that to_jsonable and the masker together hand on as
      it is: of the plain leaves, of what a model's dump hides, and of the foreign
      objects, but for those under a secret key and those overwritten by a later
      entry. */
  ghost predicate Shown(py: Python, v: Value, ok: Value -> bool) {
    match v
    case Model(dump) => Untouched(py, dump, ok)
    case List(items) => forall i :: 0 <= i < |items| ==> Shown(py, items[i], ok)
    case Tuple(items) => forall i :: 0 <= i < |items| ==> Shown(py, items[i], ok)
    case SetOf(items) => forall i :: 0 <= i < |items| ==> Shown(py, items[i], ok)
    case Dict(entries) =>
      forall i :: 0 <= i < |entries| && Current(entries, i) && !py.SecretKey(entries[i].key) ==> Shown(py, entries[i].value, ok)
    case Null => ok(v)
    case Bool(_) => ok(v)
    case Number(_) => ok(v)
    case Foreign(_, _) => ok(v)
    case _ => true
  }

  ghost predicate ShownUnder(py: Python, entries: seq<Entry>, k: string, ok: Value -> bool) {
    Latest(entries, k).Some? && !py.SecretKey(k) ==> Shown(py, Latest(entries, k).value, ok)
  }

  lemma ShownByKey(py: Python, entries: seq<Entry>, ok: Value -> bool)
    ensures Shown(py, Dict(entries), ok) <==> forall k :: ShownUnder(py, entries, k, ok)
  {
    if Shown(py, Dict(entries), ok) {
      forall k | Latest(entries, k).Some? && !py.SecretKey(k)
        ensures Shown(py, Latest(entries, k).value, ok)
      {
        LatestIsFound(entries, k);
        var i :| 0 <= i < |entries| && entries[i] == Entry(k, Latest(entries, k).value);
        assert Current(entries, i);
      }
    }
    if forall k :: ShownUnder(py, entries, k, ok) {
      forall i | 0 <= i < |entries| && Current(entries, i) && !py.SecretKey(entries[i].key)
        ensures Shown(py, entries[i].value, ok)
      {
        assert ShownUnder(py, entries, entries[i].key, ok);
      }
    }
  }

  /** Normalising first does not change what is handed on. */
  lemma {:induction false} JsonShowsExactly(py: Python, v: Value, ok: Value -> bool)
    requires py.SortedRearranges() && ToJsonable(py, v).Some?
    ensures Untouched(py, ToJsonable(py, v).value, ok) <==> Shown(py, v, ok)
    decreases v, 0
  {
    match v
    case List(items) => ItemsShowExactly(py, items, ok);
    case Tuple(items) => ItemsShowExactly(py, items, ok);
    case SetOf(items) =>
      ItemsShowExactly(py, items, ok);
      SetShowsLikeItems(py, items, ok);
    case Dict(entries) => DictShowsExactly(py, entries, ok);
    case _ =>
  }

  lemma SetShowsLikeItems(py: Python, items: seq<Value>, ok: Value -> bool)
    requires py.SortedRearranges() && ToJsonable(py, SetOf(items)).Some?
    ensures JsonItems(py, items).Some?
    ensures Untouched(py, ToJsonable(py, SetOf(items)).value, ok) <==>
      (forall i :: 0 <= i < |JsonItems(py, items).value| ==> Untouched(py, JsonItems(py, items).value[i], ok))
  {
    var xs := JsonItems(py, items).value;
    SortedKeepsAll(xs, py.sorted(xs).value, x => Untouched(py, x, ok));
  }

  lemma {:induction false} ItemsShowExactly(py: Python, items: seq<Value>, ok: Value -> bool)
    requires py.SortedRearranges() && JsonItems(py, items).Some?
    ensures (forall i :: 0 <= i < |JsonItems(py, items).value| ==> Untouched(py, JsonItems(py, items).value[i], ok)) <==>
      (forall i :: 0 <= i < |items| ==> Shown(py, items[i], ok))
    decreases items, 1
  {
    JsonItemsAt(py, items);
    forall i | 0 <= i < |items|
      ensures Untouched(py, JsonItems(py, items).value[i], ok) <==> Shown(py, items[i], ok)
    {
      JsonShowsExactly(py, items[i], ok);
    }
  }

  lemma {:induction false} DictShowsExactly(py: Python, entries: seq<Entry>, ok: Value -> bool)
    requires py.SortedRearranges() && ToJsonable(py, Dict(entries)).Some?
    ensures Untouched(py, ToJsonable(py, Dict(entries)).value, ok) <==> Shown(py, Dict(entries), ok)
    decreases entries, 1
  {
    JsonDictLookup(py, entries, "");
    var r := ToJsonable(py, Dict(entries)).value.entries;
    UntouchedByKey(py, r, ok);
    ShownByKey(py, entries, ok);
    forall k
      ensures UntouchedUnder(py, r, k, ok) <==> ShownUnder(py, entries, k, ok)
    {
      JsonDictLookup(py, entries, k);
      LatestIsFound(entries, k);
      if Latest(entries, k).Some? {
        var i :| 0 <= i < |entries| && entries[i] == Entry(k, Latest(entries, k).value);
        JsonEntriesConvert(py, entries, [], i);
        JsonShowsExactly(py, entries[i].value, ok);
      }
    }
  }

  // ----- Envelopes -----

  function PutAll(result: seq<Entry>, entries: seq<Entry>): seq<Entry>
    decreases |entries|
  {
    if entries == [] then result
    else PutAll(Put(result, entries[0].key, entries[0].value), entries[1..])
  }

  /** The payload of response_envelope before it is masked. */
  function Payload(tool: string, data: seq<Entry>, limits: Option<Value>, raw: Option<Value>): seq<Entry> {
    var base := PutAll(Put(Put([], "tool", Text(tool)), "ok", Bool(true)), data);
    var limited := if limits.Some? then Put(base, "limits", limits.value) else base;
    if raw.Some? then Put(limited, "raw", raw.value) else limited
  }

  function Envelope(py: Python, tool: string, data: seq<Entry>, includeRaw: bool, raw: Option<Value>, limits: Option<seq<Entry>>): Option<Value> {
    match ToJsonable(py, Dict(data))
    case None => None
    case Some(jsonData) =>
      var jsonLimits := if limits.Some? then ToJsonable(py, Dict(limits.value)) else None;
      var jsonRaw := if includeRaw && raw.Some? then ToJsonable(py, raw.value) else None;
      if (limits.Some? && jsonLimits.None?) || (includeRaw && raw.Some? && jsonRaw.None?) then None
      else Some(Mask(py, Dict(Payload(tool, jsonData.entries, jsonLimits, jsonRaw))))
  }

  /** The value an envelope is given for a key, before normalising: raw and limits
      win over the data, the data over the tool name and the ok flag. */
  function Given(tool: string, data: seq<Entry>, includeRaw: bool, raw: Option<Value>, limits: Option<seq<Entry>>, k: string): Option<Value> {
    if k == "raw" && includeRaw && raw.Some? then raw
    else if k == "limits" && limits.Some? then Some(Dict(limits.value))
    else if Latest(data, k).Some? then Latest(data, k)
    else if k == "ok" then Some(Bool(true))
    else if k == "tool" then Some(Text(tool))
    else None
  }

  lemma {:induction false} LookupOfPutAll(result: seq<Entry>, entries: seq<Entry>, k: string)
    ensures Lookup(PutAll(result, entries), k) == if Latest(entries, k).Some? then Latest(entries, k) else Lookup(result, k)
    decreases |entries|
  {
    if entries != [] {
      LookupOfPut(result, entries[0].key, entries[0].value, k);
      LookupOfPutAll(Put(result, entries[0].key, entries[0].value), entries[1..], k);
    }
  }

  lemma {:induction false} PutAllKeepsKeysDistinct(result: seq<Entry>, entries: seq<Entry>)
    requires DistinctKeys(result)
    ensures DistinctKeys(PutAll(result, entries))
    decreases |entries|
  {
    if entries != [] {
      PutKeepsKeysDistinct(result, entries[0].key, entries[0].value);
      PutAllKeepsKeysDistinct(Put(result, entries[0].key, entries[0].value), entries[1..]);
    }
  }

  ghost function PayloadOf(py: Python, tool: string, data: seq<Entry>, includeRaw: bool, raw: Option<Value>, limits: Option<seq<Entry>>): seq<Entry>
    requires Envelope(py, tool, data, includeRaw, raw, limits).Some?
  {
    Payload(tool, ToJsonable(py, Dict(data)).value.entries,
            if limits.Some? then ToJsonable(py, Dict(limits.value)) else None,
            if includeRaw && raw.Some? then ToJsonable(py, raw.value) else None)
  }

  lemma PayloadKeysDistinct(tool: string, data: seq<Entry>, limits: Option<Value>, raw: Option<Value>)
    ensures DistinctKeys(Payload(tool, data, limits, raw))
  {
    PutKeepsKeysDistinct([], "tool", Text(tool));
    var start := Put([], "tool", Text(tool));
    PutKeepsKeysDistinct(start, "ok", Bool(true));
    PutAllKeepsKeysDistinct(Put(start, "ok", Bool(true)), data);
    var base := PutAll(Put(start, "ok", Bool(true)), data);
    if limits.Some? {
      PutKeepsKeysDistinct(base, "limits", limits.value);
    }
    if raw.Some? {
      PutKeepsKeysDistinct(if limits.Some? then Put(base, "limits", limits.value) else base, "raw", raw.value);
    }
  }

  lemma PayloadLookup(tool: string, data: seq<Entry>, limits: Option<Value>, raw: Option<Value>, k: string)
    ensures Lookup(Payload(tool, data, limits, raw), k) ==
      if k == "raw" && raw.Some? then raw
      else if k == "limits" && limits.Some? then limits
      else if Latest(data, k).Some? then Latest(data, k)
      else if k == "ok" then Some(Bool(true))
      else if k == "tool" then Some(Text(tool))
      else None
  {
    LookupOfPut([], "tool", Text(tool), k);
    LookupOfPut(Put([], "tool", Text(tool)), "ok", Bool(true), k);
    var start := Put(Put([], "tool", Text(tool)), "ok", Bool(true));
    LookupOfPutAll(start, data, k);
    var base := PutAll(start, data);
    if limits.Some? {
      LookupOfPut(base, "limits", limits.value, k);
    }
    if raw.Some? {
      LookupOfPut(if limits.Some? then Put(base, "limits", limits.value) else base, "raw", raw.value, k);
    }
  }

  lemma PayloadIsGiven(py: Python, tool: string, data: seq<Entry>, includeRaw: bool, raw: Option<Value>, limits: Option<seq<Entry>>, k: string)
    requires Envelope(py, tool, data, includeRaw, raw, limits).Some?
    ensures var payload, given := PayloadOf(py, tool, data, includeRaw, raw, limits), Given(tool, data, includeRaw, raw, limits, k);
      && Lookup(payload, k) == Latest(payload, k)
      && (given.Some? ==> ToJsonable(py, given.value).Some?)
      && Lookup(payload, k) == if given.Some? then ToJsonable(py, given.value) else None
  {
    var jsonData := ToJsonable(py, Dict(data)).value.entries;
    JsonDictLookup(py, data, k);
    var jsonLimits := if limits.Some? then ToJsonable(py, Dict(limits.value)) else None;
    var jsonRaw := if includeRaw && raw.Some? then ToJsonable(py, raw.value) else None;
    PayloadLookup(tool, jsonData, jsonLimits, jsonRaw, k);
    PayloadKeysDistinct(tool, jsonData, jsonLimits, jsonRaw);
    LookupIsLatest(Payload(tool, jsonData, jsonLimits, jsonRaw), k);
    if Latest(data, k).Some? {
      LatestIsFound(data, k);
      var i :| 0 <= i < |data| && data[i] == Entry(k, Latest(data, k).value);
      JsonEntriesConvert(py, data, [], i);
    }
  }

  /** Which value an envelope carries under a key: the one it is given for it,
      normalised and masked. */
  lemma EnvelopeFields(py: Python, tool: string, data: seq<Entry>, includeRaw: bool, raw: Option<Value>, limits: Option<seq<Entry>>, k: string)
    requires Envelope(py, tool, data, includeRaw, raw, limits).Some?
    ensures var e, given := Envelope(py, tool, data, includeRaw, raw, limits).value, Given(tool, data, includeRaw, raw, limits, k);
      && e.Dict?
      && (given.Some? ==> ToJsonable(py, given.value).Some?)
      && Lookup(e.entries, k) == if given.Some? then Some(MaskEntry(py, k, ToJsonable(py, given.value).value)) else None
  {
    PayloadIsGiven(py, tool, data, includeRaw, raw, limits, k);
    LookupOfMasked(py, PayloadOf(py, tool, data, includeRaw, raw, limits), k);
  }

  /** `ok` holds of everything that an envelope hands on of what it was given. */
  ghost predicate EnvelopeShows(py: Python, tool: string, data: seq<Entry>, includeRaw: bool, raw: Option<Value>, limits: Option<seq<Entry>>, ok: Value -> bool) {
    forall k :: GivenShows(py, Given(tool, data, includeRaw, raw, limits, k), k, ok)
  }

  ghost predicate GivenShows(py: Python, given: Option<Value>, k: string, ok: Value -> bool) {
    given.Some? && !py.SecretKey(k) ==> Shown(py, given.value, ok)
  }

  lemma EnvelopeExactly(py: Python, tool: string, data: seq<Entry>, includeRaw: bool, raw: Option<Value>, limits: Option<seq<Entry>>, ok: Value -> bool)
    requires py.SortedRearranges() && MaskedTextsOk(ok)
    requires Envelope(py, tool, data, includeRaw, raw, limits).Some?
    ensures Everywhere(Envelope(py, tool, data, includeRaw, raw, limits).value, ok) <==>
      EnvelopeShows(py, tool, data, includeRaw, raw, limits, ok)
  {
    var payload := PayloadOf(py, tool, data, includeRaw, raw, limits);
    MaskExactly(py, Dict(payload), ok);
    UntouchedByKey(py, payload, ok);
    forall k
      ensures UntouchedUnder(py, payload, k, ok) <==> GivenShows(py, Given(tool, data, includeRaw, raw, limits, k), k, ok)
    {
      PayloadIsGiven(py, tool, data, includeRaw, raw, limits, k);
      var given := Given(tool, data, includeRaw, raw, limits, k);
      if given.Some? {
        JsonShowsExactly(py, given.value, ok);
      }
    }
  }

  /** An envelope shows no URL credentials at any depth exactly when every foreign
      object that reaches it, neither under a secret key nor overwritten by a later
      key, shows none, and every model's dump hides none; nothing else nested in
      data, raw and limits matters. */
  lemma EnvelopeIsCleanExactly(py: Python, tool: string, data: seq<Entry>, includeRaw: bool, raw: Option<Value>, limits: Option<seq<Entry>>)
    requires py.SortedRearranges()
    requires Envelope(py, tool, data, includeRaw, raw, limits).Some?
    ensures AllClean(Envelope(py, tool, data, includeRaw, raw, limits).value) <==>
      EnvelopeShows(py, tool, data, includeRaw, raw, limits, x => AllClean(x))
  {
    MaskedTextsAreClean();
    EnvelopeExactly(py, tool, data, includeRaw, raw, limits, x => AllClean(x));
    CleanIsEverywhere(Envelope(py, tool, data, includeRaw, raw, limits).value);
  }

  /** A frozenset is not a set: its texts leave the server as they are. */
  lemma ForeignIsNotMasked(py: Python, tool: string, key: string, m: Match)
    requires py.SortedRearranges() && !py.SecretKey(key) && m.InPattern() && m.user != "***"
    ensures var r := Envelope(py, tool, [Entry(key, Foreign("frozenset", [Text(m.Source())]))], false, None, None);
      r.Some? && !AllClean(r.value)
  {
    var v := Foreign("frozenset", [Text(m.Source())]);
    var data := [Entry(key, v)];
    CredentialsShow(m);
    assert !AllClean(v.items[0]);
    assert data[1..] == [];
    assert JsonEntries(py, data, []) == JsonEntries(py, [], Put([], key, v));
    EnvelopeIsCleanExactly(py, tool, data, false, None, None);
    assert Latest(data[1..], key) == None;
    assert Latest(data, key) == Some(v);
    assert Given(tool, data, false, None, None, key) == Some(v);
    HidesCredentials(py, v, key, x => AllClean(x));
  }

  lemma HidesCredentials(py: Python, v: Value, key: string, ok: Value -> bool)
    requires v.Foreign? && !ok(v) && !py.SecretKey(key)
    ensures !GivenShows(py, Some(v), key, ok)
  {
  }

  // ----- When masked data is JSON -----

  lemma {:induction false} MaskedJsonIsEverywhere(py: Python, v: Value, ok: Value -> bool)
    requires forall x :: ok(x) <==> JsonLeaf(x)
    ensures Jsonable(Mask(py, v)) <==> Everywhere(Mask(py, v), ok)
    decreases v, 0
  {
    match v
    case List(items) => MaskedItemsAreEverywhere(py, items, ok);
    case Tuple(items) => MaskedItemsAreEverywhere(py, items, ok);
    case Dict(entries) => MaskedDictIsEverywhere(py, entries, ok);
    case _ =>
  }

  lemma {:induction false} MaskedItemsAreEverywhere(py: Python, items: seq<Value>, ok: Value -> bool)
    requires forall x :: ok(x) <==> JsonLeaf(x)
    ensures Jsonable(List(MaskItems(py, items))) <==> Everywhere(List(MaskItems(py, items)), ok)
    decreases items, 1
  {
    forall i | 0 <= i < |items|
      ensures Jsonable(MaskItems(py, items)[i]) <==> Everywhere(MaskItems(py, items)[i], ok)
    {
      MaskItemsAt(py, items, i);
      MaskedJsonIsEverywhere(py, items[i], ok);
    }
  }

  lemma {:induction false} MaskedDictIsEverywhere(py: Python, entries: seq<Entry>, ok: Value -> bool)
    requires forall x :: ok(x) <==> JsonLeaf(x)
    ensures Jsonable(Mask(py, Dict(entries))) <==> Everywhere(Mask(py, Dict(entries)), ok)
    decreases entries, 1
  {
    LookupOfMasked(py, entries, "");
    var masked := Mask(py, Dict(entries)).entries;
    JsonByKey(masked);
    EverywhereByKey(masked, ok);
    forall k
      ensures JsonUnder(masked, k) <==> OkUnder(masked, k, ok)
    {
      LookupOfMasked(py, entries, k);
      LatestIsFound(entries, k);
      if Latest(entries, k).Some? && !py.SecretKey(k) {
        var i :| 0 <= i < |entries| && entries[i] == Entry(k, Latest(entries, k).value);
        MaskedJsonIsEverywhere(py, entries[i].value, ok);
      }
    }
  }

  /** A masked value is JSON data exactly when everything the masker hands on is a
      null, a flag or a number. */
  lemma MaskIsJsonExactly(py: Python, v: Value)
    ensures Jsonable(Mask(py, v)) <==> Untouched(py, v, x => JsonLeaf(x))
  {
    MaskExactly(py, v, x => JsonLeaf(x));
    MaskedJsonIsEverywhere(py, v, x => JsonLeaf(x));
  }

  /** An envelope is JSON data exactly when no foreign object reaches it, but for
      those under a secret key or overwritten, and no model's dump hands one on. */
  lemma EnvelopeIsJsonExactly(py: Python, tool: string, data: seq<Entry>, includeRaw: bool, raw: Option<Value>, limits: Option<seq<Entry>>)
    requires py.SortedRearranges()
    requires Envelope(py, tool, data, includeRaw, raw, limits).Some?
    ensures Jsonable(Envelope(py, tool, data, includeRaw, raw, limits).value) <==>
      EnvelopeShows(py, tool, data, includeRaw, raw, limits, x => JsonLeaf(x))
  {
    EnvelopeExactly(py, tool, data, includeRaw, raw, limits, x => JsonLeaf(x));
    MaskedJsonIsEverywhere(py, Dict(PayloadOf(py, tool, data, includeRaw, raw, limits)), x => JsonLeaf(x));
  }

  // ----- Data that to_jsonable converts -----

  /** `ok` holds of the leaves that are neither texts nor foreign. */
  ghost predicate PlainLeavesOk(ok: Value -> bool) {
    forall x: Value :: x.Null? || x.Bool? || x.Number? ==> ok(x)
  }

  lemma {:induction false} JsonHidesNothing(py: Python, v: Value, ok: Value -> bool)
    requires Jsonable(v) && PlainLeavesOk(ok)
    ensures Untouched(py, v, ok)
  {
    match v
    case List(items) =>
      forall i | 0 <= i < |items| ensures Untouched(py, items[i], ok) { JsonHidesNothing(py, items[i], ok); }
    case Dict(entries) =>
      forall i | 0 <= i < |entries| ensures Untouched(py, entries[i].value, ok) { JsonHidesNothing(py, entries[i].value, ok); }
    case _ =>
  }

  lemma {:induction false} ConvertibleHidesNothing(py: Python, v: Value, ok: Value -> bool)
    requires Convertible(v) && PlainLeavesOk(ok)
    ensures Shown(py, v, ok)
  {
    match v
    case Model(dump) => JsonHidesNothing(py, dump, ok);
    case List(items) =>
      forall i | 0 <= i < |items| ensures Shown(py, items[i], ok) { ConvertibleHidesNothing(py, items[i], ok); }
    case Tuple(items) =>
      forall i | 0 <= i < |items| ensures Shown(py, items[i], ok) { ConvertibleHidesNothing(py, items[i], ok); }
    case SetOf(items) =>
      forall i | 0 <= i < |items| ensures Shown(py, items[i], ok) { ConvertibleHidesNothing(py, items[i], ok); }
    case Dict(entries) =>
      forall i | 0 <= i < |entries| && Current(entries, i) ensures Shown(py, entries[i].value, ok) {
        ConvertibleHidesNothing(py, entries[i].value, ok);
      }
    case _ =>
  }

  lemma MaskKeepsJsonable(py: Python, v: Value)
    requires Jsonable(v)
    ensures Jsonable(Mask(py, v))
  {
    JsonHidesNothing(py, v, x => JsonLeaf(x));
    MaskIsJsonExactly(py, v);
  }

  lemma ConvertibleEnvelopeShows(py: Python, tool: string, data: seq<Entry>, includeRaw: bool, raw: Option<Value>, limits: Option<seq<Entry>>, ok: Value -> bool)
    requires Convertible(Dict(data)) && (raw.Some? ==> Convertible(raw.value)) && (limits.Some? ==> Convertible(Dict(limits.value)))
    requires PlainLeavesOk(ok)
    ensures EnvelopeShows(py, tool, data, includeRaw, raw, limits, ok)
  {
    ConvertibleByKey(data);
    forall k
      ensures GivenShows(py, Given(tool, data, includeRaw, raw, limits, k), k, ok)
    {
      assert ConvertibleUnder(data, k);
      var given := Given(tool, data, includeRaw, raw, limits, k);
      if given.Some? {
        ConvertibleHidesNothing(py, given.value, ok);
      }
    }
  }

  /** So an envelope of values that to_jsonable converts is clean JSON data. */
  lemma EnvelopeIsClean(py: Python, tool: string, data: seq<Entry>, includeRaw: bool, raw: Option<Value>, limits: Option<seq<Entry>>)
    requires py.SortedRearranges()
    requires Convertible(Dict(data)) && (raw.Some? ==> Convertible(raw.value)) && (limits.Some? ==> Convertible(Dict(limits.value)))
    ensures var r := Envelope(py, tool, data, includeRaw, raw, limits);
      r.Some? ==> AllClean(r.value) && Jsonable(r.value)
  {
    if Envelope(py, tool, data, includeRaw, raw, limits).Some? {
      ConvertibleEnvelopeShows(py, tool, data, includeRaw, raw, limits, x => AllClean(x));
      ConvertibleEnvelopeShows(py, tool, data, includeRaw, raw, limits, x => JsonLeaf(x));
      EnvelopeIsCleanExactly(py, tool, data, includeRaw, raw, limits);
      EnvelopeIsJsonExactly(py, tool, data, includeRaw, raw, limits);
    }
  }

  /** response_envelope; None when to_jsonable raises. */
  method ResponseEnvelope(py: Python, tool: string, data: seq<Entry>, includeRaw: bool, raw: Option<Value>, limits: Option<seq<Entry>>)
    returns (r: Option<Value>)
    requires py.SortedRearranges()
    ensures r == Envelope(py, tool, data, includeRaw, raw, limits)
    ensures r.Some? ==> (AllClean(r.value) <==> EnvelopeShows(py, tool, data, includeRaw, raw, limits, x => AllClean(x)))
    ensures r.Some? ==> (Jsonable(r.value) <==> EnvelopeShows(py, tool, data, includeRaw, raw, limits, x => JsonLeaf(x)))
  {
    if Envelope(py, tool, data, includeRaw, raw, limits).Some? {
      EnvelopeIsCleanExactly(py, tool, data, includeRaw, raw, limits);
      EnvelopeIsJsonExactly(py, tool, data, includeRaw, raw, limits);
    }
    var jsonData := ToJsonable(py, Dict(data));
    if jsonData.None? {
      return None;
    }
    var payload := Put([], "tool", Text(tool));
    payload := Put(payload, "ok", Bool(true));
    payload := PutAll(payload, jsonData.value.entries);
    if limits.Some? {
      var jsonLimits := ToJsonable(py, Dict(limits.value));
      if jsonLimits.None? {
        return None;
      }
      payload := Put(payload, "limits", jsonLimits.value);
    }
    if includeRaw && raw.Some? {
      var jsonRaw := ToJsonable(py, raw.value);
      if jsonRaw.None? {
        return None;
      }
      payload := Put(payload, "raw", jsonRaw.value);
    }
    var masked := MaskSecrets(py, Dict(payload));
    r := Some(masked);
  }

  // ----- error_response -----

  method ErrorResponse(py: Python, tool: string, className: string, message: string) returns (r: Value)
    ensures AllClean(r) && Jsonable(r)
    ensures r == Mask(py, Dict([Entry("tool", Text(tool)), Entry("ok", Bool(false)),
                                Entry("error", Dict([Entry("type", Text(className)), Entry("message", Text(message))]))]))
  {
    var error := [Entry("type", Text(className)), Entry("message", Text(message))];
    var payload := [Entry("tool", Text(tool)), Entry("ok", Bool(false)), Entry("error", Dict(error))];
    MaskIsClean(py, Dict(payload));
    MaskKeepsJsonable(py, Dict(payload));
    r := MaskSecrets(py, Dict(payload));
  }
}
