/** app/mcp/security.py: mask_secret and mask_secrets. */
module Masking {
  import opened Options
  import opened UrlCredentials
  import opened UrlScan

  const SECRET_KEYWORDS: seq<string> := ["token", "secret", "password", "senha", "database_url", "connection", "authorization"]

  /** `part in s`. */
  predicate Contains(s: string, part: string) {
    exists i :: 0 <= i <= |s| && part <= s[i..]
  }

  function MaskSecret(value: string): string {
    var masked := Sub(value);
    if masked != value || Contains(value, "://") then masked
    else if |value| >= 16 then value[..4] + "..." + value[|value| - 4..]
    else "***"
  }

  lemma OccurrenceContains(s: string, i: nat, m: Match)
    requires OccursAt(s, i, m)
    ensures Contains(s, "://")
  {
    var tail := m.user + (":" + (m.password + "@"));
    PartsOfPrefix(s[i..], m.name, "://" + tail);
    PartsOfPrefix(s[i..][|m.name|..], "://", tail);
    var k := i + |m.name|;
    assert s[i..][|m.name|..] == s[k..];
    assert s[k..][..3] == "://";
  }

  lemma ContainsBehind(s: string, part: string)
    requires s != "" && Contains(s[1..], part)
    ensures Contains(s, part)
  {
    var i :| 0 <= i <= |s[1..]| && part <= s[1..][i..];
    assert s[1..][i..] == s[i + 1..];
  }

  /** Text without "://" has no occurrence: it is clean and left as it is. */
  lemma {:induction false} NoUrlNoChange(s: string)
    requires !Contains(s, "://")
    ensures Sub(s) == s && Clean(s)
  {
    forall i: nat, m
      ensures !OccursAt(s, i, m)
    {
      if OccursAt(s, i, m) {
        OccurrenceContains(s, i, m);
      }
    }
    if s != "" {
      ScannerIsSound(s);
      assert s == [s[0]] + s[1..];
      if Contains(s[1..], "://") {
        ContainsBehind(s, "://");
      } else {
        NoUrlNoChange(s[1..]);
      }
    }
  }

  /** A masked occurrence still shows where it was. */
  lemma {:induction false} SubKeepsUrls(s: string)
    requires Sub(s) != s
    ensures Contains(Sub(s), "://")
    decreases |s|
  {
    if HeadMatch(s).Some? {
      MaskedHead(s);
      OccurrenceContains(Sub(s), 0, HeadMatch(s).value.Masked());
    } else {
      assert s == [s[0]] + s[1..];
      SubKeepsUrls(s[1..]);
      assert Sub(s) == [s[0]] + Sub(s[1..]);
      assert Sub(s)[1..] == Sub(s[1..]);
      ContainsBehind(Sub(s), "://");
    }
  }

  lemma UrlAt(s: string, i: nat)
    requires i + 2 < |s| && s[i] == ':' && s[i + 1] == '/' && s[i + 2] == '/'
    ensures Contains(s, "://")
  {
    assert s[i..][..3] == "://";
  }

  /** Joining the two ends of a text by dots makes no new "://". */
  lemma AbridgedHasNoNewUrl(value: string)
    requires |value| >= 16
    ensures Contains(value[..4] + "..." + value[|value| - 4..], "://") ==> Contains(value, "://")
  {
    var short := value[..4] + "..." + value[|value| - 4..];
    if Contains(short, "://") {
      var i :| 0 <= i <= |short| && "://" <= short[i..];
      assert short[i] == ':' && short[i + 1] == '/' && short[i + 2] == '/';
      UrlAt(value, if i < 4 then i else |value| - 11 + i);
    }
  }

  /** A text that is no URL shows its first and last four characters when it has 16
      or more, and nothing otherwise. */
  lemma MaskSecretOfPlainText(value: string)
    requires !Contains(value, "://")
    ensures !Contains(MaskSecret(value), "://")
    ensures |MaskSecret(value)| == if |value| >= 16 then 11 else 3
    ensures |value| < 16 ==> MaskSecret(value) == "***"
    ensures |value| >= 16 ==> value[..4] <= MaskSecret(value) && MaskSecret(value)[4..7] == "..." && MaskSecret(value)[7..] == value[|value| - 4..]
  {
    NoUrlNoChange(value);
    if |value| >= 16 {
      AbridgedHasNoNewUrl(value);
    } else {
      assert forall i :: 0 <= i < 3 ==> "***"[i..][0] == '*';
    }
  }

  lemma MaskSecretIsClean(value: string)
    ensures Clean(MaskSecret(value))
  {
    SubIsClean(value);
    if Sub(value) == value && !Contains(value, "://") {
      MaskSecretOfPlainText(value);
      NoUrlNoChange(MaskSecret(value));
    }
  }

  /** One application is a fixed point exactly for URLs and short texts. */
  lemma MaskSecretIsIdempotentWhen(value: string)
    ensures MaskSecret(MaskSecret(value)) == MaskSecret(value) <==> Contains(value, "://") || |value| < 16
  {
    if Contains(value, "://") {
      SubIsIdempotent(value);
      if Sub(value) != value {
        SubKeepsUrls(value);
      }
    } else {
      MaskSecretOfPlainText(value);
      MaskSecretOfPlainText(MaskSecret(value));
    }
  }

  /** Two applications always are. */
  lemma MaskSecretStabilises(value: string)
    ensures MaskSecret(MaskSecret(MaskSecret(value))) == MaskSecret(MaskSecret(value))
  {
    MaskSecretIsIdempotentWhen(value);
    if !Contains(value, "://") {
      MaskSecretOfPlainText(value);
      MaskSecretIsIdempotentWhen(MaskSecret(value));
    }
  }

  // ----- Trees -----

  /** A Python value. Keys are given by str(key). `Foreign` is an object of any
      other kind, with the values it holds: a frozenset, a deque, a dataclass,
      bytes, an exception. Neither to_jsonable nor the masker opens it. */
  datatype Value =
    | Null
    | Bool(b: bool)
    | Number(digits: string)
    | Text(s: string)
    | Date(iso: string)
    | Decimal(digits: string)
    | Uuid(text: string)
    | Foreign(kind: string, items: seq<Value>)
    | List(items: seq<Value>)
    | Tuple(items: seq<Value>)
    | SetOf(items: seq<Value>)
    | Dict(entries: seq<Entry>)
    | Model(dump: Value)

  datatype Entry = Entry(key: string, value: Value)

  /** The parts of the language runtime that are taken as given: str() on a value,
      str.lower(), and sorted() on a list of values, which may raise. */
  datatype Python = Python(str: Value -> string, lower: string -> string, sorted: seq<Value> -> Option<seq<Value>>) {
    predicate SecretKey(key: string) {
      exists k :: 0 <= k < |SECRET_KEYWORDS| && Contains(lower(key), SECRET_KEYWORDS[k])
    }

    /** str() of a text is the text. */
    ghost predicate StrOfTextIsText() {
      forall s :: str(Text(s)) == s
    }

    /** sorted() rearranges. */
    ghost predicate SortedRearranges() {
      forall xs :: sorted(xs).Some? ==> multiset(sorted(xs).value) == multiset(xs)
    }
  }

  /** result[key] = value on a dictionary that keeps insertion order. */
  function Put(result: seq<Entry>, key: string, value: Value): seq<Entry> {
    if result == [] then [Entry(key, value)]
    else if result[0].key == key then [Entry(key, value)] + result[1..]
    else [result[0]] + Put(result[1..], key, value)
  }

  function Lookup(entries: seq<Entry>, key: string): Option<Value> {
    if entries == [] then None
    else if entries[0].key == key then Some(entries[0].value)
    else Lookup(entries[1..], key)
  }

  /** The last value given for the key. */
  function Latest(entries: seq<Entry>, key: string): Option<Value> {
    if entries == [] then None
    else if Latest(entries[1..], key).Some? then Latest(entries[1..], key)
    else if entries[0].key == key then Some(entries[0].value)
    else None
  }

  predicate DistinctKeys(entries: seq<Entry>) {
    forall i, j :: 0 <= i < j < |entries| ==> entries[i].key != entries[j].key
  }

  function Mask(py: Python, v: Value): Value
    decreases v, 0
  {
    match v
    case Dict(entries) => Dict(MaskEntries(py, entries, []))
    case List(items) => List(MaskItems(py, items))
    case Tuple(items) => List(MaskItems(py, items))
    case Text(s) => Text(Sub(s))
    case _ => v
  }

  function MaskEntry(py: Python, key: string, v: Value): Value
    decreases v, 1
  {
    if py.SecretKey(key) then Text(MaskSecret(py.str(v))) else Mask(py, v)
  }

  function MaskItems(py: Python, items: seq<Value>): (r: seq<Value>)
    ensures |r| == |items|
    decreases items
  {
    if items == [] then [] else [Mask(py, items[0])] + MaskItems(py, items[1..])
  }

  function MaskEntries(py: Python, entries: seq<Entry>, result: seq<Entry>): seq<Entry>
    decreases entries
  {
    if entries == [] then result
    else MaskEntries(py, entries[1..], Put(result, entries[0].key, MaskEntry(py, entries[0].key, entries[0].value)))
  }

  // The same as the loops of the source.

  method MaskSecrets(py: Python, v: Value) returns (r: Value)
    ensures r == Mask(py, v)
    decreases v
  {
    match v {
      case Dict(entries) =>
        var result: seq<Entry> := [];
        var i := 0;
        while i < |entries|
          invariant 0 <= i <= |entries|
          invariant MaskEntries(py, entries[i..], result) == MaskEntries(py, entries, [])
        {
          var key, item := entries[i].key, entries[i].value;
          var masked: Value;
          if py.SecretKey(key) {
            masked := Text(MaskSecret(py.str(item)));
          } else {
            masked := MaskSecrets(py, item);
          }
          assert entries[i..][1..] == entries[i + 1..];
          result := Put(result, key, masked);
          i := i + 1;
        }
        r := Dict(result);
      case List(items) =>
        var masked := MaskAll(py, v, items);
        r := List(masked);
      case Tuple(items) =>
        var masked := MaskAll(py, v, items);
        r := List(masked);
      case Text(s) =>
        var masked := SubLoop(s);
        r := Text(masked);
      case _ => r := v;
    }
  }

  lemma MaskItemsFrom(py: Python, items: seq<Value>, i: nat)
    requires i < |items|
    ensures MaskItems(py, items[i..]) == [Mask(py, items[i])] + MaskItems(py, items[i + 1..])
  {
    assert items[i..][1..] == items[i + 1..];
  }

  lemma AppendOne<T>(a: seq<T>, x: T, b: seq<T>)
    ensures (a + [x]) + b == a + ([x] + b)
  {
  }

  method MaskAll(py: Python, ghost parent: Value, items: seq<Value>) returns (r: seq<Value>)
    requires (parent.List? || parent.Tuple?) && parent.items == items
    ensures r == MaskItems(py, items)
    decreases parent, 0
  {
    r := [];
    var i := 0;
    while i < |items|
      invariant 0 <= i <= |items|
      invariant r + MaskItems(py, items[i..]) == MaskItems(py, items)
    {
      MaskItemsFrom(py, items, i);
      var masked := MaskSecrets(py, items[i]);
      AppendOne(r, masked, MaskItems(py, items[i + 1..]));
      r := r + [masked];
      i := i + 1;
    }
  }

  // ----- What one reads under a key -----

  /** Keys are kept, in their order of first appearance, each once. */
  lemma {:induction false} PutKeepsKeysDistinct(result: seq<Entry>, key: string, value: Value)
    requires DistinctKeys(result)
    ensures DistinctKeys(Put(result, key, value))
    ensures forall e :: e in Put(result, key, value) ==> e == Entry(key, value) || (e in result && e.key != key)
  {
    if result != [] && result[0].key != key {
      PutKeepsKeysDistinct(result[1..], key, value);
      forall j | 1 <= j < |Put(result, key, value)|
        ensures Put(result, key, value)[j].key != result[0].key
      {
        assert Put(result, key, value)[j] in Put(result[1..], key, value);
      }
    }
  }

  lemma {:induction false} LookupOfPut(result: seq<Entry>, key: string, value: Value, k: string)
    ensures Lookup(Put(result, key, value), k) == if k == key then Some(value) else Lookup(result, k)
  {
    if result != [] && result[0].key != key {
      LookupOfPut(result[1..], key, value, k);
    }
  }

  lemma {:induction false} LookupFinds(entries: seq<Entry>, i: nat)
    requires i < |entries| && DistinctKeys(entries)
    ensures Lookup(entries, entries[i].key) == Some(entries[i].value)
  {
    if i > 0 {
      LookupFinds(entries[1..], i - 1);
    }
  }

  lemma {:induction false} LookupIsFound(entries: seq<Entry>, k: string)
    ensures Lookup(entries, k).Some? ==> Entry(k, Lookup(entries, k).value) in entries
  {
    if entries != [] {
      LookupIsFound(entries[1..], k);
    }
  }

  lemma {:induction false} LatestIsFound(entries: seq<Entry>, k: string)
    ensures Latest(entries, k).Some? ==> Entry(k, Latest(entries, k).value) in entries
  {
    if entries != [] {
      LatestIsFound(entries[1..], k);
    }
  }

  /** On distinct keys the last value for a key is the only one. */
  lemma {:induction false} LookupIsLatest(entries: seq<Entry>, k: string)
    requires DistinctKeys(entries)
    ensures Lookup(entries, k) == Latest(entries, k)
  {
    if entries != [] {
      LookupIsLatest(entries[1..], k);
      LatestIsFound(entries[1..], k);
    }
  }

  lemma {:induction false} MaskedKeysDistinct(py: Python, entries: seq<Entry>, result: seq<Entry>)
    requires DistinctKeys(result)
    ensures DistinctKeys(MaskEntries(py, entries, result))
    decreases |entries|
  {
    if entries != [] {
      var masked := MaskEntry(py, entries[0].key, entries[0].value);
      PutKeepsKeysDistinct(result, entries[0].key, masked);
      MaskedKeysDistinct(py, entries[1..], Put(result, entries[0].key, masked));
    }
  }

  lemma {:induction false} MaskedLookup(py: Python, entries: seq<Entry>, result: seq<Entry>, k: string)
    ensures Lookup(MaskEntries(py, entries, result), k) ==
      match Latest(entries, k)
      case Some(v) => Some(MaskEntry(py, k, v))
      case None => Lookup(result, k)
    decreases |entries|
  {
    if entries != [] {
      var masked := MaskEntry(py, entries[0].key, entries[0].value);
      LookupOfPut(result, entries[0].key, masked, k);
      MaskedLookup(py, entries[1..], Put(result, entries[0].key, masked), k);
    }
  }

  /** What one reads under a key of the masked dictionary is the masked form of the
      last value the dictionary gives for a key with that text. */
  lemma LookupOfMasked(py: Python, entries: seq<Entry>, k: string)
    ensures Mask(py, Dict(entries)).Dict? && DistinctKeys(Mask(py, Dict(entries)).entries)
    ensures Lookup(Mask(py, Dict(entries)).entries, k) ==
      match Latest(entries, k)
      case Some(v) => Some(MaskEntry(py, k, v))
      case None => None
  {
    MaskedKeysDistinct(py, entries, []);
    MaskedLookup(py, entries, [], k);
  }

  // ----- Completeness over trees -----

  /** Every text at any depth below v, keys aside, is clean. */
  ghost predicate AllClean(v: Value) {
    match v
    case Text(s) => Clean(s)
    case List(items) => forall i :: 0 <= i < |items| ==> AllClean(items[i])
    case Tuple(items) => forall i :: 0 <= i < |items| ==> AllClean(items[i])
    case SetOf(items) => forall i :: 0 <= i < |items| ==> AllClean(items[i])
    case Foreign(_, items) => forall i :: 0 <= i < |items| ==> AllClean(items[i])
    case Dict(entries) => forall i :: 0 <= i < |entries| ==> AllClean(entries[i].value)
    case Model(dump) => AllClean(dump)
    case _ => true
  }

  /** No later entry has the same key and another value. */
  predicate Current(entries: seq<Entry>, i: nat)
    requires i < |entries|
  {
    Latest(entries, entries[i].key) == Some(entries[i].value)
  }

  /** `ok` holds of every value that the masker hands on as it is: of the values it
      does not look into, but for those under a secret key and those overwritten
      by a later entry. */
  ghost predicate Untouched(py: Python, v: Value, ok: Value -> bool) {
    match v
    case Text(_) => true
    case List(items) => forall i :: 0 <= i < |items| ==> Untouched(py, items[i], ok)
    case Tuple(items) => forall i :: 0 <= i < |items| ==> Untouched(py, items[i], ok)
    case Dict(entries) =>
      forall i :: 0 <= i < |entries| && Current(entries, i) && !py.SecretKey(entries[i].key) ==> Untouched(py, entries[i].value, ok)
    case _ => ok(v)
  }

  /** `ok` holds of every value in the tree that is not a list or a dictionary. */
  ghost predicate Everywhere(v: Value, ok: Value -> bool) {
    match v
    case List(items) => forall i :: 0 <= i < |items| ==> Everywhere(items[i], ok)
    case Dict(entries) => forall i :: 0 <= i < |entries| ==> Everywhere(entries[i].value, ok)
    case _ => ok(v)
  }

  /** What the masker writes itself is fine. */
  ghost predicate MaskedTextsOk(ok: Value -> bool) {
    forall s :: ok(Text(Sub(s))) && ok(Text(MaskSecret(s)))
  }

  ghost predicate UntouchedUnder(py: Python, entries: seq<Entry>, k: string, ok: Value -> bool) {
    Latest(entries, k).Some? && !py.SecretKey(k) ==> Untouched(py, Latest(entries, k).value, ok)
  }

  ghost predicate OkUnder(entries: seq<Entry>, k: string, ok: Value -> bool) {
    Lookup(entries, k).Some? ==> Everywhere(Lookup(entries, k).value, ok)
  }

  lemma UntouchedByKey(py: Python, entries: seq<Entry>, ok: Value -> bool)
    ensures Untouched(py, Dict(entries), ok) <==> forall k :: UntouchedUnder(py, entries, k, ok)
  {
    if Untouched(py, Dict(entries), ok) {
      forall k | Latest(entries, k).Some? && !py.SecretKey(k)
        ensures Untouched(py, Latest(entries, k).value, ok)
      {
        LatestIsFound(entries, k);
        var i :| 0 <= i < |entries| && entries[i] == Entry(k, Latest(entries, k).value);
        assert Current(entries, i);
      }
    }
    if forall k :: UntouchedUnder(py, entries, k, ok) {
      forall i | 0 <= i < |entries| && Current(entries, i) && !py.SecretKey(entries[i].key)
        ensures Untouched(py, entries[i].value, ok)
      {
        assert UntouchedUnder(py, entries, entries[i].key, ok);
      }
    }
  }

  lemma EverywhereByKey(entries: seq<Entry>, ok: Value -> bool)
    requires DistinctKeys(entries)
    ensures Everywhere(Dict(entries), ok) <==> forall k :: OkUnder(entries, k, ok)
  {
    if Everywhere(Dict(entries), ok) {
      forall k | Lookup(entries, k).Some?
        ensures Everywhere(Lookup(entries, k).value, ok)
      {
        LookupIsFound(entries, k);
        var i :| 0 <= i < |entries| && entries[i] == Entry(k, Lookup(entries, k).value);
        assert Everywhere(entries[i].value, ok);
      }
    }
    if forall k :: OkUnder(entries, k, ok) {
      forall i | 0 <= i < |entries|
        ensures Everywhere(entries[i].value, ok)
      {
        LookupFinds(entries, i);
        assert OkUnder(entries, entries[i].key, ok);
      }
    }
  }

  lemma {:induction false} MaskItemsAt(py: Python, items: seq<Value>, i: nat)
    requires i < |items|
    ensures MaskItems(py, items)[i] == Mask(py, items[i])
  {
    if i > 0 {
      MaskItemsAt(py, items[1..], i - 1);
    }
  }

  /** What is to hold of every leaf of a masked tree holds exactly when it holds of
      the values the masker hands on. */
  lemma {:induction false} MaskExactly(py: Python, v: Value, ok: Value -> bool)
    requires MaskedTextsOk(ok)
    ensures Everywhere(Mask(py, v), ok) <==> Untouched(py, v, ok)
    decreases v, 0
  {
    match v
    case List(items) => MaskItemsExactly(py, items, ok);
    case Tuple(items) => MaskItemsExactly(py, items, ok);
    case Dict(entries) => MaskDictExactly(py, entries, ok);
    case _ =>
  }

  lemma {:induction false} MaskItemsExactly(py: Python, items: seq<Value>, ok: Value -> bool)
    requires MaskedTextsOk(ok)
    ensures Everywhere(List(MaskItems(py, items)), ok) <==> forall i :: 0 <= i < |items| ==> Untouched(py, items[i], ok)
    decreases items, 1
  {
    forall i | 0 <= i < |items|
      ensures Everywhere(MaskItems(py, items)[i], ok) <==> Untouched(py, items[i], ok)
    {
      MaskItemsAt(py, items, i);
      MaskExactly(py, items[i], ok);
    }
  }

  lemma {:induction false} MaskDictExactly(py: Python, entries: seq<Entry>, ok: Value -> bool)
    requires MaskedTextsOk(ok)
    ensures Everywhere(Mask(py, Dict(entries)), ok) <==> Untouched(py, Dict(entries), ok)
    decreases entries, 1
  {
    var masked := Mask(py, Dict(entries)).entries;
    LookupOfMasked(py, entries, "");
    EverywhereByKey(masked, ok);
    UntouchedByKey(py, entries, ok);
    forall k
      ensures OkUnder(masked, k, ok) <==> UntouchedUnder(py, entries, k, ok)
    {
      LookupOfMasked(py, entries, k);
      if Latest(entries, k).Some? && !py.SecretKey(k) {
        LatestIsFound(entries, k);
        var i :| 0 <= i < |entries| && entries[i] == Entry(k, Latest(entries, k).value);
        MaskExactly(py, entries[i].value, ok);
      }
    }
  }

  lemma {:induction false} CleanIsEverywhere(v: Value)
    ensures AllClean(v) <==> Everywhere(v, x => AllClean(x))
  {
    match v
    case List(items) =>
      forall i | 0 <= i < |items|
        ensures AllClean(items[i]) <==> Everywhere(items[i], x => AllClean(x))
      {
        CleanIsEverywhere(items[i]);
      }
    case Dict(entries) =>
      forall i | 0 <= i < |entries|
        ensures AllClean(entries[i].value) <==> Everywhere(entries[i].value, x => AllClean(x))
      {
        CleanIsEverywhere(entries[i].value);
      }
    case _ =>
  }

  lemma MaskedTextsAreClean()
    ensures MaskedTextsOk(x => AllClean(x))
  {
    forall s
      ensures Clean(Sub(s)) && Clean(MaskSecret(s))
    {
      SubIsClean(s);
      MaskSecretIsClean(s);
    }
  }

  /** The values the masker does not look into, and that are neither under a secret
      key nor overwritten, show no URL credentials. */
  ghost predicate HiddenClean(py: Python, v: Value) {
    Untouched(py, v, x => AllClean(x))
  }

  /** A masked tree shows no URL credentials exactly when the hidden values show none. */
  lemma MaskIsCleanExactly(py: Python, v: Value)
    ensures AllClean(Mask(py, v)) <==> HiddenClean(py, v)
  {
    MaskedTextsAreClean();
    MaskExactly(py, v, x => AllClean(x));
    CleanIsEverywhere(Mask(py, v));
  }

  /** Only lists, tuples, dictionaries and plain leaves: the masker looks into all of it. */
  predicate Reachable(v: Value) {
    match v
    case List(items) => forall i :: 0 <= i < |items| ==> Reachable(items[i])
    case Tuple(items) => forall i :: 0 <= i < |items| ==> Reachable(items[i])
    case Dict(entries) => forall i :: 0 <= i < |entries| ==> Reachable(entries[i].value)
    case SetOf(_) => false
    case Foreign(_, _) => false
    case Model(_) => false
    case _ => true
  }

  lemma {:induction false} ReachableHidesNothing(py: Python, v: Value)
    requires Reachable(v)
    ensures HiddenClean(py, v)
  {
    match v
    case List(items) =>
      forall i | 0 <= i < |items| ensures HiddenClean(py, items[i]) { ReachableHidesNothing(py, items[i]); }
    case Tuple(items) =>
      forall i | 0 <= i < |items| ensures HiddenClean(py, items[i]) { ReachableHidesNothing(py, items[i]); }
    case Dict(entries) =>
      forall i | 0 <= i < |entries| ensures HiddenClean(py, entries[i].value) { ReachableHidesNothing(py, entries[i].value); }
    case _ =>
  }

  lemma MaskIsClean(py: Python, v: Value)
    requires Reachable(v)
    ensures AllClean(Mask(py, v))
  {
    ReachableHidesNothing(py, v);
    MaskIsCleanExactly(py, v);
  }

  lemma CredentialsShow(m: Match)
    requires m.InPattern() && m.user != "***"
    ensures !AllClean(Text(m.Source()))
  {
    assert m.Source()[0..] == m.Source();
    assert OccursAt(m.Source(), 0, m);
  }

  /** The masker does not look into a set. */
  lemma SetsAreNotMasked(py: Python, m: Match)
    requires m.InPattern() && m.user != "***"
    ensures !AllClean(Mask(py, SetOf([Text(m.Source())])))
  {
    CredentialsShow(m);
    assert !AllClean(SetOf([Text(m.Source())]).items[0]);
  }

  // ----- Stability over trees -----

  /** The entry is a fixed point of the masking of entries. */
  ghost predicate Settled(py: Python, e: Entry) {
    MaskEntry(py, e.key, MaskEntry(py, e.key, e.value)) == MaskEntry(py, e.key, e.value)
  }

  function MaskEach(py: Python, entries: seq<Entry>): (r: seq<Entry>)
    ensures |r| == |entries|
    ensures forall i :: 0 <= i < |r| ==> r[i] == Entry(entries[i].key, MaskEntry(py, entries[i].key, entries[i].value))
  {
    if entries == [] then []
    else [Entry(entries[0].key, MaskEntry(py, entries[0].key, entries[0].value))] + MaskEach(py, entries[1..])
  }

  lemma {:induction false} PutAbsent(result: seq<Entry>, key: string, value: Value)
    requires forall i :: 0 <= i < |result| ==> result[i].key != key
    ensures Put(result, key, value) == result + [Entry(key, value)]
  {
    if result != [] {
      PutAbsent(result[1..], key, value);
      assert result == [result[0]] + result[1..];
    }
  }

  predicate Apart(result: seq<Entry>, entries: seq<Entry>) {
    forall i, j :: 0 <= i < |result| && 0 <= j < |entries| ==> result[i].key != entries[j].key
  }

  lemma ApartFromRest(result: seq<Entry>, entries: seq<Entry>, value: Value)
    requires entries != [] && DistinctKeys(entries) && Apart(result, entries)
    ensures DistinctKeys(entries[1..])
    ensures Apart(result + [Entry(entries[0].key, value)], entries[1..])
    ensures Put(result, entries[0].key, value) == result + [Entry(entries[0].key, value)]
  {
  }

  /** On distinct keys the masker goes entry by entry. */
  lemma {:induction false} MaskDistinctEntries(py: Python, entries: seq<Entry>, result: seq<Entry>)
    requires DistinctKeys(entries) && Apart(result, entries)
    ensures MaskEntries(py, entries, result) == result + MaskEach(py, entries)
    decreases |entries|
  {
    if entries == [] {
      assert result + [] == result;
    } else {
      var key, value, rest := entries[0].key, MaskEntry(py, entries[0].key, entries[0].value), entries[1..];
      ApartFromRest(result, entries, value);
      MaskDistinctEntries(py, rest, result + [Entry(key, value)]);
      assert MaskEntries(py, entries, result) == MaskEntries(py, rest, Put(result, key, value));
      AppendOne(result, Entry(key, value), MaskEach(py, rest));
    }
  }

  lemma {:induction false} MaskedEntriesSettle(py: Python, entries: seq<Entry>, result: seq<Entry>)
    requires py.StrOfTextIsText()
    requires DistinctKeys(result) && forall e :: e in result ==> Settled(py, e)
    ensures DistinctKeys(MaskEntries(py, entries, result))
    ensures forall e :: e in MaskEntries(py, entries, result) ==> Settled(py, e)
    decreases entries, 0
  {
    if entries != [] {
      var key, v := entries[0].key, entries[0].value;
      var masked := MaskEntry(py, key, v);
      if py.SecretKey(key) {
        MaskSecretStabilises(py.str(v));
      } else {
        MaskSettles(py, v);
      }
      assert Settled(py, Entry(key, masked));
      PutKeepsKeysDistinct(result, key, masked);
      MaskedEntriesSettle(py, entries[1..], Put(result, key, masked));
    }
  }

  lemma {:induction false} MaskItemsSettle(py: Python, items: seq<Value>)
    requires py.StrOfTextIsText()
    ensures MaskItems(py, MaskItems(py, MaskItems(py, items))) == MaskItems(py, MaskItems(py, items))
    decreases items
  {
    if items != [] {
      MaskSettles(py, items[0]);
      MaskItemsSettle(py, items[1..]);
    }
  }

  /** Masking any tree three times is masking it twice. */
  lemma {:induction false} MaskSettles(py: Python, v: Value)
    requires py.StrOfTextIsText()
    ensures Mask(py, Mask(py, Mask(py, v))) == Mask(py, Mask(py, v))
    decreases v, 0
  {
    match v
    case Text(s) => SubIsIdempotent(s);
    case List(items) => MaskItemsSettle(py, items);
    case Tuple(items) => MaskItemsSettle(py, items);
    case Dict(entries) => DictSettles(py, entries);
    case _ =>
  }

  lemma {:induction false} DictSettles(py: Python, entries: seq<Entry>)
    requires py.StrOfTextIsText()
    ensures Mask(py, Mask(py, Mask(py, Dict(entries)))) == Mask(py, Mask(py, Dict(entries)))
    decreases entries, 1
  {
    MaskedEntriesSettle(py, entries, []);
    SettledEntriesAreFixed(py, MaskEntries(py, entries, []));
  }

  lemma SettledEntriesAreFixed(py: Python, entries: seq<Entry>)
    requires DistinctKeys(entries) && forall e :: e in entries ==> Settled(py, e)
    ensures Mask(py, Mask(py, Dict(entries))) == Mask(py, Dict(entries))
  {
    var once := MaskEach(py, entries);
    MaskDistinctEntries(py, entries, []);
    MaskDistinctEntries(py, once, []);
    var twice := MaskEach(py, once);
    forall i | 0 <= i < |entries|
      ensures twice[i] == once[i]
    {
      assert Settled(py, entries[i]);
    }
    assert twice == once;
    assert Mask(py, Dict(entries)) == Dict(once) && Mask(py, Dict(once)) == Dict(twice);
  }
}
