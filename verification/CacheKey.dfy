/** app/core/cache.py, build_cache_key. */
module CacheKey {
  import opened Options
  import opened Numbers
  import opened Sorting
  import opened Text

  /** A query parameter: its name, and str() of its value unless the value is None. */
  type Param = (string, Option<string>)

  /** The entries of a dictionary, in insertion order. */
  predicate IsDict(params: seq<Param>) {
    forall i, j :: 0 <= i < j < |params| ==> params[i].0 != params[j].0
  }

  /** The generator `(k, str(v)) for k, v in params.items() if v is not None`. */
  function Given(params: seq<Param>): seq<(string, string)> {
    if params == [] then []
    else match params[0].1
      case None => Given(params[1..])
      case Some(v) => [(params[0].0, v)] + Given(params[1..])
  }

  function Equation(entry: (string, string)): string {
    entry.0 + "=" + entry.1
  }

  function Equations(entries: seq<(string, string)>): (r: seq<string>)
    ensures |r| == |entries|
    ensures forall i :: 0 <= i < |r| ==> r[i] == Equation(entries[i])
  {
    if entries == [] then [] else [Equation(entries[0])] + Equations(entries[1..])
  }

  /** The text that is hashed. */
  function PreHash(params: seq<Param>): string {
    Join(Equations(Sort(PairLe, Given(params))), '&')
  }

  /** `hexDigest` is SHA-256 of the UTF-8 text as hexadecimal digits. */
  function BuildCacheKey(endpoint: string, codigoCvm: int, params: seq<Param>, namespaceName: string, hexDigest: string -> string): string {
    namespaceName + ":" + endpoint + ":" + IntText(codigoCvm) + ":" + ShortDigest(params, hexDigest)
  }

  function ShortDigest(params: seq<Param>, hexDigest: string -> string): string {
    var digest := hexDigest(PreHash(params));
    if |digest| <= 16 then digest else digest[..16]
  }

  /** Two parameter maps that agree on the entries that are not None have the
      same key, whatever their insertion order and their None entries. */
  lemma KeyIsCanonical(endpoint: string, codigoCvm: int, p: seq<Param>, q: seq<Param>, namespaceName: string, hexDigest: string -> string)
    requires IsDict(p) && IsDict(q)
    requires forall e: Param :: e.1.Some? ==> (e in p <==> e in q)
    ensures BuildCacheKey(endpoint, codigoCvm, p, namespaceName, hexDigest)
         == BuildCacheKey(endpoint, codigoCvm, q, namespaceName, hexDigest)
  {
    GivenOfDict(p);
    GivenOfDict(q);
    forall e: (string, string)
      ensures multiset(Given(p))[e] == multiset(Given(q))[e]
    {
      var given: Param := (e.0, Some(e.1));
      assert given in p <==> given in q;
    }
    assert multiset(Given(p)) == multiset(Given(q));
    PairLeIsTotalOrder();
    SortIsCanonical(PairLe, Given(p), Given(q));
  }

  lemma {:induction false} GivenOfDict(params: seq<Param>)
    requires IsDict(params)
    ensures forall e :: multiset(Given(params))[e] == if (e.0, Some(e.1)) in params then 1 else 0
  {
    if params != [] {
      var rest := params[1..];
      GivenOfDict(rest);
      assert params == [params[0]] + rest;
      forall e: (string, string)
        ensures multiset(Given(params))[e] == if (e.0, Some(e.1)) in params then 1 else 0
      {
        var given: Param := (e.0, Some(e.1));
        assert given in params <==> given == params[0] || given in rest;
        if given == params[0] {
          assert given !in rest;
        }
      }
    }
  }

  /** In one namespace, keys of different endpoints or companies never coincide,
      whatever the endpoints hold: the digest has a fixed length and the company is
      a number. */
  lemma KeySeparates(e: string, c: int, p: seq<Param>, e': string, c': int, p': seq<Param>, namespaceName: string, hexDigest: string -> string)
    requires forall s :: |hexDigest(s)| == 64
    requires BuildCacheKey(e, c, p, namespaceName, hexDigest) == BuildCacheKey(e', c', p', namespaceName, hexDigest)
    ensures e == e' && c == c' && ShortDigest(p, hexDigest) == ShortDigest(p', hexDigest)
  {
    var n, d, d' := namespaceName + ":", ShortDigest(p, hexDigest), ShortDigest(p', hexDigest);
    SuffixesEqual(n + e + ":" + IntText(c) + ":", d, n + e' + ":" + IntText(c') + ":", d');
    SuffixesEqual(n + e + ":" + IntText(c), ":", n + e' + ":" + IntText(c'), ":");
    IntTextAvoidsColon(c);
    IntTextAvoidsColon(c');
    LastPart(n + e, IntText(c), n + e', IntText(c'));
    IntTextIsInjective(c, c');
    assert (n + e)[|n|..] == e && (n + e')[|n|..] == e';
  }

  /** With a digest of 64 characters two keys of one namespace are the same exactly
      when endpoint and company are and the digests of the hashed texts begin with
      the same sixteen characters. */
  lemma KeysEqualExactly(e: string, c: int, p: seq<Param>, e': string, c': int, p': seq<Param>, namespaceName: string, hexDigest: string -> string)
    requires forall s :: |hexDigest(s)| == 64
    ensures BuildCacheKey(e, c, p, namespaceName, hexDigest) == BuildCacheKey(e', c', p', namespaceName, hexDigest) <==>
      e == e' && c == c' && hexDigest(PreHash(p))[..16] == hexDigest(PreHash(p'))[..16]
  {
    if BuildCacheKey(e, c, p, namespaceName, hexDigest) == BuildCacheKey(e', c', p', namespaceName, hexDigest) {
      KeySeparates(e, c, p, e', c', p', namespaceName, hexDigest);
    }
  }

  /** The parts of a key, in their order. */
  lemma KeyText(e: string, c: nat, p: seq<Param>, namespaceName: string, hexDigest: string -> string)
    requires |hexDigest(PreHash(p))| == 64
    ensures BuildCacheKey(e, c, p, namespaceName, hexDigest) ==
      namespaceName + [':'] + e + [':'] + Decimal(c) + [':'] + hexDigest(PreHash(p))[..16]
  {
  }

  // ----- The hashed text, spelled out -----

  lemma HashedTextOfNone()
    ensures PreHash([]) == ""
  {
    PairLeIsTotalOrder();
  }

  lemma {:induction false} SortOfAppended(xs: seq<(string, string)>, y: (string, string))
    requires Sorted(PairLe, xs + [y])
    ensures Sort(PairLe, xs + [y]) == Sort(PairLe, xs) + [y]
  {
    PairLeIsTotalOrder();
    SortSorts(PairLe, xs + [y]);
    SortSorts(PairLe, xs);
    SortedFormIsUnique(PairLe, Sort(PairLe, xs + [y]), xs + [y]);
    forall i, j | 0 <= i < j < |xs|
      ensures PairLe(xs[i], xs[j])
    {
      assert (xs + [y])[i] == xs[i] && (xs + [y])[j] == xs[j];
    }
    SortedFormIsUnique(PairLe, Sort(PairLe, xs), xs);
  }

  lemma {:induction false} EquationsAppend(xs: seq<(string, string)>, y: (string, string))
    ensures Equations(xs + [y]) == Equations(xs) + [Equation(y)]
  {
    if xs != [] {
      assert (xs + [y])[1..] == xs[1..] + [y];
      EquationsAppend(xs[1..], y);
    }
  }

  lemma {:induction false} JoinAppend(parts: seq<string>, last: string, sep: char)
    requires parts != []
    ensures Join(parts + [last], sep) == Join(parts, sep) + [sep] + last
  {
    assert (parts + [last])[1..] == parts[1..] + [last];
    if |parts| > 1 {
      JoinAppend(parts[1..], last, sep);
    }
  }

  lemma {:induction false} GivenAppend(params: seq<Param>, k: string, v: string)
    ensures Given(params + [(k, Some(v))]) == Given(params) + [(k, v)]
  {
    var p: Param := (k, Some(v));
    if params == [] {
      assert [p][1..] == [] && params + [p] == [p];
    } else {
      assert (params + [p])[1..] == params[1..] + [p];
      GivenAppend(params[1..], k, v);
    }
  }

  /** The name comes behind all the others in the order of strings. */
  ghost predicate ComesLast(params: seq<Param>, k: string) {
    && (forall i :: 0 <= i < |params| ==> params[i].1.Some?)
    && (forall i, j :: 0 <= i < j < |params| ==> params[i].0 != params[j].0 && StringLe(params[i].0, params[j].0))
    && (forall i :: 0 <= i < |params| ==> params[i].0 != k && StringLe(params[i].0, k))
  }

  lemma {:induction false} GivenOfAll(params: seq<Param>)
    requires forall i :: 0 <= i < |params| ==> params[i].1.Some?
    ensures |Given(params)| == |params|
    ensures forall i :: 0 <= i < |params| ==> Given(params)[i] == (params[i].0, params[i].1.value)
  {
    if params != [] {
      GivenOfAll(params[1..]);
    }
  }

  /** The given entries are in order, and stay so with the last one. */
  lemma LastIsSorted(params: seq<Param>, k: string, v: string)
    requires ComesLast(params, k)
    ensures Sorted(PairLe, Given(params) + [(k, v)]) && |Given(params)| == |params|
  {
    GivenOfAll(params);
  }

  lemma JoinedEquations(xs: seq<(string, string)>, k: string, v: string)
    ensures Join(Equations(xs + [(k, v)]), '&') ==
      if xs == [] then k + ['='] + v else Join(Equations(xs), '&') + ['&'] + k + ['='] + v
  {
    EquationsAppend(xs, (k, v));
    if xs == [] {
      assert [] + [Equation((k, v))] == [Equation((k, v))];
    } else {
      JoinAppend(Equations(xs), Equation((k, v)), '&');
      var joined := Join(Equations(xs), '&');
      assert joined + ['&'] + (k + ['='] + v) == joined + ['&'] + k + ['='] + v;
    }
  }

  /** The text of a first parameter is name=value; each further one, in the order of
      the names, adds &name=value. KeyIsCanonical reduces every other map to this. */
  lemma HashedTextGrows(params: seq<Param>, k: string, v: string)
    requires ComesLast(params, k)
    ensures PreHash(params + [(k, Some(v))]) == if params == [] then k + ['='] + v else PreHash(params) + ['&'] + k + ['='] + v
  {
    var xs := Given(params);
    LastIsSorted(params, k, v);
    GivenAppend(params, k, v);
    SortOfAppended(xs, (k, v));
    SortKeepsLength(xs);
    JoinedEquations(Sort(PairLe, xs), k, v);
  }

  lemma SortKeepsLength(xs: seq<(string, string)>)
    ensures |Sort(PairLe, xs)| == |xs|
  {
    PairLeIsTotalOrder();
    SortSorts(PairLe, xs);
    assert |multiset(Sort(PairLe, xs))| == |multiset(xs)|;
  }

  lemma SuffixesEqual(a: string, b: string, a': string, b': string)
    requires a + b == a' + b' && |b| == |b'|
    ensures a == a' && b == b'
  {
    assert (a + b)[..|a|] == a && (a' + b')[..|a'|] == a';
    assert (a + b)[|a|..] == b && (a' + b')[|a'|..] == b';
  }

  lemma IntTextAvoidsColon(n: int)
    ensures Avoids(IntText(n), ':')
  {
  }

  /** The last separator ends the first part, when the last part avoids it. */
  lemma LastPart(a: string, b: string, a': string, b': string)
    requires Avoids(b, ':') && Avoids(b', ':') && a + ":" + b == a' + ":" + b'
    ensures a == a' && b == b'
  {
    LastColon(a, b);
    LastColon(a', b');
    assert |a| == |a'|;
    SuffixesEqual(a + ":", b, a' + ":", b');
    SuffixesEqual(a, ":", a', ":");
  }

  lemma LastColon(a: string, b: string)
    requires Avoids(b, ':')
    ensures var s := a + ":" + b; s[|a|] == ':' && forall i :: |a| < i < |s| ==> s[i] != ':'
  {
  }

  /** The names avoid '=' and the values avoid '&'. */
  ghost predicate Unambiguous(params: seq<Param>) {
    forall i :: 0 <= i < |params| ==> Avoids(params[i].0, '=') && (params[i].1.Some? ==> Avoids(params[i].1.value, '&'))
  }

  ghost predicate UnambiguousEntries(entries: seq<(string, string)>) {
    forall i :: 0 <= i < |entries| ==> Avoids(entries[i].0, '=') && Avoids(entries[i].1, '&')
  }

  lemma {:induction false} GivenIsUnambiguous(params: seq<Param>)
    requires Unambiguous(params)
    ensures UnambiguousEntries(Given(params))
  {
    if params != [] {
      GivenIsUnambiguous(params[1..]);
    }
  }

  lemma FirstPart(a: string, rest: string, b: string, rest': string, c: char)
    requires Avoids(a, c) && Avoids(b, c) && a + [c] + rest == b + [c] + rest'
    ensures a == b && rest == rest'
  {
    IndexOfFirst(a, c, rest);
    IndexOfFirst(b, c, rest');
    SuffixesEqual(a + [c], rest, b + [c], rest');
    SuffixesEqual(a, [c], b, [c]);
  }

  /** A value ends at the first '&', or at the end of the text. */
  lemma ValueEnds(v: string, rest: string, w: string, rest': string)
    requires Avoids(v, '&') && Avoids(w, '&') && v + rest == w + rest'
    requires (rest == "" || rest[0] == '&') && (rest' == "" || rest'[0] == '&')
    ensures v == w && rest == rest'
  {
    FirstAmpersand(v, rest);
    FirstAmpersand(w, rest');
    assert |v| == |w|;
    SuffixesEqual(v, rest, w, rest');
  }

  lemma FirstAmpersand(v: string, rest: string)
    requires Avoids(v, '&') && (rest == "" || rest[0] == '&')
    ensures var s := v + rest; (|v| < |s| ==> s[|v|] == '&') && forall i :: 0 <= i < |v| ==> s[i] != '&'
  {
  }

  /** What follows the first equation. */
  function Tail(entries: seq<(string, string)>): string
    requires entries != []
  {
    if |entries| == 1 then "" else "&" + Join(Equations(entries[1..]), '&')
  }

  lemma FirstEquation(entries: seq<(string, string)>)
    requires entries != []
    ensures Join(Equations(entries), '&') == entries[0].0 + ['='] + (entries[0].1 + Tail(entries))
  {
    assert Equations(entries)[1..] == Equations(entries[1..]);
  }

  /** The text parses uniquely: a name ends at the first '=', a value at the next '&'. */
  lemma {:induction false} JoinedEquationsAreInjective(xs: seq<(string, string)>, ys: seq<(string, string)>)
    requires UnambiguousEntries(xs) && UnambiguousEntries(ys)
    requires Join(Equations(xs), '&') == Join(Equations(ys), '&')
    ensures xs == ys
    decreases |xs|
  {
    if xs == [] || ys == [] {
      JoinIsEmptyOnlyForNone(xs);
      JoinIsEmptyOnlyForNone(ys);
    } else {
      FirstEquation(xs);
      FirstEquation(ys);
      FirstPart(xs[0].0, xs[0].1 + Tail(xs), ys[0].0, ys[0].1 + Tail(ys), '=');
      ValueEnds(xs[0].1, Tail(xs), ys[0].1, Tail(ys));
      assert xs == [xs[0]] + xs[1..] && ys == [ys[0]] + ys[1..];
      TailText(xs);
      TailText(ys);
      if |xs| > 1 {
        JoinedEquationsAreInjective(xs[1..], ys[1..]);
      }
    }
  }

  lemma TailText(entries: seq<(string, string)>)
    requires entries != []
    ensures Tail(entries) == "" <==> |entries| == 1
    ensures |entries| > 1 ==> Tail(entries)[1..] == Join(Equations(entries[1..]), '&')
  {
  }

  lemma JoinIsEmptyOnlyForNone(xs: seq<(string, string)>)
    ensures Join(Equations(xs), '&') == "" <==> xs == []
  {
  }

  /** On such maps the hashed text is the same exactly when the given entries are. */
  lemma PreHashIsInjective(p: seq<Param>, q: seq<Param>)
    requires IsDict(p) && IsDict(q) && Unambiguous(p) && Unambiguous(q)
    ensures PreHash(p) == PreHash(q) <==> multiset(Given(p)) == multiset(Given(q))
  {
    PairLeIsTotalOrder();
    SortIsCanonical(PairLe, Given(p), Given(q));
    if PreHash(p) == PreHash(q) {
      GivenIsUnambiguous(p);
      GivenIsUnambiguous(q);
      SortKeepsUnambiguous(Given(p));
      SortKeepsUnambiguous(Given(q));
      JoinedEquationsAreInjective(Sort(PairLe, Given(p)), Sort(PairLe, Given(q)));
    }
  }

  lemma SortKeepsUnambiguous(xs: seq<(string, string)>)
    requires UnambiguousEntries(xs)
    ensures UnambiguousEntries(Sort(PairLe, xs))
  {
    PairLeIsTotalOrder();
    SortSorts(PairLe, xs);
    var ys := Sort(PairLe, xs);
    forall i | 0 <= i < |ys|
      ensures Avoids(ys[i].0, '=') && Avoids(ys[i].1, '&')
    {
      assert ys[i] in multiset(ys);
      assert ys[i] in xs;
    }
  }

  lemma GivenPair(a: string, v: string, b: string, w: string)
    ensures Given([(a, Some(v))]) == [(a, v)]
    ensures Given([(a, Some(v)), (b, Some(w))]) == [(a, v), (b, w)]
  {
    var p: seq<Param> := [(a, Some(v))];
    var q: seq<Param> := [(a, Some(v)), (b, Some(w))];
    assert p[1..] == [] && q[1..] == [(b, Some(w))] && q[1..][1..] == [];
  }

  lemma EquationsOfPair(x: (string, string), y: (string, string))
    requires PairLe(x, y)
    ensures Join(Equations(Sort(PairLe, [x])), '&') == Equation(x)
    ensures Join(Equations(Sort(PairLe, [x, y])), '&') == Equation(x) + "&" + Equation(y)
  {
    assert [x][1..] == [] && [x, y][1..] == [y] && [y][1..] == [];
    assert Sort(PairLe, []) == [] && Sort(PairLe, [x]) == [x];
    assert Sort(PairLe, [y]) == [y];
    assert Sort(PairLe, [x, y]) == Insert(PairLe, x, [y]) == [x] + [y];
    assert Equations([x]) == [Equation(x)] && Equations([x, y]) == [Equation(x), Equation(y)];
    assert [Equation(x), Equation(y)][1..] == [Equation(y)];
  }

  /** Values may not hold '&': any two entries share their key with the single entry
      they merge into. */
  lemma MergedEntryCollides(k: string, v: string, k': string, v': string)
    requires k != k' && StringLe(k, k')
    ensures var p: seq<Param>, q: seq<Param> := [(k, Some(v)), (k', Some(v'))], [(k, Some(v + "&" + Equation((k', v'))))];
      IsDict(p) && IsDict(q) && multiset(Given(p)) != multiset(Given(q)) && PreHash(p) == PreHash(q)
  {
    var merged := (k, v + "&" + Equation((k', v')));
    GivenPair(k, v, k', v');
    GivenPair(k, merged.1, "", "");
    assert PairLe((k, v), (k', v'));
    EquationsOfPair((k, v), (k', v'));
    PairLeIsTotalOrder();
    EquationsOfPair(merged, merged);
    assert Equation(merged) == Equation((k, v)) + "&" + Equation((k', v'));
    assert |multiset([(k, v), (k', v')])| == 2 && |multiset([merged])| == 1;
  }

  /** Names may not hold '=': any such name shares its key with the name before it. */
  lemma EqualsInNameCollides(a: string, b: string, v: string)
    ensures var p: seq<Param>, q: seq<Param> := [(a + "=" + b, Some(v))], [(a, Some(b + "=" + v))];
      IsDict(p) && IsDict(q) && multiset(Given(p)) != multiset(Given(q)) && PreHash(p) == PreHash(q)
  {
    var x, y := (a + "=" + b, v), (a, b + "=" + v);
    GivenPair(x.0, x.1, "", "");
    GivenPair(y.0, y.1, "", "");
    PairLeIsTotalOrder();
    EquationsOfPair(x, x);
    EquationsOfPair(y, y);
    assert Equation(x) == Equation(y);
    assert |x.0| > |y.0| && x in multiset([x]) && x !in multiset([y]);
  }

  /** So without the restrictions two different queries share their key. */
  lemma AmpersandInValueCollides()
    ensures exists p: seq<Param>, q: seq<Param> ::
      IsDict(p) && IsDict(q) && multiset(Given(p)) != multiset(Given(q)) && PreHash(p) == PreHash(q)
  {
    assert "a"[0] != "b"[0] && StringLe("a", "b");
    MergedEntryCollides("a", "1", "b", "2");
  }
}
