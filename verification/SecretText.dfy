/** mask_secret and mask_secrets spelled out: which keys are secret, and what
    becomes of each kind of value. */
module SecretText {
  import opened Options
  import opened UrlCredentials
  import opened Masking

  /** The keywords of the source. */
  predicate IsKeyword(word: string) {
    || word == "token" || word == "secret" || word == "password" || word == "senha"
    || word == "database_url" || word == "connection" || word == "authorization"
  }

  lemma PartAt(a: string, part: string, b: string)
    ensures Contains(a + part + b, part)
  {
    assert (a + part + b)[|a|..] == part + b;
  }

  lemma ContainsExactly(s: string, part: string)
    ensures Contains(s, part) <==> exists a, b :: s == a + part + b
  {
    if i :| 0 <= i <= |s| && part <= s[i..] {
      assert s == s[..i] + part + s[i + |part|..];
    }
    forall a, b | s == a + part + b
      ensures Contains(s, part)
    {
      PartAt(a, part, b);
    }
  }

  lemma KeywordAt(i: nat)
    requires i < |SECRET_KEYWORDS|
    ensures IsKeyword(SECRET_KEYWORDS[i])
  {
  }

  lemma KeywordsAreListed(word: string) returns (i: nat)
    requires IsKeyword(word)
    ensures i < |SECRET_KEYWORDS| && SECRET_KEYWORDS[i] == word
  {
    i := if word == "token" then 0 else if word == "secret" then 1 else if word == "password" then 2
         else if word == "senha" then 3 else if word == "database_url" then 4 else if word == "connection" then 5 else 6;
  }

  /** The value under a key whose lower-case text has a keyword in it anywhere is
      masked as a whole, whatever it is. */
  lemma SecretsAreMasked(py: Python, entries: seq<Entry>, k: string, v: Value, a: string, word: string, b: string)
    requires IsKeyword(word) && py.lower(k) == a + word + b && Latest(entries, k) == Some(v)
    ensures Mask(py, Dict(entries)).Dict?
    ensures Lookup(Mask(py, Dict(entries)).entries, k) == Some(Text(MaskSecret(py.str(v))))
  {
    LookupOfMasked(py, entries, k);
    var i := KeywordsAreListed(word);
    PartAt(a, word, b);
    assert Contains(py.lower(k), SECRET_KEYWORDS[i]);
  }

  /** Under any other key it is masked by its own kind. */
  lemma OthersAreNotSecret(py: Python, entries: seq<Entry>, k: string, v: Value)
    requires forall a, word, b :: IsKeyword(word) ==> py.lower(k) != a + word + b
    requires Latest(entries, k) == Some(v)
    ensures Mask(py, Dict(entries)).Dict?
    ensures Lookup(Mask(py, Dict(entries)).entries, k) == Some(Mask(py, v))
  {
    LookupOfMasked(py, entries, k);
    if i :| 0 <= i < |SECRET_KEYWORDS| && Contains(py.lower(k), SECRET_KEYWORDS[i]) {
      KeywordAt(i);
      ContainsExactly(py.lower(k), SECRET_KEYWORDS[i]);
    }
  }

  /** Texts are substituted, lists and tuples become lists of the masked items, and
      everything but these and dictionaries is handed on. */
  lemma KindsAreMasked(py: Python, s: string, items: seq<Value>, v: Value)
    ensures Mask(py, Text(s)) == Text(Sub(s))
    ensures Mask(py, List(items)).List? && Mask(py, Tuple(items)) == Mask(py, List(items))
    ensures |Mask(py, List(items)).items| == |items| && forall i :: 0 <= i < |items| ==> Mask(py, List(items)).items[i] == Mask(py, items[i])
    ensures !v.Text? && !v.List? && !v.Tuple? && !v.Dict? ==> Mask(py, v) == v
  {
    forall i | 0 <= i < |items|
      ensures MaskItems(py, items)[i] == Mask(py, items[i])
    {
      MaskItemsAt(py, items, i);
    }
  }

  /** A secret with "://" in it is substituted; any other shows its first and last four
      characters around three dots when it has at least sixteen, and `***` otherwise. */
  lemma SecretsAreAbridged(value: string, a: string, b: string)
    ensures value == a + "://" + b ==> MaskSecret(value) == Sub(value)
    ensures (forall x, y :: value != x + "://" + y) ==>
      MaskSecret(value) == if |value| < 16 then "***" else value[..4] + "..." + value[|value| - 4..]
  {
    ContainsExactly(value, "://");
    if !Contains(value, "://") {
      NoUrlNoChange(value);
    }
  }
}
