/** str.split, str.join and white space. */
module Text {
  /** White space: what `\s` stands for in a pattern over text and what strip() removes. */
  predicate Space(c: char) {
    || '\t' <= c <= '\r' || '\U{1c}' <= c <= ' ' || c == '\U{85}' || c == '\U{a0}' || c == '\U{1680}'
    || '\U{2000}' <= c <= '\U{200a}' || c == '\U{2028}' || c == '\U{2029}' || c == '\U{202f}'
    || c == '\U{205f}' || c == '\U{3000}'
  }

  ghost predicate Avoids(s: string, c: char) {
    forall i :: 0 <= i < |s| ==> s[i] != c
  }

  /** sep.join(parts). */
  function Join(parts: seq<string>, sep: char): string {
    if parts == [] then ""
    else if |parts| == 1 then parts[0]
    else parts[0] + [sep] + Join(parts[1..], sep)
  }

  function IndexOf(s: string, c: char): (i: nat)
    ensures i <= |s|
    ensures i < |s| ==> s[i] == c
    ensures forall j :: 0 <= j < i ==> s[j] != c
  {
    if s == "" || s[0] == c then 0 else 1 + IndexOf(s[1..], c)
  }

  /** s.split(sep). */
  function Split(s: string, sep: char): (parts: seq<string>)
    ensures parts != []
    decreases |s|
  {
    var i := IndexOf(s, sep);
    if i == |s| then [s] else [s[..i]] + Split(s[i + 1..], sep)
  }

  /** s.split(sep, limit): at most `limit` cuts, the rest stays in the last part. */
  function SplitAtMost(s: string, sep: char, limit: nat): (parts: seq<string>)
    ensures 0 < |parts| <= limit + 1
  {
    var i := IndexOf(s, sep);
    if limit == 0 || i == |s| then [s] else [s[..i]] + SplitAtMost(s[i + 1..], sep, limit - 1)
  }

  lemma JoinOfTwo(a: string, b: string, sep: char)
    ensures Join([a, b], sep) == a + [sep] + b
  {
  }

  lemma JoinOfFour(a: string, b: string, c: string, d: string, sep: char)
    ensures Join([a, b, c, d], sep) == a + [sep] + (b + [sep] + (c + [sep] + d))
  {
    assert [a, b, c, d][1..] == [b, c, d] && [b, c, d][1..] == [c, d];
    JoinOfTwo(c, d, sep);
  }

  lemma IndexOfFirst(a: string, c: char, b: string)
    requires Avoids(a, c)
    ensures IndexOf(a + [c] + b, c) == |a|
  {
    var s := a + [c] + b;
    assert s[|a|] == c;
    assert forall k :: 0 <= k < |a| ==> s[k] == a[k];
  }

  lemma AroundSep(a: string, sep: char, b: string)
    ensures var s := a + [sep] + b; s[..|a|] == a && s[|a| + 1..] == b
  {
  }

  lemma HeadAndTail<T>(xs: seq<T>)
    requires xs != []
    ensures xs == [xs[0]] + xs[1..]
  {
  }

  lemma JoinCons(a: string, parts: seq<string>, sep: char)
    requires parts != []
    ensures Join([a] + parts, sep) == a + [sep] + Join(parts, sep)
  {
    assert ([a] + parts)[1..] == parts;
  }

  lemma CutAtIndex(s: string, sep: char)
    requires IndexOf(s, sep) < |s|
    ensures var i := IndexOf(s, sep); s == s[..i] + [sep] + s[i + 1..] && Avoids(s[..i], sep)
  {
  }

  lemma SplitFirst(a: string, sep: char, b: string)
    requires Avoids(a, sep)
    ensures Split(a + [sep] + b, sep) == [a] + Split(b, sep)
  {
    IndexOfFirst(a, sep, b);
    AroundSep(a, sep, b);
  }

  lemma SplitAtMostFirst(a: string, sep: char, b: string, limit: nat)
    requires Avoids(a, sep) && limit > 0
    ensures SplitAtMost(a + [sep] + b, sep, limit) == [a] + SplitAtMost(b, sep, limit - 1)
  {
    IndexOfFirst(a, sep, b);
    AroundSep(a, sep, b);
  }

  lemma SplitOfOne(s: string, sep: char)
    requires Avoids(s, sep)
    ensures Split(s, sep) == [s]
  {
  }

  /** Splitting gives back the parts that were joined, when none holds the separator. */
  lemma {:induction false} SplitJoin(parts: seq<string>, sep: char)
    requires parts != []
    requires forall k :: 0 <= k < |parts| ==> Avoids(parts[k], sep)
    ensures Split(Join(parts, sep), sep) == parts
  {
    if |parts| == 1 {
      SplitOfOne(parts[0], sep);
    } else {
      SplitFirst(parts[0], sep, Join(parts[1..], sep));
      SplitJoin(parts[1..], sep);
      HeadAndTail(parts);
    }
  }

  /** Every string is the join of its parts, and no part holds the separator. */
  lemma {:induction false} JoinSplit(s: string, sep: char)
    ensures Join(Split(s, sep), sep) == s
    ensures forall k :: 0 <= k < |Split(s, sep)| ==> Avoids(Split(s, sep)[k], sep)
    decreases |s|
  {
    var i := IndexOf(s, sep);
    if i < |s| {
      JoinSplit(s[i + 1..], sep);
      CutAtIndex(s, sep);
      JoinCons(s[..i], Split(s[i + 1..], sep), sep);
    }
  }

  /** The same for a bounded split: every part but the last avoids the separator. */
  lemma {:induction false} JoinSplitAtMost(s: string, sep: char, limit: nat)
    ensures Join(SplitAtMost(s, sep, limit), sep) == s
    ensures forall k :: 0 <= k < |SplitAtMost(s, sep, limit)| - 1 ==> Avoids(SplitAtMost(s, sep, limit)[k], sep)
  {
    var i := IndexOf(s, sep);
    if limit > 0 && i < |s| {
      JoinSplitAtMost(s[i + 1..], sep, limit - 1);
      CutAtIndex(s, sep);
      JoinCons(s[..i], SplitAtMost(s[i + 1..], sep, limit - 1), sep);
    }
  }

  lemma {:induction false} SplitAtMostJoin(parts: seq<string>, sep: char)
    requires parts != []
    requires forall k :: 0 <= k < |parts| - 1 ==> Avoids(parts[k], sep)
    ensures SplitAtMost(Join(parts, sep), sep, |parts| - 1) == parts
  {
    if |parts| > 1 {
      SplitAtMostFirst(parts[0], sep, Join(parts[1..], sep), |parts| - 1);
      SplitAtMostJoin(parts[1..], sep);
      HeadAndTail(parts);
    }
  }
}
