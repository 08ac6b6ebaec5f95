/** The pattern _URL_WITH_CREDENTIALS of app/mcp/security.py and the substitution
    that replaces user and password by `***`. */
module UrlCredentials {
  import opened Options
  import opened Text

  // ----- The pattern, as a set of strings -----

  predicate Lower(c: char) {
    'a' <= c <= 'z'
  }

  predicate SchemeChar(c: char) {
    Lower(c) || '0' <= c <= '9' || c == '+' || c == '.' || c == '-'
  }

  predicate UserChar(c: char) {
    c != ':' && c != '/' && c != '@' && !Space(c)
  }

  predicate PasswordChar(c: char) {
    c != '@' && !Space(c)
  }

  datatype Match = Match(name: string, user: string, password: string) {
    function Source(): string {
      name + ("://" + (user + (":" + (password + "@"))))
    }

    predicate InPattern() {
      && name != "" && Lower(name[0]) && (forall i :: 0 <= i < |name| ==> SchemeChar(name[i]))
      && user != "" && (forall i :: 0 <= i < |user| ==> UserChar(user[i]))
      && password != "" && (forall i :: 0 <= i < |password| ==> PasswordChar(password[i]))
    }

    function Masked(): Match {
      Match(name, "***", "***")
    }
  }

  /** An occurrence of the pattern that starts at position i of s. */
  ghost predicate OccursAt(s: string, i: nat, m: Match) {
    i <= |s| && m.InPattern() && m.Source() <= s[i..]
  }

  // ----- The scanner -----

  /** The length of the longest prefix whose characters all satisfy p. */
  function Span(s: string, p: char -> bool): (n: nat)
    ensures n <= |s|
    ensures forall i :: 0 <= i < n ==> p(s[i])
    ensures n < |s| ==> !p(s[n])
  {
    if s == "" || !p(s[0]) then 0 else 1 + Span(s[1..], p)
  }

  /** `password@` at the start of w. */
  function HeadPassword(w: string): Option<string> {
    var b := Span(w, PasswordChar);
    if b == 0 || b == |w| || w[b] != '@' then None else Some(w[..b])
  }

  /** `user:password@` at the start of u. */
  function HeadUser(u: string): Option<(string, string)> {
    var a := Span(u, UserChar);
    if a == 0 || a == |u| || u[a] != ':' then None
    else match HeadPassword(u[a + 1..])
      case Some(password) => Some((u[..a], password))
      case None => None
  }

  /** "://" at the start of t. */
  predicate Separated(t: string) {
    |t| >= 3 && t[0] == ':' && t[1] == '/' && t[2] == '/'
  }

  /** The occurrence at the start of s. */
  function HeadMatch(s: string): Option<Match> {
    var n := Span(s, SchemeChar);
    if n == 0 || !Lower(s[0]) || !Separated(s[n..]) then None
    else match HeadUser(s[n + 3..])
      case Some(credentials) => Some(Match(s[..n], credentials.0, credentials.1))
      case None => None
  }

  lemma PrefixOfParts(s: string, n: nat, x: string)
    requires n <= |s| && x <= s[n..]
    ensures s[..n] + x <= s
  {
  }

  lemma PartsOfPrefix(s: string, a: string, x: string)
    requires a + x <= s
    ensures |a| <= |s| && s[..|a|] == a && x <= s[|a|..]
    ensures x != "" ==> |a| < |s| && s[|a|] == x[0]
  {
  }

  lemma SpanStopsAt(s: string, n: nat, p: char -> bool)
    requires n <= |s|
    requires forall i :: 0 <= i < n ==> p(s[i])
    requires n < |s| ==> !p(s[n])
    ensures Span(s, p) == n
  {
  }

  lemma UserScanIsSound(u: string)
    requires HeadUser(u).Some?
    ensures var (user, password) := HeadUser(u).value;
      && user != "" && (forall i :: 0 <= i < |user| ==> UserChar(user[i]))
      && password != "" && (forall i :: 0 <= i < |password| ==> PasswordChar(password[i]))
      && user + (":" + (password + "@")) <= u
  {
  }

  /** A name, the separator and what follows them, as a prefix of the text and by position. */
  lemma SourceAsPrefix(s: string, n: nat, tail: string)
    requires n <= |s| && Separated(s[n..]) && tail <= s[n + 3..]
    ensures s[..n] + ("://" + tail) <= s
  {
    assert s[n..][..3] == "://" && s[n..][3..] == s[n + 3..];
    PrefixOfParts(s[n..], 3, tail);
    PrefixOfParts(s, n, "://" + tail);
  }

  lemma SourceByPosition(s: string, name: string, tail: string)
    requires name + ("://" + tail) <= s
    ensures |name| + 3 <= |s| && s[..|name|] == name && Separated(s[|name|..]) && tail <= s[|name| + 3..]
    ensures s[|name|] == ':'
  {
    PartsOfPrefix(s, name, "://" + tail);
    PartsOfPrefix(s[|name|..], "://", tail);
    assert s[|name|..][3..] == s[|name| + 3..];
  }

  lemma HeadMatchParts(s: string)
    requires HeadMatch(s).Some?
    ensures var m := HeadMatch(s).value;
      && 0 < |m.name| && |m.name| + 3 <= |s| && m.name == s[..|m.name|] && Lower(s[0])
      && (forall i :: 0 <= i < |m.name| ==> SchemeChar(m.name[i]))
      && Separated(s[|m.name|..]) && HeadUser(s[|m.name| + 3..]) == Some((m.user, m.password))
  {
  }

  lemma ScannerIsSound(s: string)
    ensures HeadMatch(s).Some? ==> OccursAt(s, 0, HeadMatch(s).value)
  {
    if HeadMatch(s).Some? {
      var m := HeadMatch(s).value;
      HeadMatchParts(s);
      UserScanIsSound(s[|m.name| + 3..]);
      SourceAsPrefix(s, |m.name|, m.user + (":" + (m.password + "@")));
      assert s[0..] == s;
    }
  }

  lemma PasswordScanIsComplete(w: string, password: string)
    requires password != "" && (forall i :: 0 <= i < |password| ==> PasswordChar(password[i]))
    requires password + "@" <= w
    ensures HeadPassword(w) == Some(password)
  {
    PartsOfPrefix(w, password, "@");
    assert forall i :: 0 <= i < |password| ==> w[i] == password[i];
    SpanStopsAt(w, |password|, PasswordChar);
  }

  lemma UserScanIsComplete(u: string, user: string, password: string)
    requires user != "" && (forall i :: 0 <= i < |user| ==> UserChar(user[i]))
    requires password != "" && (forall i :: 0 <= i < |password| ==> PasswordChar(password[i]))
    requires user + (":" + (password + "@")) <= u
    ensures HeadUser(u) == Some((user, password))
  {
    PartsOfPrefix(u, user, ":" + (password + "@"));
    PartsOfPrefix(u[|user|..], ":", password + "@");
    assert u[|user|..][1..] == u[|user| + 1..];
    assert forall i :: 0 <= i < |user| ==> u[i] == user[i];
    SpanStopsAt(u, |user|, UserChar);
    PasswordScanIsComplete(u[|user| + 1..], password);
  }

  /** The pattern is deterministic: an occurrence is fixed by where it starts, and
      the scanner finds it. */
  lemma ScannerIsComplete(s: string, m: Match)
    requires OccursAt(s, 0, m)
    ensures HeadMatch(s) == Some(m)
  {
    var n := |m.name|;
    assert s[0..] == s;
    SourceByPosition(s, m.name, m.user + (":" + (m.password + "@")));
    NameScanIsComplete(s, m.name);
    UserScanIsComplete(s[n + 3..], m.user, m.password);
  }

  lemma NameScanIsComplete(s: string, name: string)
    requires name != "" && Lower(name[0]) && (forall i :: 0 <= i < |name| ==> SchemeChar(name[i]))
    requires |name| < |s| && s[..|name|] == name && s[|name|] == ':'
    ensures Span(s, SchemeChar) == |name| && s[0] == name[0]
  {
    assert forall i :: 0 <= i < |name| ==> s[i] == s[..|name|][i];
    SpanStopsAt(s, |name|, SchemeChar);
  }

  lemma ScannerIsExact(s: string, m: Match)
    ensures HeadMatch(s) == Some(m) <==> OccursAt(s, 0, m)
  {
    ScannerIsSound(s);
    if OccursAt(s, 0, m) {
      ScannerIsComplete(s, m);
    }
  }

  // ----- The substitution -----

  /** re.sub: leftmost occurrences first, none overlapping another. */
  function Sub(s: string): string
    decreases |s|
  {
    if s == "" then ""
    else match HeadMatch(s)
      case Some(m) => ScannerIsSound(s); m.Masked().Source() + Sub(s[|m.Source()|..])
      case None => [s[0]] + Sub(s[1..])
  }

  lemma SubKeepsHead(s: string)
    ensures Sub(s) == "" <==> s == ""
    ensures s != "" ==> Sub(s)[0] == s[0]
  {
  }

  // The rest of an occurrence, seen from inside its password, its user or its scheme.

  predicate EndsPassword(w: string) {
    w != "" && (w[0] == '@' || (PasswordChar(w[0]) && EndsPassword(w[1..])))
  }

  predicate EndsUser(u: string) {
    u != "" && if u[0] == ':' then |u| > 1 && u[1] != '@' && EndsPassword(u[1..]) else UserChar(u[0]) && EndsUser(u[1..])
  }

  predicate EndsScheme(s: string) {
    s != "" &&
    if s[0] == ':' then Separated(s) && |s| > 3 && s[3] != ':' && EndsUser(s[3..])
    else SchemeChar(s[0]) && EndsScheme(s[1..])
  }

  lemma {:induction false} EndsPasswordAt(w: string, n: nat)
    requires n < |w| && w[n] == '@' && forall i :: 0 <= i < n ==> PasswordChar(w[i])
    ensures EndsPassword(w)
  {
    if n > 0 {
      EndsPasswordAt(w[1..], n - 1);
    }
  }

  lemma {:induction false} EndsPasswordScan(w: string)
    ensures EndsPassword(w) <==> var b := Span(w, PasswordChar); b < |w| && w[b] == '@'
  {
    if w != "" && PasswordChar(w[0]) {
      EndsPasswordScan(w[1..]);
    }
  }

  lemma {:induction false} EndsUserScan(u: string)
    ensures EndsUser(u) <==> var a := Span(u, UserChar); a < |u| && u[a] == ':' && HeadPassword(u[a + 1..]).Some?
  {
    if u != "" && UserChar(u[0]) {
      EndsUserScan(u[1..]);
    } else if u != "" {
      EndsPasswordScan(u[1..]);
    }
  }

  /** The scan of a scheme, one character in. */
  predicate SchemeScan(s: string) {
    var n := Span(s, SchemeChar); Separated(s[n..]) && HeadUser(s[n + 3..]).Some?
  }

  lemma SchemeScanBehind(c: char, t: string)
    requires SchemeChar(c)
    ensures SchemeScan([c] + t) <==> SchemeScan(t)
  {
    var s, n := [c] + t, Span(t, SchemeChar);
    assert s[1..] == t;
    assert Span(s, SchemeChar) == n + 1;
    assert s[n + 1..] == t[n..];
    if Separated(t[n..]) {
      assert s[n + 1 + 3..] == t[n + 3..];
    }
  }

  lemma SchemeScanHere(s: string)
    requires s != "" && !SchemeChar(s[0])
    ensures SchemeScan(s) <==> Separated(s) && HeadUser(s[3..]).Some?
  {
    assert Span(s, SchemeChar) == 0 && s[0..] == s;
  }

  lemma EndsSchemeHere(s: string)
    requires s != "" && !SchemeChar(s[0])
    ensures EndsScheme(s) <==> Separated(s) && HeadUser(s[3..]).Some?
  {
    if Separated(s) && |s| > 3 {
      EndsUserScan(s[3..]);
    }
  }

  lemma {:induction false} EndsSchemeScan(s: string)
    ensures EndsScheme(s) <==> SchemeScan(s)
    decreases |s|
  {
    if s == "" {
    } else if SchemeChar(s[0]) {
      EndsSchemeScan(s[1..]);
      SchemeScanBehind(s[0], s[1..]);
      assert s == [s[0]] + s[1..];
    } else {
      SchemeScanHere(s);
      EndsSchemeHere(s);
    }
  }

  lemma HeadMatchScan(s: string)
    ensures HeadMatch(s).Some? <==> s != "" && Lower(s[0]) && EndsScheme(s)
  {
    EndsSchemeScan(s);
  }

  /** An occurrence holds one '@', at its end, and no space; its first ':' ends the name. */
  lemma SourceCharacters(m: Match)
    requires m.InPattern()
    ensures var t, n := m.Source(), |m.name|;
      && |t| > n + 1 && t[n] == ':' && t[n + 1] == '/' && t[|t| - 1] == '@'
      && (forall i :: 0 <= i < n ==> UserChar(t[i]))
      && (forall i :: 0 <= i < |t| - 1 ==> PasswordChar(t[i]))
  {
  }

  lemma OccurrenceEnds(s: string, m: Match)
    requires OccursAt(s, 0, m)
    ensures EndsPassword(s) && EndsUser(s) && EndsScheme(s)
  {
    ScannerIsComplete(s, m);
    HeadMatchScan(s);
    SourceCharacters(m);
    assert s[0..] == s;
    SameCharacters(m.Source(), s);
    EndsAt(s, |m.name|, |m.Source()| - 1);
  }

  lemma SameCharacters(t: string, s: string)
    requires t <= s
    ensures |t| <= |s| && forall i :: 0 <= i < |t| ==> s[i] == t[i]
  {
  }

  lemma EndsAt(s: string, n: nat, at: nat)
    requires n + 1 < at < |s| && s[n] == ':' && s[n + 1] == '/' && s[at] == '@'
    requires forall i :: 0 <= i < n ==> UserChar(s[i])
    requires forall i :: 0 <= i < at ==> PasswordChar(s[i])
    ensures EndsPassword(s) && EndsUser(s)
  {
    EndsPasswordAt(s, at);
    EndsPasswordAt(s[n + 1..], at - (n + 1));
    EndsUserAt(s, n);
  }

  lemma {:induction false} EndsUserAt(u: string, n: nat)
    requires n + 1 < |u| && u[n] == ':' && u[n + 1] != '@' && forall i :: 0 <= i < n ==> UserChar(u[i])
    requires EndsPassword(u[n + 1..])
    ensures EndsUser(u)
  {
    if n > 0 {
      assert u[1..][n..] == u[n + 1..];
      EndsUserAt(u[1..], n - 1);
    }
  }

  lemma MaskedHead(s: string)
    requires HeadMatch(s).Some?
    ensures var m := HeadMatch(s).value;
      && OccursAt(s, 0, m)
      && OccursAt(Sub(s), 0, m.Masked())
      && HeadMatch(Sub(s)) == Some(m.Masked())
      && Sub(s)[|m.Masked().Source()|..] == Sub(s[|m.Source()|..])
  {
    ScannerIsSound(s);
    var m := HeadMatch(s).value;
    MaskedFirst(Sub(s), m.Masked(), Sub(s[|m.Source()|..]));
  }

  lemma MaskedFirst(t: string, m: Match, rest: string)
    requires m.InPattern() && t == m.Source() + rest
    ensures OccursAt(t, 0, m) && HeadMatch(t) == Some(m) && t[|m.Source()|..] == rest
  {
    assert t[0..] == t;
    ScannerIsComplete(t, m);
  }

  lemma SubOfPlainHead(s: string)
    requires s != "" && !Lower(s[0])
    ensures Sub(s) == [s[0]] + Sub(s[1..])
  {
  }

  predicate Slashes(t: string) {
    |t| >= 2 && t[0] == '/' && t[1] == '/'
  }

  lemma SubOfSlash(t: string)
    requires t != "" && t[0] == '/'
    ensures Sub(t) == ['/'] + Sub(t[1..]) && Sub(t)[1..] == Sub(t[1..])
  {
    SubOfPlainHead(t);
  }

  lemma SubOfSlashes(t: string)
    ensures Slashes(Sub(t)) <==> Slashes(t)
    ensures Slashes(t) ==> Sub(t)[2..] == Sub(t[2..])
  {
    SubKeepsHead(t);
    if t != "" && t[0] == '/' {
      SubOfSlash(t);
      SubKeepsHead(t[1..]);
      if Slashes(t) {
        SubOfSlash(t[1..]);
        assert t[1..][1..] == t[2..] && Sub(t)[1..][1..] == Sub(t)[2..];
      }
    }
  }

  lemma SlashesFollow(s: string)
    ensures Separated(s) <==> s != "" && s[0] == ':' && Slashes(s[1..])
  {
  }

  /** Two texts that start alike and offer the same endings still do behind one more character. */
  lemma EndsOfExtension(c: char, t: string, t': string)
    requires t == "" <==> t' == ""
    requires t != "" ==> t[0] == t'[0]
    requires EndsPassword(t) <==> EndsPassword(t')
    requires EndsUser(t) <==> EndsUser(t')
    requires EndsScheme(t) <==> EndsScheme(t')
    ensures EndsPassword([c] + t) <==> EndsPassword([c] + t')
    ensures EndsUser([c] + t) <==> EndsUser([c] + t')
    ensures c != ':' ==> (EndsScheme([c] + t) <==> EndsScheme([c] + t'))
  {
  }

  /** The heart of the matter: the text may be substituted before it is scanned.
      What an unfinished occurrence needs of the text after it is there after the
      substitution exactly when it was there before. */
  lemma {:induction false} SubKeepsEnds(s: string)
    ensures EndsPassword(Sub(s)) <==> EndsPassword(s)
    ensures EndsUser(Sub(s)) <==> EndsUser(s)
    ensures EndsScheme(Sub(s)) <==> EndsScheme(s)
    decreases |s|
  {
    if s != "" {
      ScannerIsSound(s);
      if HeadMatch(s).Some? {
        MaskedHead(s);
        OccurrenceEnds(s, HeadMatch(s).value);
        OccurrenceEnds(Sub(s), HeadMatch(s).value.Masked());
      } else {
        SubKeepsEnds(s[1..]);
        SubKeepsHead(s[1..]);
        EndsOfExtension(s[0], s[1..], Sub(s[1..]));
        assert s == [s[0]] + s[1..];
        if s[0] == ':' {
          SubKeepsSchemeEnd(s);
        }
      }
    }
  }

  lemma {:induction false} SubKeepsSchemeEnd(s: string)
    requires s != "" && s[0] == ':'
    ensures EndsScheme(Sub(s)) <==> EndsScheme(s)
    decreases |s|, 0
  {
    SubOfPlainHead(s);
    SubOfSlashes(s[1..]);
    SlashesFollow(s);
    SlashesFollow(Sub(s));
    assert Sub(s)[1..] == Sub(s[1..]);
    if Slashes(s[1..]) {
      var u := s[3..];
      assert s[1..][2..] == u && Sub(s)[3..] == Sub(s[1..])[2..];
      SubKeepsHead(u);
      SubKeepsEnds(u);
    }
  }

  lemma SubKeepsHeadMatch(s: string)
    ensures HeadMatch(Sub(s)).Some? <==> HeadMatch(s).Some?
  {
    HeadMatchScan(s);
    HeadMatchScan(Sub(s));
    SubKeepsEnds(s);
    SubKeepsHead(s);
  }

  // ----- What the substitution promises -----

  /** Substituting twice is substituting once. */
  lemma {:induction false} SubIsIdempotent(s: string)
    ensures Sub(Sub(s)) == Sub(s)
    decreases |s|
  {
    if s != "" {
      SubKeepsHead(s);
      SubKeepsHeadMatch(s);
      if HeadMatch(s).Some? {
        MaskedHead(s);
        SubIsIdempotent(s[|HeadMatch(s).value.Source()|..]);
      } else {
        assert Sub(s)[1..] == Sub(s[1..]);
        SubIsIdempotent(s[1..]);
      }
    }
  }

  /** No occurrence of the pattern, wherever it starts, shows a user or a password. */
  ghost predicate Clean(s: string) {
    forall i: nat, m :: OccursAt(s, i, m) ==> m.user == "***" && m.password == "***"
  }

  lemma NoOccurrenceAt(s: string)
    requires HeadMatch(s).None?
    ensures forall m :: !OccursAt(s, 0, m)
  {
    forall m
      ensures !OccursAt(s, 0, m)
    {
      if OccursAt(s, 0, m) {
        ScannerIsComplete(s, m);
      }
    }
  }

  lemma CleanExtension(c: char, t: string)
    requires Clean(t)
    requires forall m :: OccursAt([c] + t, 0, m) ==> m.user == "***" && m.password == "***"
    ensures Clean([c] + t)
  {
    forall i: nat, m | OccursAt([c] + t, i, m)
      ensures m.user == "***" && m.password == "***"
    {
      if i > 0 {
        assert ([c] + t)[i..] == t[i - 1..];
        assert OccursAt(t, i - 1, m);
      }
    }
  }

  /** A masked occurrence in front of clean text adds no occurrence that shows
      anything, not even one that starts inside the name. */
  lemma {:induction false} CleanBehindMasked(name: string, t: string)
    requires Clean(t)
    requires forall i :: 0 <= i < |name| ==> SchemeChar(name[i])
    ensures Clean(name + ("://***:***@" + t))
    decreases |name|
  {
    var s := name + ("://***:***@" + t);
    if name == "" {
      CleanBehindLiteral("://***:***@", t);
      assert s == "://***:***@" + t;
    } else {
      CleanBehindMasked(name[1..], t);
      assert s == [s[0]] + (name[1..] + ("://***:***@" + t));
      forall m | OccursAt(s, 0, m)
        ensures m.user == "***" && m.password == "***"
      {
        var masked := Match(name, "***", "***");
        assert s[0] == name[0] == m.Source()[0];
        assert masked.Source() == name + "://***:***@";
        assert OccursAt(s, 0, masked);
        ScannerIsComplete(s, m);
        ScannerIsComplete(s, masked);
      }
      CleanExtension(s[0], name[1..] + ("://***:***@" + t));
    }
  }

  lemma {:induction false} CleanBehindLiteral(p: string, t: string)
    requires Clean(t)
    requires forall i :: 0 <= i < |p| ==> !Lower(p[i])
    ensures Clean(p + t)
  {
    if p == "" {
      assert p + t == t;
    } else {
      CleanBehindLiteral(p[1..], t);
      assert p + t == [p[0]] + (p[1..] + t);
      NoOccurrenceAt(p + t);
      CleanExtension(p[0], p[1..] + t);
    }
  }

  lemma EmptyIsClean()
    ensures Clean("")
  {
  }

  lemma MaskedSource(m: Match, t: string)
    ensures m.Masked().Source() + t == m.name + ("://***:***@" + t)
  {
  }

  /** The substitution is complete. */
  lemma {:induction false} SubIsClean(s: string)
    ensures Clean(Sub(s))
    decreases |s|
  {
    if s == "" {
      EmptyIsClean();
    } else if HeadMatch(s).Some? {
      ScannerIsSound(s);
      var m := HeadMatch(s).value;
      var t := s[|m.Source()|..];
      SubIsClean(t);
      CleanBehindMasked(m.name, Sub(t));
      MaskedSource(m, Sub(t));
    } else {
      SubIsClean(s[1..]);
      SubKeepsHeadMatch(s);
      NoOccurrenceAt(Sub(s));
      CleanExtension(s[0], Sub(s[1..]));
    }
  }
}
