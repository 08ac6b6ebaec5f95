/** The substitution of app/mcp/security.py spelled out on texts: which characters
    a scheme, a user and a password consist of, what is replaced, and what is not. */
module UrlText {
  import opened Options
  import opened Text
  import opened UrlCredentials

  predicate IsLetter(c: char) {
    c in {'a', 'b', 'c', 'd', 'e', 'f', 'g', 'h', 'i', 'j', 'k', 'l', 'm', 'n', 'o', 'p', 'q', 'r', 's', 't',
          'u', 'v', 'w', 'x', 'y', 'z'}
  }

  predicate InScheme(c: char) {
    IsLetter(c) || c in {'0', '1', '2', '3', '4', '5', '6', '7', '8', '9', '+', '.', '-'}
  }

  /** What `\s` matches in text. */
  predicate IsWhite(c: char) {
    c in {'\t', '\n', '\U{0b}', '\U{0c}', '\r', '\U{1c}', '\U{1d}', '\U{1e}', '\U{1f}', ' ', '\U{85}',
          '\U{a0}', '\U{1680}', '\U{2000}', '\U{2001}', '\U{2002}', '\U{2003}', '\U{2004}', '\U{2005}',
          '\U{2006}', '\U{2007}', '\U{2008}', '\U{2009}', '\U{200a}', '\U{2028}', '\U{2029}', '\U{202f}',
          '\U{205f}', '\U{3000}'}
  }

  predicate IsName(name: string) {
    name != "" && IsLetter(name[0]) && forall i :: 0 <= i < |name| ==> InScheme(name[i])
  }

  predicate IsUser(user: string) {
    user != "" && forall i :: 0 <= i < |user| ==> user[i] !in {':', '/', '@'} && !IsWhite(user[i])
  }

  predicate IsPassword(password: string) {
    password != "" && forall i :: 0 <= i < |password| ==> password[i] != '@' && !IsWhite(password[i])
  }

  lemma SchemeCharacters(c: char)
    ensures IsLetter(c) <==> Lower(c)
    ensures InScheme(c) <==> SchemeChar(c)
  {
  }

  lemma WhiteCharacters(c: char)
    ensures IsWhite(c) <==> Space(c)
  {
  }

  lemma PatternExactly(m: Match)
    ensures m.InPattern() <==> IsName(m.name) && IsUser(m.user) && IsPassword(m.password)
  {
    forall c: char ensures IsLetter(c) <==> Lower(c) ensures InScheme(c) <==> SchemeChar(c) { SchemeCharacters(c); }
    forall c: char ensures IsWhite(c) <==> Space(c) { WhiteCharacters(c); }
  }

  // ----- What is replaced -----

  lemma SourceSpelled(m: Match, rest: string)
    ensures m.Source() + rest == m.name + "://" + m.user + ":" + m.password + "@" + rest
    ensures m.Masked().Source() + rest == m.name + "://***:***@" + rest
  {
    assert m.Masked().Source() == m.name + "://***:***@";
  }

  /** A URL with credentials at the front of a text: user and password are replaced,
      the rest of the text is substituted on its own. */
  lemma CredentialsAreReplaced(name: string, user: string, password: string, rest: string)
    requires IsName(name) && IsUser(user) && IsPassword(password)
    ensures Sub(name + "://" + user + ":" + password + "@" + rest) == name + "://***:***@" + Sub(rest)
  {
    var m := Match(name, user, password);
    var s := m.Source() + rest;
    PatternExactly(m);
    SourceSpelled(m, rest);
    SourceSpelled(m, Sub(rest));
    MaskedFirst(s, m, rest);
    assert s != "";
  }

  ghost predicate BeginsWithCredentials(s: string) {
    exists name, user, password, rest ::
      IsName(name) && IsUser(user) && IsPassword(password) && s == name + "://" + user + ":" + password + "@" + rest
  }

  /** A text that begins with no such URL keeps its first character, and the rest is
      substituted on its own. */
  lemma OthersAreKept(s: string)
    requires s != "" && !BeginsWithCredentials(s)
    ensures Sub(s) == [s[0]] + Sub(s[1..])
  {
    if HeadMatch(s).Some? {
      MatchBegins(s, HeadMatch(s).value);
    }
  }

  lemma MatchBegins(s: string, m: Match)
    requires HeadMatch(s) == Some(m)
    ensures BeginsWithCredentials(s)
  {
    ScannerIsSound(s);
    PatternExactly(m);
    assert s[0..] == s;
    var rest := s[|m.Source()|..];
    assert s == m.Source() + rest;
    SourceSpelled(m, rest);
  }

  // ----- What is not replaced -----

  lemma SchemeEndsAt(name: string, tail: string)
    requires IsName(name)
    ensures var s := name + "://" + tail; Span(s, SchemeChar) == |name| && s[|name| + 3..] == tail && Separated(s[|name|..]) && s[0] == name[0]
  {
    var s := name + "://" + tail;
    forall c: char ensures InScheme(c) <==> SchemeChar(c) { SchemeCharacters(c); }
    assert forall i :: 0 <= i < |name| ==> s[i] == name[i];
    assert s[|name|] == ':';
    SpanStopsAt(s, |name|, SchemeChar);
  }

  /** A name and a separator without credentials behind them. */
  lemma KeptWithoutUser(s: string, name: string, u: string)
    requires IsName(name) && s == name + "://" + u && HeadUser(u).None?
    ensures Sub(s) == [s[0]] + Sub(s[1..])
  {
    SchemeEndsAt(name, u);
    assert HeadMatch(s).None?;
  }

  /** A user holds no '/', '@' or white space, and is not empty: where one of these, or
      at once a ':', comes before the first ':', the URL is left as it is. */
  lemma OtherUsersAreKept(name: string, user: string, c: char, tail: string)
    requires IsName(name) && (user == "" || IsUser(user))
    requires c in {'/', '@'} || IsWhite(c) || (user == "" && c == ':')
    ensures var s := name + "://" + user + [c] + tail; Sub(s) == [s[0]] + Sub(s[1..])
  {
    var u := user + [c] + tail;
    assert name + "://" + user + [c] + tail == name + "://" + u;
    UserFailsAt(user, c, tail);
    KeptWithoutUser(name + "://" + user + [c] + tail, name, u);
  }

  lemma UserFailsAt(user: string, c: char, tail: string)
    requires (user == "" || IsUser(user)) && (c in {'/', '@'} || IsWhite(c) || (user == "" && c == ':'))
    ensures HeadUser(user + [c] + tail).None?
  {
    var u := user + [c] + tail;
    forall d: char ensures IsWhite(d) <==> Space(d) { WhiteCharacters(d); }
    assert forall i :: 0 <= i < |user| ==> u[i] == user[i];
    assert u[|user|] == c;
    SpanStopsAt(u, |user|, UserChar);
  }

  /** A password holds no white space and is not empty. */
  lemma OtherPasswordsAreKept(name: string, user: string, password: string, c: char, tail: string)
    requires IsName(name) && IsUser(user) && (password == "" || IsPassword(password))
    requires IsWhite(c) || (password == "" && c == '@')
    ensures var s := name + "://" + user + ":" + password + [c] + tail; Sub(s) == [s[0]] + Sub(s[1..])
  {
    var w := password + [c] + tail;
    var u := user + ":" + w;
    PasswordEndsAt(password, c, tail);
    UserEndsAt(user, w);
    NoUserWithoutPassword(u, |user|);
    SpelledWithout(name, user, password, c, tail);
    KeptWithoutUser(name + "://" + user + ":" + password + [c] + tail, name, u);
  }

  lemma SpelledWithout(name: string, user: string, password: string, c: char, tail: string)
    ensures name + "://" + user + ":" + password + [c] + tail == name + "://" + (user + ":" + (password + [c] + tail))
  {
  }

  lemma NoUserWithoutPassword(u: string, n: nat)
    requires n < |u| && Span(u, UserChar) == n && HeadPassword(u[n + 1..]).None?
    ensures HeadUser(u).None?
  {
  }

  lemma PasswordEndsAt(password: string, c: char, tail: string)
    requires (password == "" || IsPassword(password)) && (IsWhite(c) || (password == "" && c == '@'))
    ensures HeadPassword(password + [c] + tail).None?
  {
    var w := password + [c] + tail;
    forall d: char ensures IsWhite(d) <==> Space(d) { WhiteCharacters(d); }
    assert forall i :: 0 <= i < |password| ==> w[i] == password[i];
    assert w[|password|] == c;
    SpanStopsAt(w, |password|, PasswordChar);
  }

  lemma UserEndsAt(user: string, w: string)
    requires IsUser(user)
    ensures var u := user + ":" + w; Span(u, UserChar) == |user| && u[|user|] == ':' && u[|user| + 1..] == w
  {
    var u := user + ":" + w;
    forall d: char ensures IsWhite(d) <==> Space(d) { WhiteCharacters(d); }
    assert forall i :: 0 <= i < |user| ==> u[i] == user[i];
    assert u[|user|] == ':';
    SpanStopsAt(u, |user|, UserChar);
  }

  /** However a substituted text is cut, a URL with credentials in it shows `***` twice. */
  lemma NothingIsShown(s: string, before: string, name: string, user: string, password: string, rest: string)
    requires IsName(name) && IsUser(user) && IsPassword(password)
    requires Sub(s) == before + (name + "://" + user + ":" + password + "@" + rest)
    ensures user == "***" && password == "***"
  {
    var m := Match(name, user, password);
    PatternExactly(m);
    SourceSpelled(m, rest);
    SubIsClean(s);
    assert Sub(s)[|before|..] == m.Source() + rest;
    assert OccursAt(Sub(s), |before|, m);
  }
}
