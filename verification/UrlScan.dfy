/** re.sub for the credentials pattern as a loop over the text, and what it leaves alone. */
module UrlScan {
  import opened Options
  import opened UrlCredentials

  method SpanLoop(s: string, p: char -> bool) returns (n: nat)
    ensures n == Span(s, p)
  {
    n := 0;
    while n < |s| && p(s[n])
      invariant n <= |s|
      invariant forall i :: 0 <= i < n ==> p(s[i])
    {
      n := n + 1;
    }
    SpanStopsAt(s, n, p);
  }

  method PasswordLoop(w: string) returns (r: Option<string>)
    ensures r == HeadPassword(w)
  {
    var b := SpanLoop(w, PasswordChar);
    r := if b == 0 || b == |w| || w[b] != '@' then None else Some(w[..b]);
  }

  method UserLoop(u: string) returns (r: Option<(string, string)>)
    ensures r == HeadUser(u)
  {
    var a := SpanLoop(u, UserChar);
    if a == 0 || a == |u| || u[a] != ':' {
      return None;
    }
    var password := PasswordLoop(u[a + 1..]);
    r := if password.Some? then Some((u[..a], password.value)) else None;
  }

  /** Tries the pattern at the start of s. */
  method MatchLoop(s: string) returns (r: Option<Match>)
    ensures r == HeadMatch(s)
  {
    var n := SpanLoop(s, SchemeChar);
    if n == 0 || !Lower(s[0]) || !Separated(s[n..]) {
      return None;
    }
    var credentials := UserLoop(s[n + 3..]);
    r := if credentials.Some? then Some(Match(s[..n], credentials.value.0, credentials.value.1)) else None;
  }

  lemma Regroup(a: string, b: string, c: string)
    ensures a + (b + c) == (a + b) + c
  {
  }

  /** One step of the loop: what it writes and what it has left. */
  lemma SubStep(out: string, rest: string)
    requires rest != ""
    ensures HeadMatch(rest).Some? ==> var m := HeadMatch(rest).value;
      && |m.Source()| <= |rest| && m.Source() != ""
      && out + Sub(rest) == (out + m.Masked().Source()) + Sub(rest[|m.Source()|..])
    ensures HeadMatch(rest).None? ==> out + Sub(rest) == (out + [rest[0]]) + Sub(rest[1..])
  {
    ScannerIsSound(rest);
    if HeadMatch(rest).Some? {
      var m := HeadMatch(rest).value;
      Regroup(out, m.Masked().Source(), Sub(rest[|m.Source()|..]));
    } else {
      Regroup(out, [rest[0]], Sub(rest[1..]));
    }
  }

  method SubLoop(s: string) returns (out: string)
    ensures out == Sub(s)
  {
    out := "";
    var rest := s;
    while rest != ""
      invariant out + Sub(rest) == Sub(s)
      decreases |rest|
    {
      var found := MatchLoop(rest);
      SubStep(out, rest);
      if found.Some? {
        var masked := found.value.Masked().Source();
        out, rest := out + masked, rest[|found.value.Source()|..];
      } else {
        out, rest := out + [rest[0]], rest[1..];
      }
    }
  }

  // ----- Only users and passwords change -----

  datatype Piece = Plain(c: char) | Credentials(m: Match)

  function PieceSource(p: Piece): string {
    match p
    case Plain(c) => [c]
    case Credentials(m) => m.Source()
  }

  function PieceMasked(p: Piece): string {
    match p
    case Plain(c) => [c]
    case Credentials(m) => m.Masked().Source()
  }

  function SourceOf(ps: seq<Piece>): string {
    if ps == [] then "" else PieceSource(ps[0]) + SourceOf(ps[1..])
  }

  function MaskedOf(ps: seq<Piece>): string {
    if ps == [] then "" else PieceMasked(ps[0]) + MaskedOf(ps[1..])
  }

  /** A cut of a text into occurrences and single characters in which no
      occurrence starts at a single character. */
  ghost predicate LeftmostCut(ps: seq<Piece>) {
    ps == [] ||
    (LeftmostCut(ps[1..]) &&
     match ps[0]
     case Plain(_) => forall m :: !OccursAt(SourceOf(ps), 0, m)
     case Credentials(m) => m.InPattern())
  }

  function Pieces(s: string): seq<Piece>
    decreases |s|
  {
    if s == "" then []
    else match HeadMatch(s)
      case Some(m) => ScannerIsSound(s); [Credentials(m)] + Pieces(s[|m.Source()|..])
      case None => [Plain(s[0])] + Pieces(s[1..])
  }

  lemma PrefixAndRest(p: string, s: string)
    requires p <= s
    ensures p + s[|p|..] == s
  {
  }

  lemma CutOfCons(p: Piece, ps: seq<Piece>)
    ensures SourceOf([p] + ps) == PieceSource(p) + SourceOf(ps)
    ensures MaskedOf([p] + ps) == PieceMasked(p) + MaskedOf(ps)
    ensures LeftmostCut(ps) && (p.Plain? ==> forall m :: !OccursAt(SourceOf([p] + ps), 0, m)) && (p.Credentials? ==> p.m.InPattern()) ==>
      LeftmostCut([p] + ps)
  {
    assert ([p] + ps)[1..] == ps;
  }

  lemma {:induction false} PiecesCut(s: string)
    ensures SourceOf(Pieces(s)) == s && MaskedOf(Pieces(s)) == Sub(s) && LeftmostCut(Pieces(s))
    decreases |s|
  {
    if s != "" {
      ScannerIsSound(s);
      match HeadMatch(s)
      case Some(m) =>
        assert s[0..] == s;
        PrefixAndRest(m.Source(), s);
        PiecesCut(s[|m.Source()|..]);
        CutOfCons(Credentials(m), Pieces(s[|m.Source()|..]));
      case None =>
        PrefixAndRest([s[0]], s);
        PiecesCut(s[1..]);
        NoOccurrenceAt(s);
        CutOfCons(Plain(s[0]), Pieces(s[1..]));
    }
  }

  lemma {:induction false} CutIsUnique(ps: seq<Piece>)
    requires LeftmostCut(ps)
    ensures MaskedOf(ps) == Sub(SourceOf(ps))
  {
    if ps != [] {
      CutIsUnique(ps[1..]);
      var s := SourceOf(ps);
      match ps[0]
      case Credentials(m) =>
        assert s[0..] == s && s[|m.Source()|..] == SourceOf(ps[1..]);
        ScannerIsComplete(s, m);
      case Plain(c) =>
        ScannerIsSound(s);
        assert HeadMatch(s).None?;
        assert s[1..] == SourceOf(ps[1..]);
    }
  }

  /** The substitution is exactly this: cut the text at its leftmost occurrences,
      replace user and password in each, keep every other character in its place. */
  lemma SubIsLeftmostReplacement(s: string, o: string)
    ensures o == Sub(s) <==> exists ps :: LeftmostCut(ps) && SourceOf(ps) == s && MaskedOf(ps) == o
  {
    PiecesCut(s);
    forall ps | LeftmostCut(ps) && SourceOf(ps) == s
      ensures MaskedOf(ps) == Sub(s)
    {
      CutIsUnique(ps);
    }
  }
}
