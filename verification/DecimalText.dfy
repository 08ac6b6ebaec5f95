/** What number a text of digits stands for, by position, and exactly which texts
    int() reads. */
module DecimalText {
  import opened Options
  import opened Numbers

  ghost predicate AllDigits(s: string) {
    forall i :: 0 <= i < |s| ==> '0' <= s[i] <= '9'
  }

  /** The last digit counts ones, everything before it tens. */
  ghost function ValueOf(s: string): nat
    requires AllDigits(s)
  {
    if s == "" then 0 else 10 * ValueOf(s[..|s| - 1]) + (s[|s| - 1] - '0') as nat
  }

  ghost function Power(n: nat): nat {
    if n == 0 then 1 else 10 * Power(n - 1)
  }

  lemma ValueOfAppended(s: string, c: char)
    requires AllDigits(s) && '0' <= c <= '9'
    ensures AllDigits(s + [c]) && ValueOf(s + [c]) == 10 * ValueOf(s) + (c - '0') as nat
  {
    assert (s + [c])[..|s|] == s;
  }

  lemma {:induction false} ValueOfCons(c: char, s: string)
    requires AllDigits(s) && '0' <= c <= '9'
    ensures AllDigits([c] + s) && ValueOf([c] + s) == (c - '0') as nat * Power(|s|) + ValueOf(s)
    decreases |s|
  {
    if s == "" {
      ValueOfAppended("", c);
      assert "" + [c] == [c] + s;
    } else {
      var t, d := s[..|s| - 1], s[|s| - 1];
      assert s == t + [d] && [c] + s == ([c] + t) + [d];
      ValueOfCons(c, t);
      ValueOfAppended([c] + t, d);
      ValueOfAppended(t, d);
      Tenfold((c - '0') as nat, Power(|t|));
    }
  }

  lemma Tenfold(x: nat, p: nat)
    ensures 10 * (x * p) == x * (10 * p)
  {
  }

  lemma Shifted(value: nat, d: nat, p: nat)
    ensures (value * 10 + d) * p == value * (10 * p) + d * p
  {
  }

  /** The decimal text of a number stands for it. */
  lemma {:induction false} DecimalDenotes(n: nat)
    ensures AllDigits(Decimal(n)) && ValueOf(Decimal(n)) == n
  {
    if n < 10 {
      ValueOfAppended("", '0' + n as char);
      assert "" + ['0' + n as char] == Decimal(n);
    } else {
      DecimalDenotes(n / 10);
      ValueOfAppended(Decimal(n / 10), '0' + (n % 10) as char);
    }
  }

  // ----- Cutting blanks off -----

  ghost predicate All(s: string, p: char -> bool) {
    forall i :: 0 <= i < |s| ==> p(s[i])
  }

  // ----- int() -----

  /** What int() takes for white space. */
  predicate IsIntSpace(c: char) {
    c in {'\t', '\n', '\U{0b}', '\U{0c}', '\r', ' ', '\U{85}', '\U{a0}', '\U{1680}', '\U{2000}', '\U{2001}', '\U{2002}',
          '\U{2003}', '\U{2004}', '\U{2005}', '\U{2006}', '\U{2007}', '\U{2008}', '\U{2009}', '\U{200a}', '\U{2028}',
          '\U{2029}', '\U{202f}', '\U{205f}', '\U{3000}'}
  }

  lemma IntSpaces(c: char)
    ensures IntSpace(c) <==> IsIntSpace(c)
  {
  }

  /** Digits, with single underscores between two of them. */
  ghost predicate Grouped(s: string) {
    && s != "" && '0' <= s[0] <= '9' && '0' <= s[|s| - 1] <= '9'
    && (forall i :: 0 <= i < |s| ==> '0' <= s[i] <= '9' || s[i] == '_')
    && (forall i :: 0 <= i < |s| - 1 ==> s[i] != '_' || s[i + 1] != '_')
  }

  /** The text without its underscores. */
  function Plain(s: string): (r: string) {
    if s == "" then "" else if s[0] == '_' then Plain(s[1..]) else [s[0]] + Plain(s[1..])
  }

  /** The rest of a grouped text, behind a digit or behind an underscore. */
  ghost predicate Continues(s: string, afterDigit: bool) {
    && (s == "" ==> afterDigit)
    && (s != "" ==> '0' <= s[|s| - 1] <= '9' && (s[0] == '_' ==> afterDigit))
    && (forall i :: 0 <= i < |s| ==> '0' <= s[i] <= '9' || s[i] == '_')
    && (forall i :: 0 <= i < |s| - 1 ==> s[i] != '_' || s[i + 1] != '_')
  }

  lemma {:induction false} PlainIsDigits(s: string)
    requires forall i :: 0 <= i < |s| ==> '0' <= s[i] <= '9' || s[i] == '_'
    ensures AllDigits(Plain(s))
  {
    if s != "" {
      PlainIsDigits(s[1..]);
    }
  }

  lemma ContinuesBehind(s: string, afterDigit: bool)
    requires s != ""
    ensures Continues(s, afterDigit) <==>
      if '0' <= s[0] <= '9' then Continues(s[1..], true) else s[0] == '_' && afterDigit && Continues(s[1..], false)
  {
    var t := s[1..];
    assert forall i :: 0 <= i < |t| ==> t[i] == s[i + 1];
    if t != "" {
      assert t[|t| - 1] == s[|s| - 1] && t[0] == s[1];
    }
    if Continues(s, afterDigit) && s[0] == '_' {
      assert s[0] != '_' || s[1] != '_';
    }
  }

  lemma {:induction false} UnsignedDefined(s: string, value: nat, afterDigit: bool)
    ensures Unsigned(s, value, afterDigit).Some? <==> Continues(s, afterDigit)
    decreases |s|
  {
    if s != "" {
      ContinuesBehind(s, afterDigit);
      if IsDigit(s[0]) {
        UnsignedDefined(s[1..], value * 10 + (s[0] - '0') as nat, true);
      } else if s[0] == '_' && afterDigit {
        UnsignedDefined(s[1..], value, false);
      }
    }
  }

  ghost predicate AddsUp(s: string, value: nat, r: Option<nat>) {
    AllDigits(Plain(s)) && r == Some(value * Power(|Plain(s)|) + ValueOf(Plain(s)))
  }

  lemma AddsUpBehind(s: string, value: nat, r: Option<nat>)
    requires s != "" && ('0' <= s[0] <= '9' || s[0] == '_')
    requires AddsUp(s[1..], if s[0] == '_' then value else value * 10 + (s[0] - '0') as nat, r)
    ensures AddsUp(s, value, r)
  {
    if s[0] != '_' {
      ValueOfCons(s[0], Plain(s[1..]));
      Shifted(value, (s[0] - '0') as nat, Power(|Plain(s[1..])|));
    }
  }

  lemma {:induction false} UnsignedAddsUp(s: string, value: nat, afterDigit: bool)
    requires Continues(s, afterDigit)
    ensures AddsUp(s, value, Unsigned(s, value, afterDigit))
    decreases |s|
  {
    if s != "" {
      ContinuesBehind(s, afterDigit);
      if IsDigit(s[0]) {
        UnsignedAddsUp(s[1..], value * 10 + (s[0] - '0') as nat, true);
      } else {
        UnsignedAddsUp(s[1..], value, false);
      }
      AddsUpBehind(s, value, Unsigned(s, value, afterDigit));
    }
  }

  lemma GroupedExactly(s: string)
    ensures Grouped(s) <==> Continues(s, false)
  {
  }

  lemma FirstApart(text: string, rest: string, core: string)
    requires text != "" && text[1..] == rest + core
    ensures text == [text[0]] + rest + core
  {
  }

  lemma LastApart(text: string, core: string, rest: string)
    requires text != "" && text[..|text| - 1] == core + rest
    ensures text == core + (rest + [text[|text| - 1]])
  {
  }

  lemma {:induction false} TrimLeftIs(text: string) returns (left: string)
    ensures text == left + TrimLeft(text) && All(left, IntSpace)
  {
    if text != "" && IntSpace(text[0]) {
      var rest := TrimLeftIs(text[1..]);
      left := [text[0]] + rest;
      FirstApart(text, rest, TrimLeft(text));
    } else {
      left := "";
    }
  }

  lemma {:induction false} TrimRightIs(text: string) returns (right: string)
    ensures text == TrimRight(text) + right && All(right, IntSpace)
    decreases |text|
  {
    if text != "" && IntSpace(text[|text| - 1]) {
      var rest := TrimRightIs(text[..|text| - 1]);
      right := rest + [text[|text| - 1]];
      LastApart(text, TrimRight(text), rest);
    } else {
      right := "";
    }
  }

  lemma {:induction false} TrimLeftOf(left: string, core: string)
    requires All(left, IntSpace) && (core != "" ==> !IntSpace(core[0]))
    ensures TrimLeft(left + core) == core
  {
    if left == "" {
      assert left + core == core;
    } else {
      assert (left + core)[1..] == left[1..] + core;
      TrimLeftOf(left[1..], core);
    }
  }

  lemma {:induction false} TrimRightOf(core: string, right: string)
    requires All(right, IntSpace) && (core != "" ==> !IntSpace(core[|core| - 1]))
    ensures TrimRight(core + right) == core
    decreases |right|
  {
    if right == "" {
      assert core + right == core;
    } else {
      assert (core + right)[..|core + right| - 1] == core + right[..|right| - 1];
      TrimRightOf(core, right[..|right| - 1]);
    }
  }

  ghost predicate SignedNumber(core: string, sign: string, body: string, n: int) {
    && core == sign + body && (sign == "" || sign == "+" || sign == "-") && Grouped(body)
    && AllDigits(Plain(body)) && n == if sign == "-" then 0 - ValueOf(Plain(body)) else ValueOf(Plain(body))
  }

  lemma SignIsFirst(core: string, sign: string, body: string, n: int)
    requires SignedNumber(core, sign, body, n)
    ensures core != "" && !IntSpace(core[0]) && !IntSpace(core[|core| - 1])
    ensures if core[0] == '-' || core[0] == '+' then sign == [core[0]] && body == core[1..] else sign == "" && body == core
  {
    SignThenBody(sign, body);
  }

  lemma SignThenBody(sign: string, body: string)
    requires (sign == "" || sign == "+" || sign == "-") && body != "" && '0' <= body[0] <= '9' && '0' <= body[|body| - 1] <= '9'
    ensures var core := sign + body;
      && core != "" && !IntSpace(core[0]) && !IntSpace(core[|core| - 1])
      && if core[0] == '-' || core[0] == '+' then sign == [core[0]] && body == core[1..] else sign == "" && body == core
  {
    var core := sign + body;
    assert core[|core| - 1] == body[|body| - 1];
    if sign == "" {
      assert core == body;
    } else {
      assert core[0] == sign[0] && core[1..] == body && sign == [sign[0]];
    }
  }

  lemma UnsignedCore(body: string)
    ensures Unsigned(body, 0, false).Some? <==> Grouped(body)
    ensures Grouped(body) ==> AllDigits(Plain(body)) && Unsigned(body, 0, false) == Some(ValueOf(Plain(body)))
  {
    GroupedExactly(body);
    UnsignedDefined(body, 0, false);
    if Grouped(body) {
      UnsignedAddsUp(body, 0, false);
    }
  }

  lemma SignedRead(core: string, n: int) returns (sign: string, body: string)
    requires ParseSigned(core) == Some(n)
    ensures SignedNumber(core, sign, body, n)
  {
    if core != "" && (core[0] == '-' || core[0] == '+') {
      sign, body := [core[0]], core[1..];
    } else {
      sign, body := "", core;
    }
    assert core == sign + body;
    UnsignedCore(body);
  }

  lemma ReadOfSigned(core: string, sign: string, body: string, n: int)
    requires SignedNumber(core, sign, body, n)
    ensures ParseSigned(core) == Some(n)
  {
    SignIsFirst(core, sign, body, n);
    UnsignedCore(body);
  }

  /** White space, the core, white space. */
  ghost predicate Cut(text: string, left: string, core: string, right: string) {
    text == left + core + right && All(left, IsIntSpace) && All(right, IsIntSpace)
  }

  lemma CutIsTrim(text: string, left: string, core: string, right: string)
    requires Cut(text, left, core, right) && core != "" && !IntSpace(core[0]) && !IntSpace(core[|core| - 1])
    ensures TrimRight(TrimLeft(text)) == core
  {
    forall c: char ensures IntSpace(c) <==> IsIntSpace(c) { IntSpaces(c); }
    assert left + core + right == left + (core + right);
    TrimLeftOf(left, core + right);
    TrimRightOf(core, right);
  }

  lemma TrimIsCut(text: string) returns (left: string, right: string)
    ensures Cut(text, left, TrimRight(TrimLeft(text)), right)
  {
    forall c: char ensures IntSpace(c) <==> IsIntSpace(c) { IntSpaces(c); }
    left := TrimLeftIs(text);
    right := TrimRightIs(TrimLeft(text));
  }

  ghost predicate Denotes(text: string, n: int) {
    exists left, core, right, sign, body :: Cut(text, left, core, right) && SignedNumber(core, sign, body, n)
  }

  /** int() reads n from exactly these texts: white space, a sign or none, digits with
      single underscores between them that stand for n, white space. */
  lemma ParseIntExactly(text: string, n: int)
    ensures ParseInt(text) == Some(n) <==> Denotes(text, n)
  {
    if ParseInt(text) == Some(n) {
      var left, right := TrimIsCut(text);
      var sign, body := SignedRead(TrimRight(TrimLeft(text)), n);
      assert Denotes(text, n);
    }
    if Denotes(text, n) {
      var left, core, right, sign, body :| Cut(text, left, core, right) && SignedNumber(core, sign, body, n);
      SignIsFirst(core, sign, body, n);
      CutIsTrim(text, left, core, right);
      ReadOfSigned(core, sign, body, n);
    }
  }
}
