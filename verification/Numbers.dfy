/** int() on text with ASCII digits, and the decimal text of a number. */
module Numbers {
  import opened Options
  import opened Text

  predicate IsDigit(c: char) {
    '0' <= c <= '9'
  }

  /** What int() strips: white space but for the separators U+001C to U+001F. */
  predicate IntSpace(c: char) {
    Space(c) && !('\U{1c}' <= c <= '\U{1f}')
  }

  function TrimLeft(s: string): string {
    if s != "" && IntSpace(s[0]) then TrimLeft(s[1..]) else s
  }

  function TrimRight(s: string): string {
    if s != "" && IntSpace(s[|s| - 1]) then TrimRight(s[..|s| - 1]) else s
  }

  /** Digits, with single underscores allowed between two of them. */
  function Unsigned(s: string, value: nat, afterDigit: bool): Option<nat> {
    if s == "" then if afterDigit then Some(value) else None
    else if IsDigit(s[0]) then Unsigned(s[1..], value * 10 + (s[0] - '0') as nat, true)
    else if s[0] == '_' && afterDigit then Unsigned(s[1..], value, false)
    else None
  }

  function ParseInt(text: string): Option<int> {
    ParseSigned(TrimRight(TrimLeft(text)))
  }

  function ParseSigned(s: string): Option<int> {
    if s != "" && (s[0] == '-' || s[0] == '+') then
      match Unsigned(s[1..], 0, false)
      case Some(n) => var m: int := n; Some(if s[0] == '-' then -m else m)
      case None => None
    else
      match Unsigned(s, 0, false)
      case Some(n) => Some(n)
      case None => None
  }

  /** str() of a natural number. */
  function Decimal(n: nat): (s: string)
    ensures s != "" && forall i :: 0 <= i < |s| ==> IsDigit(s[i])
  {
    if n < 10 then ['0' + n as char] else Decimal(n / 10) + ['0' + (n % 10) as char]
  }

  lemma {:induction false} UnsignedAppend(s: string, c: char, value: nat, afterDigit: bool)
    requires IsDigit(c)
    requires Unsigned(s, value, afterDigit).Some?
    ensures Unsigned(s + [c], value, afterDigit) == Some(Unsigned(s, value, afterDigit).value * 10 + (c - '0') as nat)
    decreases |s|
  {
    if s == "" {
      assert (s + [c])[1..] == "";
    } else {
      assert (s + [c])[1..] == s[1..] + [c];
      if IsDigit(s[0]) {
        UnsignedAppend(s[1..], c, value * 10 + (s[0] - '0') as nat, true);
      } else {
        UnsignedAppend(s[1..], c, value, false);
      }
    }
  }

  lemma {:induction false} UnsignedOfDecimal(n: nat)
    ensures Unsigned(Decimal(n), 0, false) == Some(n)
  {
    if n < 10 {
      var c := '0' + n as char;
      assert Decimal(n) == [c] && [c][1..] == "";
    } else {
      UnsignedOfDecimal(n / 10);
      UnsignedAppend(Decimal(n / 10), '0' + (n % 10) as char, 0, false);
    }
  }

  /** int() reads back what str() wrote. */
  lemma ParseOfDecimal(n: nat)
    ensures ParseInt(Decimal(n)) == Some(n)
  {
    var s := Decimal(n);
    assert !IntSpace(s[0]) && !IntSpace(s[|s| - 1]);
    UnsignedOfDecimal(n);
  }

  lemma {:induction false} NoLeadingZero(n: nat)
    ensures Decimal(n)[0] == '0' <==> n == 0
    ensures n == 0 ==> Decimal(n) == "0"
  {
    if n >= 10 {
      NoLeadingZero(n / 10);
    }
  }

  /** str() of an integer. */
  function IntText(n: int): string {
    if n < 0 then "-" + Decimal(-n) else Decimal(n)
  }

  lemma DecimalIsInjective(m: nat, n: nat)
    requires Decimal(m) == Decimal(n)
    ensures m == n
  {
    UnsignedOfDecimal(m);
    UnsignedOfDecimal(n);
  }

  lemma SignOfText(n: int)
    ensures IntText(n) != "" && (IntText(n)[0] == '-' <==> n < 0)
    ensures n < 0 ==> IntText(n)[1..] == Decimal(-n)
  {
  }

  lemma IntTextIsInjective(m: int, n: int)
    requires IntText(m) == IntText(n)
    ensures m == n
  {
    SignOfText(m);
    SignOfText(n);
    DecimalIsInjective(if m < 0 then -m else m, if n < 0 then -n else n);
  }
}
