/** The JSON text of a token's payload, spelled out: separators, order and escapes
    (section 7 of RFC 8259). */
module JsonText {
  import opened Options
  import opened Numbers
  import opened Json
  import Tokens

  lemma HexDigitsAre(x: nat)
    requires x < 16
    ensures HexDigit(x) as int == if x < 10 then 48 + x else 97 + (x - 10)
  {
  }

  /** A quotation mark and a backslash are escaped by a backslash, five control
      characters by a letter, and all other printable ASCII stays. */
  lemma ShortEscapes(c: char)
    ensures Escape(['"']) == ['\\', '"'] && Escape(['\\']) == ['\\', '\\']
    ensures Escape(['\n']) == ['\\', 'n'] && Escape(['\r']) == ['\\', 'r'] && Escape(['\t']) == ['\\', 't']
    ensures Escape(['\U{08}']) == ['\\', 'b'] && Escape(['\U{0c}']) == ['\\', 'f']
    ensures 32 <= c as int <= 126 && c != '"' && c != '\\' ==> Escape([c]) == [c]
  {
    EscapeOfOne('"');
    EscapeOfOne('\\');
    EscapeOfOne('\n');
    EscapeOfOne('\r');
    EscapeOfOne('\t');
    EscapeOfOne('\U{08}');
    EscapeOfOne('\U{0c}');
    EscapeOfOne(c);
  }

  lemma EscapeOfOne(c: char)
    ensures Escape([c]) == EscapeChar(c)
  {
    assert [c][1..] == "";
    assert EscapeChar(c) + "" == EscapeChar(c);
  }

  /** Any other character of the first plane is \u and its number in four lower-case
      hexadecimal digits. */
  lemma UnicodeEscape(c: char) returns (w: nat, x: nat, y: nat, z: nat)
    requires c as int < 0x1_0000 && !(32 <= c as int <= 126) && c !in {'\n', '\r', '\t', '\U{08}', '\U{0c}'}
    ensures w < 16 && x < 16 && y < 16 && z < 16 && c as int == 4096 * w + 256 * x + 16 * y + z
    ensures Escape([c]) == ['\\', 'u', HexDigit(w), HexDigit(x), HexDigit(y), HexDigit(z)]
  {
    EscapeOfOne(c);
    w, x, y, z := HexParts(c as nat);
  }

  /** A character beyond it is the two surrogates of its number. */
  lemma SurrogateEscape(c: char) returns (high: nat, low: nat)
    requires c as int >= 0x1_0000
    ensures high < 1024 && low < 1024 && c as int == 0x1_0000 + 1024 * high + low
    ensures Escape([c]) == "\\u" + Hex4(0xd800 + high) + ("\\u" + Hex4(0xdc00 + low))
  {
    EscapeOfOne(c);
    high, low := HighOf(c) - 0xd800, LowOf(c) - 0xdc00;
    PairBack(c);
  }

  /** Characters are escaped one by one. */
  lemma {:induction false} EscapeAppend(s: string, t: string)
    ensures Escape(s + t) == Escape(s) + Escape(t)
    decreases |s|
  {
    if s == "" {
      assert s + t == t;
    } else {
      assert (s + t)[1..] == s[1..] + t;
      EscapeAppend(s[1..], t);
      Associative(EscapeChar(s[0]), Escape(s[1..]), Escape(t));
    }
  }

  lemma PlainKey(s: string)
    requires forall i :: 0 <= i < |s| ==> 'a' <= s[i] <= 'z'
    ensures Quote(s) == "\"" + s + "\""
  {
    PlainIsKept(s);
    Associative("\"", s, "\"");
  }

  lemma {:induction false} PlainIsKept(s: string)
    requires forall i :: 0 <= i < |s| ==> 'a' <= s[i] <= 'z'
    ensures Escape(s) == s
  {
    if s != "" {
      PlainIsKept(s[1..]);
      assert s == [s[0]] + s[1..];
    }
  }

  lemma DumpOfThree(a: Member, b: Member, c: Member)
    requires Exact(a.value) && Exact(b.value) && Exact(c.value)
    ensures Dump(Object([a, b, c])) ==
      "{" + ((Pair(a) + ("," + (Pair(b) + ("," + Pair(c))))) + "}")
  {
    assert [a, b, c][1..] == [b, c] && [b, c][1..] == [c];
    assert DumpMembers([c]) == Pair(c);
    assert DumpMembers([b, c]) == Pair(b) + ("," + Pair(c));
    assert DumpMembers([a, b, c]) == Pair(a) + ("," + DumpMembers([b, c]));
  }

  function Pair(m: Member): string
    requires Exact(m.value)
  {
    Quote(m.key) + (":" + Dump(m.value))
  }

  /** The text of an object with a number and two strings. */
  function ThreeFields(a: string, n: int, b: string, s: string, c: string, t: string): string {
    "{" + ((Quote(a) + (":" + IntText(n)) + ("," + (Quote(b) + (":" + Quote(s)) + ("," + (Quote(c) + (":" + Quote(t))))))) + "}")
  }

  lemma ThreeFieldsText(a: string, n: int, b: string, s: string, c: string, t: string)
    ensures Dump(Object([Member(a, Int(n)), Member(b, Str(s)), Member(c, Str(t))])) == ThreeFields(a, n, b, s, c, t)
  {
    DumpOfThree(Member(a, Int(n)), Member(b, Str(s)), Member(c, Str(t)));
  }

  /** No blanks, the keys in their order, the id and the name as quoted strings. */
  lemma PayloadText(exp: int, id: string, username: string)
    ensures Dump(Tokens.Payload(exp, id, username)) == ThreeFields("exp", exp, "sub", id, "username", username)
  {
    ThreeFieldsText("exp", exp, "sub", id, "username", username);
  }

  // ----- What loads puts up with -----

  /** White space before the value is skipped. */
  lemma LoadsSkipsBlanks(c: char, text: string)
    requires c in {' ', '\t', '\n', '\r'}
    ensures Loads([c] + text) == Loads(text)
  {
    assert ([c] + text)[1..] == text;
  }

  /** Hexadecimal digits are read in either case. */
  lemma HexValuesAre(c: char, x: nat)
    ensures HexValue(c) == Some(x) <==>
      x < 16 && (c as int == (if x < 10 then 48 + x else 97 + (x - 10)) || (x >= 10 && c as int == 65 + (x - 10)))
  {
  }

  /** The escapes by a letter, the solidus among them. */
  lemma ShortEscapesAre(c: char)
    ensures ShortEscape(c).Some? <==> c in {'"', '\\', '/', 'b', 'f', 'n', 'r', 't'}
    ensures ShortEscape('"') == Some('"') && ShortEscape('\\') == Some('\\') && ShortEscape('/') == Some('/')
    ensures ShortEscape('b') == Some('\U{08}') && ShortEscape('f') == Some('\U{0c}') && ShortEscape('n') == Some('\n')
    ensures ShortEscape('r') == Some('\r') && ShortEscape('t') == Some('\t')
  {
  }

  /** A fraction makes the number a float, which keeps its text. */
  lemma FractionIsFloat(n: nat, c: char)
    requires IsDigit(c)
    ensures ParseNumber(Decimal(n) + ['.', c]) == Some((Float(Decimal(n) + ['.', c]), ""))
  {
    var digits, tail := Decimal(n), ['.', c];
    var t := digits + tail;
    TailOf(digits, tail);
    NoLeadingZero(n);
    DigitsUpTo(digits, tail);
    FractionTail(c);
    UnsignedOfDecimal(n);
    assert t[0] == digits[0] && IsDigit(digits[0]);
    assert IntegerPart(t) == |digits|;
    assert t[|t|..] == "" && t[..|t|] == t;
  }

  lemma FractionTail(c: char)
    requires IsDigit(c)
    ensures FloatTail(['.', c]) == 2
  {
    assert ['.', c][1..] == [c] && [c][1..] == "" && ['.', c][2..] == "";
    assert DigitSpan([c]) == 1;
  }

  lemma {:induction false} DigitsUpTo(digits: string, tail: string)
    requires forall i :: 0 <= i < |digits| ==> IsDigit(digits[i])
    requires tail != "" && !IsDigit(tail[0])
    ensures DigitSpan(digits + tail) == |digits|
  {
    if digits == "" {
      assert digits + tail == tail;
    } else {
      assert (digits + tail)[1..] == digits[1..] + tail;
      DigitsUpTo(digits[1..], tail);
    }
  }
}
