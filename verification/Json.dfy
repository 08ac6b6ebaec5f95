/** The json module of the language's standard library (RFC 8259): dumps with
    separators (",", ":") and ensure_ascii, and loads. */
module Json {
  import opened Options
  import opened Numbers

  /** Members of an object in the order of the text. */
  datatype Value =
    | Null
    | Bool(b: bool)
    | Int(n: int)
    | Float(text: string)
    | Str(s: string)
    | Array(items: seq<Value>)
    | Object(members: seq<Member>)

  datatype Member = Member(key: string, value: Value)

  // ----- Printing -----

  function HexDigit(x: nat): (c: char)
    requires x < 16
    ensures '0' <= c <= 'f'
  {
    if x < 10 then '0' + x as char else 'a' + (x - 10) as char
  }

  function Hex4(n: nat): (s: string)
    requires n < 0x1_0000
    ensures |s| == 4
  {
    var low := n % 4096;
    [HexDigit(n / 4096), HexDigit(low / 256), HexDigit(low % 256 / 16), HexDigit(low % 256 % 16)]
  }

  /** The surrogates of a character beyond the first plane. */
  function HighOf(c: char): (n: nat)
    requires c as nat >= 0x1_0000
    ensures 0xd800 <= n < 0xdc00
  {
    0xd800 + (c as nat - 0x1_0000) / 1024
  }

  function LowOf(c: char): (n: nat)
    requires c as nat >= 0x1_0000
    ensures 0xdc00 <= n < 0xe000
  {
    0xdc00 + (c as nat - 0x1_0000) % 1024
  }

  /** Section 7 of RFC 8259; a character beyond the first plane becomes a surrogate pair. */
  function EscapeChar(c: char): (s: string)
    ensures s != ""
  {
    if c == '"' then "\\\""
    else if c == '\\' then "\\\\"
    else if c == '\n' then "\\n"
    else if c == '\r' then "\\r"
    else if c == '\t' then "\\t"
    else if c == '\U{0c}' then "\\f"
    else if c == '\U{08}' then "\\b"
    else if ' ' <= c <= '~' then [c]
    else
      var n := c as nat;
      if n < 0x1_0000 then "\\u" + Hex4(n)
      else "\\u" + Hex4(HighOf(c)) + ("\\u" + Hex4(LowOf(c)))
  }

  function Escape(s: string): string {
    if s == "" then "" else EscapeChar(s[0]) + Escape(s[1..])
  }

  function Quote(s: string): string {
    "\"" + (Escape(s) + "\"")
  }

  /** No float anywhere in the value. */
  predicate Exact(v: Value) {
    match v
    case Float(_) => false
    case Array(items) => forall i :: 0 <= i < |items| ==> Exact(items[i])
    case Object(members) => forall i :: 0 <= i < |members| ==> Exact(members[i].value)
    case _ => true
  }

  /** json.dumps of a value without floats. */
  function Dump(v: Value): string
    requires Exact(v)
    decreases v
  {
    match v
    case Null => "null"
    case Bool(b) => if b then "true" else "false"
    case Int(n) => IntText(n)
    case Str(s) => Quote(s)
    case Array(items) => "[" + (DumpItems(items) + "]")
    case Object(members) => "{" + (DumpMembers(members) + "}")
  }

  function DumpItems(items: seq<Value>): string
    requires forall i :: 0 <= i < |items| ==> Exact(items[i])
    decreases items
  {
    if items == [] then ""
    else if |items| == 1 then Dump(items[0])
    else Dump(items[0]) + ("," + DumpItems(items[1..]))
  }

  function DumpMembers(members: seq<Member>): string
    requires forall i :: 0 <= i < |members| ==> Exact(members[i].value)
    decreases members
  {
    if members == [] then ""
    else
      var first := Quote(members[0].key) + (":" + Dump(members[0].value));
      if |members| == 1 then first else first + ("," + DumpMembers(members[1..]))
  }

  // ----- Parsing -----

  function HexValue(c: char): (r: Option<nat>)
    ensures r.Some? ==> r.value < 16
  {
    if '0' <= c <= '9' then Some((c - '0') as nat)
    else if 'a' <= c <= 'f' then Some((c - 'a') as nat + 10)
    else if 'A' <= c <= 'F' then Some((c - 'A') as nat + 10)
    else None
  }

  /** The four hexadecimal digits at the start of s. */
  function ParseHex4(s: string): (r: Option<nat>)
    ensures r.Some? ==> r.value < 0x1_0000 && |s| >= 4
  {
    if |s| < 4 then None
    else match (HexValue(s[0]), HexValue(s[1]), HexValue(s[2]), HexValue(s[3]))
      case (Some(a), Some(b), Some(c), Some(d)) => Some(a * 4096 + b * 256 + c * 16 + d)
      case _ => None
  }

  function ShortEscape(c: char): Option<char> {
    match c
    case '"' => Some('"')
    case '\\' => Some('\\')
    case '/' => Some('/')
    case 'b' => Some('\U{08}')
    case 'f' => Some('\U{0c}')
    case 'n' => Some('\n')
    case 'r' => Some('\r')
    case 't' => Some('\t')
    case _ => None
  }

  predicate HighSurrogate(n: nat) {
    0xd800 <= n < 0xdc00
  }

  predicate LowSurrogate(n: nat) {
    0xdc00 <= n < 0xe000
  }

  /** A lone surrogate is no character here; it is read as U+FFFD. */
  function CharOf(n: nat): char
    requires n < 0x1_0000
  {
    if HighSurrogate(n) || LowSurrogate(n) then '\U{fffd}' else n as char
  }

  function PairOf(high: nat, low: nat): char
    requires HighSurrogate(high) && LowSurrogate(low)
  {
    (0x1_0000 + (high - 0xd800) * 1024 + (low - 0xdc00)) as char
  }

  /** The escape behind a backslash: the character and how much of s it takes. */
  function ParseEscape(s: string): (r: Option<(char, nat)>)
    ensures r.Some? ==> 0 < r.value.1 <= |s|
  {
    if s == "" then None
    else if s[0] != 'u' then
      match ShortEscape(s[0])
      case Some(c) => Some((c, 1))
      case None => None
    else
      match ParseHex4(s[1..])
      case None => None
      case Some(n) =>
        if HighSurrogate(n) && |s| >= 7 && s[5] == '\\' && s[6] == 'u' then
          match ParseHex4(s[7..])
          case None => None
          case Some(m) => Some(if LowSurrogate(m) then (PairOf(n, m), 11) else (CharOf(n), 5))
        else Some((CharOf(n), 5))
  }

  function Prepend(c: char, rest: Option<(string, string)>): Option<(string, string)> {
    match rest
    case Some(p) => Some(([c] + p.0, p.1))
    case None => None
  }

  /** The rest of a string behind its opening quote: its characters, and what follows it. */
  function ParseChars(s: string): (r: Option<(string, string)>)
    ensures r.Some? ==> |r.value.1| < |s|
    decreases |s|
  {
    if s == "" then None
    else if s[0] == '"' then Some(("", s[1..]))
    else if s[0] == '\\' then
      match ParseEscape(s[1..])
      case None => None
      case Some(e) => Prepend(e.0, ParseChars(s[1 + e.1..]))
    else if s[0] < ' ' then None
    else Prepend(s[0], ParseChars(s[1..]))
  }

  function DigitSpan(s: string): (n: nat)
    ensures n <= |s|
    ensures forall i :: 0 <= i < n ==> IsDigit(s[i])
    ensures n < |s| ==> !IsDigit(s[n])
  {
    if s != "" && IsDigit(s[0]) then 1 + DigitSpan(s[1..]) else 0
  }

  /** The length of a fraction and an exponent at the start of s, 0 when there is neither. */
  function FloatTail(s: string): (n: nat)
    ensures n <= |s|
  {
    var f := if |s| > 1 && s[0] == '.' && IsDigit(s[1]) then 1 + DigitSpan(s[1..]) else 0;
    var t := s[f..];
    var sign := if |t| > 1 && (t[1] == '+' || t[1] == '-') then 2 else 1;
    var e := if |t| > sign && (t[0] == 'e' || t[0] == 'E') && IsDigit(t[sign]) then sign + DigitSpan(t[sign..]) else 0;
    f + e
  }

  lemma {:induction false} DigitsAreANumber(s: string, value: nat, afterDigit: bool)
    requires (s != "" || afterDigit) && forall i :: 0 <= i < |s| ==> IsDigit(s[i])
    ensures Unsigned(s, value, afterDigit).Some?
    decreases |s|
  {
    if s != "" {
      DigitsAreANumber(s[1..], value * 10 + (s[0] - '0') as nat, true);
    }
  }

  /** Digits without a leading zero, and for a float a fraction or an exponent. */
  datatype Numeral = Numeral(float: bool, length: nat, value: nat)

  /** The digits before a fraction: a zero, or all there are. */
  function IntegerPart(t: string): (n: nat)
    ensures n <= |t| && forall i :: 0 <= i < n ==> IsDigit(t[i])
  {
    if t != "" && t[0] == '0' then 1 else DigitSpan(t)
  }

  function ParseNumeral(t: string): (r: Option<Numeral>)
    ensures r.Some? ==> 0 < r.value.length <= |t|
  {
    var digits := IntegerPart(t);
    if digits == 0 then None
    else
      var tail := FloatTail(t[digits..]);
      DigitsAreANumber(t[..digits], 0, false);
      Some(Numeral(tail > 0, digits + tail, Unsigned(t[..digits], 0, false).value))
  }

  /** A number: an optional minus and a numeral. */
  function ParseNumber(s: string): (r: Option<(Value, string)>)
    ensures r.Some? ==> |r.value.1| < |s|
  {
    var negative := s != "" && s[0] == '-';
    var t := if negative then s[1..] else s;
    match ParseNumeral(t)
    case None => None
    case Some(m) =>
      var n: int := m.value;
      Some((if m.float then Float(s[..|s| - |t| + m.length]) else Int(if negative then -n else n), t[m.length..]))
  }

  predicate Blank(c: char) {
    c == ' ' || c == '\t' || c == '\n' || c == '\r'
  }

  function SkipBlanks(s: string): (r: string)
    ensures |r| <= |s|
  {
    if s != "" && Blank(s[0]) then SkipBlanks(s[1..]) else s
  }

  function ParseValue(s: string): (r: Option<(Value, string)>)
    ensures r.Some? ==> |r.value.1| < |s|
    decreases |s|, 0
  {
    if s == "" then None
    else if s[0] == '"' then
      match ParseChars(s[1..])
      case Some(p) => Some((Str(p.0), p.1))
      case None => None
    else if s[0] == '{' then
      var t := SkipBlanks(s[1..]);
      if t != "" && t[0] == '}' then Some((Object([]), t[1..]))
      else match ParseMembers(t, [])
        case Some(p) => Some((Object(p.0), p.1))
        case None => None
    else if s[0] == '[' then
      var t := SkipBlanks(s[1..]);
      if t != "" && t[0] == ']' then Some((Array([]), t[1..]))
      else match ParseItems(t, [])
        case Some(p) => Some((Array(p.0), p.1))
        case None => None
    else if "null" <= s then Some((Null, s[4..]))
    else if "true" <= s then Some((Bool(true), s[4..]))
    else if "false" <= s then Some((Bool(false), s[5..]))
    else if "NaN" <= s then Some((Float("NaN"), s[3..]))
    else if "Infinity" <= s then Some((Float("Infinity"), s[8..]))
    else if "-Infinity" <= s then Some((Float("-Infinity"), s[9..]))
    else ParseNumber(s)
  }

  /** The members from a key on, up to the closing brace. */
  function ParseMembers(s: string, members: seq<Member>): (r: Option<(seq<Member>, string)>)
    ensures r.Some? ==> |r.value.1| < |s|
    decreases |s|, 1
  {
    if s == "" || s[0] != '"' then None
    else match ParseChars(s[1..])
      case None => None
      case Some(k) =>
        var t := SkipBlanks(k.1);
        if t == "" || t[0] != ':' then None
        else match ParseValue(SkipBlanks(t[1..]))
          case None => None
          case Some(v) =>
            var u := SkipBlanks(v.1);
            var all := members + [Member(k.0, v.0)];
            if u != "" && u[0] == '}' then Some((all, u[1..]))
            else if u != "" && u[0] == ',' then ParseMembers(SkipBlanks(u[1..]), all)
            else None
  }

  /** The items from a value on, up to the closing bracket. */
  function ParseItems(s: string, items: seq<Value>): (r: Option<(seq<Value>, string)>)
    ensures r.Some? ==> |r.value.1| < |s|
    decreases |s|, 1
  {
    match ParseValue(s)
    case None => None
    case Some(v) =>
      var u := SkipBlanks(v.1);
      var all := items + [v.0];
      if u != "" && u[0] == ']' then Some((all, u[1..]))
      else if u != "" && u[0] == ',' then ParseItems(SkipBlanks(u[1..]), all)
      else None
  }

  /** json.loads of a text. */
  function Loads(text: string): Option<Value> {
    match ParseValue(SkipBlanks(text))
    case Some(p) => if SkipBlanks(p.1) == "" then Some(p.0) else None
    case None => None
  }

  // ----- Round trip -----

  lemma HexDigitBack(x: nat)
    requires x < 16
    ensures HexValue(HexDigit(x)) == Some(x)
  {
  }

  lemma FourHexBack(a: nat, b: nat, c: nat, d: nat, rest: string)
    requires a < 16 && b < 16 && c < 16 && d < 16
    ensures ParseHex4([HexDigit(a), HexDigit(b), HexDigit(c), HexDigit(d)] + rest) == Some(a * 4096 + b * 256 + c * 16 + d)
  {
    HexDigitBack(a);
    HexDigitBack(b);
    HexDigitBack(c);
    HexDigitBack(d);
  }

  lemma HexParts(n: nat) returns (a: nat, b: nat, c: nat, d: nat)
    requires n < 0x1_0000
    ensures a < 16 && b < 16 && c < 16 && d < 16 && n == a * 4096 + b * 256 + c * 16 + d
    ensures Hex4(n) == [HexDigit(a), HexDigit(b), HexDigit(c), HexDigit(d)]
  {
    var low := n % 4096;
    a, b, c, d := n / 4096, low / 256, low % 256 / 16, low % 256 % 16;
  }

  lemma Hex4Back(n: nat, rest: string)
    requires n < 0x1_0000
    ensures ParseHex4(Hex4(n) + rest) == Some(n)
  {
    var a, b, c, d := HexParts(n);
    FourHexBack(a, b, c, d, rest);
  }

  lemma PairBack(c: char)
    requires c as nat >= 0x1_0000
    ensures PairOf(HighOf(c), LowOf(c)) == c
  {
  }

  lemma UnicodeEscapeBack(c: char, rest: string)
    requires c as nat < 0x1_0000
    ensures ParseEscape("u" + Hex4(c as nat) + rest) == Some((c, 5))
  {
    var s := "u" + Hex4(c as nat) + rest;
    assert s[1..] == Hex4(c as nat) + rest;
    Hex4Back(c as nat, rest);
  }

  lemma PairText(h: string, l: string, rest: string)
    requires |h| == 4 && |l| == 4
    ensures var s := "u" + h + ("\\u" + l) + rest;
      && |s| >= 11 && s[0] == 'u' && s[5] == '\\' && s[6] == 'u'
      && s[1..] == h + (("\\u" + l) + rest) && s[7..] == l + rest
  {
  }

  lemma PairEscapeBack(c: char, rest: string)
    requires c as nat >= 0x1_0000
    ensures ParseEscape("u" + Hex4(HighOf(c)) + ("\\u" + Hex4(LowOf(c))) + rest) == Some((c, 11))
  {
    PairBack(c);
    var high, low := HighOf(c), LowOf(c);
    PairText(Hex4(high), Hex4(low), rest);
    Hex4Back(high, ("\\u" + Hex4(low)) + rest);
    Hex4Back(low, rest);
  }

  lemma EscapedBack(e: string, c: char, rest: string)
    requires |e| > 1 && e[0] == '\\' && ParseEscape(e[1..] + rest) == Some((c, |e| - 1))
    ensures ParseChars(e + rest) == Prepend(c, ParseChars(rest))
  {
    assert (e + rest)[1..] == e[1..] + rest && (e + rest)[|e|..] == rest;
  }

  lemma PlainBack(c: char, rest: string)
    requires |EscapeChar(c)| == 1
    ensures ParseChars(EscapeChar(c) + rest) == Prepend(c, ParseChars(rest))
  {
    assert EscapeChar(c) == [c];
    TailOf([c], rest);
  }

  lemma ShortBack(c: char, rest: string)
    requires |EscapeChar(c)| == 2
    ensures ParseChars(EscapeChar(c) + rest) == Prepend(c, ParseChars(rest))
  {
    var e := EscapeChar(c);
    assert e[1..] + rest == [e[1]] + rest;
    EscapedBack(e, c, rest);
  }

  lemma WithoutBackslash(x: string, y: string)
    ensures ("\\u" + x)[1..] == "u" + x
    ensures ("\\u" + x + y)[1..] == "u" + x + y
  {
  }

  lemma LongShape(c: char)
    requires |EscapeChar(c)| > 2
    ensures c as nat < 0x1_0000 ==> EscapeChar(c) == "\\u" + Hex4(c as nat)
    ensures c as nat >= 0x1_0000 ==> EscapeChar(c) == "\\u" + Hex4(HighOf(c)) + ("\\u" + Hex4(LowOf(c)))
  {
  }

  lemma UnicodeBack(c: char, e: string, rest: string)
    requires c as nat < 0x1_0000 && e == "\\u" + Hex4(c as nat)
    ensures ParseChars(e + rest) == Prepend(c, ParseChars(rest))
  {
    WithoutBackslash(Hex4(c as nat), "");
    UnicodeEscapeBack(c, rest);
    EscapedBack(e, c, rest);
  }

  lemma PairInText(c: char, h: string, l: string, rest: string)
    requires |h| == 4 && |l| == 4 && ParseEscape("u" + h + ("\\u" + l) + rest) == Some((c, 11))
    ensures ParseChars("\\u" + h + ("\\u" + l) + rest) == Prepend(c, ParseChars(rest))
  {
    WithoutBackslash(h, "\\u" + l);
    EscapedBack("\\u" + h + ("\\u" + l), c, rest);
  }

  lemma SurrogatesBack(c: char, e: string, rest: string)
    requires c as nat >= 0x1_0000 && e == "\\u" + Hex4(HighOf(c)) + ("\\u" + Hex4(LowOf(c)))
    ensures ParseChars(e + rest) == Prepend(c, ParseChars(rest))
  {
    PairEscapeBack(c, rest);
    PairInText(c, Hex4(HighOf(c)), Hex4(LowOf(c)), rest);
  }

  lemma CharBack(c: char, rest: string)
    ensures ParseChars(EscapeChar(c) + rest) == Prepend(c, ParseChars(rest))
  {
    if |EscapeChar(c)| == 1 {
      PlainBack(c, rest);
    } else if |EscapeChar(c)| == 2 {
      ShortBack(c, rest);
    } else {
      LongShape(c);
      if c as nat < 0x1_0000 {
        UnicodeBack(c, EscapeChar(c), rest);
      } else {
        SurrogatesBack(c, EscapeChar(c), rest);
      }
    }
  }

  lemma Associative(a: string, b: string, c: string)
    ensures (a + b) + c == a + (b + c)
  {
  }

  lemma HeadAndRest(s: string)
    requires s != ""
    ensures [s[0]] + s[1..] == s
  {
  }

  /** Every string of characters is read back from its escaped form. */
  lemma {:induction false} EscapeBack(s: string, rest: string)
    ensures ParseChars(Escape(s) + ("\"" + rest)) == Some((s, rest))
    decreases |s|
  {
    var tail := "\"" + rest;
    if s == "" {
      TailOf("\"", rest);
      assert Escape(s) + tail == tail;
    } else {
      EscapeBack(s[1..], rest);
      CharBack(s[0], Escape(s[1..]) + tail);
      Associative(EscapeChar(s[0]), Escape(s[1..]), tail);
      HeadAndRest(s);
    }
  }

  /** What may follow a value in a dump. */
  predicate Delimited(rest: string) {
    rest == "" || rest[0] == ',' || rest[0] == ']' || rest[0] == '}'
  }

  lemma {:induction false} DigitSpanOf(digits: string, rest: string)
    requires forall i :: 0 <= i < |digits| ==> IsDigit(digits[i])
    requires Delimited(rest)
    ensures DigitSpan(digits + rest) == |digits|
  {
    if digits == "" {
      assert digits + rest == rest;
    } else {
      assert (digits + rest)[1..] == digits[1..] + rest;
      DigitSpanOf(digits[1..], rest);
    }
  }

  lemma NoFloatTail(rest: string)
    requires Delimited(rest)
    ensures FloatTail(rest) == 0
  {
    assert rest[0..] == rest;
  }

  lemma TailOf(a: string, b: string)
    ensures (a + b)[|a|..] == b && (a + b)[..|a|] == a
    ensures a != "" ==> (a + b)[0] == a[0]
  {
  }

  lemma NumeralBack(m: nat, rest: string)
    requires Delimited(rest)
    ensures ParseNumeral(Decimal(m) + rest) == Some(Numeral(false, |Decimal(m)|, m))
  {
    NoLeadingZero(m);
    UnsignedOfDecimal(m);
    NumeralOfDigits(Decimal(m), m, rest);
  }

  lemma NumeralOfDigits(digits: string, m: nat, rest: string)
    requires Delimited(rest)
    requires digits != "" && (forall i :: 0 <= i < |digits| ==> IsDigit(digits[i])) && (digits[0] == '0' ==> |digits| == 1)
    requires Unsigned(digits, 0, false) == Some(m)
    ensures ParseNumeral(digits + rest) == Some(Numeral(false, |digits|, m))
  {
    DigitSpanOf(digits, rest);
    NoFloatTail(rest);
    TailOf(digits, rest);
    IntegerPartOf(digits, rest);
    NumeralAt(digits + rest, |digits|, digits, rest, m);
  }

  lemma NumeralAt(t: string, n: nat, digits: string, rest: string, m: nat)
    requires 0 < n <= |t| && IntegerPart(t) == n && t[n..] == rest && t[..n] == digits
    requires FloatTail(rest) == 0 && Unsigned(digits, 0, false) == Some(m)
    ensures ParseNumeral(t) == Some(Numeral(false, n, m))
  {
  }

  lemma IntegerPartOf(digits: string, rest: string)
    requires digits != "" && DigitSpan(digits + rest) == |digits| && (digits[0] == '0' ==> |digits| == 1)
    ensures IntegerPart(digits + rest) == |digits|
  {
    TailOf(digits, rest);
  }

  lemma PlainNumber(digits: string, m: nat, rest: string)
    requires digits != "" && digits[0] != '-' && ParseNumeral(digits + rest) == Some(Numeral(false, |digits|, m))
    ensures ParseNumber(digits + rest) == Some((Int(m), rest))
  {
    TailOf(digits, rest);
  }

  lemma NegativeNumber(digits: string, n: int, rest: string)
    requires n < 0 && ParseNumeral(digits + rest) == Some(Numeral(false, |digits|, -n))
    ensures ParseNumber("-" + digits + rest) == Some((Int(n), rest))
  {
    Associative("-", digits, rest);
    TailOf("-", digits + rest);
    TailOf(digits, rest);
  }

  lemma NumberBack(n: int, rest: string)
    requires Delimited(rest)
    ensures ParseNumber(IntText(n) + rest) == Some((Int(n), rest))
  {
    if n < 0 {
      NumeralBack(-n, rest);
      NegativeNumber(Decimal(-n), n, rest);
    } else {
      NumeralBack(n, rest);
      assert IsDigit(Decimal(n)[0]);
      PlainNumber(Decimal(n), n, rest);
    }
  }

  lemma OtherPrefix(p: string, s: string, i: nat)
    requires i < |p| && i < |s| && p[i] != s[i]
    ensures !(p <= s)
  {
  }

  predicate StartsNumber(s: string) {
    s != "" && (IsDigit(s[0]) || (|s| > 1 && s[0] == '-' && IsDigit(s[1])))
  }

  lemma NoWord(s: string)
    requires StartsNumber(s)
    ensures !("null" <= s) && !("true" <= s) && !("false" <= s) && !("NaN" <= s) && !("Infinity" <= s) && !("-Infinity" <= s)
  {
    OtherPrefix("null", s, 0);
    OtherPrefix("true", s, 0);
    OtherPrefix("false", s, 0);
    OtherPrefix("NaN", s, 0);
    OtherPrefix("Infinity", s, 0);
    OtherPrefix("-Infinity", s, if s[0] == '-' then 1 else 0);
  }

  /** Nothing else starts like a number. */
  lemma NumberIsValue(s: string)
    requires StartsNumber(s)
    ensures ParseValue(s) == ParseNumber(s)
  {
    NoWord(s);
    assert s[0] != '"' && s[0] != '{' && s[0] != '[';
  }

  lemma IntTextStarts(n: int, rest: string)
    ensures StartsNumber(IntText(n) + rest)
  {
    var digits := Decimal(if n < 0 then -n else n);
    assert digits != "" && IsDigit(digits[0]);
  }

  lemma NumberValueBack(n: int, rest: string)
    requires Delimited(rest)
    ensures ParseValue(IntText(n) + rest) == Some((Int(n), rest))
  {
    NumberBack(n, rest);
    IntTextStarts(n, rest);
    NumberIsValue(IntText(n) + rest);
  }

  lemma StringBack(s: string, rest: string)
    ensures Quote(s) + rest == "\"" + (Escape(s) + ("\"" + rest))
    ensures ParseValue(Quote(s) + rest) == Some((Str(s), rest))
  {
    EscapeBack(s, rest);
    Associative("\"", Escape(s) + "\"", rest);
    Associative(Escape(s), "\"", rest);
    TailOf("\"", Escape(s) + ("\"" + rest));
  }

  /** A dump starts with no blank and no closing bracket. */
  lemma DumpStart(v: Value)
    requires Exact(v)
    ensures var d := Dump(v); d != "" && !Blank(d[0]) && d[0] != ']' && d[0] != '}'
  {
  }

  lemma SkipNothing(s: string)
    requires s == "" || !Blank(s[0])
    ensures SkipBlanks(s) == s
  {
  }

  /** Every value without floats is read back from its dump. */
  lemma {:induction false} ValueBack(v: Value, rest: string)
    requires Exact(v) && Delimited(rest)
    ensures ParseValue(Dump(v) + rest) == Some((v, rest))
    decreases v, 0
  {
    match v
    case Null => assert ("null" + rest)[4..] == rest;
    case Bool(b) => assert ("true" + rest)[4..] == rest && ("false" + rest)[5..] == rest;
    case Int(n) => NumberValueBack(n, rest);
    case Str(s) => StringBack(s, rest);
    case Array(items) => ArrayBack(items, rest);
    case Object(members) => ObjectBack(members, rest);
  }

  /** One item, given that it is read back. */
  lemma ItemBack(v: Value, tail: string, before: seq<Value>)
    requires Exact(v) && tail != "" && Delimited(tail)
    requires ParseValue(Dump(v) + tail) == Some((v, tail))
    ensures ParseItems(Dump(v) + tail, before) ==
      if tail[0] == ']' then Some((before + [v], tail[1..]))
      else if tail[0] == ',' then ParseItems(SkipBlanks(tail[1..]), before + [v])
      else None
  {
    SkipNothing(tail);
  }

  lemma CommaBack(more: string)
    requires more == "" || !Blank(more[0])
    ensures ("," + more)[1..] == more && SkipBlanks(("," + more)[1..]) == more
  {
    assert ("," + more)[1..] == more;
    SkipNothing(more);
  }

  lemma {:induction false} ArrayBack(items: seq<Value>, rest: string)
    requires forall i :: 0 <= i < |items| ==> Exact(items[i])
    ensures ParseValue("[" + (DumpItems(items) + "]") + rest) == Some((Array(items), rest))
    decreases items, 2
  {
    var inner, close := DumpItems(items), "]" + rest;
    Bracketed("[", inner, "]", rest);
    if items == [] {
      EmptyArrayBack(rest);
    } else {
      ItemsBack(items, [], rest);
      ItemsStart(items);
      TailOf(inner, close);
      OpenItems(inner + close);
      EmptyBefore(items);
    }
  }

  lemma Bracketed(open: string, inner: string, close: string, rest: string)
    ensures open + (inner + close) + rest == open + (inner + (close + rest))
    ensures inner == "" ==> inner + (close + rest) == close + rest
  {
    Associative(open, inner + close, rest);
    Associative(inner, close, rest);
  }

  lemma EmptyBefore<T>(xs: seq<T>)
    ensures [] + xs == xs
  {
  }

  lemma EmptyArrayBack(rest: string)
    ensures ParseValue("[" + ("]" + rest)) == Some((Array([]), rest))
  {
    TailOf("[", "]" + rest);
    TailOf("]", rest);
    SkipNothing("]" + rest);
  }

  /** An opening bracket before anything but a blank or the closing one. */
  lemma OpenItems(t: string)
    requires t != "" && !Blank(t[0]) && t[0] != ']'
    ensures ParseValue("[" + t) == var p := ParseItems(t, []); if p.Some? then Some((Array(p.value.0), p.value.1)) else None
  {
    TailOf("[", t);
    SkipNothing(t);
  }

  lemma Regroup(a: string, b: string, close: string)
    ensures (a + ("," + b)) + close == a + ("," + (b + close))
  {
  }

  lemma ItemsText(items: seq<Value>, close: string)
    requires |items| > 1 && forall i :: 0 <= i < |items| ==> Exact(items[i])
    ensures DumpItems(items) + close == Dump(items[0]) + ("," + (DumpItems(items[1..]) + close))
    ensures var more := DumpItems(items[1..]) + close; more != "" && !Blank(more[0])
  {
    Regroup(Dump(items[0]), DumpItems(items[1..]), close);
    ItemsStart(items[1..]);
    TailOf(DumpItems(items[1..]), close);
  }

  lemma ItemsStart(items: seq<Value>)
    requires items != [] && forall i :: 0 <= i < |items| ==> Exact(items[i])
    ensures var d := DumpItems(items); d != "" && !Blank(d[0]) && d[0] != ']'
  {
    DumpStart(items[0]);
    if |items| > 1 {
      TailOf(Dump(items[0]), "," + DumpItems(items[1..]));
    }
  }

  lemma NextItem(v: Value, more: string, before: seq<Value>, all: seq<Value>, rest: string)
    requires Exact(v) && more != "" && !Blank(more[0])
    requires ParseValue(Dump(v) + ("," + more)) == Some((v, "," + more))
    requires ParseItems(more, before + [v]) == Some((all, rest))
    ensures ParseItems(Dump(v) + ("," + more), before) == Some((all, rest))
  {
    ItemBack(v, "," + more, before);
    CommaBack(more);
  }

  lemma LastItem(v: Value, before: seq<Value>, rest: string)
    requires Exact(v)
    requires ParseValue(Dump(v) + ("]" + rest)) == Some((v, "]" + rest))
    ensures ParseItems(Dump(v) + ("]" + rest), before) == Some((before + [v], rest))
  {
    ItemBack(v, "]" + rest, before);
    TailOf("]", rest);
  }

  lemma AppendFirst<T>(before: seq<T>, xs: seq<T>)
    requires xs != []
    ensures (before + [xs[0]]) + xs[1..] == before + xs
    ensures |xs| == 1 ==> before + [xs[0]] == before + xs
  {
  }

  lemma {:induction false} ItemsBack(items: seq<Value>, before: seq<Value>, rest: string)
    requires items != [] && forall i :: 0 <= i < |items| ==> Exact(items[i])
    ensures ParseItems(DumpItems(items) + ("]" + rest), before) == Some((before + items, rest))
    decreases items, 1
  {
    var v, close := items[0], "]" + rest;
    AppendFirst(before, items);
    if |items| == 1 {
      ValueBack(v, close);
      LastItem(v, before, rest);
    } else {
      ItemsText(items, close);
      var more := DumpItems(items[1..]) + close;
      ValueBack(v, "," + more);
      ItemsBack(items[1..], before + [v], rest);
      NextItem(v, more, before, before + items, rest);
    }
  }

  lemma MembersStart(members: seq<Member>)
    requires members != [] && forall i :: 0 <= i < |members| ==> Exact(members[i].value)
    ensures var d := DumpMembers(members); d != "" && d[0] == '"'
  {
    var first := Quote(members[0].key) + (":" + Dump(members[0].value));
    TailOf(Quote(members[0].key), ":" + Dump(members[0].value));
    if |members| > 1 {
      TailOf(first, "," + DumpMembers(members[1..]));
    }
  }

  lemma {:induction false} ObjectBack(members: seq<Member>, rest: string)
    requires forall i :: 0 <= i < |members| ==> Exact(members[i].value)
    ensures ParseValue("{" + (DumpMembers(members) + "}") + rest) == Some((Object(members), rest))
    decreases members, 2
  {
    var inner, close := DumpMembers(members), "}" + rest;
    Bracketed("{", inner, "}", rest);
    if members == [] {
      EmptyObjectBack(rest);
    } else {
      MembersBack(members, [], rest);
      MembersStart(members);
      TailOf(inner, close);
      OpenMembers(inner + close);
      EmptyBefore(members);
    }
  }

  lemma EmptyObjectBack(rest: string)
    ensures ParseValue("{" + ("}" + rest)) == Some((Object([]), rest))
  {
    TailOf("{", "}" + rest);
    TailOf("}", rest);
    SkipNothing("}" + rest);
  }

  /** An opening brace before anything but a blank or the closing one. */
  lemma OpenMembers(t: string)
    requires t != "" && !Blank(t[0]) && t[0] != '}'
    ensures ParseValue("{" + t) == var p := ParseMembers(t, []); if p.Some? then Some((Object(p.value.0), p.value.1)) else None
  {
    TailOf("{", t);
    SkipNothing(t);
  }

  lemma MembersText(members: seq<Member>, close: string)
    requires |members| > 1 && forall i :: 0 <= i < |members| ==> Exact(members[i].value)
    ensures var m, more := members[0], DumpMembers(members[1..]) + close;
      && DumpMembers(members) + close == Quote(m.key) + (":" + Dump(m.value)) + ("," + more)
      && more != "" && !Blank(more[0])
  {
    Regroup(Quote(members[0].key) + (":" + Dump(members[0].value)), DumpMembers(members[1..]), close);
    MembersGoOn(members[1..], close);
  }

  lemma MembersGoOn(members: seq<Member>, close: string)
    requires members != [] && forall i :: 0 <= i < |members| ==> Exact(members[i].value)
    ensures var more := DumpMembers(members) + close; more != "" && !Blank(more[0])
  {
    MembersStart(members);
    TailOf(DumpMembers(members), close);
  }

  lemma NextMember(m: Member, more: string, before: seq<Member>, all: seq<Member>, rest: string)
    requires Exact(m.value) && more != "" && !Blank(more[0])
    requires ParseValue(Dump(m.value) + ("," + more)) == Some((m.value, "," + more))
    requires ParseMembers(more, before + [m]) == Some((all, rest))
    ensures ParseMembers(Quote(m.key) + (":" + Dump(m.value)) + ("," + more), before) == Some((all, rest))
  {
    MemberBack(m, "," + more, before);
    CommaBack(more);
  }

  lemma LastMember(m: Member, before: seq<Member>, rest: string)
    requires Exact(m.value)
    requires ParseValue(Dump(m.value) + ("}" + rest)) == Some((m.value, "}" + rest))
    ensures ParseMembers(Quote(m.key) + (":" + Dump(m.value)) + ("}" + rest), before) == Some((before + [m], rest))
  {
    MemberBack(m, "}" + rest, before);
    TailOf("}", rest);
  }

  lemma {:induction false} MembersBack(members: seq<Member>, before: seq<Member>, rest: string)
    requires members != [] && forall i :: 0 <= i < |members| ==> Exact(members[i].value)
    ensures ParseMembers(DumpMembers(members) + ("}" + rest), before) == Some((before + members, rest))
    decreases members, 1
  {
    var m, close := members[0], "}" + rest;
    AppendFirst(before, members);
    if |members| == 1 {
      ValueBack(m.value, close);
      LastMember(m, before, rest);
    } else {
      MembersText(members, close);
      var more := DumpMembers(members[1..]) + close;
      ValueBack(m.value, "," + more);
      MembersBack(members[1..], before + [m], rest);
      NextMember(m, more, before, before + members, rest);
    }
  }

  /** One member, given that its value is read back. */
  lemma MemberBack(m: Member, tail: string, before: seq<Member>)
    requires Exact(m.value) && tail != "" && Delimited(tail)
    requires ParseValue(Dump(m.value) + tail) == Some((m.value, tail))
    ensures ParseMembers(Quote(m.key) + (":" + Dump(m.value)) + tail, before) ==
      if tail[0] == '}' then Some((before + [m], tail[1..]))
      else if tail[0] == ',' then ParseMembers(SkipBlanks(tail[1..]), before + [m])
      else None
  {
    var body := Dump(m.value) + tail;
    Associative(Quote(m.key), ":" + Dump(m.value), tail);
    Associative(":", Dump(m.value), tail);
    StringBack(m.key, ":" + body);
    TailOf("\"", Escape(m.key) + ("\"" + (":" + body)));
    EscapeBack(m.key, ":" + body);
    TailOf(":", body);
    SkipNothing(":" + body);
    DumpStart(m.value);
    TailOf(Dump(m.value), tail);
    SkipNothing(body);
    SkipNothing(tail);
  }

  /** loads undoes dumps, for every value without floats. */
  lemma LoadsDump(v: Value)
    requires Exact(v)
    ensures Loads(Dump(v)) == Some(v)
  {
    ValueBack(v, "");
    assert Dump(v) + "" == Dump(v);
    DumpStart(v);
    SkipNothing(Dump(v));
  }

  // ----- A number that is not finite -----

  lemma InfinityValue(rest: string)
    ensures ParseValue("Infinity" + rest) == Some((Float("Infinity"), rest))
  {
    TailOf("Infinity", rest);
    assert ("Infinity" + rest)[0] == 'I';
    OtherPrefix("null", "Infinity" + rest, 0);
    OtherPrefix("true", "Infinity" + rest, 0);
    OtherPrefix("false", "Infinity" + rest, 0);
    OtherPrefix("NaN", "Infinity" + rest, 0);
  }

  lemma InfinityMember(key: string)
    ensures ParseMembers(Quote(key) + (":" + ("Infinity" + "}")), []) == Some(([Member(key, Float("Infinity"))], ""))
  {
    var body := "Infinity" + "}";
    StringBack(key, ":" + body);
    TailOf("\"", Escape(key) + ("\"" + (":" + body)));
    EscapeBack(key, ":" + body);
    SkipNothing(":" + body);
    TailOf(":", body);
    SkipNothing(body);
    InfinityValue("}");
    SkipNothing("}");
    TailOf("}", "");
    assert [] + [Member(key, Float("Infinity"))] == [Member(key, Float("Infinity"))];
  }

  /** loads reads an infinite number, which no JSON text stands for. */
  lemma LoadsInfinity(key: string)
    ensures Loads("{" + (Quote(key) + (":" + ("Infinity" + "}")))) == Some(Object([Member(key, Float("Infinity"))]))
  {
    var t := Quote(key) + (":" + ("Infinity" + "}"));
    InfinityMember(key);
    TailOf(Quote(key), ":" + ("Infinity" + "}"));
    OpenMembers(t);
    SkipNothing("{" + t);
    SkipNothing("");
  }

  // ----- A dump is ASCII -----

  predicate Printable(s: string) {
    forall i :: 0 <= i < |s| ==> ' ' <= s[i] <= '~'
  }

  lemma PrintableConcat(a: string, b: string)
    requires Printable(a) && Printable(b)
    ensures Printable(a + b)
  {
  }

  lemma EscapeCharPrintable(c: char)
    ensures Printable(EscapeChar(c))
  {
  }

  lemma {:induction false} EscapePrintable(s: string)
    ensures Printable(Escape(s)) && Printable(Quote(s))
    decreases |s|
  {
    if s != "" {
      EscapeCharPrintable(s[0]);
      EscapePrintable(s[1..]);
      PrintableConcat(EscapeChar(s[0]), Escape(s[1..]));
    }
    PrintableConcat(Escape(s), "\"");
    PrintableConcat("\"", Escape(s) + "\"");
  }

  /** A dump consists of printable ASCII characters, whatever strings it holds. */
  lemma {:induction false} DumpPrintable(v: Value)
    requires Exact(v)
    ensures Printable(Dump(v))
    decreases v, 0
  {
    match v
    case Str(s) => EscapePrintable(s);
    case Array(items) =>
      ItemsPrintable(items);
      PrintableConcat(DumpItems(items), "]");
    case Object(members) =>
      MembersPrintable(members);
      PrintableConcat(DumpMembers(members), "}");
    case _ =>
  }

  lemma {:induction false} ItemsPrintable(items: seq<Value>)
    requires forall i :: 0 <= i < |items| ==> Exact(items[i])
    ensures Printable(DumpItems(items))
    decreases items, 1
  {
    if items != [] {
      DumpPrintable(items[0]);
      ItemsPrintable(items[1..]);
      PrintableConcat(",", DumpItems(items[1..]));
      PrintableConcat(Dump(items[0]), "," + DumpItems(items[1..]));
    }
  }

  lemma {:induction false} MembersPrintable(members: seq<Member>)
    requires forall i :: 0 <= i < |members| ==> Exact(members[i].value)
    ensures Printable(DumpMembers(members))
    decreases members, 1
  {
    if members != [] {
      EscapePrintable(members[0].key);
      DumpPrintable(members[0].value);
      MembersPrintable(members[1..]);
      var first := Quote(members[0].key) + (":" + Dump(members[0].value));
      PrintableConcat(":", Dump(members[0].value));
      PrintableConcat(Quote(members[0].key), ":" + Dump(members[0].value));
      PrintableConcat(",", DumpMembers(members[1..]));
      PrintableConcat(first, "," + DumpMembers(members[1..]));
    }
  }
}
