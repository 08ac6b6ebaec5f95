/** Base64 (sections 4 and 5 of RFC 4648) as app/api/auth.py uses it: the encoder
    with padding, the URL-safe form with the padding stripped, and the lenient
    decoder of the language's standard library. */
module Base64 {
  import opened Options

  type Byte = b: int | 0 <= b < 256
  type Sextet = x: int | 0 <= x < 64

  datatype Alphabet = Standard | UrlSafe

  function Digit(a: Alphabet, x: Sextet): char {
    if x < 26 then 'A' + x as char
    else if x < 52 then 'a' + (x - 26) as char
    else if x < 62 then '0' + (x - 52) as char
    else if x == 62 then (if a == Standard then '+' else '-')
    else (if a == Standard then '/' else '_')
  }

  /** The value of a character for the decoder; the URL-safe decoder translates
      '-' and '_' first and still accepts '+' and '/'. */
  function Value(a: Alphabet, c: char): Option<Sextet> {
    if 'A' <= c <= 'Z' then Some((c - 'A') as int)
    else if 'a' <= c <= 'z' then Some((c - 'a') as int + 26)
    else if '0' <= c <= '9' then Some((c - '0') as int + 52)
    else if c == '+' || (a == UrlSafe && c == '-') then Some(62)
    else if c == '/' || (a == UrlSafe && c == '_') then Some(63)
    else None
  }

  lemma ValueOfDigit(a: Alphabet, x: Sextet)
    ensures Value(a, Digit(a, x)) == Some(x)
    ensures Digit(a, x) != '=' && Digit(a, x) != '.' && Digit(a, x) != '$' && Digit(a, x) < 128 as char
  {
  }

  /** Three bytes as four digits. */
  function Group(b0: Byte, b1: Byte, b2: Byte): seq<Sextet> {
    [b0 / 4, b0 % 4 * 16 + b1 / 16, b1 % 16 * 4 + b2 / 64, b2 % 64]
  }

  /** The digits of the encoding without padding. */
  function Sextets(bs: seq<Byte>): seq<Sextet> {
    if |bs| == 0 then []
    else if |bs| == 1 then [bs[0] / 4, bs[0] % 4 * 16]
    else if |bs| == 2 then [bs[0] / 4, bs[0] % 4 * 16 + bs[1] / 16, bs[1] % 16 * 4]
    else Group(bs[0], bs[1], bs[2]) + Sextets(bs[3..])
  }

  function Digits(a: Alphabet, xs: seq<Sextet>): (s: string)
    ensures |s| == |xs|
    ensures forall i :: 0 <= i < |s| ==> s[i] == Digit(a, xs[i])
  {
    seq(|xs|, i requires 0 <= i < |xs| => Digit(a, xs[i]))
  }

  function Padding(n: nat): string {
    seq(n, _ => '=')
  }

  /** Bytes lacking in the last group of three: as many signs pad the text. */
  function Lacking(bytes: nat): nat {
    (3 - bytes % 3) % 3
  }

  /** -length % 4: the signs missing from a text of this length. */
  function Missing(length: nat): nat {
    (4 - length % 4) % 4
  }

  /** base64.b64encode and base64.urlsafe_b64encode. */
  function Encode(a: Alphabet, bs: seq<Byte>): string {
    Digits(a, Sextets(bs)) + Padding(Lacking(|bs|))
  }

  /** str.rstrip("="). */
  function StripPadding(s: string): string {
    if s != "" && s[|s| - 1] == '=' then StripPadding(s[..|s| - 1]) else s
  }

  /** _codificar_base64url. */
  function EncodeUnpadded(bs: seq<Byte>): string {
    StripPadding(Encode(UrlSafe, bs))
  }

  datatype Decoder = Decoder(place: nat, left: int, pads: nat)

  predicate ValidDecoder(d: Decoder) {
    d.place < 4 && 0 <= d.left && (d.place == 1 ==> d.left < 64) && (d.place == 2 ==> d.left < 16) && (d.place == 3 ==> d.left < 4)
  }

  /** The bytes completed by one more digit, and the state after it. */
  function Completed(d: Decoder, x: Sextet): seq<Byte>
    requires ValidDecoder(d)
  {
    match d.place
    case 0 => []
    case 1 => [d.left * 4 + x / 16]
    case 2 => [d.left * 16 + x / 4]
    case _ => [d.left * 64 + x]
  }

  function Advance(d: Decoder, x: Sextet): (r: Decoder)
    requires ValidDecoder(d)
    ensures ValidDecoder(r)
  {
    match d.place
    case 0 => Decoder(1, x, 0)
    case 1 => Decoder(2, x % 16, 0)
    case 2 => Decoder(3, x % 4, 0)
    case _ => Decoder(0, 0, 0)
  }

  function Prepend(bs: seq<Byte>, rest: Option<seq<Byte>>): Option<seq<Byte>> {
    match rest
    case Some(more) => Some(bs + more)
    case None => None
  }

  /** binascii.a2b_base64 without strict mode, from a state of its loop. Characters
      outside the alphabet are skipped; None is the error raised for a bad length.
      `place` counts the digits of the current group, `left` holds its bits that
      are not yet part of a byte. */
  function Decode(a: Alphabet, s: string, d: Decoder): Option<seq<Byte>>
    requires ValidDecoder(d)
  {
    if s == "" then if d.place == 0 then Some([]) else None
    else if s[0] == '=' then
      if d.place < 2 then Decode(a, s[1..], d)
      else if d.place + d.pads + 1 >= 4 then Some([])
      else Decode(a, s[1..], d.(pads := d.pads + 1))
    else match Value(a, s[0])
      case None => Decode(a, s[1..], d)
      case Some(x) => Prepend(Completed(d, x), Decode(a, s[1..], Advance(d, x)))
  }

  const START := Decoder(0, 0, 0)

  /** _decodificar_base64url on ASCII text. */
  function DecodeUnpadded(s: string): Option<seq<Byte>> {
    Decode(UrlSafe, s + Padding(Missing(|s|)), START)
  }

  // ----- Round trips -----

  function DigitCount(bytes: nat): nat {
    bytes / 3 * 4 + (if bytes % 3 == 0 then 0 else bytes % 3 + 1)
  }

  lemma {:induction false} SextetsLength(bs: seq<Byte>)
    ensures |Sextets(bs)| == DigitCount(|bs|)
    decreases |bs|
  {
    if |bs| >= 3 {
      SextetsLength(bs[3..]);
    }
  }

  /** Section 3.2 of RFC 4648: the length of an encoding without padding is never
      one more than a multiple of four, and the stripped padding is what brings it
      to a multiple of four. */
  lemma PaddingFromLength(bytes: nat)
    ensures DigitCount(bytes) % 4 != 1
    ensures Missing(DigitCount(bytes)) == Lacking(bytes)
  {
    var whole, left := bytes / 3, bytes % 3;
    assert DigitCount(bytes) == 4 * whole + (if left == 0 then 0 else left + 1);
    RemainderOfFour(whole, if left == 0 then 0 else left + 1);
  }

  lemma RemainderOfFour(groups: nat, left: nat)
    requires left < 4
    ensures (4 * groups + left) % 4 == left
  {
  }

  lemma {:induction false} StripOfDigits(a: Alphabet, xs: seq<Sextet>, n: nat)
    ensures StripPadding(Digits(a, xs) + Padding(n)) == Digits(a, xs)
  {
    var s := Digits(a, xs) + Padding(n);
    if n > 0 {
      assert s[..|s| - 1] == Digits(a, xs) + Padding(n - 1);
      StripOfDigits(a, xs, n - 1);
    } else {
      assert s == Digits(a, xs);
      if xs != [] {
        ValueOfDigit(a, xs[|xs| - 1]);
      }
    }
  }

  lemma DecodeDigit(a: Alphabet, x: Sextet, s: string, d: Decoder)
    requires ValidDecoder(d)
    ensures Decode(a, [Digit(a, x)] + s, d) == Prepend(Completed(d, x), Decode(a, s, Advance(d, x)))
  {
    ValueOfDigit(a, x);
    assert ([Digit(a, x)] + s)[1..] == s;
  }

  /** The bytes completed by a run of digits, and the state after it. */
  function CompletedBy(d: Decoder, xs: seq<Sextet>): seq<Byte>
    requires ValidDecoder(d)
    decreases |xs|
  {
    if xs == [] then [] else Completed(d, xs[0]) + CompletedBy(Advance(d, xs[0]), xs[1..])
  }

  function AdvanceBy(d: Decoder, xs: seq<Sextet>): (r: Decoder)
    requires ValidDecoder(d)
    ensures ValidDecoder(r)
    decreases |xs|
  {
    if xs == [] then d else AdvanceBy(Advance(d, xs[0]), xs[1..])
  }

  lemma PrependNothing(rest: Option<seq<Byte>>)
    ensures Prepend([], rest) == rest
  {
    if rest.Some? {
      assert [] + rest.value == rest.value;
    }
  }

  lemma PrependTwice(a: seq<Byte>, b: seq<Byte>, rest: Option<seq<Byte>>)
    ensures Prepend(a, Prepend(b, rest)) == Prepend(a + b, rest)
  {
    if rest.Some? {
      assert a + (b + rest.value) == (a + b) + rest.value;
    }
  }

  lemma {:induction false} DecodeDigits(a: Alphabet, xs: seq<Sextet>, s: string, d: Decoder)
    requires ValidDecoder(d)
    ensures Decode(a, Digits(a, xs) + s, d) == Prepend(CompletedBy(d, xs), Decode(a, s, AdvanceBy(d, xs)))
    decreases |xs|
  {
    if xs == [] {
      assert Digits(a, xs) + s == s;
      PrependNothing(Decode(a, s, d));
    } else {
      assert Digits(a, xs) + s == [Digit(a, xs[0])] + (Digits(a, xs[1..]) + s);
      DecodeDigit(a, xs[0], Digits(a, xs[1..]) + s, d);
      DecodeDigits(a, xs[1..], s, Advance(d, xs[0]));
      PrependTwice(Completed(d, xs[0]), CompletedBy(Advance(d, xs[0]), xs[1..]), Decode(a, s, AdvanceBy(d, xs)));
    }
  }

  lemma ThreeBytesBack(b0: Byte, b1: Byte, b2: Byte)
    ensures b0 / 4 * 4 + (b0 % 4 * 16 + b1 / 16) / 16 == b0
    ensures (b0 % 4 * 16 + b1 / 16) % 16 * 16 + (b1 % 16 * 4 + b2 / 64) / 4 == b1
    ensures (b1 % 16 * 4 + b2 / 64) % 4 * 64 + b2 % 64 == b2
  {
  }

  lemma CompletedByCons(d: Decoder, x: Sextet, rest: seq<Sextet>)
    requires ValidDecoder(d)
    ensures CompletedBy(d, [x] + rest) == Completed(d, x) + CompletedBy(Advance(d, x), rest)
    ensures AdvanceBy(d, [x] + rest) == AdvanceBy(Advance(d, x), rest)
  {
  }

  /** The digits of up to three bytes and the bytes they complete, one equation a byte. */
  predicate GivesByte(high: Sextet, low: Sextet, place: nat, b: Byte) {
    match place
    case 1 => high * 4 + low / 16 == b
    case 2 => high % 16 * 16 + low / 4 == b
    case _ => high % 4 * 64 + low == b
  }

  lemma FirstByte(x0: Sextet, x1: Sextet, b: Byte)
    requires GivesByte(x0, x1, 1, b)
    ensures Completed(Decoder(1, x0, 0), x1) == [b] && Advance(Decoder(1, x0, 0), x1) == Decoder(2, x1 % 16, 0)
  {
  }

  lemma SecondByte(x1: Sextet, x2: Sextet, b: Byte)
    requires GivesByte(x1, x2, 2, b)
    ensures Completed(Decoder(2, x1 % 16, 0), x2) == [b] && Advance(Decoder(2, x1 % 16, 0), x2) == Decoder(3, x2 % 4, 0)
  {
  }

  lemma ThirdByte(x2: Sextet, x3: Sextet, b: Byte)
    requires GivesByte(x2, x3, 3, b)
    ensures Completed(Decoder(3, x2 % 4, 0), x3) == [b] && Advance(Decoder(3, x2 % 4, 0), x3) == START
  {
  }

  lemma StepCompletes(d: Decoder, d': Decoder, x: Sextet, b: Byte, rest: seq<Sextet>)
    requires ValidDecoder(d) && ValidDecoder(d') && Completed(d, x) == [b] && Advance(d, x) == d'
    ensures CompletedBy(d, [x] + rest) == [b] + CompletedBy(d', rest) && AdvanceBy(d, [x] + rest) == AdvanceBy(d', rest)
  {
    CompletedByCons(d, x, rest);
  }

  lemma StartCompletes(x: Sextet, rest: seq<Sextet>)
    ensures CompletedBy(START, [x] + rest) == CompletedBy(Decoder(1, x, 0), rest)
    ensures AdvanceBy(START, [x] + rest) == AdvanceBy(Decoder(1, x, 0), rest)
  {
    CompletedByCons(START, x, rest);
    assert [] + CompletedBy(Decoder(1, x, 0), rest) == CompletedBy(Decoder(1, x, 0), rest);
  }

  lemma FourAsCons<T>(a: T, b: T, c: T, d: T, rest: seq<T>)
    ensures [a, b, c, d] + rest == [a] + ([b] + ([c] + ([d] + rest)))
  {
  }

  lemma ThreeAsCons<T>(a: T, b: T, c: T, rest: seq<T>)
    ensures [a, b, c] + rest == [a] + ([b] + ([c] + rest))
  {
  }

  lemma TwoAsCons<T>(a: T, b: T, rest: seq<T>)
    ensures [a, b] + rest == [a] + ([b] + rest)
  {
  }

  /** Four digits of three bytes: the three bytes, and a decoder ready for the next group. */
  lemma DigitsComplete(x0: Sextet, x1: Sextet, x2: Sextet, x3: Sextet, b0: Byte, b1: Byte, b2: Byte, rest: seq<Sextet>)
    requires GivesByte(x0, x1, 1, b0) && GivesByte(x1, x2, 2, b1) && GivesByte(x2, x3, 3, b2)
    ensures CompletedBy(START, [x0, x1, x2, x3] + rest) == [b0, b1, b2] + CompletedBy(START, rest)
    ensures AdvanceBy(START, [x0, x1, x2, x3] + rest) == AdvanceBy(START, rest)
  {
    FourAsCons(x0, x1, x2, x3, rest);
    ThreeAsCons(b0, b1, b2, CompletedBy(START, rest));
    StartCompletes(x0, [x1] + ([x2] + ([x3] + rest)));
    FirstByte(x0, x1, b0);
    SecondByte(x1, x2, b1);
    ThirdByte(x2, x3, b2);
    StepCompletes(Decoder(1, x0, 0), Decoder(2, x1 % 16, 0), x1, b0, [x2] + ([x3] + rest));
    StepCompletes(Decoder(2, x1 % 16, 0), Decoder(3, x2 % 4, 0), x2, b1, [x3] + rest);
    StepCompletes(Decoder(3, x2 % 4, 0), START, x3, b2, rest);
  }

  /** Two digits of a single byte. */
  lemma OneByteCompletes(x0: Sextet, x1: Sextet, b0: Byte)
    requires GivesByte(x0, x1, 1, b0)
    ensures CompletedBy(START, [x0, x1]) == [b0] && AdvanceBy(START, [x0, x1]) == Decoder(2, x1 % 16, 0)
  {
    TwoAsCons(x0, x1, []);
    assert [x0, x1] + [] == [x0, x1];
    StartCompletes(x0, [x1] + []);
    FirstByte(x0, x1, b0);
    StepCompletes(Decoder(1, x0, 0), Decoder(2, x1 % 16, 0), x1, b0, []);
  }

  /** Three digits of two bytes. */
  lemma TwoBytesComplete(x0: Sextet, x1: Sextet, x2: Sextet, b0: Byte, b1: Byte)
    requires GivesByte(x0, x1, 1, b0) && GivesByte(x1, x2, 2, b1)
    ensures CompletedBy(START, [x0, x1, x2]) == [b0, b1] && AdvanceBy(START, [x0, x1, x2]) == Decoder(3, x2 % 4, 0)
  {
    ThreeAsCons(x0, x1, x2, []);
    assert [x0, x1, x2] + [] == [x0, x1, x2];
    StartCompletes(x0, [x1] + ([x2] + []));
    FirstByte(x0, x1, b0);
    SecondByte(x1, x2, b1);
    StepCompletes(Decoder(1, x0, 0), Decoder(2, x1 % 16, 0), x1, b0, [x2] + []);
    StepCompletes(Decoder(2, x1 % 16, 0), Decoder(3, x2 % 4, 0), x2, b1, []);
  }

  /** The digits are those of the bytes, group by group. */
  predicate Spells(xs: seq<Sextet>, bs: seq<Byte>) {
    match |bs|
    case 0 => xs == []
    case 1 => |xs| == 2 && GivesByte(xs[0], xs[1], 1, bs[0]) && xs[1] % 16 == 0
    case 2 => |xs| == 3 && GivesByte(xs[0], xs[1], 1, bs[0]) && GivesByte(xs[1], xs[2], 2, bs[1]) && xs[2] % 4 == 0
    case _ =>
      && |xs| >= 4 && GivesByte(xs[0], xs[1], 1, bs[0]) && GivesByte(xs[1], xs[2], 2, bs[1]) && GivesByte(xs[2], xs[3], 3, bs[2])
      && Spells(xs[4..], bs[3..])
  }

  lemma GroupSpells(b0: Byte, b1: Byte, b2: Byte)
    ensures var g := Group(b0, b1, b2); GivesByte(g[0], g[1], 1, b0) && GivesByte(g[1], g[2], 2, b1) && GivesByte(g[2], g[3], 3, b2)
  {
    ThreeBytesBack(b0, b1, b2);
  }

  lemma {:induction false} SextetsSpell(bs: seq<Byte>)
    ensures Spells(Sextets(bs), bs)
    decreases |bs|
  {
    if |bs| == 1 {
      ThreeBytesBack(bs[0], 0, 0);
    } else if |bs| == 2 {
      ThreeBytesBack(bs[0], bs[1], 0);
    } else if |bs| >= 3 {
      SextetsSpell(bs[3..]);
      GroupSpells(bs[0], bs[1], bs[2]);
      assert (Group(bs[0], bs[1], bs[2]) + Sextets(bs[3..]))[4..] == Sextets(bs[3..]);
    }
  }

  lemma FirstFour<T>(xs: seq<T>)
    requires |xs| >= 4
    ensures xs == [xs[0], xs[1], xs[2], xs[3]] + xs[4..]
  {
  }

  lemma FirstThree<T>(xs: seq<T>)
    requires |xs| >= 3
    ensures xs == [xs[0], xs[1], xs[2]] + xs[3..]
  {
  }

  lemma SpelledOne(xs: seq<Sextet>, bs: seq<Byte>)
    requires Spells(xs, bs) && |bs| == 1
    ensures CompletedBy(START, xs) == bs && AdvanceBy(START, xs) == Decoder(2, 0, 0)
  {
    OneByteCompletes(xs[0], xs[1], bs[0]);
    assert xs == [xs[0], xs[1]];
  }

  lemma SpelledTwo(xs: seq<Sextet>, bs: seq<Byte>)
    requires Spells(xs, bs) && |bs| == 2
    ensures CompletedBy(START, xs) == bs && AdvanceBy(START, xs) == Decoder(3, 0, 0)
  {
    TwoBytesComplete(xs[0], xs[1], xs[2], bs[0], bs[1]);
    assert xs == [xs[0], xs[1], xs[2]];
  }

  lemma SpelledGroup(xs: seq<Sextet>, bs: seq<Byte>)
    requires Spells(xs, bs) && |bs| >= 3
    ensures Spells(xs[4..], bs[3..])
    ensures CompletedBy(START, xs) == [bs[0], bs[1], bs[2]] + CompletedBy(START, xs[4..])
    ensures AdvanceBy(START, xs) == AdvanceBy(START, xs[4..])
  {
    FirstFour(xs);
    DigitsComplete(xs[0], xs[1], xs[2], xs[3], bs[0], bs[1], bs[2], xs[4..]);
  }

  /** The decoder completes exactly the bytes that its digits spell. */
  lemma {:induction false} SpelledBytes(xs: seq<Sextet>, bs: seq<Byte>)
    requires Spells(xs, bs)
    ensures CompletedBy(START, xs) == bs
    decreases |bs|
  {
    if |bs| == 1 {
      SpelledOne(xs, bs);
    } else if |bs| == 2 {
      SpelledTwo(xs, bs);
    } else if |bs| >= 3 {
      SpelledGroup(xs, bs);
      SpelledBytes(xs[4..], bs[3..]);
      FirstThree(bs);
    }
  }

  /** The state after the digits of so many bytes. */
  function After(bytes: nat): Decoder {
    if bytes < 3 then Decoder(if bytes == 0 then 0 else bytes + 1, 0, 0) else After(bytes - 3)
  }

  lemma {:induction false} AfterIsPlace(bytes: nat)
    ensures After(bytes) == Decoder(if bytes % 3 == 0 then 0 else bytes % 3 + 1, 0, 0)
  {
    if bytes >= 3 {
      AfterIsPlace(bytes - 3);
    }
  }

  lemma {:induction false} SpelledState(xs: seq<Sextet>, bs: seq<Byte>)
    requires Spells(xs, bs)
    ensures AdvanceBy(START, xs) == After(|bs|)
    decreases |bs|
  {
    if |bs| == 1 {
      SpelledOne(xs, bs);
    } else if |bs| == 2 {
      SpelledTwo(xs, bs);
    } else if |bs| >= 3 {
      SpelledGroup(xs, bs);
      SpelledState(xs[4..], bs[3..]);
    }
  }

  lemma SextetsComplete(bs: seq<Byte>)
    ensures CompletedBy(START, Sextets(bs)) == bs
    ensures AdvanceBy(START, Sextets(bs)) == Decoder(if |bs| % 3 == 0 then 0 else |bs| % 3 + 1, 0, 0)
  {
    SextetsSpell(bs);
    SpelledBytes(Sextets(bs), bs);
    SpelledState(Sextets(bs), bs);
    AfterIsPlace(|bs|);
  }

  /** The padding ends a group that has two or three digits. */
  lemma DecodePadding(a: Alphabet, left: nat)
    requires left < 3
    ensures Decode(a, Padding((3 - left) % 3), Decoder(if left == 0 then 0 else left + 1, 0, 0)) == Some([])
  {
  }

  /** Decoding the padded encoding, in either alphabet, gives the bytes back. */
  lemma DecodeEncode(a: Alphabet, bs: seq<Byte>)
    ensures Decode(a, Encode(a, bs), START) == Some(bs)
  {
    var xs, n := Sextets(bs), Lacking(|bs|);
    DecodeDigits(a, xs, Padding(n), START);
    SextetsComplete(bs);
    DecodePadding(a, |bs| % 3);
    assert bs + [] == bs;
  }

  lemma UnpaddedIsDigits(bs: seq<Byte>)
    ensures EncodeUnpadded(bs) == Digits(UrlSafe, Sextets(bs)) && |EncodeUnpadded(bs)| == DigitCount(|bs|)
  {
    StripOfDigits(UrlSafe, Sextets(bs), Lacking(|bs|));
    SextetsLength(bs);
  }

  lemma PaddingIsRestored(bs: seq<Byte>, s: string)
    requires s == Digits(UrlSafe, Sextets(bs)) && |s| == DigitCount(|bs|)
    ensures |s| % 4 != 1 && s + Padding(Missing(|s|)) == Encode(UrlSafe, bs)
  {
    PaddingFromLength(|bs|);
  }

  lemma DigitsArePlain(xs: seq<Sextet>)
    ensures forall i :: 0 <= i < |Digits(UrlSafe, xs)| ==>
      var c := Digits(UrlSafe, xs)[i]; c != '.' && c != '=' && c < 128 as char
  {
    forall i | 0 <= i < |xs|
      ensures var c := Digits(UrlSafe, xs)[i]; c != '.' && c != '=' && c < 128 as char
    {
      ValueOfDigit(UrlSafe, xs[i]);
    }
  }

  /** The URL-safe form without padding: the stripped text is the digits, and its
      decoder gives back every byte sequence. */
  lemma DecodeEncodeUnpadded(bs: seq<Byte>)
    ensures DecodeUnpadded(EncodeUnpadded(bs)) == Some(bs)
    ensures EncodeUnpadded(bs) + Padding(Missing(|EncodeUnpadded(bs)|)) == Encode(UrlSafe, bs)
    ensures |EncodeUnpadded(bs)| % 4 != 1
    ensures forall i :: 0 <= i < |EncodeUnpadded(bs)| ==>
      var c := EncodeUnpadded(bs)[i]; c != '.' && c != '=' && c < 128 as char
  {
    UnpaddedIsDigits(bs);
    PaddingIsRestored(bs, EncodeUnpadded(bs));
    DigitsArePlain(Sextets(bs));
    DecodeEncode(UrlSafe, bs);
  }

  /** The padded standard form is ASCII and has no '$', so it can end a record. */
  lemma StandardCharacters(bs: seq<Byte>)
    ensures forall i :: 0 <= i < |Encode(Standard, bs)| ==>
      var c := Encode(Standard, bs)[i]; c != '$' && c < 128 as char
  {
  }

  /** The decoder is lenient: a character outside the alphabet changes nothing, so
      a byte sequence has more than one accepted text. */
  lemma {:induction false} DecoderSkipsForeignCharacters(a: Alphabet, s: string, c: char, t: string, d: Decoder)
    requires ValidDecoder(d) && c != '=' && Value(a, c).None?
    ensures Decode(a, s + [c] + t, d) == Decode(a, s + t, d)
    decreases |s|
  {
    if s == "" {
      assert (s + [c] + t)[1..] == t && s + t == t;
    } else {
      assert (s + [c] + t)[1..] == s[1..] + [c] + t && (s + t)[1..] == s[1..] + t;
      if s[0] == '=' {
        if d.place < 2 {
          DecoderSkipsForeignCharacters(a, s[1..], c, t, d);
        } else if d.place + d.pads + 1 < 4 {
          DecoderSkipsForeignCharacters(a, s[1..], c, t, d.(pads := d.pads + 1));
        }
      } else {
        match Value(a, s[0])
        case None => DecoderSkipsForeignCharacters(a, s[1..], c, t, d);
        case Some(x) => DecoderSkipsForeignCharacters(a, s[1..], c, t, Advance(d, x));
      }
    }
  }
}
