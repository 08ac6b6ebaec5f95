/** Base64 spelled out: the digits of the two alphabets, and the number that each
    group of bytes shares with its digits (section 4 of RFC 4648). */
module Base64Text {
  import opened Options
  import opened Base64

  /** A..Z, a..z, 0..9, and the two digits in which the alphabets differ. */
  lemma DigitsAre(x: Sextet)
    ensures x < 26 ==> Digit(Standard, x) as int == 65 + x
    ensures 26 <= x < 52 ==> Digit(Standard, x) as int == 97 + (x - 26)
    ensures 52 <= x < 62 ==> Digit(Standard, x) as int == 48 + (x - 52)
    ensures x < 62 ==> Digit(UrlSafe, x) == Digit(Standard, x)
    ensures Digit(Standard, 62) == '+' && Digit(Standard, 63) == '/'
    ensures Digit(UrlSafe, 62) == '-' && Digit(UrlSafe, 63) == '_'
  {
  }

  lemma EncodeOne(a: Alphabet, b: Byte) returns (x: Sextet, y: Sextet)
    ensures Encode(a, [b]) == [Digit(a, x), Digit(a, y), '=', '=']
    ensures 64 * x + y == 16 * b
  {
    x, y := b / 4, b % 4 * 16;
    assert Sextets([b]) == [x, y];
  }

  lemma EncodeTwo(a: Alphabet, b: Byte, c: Byte) returns (x: Sextet, y: Sextet, z: Sextet)
    ensures Encode(a, [b, c]) == [Digit(a, x), Digit(a, y), Digit(a, z), '=']
    ensures 64 * (64 * x + y) + z == 4 * (256 * b + c)
  {
    x, y, z := b / 4, b % 4 * 16 + c / 16, c % 16 * 4;
    assert Sextets([b, c]) == [x, y, z];
  }

  lemma EncodeThree(a: Alphabet, b: Byte, c: Byte, d: Byte) returns (x: Sextet, y: Sextet, z: Sextet, w: Sextet)
    ensures Encode(a, [b, c, d]) == [Digit(a, x), Digit(a, y), Digit(a, z), Digit(a, w)]
    ensures 64 * (64 * (64 * x + y) + z) + w == 256 * (256 * b + c) + d
  {
    x, y, z, w := b / 4, b % 4 * 16 + c / 16, c % 16 * 4 + d / 64, d % 64;
    assert [b, c, d][3..] == [];
    assert Sextets([b, c, d]) == [x, y, z, w] + [];
  }

  /** The text of longer bytes is that of their groups of three, one after the other. */
  lemma EncodeGroups(a: Alphabet, b: Byte, c: Byte, d: Byte, rest: seq<Byte>)
    ensures Encode(a, [b, c, d] + rest) == Encode(a, [b, c, d]) + Encode(a, rest)
  {
    var bs := [b, c, d] + rest;
    assert bs[3..] == rest && [b, c, d][3..] == [];
    assert Lacking(|bs|) == Lacking(|rest|) && Lacking(3) == 0;
    assert Sextets([b, c, d]) == Group(b, c, d) + [] == Group(b, c, d);
    assert Digits(a, Sextets(bs)) == Digits(a, Group(b, c, d)) + Digits(a, Sextets(rest));
    assert Padding(0) == "" && Encode(a, [b, c, d]) == Digits(a, Group(b, c, d));
    assert Encode(a, bs) == (Digits(a, Group(b, c, d)) + Digits(a, Sextets(rest))) + Padding(Lacking(|rest|));
  }

  /** The unpadded text is the padded one without its signs. */
  lemma UnpaddedText(bs: seq<Byte>)
    ensures EncodeUnpadded(bs) <= Encode(UrlSafe, bs)
    ensures forall i :: |EncodeUnpadded(bs)| <= i < |Encode(UrlSafe, bs)| ==> Encode(UrlSafe, bs)[i] == '='
    ensures forall i :: 0 <= i < |EncodeUnpadded(bs)| ==> EncodeUnpadded(bs)[i] != '='
  {
    UnpaddedIsDigits(bs);
    DigitsArePlain(Sextets(bs));
  }

  /** What the decoder reads: the digits of both alphabets where the URL-safe one is
      asked for, those of the standard one otherwise. */
  lemma ValuesAre(a: Alphabet, c: char, x: Sextet)
    ensures Value(a, c) == Some(x) <==> c == Digit(Standard, x) || (a == UrlSafe && c == Digit(UrlSafe, x))
  {
  }
}
