/** app/api/auth.py: the stored form of a password. */
module Passwords {
  import opened Text
  import opened Numbers
  import opened Base64
  import opened Tokens

  const ALGORITHM := "pbkdf2_sha256"
  const ITERATIONS := 600000

  /** PBKDF2-HMAC-SHA256 of a password, a salt and an iteration count, taken as given. */
  type Kdf = (string, string, int) -> seq<Byte>

  datatype Answer = Yes | No | Error

  // ----- The record -----

  function Record(algorithm: string, iterations: string, salt: string, digest: string): string {
    Join([algorithm, iterations, salt, digest], '$')
  }

  /** gerar_hash_senha, for a given salt. */
  function HashPassword(kdf: Kdf, password: string, salt: string): string {
    Record(ALGORITHM, Decimal(ITERATIONS), salt, Encode(Standard, kdf(password, salt, ITERATIONS)))
  }

  /** The iteration counts the key derivation accepts; it raises on the others,
      and verificar_senha does not catch that. */
  predicate KdfAccepts(iterations: int) {
    1 <= iterations <= 0x7fff_ffff
  }

  /** verificar_senha. compare_digest raises on text that is not ASCII. */
  function VerifyPassword(kdf: Kdf, password: string, record: string): Answer {
    var parts := SplitAtMost(record, '$', 3);
    if |parts| != 4 then No
    else match ParseInt(parts[1])
      case None => No
      case Some(iterations) =>
        if parts[0] != ALGORITHM then No
        else if !KdfAccepts(iterations) || !Ascii(parts[3]) then Error
        else if Encode(Standard, kdf(password, parts[2], iterations)) == parts[3] then Yes
        else No
  }

  lemma RecordParts(algorithm: string, iterations: string, salt: string, digest: string)
    requires Avoids(algorithm, '$') && Avoids(iterations, '$') && Avoids(salt, '$')
    ensures SplitAtMost(Record(algorithm, iterations, salt, digest), '$', 3) == [algorithm, iterations, salt, digest]
  {
    SplitAtMostJoin([algorithm, iterations, salt, digest], '$');
  }

  lemma EncodeIsInjective(a: Alphabet, bs: seq<Byte>, cs: seq<Byte>)
    requires Encode(a, bs) == Encode(a, cs)
    ensures bs == cs
  {
    DecodeEncode(a, bs);
    DecodeEncode(a, cs);
  }

  /** What verificar_senha answers for a well-formed record. */
  lemma VerifyRecord(kdf: Kdf, password: string, iterations: string, salt: string, key: seq<Byte>)
    requires Avoids(iterations, '$') && Avoids(salt, '$')
    requires ParseInt(iterations).Some? && KdfAccepts(ParseInt(iterations).value)
    ensures VerifyPassword(kdf, password, Record(ALGORITHM, iterations, salt, Encode(Standard, key))) ==
      if kdf(password, salt, ParseInt(iterations).value) == key then Yes else No
  {
    RecordParts(ALGORITHM, iterations, salt, Encode(Standard, key));
    StandardCharacters(key);
    var derived := kdf(password, salt, ParseInt(iterations).value);
    if Encode(Standard, derived) == Encode(Standard, key) {
      EncodeIsInjective(Standard, derived, key);
    }
  }

  /** A record made for one password verifies another exactly when the key
      derivation gives both the same key under its salt. */
  lemma VerifyHashed(kdf: Kdf, password: string, other: string, salt: string)
    requires Avoids(salt, '$')
    ensures VerifyPassword(kdf, other, HashPassword(kdf, password, salt)) ==
      if kdf(other, salt, ITERATIONS) == kdf(password, salt, ITERATIONS) then Yes else No
  {
    ParseOfDecimal(ITERATIONS);
    VerifyRecord(kdf, other, Decimal(ITERATIONS), salt, kdf(password, salt, ITERATIONS));
  }

  ghost predicate Verifies(kdf: Kdf, password: string, record: string, iterations: string, salt: string) {
    && Avoids(iterations, '$') && Avoids(salt, '$')
    && ParseInt(iterations).Some? && KdfAccepts(ParseInt(iterations).value)
    && record == Record(ALGORITHM, iterations, salt, Encode(Standard, kdf(password, salt, ParseInt(iterations).value)))
  }

  /** The records a password verifies against, all of them: the algorithm name, a
      text that int() reads as an accepted count, a salt, and the base64 text of
      the derived key. */
  lemma VerifiedExactly(kdf: Kdf, password: string, record: string)
    ensures VerifyPassword(kdf, password, record) == Yes <==>
      exists iterations, salt :: Verifies(kdf, password, record, iterations, salt)
  {
    if VerifyPassword(kdf, password, record) == Yes {
      var parts := SplitAtMost(record, '$', 3);
      JoinSplitAtMost(record, '$', 3);
      assert parts == [ALGORITHM, parts[1], parts[2], parts[3]];
      assert Verifies(kdf, password, record, parts[1], parts[2]);
    }
    forall iterations, salt | Verifies(kdf, password, record, iterations, salt)
      ensures VerifyPassword(kdf, password, record) == Yes
    {
      VerifyRecord(kdf, password, iterations, salt, kdf(password, salt, ParseInt(iterations).value));
    }
  }

  /** A record on which verificar_senha raises: the count is outside the range of the
      key derivation, or it is inside and the digest is not ASCII. */
  predicate Raising(iterations: string, digest: string) {
    ParseInt(iterations).Some? && (!KdfAccepts(ParseInt(iterations).value) || !Ascii(digest))
  }

  ghost predicate RaisingRecord(record: string, iterations: string, salt: string, digest: string) {
    && Avoids(iterations, '$') && Avoids(salt, '$')
    && record == Record(ALGORITHM, iterations, salt, digest) && Raising(iterations, digest)
  }

  /** verificar_senha raises instead of answering exactly on the records of its own
      algorithm whose count or digest the library functions refuse, whatever the
      password. */
  lemma RaisesExactly(kdf: Kdf, password: string, record: string)
    ensures VerifyPassword(kdf, password, record) == Error <==>
      exists iterations, salt, digest :: RaisingRecord(record, iterations, salt, digest)
  {
    if VerifyPassword(kdf, password, record) == Error {
      var parts := SplitAtMost(record, '$', 3);
      JoinSplitAtMost(record, '$', 3);
      assert parts == [ALGORITHM, parts[1], parts[2], parts[3]];
      assert RaisingRecord(record, parts[1], parts[2], parts[3]);
    }
    forall iterations, salt, digest | RaisingRecord(record, iterations, salt, digest)
      ensures VerifyPassword(kdf, password, record) == Error
    {
      RecordParts(ALGORITHM, iterations, salt, digest);
    }
  }

  /** Two such records: a count of zero, and a digest that is not ASCII. */
  lemma ZeroCountRaises(kdf: Kdf, password: string, salt: string, digest: string)
    requires Avoids(salt, '$')
    ensures VerifyPassword(kdf, password, Record(ALGORITHM, "0", salt, digest)) == Error
  {
    ParseOfDecimal(0);
    assert Decimal(0) == "0";
    assert RaisingRecord(Record(ALGORITHM, "0", salt, digest), "0", salt, digest);
    RaisesExactly(kdf, password, Record(ALGORITHM, "0", salt, digest));
  }

  lemma NonAsciiDigestRaises(kdf: Kdf, password: string, salt: string)
    requires Avoids(salt, '$')
    ensures VerifyPassword(kdf, password, Record(ALGORITHM, Decimal(ITERATIONS), salt, "\U{e9}")) == Error
  {
    ParseOfDecimal(ITERATIONS);
    assert "\U{e9}"[0] >= 128 as char;
    assert RaisingRecord(Record(ALGORITHM, Decimal(ITERATIONS), salt, "\U{e9}"), Decimal(ITERATIONS), salt, "\U{e9}");
    RaisesExactly(kdf, password, Record(ALGORITHM, Decimal(ITERATIONS), salt, "\U{e9}"));
  }

  // ----- Records, spelled out -----

  lemma {:induction false} DecimalOf600000()
    ensures Decimal(600000) == "600000"
  {
    assert Decimal(6) == "6";
    assert Decimal(60) == Decimal(6) + "0";
    assert Decimal(600) == Decimal(60) + "0";
    assert Decimal(6000) == Decimal(600) + "0";
    assert Decimal(60000) == Decimal(6000) + "0";
    assert Decimal(600000) == Decimal(60000) + "0";
  }

  lemma RecordText(algorithm: string, iterations: string, salt: string, digest: string)
    ensures Record(algorithm, iterations, salt, digest) == algorithm + "$" + iterations + "$" + salt + "$" + digest
  {
    JoinOfFour(algorithm, iterations, salt, digest, '$');
    assert algorithm + ['$'] + (iterations + ['$'] + (salt + ['$'] + digest)) == algorithm + "$" + iterations + "$" + salt + "$" + digest;
  }

  /** The text of a new record. */
  lemma HashText(kdf: Kdf, password: string, salt: string)
    ensures HashPassword(kdf, password, salt) ==
      "pbkdf2_sha256$600000$" + salt + "$" + Encode(Standard, kdf(password, salt, 600000))
  {
    var digest := Encode(Standard, kdf(password, salt, 600000));
    DecimalOf600000();
    RecordText("pbkdf2_sha256", "600000", salt, digest);
    assert "pbkdf2_sha256" + "$" + "600000" + "$" == "pbkdf2_sha256$600000$";
    assert "pbkdf2_sha256" + "$" + "600000" + "$" + salt + "$" + digest == "pbkdf2_sha256$600000$" + salt + "$" + digest;
  }

  /** The answer for a record with any count: yes or no by the derived key when the
      count is from 1 to 2^31 - 1, and an exception otherwise. */
  lemma VerifyCounted(kdf: Kdf, password: string, n: nat, salt: string, key: seq<Byte>)
    requires Avoids(salt, '$')
    ensures VerifyPassword(kdf, password, "pbkdf2_sha256" + "$" + Decimal(n) + "$" + salt + "$" + Encode(Standard, key)) ==
      if n < 1 || n > 0x7fff_ffff then Error else if kdf(password, salt, n) == key then Yes else No
  {
    ParseOfDecimal(n);
    RecordText("pbkdf2_sha256", Decimal(n), salt, Encode(Standard, key));
    if KdfAccepts(n) {
      VerifyRecord(kdf, password, Decimal(n), salt, key);
    } else {
      RecordParts("pbkdf2_sha256", Decimal(n), salt, Encode(Standard, key));
    }
  }

  /** A record of any other algorithm is answered no, whatever it holds. */
  lemma OtherAlgorithm(kdf: Kdf, password: string, algorithm: string, rest: string)
    requires Avoids(algorithm, '$') && algorithm != "pbkdf2_sha256"
    ensures VerifyPassword(kdf, password, algorithm + "$" + rest) == No
  {
    SplitAtMostFirst(algorithm, '$', rest, 3);
    assert algorithm + "$" + rest == algorithm + ['$'] + rest;
  }
}
