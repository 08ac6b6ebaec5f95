/** The user token spelled out: its text, its payload, and which secrets accept it. */
module TokenText {
  import opened Options
  import opened Text
  import opened Numbers
  import opened Base64
  import opened Tokens

  lemma AssembledText(payloadToken: string, signature: string)
    ensures Assemble(payloadToken, signature) == "tucano.v1." + payloadToken + "." + signature
  {
    assert PREFIX + "." == "tucano.v1.";
  }

  /** The signature of a segment is the unpadded base64 text of its HMAC under the secret. */
  lemma SignatureIsHmac(env: Environment, apiToken: string, payloadToken: string)
    ensures env.Sign(apiToken, payloadToken) == EncodeUnpadded(env.hmac(apiToken, payloadToken))
    ensures DecodeUnpadded(env.Sign(apiToken, payloadToken)) == Some(env.hmac(apiToken, payloadToken))
  {
    DecodeEncodeUnpadded(env.hmac(apiToken, payloadToken));
  }

  lemma SignaturesEqualExactly(env: Environment, a: string, b: string, payloadToken: string)
    ensures env.Sign(a, payloadToken) == env.Sign(b, payloadToken) <==> env.hmac(a, payloadToken) == env.hmac(b, payloadToken)
  {
    SignatureIsHmac(env, a, payloadToken);
    SignatureIsHmac(env, b, payloadToken);
  }

  lemma SplitSigned(env: Environment, apiToken: string, payloadToken: string)
    requires Avoids(payloadToken, '.')
    ensures Split(Signed(env, apiToken, payloadToken), '.') == ["tucano", "v1", payloadToken, env.Sign(apiToken, payloadToken)]
  {
    SignatureCharacters(env, apiToken, payloadToken);
    AssembledParts(payloadToken, env.Sign(apiToken, payloadToken));
  }

  /** The payload segment of an issued token, and its text. */
  lemma IssuedToken(env: Environment, apiToken: string, ttlMinutes: int, id: string, username: string, t0: int)
    returns (payloadToken: string)
    requires env.ReadsAscii() && env.uuid(id) == Some(id)
    ensures payloadToken == EncodeUnpadded(Dumped(Expiry(t0, ttlMinutes), id, username))
    ensures Issue(env, apiToken, ttlMinutes, id, username, t0).token == Signed(env, apiToken, payloadToken)
    ensures ReadToken(env, payloadToken) == Read(Expiry(t0, ttlMinutes), id) && Ascii(payloadToken) && Avoids(payloadToken, '.')
  {
    payloadToken := IssuedPayload(env, Expiry(t0, ttlMinutes), id, username);
  }

  /** An issued token has the parts tucano, v1, payload and signature; the signature
      decodes to the HMAC of the payload segment under the secret. */
  lemma IssuedParts(env: Environment, apiToken: string, ttlMinutes: int, id: string, username: string, t0: int)
    requires env.ReadsAscii() && env.uuid(id) == Some(id)
    ensures var parts := Split(Issue(env, apiToken, ttlMinutes, id, username, t0).token, '.');
      && |parts| == 4 && parts[0] == "tucano" && parts[1] == "v1"
      && DecodeUnpadded(parts[3]) == Some(env.hmac(apiToken, parts[2]))
  {
    var p := IssuedToken(env, apiToken, ttlMinutes, id, username, t0);
    SplitSigned(env, apiToken, p);
    SignatureIsHmac(env, apiToken, p);
  }

  lemma DecodeUnder(env: Environment, a: string, b: string, payloadToken: string, exp: int, id: string, t: int)
    requires Ascii(payloadToken) && Avoids(payloadToken, '.') && ReadToken(env, payloadToken) == Read(exp, id)
    ensures DecodeToken(env, b, Signed(env, a, payloadToken), t) ==
      if t <= exp && env.hmac(a, payloadToken) == env.hmac(b, payloadToken) then User(id) else Rejected
  {
    SignatureCharacters(env, a, payloadToken);
    AssembledParts(payloadToken, env.Sign(a, payloadToken));
    SignaturesEqualExactly(env, a, b, payloadToken);
  }

  /** A token issued under one secret names its user under another exactly while it
      lives and only if both secrets give its payload segment the same HMAC. */
  lemma AcceptedUnderSecretExactly(env: Environment, a: string, b: string, ttlMinutes: int, id: string, username: string, t0: int, t: int)
    requires env.ReadsAscii() && env.uuid(id) == Some(id)
    ensures var token := Issue(env, a, ttlMinutes, id, username, t0).token;
      && |Split(token, '.')| == 4
      && var p := Split(token, '.')[2];
      DecodeToken(env, b, token, t) ==
        if t <= t0 + ttlMinutes * 60 && env.hmac(a, p) == env.hmac(b, p) then User(id) else Rejected
  {
    var p := IssuedToken(env, a, ttlMinutes, id, username, t0);
    SplitSigned(env, a, p);
    DecodeUnder(env, a, b, p, Expiry(t0, ttlMinutes), id, t);
  }

  lemma PayloadJson(env: Environment, exp: int, id: string, username: string)
    requires env.ReadsAscii()
    ensures DecodeUnpadded(EncodeUnpadded(Dumped(exp, id, username))) == Some(Dumped(exp, id, username))
    ensures env.text(Dumped(exp, id, username)).Some?
    ensures Json.Loads(env.text(Dumped(exp, id, username)).value) == Some(Payload(exp, id, username))
  {
    var v := Payload(exp, id, username);
    DecodeEncodeUnpadded(Dumped(exp, id, username));
    Json.DumpPrintable(v);
    Json.DumpStart(v);
    Json.LoadsDump(v);
  }

  /** The third part of an issued token decodes to a JSON object with the expiry, the
      id and the name. */
  lemma IssuedJson(env: Environment, apiToken: string, ttlMinutes: int, id: string, username: string, t0: int)
    requires env.ReadsAscii() && env.uuid(id) == Some(id)
    ensures var parts := Split(Issue(env, apiToken, ttlMinutes, id, username, t0).token, '.');
      && |parts| == 4
      && var bytes := DecodeUnpadded(parts[2]);
      && bytes.Some? && env.text(bytes.value).Some?
      && Json.Loads(env.text(bytes.value).value) == Some(Json.Object([
           Json.Member("exp", Json.Int(t0 + ttlMinutes * 60)), Json.Member("sub", Json.Str(id)), Json.Member("username", Json.Str(username))]))
  {
    var p := IssuedToken(env, apiToken, ttlMinutes, id, username, t0);
    SplitSigned(env, apiToken, p);
    PayloadJson(env, Expiry(t0, ttlMinutes), id, username);
    PayloadFields(t0, ttlMinutes, id, username);
  }

  lemma PayloadFields(t0: int, ttlMinutes: int, id: string, username: string)
    ensures Payload(Expiry(t0, ttlMinutes), id, username) == Json.Object([
      Json.Member("exp", Json.Int(t0 + ttlMinutes * 60)), Json.Member("sub", Json.Str(id)), Json.Member("username", Json.Str(username))])
  {
  }

  ghost predicate SevenBit(s: string) {
    forall i :: 0 <= i < |s| ==> s[i] as int < 128
  }

  /** What the decoder makes of any four parts with the prefix: it raises on text that
      is not ASCII, rejects every signature but the HMAC of the payload segment, and
      otherwise goes by what the segment reads as. */
  lemma DecodedExactly(env: Environment, apiToken: string, payloadToken: string, signature: string, t: int)
    requires Avoids(payloadToken, '.') && Avoids(signature, '.')
    ensures DecodeToken(env, apiToken, "tucano.v1." + payloadToken + "." + signature, t) ==
      if !SevenBit(payloadToken) || !SevenBit(signature) then Raised
      else if signature != EncodeUnpadded(env.hmac(apiToken, payloadToken)) then Rejected
      else match ReadToken(env, payloadToken)
        case Refused => Rejected
        case Escapes => Raised
        case Read(exp, id) => if t <= exp then User(id) else Rejected
  {
    AssembledText(payloadToken, signature);
    AssembledParts(payloadToken, signature);
    assert Ascii(payloadToken) <==> SevenBit(payloadToken);
    assert Ascii(signature) <==> SevenBit(signature);
  }

  /** Every other text is rejected. */
  lemma OthersAreRejected(env: Environment, apiToken: string, token: string, t: int)
    requires forall p, s :: Avoids(p, '.') && Avoids(s, '.') ==> token != "tucano.v1." + p + "." + s
    ensures DecodeToken(env, apiToken, token, t) == Rejected
  {
    var parts := Split(token, '.');
    if |parts| == 4 && Join(parts[..2], '.') == PREFIX {
      PartsAssemble(token);
      AssembledText(parts[2], parts[3]);
    }
  }

  // ----- What a payload reads as -----

  /** The last member with this key. */
  ghost predicate LastMember(members: seq<Json.Member>, key: string, v: Json.Value) {
    exists i :: 0 <= i < |members| && members[i] == Json.Member(key, v) && forall j :: i < j < |members| ==> members[j].key != key
  }

  lemma {:induction false} FieldExactly(members: seq<Json.Member>, key: string, v: Json.Value)
    ensures Field(members, key) == Some(v) <==> LastMember(members, key, v)
  {
    if members != [] {
      var m, rest := members[0], members[1..];
      FieldExactly(rest, key, v);
      if LastMember(rest, key, v) {
        var i :| 0 <= i < |rest| && rest[i] == Json.Member(key, v) && forall j :: i < j < |rest| ==> rest[j].key != key;
        assert members[i + 1] == Json.Member(key, v);
        assert forall j :: i + 1 < j < |members| ==> members[j] == rest[j - 1];
      }
      if Field(rest, key).None? {
        NoField(rest, key);
      }
      if LastMember(members, key, v) {
        var i :| 0 <= i < |members| && members[i] == Json.Member(key, v) && forall j :: i < j < |members| ==> members[j].key != key;
        if i > 0 {
          assert rest[i - 1] == members[i] && forall j :: i - 1 < j < |rest| ==> rest[j] == members[j + 1];
        } else {
          assert forall j :: 0 <= j < |rest| ==> rest[j] == members[j + 1];
          NoField(rest, key);
        }
      }
    }
  }

  lemma {:induction false} NoField(members: seq<Json.Member>, key: string)
    ensures Field(members, key).None? <==> forall j :: 0 <= j < |members| ==> members[j].key != key
  {
    if members != [] {
      NoField(members[1..], key);
      assert forall j :: 0 <= j < |members[1..]| ==> members[1..][j] == members[j + 1];
    }
  }

  /** What int() makes of an expiry. */
  predicate ReadsAs(env: Environment, e: Json.Value, exp: int) {
    || e == Json.Int(exp)
    || (e == Json.Bool(true) && exp == 1) || (e == Json.Bool(false) && exp == 0)
    || (e.Str? && ParseInt(e.s) == Some(exp))
    || (e.Float? && e.text != "NaN" && env.truncate(e.text) == Some(exp))
  }

  predicate NamesUser(env: Environment, u: Json.Value, id: string) {
    env.uuid(if u.Str? then u.s else env.str(u)) == Some(id)
  }

  /** A payload reads as an expiry and an id exactly when its text is a JSON object
      whose last "exp" and last "sub" do. */
  lemma ReadPayloadExactly(env: Environment, bytes: seq<Byte>, exp: int, id: string)
    ensures ReadPayload(env, bytes) == Read(exp, id) <==>
      && env.text(bytes).Some? && Json.Loads(env.text(bytes).value).Some? && Json.Loads(env.text(bytes).value).value.Object?
      && exists e, u :: ReadsAs(env, e, exp) && NamesUser(env, u, id) &&
           LastMember(Json.Loads(env.text(bytes).value).value.members, "exp", e) &&
           LastMember(Json.Loads(env.text(bytes).value).value.members, "sub", u)
  {
    if env.text(bytes).Some? && Json.Loads(env.text(bytes).value).Some? && Json.Loads(env.text(bytes).value).value.Object? {
      ReadFieldsExactly(env, Json.Loads(env.text(bytes).value).value.members, exp, id);
    }
  }

  function ReadMembers(env: Environment, members: seq<Json.Member>): Reading {
    match Field(members, "exp")
    case Some(exp) => ReadExp(env, exp, Field(members, "sub"))
    case None => Refused
  }

  /** int() raises outside what the decoder catches exactly for an infinite last "exp". */
  lemma EscapesExactly(env: Environment, bytes: seq<Byte>)
    ensures ReadPayload(env, bytes) == Escapes <==>
      && env.text(bytes).Some? && Json.Loads(env.text(bytes).value).Some? && Json.Loads(env.text(bytes).value).value.Object?
      && exists number :: number != "NaN" && env.truncate(number) == None &&
           LastMember(Json.Loads(env.text(bytes).value).value.members, "exp", Json.Float(number))
  {
    if env.text(bytes).Some? && Json.Loads(env.text(bytes).value).Some? && Json.Loads(env.text(bytes).value).value.Object? {
      MembersEscapeExactly(env, Json.Loads(env.text(bytes).value).value.members);
    }
  }

  lemma MembersEscapeExactly(env: Environment, members: seq<Json.Member>)
    ensures ReadMembers(env, members) == Escapes <==>
      exists number :: number != "NaN" && env.truncate(number) == None && LastMember(members, "exp", Json.Float(number))
  {
    if Field(members, "exp").Some? {
      FieldExactly(members, "exp", Field(members, "exp").value);
    }
    forall number | number != "NaN" && env.truncate(number) == None && LastMember(members, "exp", Json.Float(number))
      ensures ReadMembers(env, members) == Escapes
    {
      FieldExactly(members, "exp", Json.Float(number));
    }
  }

  lemma ReadFieldsExactly(env: Environment, members: seq<Json.Member>, exp: int, id: string)
    ensures ReadMembers(env, members) == Read(exp, id) <==>
      exists e, u :: ReadsAs(env, e, exp) && NamesUser(env, u, id) && LastMember(members, "exp", e) && LastMember(members, "sub", u)
  {
    if Field(members, "exp").Some? && Field(members, "sub").Some? {
      var e, u := Field(members, "exp").value, Field(members, "sub").value;
      FieldExactly(members, "exp", e);
      FieldExactly(members, "sub", u);
      ReadExactly(env, e, u, exp, id);
    }
    forall e, u | ReadsAs(env, e, exp) && NamesUser(env, u, id) && LastMember(members, "exp", e) && LastMember(members, "sub", u)
      ensures ReadMembers(env, members) == Read(exp, id)
    {
      FieldExactly(members, "exp", e);
      FieldExactly(members, "sub", u);
      ReadExactly(env, e, u, exp, id);
    }
  }

  lemma ReadExactly(env: Environment, e: Json.Value, u: Json.Value, exp: int, id: string)
    ensures ReadExp(env, e, Some(u)) == Read(exp, id) <==> ReadsAs(env, e, exp) && NamesUser(env, u, id)
  {
  }
}
