/** app/api/auth.py: the signed user token. */
module Tokens {
  import opened Options
  import opened Text
  import opened Numbers
  import Json
  import opened Base64

  const PREFIX := "tucano.v1"

  /** What the decoder makes of the bytes of a payload: expiry and user id, one of
      the exceptions it catches, or OverflowError, which it does not. */
  datatype Reading = Read(exp: int, id: string) | Refused | Escapes

  /** What is taken as given: HMAC-SHA256 of a text under a key, the text that
      json.loads reads from bytes (None when they are not decodable), int() of a
      float (None when it is infinite), str() of a value that is not a text, and
      the canonical text of UUID(text) (None when it raises). */
  datatype Environment = Environment(
    hmac: (string, string) -> seq<Byte>,
    text: seq<Byte> -> Option<string>,
    truncate: string -> Option<int>,
    str: Json.Value -> string,
    uuid: string -> Option<string>)
  {
    /** ASCII bytes are read as their characters. */
    ghost predicate ReadsAscii() {
      forall s :: Json.Printable(s) && s != "" ==> text(AsciiBytes(s)) == Some(s)
    }

    function Sign(apiToken: string, payloadToken: string): string {
      EncodeUnpadded(hmac(apiToken, payloadToken))
    }
  }

  datatype Outcome = User(id: string) | Rejected | Raised

  predicate Ascii(s: string) {
    forall i :: 0 <= i < |s| ==> s[i] < 128 as char
  }

  /** encode("utf-8") of ASCII text. */
  function AsciiBytes(s: string): (bs: seq<Byte>)
    requires Json.Printable(s)
  {
    seq(|s|, i requires 0 <= i < |s| => s[i] as Byte)
  }

  // ----- The payload -----

  /** The dictionary with its keys sorted. */
  function Payload(exp: int, id: string, username: string): Json.Value {
    Json.Object([Json.Member("exp", Json.Int(exp)), Json.Member("sub", Json.Str(id)), Json.Member("username", Json.Str(username))])
  }

  function Dumped(exp: int, id: string, username: string): seq<Byte> {
    Json.DumpPrintable(Payload(exp, id, username));
    AsciiBytes(Json.Dump(Payload(exp, id, username)))
  }

  /** payload[key]: of equal keys the last one counts. */
  function Field(members: seq<Json.Member>, key: string): Option<Json.Value> {
    if members == [] then None
    else match Field(members[1..], key)
      case Some(v) => Some(v)
      case None => if members[0].key == key then Some(members[0].value) else None
  }

  /** int(payload["exp"]), and then UUID(str(payload["sub"])). */
  function ReadExp(env: Environment, exp: Json.Value, sub: Option<Json.Value>): Reading {
    match exp
    case Int(n) => ReadSub(env, n, sub)
    case Bool(b) => ReadSub(env, if b then 1 else 0, sub)
    case Str(s) => (match ParseInt(s) case Some(n) => ReadSub(env, n, sub) case None => Refused)
    case Float(text) =>
      if text == "NaN" then Refused
      else (match env.truncate(text) case Some(n) => ReadSub(env, n, sub) case None => Escapes)
    case _ => Refused
  }

  function ReadSub(env: Environment, exp: int, sub: Option<Json.Value>): Reading {
    match sub
    case None => Refused
    case Some(v) =>
      match env.uuid(if v.Str? then v.s else env.str(v))
      case Some(id) => Read(exp, id)
      case None => Refused
  }

  function ReadPayload(env: Environment, bytes: seq<Byte>): Reading {
    match env.text(bytes)
    case None => Refused
    case Some(text) =>
      match Json.Loads(text)
      case Some(Object(members)) =>
        (match Field(members, "exp")
         case Some(exp) => ReadExp(env, exp, Field(members, "sub"))
         case None => Refused)
      case _ => Refused
  }

  lemma FieldCons(m: Json.Member, rest: seq<Json.Member>, key: string)
    ensures Field([m] + rest, key) ==
      if Field(rest, key).Some? then Field(rest, key) else if m.key == key then Some(m.value) else None
  {
    assert ([m] + rest)[1..] == rest;
  }

  lemma FieldsOfPayload(exp: int, id: string, username: string)
    ensures Field(Payload(exp, id, username).members, "exp") == Some(Json.Int(exp))
    ensures Field(Payload(exp, id, username).members, "sub") == Some(Json.Str(id))
  {
    var e, s, u := Json.Member("exp", Json.Int(exp)), Json.Member("sub", Json.Str(id)), Json.Member("username", Json.Str(username));
    assert [e, s, u] == [e] + ([s] + ([u] + []));
    assert "exp"[0] == 'e' && "sub"[0] == 's' && |"username"| == 8 && |"exp"| == 3 && |"sub"| == 3;
    FieldCons(u, [], "exp");
    FieldCons(s, [u] + [], "exp");
    FieldCons(e, [s] + ([u] + []), "exp");
    FieldCons(u, [], "sub");
    FieldCons(s, [u] + [], "sub");
    FieldCons(e, [s] + ([u] + []), "sub");
  }

  /** The decoder reads back what gerar_token_usuario wrote, whatever the username. */
  lemma ReadsDumped(env: Environment, exp: int, id: string, username: string)
    requires env.ReadsAscii() && env.uuid(id) == Some(id)
    ensures ReadPayload(env, Dumped(exp, id, username)) == Read(exp, id)
  {
    var v := Payload(exp, id, username);
    Json.DumpPrintable(v);
    Json.DumpStart(v);
    Json.LoadsDump(v);
    FieldsOfPayload(exp, id, username);
  }

  // ----- The token -----

  function Assemble(payloadToken: string, signature: string): string {
    PREFIX + "." + payloadToken + "." + signature
  }

  function Expiry(t0: int, ttlMinutes: int): int {
    t0 + ttlMinutes * 60
  }

  datatype Issued = Issued(token: string, expiresIn: int)

  function Signed(env: Environment, apiToken: string, payloadToken: string): string {
    Assemble(payloadToken, env.Sign(apiToken, payloadToken))
  }

  /** gerar_token_usuario at integer time t0: the token and its life in seconds. */
  function Issue(env: Environment, apiToken: string, ttlMinutes: int, id: string, username: string, t0: int): Issued {
    Issued(Signed(env, apiToken, EncodeUnpadded(Dumped(Expiry(t0, ttlMinutes), id, username))), ttlMinutes * 60)
  }

  /** _decodificar_token_usuario at integer time t. Text that is not ASCII reaches
      encode("ascii") and compare_digest outside the try block. */
  function DecodeToken(env: Environment, apiToken: string, token: string, t: int): Outcome {
    var parts := Split(token, '.');
    if |parts| != 4 || Join(parts[..2], '.') != PREFIX then Rejected
    else if !Ascii(parts[2]) || !Ascii(parts[3]) then Raised
    else if env.Sign(apiToken, parts[2]) != parts[3] then Rejected
    else match ReadToken(env, parts[2])
      case Refused => Rejected
      case Escapes => Raised
      case Read(exp, id) => if exp < t then Rejected else User(id)
  }

  /** What a payload segment reads as. */
  function ReadToken(env: Environment, payloadToken: string): Reading {
    match DecodeUnpadded(payloadToken)
    case None => Refused
    case Some(bytes) => ReadPayload(env, bytes)
  }

  lemma AssembledParts(payloadToken: string, signature: string)
    requires Avoids(payloadToken, '.') && Avoids(signature, '.')
    ensures Split(Assemble(payloadToken, signature), '.') == ["tucano", "v1", payloadToken, signature]
    ensures Join(["tucano", "v1", payloadToken, signature][..2], '.') == PREFIX
  {
    var parts := ["tucano", "v1", payloadToken, signature];
    JoinOfFour("tucano", "v1", payloadToken, signature, '.');
    assert Join(parts, '.') == Assemble(payloadToken, signature);
    SplitJoin(parts, '.');
    JoinOfTwo("tucano", "v1", '.');
    assert parts[..2] == ["tucano", "v1"];
  }

  lemma Regrouped(a: string, b: string, c: string, d: string)
    ensures a + ['.'] + (b + ['.'] + (c + ['.'] + d)) == (a + ['.'] + b) + "." + c + "." + d
  {
  }

  /** A text with four parts and the right prefix is assembled from the last two. */
  lemma PartsAssemble(token: string)
    requires |Split(token, '.')| == 4 && Join(Split(token, '.')[..2], '.') == PREFIX
    ensures var parts := Split(token, '.');
      token == Assemble(parts[2], parts[3]) && Avoids(parts[2], '.') && Avoids(parts[3], '.')
  {
    var parts := Split(token, '.');
    var a, b, c, d := parts[0], parts[1], parts[2], parts[3];
    JoinSplit(token, '.');
    assert parts == [a, b, c, d] && parts[..2] == [a, b];
    JoinOfTwo(a, b, '.');
    JoinOfFour(a, b, c, d, '.');
    Regrouped(a, b, c, d);
  }

  /** A payload segment is worth the user's id at time t. */
  predicate Grants(env: Environment, payloadToken: string, id: string, t: int) {
    var r := ReadToken(env, payloadToken);
    r.Read? && r.id == id && t <= r.exp
  }

  /** What the decoder answers for a text with the right prefix and four parts. */
  lemma DecodeAssembled(env: Environment, apiToken: string, payloadToken: string, signature: string, t: int)
    requires Avoids(payloadToken, '.') && Avoids(signature, '.')
    ensures var r := DecodeToken(env, apiToken, Assemble(payloadToken, signature), t);
      && (r == Raised <==>
           !Ascii(payloadToken) || !Ascii(signature) ||
           (signature == env.Sign(apiToken, payloadToken) && ReadToken(env, payloadToken) == Escapes))
      && forall id :: r == User(id) <==>
           Ascii(payloadToken) && signature == env.Sign(apiToken, payloadToken) && Grants(env, payloadToken, id, t)
  {
    AssembledParts(payloadToken, signature);
    SignatureCharacters(env, apiToken, payloadToken);
  }

  lemma SignatureCharacters(env: Environment, apiToken: string, payloadToken: string)
    ensures Ascii(env.Sign(apiToken, payloadToken)) && Avoids(env.Sign(apiToken, payloadToken), '.')
  {
    DecodeEncodeUnpadded(env.hmac(apiToken, payloadToken));
  }

  /** The decoder returns an id for exactly these texts: the prefix, an ASCII
      payload segment that grants the id at that time, and its signature. */
  lemma AcceptedExactly(env: Environment, apiToken: string, token: string, t: int, id: string)
    ensures DecodeToken(env, apiToken, token, t) == User(id) <==>
      exists p :: Avoids(p, '.') && Ascii(p) && Grants(env, p, id, t) && token == Assemble(p, env.Sign(apiToken, p))
  {
    if DecodeToken(env, apiToken, token, t) == User(id) {
      PartsAssemble(token);
      var parts := Split(token, '.');
      DecodeAssembled(env, apiToken, parts[2], parts[3], t);
    }
    forall p | Avoids(p, '.') && Ascii(p) && Grants(env, p, id, t) && token == Assemble(p, env.Sign(apiToken, p))
      ensures DecodeToken(env, apiToken, token, t) == User(id)
    {
      SignatureCharacters(env, apiToken, p);
      DecodeAssembled(env, apiToken, p, env.Sign(apiToken, p), t);
    }
  }

  /** Each payload segment has one accepted text. */
  lemma OneTokenPerPayload(env: Environment, apiToken: string, token: string, token': string, t: int, t': int)
    requires DecodeToken(env, apiToken, token, t).User? && DecodeToken(env, apiToken, token', t').User?
    requires Split(token, '.')[2] == Split(token', '.')[2]
    ensures token == token'
  {
    PartsAssemble(token);
    PartsAssemble(token');
  }

  lemma IssuedPayload(env: Environment, exp: int, id: string, username: string) returns (payloadToken: string)
    requires env.ReadsAscii() && env.uuid(id) == Some(id)
    ensures payloadToken == EncodeUnpadded(Dumped(exp, id, username))
    ensures ReadToken(env, payloadToken) == Read(exp, id) && Ascii(payloadToken) && Avoids(payloadToken, '.')
  {
    payloadToken := EncodeUnpadded(Dumped(exp, id, username));
    DecodeEncodeUnpadded(Dumped(exp, id, username));
    ReadsDumped(env, exp, id, username);
  }

  /** What the decoder answers for a signed payload that is readable. */
  lemma DecodeSigned(env: Environment, apiToken: string, payloadToken: string, exp: int, id: string, t: int)
    requires Ascii(payloadToken) && Avoids(payloadToken, '.') && ReadToken(env, payloadToken) == Read(exp, id)
    ensures var token := Assemble(payloadToken, env.Sign(apiToken, payloadToken));
      && DecodeToken(env, apiToken, token, t) == (if t <= exp then User(id) else Rejected)
      && |Split(token, '.')| == 4
  {
    SignatureCharacters(env, apiToken, payloadToken);
    AssembledParts(payloadToken, env.Sign(apiToken, payloadToken));
  }

  lemma DecodeIssued(env: Environment, apiToken: string, exp: int, id: string, username: string, t: int)
    requires env.ReadsAscii() && env.uuid(id) == Some(id)
    ensures var token := Signed(env, apiToken, EncodeUnpadded(Dumped(exp, id, username)));
      && DecodeToken(env, apiToken, token, t) == (if t <= exp then User(id) else Rejected)
      && |Split(token, '.')| == 4
  {
    var payloadToken := IssuedPayload(env, exp, id, username);
    DecodeSigned(env, apiToken, payloadToken, exp, id, t);
  }

  /** A token issued at t0 names its user until t0 + ttl*60 and nobody afterwards. */
  lemma TokenLifetime(env: Environment, apiToken: string, ttlMinutes: int, id: string, username: string, t0: int, t: int)
    requires env.ReadsAscii() && env.uuid(id) == Some(id)
    ensures var issued := Issue(env, apiToken, ttlMinutes, id, username, t0);
      && DecodeToken(env, apiToken, issued.token, t) == (if t <= t0 + ttlMinutes * 60 then User(id) else Rejected)
      && |Split(issued.token, '.')| == 4
      && issued.expiresIn == ttlMinutes * 60
  {
    DecodeIssued(env, apiToken, Expiry(t0, ttlMinutes), id, username, t);
  }

  predicate Raising(env: Environment, apiToken: string, payloadToken: string, signature: string) {
    || !Ascii(payloadToken) || !Ascii(signature)
    || (signature == env.Sign(apiToken, payloadToken) && ReadToken(env, payloadToken) == Escapes)
  }

  /** The decoder raises instead of rejecting exactly when the two last of the four
      parts are not both ASCII, or a signed payload carries an infinite expiry. */
  lemma RaisesExactly(env: Environment, apiToken: string, token: string, t: int)
    ensures DecodeToken(env, apiToken, token, t) == Raised <==>
      exists p, s :: Avoids(p, '.') && Avoids(s, '.') && token == Assemble(p, s) && Raising(env, apiToken, p, s)
  {
    var parts := Split(token, '.');
    if DecodeToken(env, apiToken, token, t) == Raised {
      PartsAssemble(token);
      DecodeAssembled(env, apiToken, parts[2], parts[3], t);
    }
    forall p, s | Avoids(p, '.') && Avoids(s, '.') && token == Assemble(p, s) && Raising(env, apiToken, p, s)
      ensures DecodeToken(env, apiToken, token, t) == Raised
    {
      DecodeAssembled(env, apiToken, p, s, t);
    }
  }

  /** A text of four parts that is not ASCII makes the decoder raise. */
  lemma NonAsciiRaises(env: Environment, apiToken: string, t: int)
    ensures DecodeToken(env, apiToken, "tucano.v1.\U{e9}.x", t) == Raised
  {
    assert !Ascii(['\U{e9}']) by { assert ['\U{e9}'][0] >= 128 as char; }
    assert Assemble("\U{e9}", "x") == "tucano.v1.\U{e9}.x";
    DecodeAssembled(env, apiToken, "\U{e9}", "x", t);
  }

  function InfinitePayload(): (s: string)
    ensures Json.Printable(s) && s != ""
  {
    Json.EscapePrintable("exp");
    "{" + (Json.Quote("exp") + (":" + ("Infinity" + "}")))
  }

  /** So does the payload {"exp":Infinity} when it is signed. */
  lemma SignedInfinityRaises(env: Environment, apiToken: string, t: int)
    requires env.ReadsAscii() && env.truncate("Infinity") == None
    ensures DecodeToken(env, apiToken, Signed(env, apiToken, EncodeUnpadded(AsciiBytes(InfinitePayload()))), t) == Raised
  {
    var bytes := AsciiBytes(InfinitePayload());
    var p := EncodeUnpadded(bytes);
    DecodeEncodeUnpadded(bytes);
    InfinityEscapes(env);
    SignatureCharacters(env, apiToken, p);
    DecodeAssembled(env, apiToken, p, env.Sign(apiToken, p), t);
  }

  lemma InfiniteField(f: Json.Value)
    ensures Field([Json.Member("exp", f)], "exp") == Some(f)
  {
  }

  lemma InfiniteExpEscapes(env: Environment, bytes: seq<Byte>, s: string, members: seq<Json.Member>, number: string)
    requires env.text(bytes) == Some(s) && Json.Loads(s) == Some(Json.Object(members))
    requires Field(members, "exp") == Some(Json.Float(number)) && number != "NaN" && env.truncate(number) == None
    ensures ReadPayload(env, bytes) == Escapes
  {
  }

  lemma InfinityEscapes(env: Environment)
    requires env.ReadsAscii() && env.truncate("Infinity") == None
    ensures ReadPayload(env, AsciiBytes(InfinitePayload())) == Escapes
  {
    var s, number := InfinitePayload(), Json.Float("Infinity");
    Json.LoadsInfinity("exp");
    InfiniteField(number);
    assert |"Infinity"| != |"NaN"|;
    InfiniteExpEscapes(env, AsciiBytes(s), s, [Json.Member("exp", number)], "Infinity");
  }
}
