/**
 * `App\Model\Jwt\Jwt`: signed tokens carrying a subject and a value for one
 * audience, issued by `ikofein.cz` with HS256.
 *
 * The Firebase codec (JSON, signature, the `exp`/`nbf`/`iat` time checks) is
 * foreign and passed in as `Codec`. A decoded payload is a map from claim
 * names to JSON values; an absent claim is a missing key.
 */
module Jwt {
  import opened Common
  import opened Base64Strict

  const IssuerId: string := "ikofein.cz"
  const Algorithm: string := "HS256"

  /** A JSON value as `json_decode` gives it; `JOther` stands for floats, arrays and objects. */
  datatype Json = JNull | JBool(b: bool) | JInt(i: int) | JStr(s: string) | JOther(text: string)

  type Claims = map<string, Json>

  /** What Firebase's decoder does with a token. */
  datatype CodecResult =
    | Decoded(claims: Claims)
    /** UnexpectedValueException and its subclasses: bad signature, expired, not yet valid, malformed. */
    | Unexpected
    /** Any other exception (a bad key, a JSON domain error): not caught by `decode`. */
    | OtherException

  /**
   * The foreign codec. Encoding yields `None` where `FirebaseJWT::encode`
   * throws DomainException because `json_encode` refuses the payload (a
   * string that is not valid UTF-8).
   */
  datatype Codec = Codec(
    encode: (Claims, seq<byte>, string) -> Option<string>,
    decode: (string, seq<byte>, string) -> CodecResult)

  /** A configured instance: the decoded signing key. */
  datatype JwtService = JwtService(key: seq<byte>)

  /** The constructor: a key that is not strict Base64 is a LogicException (`None`). */
  function NewJwt(base64Key: string): (r: Option<JwtService>)
    ensures r.None? <==> !Valid(base64Key)
    ensures r.Some? ==> StrictDecode(base64Key) == Some(r.value.key)
  {
    match StrictDecode(base64Key)
    case None => None
    case Some(key) => Some(JwtService(key))
  }

  /** `?string` as a JSON claim. */
  function Audience(audience: Option<string>): Json {
    match audience
    case None => JNull
    case Some(a) => JStr(a)
  }

  /** The payload `encode` signs; `exp` is the expiry instant and `now` the issue instant (`time()`). */
  function Payload(subject: string, value: string, exp: int, audience: Option<string>, now: int): (c: Claims)
    ensures c.Keys == {"aud", "iat", "iss", "exp", "sub", "val"}
    ensures c["iss"] == JStr(IssuerId) && c["sub"] == JStr(subject) && c["val"] == JStr(value)
    ensures c["aud"] == Audience(audience) && c["exp"] == JInt(exp) && c["iat"] == JInt(now)
  {
    map["aud" := Audience(audience), "iat" := JInt(now), "iss" := JStr(IssuerId),
        "exp" := JInt(exp), "sub" := JStr(subject), "val" := JStr(value)]
  }

  /** The two exceptions `encode` lets through. */
  datatype EncodeError =
    /** `DateTime::from` cannot read the expiry. */
    | UnreadableExpiry
    /** `FirebaseJWT::encode` throws DomainException: the payload is not JSON-encodable. */
    | NotEncodable

  /**
   * `encode`: `parseTime` is `DateTime::from`, which throws (`None`) on text
   * it cannot read; the expiry is read before anything is encoded.
   */
  function Encode(jwt: JwtService, codec: Codec, subject: string, value: string, expire: string,
                  audience: Option<string>, parseTime: string -> Option<int>, now: int): (r: Result<string, EncodeError>)
    ensures r == Err(UnreadableExpiry) <==> parseTime(expire).None?
    ensures r == Err(NotEncodable) <==>
      parseTime(expire).Some? && codec.encode(Payload(subject, value, parseTime(expire).value, audience, now), jwt.key, Algorithm).None?
    ensures r.Ok? ==> Some(r.value) == codec.encode(Payload(subject, value, parseTime(expire).value, audience, now), jwt.key, Algorithm)
  {
    match parseTime(expire)
    case None => Err(UnreadableExpiry)
    case Some(exp) =>
      match codec.encode(Payload(subject, value, exp, audience, now), jwt.key, Algorithm)
      case None => Err(NotEncodable)
      case Some(token) => Ok(token)
  }

  /** `isset($payload->claim)`: present and not null. */
  predicate IsSet(claims: Claims, name: string) {
    name in claims && claims[name] != JNull
  }

  /** The `isset` test on the five mandatory claims. */
  predicate HasMandatoryClaims(c: Claims) {
    IsSet(c, "exp") && IsSet(c, "iat") && IsSet(c, "iss") && IsSet(c, "sub") && IsSet(c, "val")
  }

  /** `$payload->aud ?? null`. */
  function ClaimOrNull(claims: Claims, name: string): Json {
    if name in claims then claims[name] else JNull
  }

  datatype JwtError =
    /** JwtException 'JWT Token invalid'. */
    | TokenInvalid
    /** JwtException: a mandatory claim is missing. */
    | MissingClaims
    /** JwtException: issuer or audience does not match. */
    | ClaimsMismatch
    /** An exception `decode` does not catch. */
    | Uncaught

  datatype Decoded = Subject(subject: Json, value: Json)

  /** `decode($token, $audience)`. */
  function Decode(jwt: JwtService, codec: Codec, token: string, audience: Option<string>): (r: Result<Decoded, JwtError>)
    ensures r == Err(TokenInvalid) <==> codec.decode(token, jwt.key, Algorithm).Unexpected?
    ensures r == Err(Uncaught) <==> codec.decode(token, jwt.key, Algorithm).OtherException?
    ensures r.Ok? <==>
      && codec.decode(token, jwt.key, Algorithm).Decoded?
      && var c := codec.decode(token, jwt.key, Algorithm).claims;
      && HasMandatoryClaims(c)
      && c["iss"] == JStr(IssuerId)
      && ClaimOrNull(c, "aud") == Audience(audience)
    ensures r.Ok? ==>
      var c := codec.decode(token, jwt.key, Algorithm).claims;
      "sub" in c && "val" in c && r.value == Subject(c["sub"], c["val"])
  {
    match codec.decode(token, jwt.key, Algorithm)
    case Unexpected => Err(TokenInvalid)
    case OtherException => Err(Uncaught)
    case Decoded(c) =>
      if !HasMandatoryClaims(c) then Err(MissingClaims)
      else if c["iss"] != JStr(IssuerId) || ClaimOrNull(c, "aud") != Audience(audience) then Err(ClaimsMismatch)
      else Ok(Subject(c["sub"], c["val"]))
  }

  // ---------------------------------------------------------------------------
  // Properties
  // ---------------------------------------------------------------------------

  /**
   * What `encode` signs, `decode` accepts: when the codec gives the signed
   * claims back, the same audience gets the original subject and value.
   */
  lemma EncodeDecode(jwt: JwtService, codec: Codec, subject: string, value: string, expire: string,
                     audience: Option<string>, parseTime: string -> Option<int>, now: int)
    requires parseTime(expire).Some?
    requires var c := Payload(subject, value, parseTime(expire).value, audience, now);
      && codec.encode(c, jwt.key, Algorithm).Some?
      && codec.decode(codec.encode(c, jwt.key, Algorithm).value, jwt.key, Algorithm) == Decoded(c)
    ensures Encode(jwt, codec, subject, value, expire, audience, parseTime, now).Ok?
    ensures Decode(jwt, codec, Encode(jwt, codec, subject, value, expire, audience, parseTime, now).value, audience)
            == Ok(Subject(JStr(subject), JStr(value)))
  {
  }

  /**
   * The audience must match exactly: a token without `aud` (or with a null
   * one) is accepted only where no audience is asked for, and a token for one
   * audience is refused for any other.
   */
  lemma AudienceMustMatch(jwt: JwtService, codec: Codec, token: string, a: string, b: string)
    requires codec.decode(token, jwt.key, Algorithm).Decoded?
    requires a != b
    ensures var c := codec.decode(token, jwt.key, Algorithm).claims;
      && (ClaimOrNull(c, "aud") == JNull ==> Decode(jwt, codec, token, Some(a)).Err?)
      && (ClaimOrNull(c, "aud") == JStr(a) ==> Decode(jwt, codec, token, Some(b)).Err? && Decode(jwt, codec, token, None).Err?)
  {
  }

  /** A token issued for one audience is refused for another, even with a working codec. */
  lemma OtherAudienceRefused(jwt: JwtService, codec: Codec, subject: string, value: string, expire: string,
                             a: Option<string>, b: Option<string>, parseTime: string -> Option<int>, now: int)
    requires parseTime(expire).Some? && a != b
    requires var c := Payload(subject, value, parseTime(expire).value, a, now);
      && codec.encode(c, jwt.key, Algorithm).Some?
      && codec.decode(codec.encode(c, jwt.key, Algorithm).value, jwt.key, Algorithm) == Decoded(c)
    ensures Encode(jwt, codec, subject, value, expire, a, parseTime, now).Ok?
    ensures Decode(jwt, codec, Encode(jwt, codec, subject, value, expire, a, parseTime, now).value, b) == Err(ClaimsMismatch)
  {
    var c := Payload(subject, value, parseTime(expire).value, a, now);
    assert Audience(a) != Audience(b);
    assert HasMandatoryClaims(c);
  }

  /** A payload missing any mandatory claim, or holding it as null, is refused before issuer and audience are looked at. */
  lemma MissingClaimRefused(jwt: JwtService, codec: Codec, token: string, audience: Option<string>, name: string)
    requires codec.decode(token, jwt.key, Algorithm).Decoded?
    requires name == "exp" || name == "iat" || name == "iss" || name == "sub" || name == "val"
    requires !IsSet(codec.decode(token, jwt.key, Algorithm).claims, name)
    ensures Decode(jwt, codec, token, audience) == Err(MissingClaims)
  {
  }
}
