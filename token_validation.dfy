/**
  The outcome contract that the test methods assert of
  `OpenIdConnectTokenValidator.ValidateOpenIdConnectJSONWebToken`.  The
  validator's own source is not part of this model, so the stages follow the
  documented design: an input guard, the token decoder (three dot-separated
  base64url segments), key resolution and signature verification, then the
  claims checks for issuer, audience, lifetime and nonce.

  What cannot be seen is a parameter: JSON parsing of the header and payload
  and RS256 signature verification come in as the `Collaborators` functions,
  and the current time is the `now` argument.  A C# `null` is `None`.
*/
module TokenValidation {
  import opened Wrappers
  import Base64
  import Base64Url

  datatype Header = Header(kid: Option<string>)

  /** The typed claims record read out of the payload. */
  datatype Claims = Claims(issuer: string, audience: string, expiration: int, nonce: string)

  /** An RSA public key as `RSAParameters` holds it, with its `KeyId`. */
  datatype SigningKey = SigningKey(kid: string, modulus: seq<Base64.byte>, exponent: seq<Base64.byte>)

  datatype DecodedToken = DecodedToken(header: Header, claims: Claims, signingInput: string, signature: seq<Base64.byte>)

  /** The exceptions the tests expect, one constructor per exception type. */
  datatype Failure =
    | ArgumentNull     // ArgumentNullException
    | MalformedToken   // ArgumentException
    | InvalidIssuer    // SecurityTokenInvalidIssuerException
    | InvalidAudience  // SecurityTokenInvalidAudienceException
    | TokenExpired     // SecurityTokenExpiredException

  /** `Ok(b)` is the returned boolean, `Err(f)` the thrown exception. */
  type Outcome = Result<bool, Failure>

  /** The test `exception is ArgumentException` also holds of an `ArgumentNullException`. */
  predicate IsArgumentException(f: Failure) {
    f == ArgumentNull || f == MalformedToken
  }

  /** JSON parsing and RS256 verification; `verifies` is false for a key that cannot be built. */
  datatype Collaborators = Collaborators(
    parseHeader: seq<Base64.byte> -> Option<Header>,
    parseClaims: seq<Base64.byte> -> Option<Claims>,
    verifies: (SigningKey, string, seq<Base64.byte>) -> bool)

  /** A key built as the test methods build theirs: the base64url modulus and exponent of a JSON web key are decoded. */
  function KeyFromJwk(n: string, e: string, kid: string): (r: Result<SigningKey, Base64.DecodeError>)
    ensures r.Ok? <==> Base64Url.Decode(n).Ok? && Base64Url.Decode(e).Ok?
    ensures r.Ok? ==> r.value.kid == kid
    ensures r.Ok? ==> Base64Url.Decode(n) == Ok(r.value.modulus) && Base64Url.Decode(e) == Ok(r.value.exponent)
  {
    match Base64Url.Decode(n)
    case Err(err) => Err(err)
    case Ok(modulus) =>
      match Base64Url.Decode(e)
      case Err(err) => Err(err)
      case Ok(exponent) => Ok(SigningKey(kid, modulus, exponent))
  }

  function Join(parts: seq<string>, sep: char): string
    requires |parts| >= 1
    decreases |parts|
  {
    if |parts| == 1 then parts[0] else parts[0] + [sep] + Join(parts[1..], sep)
  }

  lemma JoinThree(parts: seq<string>, sep: char)
    requires |parts| == 3
    ensures Join(parts, sep) == parts[0] + [sep] + parts[1] + [sep] + parts[2]
  {
    var tail := parts[1..];
    assert tail[1..] == [parts[2]];
    assert Join(tail[1..], sep) == parts[2];
    assert Join(tail, sep) == parts[1] + [sep] + parts[2];
    assert Join(parts, sep) == parts[0] + [sep] + (parts[1] + [sep] + parts[2]);
  }

  /** `String.Split(sep)`: the pieces between separators, empty ones included. */
  function Split(s: string, sep: char): (parts: seq<string>)
    ensures |parts| >= 1
    ensures forall i :: 0 <= i < |parts| ==> sep !in parts[i]
    ensures Join(parts, sep) == s
    decreases |s|
  {
    if |s| == 0 then [""]
    else
      var rest := Split(s[1..], sep);
      if s[0] == sep then
        assert ([""] + rest)[1..] == rest;
        [""] + rest
      else
        assert ([[s[0]] + rest[0]] + rest[1..])[1..] == rest[1..];
        assert s == [s[0]] + s[1..];
        [[s[0]] + rest[0]] + rest[1..]
  }

  /**
    Splits the compact token, decodes its three segments and parses header and
    payload.  The only failure is `MalformedToken`, and it happens exactly when
    the token is not three non-empty segments, a segment does not decode, or
    the header or payload does not parse.  On success the header and claims
    are the parsed first and second segments, the signing input is the first
    two with their dot, and the signature is the decoded third segment.
  */
  function DecodeToken(token: string, c: Collaborators): (r: Result<DecodedToken, Failure>)
    ensures r.Err? ==> r.error == MalformedToken
    ensures r.Ok? ==>
      var parts := Split(token, '.');
      && |parts| == 3 && parts[0] != "" && parts[1] != "" && parts[2] != ""
      && token == parts[0] + "." + parts[1] + "." + parts[2]
      && r.value.signingInput == parts[0] + "." + parts[1]
      && Base64Url.Decode(parts[2]) == Ok(r.value.signature)
    ensures r.Ok? <==>
      var parts := Split(token, '.');
      && |parts| == 3 && parts[0] != "" && parts[1] != "" && parts[2] != ""
      && Base64Url.Decode(parts[0]).Ok? && Base64Url.Decode(parts[1]).Ok? && Base64Url.Decode(parts[2]).Ok?
      && c.parseHeader(Base64Url.Decode(parts[0]).value).Some?
      && c.parseClaims(Base64Url.Decode(parts[1]).value).Some?
    ensures r.Ok? ==>
      var parts := Split(token, '.');
      && c.parseHeader(Base64Url.Decode(parts[0]).value) == Some(r.value.header)
      && c.parseClaims(Base64Url.Decode(parts[1]).value) == Some(r.value.claims)
  {
    var parts := Split(token, '.');
    if |parts| != 3 || parts[0] == "" || parts[1] == "" || parts[2] == "" then Err(MalformedToken)
    else
      JoinThree(parts, '.');
      match Base64Url.Decode(parts[0])
      case Err(_) => Err(MalformedToken)
      case Ok(h) =>
        match Base64Url.Decode(parts[1])
        case Err(_) => Err(MalformedToken)
        case Ok(p) =>
          match Base64Url.Decode(parts[2])
          case Err(_) => Err(MalformedToken)
          case Ok(sig) =>
            match (c.parseHeader(h), c.parseClaims(p))
            case (Some(header), Some(claims)) =>
              Ok(DecodedToken(header, claims, parts[0] + "." + parts[1], sig))
            case _ => Err(MalformedToken)
  }

  function KeysWithId(keys: seq<SigningKey>, kid: string): (r: seq<SigningKey>)
    ensures forall k :: k in r <==> k in keys && k.kid == kid
    ensures r == [] <==> forall k :: k in keys ==> k.kid != kid
    decreases |keys|
  {
    if |keys| == 0 then []
    else (if keys[0].kid == kid then [keys[0]] else []) + KeysWithId(keys[1..], kid)
  }

  /** The keys tried: those whose identifier matches the header's, or every key when none does or the header names none. */
  function Candidates(keys: seq<SigningKey>, kid: Option<string>): (r: seq<SigningKey>)
    ensures forall k :: k in r ==> k in keys
    ensures keys != [] ==> r != []
    ensures kid.None? ==> r == keys
    ensures kid.Some? && (exists k :: k in keys && k.kid == kid.value) ==>
      forall k :: k in r <==> k in keys && k.kid == kid.value
    ensures kid.Some? && (forall k :: k in keys ==> k.kid != kid.value) ==> r == keys
  {
    if kid.Some? && KeysWithId(keys, kid.value) != [] then KeysWithId(keys, kid.value) else keys
  }

  predicate SignatureVerified(keys: seq<SigningKey>, t: DecodedToken, c: Collaborators) {
    exists k :: k in Candidates(keys, t.header.kid) && c.verifies(k, t.signingInput, t.signature)
  }

  /**
    The claims gates in order: issuer, audience, lifetime (when asked for),
    then nonce.  Only the first three throw; a nonce mismatch is `false`.
  */
  function CheckClaims(claims: Claims, issuer: string, audience: string, nonce: string,
                       checkLifetime: bool, now: int): (r: Outcome)
    ensures r.Err? ==> r.error in {InvalidIssuer, InvalidAudience, TokenExpired}
    ensures r == Ok(true) <==>
      claims.issuer == issuer && claims.audience == audience
      && (checkLifetime ==> now < claims.expiration) && claims.nonce == nonce
    ensures r == Ok(false) <==>
      claims.issuer == issuer && claims.audience == audience
      && (checkLifetime ==> now < claims.expiration) && claims.nonce != nonce
    ensures claims.issuer != issuer ==> r == Err(InvalidIssuer)
  {
    if claims.issuer != issuer then Err(InvalidIssuer)
    else if claims.audience != audience then Err(InvalidAudience)
    else if checkLifetime && now >= claims.expiration then Err(TokenExpired)
    else Ok(claims.nonce == nonce)
  }

  predicate Present(s: Option<string>) {
    s.Some? && s.value != ""
  }

  /** Every required argument is supplied: non-empty strings, a discovery document and a lifetime flag. */
  predicate ArgumentsPresent(token: Option<string>, issuer: Option<string>, audience: Option<string>,
                             nonce: Option<string>, keySet: Option<seq<SigningKey>>, checkLifetime: Option<bool>)
  {
    Present(token) && Present(issuer) && Present(audience) && Present(nonce)
    && keySet.Some? && checkLifetime.Some?
  }

  /**
    `ValidateOpenIdConnectJSONWebToken(token, issuer, audience, nonce, discoveryDocument, validateLifetime)`.
    A bad call is signalled apart from an untrusted token: `ArgumentNull`
    exactly when an argument is missing, whatever the keys and collaborators,
    and `MalformedToken` exactly when the arguments are present and the token
    does not split, decode or parse.
  */
  function Validate(token: Option<string>, issuer: Option<string>, audience: Option<string>,
                    nonce: Option<string>, keySet: Option<seq<SigningKey>>, checkLifetime: Option<bool>,
                    now: int, c: Collaborators): (r: Outcome)
    ensures r == Err(ArgumentNull) <==> !ArgumentsPresent(token, issuer, audience, nonce, keySet, checkLifetime)
    ensures r == Err(MalformedToken) <==>
      ArgumentsPresent(token, issuer, audience, nonce, keySet, checkLifetime) && DecodeToken(token.value, c).Err?
  {
    if !ArgumentsPresent(token, issuer, audience, nonce, keySet, checkLifetime) then Err(ArgumentNull)
    else
      match DecodeToken(token.value, c)
      case Err(f) => Err(f)
      case Ok(t) =>
        if !SignatureVerified(keySet.value, t, c) then Ok(false)
        else CheckClaims(t.claims, issuer.value, audience.value, nonce.value, checkLifetime.value, now)
  }

  /** No key verifies the signature: `false`, before any claim is looked at. */
  lemma UnverifiedSignatureReturnsFalse(token: string, issuer: string, audience: string, nonce: string,
                                        keys: seq<SigningKey>, checkLifetime: bool, now: int, c: Collaborators)
    requires token != "" && issuer != "" && audience != "" && nonce != ""
    requires DecodeToken(token, c).Ok? && !SignatureVerified(keys, DecodeToken(token, c).value, c)
    ensures Validate(Some(token), Some(issuer), Some(audience), Some(nonce), Some(keys), Some(checkLifetime), now, c)
      == Ok(false)
  {
  }

  /** An empty signing-key list gives `false`, not an exception. */
  lemma EmptyKeySetReturnsFalse(token: string, issuer: string, audience: string, nonce: string,
                                checkLifetime: bool, now: int, c: Collaborators)
    requires token != "" && issuer != "" && audience != "" && nonce != ""
    requires DecodeToken(token, c).Ok?
    ensures Validate(Some(token), Some(issuer), Some(audience), Some(nonce), Some([]), Some(checkLifetime), now, c)
      == Ok(false)
  {
  }

  /** The issuer gate comes first among the claims checks. */
  lemma IssuerMismatchFails(token: string, issuer: string, audience: string, nonce: string,
                            keys: seq<SigningKey>, checkLifetime: bool, now: int, c: Collaborators)
    requires token != "" && issuer != "" && audience != "" && nonce != ""
    requires DecodeToken(token, c).Ok? && SignatureVerified(keys, DecodeToken(token, c).value, c)
    requires DecodeToken(token, c).value.claims.issuer != issuer
    ensures Validate(Some(token), Some(issuer), Some(audience), Some(nonce), Some(keys), Some(checkLifetime), now, c)
      == Err(InvalidIssuer)
  {
  }

  /** With the issuer accepted, a different audience is an invalid-audience failure. */
  lemma AudienceMismatchFails(token: string, issuer: string, audience: string, nonce: string,
                              keys: seq<SigningKey>, checkLifetime: bool, now: int, c: Collaborators)
    requires token != "" && issuer != "" && audience != "" && nonce != ""
    requires DecodeToken(token, c).Ok? && SignatureVerified(keys, DecodeToken(token, c).value, c)
    requires DecodeToken(token, c).value.claims.issuer == issuer
    requires DecodeToken(token, c).value.claims.audience != audience
    ensures Validate(Some(token), Some(issuer), Some(audience), Some(nonce), Some(keys), Some(checkLifetime), now, c)
      == Err(InvalidAudience)
  {
  }

  /** With the lifetime check on, an expired token fails with its own kind. */
  lemma ExpiredTokenFails(token: string, issuer: string, audience: string, nonce: string,
                          keys: seq<SigningKey>, now: int, c: Collaborators)
    requires token != "" && issuer != "" && audience != "" && nonce != ""
    requires DecodeToken(token, c).Ok? && SignatureVerified(keys, DecodeToken(token, c).value, c)
    requires DecodeToken(token, c).value.claims.issuer == issuer
    requires DecodeToken(token, c).value.claims.audience == audience
    requires now >= DecodeToken(token, c).value.claims.expiration
    ensures Validate(Some(token), Some(issuer), Some(audience), Some(nonce), Some(keys), Some(true), now, c)
      == Err(TokenExpired)
  {
  }

  /** With the lifetime check off, the clock is never consulted and expiry is never reported. */
  lemma LifetimeCheckOffIgnoresClock(token: Option<string>, issuer: Option<string>, audience: Option<string>,
                                     nonce: Option<string>, keySet: Option<seq<SigningKey>>,
                                     now1: int, now2: int, c: Collaborators)
    ensures Validate(token, issuer, audience, nonce, keySet, Some(false), now1, c)
      == Validate(token, issuer, audience, nonce, keySet, Some(false), now2, c)
    ensures Validate(token, issuer, audience, nonce, keySet, Some(false), now1, c) != Err(TokenExpired)
  {
  }

  /** When every other gate passes, a nonce mismatch gives `false` and no exception. */
  lemma NonceMismatchReturnsFalse(token: string, issuer: string, audience: string, nonce: string,
                                  keys: seq<SigningKey>, checkLifetime: bool, now: int, c: Collaborators)
    requires token != "" && issuer != "" && audience != "" && nonce != ""
    requires DecodeToken(token, c).Ok? && SignatureVerified(keys, DecodeToken(token, c).value, c)
    requires DecodeToken(token, c).value.claims.issuer == issuer
    requires DecodeToken(token, c).value.claims.audience == audience
    requires checkLifetime ==> now < DecodeToken(token, c).value.claims.expiration
    requires DecodeToken(token, c).value.claims.nonce != nonce
    ensures Validate(Some(token), Some(issuer), Some(audience), Some(nonce), Some(keys), Some(checkLifetime), now, c)
      == Ok(false)
  {
  }

  /** `true` exactly when the arguments are present, the token decodes, some key verifies it and every claim matches. */
  lemma AcceptedIff(token: Option<string>, issuer: Option<string>, audience: Option<string>,
                    nonce: Option<string>, keySet: Option<seq<SigningKey>>, checkLifetime: Option<bool>,
                    now: int, c: Collaborators)
    ensures Validate(token, issuer, audience, nonce, keySet, checkLifetime, now, c) == Ok(true) <==>
      && ArgumentsPresent(token, issuer, audience, nonce, keySet, checkLifetime)
      && DecodeToken(token.value, c).Ok?
      && var t := DecodeToken(token.value, c).value;
      && SignatureVerified(keySet.value, t, c)
      && t.claims.issuer == issuer.value
      && t.claims.audience == audience.value
      && (checkLifetime.value ==> now < t.claims.expiration)
      && t.claims.nonce == nonce.value
  {
  }

  /** `false` comes from exactly two causes: no key verifies the signature, or only the nonce differs. */
  lemma RejectedIff(token: Option<string>, issuer: Option<string>, audience: Option<string>,
                    nonce: Option<string>, keySet: Option<seq<SigningKey>>, checkLifetime: Option<bool>,
                    now: int, c: Collaborators)
    ensures Validate(token, issuer, audience, nonce, keySet, checkLifetime, now, c) == Ok(false) <==>
      && ArgumentsPresent(token, issuer, audience, nonce, keySet, checkLifetime)
      && DecodeToken(token.value, c).Ok?
      && var t := DecodeToken(token.value, c).value;
      || !SignatureVerified(keySet.value, t, c)
      || (&& t.claims.issuer == issuer.value
          && t.claims.audience == audience.value
          && (checkLifetime.value ==> now < t.claims.expiration)
          && t.claims.nonce != nonce.value)
  {
  }

  lemma SplitSevens()
    ensures Split("7.7.7", '.') == ["7", "7", "7"]
  {
    assert Split("", '.') == [""];
    assert Split("7", '.') == ["7"];
    assert Split(".7", '.') == ["", "7"];
    assert Split("7.7", '.') == ["7", "7"];
    assert Split(".7.7", '.') == ["", "7", "7"];
  }

  /** A token whose first segment has length `4k + 1` is malformed, whatever the other segments. */
  lemma ShortHeaderIsMalformed(token: string, c: Collaborators)
    requires |Split(token, '.')| == 3 && |Split(token, '.')[0]| % 4 == 1
    ensures DecodeToken(token, c) == Err(MalformedToken)
  {
  }

  lemma DecodeSevens(c: Collaborators)
    ensures DecodeToken("7.7.7", c) == Err(MalformedToken)
  {
    SplitSevens();
    ShortHeaderIsMalformed("7.7.7", c);
  }

  /**
    The token `"7.7.7"` has three non-empty segments, but a one-character
    segment never decodes.  It is an `ArgumentException` kind whatever the
    other arguments, and a malformed-token failure once they are all present.
  */
  lemma InvalidTokenThrowsArgumentException(issuer: Option<string>, audience: Option<string>,
                                            nonce: Option<string>, keySet: Option<seq<SigningKey>>,
                                            checkLifetime: Option<bool>, now: int, c: Collaborators)
    ensures var r := Validate(Some("7.7.7"), issuer, audience, nonce, keySet, checkLifetime, now, c);
      r.Err? && IsArgumentException(r.error)
    ensures ArgumentsPresent(Some("7.7.7"), issuer, audience, nonce, keySet, checkLifetime) ==>
      Validate(Some("7.7.7"), issuer, audience, nonce, keySet, checkLifetime, now, c) == Err(MalformedToken)
  {
    DecodeSevens(c);
  }

  /**
    Every test method leaves the fixture issuer or the fixture audience empty,
    so whatever token, nonce, keys and flag it passes, the input guard answers
    first with `ArgumentNull`.
  */
  lemma FixtureArgumentsRaiseArgumentNull(token: Option<string>, issuer: Option<string>, audience: Option<string>,
                                          nonce: Option<string>, keySet: Option<seq<SigningKey>>,
                                          checkLifetime: Option<bool>, now: int, c: Collaborators)
    requires issuer == Some("") || audience == Some("")
    ensures Validate(token, issuer, audience, nonce, keySet, checkLifetime, now, c) == Err(ArgumentNull)
  {
  }

  /** The fixture key material: empty `n` and `e` decode to empty byte arrays, and `"777"` is well-formed base64url carrying two bytes. */
  lemma FixtureKeyMaterialDecodes()
    ensures KeyFromJwk("", "", "") == Ok(SigningKey("", [], []))
    ensures KeyFromJwk("777", "", "").Ok? && |KeyFromJwk("777", "", "").value.modulus| == 2
    ensures KeyFromJwk("", "777", "").Ok? && |KeyFromJwk("", "777", "").value.exponent| == 2
  {
    assert Base64Url.Pad("") == "";
    assert Base64Url.ToStandardAlphabet("") == "";
    assert Base64Url.Decode("") == Ok([]);
    var sevens := "777";
    assert forall i :: 0 <= i < |sevens| ==> Base64Url.IsUrlAlphabetChar(sevens[i]);
    Base64Url.DecodeSucceedsIff(sevens);
    Base64Url.DecodeLength(sevens);
  }
}
