# OpenID Connect ID-token validator: base64url decoding and outcome contract

This project models two things from the test suite of the OpenID Connect
ID-token validator (`Testable/Test_OpenIdConnectTokenValidator.cs`).

The first is the suite's base64url decoding helper, `Base64UrlDecoder`. It
turns text in the URL-safe, unpadded alphabet of section 5 of RFC 4648 into
standard base64 (section 4 of RFC 4648) and decodes that. It works in three
steps:

- unless the length is already a multiple of four, append the last
  `4 - len % 4` characters of a run of four `=`;
- replace `_` by `/`, and then `-` by `+`;
- call `Convert.FromBase64String`.

This is the recipe of Appendix C of RFC 7515. The helper is pure, so it is
modelled with functions and lemmas:

- `Base64Url.Pad` and `Base64Url.Replace` are the padding step and the
  one-character `String.Replace`.
- `Base64Url.ToStandardAlphabet` is the two chained replacements.
- `Base64Url.Decode` is the whole helper.
- `Base64.Decode` models `Convert.FromBase64String`, following section 4 of
  RFC 4648.

Two reference encoders are the partners of the decoders:

- `Base64.Encode` is the padded encoder of section 4 of RFC 4648.
- `Base64Url.Encode` is the unpadded encoder of Appendix C of RFC 7515: it
  takes `Split('=')[0]`, then replaces `+` by `-` and `/` by `_`.

Both decoders are proved to invert them, and `Base64.Decode` is proved to
accept exactly the well-formed texts.

The second is the outcome contract the test methods assert of
`ValidateOpenIdConnectJSONWebToken`. The validator class itself is not part
of this model, so `TokenValidation.Validate` runs the documented stages in
order:

1. an input guard;
2. splitting the compact token on `.` and base64url-decoding its three
   segments, using the decoder above;
3. key selection by key identifier, then signature verification;
4. the issuer, audience, lifetime and nonce gates.

An outcome is `Ok(b)` for a returned boolean, or `Err(f)` with one `Failure`
constructor per exception type the tests name. Some parts are parameters of
`Validate`:

- JSON parsing of the header and payload, and RS256 verification, are
  functions in the `Collaborators` record.
- The current time is the `now` argument.
- A C# `null` is `None`.

Observations about the test file that the model makes explicit:

- Every fixture string is empty (lines 37-44).
  `InvalidAudienceThrowsSecurityTokenInvalidAudienceException` sets only
  `audience` (line 75), and `InvalidIssuerThrowsSecurityTokenInvalidIssuerException`
  sets only `issuer` (line 100). The other tests leave both at the fixtures'
  empty string: line 204 re-assigns `issuer` to `""`, and line 245 passes a
  local empty `audience`. Every call therefore passes an empty issuer or an
  empty audience, and the input guard answers `ArgumentNull` before the
  token, the keys or the claims are looked at
  (`FixtureArgumentsRaiseArgumentNull`). This covers the invalid-audience,
  invalid-issuer, expired-token and invalid-nonce tests (the last sets
  `nonce` to `"777"` at line 149), as well as `ValidKeyReturnsTrue`,
  `InvalidExponentReturnsFalse`, `InvalidModulusReturnsFalse` and
  `NoKeysReturnsFalse`. None of these reaches the stage its name is about.
- The try/catch tests also pass when nothing is thrown, so they constrain the
  validator only weakly.
- `"777"`, used as "invalid" key material at lines 302 and 321, is well-formed
  base64url that decodes to two bytes (`FixtureKeyMaterialDecodes`). Any
  `false` in those tests would have to come from key construction or
  verification, not from decoding.
- The test names swap modulus and exponent: `InvalidExponentReturnsFalse`
  sets `n`, and `InvalidModulusReturnsFalse` sets `e`.
- The token `"7.7.7"` (line 50) has three non-empty segments, but a
  one-character segment is padded to `7===`, which never decodes. With the
  fixtures' empty issuer and audience, the test's `ArgumentException` is the
  guard's `ArgumentNullException`. The decoder is what rejects `"7.7.7"` only
  once every other argument is present; either way the outcome is an
  `ArgumentException` kind (`InvalidTokenThrowsArgumentException`).
- `EmptyAudienceThrowsArgumentNullException` assigns `issuer` (line 204), and
  `EmptyIssuerThrowsArgumentNullException` declares a local `audience`
  (line 245). Both still reach the guard only because the fixtures are empty.

## Model

| member | source | states |
|---|---|---|
| Base64Url.Pad | Testable/Test_OpenIdConnectTokenValidator.cs:25-26 | the padded text's length is a multiple of 4; exactly `(4 - len % 4) % 4` characters are appended, all `=`; the input is a prefix; a length already a multiple of 4 leaves the text unchanged |
| Base64Url.Replace | Testable/Test_OpenIdConnectTokenValidator.cs:27-28 | one-character `String.Replace`: same length; every `from` becomes `to` and every other character is kept |
| Base64Url.ToStandardAlphabet | Testable/Test_OpenIdConnectTokenValidator.cs:27-28 | same length; `_` becomes `/`, `-` becomes `+`, every other character (including `=`) is unchanged; the result contains no `-` or `_` |
| Base64Url.ToStandardAlphabetIdempotent | Testable/Test_OpenIdConnectTokenValidator.cs:27-28 | translating a second time changes nothing |
| Base64Url.ReplaceOrderIrrelevant | Testable/Test_OpenIdConnectTokenValidator.cs:27-28 | doing `-`→`+` before `_`→`/` gives the same text as the source's order |
| Base64Url.PadIdempotent | Testable/Test_OpenIdConnectTokenValidator.cs:25-26 | padding an already padded text changes nothing |
| Base64Url.PadCommutesWithTranslation | Testable/Test_OpenIdConnectTokenValidator.cs:25-28 | padding then translating equals translating then padding, because `=` is not translated |
| Base64Url.PadLengthOneModFourIsMalformed | Testable/Test_OpenIdConnectTokenValidator.cs:25-29 | an input of length `4k + 1` is padded with `===`, and the padded, translated text is never well-formed base64 |
| Base64Url.Decode | Testable/Test_OpenIdConnectTokenValidator.cs:23-30 | the helper returns bytes if and only if the padded, translated text is well-formed base64; an input of length `4k + 1` always fails; the byte count is three per padded group less one per pad. What this means for URL-safe input is stated by `Base64Url.DecodeSucceedsIff`, `Base64Url.DecodeLength` and `Base64Url.DecodeEncode` |
| Base64Url.DecodeSucceedsIff | Testable/Test_OpenIdConnectTokenValidator.cs:23-30 | for text in the URL-safe alphabet, the helper returns bytes if and only if the length is not `4k + 1` |
| Base64Url.DecodeLength | Testable/Test_OpenIdConnectTokenValidator.cs:25-29 | an unpadded URL-safe input that decodes yields `3 * (paddedLen / 4) - padCount` bytes, which equals `3 * len / 4` rounded down |
| Base64Url.DecodeAcceptsStandardBase64 | Testable/Test_OpenIdConnectTokenValidator.cs:23-30 | input that is already padded standard base64 is decoded exactly as `Convert.FromBase64String` would decode it |
| Base64Url.EncodeShape | Testable/Test_OpenIdConnectTokenValidator.cs:23-30 | the reference unpadded encoding of `n` bytes is `(4n + 2) / 3` URL-safe characters, which is the input form the helper expects |
| Base64Url.DecodeEncode | Testable/Test_OpenIdConnectTokenValidator.cs:23-30 | the helper inverts unpadded base64url encoding: decoding the encoding of any byte sequence gives that byte sequence back |
| Base64.Decode | Testable/Test_OpenIdConnectTokenValidator.cs:29 | `Convert.FromBase64String` accepts exactly the well-formed base64 texts: whole groups of 4, alphabet characters, and at most two trailing `=`; a text of `n` characters with `p` pads gives `3 * (n / 4) - p` bytes. `Base64.DecodeEncode` states that it inverts the padded encoder |
| Base64.DecodeGroupsSpec | Testable/Test_OpenIdConnectTokenValidator.cs:29 | group by group, decoding succeeds exactly on well-formed text and gives three bytes per group minus one per pad |
| Base64.DecodeGroup | Testable/Test_OpenIdConnectTokenValidator.cs:29 | an unpadded group of four characters decodes if and only if all four are alphabet characters, and then gives three bytes |
| Base64.CharOf | Testable/Test_OpenIdConnectTokenValidator.cs:29 | each 6-bit value has an alphabet character whose value is that 6-bit value |
| Base64.CharOfValueOf | Testable/Test_OpenIdConnectTokenValidator.cs:29 | each alphabet character is the encoding of its own 6-bit value |
| Base64.EncodeShape | Testable/Test_OpenIdConnectTokenValidator.cs:29 | the reference padded encoding of `n` bytes is `(4n + 2) / 3` alphabet characters followed by `(3 - n % 3) % 3` pads, in whole groups |
| Base64.EncodeLength | Testable/Test_OpenIdConnectTokenValidator.cs:29 | the reference padded encoding of `n` bytes is `4 * ceil(n / 3)` characters long |
| Base64.DecodeEncode | Testable/Test_OpenIdConnectTokenValidator.cs:29 | `Convert.FromBase64String` inverts the padded encoding of section 4 of RFC 4648 on every byte sequence |
| TokenValidation.KeyFromJwk | Testable/Test_OpenIdConnectTokenValidator.cs:53-56 | the key is built if and only if the modulus and exponent both decode; it then holds the decoded bytes and the given key identifier |
| TokenValidation.Split | Testable/Test_OpenIdConnectTokenValidator.cs:50 | `String.Split('.')`, as the token-decoder stage of the design uses it to cut the compact token into segments (line 50 only sets the token that stage receives): at least one piece, no piece contains the separator, and joining the pieces with the separator gives the input back |
| TokenValidation.Validate | Testable/Test_OpenIdConnectTokenValidator.cs:166-280 | the result is `ArgumentNull` if and only if a token, issuer, audience or nonce string is empty or absent, or the discovery document or the lifetime flag is absent, whatever the keys and collaborators; it is a malformed-token failure if and only if every argument is present and the token does not split, decode or parse. The remaining outcomes are stated by the outcome lemmas below |
| TokenValidation.DecodeToken | Testable/Test_OpenIdConnectTokenValidator.cs:48-70 | the token decoder fails only with the malformed-token kind, and it succeeds if and only if the token is exactly three non-empty dot-separated segments that all base64url-decode and whose decoded header and payload parse; on success the header and claims are the parsed first and second segments, the signing input is the first two segments with their dot, and the signature is the base64url decoding of the third |
| TokenValidation.ShortHeaderIsMalformed | Testable/Test_OpenIdConnectTokenValidator.cs:48-70 | a three-segment token whose first segment has length `4k + 1` is malformed, whatever the other segments and collaborators |
| TokenValidation.DecodeSevens | Testable/Test_OpenIdConnectTokenValidator.cs:50 | the token `"7.7.7"` does not decode |
| TokenValidation.InvalidTokenThrowsArgumentException | Testable/Test_OpenIdConnectTokenValidator.cs:48-70 | the token `"7.7.7"` always fails with an `ArgumentException` kind, whatever the other arguments, and with the malformed-token kind once every other argument is present |
| TokenValidation.KeysWithId | Testable/Test_OpenIdConnectTokenValidator.cs:56 | the keys carrying the given identifier, and none other; empty exactly when no key carries it |
| TokenValidation.Candidates | Testable/Test_OpenIdConnectTokenValidator.cs:56 | the keys tried are drawn from the key set: exactly those whose identifier matches the header's when some key matches, and every key when none does or the header names none; a non-empty key set always gives a candidate |
| TokenValidation.CheckClaims | Testable/Test_OpenIdConnectTokenValidator.cs:73-163 | the claims gates throw only the invalid-issuer, invalid-audience and expired kinds, and an issuer mismatch always gives invalid-issuer; `true` if and only if issuer, audience and nonce match and the token is unexpired when the flag is on; `false` if and only if the same gates pass and only the nonce differs |
| TokenValidation.EmptyKeySetReturnsFalse | Testable/Test_OpenIdConnectTokenValidator.cs:338-347 | with valid arguments and a decodable token, an empty signing-key list returns `false` and raises no exception |
| TokenValidation.UnverifiedSignatureReturnsFalse | Testable/Test_OpenIdConnectTokenValidator.cs:300-335 | when no candidate key verifies the signature, the result is `false` whatever the claims |
| TokenValidation.IssuerMismatchFails | Testable/Test_OpenIdConnectTokenValidator.cs:98-120 | for a verified token with a different issuer, the result is `InvalidIssuer` |
| TokenValidation.AudienceMismatchFails | Testable/Test_OpenIdConnectTokenValidator.cs:73-95 | for a verified token whose issuer matches and whose audience differs, the result is `InvalidAudience` |
| TokenValidation.ExpiredTokenFails | Testable/Test_OpenIdConnectTokenValidator.cs:123-144 | with the lifetime flag on, a verified token with matching issuer and audience and an expiration at or before `now` gives `TokenExpired` |
| TokenValidation.LifetimeCheckOffIgnoresClock | Testable/Test_OpenIdConnectTokenValidator.cs:64 | with the lifetime flag off, the result does not depend on `now` and is never `TokenExpired` |
| TokenValidation.NonceMismatchReturnsFalse | Testable/Test_OpenIdConnectTokenValidator.cs:147-163 | when every other gate passes, a nonce mismatch returns `false` and raises no exception |
| TokenValidation.AcceptedIff | Testable/Test_OpenIdConnectTokenValidator.cs:283-297 | `true` if and only if the arguments are present, the token decodes, a candidate key verifies it, issuer, audience and nonce match, and the token has not expired when the flag is on |
| TokenValidation.RejectedIff | Testable/Test_OpenIdConnectTokenValidator.cs:147-163 | `false` if and only if the arguments are present, the token decodes, and either no key verifies it or only the nonce differs |
| TokenValidation.FixtureArgumentsRaiseArgumentNull | Testable/Test_OpenIdConnectTokenValidator.cs:37-44 | with the fixtures' empty issuer or empty audience, which every test method keeps, every call yields `ArgumentNull`, whatever the token, nonce, keys, flag and collaborators |
| TokenValidation.FixtureKeyMaterialDecodes | Testable/Test_OpenIdConnectTokenValidator.cs:302-328 | empty `n` and `e` decode to empty byte arrays, and `"777"` decodes to two bytes, for either the modulus or the exponent |

## Left out

- RS256 signature verification, SHA-256, and building `RSAParameters` or `RsaSecurityKey`. These are library cryptography that is not part of this model. `Collaborators.verifies` stands for them, and it is also where a key that cannot be built yields no match.
- JSON parsing of the token header and payload. `Collaborators.parseHeader` and `Collaborators.parseClaims` stand for it, producing typed records.
- The body of `OpenIdConnectTokenValidator` is not part of this model. `TokenValidation.Validate` follows the documented stage order and the outcome kinds the tests name. It does not model exception messages or `ParamName`.
- The order in which candidate keys are tried. Verification is a pure predicate here, so only whether some candidate verifies affects the outcome.
- Reading the clock. The current time is the `now` parameter.
- The Moq discovery-document mock, the MSTest attributes, the `async Task` wrappers, the `Assert` calls and the `Initilize` fixture method. These are test scaffolding.
- Base64.Decode: does not model the whitespace that `Convert.FromBase64String` skips. The model follows section 4 of RFC 4648 strictly, so a space, tab or line break is rejected. Unused bits of a padded final group are discarded without being checked, as section 3.5 of RFC 4648 permits.
- Base64.Decode: reports failures as `BadLength` or `BadCharacter`. Both stand for the single `FormatException` of `Convert.FromBase64String`.
