# SimpleAPI bearer-token introspection, modelled in Dafny

SimpleAPI is a small ASP.NET service. It protects its endpoints with OAuth 2.0
bearer tokens. It does not check a token itself. It asks the authorization
server, with a token introspection request (RFC 7662). This project models how
the service does that, in two versions.

- **Current version** (`SimpleAPI/OIDC/IntrospectionClient.cs`, `SimpleAPI/OIDC/BearerTokenResult.cs`):
  1. It reads the `Authorization` header.
  2. It looks up the introspection endpoint in the server's metadata (RFC 8414).
  3. It POSTs the token to that endpoint. The request authenticates as the service, with `Basic` credentials (RFC 7617).
  4. It accepts the caller only when the reply says `active` is exactly `true`.
  5. Otherwise it answers 401 with a `WWW-Authenticate: Bearer` challenge (RFC 6750).
- **Legacy version** (`OIDC/Client.cs`): the same flow, with these differences:
  - It uses the OpenID Connect discovery document.
  - It has fixed client credentials.
  - The scheme check is case-sensitive.
  - It does not check the status of the introspection reply.
  - It throws in several places where the current version returns `null`.
  - Its challenge has no comma between `realm` and `scope`.

Modules:

- `Bytes`, `Wrappers`, `Text`: octets, `Option`, and the .NET string helpers the code calls (`IsNullOrEmpty`, `IsNullOrWhiteSpace`, a `null` string joined as empty, a case-insensitive comparison).
- `Utf8`: the UTF-8 encoding of RFC 3629.
  - `Encoding.UTF8.GetBytes`, with a strict decoder as its inverse.
  - Round trips in both directions.
- `Base64`: the Base64 encoding of section 4 of RFC 4648.
  - `Convert.ToBase64String`, with a strict decoder as its inverse.
  - Round trips in both directions, the length law and the alphabet-and-padding law.
- `BasicAuth`: the `Basic` credential `Base64(UTF-8(id ":" secret))` and what a receiver recovers from it.
- `Http`:
  - `AuthenticationHeaderValue` (credentials of section 2.1 of RFC 7235), its parser and its rendering, with a round-trip lemma.
  - The outbound `HttpRequestMessage` as a class.
  - The inbound response as a class with a status and a header map.
- `Introspection`: the values exchanged with the authorization server.
  - A reply body is the JSON on the wire; each version has its own reader for it.
  - `Network` is an oracle for the outbound calls. Each operation returns the list of calls it made.
- `OidcIntrospection`: `IntrospectionClient` of the current version.
- `OidcChallenge`: `BearerTokenResult` of the current version.
- `LegacyClient`: the static `Client` of `OIDC/Client.cs`, with its nested `BearerTokenResult`.
- `Versions`: lemmas that relate the two versions.
  - Which headers each version accepts.
  - How their challenges differ.
  - How each reads the same introspection reply.
  - Which metadata document each one fetches.

In the code, a failed metadata GET, a failed POST, or a 2xx reply body that
does not deserialize throws. The exception propagates out of
`ValidateAuthorization` in the current version and out of
`TryValidateAuthorization` in the legacy one. The model keeps these as
`Faulted` and `Threw` outcomes, separate from "no identity".

## Model

| member | source | states |
|---|---|---|
| Utf8.DecodeEncode | SimpleAPI/OIDC/IntrospectionClient.cs:32 | `Encode` (`Encoding.UTF8.GetBytes`) loses nothing: decoding the UTF-8 encoding of any string gives back that string. |
| Utf8.EncodeDecode | SimpleAPI/OIDC/IntrospectionClient.cs:32 | Every octet sequence the strict decoder accepts is exactly the encoding of what it decodes to, so the encoding is a bijection onto well-formed UTF-8. |
| Utf8.EncodeAppend | SimpleAPI/OIDC/IntrospectionClient.cs:32 | Encoding is done character by character: encoding a concatenation gives the concatenation of the encodings. |
| Utf8.EncodeAscii | SimpleAPI/OIDC/IntrospectionClient.cs:32 | An ASCII string encodes to one octet per character, equal to its code. |
| Base64.DecodeEncode | SimpleAPI/OIDC/IntrospectionClient.cs:33 | `Encode` (`Convert.ToBase64String`) loses nothing: decoding the Base64 text of any octet sequence gives back those octets. |
| Base64.EncodeDecode | SimpleAPI/OIDC/IntrospectionClient.cs:33 | Every text the strict decoder accepts is exactly the encoding of its result, so padding and the unused low bits are canonical. |
| Base64.EncodeLength | SimpleAPI/OIDC/IntrospectionClient.cs:33 | The Base64 text has 4 symbols per started group of 3 octets. |
| Base64.EncodeAlphabet | SimpleAPI/OIDC/IntrospectionClient.cs:33 | The text is alphabet symbols followed by `(3 - n mod 3) mod 3` `=` signs and nothing else. |
| BasicAuth.SplitJoin | SimpleAPI/OIDC/IntrospectionClient.cs:32 | `Join` (`string.Join(":", id, secret)`) can be undone: splitting at the first colon gives the id and secret back when the id has no colon. |
| BasicAuth.CredentialDecodes | SimpleAPI/OIDC/IntrospectionClient.cs:30-34 | This is the contract of `Credential`, `Base64(UTF-8(Join(id, secret)))`. From the credential, a receiver recovers the octets, then the text `id:secret` (`null` parts as empty), then the id and secret themselves when the id has no colon. |
| BasicAuth.CredentialLength | SimpleAPI/OIDC/IntrospectionClient.cs:30-34 | The credential's length is 4 per started group of 3 UTF-8 octets of `id:secret`; for ASCII parts that is `4 * ceil((len id + len secret + 1) / 3)`. |
| Http.ParseCredentials | SimpleAPI/OIDC/IntrospectionClient.cs:59 | When a header value parses, its scheme is a token and its parameter, if any, is non-empty and carries no surrounding white space. |
| Http.ParseWithoutToken | OIDC/Client.cs:74 | A value without a single token character does not parse (`Parse` throws, `TryParse` returns false). |
| Http.Render | SimpleAPI/OIDC/BearerTokenResult.cs:25-27 | `AuthenticationHeaderValue.ToString`: the scheme leads; a non-empty parameter follows after exactly one space, and otherwise nothing follows. |
| Http.ParseRender | SimpleAPI/OIDC/BearerTokenResult.cs:25-27 | Rendering credentials (scheme, a space, parameter) and parsing the text gives back the same credentials, for every token scheme and every trimmed, non-empty parameter. |
| OidcIntrospection.IntrospectionClient.constructor | SimpleAPI/OIDC/IntrospectionClient.cs:9-17 | The client keeps the configured issuer, client id and client secret. |
| OidcIntrospection.IntrospectionClient.GetConfiguration | SimpleAPI/OIDC/IntrospectionClient.cs:24-28 | One GET of `issuer + "/.well-known/oauth-authorization-server"`; its result is whatever the server returns for that URL. |
| OidcIntrospection.IntrospectionClient.NewBasicAuthenticationHeader | SimpleAPI/OIDC/IntrospectionClient.cs:30-34 | Scheme `Basic`; the parameter decodes, through Base64 and UTF-8, to `id:secret`, and from there to the id and secret when the id has no colon. |
| OidcIntrospection.IntrospectionClient.NewIntrospectionRequest | SimpleAPI/OIDC/IntrospectionClient.cs:36-46 | A new POST to the endpoint, authenticated with the client's own `Basic` credentials, whose form has exactly one field, `token`, holding the token. |
| OidcIntrospection.IntrospectionClient.InvokeIntrospectionRequest | SimpleAPI/OIDC/IntrospectionClient.cs:48-56 | First the metadata GET. If it fails, nothing else is sent and the result is a fault. Otherwise exactly one introspection POST goes to the endpoint the metadata names, and the result is `ReadReply` of the reply: a non-2xx status or a JSON `null` gives `null`, a body that does not deserialize gives a fault. |
| OidcIntrospection.IntrospectionClient.TryParseBearerAuthorization | SimpleAPI/OIDC/IntrospectionClient.cs:58-61 | A token is returned exactly when the header parses, has a parameter, and its scheme equals `Bearer` ignoring case. The token is that parameter: non-empty and trimmed. |
| OidcIntrospection.Deserialize | SimpleAPI/OIDC/IntrospectionClient.cs:55 | `JsonSerializer.DeserializeAsync<IntrospectionResponseModel>` on a reply body. It throws exactly when the body is not JSON, is JSON but not an object, or has an `active` that is not a boolean or a `sub` that is not a string. It gives `null` exactly on JSON `null`. Otherwise the response has `active` and `sub` exactly when the object has them, with their values. |
| OidcIntrospection.ReadReply | SimpleAPI/OIDC/IntrospectionClient.cs:52-55 | How a reply is read. A failed POST faults. A status outside 2xx gives `null` before the body is looked at. A 2xx body is deserialized by `Deserialize`. |
| OidcIntrospection.IntrospectionClient.ValidateAuthorization | SimpleAPI/OIDC/IntrospectionClient.cs:63-78 | No network call without a bearer token. An identity is returned exactly when the reply was read and `active` is `true`, and then it is that reply. A failed call is a fault. The POST carries the header's token and the client's `Basic` credentials. |
| OidcIntrospection.BearerCaseIsToken | SimpleAPI/OIDC/IntrospectionClient.cs:61 | A scheme that equals `Bearer` ignoring case is a valid token. |
| OidcIntrospection.AcceptsBearerToken | SimpleAPI/OIDC/IntrospectionClient.cs:58-61 | Every letter-case spelling of `Bearer`, a space and a non-empty trimmed token is accepted and yields that token. |
| OidcIntrospection.RejectsBlankHeader | SimpleAPI/OIDC/IntrospectionClient.cs:58-61 | An absent, empty or white-space-only header yields no token. |
| OidcIntrospection.AcceptsWhiteSpaceToken | SimpleAPI/OIDC/IntrospectionClient.cs:60 | Only an empty parameter is rejected: a token made only of white space other than space and tab is accepted. |
| OidcIntrospection.NoBreakSpaceToken | SimpleAPI/OIDC/IntrospectionClient.cs:60 | Such tokens exist: a single no-break space is one. |
| OidcChallenge.BearerTokenResult.constructor | SimpleAPI/OIDC/BearerTokenResult.cs:9-13 | The result keeps the scope it is given. |
| OidcChallenge.BearerTokenResult.ExecuteResult | SimpleAPI/OIDC/BearerTokenResult.cs:14-29 | Status 401; `WWW-Authenticate` is set to the `Bearer` challenge, replacing any earlier value; every other header is unchanged. |
| OidcChallenge.ChallengeParameter | SimpleAPI/OIDC/BearerTokenResult.cs:16-24 | The parameter is non-empty with no surrounding white space. It is the plain `scope="openid"` exactly when the scope is absent, blank or `openid`. |
| OidcChallenge.RealmRoundTrip | SimpleAPI/OIDC/BearerTokenResult.cs:17-24 | The challenge names a realm exactly when the scope is present, not blank and not `openid`, and then the realm read back is the scope. |
| OidcChallenge.OpenIdOnlyExactly | SimpleAPI/OIDC/BearerTokenResult.cs:17-24 | Every scope that names a realm gives a header different from the plain `scope="openid"` one. |
| OidcChallenge.OpenIdIsCaseSensitive | SimpleAPI/OIDC/BearerTokenResult.cs:17 | The `openid` test is case-sensitive: the scope `OpenID` names a realm. |
| OidcChallenge.ChallengeParses | SimpleAPI/OIDC/BearerTokenResult.cs:25-27 | This is the contract of `Challenge`. For every scope, the header value parses back under the simplified credentials parser as scheme `Bearer` with the chosen parameter. |
| LegacyClient.GetConfiguration | OIDC/Client.cs:33-38 | One GET of `issuer + "/.well-known/openid-configuration"`; its result is whatever the server returns for that URL. |
| LegacyClient.NewHttpBasic | OIDC/Client.cs:40-44 | Scheme `Basic`; the parameter decodes, through Base64 and UTF-8, to `id:secret`, and from there to the id and secret when the id has no colon. |
| LegacyClient.NewIntrospectionRequest | OIDC/Client.cs:46-54 | A new POST to the endpoint, authenticated as `API_CLIENT` (`api` / `secret`), whose form has exactly one field, `token`, holding the token. |
| LegacyClient.InvokeIntrospectionRequest | OIDC/Client.cs:56-65 | First the discovery GET of `ISSUER`. If it fails, nothing else is sent. Otherwise exactly one introspection POST goes to the discovered endpoint. The result is `ReadReply` of the reply, with no status check: JSON `null` or a non-object gives `null`, a body that is not JSON gives a fault. |
| LegacyClient.ParseObject | OIDC/Client.cs:63 | `JsonValue.Parse(...) as JsonObject` on a reply body. It throws exactly when the body is not JSON. It gives `null` exactly when the body is JSON `null` or a JSON value that is not an object. Otherwise it gives that object whole, whatever the types of its members. |
| LegacyClient.ReadReply | OIDC/Client.cs:60-63 | How a reply is read, with no status check. A failed POST faults, and any body is read by `ParseObject`. |
| LegacyClient.CheckAuthorization | OIDC/Client.cs:69-78 | The header is accepted exactly when it is not blank, parses, has scheme `Bearer` exactly and a parameter that is not blank. It throws exactly when it is not blank and does not parse. The accepted token is that parameter. |
| LegacyClient.Conclude | OIDC/Client.cs:79-89 | The `Task<bool>` result is `true` exactly when the reply was read and `active` is `true`, and `false` exactly when `active` is `false`. It throws exactly when the `Task` faulted, its result is `null`, or `active` is absent, `null` or not a boolean. |
| LegacyClient.TryValidateAuthorization | OIDC/Client.cs:67-90 | Returns `true` exactly when the out parameter is set, and then `active` is `true`. A rejected or unparsable header makes no call and returns `false` or throws. Otherwise the discovery GET comes first, and a failed GET throws. When the POST is sent, it carries the header's token and the `API_CLIENT` `Basic` credentials, the outcome is `Conclude` of the read reply, and the out parameter is that reply. |
| LegacyClient.Challenge | OIDC/Client.cs:108-117 | The challenge starts with `Bearer` and a space. Without a realm, it is the value the current version sends. |
| LegacyClient.BearerTokenResult.constructor | OIDC/Client.cs:100-102 | A new result has no scope. |
| LegacyClient.BearerTokenResult.ExecuteResult | OIDC/Client.cs:103-122 | Status 401. The challenge is added when no `WWW-Authenticate` header was there (`added`). When one was there, `Headers.Add` throws and the headers stay as they were. |
| LegacyClient.BearerToken | OIDC/Client.cs:92-98 | A new result whose `Scope` is the given scope. |
| Versions.LegacyAcceptIsCurrentAccept | OIDC/Client.cs:75 | Every token the legacy check accepts, the current check accepts too, with the same token. |
| Versions.CurrentAcceptsMore | SimpleAPI/OIDC/IntrospectionClient.cs:58-61 | The headers that only the current version accepts are exactly those whose scheme is `Bearer` in another letter case or whose token is all white space. The legacy version returns `false` on them without throwing. No header the legacy version throws on is accepted by the current one. |
| Versions.LowerCaseScheme | OIDC/Client.cs:75 | `bearer` in lower case, a space and any non-empty trimmed token: the current version accepts it with that token, the legacy one rejects it. |
| Versions.WhiteSpaceToken | OIDC/Client.cs:75 | `Bearer` followed by a white-space token is accepted by the current version and rejected by the legacy one. |
| Versions.CurrentChallengeWithRealm | SimpleAPI/OIDC/BearerTokenResult.cs:19 | With a realm, the current challenge is the realm part, a comma, and the scope part. |
| Versions.LegacyChallengeWithRealm | OIDC/Client.cs:108-112 | With a realm, the legacy challenge is the realm part directly followed by the scope part. |
| Versions.ChallengesDifferByComma | OIDC/Client.cs:108-117 | With a realm, the two challenges are the same realm and scope parts, with a comma between them only in the current version. Without a realm, the two challenges are equal. |
| Versions.ReadRepliesCompared | SimpleAPI/OIDC/IntrospectionClient.cs:53-55 | How the two versions read the same reply. A failed call fails in both. A status outside 2xx gives `null` in the current version. On a 2xx reply, the current version fails exactly when the legacy one does, or the body is JSON but not an object, or `active` or `sub` has the wrong type. It grants an identity exactly when the legacy version returns `true` and `sub` is not of the wrong type. |
| Versions.NonObjectBody | OIDC/Client.cs:63 | A 2xx body that is JSON but not an object, such as `[]` or `5`: the current version faults, the legacy one reads `null` and then throws at `task.Result["active"]`. |
| Versions.MistypedSubject | OIDC/Client.cs:81-84 | A 2xx body with a boolean `active` and a `sub` that is not a string: the current version faults, the legacy one never reads `sub` and returns `active`. |
| Versions.ErrorStatusStillActive | OIDC/Client.cs:60-63 | Take a reply with an error status whose body says `active: true`. The current version gives no identity; the legacy version returns `true`. |
| Versions.DiscoveryDocumentsDiffer | OIDC/Client.cs:36 | For every issuer, the legacy configuration URL differs from the current metadata URL. |

## Left out

- HTTP I/O, `async`/`await`, `Task.Wait` and `HttpClient`/`IHttpClientFactory`:
  - The network is the `Network` oracle, and each operation returns the calls it made.
  - Connection errors and time-outs are `Failed`.
  - So is a discovery GET answered with a status outside 2xx: `GetStreamAsync` and `GetStringAsync` throw on it.
  - In the legacy code, `task.IsCompletedSuccessfully` always holds once `Wait()` has returned, so it is not modelled separately.
- JSON parsing (`System.Text.Json`, `System.Json`): a reply body is not JSON, JSON `null`, a JSON value that is not an object, or an object.
  - Of an object, only the members `active` and `sub` are kept. Each is missing (absent or `null`), a value of the expected type, or a value of another type.
  - Each version reads that body its own way, in `Deserialize` and `ParseObject`.
  - A metadata document the client cannot use counts as a failed discovery; in the code each case ends in an exception:
    - Current version, a non-string `introspection_endpoint`: `JsonSerializer` throws.
    - Current version, an absent or `null` one: the request goes to a `null` URI, which throws.
    - Legacy version, an absent key: the indexer throws.
    - Legacy version, a JSON `null` value: the request goes to a `null` URI, which throws.
- Of the metadata and introspection models (`OpenIDConfigurationModel.cs`, `IntrospectionResponseModel.cs`), only `introspection_endpoint`, `active` and `sub` are kept.
- Configuration loading (`IConfiguration`, the `OAuth2` section): the constructor takes the three values directly. The missing-section exception is not modelled, because `GetSection` never returns `null`.
- `Startup`, `Program` and the controllers: not part of this model.
- Http.ParseCredentials: the `AuthenticationHeaderValue` grammar is simplified.
  - Kept: surrounding space/tab trimmed, a token scheme, and white space before the parameter.
  - Not kept: line folding, comma-separated lists and the quoted-string checks of the parameter.
- `FormUrlEncodedContent` percent-encoding: the form is the dictionary itself, `token` to the token.
- Text.EqualsIgnoreCase folds ASCII letters only. It is exact for schemes, which are ASCII token characters. Other uses of `InvariantCultureIgnoreCase` are not modelled.
- UTF-16: a Dafny `char` is a Unicode scalar value, so strings with lone surrogates (which .NET encodes as U+FFFD) are not modelled.
- Header dictionary names are compared exactly, not case-insensitively as ASP.NET does.
- URI validation of the endpoint and of the issuer URL.
- OidcIntrospection.IntrospectionClient.TryParseBearerAuthorization: returns the token instead of `bool` plus the parsed header in an out parameter. The header's scheme and parameter are stated in its contract.
- LegacyClient.Conclude: the legacy code reads `active` through the implicit `bool` conversion of `System.Json`, which converts a primitive with `Convert.ToBoolean`; so `"active": "true"` or `"active": 1` returns `true` in the code. The model does not capture this coercion: such a member is of another type than boolean, and `Conclude` gives `Threw`.
- OidcChallenge.ChallengeParses: "parses back" is under the simplified parser, which does not check quoted strings. A scope with a double quote gives a value that RFC 7235 and the .NET parser do not accept as a quoted string.
- OidcChallenge.RealmRoundTrip: requires that the scope has no double quote. The code does not escape quotes, so such a scope breaks the challenge syntax.
- LegacyClient.BearerTokenResult.ExecuteResult: the exception from `Headers.Add` is the `false` of `added`. The 401 set by the base `UnauthorizedResult` stays.
