# Cookie helpers and the protected-route guard, in Dafny

This project models the request-handling core of an SSO (single sign-on) integration library for Node HTTP servers:

- **`parseCookies`** reads a `Cookie` request header into a name-to-value record.
  - It splits the header on `;`.
  - It splits each segment on `=` and trims the pieces.
  - It percent-decodes the value; a later segment overwrites an earlier one.
- **`setCookie`** writes one `Set-Cookie` header.
  - The value is percent-encoded, and the `Domain`, `Path`, `Expires`, `HttpOnly` and `Secure` attributes follow in a fixed order.
  - An attribute is written only when its option is truthy.
- **`protectedRoute(roles?, options?)`** builds a middleware. It does one of four things:
  - answers 401 when the `Authorization` header is missing or the bearer token is invalid;
  - answers 404 when the token's user cannot be found;
  - throws when `roles` is truthy but not an array of strings (after the header, token and user checks pass);
  - answers 403 when the user lacks the required roles (all of them by default, at least one with `requireAllRoles: false`).

  Otherwise it attaches the token and the normalized user to the request and calls `next`.

The JavaScript built-ins the core relies on are modelled as well:

- `String.prototype.split` and `trim` (module `JsString`);
- `encodeURIComponent` and `decodeURIComponent`, with UTF-8 (module `UriComponent`);
- the string quoting of `JSON.stringify` (module `Json`).

Each of these comes with its own round-trip or characterization lemmas.

Modules:

| file | module | form |
|---|---|---|
| `wrappers.dfy` | `Wrappers` | `Option` |
| `js_string.dfy` | `JsString` | functions and lemmas |
| `uri_component.dfy` | `UriComponent` | functions and lemmas; a decoding error (`URIError`) is `None` |
| `json.dfy` | `Json` | functions and lemmas |
| `parse_cookies.dfy` | `ParseCookies` | pure: the `reduce` is a recursive fold returning `Option<map>` |
| `http.dfy` | `Http` | classes `Response` and `NextFunction`, whose methods update their fields, and `Request`, which holds the headers and the `token` and `user` fields the middleware attaches |
| `identity.dfy` | `Identity` | the identity-provider client as a datatype of functions |
| `set_cookie.dfy` | `SetCookie` | a method that builds the header step by step and calls `Response.SetHeader`, specified by the function `SetCookieHeader` |
| `protected_route.dfy` | `ProtectedRoute` | a class `Middleware` holding `roles` and `options`; its `Handle` method follows the closure's early returns and is specified by the pure function `Decide` |

JavaScript quirks the model keeps:

- **Absent value.** A segment without `=` reads `decodeURIComponent(undefined)`, which is the string `"undefined"`.
- **`__proto__`.** Assigning a string to `cookies['__proto__']` on an object literal changes nothing, so that cookie is dropped.
- **Array truthiness.** An empty `roles` array is truthy and still triggers the role check.
- **Token extraction.** `header.split(' ')[1]` is `undefined` when the header has no space. That value is still passed to `isJWTValid`.

## Model

| member | source | states |
|---|---|---|
| ParseCookies.SegmentName | src/utils/parseCookies.ts:6 | The name of a segment, the trimmed text before its first `=`, holds no `=` and no surrounding whitespace. |
| ParseCookies.RawSegmentValue | src/utils/parseCookies.ts:6 | The still-encoded value of a segment, the trimmed text between its first and second `=` (or "undefined"), holds no `=` and no surrounding whitespace. |
| ParseCookies.Assign | src/utils/parseCookies.ts:7 | `cookies[name] = value`: any name but `__proto__` now maps to the value, every other entry is kept, and `__proto__` is never added. |
| ParseCookies.Fold | src/utils/parseCookies.ts:4-11 | The `reduce` only ever adds names to the accumulator, and never `__proto__`. |
| ParseCookies.Segments | src/utils/parseCookies.ts:4 | `cookieHeader.split(';')` gives at least one segment, and no segment holds a `;`. |
| ParseCookies.Parse | src/utils/parseCookies.ts:1-2 | An absent (`undefined`) or empty header gives the empty record. |
| ParseCookies.ParseFails | src/utils/parseCookies.ts:4-11 | For a non-empty header, `parseCookies` throws exactly when the value of some `;`-segment fails to decode. |
| ParseCookies.FoldFails | src/utils/parseCookies.ts:4-11 | The `reduce` fails exactly when some segment's value fails to decode, from any accumulator. |
| ParseCookies.ParseKeys | src/utils/parseCookies.ts:4-11 | The keys of the parsed record are exactly the trimmed names of the segments, except `__proto__` (both directions). |
| ParseCookies.FoldKeys | src/utils/parseCookies.ts:4-11 | The fold adds exactly the segment names, except `__proto__`, to the accumulator's keys, and never adds `__proto__`. |
| ParseCookies.ParseLastWins | src/utils/parseCookies.ts:4-11 | The value under a name is the decoded value of the last segment with that name. |
| ParseCookies.FoldLastWins | src/utils/parseCookies.ts:7 | The same, for the fold from any accumulator. |
| ParseCookies.FoldUntouched | src/utils/parseCookies.ts:7 | A name no segment carries keeps its accumulator entry, or stays absent. |
| ParseCookies.SegmentWithValue | src/utils/parseCookies.ts:6 | For `name=value` (no other `=`), the name is `trim(name)` and the raw value is `trim(value)`. |
| ParseCookies.SegmentWithSecondEquals | src/utils/parseCookies.ts:6 | The text after a second `=` is dropped: `name=value=rest` has raw value `trim(value)`. |
| ParseCookies.SegmentWithoutValue | src/utils/parseCookies.ts:6-7 | A segment without `=` is a name whose value is the string "undefined". |
| ParseCookies.PairSegment | src/utils/parseCookies.ts:6 | A pair `name=encodeURIComponent(value)`, with or without a leading space, has that name and that encoded value. |
| ParseCookies.HeaderSegments | src/utils/parseCookies.ts:4 | Splitting a header built from pairs on `;` gives the first pair's segment, then the segments of the rest. |
| ParseCookies.FoldCookieHeader | src/utils/parseCookies.ts:4-11 | Folding the segments of such a header adds the pairs in order. |
| ParseCookies.ParseCookieHeader | src/utils/parseCookies.ts:4-11 | Round trip: any `Cookie` header of `name=encodeURIComponent(value)` pairs joined by "; " (names without `;`, `=`, surrounding whitespace or `__proto__`) parses to the map of those pairs, the later pair winning. |
| ParseCookies.SinglePair | __tests__/utils/parseCookies.test.ts:12-16 | `name=value` with a plain value gives exactly `{ name: value }`. |
| ParseCookies.TwoPairs | __tests__/utils/parseCookies.test.ts:19-23 | `n1=v1; n2=v2` gives both pairs; with an empty `v1` this is the empty-value case at lines 40-44. |
| ParseCookies.EncodedSpacesSurvive | __tests__/utils/parseCookies.test.ts:26-30 | `name=%20v%20` gives " v ": trimming happens before decoding. |
| ParseCookies.WhitespaceTrimmed | __tests__/utils/parseCookies.test.ts:33-37 | Arbitrary whitespace around the name and around the value of a segment is removed. |
| ParseCookies.SecondEqualsDropsRest | src/utils/parseCookies.ts:6 | `name=value=rest` parses to `{ name: value }`. |
| ParseCookies.NameWithoutValue | src/utils/parseCookies.ts:6-7 | A header `name` without `=` gives `{ name: "undefined" }`. |
| ParseCookies.TrailingSemicolon | src/utils/parseCookies.ts:4-7 | A trailing `;` adds the entry `"" := "undefined"`. |
| ParseCookies.ProtoNameIgnored | src/utils/parseCookies.ts:7 | `__proto__=value` gives the empty record. |
| ParseCookies.MalformedEscapeFails | src/utils/parseCookies.ts:7 | `name=%` makes `parseCookies` throw (None). |
| ParseCookies.PlainValueFacts | src/utils/parseCookies.ts:6-7 | A value of unreserved characters encodes and decodes to itself and is untouched by splitting and trimming. |
| ParseCookies.EncodedValueIsInert | src/utils/setCookie.ts:15 | An encoded value holds no `;`, no `=` and no surrounding whitespace. |
| ParseCookies.PairText | src/utils/setCookie.ts:15 | `${name}=${encodeURIComponent(value)}`: for a name without `;`, the pair holds no `;`, and for a name without `=`, splitting it on `=` gives exactly the name and the encoded value. |
| JsString.Split | src/utils/parseCookies.ts:4 | `split` always returns at least one piece. |
| JsString.IsWhitespace | src/utils/parseCookies.ts:6 | The characters `trim` removes (ECMAScript WhiteSpace and LineTerminator) include no visible ASCII character, so no delimiter `;`, `=` or `%` is ever trimmed. |
| JsString.SplitPiecesLackSeparator | src/utils/parseCookies.ts:4 | No piece contains the separator. |
| JsString.JoinSplit | src/utils/parseCookies.ts:4 | Joining the pieces with the separator gives back the string. |
| JsString.SplitJoin | src/utils/parseCookies.ts:4 | Splitting a join of separator-free pieces gives back the pieces. |
| JsString.SplitNoSeparator | src/utils/parseCookies.ts:6 | A string without the separator is a single piece. |
| JsString.SplitAfterPiece | src/utils/parseCookies.ts:6 | A separator-free head followed by the separator becomes the first piece. |
| JsString.Join | src/protectedRoute.ts:60 | Joining `n` pieces free of the separator puts exactly `n - 1` separators in the result. `JsString.SplitJoin` proves that splitting on the separator gives the pieces back, so there is one separator between each two neighbours. |
| JsString.TrimStartSpec | src/utils/parseCookies.ts:6 | The left trim is a suffix: the removed characters are whitespace, and the result does not start with whitespace. |
| JsString.TrimEndSpec | src/utils/parseCookies.ts:6 | The right trim is a prefix: the removed characters are whitespace, and the result does not end with whitespace. |
| JsString.Trim | src/utils/parseCookies.ts:6 | `trim` never lengthens a string, and its result neither starts nor ends with whitespace. |
| JsString.TrimSpec | src/utils/parseCookies.ts:6 | `trim` gives a trimmed slice with only whitespace cut on either side. |
| JsString.TrimTrimmed | src/utils/parseCookies.ts:6 | A string is a fixed point of `trim` when it has no surrounding whitespace. |
| JsString.TrimIdempotent | src/utils/parseCookies.ts:6 | `trim(trim(s)) == trim(s)`. |
| JsString.TrimAfterWhitespace | src/utils/parseCookies.ts:6 | Leading whitespace before a non-whitespace start is exactly what the left trim removes. |
| JsString.TrimEndBeforeWhitespace | src/utils/parseCookies.ts:6 | Trailing whitespace after a non-whitespace end is exactly what the right trim removes. |
| JsString.TrimAround | src/utils/parseCookies.ts:6 | `trim(w1 + s + w2) == s` for whitespace `w1`, `w2` and trimmed `s`. |
| UriComponent.Encode | src/utils/setCookie.ts:15 | `encodeURIComponent` writes only unreserved characters and `%` escapes, and is never shorter than its input. |
| UriComponent.IsUnreserved | src/utils/setCookie.ts:15 | The characters `encodeURIComponent` keeps include every ASCII letter and digit, and are all visible ASCII other than `%`, `;`, `=` and the space. |
| UriComponent.EncodeIdentity | src/utils/setCookie.ts:15 | Encoding leaves a string unchanged exactly when every character is unreserved. |
| UriComponent.EncodeAppend | src/utils/setCookie.ts:15 | Encoding distributes over concatenation. |
| UriComponent.EncodeSpace | src/utils/setCookie.ts:15 | A space encodes as `%20`. |
| UriComponent.Utf8Encode | src/utils/setCookie.ts:15 | A character is one to four UTF-8 bytes. |
| UriComponent.Utf8RoundTrip | src/utils/setCookie.ts:15 | UTF-8 decoding inverts encoding for every character. |
| UriComponent.DecodeEscape | src/utils/parseCookies.ts:7 | A successful escape decoding consumes at least three and at most the remaining characters. |
| UriComponent.DecodeWithoutPercent | src/utils/parseCookies.ts:7 | A string without `%` decodes to itself. |
| UriComponent.DecodeEscapeOfChar | src/utils/parseCookies.ts:7 | The escapes of one encoded character decode back to it. |
| UriComponent.Decode | src/utils/parseCookies.ts:7 | `decodeURIComponent` (None standing for its `URIError`) never gives a string longer than its input. `ParseCookies.MalformedEscapeFails` shows a failing escape, and `UriComponent.DecodeEncode` the round trip. |
| UriComponent.DecodeEncode | src/utils/parseCookies.ts:7 | Round trip: `decodeURIComponent(encodeURIComponent(s)) == s` for every string. |
| Json.EscapeChar | src/protectedRoute.ts:21 | A character is copied as is exactly when it needs no JSON escape. |
| Json.Quote | src/protectedRoute.ts:21 | `JSON.stringify` of a string begins and ends with a double quote and is at least two characters longer than the string. |
| Json.ErrorBody | src/protectedRoute.ts:21 | `JSON.stringify({ error: message })` begins with `{"error":"`, ends with `"}`, and is at least 12 characters longer than the message. `Json.PlainErrorBody` gives the exact body for a plain message, and `Json.UnescapeEscape` reads the quoted part back to the message. |
| Json.EscapePlainText | src/protectedRoute.ts:21 | The quoted text equals the message exactly when no character needs escaping. |
| Json.PlainErrorBody | src/protectedRoute.ts:21 | A message without quotes, backslashes or control characters is written as `{"error":"<message>"}`. |
| Json.UnescapeEscape | src/protectedRoute.ts:21 | Round trip: reading the JSON string contents back gives the message. |
| Http.Response.SetHeader | src/utils/setCookie.ts:37 | `setHeader` replaces the header's value and records the call; nothing else changes. |
| Http.Response.End | src/protectedRoute.ts:21 | `end(body)` appends the body; status and headers are unchanged. |
| Http.NextFunction.Call | src/protectedRoute.ts:81 | `next()` is counted. |
| SetCookie.SetCookie | src/utils/setCookie.ts:3-38 | One `setHeader('Set-Cookie', …)` call with the value `SetCookieHeader(name, value, options)`; status and bodies are untouched. |
| SetCookie.SetCookieHeader | src/utils/setCookie.ts:15-35 | The header value always begins with `name=encodeURIComponent(value)`. |
| SetCookie.Attributes | src/utils/setCookie.ts:17-35 | At most five attributes are written, and none exactly when no option is truthy. |
| SetCookie.TruthyText | src/utils/setCookie.ts:17-23 | `if (options.domain)`, `if (options.path)`: `undefined` and the empty string are falsy, and every other string is truthy. |
| SetCookie.TruthyFlag | src/utils/setCookie.ts:29-35 | `if (options.httpOnly)`, `if (options.secure)`: truthy exactly when the flag is `true`. |
| SetCookie.AttributeText | src/utils/setCookie.ts:18-34 | Every text a `cookie +=` step appends starts with the `; ` separator and is at least seven characters long. |
| SetCookie.AttributeStep | src/utils/setCookie.ts:17-35 | One `cookie +=` step extends the header's attribute list by the attribute whose text it appends. |
| SetCookie.AttributesTextAppend | src/utils/setCookie.ts:17-35 | Each `cookie +=` step appends the text of one more attribute. |
| SetCookie.AttributesOrdered | src/utils/setCookie.ts:17-35 | The attributes appear in strictly increasing order Domain, Path, Expires, HttpOnly, Secure, each at most once. |
| SetCookie.DomainPresence | src/utils/setCookie.ts:17-19 | `Domain=d` is written exactly when `domain` is the non-empty string `d`. |
| SetCookie.PathPresence | src/utils/setCookie.ts:21-23 | `Path=p` is written exactly when `path` is the non-empty string `p`. |
| SetCookie.ExpiresPresence | src/utils/setCookie.ts:25-27 | `Expires` is written exactly when a date is given, with that date's UTC text. |
| SetCookie.FlagPresence | src/utils/setCookie.ts:29-35 | `HttpOnly` and `Secure` are written exactly when those options are `true`. |
| SetCookie.FalsyOptionsIgnored | src/utils/setCookie.ts:17-35 | An empty domain or path and `false` flags add nothing. |
| SetCookie.HeaderStartsWithPair | src/utils/setCookie.ts:15 | Whatever the options, the header begins with the header written without options. |
| SetCookie.NoOptionsHeader | __tests__/utils/setCookie.test.ts:15-19 | Without options the header is `name=encodeURIComponent(value)`. |
| SetCookie.DomainOnlyHeader | __tests__/utils/setCookie.test.ts:22-26 | `{ domain: d }` gives `name=value; Domain=d`. |
| SetCookie.PathOnlyHeader | __tests__/utils/setCookie.test.ts:29-33 | `{ path: p }` gives `name=value; Path=p`. |
| SetCookie.ExpiresOnlyHeader | __tests__/utils/setCookie.test.ts:36-44 | `{ expires }` gives `name=value; Expires=<toUTCString()>`. |
| SetCookie.FlagOnlyHeaders | __tests__/utils/setCookie.test.ts:47-58 | `{ httpOnly: true }` and `{ secure: true }` add the bare flag. |
| SetCookie.AllOptionsHeader | __tests__/utils/setCookie.test.ts:68-83 | All five options give `; Domain=…; Path=…; Expires=…; HttpOnly; Secure`, in that order. The test's trailing `SameSite` is not written. |
| SetCookie.SetThenParse | src/utils/setCookie.ts:15 | Round trip with `parseCookies`: a cookie set without options is parsed back, from the pair a user agent returns, as `{ name: value }`. |
| ProtectedRoute.Middleware.Handle | src/protectedRoute.ts:16-82 | The middleware's effect on `req`, `res` and `next` is that of `Decide`. It either answers (status and JSON body; `next` not called; `req` untouched), throws (nothing written), or attaches `token` and `user` and calls `next` exactly once. |
| ProtectedRoute.Middleware.constructor | src/protectedRoute.ts:15 | The middleware keeps the `roles` and `options` it was built with. |
| ProtectedRoute.Answer | src/protectedRoute.ts:20-21 | Sets the status and ends the response with `JSON.stringify({ error: message })`. |
| ProtectedRoute.AuthorizationHeader | src/protectedRoute.ts:18 | `req.headers['authorization']` is `undefined` exactly when the request has no such header, and otherwise its value. |
| ProtectedRoute.AllStrings | src/protectedRoute.ts:49 | `roles.every((item) => typeof item === 'string')` is true of the empty array, and true exactly when no item is a non-string. |
| ProtectedRoute.Decide | src/protectedRoute.ts:18-81 | The middleware's behaviour as a value. Answers are 401, 403 or 404 only; a request is let through only with a non-empty header, carrying that header's bearer token; and the only exception is the misuse error, for a truthy `roles`. |
| ProtectedRoute.BearerToken | src/protectedRoute.ts:26 | `header.split(' ')[1]` never contains a space. |
| ProtectedRoute.RolesTruthy | src/protectedRoute.ts:49 | `if (roles)`: `undefined` is falsy, and every array, even an empty one, is truthy. |
| ProtectedRoute.OneRoleSuffices | src/protectedRoute.ts:55 | One role is enough exactly when `options` is given with `requireAllRoles === false`. |
| ProtectedRoute.AnyRoleMessage | src/protectedRoute.ts:60 | The at-least-one message ends with the names, comma-joined, in brackets. |
| ProtectedRoute.AllRolesMessage | src/protectedRoute.ts:69 | The all-roles message ends with the names, comma-joined, in brackets. |
| ProtectedRoute.RoleNames | src/protectedRoute.ts:49 | An all-strings `roles` array is read as the list of its strings, element by element. |
| ProtectedRoute.BearerTokenSpec | src/protectedRoute.ts:26 | The token is `undefined` exactly when the header has no space, and never contains a space. |
| ProtectedRoute.BearerTokenOfHeader | src/protectedRoute.ts:26 | `Bearer t` and `Bearer t more` both give `t`. |
| ProtectedRoute.ProceedIff | src/protectedRoute.ts:18-81 | A request is let through exactly when each check passes, in both directions: header present and non-empty, token valid, payload and user found, and `roles` either falsy or an array of strings the user satisfies in the selected mode. |
| ProtectedRoute.ProceedCarries | src/protectedRoute.ts:76-78 | A request let through carries `header.split(' ')[1]` as its token and the normalized user. |
| ProtectedRoute.ThrowIff | src/protectedRoute.ts:49-51 | The middleware throws, with the misuse message, exactly when the user is authenticated and found and `roles` is truthy but not an array of strings. |
| ProtectedRoute.RespondStatus | src/protectedRoute.ts:19-73 | Every answer is 401 (missing header, invalid token), 404 (user not found) or 403 (role check failed, with the role message of the selected mode). |
| ProtectedRoute.NoHeaderUnauthorized | src/protectedRoute.ts:18-23 | A missing or empty header gives 401 "No authorization header found.", whatever the library answers. |
| ProtectedRoute.InvalidTokenUnauthorized | src/protectedRoute.ts:26-36 | An invalid token gives 401 with the re-log message, whatever the roles. |
| ProtectedRoute.UnknownUserNotFound | src/protectedRoute.ts:39-45 | A missing payload or normalized user gives 404 "User not found.", before the roles are examined. |
| ProtectedRoute.NoRolesNoRoleCheck | src/protectedRoute.ts:54 | With a falsy `roles`, neither role function is consulted and the middleware never throws. |
| ProtectedRoute.ModeSelection | src/protectedRoute.ts:55-73 | Only `requireAllRoles === false` selects `hasAtLeastOneRole`; otherwise `hasAllRoles` decides. The function not selected has no influence. |
| ProtectedRoute.MissingClientRolesForbidden | src/protectedRoute.ts:46-73 | A token without `client_roles` is refused with 403 whenever a `roles` array is given, even an empty one. |
| ProtectedRoute.RoleMessages | src/protectedRoute.ts:60 | `${roles}` joins the role names with commas (`[Admin,Super]`), and an empty list gives `[]`. |

## Left out

- The route handlers (`login`, `loginCallback`, `logout`, `logoutCallback`, `token`) and the configuration module (`src/config.ts`) are not part of this model. Neither are the identity-provider library's internals: its five functions are parameters (`Identity.IdentityClient`), so the client id and secret that `isJWTValid` receives from the configuration do not appear.
- The guard's asynchrony: `await isJWTValid(...)` is taken as its resolved value. A rejected promise, and exceptions thrown by `decodeJWT`, `normalizeUser`, `hasAllRoles` or `hasAtLeastOneRole`, are not modelled. So `normalizeUser` receiving `null` when `decodeJWT` finds no payload is only a call with `None` here.
- What `next()` runs downstream: only the call is counted.
- `Date.prototype.toUTCString`: a date is represented by its UTC text.
- Header-name case: Node matches header names case-insensitively. `Response.headers` is keyed by the name as given, and `Request.headers` by the lower-case names Node stores.
- JavaScript strings are UTF-16, but Dafny characters are Unicode scalar values. Lone surrogates, on which `encodeURIComponent` throws, cannot occur in the model. `decodeURIComponent` refuses escapes of surrogate code points, as the standard's UTF-8 check does.
- Key order and prototype behaviour of the result object other than `__proto__` are not modelled: the record is a `map`.
- setCookie's `sameSite`: the code has no such option and never writes it. The tests at `__tests__/utils/setCookie.test.ts:61-66` and `:68-83` expect `; SameSite=None`. The model follows the code.
- SetCookie.SetCookie: Node's `res.setHeader` can throw, and the model always writes the header. It throws `ERR_INVALID_CHAR` when the value holds a character other than tab, 0x20-0x7E or 0x80-0xFF, which can happen because the name, domain, path and `Expires` text are written verbatim (`src/utils/setCookie.ts:15-26`). It throws `ERR_HTTP_HEADERS_SENT` once the headers have been sent. For such inputs the contract's single write claims more than Node does.
- ProtectedRoute.RoleMessages: states the comma join for the role lists used there (two names, one name, none) rather than for every list. The general join is `JsString.Join`, which the model uses.

## Behaviour worth knowing

- **Token extraction.** The token is `header.split(' ')[1]` (`src/protectedRoute.ts:26`), the text between the first and the second space. `Bearer a b` gives `a`, and a header without a space gives `undefined`. See `BearerTokenOfHeader` and `BearerTokenSpec`.
- **Value of a segment.** It is the text between the first and the second `=` (`src/utils/parseCookies.ts:6`). Anything after a second `=` is dropped.
- **Segment without `=`.** Its value is `decodeURIComponent(undefined)`, the string "undefined" (`src/utils/parseCookies.ts:6-7`).
- **Errors.** A malformed percent escape makes `decodeURIComponent` throw a `URIError` that `parseCookies` does not catch (`src/utils/parseCookies.ts:7`). The model represents this as `None`.
- **Attribute set.** `setCookie` writes no attribute after `Secure` (`src/utils/setCookie.ts:33-37`). The repository's own tests at `__tests__/utils/setCookie.test.ts:61-83` expect a trailing `; SameSite=None` that the code never writes.
