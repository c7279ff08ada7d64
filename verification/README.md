# FAFO gate: a Dafny model

FAFO is a podcast site hosted as Cloudflare Pages Functions. This project
models the request handlers that guard it and proves what they promise.

- **`POST /api/subscribe`** (`functions/api/subscribe.ts`).
  - It checks the Supabase configuration, reads the JSON body, and normalises and validates the email and name.
  - It upserts the subscriber into `mailing_list`.
  - It then mints a signed gate token and sets it as the `fafo_gate` cookie.
  - The token is the base64url of the JSON payload `{email, iat, exp}`, a dot, and the base64url of its HMAC-SHA-256.
- **`POST /api/send-otp`** (`functions/api/send-otp.ts`): asks Supabase to e-mail a login link whose `redirect_to` is the site's `/auth/callback`.
- **`GET /auth/callback`** (`functions/auth/callback.ts`): exchanges the `code` for a session, then redirects to `next` carrying the session cookies.
- **The middlewares** (`functions/_middleware.ts`, `Functions/_middleware.ts`).
  - The first `onRequest` of `functions/_middleware.ts` is a bare allowlist.
  - The second, which `Functions/_middleware.ts` repeats, checks the Supabase session.
  - Without a user it redirects to `/login/`.
  - Otherwise it serves the page with the cookies the Supabase client wrote.
- **The episode catalog** (`functions/_episodes.ts`), and its lookup by id with `EPISODES.find` in the download handler.

The model follows the form of the source.

- The handlers' decision logic is made of pure functions over their inputs.
- The `cookies` object handed to `createServerClient` is the class `SupabaseCookies.CookieJar`. Its `set` and `remove` push onto `setCookies`.
- A response whose header list is appended to is the class `Http.Response`.
- The loops of `parseCookies`, `serializeCookie`, `base64url` and the `Set-Cookie` appending are methods. Each is proved against the function that specifies it.

The JavaScript and web primitives the handlers lean on are modelled concretely. The codecs are proved against their inverses; `trim` and `toLowerCase` are characterised by what they keep and what they drop:

- `trim`, one-character `split`, `join` and `toLowerCase` (ASCII). `split` and `join` are inverses.
- `encodeURIComponent` and `decodeURIComponent`, with `URIError` as `None`.
- `btoa` (section 4 of RFC 4648).
- `TextEncoder` (UTF-8, RFC 3629).
- `JSON.stringify` of strings and integers.

Observations that the lemmas make precise:

- **`remove` leaves no `Max-Age` on the cookie.** It passes `maxAge: 0`, and `if (options.maxAge)` treats 0 as false. `Cookies.RemovalCookie` states the exact attribute list.
- **The callback's redirect target is unchecked.** It is `next` as given, and nothing confines it to the site (`AuthCallback.NextUnchecked`).
- **The first `onRequest` falls off its end.** For every path not on its allowlist it returns `undefined`. It admits `/login` but not `/login/`, which is where the session middleware sends visitors (`Session.FirstAllowlistEdges`).
- **The session bypass is a prefix test.** `/login-help` is public too (`Session.NoRedirectLoop`).
- **The subscribe handler checks `GATE_COOKIE_SECRET` only after the upsert.** A missing secret is a 500 after the write (`Subscribe.MissingSecretAfterWrite`).
- **`send-otp` does not trim its configuration.** A value of spaces counts as set (`SendOtp.MissingConfigFirst`).
- **The callback throws on every login that writes a cookie.** It builds its redirect with `Response.redirect`, whose headers the Fetch standard makes immutable, and then calls `headers.append`, which throws a `TypeError` on them (see Findings; `AuthCallback.LoginWithSessionCookieThrows`). The middleware's redirects append nothing, so they are unaffected.
- **`functions/_middleware.ts` does not load.** It exports `onRequest` twice, as a function declaration and as a `const`, and a duplicate export name is an early `SyntaxError` in an ES module. Each export is modelled as written, as `Session.FirstOnRequest` and `Session.SessionDecision`; `Functions/_middleware.ts`, which holds only the second, parses.
- **`functions/api/subscribe.ts` does not parse either.** The arrow function `onRequestPost` opened at line 45 is never closed: the file ends at line 96 with the `});` of the final `new Response(`, one `}` short. The model treats the handler as if the closing `};` were present.
- **The two `onRequest` exports disagree on `/login/`.** The first returns `undefined` for every path under `/login/` without a dot, while the second treats the same paths as public (`Session.LoginSubtreeDisagrees`).

## Model

| member | source | states |
|---|---|---|
| Strings.Trim | functions/api/subscribe.ts:60-61 | the trimmed text is the slice of the input between its leading and its trailing whitespace, which is all that is dropped; it neither starts nor ends with whitespace |
| Strings.TrimSlice | functions/api/subscribe.ts:60-61 | trimming the start and then the end leaves a slice with only whitespace before and after it |
| Strings.TrimStart | functions/api/subscribe.ts:60 | what is dropped is all whitespace, and what is kept is a suffix that does not start with whitespace |
| Strings.TrimEnd | functions/api/subscribe.ts:60 | what is dropped is all whitespace, and what is kept is a prefix that does not end with whitespace |
| Strings.TrimUnchanged | functions/_middleware.ts:26 | a string with no whitespace at either end is its own trim |
| Strings.Split | functions/_middleware.ts:25-26 | `split` on one character gives at least one piece, no piece holds the separator, and joining the pieces with it gives the input back |
| Strings.SplitJoin | functions/_middleware.ts:26-28 | splitting undoes joining when no piece holds the separator |
| Strings.JoinInjective | functions/_middleware.ts:26-28 | two separator-free piece lists with the same join are equal |
| Strings.JoinHead | functions/_middleware.ts:26-28 | a join starts with its first piece, followed by the separator and the join of the rest |
| Strings.SplitHead | functions/_middleware.ts:25 | the first piece of a split is the text before the first separator |
| Strings.JoinCons | functions/_middleware.ts:41 | putting a piece in front of a non-empty list puts the piece and the separator in front of the join |
| Strings.JoinSnoc | functions/auth/callback.ts:23-24 | appending a piece to a non-empty list appends the separator and the piece to the join |
| Strings.JoinConsChar | functions/_middleware.ts:26 | a character put in front of the first piece ends up in front of the join |
| Strings.Utf16Length | functions/api/subscribe.ts:64 | `length` counts UTF-16 units, between one and two per character, and equals the character count when every character is in the Basic Multilingual Plane |
| Strings.ToLowerAscii | functions/api/subscribe.ts:60 | lower-casing keeps the length, leaves no upper-case ASCII letter, maps each upper-case letter 32 code points down and keeps every other character |
| Strings.LowerKeeps | functions/api/subscribe.ts:60-63 | a character that is not an ASCII letter, such as `@`, occurs after lower-casing exactly when it occurred before |
| Strings.LowerKeepsWhitespace | functions/api/subscribe.ts:60 | lower-casing neither creates nor removes whitespace at any position |
| Strings.LowerKeepsTrimmed | functions/api/subscribe.ts:60 | a trimmed string stays trimmed after lower-casing |
| Strings.HexValue | functions/_middleware.ts:28 | a character has a hexadecimal value exactly when it is a digit or a letter A to F of either case |
| Strings.NatToString | functions/api/subscribe.ts:81 | the decimal rendering of a natural number is non-empty, all digits, and reads back as the number |
| Strings.IntToString | functions/api/subscribe.ts:81 | the rendering of an integer is digits, after a leading `-` exactly when the integer is negative |
| Utf8.CharBytes | functions/api/subscribe.ts:40 | `TextEncoder` writes one to four bytes per character |
| Utf8.EncodeText | functions/api/subscribe.ts:40 | the UTF-8 bytes are at least as many as the characters |
| Utf8.CharBytesDecode | functions/api/subscribe.ts:40 | the bytes of one character form a well-formed sequence that decodes to that character |
| Utf8.DecodeEncodeText | functions/api/subscribe.ts:40 | strict UTF-8 decoding of what `TextEncoder` wrote gives the string back |
| UriEncoding.EscapeAll | functions/_middleware.ts:35 | percent-encoding bytes gives three characters per byte, each unreserved or `%` |
| UriEncoding.EncodeChar | functions/_middleware.ts:35 | the encoding of one character holds only unreserved characters and `%` |
| UriEncoding.EncodeURIComponent | functions/_middleware.ts:35 | `encodeURIComponent` leaves only unreserved characters and `%` escapes |
| UriEncoding.EncodedCharIsPlain | functions/_middleware.ts:35 | no character `encodeURIComponent` writes is whitespace, `;`, `=`, `&`, `#` or `?` |
| UriEncoding.EncodedIsPlain | functions/api/send-otp.ts:22 | an encoded string holds no whitespace and no cookie, query or fragment delimiter |
| UriEncoding.EncodeUnreserved | functions/api/subscribe.ts:93 | a string of unreserved characters is left unchanged by `encodeURIComponent` |
| UriEncoding.ReadEscape | functions/_middleware.ts:28 | a `%XX` escape is read only where `s` starts with `%` and has room for two digits |
| UriEncoding.ReadContinuations | functions/_middleware.ts:28 | reading `m` escaped continuation bytes yields exactly `m` continuation bytes |
| UriEncoding.ReadEscapeOf | functions/_middleware.ts:28 | the escape written for a byte reads back as that byte |
| UriEncoding.ReadContinuationStep | functions/_middleware.ts:28 | one escaped continuation byte is read before the rest, as the rest would be on its own |
| UriEncoding.ReadContinuationsOf | functions/_middleware.ts:28 | escaped continuation bytes read back as the same bytes |
| UriEncoding.DecodeEncodedChar | functions/_middleware.ts:28 | decoding reads the encoding of a character as that character, then decodes the rest |
| UriEncoding.DecodeURIComponent | functions/_middleware.ts:28 | `decodeURIComponent`, with `URIError` as `None`; its property is `UriEncoding.DecodeEncode` |
| UriEncoding.DecodeEncode | functions/_middleware.ts:28 | `decodeURIComponent(encodeURIComponent(s)) == s` for every string |
| Json.Unescape | functions/api/subscribe.ts:76 | a JSON escape consumes at least one and at most the available characters |
| Json.DigitPrefix | functions/api/subscribe.ts:40 | the digit prefix is the longest run of leading digits |
| Json.ReadControlEscape | functions/api/subscribe.ts:76 | a control character written as a lower-case `\u00XX` escape reads back as that character |
| Json.ReadShortEscape | functions/api/subscribe.ts:76 | a two-character escape reads back as the character it stands for |
| Json.ReadQuotedChar | functions/api/subscribe.ts:76 | every character as `JSON.stringify` writes it inside a string reads back as that character |
| Json.ReadQuoteBody | functions/api/subscribe.ts:76 | a quoted body followed by the closing quote reads back as the text and what follows |
| Json.Quote | functions/api/subscribe.ts:76 | `JSON.stringify` of a string; its property is `Json.ReadQuote` |
| Json.ReadQuote | functions/api/subscribe.ts:76 | reading `JSON.stringify(s)` back gives `s` and leaves what follows |
| Json.DigitPrefixOf | functions/api/subscribe.ts:40 | the digit prefix of digits followed by a non-digit is exactly those digits |
| Json.ReadNumber | functions/api/subscribe.ts:37-38 | reading the JSON text of an integer back gives the integer when no digit follows |
| Base64.Sextets | functions/api/subscribe.ts:19 | `n` bytes give `ceil(4n/3)` sextets |
| Base64.PaddedLength | functions/api/subscribe.ts:19 | the sextets and their `=` padding fill whole quanta of four characters |
| Base64.Btoa | functions/api/subscribe.ts:19 | `btoa` output has length `4 * ceil(n/3)`, a multiple of four |
| Base64.Latin1 | functions/api/subscribe.ts:16-18 | the string built from the bytes has one character per byte, every code below 256, and its codes are the bytes |
| Base64.StripTrailingPadding | functions/api/subscribe.ts:19 | `replace(/=+$/g, "")` drops exactly the trailing run of `=` and keeps the prefix before it |
| Base64.EncodeBase64Url | functions/api/subscribe.ts:15-20 | the byte loop followed by `btoa` and the replacements computes `Base64Url` of the array contents |
| Base64.StripPaddingSuffix | functions/api/subscribe.ts:19 | stripping removes exactly a padding suffix appended to a string that does not end in `=` |
| Base64.Base64UrlIsUnpaddedUrlEncoding | functions/api/subscribe.ts:19 | `base64url` equals the URL-safe alphabet encoding of section 5 of RFC 4648 with the padding left off |
| Base64.Base64UrlShape | functions/api/subscribe.ts:19 | the output has `ceil(4n/3)` characters, all URL-safe, with no `+`, `/`, `=` or `.` |
| Base64.TextSextetsOfUrlText | functions/api/subscribe.ts:19 | every URL-safe character reads back as its sextet |
| Base64.RegroupGroup | functions/api/subscribe.ts:19 | the sextets of three bytes regroup into the same three bytes |
| Base64.FromTwo | functions/api/subscribe.ts:19 | a final pair of sextets makes one byte |
| Base64.FromThree | functions/api/subscribe.ts:19 | a final triple of sextets makes two bytes |
| Base64.FromFour | functions/api/subscribe.ts:19 | four sextets make three bytes, ahead of the bytes of the rest |
| Base64.RegroupOne | functions/api/subscribe.ts:19 | one byte round-trips through its sextets |
| Base64.RegroupTwo | functions/api/subscribe.ts:19 | two bytes round-trip through their sextets |
| Base64.RegroupStep | functions/api/subscribe.ts:19 | a full group round-trips ahead of a rest that round-trips |
| Base64.FromSextetsOfSextets | functions/api/subscribe.ts:19 | every byte string round-trips through its sextets |
| Base64.Base64Url | functions/api/subscribe.ts:15-20 | `base64url`; its properties are `Base64.Base64UrlShape`, `Base64.Base64UrlIsUnpaddedUrlEncoding` and `Base64.DecodeBase64Url` |
| Base64.DecodeBase64Url | functions/api/subscribe.ts:15-20 | decoding undoes `base64url`, so the encoding is injective |
| Http.SetCookieHeadersAppend | functions/_middleware.ts:76-78 | appending cookie lines in two batches gives the same header list as appending them all at once |
| Http.Response.constructor | functions/api/subscribe.ts:3-7 | `new Response(body, {status, headers})` has the given body, status and header list, and its headers are mutable |
| Http.Response.Redirect | functions/auth/callback.ts:66 | `Response.redirect(url, status)` has an empty body, only the `Location` header, and immutable headers |
| Http.Response.Append | functions/auth/callback.ts:67 | `headers.append` succeeds exactly on mutable headers, and then adds the header after all others; on immutable headers it throws and changes nothing |
| Http.AppendSetCookies | functions/_middleware.ts:76-78 | the loop completes exactly when there are no lines or the headers are mutable, and then has appended one `Set-Cookie` header per line, in order; when it throws nothing was appended |
| Cookies.KeyValue | functions/_middleware.ts:26-28 | the key is the trimmed text before the first `=` and has no `=`, and the value is the rest with later `=` kept; without `=` the value is empty |
| Cookies.CookieMap | functions/_middleware.ts:22-31 | what `parseCookies` returns, or that it throws; its properties are `Cookies.ParsedCookies` and `Cookies.EmptyHeaderShortcut` |
| Cookies.ParseCookies | functions/_middleware.ts:22-31 | the loop returns the map `CookieMap` specifies, or fails where `decodeURIComponent` throws |
| Cookies.HasKeyCons | functions/_middleware.ts:25 | a key occurs in pairs exactly when it is the first pair's key or occurs in the rest |
| Cookies.AbsorbAllUntouched | functions/_middleware.ts:25-29 | a key no part carries keeps its entry, or its absence |
| Cookies.AbsorbAllKeys | functions/_middleware.ts:27-28 | the parsed keys are the accumulated ones plus the non-empty keys of the parts |
| Cookies.AbsorbAllLast | functions/_middleware.ts:28 | of several parts with the same key, the last one decides the value |
| Cookies.AbsorbAllFails | functions/_middleware.ts:27-28 | parsing fails exactly when some part with a non-empty key has a malformed value |
| Cookies.EmptyHeaderShortcut | functions/_middleware.ts:24 | a missing header gives no cookies, and an empty one gives what the loop would give |
| Cookies.HeaderPairs | functions/_middleware.ts:24-30 | the header is parsed part by part, the empty header included |
| Cookies.AbsorbAllSpec | functions/_middleware.ts:25-29 | over the parts: failure exactly on a malformed value under a non-empty key; the keys are the non-empty ones; the last duplicate wins |
| Cookies.ParsedCookies | functions/_middleware.ts:22-31 | `parseCookies` keys are exactly the non-empty part keys; each value is the decoded value of the last part with that key; it throws exactly on a malformed escape under a non-empty key |
| Cookies.SerializeCookie | functions/_middleware.ts:33-42 | the middleware's `serializeCookie`; its properties are `Cookies.SetCookieRoundTrip` and `Cookies.RemovalCookie` |
| Cookies.SerializeCookieWithExpires | functions/auth/callback.ts:15-25 | the callback's `serializeCookie`; its property is `Cookies.ExpiresOnlyExtends` |
| Cookies.BuildSetCookie | functions/_middleware.ts:33-42 | the push sequence builds the attribute list of section 4.1 of RFC 6265 in the source's order, with or without the callback's `Expires` |
| Cookies.ExpiresOnlyExtends | functions/auth/callback.ts:15-25 | the callback's serializer writes the middleware's line, plus `; Expires=...` exactly when `expires` is set |
| Cookies.EncodedIsInert | functions/_middleware.ts:35 | an encoded cookie value holds no `;`, no `=` and no whitespace |
| Cookies.KeyValueOfPair | functions/_middleware.ts:26-28 | a `name=value` pair written by the serializer splits back into that name and value |
| Cookies.PairRoundTrip | functions/_middleware.ts:35 | `name=encodeURIComponent(value)` parses back to the single cookie `name` with value `value` |
| Cookies.SetCookieRoundTrip | functions/_middleware.ts:33-42 | the first `;`-segment of any serialized line parses back to its name and value, whatever the options |
| Cookies.ForcedFlagsPresent | functions/_middleware.ts:62-65 | a line written through `set` or `remove` has `HttpOnly` and `Secure`, whatever options the caller passed |
| Cookies.RemovalCookie | functions/_middleware.ts:64-65 | a removal line is `name=`, `Path`, `HttpOnly`, `Secure`, `SameSite`, with no `Max-Age` because 0 is falsy |
| Cookies.RemovalHasNoMaxAge | functions/auth/callback.ts:52-55 | no attribute after the pair of a removal line is a `Max-Age`, with or without `Expires` |
| SupabaseCookies.CookieJar.constructor | functions/_middleware.ts:53-54 | the jar holds the parsed request cookies and starts with no `Set-Cookie` lines |
| SupabaseCookies.GetSeesHeader | functions/_middleware.ts:61 | `get(name)` finds a value exactly when the name is non-empty and some part of the `Cookie` header carries it, and the value is the decoded value of the last such part |
| SupabaseCookies.CookieJar.Set | functions/_middleware.ts:62-63 | `set` appends the line serialized with `httpOnly` and `secure` forced on, and nothing else changes |
| SupabaseCookies.CookieJar.Remove | functions/_middleware.ts:64-65 | `remove` appends the line for an empty value with `maxAge: 0` and the forced flags |
| SupabaseCookies.CookieLinesSnoc | functions/_middleware.ts:62-65 | one more call adds its line at the end |
| SupabaseCookies.Replay | functions/_middleware.ts:62-65 | the client's calls append exactly one line per call, in call order |
| SupabaseCookies.LinesAreForced | functions/_middleware.ts:62-65 | every line carries `HttpOnly` and `Secure`, and a removal line has an empty value and no `Max-Age` |
| SupabaseCookies.SetLineRoundTrip | functions/_middleware.ts:62-63 | the value a `set` writes parses back from its line's first segment |
| GateToken.Literal | functions/api/subscribe.ts:40 | what remains after a literal prefix, put behind the prefix, is the input |
| GateToken.LiteralOf | functions/api/subscribe.ts:40 | a string that starts with the prefix leaves exactly its rest |
| GateToken.GatePayload | functions/api/subscribe.ts:35-39 | the payload `{email, iat, exp}`; its property is `GateToken.PayloadLifetime` |
| GateToken.PayloadJson | functions/api/subscribe.ts:40 | `JSON.stringify(payload)`; its properties are `GateToken.PayloadJsonShape` and `GateToken.ParsePayloadJson` |
| GateToken.MakeGateToken | functions/api/subscribe.ts:34-43 | `makeGateToken`; its properties are `GateToken.TokenRoundTrip` and `GateToken.TokenIsUnreserved` |
| GateToken.PayloadJsonShape | functions/api/subscribe.ts:35-40 | `JSON.stringify(payload)` writes the keys `email`, `iat`, `exp` in insertion order |
| GateToken.ReadAfterIat | functions/api/subscribe.ts:37-40 | the `iat` number and the `exp` field read back from the payload text |
| GateToken.ParsePayloadJson | functions/api/subscribe.ts:35-40 | the payload's JSON text reads back as the payload |
| GateToken.PayloadLifetime | functions/api/subscribe.ts:37-38 | with the clock not running backwards, `exp - iat` is at least 180 days, and exactly that when both readings fall in the same second |
| GateToken.TokenRoundTrip | functions/api/subscribe.ts:34-43 | a token splits at its only dot; the first part decodes to the UTF-8 JSON of `{email, iat, exp}`; the second is the base64url MAC of the first under the UTF-8 secret |
| GateToken.SignatureLength | functions/api/subscribe.ts:22-32 | a 32-byte HMAC-SHA-256 digest gives a 43-character signature |
| GateToken.TokenIsUnreserved | functions/api/subscribe.ts:42 | every token character is one `encodeURIComponent` keeps, so the token needs no escaping in the cookie |
| Subscribe.GetIsNotPost | functions/api/subscribe.ts:9-11 | `GET` never answers with a status `POST` can give, and sets no cookie |
| Subscribe.OnRequestPost | functions/api/subscribe.ts:45-96 | the handler's answer for a body, an upstream answer, a secret, a MAC and two clock readings; its properties are the lemmas `Subscribe.MissingConfigFirst` to `Subscribe.GateCookieRoundTrip` below |
| Subscribe.MissingConfigFirst | functions/api/subscribe.ts:46-51 | without a URL or service key (after trimming), the answer is 500 whatever the body, and nothing is sent |
| Subscribe.NotJsonRejected | functions/api/subscribe.ts:53-58 | a configured handler answers a non-JSON body with 400 and sends nothing |
| Subscribe.BadEmailRejected | functions/api/subscribe.ts:60-63 | an empty email, or one without `@`, is a 400 "Invalid email" and nothing is sent |
| Subscribe.LongNameRejected | functions/api/subscribe.ts:61-64 | a valid email with a name over 120 UTF-16 units is a 400 "Name too long" and nothing is sent |
| Subscribe.AdmittedSendsUpsert | functions/api/subscribe.ts:66-77 | an admitted request sends the upsert with the trimmed URL and key and the normalised email and name |
| Subscribe.RejectedSendsNothing | functions/api/subscribe.ts:49-64 | a request that is not admitted sends nothing, sets no cookie, and fails with one of the four validation errors |
| Subscribe.UpstreamFailure | functions/api/subscribe.ts:79-82 | an upstream status outside 2xx is a 502 carrying that status and text, with no cookie |
| Subscribe.MissingSecretAfterWrite | functions/api/subscribe.ts:84-85 | a missing secret is a 500 after the upsert was sent |
| Subscribe.CookieOnlyOnSuccess | functions/api/subscribe.ts:45-96 | the status is 200, 400, 500 or 502; a cookie is set exactly on 200, exactly when the body is `{ok: true}`; 200 happens exactly when the request was admitted, the upsert succeeded and the secret is set |
| Subscribe.SuccessCookie | functions/api/subscribe.ts:84-95 | the 200 cookie carries the token minted from the trimmed secret and the normalised email |
| Subscribe.NormalizedEmail | functions/api/subscribe.ts:60-63 | the normalised email has no surrounding whitespace and no upper-case ASCII letter; it is empty, or holds `@`, exactly when the trimmed input is or does |
| Subscribe.GateAttributes | functions/api/subscribe.ts:93 | the serializer's attribute list for the gate cookie's options |
| Subscribe.LiteralGateCookie | functions/api/subscribe.ts:93 | for a token `encodeURIComponent` leaves alone, the literal header is the serializer's line |
| Subscribe.GateCookieIsSerialized | functions/api/subscribe.ts:93 | the literal `set-cookie` is what `serializeCookie` writes with `Path=/`, `HttpOnly`, `Secure`, `SameSite=Lax` and `Max-Age` equal to the token lifetime |
| Subscribe.GateCookieOf | functions/api/subscribe.ts:93 | an unreserved token comes back from the gate cookie's first segment |
| Subscribe.GateCookieRoundTrip | functions/api/subscribe.ts:87-93 | sent back by the browser, the gate cookie parses to `fafo_gate` mapped to the token |
| Subscribe.ReadNameValue | functions/api/subscribe.ts:76 | the name field reads back, with an empty name read as `null` |
| Subscribe.ReadUpsertFields | functions/api/subscribe.ts:76 | the reader takes the email literal and then the name field |
| Subscribe.UpsertBodyRoundTrip | functions/api/subscribe.ts:76 | the upsert body reads back as the email and the name, with an empty name sent as `null` |
| SendOtp.OnRequestPost | functions/api/send-otp.ts:1-47 | the handler's answer for a body, an origin and an upstream answer; its properties are the lemmas `SendOtp.MissingConfigFirst` to `SendOtp.UpstreamDecides` below |
| SendOtp.MissingConfigFirst | functions/api/send-otp.ts:2-7 | missing configuration is a 500 before the body is read; untrimmed, a URL of spaces counts as present |
| SendOtp.BadJsonIsInvalidEmail | functions/api/send-otp.ts:9-17 | an unparsable body is swallowed and ends as 400 "Invalid email." |
| SendOtp.EmailRule | functions/api/send-otp.ts:14-17 | the answer is 400 "Invalid email." exactly when the trimmed email is empty or lacks `@`, and the request is sent exactly when the answer is not 400 |
| SendOtp.SentRequest | functions/api/send-otp.ts:24-35 | the request goes to the OTP URL with the anon key as `apikey` and bearer token, and its body's email reads back as the trimmed input, letter case kept |
| SendOtp.RedirectParameter | functions/api/send-otp.ts:19-22 | the URL carries one `redirect_to` parameter, with no `&`, `#`, `=` or `?` in its value, which decodes to `origin/auth/callback` |
| SendOtp.UpstreamDecides | functions/api/send-otp.ts:37-46 | past validation, a non-2xx upstream answer is a 502 with its status and text, otherwise a 200 `{"ok":true}` |
| SendOtp.ReadOtpRequestBody | functions/api/send-otp.ts:31-34 | the request body reads back as its email |
| Session.FirstOnRequest | functions/_middleware.ts:1-18 | the first `onRequest`; its properties are `Session.FirstAllowlistEdges`, `Session.FirstAllowsPrefixes` and `Session.LoginSubtreeDisagrees` |
| Session.FirstAllowsPrefixes | functions/_middleware.ts:7-13 | every path under `/api/` or `/auth/` passes the first `onRequest`, and a path starting `/auth/callback` is public to the second as well |
| Session.LoginSubtreeDisagrees | functions/_middleware.ts:7-13 | a path under `/login/` without a dot is refused by the first `onRequest` yet public to the second |
| Session.SessionDecision | functions/_middleware.ts:44-79 | the second `onRequest`'s decision; its properties are `Session.NoRedirectLoop`, `Session.GateDecision` and `Session.NoCookiesNoThrow` |
| Session.FirstAllowlistEdges | functions/_middleware.ts:7-13 | `/login` and `/` pass, `/login/` and `/episodes` do not, and asset and API paths pass |
| Session.OnRequest | functions/_middleware.ts:44-79 | the outcome is `SessionDecision`, except that appending to immutable downstream headers throws; only a served request touches the downstream response, by appending one `Set-Cookie` per cookie call in call order |
| Session.NoRedirectLoop | functions/_middleware.ts:49-51 | the login redirect target and every path under `/login` or `/auth/callback` are public, whatever the cookies and session |
| Session.GateDecision | functions/_middleware.ts:70-74 | outside the public paths, with readable cookies, the request is served exactly when there is a user, and otherwise redirected to `origin/login/` |
| Session.NoCookiesNoThrow | Functions/_middleware.ts:34 | without a `Cookie` header, or with an empty one, the session middleware cannot throw |
| AuthCallback.CallbackDecision | functions/auth/callback.ts:27-69 | the callback's intended decision, including the throw of `new URL(next, origin)` on an unresolvable `next`; its properties are `AuthCallback.MissingCodeFirst`, `AuthCallback.NextUnchecked` and `AuthCallback.ExchangeDecides` |
| AuthCallback.OnRequestGet | functions/auth/callback.ts:27-69 | as written: a missing code or a failed exchange is a fresh 400 with its message; after a successful exchange an unresolvable `next` throws, and otherwise the handler gives a fresh 302 to the resolved `next` only when the client made no cookie call, and throws at `append` when it made one |
| AuthCallback.OnRequestGetCorrected | functions/auth/callback.ts:27-69 | with a mutable redirect, the outcome is `CallbackDecision`; no response exists exactly when the cookies are unreadable or `next` does not resolve; a redirect is a fresh 302 with the resolved `Location` and then one `Set-Cookie` per cookie call, in call order, written with `Expires` |
| AuthCallback.AsWrittenDeparts | functions/auth/callback.ts:66-67 | the handler as written departs from the intended decision exactly on a redirect after at least one cookie call |
| AuthCallback.LoginWithSessionCookieThrows | functions/auth/callback.ts:66-67 | at any origin against which `/` resolves, a code, a successful exchange and one `set` of a session cookie should redirect to `/`, but the handler as written throws |
| AuthCallback.MissingCodeFirst | functions/auth/callback.ts:34-37 | a missing or empty `code` is a 400 before the cookies are read |
| AuthCallback.NextUnchecked | functions/auth/callback.ts:31 | the redirect target is `next` as given, and `/` only when it is absent; the only check on it is that `new URL` resolves it, and the handler throws where it does not |
| AuthCallback.ExchangeDecides | functions/auth/callback.ts:61-66 | with readable cookies, a failed exchange is a 400 carrying its message; the callback redirects exactly when the exchange succeeded and `next` resolves, and throws exactly when it succeeded and `next` does not |
| AuthCallback.CallbackCookies | functions/auth/callback.ts:46-56 | each callback cookie is `HttpOnly` and `Secure`, gets `Expires` exactly when asked, and a set value parses back from its first segment |
| Episodes.FindById | functions/_episodes.ts:8-39 | `find` returns the first entry of the catalog with that id, and nothing exactly when no entry has it |
| Episodes.FindByIdUnique | functions/_episodes.ts:8-39 | with distinct ids, looking up an entry's id finds that entry |
| Episodes.CatalogIds | functions/_episodes.ts:8-39 | the catalog is `ep001` to `ep005`, in order |
| Episodes.CatalogDistinct | functions/_episodes.ts:8-39 | no two entries share an id or a storage key |
| Episodes.WellNamedEntry | functions/_episodes.ts:1-6 | an entry keyed `episodes/<id>.mp3` and named `FAFO_<id>_<name>.mp3` follows the naming scheme |
| Episodes.CatalogWellNamed | functions/_episodes.ts:8-39 | every entry follows the naming scheme |
| Episodes.CatalogLookup | functions/_episodes.ts:8-39 | every catalog id is found, and finds its own entry |

## Left out

- HMAC-SHA-256 (`crypto.subtle.importKey` and `sign`) is the function parameter `mac`. SHA-256 itself is not modelled.
- The calls to Supabase are inputs rather than modelled behaviour.
  - The `fetch` of the upsert and of the OTP request: their status and text are inputs.
  - `auth.getUser()`: whether there is a user is an input.
  - `auth.exchangeCodeForSession`: its error is an input.
  - Which `get`, `set` and `remove` calls the Supabase client makes, and what it reads through `get`: the calls are given as a sequence.
- `Date.now()` is read twice in `makeGateToken`; the two readings are parameters.
- `new URL(...)` parsing is not modelled. The origin, the path and the query parameters are inputs. The callback's `new URL(next, origin).toString()` is the function parameter `resolve`, which gives `None` where `new URL` throws a `TypeError` (for `next` such as `http://`); the callback then throws after the exchange, which is its outcome `BadNext`. Which references fail to resolve is up to that parameter.
- How the platform answers a handler that throws is not modelled. `parseCookies` throwing on a malformed escape, `new URL` throwing on an unresolvable `next`, or `headers.append` throwing on immutable headers ends the handler, and that ending is an outcome of its own.
- A `fetch` that rejects, or a `res.text()` that throws, escapes both `POST` handlers uncaught. The upstream answer is always a status and a text, so no outcome stands for it.
- `content-type` response headers are not modelled.
- `Cookies.SerializeCookieWithExpires`: `new Date(expires).toUTCString()` is not modelled; the `Expires` text is the option as given.
- `Strings.ToLowerAscii`: lower-cases ASCII letters only, while JavaScript's `toLowerCase` also maps non-ASCII letters.
- `Json.Number`: covers integers only. The payload's `iat` and `exp` are integers; `JSON.stringify` switches to exponent notation at 10^21, which is not modelled.
- `Subscribe.Body` and `SendOtp.OtpBody`: `String()` of a non-string truthy JSON value (a number, an object) is not modelled. The body fields are the strings `String()` would give, or `None` when the field is missing or falsy.
- Object keys such as `__proto__`, which a plain JavaScript object treats specially in `parseCookies`, are not modelled: the parsed cookies are a map.
- Strings are sequences of Unicode scalar values, so lone UTF-16 surrogates are not modelled.
- tools/generate_feed.py and functions/api/episodes/[id]/download.ts are not part of this model beyond the catalog lookup; `Episodes.FindById` is that handler's `EPISODES.find((e) => e.id === id)` at its line 94.

## Findings

| source | as written | input that shows it | evidently intended | confidence | as-written member | corrected member |
|---|---|---|---|---|---|---|
| functions/auth/callback.ts:66-67 | appends the `Set-Cookie` lines to the headers of `Response.redirect`, which are immutable, so `append` throws a `TypeError` | a `code`, a successful exchange, and one `set` of a session cookie by the client | a 302 to `next` carrying the session cookies, built as `new Response(null, {status: 302, headers})` | high, not executed | AuthCallback.LoginWithSessionCookieThrows | AuthCallback.OnRequestGetCorrected |
