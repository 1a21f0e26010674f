# uid2-api-wrapper, modelled in Dafny

uid2-api-wrapper is a serverless gateway in front of the UID2 identity-token service. This project models and proves two parts of it.

**The Lambda handler (`handler.py`).**
- It canonicalises e-mail addresses (`normalize_email`).
- It admits callers by source address against a configured list of networks (`check_ip`).
- It serves `GET /token/generate` (`token_generate`):
  - rejects barred callers with a fixed 403;
  - fetches the service credential;
  - builds the upstream query from `email` (normalised) and `email_hash` (verbatim);
  - calls `endpoint/version/token/generate` with `Authorization: Bearer <token>`;
  - relays the status and body with three CORS headers.

**The browser SDK (`templates/uid2-sdk.tpl.js`).**
- It has its own `normalize_email`.
- It reads and writes the `__uid_2` identity cookie through `document.cookie`.
- It builds the URLs of the `connect` and `refresh` requests.

| file | module | what it holds |
|---|---|---|
| `wrappers.dfy` | `Wrappers` | `Option`, `Result` |
| `text.dfy` | `Text` | the string operations the two programs use (split, join, strip/trim with each language's white-space set, ASCII lower-casing) and lemmas about them |
| `email_normalizer.dfy` | `EmailNormalizer` | `normalize_email` of handler.py |
| `network_gate.dfy` | `NetworkGate` | `check_ip`, with the arithmetic of `ipaddress` networks |
| `gateway.dfy` | `Gateway` | `token_generate` as a method over stubbed secrets and upstream |
| `client_sdk.dfy` | `ClientSdk` | the SDK: its `normalize_email`, cookie parsing, and class `Uid2` |

The handler's steps are methods: the loops `NetworkGate.ParseEntries` and `Scan`, and `NetworkGate.CheckIp`, `Gateway.BuildParams` and `Gateway.TokenGenerate`, which run straight through with early returns. `ParseEntries`, `Scan`, `CheckIp` and `BuildParams` are proved equal to specification functions (`ParseAll`, `InSome`, `CheckIpResult`, `RequestParams`). `TokenGenerate`'s contract gives its result on every path in terms of `CheckIpResult` and `RequestParams`. The SDK object is the class `ClientSdk.Uid2`. Its state is:
- the cookie jar behind `document.cookie`;
- the log of strings assigned to `document.cookie`;
- the log of requested URLs.

Its methods state their whole new state.

On these points the code behaves in ways a reader may not expect, and the model follows it:

- **No "empty list means allow all".** `os.environ["ip_white_list"]` raises `KeyError` when the variable is missing and is never `None`, so the `return True` at handler.py:38 cannot be reached. An empty list is the single entry `""`, which `ip_network` refuses (`EmptyListFails`).
- **An empty local part or domain is accepted.** Only the count of `@` matters (`MalformedIff`).
- **`normalize_email` is not idempotent.**
  - Example: `". b@gmail.com"` normalises to `" b@gmail.com"`, and that normalises to `"b@gmail.com"`: removing the dots exposes white space that the next call strips.
  - `IdempotentIff` proves that a second call changes the result exactly when the result starts with white space. `DotSpaceFamily` gives a whole family of such inputs, and `NotIdempotentExample` is one of them.
- **The handler does not percent-encode the query itself.** It hands `requests.get` the literal `k=v` pairs joined by `&` as the `params` string. The model stops at that string; the re-quoting `requests` applies to it afterwards is not modelled.
- **The SDK's `normalize_email` removes only the first `.` of a Gmail user part.** Its pattern has no `g` flag. It accepts any number of `@` and never throws. For an address the server accepts and that Python's `strip` and ECMAScript's `trim` fold to the same text, it agrees with the server's when the user part has at most one dot (`AgreesWithServer`) and differs when it has two or more and no `+` (`DiffersFromServer`). For such an address, the two agree on a Gmail user part exactly when every dot after the first comes after the first `+`, as in `a.b+c.d@gmail.com`; that general condition is not proved.
- **The two normalisers strip different white space.** Python's `str.strip` removes U+001C to U+001F and U+0085, which ECMAScript's `trim` keeps; `trim` removes U+FEFF, which `strip` keeps. So `"\u001ca@x"` normalises to `a@x` on the server and stays as it is in the SDK, with no dot involved (`WhiteSpaceDiffers`, `WhiteSpaceExample`).
- **`getCookie` matches rows by prefix.** A cookie whose name merely begins with `__uid_2`, listed earlier, is read instead of `__uid_2` (`PrefixMatchWins`). The round-trip properties therefore assume no such cookie (`Unshadowed`).

## Model

Small definitions that only spell out one expression of the source (`NetworkGate.ParseEntry`, `ParseAll`, `InSome`, `Gateway.Fields`, `HashParam`, `Forbidden`, `CorsHeaders`, the two `Folded` functions, and `ClientSdk.CookieLine`, `RemovalLine`, `GenerateUrl`, `RefreshUrl`, `Truthy`, `Property`) have no row of their own; they are covered by the rows of the members that use them.

| member | source | states |
|---|---|---|
| EmailNormalizer.NormalizeEmail | handler.py:41-58 | `normalize_email`; no contract of its own, characterised by `MalformedIff`, `GmailRule`, `OtherDomainRule`, `NormalizeShortens` and `IdempotentIff` |
| EmailNormalizer.Rewrite | handler.py:54-58 | the split and Gmail rewrite on the stripped, lower-cased text; no contract of its own, characterised by `MalformedIff`, `GmailRule` and `OtherDomainRule` |
| EmailNormalizer.MalformedIff | handler.py:53-54 | normalisation fails exactly when the stripped, lower-cased text does not hold exactly one `@`; empty parts are accepted |
| EmailNormalizer.GmailRule | handler.py:55-57 | for `gmail.com` the result is the user part with every `.` removed, cut before the first `+`, followed by `@gmail.com` |
| EmailNormalizer.OtherDomainRule | handler.py:53-58 | for any other domain the result is exactly the stripped, lower-cased input |
| EmailNormalizer.GmailUser | handler.py:56 | the Gmail user part holds no `.` and no `+` and only characters of the input |
| EmailNormalizer.NormalizeShortens | handler.py:53-58 | a normalised address is never longer than the stripped input |
| EmailNormalizer.FoldedTwice | handler.py:53 | stripping and lower-casing twice equals doing it once |
| EmailNormalizer.GmailFixpoint | handler.py:53-58 | a lower-case Gmail address without `.`, `+` or leading white space in its user part is left unchanged |
| EmailNormalizer.IdempotentIff | handler.py:53-58 | a result is non-empty, and normalising it again returns it unchanged exactly when it does not start with white space |
| EmailNormalizer.OtherIdempotent | handler.py:53-58 | outside Gmail, a result starts with no white space and is a fixed point |
| EmailNormalizer.GmailIdempotentIff | handler.py:55-57 | the Gmail case of idempotence, stated on the folded text |
| EmailNormalizer.NotIdempotentExample | handler.py:53-57 | `". b@gmail.com"` becomes `" b@gmail.com"`, which becomes `"b@gmail.com"` |
| EmailNormalizer.DotSpaceFamily | handler.py:53-57 | for any lower-case tail `t` without `@`, `.`, `+` or leading white space, `". " + t + "@gmail.com"` becomes `" " + t + "@gmail.com"`, which becomes `t + "@gmail.com"` |
| Text.SplitCount | handler.py:54 | splitting on a character gives one piece more than its occurrences, so unpacking into two needs exactly one `@` |
| Text.JoinSplit | handler.py:57 | joining the pieces of a split with the same separator restores the text |
| Text.SplitPair | handler.py:54 | text with one separator splits into the parts before and after it |
| Text.Trim | handler.py:53 | the stripped text is no longer than the input and neither starts nor ends with white space |
| Text.TrimFixed | handler.py:53 | stripping text that neither starts nor ends with white space changes nothing |
| Text.LowerIsLower | handler.py:53 | lower-cased text is lower-case |
| NetworkGate.IpAddress | handler.py:29 | the address is accepted exactly when it parses to a number within its family's width, and is then that parsed address; otherwise the error is `InvalidAddress` |
| NetworkGate.IpNetwork | handler.py:31 | a network is accepted exactly when it parses, its prefix fits the width and no host bit is set |
| NetworkGate.Contains | handler.py:35 | `ip in network`; no contract of its own, characterised by `ContainsRange` and `ContainsPrefix` |
| NetworkGate.ContainsRange | handler.py:35 | a well-formed network holds exactly the addresses of its family from its base to base plus block size |
| NetworkGate.ContainsPrefix | handler.py:35 | membership is equality of the top `prefixLen` bits |
| NetworkGate.MaskRange | handler.py:35 | masking the host bits of an address gives a block-aligned base exactly when the address lies in that block |
| NetworkGate.MaskPrefix | handler.py:35 | masking gives the base exactly when address and base have the same quotient by the block size |
| NetworkGate.ParseAllOk | handler.py:30-33 | when every entry parses, the list holds their networks in configuration order |
| NetworkGate.ParseAllFirstError | handler.py:30-33 | the first entry that fails to parse decides the error, whatever the entries after it are |
| NetworkGate.ParseAllSound | handler.py:30-33 | a successful parse has one network per entry, entry j's network at position j |
| NetworkGate.ParseAllIff | handler.py:30-33 | parsing succeeds exactly when every stripped entry is a valid network, and then entry j gives network j |
| NetworkGate.CheckIpResult | handler.py:24-38 | the specification of `check_ip`; no contract of its own, characterised by `AllowedIff`, `FailsIff` and `EmptyListFails`, and implemented by `CheckIp` |
| NetworkGate.ParseEntries | handler.py:30-33 | the comprehension's run equals the specification `ParseAll` |
| NetworkGate.Scan | handler.py:34-37 | the scan returns whether some network holds the address, and on success the first such network |
| NetworkGate.CheckIp | handler.py:24-38 | the result equals `CheckIpResult`; on `True` the matched network is the first in configuration order that holds the address |
| NetworkGate.InSomeEntry | handler.py:30-36 | scanning the parsed list finds the address exactly when some entry's network holds it |
| NetworkGate.AllowedSound | handler.py:28-36 | `check_ip` returns `True` only when the address and every entry parse and some entry's network holds the address |
| NetworkGate.AllowedComplete | handler.py:28-36 | when the address and every entry parse and some entry's network holds the address, `check_ip` returns `True` |
| NetworkGate.AllowedIff | handler.py:28-37 | with the variable set, `check_ip` is true exactly when the address and every entry parse and some entry's network holds the address |
| NetworkGate.FailsIff | handler.py:28-33 | with the variable set, `check_ip` raises exactly when the address or some entry fails to parse; the address is checked first |
| NetworkGate.EmptyListFails | handler.py:28-33 | an empty list string raises rather than allowing everyone |
| NetworkGate.TenSlashEight | handler.py:35 | `10.0.0.0/8` is well formed, holds 10.1.2.3 and does not hold 8.8.8.8 |
| Gateway.RequestParams | handler.py:124-130 | the parameter dictionary; no contract of its own, characterised by `RequestParamsFail`, `ParamsWithEmail`, and `BuildParams`, which is proved equal to it |
| Gateway.QueryString | handler.py:138 | the `params` string; no contract of its own, characterised by `QueryStringWithEmail`, `QueryStringWithoutEmail` and `FieldsTwo` |
| Gateway.TokenUrl | handler.py:133-134 | `endpoint/version/token/generate`; no contract of its own, used in `TokenGenerate`'s request clause |
| Gateway.BuildParams | handler.py:124-130 | the dictionary built step by step equals `RequestParams`: the normalised `email` first, then `email_hash` verbatim, and a malformed `email` raises |
| Gateway.RequestParamsFail | handler.py:124-130 | building the parameters fails exactly when an `email` is given and is malformed |
| Gateway.ParamsWithEmail | handler.py:127-130 | with an `email`, the parameters are the normalised address followed by any `email_hash` |
| Gateway.QueryStringWithEmail | handler.py:124-138 | the query is `email=<normalised>`, followed by `&email_hash=<verbatim>` when given |
| Gateway.QueryStringWithoutEmail | handler.py:124-138 | without `email` the query is `email_hash=<verbatim>`, or empty when absent or when there are no parameters |
| Gateway.FieldsTwo | handler.py:138 | two parameters join as `k1=v1&k2=v2` with no encoding |
| Gateway.TokenGenerate | handler.py:113-148 | a gate error is re-raised and a rejection returns exactly the 403 `Forbidden` object; `get_secrets` is called exactly when the gate admits, and no upstream request is made otherwise; then a missing secret, a malformed `email` and a missing `AUTHORIZATION_TOKEN` raise in that order; otherwise exactly one request goes to `endpoint/version/token/generate` with `Bearer <token>` and the joined parameters, and its status and text are relayed with the three CORS headers, or the connection failure is raised |
| ClientSdk.NormalizeEmail | templates/uid2-sdk.tpl.js:52-61 | the SDK's `normalize_email`; no contract of its own, characterised by `NoAtUnchanged`, `OtherDomainUnchanged`, `GmailRule`, `AgreesWithServer` and `DiffersFromServer` |
| ClientSdk.Rewrite | templates/uid2-sdk.tpl.js:54-60 | the split and Gmail rewrite on the trimmed, lower-cased text; no contract of its own, characterised by `NoAtOn`, `OtherOn`, `GmailOn`, `AgreeOn` and `DifferOn` |
| ClientSdk.NoAtUnchanged | templates/uid2-sdk.tpl.js:53-60 | without `@` the trimmed, lower-cased text comes back and nothing throws |
| ClientSdk.OtherDomainUnchanged | templates/uid2-sdk.tpl.js:53-60 | when the second `@` piece is not `gmail.com` the trimmed, lower-cased text comes back |
| ClientSdk.GmailRule | templates/uid2-sdk.tpl.js:54-58 | for `gmail.com` only the first `.` of the user part goes, the user part is cut at the first `+`, and everything from the first `@` on is kept |
| ClientSdk.GmailUser | templates/uid2-sdk.tpl.js:57 | the client's Gmail user part holds no `+` and only characters of the input |
| ClientSdk.GmailPieceIff | templates/uid2-sdk.tpl.js:54-55 | with one `@`, the second piece is `gmail.com` exactly when the domain is |
| ClientSdk.AgreeOn | templates/uid2-sdk.tpl.js:54-60 | on trimmed, lower-cased text the server accepts, with at most one `.` before the `@`, client and server give the same address |
| ClientSdk.AgreesWithServer | templates/uid2-sdk.tpl.js:52-61 | on the same trimmed text, with a server-accepted address whose user part has at most one `.`, client and server agree |
| ClientSdk.DifferOn | templates/uid2-sdk.tpl.js:54-58 | on folded Gmail text with two or more dots and no `+` in the user part, the server accepts and the client's result differs |
| ClientSdk.WhiteSpaceDiffers | templates/uid2-sdk.tpl.js:53 | a leading character that Python strips and ECMAScript does not trim is ignored by the server and kept by the client, so the two results differ for every lower-case text with an `@`, a second `@` piece other than `gmail.com` and no white space at its end |
| ClientSdk.WhiteSpaceExample | templates/uid2-sdk.tpl.js:53 | `"\u001ca@x"` normalises to `a@x` on the server and to itself in the SDK |
| ClientSdk.DiffersFromServer | templates/uid2-sdk.tpl.js:56-57 | a Gmail user part with two or more dots and no `+` is normalised differently by client and server |
| ClientSdk.RemoveFirstErases | templates/uid2-sdk.tpl.js:56-57 | with at most one `.`, removing the first removes all |
| ClientSdk.FindRow | templates/uid2-sdk.tpl.js:39 | the row found is one that starts with the name, and none is found exactly when no row does |
| ClientSdk.FindFirst | templates/uid2-sdk.tpl.js:39 | the row found is the first one that starts with the name |
| ClientSdk.ReadCookie | templates/uid2-sdk.tpl.js:36-47 | `undefined` for an empty cookie string or when no row starts with the name; a value only from a non-empty row that starts with it |
| ClientSdk.ReadCookieValue | templates/uid2-sdk.tpl.js:36-47 | for a non-empty cookie string, the first row starting with the name decides: `undefined` when it is empty, otherwise the decoded text between its first and second `=`, or of "undefined" when it has no `=` |
| ClientSdk.ReadRowWithoutValue | templates/uid2-sdk.tpl.js:41 | a matching row without `=` decodes the text "undefined" |
| ClientSdk.PrefixMatchWins | templates/uid2-sdk.tpl.js:39-41 | the first row that merely starts with the name wins, and its text between the first and second `=` is decoded |
| ClientSdk.SplitSerialize | templates/uid2-sdk.tpl.js:39 | splitting `document.cookie` on `"; "` gives back the cookies' rows |
| ClientSdk.Put | templates/uid2-sdk.tpl.js:34 | storing keeps every cookie of another name and adds or replaces the one written |
| ClientSdk.PutReplaces | templates/uid2-sdk.tpl.js:34 | when a cookie has the name, the first such cookie takes the new value at its index and every other index is unchanged |
| ClientSdk.PutAppends | templates/uid2-sdk.tpl.js:34 | when no cookie has the name, the new cookie is appended to the jar |
| ClientSdk.Delete | templates/uid2-sdk.tpl.js:49 | removal keeps exactly the cookies of other names |
| ClientSdk.FindPut | templates/uid2-sdk.tpl.js:34-41 | after a write the row found for the name is the one written |
| ClientSdk.ReadPut | templates/uid2-sdk.tpl.js:30-47 | what `setCookie` stores, `getCookie` decodes back |
| ClientSdk.ReadDelete | templates/uid2-sdk.tpl.js:36-50 | after `removeCookie`, `getCookie` gives `undefined` |
| ClientSdk.Payload | templates/uid2-sdk.tpl.js:21-27 | what `setIdentity` stores; no contract of its own, characterised by `StoredReadsBack` and `IdentityRoundTrip` |
| ClientSdk.IdentityOf | templates/uid2-sdk.tpl.js:8-13 | `getIdentity`; no contract of its own, characterised by `IdentityRoundTrip`, `NoIdentityAfterRemoval` and `MissingBodyBreaksIdentity` |
| ClientSdk.AdvertisingTokenOf | templates/uid2-sdk.tpl.js:14-19 | `getAdvertisingToken`; no contract of its own, characterised by `NoIdentityAfterRemoval` |
| ClientSdk.ResponseBody | templates/uid2-sdk.tpl.js:5 | `JSON.parse(resp)["body"]`; no contract of its own, characterised by `MissingBodyBreaksIdentity` and used in `Uid2.HandleResponse` |
| ClientSdk.StoredReadsBack | templates/uid2-sdk.tpl.js:20-47 | whatever `setIdentity` stores, `getCookie("__uid_2")` reads back its payload text |
| ClientSdk.IdentityRoundTrip | templates/uid2-sdk.tpl.js:8-29 | an object passed to `setIdentity` whose numbers `JSON.stringify` writes out faithfully (`Representable`) is what `getIdentity` returns |
| ClientSdk.NoIdentityAfterRemoval | templates/uid2-sdk.tpl.js:8-19 | after removal of `__uid_2`, identity and advertising token are `undefined` |
| ClientSdk.MissingBodyBreaksIdentity | templates/uid2-sdk.tpl.js:4-13 | a response without `body` stores "undefined", and `getIdentity` then throws |
| ClientSdk.Uid2.constructor | templates/uid2-sdk.tpl.js:2-3 | the object starts with the given base URL and cookies, nothing written or requested |
| ClientSdk.Uid2.GetCookie | templates/uid2-sdk.tpl.js:36-47 | `getCookie` on the object's cookies; no contract of its own, characterised through `ReadCookie` and used in `Uid2.SetCookie` and `Uid2.RemoveCookie` |
| ClientSdk.Uid2.Identity | templates/uid2-sdk.tpl.js:8-13 | `getIdentity` on the object's cookies; no contract of its own, used in `Uid2.SetIdentity`, `Uid2.Disconnect` and `Uid2.Refresh` |
| ClientSdk.Uid2.AdvertisingToken | templates/uid2-sdk.tpl.js:14-19 | `getAdvertisingToken` on the object's cookies; no contract of its own, used in `Uid2.Disconnect` |
| ClientSdk.Uid2.SetCookie | templates/uid2-sdk.tpl.js:30-35 | writes exactly `name=encode(value) ;path=/;expires=<date>`, stores the encoded value under the name, requests nothing, and `getCookie` then reads the value back when no other cookie's row starts with the name (`Unshadowed`) |
| ClientSdk.Uid2.RemoveCookie | templates/uid2-sdk.tpl.js:48-50 | writes exactly `name=;path=/;expires=Tue, 1 Jan 1980 23:59:59 GMT`, deletes the cookie, and `getCookie` then reads `undefined` |
| ClientSdk.Uid2.SetIdentity | templates/uid2-sdk.tpl.js:20-29 | stores objects serialised and other values as text under `__uid_2`, reads the payload back, and returns a `Representable` object unchanged from `getIdentity` |
| ClientSdk.Uid2.Disconnect | templates/uid2-sdk.tpl.js:95-97 | removes `__uid_2`, after which identity and advertising token are `undefined` |
| ClientSdk.Uid2.HandleResponse | templates/uid2-sdk.tpl.js:4-6 | the response's `body` becomes the identity; a parse error or a `null` response throws and changes nothing |
| ClientSdk.Uid2.Connect | templates/uid2-sdk.tpl.js:68-80 | requests exactly `base_url + "/token/generate?email_hash=" + encode(hash(normalize(email)))` and stores the answer's `body`; nothing reaches the caller, and a failed request or a throwing handler leaves the cookies and writes unchanged |
| ClientSdk.Uid2.Refresh | templates/uid2-sdk.tpl.js:81-94 | requests only when the identity is truthy, exactly `base_url + "/token/refresh?refresh_token=" + encode(String(identity.refresh_token))`, and otherwise changes nothing; a `getIdentity` error or a failed request (NetworkError) is thrown, the answer's `body` is stored, and a throwing handler is not rethrown and leaves the cookies unchanged |

## Left out

- `get_secrets` (handler.py:12-21): the Secrets Manager call and its JSON decoding. Its outcome is the parameter `secrets`, with `None` when it raises.
- `requests.get` (handler.py:132-138): network I/O. The UID2 service is the parameter `upstream`, which returns a status and text or fails to connect. The request is modelled as the URL, header and `params` string the handler passes; the re-quoting `requests` applies to that string (spaces, non-ASCII text, `%XX` escapes) is not modelled.
- Textual IPv4/IPv6 parsing in `ipaddress`: the parsers are parameters returning parsed numbers or failing. Prefix range and host-bit strictness are modelled.
- Missing `endpoint`, `version`, `sourceIp` or `queryStringParameters` keys: each raises `KeyError` in the source. The model takes these as present inputs.
- `base64_encoded_sha256` (handler.py:61-65, templates/uid2-sdk.tpl.js:62-66): hashing and base64. The SDK digest is the browser field `digest`, and its asynchrony is not modelled: `connect` completes in one step.
- `handler_wrapper` (handler.py:68-85): logging only.
- `uid2_sdk` (handler.py:88-110): template rendering. `base_url` is a constructor argument of `Uid2`.
- Lower-casing covers ASCII only. Python `str.lower` and JS `toLowerCase` also map non-ASCII letters; the model leaves those unchanged.
- `encodeURIComponent`, `decodeURIComponent`, `JSON.parse`, `JSON.stringify` and `XMLHttpRequest` are uninterpreted fields of `Browser`. `Sound` states what the round-trip lemmas need of them: decoding undoes encoding, encoded text holds no `;` or `=`, parsing undoes serialising for `Representable` values, and `JSON.parse("")` throws.
- Cookie jar semantics are reduced to these rules:
  - a write stores the named cookie in place or appends it;
  - a removal deletes every cookie of that name;
  - reading lists `name=value` rows joined by `"; "`.
  - Paths, domains and expiry by the clock are not modelled, and the expiry date is an input.
- ClientSdk.Uid2.SetCookie: requires a name without `;` or `=`. What the browser does with other names is not modelled; the SDK only uses `__uid_2`.
- JSON numbers are kept as text, so number formatting is not modelled. `Representable` admits only plain decimal text of at most 15 significant digits that prints back unchanged; `NaN`, infinities, exponent forms and other text are outside it.
- IdentityRoundTrip: promised only for `Representable` objects. `JSON.stringify` writes `NaN` and the infinities as `null` and prints numbers in canonical form, so other objects need not come back equal.
- ClientSdk.Uid2.SetIdentity: the `getIdentity` round trip is promised only for `Representable` objects, for the same reason.
- The refresh and identity-map handlers, and the re-wrapped JSON response mode, are not in the code shown; they are not part of this model.
