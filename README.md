# Midas CAPI webhook: a Dafny model

The repository is a small Express service that receives conversion events on
`POST /webhook` and forwards them to the Meta Conversions API as a batch of one
event. This project models the decisions the service makes and proves
properties of them:

- `src/utils/hash.js` (module `Hash`, file `hash.dfy`):
  - e-mail normalisation (trim, lower-case);
  - phone normalisation (keep the digits);
  - recognition of values already hashed (64 hex characters);
  - the field-by-field choice in `hashUserData` between passing a value through, hashing it and leaving it out.
- `index.js` (module `Webhook`, file `webhook.dfy`):
  - the HMAC signature check;
  - the cookie-header parser;
  - the search for the `fbp`/`fbc` click identifiers;
  - the event-id default;
  - the client address;
  - the verify-token challenge of `GET /webhook`;
  - the payload and response of `POST /webhook`.
- Supporting modules:
  - `JsStrings` (`js_strings.dfy`): the JavaScript string built-ins the code calls (`trim`, `toLowerCase`, `split`, `join`, decimal printing).
  - `JsValues` (`js_values.dfy`): JSON values plus `undefined`, with the meaning JavaScript gives to truthiness, `||`, optional property reads, destructuring defaults, `String()` (including the TypeError it throws for a parsed object whose own `toString` is data) and object spread.
  - `Utf8` (`utf8.dfy`): the UTF-8 encoding `Buffer.from(s, "utf8")` applies before the byte comparison.

SHA-256, HMAC-SHA256, the clock, `crypto.randomUUID()` and the outbound API call
are parameters, so every decision is a function of its inputs.

Where the code is imperative the model is too:
- `hashUserData` fills an empty object through conditional assignments. It is the method `Hash.HashUserData`.
- `parseCookies` fills a map in a loop. It is the method `Webhook.ParseCookies`.
- `extractFBPFBC` reassigns `fbp`/`fbc` through its fallbacks. It is the method `Webhook.ExtractFbpFbc`.

Each of these methods is proved equal to a specification function. The lemmas state their properties on that function.

The model follows the code where the code does less than a reader might
expect:
- The received digest is not lower-cased before the comparison, so the check is case-sensitive (`Webhook.UpperCaseDigestRejected`).
- A missing signature is rejected like a wrong one (401 "invalid signature").
- A truthy `em` holding only whitespace, or a truthy non-hex `ph` with no digits, is not dropped: the hash of the empty string is emitted (`Hash.BlankEmailStillHashed`, `Hash.DigitlessPhoneStillHashed`).
- `index.js` never calls `hashUserData`: the caller's `user_data` is spread into the outgoing event as received (`Webhook.CallerUserDataOverrides`).
- A body whose `fbclid` is an object with its own `toString` entry (`{"fbclid":{"toString":1}}`), sent without any fbc, makes the template literal of index.js:74 throw. The throw happens outside the `try` of the handler, so the handler's promise rejects instead of answering (`Webhook.FbclidToStringRejected`); the model returns the outcome `Rejected` for it.

## Model

| member | source | states |
|---|---|---|
| JsStrings.Trim | src/utils/hash.js:10 | the trimmed string is no longer than the input and neither starts nor ends with ECMAScript whitespace |
| JsStrings.TrimEmptyIffBlank | src/utils/hash.js:10 | trimming gives "" exactly when every character is whitespace |
| JsStrings.TrimPadding | src/utils/hash.js:10 | whitespace added before or after a string does not change its trim |
| JsStrings.TrimOfTrimmed | index.js:43 | a string without whitespace margins is its own trim |
| JsStrings.ToLower | src/utils/hash.js:10 | same length; every character is lower-cased; no ASCII upper-case letter remains; whitespace stays whitespace |
| JsStrings.ToLowerIdempotent | src/utils/hash.js:10 | lower-casing twice is lower-casing once |
| JsStrings.TrimLowerCommute | src/utils/hash.js:10 | trimming and lower-casing can be done in either order |
| JsStrings.IndexOf | index.js:45 | the index of the first occurrence of a character |
| JsStrings.Split | index.js:45 | at least one piece; at least two pieces exactly when the separator occurs; no piece contains the separator |
| JsStrings.Join | index.js:59 | the joined text starts with the first piece and contains the separator once there are two pieces (SplitThenJoin and JoinThenSplit make it the inverse of Split) |
| JsStrings.SplitThenJoin | index.js:58-59 | joining the pieces of a split gives back the string |
| JsStrings.JoinThenSplit | index.js:74 | splitting a join of separator-free pieces gives back the pieces |
| JsStrings.FirstSeparator | index.js:58-59 | the first piece is the text before the first separator and the rejoined rest is all the text after it |
| JsStrings.TrimKeepsAbsent | index.js:141 | trimming adds no character: a character absent from a string is absent from its trim |
| JsStrings.NatToString | index.js:74 | decimal printing is non-empty, all digits, without a leading zero |
| JsStrings.NatToStringRoundTrip | index.js:74 | reading the printed digits back gives the number |
| JsValues.NatToStringInjective | index.js:161 | different indices print as different keys |
| JsValues.FalsyValues | index.js:66-74 | ToBoolean: the falsy values are exactly undefined, null, false, 0 and "" |
| JsValues.Get | index.js:66 | an object's own field when it has one; undefined for a missing field and for every non-object |
| JsValues.Or | index.js:66 | JavaScript's "or" returns the left operand when it is truthy and the right one otherwise; the result is truthy iff either operand is |
| JsValues.Default | index.js:130-136 | a destructuring default gives the default exactly for `undefined`; every other value, `null`, `0` and `""` included, is kept |
| JsValues.ToJsString | index.js:74 | String() fails (TypeError) exactly for a value StringConversionThrows describes: an object with its own toString entry, or an array holding one; a string prints as itself and any other object as "[object Object]" |
| JsValues.JoinElements | index.js:74 | joining an array's elements throws iff converting one of them does |
| JsValues.FirstTruthy | index.js:66-74 | no result iff every candidate is falsy; otherwise the earliest truthy candidate |
| JsValues.FirstTruthyCons | index.js:66 | the search stops at a truthy head and otherwise continues with the rest |
| JsValues.IndexedEntries | index.js:161 | spreading a string or array gives each element under its decimal index, and the indices are the only keys |
| JsValues.Spread | index.js:161 | `...v` copies an object's own fields, a string's characters or an array's elements under their decimal indices (and no other keys), and nothing for other values |
| Hash.NormalizeEmail | src/utils/hash.js:8-11 | "" for a non-string; otherwise the result has no whitespace margins and no ASCII upper-case letter |
| Hash.NormalizeEmailOfString | src/utils/hash.js:8-11 | for every string, the result is the lower-cased trim (the empty string included) |
| Hash.NormalizeEmailIdempotent | src/utils/hash.js:8-11 | normalising a normalised e-mail changes nothing |
| Hash.NormalizeEmailInsensitive | src/utils/hash.js:10 | e-mails that differ only in surrounding whitespace and ASCII letter case normalise alike |
| Hash.DigitsOnly | src/utils/hash.js:16 | the result holds only digits and is no longer than the input |
| Hash.DigitsOnlyConcat | src/utils/hash.js:16 | removing non-digits distributes over concatenation, so the digits keep their order |
| Hash.DigitsOnlyOfDigits | src/utils/hash.js:16 | a string of digits is kept whole |
| Hash.DigitsOnlyOfNoDigits | src/utils/hash.js:16 | a string without digits becomes "" |
| Hash.NormalizePhone | src/utils/hash.js:13-18 | "" for a non-string; for a string, exactly its digits in order (DigitsOnly), so only digits |
| Hash.NormalizePhoneIdempotent | src/utils/hash.js:13-18 | normalising a normalised phone number changes nothing |
| Hash.AllHex | src/utils/hash.js:21 | true iff every character is in [0-9a-fA-F] |
| Hash.IsHex64 | src/utils/hash.js:20-22 | only truthy strings pass |
| Hash.IsHex64Exactly | src/utils/hash.js:20-22 | passes iff the value is a string of exactly 64 characters from [0-9a-fA-F] |
| Hash.EmEntry | src/utils/hash.js:29-35 | no em entry iff em and email are both falsy; a 64-hex em is kept; any other entry is a SHA-256 digest |
| Hash.PhEntry | src/utils/hash.js:38-44 | no ph entry iff ph and phone are both falsy; a 64-hex ph is kept; any other entry is a SHA-256 digest |
| Hash.HashedUserData | src/utils/hash.js:24-51 | keys are among em, ph, external_id; em present iff em or email is truthy; ph present iff ph or phone is truthy; external_id present iff truthy and copied verbatim; a falsy input gives {} |
| Hash.HashUserData | src/utils/hash.js:24-51 | the conditional assignments build exactly the object HashedUserData describes |
| Hash.SourceFields | src/utils/hash.js:26 | reading a field through the `{}` fallback for a falsy input reads the field of the input |
| Hash.HashedEntries | src/utils/hash.js:28-44 | the em and ph entries are the values the two selection chains choose |
| Hash.HexPassesThrough | src/utils/hash.js:29-39 | a 64-hex em or ph is emitted unchanged, whatever its letter case and whatever email or phone hold |
| Hash.EmPrecedence | src/utils/hash.js:31-35 | a truthy non-hex em is normalised and hashed; email is used only when em is falsy |
| Hash.PhPrecedence | src/utils/hash.js:40-44 | a truthy non-hex ph is reduced to digits and hashed; phone is used only when ph is falsy |
| Hash.EmailHashIgnoresCaseAndPadding | src/utils/hash.js:31-32 | em values differing only in padding and letter case get the same hash |
| Hash.EmailExample | src/utils/hash.js:31-32 | "Foo@Bar.COM " and "foo@bar.com" get the same em |
| Hash.PhoneHashIgnoresFormatting | src/utils/hash.js:40-41 | ph values with the same digits in the same order get the same hash |
| Hash.PhoneDigitsExample | src/utils/hash.js:16 | the digits of "(11) 99999-9999" are "11999999999" |
| Hash.PhoneExample | src/utils/hash.js:40-41 | "(11) 99999-9999" and "11999999999" get the same ph |
| Hash.OnlyDigestsEmitted | src/utils/hash.js:28-44 | when SHA-256 yields 64 hex characters, every em and ph emitted is 64-hex |
| Hash.BlankEmailStillHashed | src/utils/hash.js:31-32 | a truthy all-whitespace em yields the hash of "" |
| Hash.DigitlessPhoneStillHashed | src/utils/hash.js:40-41 | a truthy non-hex ph without digits yields the hash of "" |
| Utf8.EncodeChar | index.js:49 | a code point takes one to four bytes, as many as its lead byte announces |
| Utf8.DecodeEncodeChar | index.js:49 | every code point decodes back from its bytes |
| Utf8.EncodeInjective | index.js:49 | different strings have different UTF-8 bytes, so comparing the buffers compares the strings |
| Webhook.SignatureHeaderPrecedence | index.js:40-43 | the signature comes from x-signature, else x-signature-hmac, else x-hub-signature-256, else "", trimmed |
| Webhook.FirstHeaderUsed | index.js:40-43 | a non-empty x-signature is the raw signature, trimmed |
| Webhook.ComparedSignature | index.js:45 | the compared value never contains "=" and is the whole signature when it has none |
| Webhook.ComparedSignatureSegment | index.js:45 | with an "=", the compared value is the text between the first "=" and the second (or the end) |
| Webhook.TimingSafeEqual | index.js:49-50 | the byte comparison fails (throws) exactly when the lengths differ, and otherwise answers byte equality |
| Webhook.VerifySignature | index.js:34-51 | no secret: every request passes; with a secret: passes iff the compared value is non-empty and equal, character for character, to the hex HMAC of the raw body |
| Webhook.BareDigestCompared | index.js:40-45 | a bare hex digest in x-signature is compared as sent |
| Webhook.AlgorithmPrefixDropped | index.js:45 | "algorithm=digest" is compared as "digest" |
| Webhook.PrefixedDigestCompared | index.js:40-45 | a digest sent as "algorithm=digest" in x-signature is compared without its prefix |
| Webhook.CorrectSignatureAccepted | index.js:34-51 | the HMAC of the body, bare or as "sha256=…", is accepted |
| Webhook.TamperedBodyRejected | index.js:36-38 | headers accepted for one body fail for any body whose HMAC differs |
| Webhook.UpperCaseDigestRejected | index.js:48-50 | upper-casing one letter of the correct lower-case digest makes the check fail |
| Webhook.FirstSignatureHeaderWins | index.js:40-43 | with a non-empty x-signature the other two headers do not matter |
| Webhook.CookiePieceCutAtFirstEquals | index.js:58-59 | a piece's name is the text before its first "=" and its value all the text after it; without "=" the value is "" |
| Webhook.CookieJar | index.js:53-62 | {} for an empty header; otherwise the keys are exactly the names of the trimmed pieces |
| Webhook.CookieJarOf | index.js:57-60 | the map built from the pieces has exactly the pieces' names as keys |
| Webhook.CookieJarLastWins | index.js:57-60 | a name is in the map iff some piece has it, and it maps to the value of the last such piece |
| Webhook.CookieJarHasName | index.js:57-60 | a name is a key iff some piece carries it |
| Webhook.ParseCookies | index.js:53-62 | the loop builds exactly CookieJar: {} for an empty header, else one assignment per trimmed piece in order |
| Webhook.SingleCookie | index.js:53-62 | a header "name=value" maps name to value, "=" inside the value kept ("k=a=b" gives k := "a=b") |
| Webhook.CookieField | index.js:70-71 | `cookies[name]` is the cookie's value, or undefined without that cookie |
| Webhook.SynthesisedFbc | index.js:74 | the synthesised value is None (a thrown TypeError) iff String(fbclid) throws; for a string click id it is "fb.1.<seconds>.<fbclid>" |
| Webhook.ClickIds | index.js:65-76 | extractFBPFBC throws iff the body, x-fbc and _fbc are all falsy, fbclid is truthy and String(fbclid) throws |
| Webhook.FbpPrecedence | index.js:66-70 | when extractFBPFBC returns, fbp is the body's fbp, else x-fbp, else the _fbp cookie, else the falsy x-fbp value |
| Webhook.FbcPrecedence | index.js:67-74 | fbc is the body's fbc, else x-fbc, else the _fbc cookie, and is synthesised from a truthy fbclid only when all three are falsy; extractFBPFBC throws iff that synthesis is needed and String(fbclid) throws |
| Webhook.ExtractFbpFbc | index.js:65-76 | the step-by-step reassignments produce exactly ClickIds: the pair the two precedence chains choose, or the throw of the template literal |
| Webhook.SynthesisedFbcFields | index.js:74 | a synthesised fbc whose click id prints without "." splits at "." into "fb", "1", the clock second and the click id, and its seconds field reads back as the clock second |
| Webhook.GenEventId | index.js:78-81 | a truthy body event_id is kept; otherwise the fresh UUID is used |
| Webhook.ClientIp | index.js:141-144 | never ""; the first x-forwarded-for entry when it is non-empty after trimming, else the socket address, else req.ip, else undefined |
| Webhook.ForwardedFirstHop | index.js:141 | undefined iff there is no x-forwarded-for header; otherwise a string without "," and without whitespace margins |
| Webhook.ForwardedForFirstEntry | index.js:141 | for "a,rest" the address is trimmed "a": later entries are ignored |
| Webhook.UserAgent | index.js:145 | the user-agent header when it is non-empty, otherwise undefined |
| Webhook.Challenge | index.js:98-106 | status 200 iff hub.mode is "subscribe" and hub.verify_token is a non-empty string equal to VERIFY_TOKEN, with the challenge as body; 403 otherwise |
| Webhook.BuildPayload | index.js:147-169 | exactly one event; action_source "website"; partner_agent "midas-capi/1.0" |
| Webhook.PayloadDefaults | index.js:129-138 | event_name defaults to "PageView", event_time to the clock second and custom_data to {}, only when missing; event_source_url as sent; event id from genEventId |
| Webhook.CallerUserDataOverrides | index.js:155-162 | user_data holds the derived client_ip_address, client_user_agent, fbp and fbc plus the caller's keys, and the caller's values win |
| Webhook.HandlePost | index.js:121-180 | a failed signature gets 401; a missing pixel id or token gets 500; the handler rejects iff the request is signed, configured and extractFBPFBC throws; a 200 answer means the signature passed and the payload was sent |
| Webhook.UnsignedRequestNeverSent | index.js:122-124 | a request failing the signature check is answered 401 whatever the API would answer: nothing is sent |
| Webhook.SignedRequestForwarded | index.js:125-179 | a signed request under a complete configuration rejects when extractFBPFBC throws; otherwise it gets 200, with the payload's event id and the API status, iff the API call returns, and 500 "capi_request_failed" iff it throws |
| Webhook.FbclidToStringRejected | index.js:74 | a signed, configured request whose body is {"fbclid":{"toString":1}}, without x-fbc or cookie, makes the handler reject |

## Left out

- What Express does with the handler's rejected promise (`Rejected`) is not modelled: it depends on the Express version, and package.json is not part of this model. Express 5 passes the error to the handler at index.js:183-186, which answers 500 "internal_error"; Express 4 leaves the rejection unhandled and sends no answer.
- Express plumbing (index.js:18-32, 183-188) is not modelled: the raw-body middleware, JSON parsing, routing, the error handler and `app.listen`. The raw body, the parsed body, the headers, the socket address and `req.ip` are inputs of the model.
- The `/health` route (index.js:95) returns the clock and nothing else. It is not modelled.
- `sendToMetaCAPI` (index.js:83-92) is an HTTPS call. It is the parameter `send`, which gives a status/data pair or nothing when the call throws.
- The internals of SHA-256, HMAC-SHA256 and `crypto.timingSafeEqual` are not modelled. SHA-256 and HMAC are uninterpreted function parameters, and the constant-time property cannot be stated.
- The `String(str ?? "")` coercion inside `sha256Hex` (src/utils/hash.js:3-6) is not modelled: the code only passes it strings.
- `Date.now()` and `crypto.randomUUID()` are parameters. The two clock readings of one POST (event_time and the fbc synthesis) are kept separate.
- Console logging and the start-up warning (index.js:14-16, 174, 177) are not modelled.
- Numbers are unbounded integers, and `IntToString` prints every one in full. Not modelled: JSON numbers with a fraction or exponent; the rounding of integers beyond 2^53 to the nearest double by `JSON.parse`; and the exponent notation `String()` uses for integral values of 1e21 and above (`"1e+21"`), which would show in an fbc synthesised from a numeric fbclid.
- `toLowerCase` maps only ASCII letters. Other letters are left unchanged, unlike JavaScript's full Unicode case mapping.
- Strings are sequences of Unicode scalar values, while JavaScript indexes strings by UTF-16 code unit. Lone surrogates, which `Buffer.from` replaces with U+FFFD, cannot occur in the model. Spreading a string `user_data` gives one entry per character in the model, but two entries (one per surrogate) for a character outside the Basic Multilingual Plane in JavaScript.
- Headers are a map from name to one string. Node's joining of repeated headers is not modelled.
- The query is a map from name to JSON value. How Express's query parser builds nested values is not modelled.
- Property reads see only an object's own fields. Prototype members such as `length` or `__proto__` are not modelled; a cookie named `__proto__` is an ordinary key in the model.
- `JSON.stringify` of the payload and the response is not modelled: fields that hold `undefined` (which it drops) and key order.
- The test scripts (test-payloads.js, test-nested-payload.js, test-agenciamidas-format.js) only send sample requests over the network. They are not modelled.
