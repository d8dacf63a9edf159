# random-things: OTP relay, password limiter and QR crop, in Dafny

This project models the parts of the `random-things` web app that do real
computation, and proves properties of them:

- **The Gmail OTP relay** (`src/lib/gmail.ts`). `getLatestOtp` takes the newest
  message a Gmail search returns. `extractPlainTextFromMessage` picks its first
  top-level `text/plain` part, or else the payload's own body.
  `decodeBase64Url` decodes that body from base64url. `extractOtpFromText` then
  tries three regular expressions in a fixed order to pull out a 4–8 digit code:
  the `OTP` marker, then the `verification code` marker, then a free-standing
  digit run.
- **The password limiter** (`src/app/api/verify-password/route.ts`). This is the
  `POST` route and its in-memory `failedAttempts` map. A wrong password raises
  the count for the client address. The fifth failure bans the address for 24
  hours. A correct password clears the count. A ten-minute timer forgets entries
  that have been quiet for ten minutes.
- **The ban check** (`src/app/api/check-ban/route.ts`). It reports whether the
  client address is banned.
- **`getClientIp`**, which both routes define identically. It takes the first
  entry of `x-forwarded-for`, trimmed, then falls back to `x-real-ip`, then to
  `'unknown'`.
- **`cropQRFromSource`** (`app/utils/cropQRFromSrc.ts`). It computes the pixel box
  around a QR code's corner points, clamped to the picture, and the padded canvas
  the box is drawn onto.

The files are:

- `common.dfy`: `Option`.
- `otp.dfy`: module `OtpExtract`.
- `base64url.dfy`: module `Base64Url`.
- `gmail.dfy`: module `Gmail`.
- `client_ip.dfy`: module `ClientIp`.
- `verify_password.dfy`: module `VerifyPassword`. The module-level map is the
  field of class `PasswordGate`. `Post` and the sweep are methods that update
  it in place.
- `ban_store.dfy`: module `BanStore`.
- `check_ban.dfy`: module `CheckBan`.
- `qr_crop.dfy`: module `QrCrop`.

Calls the code makes to outside services become parameters: the ban store
(`isIpBanned`, `banIp`), the Gmail API (`fetch`, the list of message ids), the
clock (`now`) and UTF-8 decoding (`utf8`). A call that throws is an oracle
answer of `None` (or `false` for `banIp`). That answer leads to the route's
500 reply. `isIpBanned` catches its own query errors and answers "not banned"
then (`src/lib/ipBanStore.ts`, lines 12-20). So a database failure during the
lookup takes the `Some(false)` path, and `None` stands only for a failure to
create the database client, which happens outside that `try`.

The ban table itself is modelled as a value in `ban_store.dfy` (module
`BanStore`): a map from address to the end of its ban. When both routes'
oracles read and write that one table, a ban the password route records is
the ban the check route reports.

## Model

| member | source | states |
|---|---|---|
| OtpExtract.CaptureAt | src/lib/gmail.ts:105-108 | What each pattern captures when a match is tried at one position: four to eight digits at or after that position |
| OtpExtract.LeftmostMatch | src/lib/gmail.ts:112 | The search for a match: the position it returns matches, and no earlier position does; when it returns none, no position from `from` on matches |
| OtpExtract.Exec | src/lib/gmail.ts:112 | `text.match(regex)` gives a capture of the leftmost start position that matches; it gives none exactly when no position matches |
| OtpExtract.Cascade | src/lib/gmail.ts:111-118 | The loop over `regexList`: any capture it returns is four to eight digits that occur in the text. Its order is stated by `OtpMarkerFirst`, `CodeMarkerSecond` and `BoundedRunLast` |
| OtpExtract.ExtractOtpFromText | src/lib/gmail.ts:101-119 | `null`, `undefined` and `""` give no code; any code returned is four to eight digits that occur in the text |
| OtpExtract.OtpNeedsFourDigits | src/lib/gmail.ts:105-116 | A code is found only in a text that holds four consecutive digits |
| OtpExtract.OtpMarkerFirst | src/lib/gmail.ts:106-115 | A match of the `OTP` marker decides the answer, whatever the later patterns would match |
| OtpExtract.CodeMarkerSecond | src/lib/gmail.ts:107-115 | The `verification code` marker decides the answer only when `OTP` does not match |
| OtpExtract.BoundedRunLast | src/lib/gmail.ts:108-118 | The free-standing digit run is used only when neither marker matches; if it does not match either, the answer is `null` |
| OtpExtract.MarkerCaptureIff | src/lib/gmail.ts:106-107 | A marker pattern captures a span exactly when: the marker occurs (ASCII case-insensitively); only non-digits follow it up to the span; the span is 4–8 digits; and it is shorter than 8 only where the digit run ends |
| OtpExtract.BoundedRunCaptureIff | src/lib/gmail.ts:108 | `\b(\d{4,8})\b` captures a span exactly when the span is 4–8 digits with no word character on either side |
| OtpExtract.BoundedRunIsWholeRun | src/lib/gmail.ts:108 | The fallback never returns part of a longer digit run, so a run of nine or more digits is never returned |
| OtpExtract.LeftmostWins | src/lib/gmail.ts:112 | `match` returns the capture at the leftmost position where the pattern matches |
| OtpExtract.MarkerNeedsLetter | src/lib/gmail.ts:106-107 | A marker whose letter is absent from the text, in either case, never matches |
| OtpExtract.FirstMarkerMatch | src/lib/gmail.ts:106-112 | At the first occurrence of a marker, a following digit run of four or more is captured (up to eight digits) |
| OtpExtract.FirstBoundedRun | src/lib/gmail.ts:108-112 | The fallback captures the first free-standing run of 4–8 digits: a run that no other free-standing run starts before. Digits may come earlier, as in "12 3456" |
| OtpExtract.ExampleOtpMarker | src/lib/gmail.ts:104-116 | For every 4–8 digit code, "Your OTP is <code>, valid for 5 minutes" yields that code |
| OtpExtract.ExampleVerificationCode | src/lib/gmail.ts:107-116 | For every 4–8 digit code, "verification code: <code>" yields that code |
| OtpExtract.ExampleBareDigits | src/lib/gmail.ts:108-116 | For every 4–8 digit code, "Order #<code> confirmed" yields that code |
| OtpExtract.ExampleMarkerBeatsEarlierRun | src/lib/gmail.ts:106-116 | In "Ref <ref>, OTP: <code>", the `OTP` marker wins over the earlier free-standing reference number |
| Base64Url.ToStandardAlphabet | src/lib/gmail.ts:95 | `-` becomes `+` and `_` becomes `/`; every other character is kept, and the length is unchanged |
| Base64Url.Sextets | src/lib/gmail.ts:94-96 | Node's lenient reading of base64 text: at most one digit per character. `ReadUrlString` states that base64url digits, optionally padded, read back as themselves |
| Base64Url.DecodeSextets | src/lib/gmail.ts:94-97 | Each group of four digits yields three bytes, and a final group of two or three digits yields one or two bytes |
| Base64Url.ReadUrlString | src/lib/gmail.ts:94-97 | Mapped to the standard alphabet and read by the lenient decoder, base64url digits (optionally padded) read back as themselves |
| Base64Url.DecodeEncodeSextets | src/lib/gmail.ts:94-97 | Decoding the digits of an encoding gives back the bytes |
| Base64Url.DecodeBase64Url | src/lib/gmail.ts:93-97 | `decodeBase64Url` up to the bytes Node's decoder yields. `DecodeEncode` states that it inverts base64url encoding |
| Base64Url.DecodeEncode | src/lib/gmail.ts:93-99 | `decodeBase64Url` inverts base64url encoding (section 5 of RFC 4648), padded or not, for every byte sequence |
| Gmail.BodyData | src/lib/gmail.ts:79-88 | `body?.data` is used exactly when it is present and non-empty |
| Gmail.FirstPlainTextPart | src/lib/gmail.ts:77-83 | The loop picks the first part that is `text/plain` with body data; no earlier part qualifies |
| Gmail.SelectedData | src/lib/gmail.ts:73-90 | The data chosen is never empty, and there is none without a payload |
| Gmail.DecodeText | src/lib/gmail.ts:93-99 | `decodeBase64Url` with the UTF-8 reading as the parameter `utf8`. `Gmail.DecodeTextOfEncoding` states its contract |
| Gmail.DecodeTextOfEncoding | src/lib/gmail.ts:93-99 | Decoding the base64url encoding of some bytes gives those bytes read as UTF-8 |
| Gmail.ExtractPlainTextFromMessage | src/lib/gmail.ts:70-91 | `extractPlainTextFromMessage`. Its contract is stated by `NoPayloadNoText`, `FirstPlainTextPartWins`, `PayloadBodyWhenNoPlainTextPart`, `NestedPartsIgnored` and `FirstPlainTextPartRoundTrip` |
| Gmail.NoPayloadNoText | src/lib/gmail.ts:73-74 | Without a payload the text is `''` |
| Gmail.FirstPlainTextPartWins | src/lib/gmail.ts:77-83 | The first top-level plain-text part is decoded, whatever follows it and whatever the payload's own body holds |
| Gmail.FirstPlainTextPartRoundTrip | src/lib/gmail.ts:77-99 | When the first top-level plain-text part carries the base64url encoding of some bytes, the text is those bytes read as UTF-8 |
| Gmail.PayloadBodyWhenNoPlainTextPart | src/lib/gmail.ts:85-90 | With no plain-text top-level part, the payload's body is decoded, or `''` when it has no data |
| Gmail.NestedPartsIgnored | src/lib/gmail.ts:77-83 | Sub-parts of top-level parts are never looked at |
| Gmail.ReceivedAtOf | src/lib/gmail.ts:53-55 | `receivedAt` is `internalDate` when truthy, otherwise the clock |
| Gmail.LatestOtp | src/lib/gmail.ts:39-67 | `null` exactly when the search list is absent or empty. Otherwise the answer is built from the first message: its extracted text, the code in that text, and its `receivedAt` |
| Gmail.OnlyNewestMessageRead | src/lib/gmail.ts:44-50 | Only the first (newest) message id matters |
| Gmail.AnswerCodeFromText | src/lib/gmail.ts:58-66 | A code in the answer is four to eight digits that occur in `rawText` |
| ClientIp.GetClientIp | src/app/api/verify-password/route.ts:7-12 | `getClientIp`, written identically in both routes. Its contract is stated by `ForwardedAddress`, `ForwardedAddressShape`, `ForwardedTakesPrecedence` and `RealIpFallback` |
| ClientIp.Trim | src/app/api/check-ban/route.ts:7 | `trim`'s result is no longer than its argument and neither starts nor ends with white space. `TrimIsTrimmedSlice` and `TrimmedSliceIsTrim` characterise it completely |
| ClientIp.SkipSpaces | src/app/api/verify-password/route.ts:10 | The leading white space `trim` removes, stopping at the first other character |
| ClientIp.FirstSegment | src/app/api/verify-password/route.ts:10 | `split(',')[0]` is the longest comma-free prefix |
| ClientIp.TrimIsTrimmedSlice | src/app/api/verify-password/route.ts:10 | `trim` gives a slice with only white space outside it and no white space at either end |
| ClientIp.TrimmedSliceIsTrim | src/app/api/verify-password/route.ts:10 | Any such slice is what `trim` gives |
| ClientIp.ForwardedAddress | src/app/api/verify-password/route.ts:7-12 | A non-empty `x-forwarded-for` gives its first comma-separated entry, trimmed |
| ClientIp.ForwardedAddressShape | src/app/api/check-ban/route.ts:7 | The address taken from `x-forwarded-for` holds no comma and neither starts nor ends with white space |
| ClientIp.ForwardedTakesPrecedence | src/app/api/check-ban/route.ts:4-9 | A non-empty `x-forwarded-for` wins over `x-real-ip` |
| ClientIp.RealIpFallback | src/app/api/verify-password/route.ts:10 | Otherwise a non-empty `x-real-ip` is taken as it is; with both headers missing the address is `'unknown'` |
| ClientIp.ExampleFirstOfList | src/app/api/verify-password/route.ts:10 | "a, b, c" gives "a" |
| VerifyPassword.RecordFailure | src/app/api/verify-password/route.ts:50-53 | A failure adds one to the address's count (from 0 if it had none) and stamps the time; no other entry changes |
| VerifyPassword.FailureReply | src/app/api/verify-password/route.ts:56-74 | A count of 5 or more bans; otherwise the reply is 401 with `5 - count` attempts left |
| VerifyPassword.Swept | src/app/api/verify-password/route.ts:19-25 | The sweep keeps exactly the entries whose last failure is not older than ten minutes, and keeps them unchanged |
| VerifyPassword.PasswordGate.constructor | src/app/api/verify-password/route.ts:15 | The map starts empty |
| VerifyPassword.PasswordGate.Post | src/app/api/verify-password/route.ts:28-82 | Each branch: a failed ban lookup gives 500; a banned address gives 403; an unreadable body gives 500; the correct password gives 200 and clears the entry; a wrong one records a failure and replies 403 or 401; a failed `banIp` gives 500. `banIp` is called exactly when a wrong password brings the count to 5 or more. The map's counts stay positive |
| VerifyPassword.PasswordGate.Sweep | src/app/api/verify-password/route.ts:18-26 | The loop that deletes while it iterates leaves exactly `Swept` of the old map |
| VerifyPassword.AttemptsRemainingRange | src/app/api/verify-password/route.ts:68-74 | A 401 reply reports one to four attempts left |
| VerifyPassword.RecordFailureKeepsCountsPositive | src/app/api/verify-password/route.ts:50-53 | Every stored count stays at least one |
| VerifyPassword.FailuresCount | src/app/api/verify-password/route.ts:49-53 | `n` wrong passwords in a row add `n` to the count, and the entry keeps the time of the last one |
| VerifyPassword.FifthFailureBans | src/app/api/verify-password/route.ts:49-74 | From a clean slate, the fifth wrong password bans, and the four before it report 4, 3, 2 and 1 attempts left |
| VerifyPassword.SweptIdempotent | src/app/api/verify-password/route.ts:18-26 | A second sweep at the same time removes nothing more |
| VerifyPassword.LaterSweepSubsumes | src/app/api/verify-password/route.ts:18-26 | A sweep followed by a later one is the later one alone |
| VerifyPassword.SweptKeepsCountsPositive | src/app/api/verify-password/route.ts:18-26 | The sweep keeps every count positive |
| CheckBan.Get | src/app/api/check-ban/route.ts:11-24 | 500 exactly when the lookup throws; otherwise it returns the ban store's answer together with the client address |
| CheckBan.SameClientAsPasswordRoute | src/app/api/check-ban/route.ts:13-16 | Suppose the ban table records the ban `Post` asks for: the address `getClientIp` computes, for 24 hours. Then for the next 24 hours, a check with the same headers reports that address as banned |
| CheckBan.OtherClientsUnaffected | src/app/api/check-ban/route.ts:13-16 | Banning one address changes nothing for a check from any other client address |
| BanStore.Ban | src/lib/ipBanStore.ts:23-46 | `banIp` inserts the address's row, or replaces the one already there, ending the ban `hours` from now; other rows are unchanged |
| BanStore.BanHolds | src/lib/ipBanStore.ts:5-16 | After `banIp(ip, hours)`, `isIpBanned(ip)` answers true until `hours` have passed |
| BanStore.BanExpires | src/lib/ipBanStore.ts:5-16 | After `hours` have passed, that ban no longer counts (`banned_until > NOW()`) |
| BanStore.BanLeavesOthers | src/lib/ipBanStore.ts:23-46 | Banning one address leaves the answer for every other address unchanged |
| QrCrop.Ceil | app/utils/cropQRFromSrc.ts:21 | `Math.ceil`: the least integer not below its argument |
| QrCrop.MinOf | app/utils/cropQRFromSrc.ts:20 | `Math.min(...xs)` is an element and no element is smaller |
| QrCrop.MaxOf | app/utils/cropQRFromSrc.ts:21 | `Math.max(...xs)` is an element and no element is larger |
| QrCrop.CropQrFromSource | app/utils/cropQRFromSrc.ts:3-55 | The box is clamped to the picture. Its width and height are the differences of its edges. The canvas is the box plus twice the padding. `drawImage` copies the box to the padding offset at the same size |
| QrCrop.LowEdgeClamped | app/utils/cropQRFromSrc.ts:20-26 | The low edge is 0 when the smallest coordinate is negative; otherwise it is the integer at or just below that coordinate |
| QrCrop.HighEdgeClamped | app/utils/cropQRFromSrc.ts:21-28 | The high edge is the source size when the largest coordinate lies beyond it; otherwise it is the integer at or just above that coordinate |
| QrCrop.BoxEdges | app/utils/cropQRFromSrc.ts:17-28 | For any corners, on the picture or not, each of the four edges of the box is the pixel edge around the extreme coordinate, clamped to the picture |
| QrCrop.BoxHoldsCorners | app/utils/cropQRFromSrc.ts:17-31 | With the corners on the picture, the box has non-negative size and holds every corner |
| QrCrop.BoxIsTight | app/utils/cropQRFromSrc.ts:20-28 | With the corners on the picture, one pixel less on any side would leave a corner out |
| QrCrop.SameCornersSameLayout | app/utils/cropQRFromSrc.ts:17-23 | Only which corners there are matters: order and repetition do not |
| QrCrop.PermutedCornersSameLayout | app/utils/cropQRFromSrc.ts:17-23 | Reordering the corners leaves the layout unchanged |
| QrCrop.InnerCornerKeepsLayout | app/utils/cropQRFromSrc.ts:17-52 | Adding a corner that lies inside the box leaves the layout unchanged |
| QrCrop.DefaultPaddingLayout | app/utils/cropQRFromSrc.ts:33-52 | With the default padding of 50, the canvas is 100 pixels larger each way and the box is drawn at (50, 50) |

## Left out

- OAuth, the Gmail API calls and the environment-variable checks (`getOAuth2Client`, `GMAIL_USER`, `OTP_SEARCH_QUERY`, `maxResults`): they are I/O. The list of message ids and `fetch` are parameters of `Gmail.LatestOtp`.
- The `!` on `messages[0].id`: a message without an id is not modelled, because ids are plain strings here.
- `Gmail.LatestOtp`: `receivedAt` keeps the raw `internalDate` string or the clock value. `new Date(Number(...)).toISOString()` is not modelled: it is date formatting (and throws on an invalid date).
- `Gmail.DecodeText`: `Buffer.toString('utf8')` is the parameter `utf8`. UTF-8 decoding, with its replacement characters, is not modelled.
- `Base64Url.Sextets`: Node's lenient base64 decoder is modelled as follows. Characters outside the alphabet, white space among them, are skipped. Reading stops at the first `=`. A lone trailing digit yields no byte. One corner is not modelled: Node reads a character above U+00FF by its low byte, which may land in the alphabet, while the model skips that character.
- Depth of the part search: the code looks only at top-level parts, so the model does too (`Gmail.NestedPartsIgnored`). A depth-first search of nested parts is not what `extractPlainTextFromMessage` does.
- Strings are sequences of Unicode code points. JavaScript strings are UTF-16, so a character outside the Basic Multilingual Plane is one character here and two in JavaScript. The regular expressions have no `u` flag and only ever match ASCII characters, so captured codes do not depend on this.
- `OtpExtract.ExtractOtpFromText`: `text` is a string, `null` or `undefined`. Values of other types are not modelled.
- The routes reach the ban store only through the oracles `isIpBanned` and `banIp`. `BanStore` models its table as a map from address to the end of the ban. The SQL, the database client and the "no database configured" paths are not modelled. Without a client, `isIpBanned` answers "not banned" and `banIp` does nothing.
- `BanStore.Ban`: the end of a ban is `hours` times an hour after `now`. The local-time `setHours` arithmetic (which shifts across a daylight-saving change) is not modelled.
- SameClientAsPasswordRoute: `Post` and `Get` take their ban-store oracles as separate parameters. That both oracles are views of the one `BanStore` table is an assumption of the lemma, not something derived from the routes: the routes reach the database only through those oracles, and the database itself is not modelled.
- `VerifyPassword.PasswordGate.Post`: `req.json()` is reduced to `RequestBody`. A JSON `password` that is not a string is folded into `None`: it never equals the correct password, so the route treats it as a wrong one either way. The `console.error` logging is left out.
- `setInterval` itself (the timer) is left out. Its callback is `VerifyPassword.PasswordGate.Sweep`, called with the clock value as `now`.
- Concurrency: requests handled at the same time are not modelled, and each `Post` is one step. In the source, the map update at `src/app/api/verify-password/route.ts` lines 50-53 holds no `await`, so it is one step there too. The awaits are on the ban lookup (line 33), the body (line 41) and the ban (line 57). What the model does not capture is that the lookup's answer can be out of date when the map is written, for example when another request bans the address in between.
- `CheckBan.Get`: any exception inside the route is the lookup answering `None`, which gives the 500 reply.
- `QrCrop.CropQrFromSource`: the canvas calls (`createElement`, `getContext`, `drawSource`, `fillRect`, `drawImage`, `toDataURL`) are not modelled. The result records the canvas sizes and the `drawImage` arguments. The "no 2d context" errors are left out.
- `QrCrop.CropQrFromSource`: coordinates are exact reals rather than IEEE doubles. Widths, heights and padding are integers: a canvas dimension set to a fractional or negative number (converted to an unsigned long by the DOM) is not modelled. An empty `corners` list is excluded by `requires`: the callers always pass the four corners a scanner reports.
- The token store and refresh logic, the OAuth callback route, the pages and components: they are outside the modelled core.
