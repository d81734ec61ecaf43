# wbot booking relay, modelled in Dafny

The bot receives booking e-mails from a Google Apps Script over an HTTP
webhook. It pulls the customer's phone number out of the e-mail body and sends
the customer a thank-you message over WhatsApp. It also answers FAQ messages,
shows the WhatsApp pairing QR code and a health report, and keeps its WhatsApp
session in a Supabase table. This project models the bot's logic and proves
properties of it:

- `js_values.dfy` (module `JsValues`): the JavaScript semantics the handlers
  rely on. This covers JSON values and truthiness, and the regular-expression
  character classes `\s` and `\d` and line terminators. It also covers the
  case folding of a `/i` pattern, `toLowerCase`, `trim` and `includes`.
- `address.dfy` (module `Address`): `extractPhoneNumber` and
  `formatWhatsAppNumber`. The two marker regular expressions and the
  single-line fallback are modelled as `String.prototype.match` runs them: the
  leftmost index, a greedy `\s*` and `\d+`, and a lazy `.*?` whose `.` stops at
  line terminators.
- `address_examples.dfy` (module `AddressExamples`): booking bodies whose
  marker lines are written plainly, in either order, and the sample booking.
- `connection.dfy` (module `Connection`): `currentQR` and `clientReady` and
  the client events that overwrite them, and the `/health` and `/qr-text`
  views.
- `dispatch.dfy` (module `Dispatch`): the decisions of `/send-whatsapp` and
  `/test-extraction`. The WhatsApp send is an abstract outcome.
- `faq.dfy` (module `Faq`): the FAQ `message` handler.
- `supabase_auth.dfy` (module `SupabaseSession`): the `SupabaseAuth` class,
  with the remote table modelled as a map keyed by `client_id`.

Behaviour of the code worth knowing; the model follows the code:

- Sending is never gated on readiness. `/send-whatsapp` calls `sendMessage`
  whatever `clientReady` is, so there is no "not ready" failure.
- `authenticated` sets `clientReady` by itself, without waiting for `ready`.
  The session is saved on `authenticated`, not on entering the ready state.
- `formatWhatsAppNumber` is not idempotent. It is idempotent exactly when
  the filtered input does not begin with `++`: `++91` becomes `+91@c.us`, and
  that becomes `91@c.us`.
- `disconnected` clears only `clientReady` and leaves a QR code in place.
- A truthy `emailBody` that is not a string makes `/send-whatsapp` answer 500
  `Internal server error` before anything is sent.
- The single-line fallback pattern never succeeds where the two separate
  patterns failed, so it never changes the result.

## Model

| member | source | states |
|---|---|---|
| JsValues.Truthy | index.js:148 | `!emailBody` holds exactly for `undefined`, `null`, `false`, zero and the empty string |
| JsValues.Canonicalize | index.js:104-105 | the `/i` flag identifies each small ASCII letter with its capital, leaves digits, `+`, `:` and capitals alone, and never carries a character into or out of ASCII |
| JsValues.ToLowerCase | index.js:89 | `toLowerCase` keeps the length, leaves no ASCII capital, moves each capital to its small letter, and keeps every other character but U+212A KELVIN SIGN |
| JsValues.ToLowerCaseIdempotent | index.js:89 | lowering a lowered string changes nothing |
| JsValues.Includes | index.js:93 | `includes` finds the empty string everywhere, finds a string only in one at least as long, and in one of the same length only in itself |
| JsValues.Trim | index.js:89 | `trim` returns a slice of the input with only white space cut from both ends, and the result starts and ends with a non-space |
| Address.MarkerAt | index.js:104-105 | a match of `key\s*(\+?\d+)` at one index captures an optional `+` and a maximal run of at least one ASCII digit, after the key |
| Address.MarkerAtIsPreferredMatch | index.js:104-105 | the pattern matches at an index exactly when `MarkerAt` succeeds there; the capture is one of the pattern's matches and takes the greedy run of white space and the most digits |
| Address.Match | index.js:107-108 | `emailBody.match(re)` for a marker returns a well-formed capture |
| Address.MatchIsLeftmost | index.js:107-108 | `match` fails exactly when no index matches; otherwise it is the match at the leftmost matching index |
| Address.MatchAfter | index.js:104-108 | a plainly written marker with no earlier letter that could start its key is the match, capturing exactly its digits |
| Address.LazyPhoneSearch | index.js:117 | `.*?Phone:\s*(\d+)` from an index reaches a phone marker with no line terminator in between |
| Address.LazyPhoneSearchIsFirst | index.js:117 | the lazy search stops at the first reachable phone marker, and fails only when none is reachable |
| Address.FallbackAt | index.js:117 | the fallback pattern at one index captures a country-code match at that index and a phone capture |
| Address.FallbackMatch | index.js:117-118 | `emailBody.match(singleLineRegex)` returns well-formed captures of both groups |
| Address.FallbackMatchAt | index.js:117-118 | a fallback match is the fallback pattern's match at some index |
| Address.FallbackBacktrackingAgrees | index.js:117 | if the country-code `\d+` gives back digits, the lazy search finds the same phone marker, so backtracking cannot change the fallback's result |
| Address.NoMarkerOnDigit | index.js:105 | no marker match starts on a digit |
| Address.Concat | index.js:110-114 | the two captures joined are `+` followed by at least two ASCII digits and nothing else |
| Address.ExtractPhoneNumber | index.js:102-127 | every non-null result is `+` followed only by ASCII digits, at least two of them |
| Address.FallbackImpliesBothMarkers | index.js:116-124 | any match of the fallback contains a match of each separate pattern |
| Address.ExtractPhoneNumberSpec | index.js:102-127 | the result is non-null exactly when both separate patterns match; it is then the leftmost country-code capture followed by the leftmost phone capture |
| Address.KeepDigitsAndPlus | index.js:132 | `replace(/[^\d+]/g, '')` keeps only digits and `+` and never grows the string |
| Address.KeepDigitsAndPlusDropsOthers | index.js:132 | a string with no digit and no `+` leaves nothing, so together with the concatenation lemma every other character contributes nothing |
| Address.KeepDigitsAndPlusAppend | index.js:132 | the filter acts piece by piece on a concatenation |
| Address.KeepDigitsAndPlusKeepsAll | index.js:132 | a string of digits and `+` passes the filter unchanged |
| Address.FormatWhatsAppNumber | index.js:130-141 | the result always ends in `@c.us`; before it come the kept characters with the first `+` removed, one being prepended first if absent |
| Address.FormatParts | index.js:132-140 | the formatted number is the kept characters without a leading `+`, followed by `@c.us` |
| Address.FormatSignedDigits | index.js:130-141 | `+` followed by digits formats to those digits followed by `@c.us` |
| Address.FormatExtracted | index.js:130-141 | an extraction result `+CCNNN` formats to `CCNNN@c.us` |
| Address.FormatIdempotence | index.js:132-140 | formatting twice equals formatting once exactly when the filtered input does not begin with `++` |
| Address.FormatDoublePlus | index.js:135-140 | `++91` formats to `+91@c.us` |
| Address.FormatDoublePlusAgain | index.js:135-140 | `+91@c.us` formats to `91@c.us`, so formatting `++91` again changes it |
| AddressExamples.CountryCodeThenPhone | index.js:102-114 | a body opening with a country-code line, followed anywhere later by a phone marker with no `p`/`P` before it, gives the country-code capture followed by the phone digits, across the line break and whatever follows; each marker is written with exactly one space after its colon and its digits end at a non-digit or the end of the body |
| AddressExamples.PhoneThenCountryCode | index.js:102-114 | the same with the phone line first and no `c`/`C` before the country-code marker; the order of the lines does not matter, and text after the second marker's digits does not either |
| AddressExamples.SampleBooking | google-apps-script.js:106-108 | the sample booking's `CountryCode: +91` and `Phone: 9876543210` lines give `+919876543210` |
| AddressExamples.SampleChatId | index.js:130-141 | `+919876543210` is sent to `919876543210@c.us` |
| Connection.Step | index.js:57-85 | after any event handler, ready implies no QR code; the client is ready exactly after `ready`, `authenticated` or the resumed save handler |
| Connection.RunKeepsInv | index.js:57-85 | from a state where ready implies no QR code, every sequence of events keeps that |
| Connection.RunReady | index.js:57-85 | after a non-empty sequence of events, `clientReady` is true exactly when the last event was `ready`, `authenticated` or the resumed save handler |
| Connection.RunQr | index.js:57-85 | `currentQR` after a run is the code of the last `qr` event that no later `ready`, `authenticated` or `auth_failure` cleared; `disconnected` keeps it |
| Connection.Health | index.js:316-323 | `/health` reports status `ok`, `clientReady` as it is, and `hasQR` exactly when a non-empty code is stored; under the invariant never a code and readiness together |
| Connection.QrText | index.js:307-313 | `/qr-text` hands out the stored code exactly when it is non-empty, always with `clientReady` as it is; under the invariant only while not ready |
| Connection.HealthReportsFlags | index.js:316-323 | `/health` reports status `ok`, `clientReady` as it is, and `hasQR` exactly when a non-empty code is stored; from the start state it never reports both a code and readiness |
| Connection.QrTextAgreesWithHealth | index.js:307-313 | `/qr-text` gives the code exactly when `/health` reports one, with the same `clientReady`; under the invariant a code is only given while not ready |
| Connection.ConnectionState.constructor | index.js:12-13 | starts with no QR code and not ready |
| Connection.ConnectionState.OnQr | index.js:57-62 | stores the code and clears ready, keeping the invariant |
| Connection.ConnectionState.OnReady | index.js:64-68 | clears the code and sets ready |
| Connection.ConnectionState.OnAuthenticated | index.js:70-74 | clears the code and sets ready |
| Connection.ConnectionState.OnSessionSaveResumed | index.js:378-385 | the second `authenticated` handler's deferred write clears the code and sets ready |
| Connection.ConnectionState.OnAuthFailure | index.js:76-80 | clears the code and clears ready |
| Connection.ConnectionState.OnDisconnected | index.js:82-85 | clears ready and leaves the code; the invariant is kept |
| Dispatch.SendWhatsApp | index.js:144-186 | at most one message is sent, and it is always the thank-you text; the status is 200, 400 or 500, and 200 exactly when a message was sent and delivered |
| Dispatch.RefusedExactlyWithoutMarkers | index.js:148-158 | 400 is answered exactly when the body is falsy, or is a string in which one of the two markers has no match; nothing is sent then |
| Dispatch.SendsOnceWhenFound | index.js:160-180 | when a number is found, exactly one message goes to it with the `+` dropped and `@c.us` appended, whatever the outcome; delivery answers 200 with the unformatted `+` number, a failure answers 500 with its message, with no retry |
| Dispatch.NonStringBodyNotSent | index.js:145-185 | a truthy body that is not a string answers 500 `Internal server error` and sends nothing |
| Dispatch.Preview | index.js:415 | the preview is the first up to 200 characters of the body, followed by `...` |
| Dispatch.TestExtraction | index.js:402-417 | 400 exactly for a falsy body, 200 exactly for a non-empty string; a 200 report has a number exactly when it has a chat id, and the chat id is the `+CCNNN` number without its `+`, followed by `@c.us`; the number is the extraction result and the preview is `Preview` of the body |
| Dispatch.SendAgreesWithTestExtraction | index.js:402-417 | `/send-whatsapp` sends exactly when `/test-extraction` reports a number, to the address it reports; both refuse the same falsy bodies |
| Faq.Normalize | index.js:89 | the text searched has no ASCII capital, no white space at either end, and is no longer than the message |
| Faq.FirstMatch | index.js:92-98 | the index found is that of a keyword occurring in the text with no earlier keyword occurring; none is found exactly when no keyword occurs |
| Faq.Answer | index.js:92-98 | every reply is the answer of a keyword that occurs in the normalised message |
| Faq.ReplyTo | index.js:88-99 | the handler's loop replies with the answer of the first keyword in table order that occurs in the lower-cased, trimmed body, or not at all |
| Faq.ResponsesDistinct | index.js:48-54 | no two FAQ entries share an answer |
| Faq.AnswerIsFirstKeyword | index.js:88-99 | the reply is entry `i`'s answer exactly when its keyword occurs and no earlier keyword does |
| Faq.NoKeywordNoReply | index.js:92-98 | there is no reply exactly when no keyword occurs |
| Faq.AnswerIgnoresCase | index.js:88-99 | the reply does not depend on the case of ASCII letters: lowering the message first gives the same reply |
| Faq.WhatIsPnrGetsLongAnswer | index.js:49-50 | any message containing `what is pnr` gets the long answer, never the short one for `pnr` |
| Faq.ShortMessageNoReply | index.js:88-99 | a message shorter than three characters once trimmed gets no reply |
| Faq.WhatIsPnrQuestion | index.js:88-99 | "What is PNR?" is answered with the long explanation |
| SupabaseSession.Selected | supabase-auth.js:75-79 | the single-row select returns a row exactly when the call succeeds and the row exists |
| SupabaseSession.Loaded | supabase-auth.js:81-93 | every error answer, not-found included, and every exception give `null` |
| SupabaseSession.SessionTable.Upsert | supabase-auth.js:50-56 | records the upsert request; on success the row of the id holds the data, otherwise the rows are unchanged |
| SupabaseSession.SessionTable.Select | supabase-auth.js:75-79 | records the select request and answers as `Selected` says, changing no row |
| SupabaseSession.SessionTable.Delete | supabase-auth.js:100-103 | records the delete request; on success the row of the id is gone, otherwise the rows are unchanged |
| SupabaseSession.SessionTable.Rpc | supabase-auth.js:36 | records the table-creation request and changes no row |
| SupabaseSession.SupabaseAuth.constructor | supabase-auth.js:4-8 | no client, client id `whatsapp-bot`, not initialised; the invariant `initialized == (supabase != null)` holds |
| SupabaseSession.SupabaseAuth.Initialize | supabase-auth.js:10-29 | keeps the invariant; returns at once once initialised; a missing `SUPABASE_URL` or `SUPABASE_ANON_KEY`, or a throwing `createClient`, leaves both fields unset, so a later call tries again; otherwise it sets both and asks for the table, whatever that call's outcome |
| SupabaseSession.SupabaseAuth.CreateTableIfNotExists | supabase-auth.js:31-44 | with a client, sends the table-creation call and swallows its outcome |
| SupabaseSession.SupabaseAuth.SaveSession | supabase-auth.js:46-69 | with no client, returns false and makes no call; otherwise upserts the row of `whatsapp-bot` and returns true exactly when no error was reported or thrown |
| SupabaseSession.SupabaseAuth.LoadSession | supabase-auth.js:71-94 | with no client, returns `null` and makes no call; otherwise returns the stored session, or `null` for a missing row, an error or an exception |
| SupabaseSession.SupabaseAuth.DeleteSession | supabase-auth.js:96-116 | with no client, returns false and makes no call; otherwise deletes the row of `whatsapp-bot` and returns true exactly when no error was reported or thrown |
| SupabaseSession.SaveLoadDelete | supabase-auth.js:46-116 | on one initialised `SupabaseAuth`, a successful save then a successful load returns what was saved, and after a successful delete any load returns `null` |
| SupabaseSession.LoadAfterSave | supabase-auth.js:50-79 | a successful save followed by a successful load returns what was saved; the last save wins |
| SupabaseSession.LoadAfterDelete | supabase-auth.js:75-103 | after a successful delete, a load returns `null` whatever its outcome |
| SupabaseSession.LoadOutcomes | supabase-auth.js:75-93 | a failed load or a load of a missing row gives `null`; a successful load of a present row gives the stored value |
| SupabaseSession.FailedWritesChangeNothing | supabase-auth.js:58-68 | a save or delete that reports an error or throws leaves the rows as they were |
| SupabaseSession.OtherRowsUntouched | supabase-auth.js:50-56 | writes for one `client_id` leave the rows of every other id alone |

## Left out

- Express route wiring, the HTML pages (`/`, `/qr`) and server start-up with
  `PORT` are HTTP plumbing. Only the response decisions are modelled.
- QR image generation (`/qr`, `/qr-image`) calls the `qrcode` library, which
  is not part of this model.
- The whatsapp-web.js `Client` is not modelled: its Puppeteer options,
  `initialize` and `destroy`. Events are an input sequence. `sendMessage` is
  an abstract outcome, and `message.reply` is the reply `Faq.ReplyTo` returns.
- initializeBot is not modelled. It is start-up orchestration, and the
  session it loads is never used.
- The keep-alive timer and its `fetch`, and every timestamp (`/health`'s
  `timestamp`, the row's `updated_at`), are left out because they are clocks
  and network calls.
- The Supabase client library is not modelled: the backend is a map keyed by
  `client_id` plus a log of requests. A request that reports an error or
  throws is taken to leave the rows unchanged.
- SupabaseSession.SupabaseAuth.SaveSession stores the session value as
  given. The JSON serialisation of an `undefined` session, and how PostgREST
  merges an upsert that omits a column, are not modelled.
- Console logging is left out, including the `PGRST116` test in
  `loadSession`, which only decides whether an error is logged.
- Asynchrony is modelled one event at a time. The second `authenticated`
  handler, which writes the flags only after its awaited save, is modelled as
  the separate event `SessionSaveResumed`. Interleavings inside one handler
  are not modelled.
- Dispatch.Preview: strings are sequences of Unicode scalar values.
  `substring(0, 200)` counts UTF-16 code units, so the preview differs for
  bodies with characters outside the Basic Multilingual Plane among their
  first 200. The regular expressions behave the same in both views. Only
  the fallback's `.` and the filter `[^\d+]` match such a character, and
  each consumes the whole character (its two code units) in either view; no
  other atom of the patterns matches any part of it.
- JsValues.ToLowerCase lowers only ASCII capitals and U+212A KELVIN SIGN.
  Other characters keep their value, since their lower case can never
  complete one of the ASCII FAQ keywords.
- AddressExamples.SampleBooking covers only the sample booking's two marker
  lines, not the other lines of the sample body. The full sample has a `p`
  or `P` (in "Passenger", "example") and a `c` (in "example.com") before the
  markers; each of these is a place where a key could begin. A proof about
  the full body needs an index-by-index argument that none of them starts a
  match, and that argument is too expensive for the verifier as one proof.
- JsValues.Canonicalize folds only the ASCII small letters. ECMAScript's
  Canonicalize without the `u` flag also maps non-ASCII letters to their
  capitals (`é` to `É`). These are left out because no non-ASCII character
  ever folds to the value of an ASCII letter of a key, so the mapping never
  decides whether a marker matches.
- The `subject` field of `/send-whatsapp` is never used by the handler, and
  `res.json` failing is not modelled.
- google-apps-script.js (Gmail and UrlFetch I/O) and simple-index.js (a
  placeholder server) are not part of this model.
