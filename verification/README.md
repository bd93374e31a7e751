# Consulting-services booking backend, modelled in Dafny

This models the logic of the booking service's backend, which is a single
Express server. It has five parts:

- **Chat step function** (`POST /api/chat`). It maps the visitor's message and the client-held conversation step to a reply tag, the next step and optional data (the service catalogue).
- **Service catalogue**. It is static and has four entries, with ids 1 to 4.
- **Appointment store**. It is a map from email to that visitor's ordered list of bookings. Four handlers use it: book, fetch upcoming, reschedule (update) and cancel.
- **OTP store**. It is a map from phone number to a pending six-digit code and its expiry time. It has two handlers: send and verify.
- **Slot generator**. It returns the half-hour slots from 09:00 to 16:30 as zero-padded `"HH:MM"` strings.

Each handler is a pure function. It takes the request fields, the store and
the clock, and returns the reply and the next store. Three runtime inputs
are parameters of the model:
- the clock, as integer milliseconds;
- the `Math.random()` draw, as a real in [0, 1);
- the booking id, which the source derives from the clock.

Date strings are read through a `parse: string -> Option<int>` parameter.
`None` stands for an invalid date, which never compares as later.

Files, one module each:
- `optional.dfy`: `Option`.
- `text.dfy`: ASCII lower-casing, substring search, decimal rendering (`String(n)`) and `padStart`, with their lemmas.
- `catalogue.dfy`: the services and the lookup by id.
- `chat.dfy`: the step function, its properties, and the finding below.
- `appointments.dfy`: the appointment store and its handlers.
- `otp.dfy`: the OTP store.
- `slots.dfy`: the slot generator.

Three behaviours of the code shape the model:
- **Menu step.** The code tests the step before any keyword (`backend/server.js:33`), so in the `menu` and `greeting` steps the reply is always the welcome menu. `Chat.Advance` models that; see Findings.
- **Booking id.** The id is `Date.now().toString()` (`backend/server.js:72`), which is not unique. So the id is a free parameter and no uniqueness is claimed. Reschedule and cancel act on the first record with that id.
- **Verify outcomes.** Verify reports each failure as a message in an HTTP 200 body (`backend/server.js:213-224`). The model keeps them as four `Otp.Outcome` values.

## Model

| member | source | states |
|---|---|---|
| Catalogue.Find | backend/server.js:66-69 | a found service is a catalogue entry with the requested id, so its name and duration are offered |
| Catalogue.FindKnownIds | backend/server.js:18-23 | exactly ids 1..4 are found, id k giving the k-th entry |
| Text.Includes | backend/server.js:36-45 | the keyword test is true iff the word occurs as a contiguous substring of the message |
| Text.Lower | backend/server.js:36-45 | `toLowerCase()` on ASCII: the length is kept, no capital letter is left, each capital becomes the same letter in lower case and every other character is unchanged; with `Text.LowerIdempotent` (lower-casing twice is lower-casing once) and `Text.LowerFixesNonLetters` (only the string itself lower-cases to a string of non-letters such as "1") it yields `Chat.CaseInsensitive` |
| Chat.Matches | backend/server.js:36-45 | one branch test `message === digit \|\| message.toLowerCase().includes(word)`: true iff the message is exactly the digit or its lower-cased text contains the word as a contiguous substring |
| Chat.Advance | backend/server.js:26-49 | in steps `menu`/`greeting` the welcome menu with next step `menu` and no data; otherwise the book, reschedule, cancel keywords in that priority (each an iff), an unmatched message giving the empty response, `menu`, no data; only the book branch carries data, the whole catalogue |
| Chat.CaseInsensitive | backend/server.js:36-45 | a message and its ASCII lower-cased form get the same reply in every step |
| Chat.MenuIgnoresMessage | backend/server.js:33-35 | in the menu and greeting steps any two messages get the same reply, the welcome menu |
| Chat.DigitInMenuStepRepeatsMenu | backend/server.js:33-39 | "1" in step `menu` gets the welcome menu, while in step `select_service` it selects booking |
| Chat.BookingWinsOverCancel | backend/server.js:36-45 | outside the menu and greeting steps, every message that names both booking and cancelling is taken as a booking, since the book test at :36 precedes the cancel test at :43 |
| Chat.CancelMyBooking | backend/server.js:33-45 | "Cancel my Booking" names both choices; it is a booking in step `select_service` and gets the menu in step `menu`, where the step test comes first |
| Chat.MenuStepNeverAdvances | backend/server.js:33-35 | as written, no message sent in the step named `menu` (the name the server hands back as `nextStep`) leads out of the menu |
| Chat.AdvanceIntended | backend/server.js:33-46 | corrected step function: book, reschedule, cancel selected iff the message names them in priority order, in every step; unmatched gives the menu in menu steps |
| Chat.IntendedAgreesOutsideMenu | backend/server.js:33-46 | the correction changes nothing outside the menu steps, nor for messages naming no choice |
| Chat.IntendedMenuReachesEveryChoice | backend/server.js:36-45 | with the correction "1", "2", "3" in the menu step reach their three branches |
| Appointments.Book | backend/server.js:57-98 | a missing field gives 400 with the store unchanged; then an unknown service gives 404 with the store unchanged; otherwise exactly one confirmed record is appended at the end of that email's list, holding the request's fields and the service's name and duration, other emails untouched; the store invariant is kept |
| Appointments.Upcoming | backend/server.js:128-131 | the filter result is an order-preserving subsequence holding exactly the records dated after now, each as often as in the input |
| Appointments.Fetch | backend/server.js:124-134 | the reply is the order-preserving subsequence of that email's list holding exactly the records dated strictly after now, each as often as in the list; an unknown email gives the empty list |
| Appointments.UpcomingAppend | backend/server.js:128-131 | filtering a concatenation is the concatenation of the filtered halves |
| Appointments.BookThenFetch | backend/server.js:124-134 | after a booking the visitor's upcoming list gains the new record at its end iff its date is upcoming; other visitors' lists are unchanged |
| Appointments.FirstIndex | backend/server.js:168 | the index found is that of the first record with the id, and none is found iff no record has it |
| Appointments.Update | backend/server.js:137-155 | no record with the id gives 404 with the store unchanged; otherwise only the first matching record changes, and only in date, time and update time; length, other records and other emails unchanged; invariant kept |
| Appointments.Cancel | backend/server.js:163-180 | no record with the id gives 404 with the store unchanged; otherwise exactly the first matching record is removed and returned, the others keep their order, the length drops by one, other emails untouched; invariant kept |
| Appointments.BookThenCancel | backend/server.js:167-175 | booking under a fresh id then cancelling that id restores every visitor's list |
| Appointments.UpdateIdempotent | backend/server.js:141-150 | rescheduling twice to the same date and time at the same instant equals rescheduling once |
| Text.DecimalDenotes | backend/server.js:191 | `toString()` of a natural is digits only, has no leading zero and denotes the number |
| Text.DecimalLength | backend/server.js:191 | a number with k+1 decimal digits renders as k+1 characters |
| Otp.DrawCode | backend/server.js:191 | `floor(100000 + random * 900000)` lies in 100000..999999 |
| Otp.CodeText | backend/server.js:191 | the stored code is six digits denoting the drawn number |
| Otp.Send | backend/server.js:188-196 | the entry for the phone is overwritten with a six-digit code in 100000..999999 expiring 300000 ms after now; other phones untouched |
| Otp.Verify | backend/server.js:208-228 | no entry: not found, store unchanged; past expiry: expired and entry deleted whatever the code; wrong code in time: mismatch, store unchanged; verified (`success: true`) iff an entry exists, it is not past expiry (expiry instant included) and the code matches, and then the entry is deleted; nothing else changes |
| Otp.SendThenVerify | backend/server.js:193-227 | the code just sent verifies at any time up to five minutes later, and a second verification finds no entry |
| Otp.ExpiresAfterLifetime | backend/server.js:217-220 | later than five minutes after sending, any code is refused as expired and the entry is removed |
| Otp.MismatchKeepsCode | backend/server.js:217-227 | a wrong code leaves the entry so that the right code still verifies |
| Otp.SendOverwrites | backend/server.js:193-196 | sending twice for a phone leaves only the second code |
| Text.PadStartShape | backend/server.js:115 | `padStart` result has the larger of the two lengths, ends with the input and is filled on the left |
| Text.TwoDigits | backend/server.js:115 | for n < 100, `String(n).padStart(2, '0')` is the two decimal digits of n |
| Slots.FormatTimeReadsBack | backend/server.js:115 | a formatted hour and minute is an "HH:MM" string denoting 60*hour + minute |
| Slots.HourSlots | backend/server.js:114-117 | the inner loop yields the hour's :00 and :30 slots in that order |
| Slots.Generate | backend/server.js:106-121 | the list is the first sixteen slots of the fixed slot sequence, independent of the date; each is an "HH:MM" string (minutes below 60), the k-th at 9:00 plus 30k minutes, from "09:00" to "16:30", and the date echoed back |
| Slots.ConsecutiveSlots | backend/server.js:113-118 | consecutive slots are exactly 30 minutes apart, so the list is strictly increasing |

## Left out

- Express, cors and dotenv wiring, `app.listen`, `GET /health` and `GET /api/services` (`backend/server.js:1-11, 52-54, 248-265`). They are HTTP plumbing without logic.
- The email notices (`sendConfirmationEmail`, `sendUpdateEmail`, `sendCancellationEmail`) and the OTP console log. They only log, so they are no-ops here. Cancel returns the removed record, which is what its notice describes.
- The try/catch 500 replies, and the crash when a chat message is not a string. These are runtime faults, not business logic.
- The plain-object stores are modelled as maps. Keys inherited from `Object.prototype` (e.g. an email or phone of `"constructor"`) are not modelled. With such a key the JavaScript object lookup finds a function rather than no entry.
- Reply texts are tags. The emoji wording is not modelled.
- `Math.random`, `Date.now()` and `new Date()` are parameters. The ISO `createdAt`/`updatedAt` strings are the clock value. Date-string parsing is the `parse` parameter.
- Floating-point rounding in the OTP draw is not modelled: the draw is an exact real.
- Text.Lower: lower-cases ASCII letters only. JavaScript's `toLowerCase` also maps non-ASCII letters, so the model can miss a keyword spelled with non-ASCII capitals.
- Appointments.Book: `serviceId` is the number the field compares loosely equal to (`==`), or none when the field is missing. A numeric string such as `"0"` is truthy in the source and fails with 404 there, but the model maps it to 0 and reports 400. Fields other than `serviceId` are strings, and the empty string stands for every falsy value.
- Appointments.Update: `newDate` and `newTime` are stored without validation, as in the source. An absent field is represented by a string value, so `undefined` is not distinguished from a string.
- Otp.Verify: the code comparison is strict (`!==`, `backend/server.js:222`), so an `otp` sent as a JSON number such as `123456` never equals the stored string and the source answers "Invalid OTP". The model's `otp` is a string only, so that mismatch is not modelled.
- Appointments.Fetch: `new Date()` is evaluated afresh for each record inside the filter (`backend/server.js:129-130`). The model compares every record with one instant `now`, so the handler is modelled as running at a single instant.
- Appointments.Update, Appointments.Cancel: the id comparison is strict (`===`), so a numeric `appointmentId` never matches a stored string id. The model's ids are strings only.
- App.jsx as a whole: it is the UI. Its field checks repeat the server's validation.

## Findings

| source | as written | input that shows it | evidently intended | confidence | as-written member | corrected member |
|---|---|---|---|---|---|---|
| backend/server.js:33-45 | the `menu`/`greeting` step test comes before the keyword tests, so in those steps every message gets the welcome menu and next step `menu` | message `"1"`, step `"menu"` (the client's initial step, which each reply sets again) gives the welcome menu instead of the service list | the keyword branches are tried first, and an unmatched message in the menu step gets the menu again | medium, not executed | Chat.MenuStepNeverAdvances | Chat.AdvanceIntended |
