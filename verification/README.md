# my-desk: a Dafny model of the booking rules

my-desk is a desk-booking web application. Employees log in with an employee
number, guests register an account, and reservations are kept per desk, day
name and week number. External schedulers call three cron endpoints:

- one books a user's own desk for chosen weekdays every week;
- one writes a daily booking-metrics row;
- one deletes past reservations.

This project models the rules behind those endpoints and behind the pages'
small lookups as pure Dafny functions over an immutable store. It proves
what the code promises about them:

- who may change what;
- which rows an operation adds or removes, and that nothing else changes;
- that the store's key and reference constraints survive every handler;
- the date arithmetic that turns a day name and a week number into a date.

Dates are whole day numbers (day 0 is Thursday 1 January 1970). The wall
clock is a `Dates.Clock` parameter holding today and the first days of the
current and the next year. Formatting a day as "dd.MM.yyyy" is an abstract
`fmt` parameter of the handlers. `CivilFormat` gives a concrete formatter,
used where the text order of formatted dates matters.

Modules (one file each):

- `Wrappers`: the `Option` and `Result` types.
- `Text`: ASCII lower-casing, substring search, and SQLite's byte-wise text order.
- `JsNumber`: JavaScript's `Number(...)` on query and form parameters.
- `Dates`: weekdays, Sunday-start weeks, `getWeek`, and `getDateByWeekAndDay`.
- `CivilFormat`: the "dd.MM.yyyy" text and its ordering.
- `ErrorMessages`: `getUserFriendlyErrorMessage`.
- `Breadcrumbs`: the breadcrumb label lookup.
- `Schema`: the users, desks, reservations and booking-metrics tables, their
  constraints, and the delete cascades.
- `DeskModal`: the two-week availability strip of the desk dialog.
- `Http`: responses, form-field text, and the user cookie.
- `AutoReservation`: the automatic-reservation cron loader.
- `ReservationsAction`: the delete action of the reservations page.
- `LogMetrics`: the daily metrics cron loader.
- `ReservationsCleanup`: the cleanup cron action, as written and corrected.
- `Login`: the employee login route.
- `GuestLogin`: the guest registration route, as written and corrected.

`reservations.tsx` and `cron.reservations-cleanup.ts` import their table from
`app/lib/db/schema.server.ts`. That file defines the tables differently: it has
no `date` column and another primary key. It is not part of this model. Both
handlers are modelled against the table defined in `app/lib/db/schema.ts`,
whose `date` column they use; "## Left out" says what that leaves out.

## Model

| member | source | states |
|---|---|---|
| Text.ToLower | app/lib/utils.ts:23 | Lower-casing keeps the length and lower-cases each character independently. |
| Text.ToLowerIdempotent | app/lib/utils.ts:23 | Lower-casing twice gives the same text as lower-casing once. |
| Text.MissingCharRefutes | app/lib/error-messages.ts:13-19 | A text that lacks a character of `sub` does not contain `sub`, as `includes` would report. |
| Text.LexLessConcat | app/routes/cron.reservations-cleanup.ts:22 | SQLite's text order compares equal-length leading blocks first, then the rest. |
| JsNumber.FromParam | app/routes/cron.automatic-reservation.ts:29 | A missing `deskId` parameter converts to the number 0. The decimal text of an integer, with or without a leading minus, converts to that integer. |
| JsNumber.TrailingDotKeepsValue | app/routes/cron.automatic-reservation.ts:29 | An integer's text followed by a dot, such as "12.", converts to that integer. |
| JsNumber.LeadingDot | app/routes/cron.automatic-reservation.ts:29 | ".5" is a fraction, ".0" is 0, and a lone "." is NaN. |
| JsNumber.DecimalTextRoundTrip | app/routes/reservations.tsx:66 | Converting the decimal text of a natural number gives that number back. |
| Dates.StartOfWeek | app/lib/utils.ts:10-12 | The week start is the Sunday on or before the day, at most six days earlier. |
| Dates.StartOfWeekForm | app/lib/utils.ts:10-12 | Every week start is a Sunday. |
| Dates.DayIndex | app/lib/utils.ts:15-23 | A day name's index names the same day after lower-casing; there is no index exactly when the lower-cased name is not a day name. |
| Dates.DateByWeekAndDay | app/lib/utils.ts:9-30 | Fails with "Invalid day name" exactly when the lower-cased name is not a day name. Otherwise the date lies in the requested week, counted from the Sunday of 1 January's week. |
| Dates.ResolvedWeekday | app/lib/utils.ts:9-30 | A resolved date falls on the named weekday, `7*(week-1)` plus that weekday's offset after the Sunday of 1 January's week. |
| Dates.DateByWeekAndDayIgnoresCase | app/lib/utils.ts:23 | A name and its lower-cased form resolve to the same result. |
| Dates.NextWeekIsSevenDaysLater | app/lib/utils.ts:13 | One week number later gives a date exactly seven days later. |
| Dates.DayOffsetWithinWeek | app/lib/utils.ts:22-29 | Within one week, a name with index i resolves to i days after that week's Sunday, whatever either name's spelling. |
| Dates.ResolveCanonicalName | app/lib/utils.ts:10-29 | The i-th name of sunday..saturday resolves to the Sunday of 1 January's week plus `7*(week-1)+i` days. |
| Dates.SameYearSameDate | app/lib/utils.ts:9-30 | Two clocks in the same year give the same result. |
| Dates.WeekOf | app/routes/cron.automatic-reservation.ts:27 | `getWeek` is between 1 and 53. The week holding next year's 1 January is week 1. Otherwise the week number counts Sunday-start weeks from 1 January's week to today's. |
| Dates.CurrentWeekResolvesToThisWeek | app/routes/cron.automatic-reservation.ts:27-68 | Away from the year's last week, a day name resolved in the current week lands in the week containing today. |
| Dates.YearEndWeekResolvesToJanuary | app/routes/cron.automatic-reservation.ts:27-68 | In the week holding next year's 1 January, a day name resolves into 1 January's week of the ending year, at least 353 days before today. |
| Dates.FirstMondayOf2025 | app/lib/utils.ts:9-30 | In 2025, "monday" of week 1 is 30 December 2024. |
| Dates.YearEndMondayOf2025 | app/lib/utils.ts:10-13 | On Monday 29 December 2025 the current week is week 1, and "monday" of it resolves to 30 December 2024. |
| Dates.CorrectedResolvesToThisWeek | app/lib/utils.ts:9-30 | Counting weeks from the week-numbering year, a day name in the current week always resolves to that day of the week holding today, the year's last week included. |
| CivilFormat.Format | app/routes/cron.log-metrics.ts:14 | The formatted date has ten characters with dots at positions 2 and 5. |
| CivilFormat.ParseFormat | app/routes/cron.log-metrics.ts:14 | Reading the digits of a formatted date gives the date back, so formatting is injective. |
| CivilFormat.FormatInjective | app/routes/cron.log-metrics.ts:14-19 | Different dates format to different texts. |
| CivilFormat.SortKeyIsChronological | app/routes/cron.reservations-cleanup.ts:19-22 | Comparing "yyyyMMdd" rearrangements of formatted dates in text order is exactly chronological order. |
| ErrorMessages.FriendlyMessage | app/lib/error-messages.ts:5-29 | The result is never empty and is one of the three fixed texts or the raw message. |
| ErrorMessages.ForeignKeyTakesPriority | app/lib/error-messages.ts:13-15 | A raw message with the foreign-key code gives the missing-record text, whatever else it contains. |
| ErrorMessages.ConflictWithoutForeignKey | app/lib/error-messages.ts:17-22 | A primary-key or unique code without the foreign-key code gives the conflict text. |
| ErrorMessages.MissingMessageIsGeneric | app/lib/error-messages.ts:6-26 | Null, non-objects, objects without `message`, and the empty string give the generic text. |
| ErrorMessages.OtherMessagesPassThrough | app/lib/error-messages.ts:28 | Any other non-empty raw message is returned unchanged. |
| ErrorMessages.FixedTextsCarryNoCode | app/lib/error-messages.ts:14-25 | None of the fixed texts contains an SQLite constraint code. |
| ErrorMessages.FriendlyMessageIsFixpoint | app/lib/error-messages.ts:5-29 | Translating a translated message again changes nothing. |
| Breadcrumbs.FirstKeyFrom | app/components/app-breadcrumbs.tsx:24-25 | The search returns the first key, from a given position on, that the path contains, or none when none is contained. |
| Breadcrumbs.CurrentPageLabel | app/components/app-breadcrumbs.tsx:12-28 | There is no label exactly when the path contains no key. Otherwise the label belongs to the first key in declared order that the path contains. |
| Breadcrumbs.LabelIsDeclared | app/components/app-breadcrumbs.tsx:12-19 | A label found is one of the six declared labels. |
| Breadcrumbs.TrailFor | app/components/app-breadcrumbs.tsx:33-34 | The path "/" shows the Desks page item; every other path shows the looked-up label. |
| Breadcrumbs.ProfileEditPathLabel | app/components/app-breadcrumbs.tsx:16-25 | "/users/edit/" followed by an id without a `v` gets "Edit your profile". |
| Breadcrumbs.EarlierKeyWins | app/components/app-breadcrumbs.tsx:13-25 | "/users/edit/reserve" gets "Add reservation", because "/reserve" is declared before "/users/edit/". |
| Schema.NewUser | app/lib/db/schema.ts:11-17 | A new user has role "user" and no scheduler job. |
| Schema.Valid | app/lib/db/schema.ts:11-63 | Defines the table constraints: user keys match their rows, desk ids ascend, desk positions are unique, a desk's occupant is an existing user, and a reservation points at an existing desk and user. |
| Schema.DeskOfUser | app/lib/db/schema.ts:78-84 | The desk found for a user is theirs and has the smallest id among their desks. |
| Schema.DeleteUser | app/lib/db/schema.ts:26-44 | Deleting a user removes only that user and exactly their reservations. Every desk keeps its place, id and position; only an occupant equal to the deleted user is cleared. |
| Schema.DeleteUserKeepsValid | app/lib/db/schema.ts:11-63 | Deleting a user keeps the keys, uniqueness and references of the tables intact. |
| Schema.DeleteDesk | app/lib/db/schema.ts:45-48 | Deleting a desk removes it and exactly the reservations on it. |
| Schema.DeleteDeskKeepsValid | app/lib/db/schema.ts:19-63 | Deleting a desk keeps the tables' constraints intact. |
| DeskModal.IsReserved | app/components/desk-selection-modal.tsx:41-63 | A letter is reserved in a week exactly when it is one of M, T, W, Th, F and some reservation has its day name and that week. |
| DeskModal.LetterDaysResolve | app/components/desk-selection-modal.tsx:41-47 | Every day a letter stands for is accepted by the date resolver. |
| DeskModal.OtherReservationsIrrelevant | app/components/desk-selection-modal.tsx:61 | Adding a reservation for another day or week does not change the answer. |
| DeskModal.AvailabilityOf | app/components/desk-selection-modal.tsx:54-109 | The strip has five entries for the current week and five for the next, each equal to the reservation check for its letter and week. |
| AutoReservation.MapOrFail | app/routes/cron.automatic-reservation.ts:63-70 | Mapping succeeds exactly when every day resolves, and a failure carries the error of some day. On success there is one value per day, in order, each that day's resolution. |
| AutoReservation.BuildRows | app/routes/cron.automatic-reservation.ts:63-70 | Building fails exactly when some requested day name is rejected. Otherwise there is one row per day, in order, each with the day's key, user, and resolved date. |
| AutoReservation.InsertIfAbsent | app/routes/cron.automatic-reservation.ts:72 | The keys become the old keys plus the rows' keys. Old rows are kept, and a new key gets the first row carrying it. |
| AutoReservation.ClearCronId | app/routes/cron.automatic-reservation.ts:55-58 | Only the user's scheduler reference is cleared. |
| AutoReservation.Run | app/routes/cron.automatic-reservation.ts:16-80 | A bad password gives 401 and a bad input gives 400; neither changes anything. A desk mismatch gives 401, clears the user's job reference and requests deletion of that job id, or of the empty id when the user has none. 500 changes nothing, and 200 needs all checks to pass. Once they pass, the status is 200 exactly when at least one day is requested and every day name resolves, and 500 otherwise. No requested day gives the empty-insert error. |
| AutoReservation.SuccessOnlyAddsOwnRows | app/routes/cron.automatic-reservation.ts:63-72 | When every check passes and at least one day is requested, all of them known, the run succeeds. Existing rows and the other tables are unchanged. Afterwards every requested day of the current week is booked on the requested desk. Every new row is for a requested day, for the requesting user, and carries that day's resolved date as text and as a number. |
| AutoReservation.AddedRowsAreOwn | app/routes/cron.automatic-reservation.ts:63-72 | Inserting rows built for some days adds only keys of those days, of that week and desk, each booked by the user and dated with the day's resolved date. |
| AutoReservation.RowsCoverDays | app/routes/cron.automatic-reservation.ts:63-72 | After the insert every requested day's key is present, whether it was new or already taken. |
| AutoReservation.RunKeepsValid | app/routes/cron.automatic-reservation.ts:16-80 | Every run keeps the tables' constraints. |
| ReservationsAction.Action | app/routes/reservations.tsx:44-76 | An empty field gives 400 and deletes nothing. A DELETE whose desk id converts to NaN fails with 500 and deletes nothing, because the database client refuses a NaN argument. Otherwise the result is 200. A DELETE removes exactly the rows matching date, day and desk, and for non-admins also the submitted `reservation-user-id`. Other methods and other tables change nothing. |
| ReservationsAction.AbsentFieldsAreNotMissing | app/routes/reservations.tsx:47-52 | Absent form fields become "null" and pass the missing-field check. |
| ReservationsAction.NonNumericDeskIdFails | app/routes/reservations.tsx:50-66 | With the other fields filled in, a DELETE with an absent desk id ("null") or the desk id "abc" fails with 500 and deletes nothing. |
| ReservationsAction.NonAdminKeepsOthersReservations | app/routes/reservations.tsx:61-63 | A non-admin never deletes a reservation whose owner differs from the submitted `reservation-user-id`. |
| ReservationsAction.AdminDeletesAtLeastAsMuch | app/routes/reservations.tsx:61-63 | An admin deletes every reservation a non-admin with the same request would. |
| ReservationsAction.ActionKeepsValid | app/routes/reservations.tsx:56-69 | The action keeps the tables' constraints. |
| ReservationsAction.CallerIdPlaysNoRole | app/routes/reservations.tsx:45-63 | The caller's own id from the cookie does not change what the action deletes. |
| ReservationsAction.NonAdminMayDeleteOthers | app/routes/reservations.tsx:45-63 | A non-admin who submits another user's id deletes that user's reservation. |
| ReservationsAction.ActionCorrected | app/routes/reservations.tsx:44-76 | With the non-admin filter on the caller's own id, the responses are unchanged (400, 500 for a NaN desk id on DELETE, otherwise 200), and a non-admin keeps every reservation that is not theirs. |
| ReservationsAction.CorrectedNonAdminDeletesOnlyOwn | app/routes/reservations.tsx:61-63 | With the correction, a reservation a non-admin deletes is their own, whatever id the form carries. |
| ReservationsAction.CorrectedActionKeepsValid | app/routes/reservations.tsx:56-69 | The corrected action keeps the tables' constraints. |
| LogMetrics.GuestKeys | app/routes/cron.log-metrics.ts:30-36 | Guest bookings are among today's bookings. |
| LogMetrics.IsGuestBooking | app/routes/cron.log-metrics.ts:30-36 | Defines a guest booking: its desk exists and has an occupant other than the booker, and a desk without an occupant never counts. |
| LogMetrics.Run | app/routes/cron.log-metrics.ts:7-47 | A bad password gives 401, and an existing row for today gives 406; neither changes anything. 200 happens exactly otherwise and appends one row with today's date, total and guest counts. |
| LogMetrics.RunKeepsValid | app/routes/cron.log-metrics.ts:38-42 | Appending the metrics row keeps the tables' constraints. |
| LogMetrics.GuestsAtMostTotal | app/routes/cron.log-metrics.ts:25-41 | The guest count written never exceeds the total count. |
| LogMetrics.SecondRunSameDayChangesNothing | app/routes/cron.log-metrics.ts:14-23 | Starting from at most one row for today, a second run on the same day changes nothing, and at most one row for the day remains. |
| ReservationsCleanup.Handle | app/routes/cron.reservations-cleanup.ts:7-24 | A method other than DELETE gives 405 before the header is checked, and a wrong header gives 401; neither changes anything. Otherwise expired rows are removed with 200 "Subscriptions cleaned up". |
| ReservationsCleanup.Run | app/routes/cron.reservations-cleanup.ts:19-22 | After a successful run exactly the reservations whose date text is not less than today's "dd.MM.yyyy" text remain; rows without a date stay. |
| ReservationsCleanup.RunKeepsValid | app/routes/cron.reservations-cleanup.ts:19-22 | Removing the expired reservations keeps the tables' constraints. |
| ReservationsCleanup.RunIdempotent | app/routes/cron.reservations-cleanup.ts:19-22 | Cleaning up twice on the same day leaves the same store as cleaning up once. |
| ReservationsCleanup.TextOrderIsNotChronological | app/routes/cron.reservations-cleanup.ts:19-22 | With today 10.12.2026, a past 15.11.2026 reservation is kept and a future 02.01.2027 one is deleted. |
| ReservationsCleanup.RunChronological | app/routes/cron.reservations-cleanup.ts:19-22 | The corrected run keeps exactly the reservations whose rearranged date is not earlier than today's. |
| ReservationsCleanup.RunChronologicalKeepsValid | app/routes/cron.reservations-cleanup.ts:19-22 | The corrected cleanup keeps the tables' constraints as well. |
| ReservationsCleanup.ChronologicalRunRemovesExactlyPastDates | app/routes/cron.reservations-cleanup.ts:19-22 | With the corrected comparison, a formatted reservation date is removed exactly when it is before today. |
| Login.Action | app/routes/login.tsx:40-57 | The number is let in exactly when its lower-cased form is listed. A rejection is 401 "Invalid employee number" with no cookie. An acceptance redirects home and stores the number as typed. |
| Login.LoaderRedirects | app/routes/login.tsx:29-38 | Defines when the login page redirects home: the cookie parses and holds a non-empty user id. |
| Login.ActionIgnoresCase | app/routes/login.tsx:43 | Spellings that agree after lower-casing are treated alike. |
| Login.AcceptedNumbers | app/routes/login.tsx:21-43 | Exactly "g04255" and "g04256", with either case of the `g`, are accepted. |
| Login.MissingNumberRejected | app/routes/login.tsx:42-50 | A missing field arrives as "null" and is rejected. |
| Login.AcceptedLoginIsRemembered | app/routes/login.tsx:29-56 | The cookie written by a successful login makes the loader redirect home. |
| Login.UpperCaseNumberStoredAsTyped | app/routes/login.tsx:43-56 | "G04255" is accepted and stored in upper case. |
| GuestLogin.Errors | app/routes/login_.guest.tsx:37-53 | The error map has exactly one entry per empty field, with that field's message. |
| GuestLogin.LoaderRedirects | app/routes/login_.guest.tsx:21-30 | Defines when the guest page redirects home: whenever the cookie parses at all. |
| GuestLogin.Register | app/routes/login_.guest.tsx:32-76 | Any empty field gives status 400 with the errors and changes nothing. Otherwise the lower-cased id is inserted unless it exists, and the visitor is redirected home with a cookie. |
| GuestLogin.Action | app/routes/login_.guest.tsx:59-75 | A new id is stored lower-cased with the given names and put in the cookie. For an existing id the store is unchanged and the cookie gets the number as typed. |
| GuestLogin.ActionKeepsValid | app/routes/login_.guest.tsx:59-67 | Registration keeps the tables' constraints. |
| GuestLogin.ExistingAccountUnchanged | app/routes/login_.guest.tsx:66 | Registering an existing id again changes nothing in the store. |
| GuestLogin.AbsentFieldsRegisterNull | app/routes/login_.guest.tsx:34-53 | Submitting no fields registers the user "null", because absent fields become the text "null". |
| GuestLogin.CookieMayNameNoAccount | app/routes/login_.guest.tsx:62-72 | Registering "G01234" when "g01234" exists writes a cookie id that no account has. |
| GuestLogin.ActionCorrected | app/routes/login_.guest.tsx:59-75 | With the corrected cookie id, the cookie always names an existing account stored under that id. |
| GuestLogin.GuestLoaderIsLaxer | app/routes/login_.guest.tsx:21-30 | The guest loader redirects whenever the login loader does, and also on a cookie without a user id. |

## Left out

- Rendering, React state, toasts and styling are left out, and so is `cn` in `app/lib/utils.ts`. They are presentation only.
- Cookie signing and parsing, the HTTP transport, and request parsing are left out. A handler receives the parsed values.
- The scheduler clients are left out. Deleting the scheduler job is the `deletedCron` output of `AutoReservation.Run`.
- The database driver and the ORM are left out. Tables are maps and sequences, and each statement is one function.
- Auto-increment ids and `createdAt` defaults are left out. They are not read by any modelled rule.
- Time zones and millisecond timestamps are left out. A date is a whole day number, and `dateTimestamp` stores that number.
- Text.ToLower: lower-cases only A-Z. JavaScript also lower-cases non-ASCII letters.
- JsNumber.FromParam: covers an optional sign and digits with an optional '.', where either side of the dot may be empty but not both ("12." is 12, ".5" is a fraction). Surrounding whitespace, exponents, the "0x", "0b" and "0o" prefixes and "Infinity" become NaN here, while JavaScript accepts them. Values are also exact here, while JavaScript rounds to the nearest double: "1.0000000000000001" is a fraction here and 1 in JavaScript, and above 2^53 neighbouring integers can convert to the same number. The `forall n` promises hold in JavaScript only for n <= 2^53 and for texts of at most 17 significant digits.
- JsNumber.TrailingDotKeepsValue: holds in JavaScript only for n <= 2^53, because `Number` rounds larger integers to the nearest double.
- JsNumber.DecimalTextRoundTrip: holds in JavaScript only for n <= 2^53, for the same reason. Desk ids are small auto-increment integers, well inside that range.
- AutoReservation.Run: a fractional `deskId` passes the input check and then never matches a desk, as in the code. `Infinity` is treated as NaN. A `deskId` whose text rounds to the desk's id as a double, such as "1.0000000000000001" for desk 1, is a mismatch here (401, and the scheduler job is deleted) where JavaScript books the rows.
- ReservationsAction.Action: the 500 for a DELETE whose desk id is NaN stands for the database client's refusal of non-finite query arguments. The client library is not part of this model, and the framework's error page is not modelled. A desk id that rounds to a desk's id as a double, such as "1.0000000000000001", deletes nothing here where JavaScript deletes that desk's matching row.
- Schema.Valid: requires every reservation to have a desk. The source's `desk_id` column is nullable; the model makes it non-null because it is part of the key, and no modelled handler writes NULL there.
- Schema.DeskOfUser: picks the user's desk with the smallest id. The source's one-relation query reads a single row with no ORDER BY, so for a user with several desks the database decides which one it returns.
- `reservations.tsx` and `cron.reservations-cleanup.ts` import `reservations` from `app/lib/db/schema.server.ts`. That table has no `date` column, so `reservations.date` is undefined in those handlers as written. The model reads their date conditions against the `date` column of `app/lib/db/schema.ts`.
- Dates.WeekOf: models `getWeek` with its default options only. Locale options are not modelled.
- The cleanup's catch branch is left out. Its missing `return` hands an empty result to the framework when the delete fails, and storage failures are not modelled.
- The 500 status of `AutoReservation.Run` stands for an error that escapes the loader: the resolver's on an unknown day name, or the query builder's when `values` gets an empty list because no `day` was requested. The framework's own error page is not modelled.
- Desk editing, profile editing, the reserve page and the metrics page are left out. They are not part of the modelled core.

## Findings

| source | as written | input that shows it | evidently intended | confidence | as-written member | corrected member |
|---|---|---|---|---|---|---|
| app/routes/cron.reservations-cleanup.ts:19-22 | Deletes reservations whose "dd.MM.yyyy" text is less than today's text, comparing character by character | today 10.12.2026: "15.11.2026" is kept, "02.01.2027" is deleted | delete reservations dated before today | high, not executed | ReservationsCleanup.TextOrderIsNotChronological | ReservationsCleanup.ChronologicalRunRemovesExactlyPastDates |
| app/routes/reservations.tsx:45-63 | A non-admin's delete keeps only rows whose owner is the submitted `reservation-user-id`; the caller's own id is never read | caller "g04255", not an admin, submits user id "g04256" with that user's date, day and desk: the reservation of "g04256" is deleted | a non-admin deletes only their own reservations, the ones the page's loader lists | medium, not executed | ReservationsAction.NonAdminMayDeleteOthers | ReservationsAction.CorrectedNonAdminDeletesOnlyOwn |
| app/lib/utils.ts:10-13 | Week 1 is counted from 1 January of today's calendar year, while `getWeek` numbers weeks in the week-numbering year | Monday 29.12.2025: `getWeek` gives 1, and "monday" of week 1 resolves to 30.12.2024 | the named day of the current week, 29.12.2025, as `getWeekYear` would give | medium, not executed | Dates.YearEndMondayOf2025 | Dates.CorrectedResolvesToThisWeek |
| app/routes/login_.guest.tsx:62-72 | When the lower-cased id exists already, the cookie falls back to the number as typed | store holds "g01234"; registering "G01234" sets cookie user id "G01234", which names no account | the cookie holds the stored, lower-cased id | medium, not executed | GuestLogin.CookieMayNameNoAccount | GuestLogin.ActionCorrected |
