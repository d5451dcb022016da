# Coworking reservations — a Dafny model

This project models the reservation engine of `Ev3_progra3.py`. That script is a
console program for a coworking space. It registers clients (CLIENTES) and rooms
(SALAS). It books a room for one of three daily shifts (`Matutino`, `Vespertino`,
`Nocturno`) on a date, and stores each booking in RESERVACIONES under a random
four-digit folio. It can also rename the event of a booking.

The SQLite database becomes a `Store` class. The store holds the three tables as
sequences of rows, plus the next AUTOINCREMENT key of CLIENTES and of SALAS. The
registration, booking and editing operations are methods that change the store.
Everything the user types is a parameter:

- The answers to the retry prompts are finite scripts (`seq`). A loop that runs out
  of answers ends `Unfinished`, where the program would keep asking.
- The values `random.randint(1000, 9999)` returns are a script of draws.
- Each pass of the date prompt carries its own `datetime.now()` reading.

The modules follow the program's parts:

- `Calendar`: proleptic Gregorian dates, day numbers as `date.toordinal()`, weekdays
  as `date.weekday()`, the next day, and the "%m-%d-%Y" text.
- `DatePolicy`: `fecha_input_valida`. A Sunday becomes the next day, which is a
  Monday, if the user accepts. The lead-time check then runs on the resulting date.
  A date at midnight is accepted against a clock reading that has a time of day
  exactly when its day number is at least today's plus three.
- `Records`: the rows of the three tables and the invariant the program keeps over
  them. That invariant covers unique keys and unique folios, valid references, no
  Sunday dates and no double booking.
- `Availability`: `listar_salas_disponibles` and the `", "` join and split round trip.
- `Folio`: `generar_folio_unico`.
- `Prompts`: the retry loops for the client, room, folio and shift prompts.
- `Editing`: the `BETWEEN` listing of `editar_evento` and its `UPDATE`.
- `Coworking`: the `Store` class and the booking workflow.
- `Text`: Python's `strip`, `", ".join` and `split(",")`.

In these respects the model follows the code:

- Folios are drawn again without limit (lines 108-112). There is no bounded retry
  and no allocation error. The model proves that a free folio exists while fewer
  than 9000 reservations are stored.
- Rooms are listed in table order.
- The edit range is compared as TEXT (line 246), not as dates. The stored
  `mm-dd-yyyy` text is compared with the bounds as the user typed them, which
  `strptime` only checks (lines 238-239). `Editing.TextRangeIsNotChronological`
  exhibits a row a year outside the range that is still listed.
  `Editing.OneDigitBoundsExample` exhibits bounds typed with one-digit fields
  that leave out a row inside the range.

## Model

| member | source | states |
|---|---|---|
| `Text.Strip` | Ev3_progra3.py:52-53 | the stripped text has no whitespace at either end |
| `Text.StripDropsOnlySpace` | Ev3_progra3.py:52-53 | the stripped text is a slice of the input with only whitespace before and after it |
| `Text.StripEmptyIff` | Ev3_progra3.py:54 | the stripped text is empty exactly when the input is all whitespace, which is when `not nombre` rejects it |
| `Text.StripIdempotent` | Ev3_progra3.py:52-53 | stripping twice gives the same text as stripping once |
| `Text.Split` | Ev3_progra3.py:169 | `split(",")` gives at least one piece and no piece holds a comma |
| `Text.StripAll` | Ev3_progra3.py:169 | stripping every piece keeps the number of pieces |
| `Text.StripAllAt` | Ev3_progra3.py:169 | each piece of the result is the stripped piece at the same position |
| `Text.LettersArePlain` | Ev3_progra3.py:123 | a word of ASCII letters holds no comma and is its own strip |
| `Text.JoinSplit` | Ev3_progra3.py:169 | joining the pieces of a split with "," gives back the text |
| `Text.Join` | Ev3_progra3.py:125 | `sep.join(ws)` (no contract of its own): `JoinSplit` and `SplitStripJoin` give its meaning, that splitting the joined text gives the pieces back |
| `Text.SplitStripJoin` | Ev3_progra3.py:125 | joining comma-free, already-stripped words with ", ", then splitting at "," and stripping each piece, gives back the same words |
| `Calendar.Ordinal` | Ev3_progra3.py:92 | `date.toordinal()`, the day number from 01-01-0001 as day 1 (no contract of its own): `NextDay`, `DaysBeforeYearStep` and `LastDateIsFriday` give its meaning |
| `Calendar.Weekday` | Ev3_progra3.py:92 | the weekday is in 0..6 (Monday 0, Sunday 6) |
| `Calendar.NextDay` | Ev3_progra3.py:93 | adding one day gives a valid date whose day number is one more (below the last representable date) |
| `Calendar.NextDayWeekday` | Ev3_progra3.py:92-93 | the weekday of the next day is one further, round the week |
| `Calendar.SundayIsNotLast` | Ev3_progra3.py:92-93 | no Sunday is the last representable date |
| `Calendar.SundayThenMonday` | Ev3_progra3.py:92-93 | the day after any Sunday exists and is a Monday |
| `Calendar.SundayExample` | Ev3_progra3.py:92-94 | 11-16-2025 is a Sunday and its substitute is the Monday 11-17-2025 |
| `Calendar.LastDateIsFriday` | Ev3_progra3.py:93 | 12-31-9999 is a Friday, so no Sunday is the last date |
| `Calendar.DaysBeforeYearStep` | Ev3_progra3.py:93 | the day count before year y+1 is the count before year y plus the length of year y (leap years by the 4/100/400 rule) |
| `Calendar.Pad2Reads` | Ev3_progra3.py:105 | `%m`/`%d` writes two digits that read back as the number |
| `Calendar.Pad4Reads` | Ev3_progra3.py:105 | `%Y` writes four digits that read back as the number |
| `Calendar.Format` | Ev3_progra3.py:105 | the stored text is ten characters with dashes at positions 2 and 5 |
| `Calendar.Strptime` | Ev3_progra3.py:238-239 | `strptime(s, "%m-%d-%Y")` yields only valid dates |
| `Calendar.StrptimeReadsFields` | Ev3_progra3.py:238-239 | text made of a month field (`1[0-2]`, `0[1-9]` or `[1-9]`), a dash, a day field (`3[01]`, `[12]` and a digit, `0[1-9]`, `[1-9]` or a blank and `[1-9]`), a dash and four digits reads as that date when the date exists, and is refused otherwise |
| `Calendar.StrptimeNeedsFields` | Ev3_progra3.py:238-239 | every accepted text has that shape and reads field by field |
| `Calendar.StrptimeLenientExample` | Ev3_progra3.py:238-239 | `1-5-2025` and `01- 5-2025` read as 01-05-2025; `02-30-2025` and a two-digit year are refused |
| `Calendar.ParseFormat` | Ev3_progra3.py:88-105 | reading the stored text back with `strptime` gives the same date |
| `Calendar.FormatInjective` | Ev3_progra3.py:121 | two dates with the same stored text are the same date, so the `fecha = ?` text test is date equality |
| `DatePolicy.TooSoon` | Ev3_progra3.py:102 | the rejection test `fecha <= hoy + timedelta(days=2)` in microseconds (no contract of its own): `TooSoonIff` gives its meaning |
| `DatePolicy.TooSoonIff` | Ev3_progra3.py:101-102 | `fecha <= now + 2 days` holds exactly when the date's day number is below today's plus three, whatever the time of day |
| `DatePolicy.Normalize` | Ev3_progra3.py:86-105 | a pass returns only a valid non-Sunday date at least three days after today. A Sunday is replaced by the next day only when accepted. Every admissible date (or accepted Sunday substitute) is returned. |
| `DatePolicy.FirstAdmittedFrom` | Ev3_progra3.py:85-105 | the pass that ends the loop yields a date, and every earlier pass yields none |
| `DatePolicy.ReadDate` | Ev3_progra3.py:84-105 | the loop returns the date of the first pass that yields one (`AdmittedDate`), and reports that pass |
| `DatePolicy.LeadTimeExample` | Ev3_progra3.py:101-104 | a date one day ahead and a Saturday two days ahead (clock just before midnight) are refused; a Monday three days ahead is taken even late in the day |
| `DatePolicy.SundayPolicyExample` | Ev3_progra3.py:92-100 | an accepted Sunday yields its Monday; a declined one discards the pass |
| `Records.AddClientKeepsTables` | Ev3_progra3.py:54-59 | adding a client under an unused key with non-empty stripped names keeps the table invariant |
| `Records.AddRoomKeepsTables` | Ev3_progra3.py:66-79 | adding a room under an unused key with a non-empty name and positive capacity keeps the table invariant |
| `Availability.BookedShifts` | Ev3_progra3.py:121-122 | the booked shifts are exactly the `turno` of the rows for that room and date |
| `Availability.Without` | Ev3_progra3.py:123 | the filtered list holds exactly the shifts not booked, and is no longer than the input |
| `Availability.OpenShifts` | Ev3_progra3.py:123 | the day's shifts not among the booked ones (no contract of its own): `Without` and `WithoutKeepsOrder` give its meaning |
| `Availability.WithoutKeepsOrder` | Ev3_progra3.py:123 | the open shifts are picked from the fixed shift order at strictly increasing positions, so they keep that order |
| `Availability.WithoutNothing` | Ev3_progra3.py:123 | with nothing booked, the filter keeps every shift |
| `Availability.ListAvailableRooms` | Ev3_progra3.py:114-127 | the room loop builds exactly the rows `AvailableRooms` specifies |
| `Availability.AvailableRooms` | Ev3_progra3.py:119-126 | there are no more rows than rooms |
| `Availability.EntryFor` | Ev3_progra3.py:125 | the row `(clave_s, nombre_sala, cupo, ", ".join(turnos))` built for a room (no contract of its own): `OfferedShiftsAreFree` gives its meaning |
| `Availability.AvailabilityMembership` | Ev3_progra3.py:120-125 | a room is listed exactly when it has a free shift, with its own row |
| `Availability.AvailabilityInTableOrder` | Ev3_progra3.py:120-125 | the rows are the rooms with a free shift, in the order of the SALAS table |
| `Availability.FullyBookedNotListed` | Ev3_progra3.py:123-124 | a room with all three shifts booked on the date is never listed |
| `Availability.OfferedShifts` | Ev3_progra3.py:169 | the shifts read back from a listed row with `split(",")` and `strip()` (no contract of its own): `OfferedShiftsAreFree` gives its meaning |
| `Availability.OfferedShiftsAreFree` | Ev3_progra3.py:167-170 | splitting a listed row's shift text gives exactly that room's free shifts, in order |
| `Availability.ShiftNamesArePlain` | Ev3_progra3.py:123 | the shift names hold no comma and no surrounding whitespace |
| `Availability.NoDoubleBookingAppend` | Ev3_progra3.py:173-185 | appending a booking keeps "no double booking" exactly when its shift was not yet booked for that room and date |
| `Availability.NothingBookedAllFree` | Ev3_progra3.py:123 | a room with no booking on a date has all three shifts free |
| `Availability.TwoBookingsLeaveNight` | Ev3_progra3.py:121-123 | after the morning and afternoon of a room and date are booked, only `Nocturno` is free |
| `Folio.FirstFreeFrom` | Ev3_progra3.py:108-112 | the draw that ends the loop is in [1000, 9999] and used by no reservation; every earlier draw was in use |
| `Folio.GenerateFolio` | Ev3_progra3.py:107-112 | the loop returns the first draw not used by any reservation (`FreeDraw`), and reports which draw it was |
| `Folio.UsedFolios` | Ev3_progra3.py:110-111 | the set of used folios is exactly the folios of the rows, and no larger than the table |
| `Folio.Interval` | Ev3_progra3.py:109 | the draw range as a set, with its size |
| `Folio.FreeFolioExists` | Ev3_progra3.py:108-112 | while fewer than 9000 reservations exist, some folio in range is unused |
| `Prompts.FirstNumberFrom` | Ev3_progra3.py:135-151 | the numeric prompt settles on an accepted number or, where it has one, the cancel token; every earlier answer was refused. At the client prompt, which binds the typed key to its query (line 146), a key outside SQLite's 64-bit INTEGER range ends the program instead |
| `Prompts.OversizedKeyExample` | Ev3_progra3.py:139-150 | the key 2^63 ends the client prompt before a later valid key is read, while the folio prompt only refuses it |
| `Prompts.SelectNumber` | Ev3_progra3.py:135-151 | the loop ends with the answer `FirstNumber` names |
| `Prompts.FirstShiftFrom` | Ev3_progra3.py:171-176 | the shift prompt settles on an offered shift, has no cancel, and every earlier answer was not offered |
| `Prompts.SelectShift` | Ev3_progra3.py:171-176 | the loop ends with the answer `FirstShift` names |
| `Editing.TextLe` | Ev3_progra3.py:246 | SQLite's BINARY text order: a prefix sorts first |
| `Editing.TextLeTotal` | Ev3_progra3.py:246 | any two texts compare, and only equal texts compare both ways |
| `Editing.TextLeTransitive` | Ev3_progra3.py:246 | the text order is transitive |
| `Editing.InTextRange` | Ev3_progra3.py:246 | `fecha BETWEEN fi AND ff` on the stored text; only bounds in text order take in any date |
| `Editing.ListedFolios` | Ev3_progra3.py:245-248 | the folios of the rows the range query returns, no more than there are rows, and none for bounds out of text order; `ListedFoliosMembership` says which |
| `Editing.ListedFoliosMembership` | Ev3_progra3.py:245-248 | a folio is listed exactly when a row carrying it has stored text between the typed bounds |
| `Editing.TextRangeIsNotChronological` | Ev3_progra3.py:245-247 | the typed range 01-01-2025..02-01-2025 passes the format check and lists the date 01-15-2026 |
| `Editing.OneDigitBoundsExample` | Ev3_progra3.py:235-247 | the typed range 1-1-2025..1-31-2025 passes the format check but does not list 01-15-2025 |
| `Editing.Rename` | Ev3_progra3.py:273 | the update keeps the row count and every field except `evento`, which it sets only on rows with that folio |
| `Editing.RenameTouchesOneRow` | Ev3_progra3.py:273 | with unique folios, exactly the selected row changes, and only its event name |
| `Editing.RenameKeepsTables` | Ev3_progra3.py:273 | renaming to non-empty stripped text keeps the table invariant |
| `Coworking.ClientKeys` | Ev3_progra3.py:146 | the key list holds exactly the registered client keys |
| `Coworking.EntryKeys` | Ev3_progra3.py:161 | the key list holds exactly the keys of the listed rooms |
| `Coworking.OfferedFor` | Ev3_progra3.py:167-170 | the shifts of the first listed row for the chosen room, read back from its text (no contract of its own): `FirstWithKey` gives its meaning |
| `Coworking.FirstWithKey` | Ev3_progra3.py:167-170 | the loop stops at the first listed row for the chosen room, whose shifts are those `OfferedFor` reads |
| `Coworking.BookingKeepsTables` | Ev3_progra3.py:184-185 | inserting a valid row with a fresh folio and a shift not yet booked keeps the table invariant, including no double booking |
| `Coworking.AddClientKeepsStore` | Ev3_progra3.py:59 | the next AUTOINCREMENT key is unused, and inserting the client there keeps the store invariant |
| `Coworking.AddRoomKeepsStore` | Ev3_progra3.py:79 | the next AUTOINCREMENT key is unused, and inserting the room there keeps the store invariant |
| `Coworking.ChosenShiftIsFree` | Ev3_progra3.py:167-176 | a shift chosen from a listed row is a free shift of a registered room |
| `Coworking.AnsweredBookingKeepsStore` | Ev3_progra3.py:129-185 | the row the booking inserts had a free shift and keeps the store invariant |
| `Coworking.AskChoices` | Ev3_progra3.py:129-176 | the prompts end with `Choose`: the first registered client key typed, the date of the first admitting pass, the first typed key of a room listed on that date and the first typed shift that room's row offers. They stop with "no clients" exactly when the table is empty, with a cancel exactly when the client prompt takes 'C', with a crash exactly when the client lookup raises on the typed key, and with "no room" exactly when the listing for the date is empty. |
| `Coworking.PlanBooking` | Ev3_progra3.py:129-183 | the row planned is `ExpectedBooking`: the prompts' choice, the stripped event name and the first unused draw. A row is planned whenever all of these exist and the name is not empty. The outcome is a crash exactly when the client prompt reaches a key SQLite cannot bind before a registered one. "Empty event" is the outcome exactly when the prompts finish and the name strips to nothing. A planned row has a fresh folio, an existing client, an admitted date, a listed room and one of its offered shifts. |
| `Coworking.Store.constructor` | Ev3_progra3.py:11-32 | a new database has empty tables, satisfies the invariant, and its AUTOINCREMENT counters hand out key 1 first |
| `Coworking.Store.RegisterClient` | Ev3_progra3.py:51-62 | a client is added, under the next AUTOINCREMENT key and with the stripped names, exactly when both names are non-empty; only then does the key counter advance; nothing else changes |
| `Coworking.Store.RegisterRoom` | Ev3_progra3.py:64-82 | an empty name, a capacity that is not a number, and a capacity ≤ 0 are each rejected; a capacity above 2^63 - 1 makes the INSERT raise and leaves the tables unchanged; otherwise the room is added under the next AUTOINCREMENT key, which then advances; nothing else changes |
| `Coworking.Store.RegisterReservation` | Ev3_progra3.py:129-188 | the booked row is `ExpectedBooking` of the answers and draws, so a booking happens exactly when every prompt gets an accepted answer, the event name is not empty and a draw is free. The row is appended and nothing else changes; otherwise the tables are unchanged. Every other outcome, the crash at the client lookup included, is stated as for `PlanBooking`. The invariant (unique folios, no double booking, no Sunday) is kept. |
| `Coworking.PlanEdit` | Ev3_progra3.py:234-271 | each outcome holds exactly when its condition does: a bound `strptime` refuses, an empty listing for the typed bounds, a cancel at the folio prompt, an empty name. Otherwise the edit goes ahead, on the first listed folio typed. |
| `Coworking.Store.EditEvent` | Ev3_progra3.py:234-276 | the outcomes are those of `PlanEdit`. An update renames the first listed folio the user typed, and changes only `evento` of that row. Every other outcome leaves the tables unchanged. The invariant is kept. |

## Left out

- The SQLite connection, schema creation and exit on failure (lines 11-35): the store
  is in memory, and a new store is an empty database.
- `tabulate` rendering (lines 37-41) and `leer_clientes` ordering (line 46): display
  only. The client check looks only at which keys exist.
- `consultar_reservaciones` and the CSV/JSON/Excel export (lines 190-232): report
  output. The export file name is `reservaciones_` followed by the queried date
  without its dashes (line 221).
- The `menu` loop and `confirmar_salida` (lines 278-315): interactive plumbing.
  Answers are parameters.
- `random.randint`: its distribution is not modelled. Draws are a given script of
  values in [1000, 9999].
- `Folio.GenerateFolio`: does not model the program's unbounded retry. When every
  scripted draw is taken it returns `None`, where the program would draw again.
- `Prompts.SelectNumber`, `Prompts.SelectShift`, `DatePolicy.ReadDate`: a script
  that runs out ends `Unfinished`, where the program would prompt forever.
- `datetime.now()`: a parameter of each date pass.
- `Calendar.Strptime` reads ASCII digits only. Python's `\d` also matches other
  Unicode decimal digits, which `strptime` would accept.
- `DatePolicy.DateAttempt` holds what `strptime` made of the date prompt's answer
  (line 88), not the typed text. Only the resulting date is used afterwards: line
  105 writes it back with `strftime`.
- `str.capitalize()` on the shift answer (line 172): a shift answer is given
  already normalised.
- `int()` on the numeric prompts: an answer is given as a number, the cancel token
  or text `int()` refuses.
- Dates after 12-31-9999 (`OverflowError` in `timedelta`) are outside the model. No
  Sunday is the last date, so the Sunday substitution always exists.
- `ORDER BY fecha, folio` (line 247): the listed folios are in table order. Only
  which folios are listed matters to the edit, and `Editing.ListedFoliosMembership`
  states exactly that.
- AUTOINCREMENT keys beyond 2^63 - 1 (SQLite then fails the INSERT): the key
  counters are unbounded.
- Concurrent sessions and the read-then-insert race between availability and the
  INSERT: the program runs one session at a time.
