# Spa appointment bookings — a Dafny model of the booking rules

The application (a Flask app, `app.py`) lets clients book a service at a date
and an hourly time, refuses double bookings, past dates and weekends, lists
the bookings with a 12-hour time label, reports the free hours of a date, and
lets an administrator edit and delete bookings. This project models those
rules apart from the web framework and the database layer:

- `Digits` — reading and writing decimal digit strings (`int()`, `str()`,
  and the fixed-width `%Y`/`%m`/`%d` fields).
- `Calendar` — proleptic Gregorian dates as `datetime.date` has them: a
  strict `YYYY-MM-DD` reader (the calendar-date form of ISO 8601) and its
  inverse, date comparison, the day count (`toordinal`) and the weekday with
  Monday as 0.
- `Bookings` — the `bookings` table as a map from row id to a record of
  four strings, the date policy, the double-booking check on the raw
  `date`/`time` strings, and the decisions of create, update and delete
  (which failure is reported, in which order), with the lemmas that an
  accepted create or update keeps every (date, time) slot held by at most
  one row.
- `Slots` — the nine hourly slots `"09:00"`..`"17:00"`, the free slots of a
  date string, and the 12-hour display label of a stored time.
- `Store` — the table as a class whose methods are the request handlers:
  `Create` (both the form and the XHR path of `/book`, with the insert),
  `Update`, `Delete`, and `ListWithDisplay` (the listing loop); and the row
  id SQLite assigns on insert.

"Today" is a parameter of create and update. The admin session is a boolean
parameter of update and delete. A commit that raises is a boolean parameter
(`commitFails`) of create and delete; the source rolls back and writes
nothing, and so does the model.

## Behaviour of the code the model keeps

- Unlike create (app.py:65-68), update applies no weekend rule
  (app.py:209-217 has only the past-date check). `UpdateAllowsWeekend`
  exhibits it.
- Slot conflicts compare the submitted strings (app.py:74, app.py:126,
  app.py:220), and the free-slot query filters on the raw date string
  without validating it (app.py:165).
- The submitted `time` is never checked against the nine slots.
- Several failure paths crash instead of answering: the form path's
  invalid-date branch names an undefined `date_str` (app.py:71), the XHR path
  calls `strptime` unguarded (app.py:120), and the non-admin branches of
  update and delete call `abort`, which is never imported (app.py:173,
  app.py:192). In each, the request fails before anything is written; the
  model gives the corresponding failure (`InvalidDate`, `Forbidden`) and leaves
  the table unchanged.

## Model

| member | source | states |
|---|---|---|
| Digits.Value | app.py:146 | the number a digit string denotes is below 10 to the power of its length |
| Digits.Padded | app.py:60 | `n` written in exactly `width` digits reads back as `n`; the fixed-width fields of the `%Y-%m-%d` spelling (`FormatDate`) |
| Digits.PaddedValue | app.py:60 | a fixed-width digit field is determined by its value: re-padding the value gives the field back |
| Digits.Decimal | app.py:150 | `str(n)`: a non-empty digit string without leading zero that reads back as `n` |
| Calendar.ParseDate | app.py:60 | an accepted string is ten characters with hyphens at positions 4 and 7 and names a date that exists (years 1 to 9999) |
| Calendar.ParseFormat | app.py:60 | every valid date is read back from its `YYYY-MM-DD` spelling |
| Calendar.FormatParse | app.py:60 | an accepted string is the canonical spelling of the date it names |
| Calendar.ParseInjective | app.py:74 | two accepted date strings are equal exactly when they name the same date, so for well-formed strings comparing raw strings is comparing dates |
| Calendar.BeforeIffOrdinal | app.py:61 | `date <` (by year, month, day) holds exactly when the day count is smaller, and equal dates are those with equal day counts |
| Calendar.OrdinalNextDay | app.py:66 | consecutive calendar days, across month and year ends and leap days, have consecutive day counts |
| Calendar.WeekdayNextDay | app.py:66 | the weekday advances by one modulo 7 from each day to the next |
| Calendar.WeekdayExamples | app.py:66 | 0001-01-01 and 2025-06-02 are Mondays (0) and 2025-06-07 is a Saturday (5) |
| Calendar.ParseExamples | app.py:60 | "2025-06-02" and "2025-06-07" are read as those dates |
| Bookings.WeekendNeverBookable | app.py:65-68 | a date whose weekday is 5 or 6 is never bookable |
| Bookings.CreateDecision | app.py:53-77 | create (form path; the XHR path at app.py:116-128 is the same) is accepted exactly when all four fields are non-empty, the date parses, is not before today, is Monday to Friday and no row holds the same date and time strings; missing fields are reported first, then an unparsable date, then a past date, then a weekend, then a taken slot |
| Bookings.UpdateDecision | app.py:191-223 | update is accepted exactly when the caller is admin, the row exists, all fields are non-empty, the date parses and is not past, and no other row holds the slot; each failure (forbidden, not found, missing fields, invalid date, past date, slot taken) is reported exactly when every earlier check passed and its own fails, and a weekend is never reported |
| Bookings.DeleteDecision | app.py:172-184 | delete succeeds exactly for an admin, an existing row and a commit that does not fail; non-admin, missing row and a failed commit (the rolled-back deletion error) are each reported exactly in their case |
| Bookings.CreateKeepsSlotsUnique | app.py:73-80 | inserting an accepted create under an unused id keeps every slot held by at most one row |
| Bookings.CreateTwiceRefused | app.py:126-131 | once a create is inserted, a second create for the same date and time is refused as taken |
| Bookings.UpdateKeepsSlotsUnique | app.py:219-229 | overwriting a row with an accepted update keeps every slot held by at most one row |
| Bookings.UpdateOwnSlotAccepted | app.py:220 | with unique slots, updating a row while keeping its own date and time is not a conflict |
| Bookings.UpdateOntoOtherRefused | app.py:220-223 | updating a row onto the date and time of a different row is refused as taken |
| Bookings.DeleteKeepsSlotsUnique | app.py:176-180 | removing a row keeps the slots unique |
| Bookings.BookingScenario | app.py:116-131 | with today 2025-06-01: Monday 2025-06-02 09:00 is accepted in an empty table, the same request again is taken, Saturday 2025-06-07 is refused as a weekend |
| Bookings.UpdateAllowsWeekend | app.py:209-217 | an update onto Saturday 2025-06-07 is accepted while a create for it is refused as a weekend |
| Slots.AllHoursSpelledOut | app.py:164 | the offered slots are exactly "09:00", "10:00", ..., "17:00" in that order |
| Slots.Unbooked | app.py:166 | the filtered list holds exactly the hours not booked and is a subsequence (order kept) of the hours |
| Slots.AvailableTimes | app.py:161-167 | the free slots of a date string are exactly the nine slots that no row holds under that exact string, in slot order, at most nine; the date is not validated |
| Slots.AvailableAfterDelete | app.py:165-166 | with unique slots, deleting a row offers its slot again for its date |
| Slots.TakenAfterCreate | app.py:165-166 | a slot just stored is no longer offered for its date |
| Slots.HourField | app.py:146 | `split(":")[0]`: the prefix of the time before its first colon |
| Slots.ClockLabel | app.py:147-154 | for any hour, the label is the decimal number (12 for hours 0 and 12, the hour itself below 12, the hour minus 12 above 12), a space and "AM" below 12 or "PM" from 12 on |
| Slots.ClockLabelRoundTrip | app.py:147-154 | every hour 0..23 is recovered from its label ("12 AM" is 0, "12 PM" is 12, "h PM" is h + 12), so distinct hours get distinct labels |
| Slots.TimeDisplay | app.py:145-157 | a time whose prefix before the first colon is not a digit string is shown as itself |
| Slots.DigitPrefixDisplay | app.py:146-155 | a time whose prefix before the first colon is a digit string is shown with the label of that number, whatever follows the colon and for any value ("9:30" as "9 AM", "25:00" as "13 PM"); a digit string without a colon is read whole |
| Slots.SlotDisplay | app.py:146-154 | each offered slot "HH:00" is shown with the label of hour HH |
| Store.NextRowId | app.py:24 | the id given to an inserted row is one more than the largest id, or 1 in an empty table, and so is unused |
| Store.BookingStore.constructor | app.py:22-28 | a new table is empty and satisfies the invariant |
| Store.BookingStore.Create | app.py:34-88 | the outcome is the create decision (or a storage error when the commit fails); on success exactly one row is added, under a fresh id, with the four submitted fields; otherwise the table is unchanged; the invariant (unique slots, complete rows with parsable dates, positive ids) is kept |
| Store.BookingStore.Update | app.py:188-232 | the outcome is the update decision; on success only the target row's four fields change and its id stays; otherwise the table is unchanged; the invariant is kept |
| Store.BookingStore.Delete | app.py:169-186 | the outcome is the delete decision; on success exactly that row is removed; otherwise the table is unchanged; the invariant is kept |
| Store.BookingStore.ListWithDisplay | app.py:138-159 | every row is listed once, in ascending id order, with its fields and the display label of its time |

## Left out

- Flask routing, templates, flash messages, JSON responses and redirects:
  presentation only; the model returns an `Outcome` tag instead of a message.
- The GET branch of `/update/<id>` and the `/` index page: they only render.
- SQLAlchemy sessions and SQLite storage: the table is a map; a failing
  commit is a parameter. Update's commit (app.py:230) has no handler in the
  source and is modelled as succeeding.
- The admin login and logout and the startup check of environment
  variables (app.py:7-8, app.py:238-256): admin status is a parameter.
- `datetime.strptime` leniency (one-digit months or days, for instance) and
  `date.today()`: the reader is strict and today is a parameter. With the
  strict reader two accepted spellings of one date cannot differ, so the
  raw-string conflict quirk shows in the model only through strings that do
  not parse.
- Python's `int()` leniency in the display helper (surrounding whitespace, a
  sign, non-ASCII digits): the hour prefix must be a non-empty ASCII digit
  string.
- Concurrency: the check-then-insert race between two simultaneous creates
  is not modelled; the model is sequential.
- Store.BookingStore.ListWithDisplay: lists rows in ascending id order; the
  source's query has no ORDER BY and the order is whatever SQLite returns.
