# Bill tracker backend: a Dafny model

This project models the core of a small bill-tracking web backend. Users
register and log in with an email address and a password and receive a
signed token. Each user keeps a list of bills. A bill has a title, a due
date, a status (`incomplete`, `pending` or `completed`), an optional amount,
optional notes and a recurring flag. The bill handlers list the caller's
bills, optionally narrowed to one calendar month and one status and sorted
by due date and then status. They also create, fetch, partially update and
delete a bill, and they never touch another user's bills.

The model is split into these modules:

- **Wrappers**: `Option` and `Result`.
- **Text**: the JavaScript string operations the handlers rely on:
  - `trim`, characterised as the slice with whitespace cut off each side
  - `toLowerCase` on ASCII letters
  - `split` on one character
  - `Number()` on a decimal string
  - binary string order, which the database uses to sort statuses
- **Calendar**: ECMAScript date arithmetic, meaning day numbers (`DayFromYear`, `MakeDay`), times of day (`MakeTime`) and calendar dates with their time value.
- **JsDates**: a JavaScript `Date` object as a class. It has the constructor and the `setMonth`, `setDate` and `setHours` setters, plus `endOfMonth` from `routes/bills.js`.
- **BillSchema**: `models/Bill.js`, meaning the status enumeration, the bill document, the trim setter, the defaults and the validation that `save()` runs.
- **Sorting**: inserting into a sequence sorted by a total preorder. This is what the database's sorted query returns.
- **BillRoutes**: `routes/bills.js`. The bill table is a class holding a map from id to bill. Each handler is a method on it, and each method is proved against pure definitions: the list filter, the sort order, the document a create builds and the result of a patch.
- **AuthRoutes**: `routes/auth.js`. The user table is a class holding a map keyed by normalized email. Register and login are methods on it.

Some things the handlers use are passed in by the caller:

- **Current time**: the create handler receives it as a parameter (`now`).
- **Password check**: `bcrypt.compare` is a function parameter (`matches`).
- **Token signing**: `jwt.sign` with the server secret is a function parameter (`sign`).
- **Request body**: each field is `Absent` (undefined), `Null` or `Given(value)`. A given value has already been converted the way the handler converts it: `new Date(...)`, `Number(...)` or `Boolean(...)`.

Local server time is taken to be UTC.

The register handler stores the password it receives in `passwordHash` (routes/auth.js:16). Any hashing would happen in `models/User.js`, which is not modelled, so the model stores the password as the handler passes it.

## Model

| member | source | states |
|---|---|---|
| Text.Trim | routes/bills.js:48 | trimming never lengthens a string and leaves no whitespace at either end |
| Text.TrimIsSlice | routes/bills.js:52 | the trimmed title is a slice of the given one, with only whitespace cut off either side |
| Text.TrimmedSliceIsTrim | routes/bills.js:52 | any slice with trimmed ends and only whitespace outside it is the trimmed string, so trim is determined by these properties |
| Text.TrimIdempotent | models/Bill.js:8 | the schema's trim setter, applied after the handler's own trim, changes nothing |
| Text.IsBlank | routes/bills.js:48 | `!s.trim()`: the string trims to nothing (also the address test of routes/auth.js:11 and 28) |
| Text.BlankIffAllWhitespace | routes/bills.js:48 | `!title?.trim()` holds for a string exactly when all its characters are whitespace |
| Text.ToLowerAscii | routes/auth.js:14 | lowercasing keeps the length and maps each character through the ASCII A-Z to a-z table |
| Text.NormalizeEmail | routes/auth.js:14-16 | the address is trimmed, then lowercased (its properties are stated by the three lemmas below) |
| Text.NormalizeEmailNormalizes | routes/auth.js:16 | the stored address is trimmed and has no upper-case letter, and such an address normalizes to itself |
| Text.NormalizeEmailIdempotent | routes/auth.js:14 | normalizing a normalized address changes nothing, so lookups by a stored address find it |
| Text.NormalizeEmailEmptyIffBlank | routes/auth.js:11 | the normalized address is empty exactly when the given address is blank |
| Text.LowerCommutesWithTrim | routes/auth.js:14 | trimming and lowercasing can be applied in either order |
| Text.Split | routes/bills.js:31 | split yields at least one piece and no piece contains the separator |
| Text.JoinSplit | routes/bills.js:31 | joining the pieces of a split with the separator gives back the string |
| Text.SplitAtSeparator | routes/bills.js:31 | a string split at its first separator yields the part before it followed by the pieces of the rest |
| Text.StringToNumber | routes/bills.js:31 | a string reads as a number exactly when, trimmed, it is digits (possibly none) or a sign and digits; every other string is NaN; digits read as their decimal value, and a sign and digits as that value, negated for a minus sign; a blank string is never NaN |
| Text.NumberOfDecimal | routes/bills.js:31 | `Number()` reads back every decimal rendering, with or without a minus sign |
| Text.SignedLiterals | routes/bills.js:31 | a plus sign and leading zeros are read as JavaScript reads them: "+3" is 3 and "-05" is -5 |
| Text.LexLess | routes/bills.js:38 | the binary string order the database sorts `status` by: code point by code point, a proper prefix first |
| Calendar.DayFromYear | routes/bills.js:33 | the ECMAScript day number of January 1 of a year, counting leap days by the 4/100/400 rule from 1970 |
| Calendar.MakeDay | routes/bills.js:33 | the ECMAScript MakeDay: the year moves by m / 12 (one year per twelve months, rounded down) and the month becomes m % 12 |
| Calendar.MakeTime | routes/bills.js:19 | the ECMAScript MakeTime: hours, minutes, seconds and milliseconds as milliseconds of the day |
| Calendar.DaysInMonth | routes/bills.js:18 | every month has 28 to 31 days; February has 29 exactly in leap years |
| Calendar.DayFromYearStep | routes/bills.js:33 | consecutive years are 365 or 366 days apart, as the leap-year rule says |
| Calendar.DayNumberNextMonth | routes/bills.js:17 | a date moved forward by the length of its month is the same date of the next month |
| Calendar.TimeValueOrder | routes/bills.js:35 | comparing Dates by time value, as the database does, is calendar order |
| Calendar.TimeValueInjective | routes/bills.js:35 | two calendar dates with the same time value are the same |
| Calendar.WithinMonthIff | routes/bills.js:35 | a date lies between the first and last instant of a month, both included, exactly when it is in that month |
| Calendar.LastInstant | routes/bills.js:19 | the last day of the month at 23:59:59.999 |
| JsDates.FullYear | routes/bills.js:33 | the Date constructor reads years 0..99 as 1900..1999 and keeps every other year |
| JsDates.Normalize | routes/bills.js:33 | turns a day number built from out-of-range months or dates into a real calendar date on the same day |
| JsDates.LocalDate.FromParts | routes/bills.js:33 | `new Date(y, m, d)` is midnight of day MakeDay(y, m, d), with years 0..99 read as 1900..1999 |
| JsDates.LocalDate.Copy | routes/bills.js:16 | the copy holds the same date and time |
| JsDates.LocalDate.SetMonth | routes/bills.js:17 | moves to day MakeDay(year, m, date) and keeps the time of day |
| JsDates.LocalDate.SetDate | routes/bills.js:18 | moves to day MakeDay(year, month, d) and keeps the time of day; 0 is the last day of the month before |
| JsDates.LocalDate.SetHours | routes/bills.js:19 | the new time value is the old day plus MakeTime(h, min, s, ms), carrying into other days |
| JsDates.SetNextMonthLandsAfterTarget | routes/bills.js:17 | after `setMonth(month + 1)` the date sits in the month after the target month: that is the next month, unless the date does not exist there |
| JsDates.DayZeroIsLastDay | routes/bills.js:18 | `setDate(0)` lands on the last day of the month before |
| JsDates.EndOfMonth | routes/bills.js:15-21 | gives the last instant of the date's month when the date exists in the next month, and otherwise the last instant of the next month |
| JsDates.EndOfMonthFromJanuary31 | routes/bills.js:15-21 | January 31, 2024 goes to February 29, 2024, 23:59:59.999, not to the end of January |
| JsDates.EndOfSameMonth | routes/bills.js:15-21 | the last instant of the date's own month, for every date |
| BillSchema.Status | models/Bill.js:3 | the three statuses of `statusEnum`, each with its stored name |
| BillSchema.StatusNames | models/Bill.js:3 | the three names of `statusEnum`, which the routes repeat inline (routes/bills.js:27, 54, 83) |
| BillSchema.Bill | models/Bill.js:5-16 | the bill document: owner, trimmed title, due date, status, optional amount and notes, recurring flag |
| BillSchema.ParseStatus | models/Bill.js:3 | a string names a status exactly when it is one of the three enum values, and names that one |
| BillSchema.StatusNameRoundTrip | models/Bill.js:10 | every status is stored as one of the enum values and parses back to itself |
| BillSchema.NewDocument | models/Bill.js:5-16 | a new document keeps the given fields, trims the title, and takes the defaults for a status or recurring flag not supplied |
| BillSchema.SchemaValid | models/Bill.js:8 | the validation `save()` runs: the required title is not empty, and it is stored trimmed |
| BillSchema.SchemaDefaults | models/Bill.js:10-13 | status defaults to incomplete and recurring to false |
| BillSchema.NewDocumentValid | models/Bill.js:8 | a document built from a title that is not blank passes the required check on the trimmed title |
| Sorting.Insert | routes/bills.js:38 | inserting keeps the sequence sorted and adds exactly the one element |
| Sorting.InsertMembers | routes/bills.js:38 | the elements after an insert are the old ones and the new one |
| Sorting.InsertKeepsKeysDistinct | routes/bills.js:38 | inserting an element with a new key keeps keys distinct |
| BillRoutes.HttpStatus | routes/bills.js:48-97 | the status codes the bill handlers answer with: 400 for a missing title, 404 for a bill not found, 500 for a failed update |
| BillRoutes.EpochIsTimeZero | routes/bills.js:82 | `new Date(null)` is the instant with time value 0 |
| BillRoutes.StatusFilter | routes/bills.js:27-29 | the status filter is set exactly for one of the three names, and it is that status |
| BillRoutes.InWindow | routes/bills.js:35 | `$gte: start, $lte: end`: the due date lies between the two instants, both included |
| BillRoutes.Matches | routes/bills.js:26-35 | the query matches the caller's bills, with the status and the due-date window when they are set |
| BillRoutes.MonthArgs | routes/bills.js:31-32 | the year and month numbers of `month.split("-").map(Number)`, or none when either is NaN |
| BillRoutes.MonthWindow | routes/bills.js:33-34 | the window starts at day MakeDay(full year, m - 1, 1) at midnight and ends at the last instant of that month |
| BillRoutes.MonthFilter | routes/bills.js:30-36 | an empty month or one with a NaN part adds no condition; otherwise the month window |
| BillRoutes.ListFilter | routes/bills.js:26-36 | the list query: the caller, the status filter and the month filter |
| BillRoutes.MonthWindowIsCalendarMonth | routes/bills.js:35 | a due date is in the window exactly when it falls in the window's calendar month |
| BillRoutes.MonthWindowOfOrdinaryMonth | routes/bills.js:33-34 | for months 1..12 the window runs from day 1, 00:00:00.000, to the last day, 23:59:59.999, of that month of that year |
| BillRoutes.FebruaryWindowEnds | routes/bills.js:34 | the window for February ends on the 29th in leap years and the 28th otherwise |
| BillRoutes.MonthWindowNormalisation | routes/bills.js:33 | "24-3" is March 1924, month 13 is January of the next year, month 0 is December of the year before |
| BillRoutes.MonthArgsOfParts | routes/bills.js:31-32 | a month with one dash reads year and month from either side; if either is NaN, no window |
| BillRoutes.MonthWithoutDash | routes/bills.js:31-32 | a month value without a dash has a NaN month and adds no condition |
| BillRoutes.MonthWithNonNumber | routes/bills.js:31-32 | a month part that is not a number, as in "abc-03", is NaN, and the month adds no condition |
| BillRoutes.MonthFilterOfDigits | routes/bills.js:30-36 | "YYYY-MM" in digits filters on that year and month number |
| BillRoutes.BuildWindow | routes/bills.js:33-35 | the window built from `new Date(y, m - 1, 1)` and the as-written `endOfMonth` is MonthWindow, because the start is day 1 |
| BillRoutes.BuildFilter | routes/bills.js:25-37 | the filter built from the query string is ListFilter: caller, status filter, month window |
| BillRoutes.StatusNameOrder | routes/bills.js:38 | status ranks order statuses as the database orders their names: completed, incomplete, pending |
| BillRoutes.SortsBefore | routes/bills.js:38 | a bill sorts before another when its due date is earlier, or the same and its status name sorts no later |
| BillRoutes.SortsBeforeComparesNames | routes/bills.js:38 | the sort compares due dates, then status names in binary order |
| BillRoutes.SortsBeforeIsTotalPreorder | routes/bills.js:38 | the sort order is total and transitive |
| BillRoutes.Find | routes/bills.js:38 | returns every matching bill once, sorted, and no other bill |
| BillRoutes.NotesValue | routes/bills.js:56 | notes are kept exactly when given and not blank, trimmed and not empty |
| BillRoutes.TitleMissing | routes/bills.js:48 | `!title?.trim()`: the title is absent, null or blank |
| BillRoutes.NewBill | routes/bills.js:47-58 | the created document: trimmed title, given or current due date, given valid status or incomplete, amount only when given, trimmed notes, recurring only when given true; it is well formed |
| BillRoutes.PatchTitleFails | routes/bills.js:81-87 | the patch fails for a null title (`null.trim()` throws) and for a blank one (the required check rejects it on save) |
| BillRoutes.Patched | routes/bills.js:80-86 | id and owner never change; each field absent from the request, and an invalid status, stays as it was; a given title becomes its trim; a given due date, valid status, amount or recurring flag is taken; null sets the due date to the epoch, clears the amount and turns recurring off; present notes are trimmed, and unset when blank |
| BillRoutes.PatchedWellFormed | routes/bills.js:81-87 | a patch with no blank title keeps the bill valid |
| BillRoutes.AssignFields | routes/bills.js:81-86 | the field-by-field assignments produce Patched |
| BillRoutes.EmptyPatchChangesNothing | routes/bills.js:80-86 | a patch without fields leaves the bill as it is |
| BillRoutes.PatchIdempotent | routes/bills.js:80-86 | applying the same patch twice is applying it once |
| BillRoutes.Owns | routes/bills.js:68 | the lookup `{ _id: id, userId: caller }` finds a bill exactly when it exists and belongs to the caller |
| BillRoutes.WellFormed | models/Bill.js:8 | what every stored bill satisfies: a trimmed non-empty title, and notes trimmed and non-empty when set |
| BillRoutes.BillStore.Valid | routes/bills.js:45-102 | the table invariant every handler keeps: each bill is filed under its own id, below the next fresh id, and well formed |
| BillRoutes.BillStore.Save | routes/bills.js:59 | the document is written exactly when it passes validation |
| BillRoutes.BillStore.List | routes/bills.js:23-43 | returns the caller's bills that match the status and month filters, each once, sorted by due date and then status |
| BillRoutes.BillStore.Create | routes/bills.js:45-64 | a missing or blank title is a 400 that changes nothing; otherwise exactly NewBill is added under a fresh id |
| BillRoutes.BillStore.Get | routes/bills.js:66-74 | the bill exactly when it exists and is the caller's; otherwise 404 |
| BillRoutes.BillStore.Patch | routes/bills.js:76-92 | 404 unless owned; a null or blank title is a 500 without writing; otherwise the bill becomes Patched and nothing else changes |
| BillRoutes.BillStore.Delete | routes/bills.js:94-102 | removes exactly the caller's bill; 404 and no change otherwise |
| BillRoutes.CreateThenGet | routes/bills.js:45-74 | a bill just created is found by its owner and not by another user |
| BillRoutes.DeleteThenGet | routes/bills.js:94-102 | after a delete the bill is not found |
| AuthRoutes.HttpStatus | routes/auth.js:12-33 | the status codes the auth handlers answer with: 400 for missing fields or a taken address, 401 for bad credentials |
| AuthRoutes.CredentialsMissing | routes/auth.js:11 | the address is absent or blank, or the password is absent or empty |
| AuthRoutes.LookupKeyIsStable | routes/auth.js:14-16 | the lookup key is a normalized address, empty only for a blank one |
| AuthRoutes.ValidTable | routes/auth.js:14-17 | every user is filed under its own normalized, non-empty address, so addresses are unique up to case and spacing, and no two users share an id |
| AuthRoutes.UserStore.Valid | routes/auth.js:8-40 | the user table invariant that registration keeps and login relies on: ValidTable |
| AuthRoutes.AddUserKeepsValid | routes/auth.js:16-17 | adding a user with a fresh id under a new normalized address keeps addresses and ids unique |
| AuthRoutes.UserStore.Register | routes/auth.js:8-23 | missing fields and a taken address are 400s that change nothing; otherwise one user is added under the normalized address and a token is signed for its id |
| AuthRoutes.UserStore.Login | routes/auth.js:25-40 | missing fields are a 400; the same 401 error exactly when the address is unknown or the password does not match; otherwise a token for the stored user |
| AuthRoutes.RegisterThenLogin | routes/auth.js:31-36 | after registering, logging in with the same address, in any case and spacing, succeeds exactly when the password matches the stored value, and yields the same user |
| AuthRoutes.RegisterTwice | routes/auth.js:14-15 | a second registration of the same address, in any case and spacing, is refused and stores nothing |

## Left out

- Persistence, the network and asynchrony are not modelled. The tables are in memory, and every handler runs to completion without interleaving. The race between two registrations of one address is not modelled.
- The authentication middleware, `index.js` and `models/User.js` are not part of this model. The handlers receive the caller's user id directly. What the user model does with `passwordHash` when it saves is not modelled.
- `bcrypt.compare` and `jwt.sign` are parameters. Hashing, salting, signatures, expiry checks and the secret are not modelled; only the 7-day lifetime appears, passed to `sign`.
- Error paths that raise a 500 from bad input types are not modelled:
  - a title, notes or `month` query value that is not a string (such as an array)
  - an `email` that is not a string, which makes `email?.trim()` throw (routes/auth.js:11, 28)
  - a malformed bill id (CastError)
  - an amount that converts to NaN
  - a due date that converts to an invalid Date
- Text.StringToNumber: models `Number()` only for decimal integers with an optional sign, as unbounded integers. Fractions, exponents, hexadecimal, binary (`0b`), octal (`0o`) and `Infinity` are read as NaN, so a month such as "2024-3.5" or "0b111-3" is not modelled as JavaScript reads it. The loss of precision past 2^53 is not modelled either.
- Inputs that are not strings are not modelled except where listed above:
  - `amount` is an integer, while `Number(amount)` can give a fraction such as 12.5 (routes/bills.js:55, 84);
  - the password is an optional string, while the handlers test it by truthiness, so a password of `0` or `false` would also count as missing;
  - a `status` query that is not a string is silently ignored by `includes`, like an unknown status name.
- Text.ToLowerAscii: lowercases the ASCII letters A-Z only, not the rest of Unicode.
- Date strings are not parsed. A request's due date arrives as the Date it converts to. The two handlers test the due date differently:
  - create (routes/bills.js:49) tests truthiness, so a due date that is present but falsy (`""`, `0`, `false`) arrives as `Absent` and the current time is used;
  - patch (routes/bills.js:82) tests `!== undefined`, so `0` or `false` arrives as `Given` of the epoch, `null` as `Null` (also the epoch), and `""` gives an invalid Date, which is not modelled.
- Time zones are not modelled: local time is taken as UTC. The ±8.64e15 ms clipping of time values is not modelled.
- `startOfMonth` (routes/bills.js:8-13) is never called and is not modelled.
- The timestamps that the schema option adds (`createdAt`, `updatedAt`) are not modelled.
- JSON serialization of responses is not modelled. The response bodies are the returned values.
- The error messages are not modelled: each error is its kind and its status code. For a 500 the handlers send the thrown error's own message, which comes from the runtime or the validator. The success codes (201 for a create or a registration, 200 otherwise) are not modelled either.
- `jwt.sign` also writes the issue time (`iat`) into the token. The model's `sign` is a pure function of the user id and the lifetime, so two tokens for one user come out equal in the model. No contract relies on this.
- BillRoutes.BillStore.List: bills that tie on due date and status may come in any order, as in the database. The model does not fix which order they come in.

## Findings

| source | as written | input that shows it | evidently intended | confidence | as-written member | corrected member |
|---|---|---|---|---|---|---|
| routes/bills.js:15-21 | `endOfMonth` calls `setMonth(month + 1)` on the original date, so a date the next month lacks spills one more month ahead | a Date of January 31, 2024 gives February 29, 2024, 23:59:59.999 | the last instant of the date's own month; the list handler only passes day 1, where both agree (BillRoutes.BuildWindow calls the as-written helper) | not executed | JsDates.EndOfMonthFromJanuary31 | JsDates.EndOfSameMonth |
