# Traffic violation records: a Dafny model

The application keeps two tables behind a small Flask web front end. The
`violation` table holds a person's name, birth date and address, a licence
plate, the offence and the date-time of the offence. The `user` table holds
usernames and password hashes. Logged-in users can do four things:
- list violations, optionally filtered by a search term;
- add, edit and delete violations;
- add, edit and delete users (registration adds a user the same way);
- export every violation as spreadsheet rows.

This project models the logic behind those handlers in `app.py`:

- `digits.dfy` (`Digits`): decimal digit runs, read as numbers and written
  zero-padded to a fixed width.
- `datetimes.dfy` (`DateTimes`): the date parsers (`strptime` with
  `'%Y-%m-%d'` and `'%Y-%m-%dT%H:%M'`) and printers (`strftime` with
  `'%Y-%m-%d'` and `'%Y-%m-%d %H:%M:%S'`).
  - The parsers follow CPython's field patterns. A month may be `1` or `01`. A
    day may also be a blank and a digit (`' 5'`). The `T` may be lower case.
    The whole text must be consumed.
  - The `date`/`datetime` constructor's calendar check comes next: year
    1..9999, month 1..12, and a day within its month under the Gregorian leap
    rule.
  - Round trips are proved in both directions. Formatting a date and parsing
    it back gives the same date. On accepted text, formatting gives the text
    back exactly when it is canonical (zero-padded).
- `records.dfy` (`Records`): the rows of the two tables, the submitted
  violation form and the errors that leave a request's table unchanged.
- `search.dfy` (`Search`): the index page's filter. A row is listed when the
  term is absent or empty, or when the name or the licence plate contains the
  term. The table has no ORDER BY, so its rows may come in any order; the
  filter is proved to list each selected row exactly once, whatever that
  order.
- `export.dfy` (`Export`): the export rows. A fixed six-label header comes
  first, then one row per violation, built from a per-row dictionary keyed by
  the labels. The birth date is written as `YYYY-MM-DD` and the violation time
  as `YYYY-MM-DD HH:MM:SS`.
- `tables.dfy` (`Tables`): both tables as classes. Each holds an id-to-row map
  that the handlers change. Each method states the whole new map in terms of
  the old one and keeps the table invariant, including unique usernames.
  - A date that fails to parse raises before the commit. A username that
    another user holds makes the commit itself fail on the unique
    constraint. Either way nothing is stored: the model returns the error
    with the table unchanged.

Each result below follows `app.py` as written:
- Deleting a missing id is a silent no-op; no "not found" is reported.
- Editing a missing id dereferences `None`. It is therefore a precondition
  of the two `Edit` methods.
- A date that does not parse raises `ValueError` out of the handler. It is
  not turned into a validation message, and nothing is stored.
- `edit_user` is bound by the unique constraint on `username` just as
  `add_user` is.

## Model

| member | source | states |
|---|---|---|
| `Digits.Pad` | app.py:206 | The zero-padded numeral has exactly the given width, holds only digits, and reads back as the number it was made from. |
| `Digits.PadValue` | app.py:89 | Padding the number a digit run denotes to the run's own length gives the run back. |
| `Digits.Value` | app.py:89 | A run of k digits denotes a number below 10^k. |
| `DateTimes.DaysInMonth` | app.py:89 | Every month has 28 to 31 days. February has 29 exactly in Gregorian leap years. |
| `DateTimes.LeapDayParses` | app.py:89 | For years 0001 to 9999, `YYYY-02-29` parses, to 29 February, exactly when YYYY is a leap year. Otherwise `strptime` raises. |
| `DateTimes.ParseFormatDate` | app.py:206 | Parsing a birth date written with `'%Y-%m-%d'` gives that date back. |
| `DateTimes.FormatParseDate` | app.py:89 | For text `'%Y-%m-%d'` accepts, formatting the parsed date reproduces the text if and only if the text is canonical (zero-padded). |
| `DateTimes.ParseCanonicalDateTime` | app.py:93 | In canonical `YYYY-MM-DDTHH:MM` text the parser finds the five fields at their fixed places. |
| `DateTimes.ParseDateTimeInput` | app.py:93 | Parsing the canonical `YYYY-MM-DDTHH:MM` text of a date-time with zero seconds gives the date-time back. |
| `DateTimes.ParsedDateTimeExportsZeroSeconds` | app.py:210 | A violation time read with `'%Y-%m-%dT%H:%M'` has zero seconds. Its export text is 19 characters and ends in `:00`. |
| `DateTimes.FormatParseDateTime` | app.py:210 | Canonical input text exports as the same date and time, with a blank in place of `T` and `:00` appended. |
| `DateTimes.TwoDigitFields` | app.py:93 | The two-digit rendering of an in-range month, day, hour or minute is accepted by that field's pattern. The day reads back as itself. |
| `DateTimes.ParseDate` | app.py:89 | `strptime(..., '%Y-%m-%d').date()`, used again at app.py:116. Accepted text is 8 to 10 characters long and starts with the four-digit year, which the date carries, and a `-`. Anything else is `None`, standing for `ValueError`. The round trips are `ParseFormatDate` and `FormatParseDate`. |
| `DateTimes.ParseDateTime` | app.py:93 | `strptime(..., '%Y-%m-%dT%H:%M')`, used again at app.py:120. Accepted text is 12 to 16 characters long and starts with the four-digit year and a `-`. The result always has zero seconds. The round trips are `ParseDateTimeInput` and `FormatParseDateTime`. |
| `DateTimes.FormatDate` | app.py:206 | `strftime('%Y-%m-%d')` always gives 10 characters. Their shape is stated by `FormatDateIsCanonical`. |
| `DateTimes.FormatDateIsCanonical` | app.py:206 | The formatted date is zero-padded `YYYY-MM-DD` text. Its three digit runs read back as the year, the month and the day. |
| `DateTimes.FormatDateTime` | app.py:210 | `strftime('%Y-%m-%d %H:%M:%S')` always gives 19 characters. Their shape is stated by `FormatDateTimeFields`. |
| `DateTimes.FormatDateTimeFields` | app.py:210 | The formatted date-time is the formatted date, a blank, then two-digit runs separated by `:`. Those runs read back as the hour, the minute and the second. |
| `DateTimes.FormatFields` | app.py:210 | A date-time with zero seconds whose fields are the values of given digit runs (four for the year, two for the rest) is formatted as those runs with `-`, a blank, `:` and `:00` between and after them. |
| `DateTimes.FormatCanonicalFields` | app.py:210 | The date-time built by the calendar check from the five fields of canonical input text is formatted as that text, with a blank in place of `T` and `:00` appended. |
| `DateTimes.DayValue` | app.py:89 | The number a day field denotes is between 1 and 31; the leading blank of `' 5'` is skipped. |
| `DateTimes.ScanYearMonth` | app.py:89 | The shared `'%Y-%m-'` prefix, when present, ends with a `-` at index 6 or 7. The year read is the value of the first four digits. |
| `Records.FormError` | app.py:88-93 | A form raises nothing exactly when both dates parse. It raises the birth-date error exactly when the birth date fails, which is checked first. A form never raises the unique-name error. |
| `Records.FromForm` | app.py:95-101 | The new row takes the given id and the four text fields as submitted, with both dates as parsed. The violation time has zero seconds. The stored birth date is written back as the submitted text exactly when that text was canonical. |
| `Records.FormRoundTrip` | app.py:95-101 | A row whose violation time has no seconds is rebuilt exactly from its canonical form. |
| `Records.UniqueHolders` | app.py:20 | The `unique=True` username column holds for a user table exactly when no username has more than one holder. |
| `Search.Matches` | app.py:77-78 | The filter `name.contains(search)` or `license_plate.contains(search)`. The empty term matches every row. A matching term is no longer than the name or the plate. |
| `Search.Where` | app.py:76-79 | The result is no longer than the input. It holds exactly the input rows whose name or licence plate contains the term. |
| `Search.Index` | app.py:74-81 | With no term or an empty term, every row is listed unchanged. Otherwise exactly the matching rows are listed. |
| `Search.WhereCount` | app.py:76-79 | Each matching row occurs in the filtered list as often as in the input. A non-matching row does not occur. |
| `Search.Selection` | app.py:76-79 | The reference selection keeps exactly the table's shown rows under their own ids. |
| `Search.SelectionRows` | app.py:76-79 | A row is in the selection exactly when it is in the table and the page shows it. |
| `Search.IndexListsSelection` | app.py:74-81 | Whatever order the table returns its rows in, the page lists every selected row exactly once and nothing else. Every row carries its own id, so rows under distinct ids are never merged. |
| `Export.RowData` | app.py:185-192 | Every header label is a key of the per-violation dictionary and holds a value of the kind read back at app.py:205-210. |
| `Export.RowDataKeys` | app.py:185-192 | The dictionary has one entry per header label and no other key. |
| `Export.SheetRow` | app.py:204-211 | The appended row has one cell per header label. The birth-date cell is 10 characters and the violation-time cell 19. What they hold is stated by `SheetRowOfRowData`. |
| `Export.SheetRowOfRowData` | app.py:185-192 | The per-row dictionary keeps each field under its own label, since the six labels are distinct. Reading it back by label gives the promised row. |
| `Export.SheetRowsOfRowData` | app.py:199-211 | Every dictionary built from a list of violations is read back as that violation's promised row. |
| `Export.ExportSheet` | app.py:199-211 | The sheet has one row more than there are violations. Row 0 is the fixed header. Row i+1 is violation i's six fields in header order, with both dates as text. |
| `Export.ExportOfSubmittedForm` | app.py:203-211 | A violation added through the form exports its text fields as submitted. Its birth date is exported as text that parses to the same date as the submitted text, and canonical birth-date text is exported exactly as typed. |
| `Export.ExportedViolationTime` | app.py:210 | A violation added through the form exports its time as 19 characters ending in `:00`. Canonical input text is exported as typed, with the `T` becoming a blank and `:00` appended. |
| `Tables.ViolationTable.NewId` | app.py:103-104 | The database hands out an id that no row has, and nothing else changes. |
| `Tables.ViolationTable.Add` | app.py:86-106 | If either date fails to parse, the error of the first failing one is returned and the table is unchanged. Otherwise exactly one row is inserted, under a fresh id, with the six submitted values. |
| `Tables.ViolationTable.Edit` | app.py:112-123 | For an existing id, all six fields are overwritten and the id is kept. Every other row is unchanged. A date that fails to parse leaves the table unchanged. |
| `Tables.ViolationTable.Delete` | app.py:129-134 | The row with that id is removed if present. A missing id leaves the table unchanged without error. |
| `Tables.UserTable.NewId` | app.py:149-150 | The database hands out an id that no user has, and nothing else changes. |
| `Tables.UserTable.Add` | app.py:144-152 | A taken username makes the commit fail and the table is unchanged. Otherwise exactly one user with that name and hash is inserted under a fresh id, and that user is the name's only holder. `register` (app.py:42-51) runs the same steps. Usernames stay unique. |
| `Tables.UserTable.Edit` | app.py:157-164 | The username is set unconditionally. The hash is replaced only when the submitted password is non-empty; otherwise the old hash is kept. Other users are unchanged, and the edited user becomes the name's only holder. A name held by another user makes the commit fail, with the table unchanged. |
| `Tables.UserTable.Delete` | app.py:169-174 | The user with that id is removed if present. A missing id leaves the table unchanged without error. |

## Left out

- Web plumbing is I/O and presentation, and is not modelled: routes, templates, redirects, the GET branches, `test_route`, `app.run` and configuration. Form fields are taken as given strings; a missing form key raises `KeyError` before the commit, so nothing is stored.
- Login and sessions are library plumbing and are not modelled: `login`, `logout`, `load_user`, `login_required` and the `LoginManager` setup.
- `manage_users` only reads `User.query.all()` and renders it, so there is nothing to state beyond the table itself.
- Password hashing: `generate_password_hash` is salted and non-deterministic, and `check_password_hash` belongs to login. The methods take the hash as a value. So the model cannot show that equal passwords get different hashes.
- `Search.Index`, `Search.Matches` and `Search.Where`: SQL `LIKE` is not modelled. The model matches a plain, case-sensitive substring. SQLite's `LIKE` behind `.contains` ignores ASCII case and treats `%` and `_` in the term as wildcards.
- `DateTimes.ParseDate`: only ASCII digits are modelled. Python's `\d` and `int` also accept other Unicode decimal digits.
- `DateTimes.ParseDateTime`: only ASCII digits are modelled, as for `ParseDate`.
- `DateTimes.FormatDate`: years below 1000 are always padded to four digits. Some C libraries write them without padding, so those years are platform-dependent.
- `Tables.ViolationTable.NewId`: ids are promised only to be fresh. The model counts up. SQLite may reuse the largest id after a delete, and the actual values are not modelled.
- `Tables.UserTable.NewId`: ids are promised only to be fresh, as for violations.
- Row order: the query has no ORDER BY, so listings are any order of the table's rows, and results are stated as multisets.
- Column lengths (`String(100)` and the like) are not enforced by SQLite and are not modelled.
- Field-by-field assignment: `edit_violation` assigns fields one by one and may raise halfway. Without a commit the session is rolled back, so the model writes the row as one replacement.
- Concurrency is left to the database and not modelled: transaction isolation, and writers running during an export.
- Export I/O is file I/O over a foreign library and is not modelled: the openpyxl workbook, the fixed `~/Downloads/violations.xlsx` path, `save` and `send_file`. Only the list of rows is modelled.
- Microseconds of `datetime` values are always zero here and are not kept.
- `models.py` repeats the schema and is not imported by `app.py`. It is not part of this model.
