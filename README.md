# daily_journal in Dafny

A model of the core of *daily_journal*, a small desktop journal that keeps
one text entry per calendar day. Three parts are modelled:

- **The entries repository.** This is an SQLite table `entries(date UNIQUE, entry)`.
  - `save` writes by upsert.
  - `get_by_dates` reads an inclusive `BETWEEN` range of ISO date strings.
  - `delete` is meant to remove a day's row.
  - Every statement runs inside `cursor_manager`. That wrapper commits on success. On an error it rolls back, then swallows an `IntegrityError` and re-raises anything else.
- **The in-memory model.**
  - A `Day` holds a date, its entry text and its `'%B %d, %Y'` display string.
  - A `Month` holds the Monday-first `calendar.monthcalendar` grid. The grid gets one blank week appended when it has fewer than six. Every day number in it is then replaced, in place, by a `Day`.
- **The controller's focus state.** This is the focused date and the number grid of its month. It also renders the date as `"<Month> <day>, <year>"` with unpadded numbers.

The modules follow the program.

| module | contents |
|---|---|
| `Text` | Decimal digits. Zero-padded (`%02d`, `%04d`) and unpadded (`%d`) renderings. The character-by-character string order that Python `str` and SQLite's BINARY collation use. |
| `Dates` | `datetime.date`: the proleptic Gregorian calendar for years 1–9999, `toordinal`, `weekday`, `isoformat` with its parser, and the English month names. |
| `Calendar` | `calendar.monthcalendar`, built as Python builds it from `itermonthdays`, and the padding both callers add. |
| `Model` | `Day` as a value, and `Month` as a class whose constructor fills the grid with the nested loop of `build_calendar_matrix`. |
| `Repository` | The database value, the statements and what SQLite does with them. It also has the commit/rollback wrapper, `init_entries_table`, and the `Entries` class. |
| `Control` | The `Controller` class. |

The table is a sequence of rows. It carries the invariant that no two rows share a date, which is what the `UNIQUE` column and the unique index enforce. `Lookup` is its map view.

Failures the SQLite engine may report on its own (locking, disk, constraint) are not modelled from first principles. They are a `fault` parameter of each repository operation. The failures the code itself causes are modelled as SQLite reports them:

- a missing table;
- the malformed delete.

Three behaviours of the code are easy to miss, and the model follows the code in each:

- **Short months get five rows, not six.** The code appends at most one blank week, so a 28-day February that begins on a Monday (February 2021, for example) has five. This is `Calendar.PaddedWeekCount`.
- **`delete` never deletes.** The statement does not prepare, so every call fails. See Findings.
- **No result order.** Range results are not guaranteed to come back in date order. The query has no `ORDER BY`, so the model promises only which rows are returned, not their order.

## Model

| member | source | states |
|---|---|---|
| `Text.ZeroPadded` | daily_journal/model.py:13 | `%d`/`%Y` digits: exactly `w` decimal digits denoting `n` |
| `Text.Decimal` | daily_journal/controller.py:57 | f-string `{n}`: digits denoting `n`, never a leading zero unless `n` is 0 |
| `Text.DecimalShort` | daily_journal/controller.py:57 | a number below 10^(w-1) prints in fewer than `w` digits |
| `Text.DecimalIsPadded` | daily_journal/controller.py:57 | a number with exactly `w` significant digits prints the same padded or not |
| `Text.LexLe` | daily_journal/repository.py:90 | the character-by-character order `BETWEEN` compares with; a prefix comes first |
| `Text.PaddedValueOf` | daily_journal/repository.py:70-72 | a digit string is the zero-padded rendering of its own value at its own width |
| `Text.DatePieces` | daily_journal/model.py:13 | joining a name, a space, day digits, ", " and year digits spells that date, piece by piece |
| `Text.LexLeAntisymmetric` | daily_journal/repository.py:90 | the string order used by `BETWEEN` is antisymmetric |
| `Text.LexLeTransitive` | daily_journal/repository.py:90 | the string order is transitive |
| `Text.LexLeTotal` | daily_journal/repository.py:90 | the string order is total |
| `Text.LexLeConcat` | daily_journal/repository.py:90 | equal-length prefixes decide the comparison unless they are equal, and then the rests decide |
| `Text.DigitsOrder` | daily_journal/repository.py:90 | equal-length digit strings compare as their numeric values do, and are equal iff the values are |
| `Text.ZeroPaddedOrder` | daily_journal/repository.py:90 | zero-padded numbers of one width sort (and are equal) exactly as the numbers do |
| `Dates.DaysInMonth` | daily_journal/model.py:31 | the days `datetime.date` accepts in a month: 28..31, and 28 exactly for a non-leap February |
| `Dates.Ordinal` | daily_journal/model.py:25 | `toordinal()` of a valid date lies in 1..3652059, the ordinal of `date.max` |
| `Dates.DaysThroughMonthBound` | daily_journal/model.py:25 | no month of years 1..9999 starts before day 0 or ends after `date.max` |
| `Dates.Weekday` | daily_journal/model.py:25 | `date.weekday()` lies in 0..6 (Monday is 0) |
| `Dates.DaysBeforeYearStep` | daily_journal/model.py:25 | each year adds 365 days, or 366 days in a Gregorian leap year |
| `Dates.LeapCount` | daily_journal/model.py:25 | the Gregorian rule counted as multiples of 4, less those of 100, plus those of 400 |
| `Dates.QuotientStep` | daily_journal/model.py:25 | a count of multiples of `k` grows by one exactly at a multiple |
| `Dates.DaysBeforeYearGrows` | daily_journal/model.py:25 | later years start after the whole of earlier ones |
| `Dates.DaysBeforeMonthStep` | daily_journal/model.py:25 | each month adds its length; the twelve months make up the year |
| `Dates.DaysBeforeMonthGrows` | daily_journal/model.py:25 | later months of a year start after the whole of earlier ones |
| `Dates.DateLe` | daily_journal/repository.py:86-92 | Python's date comparison, by year, then month, then day; when it fails, the other date is strictly earlier |
| `Dates.OrdinalIncreases` | daily_journal/repository.py:86-91 | a strictly later date has a strictly larger `toordinal` |
| `Dates.DateOrderIsChronological` | daily_journal/repository.py:86-91 | Python's (year, month, day) order on dates agrees with the day count |
| `Dates.WeekdayOfDay` | daily_journal/model.py:25 | consecutive days of a month fall on consecutive weekdays |
| `Dates.MonthName` | daily_journal/model.py:35-37 | `calendar.month_name[m]` is 3..9 characters and names month `m` back again |
| `Dates.MonthNamesRoundTrip` | daily_journal/model.py:35-37 | each of the twelve English names reads back as its own month |
| `Dates.MonthNameInjective` | daily_journal/model.py:35-37 | distinct months have distinct names |
| `Dates.IsoFormat` | daily_journal/repository.py:70-72 | `isoformat()` is ten characters and parses back to the same date |
| `Dates.ParseIso` | daily_journal/repository.py:70-72 | the reading of a stored key: a parsed date is valid, and the key is exactly its `%04d-%02d-%02d` rendering |
| `Dates.IsoPieces` | daily_journal/repository.py:70-72 | a string shaped `dddd-dd-dd` is the padded rendering of its three numbers |
| `Dates.IsoFormatInjective` | daily_journal/repository.py:70-72 | distinct dates have distinct ISO strings, so a date is a key |
| `Dates.IsoOrderIsDateOrder` | daily_journal/repository.py:86-92 | comparing ISO strings as strings compares the dates chronologically |
| `Calendar.FirstWeekday` | daily_journal/model.py:25 | the blanks before day 1 number 0..6 |
| `Calendar.Weeks` | daily_journal/model.py:25 | chunking by seven keeps every cell: week `i` is days `7i..7i+6` |
| `Calendar.MonthDays` | daily_journal/model.py:25 | `itermonthdays`: whole weeks, where position `p` holds day `p - w + 1` for the `n` positions starting at the first's weekday `w`, and 0 elsewhere |
| `Calendar.MonthCalendar` | daily_journal/model.py:25 | `monthcalendar` is `itermonthdays` cut into weeks: week `i`, column `j` holds position `7i + j`, and no cell is lost |
| `Calendar.MonthCalendarShape` | daily_journal/model.py:25 | `monthcalendar` has 4..6 weeks of 7 cells, 4 iff a 28-day month starts on Monday, and each cell is the day at that position or 0 |
| `Calendar.PaddedMonthCalendar` | daily_journal/model.py:25-27 | one blank week is appended exactly when there are fewer than six; every cell is still the day at that position or 0 |
| `Calendar.PaddedWeekCount` | daily_journal/model.py:26-27 | the padded grid has 5 or 6 weeks, and 5 exactly for a non-leap February starting on Monday |
| `Calendar.DayCell` | daily_journal/model.py:28-32 | day `k` sits in cell (i, j) iff 7i + j is the first's weekday plus k - 1 |
| `Calendar.DayHasCell` | daily_journal/model.py:28-32 | every day of the month has a cell in the grid |
| `Calendar.PaddedCellsAreDays` | daily_journal/model.py:28-32 | every cell is 0 or a day of the month, so `datetime.date` accepts each nonzero one |
| `Calendar.DaysInRowMajorOrder` | daily_journal/model.py:28-29 | read row by row, the days strictly increase |
| `Calendar.CellWeekday` | daily_journal/model.py:25 | weeks start on Monday: a day in column `j` falls on weekday `j` |
| `Calendar.FirstDayAndWeekStarts` | daily_journal/model.py:25 | day 1 follows exactly its weekday's number of blanks, and every later week of the natural grid starts with a day |
| `Calendar.February2021HasFiveWeeks` | daily_journal/model.py:26-27 | February 2021 ends up with five rows, not six |
| `Calendar.February2024HasSixWeeks` | daily_journal/model.py:26-27 | leap February 2024 has 29 days, starts on Thursday and has six rows |
| `Model.DateString` | daily_journal/model.py:12-13 | `'%B %d, %Y'`: the month name, a space, two digits whose value is the day, ", ", then four digits whose value is the year, and nothing else |
| `Model.DateStringInjective` | daily_journal/model.py:12-13 | distinct dates have distinct display strings |
| `Model.NewDay` | daily_journal/model.py:7-10 | a new Day keeps its date, has an empty entry and carries its date's display string |
| `Model.DayGridContents` | daily_journal/model.py:28-32 | a Month's cell is 0 or the Day of the date in that position, with an empty entry and a weekday equal to its column |
| `Model.FillWeek` | daily_journal/model.py:29-32 | the inner loop over one week: each nonzero number becomes the Day of that date, zeros stay |
| `Model.Month.BuildCalendarMatrix` | daily_journal/model.py:24-33 | the padded grid with each nonzero number replaced in place by the Day of that date, zeros kept |
| `Model.Month.constructor` | daily_journal/model.py:18-22 | keeps month and year, builds the Day grid and sets the month's name |
| `Repository.UniqueDatesPairwise` | daily_journal/repository.py:17-21 | the table invariant is "no two rows share a date" |
| `Repository.Lookup` | daily_journal/repository.py:17 | a date maps to the entry of a row with that date, or to nothing when no row has it |
| `Repository.LookupUnique` | daily_journal/repository.py:17 | with unique dates, every row is what the map view returns for its date |
| `Repository.Upsert` | daily_journal/repository.py:76-79 | the new row is present, every row is new or old, and rows of other dates are kept |
| `Repository.UpsertKeepsDatesUnique` | daily_journal/repository.py:76-79 | the upsert keeps dates unique and replaces the old row for its date |
| `Repository.UpsertLookup` | daily_journal/repository.py:76-79 | as a map: sets the date, leaves other dates alone, and grows by one row iff the date was new |
| `Repository.Between` | daily_journal/repository.py:87-91 | exactly the rows whose date lies between the bounds, both inclusive |
| `Repository.BetweenKeepsDatesUnique` | daily_journal/repository.py:87-91 | a range result never holds a date twice |
| `Repository.SingleKeyRange` | daily_journal/repository.py:87-91 | a one-date range returns at most one row |
| `Repository.Remove` | daily_journal/repository.py:101-103 | the corrected delete keeps exactly the rows of other dates |
| `Repository.RemoveLookup` | daily_journal/repository.py:101-103 | as a map, the corrected delete unsets the date, keeps every other date and is a no-op for an absent date |
| `Repository.RemoveKeepsDateKeys` | daily_journal/repository.py:101-103 | the corrected delete keeps every stored date a canonical ISO key |
| `Repository.RemoveKeepsDatesUnique` | daily_journal/repository.py:101-103 | the corrected delete keeps dates unique |
| `Repository.DeleteUndoesSave` | daily_journal/repository.py:74-108 | deleting a date that was new before a save restores the table exactly |
| `Repository.Execute` | daily_journal/repository.py:76-108 | the delete as written always fails with a syntax error; a statement runs only when the table exists and the engine does not fault; a select changes nothing; only a select fetches |
| `Repository.EnsureSchema` | daily_journal/repository.py:14-21 | afterwards the table exists; an existing table is left as it is |
| `Repository.EnsureSchemaIdempotent` | daily_journal/repository.py:14-21 | `IF NOT EXISTS`: initialising twice is initialising once |
| `Repository.Rollback` | daily_journal/repository.py:60-66 | an error is swallowed iff it is an `IntegrityError`; everything else is re-raised |
| `Repository.Settle` | daily_journal/repository.py:57-66 | a statement that ran is committed with its fetched rows; a failed one leaves the committed table and goes to `Rollback` |
| `Repository.InitEntriesTable` | daily_journal/repository.py:12-39 | a failing `CREATE TABLE` leaves the database as it was; once it has run the table exists, even when the index statement then fails; no fault commits, a fault is swallowed iff it is an `IntegrityError` |
| `Repository.Connection.constructor` | daily_journal/repository.py:44-45 | the connection holds the database it is opened on |
| `Repository.FormatDate` | daily_journal/repository.py:70-72 | one ISO string per date, in order; each parses back to its date, and equal strings mean equal dates |
| `Repository.Entries.constructor` | daily_journal/repository.py:44-51 | keeps the connection and leaves the table initialised, with its rows intact; existing rows must already be keyed by ISO dates |
| `Repository.Entries.CursorManager` | daily_journal/repository.py:53-68 | commits what the statement did, or keeps the old table and swallows or re-raises; dates stay unique |
| `Repository.Entries.Save` | daily_journal/repository.py:74-84 | the day's ISO date now maps to its entry and no other date changes; on failure the table is unchanged |
| `Repository.Entries.GetByDates` | daily_journal/repository.py:86-98 | the table is unchanged; a row is fetched iff its date lies in the inclusive ISO range, equivalently iff it is chronologically between the two dates; no date is fetched twice; no order is promised |
| `Repository.Entries.Delete` | daily_journal/repository.py:100-109 | as written: the table is unchanged and an `OperationalError` (syntax error near "=") is re-raised, for every day |
| `Repository.Entries.DeleteByDate` | daily_journal/repository.py:100-109 | with the column named: the day's date no longer maps to anything, no other date changes, and an absent date leaves the table unchanged |
| `Repository.DeleteAsWrittenKeepsRow` | daily_journal/repository.py:100-109 | after a save, the delete as written fails and the entry stays; the corrected statement removes it |
| `Repository.SaveKeepsDateKeys` | daily_journal/repository.py:74-84 | saving under an ISO key keeps every stored date a canonical ISO string of a real date |
| `Repository.RangeSelectsByDate` | daily_journal/repository.py:86-98 | the string range selects exactly the rows whose dates lie chronologically between the bounds |
| `Repository.ReversedRangeIsEmpty` | daily_journal/repository.py:86-98 | a start date after the end date returns no rows, not an error |
| `Repository.SaveThenReadBack` | daily_journal/repository.py:74-98 | after saving under a date, the range of that one date returns exactly the saved row |
| `Repository.SaveTwiceKeepsLast` | daily_journal/repository.py:76-79 | saving twice under one date is the same as saving the second text once |
| `Repository.SaveTwiceLeavesOneRow` | daily_journal/repository.py:74-98 | two saves for one date leave one row, holding the second text |
| `Control.Controller.constructor` | daily_journal/controller.py:12-17 | the focus starts on the given day and the grid is that month's |
| `Control.Controller.SetFocusDateAndMonth` | daily_journal/controller.py:45-48 | the focus becomes `date` and the grid becomes the padded grid of its month |
| `Control.Controller.GetFocusDate` | daily_journal/controller.py:50-52 | the focused date is a real date |
| `Control.Controller.GetFocusDateStr` | daily_journal/controller.py:54-58 | the month's name, a space, the day's digits with no leading zero, ", ", then the year's digits with no leading zero, and nothing else |
| `Control.Controller.BuildCalendarMatrix` | daily_journal/controller.py:60-65 | the padded `monthcalendar` grid of the focused month: 5 or 6 weeks of 7 cells, with nothing changed |
| `Control.FocusStringVersusDayString` | daily_journal/controller.py:54-58 | the controller's string equals the Day's `'%B %d, %Y'` string iff the day is 10 or later and the year is 1000 or later |
| `Control.GridAgreesWithMonth` | daily_journal/controller.py:60-65 | for the focused month, the Month's grid holds a Day where the number grid has that day, and 0 where it has 0 |

## Findings

| source | as written | input that shows it | evidently intended | confidence | as-written member | corrected member |
|---|---|---|---|---|---|---|
| daily_journal/repository.py:101-104 | `DELETE FROM entries WHERE = ?` names no column. SQLite rejects the statement, so `delete` rolls back and raises for every day. | A day whose entry was saved: the row stays and an `OperationalError` is raised. | `WHERE date = ?`: remove the day's row, and do nothing when there is none. | not executed; high, because SQLite's grammar needs an expression before `=` | `Repository.DeleteAsWrittenKeepsRow` | `Repository.Entries.DeleteByDate` |

## Left out

- SQLite itself is reduced to the effect of the statements.
  - Locking, disk and constraint failures come in as the `fault` parameter.
  - The surrogate `id INTEGER PRIMARY KEY AUTOINCREMENT` column is never read, and is not modelled.
  - The unique index is not a separate part of the state. The `UNIQUE` column already keeps one row per date, so the index changes nothing the model can observe. A failure of the index statement is modelled: the table it follows stays created.
  - Durability, concurrency and the cursor object are not modelled.
- The `entries` table name comes from `config.ENTRIES_TABLE`. That module is not part of this model, and the table is taken to be `entries`, the name the index statement uses.
- Logging (`logger.journal_logger`, every `logger.info`/`logger.exception` call) has no effect on state, and is left out.
- `Repository.Entries.constructor`: requires the rows of an existing table to be keyed by ISO dates, as every row the repository itself writes is. It models `init_entries_table` succeeding. Its failure paths, where the Python constructor raises or continues after a swallowed error, are modelled by `Repository.InitEntriesTable` but not by the constructor.
- `Repository.Entries.CursorManager`: requires an upserted date to be an ISO key. Its callers always pass `format_date` output, and a row stored under any other string is not modelled.
- `Repository.Entries.Save`: the Python method returns `None` both after a commit and after a swallowed `IntegrityError`. The model distinguishes the two as `Committed` and `Swallowed`.
- `Repository.Entries.GetByDates`: the result is a set of rows. The query has no `ORDER BY`, so the order SQLite returns them in is not modelled. When an `IntegrityError` is swallowed, Python returns `None`; the model returns `Swallowed`.
- The controller's tkinter parts are left out, since they are UI: the `root` window, `init_ui_pages`, `show_page` and `app_start`. So are the `DataController` wrapper, which only stores the repository, and the stub methods `init_new_entry`, `assign_db_text_to_entry` and `assign_ui_text_to_entry`, whose bodies are `pass`.
- `Control.Controller.constructor`: the default argument `datetime.date.today()` is evaluated once, when the module is imported. Today's date is therefore a parameter, as the clock is outside the model.
- `Model.Month.constructor`: `calendar.monthcalendar` raises `IllegalMonthError` for a month outside 1..12 (daily_journal/model.py:25), and `datetime.date` raises `ValueError` at daily_journal/model.py:31 for a year outside 1..9999. The model requires a valid month and year instead.
- `Model.DateString`: `%B` is taken in the English locale, and `%Y` as four zero-padded digits (years below 1000 padded with zeros). Platform-dependent `strftime` behaviour for small years is not modelled.
- `Model.Day` is a value. Callers setting `day.entry` later, outside the core, are represented by building a `Day` with that entry.
- `Control.Controller.GetFocusDate`: states only that the focused date is a real date. What it returns is fixed by `Control.Controller.SetFocusDateAndMonth`, which ensures `GetFocusDate() == date`.
