# OFX statement converter — Dafny model

A model of the conversion core of `app.py`, a small converter that turns a
bank statement exported by BBVA, Santander or Inversis into an OFX 2.1.1
document.

- `create_ofx` walks the statement table row by row. For each row it reads
  the posting date (a date cell, or a day-first text such as `05/03/2024`)
  and formats it `YYYYMMDD`. It reads the amount, turning regional text
  such as `1.250,50` into `1250.50` before `float()`. It takes `str()` of
  the memo. It builds a FITID from the date, the amount text without its
  points and the first three memo characters, with spaces removed. It
  chooses `CREDIT` or `DEBIT` from the amount's sign and appends one
  `<STMTTRN>` block (section 11.4.3 of the OFX 2.1.1 specification). A row
  whose processing raises is skipped. The blocks are wrapped in a fixed
  header and footer.
- In front of it, each bank profile decides which columns hold the date,
  the description and the amount. BBVA and Santander use fixed labels.
  Inversis uses keyword search over whitespace-stripped labels, falling back
  to positions 0, 1 and 2. Column labels are stripped, and rows with an
  empty date cell are dropped.

Modules (one file each):

| file | module | what it holds |
|---|---|---|
| `wrappers.dfy` | `Wrappers` | `Option`, `Result` |
| `strings.dfy` | `Strings` | `str.strip`, ASCII lower-casing, `in` on strings, `replace`, counting, decimal digit strings |
| `decimals.dfy` | `Decimals` | exact decimals for the float amounts: `float(text)` and `str(float)` |
| `dates.dfy` | `Dates` | dates a `Timestamp` can hold, `strftime('%Y%m%d')`, day-first text reading |
| `cells.dfy` | `Cells` | cells, rows, `row[label]`, `str()` of a cell |
| `ofx.dfy` | `Ofx` | one row, one block, the `create_ofx` loop and its properties |
| `profiles.dfy` | `Profiles` | label stripping, keyword column resolution, null-date filter, the glue `Convert` |

`Ofx.CreateOfx` is a method with the source's loop. Its invariant ties the
accumulated text to the blocks of the rows processed so far. Its
postcondition says the document is the header, then the blocks of
`Records` (the movements of the readable rows, in row order), then the
footer. The lemmas beside it prove, about `Records` and `Blocks`: the
document is only the header and footer exactly when no row can be read; an
unreadable row is skipped without stopping the loop; the movements follow
the readable rows in row order; the FITID is made of the date text, the
amount digits and the memo's first characters; the transaction type agrees
with the amount text; and `<DTPOSTED>` and the FITID show the same date.
The fixed header and footer (app.py:8-15) are the constants `Ofx.Header`
and `Ofx.Footer`, copied character for character. `Profiles.Convert`
follows the straight-line glue and states its result, including the
column-resolution and missing-column errors; labels are taken to be text
(see "## Left out").

## Model

| member | source | states |
|---|---|---|
| Ofx.CreateOfx | app.py:6-49 | the document is the fixed header, then one block per readable row in row order, then the fixed footer |
| Ofx.RecordsInRowOrder | app.py:18-47 | the k-th movement comes from the k-th readable row; readable rows are listed in increasing position; a row is listed exactly when it can be read |
| Ofx.RecordsFromReadableRows | app.py:18-47 | as many movements as readable rows, each one the reading of its row |
| Ofx.ReadableRowsIncreasing | app.py:18 | readable row positions are in range and strictly increasing, as `iterrows` visits rows in order |
| Ofx.ReadableRowsExactly | app.py:19-47 | a position is listed exactly when that row's processing succeeds |
| Ofx.RecordsAppend | app.py:17-47 | processing two stretches of rows gives the movements of the first, then those of the second |
| Ofx.RecordsStep | app.py:18-47 | one more row adds its movement, if it has one, at the end |
| Ofx.RecordsSkip | app.py:46-47 | a row that cannot be read adds no movement, and the rows after it are still processed |
| Ofx.SkippedRow | app.py:46-47 | a row that cannot be read adds no text, and the text of later rows follows directly |
| Ofx.RecordsEmpty | app.py:17-47 | there are no movements exactly when no row can be read |
| Ofx.EmptyBodyIffNoReadableRow | app.py:17-49 | nothing is written between header and footer exactly when no row can be read |
| Ofx.EnvelopeOnly | app.py:8-17 | with no rows, or none readable, the document is exactly the header followed by the footer |
| Ofx.BlocksAppend | app.py:38 | the text of two lists of movements is the text of the first, then of the second |
| Ofx.BlocksEmpty | app.py:38-45 | only an empty list of movements gives no text |
| Ofx.BlockNonEmpty | app.py:38-45 | every block is non-empty |
| Ofx.BlockAgreement | app.py:36-45 | a block shows the `YYYYMMDD` date in `<DTPOSTED>` and at the start of `<FITID>`, and the type its amount gives in `<TRNTYPE>` |
| Ofx.BlockShowsDate | app.py:41 | the block shows `<DTPOSTED>` with the row's date text |
| Ofx.BlockShowsFitidDate | app.py:36-43 | the block's `<FITID>` starts with the same date text |
| Ofx.BlockShowsType | app.py:40 | the block shows `<TRNTYPE>` with the type of its amount |
| Ofx.ProcessRow | app.py:19-47 | the `try` body: reads the date, then the amount, then the memo, and gives `None` where a step raises; its properties are stated by `ReadableRowsExactly`, `NullDateSkipped` and `NullAmountIsNanDebit` |
| Ofx.NullAmountIsNanDebit | app.py:21-45 | a row whose date cell reads (a date cell, or day-first text) and whose amount cell is an empty (NaN) cell is not skipped: it gives a movement whose block shows `<TRNTYPE>DEBIT</TRNTYPE>` and `<TRNAMT>nan</TRNAMT>` |
| Ofx.NullAmountRead | app.py:21-34 | a readable date cell, an empty (NaN) amount cell and a memo cell give the movement with that date, the NaN amount and the memo's `str()` |
| Ofx.NanBlock | app.py:40-42 | the block of a NaN movement shows the `DEBIT` type and the amount text `nan` |
| Ofx.BlockShowsAmount | app.py:42 | the block shows `<TRNAMT>` with the amount text |
| Ofx.DateOf | app.py:21-26 | a text date cell is read day-first, a date cell is taken as it is, and any other cell fails at `strftime`; `Dates.DayFirstRoundTrip` and `NullDateSkipped` state its behaviour |
| Ofx.AmountOf | app.py:29-32 | a text amount is cleaned and read with `float()`, a number is kept, an empty cell is NaN and a date cell fails; `RegionalAmount`, `RegionalThousands`, `ThousandsExample` and `NegativeExample` state the amount a regional text gives |
| Ofx.RegionalAmount | app.py:29-32 | a text of digits with a decimal comma, after an optional minus sign, reads as the decimal its digits spell, with as many decimals as digits after the comma |
| Ofx.RegionalThousands | app.py:29-32 | the same with one thousands point before the comma: the point is dropped and the digits on both sides of it join |
| Ofx.ThousandsExample | app.py:31-32 | `1.250,50` reads as 1250.50 |
| Ofx.NegativeExample | app.py:29-32 | `-45,00` reads as -45.00 |
| Ofx.AmountText | app.py:42 | `str(amount)`, the `<TRNAMT>` text and the base of the FITID's amount part; `TypeAgreesWithAmountText`, `FitidAmountPart` and `Decimals.RenderRoundTrip` state its behaviour |
| Ofx.CleanAmountText | app.py:32 | drops every point, then turns every comma into a point; `CleanAmountTextCounts` and `CleanAmountExample` state its behaviour |
| Ofx.TypeOf | app.py:40 | `CREDIT` for a strictly positive amount, else `DEBIT`; `TypeAgreesWithAmountText` ties it to the amount text |
| Ofx.Fitid | app.py:36 | the FITID text; `FitidParts`, `FitidStartsWithDate` and `FitidAmountPart` state what it is made of |
| Ofx.Block | app.py:38-45 | the opening line, the five element lines and the closing line of one `<STMTTRN>` block; `BlockAgreement`, `BlockNonEmpty` and `BlockShowsAmount` state what it shows |
| Ofx.Records | app.py:17-47 | the movements of the readable rows, in row order; `RecordsInRowOrder`, `RecordsEmpty` and `RecordsSkip` state its behaviour |
| Ofx.NullDateSkipped | app.py:21-26 | a row whose date cell is empty or missing is skipped |
| Ofx.CleanAmountTextCounts | app.py:30-32 | after cleaning no comma is left, there is one point per comma of the input, and the input's points are gone |
| Ofx.CleanAmountExample | app.py:31-32 | `1.250,50` cleans to `1250.50` |
| Ofx.TypeAgreesWithAmountText | app.py:40-42 | `CREDIT` exactly when the `<TRNAMT>` text shows a strictly positive number; zero, negatives and NaN give `DEBIT` |
| Ofx.Prefix3 | app.py:36 | `memo[:3]`: a prefix of the memo of length three, or the whole memo when shorter |
| Ofx.FitidParts | app.py:36 | the FITID has no space and is the date text, then the amount text without points and spaces, then the first three memo characters without spaces |
| Ofx.FitidStartsWithDate | app.py:36 | the FITID starts with the 8-character `<DTPOSTED>` text |
| Ofx.FitidAmountPart | app.py:36 | for a non-empty (not NaN) amount, the amount part of the FITID is digits, after a minus sign exactly when the amount is negative |
| Ofx.WholeAmountPart | app.py:36 | for an integer amount, the FITID amount part is digits, after a minus sign exactly when the integer is negative |
| Ofx.FloatAmountPart | app.py:36 | for a float amount, the FITID amount part is digits, after a minus sign exactly when the float is negative |
| Cells.Lookup | app.py:21 | `row[label]` fails for a label the table does not have |
| Cells.LookupFinds | app.py:21 | `row[label]` for a label the table has is the cell of the first column with that label |
| Cells.CellText | app.py:34 | `str()` of a cell; `CellTextShape` and `DateCellText` state what it gives for each kind of cell |
| Cells.CellTextShape | app.py:34 | a text cell gives its text, an empty cell `nan`, and a number a text that shows a positive number exactly when the number is positive |
| Cells.DateCellText | app.py:34 | a date cell gives 19 characters: its four-digit year, `-`, its two-digit month, `-`, its two-digit day, then ` 00:00:00` |
| Cells.LabelIndex | app.py:21 | the position of the first column with that label, or past the end when there is none |
| Dates.FormatYmd | app.py:26 | `strftime('%Y%m%d')` is 8 digits spelling the year, month and day in that order |
| Dates.FormatYmdInjective | app.py:26 | different dates give different date texts |
| Dates.ParseDayFirst | app.py:23 | `pd.to_datetime(text, dayfirst=True)` for `D/M/YYYY` texts; `DayFirstRoundTrip` and `DayFirstExample` state its behaviour |
| Dates.DayFirstRoundTrip | app.py:22-23 | reading the `DD/MM/YYYY` text of any date gives that date back |
| Dates.DayFirstExample | app.py:22-26 | `05/03/2024` reads as 5 March 2024 and is written `20240305` |
| Dates.FormatYmdExample | app.py:26 | 5 March 2024 is written `20240305` |
| Decimals.Parse | app.py:32 | `float()` of the cleaned amount text; `RenderRoundTrip` ties it to `Render` |
| Decimals.Render | app.py:36-42 | `str()` of a float amount; `RenderRoundTrip` and `RenderPositive` state its behaviour |
| Decimals.RenderRoundTrip | app.py:32 | `float(str(x))` reads back the number `str` wrote, up to trailing zeros |
| Decimals.Positive | app.py:40 | `amount > 0` on a float: not negative and not zero, so `-0.0` is not positive; `RenderPositive` ties it to the amount text |
| Decimals.RenderPositive | app.py:40-42 | `amount > 0` holds exactly when the rendered amount text shows a strictly positive number |
| Decimals.DigitsSpellMagnitude | app.py:42 | the digits before and after the point spell the amount's magnitude |
| Decimals.Norm | app.py:42 | dropping trailing fractional zeros keeps sign and value and leaves a normal form |
| Strings.Strip | app.py:76 | `str.strip()` leaves no surrounding whitespace and is a piece of the input framed by whitespace only |
| Strings.StripIdempotent | app.py:82 | stripping twice is stripping once |
| Strings.Lower | app.py:77-79 | `lower()` keeps the length, leaves no upper-case ASCII letter, and changes only upper-case letters, each into its lower-case form |
| Strings.LowerIdempotent | app.py:77-79 | lower-casing twice is lower-casing once |
| Strings.Contains | app.py:77-79 | Python's `key in text`; `ContainsAt` states its meaning |
| Strings.ContainsAt | app.py:77-79 | `key in text` holds exactly when the key occurs at some offset |
| Strings.RemoveAll | app.py:32 | `replace(c, '')` leaves no `c`, never lengthens, and keeps only characters of the input |
| Strings.ReplaceAll | app.py:32 | `replace(a, b)` for characters keeps the length and changes exactly the `a` characters |
| Strings.NatToString | app.py:42 | `str()` of a natural number is a non-empty digit string spelling it |
| Strings.IntToString | app.py:42 | `str()` of an int: a minus sign for a negative number, then the digits of its magnitude; `IntToStringPositive` and `Ofx.WholeAmountPart` state its behaviour |
| Strings.IntToStringPositive | app.py:40-42 | `i > 0` exactly when `str(i)` shows a strictly positive number |
| Profiles.StripLabels | app.py:76 | the same number of labels, in order, each with its surrounding whitespace removed |
| Profiles.StripLabelsIdempotent | app.py:82 | the second strip changes nothing for labels already stripped |
| Profiles.HasKeyword | app.py:77-79 | some keyword occurs in `label.lower()`; `KeywordIgnoresCase`, `FirstMatch` and `FechaValorTwice` state its behaviour |
| Profiles.KeywordIgnoresCase | app.py:77-79 | a label and its lower-case form hold the same keywords, so the search ignores case |
| Profiles.FirstMatch | app.py:77-79 | the first label whose lower-case form holds a keyword, or none when no label does |
| Profiles.PickChoice | app.py:77-79 | a role fails exactly when its fallback position is missing; otherwise it is the first matching label, or the fallback label when none matches |
| Profiles.Pick | app.py:77-79 | one role of the Inversis profile: `next(...)` with the eagerly evaluated fallback label; `PickChoice` states its behaviour |
| Profiles.ResolveHeuristic | app.py:77-79 | the Inversis profile's date, description and amount columns, in that order; `HeuristicResolves` states its behaviour |
| Profiles.HeuristicResolves | app.py:77-79 | the Inversis profile fails exactly with fewer than three columns; otherwise every chosen column exists |
| Profiles.FechaValorTwice | app.py:77-79 | with labels `Fecha Valor`, `Concepto`, `Importe` the column `Fecha Valor` is chosen for both the date and the amount |
| Profiles.BankColumns | app.py:62-79 | the fixed BBVA and Santander labels, or the Inversis heuristic over the stripped labels; `Convert` relies on it |
| Profiles.DropNullDates | app.py:84 | no kept row has an empty date cell, and no rows are added |
| Profiles.DropNullDatesKeeps | app.py:84 | a row is kept exactly when its date cell is not empty |
| Profiles.DropNullDatesSameRecords | app.py:84 | dropping the rows without a date does not change the converter's movements |
| Profiles.Convert | app.py:62-91 | a resolution failure or a missing column is an error (for text labels); otherwise the result is `create_ofx` of the stripped table |

## Left out

- The Streamlit page, bank selector, uploader, preview and download button (app.py:52-58, 86-101) are presentation and I/O. `Convert` takes the bank and the parsed table as parameters and returns the text or the error; `st.error` becomes the `Err` result.
- `pd.read_excel`, `skiprows` and `dropna(axis=1, how='all')` (app.py:64-65, 69, 74) are spreadsheet decoding. The model starts from the parsed labels and rows, so the empty-column drop is not modelled.
- `Decimals.Parse`: `float()` is modelled for surrounding whitespace, an optional sign, and ASCII digits with at most one point and at least one digit. Exponents, `inf`, `nan`, `_` separators and non-ASCII digits read as failures.
- `Decimals.Render`: `str(float)` is modelled as the exact decimal in positional form with at least one fractional digit. Binary rounding and the exponent forms Python uses below 1e-4 and from 1e16 are not modelled, so the model's amount text is exact where Python's may differ.
- `Dates.ParseDayFirst`: `pd.to_datetime(text, dayfirst=True)` is modelled for `D/M/YYYY` with one or two digit day and month, a four-digit year, and the same separator (`/`, `-` or `.`) twice, after stripping. Other layouts the library accepts (ISO dates, month names, times) read as failures here, and the library's fallback to month-first for impossible day-first dates is not modelled.
- `Dates.Timestamp`: only dates from 1677-09-22 to 2262-04-11 exist, as for nanosecond timestamps. Times of day are not modelled (a date cell is a midnight).
- `Strings.Lower`: ASCII only. The keywords are ASCII, and the non-ASCII characters that Python lower-cases do not change whether an ASCII keyword occurs.
- Python exceptions are not modelled as such. Each row's `try` body is a function returning `None` for any failure, and the glue's failures are `Result` errors.
- Memo text is not XML-escaped (app.py:44), so the model does not claim the document is well-formed XML.
- `Cells.Lookup`: a label used for several columns is read from its first column. pandas returns a `Series` of several values there. In the date role the row then fails (a `Series` has no `strftime`), and in the amount role too (`amount > 0` on a `Series` raises `ValueError`). In the memo role the row is kept, with the printed `Series` as its memo, which the model does not reproduce.
- `Cells.CellText`: an empty cell is NaN and prints as `nan`. `None` and `NaT` in object columns are not distinguished from NaN.
- `Profiles.Convert`: labels are modelled as text. A header cell that pandas reads as a number or a date becomes NaN under `.str.strip()`, or makes it raise `AttributeError` when no label is text, and in the Inversis profile `c.lower()` then raises `AttributeError`; these error exits are not modelled.
- `Ofx.AmountOf`: every empty amount cell is read as NaN. A `None` or `NaT` amount cell in an object column makes `amount > 0` raise `TypeError`, so the code skips that row, where the model writes a `nan` DEBIT.

Behaviour of the code worth knowing:

- A row whose amount cell is an empty spreadsheet cell (NaN) is not skipped. NaN passes `amount > 0` as false, so it becomes a `DEBIT` with amount text `nan` (`Ofx.NullAmountIsNanDebit`).
- The FITID keeps a negative amount's minus sign and removes only the space character, not other whitespace (`Ofx.FitidAmountPart`, `Ofx.FitidParts`).
- The Inversis profile fails with fewer than three columns even when keywords match, because the fallback label `df.columns[k]` is evaluated first (`Profiles.HeuristicResolves`).
