# CPF improdutivos — a Dafny model of the filtering pipeline

The application takes two uploaded tables:

- a roster of service providers (the "CPF" base);
- a monthly table of service orders.

It runs them through five stages and saves the providers it calls
"improdutivos". Every stage saves its table as CSV, and the next stage reads
it back. The roster rows the program keeps are those described by
`Pipeline.Flagged`:

- the last login parses as `%d/%m/%Y %H:%M:%S` and is older than 180 days;
- the name, as read back from the first checkpoint, is not a whitespace-only
  text (a provider found in the monthly table is kept as well; see stage 4
  below);
- the order receipt is not the text "inativo".

This project models that core as pure Dafny functions and proves what each
stage and the whole run compute.

## Modules

- `Wrappers`: `Option` and `Result`.
- `Strings`: the Python string behaviour the pipeline relies on.
  - `str.isspace` and `str.strip()`.
  - ASCII `str.lower()`, characterised as keeping each character up to letter case and leaving no ASCII capital.
  - The substring test.
  - Decimal rendering of integers.
- `Calendar`: the `%d/%m/%Y %H:%M:%S` parser that `pd.to_datetime` applies.
  - It follows the lenient rules of CPython's `_strptime`: fields of one or two digits, taken greedily; a space-padded day; any run of whitespace between date and time; seconds up to 61; and a real calendar day.
  - `Spell` writes a stamp in any of the spellings those rules admit (each field's width, the day's padding, the whitespace run). The texts the parser accepts are exactly these spellings of valid stamps, and each parses back to the stamp it spells.
  - It converts a stamp to whole seconds since 1970.
  - It also renders timestamps the way `to_csv` writes them.
- `Table`: cells, rows, datasets and the pipeline's errors.
  - A cell is missing (NaN/NaT), a text, or a timestamp.
- `Selection`: boolean-mask row selection `df[mask]`.
  - It is characterised as an exact, order-preserving selection.
- `Checkpoint`: the effect of a `to_csv`/`read_csv` round trip on cell values.
  - A missing cell is written as an empty field.
  - A timestamp is written as text, date-only when the whole column sits at midnight.
  - On reading, every pandas default NA marker becomes missing. This includes the empty field.
  - `ReadField` and `WriteCell` are the two primitives; `Reload` applies them to a whole table.
- `Reader`: `ler_arquivo`, which reads a spreadsheet by extension or searches the nine delimiter/encoding attempts.
- `Columns`: resolving the status and category columns by substring.
- `Stages`: the five stages, each a function from the table it reads to the table it saves.
- `Pipeline`: `rodar_pipeline`, with the checkpoints between the stages, and the end-to-end theorems.
- `Scenarios`: worked examples on small concrete tables.

The clock reading `datetime.now()` is the parameter `nowMicros` (microseconds
since 1970). A run is modelled in isolation, as if it owned the artifact
files it writes; under that assumption `Run` is a function of its inputs, so
two runs on the same uploads and the same clock reading produce the same
final table.

## Behaviour worth noting

- **Error message.** `ler_arquivo` raises a fixed message that does not name the file (app.py:37), so `Unreadable` carries no path.
- **Errors are not wrapped.** A failed run ends with whatever the failing step raised; nothing records which stage it was in.
- **Stage 3 keeps case.** Stage 3 trims names but does not fold case (app.py:82-86). `"joão silva"` does not match the installer `"João Silva"` (`Scenarios.NameMatchingTrimsButKeepsCase`).
- **Stage 4 empty marker.** Stage 3 marks a provider found in the monthly table with an empty string (app.py:86). That empty field comes back from the CSV checkpoint as NaN (app.py:93), and `astype(str)` turns NaN into `"nan"`, which is not blank (app.py:98).
  - So the provider-without-service test only drops rows whose name is a non-empty, whitespace-only text; a provider who did have service in the month is kept.
  - `Pipeline.ReloadedIdleTest` and `Scenarios.ServedProviderPassesIdleTest` state this, and `Pipeline.Flagged` is the resulting end-to-end condition.
- **Stage 5 literal.** Stage 5 compares with the literal `"inativo"` exactly (app.py:108). It is case-sensitive and does not trim.

## Model

| member | source | states |
|---|---|---|
| Reader.Read | app.py:22-37 | A spreadsheet extension yields the spreadsheet reader's outcome (or its error) whatever the delimited attempts would give. Otherwise the outcome is that of the delimited search: the first attempt that parses with more than one column, or `Unreadable` exactly when no attempt does. |
| Reader.ReadDelimited | app.py:28-37 | The result is the outcome of the first attempt, in loop order, that parses with more than one column. No earlier attempt fits. It is `Unreadable` exactly when none fits. |
| Reader.AttemptsOrder | app.py:28-29 | The nine attempts are every (delimiter, encoding) pair, delimiter-major: attempt i uses delimiter i/3 and encoding i%3. |
| Reader.SpreadsheetSkipsSearch | app.py:25-26 | A spreadsheet path's outcome does not depend on what the delimited attempts would give. |
| Reader.Extension | app.py:23 | The extension is empty exactly when the path has no extension dot. Otherwise it is the suffix starting at the last dot, with no dot or slash after it and a non-dot file-name character before it. |
| Reader.ExtensionOfName | app.py:23-25 | A file named `<name><.ext>` in any directory has extension `.ext`. |
| Columns.Resolve | app.py:64-65 | The resolved column is the earliest whose lowercased name contains the hint. Resolution fails with `ColumnNotFound(hint)` exactly when no column contains it. |
| Columns.ResolvePicksEarliest | app.py:64-65 | If column i matches, resolution succeeds with column i or one declared before it. |
| Strings.Lower | app.py:64-65 | The lowered text has the input's length, keeps every character up to ASCII letter case, and contains no ASCII capital. |
| Strings.LowerOccursAt | app.py:64-65 | A needle without ASCII capitals occurs in the lowered text at a position exactly when it occurs there in the original text ignoring ASCII letter case. |
| Columns.MatchesIgnoringCase | app.py:64-65 | For a hint without capitals, `hint in c.lower()` holds exactly when the hint occurs in the column name ignoring ASCII letter case. |
| Strings.Trim | app.py:97-98 | The trimmed text is the input minus a whitespace prefix and suffix, starts and ends with a non-space, and is empty exactly when the input is all whitespace. |
| Calendar.ParseStamp | app.py:47-51 | Every stamp the parser accepts is a real calendar date and time: day within its month, hour, minute and second in range. Which stamp it returns for which text is stated by `Calendar.ParseStampSpellings`. |
| Calendar.ParseSpell | app.py:47-51 | Every admitted spelling of a valid stamp (one- or two-digit fields, a zero-, space- or unpadded day, any non-empty whitespace run between date and time) parses back to that stamp. |
| Calendar.ParsedIsSpelled | app.py:47-51 | Every text the parser accepts is an admitted spelling of the stamp it returns, so the result is the stamp the text spells and nothing else. |
| Calendar.ParseStampSpellings | app.py:47-51 | A text parses to a stamp exactly when it is an admitted spelling of that stamp, which is then valid. |
| Stages.LoginTime | app.py:47-51 | Definition of the timestamp `to_datetime` gives a login cell: a timestamp stays, a missing cell stays missing, a text goes through the parser. Its meaning for texts is stated by `Stages.LoginTimeSpelled`. |
| Stages.LoginTimeSpelled | app.py:47-51 | A login text becomes timestamp t exactly when it is an admitted spelling of a valid stamp whose seconds are t. |
| Calendar.ParseRender | app.py:47-51 | Every valid stamp written as `dd/mm/yyyy hh:mm:ss` parses back to itself and to its timestamp. |
| Stages.Stage1 | app.py:47-56 | Fails exactly when the login column is absent. The header is the input's with the inactivity column appended if absent. The row count is kept, and only the login and inactivity columns change. The login becomes a timestamp exactly when it parses. The inactivity cell holds that same timestamp exactly when it is strictly before now minus 180 days, and is missing otherwise. |
| Stages.Stage2 | app.py:64-72 | Resolves status then category, failing on the first unresolved hint. Keeps exactly the rows whose status and whose category are both outside the excluded label sets, in their original order. |
| Selection.FilterTwice | app.py:67-72 | Two successive mask selections equal one selection by the conjunction of the masks. |
| Stages.Stage3 | app.py:81-87 | Fails on a missing installer column, then on a missing name column. The header is the input's with the provider-without-service column appended if absent. Keeps the rows and every other cell. The new column is `""` exactly when the trimmed text of the name equals some non-missing trimmed installer name; otherwise it holds the name. |
| Stages.Stage4 | app.py:95-101 | Keeps exactly the rows, in order, whose inactivity cell is present with non-blank text and whose provider-without-service text is non-blank after trimming. |
| Stages.Stage5 | app.py:107-109 | Fails exactly when the receipt column is absent. Keeps exactly the rows whose receipt is not the text "inativo", in order. No surviving row has that receipt. |
| Stages.Stage5Idempotent | app.py:108 | Applying stage 5 to its own output changes nothing. |
| Selection.FilterIdempotent | app.py:108 | Selecting with the same mask twice gives the same rows as once. |
| Selection.FilterIsExactSelection | app.py:101 | Mask selection keeps exactly the accepted elements at strictly increasing positions. |
| Calendar.TimestampText | app.py:59 | The text written for a timestamp is non-empty and ends in a digit. No pandas NA marker ends in a digit, so the text reads back as itself. |
| Table.Str | app.py:82-98 | Used by stages 3 and 4 (`astype(str)`, `str(x)`). `str()` of a cell is "nan" exactly for a missing cell as `read_csv` returns it (NaN) or the text "nan"; a timestamp prints as a digit-ended text; a blank print comes only from a text. |
| Checkpoint.WriteCell | app.py:59 | Every save (lines 59, 75, 90 and 104) writes cells this way. The field written is empty exactly for a missing cell or an empty text; a timestamp is written as a digit-ended text. |
| Checkpoint.ReadField | app.py:78-79 | A field reads back as missing exactly when it is one of pandas' default NA markers. Writing the read cell out again returns the field, except that every NA marker becomes the empty field. The read cell is settled. |
| Checkpoint.Reload | app.py:78-79 | Reloading keeps the columns and the row count. Each cell becomes what its CSV field reads back as, and columns outside the header read as missing. |
| Checkpoint.ReloadCellCases | app.py:93 | A missing cell stays missing. A text survives unless it is an NA marker. A timestamp comes back as non-blank text. |
| Checkpoint.ReloadSettledTable | app.py:107 | A table as `read_csv` returns it is unchanged by another save and reload. |
| Checkpoint.ReloadIdempotent | app.py:104-107 | Saving and reloading twice gives the same table as once. |
| Pipeline.ReloadedIdleTest | app.py:85-98 | After the checkpoint, stage 4's provider-without-service test fails exactly for a non-NA, whitespace-only text. The `""` that stage 3 writes comes back as "nan". |
| Pipeline.InactiveTestAt | app.py:54-97 | For each roster row, stage 4's inactivity test after both checkpoints holds exactly when the last login parses and is older than the window. |
| Pipeline.IdleTestAt | app.py:81-98 | For each roster row, stage 4's provider test after both checkpoints holds exactly when the reloaded name is served in the reloaded monthly table or is not a whitespace-only text. |
| Pipeline.ReceiptTestAt | app.py:108 | The receipt reaches stage 5 as "inativo" exactly when the roster cell was "inativo". |
| Pipeline.KeepAtIffFlagged | app.py:93-108 | Row i survives stages 4 and 5 exactly when roster row i satisfies `Flagged`. |
| Pipeline.RunErrors | app.py:43-111 | A failed run ends with one of these: an unreadable upload, an unresolved status or category column, or a missing login, installer, name or receipt column. Stage 4 never fails inside the pipeline. |
| Pipeline.FinishSucceeds | app.py:78-109 | Once stages 1 and 2 have succeeded, the run succeeds exactly when the monthly table has an installer column and the roster has a name and a receipt column. |
| Pipeline.RunSelectsFlagged | app.py:43-111 | A successful run's final table holds exactly one row per flagged roster row, in roster order. Final row k is flagged roster row idx[k]: in every roster column the stages do not write, it holds that roster cell as read back from a checkpoint. |
| Pipeline.RunColumns | app.py:54-109 | A successful run's final header is the roster's, then the inactivity column, then the provider-without-service column, each appended only if the roster lacks it. |
| Table.WithColumn | app.py:54 | Used for both new columns (also lines 85-87). Assigning a column keeps the existing header as a prefix, leaves it unchanged when the column already exists, and otherwise adds exactly that name. |
| Pipeline.Run | app.py:43-111 | Definition of the run: read the roster, stage 1, read the monthly file, stage 2, then stages 3 to 5 with a checkpoint before each. Its properties are stated by `Pipeline.RunErrors`, `Pipeline.RunColumns` and `Pipeline.RunSelectsFlagged`. |
| Pipeline.FinalRowsAreInactive | app.py:95-109 | Every final row has a non-blank inactivity text and a receipt other than "inativo". |
| Pipeline.Stage5StableAfterCheckpoint | app.py:107-109 | Reading the final artifact back and running stage 5 on it again gives the same table. |
| Scenarios.ResolveFirstOfTwo | app.py:64 | With columns "Status Pedido" and "Outro Status", the status hint resolves to "Status Pedido". |
| Scenarios.NoCategoryColumn | app.py:65 | A monthly table without a category column fails with `ColumnNotFound("categoria")`. |
| Scenarios.MonthlyExclusionIsEitherRule | app.py:67-72 | A "Confirmada" status alone, or a "Serviço loja" category alone, drops a row. A row with neither is kept. |
| Scenarios.NameMatchingTrimsButKeepsCase | app.py:86 | " João Silva " trims to "João Silva". "joão silva" does not. |
| Scenarios.ReceiptIsCaseSensitive | app.py:108 | "inativo" is removed; "Inativo" is kept. |
| Scenarios.LoginExample | app.py:47-55 | "01/01/2020 10:00:00" parses to 1577872800 and is inactive as of 1 January 2024. |
| Scenarios.IsoLoginIsMissing | app.py:47-51 | "2020-01-01 10:00:00" does not parse. |
| Scenarios.ServedProviderPassesIdleTest | app.py:85-98 | A served provider's empty marker reloads as missing, and stage 4 still keeps the row. |
| Scenarios.OneInactiveProvider | app.py:43-111 | A run on a one-row roster (provider "A", last login 1 January 2020, receipt "ativo") and a monthly table with one open installation by "B", as of 1 January 2024, succeeds and saves exactly the row of "A" with its receipt. |

## Left out

- Flask routes, flash messages, templates and `send_file` (app.py:114 onward): user-interface plumbing.
- Upload saving, uuid file names and directory creation: file-system side effects.
- The CSV and spreadsheet parsers and the text encodings. Each upload carries the abstract outcome of the spreadsheet reader and of each of the nine delimited attempts.
- File writing: only the effect of a save and reload on cell values is modelled.
- `datetime.now()`: taken as the parameter `nowMicros`.
- Concurrent requests: every checkpoint goes to a fixed file name in one shared output directory (app.py:58, 74, 89, 103), and the web server may handle requests on several threads (app.py:162). Overlapping runs could read each other's checkpoints. Each run is modelled as if it owned the artifact files.
- Calendar.ParseStamp: does not model the nanosecond timestamp range (years 1677 to 2262) beyond which pandas yields NaT; accepted years run 1 to 9999.
- Stages.Stage1, Stages.LoginTime, Stages.LoginTimeSpelled: pandas 2 turns the login texts "now" and "today" into the current time, with microseconds, before applying the format; the model leaves them missing. That row itself is never older than the window and is not flagged either way. But one such value makes the saved login column neither date-only nor whole-second, so pandas writes every login of that table with a `.000000` microsecond suffix (and never in the date-only form) in every checkpoint and in the final table, where the model writes `%Y-%m-%d %H:%M:%S` or the date-only form. Which rows are kept is unchanged; the login text of every kept row differs.
- Stages.LoginTime, Stages.LoginTimeSpelled: the 1677 to 2262 range of the "Calendar.ParseStamp:" line below applies to them as well; a login outside it is NaT in pandas and a timestamp in the model.
- Calendar.ParseStamp: `\d` matches ASCII digits only; other Unicode decimal digits are not modelled.
- Strings.Lower: lowercases ASCII capitals only. Python's `str.lower` also maps non-ASCII capitals, and two of them produce ASCII: U+212A KELVIN SIGN becomes `k`, and U+0130 becomes `i` followed by U+0307. Neither changes a match result here. No `k` occurs in "status", "categoria", ".xlsx" or ".xls". The `i` from U+0130 is always followed by U+0307, while the one `i` in "categoria" is followed by `a`.
- Columns.Resolve: column names are text. A non-text spreadsheet header (a number or a date) before the matching column makes the source's search raise `AttributeError` on `c.lower()`, which ends the run; the model has no such header and no such error.
- Calendar.TimestampText: the contract states only the shape later stages depend on (non-empty, ending in a digit). It does not state the full `%Y-%m-%d %H:%M:%S` layout, which the body spells out.
- Checkpoint.Reload: pandas' type inference on reload (numbers, booleans) is not modelled; every non-NA field comes back as text. Duplicate or mangled header names and blank-line skipping are also left out.
- Sub-second timestamps (from spreadsheets, or from "now"/"today" as above): timestamps are whole seconds, and the microsecond rendering `to_csv` then uses is not modelled.
- Windows path separators in the extension test: paths are POSIX.
