# FDIC Summary-of-Deposits loader, modelled in Dafny

`fdic_process.py` keeps a local SQLite table, `annual_info`, up to date with
the FDIC's yearly Summary-of-Deposits archives. Each run works out which
years are still missing: from 2015 when no database file exists, otherwise
from one past the largest YEAR already loaded, up to but not including the
current calendar year. For each such year, in order, the run downloads the
archive and reads every `.csv` entry into a table. It concatenates the
tables and coerces five columns:

- `DEPSUM`, `DEPDOM`, `ASSET` and `DEPSUMBR` have their thousands commas
  deleted and are read as numbers.
- `SIMS_ESTABLISHED_DATE` is read as a `%m/%d/%Y` date.

It then appends the result to the table. The first exception ends the run.

This project models that pure core, with the outside world abstracted:

| module | file | models |
|---|---|---|
| `Types` | types.dfy | shared vocabulary: `Option`, `Result`, the error kinds, raw tables, cleaned records |
| `Normalize` | normalize.dfy | `string_to_numeric` and the `%m/%d/%Y` coercion, one cell at a time |
| `Archive` | archive.dfy | the `.csv` filter and dict comprehension of `get_annual_info` |
| `Cleaner` | cleaner.dfy | `annual_info_cleaner`: concatenation, designated-column coercion, error order |
| `HistoricalStore` | store.dfy | the database as the loader sees it: file present or not, batches appended, `MAX(YEAR)` |
| `Progress` | progress.dfy | `get_start_year` and `get_year_markers`, with the current year as a parameter |
| `Loader` | loader.dfy | the loop of `load_annual_info`, with download and append as parameters |

The modelling choices:

- **Raw cells.** A raw table is a set of column names and a sequence of
  rows. Each row maps a column to its raw text. A column missing from a
  row's map is NaN, which covers both an empty CSV field and the outer-join
  fill of `pd.concat`.
- **Cleaned records.** A record keeps its provenance: the archive entry it
  came from and its position there. These are the two levels of the index
  that `pd.concat` builds from the dict keys.
- **The store.** It is `Absent` (no file) or `Present(batches)`. Each batch
  is one `to_sql` append. In the model the `annual_info` table exists
  exactly when at least one batch has been appended.
- **One year of the loop.** The year is prepared (fetch, filter, clean) and
  then committed as a single batch, or it raises. A failed append leaves
  the store as it was. pandas creates the table in its own transaction
  before inserting, so this holds for every append except a failing first
  one (see `Loader.Commit` under "## Left out").

Where what the script is evidently meant to do and what its code does
differ, the model follows the code:

- **Empty numeric cell.** After commas are removed, an empty numeric cell
  becomes NaN, as `pd.to_numeric` makes it. It is not a conversion error.
- **Store without loaded years.** A database file that exists but holds no
  loaded year does not restart at 2015. As written, the run raises in that
  case:
  - when the file has no `annual_info` table, the `SELECT` in
    `get_start_year` fails;
  - when `MAX(YEAR)` is NULL, `get_start_year` returns `None`, and
    `range(None, end)` in `get_year_markers` (fdic_process.py:87) fails.
    The model folds both into `StartYear`, whose error is the one the
    markers raise.

  See "## Findings".
- **Missing designated column.** `pd.concat` fills a column absent from
  some tables with NaN, so a designated column is missing only when it is
  absent from every table. A column missing from one table alone reads as
  NaN there, not as an error (`Cleaner.CleanMissingColumnFails`).

## Model

| member | source | states |
|---|---|---|
| Normalize.ParseInteger | fdic_process.py:40 | a text is read as an integer exactly when it is an optionally signed, non-empty run of ASCII digits |
| Normalize.ParseShowInteger | fdic_process.py:40 | the decimal spelling of every integer is read back as that integer |
| Normalize.StripCommas | fdic_process.py:40 | `str.replace(',', '')` leaves exactly the set of non-comma characters and never lengthens the text |
| Normalize.StripCommasCounts | fdic_process.py:40 | every character other than a comma survives as often as it occurs, and no comma survives |
| Normalize.StripCommasChar | fdic_process.py:40 | a single comma is deleted and any other single character is kept |
| Normalize.StripCommasAppend | fdic_process.py:40 | deleting commas from a concatenation deletes them from each part and keeps the parts in order |
| Normalize.Numeric | fdic_process.py:38-40 | the numeric rule yields only NaN or an integer within the signed/unsigned 64-bit range [-2^63, 2^64-1]; NaN exactly when nothing but commas remains |
| Normalize.NumericIgnoresComma | fdic_process.py:38-40 | inserting a comma at any position never changes the outcome, success or failure |
| Normalize.NumericRoundTrip | fdic_process.py:38-40 | the spelling of an integer in [-2^63, 2^64-1] converts back to that integer; outside that range it raises |
| Normalize.NumericGroupedRoundTrip | fdic_process.py:38-40 | a thousands-grouped spelling of a natural number up to 2^64-1 converts back to that number; a larger one raises |
| Normalize.NumericGroupedExample | fdic_process.py:38-40 | "1,234,567" converts to 1234567 |
| Normalize.NumericRejectsForeignCharacter | fdic_process.py:40 | a character that is not a digit, comma or sign anywhere in the text makes the conversion fail |
| Normalize.NumericRejectsLetters | fdic_process.py:40 | "abc" is rejected, not converted |
| Normalize.ParseDate | fdic_process.py:53 | an accepted date is a real calendar date and the text has exactly three '/'-separated fields |
| Normalize.DateCell | fdic_process.py:53 | a date cell converts to NaT or to a valid calendar date, never to anything else |
| Normalize.DateOfFields | fdic_process.py:53 | three fields make a date exactly when month, day and year have the shapes `%m`, `%d`, `%Y` accept and together name a real calendar date, which is then the date |
| Normalize.MonthFieldIff | fdic_process.py:53 | `%m` accepts exactly one or two digits with value 1 to 12, and that value is the month |
| Normalize.DayFieldIff | fdic_process.py:53 | `%d` accepts exactly one or two digits with value 1 to 31, or a space and a nonzero digit; digits give the day |
| Normalize.PaddedYear | fdic_process.py:53 | `%Y` accepts the four-digit spelling of any year up to 9999 and reads it back as that year |
| Normalize.ParseFormatDate | fdic_process.py:53 | every valid date, written as `%m/%d/%Y`, parses back to itself |
| Normalize.ParseDateRejectsForeignCharacter | fdic_process.py:53 | a character that is not a digit, '/' or the space `%d` tolerates makes the parse fail |
| Normalize.DateExamples | fdic_process.py:53 | "03/15/1998" is 15 March 1998 and "1998-03-15" is rejected |
| Normalize.FormatDateExample | fdic_process.py:53 | 15 March 1998 is written `03/15/1998` in the `%m/%d/%Y` format |
| Archive.CsvNameSuffix | fdic_process.py:32 | the filter is a case-sensitive suffix test: "x.csv" passes, "x.CSV" and "x.csv.bak" do not |
| Archive.LastIndexOf | fdic_process.py:30 | the entry found for a name carries that name and no later entry does; -1 when none does |
| Archive.Opened | fdic_process.py:30 | opening by name reads the last entry carrying that name, and nothing when no entry carries it |
| Archive.OpenedSnoc | fdic_process.py:30 | an entry appended to the archive decides what its name opens to and leaves every other name unchanged |
| Archive.AddEntry | fdic_process.py:30-32 | one comprehension step skips a non-`.csv` entry, raises on a `.csv` name whose opened entry does not read, and otherwise keeps keys distinct, adding a key only for a new name |
| Archive.Comprehend | fdic_process.py:30-32 | the comprehension succeeds exactly when every `.csv` name of the entries iterated opens to a readable entry; its keys are distinct `.csv` names |
| Archive.ComprehendOpenedOnly | fdic_process.py:30-32 | the outcome depends on the archive only through what each `.csv` name opens to |
| Archive.Put | fdic_process.py:30-32 | dict assignment replaces the value of an existing key in place and appends a new key at the end, keeping keys distinct |
| Archive.PutNames | fdic_process.py:30-32 | after an assignment the dict holds exactly the old keys plus the assigned one |
| Archive.PutBinds | fdic_process.py:30-32 | after an assignment the entry under the assigned key holds the assigned value |
| Archive.CsvTables | fdic_process.py:30-32 | the comprehension succeeds exactly when, for every `.csv` name, the last entry carrying it reads; its keys are distinct `.csv` names |
| Archive.CsvReadable | fdic_process.py:30-32 | every `.csv` name opening to a readable entry is the same as the last entry of each `.csv` name being readable |
| Archive.DuplicateNameExamples | fdic_process.py:30-32 | with a repeated name an unreadable earlier entry is masked by a readable later one, and a readable earlier entry does not save an unreadable later one |
| Archive.CsvTablesNames | fdic_process.py:30-32 | the dict's keys are exactly the names of the archive's `.csv` entries |
| Archive.CsvTablesLastWins | fdic_process.py:30-32 | the table under a name is the one read from the last entry carrying that name |
| Archive.CsvTablesFirstFailure | fdic_process.py:30-32 | a failing comprehension raises naming the first `.csv` entry, in archive order, whose name opens to an unreadable last entry; every earlier `.csv` name opens to a readable one |
| Archive.CsvTablesIgnoresOtherEntries | fdic_process.py:31-32 | dropping every entry not named `.csv` leaves the outcome unchanged |
| Archive.CsvOnly | fdic_process.py:32 | the filter keeps every `.csv` entry, keeps nothing else, and yields only entries of the archive, never more of them |
| Archive.OpenedCsvOnly | fdic_process.py:30-32 | dropping the entries not named `.csv` does not change what a `.csv` name opens to |
| Cleaner.FrameColumns | fdic_process.py:46 | a column is in the concatenated frame exactly when some table has it |
| Cleaner.Coerce | fdic_process.py:49-53 | a cell outside the five columns passes through as text; a numeric cell goes through the numeric rule; a date cell becomes NaT or a valid date; an empty cell becomes NaN |
| Cleaner.Concat | fdic_process.py:46 | the concatenated frame has as many rows as all tables together |
| Cleaner.ConcatIndex | fdic_process.py:46 | row k of the j-th table sits at offset-of-j plus k in the frame, with its cells and provenance |
| Cleaner.ConcatSource | fdic_process.py:46 | every frame row comes from some table row, with that table's name and the row's position |
| Cleaner.ConcatCellsInColumns | fdic_process.py:46 | every cell of the frame belongs to a column of the union of the tables' headers |
| Cleaner.FirstMalformedIn | fdic_process.py:49-53 | no error exactly when every cell of the column converts; an error names the first failing cell in frame order, every earlier cell converting |
| Cleaner.FirstMalformed | fdic_process.py:49-50 | no error exactly when every numeric cell converts; an error is at the first failing cell of the first column, in the given order, that has one, every earlier column converting |
| Cleaner.Clean | fdic_process.py:43-56 | a cleaned frame has exactly one record per row of the input tables |
| Cleaner.CleanSucceedsIff | fdic_process.py:46-53 | cleaning succeeds exactly when there is a table, all five designated columns exist and every designated cell converts |
| Cleaner.NoMalformedIff | fdic_process.py:49-53 | neither coercion raises exactly when every designated cell of every table converts |
| Cleaner.CleanMissingColumnFails | fdic_process.py:46-53 | a designated column absent from every table raises; the numeric columns so absent are reported together |
| Cleaner.CleanMalformedIsGenuine | fdic_process.py:49-53 | a conversion error names a designated column and a cell of it whose text the rule rejects; it is the first failing cell of the first failing column in the order DEPSUM, DEPDOM, ASSET, DEPSUMBR, and a date error comes only after every numeric cell converted |
| Cleaner.CleanKeepsProvenance | fdic_process.py:46 | each record keeps the table name and position of its row, and has exactly the frame's columns |
| Cleaner.CleanPassesOtherColumns | fdic_process.py:46-53 | every column outside the five designated ones is passed through unchanged |
| Cleaner.CleanConvertsNumeric | fdic_process.py:49-50 | a numeric column holds what the numeric rule makes of the raw text |
| Cleaner.CleanConvertsDate | fdic_process.py:53 | the date column holds the parsed date of the raw text, or NaT for an empty cell |
| HistoricalStore.RecordYearReads | fdic_process.py:69 | a YEAR cell reads as NULL when absent, NaN or a date; an integer reads as itself; a text reads as an integer exactly when it spells one |
| HistoricalStore.MaxOptIsMax | fdic_process.py:69 | SQL `MAX` of two values ignores NULL: NULL only when both are, otherwise one of them and no smaller than either |
| HistoricalStore.MaxRecordYear | fdic_process.py:69 | `MAX(YEAR)` over one batch is NULL exactly when no record has a year, else the largest year present |
| HistoricalStore.MaxYear | fdic_process.py:69 | `MAX(YEAR)` over the table is NULL exactly when no year occurs, else a year that occurs and bounds all others |
| HistoricalStore.Open | fdic_process.py:99 | after connecting a file always exists; a new one holds no table and an existing one keeps all its batches |
| HistoricalStore.AscendingTaggedMax | fdic_process.py:69 | for batches tagged with consecutive years the maximum is the last year |
| HistoricalStore.MaxYearAppend | fdic_process.py:69 | after an append the maximum is the larger of the old maximum and the new batches' maximum |
| Progress.StartYear | fdic_process.py:59-79 | no file gives 2015; a file without the table raises; a table with no year gives NULL, which the markers then reject; a table in which some year occurs always gives a start year, namely one past the largest year loaded, a year above every loaded one |
| Progress.Range | fdic_process.py:87 | `range(lo, hi)` holds `hi - lo` integers counting up from `lo`, or none |
| Progress.YearMarkers | fdic_process.py:82-90 | the markers exist exactly when the start year does, and otherwise raise the start year's error |
| Progress.YearMarkersShape | fdic_process.py:85-87 | the markers are exactly the years from the start to the current year exclusive, strictly ascending and gap-free |
| Progress.FreshStoreStartsAtDefault | fdic_process.py:62-79 | without a database file the markers run from 2015 |
| Progress.RangeSplit | fdic_process.py:87 | a range splits into consecutive sub-ranges at any point within it |
| Progress.RangeMembers | fdic_process.py:87 | a year is in `range(lo, hi)` exactly when `lo <= year < hi` |
| Progress.RangeDrop | fdic_process.py:87 | dropping the first n years of a range leaves the range starting n years later |
| Progress.StartYearResumable | fdic_process.py:59-79 | corrected start year: one past the largest year, or 2015 when no year is loaded |
| Progress.YearMarkersResumable | fdic_process.py:82-90 | corrected markers: exactly the years from the corrected start to the current year exclusive |
| Progress.ResumableAgrees | fdic_process.py:59-79 | wherever the start year as written is defined, the corrected one equals it |
| Loader.Prepare | fdic_process.py:104-108 | a failed download raises before anything else |
| Loader.PrepareSucceedsIff | fdic_process.py:104-108 | a year is prepared exactly when it downloads, the last entry of every `.csv` name reads and cleaning succeeds, with one record per row |
| Loader.PrepareFailsFirstStep | fdic_process.py:104-108 | the error raised is the first unreadable entry, else the cleaning error |
| Loader.Commit | fdic_process.py:104-111 | a year commits exactly when it prepares and the store accepts the append; it then appends exactly one batch holding what the year prepared to; a preparation error is raised unchanged, and otherwise a refused append raises |
| Loader.LoadLoop | fdic_process.py:102-111 | the committed years are a prefix of the markers, and the run ends cleanly exactly when all are committed |
| Loader.LoadLoopKeepsOld | fdic_process.py:102-111 | the loop keeps the old batches in front and adds exactly one batch per committed year |
| Loader.LoadLoopBatch | fdic_process.py:104-111 | the i-th new batch carries the i-th committed year and the records that year prepares to |
| Loader.LoadLoopLength | fdic_process.py:102-111 | the store grows by exactly the number of committed years |
| Loader.LoadLoopAppends | fdic_process.py:102-111 | the loop only appends: old batches are kept, then one batch per committed year with that year's records |
| Loader.LoadLoopStopsAtFailure | fdic_process.py:102-111 | a run that raised stopped at the first marker whose step raises: the step for the next marker raises that exception on the final store (every earlier step succeeded, see `Loader.LoadLoopAccepted` and `Loader.AppendedCommits`) |
| Loader.LoadLoopAccepted | fdic_process.py:102-111 | the store as it stood just before each committed year (old batches plus those committed earlier in the loop) accepted that year's append |
| Loader.CommitAccepted | fdic_process.py:111 | a store reached by a successful step holds, at the step's position, a batch that the store before it accepted |
| Loader.Appended | fdic_process.py:111 | the appended batches follow the old ones, one per committed year, each prepared from that year and accepted by the store holding the batches before it |
| Loader.AppendedCommits | fdic_process.py:102-111 | replaying the appended batches one step at a time from the original store reproduces the loop: the step for each committed year, on the store just before it, succeeds and appends exactly that batch |
| Loader.CommitOfBatch | fdic_process.py:104-111 | a batch whose records are what its year prepares to, and which the store before it accepts, is exactly what a step for that year appends there |
| Loader.AppendedYears | fdic_process.py:102-111 | the years of the appended batches are exactly the committed years, in order |
| Loader.Run | fdic_process.py:93-111 | when the markers raise, the run raises the start year's error with the store untouched and no file created; otherwise a file exists afterwards and the committed years are a prefix of the markers |
| Loader.LoopOverRange | fdic_process.py:102-111 | over consecutive years the loop commits consecutive years, appends those years in order, and appends nothing for the year that raised |
| Loader.RunCommitsAscendingPrefix | fdic_process.py:93-111 | the store only grows by appends; the committed years are a prefix of the markers and are the years of the new batches; the failed year has no batch |
| Loader.RunCommitsConsecutiveYears | fdic_process.py:85-111 | a run commits the start year, then the next year, and so on without a gap |
| Loader.LoopAscendingTagged | fdic_process.py:102-111 | when every year's records carry that year, the new batches carry consecutive years from the start |
| Loader.MaxAfterAppend | fdic_process.py:69 | appending consecutive tagged years after a store whose maximum is the year before makes the last of them the maximum |
| Loader.StartAfterAppend | fdic_process.py:69-75 | appending consecutive tagged years moves the next start year past the last of them |
| Loader.RerunAfterFullLoadIsEmpty | fdic_process.py:85-111 | provided every year that prepares yields at least one record and every record carries that year as YEAR, and the run did not start without a file while the current year was 2015 or earlier: after a run that loaded every marker, the next run's markers are empty |
| Loader.FullLoopBatches | fdic_process.py:102-111 | a loop that commits every year leaves the old batches followed by one batch per year, tagged in order |
| Loader.ResumeAtEnd | fdic_process.py:69-75 | the old batches followed by one tagged batch per year from the start year on leave no year to load |
| Loader.ContiguousStart | fdic_process.py:69-75 | on a store loaded contiguously from 2015 the start year is 2015 plus the number of batches |
| Loader.AscendingTaggedConcat | fdic_process.py:111 | appending batches that continue the years of a contiguous store keeps it contiguous |
| Loader.RunPreservesContiguity | fdic_process.py:93-111 | every run, whether it completes or raises, keeps the loaded years contiguous from 2015 |
| Loader.FailedFirstRunBlocksEveryRetry | fdic_process.py:62-99 | as written, a first run whose 2015 download fails leaves an empty file, and every later run raises without loading |
| Loader.RunResumable | fdic_process.py:93-111 | a run with the corrected start rule always leaves a database file |
| Loader.ContiguousResumableStart | fdic_process.py:59-79 | with the corrected rule a contiguous store resumes one past its last batch |
| Loader.ContiguousResumableMarkers | fdic_process.py:82-90 | with the corrected rule a contiguous store's markers run from one past its last batch |
| Loader.LoopKeepsContiguous | fdic_process.py:102-111 | a loop over the years after a contiguous store's last batch keeps it contiguous, whether or not it raises |
| Loader.LoopResumesAtFailure | fdic_process.py:102-111 | after such a loop raises, the corrected markers are exactly the years it did not commit |
| Loader.ResumeAfterCommitted | fdic_process.py:82-90 | a contiguous store n batches past a start resumes at the markers after the first n |
| Loader.ResumableRetryStartsAtFailedYear | fdic_process.py:93-111 | with the corrected rule a retry resumes at exactly the year that failed, and the store stays contiguous |
| Loader.EmptyFirstRunBlocksEveryRetry | fdic_process.py:62-99 | as written, a first run with nothing to load completes cleanly but leaves a file without the table, and every later run raises without loading |
| Loader.EmptyFirstRunResumes | fdic_process.py:59-99 | with the corrected rule that empty file is loaded from 2015 by a later run |
| Loader.FailedFirstRunResumes | fdic_process.py:93-111 | with the corrected rule the run that left an empty file is retried from 2015 |

## Left out

- HTTP retrieval and URL formatting (fdic_process.py:23-26) are network I/O. They are the parameter `Env.fetch`, which gives a year's archive entries or nothing when the download or unzip raises.
- Zip decoding and `pd.read_csv` with ISO-8859-1 (fdic_process.py:27-30) are foreign parsers. Each archive entry carries what its own bytes read as, or nothing when reading raises; opening an entry by name reads the last entry carrying that name (`Archive.Opened`).
- Cleaner.Coerce: every raw cell is text. `read_csv` infers column types, and on a column it reads as numbers the `.str` accessor raises. The model does not represent inferred column types.
- The SQLite engine, the query and `to_sql` (fdic_process.py:65-69, 99, 111) are a persistence engine. The store is the sequence of appended batches. Whether an append completes is the parameter `Env.accepts`, which covers, for example, a frame with a column the table lacks. Index columns and SQL types are not modelled.
- The record's YEAR is read from its `YEAR` cell as an integer. How SQLite stores a mixed-type column is not modelled.
- The wall-clock read `dt.datetime.today()` (fdic_process.py:86) is the parameter `currentYear`.
- The module-level call `load_annual_info()` (fdic_process.py:119) is script plumbing.
- Normalize.Numeric: the rule is stated per cell, and a cell in the unsigned-only range (2^63 to 2^64-1) converts to its integer. On a whole column pandas does two things the model does not: once the column holds NaN and no such large value, integers are stored as float64, so those above 2^53 are rounded; and when such a large value shares the column with a negative value or an empty cell, `pd.to_numeric` gives up on the column and leaves it unconverted, as text, without raising.
- Normalize.Numeric: only optionally signed decimal integers are numbers. `pd.to_numeric` also accepts decimals, exponents, surrounding whitespace and spellings of NaN or infinity, which involve floating point.
- Normalize.ParseDate: accepts any calendar date from year 1 to 9999. A pandas nanosecond timestamp raises outside 1677-09-22 to 2262-04-11, and the spellings pandas reads as NaT other than the empty cell are not modelled.
- Loader.Commit: an append is all-or-nothing. pandas creates the table in a transaction of its own before inserting, so a first append whose insert fails still leaves an empty `annual_info` table; the model treats that failure as leaving no table. The next run then fails at `range(None, end)` with NullStartYear, not at the `SELECT` with NoSuchTable; either way every later run raises. A table with no rows that an accepted append creates is modelled: a first year that prepares to no records gives `Present([Batch(year, [])])`.
- Concurrency between runs sharing one database file is not modelled.

## Findings

| source | as written | input that shows it | evidently intended | confidence | as-written member | corrected member |
|---|---|---|---|---|---|---|
| fdic_process.py:62-99 | `get_start_year` chooses the default year by whether `bank_info.db` exists, but `load_annual_info` creates that file (line 99) before the first append | a first run, with the current year after 2015, whose 2015 download raises; every later run then fails at `SELECT MAX(YEAR) + 1 FROM annual_info` because the table was never created. A first run with the current year 2015 or earlier loads nothing, completes without an error, and leaves the same tableless file (`Loader.EmptyFirstRunBlocksEveryRetry`, corrected in `Loader.EmptyFirstRunResumes`) | a database holding no loaded year resumes at 2015, so a retry resumes at the year that failed | not executed; high that it happens, medium that it was not intended | Loader.FailedFirstRunBlocksEveryRetry | Loader.ResumableRetryStartsAtFailedYear |

The corrected start rule is `Progress.StartYearResumable`, used by
`Loader.RunResumable`. `Progress.ResumableAgrees` shows that it agrees with
the rule as written wherever the latter is defined.
