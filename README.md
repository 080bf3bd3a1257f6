# IPO collector and loader, modelled in Dafny

The system has two AWS lambdas that share an S3 bucket.

- The **collector** (`web-scraper/lambda_function.py`) scrapes two tables
  of initial public offerings: the upcoming calendar and the last 100 IPOs.
  It converts the cells of each row (share counts and dollar prices to
  floats, dates to datetimes) and writes the rows as CSV. It uploads the
  text under a name that starts with `upcoming_ipos` or `last_100_ipos`.
- The **loader** (`data-loader/load_data.py`) drains the bucket in listing
  order. For each object it:
  - splits the body into lines and cleans the header names;
  - reads the data lines with `csv.DictReader`;
  - reconciles every row into the `upcoming_ipos` or `ipos` table, chosen
    by the key prefix.

  A row whose key symbol is not stored is inserted. A row whose stored
  fingerprint (SHA-256 of the raw line) differs replaces every record with
  that symbol. A row with an equal fingerprint is skipped. Each row is
  committed on its own. An object is deleted only after it has loaded.

The modules follow that structure:

| module | file | models |
|---|---|---|
| `Wrappers` | wrappers.dfy | `Option` and `Result` |
| `PyStr` | pystr.dfy | the `str` methods the core calls: `lower`, `strip`, `split(',')`, `splitlines`, `startswith` |
| `CsvDialect` | csvdialect.dfy | `csv.writer` and `csv.reader`/`csv.DictReader` in the excel dialect, as a character-level state machine |
| `Headers` | headers.dfy | `clean_header` |
| `ObjectStore` | objectstore.dfy | the bucket: a `Blob` value and a `Bucket` class whose `Delete` updates its object list |
| `Scraper` | scraper.dfy | `dollar2float`, the date regex, both row converters, `get_rows`, `to_csv`, blob naming, and the two jobs |
| `Reconcile` | reconcile.dfy | records, the insert/replace/skip decision, a row, a blob and the drain, as functions on values |
| `Idempotence` | idempotence.dfy | what loading the same blob twice does |
| `Loader` | loader.dfy | the database session as a `Store` class whose `LoadFile` changes its two tables row by row, and `main`'s drain loop (`DrainBucket`) |
| `Pipeline` | pipeline.dfy | the two lambdas together: a blob the collector writes routes to the right table and parses back to the rows it wrote |

Imperative source code stays imperative in the model:

- `load_file` and `main` are methods with loops.
- The row converters update a sliced copy cell by cell.
- `get_rows` appends in a loop, and `to_csv` grows its buffer record by
  record.

`load_file`, `main`, `to_csv` and the two row converters are each proved
equal to a function, and the properties are proved about that function.
`GetRows` states its result directly in its contract.

Library calls whose results the model cannot compute are parameters, so
every property holds whatever they return. These are:

- `hashlib.sha256(...).hexdigest()`, as `hash: string -> string`;
- `float()` and `datetime.strptime(..., '%m/%d/%Y')`, which may fail;
- `repr` of a float;
- `uuid.uuid4()`, as an arbitrary string.

A table is the sequence of its records in the order the database returns
them. `query(...).filter(symbol == k).first()` is the first record with
symbol `k`, and `session.add` appends.

Symbols are values that may be `Null`, because `DictReader` fills a missing
cell with `None`. SQLAlchemy turns `== None` into `IS NULL`, so comparing
symbols as values matches the query.

Behaviour of the code as written that the model keeps:

- `DictReader` takes `line_num` before it skips blank lines. A row that
  follows a blank line is therefore fingerprinted with the blank line
  (`CsvDialect.BlankLineQuirk`).
- A quoted field that spans lines is fingerprinted with its last physical
  line (`CsvDialect.MultiLineQuirk`).
- `dollar2float` of a text whose leftmost match is a bare `.` raises
  `ValueError`, because `float('.')` raises (`Scraper.Dollar2FloatBareDot`).
- The Python `for` over `DictReader` rows re-checks the key prefix for
  every row. The model routes once per blob, which is equivalent because
  the key does not change.
- Loading a blob twice raises the same error both times. It leaves every
  symbol's records, and both tables as multisets, as the first load left
  them. This includes a blob whose first load raised, which `main` leaves
  in the bucket for the next run. The order of records can change
  (`Idempotence.ReloadReorders`).
- Reloading is exactly idempotent, with every second-pass row a skip, when
  the header names every column the constructor reads and the blob's keys
  are distinct (`Idempotence.DistinctReloadExact`). When the header lacks
  such a column, the blob never changes the table, so reloading is exactly
  idempotent too (`Idempotence.IncompleteReloadExact`).

## Model

| member | source | states |
|---|---|---|
| Headers.CleanHeader | data-loader/load_data.py:39-57 | `clean_header`: lower-case, then `[$\.\s()]` to `_`, then runs of `_` to one, then `strip('_')`; its contract is given by the `CleanHeader…` lemmas below |
| Headers.Underscored | data-loader/load_data.py:51 | every `$`, `.`, `(`, `)` and whitespace character becomes `_`; every other character is kept in place |
| Headers.SqueezedFacts | data-loader/load_data.py:53 | after squeezing, no two `_` are adjacent; the characters that are neither special nor `_` are kept in order; a non-empty text keeps its first character |
| Headers.SqueezedSplit | data-loader/load_data.py:53 | squeezing two texts that do not meet in `__` squeezes each on its own |
| Headers.SqueezedRun | data-loader/load_data.py:53 | a non-empty run of `_` squeezes to exactly one `_` |
| Headers.StripUnderscoreFacts | data-loader/load_data.py:55 | stripping `_` keeps the other characters in order and keeps the no-double-underscore property |
| Headers.CleanHeaderShape | data-loader/load_data.py:48-55 | a cleaned header has no upper-case letter, none of `$ . ( )` and no whitespace, no `__`, and does not start or end with `_`; its other characters are those of the lower-cased input, in order |
| Headers.CleanHeaderJoin | data-loader/load_data.py:48-55 | a non-empty run of special characters and `_` between two parts that each clean to a non-empty name becomes exactly one `_` between the two cleaned names |
| Headers.CleanHeaderWord | data-loader/load_data.py:48-55 | a header with no special character and no `_` is only lower-cased |
| Headers.CleanHeaderTrim | data-loader/load_data.py:48-55 | special characters and `_` before and after a header do not change its cleaned name |
| Headers.CleanIsFixed | data-loader/load_data.py:39-57 | a header that is already clean is returned unchanged |
| Headers.CleanHeaderIdempotent | data-loader/load_data.py:39-57 | cleaning a cleaned header changes nothing |
| Headers.CleanOfSpecialsIsEmpty | data-loader/load_data.py:39-57 | a header made only of special characters and `_` cleans to the empty text |
| Headers.CleanHeaderExamples | data-loader/load_data.py:39-57 | "Offer Price ($)" cleans to "offer_price", "Shares(millions)" to "shares_millions", "1st Day Close" to "1st_day_close" |
| PyStr.Lower | data-loader/load_data.py:48 | same length; each ASCII capital is lowered and every other character kept |
| PyStr.Strip | web-scraper/lambda_function.py:90 | the result is the input with a leading and a trailing run of stripped characters removed, and it neither starts nor ends with one |
| PyStr.Split | data-loader/load_data.py:78 | at least one part; no part holds the separator; joining the parts with the separator gives the input back |
| PyStr.SplitJoin | data-loader/load_data.py:78 | splitting a join of separator-free parts gives the parts back |
| PyStr.SplitLines | data-loader/load_data.py:71 | no line holds a line-break character |
| PyStr.SplitLinesOfCrlfJoin | data-loader/load_data.py:71 | lines without line breaks, each ended by "\r\n", split back into those lines |
| CsvDialect.FormatField | web-scraper/lambda_function.py:108-114 | QUOTE_MINIMAL: a field holding `,`, `"`, "\r" or "\n" is quoted with its quotes doubled, any other field is written as it is; its contract is given by `FormatFieldPlain` and `ParseFormattedRecord` |
| CsvDialect.FormatRecord | web-scraper/lambda_function.py:111 | `writerow`: the formatted fields joined by `,`, ended by "\r\n" |
| CsvDialect.CsvText | web-scraper/lambda_function.py:106-117 | the buffer's text: every record formatted, in order; its contract is given by `SplitLinesOfCsvText` |
| CsvDialect.Escape | web-scraper/lambda_function.py:108-114 | a field without `"` is written as it is, and doubling quotes adds no line break |
| CsvDialect.FormatFieldPlain | web-scraper/lambda_function.py:108-114 | a field without `,`, `"`, "\r" or "\n" is written unquoted |
| CsvDialect.ParseFormattedRecord | web-scraper/lambda_function.py:108-114 | the reader reads a written non-empty record of line-free fields back as exactly its fields, on one line |
| CsvDialect.SplitLinesOfCsvText | web-scraper/lambda_function.py:106-117 | `splitlines` of the writer's text is the list of written records, one line each, in order |
| CsvDialect.DictRowsOfFormatted | data-loader/load_data.py:82-90 | the `DictReader` rows of written records are those records, in order, each paired with its own written line as the line it is fingerprinted by |
| CsvDialect.Feed | data-loader/load_data.py:82-86 | the reader's state after one character: field start, in an unquoted field, in a quoted field, or after a quote inside one |
| CsvDialect.FeedLine | data-loader/load_data.py:82-86 | the reader's state after a line, character by character |
| CsvDialect.Rows | data-loader/load_data.py:86-90 | the records read from the lines, blank lines skipped, each paired with the line at `line_num - 1` |
| CsvDialect.DictRows | data-loader/load_data.py:82-90 | the `DictReader` rows of the data lines, each paired with the line it is fingerprinted by; its contract is given by `DictRowsOfFormatted` and the two quirk lemmas |
| CsvDialect.EndOfLine | data-loader/load_data.py:82 | a line ends a record unless it ends inside a quoted field |
| CsvDialect.NextRecord | data-loader/load_data.py:86 | reading a record consumes at least one line unless it starts inside a quoted field, and never reads past the last line |
| CsvDialect.LastIndex | data-loader/load_data.py:82 | for a repeated column name the row dict keeps the last column of that name |
| CsvDialect.Lookup | data-loader/load_data.py:107 | `row[name]` finds nothing exactly when the name is not a cleaned header |
| CsvDialect.LookupColumn | data-loader/load_data.py:82 | with distinct names, a column's value is the row's field at that index, or `None` when the row is shorter than the header |
| CsvDialect.BlankLineQuirk | data-loader/load_data.py:86-90 | a data row that follows a blank line is paired with the blank line as its raw line |
| CsvDialect.MultiLineQuirk | data-loader/load_data.py:86-90 | a quoted field spanning two lines yields one row paired with its last physical line |
| Scraper.Dollar2Float | web-scraper/lambda_function.py:16-28 | `dollar2float`: the leftmost `[0-9]*\.[0-9]*` match as an exact decimal, 0.0 without a match, ValueError for a bare `.`; its contract is given by `Dollar2FloatValue`, `Dollar2FloatNoDot` and `Dollar2FloatBareDot` |
| Scraper.DigitRun | web-scraper/lambda_function.py:22 | the run of ASCII digits from a position is maximal |
| Scraper.FindDecimal | web-scraper/lambda_function.py:22 | the position found is the leftmost at which `[0-9]*\.[0-9]*` matches, and there is none exactly when no position matches |
| Scraper.Dollar2FloatValue | web-scraper/lambda_function.py:16-26 | when the leftmost match is digits, `.`, digits, the result is the exact decimal value of that text |
| Scraper.Dollar2FloatNoDot | web-scraper/lambda_function.py:22-28 | a text without `.` converts to 0.0 |
| Scraper.PriceAfter | web-scraper/lambda_function.py:16-26 | a price `digits.digits` after text that holds no dot and does not end in a digit converts to the exact value of those digits |
| Scraper.TenDollars | web-scraper/lambda_function.py:16-26 | "$10.00" is 10.0 |
| Scraper.TwelveFifty | web-scraper/lambda_function.py:16-26 | "$12.50" is 12.5 |
| Scraper.ThousandDollars | web-scraper/lambda_function.py:16-26 | "$1,000.00" is 0.0, because the leftmost match is "000.00" |
| Scraper.NoCents | web-scraper/lambda_function.py:22-28 | "$10" is 0.0, because nothing matches |
| Scraper.NotAvailable | web-scraper/lambda_function.py:22-28 | "N/A" is 0.0, because nothing matches |
| Scraper.Dollar2FloatBareDot | web-scraper/lambda_function.py:22-26 | "N.A." raises ValueError, because its leftmost match is "." |
| Scraper.FindDateAt | web-scraper/lambda_function.py:67 | the position found is the leftmost at which `[0-9]{1,2}/[0-9]{1,2}/[0-9]{2,4}` matches, and there is none exactly when no position matches |
| Scraper.DateMatch | web-scraper/lambda_function.py:67 | the matched date text at a position where the date pattern matches, with the year cut to at most four digits |
| Scraper.FindDate | web-scraper/lambda_function.py:67-68 | `re.findall(date_pattern, s)[0]`: the date text at `FindDateAt`'s leftmost position, or none (the IndexError) |
| Scraper.DateAfterText | web-scraper/lambda_function.py:67 | after a prefix without digits, the date taken is the first date, with its year cut to four digits |
| Scraper.WeekOfDate | web-scraper/lambda_function.py:67-68 | in "Week of 7/19/2021" the date taken is everything after "Week of " |
| Scraper.NoDate | web-scraper/lambda_function.py:67-68 | "TBA" holds no date, so the converter fails |
| Scraper.Last100Row | web-scraper/lambda_function.py:39-52 | success exactly when there are at least 7 cells and all four conversions succeed; then there are exactly 7 cells, cells 0-2 are unchanged, cell 3 is the date, cell 4 the share count, cells 5 and 6 `dollar2float` of the inputs; fewer than 4 cells is an IndexError |
| Scraper.Last100RowFunc | web-scraper/lambda_function.py:39-52 | assigning the cells of the sliced copy one by one gives `Last100Row`; the caller's row is a value and is not changed |
| Scraper.UpcomingRow | web-scraper/lambda_function.py:54-70 | success exactly when there are at least 8 cells, the conversions succeed and cell 7 holds a date; then there are exactly 8 cells, cells 0-2 and 6 are unchanged, cells 4 and 5 are `dollar2float` of the inputs, cell 7 is the first date of the input's cell 7; no date is an IndexError |
| Scraper.UpcomingRowFunc | web-scraper/lambda_function.py:54-70 | assigning the cells of the sliced copy one by one gives `UpcomingRow` |
| Scraper.StripCells | web-scraper/lambda_function.py:90 | one text per cell, in order, each with the whitespace stripped from both ends |
| Scraper.GetRows | web-scraper/lambda_function.py:85-96 | success exactly when the converter succeeds on every whitespace-stripped row; then one result per row in order; a failure is the first failing row's error |
| Scraper.DateText | web-scraper/lambda_function.py:114 | `str()` of a midnight datetime as the writer writes it: "YYYY-MM-DD 00:00:00" with zero-padded fields |
| Scraper.Render | web-scraper/lambda_function.py:114 | the text the writer writes for a cell: a text as it is, a float by its `repr`, a datetime by `DateText` |
| Scraper.RenderRows | web-scraper/lambda_function.py:114 | one rendered row per row, in order, each with one rendered text per cell |
| Scraper.ToCsv | web-scraper/lambda_function.py:98-119 | the buffer holds the header record and then every row, each written by the excel dialect and ended by "\r\n" |
| Scraper.UpcomingBlobName | web-scraper/lambda_function.py:156 | the name starts with `upcoming` and ends with `.csv` |
| Scraper.Last100BlobName | web-scraper/lambda_function.py:183 | the name starts with `last_100` and ends with `.csv` |
| Scraper.UpcomingIpos | web-scraper/lambda_function.py:146-158 | success exactly when every row converts; then the blob's name is the upcoming name and its body is the CSV of the headers cut to 8 and the converted rows |
| Scraper.PreviousIpos | web-scraper/lambda_function.py:173-185 | the same for the last-100 page, with headers cut to 7 |
| Reconcile.RouteOf | data-loader/load_data.py:101-151 | a key starting with `upcoming` routes to the upcoming table, one starting with `last_100` to the completed table, and any other key to neither |
| Reconcile.KeyColumn | data-loader/load_data.py:103-108 | the column a row is looked up by is the one that becomes the record's symbol (`symbol_proposed` for upcoming, `symbol` for completed) |
| Reconcile.Column | data-loader/load_data.py:107 | `row[name]` raises KeyError exactly when the name is not a header; otherwise it is the row's value of that column |
| Reconcile.Arguments | data-loader/load_data.py:120-130 | the constructor's keyword arguments, read in order: success exactly when every column is a header, each value is that column's value, and a failure names the first missing column |
| Reconcile.Build | data-loader/load_data.py:136-147 | the built record belongs to the routed table, carries the line's fingerprint and holds the row's values of the constructor's columns; otherwise it is the KeyError of the arguments |
| Reconcile.Assemble | data-loader/models.py:16-51 | a record of the target table whose column values are the given ones and whose fingerprint is the given one |
| Reconcile.BuildKey | data-loader/load_data.py:137-139 | the built record's symbol is the row's key value |
| Reconcile.BuildSucceeds | data-loader/load_data.py:136-147 | a record is built exactly when the header names every column the constructor reads |
| Reconcile.WithSymbol | data-loader/load_data.py:103-108 | `filter(symbol == k)`: never more records than the table; which records it keeps is stated by `FilterMembers` |
| Reconcile.Without | data-loader/load_data.py:113-117 | the table after `filter(symbol == k).delete()`: never more records than the table; which records it keeps is stated by `FilterMembers` |
| Reconcile.FirstWith | data-loader/load_data.py:103-108 | `first()`: the first record with symbol `k` in table order, or none |
| Reconcile.Decide | data-loader/load_data.py:110-135 | insert when no record has the symbol, skip when the first has the same fingerprint, replace otherwise |
| Reconcile.Step | data-loader/load_data.py:110-148 | the table after one decided row; its contract is given by `StepInserts`, `StepReplaces`, `StepSkips`, `StepFrame` and `StepOwn` |
| Reconcile.FilterMembers | data-loader/load_data.py:103-117 | `filter(symbol == k)` keeps exactly the records with symbol `k`, and the delete keeps exactly the others |
| Reconcile.WithoutWithSymbol | data-loader/load_data.py:113-117 | after deleting symbol `k` no record has `k`, and the records of every other symbol are unchanged |
| Reconcile.WithoutCount | data-loader/load_data.py:113-117 | the delete removes exactly the records with the symbol |
| Reconcile.StepInserts | data-loader/load_data.py:135-148 | when no record has the symbol, the row is an insert: the old records stay in place and exactly one record is added, the only one with that symbol |
| Reconcile.StepReplaces | data-loader/load_data.py:110-131 | when the first stored record differs in fingerprint, the row is a replace: all records with the symbol give way to exactly the new one |
| Reconcile.StepSkips | data-loader/load_data.py:132-133 | when the first stored record has the same fingerprint, the row is a skip and the table is unchanged |
| Reconcile.StepFrame | data-loader/load_data.py:110-148 | a row changes no record of any other symbol |
| Reconcile.StepOwn | data-loader/load_data.py:110-148 | after a row, its symbol's records are unchanged on a skip and are just the new record otherwise |
| Reconcile.StepKeepsUnique | data-loader/load_data.py:110-148 | at most one record per symbol is preserved by every row |
| Reconcile.UniqueSymbolsDistinct | data-loader/load_data.py:110-148 | at most one record per symbol means no two records share a symbol |
| Reconcile.RowStep | data-loader/load_data.py:90-198 | a missing key column raises its KeyError; a header with every column never raises; every error is the KeyError of a missing column |
| Reconcile.RowStepKeepsUnique | data-loader/load_data.py:90-198 | a row that does not raise keeps at most one record per symbol |
| Reconcile.ApplyRows | data-loader/load_data.py:86-198 | the rows in order, each committed on its own, stopping at the first row that raises; its contract is given by the `ApplyRows…` lemmas |
| Reconcile.ApplyRowsSucceeds | data-loader/load_data.py:86-198 | with a header naming every column the constructor reads, no row raises |
| Reconcile.ApplyRowsKeepsUnique | data-loader/load_data.py:86-198 | the rows keep at most one record per symbol |
| Reconcile.ApplyRowsNext | data-loader/load_data.py:86-198 | one more row commits its step, or raises and leaves the last commit |
| Reconcile.FailureIsFinal | data-loader/load_data.py:86-198 | once a row raises, no later row runs and the rows committed before it stay |
| Reconcile.HeaderNames | data-loader/load_data.py:77-79 | one name per comma-separated part of the header line |
| Reconcile.HeaderNamesClean | data-loader/load_data.py:77-79 | every header name is clean |
| Reconcile.ParseBlob | data-loader/load_data.py:71-74 | the header pop fails exactly when the body has no lines; otherwise the data lines are the lines after the header |
| Reconcile.LoadBlob | data-loader/load_data.py:59-198 | an empty blob raises and changes nothing; an unrouted key changes nothing; the table not routed to is unchanged |
| Reconcile.LoadBlobKeepsUnique | data-loader/load_data.py:59-198 | a load keeps at most one record per symbol in both tables |
| Reconcile.Drain | data-loader/load_data.py:200-209 | with no failure every blob is loaded; a failure stops at a blob that is not counted as loaded |
| Reconcile.DrainKeepsUnique | data-loader/load_data.py:200-209 | draining with `load_file` keeps at most one record per symbol in both tables |
| Reconcile.DrainStep | data-loader/load_data.py:206-209 | after the blobs before it loaded, a blob either loads and the drain goes on, or fails and the whole drain ends with its outcome |
| Reconcile.DrainStopsAtFailure | data-loader/load_data.py:206-209 | a failing drain loads the blobs before the failure without error and then stops at the failing blob's outcome, its committed rows kept |
| Reconcile.DrainNext | data-loader/load_data.py:206-209 | one more blob is loaded on the tables the earlier blobs left |
| Reconcile.DrainFailureIsFinal | data-loader/load_data.py:206-209 | after a failure no later blob is loaded |
| Idempotence.RowStepComplete | data-loader/load_data.py:110-148 | with every column present a row never raises and does the record's insert, replace or skip |
| Idempotence.ApplyRowsComplete | data-loader/load_data.py:86-198 | with every column present the rows are the records' steps in order |
| Idempotence.IncompleteUnchanged | data-loader/load_data.py:86-198 | with a column missing, rows that all load change nothing |
| Idempotence.Projection | data-loader/load_data.py:86-198 | a symbol's records after the rows depend only on its records before and the rows with that symbol |
| Idempotence.ProjectionStep | data-loader/load_data.py:110-148 | one row seen from a single symbol |
| Idempotence.KeyFoldLast | data-loader/load_data.py:110-148 | after a symbol's rows its first record has the last row's fingerprint |
| Idempotence.KeyFoldReset | data-loader/load_data.py:110-148 | once two consecutive rows of a symbol differ in fingerprint, the result no longer depends on the table before |
| Idempotence.KeyFoldStable | data-loader/load_data.py:132-133 | rows that all match the stored fingerprint change nothing |
| Idempotence.KeyFoldIdempotent | data-loader/load_data.py:86-198 | a symbol's rows applied twice give what they give once |
| Idempotence.FoldIdempotentBySymbol | data-loader/load_data.py:86-198 | every symbol's records are the same after two passes as after one |
| Idempotence.FailedRowsUnchanged | data-loader/load_data.py:86-198 | rows that raise have changed nothing: every row before the one that raised was a skip |
| Idempotence.ApplyRowsTwice | data-loader/load_data.py:86-198 | applying the rows a second time raises what the first pass raised and leaves every symbol's records and the table as a multiset as the first pass left them |
| Idempotence.ReloadIdempotent | data-loader/load_data.py:59-209 | loading any blob a second time, including one whose first load raised and which `main` therefore did not delete, raises what the first load raised and leaves both tables, symbol by symbol and as multisets, as the first load left them |
| Idempotence.ReloadReorders | data-loader/load_data.py:110-131 | rows `a1`, `a2` of one symbol with different fingerprints, then `b` of another, leave `[a2, b]` in an empty table and `[b, a2]` when loaded again: a reload can change the order of the table |
| Idempotence.AllSkipped | data-loader/load_data.py:132-133 | rows that are all skips leave the table unchanged |
| Idempotence.DistinctSecondPassSkips | data-loader/load_data.py:86-198 | with distinct symbols, every row of the second pass is a skip against the table the first pass left |
| Idempotence.IncompleteReloadExact | data-loader/load_data.py:86-198 | with a column the constructor reads missing from the header, the rows leave the table exactly as it was, so a second load gives exactly the first load's table and error |
| Idempotence.DistinctReloadExact | data-loader/load_data.py:86-198 | with a complete header and distinct keys, the second load gives exactly the first load's table without error |
| ObjectStore.Removed | data-loader/load_data.py:209 | deleting a key keeps exactly the objects with other keys |
| ObjectStore.RemovedFirst | data-loader/load_data.py:206-209 | deleting the first object of a listing with distinct keys leaves the rest, in order |
| ObjectStore.Bucket.Delete | data-loader/load_data.py:209 | the bucket's objects become those with other keys |
| Loader.Store.Commit | data-loader/load_data.py:198 | the routed table becomes the staged one and the other table is unchanged |
| Loader.Store.ReconcileRow | data-loader/load_data.py:90-198 | the row's lookup, query, delete, add and commit change the store as `RowStep` says; a KeyError leaves the store as it was |
| Loader.Store.LoadFile | data-loader/load_data.py:59-198 | the loop over the rows leaves the store and returns the error exactly as `LoadBlob` says |
| Loader.DrainBucket | data-loader/load_data.py:200-209 | the store ends as `Drain` says; the loaded objects are gone from the bucket and the failing object and all later ones remain |
| Pipeline.UpcomingBlobRoutes | web-scraper/lambda_function.py:156 | an upcoming blob's name routes to the upcoming table |
| Pipeline.Last100BlobRoutes | web-scraper/lambda_function.py:183 | a last-100 blob's name routes to the completed table |
| Pipeline.HeaderLineSplits | data-loader/load_data.py:78 | the written header line splits on `,` back into the header texts |
| Pipeline.CollectorLines | data-loader/load_data.py:71 | the collector's CSV text splits into the header line and then one line per row |
| Pipeline.CollectorBlobParses | data-loader/load_data.py:71-90 | the loader reads back the cleaned header texts, and as data rows exactly the collector's rows, each with its own line as fingerprint text |
| Pipeline.UpcomingBlobLoads | data-loader/load_data.py:101-148 | loading an upcoming blob the collector wrote reconciles exactly its rows into the upcoming table and leaves the completed table alone; with every column present nothing raises |
| Pipeline.Last100BlobLoads | data-loader/load_data.py:151-195 | the same for a last-100 blob and the completed table |

## Left out

- HTTP fetching, BeautifulSoup and `get_headers` are not modelled. The jobs
  take the header texts and cell texts as lists.
- S3 itself is not modelled: `get_s3_bucket`, `upload_to_s3`, `file.get()`,
  UTF-8 encoding and decoding, and listing pages. The bucket is a list of
  objects in listing order, a snapshot taken when `main` starts.
- The SQLAlchemy engine is not modelled: the session, `create_all`,
  database-assigned ids, type coercion at commit, column length limits and
  collation. A record holds the row's texts; commits are direct updates of
  the two tables.
- SHA-256 is an uninterpreted function. Nothing assumes it is free of
  collisions.
- `float()` rounding, `strptime` calendar checks and `repr` of a float are
  parameters that may fail. `dollar2float` is modelled as the exact decimal
  value of the matched text, not an IEEE double.
- `str.lower()` is modelled on ASCII letters only.
- `csv` errors for NUL characters and oversize fields are not modelled.
- `lambda_handler`, the two API lambdas and environment configuration are
  not part of this model.
- The return statement of `main` raises NameError after draining, because
  `json` is not imported. It is not modelled, since it comes after every
  load and delete.
- Concurrent runs of the lambdas are not modelled.
- The header line is split on a plain `,`. A quoted header holding a comma
  does not read back as one name, so the collector-to-loader lemmas require
  header texts the writer leaves unquoted (`Pipeline.PlainHeaders`).
- `str.splitlines()` also breaks at "\x0b", "\x0c", "\x1c", "\x1d",
  "\x1e", "\x85", "\u2028" and "\u2029", which the writer does not quote. The round-trip
  lemmas therefore require cells free of line-break characters.
- A data row with zero cells is written as an empty line, which the
  reader skips. The round-trip lemmas require non-empty rows.
- Idempotence.ReloadIdempotent: states equality symbol by symbol and as
  multisets rather than exact equality. A reload of a blob that repeats a
  symbol can reorder the table (`Idempotence.ReloadReorders`). Exact
  equality is proved for distinct keys under a complete header
  (`Idempotence.DistinctReloadExact`) and for every incomplete header
  (`Idempotence.IncompleteReloadExact`).
- Reconcile.Drain: its own contract does not say that a failure keeps the
  tables of the blobs before it. That is stated by
  `Reconcile.DrainStopsAtFailure` and `Reconcile.DrainFailureIsFinal`.
  `Drain` takes the per-blob load as a parameter; the loader's drain is
  `Drain` with `LoadWith(hash)`, which is `load_file`.
