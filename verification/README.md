# COZI scrape: the air-quality processing pipeline, in Dafny

The COZI scraper downloads air-quality logging files and turns them into one
long CSV for plotting. Between the download and the write sits a small pure
pipeline, and that pipeline is what this project models and proves things
about:

1. **Excel serial date to timestamp** (`convert_excel_time`). A day count since
   1899-12-30 00:00:00, fraction = time of day, becomes a timestamp rounded to
   the nearest whole second. Day counts are exact `real`s; timestamps are whole
   seconds since the same epoch (`ExcelTime`).
2. **Loading one file** (`load_file` after the CSV parser). The parser is
   opaque: its outcome (`Parsed(table)`, `EmptyData`, `ParserError`) is an
   input. The loader keeps exactly the raw columns that are keys of the field
   map (the parser's `usecols`, which fails when the header lacks a key),
   renames each one to its canonical label, and converts the `timestamp`
   column (`Loader`).
3. **Aggregation with skip** (the loop in `main`). Files whose load returns
   `None` are passed over. The loaded tables are concatenated, or the run
   stops without output when none loaded (`Aggregate`, `Scrape`).
4. **Wide to long** (`wide_to_long`, a pandas melt). Each (row, measurement
   column) cell becomes one `(timestamp, measurand, value)` record (`Melt`).

A table (`Tables`) is an ordered list of column labels and a sequence of
rows. Each row maps every column label to a cell, and `None` is pandas'
missing value (NaN / NaT). The order of the columns is kept because the melt
emits records column by column.

Where the code and its documentation disagree, the model follows the code:

- The timestamp is rounded to the second (`"S"`), not to the minute that the
  docstring of `convert_excel_time` mentions.
- `run_scrape.py` drops no rows, filters no values, does not resample and
  quarantines nothing: every loaded row reaches the long output, and the
  model promises exactly that.

Exceptions that `load_file` does not catch end the run. They come after its
`try`: a `KeyError` when no column is called `timestamp` after renaming, or a
conversion error on a timestamp cell that is not a number. The model gives
them as a third load outcome, `Fatal`, and as the run outcome `Crashed`.

## Model

| member | source | states |
|---|---|---|
| ExcelTime.RoundHalfEven | run_scrape.py:149 | The rounded value is an integer within half a unit of its input; an exact tie goes to the even neighbour. |
| ExcelTime.RoundIsNearest | run_scrape.py:149 | No integer lies closer to the input than its rounding does. |
| ExcelTime.ConvertExcelTime | run_scrape.py:148-149 | The converted timestamp is a whole number of seconds within half a second of the exact instant `days × 86400` after the epoch. |
| ExcelTime.ExcelDays | run_scrape.py:143 | The inverse conversion: the day count of a timestamp, which times 86400 gives back its seconds. |
| ExcelTime.EpochIsDayZero | run_scrape.py:148 | Day count 0 converts to exactly 1899-12-30 00:00:00, the epoch. |
| ExcelTime.WholeDaysAreMidnight | run_scrape.py:143-148 | A whole day count n converts to midnight of day n, i.e. n × 86400 seconds. |
| ExcelTime.TimestampRoundTrip | run_scrape.py:148-149 | Converting a timestamp to its day count and back gives the same timestamp. |
| ExcelTime.DaysRoundTrip | run_scrape.py:148-149 | Converting a day count to a timestamp and back is off by at most half a second (1/172800 day). |
| ExcelTime.RoundMonotone | run_scrape.py:149 | Rounding to the second never reverses the order of two instants. |
| ExcelTime.ConvertMonotone | run_scrape.py:148-149 | A larger day count never gives an earlier timestamp. |
| Tables.KeepIn | run_scrape.py:240 | The selected labels are exactly the file's labels that are keys, without repeats, and any two of them appear in the same order as in the file. |
| Loader.UseColumns | run_scrape.py:240 | Column selection fails exactly when the header lacks a key. Otherwise the table has exactly the key columns, one per key and in header order, the same rows, and unchanged cells. |
| Loader.Rename | run_scrape.py:249 | Every column keeps its position and takes its canonical label: column j becomes the field map's label for old column j. Labels stay unique, the column set is the image of the old one, and every cell sits under the new label of its old column. |
| Loader.ConvertCell | run_scrape.py:251 | A missing timestamp stays missing. A numeric day count becomes a timestamp within half a second of it. |
| Loader.ConvertTimestampColumn | run_scrape.py:251 | Fails exactly when there is no `timestamp` column or one of its cells is not a number. Otherwise every timestamp cell is converted and every other cell is unchanged. |
| Loader.ProjectOutcome | run_scrape.py:240-253 | For a header holding every key: fatal exactly when no key maps to `timestamp`, or when a raw timestamp cell is not numeric. Otherwise the result has the map's values as columns, one per entry, and one row per raw row. |
| Loader.ProjectCells | run_scrape.py:240-253 | In a loaded projection every measurement cell equals its raw cell, and every timestamp cell is the conversion of its raw day count. |
| Loader.LoadFile | run_scrape.py:234-253 | The result is an empty-input skip exactly when the parser found no data. A parser error or a missing key gives a malformed skip. The two fatal cases are exactly as in `ProjectOutcome`. A loaded table has the canonical columns, `timestamp` among them, one per field-map entry, and one row per raw row. |
| Loader.LoadFileSucceeds | run_scrape.py:234-253 | A file loads exactly when it parsed, its header has every key, some key is renamed to `timestamp`, and every cell of that column is a number or missing. |
| Loader.LoadFileColumnOrder | run_scrape.py:240-251 | A loaded table keeps the file's column order: if one selected raw column comes before another in the file, its canonical label comes before the other's in the loaded table. |
| Loader.LoadFileCells | run_scrape.py:240-251 | Every cell of a loaded table comes from its raw cell: a measurement unchanged, a timestamp through the Excel conversion, a missing value kept missing. |
| Aggregate.Successes | run_scrape.py:74-80 | The kept tables are exactly the loaded ones: a table is kept iff it is a loaded outcome, and there are as many as loaded outcomes. |
| Aggregate.FirstFatalIndex | run_scrape.py:75-76 | The position where the loop is cut short is the first fatal outcome: nothing before it is fatal. |
| Aggregate.FirstFatalNone | run_scrape.py:75-76 | There is a fatal reason exactly when some outcome is fatal. |
| Aggregate.NothingLoaded | run_scrape.py:83 | No table is kept exactly when no file loaded. |
| Aggregate.SuccessesAppend | run_scrape.py:74-80 | Kept tables of two runs of files in a row are the first run's, then the second's, so enumeration order is kept. |
| Aggregate.SkippedIsInvisible | run_scrape.py:77-78 | An outcome that is not a loaded table adds no table wherever it stands. |
| Aggregate.SkippedFileIsDropped | run_scrape.py:75-80 | Removing a skipped file from the directory changes neither the kept tables nor the run's failure. |
| Aggregate.Append | run_scrape.py:88 | Concatenating two tables gives columns = the union, the first table's order first, and the rows of both in order, each padded with missing cells. |
| Aggregate.Concat | run_scrape.py:88 | The combined table is well formed, its columns are the union of all columns, led by the first table's, and it has as many rows as all tables together. |
| Aggregate.ConcatUniform | run_scrape.py:88 | When all tables share one column set, the combined table has the first table's columns, and its rows are all input rows unchanged, in order. |
| Melt.Measurands | run_scrape.py:271 | The measurement columns are all columns but `timestamp`, without repeats and in the table's column order; with a `timestamp` column there is one fewer than columns. |
| Melt.MeltColumns | run_scrape.py:271 | The melt of k columns of an n-row table has n × k records. |
| Melt.WideToLong | run_scrape.py:265-273 | The long output has exactly rows × (columns − 1) records. |
| Melt.MeltColumnsAt | run_scrape.py:271 | Record j·n + i of the blocks is row i of the j-th melted column. |
| Melt.MeltColumnsSound | run_scrape.py:271 | Every record of the blocks is some row's cell under one of the melted columns. |
| Melt.WideToLongAt | run_scrape.py:271 | Record j·n + i of the output is (timestamp of row i, j-th measurement column, that row's cell), a missing cell kept missing. |
| Melt.WideToLongSound | run_scrape.py:271 | Each record holds a real column other than `timestamp`, with a row's timestamp and that row's value in that column. |
| Melt.WideToLongComplete | run_scrape.py:271 | Every cell of every measurement column appears as a record. |
| Melt.TimestampsKept | run_scrape.py:271 | With at least one measurement column, every input timestamp appears in the output. |
| Scrape.CollectLoads | run_scrape.py:74-80 | The loop stops on the first fatal load with its reason. Otherwise it collects exactly the loaded tables, in enumeration order. |
| Scrape.FatalStops | run_scrape.py:75-76 | A fatal load after a fatal-free prefix is the run's first fatal load. |
| Scrape.ProcessFiles | run_scrape.py:72-89 | The run crashes exactly when some load is fatal, and it writes nothing exactly when no file loads. Otherwise the output is the melt of all loaded rows under the first table's columns, with rows × (field-map entries − 1) records. |
| Scrape.LoadedTablesAgree | run_scrape.py:234-237 | Every kept table is well formed, with the map's values as columns, `timestamp` among them, one per entry. |
| Scrape.CombinedIsMeltable | run_scrape.py:88-89 | The combined table is the loaded rows under the first table's columns; it has a `timestamp` column, and its melt has rows × (entries − 1) records. |

## Left out

- Google Drive authentication, file listing and download (`auth_google_api`, `download_file`, `main` lines 32-70): network I/O through a foreign API. The downloaded files enter the model as the parser's outcomes, in directory-listing order (a parameter).
- The temporary directory and `cleanup`, `parse_args`, loading the field map from JSON, and `to_csv` (lines 27-57, 91-133): filesystem and command-line plumbing. The field map is a given map, and the run ends with the long table that would be written.
- The internals of `pd.read_csv`: it is an opaque parser that yields a rectangular table with unique header labels and only numbers, text or missing cells, or an empty-data or parser error.
- Loader.LoadFile: requires an injective field map. If two raw labels map to one canonical label, pandas keeps two columns with the same label; the model does not represent duplicate labels.
- ExcelTime.ConvertExcelTime: uses exact reals instead of float days and the nanosecond integers of `to_timedelta`. It does not model pandas' out-of-range error for timestamps outside 1677-2262.
- Melt.WideToLong: does not model pandas rejecting a measurement column that is itself called `value` (the melt's value name).
- Printed log messages and the `set_index` call. The index only decides that `timestamp` is the first column written, which the record's field order already shows.
