# excel_to_mysql in Dafny

A model of the decision logic of `excel_to_mysql`, a Python script that
loads every sheet of every Excel workbook in a directory into a MySQL
table. The model covers what the script decides, not how it talks to
pandas or MySQL:

- **Identifiers** (`identifiers.dfy`) covers `normalize_sheet_name` and
  `filename_to_base_table_name`. Both lower-case the name and replace every
  character outside `[a-zA-Z0-9]` with `_`. They then collapse runs of `_`
  and strip `_` from both ends. An empty result becomes `sheet`/`table`,
  and one starting with a digit gets a `sheet_`/`table_` prefix. The file
  name has its extension removed first, as `os.path.splitext` does on
  POSIX.
- **Frames** (`frames.dfy`) is the data model. A DataFrame is a header of
  (label, dtype string) pairs plus rows of optional cells. A missing cell
  stands for any pandas NA. The pandas behaviours the script relies on
  but the model does not re-implement are a `Lib` record of functions:
  date parsing, numeric coercion, a date's nanoseconds since the epoch,
  the dtype after coercion, `str()`, and the float64 nearest an integer.
- **Preprocess** (`preprocess.dfy`) covers `preprocess_dataframe`. An
  empty frame gives `None`. Each object column whose first ten non-missing
  values are more than half parseable dates is converted to datetime.
  The configured money columns are coerced to numbers. Rows that are
  entirely missing are dropped.
- **ColumnTypes** (`column_types.dfy`) covers `get_mysql_type` and the
  `columns_def` list of `CREATE TABLE`, including a parser that reads each
  definition back.
- **Sync** (`sync.dfy`) covers the per-sheet table name, the rows handed
  to `executemany` with missing values as `None` (after `df.values` has
  given the frame one common dtype), and the list of loads one workbook
  produces.

`wrappers.dfy` holds the `Option` type.

## What the code does not do

- The code has no key column or key validation.
- The code strips no currency symbols from money columns. It only calls
  `pd.to_numeric(errors="coerce")`.
- The code does not narrow integer-valued float columns.
- The code does not trim or de-duplicate headers.
- The code does not drop and recreate tables. It runs
  `CREATE TABLE IF NOT EXISTS` with a synthetic auto-increment `id` column.

## Model

| member | source | states |
|---|---|---|
| Identifiers.LowerChar | excel_to_mysql.py:50 | an upper-case ASCII letter becomes the lower-case letter at the same alphabet position; every other character is unchanged; no upper-case letter remains and the letter/digit classification is kept |
| Identifiers.Lower | excel_to_mysql.py:50 | same length, each character lower-cased in place |
| Identifiers.Sanitize | excel_to_mysql.py:52 | same length; each letter or digit is kept in place and every other character becomes `_` |
| Identifiers.Collapse | excel_to_mysql.py:54 | the output is no longer than the input |
| Identifiers.CollapseShape | excel_to_mysql.py:54 | no two adjacent `_` remain; the first and last characters are kept; the `[a-z0-9_]` alphabet is kept; a string without `__` is unchanged |
| Identifiers.CollapseRun | excel_to_mysql.py:54 | a non-empty run of `_` alone collapses to a single `_` |
| Identifiers.CollapseSplit | excel_to_mysql.py:54 | around any character other than `_`, collapsing works on each side separately and keeps that character in place |
| Identifiers.CollapseKeepsNonUnderscores | excel_to_mysql.py:54 | collapsing removes only underscores: the non-`_` characters are unchanged and in order |
| Identifiers.StripLeading | excel_to_mysql.py:56 | the result does not start with `_` |
| Identifiers.StripLeadingSuffix | excel_to_mysql.py:56 | the result of the leading strip is a suffix of the input and everything removed is `_` |
| Identifiers.StripTrailing | excel_to_mysql.py:56 | the result is a prefix of the input, everything removed is `_`, and the result does not end with `_` |
| Identifiers.Strip | excel_to_mysql.py:56 | no `_` is left at either end, and a string with no `_` at either end is returned unchanged |
| Identifiers.StripShape | excel_to_mysql.py:56 | stripping keeps the `[a-z0-9_]` alphabet and the absence of `__` |
| Identifiers.SanitizeKeepsAlnum | excel_to_mysql.py:52 | after substitution the non-`_` characters are exactly the letters and digits of the input, in order |
| Identifiers.LowerCommutesWithKeepAlnum | excel_to_mysql.py:50-52 | lower-casing then keeping letters and digits equals keeping them then lower-casing |
| Identifiers.Clean | excel_to_mysql.py:50-56 | the cleaned name uses only `[a-z0-9_]`, has no `__`, and has no `_` at either end |
| Identifiers.CleanKeepsLettersAndDigits | excel_to_mysql.py:50-56 | removing the `_` separators from the cleaned name gives the input's ASCII letters and digits, lower-cased and in order |
| Identifiers.CleanSeparatesWords | excel_to_mysql.py:50-56 | two runs of letters and digits around a non-empty run of other characters clean to the two runs, lower-cased, joined by exactly one `_` |
| Identifiers.CleanFirstChar | excel_to_mysql.py:50-58 | the cleaned name is empty exactly when the input has no letter or digit; otherwise it starts with the lower-cased first one |
| Identifiers.CleanFixpoint | excel_to_mysql.py:50-56 | a string already in cleaned form passes through unchanged |
| Identifiers.WithFallback | excel_to_mysql.py:58-59 | the fallback turns any cleaned name into a valid identifier when the prefix is one, and leaves a valid identifier alone |
| Identifiers.NormalizeSheetName | excel_to_mysql.py:47-60 | every result is a valid table name: non-empty, `[a-z0-9_]` only, no leading digit, no `__`, no `_` at either end |
| Identifiers.NormalizeSheetNameCases | excel_to_mysql.py:58-59 | the result is `sheet` when the name has no letter or digit, `sheet_` plus the cleaned name when its first letter-or-digit is a digit, and the cleaned name otherwise |
| Identifiers.NormalizeSheetNameExample | excel_to_mysql.py:47-60 | "My Sheet" normalises to "my_sheet" |
| Identifiers.NormalizeSheetNameFixpoints | excel_to_mysql.py:47-60 | a name is left unchanged if and only if it is already a valid identifier |
| Identifiers.NormalizeSheetNameIdempotent | excel_to_mysql.py:47-60 | normalising twice gives the same name as normalising once |
| Identifiers.RFind | excel_to_mysql.py:64 | the last occurrence of a character, or -1 when there is none |
| Identifiers.RFindAppend | excel_to_mysql.py:64 | appending text without the character does not move its last occurrence |
| Identifiers.SplitExt | excel_to_mysql.py:64 | root and extension concatenate to the path; the extension is empty or one `.` followed by neither `.` nor `/`; it is non-empty exactly when the last `.` lies after the last `/` with a non-`.` character between them, and then it is everything from that `.` on |
| Identifiers.SplitExtRemovesExtension | excel_to_mysql.py:64 | a root whose last path component has a character other than `.`, followed by a `.`-extension with no further `.` or `/`, splits back into exactly that root and extension |
| Identifiers.FilenameToBaseTableName | excel_to_mysql.py:62-69 | every result is a valid table name |
| Identifiers.FilenameToBaseTableNameCases | excel_to_mysql.py:64-68 | in terms of the root without extension: `table`, `table_` plus the cleaned root, or the cleaned root, by the same three cases as sheet names |
| Identifiers.FilenameToBaseTableNameFixpoints | excel_to_mysql.py:62-69 | a file name is left unchanged if and only if it is a valid identifier (identifiers have no `.`, so no extension) |
| Identifiers.FilenameToBaseTableNameIdempotent | excel_to_mysql.py:62-69 | applying the function to its own result changes nothing |
| Preprocess.DateSample | excel_to_mysql.py:84 | the sample is the first ten non-missing values of the column, or all of them when there are fewer |
| Preprocess.LooksLikeDates | excel_to_mysql.py:84-90 | a column that looks like dates has a non-missing value, and more than half of its sample parses |
| Preprocess.LooksLikeDatesIsStrictMajority | excel_to_mysql.py:84-90 | a column is converted exactly when its sample is non-empty and more than half of it parses; an all-missing column never converts |
| Preprocess.DateSampleIgnoresTail | excel_to_mysql.py:84 | once a column has ten non-missing values, later cells cannot change the sample or the decision |
| Preprocess.ConvertDateColumns | excel_to_mysql.py:83-94 | the date step keeps the frame well-formed, its column labels and its number of rows |
| Preprocess.ConvertDateColumnsCell | excel_to_mysql.py:83-91 | an unconverted column keeps its cells and dtype; a converted column gets a datetime dtype, each parsable value becomes its date and everything else becomes missing |
| Preprocess.DetectDateColumns | excel_to_mysql.py:83-94 | visiting the columns in place, one after another, gives the same frame as deciding every column on the original data |
| Preprocess.CoerceCell | excel_to_mysql.py:99 | in a datetime column a date becomes its nanoseconds since the epoch and a missing cell becomes the integer -2^63; in any other column a cell is missing after coercion exactly when it was missing or its value does not convert |
| Preprocess.NumericCell | excel_to_mysql.py:99 | a coerced cell is missing exactly when `to_numeric` gives nothing for it; a missing cell stays missing unless its column was datetime, where it becomes -2^63 (as a float in a float64 column); in a float64 column no integer remains; otherwise the cell is the value `to_numeric` gives |
| Preprocess.CoerceColumn | excel_to_mysql.py:99 | the coerced column gets the dtype of its coerced values as a whole, a float64 column holds no integer, and the labels and row count are kept |
| Preprocess.CoerceColumnCell | excel_to_mysql.py:99 | each cell of the coerced column becomes its `to_numeric` value in the column's new dtype; the other columns and their dtypes are untouched |
| Preprocess.CoerceColumnStoresIntegersAsFloats | excel_to_mysql.py:99 | in a money column that becomes float64, a cell coerced to an integer is held as the float nearest it |
| Preprocess.CoerceMoneyColumns | excel_to_mysql.py:97-100 | the money step keeps the frame well-formed, its column labels and its number of rows |
| Preprocess.CoerceMoneyLeavesOthers | excel_to_mysql.py:97-100 | columns not named as money columns keep their cells and dtype; a missing cell stays missing in every column that is not datetime (given that pandas never gives a coerced column a datetime dtype) |
| Preprocess.CoerceMoneyCoercesOnce | excel_to_mysql.py:97-100 | with distinct money labels, each money column is coerced exactly once: it gets the dtype of its coerced values and each cell its coerced value in that dtype |
| Preprocess.DropAllNullRows | excel_to_mysql.py:103 | no kept row is entirely missing, every kept row comes from the input, and there are no more rows than before |
| Preprocess.DropAllNullRowsRemovesExactlyEmpty | excel_to_mysql.py:103 | every row with a value survives, and the number of rows removed is the number of all-missing rows |
| Preprocess.DropAllNullRowsAppend | excel_to_mysql.py:103 | dropping commutes with concatenation, so surviving rows keep their order |
| Preprocess.DropAllNullRowsFixpoints | excel_to_mysql.py:103 | the rows are left unchanged if and only if none is entirely missing |
| Preprocess.DropAllNullRowsIdempotent | excel_to_mysql.py:103 | dropping twice gives the same rows as dropping once |
| Preprocess.PreprocessDataframe | excel_to_mysql.py:71-105 | `None` if and only if the frame has no rows or no columns; otherwise a well-formed frame with the same column labels, no more rows, and no all-missing row |
| Preprocess.RetypeKeepsAllNull | excel_to_mysql.py:83-103 | when no money column is datetime after the date step, a row missing everywhere is still missing everywhere after the date and money steps, so it is dropped |
| Preprocess.RetypeKeepsMissingDateInMoneyColumn | excel_to_mysql.py:83-103 | a missing date in a money column becomes -2^63 (or its float) after the money step, so its row survives preprocessing even when every other cell is missing |
| Preprocess.PreprocessKeepsRowWithPlainValue | excel_to_mysql.py:78-105 | a row holding a value in a column that is neither a date nor a money column survives preprocessing |
| ColumnTypes.MaxOf | excel_to_mysql.py:127 | the result bounds every element and is one of them |
| ColumnTypes.ObjectType | excel_to_mysql.py:125-132 | an object column is VARCHAR exactly when it has rows and every value renders in at most 200 characters, with a width of 50 plus the longest rendered value; otherwise it is TEXT |
| ColumnTypes.GetMysqlType | excel_to_mysql.py:107-135 | each type is characterised by the inputs: DECIMAL exactly for money labels, then DATE for `datetime*`, BIGINT for `int64`/`Int64`, DOUBLE for `float64`, BOOLEAN for `bool`; VARCHAR exactly for a non-empty object column whose values all render in at most 200 characters, with a width of 50 plus the longest rendered value |
| ColumnTypes.TypeName | excel_to_mysql.py:112-135 | a type is VARCHAR exactly when its name has the form `VARCHAR(` digits `)`, and the digits are the decimal width |
| ColumnTypes.ParseNatToString | excel_to_mysql.py:130 | the decimal width printed in `VARCHAR(n)` reads back as `n` |
| ColumnTypes.TypeNameRoundTrip | excel_to_mysql.py:112-135 | every type name written into the statement reads back as the same type |
| ColumnTypes.FindChar | excel_to_mysql.py:143 | the first occurrence of a character, or none when it does not occur |
| ColumnTypes.ColumnDefRoundTrip | excel_to_mysql.py:143 | a column definition whose label has no backtick reads back as exactly that label and type |
| ColumnTypes.ColumnDefs | excel_to_mysql.py:139-144 | one definition per column plus one, the first being the `id` primary key |
| ColumnTypes.ColumnDefsReadBack | excel_to_mysql.py:139-144 | entry `j + 1` reads back as column `j`'s label and its inferred type |
| Sync.FinalTableName | excel_to_mysql.py:240-246 | the table name starts with the base name, and is a valid identifier whenever the base name is |
| Sync.SheetTablesCanCollide | excel_to_mysql.py:243-246 | sheets "Q1 Sales" and "Q1-Sales" of one workbook go to the same table |
| Sync.ExportRow | excel_to_mysql.py:181 | one parameter per cell, NULL exactly where the cell is missing, and the cell's value elsewhere |
| Sync.ExportRowRoundTrip | excel_to_mysql.py:181-182 | the tuple built from a row of `df.values` reads back as that row |
| Frames.AsFloat | excel_to_mysql.py:180 | a cell held in float64 is missing exactly when it was; an integer becomes the float nearest it and every other value is kept |
| Sync.UpcastsToFloat | excel_to_mysql.py:180 | the frames `df.values` turns into a float64 array: every column int64 or float64, at least one float64 |
| Sync.Values | excel_to_mysql.py:180 | `df.values` keeps the shape and the missing cells; with the float64 upcast each cell is the frame's cell held as a float64, without it each cell is the frame's own |
| Sync.ExportRows | excel_to_mysql.py:179-182 | one tuple per row, one entry per column, NULL exactly where the frame's cell is missing |
| Sync.ExportRowsReadBack | excel_to_mysql.py:179-182 | the tuples read back as the frame's rows unless every column is int64 or float64 with at least one float64; then integer cells read back as floats and every other cell as itself |
| Sync.MixedFrameSendsIntegersAsFloats | excel_to_mysql.py:180 | in a frame with an int64 and a float64 column the integer 3 is sent as a float, not as an integer |
| Sync.Placeholders | excel_to_mysql.py:175 | `n` copies of `%s` separated by commas: empty for no columns, otherwise `3n - 1` characters cycling through `%`, `s`, `,` |
| Sync.PlaceholdersCount | excel_to_mysql.py:175 | the placeholder list holds exactly one `%` per column |
| Sync.LoadOf | excel_to_mysql.py:171-182 | the load of a preprocessed frame is well-shaped, lists the frame's columns in order, has one tuple per row and NULL exactly where a cell is missing |
| Sync.SheetLoad | excel_to_mysql.py:224-248 | a sheet produces a load exactly when it was read, was not empty, and keeps at least one row after preprocessing; that load is well-shaped and goes to the sheet's table |
| Sync.SheetAttempts | excel_to_mysql.py:224-249 | entry `i` is sheet `i`'s own load, and each load is well-shaped and named by its sheet |
| Sync.Somes | excel_to_mysql.py:224-249 | the present values: each one is kept, nothing else is added, and nothing is dropped exactly when every value is present |
| Sync.SomesAppend | excel_to_mysql.py:224-249 | collecting the loads of two runs of sheets gives the first run's loads followed by the second's |
| Sync.SomesOrder | excel_to_mysql.py:224-249 | of two present values, the earlier one comes first |
| Sync.LoadsComeFromSheets | excel_to_mysql.py:224-249 | every load comes from a sheet of the workbook, and every sheet that produces a load is among the loads |
| Sync.SyncWorkbook | excel_to_mysql.py:201-255 | no more loads than sheets, each well-shaped and to a valid identifier derived from the file and sheet name; every sheet that produces a load is among the loads, and every load is some sheet's load |
| Sync.SyncWorkbookOrder | excel_to_mysql.py:224-249 | the loads follow the order of the sheets |
| Sync.SyncWorkbookTableNames | excel_to_mysql.py:240-246 | with one sheet every load goes to the file's base name; otherwise each goes to the base name, `_`, and the normalised sheet name |

## Left out

- File discovery, logging, the database connection, the `DELETE` of the `replace` mode, commits and rollbacks are I/O and are not modelled. The configured mode is `upsert`, so that `DELETE` never runs.
- `batch_sync_all_excels`, the scheduler and main.py are drivers around the modelled functions. main.py imports a name the module does not define.
- Date parsing, numeric coercion, a date's nanoseconds since the epoch, the dtype pandas infers after coercion, `str()` of a non-text value and the float64 nearest an integer are parameters (`Lib`), not re-implemented.
- `pd.read_excel` is a parameter too: each sheet arrives as a frame, or as `None` where reading raised.
- `try`/`except` around the date conversion is not modelled. With `errors="coerce"` the conversion does not raise on unparsable values.
- Frames.WellFormed: column labels are distinct, because `pd.read_excel` renames repeated headers.
- Identifiers.LowerChar: lower-cases ASCII only. Python's `str.lower` also maps some non-ASCII letters to ASCII ones (the Kelvin sign to `k`, `İ` to `i` plus a combining dot), so for such names the model keeps one fewer letter.
- Frames.Value: floats are real numbers, with no IEEE rounding or NaN payloads.
- ColumnTypes.RenderedLength: a missing cell renders as `nan` (three characters), which is what `astype(str)` gives for the NaN `read_excel` produces. A Python `None` in an object column would render as `None`.
- ColumnTypes.CreateTableSql: the statement text is built but has no property of its own; its column list is covered by `ColumnDefs`.
- Preprocess.CoercedDtype: which dtype pandas gives a coerced column is the `numericDtype` parameter. The model applies the consequence the loader depends on: in a float64 column every integer is held as a float. Other dtypes pandas might pick (nullable or unsigned integers) keep the coerced values as they are.
- Preprocess.CoerceCell: `to_numeric` reads a timedelta64 column as int64 too. The model coerces such a column value by value, because `read_excel` does not produce one.
- Preprocess.CoercesToNumbers: that pandas never gives a coerced column a datetime dtype is a hypothesis on the `numericDtype` parameter. `CoerceMoneyLeavesOthers` and `RetypeKeepsAllNull` use it.
- Sync.Values: only the int64/float64 upcast of `df.values` changes values in the model. Other common dtypes keep each value as it is: an object array holds the original objects, and a datetime64 array holds the same instants in numpy's own type. Which integers lose digits in the upcast (those beyond 2^53 in magnitude) is up to the `intToFloat` parameter.
- Sync.SyncWorkbook: the success counter is the number of loads. Whether MySQL accepts each load is not modelled.

## Observations

These are observations about the code as written. None is claimed as a
bug:

- `max_len = 255` in `get_mysql_type` never runs. For an empty object
  column, `max()` is NaN, `int(NaN)` raises, and the `except` returns TEXT
  (`ColumnTypes.ObjectType`).
- A VARCHAR width is `min(max_len + 50, 255)`, and the 255 cap never binds. A VARCHAR column has a longest value of at most
  200 characters, so its width is at most 250 (`ColumnTypes.GetMysqlType`).
- Distinct sheet names can share a table (`Sync.SheetTablesCanCollide`).
- A money column that is datetime (parsed as dates by the date step, or
  read as dates) is coerced by reading it as int64. A missing date becomes
  -2^63, which is sent to MySQL instead of NULL, and a row that is empty
  apart from it is kept (`Preprocess.RetypeKeepsMissingDateInMoneyColumn`).
- `df.values` gives a frame of int64 and float64 columns one float64
  dtype, so the integers of such a frame reach MySQL as floats: 3 is sent
  as 3.0, and integers beyond 2^53 lose digits
  (`Sync.MixedFrameSendsIntegersAsFloats`).
- A column labelled `id` would clash with the synthetic primary key in
  `CREATE TABLE`.
