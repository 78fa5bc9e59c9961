/**
 * The data model: a pandas DataFrame as the loader sees it after
 * `pd.read_excel`, and the pandas behaviours the model takes as given.
 */
module Frames {
  import opened Wrappers

  /** A calendar date produced by parsing with the configured date format. */
  datatype Date = Date(year: int, month: int, day: int)

  /** A non-missing cell value. `Float` uses `real`: the model does not
      follow IEEE rounding. */
  datatype Value =
    | Text(s: string)
    | Int(i: int)
    | Float(x: real)
    | Bool(b: bool)
    | Timestamp(d: Date)

  /** A cell; `None` stands for every pandas missing value (`None`, `NaN`,
      `NaT`), which is what `pd.isna` and `dropna` treat alike. */
  type Cell = Option<Value>

  type Row = seq<Cell>

  /** A column label and the string form of its pandas dtype
      (`str(series.dtype)`, e.g. "object", "int64", "datetime64[ns]"). */
  datatype ColumnInfo = ColumnInfo(name: string, dtype: string)

  /** A DataFrame stored row by row. */
  datatype Frame = Frame(header: seq<ColumnInfo>, rows: seq<Row>)

  /** Every row has one cell per column, and column labels are distinct
      (`pd.read_excel` renames repeated headers, so a frame never holds
      two columns with one label). */
  predicate WellFormed(f: Frame) {
    && (forall i :: 0 <= i < |f.rows| ==> |f.rows[i]| == |f.header|)
    && (forall j, k :: 0 <= j < k < |f.header| ==> f.header[j].name != f.header[k].name)
  }

  /** `DataFrame.empty`: no rows or no columns. */
  predicate IsEmpty(f: Frame) {
    |f.rows| == 0 || |f.header| == 0
  }

  /** `df.columns`, as a list of labels. */
  function Names(header: seq<ColumnInfo>): (r: seq<string>)
    ensures |r| == |header|
    ensures forall j :: 0 <= j < |header| ==> r[j] == header[j].name
  {
    seq(|header|, j requires 0 <= j < |header| => header[j].name)
  }

  /** `df[col]` as a sequence of cells, for the column at index `j`. */
  function Column(rows: seq<Row>, j: nat): (r: seq<Cell>)
    requires forall i :: 0 <= i < |rows| ==> j < |rows[i]|
    ensures |r| == |rows|
    ensures forall i :: 0 <= i < |rows| ==> r[i] == rows[i][j]
  {
    seq(|rows|, i requires 0 <= i < |rows| => rows[i][j])
  }

  // The dtype strings the loader tests for.
  const Int64Dtype := "int64"
  const NullableInt64Dtype := "Int64"
  const Float64Dtype := "float64"
  const BoolDtype := "bool"
  const ObjectDtype := "object"

  /** The dtype `pd.to_datetime` gives a converted column. */
  const DatetimeDtype := "datetime64[ns]"

  /** A datetime dtype, with or without a time zone: `str(dtype)` starts
      with "datetime". */
  predicate IsDatetimeDtype(dtype: string) {
    "datetime" <= dtype
  }

  /** The int64 pandas stores for `NaT` (`iNaT`, -2^63). */
  const NaTAsInteger: int := -0x8000_0000_0000_0000

  /** One cell of a float64 column or array: an integer is stored as the
      nearest float, every other cell is kept. */
  function AsFloat(c: Cell, intToFloat: int -> real): (d: Cell)
    ensures d.None? <==> c.None?
    ensures d.Some? ==> !d.value.Int?
    ensures c.Some? && !c.value.Int? ==> d == c
    ensures c.Some? && c.value.Int? ==> d == Some(Float(intToFloat(c.value.i)))
  {
    match c
    case Some(Int(i)) => Some(Float(intToFloat(i)))
    case _ => c
  }

  /** The library behaviours the loader relies on but the model does not
      re-implement:
      - `parseDate`: `pd.to_datetime(v, format=DATE_FORMAT, errors="coerce")`
        on one value, `None` where pandas yields `NaT`;
      - `toNumeric`: `pd.to_numeric(v, errors="coerce")` on one value,
        `None` where pandas yields `NaN`;
      - `epochNanos`: the int64 a datetime64 column holds for a date,
        its nanoseconds since the epoch;
      - `numericDtype`: the dtype pandas gives a column coerced that way;
      - `render`: `str(v)` for a value that is not text, as used by
        `Series.astype(str)`;
      - `intToFloat`: the float64 nearest an integer, which pandas stores
        for an integer in a float64 column or array (exact up to 2^53 in
        magnitude, rounded beyond). */
  datatype Lib = Lib(
    parseDate: Value -> Option<Date>,
    toNumeric: Value -> Option<Value>,
    epochNanos: Date -> int,
    numericDtype: seq<Cell> -> string,
    render: Value -> string,
    intToFloat: int -> real)
}
