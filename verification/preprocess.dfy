/**
 * `preprocess_dataframe` (excel_to_mysql.py:71-105): reject an empty frame,
 * convert object columns that look like dates, coerce money columns to
 * numbers, and drop the rows that are entirely missing.
 */
module Preprocess {
  import opened Wrappers
  import opened Frames

  /** How many non-missing values the date heuristic samples (`head(10)`). */
  const SampleSize: nat := 10

  // ---------------------------------------------------------------------
  // Date heuristic
  // ---------------------------------------------------------------------

  /** `series.dropna()`: the non-missing values, in order. */
  function NonNull(cells: seq<Cell>): (r: seq<Value>)
    ensures |r| <= |cells|
  {
    if |cells| == 0 then []
    else if cells[0].None? then NonNull(cells[1..])
    else [cells[0].value] + NonNull(cells[1..])
  }

  /** `series.dropna().head(10)`. */
  function DateSample(cells: seq<Cell>): (r: seq<Value>)
    ensures |r| <= SampleSize
    ensures r <= NonNull(cells)
    ensures |r| == SampleSize || r == NonNull(cells)
  {
    var values := NonNull(cells);
    if |values| <= SampleSize then values else values[..SampleSize]
  }

  /** How many values of the sample parse as dates. */
  function CountParsed(sample: seq<Value>, parseDate: Value -> Option<Date>): (n: nat)
    ensures n <= |sample|
  {
    if |sample| == 0 then 0
    else (if parseDate(sample[0]).Some? then 1 else 0) + CountParsed(sample[1..], parseDate)
  }

  /** The column is skipped when it has no non-missing value; otherwise it
      is converted when `parsed.notna().mean() > 0.5` on the sample, that
      is, when more than half of the sample parses. */
  predicate LooksLikeDates(cells: seq<Cell>, parseDate: Value -> Option<Date>)
    ensures LooksLikeDates(cells, parseDate) ==>
              && NonNull(cells) != []
              && 2 * CountParsed(DateSample(cells), parseDate) > |DateSample(cells)|
  {
    var sample := DateSample(cells);
    if |sample| == 0 then false
    else
      MeanAboveHalf(CountParsed(sample, parseDate), |sample|);
      (CountParsed(sample, parseDate) as real) / (|sample| as real) > 0.5
  }

  /** `pd.to_datetime(..., errors="coerce")` on one cell. */
  function ToDatetime(c: Cell, parseDate: Value -> Option<Date>): Cell {
    match c
    case None => None
    case Some(v) =>
      match parseDate(v)
      case None => None
      case Some(d) => Some(Timestamp(d))
  }

  /** `pd.to_numeric(..., errors="coerce")` on one cell of a column that is
      converted value by value. */
  function ToNumeric(c: Cell, toNumeric: Value -> Option<Value>): Cell {
    match c
    case None => None
    case Some(v) => toNumeric(v)
  }

  /** Applies `g` to every cell of the selected columns and leaves the other
      cells alone. */
  function MapSelected(rows: seq<Row>, selected: seq<bool>, g: Cell -> Cell): (r: seq<Row>)
    ensures |r| == |rows|
    ensures forall i :: 0 <= i < |rows| ==> |r[i]| == |rows[i]|
    ensures forall i, j :: 0 <= i < |rows| && 0 <= j < |rows[i]| ==>
              r[i][j] == if j < |selected| && selected[j] then g(rows[i][j]) else rows[i][j]
  {
    seq(|rows|, i requires 0 <= i < |rows| =>
      seq(|rows[i]|, j requires 0 <= j < |rows[i]| =>
        if j < |selected| && selected[j] then g(rows[i][j]) else rows[i][j]))
  }

  /** The columns the date loop converts: object columns that look like dates. */
  function DateColumns(f: Frame, parseDate: Value -> Option<Date>): (sel: seq<bool>)
    requires WellFormed(f)
    ensures |sel| == |f.header|
    ensures forall j :: 0 <= j < |f.header| ==>
              (sel[j] <==> f.header[j].dtype == ObjectDtype && LooksLikeDates(Column(f.rows, j), parseDate))
  {
    seq(|f.header|, j requires 0 <= j < |f.header| =>
      f.header[j].dtype == ObjectDtype && LooksLikeDates(Column(f.rows, j), parseDate))
  }

  /** The header after the date loop: converted columns become datetime. */
  function DateHeader(header: seq<ColumnInfo>, sel: seq<bool>): (h: seq<ColumnInfo>)
    requires |sel| == |header|
    ensures Names(h) == Names(header)
  {
    seq(|header|, j requires 0 <= j < |header| =>
      if sel[j] then ColumnInfo(header[j].name, DatetimeDtype) else header[j])
  }

  /** The date-conversion loop of excel_to_mysql.py:83-94, as one step. */
  function ConvertDateColumns(f: Frame, lib: Lib): (g: Frame)
    requires WellFormed(f)
    ensures WellFormed(g)
    ensures Names(g.header) == Names(f.header)
    ensures |g.rows| == |f.rows|
  {
    var sel := DateColumns(f, lib.parseDate);
    var g := Frame(DateHeader(f.header, sel), MapSelected(f.rows, sel, c => ToDatetime(c, lib.parseDate)));
    assert forall j :: 0 <= j < |g.header| ==> g.header[j].name == Names(g.header)[j];
    g
  }

  // ---------------------------------------------------------------------
  // Money columns
  // ---------------------------------------------------------------------

  /** The index of the column labelled `name`, if there is one. */
  function IndexOf(header: seq<ColumnInfo>, name: string): (r: Option<nat>)
    ensures r.Some? ==> r.value < |header| && header[r.value].name == name
    ensures r.None? ==> forall j :: 0 <= j < |header| ==> header[j].name != name
  {
    if |header| == 0 then None
    else if header[0].name == name then Some(0)
    else match IndexOf(header[1..], name)
      case None => None
      case Some(k) => Some(k + 1)
  }

  /** `pd.to_numeric` on one cell of a column of dtype `from`. A datetime
      column is not coerced value by value but read as int64: a date
      becomes its nanoseconds since the epoch and a missing date (`NaT`)
      becomes -2^63, so it is no longer missing. In any other column a
      missing cell stays missing and a value is coerced on its own. */
  function CoerceCell(c: Cell, from: string, lib: Lib): (d: Cell)
    ensures IsDatetimeDtype(from) && c.None? ==> d == Some(Int(NaTAsInteger))
    ensures IsDatetimeDtype(from) && c.Some? && c.value.Timestamp? ==>
              d == Some(Int(lib.epochNanos(c.value.d)))
    ensures !IsDatetimeDtype(from) ==> (d.None? <==> c.None? || lib.toNumeric(c.value).None?)
    ensures !IsDatetimeDtype(from) && d.Some? ==> d == lib.toNumeric(c.value)
  {
    if IsDatetimeDtype(from) then
      match c
      case None => Some(Int(NaTAsInteger))
      case Some(Timestamp(date)) => Some(Int(lib.epochNanos(date)))
      case Some(v) => lib.toNumeric(v)
    else ToNumeric(c, lib.toNumeric)
  }

  /** `pd.to_numeric` on each cell of a column of dtype `from`, before
      pandas gives the result its dtype. */
  function CoercedValues(cells: seq<Cell>, from: string, lib: Lib): (r: seq<Cell>)
    ensures |r| == |cells|
    ensures forall i :: 0 <= i < |cells| ==> r[i] == CoerceCell(cells[i], from, lib)
  {
    seq(|cells|, i requires 0 <= i < |cells| => CoerceCell(cells[i], from, lib))
  }

  /** The dtype `pd.to_numeric` gives the column at `j` as a whole. */
  function CoercedDtype(f: Frame, j: nat, lib: Lib): string
    requires WellFormed(f) && j < |f.header|
  {
    lib.numericDtype(CoercedValues(Column(f.rows, j), f.header[j].dtype, lib))
  }

  /** pandas gives a column coerced by `to_numeric` a numeric dtype, never
      a datetime one. */
  ghost predicate CoercesToNumbers(lib: Lib) {
    forall cells :: !IsDatetimeDtype(lib.numericDtype(cells))
  }

  /** One cell of a column of dtype `from` after coercion to dtype `dtype`:
      the value `to_numeric` gives it, held as a float when the new dtype
      is float64. A missing cell stays missing unless the column was
      datetime, where it becomes the integer for `NaT`. */
  function NumericCell(c: Cell, from: string, dtype: string, lib: Lib): (d: Cell)
    ensures d.None? <==> CoerceCell(c, from, lib).None?
    ensures dtype == Float64Dtype && d.Some? ==> !d.value.Int?
    ensures dtype != Float64Dtype ==> d == CoerceCell(c, from, lib)
    ensures CoerceCell(c, from, lib).Some? && !CoerceCell(c, from, lib).value.Int? ==>
              d == CoerceCell(c, from, lib)
    ensures c.None? && !IsDatetimeDtype(from) ==> d.None?
    ensures c.None? && IsDatetimeDtype(from) ==>
              d == if dtype == Float64Dtype then Some(Float(lib.intToFloat(NaTAsInteger))) else Some(Int(NaTAsInteger))
  {
    var v := CoerceCell(c, from, lib);
    if dtype == Float64Dtype then AsFloat(v, lib.intToFloat) else v
  }

  /** `df[col] = pd.to_numeric(df[col], errors="coerce")` for the column at
      `j`: every value is coerced, the column gets one dtype, and in a
      float64 column no integer remains. */
  function CoerceColumn(f: Frame, j: nat, lib: Lib): (g: Frame)
    requires WellFormed(f) && j < |f.header|
    ensures WellFormed(g)
    ensures Names(g.header) == Names(f.header)
    ensures |g.rows| == |f.rows|
    ensures g.header[j].dtype == CoercedDtype(f, j, lib)
    ensures g.header[j].dtype == Float64Dtype ==>
              forall i :: 0 <= i < |g.rows| && g.rows[i][j].Some? ==> !g.rows[i][j].value.Int?
  {
    var dtype := CoercedDtype(f, j, lib);
    var sel := seq(|f.header|, k => k == j);
    var from := f.header[j].dtype;
    var rows := MapSelected(f.rows, sel, c => NumericCell(c, from, dtype, lib));
    var g := Frame(f.header[j := ColumnInfo(f.header[j].name, dtype)], rows);
    assert forall k :: 0 <= k < |g.header| ==> g.header[k].name == f.header[k].name;
    g
  }

  /** Coercing column `j` turns each of its cells into `NumericCell` of
      the column's new dtype and leaves every other column alone. */
  lemma CoerceColumnCell(f: Frame, j: nat, lib: Lib, i: nat, k: nat)
    requires WellFormed(f) && j < |f.header|
    requires i < |f.rows| && k < |f.header|
    ensures CoerceColumn(f, j, lib).rows[i][k] ==
              if k == j then NumericCell(f.rows[i][k], f.header[j].dtype, CoercedDtype(f, j, lib), lib) else f.rows[i][k]
    ensures k != j ==> CoerceColumn(f, j, lib).header[k] == f.header[k]
  {
  }

  /** In a money column pandas makes float64 (say "1" next to "2.5", or a
      number next to a value that does not parse), a value coerced to an
      integer is held as the float nearest it. */
  lemma CoerceColumnStoresIntegersAsFloats(f: Frame, j: nat, lib: Lib, i: nat, n: int)
    requires WellFormed(f) && j < |f.header| && i < |f.rows|
    requires CoercedDtype(f, j, lib) == Float64Dtype
    requires CoerceCell(f.rows[i][j], f.header[j].dtype, lib) == Some(Int(n))
    ensures CoerceColumn(f, j, lib).rows[i][j] == Some(Float(lib.intToFloat(n)))
    ensures CoerceColumn(f, j, lib).header[j] == ColumnInfo(f.header[j].name, Float64Dtype)
  {
    CoerceColumnCell(f, j, lib, i, j);
  }

  /** One iteration of the money loop: coerce the column labelled `name`
      when there is one. */
  function CoerceNamed(f: Frame, name: string, lib: Lib): (g: Frame)
    requires WellFormed(f)
    ensures WellFormed(g)
    ensures Names(g.header) == Names(f.header)
    ensures |g.rows| == |f.rows|
  {
    match IndexOf(f.header, name)
    case None => f
    case Some(j) => CoerceColumn(f, j, lib)
  }

  lemma CoerceNamedCell(f: Frame, name: string, lib: Lib, i: nat, j: nat)
    requires WellFormed(f) && i < |f.rows| && j < |f.header|
    ensures var g := CoerceNamed(f, name, lib);
            && g.header[j].name == f.header[j].name
            && g.rows[i][j] == (if f.header[j].name == name
                                then NumericCell(f.rows[i][j], f.header[j].dtype, CoercedDtype(f, j, lib), lib)
                                else f.rows[i][j])
            && (f.header[j].name == name ==> g.header[j].dtype == CoercedDtype(f, j, lib))
            && (f.header[j].name != name ==> g.header[j] == f.header[j])
  {
    assert Names(CoerceNamed(f, name, lib).header)[j] == Names(f.header)[j];
    match IndexOf(f.header, name)
    case None =>
    case Some(k) =>
      if f.header[j].name == name {
        assert k == j;
      }
      CoerceColumnCell(f, k, lib, i, j);
  }

  /** The loop of excel_to_mysql.py:97-100 over the configured money labels:
      each label present among the columns has its column coerced. */
  function CoerceMoneyColumns(f: Frame, money: seq<string>, lib: Lib): (g: Frame)
    requires WellFormed(f)
    ensures WellFormed(g)
    ensures Names(g.header) == Names(f.header)
    ensures |g.rows| == |f.rows|
    decreases |money|
  {
    if |money| == 0 then f
    else CoerceMoneyColumns(CoerceNamed(f, money[0], lib), money[1..], lib)
  }

  // ---------------------------------------------------------------------
  // Row cleanup and the whole step
  // ---------------------------------------------------------------------

  /** Every cell of the row is missing. */
  predicate AllNull(r: Row) {
    forall j :: 0 <= j < |r| ==> r[j].None?
  }

  /** `df.dropna(how='all')`. */
  function DropAllNullRows(rows: seq<Row>): (r: seq<Row>)
    ensures |r| <= |rows|
    ensures forall i :: 0 <= i < |r| ==> !AllNull(r[i])
    ensures forall x :: x in r ==> x in rows
  {
    if |rows| == 0 then []
    else (if AllNull(rows[0]) then [] else [rows[0]]) + DropAllNullRows(rows[1..])
  }

  /** The frame after the date and money steps, before rows are dropped. */
  function Retype(f: Frame, money: seq<string>, lib: Lib): (g: Frame)
    requires WellFormed(f)
    ensures WellFormed(g)
    ensures Names(g.header) == Names(f.header)
    ensures |g.rows| == |f.rows|
  {
    CoerceMoneyColumns(ConvertDateColumns(f, lib), money, lib)
  }

  /** `preprocess_dataframe`: `None` for an empty frame, otherwise the
      retyped frame without its all-missing rows. */
  function PreprocessDataframe(f: Frame, money: seq<string>, lib: Lib): (r: Option<Frame>)
    requires WellFormed(f)
    ensures r.None? <==> IsEmpty(f)
    ensures r.Some? ==> WellFormed(r.value)
    ensures r.Some? ==> Names(r.value.header) == Names(f.header)
    ensures r.Some? ==> |r.value.rows| <= |f.rows|
    ensures r.Some? ==> forall i :: 0 <= i < |r.value.rows| ==> !AllNull(r.value.rows[i])
  {
    if IsEmpty(f) then None
    else
      var g := Retype(f, money, lib);
      var kept := DropAllNullRows(g.rows);
      assert forall i :: 0 <= i < |kept| ==> kept[i] in g.rows;
      Some(Frame(g.header, kept))
  }

  // ---------------------------------------------------------------------
  // Lemmas: the date heuristic
  // ---------------------------------------------------------------------

  /** The mean test is a strict majority: a column converts exactly when
      more than half of its (non-empty) sample parses, so 5 of 10 stays
      text and 6 of 10 converts. */
  lemma LooksLikeDatesIsStrictMajority(cells: seq<Cell>, parseDate: Value -> Option<Date>)
    ensures LooksLikeDates(cells, parseDate) <==>
              var sample := DateSample(cells);
              |sample| > 0 && 2 * CountParsed(sample, parseDate) > |sample|
    ensures NonNull(cells) == [] ==> !LooksLikeDates(cells, parseDate)
  {
    var sample := DateSample(cells);
    if |sample| > 0 {
      MeanAboveHalf(CountParsed(sample, parseDate), |sample|);
    }
  }

  lemma MeanAboveHalf(k: nat, n: nat)
    requires n > 0
    ensures (k as real) / (n as real) > 0.5 <==> 2 * k > n
  {
    RealMeanAboveHalf(k as real, n as real);
    assert (2 * k) as real == 2.0 * (k as real);
  }

  lemma RealMeanAboveHalf(k: real, n: real)
    requires n > 0.0
    ensures k / n > 0.5 <==> 2.0 * k > n
  {
    var m := k / n;
    assert m * n == k;
    if m > 0.5 {
      assert m * n > 0.5 * n;
    }
    if 2.0 * k > n {
      assert (m - 0.5) * n > 0.0;
    }
  }

  lemma {:induction false} NonNullAppend(a: seq<Cell>, b: seq<Cell>)
    ensures NonNull(a + b) == NonNull(a) + NonNull(b)
    decreases |a|
  {
    if |a| == 0 {
      assert a + b == b;
    } else {
      assert (a + b)[0] == a[0];
      assert (a + b)[1..] == a[1..] + b;
      NonNullAppend(a[1..], b);
      if a[0].Some? {
        assert [a[0].value] + (NonNull(a[1..]) + NonNull(b)) == ([a[0].value] + NonNull(a[1..])) + NonNull(b);
      }
    }
  }

  /** Only the first ten non-missing values matter: once a column has ten,
      whatever follows them cannot change the decision. */
  lemma DateSampleIgnoresTail(a: seq<Cell>, b: seq<Cell>, parseDate: Value -> Option<Date>)
    requires |NonNull(a)| >= SampleSize
    ensures DateSample(a + b) == DateSample(a)
    ensures LooksLikeDates(a + b, parseDate) == LooksLikeDates(a, parseDate)
  {
    NonNullAppend(a, b);
    assert (NonNull(a) + NonNull(b))[..SampleSize] == NonNull(a)[..SampleSize];
  }

  /** What the date step does to one cell: a converted column keeps every
      row, turning each value into its parsed date and every value that
      does not parse into a missing one; other columns are untouched. */
  lemma ConvertDateColumnsCell(f: Frame, lib: Lib, i: nat, j: nat)
    requires WellFormed(f) && i < |f.rows| && j < |f.header|
    ensures var g := ConvertDateColumns(f, lib);
            var c := f.rows[i][j];
            var converted := f.header[j].dtype == ObjectDtype && LooksLikeDates(Column(f.rows, j), lib.parseDate);
            && (!converted ==> g.rows[i][j] == c && g.header[j] == f.header[j])
            && (converted ==>
                  && g.header[j] == ColumnInfo(f.header[j].name, DatetimeDtype)
                  && (g.rows[i][j].None? <==> c.None? || lib.parseDate(c.value).None?)
                  && (g.rows[i][j].Some? ==> g.rows[i][j] == Some(Timestamp(lib.parseDate(c.value).value))))
  {
  }

  /** Two row sequences with the same shape and the same cells are equal. */
  lemma RowsExtensional(a: seq<Row>, b: seq<Row>)
    requires |a| == |b|
    requires forall i :: 0 <= i < |a| ==> |a[i]| == |b[i]|
    requires forall i, j :: 0 <= i < |a| && 0 <= j < |a[i]| ==> a[i][j] == b[i][j]
    ensures a == b
  {
    forall i | 0 <= i < |a|
      ensures a[i] == b[i]
    {
      assert forall j :: 0 <= j < |a[i]| ==> a[i][j] == b[i][j];
    }
  }

  /** The first `j` entries of a selection; the rest unselected. */
  function Upto(sel: seq<bool>, j: nat): (r: seq<bool>)
    ensures |r| == |sel|
    ensures forall k :: 0 <= k < |sel| ==> (r[k] <==> k < j && sel[k])
  {
    seq(|sel|, k requires 0 <= k < |sel| => k < j && sel[k])
  }

  /** The selection holding only column `j`. */
  function Only(n: nat, j: nat): (r: seq<bool>)
    ensures |r| == n
    ensures forall k :: 0 <= k < n ==> (r[k] <==> k == j)
  {
    seq(n, k => k == j)
  }

  /** One step of the column loop: before column `j` is visited it still
      holds its original cells, and visiting it extends the selection. */
  lemma UptoStep(rows: seq<Row>, sel: seq<bool>, j: nat, g: Cell -> Cell)
    requires j < |sel|
    requires forall i :: 0 <= i < |rows| ==> |rows[i]| == |sel|
    ensures Column(MapSelected(rows, Upto(sel, j), g), j) == Column(rows, j)
    ensures sel[j] ==> MapSelected(MapSelected(rows, Upto(sel, j), g), Only(|sel|, j), g)
                         == MapSelected(rows, Upto(sel, j + 1), g)
    ensures !sel[j] ==> MapSelected(rows, Upto(sel, j), g) == MapSelected(rows, Upto(sel, j + 1), g)
  {
    var before := MapSelected(rows, Upto(sel, j), g);
    var after := MapSelected(rows, Upto(sel, j + 1), g);
    if sel[j] {
      RowsExtensional(MapSelected(before, Only(|sel|, j), g), after);
    } else {
      RowsExtensional(before, after);
    }
  }

  lemma DateHeaderStep(header: seq<ColumnInfo>, sel: seq<bool>, j: nat)
    requires j < |sel| == |header|
    ensures sel[j] ==> DateHeader(header, Upto(sel, j))[j := ColumnInfo(header[j].name, DatetimeDtype)]
                         == DateHeader(header, Upto(sel, j + 1))
    ensures !sel[j] ==> DateHeader(header, Upto(sel, j)) == DateHeader(header, Upto(sel, j + 1))
  {
  }

  /** The date loop of excel_to_mysql.py:83-94 as written: the object
      columns are visited one by one and each is converted in place when
      its own sample looks like dates. Its result is `ConvertDateColumns`:
      no column's decision is affected by the conversion of another. */
  method DetectDateColumns(f: Frame, lib: Lib) returns (g: Frame)
    requires WellFormed(f)
    ensures g == ConvertDateColumns(f, lib)
  {
    ghost var sel := DateColumns(f, lib.parseDate);
    var conv := c => ToDatetime(c, lib.parseDate);
    RowsExtensional(f.rows, MapSelected(f.rows, Upto(sel, 0), conv));
    assert f.header == DateHeader(f.header, Upto(sel, 0));
    g := f;
    var j := 0;
    while j < |f.header|
      invariant 0 <= j <= |f.header|
      invariant g.header == DateHeader(f.header, Upto(sel, j))
      invariant g.rows == MapSelected(f.rows, Upto(sel, j), conv)
    {
      UptoStep(f.rows, sel, j, conv);
      DateHeaderStep(f.header, sel, j);
      var isDate := f.header[j].dtype == ObjectDtype && LooksLikeDates(Column(g.rows, j), lib.parseDate);
      assert isDate == sel[j];
      if isDate {
        g := Frame(g.header[j := ColumnInfo(f.header[j].name, DatetimeDtype)],
                   MapSelected(g.rows, Only(|f.header|, j), conv));
      }
      j := j + 1;
    }
    assert Upto(sel, j) == sel;
  }

  // ---------------------------------------------------------------------
  // Lemmas: money columns
  // ---------------------------------------------------------------------

  predicate NoDuplicates(names: seq<string>) {
    forall a, b :: 0 <= a < b < |names| ==> names[a] != names[b]
  }

  /** Columns whose label is not a money label keep their cells and dtype;
      a missing cell stays missing in every column that is not datetime. */
  lemma {:induction false} CoerceMoneyLeavesOthers(f: Frame, money: seq<string>, lib: Lib, i: nat, j: nat)
    requires WellFormed(f) && i < |f.rows| && j < |f.header|
    ensures var g := CoerceMoneyColumns(f, money, lib);
            && (f.header[j].name !in money ==> g.rows[i][j] == f.rows[i][j] && g.header[j] == f.header[j])
            && (f.rows[i][j].None? && !IsDatetimeDtype(f.header[j].dtype) && CoercesToNumbers(lib) ==>
                  g.rows[i][j].None?)
    decreases |money|
  {
    if |money| > 0 {
      var next := CoerceNamed(f, money[0], lib);
      CoerceNamedCell(f, money[0], lib, i, j);
      CoerceMoneyLeavesOthers(next, money[1..], lib, i, j);
      if f.header[j].name !in money {
        assert f.header[j].name !in money[1..];
      }
    }
  }

  /** With the configured labels listed once each, every money column is
      coerced by `pd.to_numeric` exactly once: it gets the dtype of its
      coerced values and each cell becomes its coerced value in that dtype. */
  lemma {:induction false} CoerceMoneyCoercesOnce(f: Frame, money: seq<string>, lib: Lib, i: nat, j: nat)
    requires WellFormed(f) && i < |f.rows| && j < |f.header|
    requires NoDuplicates(money)
    requires f.header[j].name in money
    ensures CoerceMoneyColumns(f, money, lib).rows[i][j] ==
              NumericCell(f.rows[i][j], f.header[j].dtype, CoercedDtype(f, j, lib), lib)
    ensures CoerceMoneyColumns(f, money, lib).header[j].dtype == CoercedDtype(f, j, lib)
    decreases |money|
  {
    var name := f.header[j].name;
    var next := CoerceNamed(f, money[0], lib);
    CoerceNamedCell(f, money[0], lib, i, j);
    if money[0] == name {
      assert forall b :: 0 <= b < |money[1..]| ==> money[1..][b] == money[b + 1] != money[0];
      assert name !in money[1..];
      CoerceMoneyLeavesOthers(next, money[1..], lib, i, j);
    } else {
      assert name in money[1..];
      assert NoDuplicates(money[1..]) by {
        forall a, b | 0 <= a < b < |money[1..]|
          ensures money[1..][a] != money[1..][b]
        {
          assert money[1..][a] == money[a + 1] && money[1..][b] == money[b + 1];
        }
      }
      forall r | 0 <= r < |f.rows|
        ensures next.rows[r][j] == f.rows[r][j]
      {
        CoerceNamedCell(f, money[0], lib, r, j);
      }
      assert Column(next.rows, j) == Column(f.rows, j);
      assert next.header[j].name == name;
      CoerceMoneyCoercesOnce(next, money[1..], lib, i, j);
    }
  }

  // ---------------------------------------------------------------------
  // Lemmas: dropping all-missing rows
  // ---------------------------------------------------------------------

  /** How many rows are entirely missing. */
  function CountAllNull(rows: seq<Row>): (n: nat)
    ensures n <= |rows|
  {
    if |rows| == 0 then 0
    else (if AllNull(rows[0]) then 1 else 0) + CountAllNull(rows[1..])
  }

  /** Dropping works row by row: it commutes with concatenation, so the
      surviving rows keep their relative order. */
  lemma {:induction false} DropAllNullRowsAppend(a: seq<Row>, b: seq<Row>)
    ensures DropAllNullRows(a + b) == DropAllNullRows(a) + DropAllNullRows(b)
    decreases |a|
  {
    if |a| == 0 {
      assert a + b == b;
    } else {
      assert (a + b)[1..] == a[1..] + b;
      DropAllNullRowsAppend(a[1..], b);
    }
  }

  /** Exactly the all-missing rows go: every other row survives and the
      number removed is the number of all-missing rows. */
  lemma {:induction false} DropAllNullRowsRemovesExactlyEmpty(rows: seq<Row>)
    ensures |DropAllNullRows(rows)| == |rows| - CountAllNull(rows)
    ensures forall x :: x in rows && !AllNull(x) ==> x in DropAllNullRows(rows)
    decreases |rows|
  {
    if |rows| > 0 {
      DropAllNullRowsRemovesExactlyEmpty(rows[1..]);
      forall x | x in rows && !AllNull(x)
        ensures x in DropAllNullRows(rows)
      {
        if x != rows[0] {
          assert x in rows[1..];
        }
      }
    }
  }

  /** The rows left alone are exactly those with no all-missing row. */
  lemma {:induction false} DropAllNullRowsFixpoints(rows: seq<Row>)
    ensures DropAllNullRows(rows) == rows <==> forall i :: 0 <= i < |rows| ==> !AllNull(rows[i])
    decreases |rows|
  {
    if |rows| > 0 {
      DropAllNullRowsFixpoints(rows[1..]);
      if forall i :: 0 <= i < |rows| ==> !AllNull(rows[i]) {
        assert forall i :: 0 <= i < |rows[1..]| ==> !AllNull(rows[1..][i]) by {
          forall i | 0 <= i < |rows[1..]| ensures !AllNull(rows[1..][i]) {
            assert rows[1..][i] == rows[i + 1];
          }
        }
        assert [rows[0]] + rows[1..] == rows;
      }
    }
  }

  lemma DropAllNullRowsIdempotent(rows: seq<Row>)
    ensures DropAllNullRows(DropAllNullRows(rows)) == DropAllNullRows(rows)
  {
    DropAllNullRowsFixpoints(DropAllNullRows(rows));
  }

  // ---------------------------------------------------------------------
  // Lemmas: the whole step
  // ---------------------------------------------------------------------

  /** No money column is datetime once the date step has run. */
  predicate NoDatetimeMoney(f: Frame, money: seq<string>, lib: Lib)
    requires WellFormed(f)
  {
    var d := ConvertDateColumns(f, lib);
    forall j :: 0 <= j < |d.header| && d.header[j].name in money ==> !IsDatetimeDtype(d.header[j].dtype)
  }

  /** A row that is entirely missing on input is entirely missing after
      retyping, so preprocessing drops it, as long as no money column is
      datetime (`RetypeKeepsMissingDateInMoneyColumn` covers the other
      case). */
  lemma RetypeKeepsAllNull(f: Frame, money: seq<string>, lib: Lib, i: nat)
    requires WellFormed(f) && i < |f.rows|
    requires AllNull(f.rows[i])
    requires CoercesToNumbers(lib) && NoDatetimeMoney(f, money, lib)
    ensures AllNull(Retype(f, money, lib).rows[i])
  {
    var d := ConvertDateColumns(f, lib);
    forall j | 0 <= j < |f.header|
      ensures Retype(f, money, lib).rows[i][j].None?
    {
      ConvertDateColumnsCell(f, lib, i, j);
      assert d.header[j].name == Names(d.header)[j];
      CoerceMoneyLeavesOthers(d, money, lib, i, j);
    }
  }

  /** A missing date in a money column is not missing after retyping:
      `to_numeric` reads the datetime column as int64, where `NaT` is
      -2^63. The row survives preprocessing even when all its other cells
      are missing, and that integer (or its float) is what gets sent. */
  lemma RetypeKeepsMissingDateInMoneyColumn(f: Frame, money: seq<string>, lib: Lib, i: nat, j: nat)
    requires WellFormed(f) && i < |f.rows| && j < |f.header|
    requires NoDuplicates(money) && f.header[j].name in money
    requires IsDatetimeDtype(ConvertDateColumns(f, lib).header[j].dtype)
    requires ConvertDateColumns(f, lib).rows[i][j].None?
    ensures var c := Retype(f, money, lib).rows[i][j];
            c == Some(Int(NaTAsInteger)) || c == Some(Float(lib.intToFloat(NaTAsInteger)))
    ensures PreprocessDataframe(f, money, lib).Some?
    ensures Retype(f, money, lib).rows[i] in PreprocessDataframe(f, money, lib).value.rows
  {
    var d := ConvertDateColumns(f, lib);
    assert d.header[j].name == f.header[j].name by {
      assert Names(d.header)[j] == Names(f.header)[j];
    }
    CoerceMoneyCoercesOnce(d, money, lib, i, j);
    var g := Retype(f, money, lib);
    assert g.rows[i][j].Some?;
    assert g.rows[i] in g.rows;
    DropAllNullRowsRemovesExactlyEmpty(g.rows);
  }

  /** A row with a value in a column that is neither a date column nor a
      money column survives preprocessing (retyped). */
  lemma PreprocessKeepsRowWithPlainValue(f: Frame, money: seq<string>, lib: Lib, i: nat, j: nat)
    requires WellFormed(f) && i < |f.rows| && j < |f.header|
    requires f.rows[i][j].Some?
    requires f.header[j].name !in money
    requires !(f.header[j].dtype == ObjectDtype && LooksLikeDates(Column(f.rows, j), lib.parseDate))
    ensures PreprocessDataframe(f, money, lib).Some?
    ensures Retype(f, money, lib).rows[i] in PreprocessDataframe(f, money, lib).value.rows
  {
    var d := ConvertDateColumns(f, lib);
    ConvertDateColumnsCell(f, lib, i, j);
    assert d.header[j].name == f.header[j].name by {
      assert Names(d.header)[j] == Names(f.header)[j];
    }
    CoerceMoneyLeavesOthers(d, money, lib, i, j);
    var g := Retype(f, money, lib);
    assert g.rows[i][j].Some?;
    assert g.rows[i] in g.rows;
    DropAllNullRowsRemovesExactlyEmpty(g.rows);
  }
}
