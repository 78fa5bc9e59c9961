/**
 * The parts of `sync_single_excel_all_sheets` and `sync_dataframe_to_table`
 * that decide what is written: the table name of each sheet
 * (excel_to_mysql.py:240-246), the rows handed to `executemany` with
 * missing values as `None` (excel_to_mysql.py:174-182), and the list of
 * table loads one workbook produces.
 */
module Sync {
  import opened Wrappers
  import opened Frames
  import Identifiers
  import Preprocess
  import ColumnTypes

  // ---------------------------------------------------------------------
  // Table names
  // ---------------------------------------------------------------------

  /** The table a sheet goes to: the file's base name when the workbook has
      a single sheet, `base_sheet` otherwise. A valid base name gives a
      valid table name, and the table name always starts with the base. */
  function FinalTableName(baseTableName: string, sheetCount: nat, sheetName: string): (t: string)
    ensures Identifiers.IsIdentifier(baseTableName) ==> Identifiers.IsIdentifier(t)
    ensures baseTableName <= t
  {
    var sheet := Identifiers.NormalizeSheetName(sheetName);
    Identifiers.UnderscoreJoinIsIdentifier(baseTableName, sheet);
    if sheetCount == 1 then baseTableName
    else baseTableName + "_" + sheet
  }

  /** Normalisation is not injective, so two sheets of one workbook can
      share a table: "Q1 Sales" and "Q1-Sales" both become `base_q1_sales`. */
  lemma SheetTablesCanCollide(baseTableName: string)
    ensures FinalTableName(baseTableName, 2, "Q1 Sales") == FinalTableName(baseTableName, 2, "Q1-Sales")
  {
    assert Identifiers.AllAlnum("Q1") && Identifiers.AllAlnum("Sales") by {
      assert Identifiers.IsAlnum('Q') && Identifiers.IsAlnum('1');
      assert Identifiers.IsAlnum('S') && Identifiers.IsAlnum('a') && Identifiers.IsAlnum('l');
      assert Identifiers.IsAlnum('e') && Identifiers.IsAlnum('s');
    }
    assert Identifiers.NoAlnum(" ") && Identifiers.NoAlnum("-");
    assert "Q1 Sales" == "Q1" + " " + "Sales";
    assert "Q1-Sales" == "Q1" + "-" + "Sales";
    Identifiers.CleanSeparatesWords("Q1", " ", "Sales");
    Identifiers.CleanSeparatesWords("Q1", "-", "Sales");
  }

  // ---------------------------------------------------------------------
  // Rows handed to executemany
  // ---------------------------------------------------------------------

  /** A query parameter: SQL NULL or a value. */
  datatype Param = Null | Bound(value: Value)

  /** `None if pd.isna(val) else val`. */
  function ExportCell(c: Cell): Param {
    match c
    case None => Null
    case Some(v) => Bound(v)
  }

  /** One tuple of `data` (excel_to_mysql.py:181-182). */
  function ExportRow(r: Row): (p: seq<Param>)
    ensures |p| == |r|
    ensures forall j :: 0 <= j < |r| ==> (p[j] == Null <==> r[j].None?)
    ensures forall j :: 0 <= j < |r| && r[j].Some? ==> p[j] == Bound(r[j].value)
  {
    seq(|r|, j requires 0 <= j < |r| => ExportCell(r[j]))
  }

  /** Reading a parameter tuple back as cells. */
  function ImportRow(p: seq<Param>): Row {
    seq(|p|, j requires 0 <= j < |p| => if p[j].Null? then None else Some(p[j].value))
  }

  /** Exporting a row of `df.values` loses nothing: the tuple reads back
      as that row exactly. */
  lemma ExportRowRoundTrip(r: Row)
    ensures ImportRow(ExportRow(r)) == r
  {
  }

  /** `df.values` gives the whole frame one common dtype. When every column
      is int64 or float64 and at least one is float64, that dtype is
      float64; any other mix (or a single dtype) keeps each value as it is. */
  predicate UpcastsToFloat(header: seq<ColumnInfo>) {
    && (forall j :: 0 <= j < |header| ==> header[j].dtype == Int64Dtype || header[j].dtype == Float64Dtype)
    && (exists j :: 0 <= j < |header| && header[j].dtype == Float64Dtype)
  }

  /** `df.values`, row by row: missing cells stay missing; without the
      float64 upcast the rows are the frame's own. */
  function Values(f: Frame, intToFloat: int -> real): (rows: seq<Row>)
    requires WellFormed(f)
    ensures |rows| == |f.rows|
    ensures forall i :: 0 <= i < |rows| ==> |rows[i]| == |f.header|
    ensures forall i, j :: 0 <= i < |rows| && 0 <= j < |f.header| ==>
              (rows[i][j].None? <==> f.rows[i][j].None?)
    ensures forall i, j :: 0 <= i < |rows| && 0 <= j < |f.header| ==>
              rows[i][j] == if UpcastsToFloat(f.header) then AsFloat(f.rows[i][j], intToFloat) else f.rows[i][j]
    ensures !UpcastsToFloat(f.header) ==> rows == f.rows
    ensures UpcastsToFloat(f.header) ==>
              forall i, j :: 0 <= i < |rows| && 0 <= j < |f.header| ==>
                rows[i][j].Some? ==> !rows[i][j].value.Int?
  {
    if UpcastsToFloat(f.header) then
      seq(|f.rows|, i requires 0 <= i < |f.rows| =>
        seq(|f.rows[i]|, j requires 0 <= j < |f.rows[i]| => AsFloat(f.rows[i][j], intToFloat)))
    else f.rows
  }

  /** `data` for the whole frame: one tuple per row of `df.values`, one
      entry per column, NULL exactly where the frame's cell is missing. */
  function ExportRows(f: Frame, intToFloat: int -> real): (data: seq<seq<Param>>)
    requires WellFormed(f)
    ensures |data| == |f.rows|
    ensures forall i :: 0 <= i < |data| ==> |data[i]| == |f.header|
    ensures forall i, j :: 0 <= i < |data| && 0 <= j < |f.header| ==>
              (data[i][j] == Null <==> f.rows[i][j].None?)
  {
    var values := Values(f, intToFloat);
    seq(|values|, i requires 0 <= i < |values| => ExportRow(values[i]))
  }

  /** What `executemany` receives, compared with the frame: without the
      float64 upcast every row reads back exactly; with it, integer cells
      read back as floats and every other cell as itself. */
  lemma ExportRowsReadBack(f: Frame, intToFloat: int -> real)
    requires WellFormed(f)
    ensures !UpcastsToFloat(f.header) ==>
              forall i :: 0 <= i < |f.rows| ==> ImportRow(ExportRows(f, intToFloat)[i]) == f.rows[i]
    ensures UpcastsToFloat(f.header) ==>
              forall i, j :: 0 <= i < |f.rows| && 0 <= j < |f.header| ==>
                ImportRow(ExportRows(f, intToFloat)[i])[j] == AsFloat(f.rows[i][j], intToFloat)
  {
    var values := Values(f, intToFloat);
    forall i | 0 <= i < |f.rows|
      ensures ImportRow(ExportRows(f, intToFloat)[i]) == values[i]
    {
      ExportRowRoundTrip(values[i]);
    }
  }

  /** A frame with an int64 and a float64 column sends its integer 3 as
      the float nearest 3, never as the integer itself. */
  lemma MixedFrameSendsIntegersAsFloats(intToFloat: int -> real)
    ensures var f := Frame([ColumnInfo("a", Int64Dtype), ColumnInfo("b", Float64Dtype)],
                           [[Some(Int(3)), Some(Float(0.5))]]);
            && WellFormed(f)
            && ExportRows(f, intToFloat)[0][0] == Bound(Float(intToFloat(3)))
            && ExportRows(f, intToFloat)[0][0] != Bound(Int(3))
  {
    var f := Frame([ColumnInfo("a", Int64Dtype), ColumnInfo("b", Float64Dtype)],
                   [[Some(Int(3)), Some(Float(0.5))]]);
    assert f.header[1].dtype == Float64Dtype;
    assert UpcastsToFloat(f.header);
  }

  /** `",".join(["%s"] * n)`: `n` copies of `%s` separated by commas. */
  function Placeholders(n: nat): (s: string)
    ensures n == 0 <==> s == ""
    ensures n > 0 ==> |s| == 3 * n - 1
    ensures forall k :: 0 <= k < |s| ==>
              s[k] == (if k % 3 == 0 then '%' else if k % 3 == 1 then 's' else ',')
  {
    if n == 0 then ""
    else if n == 1 then "%s"
    else
      var rest := Placeholders(n - 1);
      var s := "%s," + rest;
      assert forall k :: 3 <= k < |s| ==> s[k] == rest[k - 3] && k % 3 == (k - 3) % 3;
      s
  }

  /** How many `%` characters a string holds. */
  function CountPercent(s: string): nat {
    if |s| == 0 then 0
    else (if s[0] == '%' then 1 else 0) + CountPercent(s[1..])
  }

  lemma {:induction false} CountPercentAppend(a: string, b: string)
    ensures CountPercent(a + b) == CountPercent(a) + CountPercent(b)
    decreases |a|
  {
    if |a| == 0 {
      assert a + b == b;
    } else {
      assert (a + b)[1..] == a[1..] + b;
      CountPercentAppend(a[1..], b);
    }
  }

  /** The placeholder list holds exactly one `%` per column. */
  lemma {:induction false} PlaceholdersCount(n: nat)
    ensures CountPercent(Placeholders(n)) == n
    decreases n
  {
    if n > 1 {
      PlaceholdersCount(n - 1);
      CountPercentAppend("%s,", Placeholders(n - 1));
      assert CountPercent("%s,") == 1;
    } else if n == 1 {
      assert CountPercent("%s") == 1;
    }
  }

  // ---------------------------------------------------------------------
  // One workbook
  // ---------------------------------------------------------------------

  /** Everything `sync_dataframe_to_table` sends for one sheet: the table,
      its column definitions, the INSERT column list and the rows. */
  datatype TableLoad = TableLoad(
    sheet: string,
    table: string,
    columnDefs: seq<string>,
    columns: seq<string>,
    placeholders: string,
    data: seq<seq<Param>>)

  /** Well-formed loads: a row tuple per row with one entry per column. */
  predicate LoadShaped(l: TableLoad) {
    && |l.columnDefs| == |l.columns| + 1
    && |l.columns| > 0
    && |l.data| > 0
    && CountPercent(l.placeholders) == |l.columns|
    && (forall i :: 0 <= i < |l.data| ==> |l.data[i]| == |l.columns|)
  }

  /** One iteration of the sheet loop (excel_to_mysql.py:224-249): a sheet
      that failed to read, was rejected by preprocessing or has no rows
      left produces no load. */
  function SheetLoad(baseTableName: string, sheetCount: nat, sheetName: string,
                     sheetFrame: Option<Frame>, money: seq<string>, lib: Lib): (r: Option<TableLoad>)
    requires sheetFrame.Some? ==> WellFormed(sheetFrame.value)
    ensures r.Some? ==> LoadShaped(r.value) && r.value.sheet == sheetName
    ensures r.Some? ==> r.value.table == FinalTableName(baseTableName, sheetCount, sheetName)
    ensures r.Some? <==>
              sheetFrame.Some? && !IsEmpty(sheetFrame.value) &&
              |Preprocess.PreprocessDataframe(sheetFrame.value, money, lib).value.rows| > 0
  {
    match sheetFrame
    case None => None
    case Some(df) =>
      match Preprocess.PreprocessDataframe(df, money, lib)
      case None => None
      case Some(g) =>
        if IsEmpty(g) then None
        else Some(LoadOf(sheetName, FinalTableName(baseTableName, sheetCount, sheetName), g, money, lib))
  }

  /** What `sync_dataframe_to_table` sends for a preprocessed, non-empty
      frame `g` and its table. */
  function LoadOf(sheetName: string, table: string, g: Frame, money: seq<string>, lib: Lib): (l: TableLoad)
    requires WellFormed(g) && !IsEmpty(g)
    ensures LoadShaped(l) && l.sheet == sheetName && l.table == table
    ensures l.columns == Names(g.header) && |l.data| == |g.rows|
    ensures forall i, j :: 0 <= i < |g.rows| && 0 <= j < |g.header| ==>
              (l.data[i][j] == Null <==> g.rows[i][j].None?)
  {
    var names := Names(g.header);
    PlaceholdersCount(|names|);
    TableLoad(sheetName, table, ColumnTypes.ColumnDefs(g, money, lib.render), names,
              Placeholders(|names|), ExportRows(g, lib.intToFloat))
  }

  /** What each sheet of the loop produces, sheet by sheet. */
  function SheetAttempts(baseTableName: string, sheetCount: nat, sheetNames: seq<string>,
                         frames: seq<Option<Frame>>, money: seq<string>, lib: Lib): (r: seq<Option<TableLoad>>)
    requires |frames| == |sheetNames|
    requires forall i :: 0 <= i < |frames| && frames[i].Some? ==> WellFormed(frames[i].value)
    ensures |r| == |sheetNames|
    ensures forall i :: 0 <= i < |r| ==>
              r[i] == SheetLoad(baseTableName, sheetCount, sheetNames[i], frames[i], money, lib)
    ensures forall i :: 0 <= i < |r| && r[i].Some? ==>
              && LoadShaped(r[i].value)
              && r[i].value.sheet == sheetNames[i]
              && r[i].value.table == FinalTableName(baseTableName, sheetCount, sheetNames[i])
  {
    seq(|sheetNames|, i requires 0 <= i < |sheetNames| =>
      SheetLoad(baseTableName, sheetCount, sheetNames[i], frames[i], money, lib))
  }

  /** The present values: each one is kept, nothing else is added, and
      nothing is dropped exactly when every value is present. */
  function Somes<T>(xs: seq<Option<T>>): (r: seq<T>)
    ensures |r| <= |xs|
    ensures |r| == |xs| <==> forall i :: 0 <= i < |xs| ==> xs[i].Some?
    ensures forall k :: 0 <= k < |r| ==> Some(r[k]) in xs
    ensures forall i :: 0 <= i < |xs| && xs[i].Some? ==> xs[i].value in r
  {
    if |xs| == 0 then []
    else
      var rest := Somes(xs[1..]);
      assert forall k :: 0 <= k < |rest| ==> Some(rest[k]) in xs[1..];
      assert forall i :: 1 <= i < |xs| ==> xs[i] == xs[1..][i - 1];
      if xs[0].Some? then [xs[0].value] + rest else rest
  }

  /** Present values keep their order: the values of `a` come before those
      of `b`. */
  lemma {:induction false} SomesAppend<T>(a: seq<Option<T>>, b: seq<Option<T>>)
    ensures Somes(a + b) == Somes(a) + Somes(b)
    decreases |a|
  {
    if |a| == 0 {
      assert a + b == b;
    } else {
      assert (a + b)[0] == a[0];
      assert (a + b)[1..] == a[1..] + b;
      SomesAppend(a[1..], b);
      if a[0].Some? {
        assert [a[0].value] + (Somes(a[1..]) + Somes(b)) == ([a[0].value] + Somes(a[1..])) + Somes(b);
      }
    }
  }

  /** Of two present values, the earlier one comes first in the result. */
  lemma SomesOrder<T>(xs: seq<Option<T>>, i: nat, j: nat)
    requires i < j < |xs| && xs[i].Some? && xs[j].Some?
    ensures exists k, l :: 0 <= k < l < |Somes(xs)| && Somes(xs)[k] == xs[i].value && Somes(xs)[l] == xs[j].value
  {
    var a, b := xs[..j], xs[j..];
    assert xs == a + b;
    SomesAppend(a, b);
    assert a[i] == xs[i];
    var k :| 0 <= k < |Somes(a)| && Somes(a)[k] == xs[i].value;
    assert b[0] == xs[j];
    assert Somes(b)[0] == xs[j].value;
    assert Somes(xs)[k] == xs[i].value;
    assert Somes(xs)[|Somes(a)|] == xs[j].value;
  }

  /** The loads `sync_single_excel_all_sheets` performs for one workbook,
      given its sheet names and what reading each sheet gave (`None` where
      `pd.read_excel` raised). A workbook without sheets loads nothing. */
  function SyncWorkbook(filename: string, sheetNames: seq<string>, frames: seq<Option<Frame>>,
                        money: seq<string>, lib: Lib): (loads: seq<TableLoad>)
    requires |frames| == |sheetNames|
    requires forall i :: 0 <= i < |frames| && frames[i].Some? ==> WellFormed(frames[i].value)
    ensures |loads| <= |sheetNames|
    ensures forall k :: 0 <= k < |loads| ==> LoadShaped(loads[k]) && Identifiers.IsIdentifier(loads[k].table)
    ensures forall k :: 0 <= k < |loads| ==>
              loads[k].table == FinalTableName(Identifiers.FilenameToBaseTableName(filename), |sheetNames|, loads[k].sheet)
    ensures forall i ::
              && 0 <= i < |sheetNames|
              && SheetLoad(Identifiers.FilenameToBaseTableName(filename), |sheetNames|, sheetNames[i], frames[i], money, lib).Some?
              ==> SheetLoad(Identifiers.FilenameToBaseTableName(filename), |sheetNames|, sheetNames[i], frames[i], money, lib).value in loads
    ensures forall k :: 0 <= k < |loads| ==>
              exists i :: 0 <= i < |sheetNames| &&
                SheetLoad(Identifiers.FilenameToBaseTableName(filename), |sheetNames|, sheetNames[i], frames[i], money, lib) == Some(loads[k])
  {
    var base := Identifiers.FilenameToBaseTableName(filename);
    var attempts := SheetAttempts(base, |sheetNames|, sheetNames, frames, money, lib);
    var loads := Somes(attempts);
    LoadsComeFromSheets(base, |sheetNames|, sheetNames, frames, money, lib);
    loads
  }

  /** The loads of the sheet loop are exactly the sheets' own loads: each
      one comes from a sheet, and every sheet that loads is among them. */
  lemma LoadsComeFromSheets(baseTableName: string, sheetCount: nat, sheetNames: seq<string>,
                            frames: seq<Option<Frame>>, money: seq<string>, lib: Lib)
    requires |frames| == |sheetNames|
    requires forall i :: 0 <= i < |frames| && frames[i].Some? ==> WellFormed(frames[i].value)
    ensures var loads := Somes(SheetAttempts(baseTableName, sheetCount, sheetNames, frames, money, lib));
            && (forall k :: 0 <= k < |loads| ==>
                  && LoadShaped(loads[k])
                  && loads[k].table == FinalTableName(baseTableName, sheetCount, loads[k].sheet)
                  && exists i :: 0 <= i < |sheetNames| &&
                       SheetLoad(baseTableName, sheetCount, sheetNames[i], frames[i], money, lib) == Some(loads[k]))
            && (forall i ::
                  && 0 <= i < |sheetNames|
                  && SheetLoad(baseTableName, sheetCount, sheetNames[i], frames[i], money, lib).Some?
                  ==> SheetLoad(baseTableName, sheetCount, sheetNames[i], frames[i], money, lib).value in loads)
  {
    var attempts := SheetAttempts(baseTableName, sheetCount, sheetNames, frames, money, lib);
    var loads := Somes(attempts);
    forall k | 0 <= k < |loads|
      ensures LoadShaped(loads[k])
      ensures loads[k].table == FinalTableName(baseTableName, sheetCount, loads[k].sheet)
      ensures exists i :: 0 <= i < |sheetNames| &&
                SheetLoad(baseTableName, sheetCount, sheetNames[i], frames[i], money, lib) == Some(loads[k])
    {
      var i :| 0 <= i < |attempts| && attempts[i] == Some(loads[k]);
    }
  }

  /** Loads follow the order of the sheets. */
  lemma SyncWorkbookOrder(filename: string, sheetNames: seq<string>, frames: seq<Option<Frame>>,
                          money: seq<string>, lib: Lib, i: nat, j: nat)
    requires |frames| == |sheetNames|
    requires forall i :: 0 <= i < |frames| && frames[i].Some? ==> WellFormed(frames[i].value)
    requires i < j < |sheetNames|
    ensures var base := Identifiers.FilenameToBaseTableName(filename);
            var li := SheetLoad(base, |sheetNames|, sheetNames[i], frames[i], money, lib);
            var lj := SheetLoad(base, |sheetNames|, sheetNames[j], frames[j], money, lib);
            var loads := SyncWorkbook(filename, sheetNames, frames, money, lib);
            li.Some? && lj.Some? ==>
              exists k, l :: 0 <= k < l < |loads| && loads[k] == li.value && loads[l] == lj.value
  {
    var base := Identifiers.FilenameToBaseTableName(filename);
    var attempts := SheetAttempts(base, |sheetNames|, sheetNames, frames, money, lib);
    var loads := SyncWorkbook(filename, sheetNames, frames, money, lib);
    assert loads == Somes(attempts);
    assert attempts[i] == SheetLoad(base, |sheetNames|, sheetNames[i], frames[i], money, lib);
    assert attempts[j] == SheetLoad(base, |sheetNames|, sheetNames[j], frames[j], money, lib);
    if attempts[i].Some? && attempts[j].Some? {
      SomesOrder(attempts, i, j);
    }
  }

  /** The naming rule of excel_to_mysql.py:240-246 for a whole workbook:
      with one sheet every load goes to the file's base name; otherwise to
      `base_sheet`, where `sheet` is the normalised sheet name. */
  lemma SyncWorkbookTableNames(filename: string, sheetNames: seq<string>, frames: seq<Option<Frame>>,
                               money: seq<string>, lib: Lib)
    requires |frames| == |sheetNames|
    requires forall i :: 0 <= i < |frames| && frames[i].Some? ==> WellFormed(frames[i].value)
    ensures var loads := SyncWorkbook(filename, sheetNames, frames, money, lib);
            && (|sheetNames| == 1 ==>
                  forall k :: 0 <= k < |loads| ==> loads[k].table == Identifiers.FilenameToBaseTableName(filename))
            && (|sheetNames| != 1 ==>
                  forall k :: 0 <= k < |loads| ==>
                    loads[k].table == Identifiers.FilenameToBaseTableName(filename) + "_" +
                                      Identifiers.NormalizeSheetName(loads[k].sheet))
  {
  }
}
