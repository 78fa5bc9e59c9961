/**
 * Column types and the column list of `CREATE TABLE`:
 * `get_mysql_type` (excel_to_mysql.py:107-135) and the `columns_def` list
 * of `create_table_with_auto_increment` (excel_to_mysql.py:139-145).
 */
module ColumnTypes {
  import opened Wrappers
  import Frames
  import Identifiers

  /** The MySQL types `get_mysql_type` can return. */
  datatype MysqlType =
    | DecimalMoney        // DECIMAL(12,2)
    | SqlDate             // DATE
    | BigInt              // BIGINT
    | Double              // DOUBLE
    | Boolean             // BOOLEAN
    | Varchar(width: nat) // VARCHAR(width)
    | SqlText             // TEXT

  /** The longest rendered value an object column may hold and still be
      stored as VARCHAR. */
  const VarcharLimit: nat := 200

  /** Extra characters of room a VARCHAR column gets beyond its longest value. */
  const VarcharSlack: nat := 50

  /** The cap `min(max_len + 50, 255)` applies to a VARCHAR width. */
  const VarcharCap: nat := 255

  /** The length of one cell in `series.astype(str)`: text is itself, a
      missing cell becomes "nan", anything else its `str()`. */
  function RenderedLength(c: Frames.Cell, render: Frames.Value -> string): nat {
    match c
    case None => 3
    case Some(Text(s)) => |s|
    case Some(v) => |render(v)|
  }

  /** `max()` over a non-empty sequence. */
  function MaxOf(xs: seq<nat>): (m: nat)
    requires |xs| > 0
    ensures forall i :: 0 <= i < |xs| ==> xs[i] <= m
    ensures exists i :: 0 <= i < |xs| && xs[i] == m
  {
    if |xs| == 1 then xs[0]
    else
      var rest := MaxOf(xs[1..]);
      if xs[0] >= rest then xs[0] else rest
  }

  /** The rendered lengths of a column's cells, `series.astype(str).str.len()`. */
  function RenderedLengths(cells: seq<Frames.Cell>, render: Frames.Value -> string): (r: seq<nat>)
    ensures |r| == |cells|
    ensures forall i :: 0 <= i < |cells| ==> r[i] == RenderedLength(cells[i], render)
  {
    seq(|cells|, i requires 0 <= i < |cells| => RenderedLength(cells[i], render))
  }

  /** The object branch (excel_to_mysql.py:125-132). For a column without
      rows `max()` is NaN, `int(NaN)` raises and the `except` answers TEXT;
      so the `max_len = 255` assignment can never run. */
  function ObjectType(cells: seq<Frames.Cell>, render: Frames.Value -> string): (t: MysqlType)
    ensures t.Varchar? || t == SqlText
    ensures t.Varchar? <==>
              |cells| > 0 && forall i :: 0 <= i < |cells| ==> RenderedLength(cells[i], render) <= VarcharLimit
    ensures t.Varchar? ==>
              && VarcharSlack <= t.width <= VarcharLimit + VarcharSlack < VarcharCap
              && (forall i :: 0 <= i < |cells| ==> RenderedLength(cells[i], render) + VarcharSlack <= t.width)
              && (exists i :: 0 <= i < |cells| && RenderedLength(cells[i], render) + VarcharSlack == t.width)
  {
    if |cells| == 0 then SqlText
    else
      var maxLen := MaxOf(RenderedLengths(cells, render));
      if maxLen <= VarcharLimit then
        Varchar(if maxLen + VarcharSlack < VarcharCap then maxLen + VarcharSlack else VarcharCap)
      else SqlText
  }

  /** `get_mysql_type`: a first-match decision on the column label and the
      dtype string. The `ensures` characterise each answer by the inputs;
      the VARCHAR case by the rendered lengths directly. */
  function GetMysqlType(dtype: string, colName: string, cells: seq<Frames.Cell>,
                        money: seq<string>, render: Frames.Value -> string): (t: MysqlType)
    ensures t == DecimalMoney <==> colName in money
    ensures t == SqlDate <==> colName !in money && Frames.IsDatetimeDtype(dtype)
    ensures t == BigInt <==>
              colName !in money && !Frames.IsDatetimeDtype(dtype) && (dtype == Frames.Int64Dtype || dtype == Frames.NullableInt64Dtype)
    ensures t == Double <==> colName !in money && dtype == Frames.Float64Dtype
    ensures t == Boolean <==> colName !in money && dtype == Frames.BoolDtype
    ensures t.Varchar? <==>
              && colName !in money && dtype == Frames.ObjectDtype && |cells| > 0
              && forall i :: 0 <= i < |cells| ==> RenderedLength(cells[i], render) <= VarcharLimit
    ensures t.Varchar? ==>
              && VarcharSlack <= t.width <= VarcharLimit + VarcharSlack < VarcharCap
              && (forall i :: 0 <= i < |cells| ==> RenderedLength(cells[i], render) + VarcharSlack <= t.width)
              && (exists i :: 0 <= i < |cells| && RenderedLength(cells[i], render) + VarcharSlack == t.width)
  {
    if colName in money then DecimalMoney
    else if Frames.IsDatetimeDtype(dtype) then SqlDate
    else if dtype == Frames.Int64Dtype || dtype == Frames.NullableInt64Dtype then BigInt
    else if dtype == Frames.Float64Dtype then Double
    else if dtype == Frames.BoolDtype then Boolean
    else if dtype == Frames.ObjectDtype then ObjectType(cells, render)
    else SqlText
  }

  // ---------------------------------------------------------------------
  // Rendering the types and the column definitions
  // ---------------------------------------------------------------------

  predicate AllDigits(s: string) {
    forall i :: 0 <= i < |s| ==> Identifiers.IsDigit(s[i])
  }

  function DigitChar(d: nat): (c: char)
    requires d < 10
    ensures Identifiers.IsDigit(c)
  {
    ('0' as int + d) as char
  }

  /** Decimal rendering of a width, as an f-string prints an `int`. */
  function NatToString(n: nat): (s: string)
    ensures |s| > 0 && AllDigits(s)
    ensures |s| > 1 ==> s[0] != '0'
  {
    if n < 10 then [DigitChar(n)] else NatToString(n / 10) + [DigitChar(n % 10)]
  }

  function DigitsValue(s: string): nat
    requires AllDigits(s)
  {
    if |s| == 0 then 0
    else DigitsValue(s[..|s| - 1]) * 10 + (s[|s| - 1] as int - '0' as int)
  }

  /** Reads back a decimal number. */
  function ParseNat(s: string): Option<nat> {
    if |s| > 0 && AllDigits(s) then Some(DigitsValue(s)) else None
  }

  /** The type as it appears in the CREATE TABLE statement. */
  function TypeName(t: MysqlType): (s: string)
    ensures t.Varchar? <==> |s| >= 9 && s[..8] == "VARCHAR(" && s[|s| - 1] == ')'
    ensures t.Varchar? ==> s[8..|s| - 1] == NatToString(t.width)
  {
    match t
    case DecimalMoney => assert "DECIMAL(12,2)"[0] == 'D'; "DECIMAL(12,2)"
    case SqlDate => "DATE"
    case BigInt => "BIGINT"
    case Double => "DOUBLE"
    case Boolean => "BOOLEAN"
    case Varchar(w) =>
      var s := "VARCHAR(" + NatToString(w) + ")";
      assert s[..8] == "VARCHAR(";
      assert s[8..|s| - 1] == NatToString(w);
      s
    case SqlText => "TEXT"
  }

  /** Reads a type name back. */
  function ParseTypeName(s: string): Option<MysqlType> {
    if s == "DECIMAL(12,2)" then Some(DecimalMoney)
    else if s == "DATE" then Some(SqlDate)
    else if s == "BIGINT" then Some(BigInt)
    else if s == "DOUBLE" then Some(Double)
    else if s == "BOOLEAN" then Some(Boolean)
    else if s == "TEXT" then Some(SqlText)
    else if |s| >= 9 && s[..8] == "VARCHAR(" && s[|s| - 1] == ')' then
      match ParseNat(s[8..|s| - 1])
      case None => None
      case Some(w) => Some(Varchar(w))
    else None
  }

  /** The synthetic primary key every table gets (excel_to_mysql.py:139). */
  const IdColumnDef := "`id` INT AUTO_INCREMENT PRIMARY KEY"

  /** One entry of `columns_def` (excel_to_mysql.py:143). */
  function ColumnDef(name: string, t: MysqlType): string {
    "`" + name + "` " + TypeName(t)
  }

  /** The first index of `c` in `s`, if any. */
  function FindChar(s: string, c: char): (r: Option<nat>)
    ensures r.Some? ==> r.value < |s| && s[r.value] == c && c !in s[..r.value]
    ensures r.None? ==> c !in s
  {
    if |s| == 0 then None
    else if s[0] == c then Some(0)
    else match FindChar(s[1..], c)
      case None => None
      case Some(k) =>
        assert s[..k + 1] == [s[0]] + s[1..][..k];
        Some(k + 1)
  }

  /** Reads a column definition back into its label and type. */
  function ParseColumnDef(d: string): Option<(string, MysqlType)> {
    if |d| == 0 || d[0] != '`' then None
    else match FindChar(d[1..], '`')
      case None => None
      case Some(k) =>
        if 1 + k + 1 < |d| && d[1 + k + 1] == ' ' then
          match ParseTypeName(d[1 + k + 2..])
          case None => None
          case Some(t) => Some((d[1..1 + k], t))
        else None
  }

  /** The column type `create_table_with_auto_increment` asks for the
      column at index `j`. */
  function ColumnTypeAt(f: Frames.Frame, j: nat, money: seq<string>, render: Frames.Value -> string): MysqlType
    requires Frames.WellFormed(f) && j < |f.header|
  {
    GetMysqlType(f.header[j].dtype, f.header[j].name, Frames.Column(f.rows, j), money, render)
  }

  /** `columns_def`: the `id` column, then one definition per DataFrame
      column, in order. */
  function ColumnDefs(f: Frames.Frame, money: seq<string>, render: Frames.Value -> string): (defs: seq<string>)
    requires Frames.WellFormed(f)
    ensures |defs| == |f.header| + 1
    ensures defs[0] == IdColumnDef
  {
    [IdColumnDef] + seq(|f.header|, j requires 0 <= j < |f.header| =>
      ColumnDef(f.header[j].name, ColumnTypeAt(f, j, money, render)))
  }

  /** Joins strings with a separator, like `', '.join(...)`. */
  function Join(parts: seq<string>, sep: string): string {
    if |parts| == 0 then []
    else if |parts| == 1 then parts[0]
    else parts[0] + sep + Join(parts[1..], sep)
  }

  /** The statement of excel_to_mysql.py:145. It creates the table only when
      it does not exist yet; an existing table keeps its columns and rows. */
  function CreateTableSql(tableName: string, defs: seq<string>): string {
    "CREATE TABLE IF NOT EXISTS `" + tableName + "` (" + Join(defs, ", ") + ");"
  }

  // ---------------------------------------------------------------------
  // Lemmas
  // ---------------------------------------------------------------------

  lemma {:induction false} DigitsValueOfNatToString(n: nat)
    ensures DigitsValue(NatToString(n)) == n
    decreases n
  {
    var s := NatToString(n);
    if n >= 10 {
      DigitsValueOfNatToString(n / 10);
      assert s[..|s| - 1] == NatToString(n / 10);
    }
  }

  /** A rendered width reads back as itself. */
  lemma ParseNatToString(n: nat)
    ensures ParseNat(NatToString(n)) == Some(n)
  {
    DigitsValueOfNatToString(n);
  }

  /** Distinct types render as distinct names: every name reads back. */
  lemma TypeNameRoundTrip(t: MysqlType)
    ensures ParseTypeName(TypeName(t)) == Some(t)
  {
    if t.Varchar? {
      var s := TypeName(t);
      ParseNatToString(t.width);
      assert s[0] == 'V';
    }
  }

  /** The first `c` in `pre + [c] + post` is the one right after `pre`
      when `pre` has none. */
  lemma {:induction false} FindCharAfter(pre: string, c: char, post: string)
    requires c !in pre
    ensures FindChar(pre + [c] + post, c) == Some(|pre|)
    decreases |pre|
  {
    var s := pre + [c] + post;
    if |pre| > 0 {
      assert s[0] == pre[0];
      assert s[1..] == pre[1..] + [c] + post;
      FindCharAfter(pre[1..], c, post);
    }
  }

  /** A column definition reads back into its label and type when the label
      contains no backtick. */
  lemma ColumnDefRoundTrip(name: string, t: MysqlType)
    requires '`' !in name
    ensures ParseColumnDef(ColumnDef(name, t)) == Some((name, t))
  {
    var d := ColumnDef(name, t);
    var tn := TypeName(t);
    var post := " " + tn;
    assert d[1..] == name + ['`'] + post;
    FindCharAfter(name, '`', post);
    var k := |name|;
    assert d[1..1 + k] == name;
    assert d[1 + k + 1] == ' ';
    assert d[1 + k + 2..] == tn;
    TypeNameRoundTrip(t);
    assert ParseTypeName(d[1 + k + 2..]) == Some(t);
  }

  /** Entry `j + 1` of the column list names column `j` and carries the
      type inferred for it: it reads back into exactly that pair when the
      label has no backtick. */
  lemma ColumnDefsReadBack(f: Frames.Frame, money: seq<string>, render: Frames.Value -> string, j: nat)
    requires Frames.WellFormed(f) && j < |f.header|
    requires '`' !in f.header[j].name
    ensures ParseColumnDef(ColumnDefs(f, money, render)[j + 1]) ==
              Some((f.header[j].name, ColumnTypeAt(f, j, money, render)))
  {
    ColumnDefRoundTrip(f.header[j].name, ColumnTypeAt(f, j, money, render));
  }
}
