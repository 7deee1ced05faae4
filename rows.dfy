/** The text the dump side produces, as functions of its inputs: the SELECT
    query, the CREATE TABLE rewrite, the INSERT statement of one row and the
    records section of a table (dump.go). */
module Rows {
  import opened Base
  import opened Text
  import opened Literal

  const Rule: string := "-- ----------------------------\n"

  // ---- the SELECT query and the CREATE TABLE rewrite ----

  /** The query writeTableData sends for a table and a row filter. */
  function SelectQuery(table: string, where: string): (query: string)
  {
    var dml := "SELECT * FROM `" + table + "`";
    if TrimSpace(where) != [] then dml + " where " + where else dml
  }

  /** A blank filter adds nothing; any other filter is appended verbatim
      after " where ". */
  lemma SelectQueryFilter(table: string, where: string)
    ensures AllSpace(where) ==> SelectQuery(table, where) == "SELECT * FROM `" + table + "`"
    ensures !AllSpace(where) ==> SelectQuery(table, where) == "SELECT * FROM `" + table + "`" + " where " + where
  {
    TrimSpaceBlank(where);
  }

  /** getCreateTableSQL on the text SHOW CREATE TABLE returned. */
  function CreateTableSql(shown: string): (r: string)
  {
    ReplaceFirst(shown, "CREATE TABLE", "CREATE TABLE IF NOT EXISTS")
  }

  /** Only the first "CREATE TABLE" gains " IF NOT EXISTS"; taking those
      fourteen characters out again gives back the text SHOW CREATE TABLE
      returned. */
  lemma CreateTableSqlInverse(shown: string)
    ensures IndexOf(shown, "CREATE TABLE").None? ==> CreateTableSql(shown) == shown
    ensures IndexOf(shown, "CREATE TABLE").Some? ==>
      var i := IndexOf(shown, "CREATE TABLE").value;
      var r := CreateTableSql(shown);
      && |r| == |shown| + 14
      && r[..i] == shown[..i]
      && OccursAt(r, "CREATE TABLE IF NOT EXISTS", i)
      && r[..i + 12] + r[i + 26..] == shown
  {
    match IndexOf(shown, "CREATE TABLE")
    case None =>
    case Some(i) =>
      var r := CreateTableSql(shown);
      assert r == shown[..i] + "CREATE TABLE IF NOT EXISTS" + shown[i + 12..];
      assert r[..i + 12] == shown[..i + 12];
      assert r[i + 26..] == shown[i + 12..];
  }

  // ---- one row ----

  function InsertPrefix(table: string): (r: string)
  {
    "INSERT INTO `" + table + "` VALUES ("
  }

  /** The literals with a comma after every one but the last. */
  function JoinComma(xs: seq<string>): (r: string)
  {
    if xs == [] then ""
    else if |xs| == 1 then xs[0]
    else JoinComma(xs[..|xs| - 1]) + "," + xs[|xs| - 1]
  }

  /** A row the switch can render, one value per column. */
  predicate RowRenderable(cols: seq<Column>, row: seq<Value>)
  {
    |row| == |cols| &&
    forall k :: 0 <= k < |row| ==> row[k].Null? || Renderable(KindOf(TypeKey(cols[k].dbType)), row[k])
  }

  /** The outcome of the switch for each column of a row. */
  function Encodings(cols: seq<Column>, row: seq<Value>, z: bool): (es: seq<Encoded>)
    requires RowRenderable(cols, row)
    ensures |es| == |row|
  {
    seq(|row|, k requires 0 <= k < |row| => Encode(cols[k], row[k], z))
  }

  lemma EncodingAt(cols: seq<Column>, row: seq<Value>, z: bool, k: nat)
    requires RowRenderable(cols, row) && k < |row|
    ensures Encodings(cols, row, z)[k] == Encode(cols[k], row[k], z)
  {
  }

  /** The first column at or after i that does not become a literal. */
  function FirstStop(es: seq<Encoded>, i: nat): (r: Option<nat>)
    requires i <= |es|
    ensures r.Some? ==> i <= r.value < |es| && !es[r.value].Lit?
    ensures r.Some? ==> forall k :: i <= k < r.value ==> es[k].Lit?
    ensures r.None? ==> forall k :: i <= k < |es| ==> es[k].Lit?
    decreases |es| - i
  {
    if i == |es| then None
    else if !es[i].Lit? then Some(i)
    else FirstStop(es, i + 1)
  }

  /** The literals of the first i columns. */
  function Literals(es: seq<Encoded>, i: nat): (r: seq<string>)
    requires i <= |es|
    requires forall k :: 0 <= k < i ==> es[k].Lit?
    ensures |r| == i && forall k :: 0 <= k < i ==> r[k] == es[k].text
  {
    if i == 0 then [] else Literals(es, i - 1) + [es[i - 1].text]
  }

  /** The literals of a row, or the outcome of its first column that is not
      a literal. */
  datatype Scan = Lits(lits: seq<string>) | Halt(cause: Encoded)

  /** The row loop's view of the columns, one column at a time. */
  function ScanRow(es: seq<Encoded>): (r: Scan)
  {
    if es == [] then Lits([])
    else
      match ScanRow(es[..|es| - 1])
      case Halt(c) => Halt(c)
      case Lits(ls) => if es[|es| - 1].Lit? then Lits(ls + [es[|es| - 1].text]) else Halt(es[|es| - 1])
  }

  /** The scan agrees with the reference reading: the row halts at its first
      column that is not a literal, and otherwise yields every literal in
      column order. */
  lemma {:induction false} ScanRowFirstStop(es: seq<Encoded>)
    ensures FirstStop(es, 0).Some? ==> ScanRow(es) == Halt(es[FirstStop(es, 0).value])
    ensures FirstStop(es, 0).None? ==> ScanRow(es) == Lits(Literals(es, |es|))
    decreases |es|
  {
    if es != [] {
      var p := es[..|es| - 1];
      ScanRowFirstStop(p);
      assert forall k :: 0 <= k < |p| ==> p[k] == es[k];
      if FirstStop(p, 0).None? {
        assert Literals(es, |p|) == Literals(p, |p|) by {
          LiteralsPrefix(es, p, |p|);
        }
      }
    }
  }

  lemma {:induction false} LiteralsPrefix(es: seq<Encoded>, p: seq<Encoded>, i: nat)
    requires i <= |p| <= |es| && forall k :: 0 <= k < |p| ==> p[k] == es[k]
    requires forall k :: 0 <= k < i ==> es[k].Lit?
    ensures Literals(es, i) == Literals(p, i)
    decreases i
  {
    if i > 0 {
      LiteralsPrefix(es, p, i - 1);
    }
  }

  /** Once a prefix of the row halts, the whole row halts the same way. */
  lemma {:induction false} ScanHaltKept(es: seq<Encoded>, n: nat)
    requires n <= |es| && ScanRow(es[..n]).Halt?
    ensures ScanRow(es) == ScanRow(es[..n])
    decreases |es| - n
  {
    if n < |es| {
      assert es[..n + 1][..n] == es[..n];
      ScanHaltKept(es, n + 1);
    } else {
      assert es[..n] == es;
    }
  }

  /** Columns already encoded one by one, in column order, from the front of
      the row. */
  predicate EncodedPrefix(cols: seq<Column>, row: seq<Value>, z: bool, done: seq<Encoded>)
    requires RowRenderable(cols, row)
    decreases |done|
  {
    |done| <= |row| &&
    (done == [] ||
     (EncodedPrefix(cols, row, z, done[..|done| - 1]) &&
      done[|done| - 1] == Encode(cols[|done| - 1], row[|done| - 1], z)))
  }

  lemma {:induction false} EncodedPrefixAt(cols: seq<Column>, row: seq<Value>, z: bool, done: seq<Encoded>, k: nat)
    requires RowRenderable(cols, row) && EncodedPrefix(cols, row, z, done) && k < |done|
    ensures done[k] == Encode(cols[k], row[k], z)
    decreases |done|
  {
    if k < |done| - 1 {
      EncodedPrefixAt(cols, row, z, done[..|done| - 1], k);
    }
  }

  /** Encoding every column one by one gives the row's encodings. */
  lemma EncodedAll(cols: seq<Column>, row: seq<Value>, z: bool, done: seq<Encoded>)
    requires RowRenderable(cols, row) && EncodedPrefix(cols, row, z, done) && |done| == |row|
    ensures Encodings(cols, row, z) == done
  {
    var es := Encodings(cols, row, z);
    forall k | 0 <= k < |row|
      ensures es[k] == done[k]
    {
      EncodingAt(cols, row, z, k);
      EncodedPrefixAt(cols, row, z, done, k);
    }
  }

  /** Once the columns encoded so far halt the scan, the whole row halts the
      same way. */
  lemma EncodedHalt(cols: seq<Column>, row: seq<Value>, z: bool, done: seq<Encoded>)
    requires RowRenderable(cols, row) && EncodedPrefix(cols, row, z, done)
    requires ScanRow(done).Halt?
    ensures ScanRow(Encodings(cols, row, z)) == ScanRow(done)
  {
    var es := Encodings(cols, row, z);
    forall k | 0 <= k < |done|
      ensures es[k] == done[k]
    {
      EncodingAt(cols, row, z, k);
      EncodedPrefixAt(cols, row, z, done, k);
    }
    assert es[..|done|] == done;
    ScanHaltKept(es, |done|);
  }

  /** The statement as the row loop has built it after the literals `lits`
      of a row of n columns: a comma follows every literal but the row's
      last. */
  function PartialRow(table: string, lits: seq<string>, n: nat): (r: string)
  {
    InsertPrefix(table) + JoinComma(lits) + (if 0 < |lits| < n then "," else "")
  }

  /** One more literal extends the partial statement by the literal, and by
      a comma unless it is the row's last. */
  lemma PartialRowStep(table: string, lits: seq<string>, t: string, n: nat)
    requires |lits| < n
    ensures |lits| < n - 1 ==> PartialRow(table, lits + [t], n) == PartialRow(table, lits, n) + t + ","
    ensures |lits| == n - 1 ==> PartialRow(table, lits + [t], n) == PartialRow(table, lits, n) + t
  {
    JoinCommaSnoc(lits, t);
    var tail := if |lits| < n - 1 then "," else "";
    if lits == [] {
      Regroup(InsertPrefix(table), "", "", t, tail);
    } else {
      Regroup(InsertPrefix(table), JoinComma(lits), ",", t, tail);
    }
  }

  /** Appending a literal after the text so far, comma included. */
  lemma Regroup(p: string, j: string, c: string, t: string, tail: string)
    ensures p + (j + c + t) + tail == p + j + c + t + tail
  {
  }

  /** Once every column has its literal, the closing parenthesis completes
      the statement. */
  lemma PartialRowDone(table: string, lits: seq<string>)
    ensures PartialRow(table, lits, |lits|) + ");\n" == InsertPrefix(table) + JoinComma(lits) + ");\n"
  {
  }

  /** A row's statement, or the outcome of the column that stopped it. */
  datatype RowText = Row(text: string) | Stop(cause: Encoded)

  /** INSERT INTO `t` VALUES (literals joined by commas);\n, or the first
      column that does not become a literal. */
  function Statement(table: string, es: seq<Encoded>): (r: RowText)
  {
    match ScanRow(es)
    case Lits(ls) => Row(InsertPrefix(table) + JoinComma(ls) + ");\n")
    case Halt(c) => Stop(c)
  }

  function RowStatement(table: string, cols: seq<Column>, row: seq<Value>, z: bool): (r: RowText)
    requires RowRenderable(cols, row)
  {
    Statement(table, Encodings(cols, row, z))
  }

  /** A row stops only at a column that did not become a literal. */
  lemma StopCause(table: string, es: seq<Encoded>)
    ensures Statement(table, es).Stop? ==> !Statement(table, es).cause.Lit?
  {
    ScanRowFirstStop(es);
  }

  lemma JoinCommaSnoc(xs: seq<string>, t: string)
    ensures JoinComma(xs + [t]) == if xs == [] then t else JoinComma(xs) + "," + t
  {
    assert (xs + [t])[..|xs|] == xs;
  }

  /** A nil value renders as NULL whatever its column's type: it never
      reaches the switch or its unsupported-type error. */
  lemma {:induction false} NullScan(es: seq<Encoded>)
    requires forall k :: 0 <= k < |es| ==> es[k] == Lit("NULL")
    ensures ScanRow(es) == Lits(seq(|es|, _ => "NULL"))
    decreases |es|
  {
    if es != [] {
      NullScan(es[..|es| - 1]);
      assert seq(|es| - 1, _ => "NULL") + ["NULL"] == seq(|es|, _ => "NULL");
    }
  }

  lemma NullRow(table: string, cols: seq<Column>, row: seq<Value>, z: bool)
    requires RowRenderable(cols, row)
    requires forall k :: 0 <= k < |row| ==> row[k].Null?
    ensures RowStatement(table, cols, row, z) == Row(InsertPrefix(table) + JoinComma(seq(|row|, _ => "NULL")) + ");\n")
  {
    var es := Encodings(cols, row, z);
    forall k | 0 <= k < |row|
      ensures es[k] == Lit("NULL")
    {
      EncodingAt(cols, row, z, k);
    }
    NullScan(es);
  }

  /** A row stops at the first column whose value the switch does not turn
      into a literal, with that column's outcome. */
  lemma RowStopsAt(table: string, cols: seq<Column>, row: seq<Value>, z: bool, j: nat)
    requires RowRenderable(cols, row) && j < |row|
    requires forall c :: 0 <= c < j ==> Encode(cols[c], row[c], z).Lit?
    requires !Encode(cols[j], row[j], z).Lit?
    ensures RowStatement(table, cols, row, z) == Stop(Encode(cols[j], row[j], z))
  {
    var es := Encodings(cols, row, z);
    forall c | 0 <= c <= j
      ensures es[c] == Encode(cols[c], row[c], z)
    {
      EncodingAt(cols, row, z, c);
    }
    assert FirstStop(es, 0) == Some(j);
    ScanRowFirstStop(es);
  }

  // ---- the records of a table ----

  /** The three comment lines that open a section of the dump. */
  function Banner(title: string): (r: string)
  {
    Rule + title + Rule
  }

  function RecordsTitle(table: string): (r: string)
  {
    "-- Records of " + table + "\n"
  }

  function RecordsHeader(table: string): (r: string)
  {
    Banner(RecordsTitle(table))
  }

  function Concat(xs: seq<string>): (r: string)
  {
    if xs == [] then "" else Concat(xs[..|xs| - 1]) + xs[|xs| - 1]
  }

  lemma ConcatSnoc(xs: seq<string>, t: string)
    ensures Concat(xs + [t]) == Concat(xs) + t
  {
    assert (xs + [t])[..|xs|] == xs;
  }

  predicate RowsRenderable(cols: seq<Column>, rows: seq<seq<Value>>)
  {
    forall k :: 0 <= k < |rows| ==> RowRenderable(cols, rows[k])
  }

  /** The statement or the stop of every row, in fetch order. */
  function Outcomes(table: string, cols: seq<Column>, rows: seq<seq<Value>>, z: bool): (os: seq<RowText>)
    requires RowsRenderable(cols, rows)
    ensures |os| == |rows|
  {
    seq(|rows|, k requires 0 <= k < |rows| => RowStatement(table, cols, rows[k], z))
  }

  lemma OutcomeAt(table: string, cols: seq<Column>, rows: seq<seq<Value>>, z: bool, k: nat)
    requires RowsRenderable(cols, rows) && k < |rows|
    ensures Outcomes(table, cols, rows, z)[k] == RowStatement(table, cols, rows[k], z)
  {
  }

  /** The statements of the rows up to the first row that stops, and what
      stopped it. */
  function Collect(os: seq<RowText>): (r: (seq<string>, Option<Encoded>))
    ensures |r.0| <= |os|
    ensures forall k :: 0 <= k < |r.0| ==> os[k] == Row(r.0[k])
    ensures r.1.None? ==> |r.0| == |os|
    ensures r.1.Some? ==> |r.0| < |os| && os[|r.0|] == Stop(r.1.value)
  {
    if os == [] then ([], None)
    else
      var (stmts, stop) := Collect(os[..|os| - 1]);
      if stop.Some? then (stmts, stop)
      else
        match os[|os| - 1]
        case Row(t) => (stmts + [t], None)
        case Stop(c) => (stmts, Some(c))
  }

  /** The rows before the first stopping row give the statements, and the
      stopping row gives the stop. */
  lemma CollectStopAt(os: seq<RowText>, stmts: seq<string>, c: Encoded)
    requires |stmts| < |os| && os[|stmts|] == Stop(c)
    requires forall k :: 0 <= k < |stmts| ==> os[k] == Row(stmts[k])
    ensures Collect(os) == (stmts, Some(c))
  {
    var r := Collect(os);
    assert r.1.Some? && |r.0| == |stmts|;
    assert r.0 == stmts;
  }

  /** Every row has its statement: the statements are all of them. */
  lemma CollectAllRows(os: seq<RowText>, stmts: seq<string>)
    requires |stmts| == |os|
    requires forall k :: 0 <= k < |os| ==> os[k] == Row(stmts[k])
    ensures Collect(os) == (stmts, None)
  {
    var r := Collect(os);
    assert r.0 == stmts;
  }

  /** The first |stmts| rows of the table have exactly these statements. */
  predicate RowsDone(table: string, cols: seq<Column>, rows: seq<seq<Value>>, z: bool, stmts: seq<string>)
    requires RowsRenderable(cols, rows)
    decreases |stmts|
  {
    |stmts| <= |rows| &&
    (stmts == [] ||
     (RowsDone(table, cols, rows, z, stmts[..|stmts| - 1]) &&
      RowStatement(table, cols, rows[|stmts| - 1], z) == Row(stmts[|stmts| - 1])))
  }

  lemma {:induction false} RowsDoneAt(table: string, cols: seq<Column>, rows: seq<seq<Value>>, z: bool,
                                      stmts: seq<string>, k: nat)
    requires RowsRenderable(cols, rows) && RowsDone(table, cols, rows, z, stmts) && k < |stmts|
    ensures Outcomes(table, cols, rows, z)[k] == Row(stmts[k])
    decreases |stmts|
  {
    if k < |stmts| - 1 {
      RowsDoneAt(table, cols, rows, z, stmts[..|stmts| - 1], k);
    } else {
      OutcomeAt(table, cols, rows, z, k);
    }
  }

  /** Rows rendered one by one up to a row that stops give the table's
      outcome for that stop. */
  lemma TableDataStops(table: string, cols: seq<Column>, rows: seq<seq<Value>>, z: bool,
                       stmts: seq<string>, c: Encoded)
    requires RowsRenderable(cols, rows) && RowsDone(table, cols, rows, z, stmts) && |stmts| < |rows|
    requires RowStatement(table, cols, rows[|stmts|], z) == Stop(c)
    ensures TableData(table, cols, rows, z) == Records(table, (stmts, Some(c)))
  {
    var os := Outcomes(table, cols, rows, z);
    forall k | 0 <= k < |stmts|
      ensures os[k] == Row(stmts[k])
    {
      RowsDoneAt(table, cols, rows, z, stmts, k);
    }
    OutcomeAt(table, cols, rows, z, |stmts|);
    CollectStopAt(os, stmts, c);
  }

  /** Rows rendered one by one to the end give the table's outcome with
      every statement. */
  lemma TableDataComplete(table: string, cols: seq<Column>, rows: seq<seq<Value>>, z: bool, stmts: seq<string>)
    requires RowsRenderable(cols, rows) && RowsDone(table, cols, rows, z, stmts) && |stmts| == |rows|
    ensures TableData(table, cols, rows, z) == Records(table, (stmts, None))
  {
    var os := Outcomes(table, cols, rows, z);
    forall k | 0 <= k < |stmts|
      ensures os[k] == Row(stmts[k])
    {
      RowsDoneAt(table, cols, rows, z, stmts, k);
    }
    CollectAllRows(os, stmts);
  }

  /** What writeTableData leaves in the sink once the query has succeeded,
      the error it returns, and whether its writer goroutine was told to
      flush. */
  datatype TableResult = TableResult(text: string, err: Option<Error>, flushed: bool)

  function Records(table: string, collected: (seq<string>, Option<Encoded>)): (r: TableResult)
  {
    var body := RecordsHeader(table) + Concat(collected.0);
    match collected.1
    case None => TableResult(body + "\n\n", None, true)
    case Some(cause) =>
      if cause.Unsupported? then TableResult(body, Some(UnsupportedType(cause.key)), false)
      else TableResult(body, None, false)   // the failed type assertion returns the still-nil err
  }

  function TableData(table: string, cols: seq<Column>, rows: seq<seq<Value>>, z: bool): (r: TableResult)
    requires RowsRenderable(cols, rows)
  {
    Records(table, Collect(Outcomes(table, cols, rows, z)))
  }

  /** The table's outcome once row i stops and every earlier row has its
      statement. */
  lemma TableStopsAt(table: string, cols: seq<Column>, rows: seq<seq<Value>>, z: bool, i: nat, c: Encoded)
    requires RowsRenderable(cols, rows) && i < |rows|
    requires forall k :: 0 <= k < i ==> RowStatement(table, cols, rows[k], z).Row?
    requires RowStatement(table, cols, rows[i], z) == Stop(c)
    ensures TableData(table, cols, rows, z) ==
      Records(table, (seq(i, k requires 0 <= k < i => RowStatement(table, cols, rows[k], z).text), Some(c)))
  {
    var os := Outcomes(table, cols, rows, z);
    var stmts := seq(i, k requires 0 <= k < i => RowStatement(table, cols, rows[k], z).text);
    forall k | 0 <= k <= i
      ensures os[k] == RowStatement(table, cols, rows[k], z)
    {
      OutcomeAt(table, cols, rows, z, k);
    }
    CollectStopAt(os, stmts, c);
  }

  /** An unsupported column type ends the table with the error
      "unsupported type: <key>", after the statements of the earlier rows and
      without any text of the row that met it. */
  lemma UnsupportedTypeEndsTable(table: string, cols: seq<Column>, rows: seq<seq<Value>>, z: bool,
                                 i: nat, j: nat)
    requires RowsRenderable(cols, rows) && i < |rows| && j < |cols|
    requires forall k :: 0 <= k < i ==> RowStatement(table, cols, rows[k], z).Row?
    requires forall c :: 0 <= c < j ==> Encode(cols[c], rows[i][c], z).Lit?
    requires !rows[i][j].Null? && KindOf(TypeKey(cols[j].dbType)) == UnknownKind
    ensures var d := TableData(table, cols, rows, z);
      && d.err == Some(UnsupportedType(TypeKey(cols[j].dbType)))
      && Message(d.err.value) == "unsupported type: " + TypeKey(cols[j].dbType)
      && d.text == RecordsHeader(table) + Concat(seq(i, k requires 0 <= k < i => RowStatement(table, cols, rows[k], z).text))
      && !d.flushed
  {
    RowStopsAt(table, cols, rows[i], z, j);
    TableStopsAt(table, cols, rows, z, i, Unsupported(TypeKey(cols[j].dbType)));
  }

  /** A DATE, DATETIME, TIMESTAMP, TIME or YEAR value of the wrong Go type
      ends the table silently: the nil error, no closing blank lines, no
      flush request. */
  lemma ConversionFailureIsSilent(table: string, cols: seq<Column>, rows: seq<seq<Value>>, z: bool,
                                  i: nat, j: nat)
    requires RowsRenderable(cols, rows) && i < |rows| && j < |cols|
    requires forall k :: 0 <= k < i ==> RowStatement(table, cols, rows[k], z).Row?
    requires forall c :: 0 <= c < j ==> Encode(cols[c], rows[i][c], z).Lit?
    requires !rows[i][j].Null?
    requires var kind := KindOf(TypeKey(cols[j].dbType));
      ((kind == DateKind || kind == DateTimeKind) && !rows[i][j].Time?) ||
      ((kind == TimeKind || kind == YearKind) && !rows[i][j].Bytes?)
    ensures var d := TableData(table, cols, rows, z);
      d.err == None && !d.flushed
      && d.text == RecordsHeader(table) + Concat(seq(i, k requires 0 <= k < i => RowStatement(table, cols, rows[k], z).text))
  {
    RowStopsAt(table, cols, rows[i], z, j);
    TableStopsAt(table, cols, rows, z, i, Encode(cols[j], rows[i][j], z));
  }

  lemma Append3(a: string, b: string, c: string)
    ensures a + (b + c) == a + b + c
  {
  }

  function StructureTitle(table: string): (r: string)
  {
    "-- Table structure for " + table + "\n"
  }

  function StructureHeader(table: string): (r: string)
  {
    Banner(StructureTitle(table))
  }

}
