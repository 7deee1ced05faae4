/** The dump side's writing code (dump.go): the row loop of writeTableData,
    the records section it writes through the SafeWriter, and
    writeTableStruct. */
module Dump {
  import opened Base
  import opened Literal
  import opened Writer
  import opened Rows

  /** The row loop of writeTableData: appends each literal and a comma to the
      statement, and gives up at the first column the switch does not turn
      into a literal. */
  method RenderRow(table: string, cols: seq<Column>, row: seq<Value>, withoutPrimaryID: bool)
    returns (r: RowText)
    requires RowRenderable(cols, row)
    ensures r == Statement(table, Encodings(cols, row, withoutPrimaryID))
  {
    ghost var done: seq<Encoded> := [];
    ghost var lits: seq<string> := [];
    var dml := InsertPrefix(table);
    var i := 0;
    while i < |row|
      invariant 0 <= i <= |row| && |done| == i && |lits| == i
      invariant EncodedPrefix(cols, row, withoutPrimaryID, done)
      invariant ScanRow(done) == Lits(lits)
      invariant dml == PartialRow(table, lits, |row|)
    {
      var e := Encode(cols[i], row[i], withoutPrimaryID);
      assert (done + [e])[..i] == done;
      if !e.Lit? {
        EncodedHalt(cols, row, withoutPrimaryID, done + [e]);
        return Stop(e);
      }
      PartialRowStep(table, lits, e.text, |row|);
      dml := dml + e.text;
      if i < |row| - 1 {
        dml := dml + ",";
      }
      done := done + [e];
      lits := lits + [e.text];
      i := i + 1;
    }
    EncodedAll(cols, row, withoutPrimaryID, done);
    PartialRowDone(table, lits);
    dml := dml + ");\n";
    r := Row(dml);
  }

  /** The writer Dump sets up over its destination: a SafeWriter of
      BufferSize (1 << 20) characters, empty. */
  method NewDumpWriter(received: string) returns (w: SafeWriter)
    ensures fresh(w) && fresh(w.buf) && w.Valid()
    ensures w.buf.Length == BufferSize == 1048576
    ensures w.dest == received && w.Buffered() == []
  {
    w := new SafeWriter(received, BufferSize);
  }

  /** The three comment lines that open a table's section: a rule, the
      title line and a rule. */
  method WriteBanner(w: SafeWriter, title: string)
    requires w.Valid()
    modifies w, w.buf
    ensures w.Valid() && w.Written() == old(w.Written()) + Banner(title)
  {
    var _ := w.WriteString(Rule);
    var _ := w.WriteString(title);
    var _ := w.WriteString(Rule);
    Append3(old(w.Written()), Rule, title);
    Append3(old(w.Written()), Rule + title, Rule);
  }

  /** The row loop of writeTableData: each row's statement goes to the
      writer goroutine (modelled as sequential writes in fetch order) until
      a row stops. `stop` is what stopped it, or None once every row is
      written; `stmts` are the statements written. */
  method WriteRows(table: string, cols: seq<Column>, rows: seq<seq<Value>>, w: SafeWriter, withoutPrimaryID: bool)
    returns (stop: Option<Encoded>, ghost stmts: seq<string>)
    requires w.Valid() && RowsRenderable(cols, rows)
    modifies w, w.buf
    ensures w.Valid() && RowsDone(table, cols, rows, withoutPrimaryID, stmts)
    ensures w.Written() == old(w.Written()) + Concat(stmts)
    ensures stop.None? ==> |stmts| == |rows|
    ensures stop.Some? ==> |stmts| < |rows| && RowStatement(table, cols, rows[|stmts|], withoutPrimaryID) == Stop(stop.value)
  {
    stmts := [];
    var i := 0;
    while i < |rows|
      invariant w.Valid() && 0 <= i <= |rows| && |stmts| == i
      invariant RowsDone(table, cols, rows, withoutPrimaryID, stmts)
      invariant w.Written() == old(w.Written()) + Concat(stmts)
    {
      var r := RenderRow(table, cols, rows[i], withoutPrimaryID);
      if r.Stop? {
        return Some(r.cause), stmts;
      }
      var _ := w.WriteString(r.text);
      ConcatSnoc(stmts, r.text);
      Append3(old(w.Written()), Concat(stmts), r.text);
      assert (stmts + [r.text])[..i] == stmts;
      stmts := stmts + [r.text];
      i := i + 1;
    }
    stop := None;
  }

  /** writeTableData once the table's columns are known: the records header,
      the query, the rows, then the closing blank lines and the goroutine's
      final flush when every row was written. `result` is what the database
      answers to the query: its rows, or None when it rejects it. In the
      source the rows go through a channel to a goroutine while this code
      writes the closing blank lines itself, so the two can race, and the
      done signal can overtake a pending row; here every write is
      sequential, in fetch order. */
  method WriteTableData(table: string, where: string, cols: seq<Column>,
                        result: Option<seq<seq<Value>>>, w: SafeWriter, withoutPrimaryID: bool)
    returns (query: string, err: Option<Error>)
    requires w.Valid()
    requires result.Some? ==> RowsRenderable(cols, result.value)
    modifies w, w.buf
    ensures w.Valid() && query == SelectQuery(table, where)
    ensures result.None? ==>
      w.Written() == old(w.Written()) + RecordsHeader(table) && err == Some(QueryFailed(query))
    ensures result.Some? ==>
      var d := TableData(table, cols, result.value, withoutPrimaryID);
      w.Written() == old(w.Written()) + d.text && err == d.err && (d.flushed ==> w.Buffered() == [])
  {
    WriteBanner(w, RecordsTitle(table));
    query := SelectQuery(table, where);
    if result.None? {
      return query, Some(QueryFailed(query));
    }
    var stop, stmts := WriteRows(table, cols, result.value, w, withoutPrimaryID);
    Append3(old(w.Written()), RecordsHeader(table), Concat(stmts));
    if stop.Some? {
      TableDataStops(table, cols, result.value, withoutPrimaryID, stmts, stop.value);
      if stop.value.Unsupported? {
        return query, Some(UnsupportedType(stop.value.key));
      }
      return query, None;
    }
    TableDataComplete(table, cols, result.value, withoutPrimaryID, stmts);
    Append3(old(w.Written()), RecordsHeader(table) + Concat(stmts), "\n\n");
    var _ := w.WriteString("\n\n");
    w.Flush();
    err := None;
  }

  /** writeTableStruct: the structure header, then the rewritten CREATE TABLE
      text and its terminator. `shown` is what SHOW CREATE TABLE returns, or
      None when the database rejects it. */
  method WriteTableStruct(table: string, shown: Option<string>, w: SafeWriter)
    returns (query: string, err: Option<Error>)
    requires w.Valid()
    modifies w, w.buf
    ensures w.Valid() && query == "SHOW CREATE TABLE `" + table + "`"
    ensures shown.None? ==>
      w.Written() == old(w.Written()) + StructureHeader(table) && err == Some(QueryFailed(query))
    ensures shown.Some? ==>
      w.Written() == old(w.Written()) + StructureHeader(table) + CreateTableSql(shown.value) + ";" + "\n\n" + "\n\n"
      && err == None
  {
    WriteBanner(w, StructureTitle(table));
    query := "SHOW CREATE TABLE `" + table + "`";
    if shown.None? {
      return query, Some(QueryFailed(query));
    }
    var _ := w.WriteString(CreateTableSql(shown.value));
    var _ := w.WriteString(";");
    var _ := w.WriteString("\n\n");
    var _ := w.WriteString("\n\n");
    err := None;
  }
}

