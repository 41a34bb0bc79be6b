/** DatabaseMigrator::migrate_table: copy one table from the source database
    to the target, optionally creating it first, one INSERT per source row. */
module TableMigration {
  import opened Wrappers
  import opened Config
  import opened Postgres
  import Text
  import Convert
  import Ddl

  /** Why a migration stops; each case is an exception thrown by the migrator. */
  datatype MigrateError =
    | NotConfigured                                          // migrate before a configuration was loaded
    | SourceConnectionFailed
    | TargetConnectionFailed
    | DdlRejected                                            // CREATE TABLE did not end in PGRES_COMMAND_OK
    | MissingColumnRule(column: string)                      // columns.at(name) found no rule
    | MissingColumnType(column: string)                      // the rule has no "type"
    | ConversionFailed(column: string, cause: Text.StoiError) // convert_value threw through std::stoi
    | InsertRejected(row: nat)                               // the INSERT for this row was refused
    | ProgressDivisionByZero                                 // (current_rows * 100) / 0

  /** The statement that reads the whole source table. */
  function SelectAll(t: TableConfig): string {
    "SELECT * FROM " + t.source
  }

  /** What every INSERT of a table starts with. */
  function InsertPrefix(t: TableConfig): string {
    "INSERT INTO " + TargetName(t) + " VALUES ("
  }

  /** The literal written for one cell: NULL for an empty cell, otherwise the
      converted value between single quotes (quotes inside it are not escaped). */
  function CellLiteral(cols: map<string, ColumnRule>, name: string, value: string): Result<string, MigrateError> {
    if value == "" then Success("NULL")
    else if name !in cols then Failure(MissingColumnRule(name))
    else if "type" !in cols[name] then Failure(MissingColumnType(name))
    else match Convert.ConvertValue(value, cols[name]["type"])
      case Failure(e) => Failure(ConversionFailed(name, e))
      case Success(c) => Success("'" + c + "'")
  }

  /** The errors a single cell can raise. */
  predicate CellError(e: MigrateError) {
    e.MissingColumnRule? || e.MissingColumnType? || e.ConversionFailed?
  }

  /** The literals of the first k cells of a row, one per result column. */
  function RowValues(cols: map<string, ColumnRule>, fields: seq<string>, row: seq<string>, k: nat): (r: Result<seq<string>, MigrateError>)
    requires k <= |fields|
    ensures r.Failure? ==> CellError(r.error)
    ensures r.Success? ==> |r.value| == k
  {
    if k == 0 then Success([])
    else
      var init :- RowValues(cols, fields, row, k - 1);
      var lit :- CellLiteral(cols, fields[k - 1], Cell(row, k - 1));
      Success(init + [lit])
  }

  /** The INSERT statement for one source row. */
  function InsertStatement(t: TableConfig, fields: seq<string>, row: seq<string>): (r: Result<string, MigrateError>)
    ensures r.Failure? ==> CellError(r.error)
  {
    var values :- RowValues(t.columns, fields, row, |fields|);
    Success(InsertPrefix(t) + Text.Joined(values, ",") + ")")
  }

  /** The state of the target after the inserts for rows i.. were attempted. */
  datatype Inserted = Inserted(log: seq<string>, outcome: Outcome<MigrateError>)

  /** The row loop: rows are inserted in result order, and the first row whose
      statement cannot be built or is refused ends the loop. */
  function InsertRows(t: TableConfig, fields: seq<string>, rows: seq<seq<string>>, i: nat, server: Server, log: seq<string>): Inserted
    requires i <= |rows|
    decreases |rows| - i
  {
    if i == |rows| then Inserted(log, Pass)
    else match InsertStatement(t, fields, rows[i])
      case Failure(e) => Inserted(log, Fail(e))
      case Success(stmt) =>
        if !server(log, stmt).CommandOk? then Inserted(log + [stmt], Fail(InsertRejected(i)))
        else InsertRows(t, fields, rows, i + 1, server, log + [stmt])
  }

  /** The two databases one table migration talks to. */
  datatype Endpoints = Endpoints(sourceReachable: bool, sourceServer: Server, targetReachable: bool, targetServer: Server)

  /** The statements each connection received, and how the table migration ended. */
  datatype TableRun = TableRun(sourceLog: seq<string>, targetLog: seq<string>, outcome: Outcome<MigrateError>)

  /** migrate_table on fresh connections to the two endpoints. */
  function MigrateTableSpec(t: TableConfig, e: Endpoints): TableRun {
    if !e.sourceReachable then TableRun([], [], Fail(SourceConnectionFailed))
    else if !e.targetReachable then TableRun([], [], Fail(TargetConnectionFailed))
    else
      var ddlLog := DdlLog(t);
      if t.createIfMissing && !e.targetServer([], Ddl.DdlText(t)).CommandOk? then
        TableRun([], ddlLog, Fail(DdlRejected))
      else
        match e.sourceServer([], SelectAll(t))
        case TuplesOk(fields, rows) =>
          var ins := InsertRows(t, fields, rows, 0, e.targetServer, ddlLog);
          TableRun([SelectAll(t)], ins.log, ins.outcome)
        case _ => TableRun([SelectAll(t)], ddlLog, Pass)
  }

  /** One cell of the column loop: NULL for an empty cell; otherwise the
      column's rule and its "type" are looked up (std::map::at throws when
      either is missing) and the converted value is quoted. */
  method WriteCell(cols: map<string, ColumnRule>, name: string, value: string) returns (lit: Result<string, MigrateError>)
    ensures lit == CellLiteral(cols, name, value)
  {
    if value == "" {
      return Success("NULL");
    }
    if name !in cols {
      return Failure(MissingColumnRule(name));
    }
    if "type" !in cols[name] {
      return Failure(MissingColumnType(name));
    }
    var converted := Convert.ConvertValue(value, cols[name]["type"]);
    if converted.Failure? {
      return Failure(ConversionFailed(name, converted.error));
    }
    return Success("'" + converted.value + "'");
  }

  /** The inner (column) loop of migrate_table: writes one INSERT statement,
      a comma before every literal but the first. */
  method BuildInsert(t: TableConfig, fields: seq<string>, row: seq<string>) returns (r: Result<string, MigrateError>)
    ensures r == InsertStatement(t, fields, row)
  {
    var stmt := "INSERT INTO " + TargetName(t) + " VALUES (";
    ghost var values: seq<string> := [];
    for col := 0 to |fields|
      invariant RowValues(t.columns, fields, row, col) == Success(values)
      invariant stmt == InsertPrefix(t) + Text.Joined(values, ",")
    {
      var lit := WriteCell(t.columns, fields[col], Cell(row, col));
      if lit.Failure? {
        StatementFails(t, fields, row, col + 1);
        return Failure(lit.error);
      }
      if col > 0 {
        stmt := stmt + ",";
      }
      stmt := stmt + lit.value;
      JoinedStep(InsertPrefix(t), values, lit.value);
      values := values + [lit.value];
    }
    r := Success(stmt + ")");
  }

  /** Appending one literal to the statement: a comma first unless it is the first. */
  lemma JoinedStep(prefix: string, values: seq<string>, lit: string)
    ensures (if values == [] then prefix + Text.Joined(values, ",") + lit
             else prefix + Text.Joined(values, ",") + "," + lit) == prefix + Text.Joined(values + [lit], ",")
  {
    if values == [] {
      assert values + [lit] == [lit];
    } else {
      Text.JoinedSnoc(values, lit, ",");
    }
  }

  /** A row whose first k cells already fail gives no statement. */
  lemma StatementFails(t: TableConfig, fields: seq<string>, row: seq<string>, k: nat)
    requires 0 < k <= |fields| && RowValues(t.columns, fields, row, k - 1).Success?
    requires CellLiteral(t.columns, fields[k - 1], Cell(row, k - 1)).Failure?
    ensures InsertStatement(t, fields, row) == Failure(CellLiteral(t.columns, fields[k - 1], Cell(row, k - 1)).error)
  {
    assert RowValues(t.columns, fields, row, k) == Failure(CellLiteral(t.columns, fields[k - 1], Cell(row, k - 1)).error);
    RowFailurePersists(t.columns, fields, row, k);
  }

  // ------------------------------------------------------------- properties

  /** Once a cell of a row fails, the whole row fails with that cell's error. */
  lemma {:induction false} RowFailurePersists(cols: map<string, ColumnRule>, fields: seq<string>, row: seq<string>, k: nat)
    requires k <= |fields| && RowValues(cols, fields, row, k).Failure?
    ensures RowValues(cols, fields, row, |fields|) == RowValues(cols, fields, row, k)
    decreases |fields| - k
  {
    if k < |fields| {
      RowFailurePersists(cols, fields, row, k + 1);
    }
  }

  /** A cell's literal is NULL exactly when the cell is empty: a converted
      value is always quoted. */
  lemma NullExactlyWhenEmpty(cols: map<string, ColumnRule>, name: string, value: string)
    requires CellLiteral(cols, name, value).Success?
    ensures value == "" <==> CellLiteral(cols, name, value).value == "NULL"
  {
    if value != "" {
      assert CellLiteral(cols, name, value).value[0] == '\'';
    }
  }

  /** A row's statement lists one literal per result column, in column order:
      NULL for an empty cell, and a quoted converted value otherwise. */
  lemma {:induction false} RowLiterals(cols: map<string, ColumnRule>, fields: seq<string>, row: seq<string>, k: nat)
    requires k <= |fields| && RowValues(cols, fields, row, k).Success?
    ensures var vs := RowValues(cols, fields, row, k).value;
      |vs| == k &&
      forall j :: 0 <= j < k ==>
        CellLiteral(cols, fields[j], Cell(row, j)) == Success(vs[j]) &&
        (Cell(row, j) == "" <==> vs[j] == "NULL")
  {
    if k > 0 {
      var init := RowValues(cols, fields, row, k - 1);
      var lit := CellLiteral(cols, fields[k - 1], Cell(row, k - 1));
      assert init.Success? && lit.Success?;
      var vs := RowValues(cols, fields, row, k).value;
      assert vs == init.value + [lit.value];
      RowLiterals(cols, fields, row, k - 1);
      forall j | 0 <= j < k
        ensures CellLiteral(cols, fields[j], Cell(row, j)) == Success(vs[j])
        ensures Cell(row, j) == "" <==> vs[j] == "NULL"
      {
        if j < k - 1 {
          assert vs[j] == init.value[j];
        }
        NullExactlyWhenEmpty(cols, fields[j], Cell(row, j));
      }
    }
  }

  /** A non-empty cell needs a column rule with a "type". */
  lemma {:induction false} CellNeedsType(cols: map<string, ColumnRule>, fields: seq<string>, row: seq<string>, j: nat)
    requires j < |fields| && Cell(row, j) != ""
    requires fields[j] !in cols || "type" !in cols[fields[j]]
    ensures RowValues(cols, fields, row, |fields|).Failure?
  {
    assert RowValues(cols, fields, row, j + 1).Failure?;
    RowFailurePersists(cols, fields, row, j + 1);
  }

  /** out extends log with the statements of rows i, i+1, ... in order. */
  predicate SentRows(t: TableConfig, fields: seq<string>, rows: seq<seq<string>>, i: nat, log: seq<string>, out: seq<string>) {
    && log <= out
    && i + (|out| - |log|) <= |rows|
    && forall k :: |log| <= k < |out| ==> InsertStatement(t, fields, rows[i + (k - |log|)]) == Success(out[k])
  }

  /** The insert loop sends exactly the statements of rows i, i+1, ... in
      order; it covers every row when it passes, a refusal names the row whose
      statement was sent last, and any other failure is the next row's
      statement failing to build. */
  lemma {:induction false} InsertRowsSent(t: TableConfig, fields: seq<string>, rows: seq<seq<string>>, i: nat, server: Server, log: seq<string>)
    requires i <= |rows|
    decreases |rows| - i
    ensures var r := InsertRows(t, fields, rows, i, server, log);
      && SentRows(t, fields, rows, i, log, r.log)
      && (r.outcome.Pass? ==> i + (|r.log| - |log|) == |rows|)
      && (r.outcome.Fail? && r.outcome.error.InsertRejected? ==>
            |r.log| > |log| && r.outcome.error.row == i + (|r.log| - |log|) - 1)
      && (r.outcome.Fail? && !r.outcome.error.InsertRejected? ==>
            i + (|r.log| - |log|) < |rows| && InsertStatement(t, fields, rows[i + (|r.log| - |log|)]) == Failure(r.outcome.error))
  {
    if i < |rows| {
      var st := InsertStatement(t, fields, rows[i]);
      if st.Success? {
        var log' := log + [st.value];
        if server(log, st.value).CommandOk? {
          InsertRowsSent(t, fields, rows, i + 1, server, log');
          SentRowsStep(t, fields, rows, i, log, st.value, InsertRows(t, fields, rows, i + 1, server, log').log);
        } else {
          SentRowsStep(t, fields, rows, i, log, st.value, log');
        }
      }
    }
  }

  lemma SentRowsStep(t: TableConfig, fields: seq<string>, rows: seq<seq<string>>, i: nat, log: seq<string>, stmt: string, out: seq<string>)
    requires i < |rows| && InsertStatement(t, fields, rows[i]) == Success(stmt)
    requires out == log + [stmt] || SentRows(t, fields, rows, i + 1, log + [stmt], out)
    ensures SentRows(t, fields, rows, i, log, out)
  {
    var log' := log + [stmt];
    if out == log' {
      assert log <= out;
    } else {
      assert log <= out by {
        assert out[..|log|] == out[..|log'|][..|log|];
      }
      forall k | |log| <= k < |out|
        ensures InsertStatement(t, fields, rows[i + (k - |log|)]) == Success(out[k])
      {
        if k > |log| {
          assert InsertStatement(t, fields, rows[i + 1 + (k - |log'|)]) == Success(out[k]);
        } else {
          assert out[k] == log'[k];
        }
      }
    }
  }

  /** Every statement the insert loop sends is accepted, except a last one
      that was refused. */
  lemma {:induction false} InsertRowsAccepted(t: TableConfig, fields: seq<string>, rows: seq<seq<string>>, i: nat, server: Server, log: seq<string>)
    requires i <= |rows|
    decreases |rows| - i
    ensures var r := InsertRows(t, fields, rows, i, server, log);
      && log <= r.log
      && (forall k :: |log| <= k < |r.log| && (r.outcome.Pass? || k < |r.log| - 1) ==> server(r.log[..k], r.log[k]).CommandOk?)
      && (r.outcome.Fail? && r.outcome.error.InsertRejected? ==>
            |r.log| > |log| && !server(r.log[..|r.log| - 1], r.log[|r.log| - 1]).CommandOk?)
  {
    if i < |rows| {
      match InsertStatement(t, fields, rows[i])
      case Failure(e) =>
      case Success(stmt) =>
        var log' := log + [stmt];
        if server(log, stmt).CommandOk? {
          InsertRowsAccepted(t, fields, rows, i + 1, server, log');
          var r := InsertRows(t, fields, rows, i + 1, server, log');
          assert log <= r.log by {
            assert r.log[..|log|] == r.log[..|log'|][..|log|];
          }
          assert r.log[..|log|] == log && r.log[|log|] == stmt by {
            assert r.log[..|log'|] == log';
          }
        } else {
          assert log'[..|log|] == log;
        }
    }
  }

  /** The statements the target receives before the inserts. */
  function DdlLog(t: TableConfig): seq<string> {
    if t.createIfMissing then [Ddl.DdlText(t)] else []
  }

  /** The control flow of one table migration: a failed source connection is
      reported first and nothing is sent; DDL reaches the target only when the
      rule asks for it, as its first statement, and its refusal is the only way
      to get DdlRejected; when SELECT * does not return rows nothing is
      inserted and the table counts as migrated; otherwise the target receives,
      after the DDL, one INSERT per row in row order, all of them when the
      table passes. */
  lemma MigrateTableShape(t: TableConfig, e: Endpoints)
    ensures var r := MigrateTableSpec(t, e);
      && (!e.sourceReachable ==> r == TableRun([], [], Fail(SourceConnectionFailed)))
      && (e.sourceReachable && !e.targetReachable ==> r == TableRun([], [], Fail(TargetConnectionFailed)))
      && (r.outcome == Fail(DdlRejected) <==>
            e.sourceReachable && e.targetReachable && t.createIfMissing && !e.targetServer([], Ddl.DdlText(t)).CommandOk?)
      && (e.sourceReachable && e.targetReachable ==> DdlLog(t) <= r.targetLog)
      && (r.outcome != Fail(DdlRejected) && e.sourceReachable && e.targetReachable ==>
            r.sourceLog == [SelectAll(t)] &&
            match e.sourceServer([], SelectAll(t))
            case TuplesOk(fields, rows) =>
              SentRows(t, fields, rows, 0, DdlLog(t), r.targetLog) &&
              (r.outcome.Pass? ==> |r.targetLog| == |DdlLog(t)| + |rows|)
            case _ => r.outcome.Pass? && r.targetLog == DdlLog(t))
  {
    if e.sourceReachable && e.targetReachable {
      var ddlLog := DdlLog(t);
      if !(t.createIfMissing && !e.targetServer([], Ddl.DdlText(t)).CommandOk?) {
        match e.sourceServer([], SelectAll(t))
        case TuplesOk(fields, rows) =>
          InsertRowsSent(t, fields, rows, 0, e.targetServer, ddlLog);
        case _ =>
      }
    }
  }

  /** Without create_if_missing the target receives nothing but INSERT statements. */
  lemma OnlyInsertsWithoutDdl(t: TableConfig, e: Endpoints)
    requires !t.createIfMissing
    ensures var r := MigrateTableSpec(t, e);
      forall k :: 0 <= k < |r.targetLog| ==> InsertPrefix(t) <= r.targetLog[k]
  {
    MigrateTableShape(t, e);
    var r := MigrateTableSpec(t, e);
    if e.sourceReachable && e.targetReachable && e.sourceServer([], SelectAll(t)).TuplesOk? {
      var res := e.sourceServer([], SelectAll(t));
      forall k | 0 <= k < |r.targetLog|
        ensures InsertPrefix(t) <= r.targetLog[k]
      {
        assert InsertStatement(t, res.fields, res.rows[0 + (k - 0)]) == Success(r.targetLog[k]);
      }
    }
  }

  /** A run that passes sends every row's statement, so every non-empty cell of
      every row had a column rule with a "type" that converted. */
  lemma PassedRowsConverted(t: TableConfig, e: Endpoints, r: nat, j: nat)
    requires e.sourceReachable && e.targetReachable && e.sourceServer([], SelectAll(t)).TuplesOk?
    requires MigrateTableSpec(t, e).outcome.Pass?
    requires var res := e.sourceServer([], SelectAll(t)); r < |res.rows| && j < |res.fields|
    ensures var res := e.sourceServer([], SelectAll(t));
      CellLiteral(t.columns, res.fields[j], Cell(res.rows[r], j)).Success?
  {
    var res := e.sourceServer([], SelectAll(t));
    var ddlLog := DdlLog(t);
    InsertRowsSent(t, res.fields, res.rows, 0, e.targetServer, ddlLog);
    var ins := InsertRows(t, res.fields, res.rows, 0, e.targetServer, ddlLog);
    assert InsertStatement(t, res.fields, res.rows[r]).Success? by {
      var k := |ddlLog| + r;
      assert InsertStatement(t, res.fields, res.rows[0 + (k - |ddlLog|)]) == Success(ins.log[k]);
    }
    RowLiterals(t.columns, res.fields, res.rows[r], |res.fields|);
  }
}
