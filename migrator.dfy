/** The DatabaseMigrator class (database_migrator.h): the loaded configuration
    and the operations that run a migration against two databases. */
module Migrator {
  import opened Wrappers
  import opened JsonValue
  import opened Config
  import opened Postgres
  import opened TableMigration
  import opened Orchestration
  import Ddl

  class DatabaseMigrator {
    var sourceDb: DatabaseConfig
    var targetDb: DatabaseConfig
    var tables: seq<TableConfig>
    var isConfigInitialized: bool

    /** The configuration the migrator holds. */
    function Configuration(): MigrationConfig
      reads this
    {
      MigrationConfig(sourceDb, targetDb, tables)
    }

    /** The object before load_config has run: nothing is configured yet. */
    constructor Unconfigured()
      ensures !isConfigInitialized && tables == []
    {
      sourceDb := DatabaseConfig("", 0, "", "", "");
      targetDb := DatabaseConfig("", 0, "", "", "");
      tables := [];
      isConfigInitialized := false;
    }

    /** DatabaseMigrator(config_path): load_config runs in the constructor and
        its exception escapes it, so a document that does not parse yields no
        migrator at all. */
    static method Open(doc: Json) returns (r: Result<DatabaseMigrator, ConfigError>)
      ensures r.Failure? <==> ParseConfig(doc).Failure?
      ensures r.Failure? ==> r.error == ParseConfig(doc).error
      ensures r.Success? ==> fresh(r.value) && r.value.isConfigInitialized && r.value.Configuration() == ParseConfig(doc).value
    {
      var m := new DatabaseMigrator.Unconfigured();
      var outcome := m.LoadConfig(doc);
      if outcome.Fail? {
        return Failure(outcome.error);
      }
      return Success(m);
    }

    /** load_config on a parsed document: the two endpoints are assigned first,
        then the table list is cleared and refilled rule by rule; the object is
        marked configured only when everything has parsed. */
    method LoadConfig(doc: Json) returns (r: Outcome<ConfigError>)
      modifies this
      ensures r.Pass? <==> ParseConfig(doc).Success?
      ensures r.Pass? ==> isConfigInitialized && Configuration() == ParseConfig(doc).value
      ensures r.Fail? ==> r.error == ParseConfig(doc).error && isConfigInitialized == old(isConfigInitialized)
    {
      var top: map<string, Json>;
      if doc.JObject? {
        top := doc.fields;
      } else if doc.JNull? {
        top := map[];
      } else {
        return Fail(DocumentNotObject);
      }
      var source := ParseEndpoint(Member(top, "source_database"));
      if source.Failure? {
        return Fail(source.error);
      }
      sourceDb := source.value;
      var target := ParseEndpoint(Member(top, "target_database"));
      if target.Failure? {
        return Fail(target.error);
      }
      targetDb := target.value;
      if "tables" in top {
        if !top["tables"].JArray? {
          return Fail(TablesNotArray);
        }
        var items := top["tables"].items;
        tables := [];
        for i := 0 to |items|
          invariant ParseTables(items[..i]) == Success(tables)
          invariant sourceDb == source.value && targetDb == target.value
          invariant isConfigInitialized == old(isConfigInitialized)
        {
          var table := ParseTable(items[i]);
          assert items[..i + 1][..i] == items[..i] && items[..i + 1][i] == items[i];
          if table.Failure? {
            assert ParseTables(items[..i + 1]) == Failure(table.error);
            TablesFailurePersists(items, i + 1);
            ConfigTablesFail(doc, top, table.error);
            return Fail(table.error);
          }
          tables := tables + [table.value];
        }
        assert items[..|items|] == items;
      } else {
        tables := [];
      }
      isConfigInitialized := true;
      r := Pass;
    }

    /** migrate_table: opens a connection to each database, optionally creates
        the target table, copies the rows, and closes both connections only
        when everything succeeded (an exception leaves them open). */
    method MigrateTable(table: TableConfig, e: Endpoints) returns (r: Outcome<MigrateError>, src: Connection, tgt: Connection)
      ensures fresh(src) && fresh(tgt)
      ensures src.connStr == ConnectionString(sourceDb) && tgt.connStr == ConnectionString(targetDb)
      ensures TableRun(src.log, tgt.log, r) == MigrateTableSpec(table, e)
      ensures src.finished == r.Pass? && tgt.finished == r.Pass?
    {
      src := new Connection(ConnectionString(sourceDb), e.sourceReachable, e.sourceServer);
      tgt := new Connection(ConnectionString(targetDb), e.targetReachable, e.targetServer);
      if !src.ok {
        r := Fail(SourceConnectionFailed);
        return;
      }
      if !tgt.ok {
        r := Fail(TargetConnectionFailed);
        return;
      }
      if table.createIfMissing {
        var ddl := Ddl.GenerateDdl(table);
        var created := tgt.Exec(ddl);
        if !created.CommandOk? {
          r := Fail(DdlRejected);
          return;
        }
      }
      assert tgt.log == DdlLog(table);
      var res := src.Exec("SELECT * FROM " + table.source);
      assert src.log == [SelectAll(table)];
      if res.TuplesOk? {
        r := InsertAll(table, res.fields, res.rows, tgt);
        if r.Fail? {
          return;
        }
      }
      src.Finish();
      tgt.Finish();
      r := Pass;
    }

    /** One migrate_table call of the migration loop. */
    method RunTable(i: nat, env: Environment) returns (outcome: Outcome<MigrateError>)
      requires i < |tables|
      ensures outcome == TableOutcomes(tables, env)(i)
    {
      var src, tgt;
      outcome, src, tgt := MigrateTable(tables[i], env.endpoints(i));
    }

    /** migrate: with a callback, first sums the row counts of the included
        tables; then migrates each included table in order and, with a
        callback, reports (current_rows * 100) / total_rows after each. */
    method Migrate(callback: bool, env: Environment) returns (run: MigrationRun)
      ensures run == RunMigration(isConfigInitialized, tables, callback, env)
    {
      var totalRows: nat := 0;
      var currentRows: nat := 0;
      if !isConfigInitialized {
        return MigrationRun(Fail(NotConfigured), [], []);
      }
      if callback {
        totalRows := CountRows(tables, env.countBefore);
      }
      ghost var outcomes := TableOutcomes(tables, env);
      ghost var target := RunMigration(isConfigInitialized, tables, callback, env);
      assert target == MigrateFrom(tables, 0, callback, totalRows, 0, outcomes, env.countAfter, [], []);
      var migrated: seq<nat> := [];
      var reports: seq<int> := [];
      for i := 0 to |tables|
        invariant MigrateFrom(tables, i, callback, totalRows, currentRows, outcomes, env.countAfter, migrated, reports) == target
      {
        if tables[i].exclude {
          assert MigrateFrom(tables, i, callback, totalRows, currentRows, outcomes, env.countAfter, migrated, reports) ==
                 MigrateFrom(tables, i + 1, callback, totalRows, currentRows, outcomes, env.countAfter, migrated, reports);
          continue;
        }
        var outcome := RunTable(i, env);
        if outcome.Fail? {
          return MigrationRun(outcome, migrated + [i], reports);
        }
        if callback {
          var count := env.countAfter(i);
          if count.Some? {
            currentRows := currentRows + count.value;
          }
          if totalRows == 0 {
            return MigrationRun(Fail(ProgressDivisionByZero), migrated + [i], reports);
          }
          var progress := (currentRows * 100) / totalRows;
          assert progress == Progress(currentRows, totalRows);
          reports := reports + [progress];
        }
        migrated := migrated + [i];
      }
      run := MigrationRun(Pass, migrated, reports);
    }
  }

  /** The counting loop of migrate: the row counts of the included tables,
      a count that could not be read adding nothing. */
  method CountRows(tables: seq<TableConfig>, countBefore: nat -> Option<nat>) returns (total: nat)
    ensures total == TotalRows(tables, countBefore, |tables|)
  {
    total := 0;
    for i := 0 to |tables|
      invariant total == TotalRows(tables, countBefore, i)
    {
      if !tables[i].exclude {
        var count := countBefore(i);
        if count.Some? {
          total := total + count.value;
        }
      }
    }
  }

  /** The row loop of migrate_table: one INSERT per row, in row order, until a
      row does not convert or the target refuses its statement. */
  method InsertAll(table: TableConfig, fields: seq<string>, rows: seq<seq<string>>, tgt: Connection) returns (r: Outcome<MigrateError>)
    requires tgt.ok && !tgt.finished
    modifies tgt`log
    ensures Inserted(tgt.log, r) == InsertRows(table, fields, rows, 0, tgt.server, old(tgt.log))
  {
    for row := 0 to |rows|
      invariant InsertRows(table, fields, rows, row, tgt.server, tgt.log) ==
                InsertRows(table, fields, rows, 0, tgt.server, old(tgt.log))
    {
      var stmt := BuildInsert(table, fields, rows[row]);
      if stmt.Failure? {
        return Fail(stmt.error);
      }
      var inserted := tgt.Exec(stmt.value);
      if !inserted.CommandOk? {
        return Fail(InsertRejected(row));
      }
    }
    r := Pass;
  }

  /** A document whose endpoints parse fails exactly as its table list does. */
  lemma ConfigTablesFail(doc: Json, top: map<string, Json>, e: ConfigError)
    requires (doc.JObject? && top == doc.fields) || (doc.JNull? && top == map[])
    requires ParseEndpoint(Member(top, "source_database")).Success?
    requires ParseEndpoint(Member(top, "target_database")).Success?
    requires "tables" in top && top["tables"].JArray? && ParseTables(top["tables"].items) == Failure(e)
    ensures ParseConfig(doc) == Failure(e)
  {
  }

  /** Once a table rule fails to parse, the whole list fails with its error. */
  lemma {:induction false} TablesFailurePersists(items: seq<Json>, k: nat)
    requires k <= |items| && ParseTables(items[..k]).Failure?
    ensures ParseTables(items) == ParseTables(items[..k])
    decreases |items| - k
  {
    if k < |items| {
      assert items[..k + 1][..k] == items[..k];
      TablesFailurePersists(items, k + 1);
    } else {
      assert items[..k] == items;
    }
  }
}
