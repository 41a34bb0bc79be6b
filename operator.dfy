/** The DatabaseOperator class (database_operator.h): manual access to one
    PostgreSQL database — connect, run statements, and copy tables out to a
    backup or back in from one. Files are not modelled: whether a file opens,
    what it holds and what a config file parses to are inputs. */
module Operator {
  import opened Wrappers
  import opened JsonValue
  import opened Postgres
  import Config

  /** What reading a config file gives: it did not open, it did not parse,
      or it parsed to a document. */
  datatype ConfigFile = Unopened | Malformed | Parsed(doc: Json)

  const ListTablesQuery: string := "SELECT tablename FROM pg_tables WHERE schemaname = 'public'"

  // ------------------------------------------------------------ table lists

  /** push_back of each json element into a vector of strings: every element
      must be a string, anything else throws a type error. */
  function TableNames(items: seq<Json>): (r: Option<seq<string>>)
    ensures r.Some? ==> |r.value| == |items|
  {
    if items == [] then Some([])
    else match TableNames(items[..|items| - 1])
      case None => None
      case Some(init) =>
        var last := items[|items| - 1];
        if last.JString? then Some(init + [last.s]) else None
  }

  /** The tables a backup or restore config names: the elements of its
      "tables" member. A null document becomes an object on operator[], so it
      names none; indexing any other non-object by a key throws. */
  function ConfigTables(doc: Json): Option<seq<string>> {
    if doc.JObject? then TableNames(Elements(Config.Member(doc.fields, "tables")))
    else if doc.JNull? then Some([])
    else None
  }

  function ConfiguredTables(f: ConfigFile): Option<seq<string>> {
    if f.Parsed? then ConfigTables(f.doc) else None
  }

  /** The first column of every row, in row order. */
  function FirstColumn(rows: seq<seq<string>>): (r: seq<string>)
    ensures |r| == |rows|
  {
    if rows == [] then [] else FirstColumn(rows[..|rows| - 1]) + [Cell(rows[|rows| - 1], 0)]
  }

  /** Collects the table names of a parsed config, one element at a time. */
  method ReadTableList(doc: Json) returns (r: Option<seq<string>>)
    ensures r == ConfigTables(doc)
  {
    if doc.JNull? {
      return Some([]);
    }
    if !doc.JObject? {
      return None;
    }
    var items := Elements(Config.Member(doc.fields, "tables"));
    var tables: seq<string> := [];
    for i := 0 to |items|
      invariant TableNames(items[..i]) == Some(tables)
    {
      assert items[..i + 1][..i] == items[..i];
      if !items[i].JString? {
        TableNamesFailurePersists(items, i + 1);
        return None;
      }
      tables := tables + [items[i].s];
    }
    assert items[..|items|] == items;
    r := Some(tables);
  }

  // ------------------------------------------------------- backup directory

  /** The position of the last '/' in s, if any. */
  function LastSlash(s: string): (r: Option<nat>)
    ensures r.Some? ==> r.value < |s| && s[r.value] == '/' && forall k :: r.value < k < |s| ==> s[k] != '/'
    ensures r.None? ==> forall k :: 0 <= k < |s| ==> s[k] != '/'
  {
    if s == [] then None
    else if s[|s| - 1] == '/' then Some(|s| - 1)
    else LastSlash(s[..|s| - 1])
  }

  /** out_file.substr(0, out_file.find_last_of("/")) as written: with no '/'
      find_last_of gives npos and substr keeps the whole path. */
  function BackupDirAsWritten(outFile: string): string {
    match LastSlash(outFile)
    case Some(k) => outFile[..k]
    case None => outFile
  }

  /** The directory part of the output path: everything before its last '/',
      and nothing when the path has no '/'. */
  function BackupDir(outFile: string): string {
    match LastSlash(outFile)
    case Some(k) => outFile[..k]
    case None => ""
  }

  /** As written, a path without '/' is taken as its own directory: mkdir -p
      then creates a directory under the very name the backup file is to be
      opened with ("backup.bin" gives "mkdir -p backup.bin"). */
  lemma BackupDirAsWrittenIsWholePath(outFile: string)
    requires forall k :: 0 <= k < |outFile| ==> outFile[k] != '/'
    ensures BackupDirAsWritten(outFile) == outFile
  {
  }

  /** The corrected directory is a proper parent of the output path: the path
      is the directory, a '/' and a last component without '/'; a path with
      no '/' has no directory, so the directory never equals a non-empty path. */
  lemma BackupDirIsParent(outFile: string)
    ensures outFile != "" ==> |BackupDir(outFile)| < |outFile|
    ensures match LastSlash(outFile)
      case Some(k) => outFile == BackupDir(outFile) + "/" + outFile[k + 1..] && forall j :: k < j < |outFile| ==> outFile[j] != '/'
      case None => BackupDir(outFile) == ""
  {
    match LastSlash(outFile)
    case Some(k) =>
      assert outFile == outFile[..k] + [outFile[k]] + outFile[k + 1..];
    case None =>
  }

  // --------------------------------------------------------------- copying

  function CopyStatement(table: string, backup: bool): string {
    if backup then "COPY " + table + " TO STDOUT BINARY" else "COPY " + table + " FROM STDIN BINARY"
  }

  /** A backup table must enter COPY_OUT, a restored one COPY_IN. */
  predicate Entered(s: ExecStatus, backup: bool) {
    if backup then s.CopyOut? else s.CopyIn?
  }

  datatype CopyRun = CopyRun(log: seq<string>, ok: bool)

  /** The per-table COPY loop from table i on; the first table whose COPY is
      not entered ends it with false. */
  function CopyLoop(tables: seq<string>, i: nat, backup: bool, server: Server, log: seq<string>): CopyRun
    requires i <= |tables|
    decreases |tables| - i
  {
    if i == |tables| then CopyRun(log, true)
    else
      var stmt := CopyStatement(tables[i], backup);
      if Entered(server(log, stmt), backup) then CopyLoop(tables, i + 1, backup, server, log + [stmt])
      else CopyRun(log + [stmt], false)
  }

  /** The tables a backup works on: those of the config when one is given,
      otherwise the first column of the catalogue query's answer. */
  function BackupTables(jsonConfig: string, configFile: ConfigFile, server: Server, log: seq<string>): Option<seq<string>> {
    if jsonConfig != "" then ConfiguredTables(configFile)
    else
      var res := server(log + [ListTablesQuery], ListTablesQuery);
      Some(if res.TuplesOk? then FirstColumn(res.rows) else [])
  }

  /** Without a config the catalogue query is sent twice (once through
      execute_query, whose result is dropped). */
  function ListingLog(jsonConfig: string, log: seq<string>): seq<string> {
    if jsonConfig != "" then log else log + [ListTablesQuery, ListTablesQuery]
  }

  datatype BackupRun = BackupRun(ok: bool, mkdir: Option<string>, log: seq<string>)

  /** backup on a live connection: pick the tables, make the directory (as
      written, so a path without '/' is itself handed to mkdir -p), open the
      output, then copy each table out. */
  function BackupSpec(jsonConfig: string, outFile: string, configFile: ConfigFile, outOpens: bool,
                      server: Server, log: seq<string>): BackupRun
  {
    var listed := BackupTables(jsonConfig, configFile, server, log);
    var log1 := ListingLog(jsonConfig, log);
    if listed.None? then BackupRun(false, None, log1)
    else
      var dir := BackupDirAsWritten(outFile);
      var mkdir := if dir != "" then Some(dir) else None;
      if !outOpens then BackupRun(false, mkdir, log1)
      else
        var c := CopyLoop(listed.value, 0, true, server, log1);
        BackupRun(c.ok, mkdir, c.log)
  }

  /** restore on a live connection. Without a config the table list stays
      empty, so only the input file is checked; with a config the input file
      is never checked. */
  function RestoreSpec(jsonConfig: string, configFile: ConfigFile, inOpens: bool, server: Server, log: seq<string>): CopyRun {
    if jsonConfig != "" then
      match ConfiguredTables(configFile)
      case None => CopyRun(log, false)
      case Some(tables) => CopyLoop(tables, 0, false, server, log)
    else if !inOpens then CopyRun(log, false)
    else CopyLoop([], 0, false, server, log)
  }

  class DatabaseOperator {
    var conn: Connection?
    var connStr: string
    var connected: bool

    /** connected_ is only set while conn_ is a live, working connection. */
    ghost predicate Valid()
      reads this, conn
    {
      connected ==> conn != null && conn.ok && !conn.finished
    }

    constructor ()
      ensures Valid() && conn == null && !connected
    {
      conn := null;
      connStr := "";
      connected := false;
    }

    /** connect: an open connection is closed first; the new one counts as
        connected exactly when the server accepted it. */
    method Connect(s: string, reachable: bool, server: Server) returns (ok: bool)
      requires Valid()
      modifies this, conn
      ensures Valid()
      ensures old(connected) ==> old(conn).finished
      ensures fresh(conn) && conn.connStr == s && conn.ok == reachable && conn.log == [] && connStr == s
      ensures ok == reachable && connected == reachable
    {
      if connected {
        Disconnect();
      }
      connStr := s;
      conn := new Connection(s, reachable, server);
      if !conn.ok {
        return false;
      }
      connected := true;
      return true;
    }

    /** disconnect: acts only on a live connection, which it closes and drops;
        otherwise nothing changes, so a second call is a no-op. */
    method Disconnect()
      requires Valid()
      modifies this, conn
      ensures Valid() && !connected
      ensures old(connected) ==> conn == null && old(conn).finished
      ensures !old(connected) ==> unchanged(this) && (conn != null ==> unchanged(conn))
    {
      if connected && conn != null {
        conn.Finish();
        conn := null;
        connected := false;
      }
    }

    /** exit is disconnect. */
    method Exit()
      requires Valid()
      modifies this, conn
      ensures Valid() && !connected
      ensures old(connected) ==> conn == null && old(conn).finished
      ensures !old(connected) ==> unchanged(this) && (conn != null ==> unchanged(conn))
    {
      Disconnect();
    }

    /** exec: false when not connected; when connected the statement is sent
        and the answer is true whatever the server said, since execute_query
        only logs a refusal. */
    method Exec(query: string) returns (r: bool)
      requires Valid()
      modifies conn
      ensures Valid() && r == connected
      ensures connected ==> conn.log == old(conn.log) + [query]
      ensures !connected && conn != null ==> unchanged(conn)
    {
      if !connected {
        return false;
      }
      var _ := conn.Exec(query);
      return true;
    }

    /** load: the file's text, or "" when not connected or when the file does
        not open (contents None). */
    method Load(filename: string, contents: Option<string>) returns (r: string)
      ensures !connected ==> r == ""
      ensures connected ==> r == contents.GetOr("")
    {
      if !connected {
        return "";
      }
      if contents.None? {
        return "";
      }
      return contents.value;
    }

    /** The per-table COPY loop of backup and restore. */
    method CopyTables(tables: seq<string>, backup: bool) returns (ok: bool)
      requires Valid() && connected
      modifies conn
      ensures Valid() && connected
      ensures CopyRun(conn.log, ok) == CopyLoop(tables, 0, backup, conn.server, old(conn.log))
    {
      for i := 0 to |tables|
        invariant Valid() && connected
        invariant CopyLoop(tables, i, backup, conn.server, conn.log) == CopyLoop(tables, 0, backup, conn.server, old(conn.log))
      {
        var query := if backup then "COPY " + tables[i] + " TO STDOUT BINARY" else "COPY " + tables[i] + " FROM STDIN BINARY";
        var res := conn.Exec(query);
        if (backup && !res.CopyOut?) || (!backup && !res.CopyIn?) {
          return false;
        }
      }
      return true;
    }

    /** The table-selection part of backup. */
    method ListBackupTables(jsonConfig: string, configFile: ConfigFile) returns (tables: Option<seq<string>>)
      requires Valid() && connected
      modifies conn
      ensures Valid() && connected
      ensures tables == BackupTables(jsonConfig, configFile, conn.server, old(conn.log))
      ensures conn.log == ListingLog(jsonConfig, old(conn.log))
    {
      if jsonConfig != "" {
        if !configFile.Parsed? {
          return None;
        }
        tables := ReadTableList(configFile.doc);
        return;
      }
      var _ := conn.Exec(ListTablesQuery);
      var res := conn.Exec(ListTablesQuery);
      var names: seq<string> := [];
      if res.TuplesOk? {
        for i := 0 to |res.rows|
          invariant names == FirstColumn(res.rows[..i])
        {
          assert res.rows[..i + 1][..i] == res.rows[..i];
          names := names + [Cell(res.rows[i], 0)];
        }
        assert res.rows[..|res.rows|] == res.rows;
      }
      tables := Some(names);
    }

    /** backup(json_config, out_file): the output file opening and the parsed
        config are inputs; mkdir is the directory handed to "mkdir -p", if any. */
    method Backup(jsonConfig: string, outFile: string, configFile: ConfigFile, outOpens: bool) returns (ok: bool, mkdir: Option<string>)
      requires Valid()
      modifies conn
      ensures Valid()
      ensures !connected ==> !ok && mkdir.None? && (conn != null ==> unchanged(conn))
      ensures connected ==> BackupRun(ok, mkdir, conn.log) == BackupSpec(jsonConfig, outFile, configFile, outOpens, conn.server, old(conn.log))
    {
      if !connected {
        return false, None;
      }
      var tables := ListBackupTables(jsonConfig, configFile);
      if tables.None? {
        return false, None;
      }
      var slash := LastSlash(outFile);
      var dir := if slash.Some? then outFile[..slash.value] else outFile;
      mkdir := if dir != "" then Some(dir) else None;
      if !outOpens {
        return false, mkdir;
      }
      ok := CopyTables(tables.value, true);
    }

    /** restore(in_file, json_config): whether the input file opens and the
        parsed config are inputs. */
    method Restore(inFile: string, jsonConfig: string, configFile: ConfigFile, inOpens: bool) returns (ok: bool)
      requires Valid()
      modifies conn
      ensures Valid()
      ensures !connected ==> !ok && (conn != null ==> unchanged(conn))
      ensures connected ==> CopyRun(conn.log, ok) == RestoreSpec(jsonConfig, configFile, inOpens, conn.server, old(conn.log))
    {
      if !connected {
        return false;
      }
      var tables: seq<string> := [];
      if jsonConfig != "" {
        if !configFile.Parsed? {
          return false;
        }
        var names := ReadTableList(configFile.doc);
        if names.None? {
          return false;
        }
        tables := names.value;
      } else if !inOpens {
        return false;
      }
      ok := CopyTables(tables, false);
    }
  }

  // ------------------------------------------------------------- properties

  lemma {:induction false} TableNamesFailurePersists(items: seq<Json>, k: nat)
    requires k <= |items| && TableNames(items[..k]).None?
    ensures TableNames(items).None?
    decreases |items| - k
  {
    if k < |items| {
      assert items[..k + 1][..k] == items[..k];
      TableNamesFailurePersists(items, k + 1);
    } else {
      assert items[..k] == items;
    }
  }

  /** A table list is accepted exactly when every element is a string, and
      then it names them in order. */
  lemma {:induction false} TableNamesExact(items: seq<Json>)
    ensures TableNames(items).Some? <==> forall k :: 0 <= k < |items| ==> items[k].JString?
    ensures TableNames(items).Some? ==> forall k :: 0 <= k < |items| ==> TableNames(items).value[k] == items[k].s
  {
    if items != [] {
      var init := items[..|items| - 1];
      TableNamesExact(init);
      if TableNames(init).Some? && items[|items| - 1].JString? {
        forall k | 0 <= k < |items|
          ensures TableNames(items).value[k] == items[k].s
        {
          if k < |items| - 1 {
            assert items[k] == init[k];
          }
        }
      } else if TableNames(init).None? {
        var k :| 0 <= k < |init| && !init[k].JString?;
        assert items[k] == init[k];
      }
    }
  }

  /** The COPY loop sends one COPY per table in list order; when it
      succeeds it has sent one for every table. */
  lemma {:induction false} CopyLoopSent(tables: seq<string>, i: nat, backup: bool, server: Server, log: seq<string>)
    requires i <= |tables|
    decreases |tables| - i
    ensures var c := CopyLoop(tables, i, backup, server, log);
      && log <= c.log
      && i + (|c.log| - |log|) <= |tables|
      && (forall k :: |log| <= k < |c.log| ==> c.log[k] == CopyStatement(tables[i + (k - |log|)], backup))
      && (c.ok ==> i + (|c.log| - |log|) == |tables|)
      && (!c.ok ==> |c.log| > |log|)
  {
    if i < |tables| {
      var stmt := CopyStatement(tables[i], backup);
      var log' := log + [stmt];
      if Entered(server(log, stmt), backup) {
        CopyLoopSent(tables, i + 1, backup, server, log');
        var c := CopyLoop(tables, i + 1, backup, server, log');
        assert c.log[..|log|] == log by {
          assert c.log[..|log|] == c.log[..|log'|][..|log|];
        }
        forall k | |log| <= k < |c.log|
          ensures c.log[k] == CopyStatement(tables[i + (k - |log|)], backup)
        {
          if k == |log| {
            assert c.log[k] == log'[k];
          }
        }
      } else {
        assert log'[..|log|] == log && log'[|log|] == stmt;
      }
    }
  }

  /** Every COPY the loop sent was entered, except a last one that was not,
      which is what made it fail. */
  lemma {:induction false} CopyLoopEntered(tables: seq<string>, i: nat, backup: bool, server: Server, log: seq<string>)
    requires i <= |tables|
    decreases |tables| - i
    ensures var c := CopyLoop(tables, i, backup, server, log);
      && (forall k :: |log| <= k < |c.log| && (c.ok || k < |c.log| - 1) ==> Entered(server(c.log[..k], c.log[k]), backup))
      && (!c.ok ==> |c.log| > |log| && !Entered(server(c.log[..|c.log| - 1], c.log[|c.log| - 1]), backup))
  {
    if i < |tables| {
      var stmt := CopyStatement(tables[i], backup);
      var log' := log + [stmt];
      if Entered(server(log, stmt), backup) {
        CopyLoopEntered(tables, i + 1, backup, server, log');
        CopyLoopSent(tables, i + 1, backup, server, log');
        var c := CopyLoop(tables, i + 1, backup, server, log');
        assert c.log[..|log|] == log by {
          assert c.log[..|log|] == c.log[..|log'|][..|log|];
        }
        assert c.log[..|log|] == log && c.log[|log|] == stmt;
      } else {
        assert log'[..|log|] == log;
      }
    }
  }

  /** Without a config, restore copies nothing: on a live connection it
      succeeds exactly when the backup file opened, and sends no statement. */
  lemma RestoreWithoutConfig(configFile: ConfigFile, inOpens: bool, server: Server, log: seq<string>)
    ensures RestoreSpec("", configFile, inOpens, server, log) == CopyRun(log, inOpens)
  {
    CopyLoopSent([], 0, false, server, log);
  }

  /** A backup that names no tables succeeds exactly when the output opens. */
  lemma BackupWithoutTables(jsonConfig: string, outFile: string, doc: Json, outOpens: bool, server: Server, log: seq<string>)
    requires jsonConfig != "" && ConfigTables(doc) == Some([])
    ensures BackupSpec(jsonConfig, outFile, Parsed(doc), outOpens, server, log).ok == outOpens
  {
    CopyLoopSent([], 0, true, server, log);
  }

  /** Once the tables are known, a non-empty output path without '/' is itself
      handed to mkdir -p, so the backup creates a directory under the name of
      the file it is about to open. */
  lemma BackupMakesOutputDirectory(jsonConfig: string, outFile: string, configFile: ConfigFile, outOpens: bool,
                                   server: Server, log: seq<string>)
    requires outFile != [] && forall k :: 0 <= k < |outFile| ==> outFile[k] != '/'
    requires BackupTables(jsonConfig, configFile, server, log).Some?
    ensures BackupSpec(jsonConfig, outFile, configFile, outOpens, server, log).mkdir == Some(outFile)
  {
    BackupDirAsWrittenIsWholePath(outFile);
  }

  /** Backup without a config copies the tables the catalogue query listed,
      in the order it listed them, after sending that query twice. */
  lemma BackupListsCatalogue(outFile: string, server: Server, log: seq<string>)
    requires server(log + [ListTablesQuery], ListTablesQuery).TuplesOk?
    ensures var res := server(log + [ListTablesQuery], ListTablesQuery);
      var b := BackupSpec("", outFile, Unopened, true, server, log);
      && log + [ListTablesQuery, ListTablesQuery] <= b.log
      && (b.ok ==> |b.log| == |log| + 2 + |res.rows| &&
                   forall k :: 0 <= k < |res.rows| ==> b.log[|log| + 2 + k] == CopyStatement(Cell(res.rows[k], 0), true))
  {
    var res := server(log + [ListTablesQuery], ListTablesQuery);
    var log1 := log + [ListTablesQuery, ListTablesQuery];
    var tables := FirstColumn(res.rows);
    var c := CopyLoop(tables, 0, true, server, log1);
    assert BackupTables("", Unopened, server, log) == Some(tables);
    assert ListingLog("", log) == log1;
    var b := BackupSpec("", outFile, Unopened, true, server, log);
    assert b.ok == c.ok && b.log == c.log;
    CopyLoopSent(tables, 0, true, server, log1);
    FirstColumnCells(res.rows);
    if c.ok {
      forall k | 0 <= k < |res.rows|
        ensures c.log[|log1| + k] == CopyStatement(Cell(res.rows[k], 0), true)
      {
        var j := |log1| + k;
        assert c.log[j] == CopyStatement(tables[0 + (j - |log1|)], true);
      }
    }
  }

  lemma {:induction false} FirstColumnCells(rows: seq<seq<string>>)
    ensures forall k :: 0 <= k < |rows| ==> FirstColumn(rows)[k] == Cell(rows[k], 0)
  {
    if rows != [] {
      FirstColumnCells(rows[..|rows| - 1]);
    }
  }
}
