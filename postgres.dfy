/**
 * An abstract stand-in for the parts of libpq the migrator and the operator use.
 *
 * A connection is opened with PQconnectdb and is either in state CONNECTION_OK or not.
 * Statements sent with PQexec are recorded in the connection's log, and the answer each one
 * gets (its PQresultStatus plus, for a query, the result set) comes from a server oracle
 * that sees the statements sent before it on the same connection.
 */
module Postgres {

  /** The result status of one PQexec call. */
  datatype ExecStatus =
    | CommandOk                                                // PGRES_COMMAND_OK
    | TuplesOk(fields: seq<string>, rows: seq<seq<string>>)   // PGRES_TUPLES_OK with its result set
    | CopyOut                                                  // PGRES_COPY_OUT
    | CopyIn                                                   // PGRES_COPY_IN
    | Failed                                                   // any other status

  /** How a server answers a statement, given the statements sent before it on this connection. */
  type Server = (seq<string>, string) -> ExecStatus

  /**
   * PQgetvalue(res, row, col) as a string: a cell beyond the row's end reads as the empty
   * string, which is also how SQL NULL is delivered.
   */
  function Cell(row: seq<string>, col: nat): string {
    if col < |row| then row[col] else ""
  }

  /** What a connection answers: a broken connection rejects every statement. */
  function Answer(ok: bool, server: Server, log: seq<string>, stmt: string): (r: ExecStatus)
    ensures !ok ==> r == Failed
    ensures ok ==> r == server(log, stmt)
  {
    if ok then server(log, stmt) else Failed
  }

  /** The statement log after sending stmt: only a working connection reaches the server. */
  function Sent(ok: bool, log: seq<string>, stmt: string): (r: seq<string>)
    ensures ok ==> r == log + [stmt]
    ensures !ok ==> r == log
  {
    if ok then log + [stmt] else log
  }

  /** One PGconn. */
  class Connection {
    /** The connection string it was opened with. */
    const connStr: string
    /** PQstatus(conn) == CONNECTION_OK. */
    const ok: bool
    const server: Server
    /** The statements that reached the server, oldest first. */
    var log: seq<string>
    /** PQfinish has been called. */
    var finished: bool

    /** PQconnectdb: whether the server is reachable is decided outside the model. */
    constructor (connStr: string, reachable: bool, server: Server)
      ensures this.connStr == connStr && this.ok == reachable && this.server == server
      ensures log == [] && !finished
    {
      this.connStr := connStr;
      this.ok := reachable;
      this.server := server;
      log := [];
      finished := false;
    }

    /** PQexec followed by PQresultStatus. */
    method Exec(stmt: string) returns (r: ExecStatus)
      requires !finished
      modifies this`log
      ensures r == Answer(ok, server, old(log), stmt)
      ensures log == Sent(ok, old(log), stmt)
    {
      r := Answer(ok, server, log, stmt);
      log := Sent(ok, log, stmt);
    }

    /** PQfinish. */
    method Finish()
      requires !finished
      modifies this`finished
      ensures finished
    {
      finished := true;
    }
  }
}
