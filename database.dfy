/**
  The write path of the PostgreSQL store: the `Database` object keeps a
  connection that it reopens lazily before each command, creates its table
  on every (re)connection unless the table is there already, and hands the
  exception of a failed command back to the caller as a value instead of
  raising it.

  The server is abstract: whether it accepts connections, the state of the
  table (whether it exists, and its rows), which rows it refuses for
  reasons of its own (a value the `JSONB` column rejects, say), and whether
  it lets this user create and drop the table (a missing privilege, say).
*/
module Database {
  import opened Wrappers
  import opened Json

  /**
    The Python attribute `self.conn`: never set, open, closed, or broken.
    A broken connection is one the server has dropped while `conn.closed`
    still reads false: the driver flags it closed only once a command on
    it fails.
  */
  datatype Conn = Unset | Open | Broken | Closed

  /** One row of the table; the optional columns hold SQL `NULL` as `None`. */
  datatype Row = Row(
    experiment: string,
    insertedAt: int,
    browser: string,
    extensions: string,
    domain: string,
    harUuid: string,
    har: Option<Json>,
    harError: Option<string>)

  /** The commands the object sends. */
  datatype Command =
    | ToRegclass        // SELECT to_regclass('<table>')
    | CreateTable       // CREATE TABLE <table> (...)
    | DropTable         // DROP TABLE <table>
    | InsertRow(row: Row)

  /** The server's side of the table. */
  datatype Table = Table(present: bool, rows: seq<Row>)

  /** The exception a command raised, which `_execute_command` returns. */
  datatype DbError = Rejected(cmd: Command)

  /** Exceptions that escape the object's methods. */
  datatype Raised =
    | AttributeError    // `self.conn` was never set: the first connection failed
    | RecursionError    // a failed reconnection recreates the table through the same closed connection, without end
    | InterfaceError    // the handler's `commit` on a connection the failed command has just flagged closed

  /** Whether a row already holds this primary key. */
  predicate KeyTaken(rows: seq<Row>, harUuid: string) {
    exists i :: 0 <= i < |rows| && rows[i].harUuid == harUuid
  }

  /**
    What the server does with a command: the new table, or `None` when the
    command fails. `accepts` says which rows an insert may add, `acceptsDdl`
    whether a `CREATE TABLE` or `DROP TABLE` is allowed at all.
  */
  function Apply(cmd: Command, t: Table, accepts: Row -> bool, acceptsDdl: Command -> bool): (r: Option<Table>)
    ensures cmd.ToRegclass? ==> r == Some(t)
    ensures cmd.CreateTable? ==> (r.Some? <==> !t.present && acceptsDdl(CreateTable))
    ensures cmd.DropTable? ==> (r.Some? <==> t.present && acceptsDdl(DropTable))
    ensures r.Some? && !cmd.ToRegclass? ==> r.value.present == !cmd.DropTable?
    ensures cmd.InsertRow? ==>
      (r.Some? <==> t.present && !KeyTaken(t.rows, cmd.row.harUuid) && accepts(cmd.row)) &&
      (r.Some? ==> r.value.rows == t.rows + [cmd.row])
  {
    match cmd
    case ToRegclass => Some(t)
    case CreateTable => if !t.present && acceptsDdl(CreateTable) then Some(Table(true, [])) else None
    case DropTable => if t.present && acceptsDdl(DropTable) then Some(Table(false, [])) else None
    case InsertRow(row) =>
      if t.present && !KeyTaken(t.rows, row.harUuid) && accepts(row) then Some(Table(true, t.rows + [row])) else None
  }

  /**
    The table after `create`: as it was if it exists, otherwise new and
    empty when the server allows the `CREATE TABLE`, and still missing when
    it refuses it.
  */
  function Created(t: Table, acceptsDdl: Command -> bool): (r: Table)
    ensures r.present <==> t.present || acceptsDdl(CreateTable)
    ensures t.present || !acceptsDdl(CreateTable) ==> r == t
    ensures !t.present && acceptsDdl(CreateTable) ==> r.rows == []
  {
    if !t.present && acceptsDdl(CreateTable) then Table(true, []) else t
  }

  /** Creating twice is creating once. */
  lemma CreatedIdempotent(t: Table, acceptsDdl: Command -> bool)
    ensures Created(Created(t, acceptsDdl), acceptsDdl) == Created(t, acceptsDdl)
  {
  }

  /** The row `insert` builds: the HAR when it is truthy, otherwise `NULL` and the error text. */
  function RowOf(experiment: string, insertedAt: int, browser: string, extensions: string, domain: string,
                 harUuid: string, har: Json, harError: Option<string>): (row: Row)
    ensures row.experiment == experiment && row.browser == browser && row.extensions == extensions
    ensures row.domain == domain && row.harUuid == harUuid && row.insertedAt == insertedAt
    ensures Truthy(har) ==> row.har == Some(har) && row.harError == None
    ensures !Truthy(har) ==> row.har == None && row.harError == harError
  {
    if Truthy(har) then Row(experiment, insertedAt, browser, extensions, domain, harUuid, Some(har), None)
    else Row(experiment, insertedAt, browser, extensions, domain, harUuid, None, harError)
  }

  /** Whether the next command can run: the connection is open, or closed and the server takes a new one. */
  predicate Reachable(conn: Conn, serverUp: bool) {
    conn == Open || (conn == Closed && serverUp)
  }

  /** The table a command meets: a reconnection goes through `create` first. */
  function Prepared(conn: Conn, t: Table, acceptsDdl: Command -> bool): (r: Table)
    ensures r.present <==> t.present || (conn == Closed && acceptsDdl(CreateTable))
    ensures t.present || conn != Closed ==> r == t
  {
    if conn == Closed then Created(t, acceptsDdl) else t
  }

  /** The exception that escapes when the next command cannot run. */
  function Unreachable(conn: Conn): Raised {
    match conn
    case Unset => AttributeError
    case Broken => InterfaceError
    case _ => RecursionError
  }

  /** The connection after a command that could not run: a broken one is now flagged closed. */
  function Flagged(conn: Conn): (c: Conn)
    ensures c != Broken
    ensures conn != Broken ==> c == conn
  {
    if conn == Broken then Closed else conn
  }

  class Store {
    /** Whether the server accepts new connections. */
    const serverUp: bool
    /** Rows the server accepts on an insert, beyond the primary key. */
    const accepts: Row -> bool
    /** Whether the server allows `CREATE TABLE` and `DROP TABLE`. */
    const acceptsDdl: Command -> bool
    var conn: Conn
    var table: Table

    /** The object as `__init__` leaves it before calling `_connect`. */
    constructor (serverUp: bool, accepts: Row -> bool, acceptsDdl: Command -> bool, table: Table)
      ensures this.serverUp == serverUp && this.accepts == accepts && this.acceptsDdl == acceptsDdl
      ensures this.conn == Unset && this.table == table
    {
      this.serverUp := serverUp;
      this.accepts := accepts;
      this.acceptsDdl := acceptsDdl;
      this.conn := Unset;
      this.table := table;
    }

    /** The state after a command: the open connection and the table the command leaves. */
    predicate Executed(cmd: Command, before: Table, r: Result<Option<DbError>, Raised>)
      reads this
    {
      && conn == Open
      && match Apply(cmd, before, accepts, acceptsDdl)
         case None => r == Success(Some(Rejected(cmd))) && table == before
         case Some(t) => r == Success(None) && table == t
    }

    /**
      `_execute_command`: reconnect if the connection is closed, run the
      command, and return the exception it raised, or `None`. A server
      refusal leaves the table as it was. On a broken connection the command
      fails, the driver flags the connection closed, and the `commit` in the
      handler raises, so the exception escapes instead of being returned.
    */
    method ExecuteCommand(cmd: Command) returns (r: Result<Option<DbError>, Raised>)
      modifies this
      decreases if conn == Closed then 1 else 0, 1
      ensures Reachable(old(conn), serverUp) ==> Executed(cmd, Prepared(old(conn), old(table), acceptsDdl), r)
      ensures !Reachable(old(conn), serverUp) ==>
        r == Failure(Unreachable(old(conn))) && conn == Flagged(old(conn)) && table == old(table)
    {
      if conn == Unset {
        return Failure(AttributeError);
      }
      if conn == Broken {
        conn := Closed;
        return Failure(InterfaceError);
      }
      if conn == Closed {
        var c := Connect();
        if c.Failure? {
          return Failure(c.error);
        }
      }
      match Apply(cmd, table, accepts, acceptsDdl)
      case None =>
        r := Success(Some(Rejected(cmd)));
      case Some(t) =>
        table := t;
        r := Success(None);
    }

    /**
      `_connect`: open a connection, logging a failure, then `create`.
      A failed reconnection leaves the closed connection in place, so
      `create` reaches `_execute_command`, which calls `_connect` again
      through the same closed connection until Python's recursion limit; the
      model raises the `RecursionError` at once. Through a broken connection
      `create` fails as every command does. The exception a refused
      `CREATE TABLE` returns is dropped: the connection still counts as made.
    */
    method Connect() returns (r: Result<(), Raised>)
      modifies this
      decreases if conn == Closed then 1 else 0, if conn == Closed then 0 else 4
      ensures serverUp || old(conn) == Open ==>
        r == Success(()) && conn == Open && table == Created(old(table), acceptsDdl)
      ensures !serverUp && old(conn) != Open ==>
        r == Failure(Unreachable(old(conn))) && conn == Flagged(old(conn)) && table == old(table)
    {
      if serverUp {
        conn := Open;
      } else if conn == Closed {
        return Failure(RecursionError);
      }
      var c := Create();
      if c.Failure? {
        return Failure(c.error);
      }
      r := Success(());
    }

    /** `_table_exists`: whether `to_regclass` names the table. */
    method TableExists() returns (r: Result<bool, Raised>)
      modifies this
      decreases if conn == Closed then 1 else 0, 2
      ensures Reachable(old(conn), serverUp) ==>
        r == Success(Prepared(old(conn), old(table), acceptsDdl).present) && conn == Open && table == Prepared(old(conn), old(table), acceptsDdl)
      ensures !Reachable(old(conn), serverUp) ==>
        r == Failure(Unreachable(old(conn))) && conn == Flagged(old(conn)) && table == old(table)
    {
      var e := ExecuteCommand(ToRegclass);
      if e.Failure? {
        return Failure(e.error);
      }
      r := Success(table.present);
    }

    /**
      `create`: make the table unless it exists. An existing table keeps its
      rows and is no error; otherwise the `CREATE TABLE` runs, and the
      exception of a refused one is returned with the table still missing.
    */
    method Create() returns (r: Result<Option<DbError>, Raised>)
      modifies this
      decreases if conn == Closed then 1 else 0, 3
      ensures Reachable(old(conn), serverUp) ==>
        var before := Prepared(old(conn), old(table), acceptsDdl);
        && (before.present ==> r == Success(None) && conn == Open && table == before)
        && (!before.present ==> Executed(CreateTable, before, r))
      ensures Reachable(old(conn), serverUp) ==> conn == Open && table == Created(old(table), acceptsDdl)
      ensures Reachable(old(conn), serverUp) ==>
        (r == Success(None) <==> table.present) &&
        (r != Success(None) ==> r == Success(Some(Rejected(CreateTable))) && table == old(table))
      ensures !Reachable(old(conn), serverUp) ==>
        r == Failure(Unreachable(old(conn))) && conn == Flagged(old(conn)) && table == old(table)
    {
      var found := TableExists();
      if found.Failure? {
        return Failure(found.error);
      }
      if found.value {
        return Success(None);
      }
      r := ExecuteCommand(CreateTable);
    }

    /**
      `drop`: remove the table if it exists; a missing table is no error,
      and a refused `DROP TABLE` returns its exception with the table kept.
    */
    method Drop() returns (r: Result<Option<DbError>, Raised>)
      modifies this
      ensures Reachable(old(conn), serverUp) ==>
        var before := Prepared(old(conn), old(table), acceptsDdl);
        && (!before.present ==> r == Success(None) && conn == Open && table == before)
        && (before.present ==> Executed(DropTable, before, r))
      ensures Reachable(old(conn), serverUp) ==>
        (r == Success(None) <==> !table.present) &&
        (r != Success(None) ==> r == Success(Some(Rejected(DropTable))) && table.present)
      ensures !Reachable(old(conn), serverUp) ==>
        r == Failure(Unreachable(old(conn))) && conn == Flagged(old(conn)) && table == old(table)
    {
      var found := TableExists();
      if found.Failure? {
        return Failure(found.error);
      }
      if !found.value {
        return Success(None);
      }
      r := ExecuteCommand(DropTable);
    }

    /**
      `insert`: one row appended, shaped by the truthiness of `har`, or the
      server's refusal returned with the table unchanged.
    */
    method Insert(experiment: string, insertedAt: int, browser: string, extensions: string, domain: string,
                  harUuid: string, har: Json, harError: Option<string>)
      returns (r: Result<Option<DbError>, Raised>)
      modifies this
      ensures Reachable(old(conn), serverUp) ==>
        Executed(InsertRow(RowOf(experiment, insertedAt, browser, extensions, domain, harUuid, har, harError)),
                 Prepared(old(conn), old(table), acceptsDdl), r)
      ensures !Reachable(old(conn), serverUp) ==>
        r == Failure(Unreachable(old(conn))) && conn == Flagged(old(conn)) && table == old(table)
    {
      var row := RowOf(experiment, insertedAt, browser, extensions, domain, harUuid, har, harError);
      r := ExecuteCommand(InsertRow(row));
    }

    /**
      The server side closes an open connection (a restart, an idle
      timeout). `conn.closed` still reads false, so the next command is sent
      and fails; only the command after it reconnects. Any other connection
      state is left as it is.
    */
    method ConnectionLost()
      modifies this
      ensures conn == (if old(conn) == Open then Broken else old(conn))
      ensures table == old(table)
    {
      if conn == Open {
        conn := Broken;
      }
    }
  }

  /** Inserted rows keep distinct primary keys: the server refuses a second row with a key in use. */
  lemma KeysStayDistinct(cmd: Command, before: Table, accepts: Row -> bool, acceptsDdl: Command -> bool)
    requires forall i, j :: 0 <= i < j < |before.rows| ==> before.rows[i].harUuid != before.rows[j].harUuid
    requires Apply(cmd, before, accepts, acceptsDdl).Some?
    ensures var rows := Apply(cmd, before, accepts, acceptsDdl).value.rows;
      forall i, j :: 0 <= i < j < |rows| ==> rows[i].harUuid != rows[j].harUuid
  {
    var rows := Apply(cmd, before, accepts, acceptsDdl).value.rows;
    if cmd.InsertRow? {
      forall i, j | 0 <= i < j < |rows|
        ensures rows[i].harUuid != rows[j].harUuid
      {
        if j == |before.rows| {
          assert rows[i] == before.rows[i];
        }
      }
    }
  }
}
