/**
 * `update_or_insert_user_data` of database.py, the variant `main` imports:
 * a read-then-conditional-write on `tableau_user_data`, keyed by `fullname`.
 * The incoming login is bound as text; the server turns it into a DATETIME.
 * Only when a non-null login is already stored is the text parsed, with the
 * format `%Y-%m-%d %H:%M:%S`, and outside any `try`.
 */
module Database {
  import opened Wrappers
  import opened Stamps
  import opened Tables

  /**
   * What the server stores for a bound login: NULL for None; for a text, the
   * DATETIME it reads from it, or None when it rejects the text and the
   * statement fails.
   */
  function Bind(login: Option<string>, toColumn: Parser): (r: Option<Option<Instant>>)
    // None is stored as NULL and never fails; a text fails exactly when the server rejects it
    ensures login.None? ==> r == Some(None)
    ensures login.Some? ==> (r.None? <==> toColumn(login.value).None?)
    ensures r.Some? && r.value.Some? ==> login.Some? && r.value == toColumn(login.value)
    ensures login.Some? && toColumn(login.value).Some? ==> r == Some(toColumn(login.value))
  {
    match login
    case None => Some(None)
    case Some(s) => if toColumn(s).Some? then Some(toColumn(s)) else None
  }

  /** The server reads a text that `strptime` accepts in the SQL format as the same instant. */
  ghost predicate ServerReadsOwnFormat(parseSql: Parser, toColumn: Parser) {
    forall s :: parseSql(s).Some? ==> toColumn(s) == parseSql(s)
  }

  /** The SQL format has no literal 'T' and none of its fields reads a letter. */
  ghost predicate RejectsIsoSeparator(parseSql: Parser) {
    forall s :: 'T' in s ==> parseSql(s) == None
  }

  /** One executed INSERT or UPDATE inside its `try`: written and committed, or failed and printed. */
  function Write(table: map<string, Row>, userName: string, login: Option<string>, siteRole: string,
                 toColumn: Parser, done: Outcome): (r: UpsertResult)
    requires Writes(done)
    // only the row under userName may change
    ensures forall k :: k != userName ==> SameRow(r.table, table, k)
    // the statement fails exactly when the server rejects the text, and then nothing is written
    ensures r.outcome == WriteFailed <==> login.Some? && toColumn(login.value).None?
    ensures r.outcome == WriteFailed ==> r.table == table
    // otherwise the row holds the role and the server's reading of the login, NULL for None
    ensures r.outcome != WriteFailed ==>
              && r.outcome == done && userName in r.table
              && r.table[userName].siteRole == siteRole
              && r.table[userName].lastLogin == (if login.Some? then toColumn(login.value) else None)
  {
    match Bind(login, toColumn)
    case None => UpsertResult(WriteFailed, table)
    case Some(column) => UpsertResult(done, table[userName := Row(column, siteRole)])
  }

  /** The decision of database.py's `update_or_insert_user_data`, and the table it leaves. */
  function SqlUpsert(table: map<string, Row>, userName: string, lastLogin: Option<string>, siteRole: string,
                     parseSql: Parser, toColumn: Parser): (r: UpsertResult)
    // only the row keyed by userName is read or written, and no row is removed
    ensures forall k :: k != userName ==> (k in r.table <==> k in table) && (k in table ==> r.table[k] == table[k])
    ensures table.Keys <= r.table.Keys
    ensures !Writes(r.outcome) ==> r.table == table
    // an absent user is inserted with the incoming login, which may be null
    ensures userName !in table ==> r.outcome == Inserted || r.outcome == WriteFailed
    ensures userName !in table && Bind(lastLogin, toColumn).Some? ==> r.outcome == Inserted
    ensures r.outcome == Inserted ==>
              && userName !in table && Bind(lastLogin, toColumn).Some? && userName in r.table
              && r.table[userName] == Row(Bind(lastLogin, toColumn).value, siteRole)
    // an existing row is left alone when no login comes in
    ensures userName in table && !HasValue(lastLogin) ==> r.outcome == Unchanged
    // a null stored login is replaced by any non-empty incoming one, unparsed
    ensures userName in table && table[userName].lastLogin.None? && HasValue(lastLogin) ==>
              r.outcome == Updated || r.outcome == WriteFailed
    // a statement fails only when the server rejects the bound text
    ensures r.outcome == WriteFailed ==> lastLogin.Some? && toColumn(lastLogin.value).None?
    ensures userName in table && table[userName].lastLogin.None? && HasValue(lastLogin)
            && toColumn(lastLogin.value).Some? ==>
              r.outcome == Updated && r.table[userName] == Row(toColumn(lastLogin.value), siteRole)
    // nothing is written when the server rejects the text
    ensures Writes(r.outcome) && lastLogin.Some? ==> toColumn(lastLogin.value).Some?
    // strptime runs only against a non-null stored login, and its failure escapes
    ensures r.outcome == ParseError <==>
              && userName in table && table[userName].lastLogin.Some? && HasValue(lastLogin)
              && parseSql(lastLogin.value).None?
    // against a non-null stored login, only a strictly later incoming one is written
    ensures userName in table && table[userName].lastLogin.Some? && HasValue(lastLogin)
            && parseSql(lastLogin.value).Some? ==>
              ((r.outcome == Updated || r.outcome == WriteFailed)
               <==> parseSql(lastLogin.value).value > table[userName].lastLogin.value)
    // an update writes the login and the role together
    ensures r.outcome == Updated ==>
              userName in table && HasValue(lastLogin)
              && r.table[userName] == Row(toColumn(lastLogin.value), siteRole)
    ensures userName in table && r.table[userName].siteRole != table[userName].siteRole ==> r.outcome == Updated
    // a stored login never moves back, as long as the server reads texts as strptime does
    ensures ServerReadsOwnFormat(parseSql, toColumn) && userName in table && table[userName].lastLogin.Some? ==>
              && r.table[userName].lastLogin.Some?
              && r.table[userName].lastLogin.value >= table[userName].lastLogin.value
  {
    if userName in table then
      var existing := table[userName].lastLogin;
      if !HasValue(lastLogin) then UpsertResult(Unchanged, table)
      else if existing.None? then Write(table, userName, lastLogin, siteRole, toColumn, Updated)
      else match parseSql(lastLogin.value)
        case None => UpsertResult(ParseError, table)
        case Some(t) =>
          if t > existing.value then Write(table, userName, lastLogin, siteRole, toColumn, Updated)
          else UpsertResult(Unchanged, table)
    else
      Write(table, userName, lastLogin, siteRole, toColumn, Inserted)
  }

  /** Calling twice with the same arguments leaves the table as one call does; the second call writes nothing. */
  lemma SqlUpsertIdempotent(table: map<string, Row>, userName: string, lastLogin: Option<string>, siteRole: string,
                            parseSql: Parser, toColumn: Parser)
    ensures var once := SqlUpsert(table, userName, lastLogin, siteRole, parseSql, toColumn);
            var twice := SqlUpsert(once.table, userName, lastLogin, siteRole, parseSql, toColumn);
            && twice.table == once.table
            && (ServerReadsOwnFormat(parseSql, toColumn) ==> !Writes(twice.outcome))
  {
  }

  /** The call reads and writes only the row under its own key: two tables that agree there end alike there. */
  lemma SqlUpsertReadsOneRow(t1: map<string, Row>, t2: map<string, Row>, userName: string, lastLogin: Option<string>,
                             siteRole: string, parseSql: Parser, toColumn: Parser)
    requires SameRow(t1, t2, userName)
    ensures var r1 := SqlUpsert(t1, userName, lastLogin, siteRole, parseSql, toColumn);
            var r2 := SqlUpsert(t2, userName, lastLogin, siteRole, parseSql, toColumn);
            r1.outcome == r2.outcome && SameRow(r1.table, r2.table, userName)
  {
  }

  /**
   * A call that would leave the table as it is still would after any other
   * call: the stored login only moves forward, and a row once there stays.
   */
  lemma SettledStaysSettled(table: map<string, Row>, name: string, login: Option<string>, role: string,
                            other: string, otherLogin: Option<string>, otherRole: string,
                            parseSql: Parser, toColumn: Parser)
    requires ServerReadsOwnFormat(parseSql, toColumn)
    requires SqlUpsert(table, name, login, role, parseSql, toColumn).table == table
    ensures var next := SqlUpsert(table, other, otherLogin, otherRole, parseSql, toColumn).table;
            SqlUpsert(next, name, login, role, parseSql, toColumn).table == next
  {
    var next := SqlUpsert(table, other, otherLogin, otherRole, parseSql, toColumn).table;
    if other == name && HasValue(login) && name in next && next[name].lastLogin.Some? {
      if parseSql(login.value).Some? {
        assert toColumn(login.value) == parseSql(login.value);
      }
    }
  }

  /**
   * The ISO texts the listing returns ("2024-06-01T00:00:00Z") never parse in
   * the SQL format: against a non-null stored login the call raises and
   * writes nothing.
   */
  lemma IsoLoginRaisesAgainstStoredLogin(table: map<string, Row>, userName: string, login: string, siteRole: string,
                                         parseSql: Parser, toColumn: Parser)
    requires RejectsIsoSeparator(parseSql)
    requires userName in table && table[userName].lastLogin.Some?
    requires 'T' in login
    ensures SqlUpsert(table, userName, Some(login), siteRole, parseSql, toColumn) == UpsertResult(ParseError, table)
  {
    assert parseSql(login) == None;
  }

  /** The table `tableau_user_data`, as the connection sees it. */
  class UserDataTable {
    var rows: map<string, Row>

    constructor (rows: map<string, Row>)
      ensures this.rows == rows
    {
      this.rows := rows;
    }

    /** `update_or_insert_user_data(connection, user_name, last_login, site_role)` of database.py. */
    method UpdateOrInsertUserData(userName: string, lastLogin: Option<string>, siteRole: string,
                                  parseSql: Parser, toColumn: Parser) returns (outcome: Outcome)
      modifies this
      ensures UpsertResult(outcome, rows) == SqlUpsert(old(rows), userName, lastLogin, siteRole, parseSql, toColumn)
    {
      if userName in rows {
        var existing := rows[userName].lastLogin;
        if !HasValue(lastLogin) {
          outcome := Unchanged;
        } else if existing.None? {
          outcome := Execute(userName, lastLogin, siteRole, toColumn, Updated);
        } else {
          var parsed := parseSql(lastLogin.value);
          if parsed.None? {
            outcome := ParseError;
          } else if parsed.value > existing.value {
            outcome := Execute(userName, lastLogin, siteRole, toColumn, Updated);
          } else {
            outcome := Unchanged;
          }
        }
      } else {
        outcome := Execute(userName, lastLogin, siteRole, toColumn, Inserted);
      }
    }

    /** `cursor.execute(...)` and `connection.commit()` inside their `try`. */
    method Execute(userName: string, login: Option<string>, siteRole: string, toColumn: Parser, done: Outcome)
      returns (outcome: Outcome)
      requires Writes(done)
      modifies this
      ensures UpsertResult(outcome, rows) == Write(old(rows), userName, login, siteRole, toColumn, done)
    {
      var column := Bind(login, toColumn);
      if column.None? {
        outcome := WriteFailed;
      } else {
        rows := rows[userName := Row(column.value, siteRole)];
        outcome := done;
      }
    }
  }
}
