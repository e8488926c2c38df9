/**
 * The second, stand-alone variant in logger.py: a staleness test that treats
 * a missing login as active, and an upsert into `0003_01_tableau_user_activity`
 * that parses the ISO login (after stripping trailing 'Z's) before it looks
 * the user up, and binds the parsed instant rather than the text.
 */
module Logger {
  import opened Wrappers
  import opened Stamps
  import opened Tables
  import Staleness

  /**
   * `is_date_more_than_90_days_ago(last_login)`; None when `strptime` raises.
   * `parseNoZ` reads the format `%Y-%m-%dT%H:%M:%S`; `utcNow` is `datetime.utcnow()`.
   */
  function IsDateMoreThan90DaysAgo(lastLogin: Option<string>, utcNow: Instant, parseNoZ: Parser): (r: Option<bool>)
    ensures lastLogin.None? ==> r == Some(false)
    ensures lastLogin.Some? ==>
              (r.None? <==> parseNoZ(RStripZ(lastLogin.value)).None?)
    ensures lastLogin.Some? && r.Some? ==>
              (r.value <==> utcNow - parseNoZ(RStripZ(lastLogin.value)).value > InactivityThreshold)
  {
    match lastLogin
    case None => Some(false)
    case Some(s) =>
      match parseNoZ(RStripZ(s))
      case None => None
      case Some(t) => Some(utcNow - t > InactivityThreshold)
  }

  /** The instant to store: null without a login, else the parsed text; None when `strptime` raises. */
  function ParsedLogin(lastLogin: Option<string>, parseNoZ: Parser): (r: Option<Option<Instant>>)
    // None or "" gives a null stamp; a non-empty text raises iff it does not parse once its 'Z's are stripped
    ensures !HasValue(lastLogin) ==> r == Some(None)
    ensures HasValue(lastLogin) ==> (r.None? <==> parseNoZ(RStripZ(lastLogin.value)).None?)
    ensures r.Some? && r.value.Some? ==> HasValue(lastLogin) && r.value == parseNoZ(RStripZ(lastLogin.value))
    ensures HasValue(lastLogin) && parseNoZ(RStripZ(lastLogin.value)).Some? ==>
              r == Some(parseNoZ(RStripZ(lastLogin.value)))
  {
    if HasValue(lastLogin) then
      (if parseNoZ(RStripZ(lastLogin.value)).Some? then Some(parseNoZ(RStripZ(lastLogin.value))) else None)
    else Some(None)
  }

  /** The decision of logger.py's `update_or_insert_user_data`, and the table it leaves. */
  function ActivityUpsert(table: map<string, Row>, userName: string, lastLogin: Option<string>, siteRole: string,
                          parseNoZ: Parser): (r: UpsertResult)
    // only the row keyed by userName is read or written, and no row is removed
    ensures forall k :: k != userName ==> (k in r.table <==> k in table) && (k in table ==> r.table[k] == table[k])
    ensures table.Keys <= r.table.Keys
    ensures !Writes(r.outcome) ==> r.table == table
    // the login is parsed first: its failure escapes whether or not the user exists
    ensures r.outcome == ParseError <==> HasValue(lastLogin) && parseNoZ(RStripZ(lastLogin.value)).None?
    // the bound value is an instant or null, which the server always takes
    ensures r.outcome != WriteFailed
    // an absent user is inserted with the parsed login, null without one
    ensures userName !in table && r.outcome != ParseError ==>
              r.outcome == Inserted && userName in r.table && r.table[userName] == Row(ParsedLogin(lastLogin, parseNoZ).value, siteRole)
    ensures r.outcome == Inserted ==> userName !in table
    // an existing row is updated exactly when a parsed login is later than the stored one, or the stored one is null
    ensures userName in table && r.outcome != ParseError ==>
              (r.outcome == Updated <==>
                 && HasValue(lastLogin)
                 && (table[userName].lastLogin.None?
                     || parseNoZ(RStripZ(lastLogin.value)).value > table[userName].lastLogin.value))
    ensures r.outcome == Updated ==>
              && userName in table && HasValue(lastLogin)
              && r.table[userName] == Row(parseNoZ(RStripZ(lastLogin.value)), siteRole)
    // the role changes only together with the login, and a stored login never moves back
    ensures userName in table && r.table[userName].siteRole != table[userName].siteRole ==> r.outcome == Updated
    ensures userName in table && table[userName].lastLogin.Some? ==>
              && r.table[userName].lastLogin.Some?
              && r.table[userName].lastLogin.value >= table[userName].lastLogin.value
  {
    match ParsedLogin(lastLogin, parseNoZ)
    case None => UpsertResult(ParseError, table)
    case Some(stamp) =>
      if userName in table then
        var existing := table[userName].lastLogin;
        if stamp.Some? && (existing.None? || stamp.value > existing.value) then
          UpsertResult(Updated, table[userName := Row(stamp, siteRole)])
        else
          UpsertResult(Unchanged, table)
      else
        UpsertResult(Inserted, table[userName := Row(stamp, siteRole)])
  }

  /** A repeated call writes nothing and leaves the table as the first one did. */
  lemma ActivityUpsertIdempotent(table: map<string, Row>, userName: string, lastLogin: Option<string>,
                                 siteRole: string, parseNoZ: Parser)
    ensures var once := ActivityUpsert(table, userName, lastLogin, siteRole, parseNoZ);
            var twice := ActivityUpsert(once.table, userName, lastLogin, siteRole, parseNoZ);
            twice.table == once.table && !Writes(twice.outcome)
  {
  }

  /**
   * Two logins sent for a user whose stored login is older (or null, or who is
   * absent) leave the same row in either order: the later login with its role.
   */
  lemma LaterLoginWinsInEitherOrder(table: map<string, Row>, userName: string, a: string, b: string,
                                    role: string, parseNoZ: Parser)
    requires a != "" && b != ""
    requires parseNoZ(RStripZ(a)).Some? && parseNoZ(RStripZ(b)).Some?
    requires parseNoZ(RStripZ(a)).value < parseNoZ(RStripZ(b)).value
    requires userName in table && table[userName].lastLogin.Some? ==>
               table[userName].lastLogin.value < parseNoZ(RStripZ(b)).value
    ensures var ab := ActivityUpsert(ActivityUpsert(table, userName, Some(a), role, parseNoZ).table,
                                     userName, Some(b), role, parseNoZ).table;
            var ba := ActivityUpsert(ActivityUpsert(table, userName, Some(b), role, parseNoZ).table,
                                     userName, Some(a), role, parseNoZ).table;
            && ab == ba
            && ab == table[userName := Row(parseNoZ(RStripZ(b)), role)]
  {
  }

  /**
   * The two staleness tests disagree on a user with no login: main.py counts
   * them as stale, logger.py as active.
   */
  lemma MissingLoginDisagrees(now: Instant, parseIso: Parser, parseNoZ: Parser)
    ensures Staleness.IsMoreThan90Days(None, now, parseIso)
    ensures IsDateMoreThan90DaysAgo(None, now, parseNoZ) == Some(false)
  {
  }

  /**
   * On a login both parsers read alike (the second after the 'Z' is stripped),
   * the two staleness tests agree.
   */
  lemma WellFormedLoginAgrees(s: string, now: Instant, parseIso: Parser, parseNoZ: Parser)
    requires s != ""
    requires parseIso(s).Some? && parseNoZ(RStripZ(s)) == parseIso(s)
    ensures IsDateMoreThan90DaysAgo(Some(s), now, parseNoZ) == Some(Staleness.IsMoreThan90Days(Some(s), now, parseIso))
  {
  }

  /** The table `0003_01_tableau_user_activity`, as the connection sees it. */
  class UserActivityTable {
    var rows: map<string, Row>

    constructor (rows: map<string, Row>)
      ensures this.rows == rows
    {
      this.rows := rows;
    }

    /** `update_or_insert_user_data(connection, user_name, last_login, site_role)` of logger.py. */
    method UpdateOrInsertUserData(userName: string, lastLogin: Option<string>, siteRole: string, parseNoZ: Parser)
      returns (outcome: Outcome)
      modifies this
      ensures UpsertResult(outcome, rows) == ActivityUpsert(old(rows), userName, lastLogin, siteRole, parseNoZ)
    {
      var stamp: Option<Instant> := None;
      if HasValue(lastLogin) {
        var parsed := parseNoZ(RStripZ(lastLogin.value));
        if parsed.None? {
          return ParseError;
        }
        stamp := parsed;
      }
      if userName in rows {
        var existing := rows[userName].lastLogin;
        if stamp.Some? && (existing.None? || stamp.value > existing.value) {
          rows := rows[userName := Row(stamp, siteRole)];
          outcome := Updated;
        } else {
          outcome := Unchanged;
        }
      } else {
        rows := rows[userName := Row(stamp, siteRole)];
        outcome := Inserted;
      }
    }
  }
}
