/**
 * main.py: collect the stale users of every site, sort them for the report,
 * and write them to `tableau_user_data` one after the other. An exception
 * raised by an upsert ends the batch and skips the report, caught by the
 * `try` around the whole of `main`.
 */
module Pipeline {
  import opened Wrappers
  import opened Stamps
  import opened Records
  import opened Tables
  import opened Database
  import opened IdentityMerge
  import opened ReportSort

  /** The table after a batch, and whether the batch ran to its end. */
  datatype BatchResult = BatchResult(table: map<string, Row>, completed: bool)

  function NamesOf(users: seq<Identity>): set<string> {
    set u | u in users :: u.name
  }

  /**
   * `insert_users_into_database(sorted_users)` over an open connection: one
   * upsert per user, in order, until one raises.
   */
  function PersistAll(table: map<string, Row>, users: seq<Identity>, parseSql: Parser, toColumn: Parser): (r: BatchResult)
    // rows of users outside the batch are untouched, and no row is removed
    ensures forall k :: k !in NamesOf(users) ==> SameRow(r.table, table, k)
    ensures table.Keys <= r.table.Keys
    // no stored login moves back, as long as the server reads texts as strptime does
    ensures ServerReadsOwnFormat(parseSql, toColumn) ==>
              forall k :: k in table && table[k].lastLogin.Some? ==>
                && k in r.table && r.table[k].lastLogin.Some?
                && r.table[k].lastLogin.value >= table[k].lastLogin.value
    // an empty batch completes and writes nothing
    ensures users == [] ==> r == BatchResult(table, true)
    decreases |users|
  {
    if |users| == 0 then BatchResult(table, true)
    else
      var u := users[0];
      var step := SqlUpsert(table, u.name, u.lastLogin, u.siteRole, parseSql, toColumn);
      if step.outcome == ParseError then BatchResult(table, false)
      else
        assert u in users && forall v :: v in users[1..] ==> v in users;
        assert NamesOf(users[1..]) <= NamesOf(users) && u.name in NamesOf(users);
        PersistAll(step.table, users[1..], parseSql, toColumn)
  }

  /**
   * When the batch completes and no name repeats, every user's row ends as one
   * upsert of that user alone would leave it: the order of the batch does not
   * matter to the table.
   */
  lemma {:induction false} PersistAllRowByRow(table: map<string, Row>, users: seq<Identity>, parseSql: Parser, toColumn: Parser)
    requires NamesDistinct(users)
    requires PersistAll(table, users, parseSql, toColumn).completed
    ensures forall i :: 0 <= i < |users| ==>
              SameRow(PersistAll(table, users, parseSql, toColumn).table,
                      SqlUpsert(table, users[i].name, users[i].lastLogin, users[i].siteRole, parseSql, toColumn).table,
                      users[i].name)
    decreases |users|
  {
    if |users| > 0 {
      var u := users[0];
      var step := SqlUpsert(table, u.name, u.lastLogin, u.siteRole, parseSql, toColumn);
      var r := PersistAll(table, users, parseSql, toColumn);
      assert r == PersistAll(step.table, users[1..], parseSql, toColumn);
      PersistAllRowByRow(step.table, users[1..], parseSql, toColumn);
      forall i | 0 <= i < |users|
        ensures SameRow(r.table, SqlUpsert(table, users[i].name, users[i].lastLogin, users[i].siteRole, parseSql, toColumn).table,
                        users[i].name)
      {
        if i == 0 {
          assert u.name !in NamesOf(users[1..]) by {
            forall v | v in users[1..]
              ensures v.name != u.name
            {
              var j :| 0 <= j < |users[1..]| && users[1..][j] == v;
              assert users[j + 1] == v;
            }
          }
        } else {
          var v := users[i];
          assert users[1..][i - 1] == v;
          assert SameRow(step.table, table, v.name);
          SqlUpsertReadsOneRow(step.table, table, v.name, v.lastLogin, v.siteRole, parseSql, toColumn);
        }
      }
    }
  }

  /** A call that would leave the table as it is still would after any batch. */
  lemma {:induction false} SettledThroughBatch(table: map<string, Row>, name: string, login: Option<string>, role: string,
                                               users: seq<Identity>, parseSql: Parser, toColumn: Parser)
    requires ServerReadsOwnFormat(parseSql, toColumn)
    requires SqlUpsert(table, name, login, role, parseSql, toColumn).table == table
    ensures var t := PersistAll(table, users, parseSql, toColumn).table;
            SqlUpsert(t, name, login, role, parseSql, toColumn).table == t
    decreases |users|
  {
    if |users| > 0 {
      var u := users[0];
      var step := SqlUpsert(table, u.name, u.lastLogin, u.siteRole, parseSql, toColumn);
      if step.outcome != ParseError {
        SettledStaysSettled(table, name, login, role, u.name, u.lastLogin, u.siteRole, parseSql, toColumn);
        SettledThroughBatch(step.table, name, login, role, users[1..], parseSql, toColumn);
      }
    }
  }

  /**
   * Running the same batch again leaves the table as the first run left it.
   */
  lemma {:induction false} PersistAllTwiceIsOnce(table: map<string, Row>, users: seq<Identity>, parseSql: Parser, toColumn: Parser)
    requires ServerReadsOwnFormat(parseSql, toColumn)
    ensures var once := PersistAll(table, users, parseSql, toColumn).table;
            PersistAll(once, users, parseSql, toColumn).table == once
    decreases |users|
  {
    if |users| > 0 {
      var u := users[0];
      var step := SqlUpsert(table, u.name, u.lastLogin, u.siteRole, parseSql, toColumn);
      if step.outcome != ParseError {
        var once := PersistAll(step.table, users[1..], parseSql, toColumn).table;
        PersistAllTwiceIsOnce(step.table, users[1..], parseSql, toColumn);
        SqlUpsertIdempotent(table, u.name, u.lastLogin, u.siteRole, parseSql, toColumn);
        SettledThroughBatch(step.table, u.name, u.lastLogin, u.siteRole, users[1..], parseSql, toColumn);
        assert SqlUpsert(once, u.name, u.lastLogin, u.siteRole, parseSql, toColumn).table == once;
      }
    }
  }

  /** The entries of a well-formed dictionary, one per name. */
  lemma ValuesAreTheEntries(d: UserData)
    requires Valid(d)
    ensures NamesDistinct(Values(d))
    ensures forall u :: u in Values(d) ==> u.name in d.entries && d.entries[u.name] == u
    ensures forall n :: n in d.entries ==> n in NamesOf(Values(d))
  {
    var vs := Values(d);
    forall n | n in d.entries
      ensures n in NamesOf(vs)
    {
      var i :| 0 <= i < |d.names| && d.names[i] == n;
      assert vs[i] in vs;
    }
  }

  /**
   * `sorted(user_data.values(), key=..., reverse=True)` after the per-site
   * loop: every stale user exactly once, as merged, in report order.
   */
  function StaleUserReport(sites: seq<SiteUsers>, now: Instant, parseIso: Parser): (r: seq<Identity>)
    ensures InReportOrder(r)
    ensures NamesDistinct(r)
    ensures var merged := MergeSightings(Empty, Sightings(sites), now, parseIso);
            && (forall u :: u in r ==> u.name in merged.entries && merged.entries[u.name] == u)
            && (forall n :: n in merged.entries ==> n in NamesOf(r))
  {
    var merged := MergeSightings(Empty, Sightings(sites), now, parseIso);
    MergeSightingsValid(Empty, Sightings(sites), now, parseIso);
    ValuesAreTheEntries(merged);
    SortKeepsNamesDistinct(Values(merged));
    SortPreservesMembers(Values(merged));
    SortForReport(Values(merged))
  }

  lemma SortPreservesMembers(s: seq<Identity>)
    ensures forall u :: u in SortForReport(s) <==> u in s
    ensures NamesOf(SortForReport(s)) == NamesOf(s)
  {
    var r := SortForReport(s);
    assert forall u :: u in r <==> u in multiset(r);
    assert forall u :: u in s <==> u in multiset(s);
  }

  /** `insert_users_into_database(sorted_users)`; a null table is a connection that could not be opened. */
  method InsertUsersIntoDatabase(db: UserDataTable?, sortedUsers: seq<Identity>, parseSql: Parser, toColumn: Parser)
    returns (completed: bool)
    modifies db
    ensures db == null ==> completed
    ensures db != null ==> BatchResult(db.rows, completed) == PersistAll(old(db.rows), sortedUsers, parseSql, toColumn)
  {
    completed := true;
    if db != null {
      var i := 0;
      while i < |sortedUsers|
        invariant 0 <= i <= |sortedUsers|
        invariant PersistAll(old(db.rows), sortedUsers, parseSql, toColumn)
                  == PersistAll(db.rows, sortedUsers[i..], parseSql, toColumn)
      {
        var u := sortedUsers[i];
        assert sortedUsers[i..][0] == u && sortedUsers[i..][1..] == sortedUsers[i + 1..];
        var outcome := db.UpdateOrInsertUserData(u.name, u.lastLogin, u.siteRole, parseSql, toColumn);
        if outcome == ParseError {
          return false;
        }
        i := i + 1;
      }
    }
  }

  /**
   * `main()` after the listings are in: the report it sorts, and whether the
   * batch completed (only then is the report printed).
   */
  method Run(sites: seq<SiteUsers>, now: Instant, parseIso: Parser, db: UserDataTable?, parseSql: Parser, toColumn: Parser)
    returns (sortedUsers: seq<Identity>, completed: bool)
    modifies db
    ensures sortedUsers == StaleUserReport(sites, now, parseIso)
    ensures db == null ==> completed
    ensures db != null ==> BatchResult(db.rows, completed) == PersistAll(old(db.rows), sortedUsers, parseSql, toColumn)
  {
    var userData := CollectStaleUsers(sites, now, parseIso);
    sortedUsers := SortForReport(Values(userData));
    completed := InsertUsersIntoDatabase(db, sortedUsers, parseSql, toColumn);
  }
}
