/** The stored user table both upsert variants work on, and what one upsert call does to it. */
module Tables {
  import opened Wrappers
  import opened Stamps

  /** A stored row under its `fullname` key: `lastlogin` (a nullable DATETIME) and `siterole`. */
  datatype Row = Row(lastLogin: Option<Instant>, siteRole: string)

  /** How one call of `update_or_insert_user_data` ended. */
  datatype Outcome =
    | Inserted     // the INSERT was executed and committed
    | Updated      // the UPDATE was executed and committed
    | Unchanged    // the row exists and the comparison called for no update
    | WriteFailed  // the statement raised inside the `try`: printed, nothing written
    | ParseError   // `strptime` raised outside any `try`: the exception leaves the function

  /** The outcome of one call with the table it leaves. */
  datatype UpsertResult = UpsertResult(outcome: Outcome, table: map<string, Row>)

  /** The outcomes that wrote to the table. */
  predicate Writes(o: Outcome) {
    o == Inserted || o == Updated
  }

  /** Both tables hold the same row under key k, or neither holds one. */
  ghost predicate SameRow(a: map<string, Row>, b: map<string, Row>, k: string) {
    (k in a <==> k in b) && (k in a ==> a[k] == b[k])
  }
}
