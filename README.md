# Inactive-user reconciliation of the Tableau Server user-data scripts, in Dafny

The scripts sign in to a Tableau Server and list every site's users. The
90-day test is applied to each site's record of a user on its own: a
record whose login lies more than 90 days back, or that has none, is kept,
and the others are skipped. The kept records are merged into one entry per
user name: the sites of the kept records, the latest of their logins, and
a site role. Records that were skipped contribute nothing. The merged users are sorted for
a report, with no-login users first and then the latest logins first. Each
one is then written to the MySQL table `tableau_user_data`. The write is a
read-then-conditional-write keyed by `fullname`: insert when absent,
otherwise update `lastlogin` and `siterole` only for a later login.
`logger.py` holds a second, near-duplicate variant of the staleness test
and of the upsert, against `0003_01_tableau_user_activity`.

This project models that core.

- **Staleness and merge** (`Staleness`, `IdentityMerge`, main.py). The
  merge of `filter_and_update_user_data` is a method with a loop. It is
  proved equal to a fold, `MergeSightings`. Per user name, that fold is
  described without the dictionary: which entries exist, the sites in
  order, the role, and the login, which is the latest of those seen.
- **Report order** (`ReportSort`). The model sorts with a stable insertion
  sort, proved ordered by the key `(lastLogin is None, lastLogin)` reversed,
  a permutation, and stable among equal keys. A stable sort's result is
  unique, so it agrees with Python's `sorted(..., reverse=True)`.
- **The upsert of database.py** (`Database`). The decision is the function
  `SqlUpsert`. The class `UserDataTable` holds the table as a map and
  executes that decision step by step.
- **The upsert of logger.py** (`Logger`). This is `ActivityUpsert` with the
  class `UserActivityTable`, plus lemmas that set the two variants side by
  side.
- **The pipeline of main.py** (`Pipeline`). The batch of upserts stops at
  the first exception, as the `try` around `main` makes it. Proved of the
  batch:
  - It touches only its users' rows.
  - Stored logins never move back, provided the server reads a text as
    `strptime` does (`ServerReadsOwnFormat`).
  - When the batch completes and no name repeats, each row ends as one
    upsert of that user alone would leave it.
  - Running the batch twice leaves the table as running it once, under the
    same premise `ServerReadsOwnFormat`.

Timestamps are integers (microseconds). The clock is a parameter. Each
`strptime` format is an abstract parser `string -> Option<Instant>`, where
None means `strptime` raises. The server's conversion of a bound text into
its DATETIME column is a second parser, `toColumn`. Where the database.py
upsert needs the two to agree, the lemmas require `ServerReadsOwnFormat`.

The model follows the code where it might surprise a reader:

- A user inactive on one site but active on another is still reported
  and written, with only the inactive sites and the latest of their
  logins; the recent login is never seen
  (`IdentityMerge.ActiveElsewhereStillReported`).
- main.py:76 appends the site of every further stale sighting, with no
  deduplication.
- `siteRole` stays the role of the first stale sighting. The report line
  at main.py:104 labels it as the role at the last login, which it is not
  when a later login replaced the stored one.
- The database.py upsert binds the raw ISO text (`…T…Z`). It parses the
  text in the format `%Y-%m-%d %H:%M:%S` only when a non-null login is
  already stored, and that parse is outside any `try`. So for a stored
  login the ISO texts the listing returns raise, and the batch stops
  (`Database.IsoLoginRaisesAgainstStoredLogin`).

## Model

| member | source | states |
|---|---|---|
| Stamps.RStripZ | logger.py:24 | the result is a prefix of the text, does not end in 'Z', and everything stripped was 'Z' |
| Stamps.RStripZIdempotent | logger.py:24 | stripping twice strips nothing more |
| Stamps.RStripZKeepsUnsuffixed | logger.py:74 | a text not ending in 'Z' is passed to strptime unchanged |
| Stamps.RStripZUndoesSuffix | logger.py:24 | any number of trailing 'Z's appended to a text are removed exactly |
| TextOrder.StrLess | main.py:77 | Python's `<` on str; a proper prefix is smaller |
| TextOrder.StrLessIrreflexive | main.py:77 | Python's `>` on str is irreflexive, so an equal login never replaces the stored one |
| TextOrder.StrLessAsymmetric | main.py:77 | str order is asymmetric |
| TextOrder.StrLessTransitive | main.py:77 | str order is transitive |
| TextOrder.StrLessTrichotomy | main.py:77 | any two different texts are ordered one way or the other |
| TextOrder.StrLessAtFirstDifference | main.py:77 | texts compare at their first differing character |
| TextOrder.NotBelowAfterRaise | main.py:77 | a login not below the stored one stays not below once the stored one is replaced by a larger one |
| Staleness.IsMoreThan90Days | main.py:20-35 | None or "" is stale; a text strptime rejects is caught and counts as not stale; a parsed login is stale iff now minus it exceeds 90 days |
| Staleness.NinetyDaysIsTheBoundary | main.py:31-32 | exactly 90 days is not stale, one microsecond more is |
| Staleness.StaleStaysStale | main.py:31-32 | a stale login stays stale as time goes on |
| IdentityMerge.IsStale | main.py:72 | a missing or empty login is always kept; a non-empty one is kept iff the 90-day test holds, so the `is None` clause adds nothing |
| IdentityMerge.Supersedes | main.py:77 | an empty incoming login never replaces, nor an equal one; a non-empty one always replaces an empty stored one |
| IdentityMerge.MergeRecord | main.py:72-78 | a record that is not stale changes nothing; a stale one leaves its name with an entry; keys are only added, after the existing ones |
| IdentityMerge.MergeSightings | main.py:68-79 | every stale sighting leaves its user with an entry; keys are only added, after the existing ones |
| IdentityMerge.Values | main.py:99 | one value per key, in insertion order, each filed under its own name |
| IdentityMerge.LatestOfTwo | main.py:77-78 | the replacement rule keeps a login not below either non-empty candidate |
| IdentityMerge.MergeRecordEffect | main.py:72-78 | a non-stale record changes nothing; the first stale one creates {name, lastLogin, [site], siteRole}; a later one appends the site, keeps name and role, and keeps the larger login; other names are untouched |
| IdentityMerge.MergeRecordValid | main.py:72-78 | one iteration keeps the dictionary well formed and adds at most its own name, at the end of the key order |
| IdentityMerge.MergeSightingsValid | main.py:68-79 | the whole fold keeps the dictionary well formed; keys are only added, after the existing ones |
| IdentityMerge.MergeSightingsAppend | main.py:95-97 | merging site after site equals merging all sightings in one pass |
| IdentityMerge.FilterAndUpdateUserData | main.py:66-79 | the loop over one site's users yields the fold of those users into the given dictionary |
| IdentityMerge.CollectStaleUsers | main.py:94-97 | the per-site loop from `{}` yields the fold of all sites' users, and a well-formed dictionary |
| IdentityMerge.SiteNamesSnoc | main.py:76 | one more sighting appends its site and its login at the end |
| IdentityMerge.MergedKeys | main.py:72-74 | a user has an entry iff it had one or has a stale sighting; without stale sightings its entry is untouched |
| IdentityMerge.MergedSites | main.py:74-76 | a user's sites are its prior sites followed by the site of each stale sighting, in order, duplicates kept |
| IdentityMerge.MergedRole | main.py:74-78 | a user's role is its prior role, or that of its first stale sighting; later sightings never change it |
| IdentityMerge.LatestOfOne | main.py:74 | a freshly created entry's login is the latest of its one login |
| IdentityMerge.LatestStep | main.py:77-78 | the replacement rule keeps "largest non-empty login, or the first if none" as one more login arrives |
| IdentityMerge.MergedLoginIsLatest | main.py:68-79 | a user's merged login is the largest non-empty login among its own and its stale sightings', and empty only if all of them are |
| IdentityMerge.SightingsOfTwoSites | main.py:95-97 | two one-user sites yield their sightings in site order |
| IdentityMerge.TwoSitesKeepLaterLogin | main.py:72-78 | a user stale on two sites, later login second, ends as one entry with the later login, both sites, and the first site's role |
| IdentityMerge.ActiveElsewhereStillReported | main.py:72-78 | a user stale on one site but active on a later-listed one is still reported, with only the stale site and its old login |
| IdentityMerge.MarchIsAfterJanuary | main.py:77 | two ISO login texts compare as their dates do |
| ReportSort.ReportsBefore | main.py:99 | users without a login stand before every user with one, never after it |
| ReportSort.Insert | main.py:99 | insertion yields one more user, the inserted one among them |
| ReportSort.ReportsBeforeTotal | main.py:99 | any two users are comparable under the report key |
| ReportSort.ReportsBeforeTransitive | main.py:99 | the report key order is transitive |
| ReportSort.ReportsBeforeEqualKeys | main.py:99 | users with equal keys may stand in either order |
| ReportSort.WithLoginCons | main.py:99 | the users with one key, of a list with one more user in front |
| ReportSort.InsertPermutes | main.py:99 | insertion adds exactly the inserted user |
| ReportSort.InsertKeepsOrder | main.py:99 | insertion into a report-ordered list keeps it report-ordered |
| ReportSort.InsertIsStable | main.py:99 | among equal keys the inserted user comes first and the others keep their order |
| ReportSort.SortForReport | main.py:99 | no-login users first, then non-increasing logins; a permutation of the input; users with equal logins keep their input order |
| ReportSort.SortStep | main.py:99 | inserting the head into the sorted tail gives an ordered, stable permutation of the whole list |
| ReportSort.StableStep | main.py:99 | one insertion step keeps every class of equal keys in input order |
| ReportSort.SortForReportIdempotent | main.py:99 | sorting a sorted report changes nothing |
| ReportSort.SortedIsFixed | main.py:99 | a report-ordered list is its own sort |
| ReportSort.InsertKeepsNamesDistinct | main.py:99 | inserting a user with a new name keeps names distinct |
| ReportSort.SortKeepsNamesDistinct | main.py:99 | the sort never puts two users with one name in the report |
| Database.Bind | database.py:41 | None is stored as NULL; a text fails exactly when the server rejects it, and otherwise is stored as the instant the server reads |
| Database.Write | database.py:40-45 | only the user's row may change; the statement fails exactly when the server rejects the text, and then nothing is written; otherwise the row holds the role and the server's reading of the login, NULL for None |
| Database.SqlUpsert | database.py:22-59 | only the user's row changes and no row is removed; absent: inserted with the incoming login (may be null); present with no login: unchanged; stored null: becomes (login, role) unless the server rejects the text; stored non-null: strptime raises iff the text does not parse, else updated iff strictly later; a write fails only when the server rejects the text, and nothing is written then; login and role change together; stored login never moves back when the server reads texts as strptime does |
| Database.SqlUpsertReadsOneRow | database.py:26-30 | the call reads and writes only the row under its key |
| Database.SqlUpsertIdempotent | database.py:32-57 | a second identical call leaves the table as the first; it writes nothing when the server reads texts as strptime does |
| Database.SettledStaysSettled | database.py:32-45 | when the server reads a text as strptime does, a call that would change nothing still changes nothing after any other call |
| Database.IsoLoginRaisesAgainstStoredLogin | database.py:35 | an ISO login text against a stored non-null login raises and writes nothing |
| Database.UserDataTable.UpdateOrInsertUserData | database.py:22-59 | the method's outcome and new table are exactly those of SqlUpsert on the old table |
| Database.UserDataTable.Execute | database.py:40-45 | the executed statement writes the server's reading of the text, or fails and leaves the table |
| Logger.ParsedLogin | logger.py:73-77 | None or "" gives a null stamp; a non-empty text raises iff it does not parse once its trailing 'Z's are stripped, and otherwise gives the parsed instant |
| Logger.IsDateMoreThan90DaysAgo | logger.py:10-28 | None is not stale; otherwise the text without trailing 'Z's raises iff it does not parse, and is stale iff utcnow minus it exceeds 90 days |
| Logger.ActivityUpsert | logger.py:55-110 | a non-empty login that does not parse raises before any lookup; absent: inserted with the parsed login or null; present: updated iff a login came in and the stored one is null or older; login and role change together; the stored login never moves back; only the user's row changes |
| Logger.ActivityUpsertIdempotent | logger.py:84-102 | a second identical call writes nothing |
| Logger.LaterLoginWinsInEitherOrder | logger.py:84-102 | two logins sent in either order leave the same row, holding the later login |
| Logger.MissingLoginDisagrees | logger.py:21-22 | a missing login is stale for main.py's test and not stale for logger.py's |
| Logger.WellFormedLoginAgrees | logger.py:24-28 | on a login both parsers read alike, the two staleness tests agree |
| Logger.UserActivityTable.UpdateOrInsertUserData | logger.py:55-110 | the method's outcome and new table are exactly those of ActivityUpsert on the old table |
| Pipeline.PersistAll | main.py:81-87 | rows of users outside the batch are untouched; no row is removed; no stored login moves back when the server reads a text as strptime does; an empty batch writes nothing |
| Pipeline.PersistAllRowByRow | main.py:85-86 | after a completed batch with distinct names, each user's row is what one upsert of that user alone would leave |
| Pipeline.SettledThroughBatch | main.py:85-86 | when the server reads a text as strptime does, a call that would change nothing still changes nothing after a whole batch |
| Pipeline.PersistAllTwiceIsOnce | main.py:81-87 | when the server reads a text as strptime does, running the same batch twice leaves the table as running it once |
| Pipeline.ValuesAreTheEntries | main.py:99 | `user_data.values()` lists every entry once, under distinct names |
| Pipeline.SortPreservesMembers | main.py:99 | the report holds exactly the merged users |
| Pipeline.StaleUserReport | main.py:94-99 | the report is in report order, has distinct names, and holds exactly the merged entries |
| Pipeline.InsertUsersIntoDatabase | main.py:81-87 | without a connection nothing is written; otherwise the table and completion are those of the batch |
| Pipeline.Run | main.py:89-100 | the sorted users are the report of the merged stale users, and the table is the batch over them |

## Left out

- The Tableau REST calls (tableau_api.py) are not part of this model: the
  sites and their user listings are a given sequence. A site whose sign-in
  or listing fails contributes no users, as `process_users_for_site` makes it.
- config.py and the connection setup (`create_db_connection`) are not part
  of this model. A connection that could not be opened is a null table, and
  nothing is written.
- All `print` and `logger` output, including the report lines printed after
  the batch. `Run` returns whether the batch completed, which is when
  they are printed.
- The clock is a parameter. The model uses one `now` for the whole run; the
  source reads `datetime.now()` for every record.
- `strptime` and the server's DATETIME conversion are abstract parsers. No
  calendar arithmetic or time zones are modelled (`now` against `utcnow`).
- Database errors inside the `try` blocks other than the server rejecting
  the bound text (lost connection, constraint violations) are not modelled.
  The logger.py writes bind an instant or null, so they never fail in the
  model.
- The SELECT and `connection.cursor()` of both upserts run outside any
  `try`; their failure would end the batch like the parse error does. The
  model takes both to succeed.
- A listing record without a `name` or `siteRole` key raises `KeyError` in
  the source. The records here always carry both.
- The dictionary is a value that the merge returns. The source mutates it in
  place and `main` rebinds the same object, so nothing observable differs.
- Python's str comparison is modelled as code-point order. That the ISO
  texts compare as their dates do is not modelled, beyond the example
  `IdentityMerge.MarchIsAfterJanuary`.
- Pipeline.PersistAll: its contract does not say at which user the batch
  stops. That is fixed by its definition, and `PersistAllRowByRow`
  describes the completed case.
- Database.SqlUpsert: monotonicity of the stored login is stated only when
  the server reads a text as `strptime` does (`ServerReadsOwnFormat`).
  Without it, an update may store what the server makes of the text.
