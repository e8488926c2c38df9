/**
 * The identity merge of `filter_and_update_user_data`: stale user records of
 * every site are folded into one dictionary entry per user name.
 */
module IdentityMerge {
  import opened Wrappers
  import opened Stamps
  import opened TextOrder
  import opened Records
  import opened Staleness

  /**
   * The user dictionary: `entries` keyed by user name, and `names`, the keys
   * in insertion order (the order in which `user_data.values()` yields them).
   */
  datatype UserData = UserData(names: seq<string>, entries: map<string, Identity>)

  /** The dictionary `{}` that `main` starts from. */
  const Empty: UserData := UserData([], map[])

  /** The keys are listed once each, every entry is filed under its own name and has a site. */
  ghost predicate Valid(d: UserData) {
    && (forall i, j :: 0 <= i < j < |d.names| ==> d.names[i] != d.names[j])
    && (forall n :: n in d.entries <==> n in d.names)
    && (forall n :: n in d.entries ==> d.entries[n].name == n && d.entries[n].sites != [])
  }

  /** The filter of the merge: inactive by the 90-day test, or no `lastLogin` key at all. */
  predicate IsStale(u: UserRecord, now: Instant, parseIso: Parser)
    // the `is None` clause adds nothing: a missing or empty login is already inactive
    ensures !HasValue(u.lastLogin) ==> IsStale(u, now, parseIso)
    ensures HasValue(u.lastLogin) ==> (IsStale(u, now, parseIso) <==> IsMoreThan90Days(u.lastLogin, now, parseIso))
  {
    IsMoreThan90Days(u.lastLogin, now, parseIso) || u.lastLogin.None?
  }

  /** When an incoming login replaces the stored one: it is non-empty and the stored one is empty or smaller. */
  predicate Supersedes(incoming: Option<string>, stored: Option<string>)
    // an empty login never replaces, an equal one never either; any non-empty one replaces an empty one
    ensures Supersedes(incoming, stored) ==> HasValue(incoming) && incoming != stored
    ensures HasValue(incoming) && !HasValue(stored) ==> Supersedes(incoming, stored)
  {
    if HasValue(incoming) then
      StrLessIrreflexive(incoming.value);
      !HasValue(stored) || StrLess(stored.value, incoming.value)
    else false
  }

  /** A sighting the merge keeps for user n. */
  predicate Counts(x: Sighting, n: string, now: Instant, parseIso: Parser) {
    x.user.name == n && IsStale(x.user, now, parseIso)
  }

  /** The replacement rule keeps the larger of two logins, and a non-empty one over an empty one. */
  lemma LatestOfTwo(incoming: Option<string>, stored: Option<string>)
    ensures var kept := if Supersedes(incoming, stored) then incoming else stored;
            && (HasValue(incoming) ==> HasValue(kept) && !StrLess(kept.value, incoming.value))
            && (HasValue(stored) ==> HasValue(kept) && !StrLess(kept.value, stored.value))
  {
    if HasValue(incoming) {
      StrLessIrreflexive(incoming.value);
    }
    if HasValue(stored) {
      StrLessIrreflexive(stored.value);
      if Supersedes(incoming, stored) {
        StrLessAsymmetric(stored.value, incoming.value);
      }
    }
  }

  /** One iteration of the loop of `filter_and_update_user_data`. */
  function MergeRecord(d: UserData, x: Sighting, now: Instant, parseIso: Parser): (r: UserData)
    // a record that is not stale changes nothing; a stale one leaves its name with an entry
    ensures !IsStale(x.user, now, parseIso) ==> r == d
    ensures IsStale(x.user, now, parseIso) ==> x.user.name in r.entries
    // keys are only added, after the existing ones
    ensures d.names <= r.names && d.entries.Keys <= r.entries.Keys
  {
    var u := x.user;
    if !IsStale(u, now, parseIso) then d
    else if u.name !in d.entries then
      UserData(d.names + [u.name], d.entries[u.name := Identity(u.name, u.lastLogin, [x.site], u.siteRole)])
    else
      var e := d.entries[u.name];
      var login := if Supersedes(u.lastLogin, e.lastLogin) then u.lastLogin else e.lastLogin;
      UserData(d.names, d.entries[u.name := e.(sites := e.sites + [x.site], lastLogin := login)])
  }

  /**
   * What one record does to the entry of user n: a record that is not stale
   * changes nothing; the first stale record of n creates its entry from the
   * record; a later one appends the site, keeps the name and the role, and
   * keeps the larger of the stored and the incoming login (a non-empty one
   * over an empty one). Entries of other names are untouched.
   */
  lemma MergeRecordEffect(d: UserData, x: Sighting, n: string, now: Instant, parseIso: Parser)
    ensures var r := MergeRecord(d, x, now, parseIso);
            && (n in r.entries <==> n in d.entries || Counts(x, n, now, parseIso))
            && (!Counts(x, n, now, parseIso) && n in d.entries ==> r.entries[n] == d.entries[n])
            && (Counts(x, n, now, parseIso) && n !in d.entries ==>
                  r.entries[n] == Identity(n, x.user.lastLogin, [x.site], x.user.siteRole))
            && (Counts(x, n, now, parseIso) && n in d.entries ==>
                  var e, e' := d.entries[n], r.entries[n];
                  && e'.sites == e.sites + [x.site]
                  && e'.name == e.name && e'.siteRole == e.siteRole
                  && (e'.lastLogin == e.lastLogin || e'.lastLogin == x.user.lastLogin)
                  && (!HasValue(x.user.lastLogin) ==> e'.lastLogin == e.lastLogin)
                  && (HasValue(x.user.lastLogin) ==>
                        HasValue(e'.lastLogin) && !StrLess(e'.lastLogin.value, x.user.lastLogin.value))
                  && (HasValue(e.lastLogin) ==>
                        HasValue(e'.lastLogin) && !StrLess(e'.lastLogin.value, e.lastLogin.value)))
  {
    if n in d.entries {
      LatestOfTwo(x.user.lastLogin, d.entries[n].lastLogin);
    }
  }

  /** The merge of a sequence of sightings, in order, into `d`. */
  function MergeSightings(d: UserData, ss: seq<Sighting>, now: Instant, parseIso: Parser): (r: UserData)
    // every stale sighting leaves its user with an entry; keys are only added, after the existing ones
    ensures forall i :: 0 <= i < |ss| && IsStale(ss[i].user, now, parseIso) ==> ss[i].user.name in r.entries
    ensures d.names <= r.names && d.entries.Keys <= r.entries.Keys
    decreases |ss|
  {
    if |ss| == 0 then d
    else MergeRecord(MergeSightings(d, ss[..|ss| - 1], now, parseIso), ss[|ss| - 1], now, parseIso)
  }

  /** One record keeps the dictionary well formed, and adds at most its own name, at the end. */
  lemma MergeRecordValid(d: UserData, x: Sighting, now: Instant, parseIso: Parser)
    requires Valid(d)
    ensures var r := MergeRecord(d, x, now, parseIso);
            Valid(r) && d.names <= r.names && r.entries.Keys <= d.entries.Keys + {x.user.name}
  {
  }

  /** The merge keeps the dictionary well formed; entries are only ever added, after the existing ones. */
  lemma {:induction false} MergeSightingsValid(d: UserData, ss: seq<Sighting>, now: Instant, parseIso: Parser)
    requires Valid(d)
    ensures var r := MergeSightings(d, ss, now, parseIso);
            Valid(r) && d.names <= r.names && d.entries.Keys <= r.entries.Keys
    decreases |ss|
  {
    if |ss| > 0 {
      MergeSightingsValid(d, ss[..|ss| - 1], now, parseIso);
      MergeRecordValid(MergeSightings(d, ss[..|ss| - 1], now, parseIso), ss[|ss| - 1], now, parseIso);
    }
  }

  /** `user_data.values()`: the entries in insertion order. */
  function Values(d: UserData): (r: seq<Identity>)
    requires Valid(d)
    // one value per key, in insertion order, each filed under its own name
    ensures |r| == |d.names| && forall i :: 0 <= i < |r| ==> r[i].name == d.names[i]
  {
    seq(|d.names|, i requires 0 <= i < |d.names| => d.entries[d.names[i]])
  }

  /** One site's users, each paired with the site's name. */
  function Tag(site: string, users: seq<UserRecord>): seq<Sighting> {
    seq(|users|, i requires 0 <= i < |users| => Sighting(site, users[i]))
  }

  /** Every user of every site, site after site, in listing order. */
  function Sightings(sites: seq<SiteUsers>): seq<Sighting>
    decreases |sites|
  {
    if |sites| == 0 then []
    else Sightings(sites[..|sites| - 1]) + Tag(sites[|sites| - 1].siteName, sites[|sites| - 1].users)
  }

  /** Merging in two batches is merging in one. */
  lemma {:induction false} MergeSightingsAppend(d: UserData, a: seq<Sighting>, b: seq<Sighting>, now: Instant, parseIso: Parser)
    ensures MergeSightings(d, a + b, now, parseIso) == MergeSightings(MergeSightings(d, a, now, parseIso), b, now, parseIso)
    decreases |b|
  {
    if |b| == 0 {
      assert a + b == a;
    } else {
      assert (a + b)[..|a + b| - 1] == a + b[..|b| - 1];
      MergeSightingsAppend(d, a, b[..|b| - 1], now, parseIso);
    }
  }

  /**
   * `filter_and_update_user_data(users, user_data, site)`: folds one site's
   * users into the dictionary and returns it.
   */
  method FilterAndUpdateUserData(users: seq<UserRecord>, userData: UserData, site: string, now: Instant, parseIso: Parser)
    returns (r: UserData)
    ensures r == MergeSightings(userData, Tag(site, users), now, parseIso)
  {
    r := userData;
    var i := 0;
    while i < |users|
      invariant 0 <= i <= |users|
      invariant r == MergeSightings(userData, Tag(site, users[..i]), now, parseIso)
    {
      var userName, lastLogin, siteRole := users[i].name, users[i].lastLogin, users[i].siteRole;
      if IsMoreThan90Days(lastLogin, now, parseIso) || lastLogin.None? {
        if userName !in r.entries {
          r := UserData(r.names + [userName], r.entries[userName := Identity(userName, lastLogin, [site], siteRole)]);
        } else {
          var entry := r.entries[userName];
          entry := entry.(sites := entry.sites + [site]);
          if HasValue(lastLogin) && (!HasValue(entry.lastLogin) || StrLess(entry.lastLogin.value, lastLogin.value)) {
            entry := entry.(lastLogin := lastLogin);
          }
          r := r.(entries := r.entries[userName := entry]);
        }
      }
      assert Tag(site, users[..i + 1])[..i] == Tag(site, users[..i]);
      i := i + 1;
    }
    assert users[..i] == users;
  }

  /**
   * The per-site loop of `main`: starting from `{}`, every site's users are
   * folded into the dictionary, site after site.
   */
  method CollectStaleUsers(sites: seq<SiteUsers>, now: Instant, parseIso: Parser) returns (userData: UserData)
    ensures userData == MergeSightings(Empty, Sightings(sites), now, parseIso)
    ensures Valid(userData)
  {
    userData := Empty;
    var i := 0;
    while i < |sites|
      invariant 0 <= i <= |sites|
      invariant userData == MergeSightings(Empty, Sightings(sites[..i]), now, parseIso)
    {
      userData := FilterAndUpdateUserData(sites[i].users, userData, sites[i].siteName, now, parseIso);
      MergeSightingsAppend(Empty, Sightings(sites[..i]), Tag(sites[i].siteName, sites[i].users), now, parseIso);
      assert sites[..i + 1][..i] == sites[..i];
      i := i + 1;
    }
    assert sites[..i] == sites;
    MergeSightingsValid(Empty, Sightings(sites), now, parseIso);
  }

  // ---------------------------------------------------------------------
  // What the merge computes for one user name, stated without the dictionary

  /** The sightings the merge keeps for user n, in order. */
  function StaleFor(n: string, ss: seq<Sighting>, now: Instant, parseIso: Parser): seq<Sighting>
    decreases |ss|
  {
    if |ss| == 0 then []
    else StaleFor(n, ss[..|ss| - 1], now, parseIso)
         + (if Counts(ss[|ss| - 1], n, now, parseIso) then [ss[|ss| - 1]] else [])
  }

  function SiteNames(xs: seq<Sighting>): seq<string>
    decreases |xs|
  {
    if |xs| == 0 then [] else SiteNames(xs[..|xs| - 1]) + [xs[|xs| - 1].site]
  }

  function Logins(xs: seq<Sighting>): seq<Option<string>>
    decreases |xs|
  {
    if |xs| == 0 then [] else Logins(xs[..|xs| - 1]) + [xs[|xs| - 1].user.lastLogin]
  }

  /** The logins that bear on user n: the entry's own, if it is already there, then those of its stale sightings. */
  function LoginsFor(d: UserData, n: string, ss: seq<Sighting>, now: Instant, parseIso: Parser): seq<Option<string>> {
    (if n in d.entries then [d.entries[n].lastLogin] else []) + Logins(StaleFor(n, ss, now, parseIso))
  }

  lemma SiteNamesSnoc(xs: seq<Sighting>, x: Sighting)
    ensures SiteNames(xs + [x]) == SiteNames(xs) + [x.site]
    ensures Logins(xs + [x]) == Logins(xs) + [x.user.lastLogin]
  {
    assert (xs + [x])[..|xs|] == xs;
  }

  /**
   * The merged entry of user n exists exactly when n was there already or
   * has a stale sighting; without stale sightings it is untouched.
   */
  lemma {:induction false} MergedKeys(d: UserData, ss: seq<Sighting>, n: string, now: Instant, parseIso: Parser)
    ensures var r, S := MergeSightings(d, ss, now, parseIso), StaleFor(n, ss, now, parseIso);
            && (n in r.entries <==> n in d.entries || S != [])
            && (S == [] && n in d.entries ==> r.entries[n] == d.entries[n])
    decreases |ss|
  {
    if |ss| > 0 {
      var ss', x := ss[..|ss| - 1], ss[|ss| - 1];
      MergedKeys(d, ss', n, now, parseIso);
      MergeRecordEffect(MergeSightings(d, ss', now, parseIso), x, n, now, parseIso);
    }
  }

  /**
   * The sites of user n's merged entry are those it had, followed by the site
   * of each of its stale sightings in order, duplicates kept.
   */
  lemma {:induction false} MergedSites(d: UserData, ss: seq<Sighting>, n: string, now: Instant, parseIso: Parser)
    requires n in MergeSightings(d, ss, now, parseIso).entries
    ensures MergeSightings(d, ss, now, parseIso).entries[n].sites
            == (if n in d.entries then d.entries[n].sites else []) + SiteNames(StaleFor(n, ss, now, parseIso))
    decreases |ss|
  {
    if |ss| > 0 {
      var ss', x := ss[..|ss| - 1], ss[|ss| - 1];
      var r' := MergeSightings(d, ss', now, parseIso);
      var S' := StaleFor(n, ss', now, parseIso);
      assert MergeSightings(d, ss, now, parseIso) == MergeRecord(r', x, now, parseIso);
      MergeRecordEffect(r', x, n, now, parseIso);
      MergedKeys(d, ss', n, now, parseIso);
      var prior := if n in d.entries then d.entries[n].sites else [];
      if Counts(x, n, now, parseIso) {
        assert StaleFor(n, ss, now, parseIso) == S' + [x];
        SiteNamesSnoc(S', x);
        if n in r'.entries {
          MergedSites(d, ss', n, now, parseIso);
        } else {
          assert S' == [] && n !in d.entries;
        }
      } else {
        assert StaleFor(n, ss, now, parseIso) == S';
        MergedSites(d, ss', n, now, parseIso);
      }
    }
  }

  /**
   * The role of user n's merged entry is the one it was created with: the
   * role it had, or that of its first stale sighting. A later sighting never
   * changes it, even when it brings a later login.
   */
  lemma {:induction false} MergedRole(d: UserData, ss: seq<Sighting>, n: string, now: Instant, parseIso: Parser)
    requires n in MergeSightings(d, ss, now, parseIso).entries
    ensures var S := StaleFor(n, ss, now, parseIso);
            n in d.entries || S != []
    ensures var S := StaleFor(n, ss, now, parseIso);
            MergeSightings(d, ss, now, parseIso).entries[n].siteRole
            == if n in d.entries then d.entries[n].siteRole else S[0].user.siteRole
    decreases |ss|
  {
    MergedKeys(d, ss, n, now, parseIso);
    if |ss| > 0 {
      var ss', x := ss[..|ss| - 1], ss[|ss| - 1];
      var r' := MergeSightings(d, ss', now, parseIso);
      MergeRecordEffect(r', x, n, now, parseIso);
      MergedKeys(d, ss', n, now, parseIso);
      if n in r'.entries {
        MergedRole(d, ss', n, now, parseIso);
      }
    }
  }

  /**
   * `login` is the largest non-empty login of L; it is empty only when no
   * login of L is non-empty, and then it is the first of them.
   */
  ghost predicate IsLatest(login: Option<string>, L: seq<Option<string>>) {
    && L != []
    && (HasValue(login) <==> exists i :: 0 <= i < |L| && HasValue(L[i]))
    && (HasValue(login) ==> login in L)
    && (HasValue(login) ==> forall i :: 0 <= i < |L| && HasValue(L[i]) ==> !StrLess(login.value, L[i].value))
    && (!HasValue(login) ==> login == L[0])
  }

  lemma LatestOfOne(login: Option<string>)
    ensures IsLatest(login, [login])
  {
    if HasValue(login) {
      StrLessIrreflexive(login.value);
    }
  }

  /** The replacement rule keeps `IsLatest` when one more login arrives. */
  lemma {:induction false} LatestStep(stored: Option<string>, L: seq<Option<string>>, incoming: Option<string>)
    requires IsLatest(stored, L)
    ensures IsLatest(if Supersedes(incoming, stored) then incoming else stored, L + [incoming])
  {
    var L' := L + [incoming];
    assert L'[|L|] == incoming;
    if Supersedes(incoming, stored) {
      forall i | 0 <= i < |L'| && HasValue(L'[i])
        ensures !StrLess(incoming.value, L'[i].value)
      {
        if i < |L| {
          assert L'[i] == L[i];
          NotBelowAfterRaise(stored.value, incoming.value, L[i].value);
        } else {
          StrLessIrreflexive(incoming.value);
        }
      }
    } else {
      assert L'[0] == L[0];
      if HasValue(stored) {
        var j :| 0 <= j < |L| && HasValue(L[j]);
        assert L'[j] == L[j];
        forall i | 0 <= i < |L'| && HasValue(L'[i])
          ensures !StrLess(stored.value, L'[i].value)
        {
          if i < |L| {
            assert L'[i] == L[i];
          }
        }
      } else {
        forall i | 0 <= i < |L'|
          ensures !HasValue(L'[i])
        {
          if i < |L| {
            assert L'[i] == L[i];
          }
        }
      }
    }
  }

  /**
   * The merged `lastLogin` of user n is the largest non-empty login that
   * bears on n; it is empty only when none of them is non-empty, and then it
   * is the first of them (the one the entry was created with).
   */
  lemma {:induction false} MergedLoginIsLatest(d: UserData, ss: seq<Sighting>, n: string, now: Instant, parseIso: Parser)
    requires n in MergeSightings(d, ss, now, parseIso).entries
    ensures IsLatest(MergeSightings(d, ss, now, parseIso).entries[n].lastLogin, LoginsFor(d, n, ss, now, parseIso))
    decreases |ss|
  {
    if |ss| == 0 {
      LatestOfOne(d.entries[n].lastLogin);
      assert LoginsFor(d, n, ss, now, parseIso) == [d.entries[n].lastLogin];
    } else {
      var ss', x := ss[..|ss| - 1], ss[|ss| - 1];
      var r' := MergeSightings(d, ss', now, parseIso);
      var S' := StaleFor(n, ss', now, parseIso);
      var prior := if n in d.entries then [d.entries[n].lastLogin] else [];
      assert MergeSightings(d, ss, now, parseIso) == MergeRecord(r', x, now, parseIso);
      MergeRecordEffect(r', x, n, now, parseIso);
      MergedKeys(d, ss', n, now, parseIso);
      if !Counts(x, n, now, parseIso) {
        assert StaleFor(n, ss, now, parseIso) == S';
        MergedLoginIsLatest(d, ss', n, now, parseIso);
      } else {
        assert StaleFor(n, ss, now, parseIso) == S' + [x];
        SiteNamesSnoc(S', x);
        assert LoginsFor(d, n, ss, now, parseIso) == prior + Logins(S') + [x.user.lastLogin];
        if n !in r'.entries {
          assert prior == [] && S' == [];
          LatestOfOne(x.user.lastLogin);
        } else {
          MergedLoginIsLatest(d, ss', n, now, parseIso);
          LatestStep(r'.entries[n].lastLogin, prior + Logins(S'), x.user.lastLogin);
        }
      }
    }
  }

  /** Sites listing one user each yield their sightings in site order. */
  lemma SightingsOfTwoSites(s1: string, u1: UserRecord, s2: string, u2: UserRecord)
    ensures Sightings([SiteUsers(s1, [u1]), SiteUsers(s2, [u2])]) == [Sighting(s1, u1), Sighting(s2, u2)]
  {
    var sites := [SiteUsers(s1, [u1]), SiteUsers(s2, [u2])];
    assert sites[..1] == [SiteUsers(s1, [u1])];
    assert sites[..1][..0] == [];
    assert Tag(s1, [u1]) == [Sighting(s1, u1)];
    assert Tag(s2, [u2]) == [Sighting(s2, u2)];
    assert Sightings(sites[..1]) == [Sighting(s1, u1)];
  }

  /**
   * A user listed, stale, on two sites, the second time with a later login:
   * one entry, with the later login, both sites in order, and the role of
   * the first listing.
   */
  lemma TwoSitesKeepLaterLogin(name: string, siteA: string, siteB: string, login1: string, login2: string,
                               role1: string, role2: string, now: Instant, parseIso: Parser)
    requires login1 != "" && StrLess(login1, login2)
    requires IsStale(UserRecord(name, Some(login1), role1), now, parseIso)
    requires IsStale(UserRecord(name, Some(login2), role2), now, parseIso)
    ensures var sites := [SiteUsers(siteA, [UserRecord(name, Some(login1), role1)]),
                          SiteUsers(siteB, [UserRecord(name, Some(login2), role2)])];
            var r := MergeSightings(Empty, Sightings(sites), now, parseIso);
            && r.names == [name]
            && r.entries == map[name := Identity(name, Some(login2), [siteA, siteB], role1)]
  {
    var u1, u2 := UserRecord(name, Some(login1), role1), UserRecord(name, Some(login2), role2);
    SightingsOfTwoSites(siteA, u1, siteB, u2);
    var ss := [Sighting(siteA, u1), Sighting(siteB, u2)];
    assert ss[..1] == [Sighting(siteA, u1)];
    assert ss[..1][..0] == [];
    var r1 := UserData([name], map[name := Identity(name, Some(login1), [siteA], role1)]);
    assert MergeSightings(Empty, ss[..1], now, parseIso) == r1;
    assert MergeSightings(Empty, ss, now, parseIso) == MergeRecord(r1, ss[1], now, parseIso);
    assert Supersedes(Some(login2), Some(login1));
    assert [siteA] + [siteB] == [siteA, siteB];
  }

  /**
   * The filter applies to each site's record on its own: a user inactive on
   * one site but active on a later-listed one is still reported, with only
   * the inactive site and its old login.
   */
  lemma ActiveElsewhereStillReported(name: string, siteA: string, siteB: string, oldLogin: string, newLogin: string,
                                     role1: string, role2: string, now: Instant, parseIso: Parser)
    requires IsStale(UserRecord(name, Some(oldLogin), role1), now, parseIso)
    requires !IsStale(UserRecord(name, Some(newLogin), role2), now, parseIso)
    ensures var sites := [SiteUsers(siteA, [UserRecord(name, Some(oldLogin), role1)]),
                          SiteUsers(siteB, [UserRecord(name, Some(newLogin), role2)])];
            var r := MergeSightings(Empty, Sightings(sites), now, parseIso);
            && r.names == [name]
            && r.entries == map[name := Identity(name, Some(oldLogin), [siteA], role1)]
  {
    var u1, u2 := UserRecord(name, Some(oldLogin), role1), UserRecord(name, Some(newLogin), role2);
    SightingsOfTwoSites(siteA, u1, siteB, u2);
    var ss := [Sighting(siteA, u1), Sighting(siteB, u2)];
    assert ss[..1] == [Sighting(siteA, u1)];
    assert ss[..1][..0] == [];
    var r1 := UserData([name], map[name := Identity(name, Some(oldLogin), [siteA], role1)]);
    assert MergeSightings(Empty, ss[..1], now, parseIso) == MergeRecord(Empty, ss[0], now, parseIso) == r1;
    assert MergeSightings(Empty, ss, now, parseIso) == MergeRecord(r1, ss[1], now, parseIso);
  }

  /** The two logins of the scenario compare as their dates do. */
  lemma MarchIsAfterJanuary()
    ensures StrLess("2024-01-01T00:00:00Z", "2024-03-01T00:00:00Z")
  {
    StrLessAtFirstDifference("2024-01-01T00:00:00Z", "2024-03-01T00:00:00Z", 6);
  }
}
