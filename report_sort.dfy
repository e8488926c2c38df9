/**
 * The ordering of the report:
 * `sorted(values, key=lambda x: (x['lastLogin'] is None, x['lastLogin']), reverse=True)`,
 * a stable sort that puts users without a login first and the others by
 * descending login text.
 */
module ReportSort {
  import opened Wrappers
  import opened TextOrder
  import opened Records

  /** The sort key of `a` is at least that of `b`, so `a` may stand before `b`. */
  predicate ReportsBefore(a: Identity, b: Identity)
    // users without a login stand before every user with one, never after
    ensures b.lastLogin.None? ==> (ReportsBefore(a, b) <==> a.lastLogin.None?)
  {
    a.lastLogin.None? || (b.lastLogin.Some? && !StrLess(a.lastLogin.value, b.lastLogin.value))
  }

  lemma ReportsBeforeTotal(a: Identity, b: Identity)
    ensures ReportsBefore(a, b) || ReportsBefore(b, a)
  {
    if a.lastLogin.Some? && b.lastLogin.Some? && StrLess(a.lastLogin.value, b.lastLogin.value) {
      StrLessAsymmetric(a.lastLogin.value, b.lastLogin.value);
    }
  }

  lemma ReportsBeforeTransitive(a: Identity, b: Identity, c: Identity)
    requires ReportsBefore(a, b) && ReportsBefore(b, c)
    ensures ReportsBefore(a, c)
  {
    if a.lastLogin.Some? {
      var x, y, z := a.lastLogin.value, b.lastLogin.value, c.lastLogin.value;
      StrLessTrichotomy(x, y);
      if StrLess(x, z) && StrLess(y, x) {
        StrLessTransitive(y, x, z);
      }
    }
  }

  /** Equal keys may stand in either order. */
  lemma ReportsBeforeEqualKeys(a: Identity, b: Identity)
    requires a.lastLogin == b.lastLogin
    ensures ReportsBefore(a, b)
  {
    if a.lastLogin.Some? {
      StrLessIrreflexive(a.lastLogin.value);
    }
  }

  /** In report order: users without a login first, then non-increasing logins. */
  ghost predicate InReportOrder(s: seq<Identity>) {
    forall i, j :: 0 <= i < j < |s| ==> ReportsBefore(s[i], s[j])
  }

  /** The users of s whose `lastLogin` is k, in order: one class of equal sort keys. */
  function WithLogin(s: seq<Identity>, k: Option<string>): seq<Identity>
    decreases |s|
  {
    if |s| == 0 then [] else (if s[0].lastLogin == k then [s[0]] else []) + WithLogin(s[1..], k)
  }

  lemma WithLoginCons(a: Identity, s: seq<Identity>, k: Option<string>)
    ensures WithLogin([a] + s, k) == (if a.lastLogin == k then [a] else []) + WithLogin(s, k)
  {
    assert ([a] + s)[1..] == s;
  }

  /** Places x before the first user whose key is not above x's, so x stays ahead of equal keys. */
  function Insert(x: Identity, s: seq<Identity>): (r: seq<Identity>)
    ensures |r| == |s| + 1 && x in r
    decreases |s|
  {
    if |s| == 0 then [x]
    else if ReportsBefore(x, s[0]) then [x] + s
    else [s[0]] + Insert(x, s[1..])
  }

  lemma {:induction false} InsertPermutes(x: Identity, s: seq<Identity>)
    ensures multiset(Insert(x, s)) == multiset(s) + multiset{x}
    decreases |s|
  {
    if |s| > 0 && !ReportsBefore(x, s[0]) {
      InsertPermutes(x, s[1..]);
      assert s == [s[0]] + s[1..];
    }
  }

  lemma {:induction false} InsertKeepsOrder(x: Identity, s: seq<Identity>)
    requires InReportOrder(s)
    ensures InReportOrder(Insert(x, s))
    decreases |s|
  {
    var r := Insert(x, s);
    if |s| == 0 {
    } else if ReportsBefore(x, s[0]) {
      forall j | 0 < j < |r|
        ensures ReportsBefore(r[0], r[j])
      {
        if j > 1 {
          ReportsBeforeTransitive(x, s[0], s[j - 1]);
        }
      }
    } else {
      var r' := Insert(x, s[1..]);
      InsertKeepsOrder(x, s[1..]);
      InsertPermutes(x, s[1..]);
      ReportsBeforeTotal(x, s[0]);
      forall j | 0 <= j < |r'|
        ensures ReportsBefore(s[0], r'[j])
      {
        assert r'[j] in multiset(r');
        if r'[j] != x {
          assert r'[j] in s[1..];
          var i :| 0 <= i < |s[1..]| && s[1..][i] == r'[j];
          assert s[i + 1] == r'[j];
        }
      }
      assert r == [s[0]] + r';
    }
  }

  /** Stability: among equal keys, x comes first and the others keep their order. */
  lemma {:induction false} InsertIsStable(x: Identity, s: seq<Identity>, k: Option<string>)
    ensures WithLogin(Insert(x, s), k) == (if x.lastLogin == k then [x] else []) + WithLogin(s, k)
    decreases |s|
  {
    if |s| == 0 {
      WithLoginCons(x, [], k);
    } else if ReportsBefore(x, s[0]) {
      WithLoginCons(x, s, k);
    } else {
      InsertIsStable(x, s[1..], k);
      WithLoginCons(s[0], Insert(x, s[1..]), k);
      WithLoginCons(s[0], s[1..], k);
      assert [s[0]] + s[1..] == s;
      if x.lastLogin == s[0].lastLogin {
        ReportsBeforeEqualKeys(x, s[0]);
      }
    }
  }

  /**
   * The stable sort of the report: in report order, a permutation of its
   * input, and users with equal logins keep their input order.
   */
  function SortForReport(s: seq<Identity>): (r: seq<Identity>)
    ensures InReportOrder(r)
    ensures multiset(r) == multiset(s)
    ensures forall k :: WithLogin(r, k) == WithLogin(s, k)
    decreases |s|
  {
    if |s| == 0 then []
    else
      var rest := SortForReport(s[1..]);
      SortStep(s, rest);
      Insert(s[0], rest)
  }

  /** Inserting the head into the sorted tail sorts the whole list. */
  lemma SortStep(s: seq<Identity>, rest: seq<Identity>)
    requires s != []
    requires InReportOrder(rest) && multiset(rest) == multiset(s[1..])
    requires forall k :: WithLogin(rest, k) == WithLogin(s[1..], k)
    ensures InReportOrder(Insert(s[0], rest))
    ensures multiset(Insert(s[0], rest)) == multiset(s)
    ensures forall k :: WithLogin(Insert(s[0], rest), k) == WithLogin(s, k)
  {
    InsertKeepsOrder(s[0], rest);
    InsertPermutes(s[0], rest);
    assert s == [s[0]] + s[1..];
    StableStep(s[0], s[1..], rest);
  }

  lemma StableStep(x: Identity, s: seq<Identity>, sorted: seq<Identity>)
    requires forall k :: WithLogin(sorted, k) == WithLogin(s, k)
    ensures forall k :: WithLogin(Insert(x, sorted), k) == WithLogin([x] + s, k)
  {
    forall k
      ensures WithLogin(Insert(x, sorted), k) == WithLogin([x] + s, k)
    {
      InsertIsStable(x, sorted, k);
      WithLoginCons(x, s, k);
    }
  }

  /** A sorted list is sorted again unchanged (the sort is idempotent). */
  lemma {:induction false} SortForReportIdempotent(s: seq<Identity>)
    ensures SortForReport(SortForReport(s)) == SortForReport(s)
  {
    SortedIsFixed(SortForReport(s));
  }

  lemma {:induction false} SortedIsFixed(s: seq<Identity>)
    requires InReportOrder(s)
    ensures SortForReport(s) == s
    decreases |s|
  {
    if |s| > 0 {
      SortedIsFixed(s[1..]);
      if |s| > 1 {
        assert ReportsBefore(s[0], s[1..][0]);
      }
      assert [s[0]] + s[1..] == s;
    }
  }
  /** No two users of s share a name, as the values of a dictionary keyed by name. */
  ghost predicate NamesDistinct(s: seq<Identity>) {
    forall i, j :: 0 <= i < j < |s| ==> s[i].name != s[j].name
  }

  lemma {:induction false} InsertKeepsNamesDistinct(x: Identity, s: seq<Identity>)
    requires NamesDistinct(s)
    requires forall y :: y in s ==> y.name != x.name
    ensures NamesDistinct(Insert(x, s))
    decreases |s|
  {
    if |s| > 0 && !ReportsBefore(x, s[0]) {
      var r' := Insert(x, s[1..]);
      InsertKeepsNamesDistinct(x, s[1..]);
      InsertPermutes(x, s[1..]);
      forall j | 0 <= j < |r'|
        ensures s[0].name != r'[j].name
      {
        assert r'[j] in multiset(r');
        if r'[j] != x {
          assert r'[j] in s[1..];
          var i :| 0 <= i < |s[1..]| && s[1..][i] == r'[j];
          assert s[i + 1] == r'[j];
        }
      }
      assert Insert(x, s) == [s[0]] + r';
    }
  }

  /** Sorting never puts two users with one name in the report. */
  lemma {:induction false} SortKeepsNamesDistinct(s: seq<Identity>)
    requires NamesDistinct(s)
    ensures NamesDistinct(SortForReport(s))
    decreases |s|
  {
    if |s| > 0 {
      var rest := SortForReport(s[1..]);
      SortKeepsNamesDistinct(s[1..]);
      forall y | y in rest
        ensures y.name != s[0].name
      {
        assert y in multiset(rest);
        assert y in s[1..];
        var i :| 0 <= i < |s[1..]| && s[1..][i] == y;
        assert s[i + 1] == y;
      }
      InsertKeepsNamesDistinct(s[0], rest);
    }
  }
}
