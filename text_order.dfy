/**
 * Python's `<` on `str`: lexicographic order by code point, a strict total
 * order. The merge compares ISO-8601 login texts with it.
 */
module TextOrder {

  /** `a < b` on Python strings. */
  predicate StrLess(a: string, b: string)
    // a proper prefix is smaller
    ensures a < b ==> StrLess(a, b)
    decreases |a|
  {
    if b == [] then false
    else if a == [] then true
    else if a[0] != b[0] then a[0] < b[0]
    else StrLess(a[1..], b[1..])
  }

  lemma {:induction false} StrLessIrreflexive(a: string)
    ensures !StrLess(a, a)
  {
    if a != [] {
      StrLessIrreflexive(a[1..]);
    }
  }

  lemma {:induction false} StrLessAsymmetric(a: string, b: string)
    requires StrLess(a, b)
    ensures !StrLess(b, a)
  {
    if a != [] && a[0] == b[0] {
      StrLessAsymmetric(a[1..], b[1..]);
    }
  }

  lemma {:induction false} StrLessTransitive(a: string, b: string, c: string)
    requires StrLess(a, b) && StrLess(b, c)
    ensures StrLess(a, c)
  {
    if a != [] && a[0] == b[0] && b[0] == c[0] {
      StrLessTransitive(a[1..], b[1..], c[1..]);
    }
  }

  lemma {:induction false} StrLessTrichotomy(a: string, b: string)
    ensures a == b || StrLess(a, b) || StrLess(b, a)
  {
    if a != [] && b != [] && a[0] == b[0] {
      StrLessTrichotomy(a[1..], b[1..]);
      if a[1..] == b[1..] {
        assert a == [a[0]] + a[1..] && b == [b[0]] + b[1..];
      }
    }
  }

  /** Two texts that agree up to position i and differ there are ordered by that character. */
  lemma {:induction false} StrLessAtFirstDifference(a: string, b: string, i: nat)
    requires i < |a| && i < |b| && a[..i] == b[..i] && a[i] < b[i]
    ensures StrLess(a, b)
  {
    if i > 0 {
      assert a[0] == a[..i][0] == b[..i][0] == b[0];
      assert a[1..][..i - 1] == a[..i][1..] == b[..i][1..] == b[1..][..i - 1];
      StrLessAtFirstDifference(a[1..], b[1..], i - 1);
    }
  }

  /** If x is above a text that is not below y, x is not below y either. */
  lemma NotBelowAfterRaise(e: string, x: string, y: string)
    requires StrLess(e, x) && !StrLess(e, y)
    ensures !StrLess(x, y)
  {
    StrLessTrichotomy(e, y);
    if y != e {
      StrLessTransitive(y, e, x);
    }
    StrLessAsymmetric(y, x);
  }
}
