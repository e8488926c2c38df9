/**
 * Timestamps, the inactivity threshold, and the text operations the scripts
 * apply to login timestamps before they compare them.
 */
module Stamps {
  import opened Wrappers

  /** An instant, in microseconds since a fixed epoch (datetime resolution). */
  type Instant = int

  const MicrosPerSecond: int := 1_000_000
  const SecondsPerDay: int := 86_400

  /** `timedelta(days=90)`. */
  const InactivityThreshold: int := 90 * SecondsPerDay * MicrosPerSecond

  /**
   * One `strptime` format: the instant a text denotes, or None where
   * `strptime` raises `ValueError`.
   */
  type Parser = string -> Option<Instant>

  /** Python truthiness of an optional string: neither None nor "". */
  predicate HasValue(s: Option<string>) {
    s.Some? && s.value != ""
  }

  /** `s.rstrip('Z')`: drops every trailing 'Z'. */
  function RStripZ(s: string): (r: string)
    ensures r <= s
    ensures r == [] || r[|r| - 1] != 'Z'
    ensures forall i :: |r| <= i < |s| ==> s[i] == 'Z'
    decreases |s|
  {
    if |s| > 0 && s[|s| - 1] == 'Z' then RStripZ(s[..|s| - 1]) else s
  }

  /** Stripping twice strips nothing more. */
  lemma RStripZIdempotent(s: string)
    ensures RStripZ(RStripZ(s)) == RStripZ(s)
  {
  }

  /** A text not ending in 'Z' is left as it is. */
  lemma RStripZKeepsUnsuffixed(s: string)
    requires s == [] || s[|s| - 1] != 'Z'
    ensures RStripZ(s) == s
  {
  }

  /** Appending 'Z's to a text that does not end in one is undone by the strip. */
  lemma {:induction false} RStripZUndoesSuffix(s: string, k: nat)
    requires s == [] || s[|s| - 1] != 'Z'
    ensures RStripZ(s + seq(k, _ => 'Z')) == s
  {
    if k > 0 {
      var t := s + seq(k, _ => 'Z');
      assert t[..|t| - 1] == s + seq(k - 1, _ => 'Z');
      RStripZUndoesSuffix(s, k - 1);
    } else {
      assert s + seq(k, _ => 'Z') == s;
    }
  }
}
