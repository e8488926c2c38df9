/** The inactivity test that decides which user records the merge keeps. */
module Staleness {
  import opened Wrappers
  import opened Stamps

  /**
   * `is_more_than_90_days`: a missing or empty login counts as inactive; a
   * login in the ISO form counts when it lies strictly more than 90 days
   * before `now`; a text that does not parse is caught and counts as active.
   */
  function IsMoreThan90Days(lastLogin: Option<string>, now: Instant, parseIso: Parser): (stale: bool)
    ensures !HasValue(lastLogin) ==> stale
    ensures HasValue(lastLogin) && parseIso(lastLogin.value).None? ==> !stale
    ensures HasValue(lastLogin) && parseIso(lastLogin.value).Some? ==>
              (stale <==> now - parseIso(lastLogin.value).value > InactivityThreshold)
  {
    if !HasValue(lastLogin) then true
    else match parseIso(lastLogin.value)
      case None => false
      case Some(t) => now - t > InactivityThreshold
  }

  /** The threshold is strict: exactly 90 days is still active, one microsecond more is not. */
  lemma NinetyDaysIsTheBoundary(s: string, t: Instant, parseIso: Parser)
    requires s != "" && parseIso(s) == Some(t)
    ensures !IsMoreThan90Days(Some(s), t + InactivityThreshold, parseIso)
    ensures IsMoreThan90Days(Some(s), t + InactivityThreshold + 1, parseIso)
  {
  }

  /** Staleness only grows with time. */
  lemma StaleStaysStale(lastLogin: Option<string>, now: Instant, later: Instant, parseIso: Parser)
    requires now <= later && IsMoreThan90Days(lastLogin, now, parseIso)
    ensures IsMoreThan90Days(lastLogin, later, parseIso)
  {
  }
}
