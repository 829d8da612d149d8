/**
  The lockout record: a timestamp written when the security-question fallback
  is exhausted. It is never deleted; it simply stops blocking once a full
  day has passed.
*/
module Lockout {
  import opened Wrappers

  /** Seconds a lockout lasts: 24 hours. */
  const LockoutDuration: int := 86400

  /** The JSON object in the lockout file. Its "timestamp" key may be missing. */
  datatype LockoutRecord = LockoutRecord(timestamp: Option<int>)

  /** When the record says the lockout began; a missing timestamp reads as 0. */
  function LockedAt(rec: LockoutRecord): int
  {
    rec.timestamp.GetOr(0)
  }

  /** Whether access is blocked at time `now`, given the lockout file's
      contents (`None` when the file does not exist). */
  predicate IsLocked(lockout: Option<LockoutRecord>, now: int)
  {
    lockout.Some? && now - LockedAt(lockout.value) < LockoutDuration
  }

  /** Overwrites the lockout file with a record stamped `now`. */
  function SetLockout(now: int): (r: Option<LockoutRecord>)
    ensures r.Some? && r.value.timestamp == Some(now)
    ensures IsLocked(r, now)
  {
    Some(LockoutRecord(Some(now)))
  }

  /** A lockout written at `t` blocks exactly the instants before `t + 86400`
      (the comparison is strict) and never again afterwards. */
  lemma LockoutWindow(t: int, now: int)
    ensures IsLocked(SetLockout(t), now) <==> now < t + LockoutDuration
    ensures now == t + LockoutDuration ==> !IsLocked(SetLockout(t), now)
  {
  }

  /** A record without a timestamp behaves like one written at time 0. */
  lemma MissingTimestampIsEpoch(now: int)
    ensures IsLocked(Some(LockoutRecord(None)), now) <==> IsLocked(SetLockout(0), now)
    ensures IsLocked(Some(LockoutRecord(None)), now) <==> now < LockoutDuration
  {
  }

  /** With no lockout file nothing is ever blocked. */
  lemma NoRecordNoLock(now: int)
    ensures !IsLocked(None, now)
  {
  }

  /** Expiry is permanent: once a record no longer blocks, it blocks at no
      later time either, although it is still on file. */
  lemma ExpiryIsPermanent(lockout: Option<LockoutRecord>, now: int, later: int)
    requires now <= later
    requires !IsLocked(lockout, now)
    ensures !IsLocked(lockout, later)
  {
  }
}
