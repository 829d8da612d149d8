/**
  What one run of the gate does, stated path by path in terms of the
  console responses alone, and what follows for a later run.
*/
module GateProperties {
  import opened Wrappers
  import opened Cipher
  import opened Lockout
  import opened Master
  import opened Gate

  /** The password phase: with a master record and no lockout in force, the
      gate grants on the first response, among at most three, that equals the
      stored password; it then has read nothing else and written nothing. */
  lemma PasswordPhase(now: int, stamp: int, s: AuthState, m: MasterRecord, script: seq<string>, iv: SetupNonces)
    requires s.master == Some(m) && !IsLocked(s.lockout, now)
    ensures var r := Verify(now, stamp, s, script, iv);
      && (r.verdict == Granted(ByPassword) <==>
            exists k :: 0 <= k < PasswordAttempts && k < |script| && script[k] == Decrypt(m.password))
      && (r.verdict == Granted(ByPassword) ==>
            && 1 <= r.consumed <= PasswordAttempts
            && script[r.consumed - 1] == Decrypt(m.password)
            && NoneEqual(script, Decrypt(m.password), r.consumed - 1)
            && r.state == s)
  {
  }

  /** The fallback phase: security answers are read only after three wrong
      passwords, at most two of them; a correct one grants access and leaves
      both records exactly as they were. */
  lemma FallbackPhase(now: int, stamp: int, s: AuthState, m: MasterRecord, script: seq<string>, iv: SetupNonces)
    requires s.master == Some(m) && !IsLocked(s.lockout, now)
    ensures var r := Verify(now, stamp, s, script, iv);
      && r.consumed <= PasswordAttempts + AnswerAttempts
      && (r.consumed > PasswordAttempts ==> NoneEqual(script, Decrypt(m.password), PasswordAttempts))
      && (r.verdict == Granted(BySecurityAnswer) <==>
            && PasswordAttempts <= |script|
            && NoneEqual(script, Decrypt(m.password), PasswordAttempts)
            && exists k :: PasswordAttempts <= k < PasswordAttempts + AnswerAttempts && k < |script|
                           && script[k] == Decrypt(m.securityAnswer))
      && (r.verdict == Granted(BySecurityAnswer) ==>
            && PasswordAttempts < r.consumed <= PasswordAttempts + AnswerAttempts
            && script[r.consumed - 1] == Decrypt(m.securityAnswer)
            && (forall i :: PasswordAttempts <= i < r.consumed - 1 ==> script[i] != Decrypt(m.securityAnswer))
            && r.state == s)
  {
  }

  /** Exhaustion: exactly three wrong passwords followed by two wrong answers
      (five responses) stamp a lockout with the clock as read after the fifth
      response, `stamp`, and refuse; this is the only
      run that writes a lockout record. */
  lemma Exhaustion(now: int, stamp: int, s: AuthState, m: MasterRecord, script: seq<string>, iv: SetupNonces)
    requires s.master == Some(m) && !IsLocked(s.lockout, now)
    ensures var r := Verify(now, stamp, s, script, iv);
      && (r.verdict == Exhausted <==>
            && PasswordAttempts + AnswerAttempts <= |script|
            && NoneEqual(script, Decrypt(m.password), PasswordAttempts)
            && script[PasswordAttempts] != Decrypt(m.securityAnswer)
            && script[PasswordAttempts + 1] != Decrypt(m.securityAnswer))
      && (r.verdict == Exhausted ==>
            r.consumed == PasswordAttempts + AnswerAttempts && r.state == s.(lockout := SetLockout(stamp)))
      && (r.state.lockout != s.lockout ==> r.verdict == Exhausted)
  {
    var r := Verify(now, stamp, s, script, iv);
    var pw := Challenge(Decrypt(m.password), script, PasswordAttempts);
    if pw.Missed? {
      var rest := script[PasswordAttempts..];
      assert |rest| >= 2 ==> rest[0] == script[PasswordAttempts] && rest[1] == script[PasswordAttempts + 1];
    }
  }

  /** Running out of responses is the only other ending; it comes only when
      every response given was wrong. */
  lemma InputEndsEarly(now: int, stamp: int, s: AuthState, m: MasterRecord, script: seq<string>, iv: SetupNonces)
    requires s.master == Some(m) && !IsLocked(s.lockout, now)
    ensures var r := Verify(now, stamp, s, script, iv);
      && (r.verdict == InputEnded ==>
            && r.consumed == |script| < PasswordAttempts + AnswerAttempts
            && r.state == s
            && (forall i :: 0 <= i < |script| && i < PasswordAttempts ==> script[i] != Decrypt(m.password))
            && (forall i :: PasswordAttempts <= i < |script| ==> script[i] != Decrypt(m.securityAnswer)))
      && r.verdict != LockedOut
  {
  }

  /** The first run: without a master record the first three responses set it
      up, and the rest of the run is an ordinary run against that record. */
  lemma FirstRun(now: int, stamp: int, s: AuthState, script: seq<string>, iv: SetupNonces)
    requires s.master.None? && !IsLocked(s.lockout, now)
    ensures |script| < 3 ==> Verify(now, stamp, s, script, iv) == GateResult(InputEnded, s, |script|)
    ensures 3 <= |script| ==>
      var m := MasterRecord(Encrypt(iv.password, script[0]), script[1], Encrypt(iv.answer, script[2]));
      var r := Verify(now, stamp, s.(master := Some(m)), script[3..], iv);
      Verify(now, stamp, s, script, iv) == r.(consumed := r.consumed + 3)
  {
  }

  /** Once the fallback is exhausted, every run during the next 24 hours is
      refused at once, reads nothing and changes nothing. The day counts from
      the stamp, taken after the last wrong answer, not from the start of the
      locking run. */
  lemma LockoutBlocksLaterRuns(now: int, stamp: int, s: AuthState, script: seq<string>, iv: SetupNonces,
                               later: int, stamp': int, script': seq<string>, iv': SetupNonces)
    requires Verify(now, stamp, s, script, iv).verdict == Exhausted
    requires later < stamp + LockoutDuration
    ensures var st := Verify(now, stamp, s, script, iv).state;
      Verify(later, stamp', st, script', iv') == GateResult(LockedOut, st, 0)
  {
  }

  /** Once 24 hours have passed since the stamp the same records prompt
      again: the stale record is still on file but no longer blocks. */
  lemma PromptsAgainAfterExpiry(now: int, stamp: int, s: AuthState, script: seq<string>, iv: SetupNonces,
                                later: int, stamp': int, script': seq<string>, iv': SetupNonces)
    requires Verify(now, stamp, s, script, iv).verdict == Exhausted
    requires stamp + LockoutDuration <= later
    ensures var st := Verify(now, stamp, s, script, iv).state;
      var r := Verify(later, stamp', st, script', iv');
      && r.verdict != LockedOut
      && (|script'| > 0 ==> r.consumed > 0)
      && (r.verdict != Exhausted ==> r.state.lockout == SetLockout(stamp))
  {
  }

  /** The fallback does not reset anything: after access is granted through
      the security answer, the old master password still opens the gate. */
  lemma FallbackKeepsOldPassword(now: int, stamp: int, s: AuthState, m: MasterRecord, script: seq<string>, iv: SetupNonces,
                                 later: int, stamp': int, rest: seq<string>, iv': SetupNonces)
    requires s.master == Some(m)
    requires Verify(now, stamp, s, script, iv).verdict == Granted(BySecurityAnswer)
    requires !IsLocked(s.lockout, later)
    ensures var st := Verify(now, stamp, s, script, iv).state;
      && st == s
      && Verify(later, stamp', st, [Decrypt(m.password)] + rest, iv') == GateResult(Granted(ByPassword), st, 1)
  {
  }
}
