/**
  The gate as the program writes it: two counting loops over the console
  responses, one for the master password and one for the security answer.
  It computes exactly what the functional `Gate.Verify` describes.
*/
module GateLoop {
  import opened Cipher
  import opened Lockout
  import opened Master
  import opened Gate

  /** `while attempts > 0`: prompt from response `start` on, at most `tries`
      times, until a response equals `secret` or the responses run out. */
  method PromptLoop(secret: string, script: seq<string>, start: nat, tries: nat) returns (o: Round)
    requires start <= |script|
    ensures o == Challenge(secret, script[start..], tries)
  {
    ghost var rest := script[start..];
    var pos := start;
    var attempts := tries;
    while attempts > 0
      invariant 0 <= attempts <= tries
      invariant pos == start + (tries - attempts) <= |script|
      invariant forall i :: start <= i < pos ==> script[i] != secret
    {
      if pos == |script| {
        assert NoneEqual(rest, secret, |rest|) by {
          assert forall i :: 0 <= i < |rest| ==> rest[i] == script[start + i];
        }
        return Ended(pos - start);
      }
      if script[pos] == secret {
        assert forall i :: 0 <= i < pos - start ==> rest[i] != secret by {
          assert forall i :: 0 <= i < pos - start ==> rest[i] == script[start + i];
        }
        assert rest[pos - start] == secret;
        return Matched(pos - start + 1);
      }
      attempts := attempts - 1;
      pos := pos + 1;
    }
    assert NoneEqual(rest, secret, tries) by {
      assert forall i :: 0 <= i < tries ==> rest[i] == script[start + i];
    }
    return Missed(tries);
  }

  /** The whole gate, step by step in the program's order. */
  method VerifyMasterPassword(now: int, stamp: int, s: AuthState, script: seq<string>, iv: SetupNonces) returns (r: GateResult)
    ensures r == Verify(now, stamp, s, script, iv)
  {
    if IsLocked(s.lockout, now) {
      return GateResult(LockedOut, s, 0);
    }
    var setup := Setup(s.master, script, iv);
    if setup.master.None? {
      return GateResult(InputEnded, s, setup.consumed);
    }
    var m := setup.master.value;
    var st := s.(master := setup.master);
    var pos := setup.consumed;
    var pw := PromptLoop(Decrypt(m.password), script, pos, PasswordAttempts);
    if pw.Matched? {
      return GateResult(Granted(ByPassword), st, pos + pw.used);
    } else if pw.Ended? {
      return GateResult(InputEnded, st, pos + pw.used);
    }
    assert script[pos..][pw.used..] == script[pos + pw.used..];
    pos := pos + pw.used;
    var ans := PromptLoop(Decrypt(m.securityAnswer), script, pos, AnswerAttempts);
    if ans.Matched? {
      // The program's "reset": setup returns at once, the record exists.
      assert script[pos..][ans.used..] == script[pos + ans.used..];
      var reset := Setup(st.master, script[pos + ans.used..], iv);
      return GateResult(Granted(BySecurityAnswer), st.(master := reset.master), pos + ans.used + reset.consumed);
    } else if ans.Ended? {
      return GateResult(InputEnded, st, pos + ans.used);
    }
    return GateResult(Exhausted, st.(lockout := SetLockout(stamp)), pos + ans.used);
  }
}
