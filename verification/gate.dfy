/**
  The master-password gate that stands in front of every vault operation.

  One run of the gate, given the current time and the user's console
  responses in order:
    1. refuses at once, reading nothing, while a lockout is in force;
    2. runs first-run setup when there is no master record;
    3. allows up to three master-password attempts;
    4. then up to two security-answer attempts; a correct answer calls setup
       again, which does nothing because the record already exists;
    5. then reads the clock again, stamps a lockout with that time and
       refuses.
  Running out of responses before a decision (the console closing) ends the
  run with whatever was already written.
*/
module Gate {
  import opened Wrappers
  import opened Cipher
  import opened Lockout
  import opened Master

  /** Master-password attempts before the fallback question. */
  const PasswordAttempts: nat := 3
  /** Security-answer attempts before the lockout. */
  const AnswerAttempts: nat := 2

  /** How a bounded run of attempts ended, with the responses it read. */
  datatype Round = Matched(used: nat) | Missed(used: nat) | Ended(used: nat)

  /** No response among the first `n` equals `secret`. */
  ghost predicate NoneEqual(script: seq<string>, secret: string, n: nat)
    requires n <= |script|
  {
    forall i :: 0 <= i < n ==> script[i] != secret
  }

  /** Prompts up to `tries` times, comparing each response with `secret`;
      stops at the first equal response, or when the responses run out. */
  function Challenge(secret: string, script: seq<string>, tries: nat): (o: Round)
    ensures o.used <= tries && o.used <= |script|
    ensures o.Matched? <==> exists k :: 0 <= k < tries && k < |script| && script[k] == secret
    ensures o.Matched? ==> 1 <= o.used && script[o.used - 1] == secret && NoneEqual(script, secret, o.used - 1)
    ensures o.Missed? <==> tries <= |script| && NoneEqual(script, secret, tries)
    ensures o.Missed? ==> o.used == tries
    ensures o.Ended? ==> o.used == |script| < tries && NoneEqual(script, secret, |script|)
    decreases tries
  {
    if tries == 0 then Missed(0)
    else if |script| == 0 then Ended(0)
    else if script[0] == secret then Matched(1)
    else
      match Challenge(secret, script[1..], tries - 1)
      case Matched(k) => Matched(k + 1)
      case Missed(k) => Missed(k + 1)
      case Ended(k) => Ended(k + 1)
  }

  datatype Route = ByPassword | BySecurityAnswer

  /** The gate's decision. The program reports all but `Granted` as False;
      the model keeps the reason apart. */
  datatype Verdict = Granted(route: Route) | LockedOut | Exhausted | InputEnded {
    predicate Authorized() { Granted? }
  }

  /** The two durable records the gate reads and writes. */
  datatype AuthState = AuthState(master: Option<MasterRecord>, lockout: Option<LockoutRecord>)

  datatype GateResult = GateResult(verdict: Verdict, state: AuthState, consumed: nat)

  /** One run of the gate over the console responses `script`. The program
      reads the clock up to twice: `now` when a lockout file exists and is
      checked, and `stamp` when, after the last wrong answer, it writes a new
      lockout. A reading the run does not take is ignored. */
  function Verify(now: int, stamp: int, s: AuthState, script: seq<string>, iv: SetupNonces): (r: GateResult)
    ensures r.consumed <= |script|
    ensures r.verdict == LockedOut <==> IsLocked(s.lockout, now)
    ensures r.verdict == LockedOut ==> r.consumed == 0 && r.state == s
    ensures r.verdict == Exhausted ==> r.state.lockout == SetLockout(stamp)
    ensures r.verdict != Exhausted ==> r.state.lockout == s.lockout
    ensures s.master.Some? ==> r.state.master == s.master
    ensures r.verdict.Authorized() ==> r.state.master.Some?
  {
    if IsLocked(s.lockout, now) then
      GateResult(LockedOut, s, 0)
    else
      var setup := Setup(s.master, script, iv);
      match setup.master
      case None => GateResult(InputEnded, s, setup.consumed)
      case Some(m) =>
        var s' := s.(master := setup.master);
        var rest := script[setup.consumed..];
        match Challenge(Decrypt(m.password), rest, PasswordAttempts)
        case Matched(k) => GateResult(Granted(ByPassword), s', setup.consumed + k)
        case Ended(k) => GateResult(InputEnded, s', setup.consumed + k)
        case Missed(k) =>
          var rest' := rest[k..];
          match Challenge(Decrypt(m.securityAnswer), rest', AnswerAttempts)
          case Matched(j) =>
            // The program "resets" by calling setup, which returns at once
            // because the master file exists.
            var reset := Setup(s'.master, rest'[j..], iv);
            GateResult(Granted(BySecurityAnswer), s'.(master := reset.master), setup.consumed + k + j + reset.consumed)
          case Ended(j) => GateResult(InputEnded, s', setup.consumed + k + j)
          case Missed(j) => GateResult(Exhausted, s'.(lockout := SetLockout(stamp)), setup.consumed + k + j)
  }
}
