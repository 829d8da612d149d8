/**
  The master record and its first-run setup.

  The master file holds the master password and the security answer, both
  sealed, and the security question in the clear. It is written once, by
  `Setup`, and never rewritten afterwards.
*/
module Master {
  import opened Wrappers
  import opened Cipher

  datatype MasterRecord = MasterRecord(
    password: Ciphertext,
    securityQuestion: string,
    securityAnswer: Ciphertext)

  /** The randomness the two encryptions of a setup draw. */
  datatype SetupNonces = SetupNonces(password: nat, answer: nat)

  /** What setup leaves in the master file (`None`: no file) and how many
      console responses it read. */
  datatype SetupResult = SetupResult(master: Option<MasterRecord>, consumed: nat)

  /**
    First-run setup. When a master record exists it returns at once and reads
    nothing. Otherwise it reads the master password, the security question and
    the answer, in that order, and writes the record only after all three are
    read; when the console runs dry before that, nothing is written.
  */
  function Setup(master: Option<MasterRecord>, script: seq<string>, iv: SetupNonces): (r: SetupResult)
    ensures r.consumed <= |script|
    ensures master.Some? ==> r == SetupResult(master, 0)
    ensures master.None? && |script| < 3 ==> r == SetupResult(None, |script|)
    ensures master.None? && 3 <= |script| ==>
              && r.consumed == 3
              && r.master.Some?
              && Decrypt(r.master.value.password) == script[0]
              && r.master.value.securityQuestion == script[1]
              && Decrypt(r.master.value.securityAnswer) == script[2]
  {
    if master.Some? then
      SetupResult(master, 0)
    else if |script| < 3 then
      SetupResult(None, |script|)
    else
      var record := MasterRecord(Encrypt(iv.password, script[0]), script[1], Encrypt(iv.answer, script[2]));
      SetupResult(Some(record), 3)
  }

  /** Setup is idempotent: run on its own output it reads nothing and changes
      nothing, and whenever it completes the record exists afterwards. */
  lemma SetupIdempotent(master: Option<MasterRecord>, script: seq<string>, script': seq<string>, iv: SetupNonces, iv': SetupNonces)
    requires Setup(master, script, iv).master.Some?
    ensures Setup(Setup(master, script, iv).master, script', iv') == Setup(master, script, iv).(consumed := 0)
  {
  }
}
