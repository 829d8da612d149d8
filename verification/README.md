# Password manager: gate and vault, modelled in Dafny

This project models the core of a single-file command-line password
manager, `passwordManager.py`. Two pieces of logic are modelled.

1. **The master-password gate** (`verify_master_password` with `check_lockout`,
   `set_lockout` and `setup_master_password`). Every command runs the gate first.
   The gate refuses at once while a lockout less than 86400 seconds old is on
   file. Otherwise it runs first-run setup if there is no master record. It then
   allows three master-password attempts and two security-answer attempts. If
   all five fail, it stamps a lockout with the time it reads after the last
   answer.
2. **The credential vault commands** `add_password`, `retrieve_password`,
   `delete_password` and `list_passwords`. They work on an insertion-ordered
   mapping from site to username and encrypted password.

The model is functional. The program's four files become explicit values:
- the master record: `Option<MasterRecord>`;
- the lockout file: `Option<LockoutRecord>`, whose timestamp may be missing;
- the password store: `Vault.Store`, a sequence of slots with distinct sites;
- the key file: left implicit (one key, never rotated).

The program reads the clock up to twice in one run. It reads it when a lockout
file exists and is checked (line 71). It reads it again only on exhaustion, when
it writes a new lockout (line 79), which comes after five prompts, or eight on a
first run. A run that grants access reads the clock at most once. The model takes
both readings as integer parameters: `now` for the check and `stamp` for the
write. No order between them is assumed, because the wall clock can be set
back. A lockout therefore runs for a day from the moment the fifth wrong response
was read, not from the start of the locking run. The console is a sequence of responses,
read in order. Fernet's per-token randomness is a `nonce` parameter. The gate
returns a `GateResult`, which holds:
- the decision (`Granted(route)`, `LockedOut`, `Exhausted` or `InputEnded`);
- the records as left afterwards;
- the number of responses read.

The program itself returns only True or False. `InputEnded` stands for the
console closing before a decision, which makes `getpass` or `input` raise
`EOFError`. Records written
before that point stay written.

Modules follow the program's structure:
- `Cipher`: encrypt/decrypt pair;
- `Lockout`: `check_lockout`, `set_lockout`;
- `Master`: `setup_master_password`;
- `Gate`: the functional gate;
- `GateLoop`: the gate written with the program's two while-loops, proved equal
  to `Gate.Verify`;
- `GateProperties`: each path of the gate, stated from the responses alone;
- `Vault`: the ordered store and its refinement to a plain map;
- `Manager`: the four gated commands;
- `ManagerProperties`: what one command leaves for the next.

After a correct security answer the program prints "Access granted. Reset your
master password." (line 103). It then calls `setup_master_password` (line 104).
That call returns at once because the master file exists (lines 53-54), so
nothing is reset. The model keeps this behaviour:
`GateProperties.FallbackKeepsOldPassword` proves that the old password still
opens the gate afterwards.

## Model

| member | source | states |
|---|---|---|
| Cipher.Encrypt | passwordManager.py:29-37 | decrypting a freshly encrypted secret gives the plaintext back (the round trip every stored secret relies on) |
| Cipher.Randomised | passwordManager.py:29-32 | two encryptions of one plaintext with different randomness are different tokens, yet both decrypt to that plaintext |
| Lockout.SetLockout | passwordManager.py:76-79 | the written record carries the current time and blocks access at that time |
| Lockout.LockoutWindow | passwordManager.py:66-74 | a lockout stamped at t blocks exactly the times before t + 86400; the comparison is strict, so at t + 86400 access is open again |
| Lockout.MissingTimestampIsEpoch | passwordManager.py:71 | a lockout record without a timestamp behaves as one stamped at time 0 |
| Lockout.NoRecordNoLock | passwordManager.py:66-74 | with no lockout file access is never blocked |
| Lockout.ExpiryIsPermanent | passwordManager.py:66-74 | a record that no longer blocks never blocks again at a later time, although it is not deleted |
| Master.Setup | passwordManager.py:51-64 | with a record present, setup reads nothing and keeps the record; otherwise it reads password, question and answer in order and stores them so that they decrypt to those responses; if the console closes before all three are read, nothing is written |
| Master.SetupIdempotent | passwordManager.py:53-54 | setup run again on a record it produced reads nothing and changes nothing |
| Gate.Challenge | passwordManager.py:90-96 | a bounded attempt loop: it matches iff one of the first `tries` available responses equals the secret, and then stops right after the first such response; it misses iff `tries` responses were available and all were wrong; otherwise it ends at the last response |
| Gate.Verify | passwordManager.py:81-110 | refuses without reading anything iff a lockout is in force; writes a lockout, stamped with the second clock reading, only on exhaustion; never changes an existing master record; never reads more responses than given |
| GateLoop.PromptLoop | passwordManager.py:90-96 | the program's counting while-loop computes exactly the bounded attempt round `Gate.Challenge` |
| GateLoop.VerifyMasterPassword | passwordManager.py:81-110 | the gate as written, with its two loops, gives exactly the result of the functional gate |
| GateProperties.PasswordPhase | passwordManager.py:90-96 | with a record and no lockout, access is granted by password iff one of the first three responses is the stored password; the run then stops at the first such response, reads no answer and writes nothing |
| GateProperties.FallbackPhase | passwordManager.py:97-105 | answers are read only after three wrong passwords, at most two of them, at most five responses in all; access is granted by answer iff the three passwords were wrong and one of the next two responses is the stored answer; both records are then unchanged |
| GateProperties.Exhaustion | passwordManager.py:106-110 | the gate locks out iff three wrong passwords are followed by two wrong answers; it then has read exactly five responses and stamped the lockout with the clock as read after the fifth; no other run changes the lockout record |
| GateProperties.InputEndsEarly | passwordManager.py:91-107 | with a record and no lockout, the console running dry is the only other ending; it happens after fewer than five responses, all read, every one of them wrong (the first three as passwords, later ones as answers), and nothing is written |
| GateProperties.FirstRun | passwordManager.py:85-88 | without a master record, the first three responses set it up and the rest of the run behaves as an ordinary run against that record; with fewer than three responses nothing is written |
| GateProperties.LockoutBlocksLaterRuns | passwordManager.py:66-84 | after a lockout, every run within 86400 seconds of its stamp (the clock as read after the last wrong answer, not at the start of the run) is refused without reading anything or changing anything |
| GateProperties.PromptsAgainAfterExpiry | passwordManager.py:66-74 | once 86400 seconds have passed since the stamp the gate prompts again; the stale record is kept unless a new lockout overwrites it |
| GateProperties.FallbackKeepsOldPassword | passwordManager.py:102-105 | the "reset" after a correct answer changes nothing: the old master password still opens the gate |
| Vault.Keys | passwordManager.py:155 | the dict's keys: one per stored slot, the i-th key being the site of the i-th slot, so the listing follows stored order |
| Vault.Lookup | passwordManager.py:129-131 | a site is found iff it is among the stored sites, and what is found is the entry stored in a slot for that site |
| Vault.Put | passwordManager.py:119 | after storing, the site maps to the new entry; every other site is unchanged |
| Vault.PutSites | passwordManager.py:119 | storing keeps the key order: an existing site keeps its place and a new site goes after all the others |
| Vault.Remove | passwordManager.py:141-143 | after deleting, the site is gone; every other site is unchanged; deleting an absent site changes nothing |
| Vault.PutIsMapUpdate | passwordManager.py:119 | storing an entry is a dict update |
| Vault.RemoveIsMapDeletion | passwordManager.py:142 | deleting a site is a dict deletion |
| Vault.LastWriteWins | passwordManager.py:119 | storing a site twice gives the same store as storing only the second entry |
| Vault.RemoveUndoesNewPut | passwordManager.py:141-143 | deleting a site just added as new restores the store exactly |
| Vault.RemoveDropsOneSlot | passwordManager.py:141-143 | in a store with distinct sites, deleting a present site removes exactly its slot and keeps the others in order |
| Vault.PutKeepsSitesUnique | passwordManager.py:119 | storing keeps the sites distinct |
| Vault.RemoveKeepsSitesUnique | passwordManager.py:142 | deleting keeps the sites distinct |
| Manager.AddPassword | passwordManager.py:112-120 | when granted, the site then holds the given username and a password that decrypts to the given one; other sites and the order are kept; when refused, the store is unchanged; the gate's writes persist either way |
| Manager.RetrievePassword | passwordManager.py:123-134 | when granted, shows the stored username and decrypted password of a present site, or reports it not found; never changes the store |
| Manager.DeletePassword | passwordManager.py:136-146 | when granted, removes a present site and nothing else: in a store with distinct sites, exactly that slot is dropped and the others keep their order; leaves the store untouched for an absent site; when refused, the store is unchanged |
| Manager.ListPasswords | passwordManager.py:148-158 | when granted, lists exactly the stored sites in stored order, an empty store as an empty listing; never changes the store |
| ManagerProperties.LockedSessionRefusesAll | passwordManager.py:83-84 | while a lockout is in force every command is refused, reads nothing and writes nothing |
| ManagerProperties.AddThenRetrieve | passwordManager.py:112-134 | a get after an add of the same site shows the added username and password |
| ManagerProperties.DeleteThenRetrieve | passwordManager.py:123-146 | a get after a delete of the same site finds nothing |
| ManagerProperties.AddNewSiteAppends | passwordManager.py:119 | an authorised add of a site not yet stored puts it after every stored site |
| ManagerProperties.ListInInsertionOrder | passwordManager.py:148-158 | two new sites added in turn are listed after the existing ones, in the order added |
| ManagerProperties.ListEmptyVault | passwordManager.py:153-158 | an empty store is listed as an empty listing, not as an error |
| ManagerProperties.AddTwiceLastWins | passwordManager.py:112-120 | two adds of one site leave the store as one add of the second credentials would |
| ManagerProperties.CommandsKeepSitesUnique | passwordManager.py:112-158 | no command ever stores a site twice |

## Left out

- Key management (`generate_key`, `load_key`, lines 16-27): the model has one implicit key that is never rotated, so a missing or replaced key file is not modelled.
- Cipher.Encrypt: Fernet itself is not modelled. A token is an opaque value with a round trip. Decryption with a wrong key or of a tampered token (`InvalidToken`) is not modelled, so `Decrypt` never fails.
- JSON persistence (`load_data`, `save_data`, the `open`/`json` calls): the four files are explicit values. A missing password file is the empty store. Unreadable or corrupt files are not modelled.
- The clock: `time.time()` returns a float. The model uses whole seconds, passed in as the two readings `now` and `stamp`.
- Console output: messages from `print` are left out. Commands report a `Reply` value instead.
- Console input: `getpass` and `input` become a sequence of responses. The console closing (an exception in the program) becomes the `InputEnded` verdict.
- The command-line dispatcher (`main`, lines 160-189): argument parsing and the missing-argument checks are left out. So is the unconditional `setup_master_password` call at line 161, which runs before the arguments are parsed (line 168) and before any lockout check (line 83). Two behaviours follow from that call and are not modelled. On a first run with missing arguments, the program still reads three responses and writes the master file before it reports the usage error. With a lockout in force and no master file, the program runs setup before it refuses, whereas `Gate.Verify` refuses without reading anything.
- Concurrent processes racing on the files: out of scope for a sequential model.
