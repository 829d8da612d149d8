/**
  The four vault commands, each behind the master-password gate: add, get,
  delete and list. Every command first runs the gate; whatever the gate
  writes (a first-run master record, a lockout) stays written, and only on
  access does the command touch the credential store.
*/
module Manager {
  import opened Wrappers
  import opened Cipher
  import opened Lockout
  import opened Master
  import opened Gate
  import opened Vault

  /** The durable stores of one installation (the key file aside). */
  datatype Session = Session(master: Option<MasterRecord>, lockout: Option<LockoutRecord>, vault: Store)

  /** What one command receives from outside: the clock reading at the
      lockout check, the later reading a new lockout is stamped with, the
      console responses in order, and the randomness of a first-run setup. */
  datatype Env = Env(now: int, stamp: int, script: seq<string>, setupIv: SetupNonces)

  /** What a command reports; console wording is left out. */
  datatype Reply =
    | Denied(verdict: Verdict)
    | Saved
    | Shown(site: string, username: string, password: string)
    | Deleted
    | NotFound
    | Listing(sites: seq<string>)

  datatype Outcome = Outcome(session: Session, reply: Reply, consumed: nat)

  /** The gate run that opens every command. */
  function Authenticate(st: Session, env: Env): GateResult
  {
    Verify(env.now, env.stamp, AuthState(st.master, st.lockout), env.script, env.setupIv)
  }

  /** The session once the gate's writes are in. */
  function Gated(st: Session, g: GateResult): Session
  {
    st.(master := g.state.master, lockout := g.state.lockout)
  }

  /** Add (or overwrite) the credentials of `site`; `iv` is the randomness
      of the password's encryption. */
  function AddPassword(st: Session, env: Env, site: string, username: string, password: string, iv: nat): (o: Outcome)
    ensures var g := Authenticate(st, env);
      && o.consumed == g.consumed
      && o.session.master == g.state.master && o.session.lockout == g.state.lockout
      && (g.verdict.Authorized() ==>
            && o.reply == Saved
            && Lookup(o.session.vault, site).Some?
            && Lookup(o.session.vault, site).value.username == username
            && Decrypt(Lookup(o.session.vault, site).value.password) == password
            && (forall s :: s != site ==> Lookup(o.session.vault, s) == Lookup(st.vault, s))
            && Sites(o.session.vault) == if site in Sites(st.vault) then Sites(st.vault) else Sites(st.vault) + [site])
      && (!g.verdict.Authorized() ==> o.reply == Denied(g.verdict) && o.session.vault == st.vault)
  {
    var g := Authenticate(st, env);
    if !g.verdict.Authorized() then
      Outcome(Gated(st, g), Denied(g.verdict), g.consumed)
    else
      var vault := Put(st.vault, site, Entry(username, Encrypt(iv, password)));
      PutSites(st.vault, site, Entry(username, Encrypt(iv, password)));
      Outcome(Gated(st, g).(vault := vault), Saved, g.consumed)
  }

  /** Show the username and decrypted password stored for `site`. */
  function RetrievePassword(st: Session, env: Env, site: string): (o: Outcome)
    ensures var g := Authenticate(st, env);
      && o.consumed == g.consumed
      && o.session == Gated(st, g)
      && o.session.vault == st.vault
      && (g.verdict.Authorized() && site !in Sites(st.vault) ==> o.reply == NotFound)
      && (g.verdict.Authorized() && site in Sites(st.vault) ==>
            && o.reply.Shown?
            && o.reply.site == site
            && Lookup(st.vault, site).value.username == o.reply.username
            && Decrypt(Lookup(st.vault, site).value.password) == o.reply.password)
      && (!g.verdict.Authorized() ==> o.reply == Denied(g.verdict))
  {
    var g := Authenticate(st, env);
    if !g.verdict.Authorized() then
      Outcome(Gated(st, g), Denied(g.verdict), g.consumed)
    else
      match Lookup(st.vault, site)
      case None => Outcome(Gated(st, g), NotFound, g.consumed)
      case Some(e) => Outcome(Gated(st, g), Shown(site, e.username, Decrypt(e.password)), g.consumed)
  }

  /** Delete the credentials of `site`; an unknown site changes nothing. */
  function DeletePassword(st: Session, env: Env, site: string): (o: Outcome)
    ensures var g := Authenticate(st, env);
      && o.consumed == g.consumed
      && o.session.master == g.state.master && o.session.lockout == g.state.lockout
      && (g.verdict.Authorized() && site in Sites(st.vault) ==>
            && o.reply == Deleted
            && site !in Sites(o.session.vault)
            && (forall s :: s != site ==> Lookup(o.session.vault, s) == Lookup(st.vault, s))
            && (UniqueSites(st.vault) ==>
                  exists i :: 0 <= i < |st.vault| && st.vault[i].site == site
                              && o.session.vault == st.vault[..i] + st.vault[i + 1..]))
      && (g.verdict.Authorized() && site !in Sites(st.vault) ==> o.reply == NotFound && o.session.vault == st.vault)
      && (!g.verdict.Authorized() ==> o.reply == Denied(g.verdict) && o.session.vault == st.vault)
  {
    var g := Authenticate(st, env);
    if !g.verdict.Authorized() then
      Outcome(Gated(st, g), Denied(g.verdict), g.consumed)
    else if site in Sites(st.vault) then
      assert UniqueSites(st.vault) ==>
        exists i :: 0 <= i < |st.vault| && st.vault[i].site == site
                    && Remove(st.vault, site) == st.vault[..i] + st.vault[i + 1..] by {
        if UniqueSites(st.vault) {
          RemoveDropsOneSlot(st.vault, site);
        }
      }
      Outcome(Gated(st, g).(vault := Remove(st.vault, site)), Deleted, g.consumed)
    else
      Outcome(Gated(st, g), NotFound, g.consumed)
  }

  /** List the stored sites in stored order; an empty store lists nothing. */
  function ListPasswords(st: Session, env: Env): (o: Outcome)
    ensures var g := Authenticate(st, env);
      && o.consumed == g.consumed
      && o.session == Gated(st, g)
      && o.session.vault == st.vault
      && (g.verdict.Authorized() ==>
            && o.reply.Listing?
            && |o.reply.sites| == |st.vault|
            && (forall i :: 0 <= i < |st.vault| ==> o.reply.sites[i] == st.vault[i].site)
            && (forall s :: s in o.reply.sites <==> Lookup(st.vault, s).Some?))
      && (!g.verdict.Authorized() ==> o.reply == Denied(g.verdict))
  {
    var g := Authenticate(st, env);
    if !g.verdict.Authorized() then
      Outcome(Gated(st, g), Denied(g.verdict), g.consumed)
    else
      Outcome(Gated(st, g), Listing(Keys(st.vault)), g.consumed)
  }
}
