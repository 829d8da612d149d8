/**
  Properties of command sequences: what one command leaves for the next.
*/
module ManagerProperties {
  import opened Cipher
  import opened Lockout
  import opened Gate
  import opened Vault
  import opened Manager

  /** While a lockout is in force every command is refused at once: nothing
      is read from the console and nothing is written. */
  lemma LockedSessionRefusesAll(st: Session, env: Env, site: string, username: string, password: string, iv: nat)
    requires IsLocked(st.lockout, env.now)
    ensures AddPassword(st, env, site, username, password, iv) == Outcome(st, Denied(LockedOut), 0)
    ensures RetrievePassword(st, env, site) == Outcome(st, Denied(LockedOut), 0)
    ensures DeletePassword(st, env, site) == Outcome(st, Denied(LockedOut), 0)
    ensures ListPasswords(st, env) == Outcome(st, Denied(LockedOut), 0)
  {
  }

  /** After an add, a get of the same site shows the username and the
      original password. */
  lemma AddThenRetrieve(st: Session, env: Env, env': Env, site: string, username: string, password: string, iv: nat)
    requires Authenticate(st, env).verdict.Authorized()
    requires Authenticate(AddPassword(st, env, site, username, password, iv).session, env').verdict.Authorized()
    ensures RetrievePassword(AddPassword(st, env, site, username, password, iv).session, env', site).reply
            == Shown(site, username, password)
  {
  }

  /** After a delete, a get of the same site finds nothing. */
  lemma DeleteThenRetrieve(st: Session, env: Env, env': Env, site: string)
    requires Authenticate(st, env).verdict.Authorized()
    requires Authenticate(DeletePassword(st, env, site).session, env').verdict.Authorized()
    ensures RetrievePassword(DeletePassword(st, env, site).session, env', site).reply == NotFound
  {
  }

  /** An authorised add of a new site puts it after every stored site. */
  lemma AddNewSiteAppends(st: Session, env: Env, site: string, username: string, password: string, iv: nat)
    requires site !in Sites(st.vault)
    requires Authenticate(st, env).verdict.Authorized()
    ensures Sites(AddPassword(st, env, site, username, password, iv).session.vault) == Sites(st.vault) + [site]
  {
  }

  /** Adding two new sites one after the other lists them after the existing
      ones, in the order they were added. */
  lemma ListInInsertionOrder(st: Session, e1: Env, e2: Env, e3: Env, a: string, b: string,
                             ua: string, pa: string, ub: string, pb: string, ia: nat, ib: nat)
    requires a != b && a !in Sites(st.vault) && b !in Sites(st.vault)
    requires Authenticate(st, e1).verdict.Authorized()
    requires Authenticate(AddPassword(st, e1, a, ua, pa, ia).session, e2).verdict.Authorized()
    requires Authenticate(AddPassword(AddPassword(st, e1, a, ua, pa, ia).session, e2, b, ub, pb, ib).session, e3).verdict.Authorized()
    ensures ListPasswords(AddPassword(AddPassword(st, e1, a, ua, pa, ia).session, e2, b, ub, pb, ib).session, e3).reply
            == Listing(Sites(st.vault) + [a, b])
  {
    var s1 := AddPassword(st, e1, a, ua, pa, ia).session;
    AddNewSiteAppends(st, e1, a, ua, pa, ia);
    assert b !in Sites(s1.vault);
    var s2 := AddPassword(s1, e2, b, ub, pb, ib).session;
    AddNewSiteAppends(s1, e2, b, ub, pb, ib);
    assert Sites(st.vault) + [a] + [b] == Sites(st.vault) + [a, b];
    assert ListPasswords(s2, e3).reply == Listing(Keys(s2.vault)) == Listing(Sites(s2.vault));
  }

  /** An empty store is listed as an empty listing, not as an error. */
  lemma ListEmptyVault(st: Session, env: Env)
    requires st.vault == []
    requires Authenticate(st, env).verdict.Authorized()
    ensures ListPasswords(st, env).reply == Listing([])
  {
  }

  /** Adding the same site twice leaves the store as a single add of the
      second credentials would: last write wins. */
  lemma AddTwiceLastWins(st: Session, env: Env, env': Env, site: string,
                         u1: string, p1: string, i1: nat, u2: string, p2: string, i2: nat)
    requires Authenticate(st, env).verdict.Authorized()
    requires Authenticate(AddPassword(st, env, site, u1, p1, i1).session, env').verdict.Authorized()
    ensures AddPassword(AddPassword(st, env, site, u1, p1, i1).session, env', site, u2, p2, i2).session.vault
            == Put(st.vault, site, Entry(u2, Encrypt(i2, p2)))
  {
    var s1 := AddPassword(st, env, site, u1, p1, i1).session;
    assert s1.vault == Put(st.vault, site, Entry(u1, Encrypt(i1, p1)));
    assert AddPassword(s1, env', site, u2, p2, i2).session.vault == Put(s1.vault, site, Entry(u2, Encrypt(i2, p2)));
    LastWriteWins(st.vault, site, Entry(u1, Encrypt(i1, p1)), Entry(u2, Encrypt(i2, p2)));
  }

  /** No command ever stores a site twice. */
  lemma CommandsKeepSitesUnique(st: Session, env: Env, site: string, username: string, password: string, iv: nat)
    requires UniqueSites(st.vault)
    ensures UniqueSites(AddPassword(st, env, site, username, password, iv).session.vault)
    ensures UniqueSites(DeletePassword(st, env, site).session.vault)
    ensures UniqueSites(RetrievePassword(st, env, site).session.vault)
    ensures UniqueSites(ListPasswords(st, env).session.vault)
  {
    PutKeepsSitesUnique(st.vault, site, Entry(username, Encrypt(iv, password)));
    RemoveKeepsSitesUnique(st.vault, site);
  }
}
