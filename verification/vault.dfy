/**
  The credential store: the JSON object of the passwords file, a mapping from
  site to username and sealed password. JSON objects and Python dicts keep
  insertion order, so the store is a sequence of slots with distinct sites:
  overwriting a site keeps its place, a new site goes at the end.
*/
module Vault {
  import opened Wrappers
  import opened Cipher

  datatype Entry = Entry(username: string, password: Ciphertext)

  datatype Slot = Slot(site: string, entry: Entry)

  type Store = seq<Slot>

  /** The store's sites in stored order (the dict's keys). */
  function Sites(v: Store): (r: seq<string>)
    ensures |r| == |v|
  {
    if |v| == 0 then [] else [v[0].site] + Sites(v[1..])
  }

  /** The keys are the slots' sites, position by position. */
  lemma SitesAreSlotSites(v: Store)
    ensures forall i :: 0 <= i < |v| ==> Sites(v)[i] == v[i].site
  {
  }

  /** `data.keys()`: the sites in stored order, position by position. The
      recursive proofs work with `Sites`, whose contract stays small. */
  function Keys(v: Store): (ks: seq<string>)
    ensures |ks| == |v|
    ensures forall i :: 0 <= i < |v| ==> ks[i] == v[i].site
  {
    SitesAreSlotSites(v);
    Sites(v)
  }

  /** No key occurs twice. */
  ghost predicate Distinct(ks: seq<string>)
  {
    forall i, j :: 0 <= i < j < |ks| ==> ks[i] != ks[j]
  }

  /** No site is stored twice, as in any dict. */
  ghost predicate UniqueSites(v: Store)
  {
    Distinct(Sites(v))
  }

  /** The entry stored for `site`, if any (the dict's `data[site]`). */
  function Lookup(v: Store, site: string): (r: Option<Entry>)
    ensures r.Some? <==> site in Sites(v)
    ensures r.Some? ==> exists i :: 0 <= i < |v| && v[i].site == site && v[i].entry == r.value
  {
    if |v| == 0 then None
    else if v[0].site == site then Some(v[0].entry)
    else Lookup(v[1..], site)
  }

  /** `data[site] = entry`: overwrite in place, or append a new site. */
  function Put(v: Store, site: string, e: Entry): (r: Store)
    ensures Lookup(r, site) == Some(e)
    ensures forall s :: s != site ==> Lookup(r, s) == Lookup(v, s)
  {
    if |v| == 0 then [Slot(site, e)]
    else if v[0].site == site then
      assert ([Slot(site, e)] + v[1..])[1..] == v[1..];
      [Slot(site, e)] + v[1..]
    else
      var tail := Put(v[1..], site, e);
      assert ([v[0]] + tail)[1..] == tail;
      [v[0]] + tail
  }

  /** Storing keeps every site in its place: an existing site is overwritten
      where it stands, a new one goes after all the others. */
  lemma {:induction false} PutSites(v: Store, site: string, e: Entry)
    ensures Sites(Put(v, site, e)) == if site in Sites(v) then Sites(v) else Sites(v) + [site]
  {
    if |v| > 0 && v[0].site != site {
      var tail := Put(v[1..], site, e);
      PutSites(v[1..], site, e);
      assert ([v[0]] + tail)[1..] == tail;
      assert Sites([v[0]] + tail) == [v[0].site] + Sites(tail);
      assert site in Sites(v) <==> site in Sites(v[1..]);
      assert [v[0].site] + (Sites(v[1..]) + [site]) == Sites(v) + [site];
    } else if |v| > 0 {
      assert ([Slot(site, e)] + v[1..])[1..] == v[1..];
    }
  }

  /** `del data[site]`: drop the site, keep every other slot in order. */
  function Remove(v: Store, site: string): (r: Store)
    ensures Lookup(r, site) == None
    ensures forall s :: s != site ==> Lookup(r, s) == Lookup(v, s)
    ensures site !in Sites(v) ==> r == v
  {
    if |v| == 0 then []
    else
      var tail := Remove(v[1..], site);
      if v[0].site == site then tail
      else
        assert ([v[0]] + tail)[1..] == tail;
        [v[0]] + tail
  }

  lemma DistinctCons(k: string, ks: seq<string>)
    ensures Distinct([k] + ks) <==> k !in ks && Distinct(ks)
  {
    var l := [k] + ks;
    assert l[0] == k;
    assert forall i :: 0 <= i < |ks| ==> l[i + 1] == ks[i];
    if Distinct(l) {
      forall i | 0 <= i < |ks| ensures ks[i] != k {
        assert l[0] != l[i + 1];
      }
      forall i, j | 0 <= i < j < |ks| ensures ks[i] != ks[j] {
        assert l[i + 1] != l[j + 1];
      }
    }
    if k !in ks && Distinct(ks) {
      forall i, j | 0 <= i < j < |l| ensures l[i] != l[j] {
        assert l[j] == ks[j - 1];
        if i > 0 {
          assert l[i] == ks[i - 1];
        }
      }
    }
  }

  /** Adding keeps the sites distinct. */
  lemma PutKeepsSitesUnique(v: Store, site: string, e: Entry)
    requires UniqueSites(v)
    ensures UniqueSites(Put(v, site, e))
  {
    PutSites(v, site, e);
  }

  /** Deleting keeps the sites distinct. */
  lemma {:induction false} RemoveKeepsSitesUnique(v: Store, site: string)
    requires UniqueSites(v)
    ensures UniqueSites(Remove(v, site))
  {
    if |v| > 0 {
      DistinctCons(v[0].site, Sites(v[1..]));
      RemoveKeepsSitesUnique(v[1..], site);
      var tail := Remove(v[1..], site);
      if v[0].site != site {
        assert Lookup(tail, v[0].site) == Lookup(v[1..], v[0].site);
        assert Sites([v[0]] + tail) == [v[0].site] + Sites(tail) by {
          assert ([v[0]] + tail)[1..] == tail;
        }
        DistinctCons(v[0].site, Sites(tail));
      }
    }
  }

  /** Dropping element `i + 1` of `v` is dropping element `i` of its tail,
      behind the head. */
  lemma DropAfterHead<T>(v: seq<T>, i: nat)
    requires i + 1 < |v|
    ensures [v[0]] + (v[1..][..i] + v[1..][i + 1..]) == v[..i + 1] + v[i + 2..]
  {
  }

  /** In a store without duplicate sites, deleting a present site drops
      exactly its one slot and nothing else. */
  lemma {:induction false} RemoveDropsOneSlot(v: Store, site: string)
    requires UniqueSites(v) && site in Sites(v)
    ensures exists i :: 0 <= i < |v| && v[i].site == site && Remove(v, site) == v[..i] + v[i + 1..]
  {
    DistinctCons(v[0].site, Sites(v[1..]));
    if v[0].site == site {
      assert site !in Sites(v[1..]);
      assert Remove(v, site) == Remove(v[1..], site) == v[1..];
      assert v[1..] == v[..0] + v[0 + 1..];
    } else {
      var tail := v[1..];
      RemoveDropsOneSlot(tail, site);
      var i :| 0 <= i < |tail| && tail[i].site == site && Remove(tail, site) == tail[..i] + tail[i + 1..];
      assert Remove(v, site) == [v[0]] + Remove(tail, site);
      DropAfterHead(v, i);
      assert v[i + 1].site == site;
    }
  }

  /** The dict the store stands for. */
  ghost function AsMap(v: Store): map<string, Entry>
  {
    map s | s in Sites(v) :: Lookup(v, s).value
  }

  /** Put is a dict update. */
  lemma PutIsMapUpdate(v: Store, site: string, e: Entry)
    ensures AsMap(Put(v, site, e)) == AsMap(v)[site := e]
  {
    var p := Put(v, site, e);
    var l := AsMap(p);
    var r := AsMap(v)[site := e];
    forall s ensures (s in l <==> s in r) && (s in l ==> l[s] == r[s]) {
      if s != site {
        assert Lookup(p, s) == Lookup(v, s);
      }
    }
  }

  /** Remove is a dict deletion. */
  lemma RemoveIsMapDeletion(v: Store, site: string)
    ensures AsMap(Remove(v, site)) == AsMap(v) - {site}
  {
    var p := Remove(v, site);
    var l := AsMap(p);
    var r := AsMap(v) - {site};
    forall s ensures (s in l <==> s in r) && (s in l ==> l[s] == r[s]) {
      if s != site {
        assert Lookup(p, s) == Lookup(v, s);
      }
    }
  }

  /** Last write wins: a second Put of the same site erases all trace of the
      first. */
  lemma {:induction false} LastWriteWins(v: Store, site: string, e1: Entry, e2: Entry)
    ensures Put(Put(v, site, e1), site, e2) == Put(v, site, e2)
  {
    if |v| == 0 || v[0].site == site {
    } else {
      LastWriteWins(v[1..], site, e1, e2);
      assert Put(v, site, e1)[1..] == Put(v[1..], site, e1);
    }
  }

  /** Removing a site that was just added as new gives back the store as it
      was before. */
  lemma {:induction false} RemoveUndoesNewPut(v: Store, site: string, e: Entry)
    requires site !in Sites(v)
    ensures Remove(Put(v, site, e), site) == v
  {
    if |v| == 0 {
    } else {
      assert Sites(v) == [v[0].site] + Sites(v[1..]);
      RemoveUndoesNewPut(v[1..], site, e);
      assert Put(v, site, e)[1..] == Put(v[1..], site, e);
    }
  }
}
