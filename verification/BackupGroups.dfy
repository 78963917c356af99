/** Stores that share a file are backed up once (`gateway-config/src/backup.rs`,
    `group`). */
module BackupGroups {
  import opened Results
  import opened BackupTypes

  /** The device and file number of a store's file. */
  type Identity = (nat, nat)

  datatype Present = Present(store: StateFile, identity: Identity)

  datatype Group = Group(named: StateFile, members: seq<StateFile>)

  /** The stores on one file among the first `n`, in order. */
  function StoresOf(present: seq<Present>, n: nat, identity: Identity): (stores: seq<StateFile>)
    requires n <= |present|
  {
    if n == 0 then [] else
      var stores := StoresOf(present, n - 1, identity);
      if present[n - 1].identity == identity then stores + [present[n - 1].store] else stores
  }

  /** The files of the first `n` stores, in the order they are first seen. */
  function FirstSeen(present: seq<Present>, n: nat): (identities: seq<Identity>)
    requires n <= |present|
  {
    if n == 0 then [] else
      var identities := FirstSeen(present, n - 1);
      var id := present[n - 1].identity;
      if id in identities then identities else identities + [id]
  }

  /** One group for each file: all its stores, named after the first. */
  ghost predicate IsGrouping(present: seq<Present>, n: nat, groups: seq<Group>)
    requires n <= |present|
  {
    var identities := FirstSeen(present, n);
    && |groups| == |identities|
    && forall i :: 0 <= i < |groups| ==> IsGroup(groups[i], StoresOf(present, n, identities[i]))
  }

  ghost predicate IsGroup(g: Group, stores: seq<StateFile>) {
    stores != [] && g.named == stores[0] && g.members == stores
  }

  ghost predicate Collides(a: Present, b: Present) {
    a.identity == b.identity && (a.store.ConfigLedger? || b.store.ConfigLedger?)
  }

  /** Among the first `n`, the ledger shares its file with a store before or after it. */
  ghost predicate LedgerIsShared(present: seq<Present>, n: nat)
    requires n <= |present|
  {
    exists i, j :: 0 <= i < j < n && Collides(present[i], present[j])
  }

  ghost predicate DistinctStores(present: seq<Present>) {
    forall a, b :: 0 <= a < b < |present| ==> present[a].store != present[b].store
  }

  lemma {:induction false} StoresOfHolds(present: seq<Present>, n: nat, id: Identity, store: StateFile)
    requires n <= |present|
    ensures store in StoresOf(present, n, id) <==> exists i :: 0 <= i < n && present[i] == Present(store, id)
  {
    if n > 0 {
      StoresOfHolds(present, n - 1, id, store);
    }
  }

  lemma {:induction false} FirstSeenHolds(present: seq<Present>, n: nat, id: Identity)
    requires n <= |present|
    ensures id in FirstSeen(present, n) <==> exists i :: 0 <= i < n && present[i].identity == id
    ensures id in FirstSeen(present, n) <==> StoresOf(present, n, id) != []
  {
    if n > 0 {
      FirstSeenHolds(present, n - 1, id);
    }
  }

  lemma {:induction false} FirstSeenDistinct(present: seq<Present>, n: nat)
    requires n <= |present|
    ensures forall i, j :: 0 <= i < j < |FirstSeen(present, n)| ==> FirstSeen(present, n)[i] != FirstSeen(present, n)[j]
  {
    if n > 0 {
      FirstSeenDistinct(present, n - 1);
    }
  }

  /** Every store is in a group, and two are in the same one exactly when they
      share a file. */
  lemma GroupingIsPartition(present: seq<Present>, groups: seq<Group>, i: nat, j: nat)
    requires IsGrouping(present, |present|, groups) && DistinctStores(present)
    requires i < |present| && j < |present|
    ensures exists g <- groups :: present[i].store in g.members
    ensures present[i].identity == present[j].identity <==>
            exists g <- groups :: present[i].store in g.members && present[j].store in g.members
  {
    var n, identities := |present|, FirstSeen(present, |present|);
    var id := present[i].identity;
    FirstSeenHolds(present, n, id);
    var k :| 0 <= k < |identities| && identities[k] == id;
    StoresOfHolds(present, n, id, present[i].store);
    StoresOfHolds(present, n, id, present[j].store);
    assert groups[k] in groups && IsGroup(groups[k], StoresOf(present, n, id));
    forall g | g in groups && present[i].store in g.members && present[j].store in g.members
      ensures present[i].identity == present[j].identity
    {
      var m :| 0 <= m < |groups| && groups[m] == g;
      assert IsGroup(g, StoresOf(present, n, identities[m]));
      OnItsFile(present, identities[m], i);
      OnItsFile(present, identities[m], j);
    }
  }

  lemma OnItsFile(present: seq<Present>, identity: Identity, i: nat)
    requires i < |present| && DistinctStores(present)
    requires present[i].store in StoresOf(present, |present|, identity)
    ensures present[i].identity == identity
  {
    StoresOfHolds(present, |present|, identity, present[i].store);
  }

  // Of the stores on one file, a ledger is the first or was refused when it joined.
  lemma {:induction false} LedgerIsFirst(present: seq<Present>, n: nat, id: Identity)
    requires n <= |present| && !LedgerIsShared(present, n) && StoresOf(present, n, id) != []
    ensures (exists i :: 0 <= i < n && present[i] == Present(ConfigLedger, id)) <==>
        StoresOf(present, n, id)[0].ConfigLedger?
  {
    var stores := StoresOf(present, n, id);
    StoresOfHolds(present, n, id, ConfigLedger);
    if ConfigLedger in stores {
      StoresOfHolds(present, n, id, stores[0]);
      var i :| 0 <= i < n && present[i] == Present(ConfigLedger, id);
      var f :| 0 <= f < n && present[f] == Present(stores[0], id);
      assert Collides(present[i], present[f]) && Collides(present[f], present[i]);
    }
  }

  lemma SharedStep(present: seq<Present>, n: nat)
    requires n < |present| && !LedgerIsShared(present, n)
    ensures LedgerIsShared(present, n + 1) <==> exists i :: 0 <= i < n && Collides(present[i], present[n])
  {
  }

  lemma JoinCollides(present: seq<Present>, n: nat)
    requires n < |present| && !LedgerIsShared(present, n)
    ensures LedgerIsShared(present, n + 1) <==>
            var stores := StoresOf(present, n, present[n].identity);
            stores != [] && (present[n].store.ConfigLedger? || stores[0].ConfigLedger?)
  {
    var id := present[n].identity;
    var stores := StoresOf(present, n, id);
    SharedStep(present, n);
    FirstSeenHolds(present, n, id);
    if stores != [] {
      LedgerIsFirst(present, n, id);
      var f :| 0 <= f < n && present[f].identity == id;
      assert present[n].store.ConfigLedger? ==> Collides(present[f], present[n]);
      if stores[0].ConfigLedger? {
        var i :| 0 <= i < n && present[i] == Present(ConfigLedger, id);
        assert Collides(present[i], present[n]);
      }
    }
  }

  lemma JoinGroups(present: seq<Present>, n: nat, groups: seq<Group>, k: nat)
    requires n < |present| && IsGrouping(present, n, groups)
    requires k < |groups| && FirstSeen(present, n)[k] == present[n].identity
    ensures IsGrouping(present, n + 1, groups[k := Group(groups[k].named, groups[k].members + [present[n].store])])
  {
    FirstSeenDistinct(present, n);
    var identities := FirstSeen(present, n);
    assert FirstSeen(present, n + 1) == identities;
    var now := groups[k := Group(groups[k].named, groups[k].members + [present[n].store])];
    forall i | 0 <= i < |now| ensures IsGroup(now[i], StoresOf(present, n + 1, identities[i])) {
      assert IsGroup(groups[i], StoresOf(present, n, identities[i]));
      assert identities[i] == identities[k] <==> i == k;
    }
  }

  lemma NewGroup(present: seq<Present>, n: nat, groups: seq<Group>)
    requires n < |present| && IsGrouping(present, n, groups)
    requires present[n].identity !in FirstSeen(present, n)
    ensures IsGrouping(present, n + 1, groups + [Group(present[n].store, [present[n].store])])
  {
    var identities := FirstSeen(present, n);
    FirstSeenHolds(present, n, present[n].identity);
    var now := groups + [Group(present[n].store, [present[n].store])];
    forall i | 0 <= i < |now| ensures IsGroup(now[i], StoresOf(present, n + 1, FirstSeen(present, n + 1)[i])) {
      if i < |groups| {
        assert identities[i] in identities && IsGroup(groups[i], StoresOf(present, n, identities[i]));
      }
    }
  }

  /** `group`: refused exactly when the ledger's file is shared. */
  method GroupStores(present: seq<Present>) returns (r: Result<seq<Group>, BackupError>)
    ensures r.Ok? <==> !LedgerIsShared(present, |present|)
    ensures r.Ok? ==> IsGrouping(present, |present|, r.value)
    ensures r.Err? ==> r.error == Store(ConfigLedger, LedgerShared)
  {
    hide *;
    var identities: seq<Identity> := [];
    var groups: seq<Group> := [];
    Nothing(present);
    for n := 0 to |present|
      invariant !LedgerIsShared(present, n)
      invariant identities == FirstSeen(present, n)
      invariant IsGrouping(present, n, groups)
    {
      var found := present[n];
      JoinCollides(present, n);
      FirstSeenHolds(present, n, found.identity);
      var k := Find(identities, found.identity);
      if k < |identities| {
        GroupAt(present, n, groups, k);
        if found.store.ConfigLedger? || groups[k].named.ConfigLedger? {
          SharedStays(present, n + 1);
          return Err(Store(ConfigLedger, LedgerShared));
        }
        JoinGroups(present, n, groups, k);
        groups := groups[k := Group(groups[k].named, groups[k].members + [found.store])];
      } else {
        NewGroup(present, n, groups);
        identities := identities + [found.identity];
        groups := groups + [Group(found.store, [found.store])];
      }
      NextSeen(present, n);
    }
    r := Ok(groups);
  }

  lemma Nothing(present: seq<Present>)
    ensures !LedgerIsShared(present, 0) && FirstSeen(present, 0) == [] && IsGrouping(present, 0, [])
  {
  }

  lemma NextSeen(present: seq<Present>, n: nat)
    requires n < |present|
    ensures FirstSeen(present, n + 1) ==
            if present[n].identity in FirstSeen(present, n)
            then FirstSeen(present, n) else FirstSeen(present, n) + [present[n].identity]
  {
  }

  lemma GroupAt(present: seq<Present>, n: nat, groups: seq<Group>, k: nat)
    requires n <= |present| && IsGrouping(present, n, groups) && k < |FirstSeen(present, n)|
    ensures k < |groups| && var stores := StoresOf(present, n, FirstSeen(present, n)[k]);
                            stores != [] && groups[k].named == stores[0]
  {
    assert IsGroup(groups[k], StoresOf(present, n, FirstSeen(present, n)[k]));
  }

  lemma SharedStays(present: seq<Present>, n: nat)
    requires n <= |present| && LedgerIsShared(present, n)
    ensures LedgerIsShared(present, |present|)
  {
  }

  method Find(identities: seq<Identity>, id: Identity) returns (k: nat)
    ensures k <= |identities| && (k < |identities| <==> id in identities)
    ensures k < |identities| ==> identities[k] == id
  {
    for i := 0 to |identities|
      invariant id !in identities[..i]
    {
      if identities[i] == id {
        return i;
      }
    }
    k := |identities|;
  }
}
