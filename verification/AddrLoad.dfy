/**
 * What CAddrMan::Unserialize (src/addrman.h) makes of any stream: everything Check_ tests but
 * the address index always holds, and the index is right exactly when no address is shared
 * by entries that survive.
 */
module AddrLoad {
  import opened AddrTables
  import opened AddrState
  import opened AddrDisk
  import O = AddrOps

  // Inv without the address index.
  ghost predicate Core(L: Layout, s: State, loose: set<int>, ahead: int) {
    && 0 <= s.nIdCount && (forall id :: id in s.info ==> 0 <= id)
    && RandomOk(s)
    && NewOk(L, s.info, s.news)
    && TriedOk(L, s.info, s.tried)
    && CountsOk(s.info, s.nNew, s.nTried, ahead)
    && LiveOk(s.info, loose)
  }

  // The address index and the entries determine each other.
  ghost predicate AddrsOk(s: State) {
    && (forall id :: id in s.info ==> s.info[id].service.net in s.addrs && s.addrs[s.info[id].service.net] == id)
    && (forall a :: a in s.addrs ==> s.addrs[a] in s.info && s.info[s.addrs[a]].service.net == a)
  }

  lemma InvIff(L: Layout, s: State, loose: set<int>, ahead: int)
    ensures Inv(L, s, loose, ahead) <==> Core(L, s, loose, ahead) && AddrsOk(s)
  {
    hide NewOk, TriedOk, CountsOk, LiveOk;
  }

  // The index leads to the latest entry of each address.
  ghost predicate Latest(s: State) {
    && (forall a :: a in s.addrs ==> s.addrs[a] in s.info && s.info[s.addrs[a]].service.net == a)
    && (forall id :: id in s.info ==> s.info[id].service.net in s.addrs)
  }

  // ---------- single steps ----------

  lemma CreateCore(L: Layout, s: State, i: AddrInfo, loose: set<int>, ahead: int)
    requires Core(L, s, loose, ahead) && i.nRefCount == 0 && !i.fInTried
    ensures Core(L, Create(s, i), loose + {s.nIdCount}, ahead + 1)
    ensures s.nIdCount !in s.info
  {
    CreateRandom(s, i);
    CreateKeeps(L, s.info, s.nIdCount, i.(nRandomPos := |s.vRandom|), s.news, s.tried, loose);
  }

  lemma TightenCore(L: Layout, s: State, loose: set<int>, id: int, ahead: int)
    requires Core(L, s, loose + {id}, ahead)
    requires id in s.info ==> s.info[id].fInTried || s.info[id].nRefCount >= 1
    ensures Core(L, s, loose, ahead)
  {
  }

  lemma ReferenceCore(L: Layout, s: State, sl: Slot, id: int, loose: set<int>, ahead: int)
    requires Core(L, s, loose + {id}, ahead)
    requires id in s.info && !s.info[id].fInTried && s.info[id].nRefCount < NEW_BUCKETS_PER_ADDRESS
    requires sl in s.news && s.news[sl] == EMPTY
    requires sl == L.NewSlot(s.info[id].service, sl.bucket) && sl.bucket < L.newBuckets
    ensures Core(L, Reference(s, sl, id), loose, ahead)
  {
    hide RandomOk, TriedOk, LiveOk;
    var t := Reference(s, sl, id);
    assert RefOk(L, s.info[id], s.news, id);
    AddRef(L, s.info, s.news, sl, id);
    assert NewOk(L, t.info, t.news);
    ReferenceRandom(s, sl, id);
    LiveAfterSet(s.info, id, t.info[id], loose + {id});
    assert loose + {id} + {id} == loose + {id};
    SamePlacesKeep(L, s.info, t.info, s.addrs, s.vRandom, s.nIdCount, s.tried);
    TightenCore(L, t, loose, id, ahead);
  }

  lemma PromoteCore(L: Layout, s: State, k: Slot, id: int, loose: set<int>, ahead: int)
    requires Core(L, s, loose + {id}, ahead)
    requires id in s.info && !s.info[id].fInTried && s.info[id].nRefCount == 0
    requires k in s.tried && s.tried[k] == EMPTY && k == L.TriedSlot(s.info[id].service)
    ensures Core(L, Promote(s, k, id), loose, ahead - 1)
  {
    hide RandomOk, LiveOk, CountsOk, IndexOk;
    var t := Promote(s, k, id);
    TriedPromote(L, s.info, s.tried, k, id);
    assert TriedOk(L, t.info, t.tried);
    PromoteRandom(s, k, id);
    LiveAfterSet(s.info, id, t.info[id], loose + {id});
    assert loose + {id} + {id} == loose + {id};
    RetriedKeeps(L, s.info, id, t.info[id], s.addrs, s.vRandom, s.nIdCount, s.news);
    PromoteCounts(s, k, id, ahead);
    TightenCore(L, t, loose, id, ahead - 1);
  }

  lemma DeleteCore(L: Layout, s: State, id: int, loose: set<int>, ahead: int)
    requires Core(L, s, loose, ahead) && Unreferenced(s, id)
    ensures Core(L, Delete(s, id), loose - {id}, ahead)
  {
    hide NewOk, TriedOk, LiveOk, SwapRandom;
    var t := SwapRandom(s, s.info[id].nRandomPos, |s.vRandom| - 1);
    SwapRandomFrame(s, s.info[id].nRandomPos, |s.vRandom| - 1);
    DeleteRandom(s, id);
    assert SameRoles(s.info, t.info);
    SameRolesKeep(L, s.info, t.info, s.news, s.tried, loose);
    DeleteKeeps(L, t.info, id, s.news, s.tried, loose);
  }

  // ---------- the loops ----------

  function Below(n: nat): (r: set<int>)
    ensures forall i :: i in r <==> 0 <= i < n
  {
    if n == 0 then {} else Below(n - 1) + {n - 1}
  }

  lemma DomainKept(t: Table, sl: Slot, x: int, buckets: nat, size: nat)
    requires DomainOk(t, buckets, size) && sl in t
    ensures DomainOk(t[sl := x], buckets, size)
  {
  }

  lemma LoadNewCore(L: Layout, s: State, r: Record, n: nat, nNew: int, direct: bool)
    requires Shape(L, s) && Core(L, s, Below(n), n - nNew) && s.nIdCount == n && s.nNew == nNew
    ensures var t := LoadNew(L, s, r, direct);
            Shape(L, t) && Core(L, t, Below(n + 1), n + 1 - nNew) && t.nIdCount == n + 1 && t.nNew == nNew
  {
    hide Core, DomainOk;
    CreateCore(L, s, InfoFrom(r), Below(n), n - nNew);
    assert Below(n) + {n} == Below(n + 1);
    var t, home := Create(s, InfoFrom(r)), HomeSlot(L, InfoFrom(r));
    SlotsInDomain(L, s, r.service);
    if direct && Cell(s.news, home) == EMPTY {
      assert Below(n + 1) + {n} == Below(n + 1);
      ReferenceCore(L, t, home, n, Below(n + 1), n + 1 - nNew);
      DomainKept(s.news, home, n, L.newBuckets, L.bucketSize);
    }
  }

  lemma {:induction false} NewLoadedCore(L: Layout, clear: State, v: Saved, n: nat)
    requires IsClear(L, clear) && n <= |v.infos|
    ensures var t := NewLoaded(L, clear.(nNew := v.nNew), v, n);
            && Shape(L, t) && Core(L, t, Below(n), n - v.nNew) && t.nIdCount == n && t.nNew == v.nNew
            && NewOnes(t, n) && Latest(t)
  {
    hide Core, DomainOk, Below, LoadNew, NewOnes, Latest;
    if n == 0 {
      StartCore(L, clear, v.nNew);
    } else {
      NewLoadedCore(L, clear, v, n - 1);
      var t := NewLoaded(L, clear.(nNew := v.nNew), v, n - 1);
      LoadNewCore(L, t, v.infos[n - 1], n - 1, v.nNew, !Usable(L, v));
      LoadNewNews(L, t, v.infos[n - 1], !Usable(L, v), n - 1);
      NextIsNew(L, t, Below(n - 1), n - 1 - v.nNew);
      LoadNewLatest(L, t, v.infos[n - 1], !Usable(L, v));
    }
  }

  lemma StartCore(L: Layout, clear: State, n: nat)
    requires IsClear(L, clear)
    ensures var t := clear.(nNew := n); Core(L, t, Below(0), 0 - n) && NewOnes(t, 0) && Latest(t) && Shape(L, t)
  {
    assert NewIds(clear.info) == {};
  }

  lemma LoadNewLatest(L: Layout, s: State, r: Record, direct: bool)
    requires Latest(s) && s.nIdCount !in s.info
    ensures Latest(LoadNew(L, s, r, direct))
  {
  }

  lemma LoadTriedCore(L: Layout, s: State, r: Record, nNew: nat)
    requires Shape(L, s) && Core(L, s, Below(nNew), 0)
    ensures var t := LoadTried(L, s, r);
            Shape(L, t) && Core(L, t, Below(nNew), 0) && t.nIdCount >= s.nIdCount && t.nNew == s.nNew
  {
    hide Core, DomainOk, Below;
    var k, id := L.TriedSlot(r.service), s.nIdCount;
    SlotsInDomain(L, s, r.service);
    if Cell(s.tried, k) == EMPTY {
      CreateCore(L, s, InfoFrom(r), Below(nNew), 0);
      PromoteCore(L, Create(s, InfoFrom(r)), k, id, Below(nNew), 1);
      DomainKept(s.tried, k, id, L.triedBuckets, L.bucketSize);
    }
  }

  lemma LoadTriedLatest(L: Layout, s: State, r: Record)
    requires Latest(s) && s.nIdCount !in s.info
    ensures Latest(LoadTried(L, s, r))
  {
  }

  lemma {:induction false} TriedLoadedCore(L: Layout, s: State, v: Saved, n: nat)
    requires v.nNew + n <= |v.infos| && Shape(L, s) && Core(L, s, Below(v.nNew), 0)
    requires s.nIdCount >= v.nNew && s.nNew == v.nNew && NewOnes(s, v.nNew) && Latest(s)
    ensures var t := TriedLoaded(L, s, v, n);
            && Shape(L, t) && Core(L, t, Below(v.nNew), 0) && t.nIdCount >= v.nNew && t.nNew == v.nNew
            && NewOnes(t, v.nNew) && Latest(t)
  {
    hide Core, DomainOk, Below, LoadTried, NewOnes, Latest;
    if n > 0 {
      TriedLoadedCore(L, s, v, n - 1);
      var t := TriedLoaded(L, s, v, n - 1);
      LoadTriedCore(L, t, v.infos[v.nNew + n - 1], v.nNew);
      LoadTriedNews(L, t, v.infos[v.nNew + n - 1], v.nNew);
      NextIsNew(L, t, Below(v.nNew), 0);
      LoadTriedLatest(L, t, v.infos[v.nNew + n - 1]);
    }
  }

  lemma NextIsNew(L: Layout, s: State, loose: set<int>, ahead: int)
    requires Core(L, s, loose, ahead)
    ensures s.nIdCount !in s.info && 0 <= s.nIdCount
  {
  }

  lemma LoadIndexCore(L: Layout, s: State, bucket: nat, n: int, nNew: nat, usable: bool)
    requires Shape(L, s) && Core(L, s, Below(nNew), 0) && NewOnes(s, nNew) && (usable ==> bucket < L.newBuckets)
    ensures var t := LoadIndex(L, s, bucket, n, nNew, usable);
            Shape(L, t) && Core(L, t, Below(nNew), 0) && NewOnes(t, nNew) && t.nNew == s.nNew && t.nIdCount == s.nIdCount
    ensures Latest(s) ==> Latest(LoadIndex(L, s, bucket, n, nNew, usable))
    ensures SameNets(s, LoadIndex(L, s, bucket, n, nNew, usable))
  {
    hide Core, DomainOk;
    var sl := L.NewSlot(InfoOf(s, n).service, bucket);
    if 0 <= n < nNew && usable && Cell(s.news, sl) == EMPTY && InfoOf(s, n).nRefCount < NEW_BUCKETS_PER_ADDRESS {
      SlotsInDomain(L, s, s.info[n].service);
      assert Below(nNew) + {n} == Below(nNew);
      ReferenceCore(L, s, sl, n, Below(nNew), 0);
      DomainKept(s.news, sl, n, L.newBuckets, L.bucketSize);
    }
  }

  ghost predicate SameNets(s: State, t: State) {
    && (forall id :: id in s.info <==> id in t.info)
    && forall id :: id in s.info ==> t.info[id].service.net == s.info[id].service.net
  }

  lemma {:induction false} IndicesLoadedCore(L: Layout, s: State, v: Saved, b: nat, n: nat)
    requires Shape(L, s) && Core(L, s, Below(v.nNew), 0) && NewOnes(s, v.nNew) && Latest(s)
    requires b < |v.buckets| && n <= |v.buckets[b]| && (Usable(L, v) ==> b < L.newBuckets)
    ensures var t := IndicesLoaded(L, s, v, b, n);
            && Shape(L, t) && Core(L, t, Below(v.nNew), 0) && NewOnes(t, v.nNew) && Latest(t)
            && t.nNew == s.nNew && t.nIdCount == s.nIdCount && SameNets(s, t)
  {
    hide Core, DomainOk, Below, LoadIndex, NewOnes, Latest;
    if n > 0 {
      IndicesLoadedCore(L, s, v, b, n - 1);
      LoadIndexCore(L, IndicesLoaded(L, s, v, b, n - 1), b, v.buckets[b][n - 1], v.nNew, Usable(L, v));
    }
  }

  lemma {:induction false} BucketsLoadedCore(L: Layout, s: State, v: Saved, n: nat)
    requires Shape(L, s) && Core(L, s, Below(v.nNew), 0) && NewOnes(s, v.nNew) && Latest(s)
    requires n <= |v.buckets| && (Usable(L, v) ==> n <= L.newBuckets)
    ensures var t := BucketsLoaded(L, s, v, n);
            && Shape(L, t) && Core(L, t, Below(v.nNew), 0) && NewOnes(t, v.nNew) && Latest(t)
            && t.nNew == s.nNew && t.nIdCount == s.nIdCount && SameNets(s, t)
  {
    hide Core, DomainOk, Below, IndicesLoaded, NewOnes, Latest;
    if n > 0 {
      BucketsLoadedCore(L, s, v, n - 1);
      IndicesLoadedCore(L, BucketsLoaded(L, s, v, n - 1), v, n - 1, |v.buckets[n - 1]|);
    }
  }

  // ---------- pruning ----------

  predicate Unreferenced(s: State, id: int) {
    id in s.info && !s.info[id].fInTried && s.info[id].nRefCount == 0
  }

  // Entries below n are gone, tried or referenced.
  lemma {:induction false} PrunedCore(L: Layout, s: State, nNew: nat, n: nat)
    requires Shape(L, s) && Core(L, s, Below(nNew), 0)
    ensures var t := Pruned(s, n); Shape(L, t) && Core(L, t, Below(nNew) - Below(n), 0) && t.nIdCount == s.nIdCount
  {
    hide Core, DomainOk, Delete, Below;
    if n == 0 {
      assert Below(nNew) - Below(0) == Below(nNew);
    } else {
      PrunedCore(L, s, nNew, n - 1);
      var t, id := Pruned(s, n - 1), n - 1;
      var loose := Below(nNew) - Below(n - 1);
      assert loose - {id} == Below(nNew) - Below(n);
      if Unreferenced(t, id) {
        DeleteCore(L, t, id, loose, 0);
        DeleteTables(t, id);
      } else {
        StaysCore(L, t, loose, id);
      }
    }
  }

  lemma DeleteTables(s: State, id: int)
    ensures Delete(s, id).news == s.news && Delete(s, id).tried == s.tried && Delete(s, id).nIdCount == s.nIdCount
  {
  }

  // A count is never negative.
  lemma StaysCore(L: Layout, s: State, loose: set<int>, id: int)
    requires Core(L, s, loose, 0) && !Unreferenced(s, id)
    ensures Core(L, s, loose - {id}, 0)
  {
    if id in s.info {
      assert RefOk(L, s.info[id], s.news, id);
    }
  }

  // What is left after pruning the ids below n.
  ghost predicate PrunedTo(s: State, t: State, n: nat) {
    && (forall id :: id in t.info <==> id in s.info && !(0 <= id < n && Unreferenced(s, id)))
    && (forall id :: id in t.info ==> t.info[id] == s.info[id].(nRandomPos := t.info[id].nRandomPos))
    && (forall a :: a in t.addrs <==> a in s.addrs && !Pruning(s, a, n))
    && (forall a :: a in t.addrs ==> t.addrs[a] == s.addrs[a])
  }

  // Some entry of this address is pruned.
  ghost predicate Pruning(s: State, a: NetAddr, n: nat) {
    exists id :: 0 <= id < n && Unreferenced(s, id) && s.info[id].service.net == a
  }

  lemma {:induction false} PrunedIs(s: State, n: nat)
    requires RandomOk(s)
    ensures RandomOk(Pruned(s, n)) && PrunedTo(s, Pruned(s, n), n)
  {
    hide RandomOk, Delete, PrunedTo;
    if n == 0 {
      PrunedNone(s);
    } else {
      PrunedIs(s, n - 1);
      var t := Pruned(s, n - 1);
      UnreferencedSame(s, t, n - 1);
      if Unreferenced(t, n - 1) {
        DeleteRandom(t, n - 1);
        PrunedOne(s, t, n - 1);
      } else {
        PrunedSkip(s, t, n - 1);
      }
    }
  }

  lemma PrunedNone(s: State)
    ensures PrunedTo(s, s, 0)
  {
  }

  lemma UnreferencedSame(s: State, t: State, n: nat)
    requires PrunedTo(s, t, n)
    ensures Unreferenced(t, n) <==> Unreferenced(s, n)
  {
  }

  lemma PrunedSkip(s: State, t: State, n: nat)
    requires PrunedTo(s, t, n) && !Unreferenced(s, n)
    ensures PrunedTo(s, t, n + 1)
  {
    forall a ensures Pruning(s, a, n + 1) <==> Pruning(s, a, n) {}
  }

  lemma PrunedOne(s: State, t: State, n: nat)
    requires PrunedTo(s, t, n) && RandomOk(t) && Unreferenced(s, n) && n in t.info
    ensures PrunedTo(s, Delete(t, n), n + 1)
  {
    hide Delete;
    DeleteFrame(t, n);
    forall a
      ensures Pruning(s, a, n + 1) <==> Pruning(s, a, n) || a == s.info[n].service.net
    {
    }
  }

  // ---------- the exact condition ----------

  // The state when pruning begins.
  function BeforePruning(L: Layout, clear: State, v: Saved): State
    requires !Throws(L, v)
  {
    var a := NewLoaded(L, clear.(nNew := v.nNew), v, v.nNew);
    var b := TriedLoaded(L, a, v, v.nTried);
    BucketsLoaded(L, b, v, BucketCount(v))
  }

  // An address of more than one entry belongs only to new entries without a reference.
  ghost predicate SharedArePruned(s: State) {
    forall i, j :: i in s.info && j in s.info && i != j && s.info[i].service.net == s.info[j].service.net ==>
      Unreferenced(s, i) && Unreferenced(s, j)
  }

  lemma BeforePruningCore(L: Layout, clear: State, v: Saved)
    requires IsClear(L, clear) && !Throws(L, v)
    ensures var c := BeforePruning(L, clear, v);
            Shape(L, c) && Core(L, c, Below(v.nNew), 0) && Latest(c) && c.nIdCount >= v.nNew
    ensures Loaded(L, clear, v) == Pruned(BeforePruning(L, clear, v), Max0(BeforePruning(L, clear, v).nIdCount))
  {
    hide Core, DomainOk, Below, NewOnes, Latest, NewLoaded, TriedLoaded, BucketsLoaded, Pruned;
    NewLoadedCore(L, clear, v, v.nNew);
    var a := NewLoaded(L, clear.(nNew := v.nNew), v, v.nNew);
    TriedLoadedCore(L, a, v, v.nTried);
    BucketsLoadedCore(L, TriedLoaded(L, a, v, v.nTried), v, BucketCount(v));
  }

  // Every stream that does not throw is read into a state that keeps the invariant exactly
  // when no address is shared by an entry that stays.
  lemma LoadedValidIff(L: Layout, clear: State, v: Saved)
    requires IsClear(L, clear) && !Throws(L, v)
    ensures Core(L, Loaded(L, clear, v), {}, 0)
    ensures O.Valid(L, Loaded(L, clear, v)) <==> SharedArePruned(BeforePruning(L, clear, v))
  {
    hide Core, DomainOk, Below, Latest, Pruned, Loaded, BeforePruning, AddrsOk, SharedArePruned, RandomOk, PrunedTo, Inv, Throws;
    BeforePruningCore(L, clear, v);
    var c := BeforePruning(L, clear, v);
    CoreRandom(L, c, Below(v.nNew), 0);
    var t := Pruned(c, c.nIdCount);
    PrunedCore(L, c, v.nNew, c.nIdCount);
    assert Below(v.nNew) - Below(c.nIdCount) == {} by { NothingLoose(v.nNew, c.nIdCount); }
    PrunedIs(c, c.nIdCount);
    AddrsIff(c, t);
    InvIff(L, t, {}, 0);
  }

  lemma CoreRandom(L: Layout, s: State, loose: set<int>, ahead: int)
    requires Core(L, s, loose, ahead)
    ensures RandomOk(s) && s.nIdCount >= 0 && forall id :: id in s.info ==> 0 <= id < s.nIdCount
  {
  }

  lemma NothingLoose(m: nat, n: nat)
    requires m <= n
    ensures Below(m) - Below(n) == {}
  {
  }

  lemma AddrsIff(c: State, t: State)
    requires Latest(c) && c.nIdCount >= 0 && (forall id :: id in c.info ==> 0 <= id < c.nIdCount)
    requires PrunedTo(c, t, c.nIdCount)
    ensures AddrsOk(t) <==> SharedArePruned(c)
  {
    if AddrsOk(t) {
      forall i, j | i in c.info && j in c.info && i != j && c.info[i].service.net == c.info[j].service.net
        ensures Unreferenced(c, i)
      {
        SharedIsPruned(c, t, i, j);
      }
    }
    if SharedArePruned(c) {
      forall id | id in t.info
        ensures t.info[id].service.net in t.addrs && t.addrs[t.info[id].service.net] == id
      {
        var a := c.info[id].service.net;
        assert c.addrs[a] == id;
      }
    }
  }

  lemma SharedIsPruned(c: State, t: State, i: int, j: int)
    requires (forall id :: id in c.info ==> 0 <= id < c.nIdCount) && c.nIdCount >= 0 && PrunedTo(c, t, c.nIdCount) && AddrsOk(t)
    requires i in c.info && j in c.info && i != j && c.info[i].service.net == c.info[j].service.net
    ensures Unreferenced(c, i)
  {
  }

  // ---------- streams without and with a repeated address ----------

  // The entries have different addresses, each that of one of the first n records.
  ghost predicate NetsFrom(s: State, v: Saved, n: nat)
    requires n <= |v.infos|
  {
    && (forall i, j :: i in s.info && j in s.info && i != j ==> s.info[i].service.net != s.info[j].service.net)
    && forall id :: id in s.info ==> exists k :: 0 <= k < n && v.infos[k].service.net == s.info[id].service.net
  }

  // At most one entry is new, with this address.
  ghost predicate Grows(s: State, t: State, service: Service) {
    forall id :: id in t.info ==>
      if id in s.info then t.info[id].service == s.info[id].service
      else id == s.nIdCount && t.info[id].service == service
  }

  lemma LoadGrows(L: Layout, s: State, r: Record, direct: bool)
    requires s.nIdCount !in s.info
    ensures Grows(s, LoadNew(L, s, r, direct), r.service) && Grows(s, LoadTried(L, s, r), r.service)
  {
  }

  lemma NetsStep(s: State, t: State, v: Saved, n: nat)
    requires n < |v.infos| && n < v.nNew + v.nTried && DistinctNets(v) && NetsFrom(s, v, n)
    requires Grows(s, t, v.infos[n].service)
    ensures NetsFrom(t, v, n + 1)
  {
    forall id | id in t.info
      ensures exists k :: 0 <= k < n + 1 && v.infos[k].service.net == t.info[id].service.net
    {
      if id in s.info {
        var k :| 0 <= k < n && v.infos[k].service.net == s.info[id].service.net;
        assert v.infos[k].service.net == t.info[id].service.net;
      }
    }
  }

  lemma {:induction false} NewLoadedNets(L: Layout, clear: State, v: Saved, n: nat)
    requires IsClear(L, clear) && n <= |v.infos| && n <= v.nNew && DistinctNets(v)
    ensures NetsFrom(NewLoaded(L, clear.(nNew := v.nNew), v, n), v, n)
  {
    hide NetsFrom, DistinctNets, Core, Below, Latest, NewOnes, DomainOk, LoadNew, Grows;
    if n == 0 {
      NoNets(clear.(nNew := v.nNew), v);
    } else {
      NewLoadedNets(L, clear, v, n - 1);
      NewLoadedCore(L, clear, v, n - 1);
      var t := NewLoaded(L, clear.(nNew := v.nNew), v, n - 1);
      NextIsNew(L, t, Below(n - 1), n - 1 - v.nNew);
      LoadGrows(L, t, v.infos[n - 1], !Usable(L, v));
      NetsStep(t, NewLoaded(L, clear.(nNew := v.nNew), v, n), v, n - 1);
    }
  }

  lemma NoNets(s: State, v: Saved)
    requires s.info == map[]
    ensures NetsFrom(s, v, 0)
  {
  }

  lemma {:induction false} TriedLoadedNets(L: Layout, s: State, v: Saved, n: nat)
    requires v.nNew + n <= |v.infos| && n <= v.nTried && DistinctNets(v) && NetsFrom(s, v, v.nNew)
    requires Shape(L, s) && Core(L, s, Below(v.nNew), 0) && s.nIdCount >= v.nNew && s.nNew == v.nNew && NewOnes(s, v.nNew) && Latest(s)
    ensures NetsFrom(TriedLoaded(L, s, v, n), v, v.nNew + n)
  {
    hide NetsFrom, DistinctNets, Core, Below, Latest, NewOnes, DomainOk, LoadTried, Grows;
    if n > 0 {
      TriedLoadedNets(L, s, v, n - 1);
      TriedLoadedCore(L, s, v, n - 1);
      var t := TriedLoaded(L, s, v, n - 1);
      NextIsNew(L, t, Below(v.nNew), 0);
      LoadGrows(L, t, v.infos[v.nNew + n - 1], false);
      NetsStep(t, TriedLoaded(L, s, v, n), v, v.nNew + n - 1);
    }
  }

  // Without a repeated address the invariant holds.
  lemma LoadedValid(L: Layout, clear: State, v: Saved)
    requires IsClear(L, clear) && !Throws(L, v) && DistinctNets(v)
    ensures O.Valid(L, Loaded(L, clear, v))
  {
    hide Core, DomainOk, Below, NewOnes, Latest, NewLoaded, TriedLoaded, BucketsLoaded, NetsFrom, Loaded, Inv;
    NewLoadedCore(L, clear, v, v.nNew);
    NewLoadedNets(L, clear, v, v.nNew);
    var a := NewLoaded(L, clear.(nNew := v.nNew), v, v.nNew);
    TriedLoadedCore(L, a, v, v.nTried);
    TriedLoadedNets(L, a, v, v.nTried);
    var b := TriedLoaded(L, a, v, v.nTried);
    BucketsLoadedCore(L, b, v, BucketCount(v));
    NoneShared(b, BeforePruning(L, clear, v), v);
    LoadedValidIff(L, clear, v);
  }

  lemma NoneShared(b: State, c: State, v: Saved)
    requires v.nNew + v.nTried <= |v.infos| && NetsFrom(b, v, v.nNew + v.nTried) && SameNets(b, c)
    ensures SharedArePruned(c)
  {
  }

  // One address as a new and as a tried entry: accepted, and the index misses the new entry.
  lemma RepeatedAddress(L: Layout, clear: State, r: Record)
    requires IsClear(L, clear)
    ensures var v := Saved(0, 32, 1, 1, 0, [r, r], []);
            && !Throws(L, v) && !SharedArePruned(BeforePruning(L, clear, v)) && !O.Valid(L, Loaded(L, clear, v))
  {
    hide Core, LoadNew, LoadTried, Loaded, Inv;
    var v := Saved(0, 32, 1, 1, 0, [r, r], []);
    RoomForOneEach(L, r);
    var s0 := clear.(nNew := 1);
    var a := LoadNew(L, s0, r, true);
    FirstNew(L, clear, s0, r);
    ThenTried(L, clear, a, r);
    var b := LoadTried(L, a, r);
    assert NewLoaded(L, s0, v, 0) == s0 && NewLoaded(L, s0, v, 1) == a;
    assert TriedLoaded(L, a, v, 0) == a && TriedLoaded(L, a, v, 1) == b;
    assert BeforePruning(L, clear, v) == b;
    assert !Unreferenced(b, 0);
    LoadedValidIff(L, clear, v);
  }

  lemma FirstNew(L: Layout, clear: State, s0: State, r: Record)
    requires IsClear(L, clear) && s0 == clear.(nNew := 1)
    ensures var a := LoadNew(L, s0, r, true);
            && 0 in a.info && a.info[0].service == r.service && a.info[0].nRefCount == 1
            && a.tried == clear.tried && a.nIdCount == 1
  {
    hide Inv;
    SlotsInDomain(L, clear, r.service);
  }

  lemma ThenTried(L: Layout, clear: State, a: State, r: Record)
    requires IsClear(L, clear) && a.tried == clear.tried && a.nIdCount == 1 && 0 in a.info
    ensures var b := LoadTried(L, a, r);
            0 in b.info && 1 in b.info && b.info[0] == a.info[0] && b.info[1].service == r.service
  {
    hide Inv;
    SlotsInDomain(L, clear, r.service);
  }

  lemma RoomForOneEach(L: Layout, r: Record)
    requires L.Valid()
    ensures L.newBuckets * L.bucketSize >= 1 && L.triedBuckets * L.bucketSize >= 1
  {
    assert L.newBucketOf(r.service, r.source) < L.newBuckets && L.triedBucketOf(r.service) < L.triedBuckets;
    assert L.positionOf(r.service, true, 0) < L.bucketSize;
  }

  // ---------- which records are kept ----------

  // The first of n records that belongs in slot k, or -1: of the tried ones from nNew on, or of
  // the new ones by their own source.
  function FirstTried(L: Layout, v: Saved, n: nat, k: Slot): (j: int)
    requires v.nNew + n <= |v.infos|
    ensures -1 <= j < n && (j >= 0 ==> L.TriedSlot(v.infos[v.nNew + j].service) == k)
    ensures forall i :: v.nNew <= i < v.nNew + n && L.TriedSlot(v.infos[i].service) == k ==> 0 <= j <= i - v.nNew
  {
    if n == 0 then -1
    else if FirstTried(L, v, n - 1, k) >= 0 then FirstTried(L, v, n - 1, k)
    else if L.TriedSlot(v.infos[v.nNew + n - 1].service) == k then n - 1
    else -1
  }

  function FirstNewHome(L: Layout, v: Saved, n: nat, k: Slot): (j: int)
    requires n <= |v.infos|
    ensures -1 <= j < n && (j >= 0 ==> HomeSlot(L, InfoFrom(v.infos[j])) == k)
    ensures forall i :: 0 <= i < n && HomeSlot(L, InfoFrom(v.infos[i])) == k ==> 0 <= j <= i
  {
    if n == 0 then -1
    else if FirstNewHome(L, v, n - 1, k) >= 0 then FirstNewHome(L, v, n - 1, k)
    else if HomeSlot(L, InfoFrom(v.infos[n - 1])) == k then n - 1
    else -1
  }

  // Entry id of t is tried, from record r.
  predicate TriedFrom(t: State, id: int, r: Record) {
    id in t.info && t.info[id].fInTried && RecordOf(t.info[id]) == r
  }

  lemma TriedStep(L: Layout, s: State, r: Record, k: Slot)
    ensures var t, id := LoadTried(L, s, r), Cell(s.tried, k);
            && t.nIdCount >= s.nIdCount && (id != EMPTY || L.TriedSlot(r.service) != k ==> Cell(t.tried, k) == id)
            && (id == EMPTY && L.TriedSlot(r.service) == k ==>
                  Cell(t.tried, k) == s.nIdCount < t.nIdCount && TriedFrom(t, s.nIdCount, r))
            && (forall i, q :: i < s.nIdCount && TriedFrom(s, i, q) ==> TriedFrom(t, i, q))
  {
  }

  // A tried slot gets the first record that belongs there; the others for it are lost.
  lemma {:induction false} TriedGetsFirst(L: Layout, s: State, v: Saved, n: nat, k: Slot)
    requires v.nNew + n <= |v.infos| && s.nIdCount >= 0 && Cell(s.tried, k) == EMPTY
    ensures var t, j := TriedLoaded(L, s, v, n), FirstTried(L, v, n, k);
            && t.nIdCount >= s.nIdCount
            && if j < 0 then Cell(t.tried, k) == EMPTY
               else s.nIdCount <= Cell(t.tried, k) < t.nIdCount && TriedFrom(t, Cell(t.tried, k), v.infos[v.nNew + j])
  {
    hide LoadTried, TriedFrom, Cell;
    if n > 0 {
      TriedGetsFirst(L, s, v, n - 1, k);
      TriedStep(L, TriedLoaded(L, s, v, n - 1), v.infos[v.nNew + n - 1], k);
    }
  }

  // Entry id of t is new with one reference, from record r.
  predicate NewFrom(t: State, id: int, r: Record) {
    id in t.info && t.info[id].nRefCount == 1 && RecordOf(t.info[id]) == r
  }

  lemma NewStep(L: Layout, s: State, r: Record, k: Slot)
    ensures var t, id := LoadNew(L, s, r, true), Cell(s.news, k);
            && t.nIdCount == s.nIdCount + 1 && (id != EMPTY || HomeSlot(L, InfoFrom(r)) != k ==> Cell(t.news, k) == id)
            && (id == EMPTY && HomeSlot(L, InfoFrom(r)) == k ==> Cell(t.news, k) == s.nIdCount && NewFrom(t, s.nIdCount, r))
            && (forall i, q :: i < s.nIdCount && NewFrom(s, i, q) ==> NewFrom(t, i, q))
  {
  }

  // When the positions cannot be used, so does the slot a new record's own source leads to.
  lemma {:induction false} NewGetsFirst(L: Layout, s: State, v: Saved, n: nat, k: Slot)
    requires n <= |v.infos| && s.nIdCount >= 0 && Cell(s.news, k) == EMPTY && !Usable(L, v)
    ensures var t, j := NewLoaded(L, s, v, n), FirstNewHome(L, v, n, k);
            && t.nIdCount == s.nIdCount + n
            && if j < 0 then Cell(t.news, k) == EMPTY
               else Cell(t.news, k) == s.nIdCount + j && NewFrom(t, s.nIdCount + j, v.infos[j])
  {
    hide LoadNew, NewFrom, Cell, HomeSlot, Usable;
    if n > 0 {
      NewGetsFirst(L, s, v, n - 1, k);
      NewStep(L, NewLoaded(L, s, v, n - 1), v.infos[n - 1], k);
    }
  }
}
