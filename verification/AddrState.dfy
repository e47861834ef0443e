/**
 * The operations of CAddrMan (src/addrman.cpp) as functions on its state, and the proof
 * that each keeps the structural clauses of CAddrMan::Check_.
 *
 * Lookups are total, as mapInfo[id] is in the source; the invariant makes the defaults
 * unreachable.
 */
module AddrState {
  import opened AddrTables

  datatype State = State(
    nIdCount: int,
    info: Infos,
    addrs: map<NetAddr, int>,
    vRandom: seq<int>,
    news: Table,
    tried: Table,
    nNew: int,
    nTried: int)

  const NO_INFO := AddrInfo(Service(0, 0), 0, {}, 0, 0, 0, 0, 0, 0, false, -1)

  function InfoOf(s: State, id: int): AddrInfo {
    if id in s.info then s.info[id] else NO_INFO
  }

  function Cell(t: Table, sl: Slot): int {
    if sl in t then t[sl] else EMPTY
  }

  // Check_, except that the entries in `loose` may be unreferenced and nNew may lag behind
  // the number of new entries by `ahead`.
  ghost predicate Inv(L: Layout, s: State, loose: set<int>, ahead: int) {
    && 0 <= s.nIdCount
    && IndexOk(s.info, s.addrs, s.vRandom, s.nIdCount)
    && NewOk(L, s.info, s.news)
    && TriedOk(L, s.info, s.tried)
    && CountsOk(s.info, s.nNew, s.nTried, ahead)
    && LiveOk(s.info, loose)
  }

  // An entry that is gone, tried or referenced need not be loose.
  lemma Tighten(L: Layout, s: State, loose: set<int>, id: int, ahead: int)
    requires Inv(L, s, loose + {id}, ahead)
    requires id in s.info ==> s.info[id].fInTried || s.info[id].nRefCount >= 1
    ensures Inv(L, s, loose, ahead)
  {
  }

  lemma Loosen(L: Layout, s: State, loose: set<int>, looser: set<int>, ahead: int)
    requires Inv(L, s, loose, ahead) && loose <= looser
    ensures Inv(L, s, looser, ahead)
  {
  }

  // ---------- Create, SwapRandom, Delete, ClearNew ----------

  function Create(s: State, i: AddrInfo): State {
    var id := s.nIdCount;
    s.(nIdCount := id + 1,
       info := s.info[id := i.(nRandomPos := |s.vRandom|)],
       addrs := s.addrs[i.service.net := id],
       vRandom := s.vRandom + [id])
  }

  lemma CreateInv(L: Layout, s: State, i: AddrInfo, loose: set<int>, ahead: int)
    requires Inv(L, s, loose, ahead)
    requires i.service.net !in s.addrs && i.nRefCount == 0 && !i.fInTried
    ensures Inv(L, Create(s, i), loose + {s.nIdCount}, ahead + 1)
    ensures s.nIdCount !in s.info
  {
    PushKeepsIndex(s.info, s.addrs, s.vRandom, s.nIdCount, i.(nRandomPos := |s.vRandom|));
    CreateKeeps(L, s.info, s.nIdCount, i.(nRandomPos := |s.vRandom|), s.news, s.tried, loose);
  }

  function SwapRandom(s: State, i: int, j: int): State {
    if i == j || !(0 <= i < |s.vRandom|) || !(0 <= j < |s.vRandom|) then s
    else
      var id1, id2 := s.vRandom[i], s.vRandom[j];
      var t := s.(info := s.info[id1 := InfoOf(s, id1).(nRandomPos := j)]);
      t.(info := t.info[id2 := InfoOf(t, id2).(nRandomPos := i)],
         vRandom := s.vRandom[i := id2][j := id1])
  }

  lemma SwapRandomInv(L: Layout, s: State, i: int, j: int, loose: set<int>, ahead: int)
    requires Inv(L, s, loose, ahead)
    ensures Inv(L, SwapRandom(s, i, j), loose, ahead)
    ensures SameRoles(s.info, SwapRandom(s, i, j).info)
  {
    if i != j && 0 <= i < |s.vRandom| && 0 <= j < |s.vRandom| {
      SwapKeepsIndex(s.info, s.addrs, s.vRandom, s.nIdCount, i, j);
      SameRolesKeep(L, s.info, SwapRandom(s, i, j).info, s.news, s.tried, loose);
    }
  }

  function Delete(s: State, id: int): State {
    var t := SwapRandom(s, InfoOf(s, id).nRandomPos, |s.vRandom| - 1);
    t.(vRandom := if |t.vRandom| == 0 then [] else t.vRandom[..|t.vRandom| - 1],
       addrs := t.addrs - {InfoOf(t, id).service.net},
       info := t.info - {id},
       nNew := t.nNew - 1)
  }

  lemma DeleteInv(L: Layout, s: State, id: int, loose: set<int>, ahead: int)
    requires Inv(L, s, loose, ahead)
    requires id in s.info && !s.info[id].fInTried && s.info[id].nRefCount == 0
    ensures Inv(L, Delete(s, id), loose - {id}, ahead)
  {
    hide NewOk, TriedOk, LiveOk, CountsOk, SwapRandom;
    var n := |s.vRandom| - 1;
    var t := SwapRandom(s, s.info[id].nRandomPos, n);
    SwapRandomInv(L, s, s.info[id].nRandomPos, n, loose, ahead);
    SwapToLast(s, id);
    DeleteLast(L, t, id, loose, ahead);
  }

  lemma SwapToLast(s: State, id: int)
    requires IndexOk(s.info, s.addrs, s.vRandom, s.nIdCount) && id in s.info
    ensures var t := SwapRandom(s, s.info[id].nRandomPos, |s.vRandom| - 1);
            |t.vRandom| == |s.vRandom| > 0 && t.vRandom[|t.vRandom| - 1] == id
  {
  }

  lemma DeleteLast(L: Layout, t: State, id: int, loose: set<int>, ahead: int)
    requires Inv(L, t, loose, ahead)
    requires id in t.info && !t.info[id].fInTried && t.info[id].nRefCount == 0
    requires |t.vRandom| > 0 && t.vRandom[|t.vRandom| - 1] == id
    ensures Inv(L,
                t.(vRandom := t.vRandom[..|t.vRandom| - 1], addrs := t.addrs - {t.info[id].service.net},
                   info := t.info - {id}, nNew := t.nNew - 1),
                loose - {id}, ahead)
  {
    hide NewOk, TriedOk, LiveOk, IndexOk;
    PopKeepsIndex(t.info, t.addrs, t.vRandom, t.nIdCount, id);
    DeleteKeeps(L, t.info, id, t.news, t.tried, loose);
  }

  function Unreference(s: State, sl: Slot): State {
    var id := Cell(s.news, sl);
    var i := InfoOf(s, id);
    s.(info := s.info[id := i.(nRefCount := i.nRefCount - 1)], news := s.news[sl := EMPTY])
  }

  lemma UnreferenceInv(L: Layout, s: State, sl: Slot, loose: set<int>, ahead: int)
    requires Inv(L, s, loose, ahead) && Cell(s.news, sl) != EMPTY
    ensures Inv(L, Unreference(s, sl), loose + {s.news[sl]}, ahead)
    ensures s.info[s.news[sl]].nRefCount >= 1 && !s.info[s.news[sl]].fInTried
  {
    hide IndexOk, TriedOk;
    var t, id := Unreference(s, sl), s.news[sl];
    assert id in s.info;
    DropRef(L, s.info, s.news, sl);
    assert NewOk(L, t.info, t.news);
    LiveAfterSet(s.info, id, t.info[id], loose);
    SamePlacesKeep(L, s.info, t.info, s.addrs, s.vRandom, s.nIdCount, s.tried);
  }

  function ClearNew(s: State, sl: Slot): State {
    var id := Cell(s.news, sl);
    if id == EMPTY then s
    else
      var t := Unreference(s, sl);
      if InfoOf(t, id).nRefCount == 0 then Delete(t, id) else t
  }

  lemma ClearNewInv(L: Layout, s: State, sl: Slot, loose: set<int>, ahead: int)
    requires Inv(L, s, loose, ahead)
    ensures Inv(L, ClearNew(s, sl), loose, ahead)
  {
    if Cell(s.news, sl) != EMPTY {
      UnreferenceInv(L, s, sl, loose, ahead);
      var t, id := Unreference(s, sl), s.news[sl];
      if t.info[id].nRefCount == 0 {
        DeleteInv(L, t, id, loose + {id}, ahead);
        Loosen(L, Delete(t, id), loose + {id} - {id}, loose + {id}, ahead);
      }
      Tighten(L, ClearNew(s, sl), loose, id, ahead);
    }
  }

  // The entries of b are those of a but for the ids in `gone`, up to their place in vRandom.
  ghost predicate Kept(a: Infos, b: Infos, gone: set<int>) {
    && b.Keys == a.Keys - gone
    && forall id :: id in b ==> b[id] == a[id].(nRandomPos := b[id].nRandomPos)
  }

  lemma KeptSelf(a: Infos)
    ensures Kept(a, a, {})
  {
  }

  lemma SwapRandomFrame(s: State, i: int, j: int)
    requires forall m :: 0 <= m < |s.vRandom| ==> s.vRandom[m] in s.info
    ensures Kept(s.info, SwapRandom(s, i, j).info, {})
    ensures SwapRandom(s, i, j) == s.(info := SwapRandom(s, i, j).info, vRandom := SwapRandom(s, i, j).vRandom)
    ensures |SwapRandom(s, i, j).vRandom| == |s.vRandom|
  {
  }

  lemma DeleteFrame(s: State, id: int)
    requires forall m :: 0 <= m < |s.vRandom| ==> s.vRandom[m] in s.info
    requires id in s.info
    ensures Kept(s.info, Delete(s, id).info, {id})
    ensures Delete(s, id).news == s.news && Delete(s, id).tried == s.tried
    ensures Delete(s, id).nTried == s.nTried && Delete(s, id).nNew == s.nNew - 1
    ensures Delete(s, id).addrs == s.addrs - {s.info[id].service.net}
  {
    SwapRandomFrame(s, s.info[id].nRandomPos, |s.vRandom| - 1);
  }

  // ClearNew empties the slot; its occupant loses one reference, and is forgotten if that
  // was the last.
  lemma ClearNewFrame(L: Layout, s: State, sl: Slot, loose: set<int>, ahead: int)
    requires Inv(L, s, loose, ahead) && sl in s.news
    ensures ClearNew(s, sl).news == s.news[sl := EMPTY]
    ensures ClearNew(s, sl).tried == s.tried && ClearNew(s, sl).nTried == s.nTried
    ensures s.news[sl] == EMPTY ==> ClearNew(s, sl) == s
    ensures s.news[sl] != EMPTY ==>
              Kept(Unreference(s, sl).info, ClearNew(s, sl).info,
                   if s.info[s.news[sl]].nRefCount == 1 then {s.news[sl]} else {})
  {
    if s.news[sl] == EMPTY {
      assert s.news[sl := EMPTY] == s.news;
    } else {
      UnreferenceInv(L, s, sl, loose, ahead);
      var id, t := s.news[sl], Unreference(s, sl);
      if t.info[id].nRefCount == 0 {
        DeleteFrame(t, id);
      }
    }
  }

  // ---------- MakeTried ----------

  // The loop that removes an entry from the first n new buckets.
  function Drain(L: Layout, s: State, id: int, n: nat): State {
    if n == 0 then s
    else
      var t := Drain(L, s, id, n - 1);
      var sl := L.NewSlot(InfoOf(t, id).service, n - 1);
      if Cell(t.news, sl) == id then Unreference(t, sl) else t
  }

  ghost predicate Drained(t: Table, u: Table, id: int, n: nat) {
    && u.Keys == t.Keys
    && forall sl :: sl in t ==> u[sl] == if t[sl] == id && sl.bucket < n then EMPTY else t[sl]
  }

  lemma {:induction false} DrainFrame(L: Layout, s: State, id: int, n: nat)
    requires id in s.info && id != EMPTY
    requires forall sl :: sl in s.news && s.news[sl] == id ==> sl == L.NewSlot(s.info[id].service, sl.bucket)
    ensures var t := Drain(L, s, id, n);
            && id in t.info
            && Drained(s.news, t.news, id, n)
            && t == s.(news := t.news, info := s.info[id := s.info[id].(nRefCount := t.info[id].nRefCount)])
  {
    if n == 0 {
      assert s.info[id := s.info[id]] == s.info;
    } else {
      DrainFrame(L, s, id, n - 1);
    }
  }

  lemma {:induction false} DrainInv(L: Layout, s: State, id: int, n: nat, ahead: int)
    requires Inv(L, s, {id}, ahead) && id in s.info && id != EMPTY
    ensures Inv(L, Drain(L, s, id, n), {id}, ahead)
  {
    if n > 0 {
      DrainInv(L, s, id, n - 1, ahead);
      var t := Drain(L, s, id, n - 1);
      var sl := L.NewSlot(InfoOf(t, id).service, n - 1);
      if Cell(t.news, sl) == id {
        UnreferenceInv(L, t, sl, {id}, ahead);
        assert {id} + {id} == {id};
      }
    }
  }

  // The whole loop, and the decrement of nNew after it.
  function DrainAll(L: Layout, s: State, id: int): State {
    var t := Drain(L, s, id, L.newBuckets);
    t.(nNew := t.nNew - 1)
  }

  lemma DrainAllInv(L: Layout, s: State, id: int)
    requires Inv(L, s, {}, 0) && id in s.info && !s.info[id].fInTried && Shape(L, s)
    ensures Inv(L, DrainAll(L, s, id), {id}, 1)
    ensures DrainAll(L, s, id) ==
              s.(info := s.info[id := s.info[id].(nRefCount := 0)], news := DrainAll(L, s, id).news, nNew := s.nNew - 1)
    ensures Drained(s.news, DrainAll(L, s, id).news, id, L.newBuckets)
    ensures Shape(L, DrainAll(L, s, id))
  {
    Loosen(L, s, {}, {id}, 0);
    DrainInv(L, s, id, L.newBuckets, 0);
    DrainFrame(L, s, id, L.newBuckets);
    var t := Drain(L, s, id, L.newBuckets);
    assert RefOk(L, t.info[id], t.news, id);
    assert Holders(L, t.news, t.info[id].service, id) == {};
  }

  ghost predicate Shape(L: Layout, s: State) {
    && L.Valid()
    && DomainOk(s.news, L.newBuckets, L.bucketSize)
    && DomainOk(s.tried, L.triedBuckets, L.bucketSize)
  }

  function Reference(s: State, sl: Slot, id: int): State {
    var i := InfoOf(s, id);
    s.(info := s.info[id := i.(nRefCount := i.nRefCount + 1)], news := s.news[sl := id])
  }

  lemma ReferenceInv(L: Layout, s: State, sl: Slot, id: int, loose: set<int>, ahead: int)
    requires Inv(L, s, loose + {id}, ahead)
    requires id in s.info && !s.info[id].fInTried && s.info[id].nRefCount < NEW_BUCKETS_PER_ADDRESS
    requires sl in s.news && s.news[sl] == EMPTY
    requires sl == L.NewSlot(s.info[id].service, sl.bucket) && sl.bucket < L.newBuckets
    ensures Inv(L, Reference(s, sl, id), loose, ahead)
  {
    hide IndexOk, TriedOk, LiveOk;
    var t := Reference(s, sl, id);
    assert RefOk(L, s.info[id], s.news, id);
    AddRef(L, s.info, s.news, sl, id);
    assert NewOk(L, t.info, t.news);
    LiveAfterSet(s.info, id, t.info[id], loose + {id});
    assert loose + {id} + {id} == loose + {id};
    SamePlacesKeep(L, s.info, t.info, s.addrs, s.vRandom, s.nIdCount, s.tried);
    Tighten(L, t, loose, id, ahead);
  }

  // The occupant of a tried slot leaves the tried table.
  function Demote(s: State, k: Slot): State {
    var id := Cell(s.tried, k);
    s.(info := s.info[id := InfoOf(s, id).(fInTried := false)],
       tried := s.tried[k := EMPTY],
       nTried := s.nTried - 1)
  }

  lemma DemoteInv(L: Layout, s: State, k: Slot, loose: set<int>, ahead: int)
    requires Inv(L, s, loose, ahead) && Cell(s.tried, k) != EMPTY
    ensures Inv(L, Demote(s, k), loose + {s.tried[k]}, ahead + 1)
    ensures s.tried[k] in s.info && s.info[s.tried[k]].fInTried && s.info[s.tried[k]].nRefCount == 0
  {
    hide IndexOk, LiveOk;
    var t, id := Demote(s, k), s.tried[k];
    TriedDemote(L, s.info, s.tried, k);
    TriedIsUnreferenced(L, s.info, s.news, id);
    assert TriedOk(L, t.info, t.tried);
    LiveAfterSet(s.info, id, t.info[id], loose);
    RetriedKeeps(L, s.info, id, t.info[id], s.addrs, s.vRandom, s.nIdCount, s.news);
  }

  // Only fInTried of an unreferenced entry changes.
  lemma RetriedKeeps(L: Layout, a: Infos, id: int, i: AddrInfo, addrs: map<NetAddr, int>, v: seq<int>, n: int, news: Table)
    requires NewOk(L, a, news)
    requires id in a && a[id].nRefCount == 0 && i == a[id].(fInTried := i.fInTried)
    ensures NewOk(L, a[id := i], news) && (IndexOk(a, addrs, v, n) ==> IndexOk(a[id := i], addrs, v, n))
  {
    UnreferencedIsAbsent(L, a, news, id);
    var b := a[id := i];
    forall j | j in b
      ensures RefOk(L, b[j], news, j)
    {
      assert RefOk(L, a[j], news, j);
    }
  }

  // An unreferenced new entry takes a free tried slot.
  function Promote(s: State, k: Slot, id: int): State {
    s.(info := s.info[id := InfoOf(s, id).(fInTried := true)],
       tried := s.tried[k := id],
       nTried := s.nTried + 1)
  }

  lemma PromoteCounts(s: State, k: Slot, id: int, ahead: int)
    requires CountsOk(s.info, s.nNew, s.nTried, ahead) && id in s.info && !s.info[id].fInTried
    ensures CountsOk(Promote(s, k, id).info, s.nNew, s.nTried + 1, ahead - 1)
  {
    var b := Promote(s, k, id).info;
    assert TriedIds(b) == TriedIds(s.info) + {id} && NewIds(b) == NewIds(s.info) - {id};
  }

  lemma PromoteInv(L: Layout, s: State, k: Slot, id: int, loose: set<int>, ahead: int)
    requires Inv(L, s, loose + {id}, ahead)
    requires id in s.info && !s.info[id].fInTried && s.info[id].nRefCount == 0
    requires k in s.tried && s.tried[k] == EMPTY && k == L.TriedSlot(s.info[id].service)
    ensures Inv(L, Promote(s, k, id), loose, ahead - 1)
  {
    hide IndexOk, LiveOk, CountsOk;
    var t := Promote(s, k, id);
    TriedPromote(L, s.info, s.tried, k, id);
    assert TriedOk(L, t.info, t.tried);
    LiveAfterSet(s.info, id, t.info[id], loose + {id});
    assert loose + {id} + {id} == loose + {id};
    RetriedKeeps(L, s.info, id, t.info[id], s.addrs, s.vRandom, s.nIdCount, s.news);
    PromoteCounts(s, k, id, ahead);
    Tighten(L, t, loose, id, ahead - 1);
  }

  // The new slot of an entry heard of from this source.
  function SlotFor(L: Layout, i: AddrInfo, source: NetAddr): Slot {
    L.NewSlot(i.service, L.newBucketOf(i.service, source))
  }

  function HomeSlot(L: Layout, i: AddrInfo): Slot {
    SlotFor(L, i, i.source)
  }

  // A tried entry is evicted back into the new table, displacing whatever is there.
  function Evict(L: Layout, s: State, k: Slot): State {
    var id := Cell(s.tried, k);
    var u := HomeSlot(L, InfoOf(s, id));
    var t := ClearNew(Demote(s, k), u);
    t.(info := t.info[id := InfoOf(t, id).(nRefCount := 1)],
       news := t.news[u := id],
       nNew := t.nNew + 1)
  }

  // Halfway: the entry is out of the tried table and its home slot is free.
  lemma EvictMiddle(L: Layout, s: State, k: Slot, loose: set<int>, ahead: int)
    requires Inv(L, s, loose, ahead) && Cell(s.tried, k) != EMPTY
    requires L.Valid() && DomainOk(s.news, L.newBuckets, L.bucketSize)
    ensures s.tried[k] in s.info && s.info[s.tried[k]].fInTried && s.info[s.tried[k]].nRefCount == 0
    ensures var id := s.tried[k];
            var u := HomeSlot(L, s.info[id]);
            var t := ClearNew(Demote(s, k), u);
            && Inv(L, t, loose + {id}, ahead + 1)
            && u in s.news && t.news == s.news[u := EMPTY] && t.tried == s.tried[k := EMPTY]
            && id in t.info
            && t.info[id] == s.info[id].(fInTried := false, nRandomPos := t.info[id].nRandomPos)
  {
    var id, d := s.tried[k], Demote(s, k);
    DemoteInv(L, s, k, loose, ahead);
    var u := HomeSlot(L, s.info[id]);
    assert u in s.news;
    UnreferencedIsAbsent(L, d.info, d.news, id);
    ClearNewInv(L, d, u, loose + {id}, ahead + 1);
    ClearNewFrame(L, d, u, loose + {id}, ahead + 1);
  }

  lemma EvictInv(L: Layout, s: State, k: Slot, loose: set<int>, ahead: int)
    requires Inv(L, s, loose, ahead) && Cell(s.tried, k) != EMPTY
    requires L.Valid() && DomainOk(s.news, L.newBuckets, L.bucketSize)
    ensures Inv(L, Evict(L, s, k), loose, ahead)
    ensures Evict(L, s, k).tried == s.tried[k := EMPTY]
    ensures s.tried[k] in s.info && HomeSlot(L, s.info[s.tried[k]]) in s.news
    ensures Evict(L, s, k).news == s.news[HomeSlot(L, s.info[s.tried[k]]) := s.tried[k]]
  {
    hide ClearNew, Demote, NewOk, TriedOk, IndexOk, LiveOk, DomainOk;
    EvictMiddle(L, s, k, loose, ahead);
    var id := s.tried[k];
    var u := HomeSlot(L, s.info[id]);
    var t := ClearNew(Demote(s, k), u);
    ReferenceInv(L, t, u, id, loose, ahead + 1);
    assert Evict(L, s, k) == Reference(t, u, id).(nNew := t.nNew + 1);
    assert t.news[u := id] == s.news[u := id];
  }

  lemma OccupantKnown(L: Layout, s: State, sl: Slot)
    requires NewOk(L, s.info, s.news)
    ensures Cell(s.news, sl) != EMPTY ==> Cell(s.news, sl) in s.info
  {
  }

  // The displaced entry, and only that, is forgotten, if it had no other reference.
  lemma EvictFrame(L: Layout, s: State, k: Slot, loose: set<int>, ahead: int)
    requires Inv(L, s, loose, ahead) && Cell(s.tried, k) != EMPTY
    requires L.Valid() && DomainOk(s.news, L.newBuckets, L.bucketSize)
    ensures s.tried[k] in s.info && HomeSlot(L, s.info[s.tried[k]]) in s.news
    ensures Evict(L, s, k).info.Keys == s.info.Keys - Displaced(s, HomeSlot(L, s.info[s.tried[k]]))
    ensures forall j :: j in Evict(L, s, k).info && j != s.tried[k] && j != s.news[HomeSlot(L, s.info[s.tried[k]])] ==>
              Evict(L, s, k).info[j] == s.info[j].(nRandomPos := Evict(L, s, k).info[j].nRandomPos)
  {
    hide ClearNew, NewOk, TriedOk, IndexOk, LiveOk, DomainOk, CountsOk;
    EvictMiddle(L, s, k, loose, ahead);
    OccupantKnown(L, s, HomeSlot(L, s.info[s.tried[k]]));
    DemoteInv(L, s, k, loose, ahead);
    var id, d := s.tried[k], Demote(s, k);
    var u := HomeSlot(L, s.info[id]);
    ClearNewFrame(L, d, u, loose + {id}, ahead + 1);
    UnreferencedIsAbsent(L, d.info, d.news, id);
  }

  // The occupant of a new slot, if clearing the slot would forget it.
  function Displaced(s: State, u: Slot): set<int> {
    if Cell(s.news, u) != EMPTY && InfoOf(s, Cell(s.news, u)).nRefCount == 1 then {Cell(s.news, u)} else {}
  }

  function MakeTried(L: Layout, s: State, id: int): State {
    var t := DrainAll(L, s, id);
    var k := L.TriedSlot(InfoOf(t, id).service);
    Promote(if Cell(t.tried, k) != EMPTY then Evict(L, t, k) else t, k, id)
  }

  lemma SlotsInDomain(L: Layout, s: State, service: Service)
    requires Shape(L, s)
    ensures L.TriedSlot(service) in s.tried
    ensures forall b: nat :: b < L.newBuckets ==> L.NewSlot(service, b) in s.news
    ensures forall src: NetAddr :: L.NewSlot(service, L.newBucketOf(service, src)) in s.news
  {
  }

  // After an eviction the entry being moved is still there, untouched.
  lemma EvictKeepsDrained(L: Layout, s: State, k: Slot, id: int)
    requires Inv(L, s, {id}, 1) && Cell(s.tried, k) != EMPTY && Shape(L, s)
    requires id in s.info && !s.info[id].fInTried && s.info[id].nRefCount == 0
    ensures id in Evict(L, s, k).info
    ensures Evict(L, s, k).info[id] == s.info[id].(nRandomPos := Evict(L, s, k).info[id].nRandomPos)
  {
    hide Evict;
    UnreferencedIsAbsent(L, s.info, s.news, id);
    EvictFrame(L, s, k, {id}, 1);
  }

  // Everything MakeTried's asserts claim, and what it does to the tables.
  lemma MakeTriedInv(L: Layout, s: State, id: int)
    requires Inv(L, s, {}, 0) && id in s.info && !s.info[id].fInTried && Shape(L, s)
    ensures Inv(L, MakeTried(L, s, id), {}, 0)
    ensures MakeTried(L, s, id).tried == s.tried[L.TriedSlot(s.info[id].service) := id]
    ensures id in MakeTried(L, s, id).info && MakeTried(L, s, id).info[id].fInTried
  {
    hide Evict, DrainAll, NewOk, TriedOk, IndexOk, LiveOk, DomainOk, CountsOk;
    var k := L.TriedSlot(s.info[id].service);
    SlotsInDomain(L, s, s.info[id].service);
    DrainAllInv(L, s, id);
    var t := DrainAll(L, s, id);
    var e := t;
    if Cell(t.tried, k) != EMPTY {
      EvictInv(L, t, k, {id}, 1);
      EvictKeepsDrained(L, t, k, id);
      e := Evict(L, t, k);
    }
    assert {} + {id} == {id};
    PromoteInv(L, e, k, id, {}, 1);
    assert s.tried[k := EMPTY][k := id] == s.tried[k := id];
  }

  // Why the "no bucket is found" exit of Good_ is dead: some bucket holds a new entry at
  // its own position ...
  lemma InNewTable(L: Layout, s: State, id: int) returns (b: nat)
    requires Inv(L, s, {}, 0) && id in s.info && !s.info[id].fInTried
    ensures b < L.newBuckets && L.NewSlot(s.info[id].service, b) in s.news && s.news[L.NewSlot(s.info[id].service, b)] == id
  {
    b := ReferencedIsFound(L, s.info, s.news, id);
  }

  // ... and probing from a random start visits every bucket.
  function Probe(n: nat, start: nat, buckets: nat): int {
    if n + start < buckets then n + start else n + start - buckets
  }

  lemma ProbeIsMod(n: nat, start: nat, buckets: nat)
    requires n < buckets && start < buckets
    ensures (n + start) % buckets == Probe(n, start, buckets)
  {
  }

  lemma ProbeVisits(start: nat, buckets: nat, b: nat) returns (n: nat)
    requires b < buckets && start < buckets
    ensures n < buckets && Probe(n, start, buckets) == b
  {
    n := if b >= start then b - start else b + buckets - start;
  }
}
