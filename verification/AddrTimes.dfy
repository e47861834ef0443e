/**
 * The times kept by the address manager (src/addrman.cpp): what clauses -1, -6 and -8 of
 * Check_ ask of them survives every operation that is given a sensible clock.
 */
module AddrTimes {
  import opened AddrTables
  import opened AddrState
  import opened AddrCheck
  import O = AddrOps
  import D = AddrDisk

  // No entry is new, none has become tried, and the times are the same.
  ghost predicate Calm(a: Infos, b: Infos) {
    forall id :: id in b ==>
      && id in a && b[id].nLastTry == a[id].nLastTry && b[id].nLastSuccess == a[id].nLastSuccess
      && (b[id].fInTried ==> a[id].fInTried)
  }

  lemma CalmKeeps(a: Infos, b: Infos)
    requires TimesOk(a) && Calm(a, b)
    ensures TimesOk(b)
  {
  }

  lemma ClearNewCalm(L: Layout, s: State, sl: Slot, loose: set<int>, ahead: int)
    requires Inv(L, s, loose, ahead) && sl in s.news
    ensures Calm(s.info, ClearNew(s, sl).info)
  {
    hide NewOk, TriedOk, IndexOk, LiveOk, CountsOk, ClearNew;
    ClearNewFrame(L, s, sl, loose, ahead);
    if s.news[sl] != EMPTY { OccupantKnown(L, s, sl); }
  }

  lemma EvictCalm(L: Layout, s: State, k: Slot, loose: set<int>, ahead: int)
    requires Inv(L, s, loose, ahead) && Cell(s.tried, k) != EMPTY && Shape(L, s)
    ensures Calm(s.info, Evict(L, s, k).info)
  {
    hide Inv, ClearNew, DomainOk;
    EvictMiddle(L, s, k, loose, ahead);
    DemoteInv(L, s, k, loose, ahead);
    var id := s.tried[k];
    ClearNewCalm(L, Demote(s, k), HomeSlot(L, s.info[id]), loose + {id}, ahead + 1);
  }

  lemma MakeTriedTimes(L: Layout, s: State, id: int)
    requires O.Valid(L, s) && id in s.info && !s.info[id].fInTried
    requires TimesOk(s.info) && s.info[id].nLastSuccess > 0
    ensures TimesOk(MakeTried(L, s, id).info)
  {
    hide Inv, Evict, DrainAll, DomainOk;
    DrainAllInv(L, s, id);
    var t, k := DrainAll(L, s, id), L.TriedSlot(s.info[id].service);
    if Cell(t.tried, k) != EMPTY {
      EvictCalm(L, t, k, {id}, 1);
      EvictKeepsDrained(L, t, k, id);
      CalmKeeps(t.info, Evict(L, t, k).info);
    }
  }

  lemma GoodTimes(L: Layout, s: State, service: Service, time: int)
    requires O.Valid(L, s) && TimesOk(s.info) && time > 0
    ensures TimesOk(O.Good(L, s, service, time).info)
  {
    hide Inv, MakeTried;
    if O.Hits(s, service) && !s.info[s.addrs[service.net]].fInTried {
      var id := s.addrs[service.net];
      var t := s.(info := s.info[id := O.Succeeded(s.info[id], time)]);
      O.UpdateInv(L, s, id, t.info[id], {}, 0);
      MakeTriedTimes(L, t, id);
    }
  }

  lemma PlaceTimes(L: Layout, s: State, id: int, source: NetAddr, now: int)
    requires Inv(L, s, {id}, 0) && Shape(L, s) && id in s.info && TimesOk(s.info) && !s.info[id].fInTried
    ensures TimesOk(O.Place(L, s, id, source, now).info)
  {
    hide Inv, ClearNew, Delete, DomainOk, O.Yields;
    var u := SlotFor(L, s.info[id], source);
    SlotsInDomain(L, s, s.info[id].service);
    ClearNewCalm(L, s, u, {id}, 0);
    ClearNewFrameId(L, s, u, id);
    CalmKeeps(s.info, ClearNew(s, u).info);
    O.VRandomKnown(L, s, {id}, 0);
    DeleteFrame(s, id);
    CalmKeeps(s.info, Delete(s, id).info);
  }

  // An entry that does not hold the slot survives clearing it.
  lemma ClearNewFrameId(L: Layout, s: State, u: Slot, id: int)
    requires Inv(L, s, {id}, 0) && u in s.news && id in s.info
    ensures s.news[u] != id ==> id in ClearNew(s, u).info
  {
    hide NewOk, TriedOk, IndexOk, LiveOk, CountsOk, ClearNew;
    ClearNewFrame(L, s, u, {id}, 0);
  }

  lemma AddTimes(L: Layout, s: State, addr: O.Address, source: NetAddr, penalty: int, now: int, rnd: nat)
    requires O.Valid(L, s) && TimesOk(s.info)
    ensures TimesOk(O.Add(L, s, addr, source, penalty, now, rnd).info)
  {
    hide Inv, O.Place, DomainOk, O.WantsReference;
    var pen := if addr.service.net == source then 0 else penalty;
    O.AddrsKnown(L, s);
    if addr.service.net in s.addrs {
      var id := s.addrs[addr.service.net];
      var i := O.Refreshed(s.info[id], addr, pen, now);
      O.RefreshedRole(s.info[id], addr, pen, now);
      O.UpdateInv(L, s, id, i, {}, 0);
      var t := s.(info := s.info[id := i]);
      if O.WantsReference(i, addr, rnd) {
        O.BelowMaximum(L, t, id, addr, rnd);
        Loosen(L, t, {}, {id}, 0);
        PlaceTimes(L, t, id, source, now);
      }
    } else {
      var i := O.FreshInfo(addr, source, pen);
      CreateInv(L, s, i, {}, 0);
      var c := Create(s, i);
      O.CreatedInv(L, s, c.(nNew := c.nNew + 1), i, s.nIdCount);
      PlaceTimes(L, c.(nNew := c.nNew + 1), s.nIdCount, source, now);
    }
  }

  lemma KeptTimes(a: Infos, b: Infos)
    requires TimesOk(a) && Kept(a, b, {})
    ensures TimesOk(b)
  {
    CalmKeeps(a, b);
  }

  lemma MatchesTimes(s: State, t: State)
    requires TimesOk(s.info) && D.Matches(s, t)
    ensures TimesOk(t.info)
  {
    forall j | j in t.info
      ensures EntryTimes(t.info[j])
    {
      var id :| id in s.info && D.Rho(s, id) == j;
    }
  }
}
