/**
 * What Add_ and Good_ of CAddrMan (src/addrman.cpp) make of a report, entry by entry and slot by
 * slot, and what the statistics of an entry mean.
 */
module AddrReports {
  import opened AddrTables
  import opened AddrState
  import opened AddrOps
  import opened Powers

  // Every entry but this one is as it was, up to its place in the random order; the occupant
  // of a slot that was taken over has lost a reference, and is gone if it was its last.
  ghost predicate Others(s: State, t: State, id: int, u: Slot, taken: bool)
    requires u in s.news
  {
    && (forall k :: k in t.info ==> k == id || k in s.info)
    && forall k :: k in s.info && k != id ==>
         if taken && k == s.news[u] && s.info[k].nRefCount == 1 then k !in t.info
         else
           && k in t.info
           && t.info[k] == s.info[k].(nRandomPos := t.info[k].nRandomPos,
                                      nRefCount := s.info[k].nRefCount - if taken && k == s.news[u] then 1 else 0)
  }

  // ---------- placing an entry ----------

  lemma ClearEffect(L: Layout, s: State, u: Slot, id: int)
    requires Inv(L, s, {id}, 0) && u in s.news && id in s.info && s.news[u] != id
    ensures var t := ClearNew(s, u);
            && t.news == s.news[u := EMPTY] && Others(s, t, id, u, true)
            && id in t.info && t.info[id] == s.info[id].(nRandomPos := t.info[id].nRandomPos)
  {
    hide NewOk, TriedOk, IndexOk, LiveOk, CountsOk, ClearNew;
    ClearNewFrame(L, s, u, {id}, 0);
    OccupantKnown(L, s, u);
    assert s.news[u] == EMPTY ==> EMPTY !in s.info by { NotAnId(L, s); }
  }

  lemma NotAnId(L: Layout, s: State)
    requires NewOk(L, s.info, s.news)
    ensures EMPTY !in s.info
  {
  }

  lemma PlaceEffect(L: Layout, s: State, id: int, source: NetAddr, now: int)
    requires Inv(L, s, {id}, 0) && Shape(L, s) && id in s.info
    ensures SlotFor(L, s.info[id], source) in s.news
    ensures var i, u, t := s.info[id], SlotFor(L, s.info[id], source), Place(L, s, id, source, now);
            if s.news[u] != id && Yields(s, u, i.nRefCount, now) then
              && t.news == s.news[u := id] && Others(s, t, id, u, true)
              && id in t.info && t.info[id] == i.(nRefCount := i.nRefCount + 1, nRandomPos := t.info[id].nRandomPos)
            else i.nRefCount != 0 || s.news[u] == id ==> t == s
  {
    hide Inv, ClearNew, Delete, DomainOk, Yields;
    var u := SlotFor(L, s.info[id], source);
    SlotsInDomain(L, s, s.info[id].service);
    if s.news[u] != id {
      ClearEffect(L, s, u, id);
      assert s.news[u := EMPTY][u := id] == s.news[u := id];
    }
  }

  // ---------- reports of a known address ----------

  // The report is news: the time known is zero, or behind by more than the interval for
  // addresses that are online now, or not, and the penalty.
  predicate IsNews(time: int, addr: Address, penalty: int, now: int) {
    addr.nTime != 0 && (time == 0 || addr.nTime - time > penalty + if now - addr.nTime < 24 * 3600 then 3600 else 24 * 3600)
  }

  // The time known after the report.
  function TimeAfter(time: int, addr: Address, penalty: int, now: int): (r: int)
    ensures !IsNews(time, addr, penalty, now) ==> r == time
    ensures IsNews(time, addr, penalty, now) ==> r >= 0 && r >= addr.nTime - penalty && (r > 0 ==> r == addr.nTime - penalty)
  {
    if !IsNews(time, addr, penalty, now) then time else if addr.nTime - penalty < 0 then 0 else addr.nTime - penalty
  }

  // When the report earns the entry another slot.
  ghost predicate Earns(s: State, id: int, u: Slot, time: int, addr: Address, now: int, rnd: nat)
    requires id in s.info && u in s.news && s.info[id].nRefCount >= 0
  {
    && addr.nTime != 0 && (time == 0 || addr.nTime > time)
    && !s.info[id].fInTried && s.info[id].nRefCount < 8 && s.news[u] != id
    && rnd % Pow2(s.info[id].nRefCount) == 0
    && (s.news[u] == EMPTY || (s.news[u] in s.info && IsTerrible(s.info[s.news[u]], now)))
  }

  // A known address gets the services added and the time brought up to date, and takes the
  // slot of this source exactly when the report earns it; nothing else changes.
  lemma AddKnown(L: Layout, s: State, addr: Address, source: NetAddr, penalty: int, now: int, rnd: nat)
    requires Valid(L, s) && addr.service.net in s.addrs
    ensures var id := s.addrs[addr.service.net];
            && id in s.info && s.info[id].nRefCount >= 0 && SlotFor(L, s.info[id], source) in s.news
    ensures var id, t := s.addrs[addr.service.net], Add(L, s, addr, source, penalty, now, rnd);
            var i, u := s.info[id], SlotFor(L, s.info[id], source);
            var time := TimeAfter(i.nTime, addr, if addr.service.net == source then 0 else penalty, now);
            var earned := Earns(s, id, u, time, addr, now, rnd);
            && id in t.info
            && t.info[id] == i.(nTime := time, nServices := i.nServices + addr.nServices,
                                nRefCount := i.nRefCount + (if earned then 1 else 0), nRandomPos := t.info[id].nRandomPos)
            && t.news == (if earned then s.news[u := id] else s.news)
            && Others(s, t, id, u, earned)
  {
    hide Inv, Place, DomainOk, IsTerrible;
    AddrsKnown(L, s);
    var id := s.addrs[addr.service.net];
    var pen := if addr.service.net == source then 0 else penalty;
    var i := Refreshed(s.info[id], addr, pen, now);
    RefreshedRole(s.info[id], addr, pen, now);
    UpdateInv(L, s, id, i, {}, 0);
    Loosen(L, s.(info := s.info[id := i]), {}, {id}, 0);
    var t := s.(info := s.info[id := i]);
    EntryCounts(L, s, id);
    PlaceEffect(L, t, id, source, now);
    KnownEffect(L, s, id, i, addr, source, now, rnd);
  }

  lemma EntryCounts(L: Layout, s: State, id: int)
    requires Inv(L, s, {}, 0) && id in s.info
    ensures 0 <= s.info[id].nRefCount <= NEW_BUCKETS_PER_ADDRESS
    ensures !s.info[id].fInTried ==> s.info[id].nRefCount >= 1
    ensures forall u :: Cell(s.news, u) != EMPTY ==> Cell(s.news, u) in s.info
  {
    assert RefOk(L, s.info[id], s.news, id);
  }

  // The tail of Add_ for a known address, seen from the state before the entry was refreshed.
  lemma KnownEffect(L: Layout, s: State, id: int, i: AddrInfo, addr: Address, source: NetAddr, now: int, rnd: nat)
    requires Inv(L, s, {}, 0) && Shape(L, s) && id in s.info && SameRole(s.info[id], i)
    requires Inv(L, s.(info := s.info[id := i]), {id}, 0)
    ensures SlotFor(L, i, source) in s.news && s.info[id].nRefCount >= 0
    ensures var t := s.(info := s.info[id := i]);
            var r := if WantsReference(i, addr, rnd) then Place(L, t, id, source, now) else t;
            var u := SlotFor(L, i, source);
            var earned := Earns(s, id, u, i.nTime, addr, now, rnd);
            && id in r.info
            && r.info[id] == i.(nRefCount := i.nRefCount + (if earned then 1 else 0), nRandomPos := r.info[id].nRandomPos)
            && r.news == (if earned then s.news[u := id] else s.news)
            && Others(s, r, id, u, earned)
  {
    hide Inv, Place, DomainOk, IsTerrible, Pow2;
    var t := s.(info := s.info[id := i]);
    var u := SlotFor(L, i, source);
    SlotsInDomain(L, s, i.service);
    EntryCounts(L, s, id);
    DrawModulo(rnd, Factor(i));
    if WantsReference(i, addr, rnd) {
      PlaceEffect(L, t, id, source, now);
      assert s.news[u] != id ==> (Yields(t, u, i.nRefCount, now) <==> s.news[u] == EMPTY || IsTerrible(s.info[s.news[u]], now));
    }
  }

  lemma DrawModulo(rnd: nat, factor: nat)
    requires factor > 0
    ensures factor <= 1 ==> rnd % factor == 0
  {
  }

  // ---------- reports of an unknown address ----------

  // An unknown address comes in with what was reported, the time set back by the penalty, when
  // its slot is free or its occupant gives way; otherwise only an id has been used up.
  lemma AddUnknown(L: Layout, s: State, addr: Address, source: NetAddr, penalty: int, now: int, rnd: nat)
    requires Valid(L, s) && addr.service.net !in s.addrs
    ensures L.NewSlot(addr.service, L.newBucketOf(addr.service, source)) in s.news && s.nIdCount !in s.info
    ensures var id, t := s.nIdCount, Add(L, s, addr, source, penalty, now, rnd);
            var u := L.NewSlot(addr.service, L.newBucketOf(addr.service, source));
            var x := s.news[u];
            var time := addr.nTime - (if addr.service.net == source then 0 else penalty);
            if x == EMPTY || (x in s.info && (IsTerrible(s.info[x], now) || s.info[x].nRefCount > 1)) then
              && t.news == s.news[u := id] && Others(s, t, id, u, true) && id in t.info
              && t.info[id] == AddrInfo(addr.service, if time < 0 then 0 else time, addr.nServices, source, 0, 0, 0, 0, 1, false, t.info[id].nRandomPos)
              && addr.service.net in t.addrs && t.addrs[addr.service.net] == id
            else t == s.(nIdCount := id + 1)
  {
    hide Inv, Place, DomainOk, IsTerrible;
    var pen := if addr.service.net == source then 0 else penalty;
    var i := FreshInfo(addr, source, pen);
    CreateInv(L, s, i, {}, 0);
    var id, c := s.nIdCount, Create(s, i);
    var t := c.(nNew := c.nNew + 1);
    CreatedInv(L, s, t, i, id);
    PlaceEffect(L, t, id, source, now);
    NewSlotFacts(L, s, addr.service, source);
    AddValid(L, s, addr, source, penalty, now, rnd);
    AddedIsIndexed(L, Place(L, t, id, source, now), id);
    var u := L.NewSlot(addr.service, L.newBucketOf(addr.service, source));
    if Yields(t, u, 0, now) {
      UnknownOthers(s, t, Place(L, t, id, source, now), id, u);
    } else {
      CreatedAndDeleted(L, s, t, i, source, now);
    }
  }

  lemma NewSlotFacts(L: Layout, s: State, service: Service, source: NetAddr)
    requires Valid(L, s)
    ensures var u := L.NewSlot(service, L.newBucketOf(service, source));
            u in s.news && (s.news[u] != EMPTY ==> s.news[u] in s.info && s.news[u] != s.nIdCount) && s.nIdCount != EMPTY
    ensures s.nIdCount !in s.info
  {
  }

  lemma AddedIsIndexed(L: Layout, s: State, id: int)
    requires Valid(L, s)
    ensures id in s.info ==> s.info[id].service.net in s.addrs && s.addrs[s.info[id].service.net] == id
  {
  }

  lemma UnknownOthers(s: State, t: State, r: State, id: int, u: Slot)
    requires u in s.news && t.news == s.news && id !in s.info && id in t.info && Others(t, r, id, u, true)
    requires forall k :: k in t.info <==> k == id || k in s.info
    requires forall k :: k in s.info ==> t.info[k] == s.info[k]
    ensures Others(s, r, id, u, true)
  {
  }

  lemma CreatedAndDeleted(L: Layout, s: State, t: State, i: AddrInfo, source: NetAddr, now: int)
    requires Valid(L, s) && i.service.net !in s.addrs && i.nRefCount == 0 && s.nIdCount !in s.info
    requires t == Create(s, i).(nNew := s.nNew + 1)
    requires Cell(s.news, SlotFor(L, i, source)) != s.nIdCount && !Yields(t, SlotFor(L, i, source), 0, now)
    ensures Place(L, t, s.nIdCount, source, now) == s.(nIdCount := s.nIdCount + 1)
  {
    hide Yields, Inv;
    var id := s.nIdCount;
    assert Place(L, t, id, source, now) == Delete(t, id);
    assert t.vRandom[..|t.vRandom| - 1] == s.vRandom;
    assert t.info - {id} == s.info;
    assert t.addrs - {i.service.net} == s.addrs;
  }

  // ---------- reports of a success ----------

  // The new table without an entry.
  function Without(news: Table, id: int): Table {
    map sl | sl in news :: if news[sl] == id then EMPTY else news[sl]
  }

  lemma EvictEffect(L: Layout, s: State, k: Slot, id: int)
    requires Inv(L, s, {id}, 1) && Shape(L, s) && Cell(s.tried, k) != EMPTY
    ensures s.tried[k] in s.info && HomeSlot(L, s.info[s.tried[k]]) in s.news
    ensures var e, home, t := s.tried[k], HomeSlot(L, s.info[s.tried[k]]), Evict(L, s, k);
            && t.news == s.news[home := e] && Others(s, t, e, home, true) && e in t.info
            && t.info[e] == s.info[e].(fInTried := false, nRefCount := 1, nRandomPos := t.info[e].nRandomPos)
  {
    hide ClearNew, NewOk, TriedOk, IndexOk, LiveOk, DomainOk, CountsOk;
    EvictMiddle(L, s, k, {id}, 1);
    EvictInv(L, s, k, {id}, 1);
    DemoteInv(L, s, k, {id}, 1);
    var e, d := s.tried[k], Demote(s, k);
    var home := HomeSlot(L, s.info[e]);
    OccupantKnown(L, s, home);
    ClearNewFrame(L, d, home, {id} + {e}, 2);
    UnreferencedIsAbsent(L, d.info, d.news, e);
    NotAnId(L, s);
  }

  // The entry of a reported success, the entry it pushes out of the tried table, and the
  // entry that one pushes out of the new table.
  lemma GoodEffect(L: Layout, s: State, service: Service, time: int)
    requires Valid(L, s)
    ensures !Hits(s, service) ==> Good(L, s, service, time) == s
    ensures Hits(s, service) ==>
              var id, t := s.addrs[service.net], Good(L, s, service, time);
              && id in t.info
              && t.info[id] == s.info[id].(nLastSuccess := time, nLastTry := time, nAttempts := 0, fInTried := true,
                                           nRefCount := 0, nRandomPos := t.info[id].nRandomPos)
              && (s.info[id].fInTried ==> t == s.(info := s.info[id := t.info[id]]))
              && (!s.info[id].fInTried ==> Promoted(L, s, id, t))
  {
    hide Inv, MakeTried, DomainOk;
    if Hits(s, service) {
      var id := s.addrs[service.net];
      var t := s.(info := s.info[id := Succeeded(s.info[id], time)]);
      UpdateInv(L, s, id, t.info[id], {}, 0);
      if s.info[id].fInTried {
        TriedCount(L, s, id);
      } else {
        MakeTriedEffect(L, t, id);
        PromotedBefore(L, s, t, id, MakeTried(L, t, id));
      }
    }
  }

  lemma TriedCount(L: Layout, s: State, id: int)
    requires Inv(L, s, {}, 0) && id in s.info && s.info[id].fInTried
    ensures s.info[id].nRefCount == 0
  {
    TriedIsUnreferenced(L, s.info, s.news, id);
  }

  // What promoting an entry does to the new table and to the other entries.
  ghost predicate Promoted(L: Layout, s: State, id: int, t: State)
    requires id in s.info
  {
    var k, news := L.TriedSlot(s.info[id].service), Without(s.news, id);
    k in s.tried &&
    var e := s.tried[k];
    if e == EMPTY then
      t.news == news && forall j :: j != id ==> (j in t.info <==> j in s.info) && (j in t.info ==> t.info[j] == s.info[j])
    else
      && e in s.info && e != id && HomeSlot(L, s.info[e]) in news
      && var home := HomeSlot(L, s.info[e]);
         && t.news == news[home := e] && e in t.info
         && t.info[e] == s.info[e].(fInTried := false, nRefCount := 1, nRandomPos := t.info[e].nRandomPos)
         && (forall j :: j in t.info ==> j in s.info)
         && forall j :: j in s.info && j != id && j != e ==>
              if j == news[home] && s.info[j].nRefCount == 1 then j !in t.info
              else
                && j in t.info
                && t.info[j] == s.info[j].(nRandomPos := t.info[j].nRandomPos,
                                           nRefCount := s.info[j].nRefCount - if j == news[home] then 1 else 0)
  }

  lemma MakeTriedEffect(L: Layout, s: State, id: int)
    requires Inv(L, s, {}, 0) && Shape(L, s) && id in s.info && !s.info[id].fInTried
    ensures var t := MakeTried(L, s, id);
            && id in t.info && t.info[id] == s.info[id].(fInTried := true, nRefCount := 0, nRandomPos := t.info[id].nRandomPos)
            && Promoted(L, s, id, t)
  {
    hide Inv, Evict, DrainAll, DomainOk;
    var k := L.TriedSlot(s.info[id].service);
    SlotsInDomain(L, s, s.info[id].service);
    DrainAllInv(L, s, id);
    var d := DrainAll(L, s, id);
    DrainedIs(L, s, d, id);
    if s.tried[k] != EMPTY {
      TriedIsAnother(L, s, k, id);
      EvictEffect(L, d, k, id);
      EvictKeepsDrained(L, d, k, id);
      PromotedAfter(L, s, d, id, Evict(L, d, k), MakeTried(L, s, id));
    }
  }

  lemma DrainedIs(L: Layout, s: State, d: State, id: int)
    requires Inv(L, s, {}, 0) && Drained(s.news, d.news, id, L.newBuckets)
    ensures d.news == Without(s.news, id)
  {
  }

  lemma TriedIsAnother(L: Layout, s: State, k: Slot, id: int)
    requires Inv(L, s, {}, 0) && k in s.tried && s.tried[k] != EMPTY && id in s.info && !s.info[id].fInTried
    ensures s.tried[k] in s.info && s.tried[k] != id && HomeSlot(L, s.info[s.tried[k]]).bucket >= 0
  {
  }

  lemma PromotedAfter(L: Layout, s: State, d: State, id: int, e: State, t: State)
    requires id in s.info && d.news == Without(s.news, id) && d.tried == s.tried
    requires d.info == s.info[id := s.info[id].(nRefCount := 0)]
    requires var k := L.TriedSlot(s.info[id].service); k in s.tried && s.tried[k] in s.info && s.tried[k] != id
    requires HomeSlot(L, s.info[s.tried[L.TriedSlot(s.info[id].service)]]) in d.news
    requires var x := s.tried[L.TriedSlot(s.info[id].service)];
             var home := HomeSlot(L, s.info[x]);
             && x != EMPTY && e.news == d.news[home := x] && Others(d, e, x, home, true) && x in e.info
             && e.info[x] == s.info[x].(fInTried := false, nRefCount := 1, nRandomPos := e.info[x].nRandomPos)
    requires id in e.info && t == Promote(e, L.TriedSlot(s.info[id].service), id)
    ensures Promoted(L, s, id, t)
  {
  }

  lemma PromotedBefore(L: Layout, s: State, s': State, id: int, t: State)
    requires id in s.info && s' == s.(info := s'.info) && id in s'.info && s'.info == s.info[id := s'.info[id]]
    requires s'.info[id].service == s.info[id].service && Promoted(L, s', id, t)
    ensures Promoted(L, s, id, t)
  {
  }

  // ---------- what the statistics of an entry mean ----------

  // A failure is counted once until the next success of any peer: the second of two attempts
  // after the last success counts nothing.
  lemma CountedOnce(i: AddrInfo, t1: int, t2: int, lastGood: int)
    ensures Attempted(i, true, t1, lastGood).nAttempts == i.nAttempts + if i.nLastCountAttempt < lastGood then 1 else 0
    ensures t1 >= lastGood ==>
              Attempted(Attempted(i, true, t1, lastGood), true, t2, lastGood).nAttempts == Attempted(i, true, t1, lastGood).nAttempts
    ensures Attempted(i, false, t1, lastGood) == i.(nLastTry := t1) && Attempted(i, true, t1, lastGood).nLastTry == t1
    ensures Attempted(i, true, t1, lastGood) ==
            i.(nLastTry := t1, nAttempts := Attempted(i, true, t1, lastGood).nAttempts,
               nLastCountAttempt := Attempted(i, true, t1, lastGood).nLastCountAttempt)
  {
  }

  // Being connected brings the time up to date, to within twenty minutes, and nothing else.
  lemma ConnectedIsClose(i: AddrInfo, time: int)
    ensures var j := Connected(i, time);
            && j == i.(nTime := j.nTime) && (j.nTime == i.nTime || j.nTime == time)
            && time - 20 * 60 <= j.nTime && (j.nTime != i.nTime ==> time - i.nTime > 20 * 60)
  {
  }

  // Not tried in the last minute, and heard of lately: known, not from the future, not older
  // than thirty days.
  predicate Timely(i: AddrInfo, now: int) {
    i.nTime != 0 && now - 30 * 24 * 3600 <= i.nTime <= now + 600
  }

  predicate JustTried(i: AddrInfo, now: int) {
    i.nLastTry != 0 && i.nLastTry >= now - 60
  }

  // When an address is given up: never in the minute after a try; else if it was not heard of
  // lately, after three failures without any success, or after ten without one in a week.
  lemma TerribleIff(i: AddrInfo, now: int)
    ensures JustTried(i, now) ==> !IsTerrible(i, now)
    ensures !JustTried(i, now) && !Timely(i, now) ==> IsTerrible(i, now)
    ensures !JustTried(i, now) && Timely(i, now) && i.nLastSuccess == 0 ==>
              (IsTerrible(i, now) <==> i.nAttempts >= 3)
    ensures !JustTried(i, now) && Timely(i, now) && i.nLastSuccess != 0 && now - i.nLastSuccess <= 7 * 24 * 3600 ==>
              !IsTerrible(i, now)
    ensures !JustTried(i, now) && Timely(i, now) && i.nLastSuccess != 0 && now - i.nLastSuccess > 7 * 24 * 3600 ==>
              (IsTerrible(i, now) <==> i.nAttempts >= 10)
  {
  }

  // A success makes an entry good for a minute, and one heard of lately for a week.
  lemma GoodIsNotTerrible(i: AddrInfo, time: int, now: int)
    requires time > 0 && now - time <= 7 * 24 * 3600
    ensures now - time <= 60 || Timely(i, now) ==> !IsTerrible(Succeeded(i, time), now)
  {
  }
}
