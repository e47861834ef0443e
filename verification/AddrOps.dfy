/**
 * The public operations of CAddrMan (src/addrman.cpp) as functions on its state: Good_,
 * Add_, and the updates that touch one entry.  Every one keeps the full invariant.
 *
 * Clocks and random numbers are parameters: RandomInt(n) is `rnd % n`.
 */
module AddrOps {
  import opened AddrTables
  import opened AddrState
  import opened Powers

  const HORIZON_DAYS := 30
  const RETRIES := 3
  const MAX_FAILURES := 10
  const MIN_FAIL_DAYS := 7
  const DAY := 24 * 60 * 60

  datatype Address = Address(service: Service, nTime: int, nServices: set<nat>)

  ghost predicate Valid(L: Layout, s: State) {
    Shape(L, s) && Inv(L, s, {}, 0)
  }

  ghost predicate Vacant(t: Table) {
    forall sl :: sl in t ==> t[sl] == EMPTY
  }

  lemma EmptyValid(L: Layout, s: State)
    requires Shape(L, s) && s.nIdCount == s.nNew == s.nTried == 0
    requires s.info == map[] && s.addrs == map[] && s.vRandom == [] && Vacant(s.news) && Vacant(s.tried)
    ensures Valid(L, s)
  {
    assert TriedIds(s.info) == {} && NewIds(s.info) == {};
  }

  // CAddrInfo::IsTerrible
  predicate IsTerrible(i: AddrInfo, now: int) {
    if i.nLastTry != 0 && i.nLastTry >= now - 60 then false
    else
      || i.nTime > now + 10 * 60
      || i.nTime == 0 || now - i.nTime > HORIZON_DAYS * DAY
      || (i.nLastSuccess == 0 && i.nAttempts >= RETRIES)
      || (now - i.nLastSuccess > MIN_FAIL_DAYS * DAY && i.nAttempts >= MAX_FAILURES)
  }

  // ---------- updates of one entry ----------

  // The id of a known address, if its port matches too.
  predicate Hits(s: State, service: Service) {
    service.net in s.addrs && s.addrs[service.net] in s.info && s.info[s.addrs[service.net]].service == service
  }

  lemma HitsId(s: State, service: Service)
    requires Hits(s, service)
    ensures service.net in s.addrs && s.addrs[service.net] in s.info && s.info[s.addrs[service.net]].service == service
  {
  }

  predicate SameRole(i: AddrInfo, j: AddrInfo) {
    i.service == j.service && i.nRefCount == j.nRefCount && i.fInTried == j.fInTried && i.nRandomPos == j.nRandomPos
  }

  lemma UpdateInv(L: Layout, s: State, id: int, i: AddrInfo, loose: set<int>, ahead: int)
    requires Inv(L, s, loose, ahead) && id in s.info && SameRole(s.info[id], i)
    ensures Inv(L, s.(info := s.info[id := i]), loose, ahead)
  {
    hide NewOk, IndexOk, TriedOk, LiveOk;
    var b := s.info[id := i];
    SameRolesKeep(L, s.info, b, s.news, s.tried, loose);
    SamePlacesKeep(L, s.info, b, s.addrs, s.vRandom, s.nIdCount, s.tried);
  }

  // CAddrMan::Attempt_
  function Attempted(i: AddrInfo, countFailure: bool, time: int, lastGood: int): AddrInfo {
    if countFailure && i.nLastCountAttempt < lastGood
    then i.(nLastTry := time, nLastCountAttempt := time, nAttempts := i.nAttempts + 1)
    else i.(nLastTry := time)
  }

  // CAddrMan::Connected_
  function Connected(i: AddrInfo, time: int): AddrInfo {
    if time - i.nTime > 20 * 60 then i.(nTime := time) else i
  }

  // ---------- Good_ ----------

  function Succeeded(i: AddrInfo, time: int): AddrInfo {
    i.(nLastSuccess := time, nLastTry := time, nAttempts := 0)
  }

  function Good(L: Layout, s: State, service: Service, time: int): State {
    if !Hits(s, service) then s
    else
      var id := s.addrs[service.net];
      var t := s.(info := s.info[id := Succeeded(s.info[id], time)]);
      if s.info[id].fInTried then t else MakeTried(L, t, id)
  }

  // Good_ leaves the entry in the tried table, at its own slot.
  lemma GoodValid(L: Layout, s: State, service: Service, time: int)
    requires Valid(L, s)
    ensures Valid(L, Good(L, s, service, time))
    ensures Hits(s, service) ==>
              var id, t := s.addrs[service.net], Good(L, s, service, time);
              id in t.info && t.info[id].fInTried && t.tried == s.tried[L.TriedSlot(service) := id]
  {
    hide NewOk, IndexOk, LiveOk, CountsOk, MakeTried;
    if Hits(s, service) {
      var id := s.addrs[service.net];
      var t := s.(info := s.info[id := Succeeded(s.info[id], time)]);
      UpdateInv(L, s, id, t.info[id], {}, 0);
      if s.info[id].fInTried {
        assert s.tried[L.TriedSlot(service) := id] == s.tried;
      } else {
        MakeTriedInv(L, t, id);
        MakeTriedShape(L, t, id);
      }
    }
  }

  lemma MakeTriedShape(L: Layout, s: State, id: int)
    requires Inv(L, s, {}, 0) && id in s.info && !s.info[id].fInTried && Shape(L, s)
    ensures Shape(L, MakeTried(L, s, id))
  {
    hide Evict, DrainAll, NewOk, TriedOk, IndexOk, LiveOk, CountsOk;
    SlotsInDomain(L, s, s.info[id].service);
    DrainAllInv(L, s, id);
    var t := DrainAll(L, s, id);
    var k := L.TriedSlot(s.info[id].service);
    if Cell(t.tried, k) != EMPTY {
      EvictInv(L, t, k, {id}, 1);
    }
  }

  // ---------- Add_ ----------

  function Max(a: int, b: int): int {
    if a < b then b else a
  }

  // The loop that doubles a factor once per reference.
  function Factor(i: AddrInfo): nat {
    Pow2(if i.nRefCount < 0 then 0 else i.nRefCount)
  }

  // What Add_ does to an address it already knows, before deciding on a new reference.
  function Refreshed(i: AddrInfo, addr: Address, penalty: int, now: int): AddrInfo {
    var interval := if now - addr.nTime < DAY then 60 * 60 else DAY;
    var j := if addr.nTime != 0 && (i.nTime == 0 || i.nTime < addr.nTime - interval - penalty)
             then i.(nTime := Max(0, addr.nTime - penalty)) else i;
    j.(nServices := j.nServices + addr.nServices)
  }

  // Whether a known address gets another reference.
  predicate WantsReference(i: AddrInfo, addr: Address, rnd: nat) {
    && addr.nTime != 0 && (i.nTime == 0 || addr.nTime > i.nTime)
    && !i.fInTried
    && i.nRefCount != NEW_BUCKETS_PER_ADDRESS
    && (Factor(i) <= 1 || rnd % Factor(i) == 0)
  }

  // Whether an entry with this reference count may take a slot from its occupant.
  predicate Yields(s: State, u: Slot, nRefCount: int, now: int) {
    var x := Cell(s.news, u);
    x == EMPTY || IsTerrible(InfoOf(s, x), now) || (InfoOf(s, x).nRefCount > 1 && nRefCount == 0)
  }

  // Puts an entry into its slot for this source, if the occupant yields.
  function Place(L: Layout, s: State, id: int, source: NetAddr, now: int): State {
    var i := InfoOf(s, id);
    var u := SlotFor(L, i, source);
    if Cell(s.news, u) == id then s
    else if Yields(s, u, i.nRefCount, now) then Reference(ClearNew(s, u), u, id)
    else if i.nRefCount == 0 then Delete(s, id)
    else s
  }

  function FreshInfo(addr: Address, source: NetAddr, penalty: int): AddrInfo {
    AddrInfo(addr.service, Max(0, addr.nTime - penalty), addr.nServices, source, 0, 0, 0, 0, 0, false, -1)
  }

  function Add(L: Layout, s: State, addr: Address, source: NetAddr, penaltyIn: int, now: int, rnd: nat): State {
    var penalty := if addr.service.net == source then 0 else penaltyIn;
    if addr.service.net in s.addrs && s.addrs[addr.service.net] in s.info then
      var id := s.addrs[addr.service.net];
      var i := Refreshed(s.info[id], addr, penalty, now);
      var t := s.(info := s.info[id := i]);
      if WantsReference(i, addr, rnd) then Place(L, t, id, source, now) else t
    else
      var t := Create(s, FreshInfo(addr, source, penalty));
      Place(L, t.(nNew := t.nNew + 1), s.nIdCount, source, now)
  }

  lemma ReferencedHasCount(L: Layout, s: State, u: Slot, id: int)
    requires NewOk(L, s.info, s.news) && id in s.info && Cell(s.news, u) == id
    ensures s.info[id].nRefCount >= 1
  {
    if s.info[id].nRefCount == 0 {
      UnreferencedIsAbsent(L, s.info, s.news, id);
    }
    assert RefOk(L, s.info[id], s.news, id);
  }

  lemma PlaceInv(L: Layout, s: State, id: int, source: NetAddr, now: int)
    requires Inv(L, s, {id}, 0) && Shape(L, s) && id in s.info
    requires !s.info[id].fInTried && s.info[id].nRefCount < NEW_BUCKETS_PER_ADDRESS
    ensures Valid(L, Place(L, s, id, source, now))
    ensures Place(L, s, id, source, now).tried == s.tried
    ensures var i := s.info[id];
            var u := SlotFor(L, i, source);
            var t := Place(L, s, id, source, now);
            if s.news[u] != id && Yields(s, u, i.nRefCount, now)
            then t.news == s.news[u := id] && id in t.info && t.info[id].service == i.service
            else t.news == s.news && (i.nRefCount == 0 ==> t.addrs == s.addrs - {i.service.net})
  {
    hide NewOk, IndexOk, TriedOk, LiveOk, CountsOk, ClearNew, Delete;
    var i := s.info[id];
    var u := SlotFor(L, i, source);
    SlotsInDomain(L, s, i.service);
    assert {} + {id} == {id} && {id} - {id} == {};
    if s.news[u] == id {
      ReferencedHasCount(L, s, u, id);
      Tighten(L, s, {}, id, 0);
    } else if Yields(s, u, i.nRefCount, now) {
      ClearNewInv(L, s, u, {id}, 0);
      ClearNewFrame(L, s, u, {id}, 0);
      ReferenceInv(L, ClearNew(s, u), u, id, {}, 0);
      assert s.news[u := EMPTY][u := id] == s.news[u := id];
    } else if i.nRefCount == 0 {
      DeleteInv(L, s, id, {id}, 0);
      VRandomKnown(L, s, {id}, 0);
      DeleteFrame(s, id);
    } else {
      CountIsSize(L, s, id);
      Tighten(L, s, {}, id, 0);
    }
  }

  lemma VRandomKnown(L: Layout, s: State, loose: set<int>, ahead: int)
    requires Inv(L, s, loose, ahead)
    ensures forall m :: 0 <= m < |s.vRandom| ==> s.vRandom[m] in s.info
  {
  }

  lemma CountIsSize(L: Layout, s: State, id: int)
    requires NewOk(L, s.info, s.news) && id in s.info
    ensures s.info[id].nRefCount >= 0
  {
    assert RefOk(L, s.info[id], s.news, id);
  }

  lemma BelowMaximum(L: Layout, s: State, id: int, addr: Address, rnd: nat)
    requires Inv(L, s, {}, 0) && id in s.info && WantsReference(s.info[id], addr, rnd)
    ensures !s.info[id].fInTried && s.info[id].nRefCount < NEW_BUCKETS_PER_ADDRESS
  {
  }

  // Creating an entry does not change who holds the slot it will want.
  lemma FreshYields(L: Layout, s: State, t: State, id: int, u: Slot, now: int)
    requires NewOk(L, s.info, s.news) && id !in s.info
    requires t.news == s.news && forall j :: j in s.info ==> j in t.info && t.info[j] == s.info[j]
    ensures Yields(t, u, 0, now) <==> Yields(s, u, 0, now)
    ensures id != EMPTY ==> Cell(t.news, u) != id
  {
  }

  lemma AddrsKnown(L: Layout, s: State)
    requires Valid(L, s)
    ensures forall a :: a in s.addrs ==> s.addrs[a] in s.info
  {
  }

  lemma RefreshedRole(i: AddrInfo, addr: Address, penalty: int, now: int)
    ensures SameRole(i, Refreshed(i, addr, penalty, now))
  {
  }

  lemma CreatedInv(L: Layout, s: State, t: State, i: AddrInfo, id: int)
    requires Inv(L, Create(s, i), {} + {id}, 0 + 1) && Shape(L, s) && id == s.nIdCount
    requires t == Create(s, i).(nNew := Create(s, i).nNew + 1)
    ensures Inv(L, t, {id}, 0) && Shape(L, t) && id in t.info
  {
    assert {} + {id} == {id};
  }

  // Add_ keeps the invariant and never touches the tried table.  An address it did not
  // know ends up known exactly when the occupant of its slot yields.
  lemma AddValid(L: Layout, s: State, addr: Address, source: NetAddr, penalty: int, now: int, rnd: nat)
    requires Valid(L, s)
    ensures Valid(L, Add(L, s, addr, source, penalty, now, rnd))
    ensures Add(L, s, addr, source, penalty, now, rnd).tried == s.tried
    ensures addr.service.net !in s.addrs ==>
              (addr.service.net in Add(L, s, addr, source, penalty, now, rnd).addrs
               <==> Yields(s, L.NewSlot(addr.service, L.newBucketOf(addr.service, source)), 0, now))
  {
    hide NewOk, TriedOk, LiveOk, CountsOk, IndexOk, Place, WantsReference, Refreshed, Create;
    var pen := if addr.service.net == source then 0 else penalty;
    AddrsKnown(L, s);
    if addr.service.net in s.addrs {
      var id := s.addrs[addr.service.net];
      var i := Refreshed(s.info[id], addr, pen, now);
      RefreshedRole(s.info[id], addr, pen, now);
      UpdateInv(L, s, id, i, {}, 0);
      var t := s.(info := s.info[id := i]);
      if WantsReference(i, addr, rnd) {
        BelowMaximum(L, t, id, addr, rnd);
        Loosen(L, t, {}, {id}, 0);
        PlaceInv(L, t, id, source, now);
      }
    } else {
      var i := FreshInfo(addr, source, pen);
      CreateInv(L, s, i, {}, 0);
      AddFresh(L, s, i, source, now);
    }
  }

  // An address that was not known: it stays known exactly if it could be placed.
  lemma AddFresh(L: Layout, s: State, i: AddrInfo, source: NetAddr, now: int)
    requires Valid(L, s) && i.service.net !in s.addrs && i.nRefCount == 0 && !i.fInTried
    ensures var c := Create(s, i);
            var r := Place(L, c.(nNew := c.nNew + 1), s.nIdCount, source, now);
            && Valid(L, r)
            && r.tried == s.tried
            && (i.service.net in r.addrs <==> Yields(s, SlotFor(L, i, source), 0, now))
  {
    hide NewOk, TriedOk, LiveOk, CountsOk, IndexOk, Place, Yields;
    var id := s.nIdCount;
    CreateInv(L, s, i, {}, 0);
    var c := Create(s, i);
    var t := c.(nNew := c.nNew + 1);
    CreatedInv(L, s, t, i, id);
    PlaceInv(L, t, id, source, now);
    FreshYields(L, s, t, id, SlotFor(L, i, source), now);
    EntryIsIndexed(L, s, id);
    SlotsInDomain(L, t, i.service);
    EntryIsIndexed(L, Place(L, t, id, source, now), id);
  }

  lemma EntryIsIndexed(L: Layout, s: State, id: int)
    requires Valid(L, s)
    ensures id in s.info ==> s.info[id].service.net in s.addrs
    ensures s.nIdCount !in s.info && s.nIdCount != EMPTY
  {
  }

  // ---------- GetAddr_ ----------

  const GETADDR_MAX_PCT := 23
  const GETADDR_MAX := 2500

  function SampleSize(s: State): (n: int)
    ensures 0 <= n <= 2500 && 100 * n <= 23 * |s.vRandom|
    ensures n == 2500 || 23 * |s.vRandom| < 100 * (n + 1)
  {
    var n := GETADDR_MAX_PCT * |s.vRandom| / 100;
    if n > GETADDR_MAX then GETADDR_MAX else n
  }

  function AddressOf(i: AddrInfo): Address {
    Address(i.service, i.nTime, i.nServices)
  }

  // The addresses of the ids that are not terrible, in order.
  function Sample(s: State, ids: seq<int>, now: int): seq<Address> {
    if ids == [] then []
    else
      var rest := Sample(s, ids[..|ids| - 1], now);
      var i := InfoOf(s, ids[|ids| - 1]);
      if IsTerrible(i, now) then rest else rest + [AddressOf(i)]
  }

  lemma SampleNone(s: State, now: int)
    ensures Sample(s, [], now) == []
  {
  }

  lemma SampleStep(s: State, v: seq<int>, n: nat, now: int)
    requires n < |v|
    ensures Sample(s, v[..n + 1], now) ==
              if IsTerrible(InfoOf(s, v[n]), now) then Sample(s, v[..n], now)
              else Sample(s, v[..n], now) + [AddressOf(InfoOf(s, v[n]))]
  {
    assert v[..n + 1][..n] == v[..n];
  }

  lemma KeptTransitive(a: Infos, b: Infos, c: Infos)
    requires Kept(a, b, {}) && Kept(b, c, {})
    ensures Kept(a, c, {})
  {
  }

  lemma {:induction false} SampleKept(s: State, t: State, ids: seq<int>, now: int)
    requires Kept(s.info, t.info, {}) && forall m :: 0 <= m < |ids| ==> ids[m] in s.info
    ensures Sample(s, ids, now) == Sample(t, ids, now)
  {
    if ids != [] {
      SampleKept(s, t, ids[..|ids| - 1], now);
    }
  }

  // A sample names each non-terrible id among those drawn ...
  lemma {:induction false} SampleExact(s: State, ids: seq<int>, now: int, a: Address)
    requires forall m :: 0 <= m < |ids| ==> ids[m] in s.info
    ensures a in Sample(s, ids, now) <==>
            exists m :: 0 <= m < |ids| && a == AddressOf(s.info[ids[m]]) && !IsTerrible(s.info[ids[m]], now)
  {
    hide IsTerrible;
    if ids != [] {
      var most := ids[..|ids| - 1];
      SampleExact(s, most, now, a);
      if a in Sample(s, most, now) {
        var m :| 0 <= m < |most| && a == AddressOf(s.info[most[m]]) && !IsTerrible(s.info[most[m]], now);
        assert ids[m] == most[m];
      }
    }
  }

  predicate DistinctNets(r: seq<Address>) {
    forall m, n :: 0 <= m < n < |r| ==> r[m].service.net != r[n].service.net
  }

  // ... and no address twice, since vRandom lists every id once.
  lemma {:induction false} SampleDistinct(L: Layout, s: State, n: nat, now: int)
    requires Inv(L, s, {}, 0) && n <= |s.vRandom|
    ensures DistinctNets(Sample(s, s.vRandom[..n], now))
  {
    hide NewOk, TriedOk, CountsOk, LiveOk, IsTerrible, Sample;
    if n == 0 {
      SampleNone(s, now);
    } else {
      var most, last := s.vRandom[..n - 1], s.vRandom[n - 1];
      SampleDistinct(L, s, n - 1, now);
      SampleStep(s, s.vRandom, n - 1, now);
      var rest := Sample(s, most, now);
      forall m | 0 <= m < |rest|
        ensures rest[m].service.net != s.info[last].service.net
      {
        SampleExact(s, most, now, rest[m]);
        var j :| 0 <= j < |most| && rest[m] == AddressOf(s.info[most[j]]) && !IsTerrible(s.info[most[j]], now);
        assert most[j] == s.vRandom[j] && s.info[most[j]].nRandomPos == j;
        assert s.info[last].nRandomPos == n - 1;
      }
    }
  }
}
