/**
 * CAddrMan (src/addrman.cpp) with its tables updated in place.  Each method computes the
 * function of the same name in AddrState or AddrOps; the public ones keep `Valid`, the
 * structural part of CAddrMan::Check_, so none of the source's asserts can fire.
 */
module AddrMan {
  import opened AddrTables
  import S = AddrState
  import O = AddrOps
  import D = AddrDisk
  import Load = AddrLoad
  import C = AddrCheck
  import T = AddrTimes
  import opened Powers

  ghost function Cells(a: array2<int>): Table
    reads a
  {
    map b: nat, p: nat | b < a.Length0 && p < a.Length1 :: Slot(b, p) := a[b, p]
  }

  lemma CellsShape(L: Layout, news: array2<int>, tried: array2<int>)
    requires news.Length0 == L.newBuckets && news.Length1 == L.bucketSize
    requires tried.Length0 == L.triedBuckets && tried.Length1 == L.bucketSize
    ensures DomainOk(Cells(news), L.newBuckets, L.bucketSize)
    ensures DomainOk(Cells(tried), L.triedBuckets, L.bucketSize)
  {
  }

  lemma CellsVacant(a: array2<int>)
    requires forall b, p :: 0 <= b < a.Length0 && 0 <= p < a.Length1 ==> a[b, p] == EMPTY
    ensures O.Vacant(Cells(a))
  {
  }

  ghost predicate Holds(t: Table, L: Layout, service: Service, b: int, id: int) {
    b >= 0 && L.NewSlot(service, b) in t && t[L.NewSlot(service, b)] == id
  }

  // What the internal methods dereference.
  ghost predicate Tidy(s: S.State) {
    && (forall m :: 0 <= m < |s.vRandom| ==> s.vRandom[m] in s.info)
    && (forall id :: id in s.info ==> 0 <= s.info[id].nRandomPos < |s.vRandom|)
    && (forall sl :: sl in s.news && s.news[sl] != EMPTY ==> s.news[sl] in s.info)
    && (forall sl :: sl in s.tried && s.tried[sl] != EMPTY ==> s.tried[sl] in s.info)
  }

  lemma InvTidy(L: Layout, s: S.State, loose: set<int>, ahead: int)
    requires S.Inv(L, s, loose, ahead)
    ensures Tidy(s)
  {
  }

  // A call of a public operation, with the clock and the random numbers it meets.
  datatype Call =
    | Add(addr: O.Address, routable: bool, source: NetAddr, nTimePenalty: int, now: int, rnd: nat)
    | Good(service: Service, nTime: int, rnd: nat)
    | Attempt(service: Service, fCountFailure: bool, nTime: int)
    | Connected(service: Service, nTime: int)
    | SetServices(service: Service, nServices: set<nat>)
    | GetAddr(now: int, rnds: seq<nat>)
    | SaveAndLoad

  class AddrMan {
    const L: Layout
    const vvNew: array2<int>
    const vvTried: array2<int>

    var nIdCount: int
    var mapInfo: Infos
    var mapAddr: map<NetAddr, int>
    var vRandom: seq<int>
    var nTried: int
    var nNew: int
    var nLastGood: int

    ghost predicate Wired() {
      && L.Valid()
      && vvNew != vvTried
      && vvNew.Length0 == L.newBuckets && vvNew.Length1 == L.bucketSize
      && vvTried.Length0 == L.triedBuckets && vvTried.Length1 == L.bucketSize
    }

    ghost function State(): S.State
      reads this, vvNew, vvTried
    {
      S.State(nIdCount, mapInfo, mapAddr, vRandom, Cells(vvNew), Cells(vvTried), nNew, nTried)
    }

    ghost predicate Valid()
      reads this, vvNew, vvTried
    {
      Wired() && O.Valid(L, State())
    }

    // Clear
    constructor (L: Layout)
      requires L.Valid()
      ensures Valid() && this.L == L && nLastGood == 1 && D.IsClear(L, State())
      ensures mapInfo == map[] && mapAddr == map[] && vRandom == []
      ensures fresh(vvNew) && fresh(vvTried)
    {
      hide O.Valid, DomainOk, Cells, O.Vacant;
      this.L := L;
      vvNew := new int[L.newBuckets, L.bucketSize]((b, p) => EMPTY);
      vvTried := new int[L.triedBuckets, L.bucketSize]((b, p) => EMPTY);
      nIdCount := 0;
      mapInfo := map[];
      mapAddr := map[];
      vRandom := [];
      nTried := 0;
      nNew := 0;
      nLastGood := 1;
      new;
      CellsShape(L, vvNew, vvTried);
      CellsVacant(vvNew);
      CellsVacant(vvTried);
      O.EmptyValid(L, State());
    }

    static method Read(a: array2<int>, sl: Slot) returns (x: int)
      requires sl in Cells(a)
      ensures x == Cells(a)[sl]
    {
      x := a[sl.bucket, sl.pos];
    }

    static method Write(a: array2<int>, sl: Slot, x: int)
      requires sl in Cells(a)
      modifies a
      ensures Cells(a) == old(Cells(a))[sl := x]
    {
      a[sl.bucket, sl.pos] := x;
    }

    method Create(info: AddrInfo) returns (id: int)
      modifies this
      ensures State() == S.Create(old(State()), info) && id == old(nIdCount)
      ensures nLastGood == old(nLastGood)
    {
      id := nIdCount;
      nIdCount := nIdCount + 1;
      mapInfo := mapInfo[id := info];
      mapAddr := mapAddr[info.service.net := id];
      mapInfo := mapInfo[id := mapInfo[id].(nRandomPos := |vRandom|)];
      vRandom := vRandom + [id];
      assert mapInfo == old(mapInfo)[id := info.(nRandomPos := |old(vRandom)|)];
    }

    method SwapRandom(i: nat, j: nat)
      requires i < |vRandom| && j < |vRandom| && vRandom[i] in mapInfo && vRandom[j] in mapInfo
      modifies this`mapInfo, this`vRandom
      ensures State() == S.SwapRandom(old(State()), i, j)
    {
      if i == j {
        return;
      }
      var id1, id2 := vRandom[i], vRandom[j];
      mapInfo := mapInfo[id1 := mapInfo[id1].(nRandomPos := j)];
      mapInfo := mapInfo[id2 := mapInfo[id2].(nRandomPos := i)];
      vRandom := vRandom[i := id2];
      vRandom := vRandom[j := id1];
    }

    method Delete(id: int)
      requires id in mapInfo && 0 <= mapInfo[id].nRandomPos < |vRandom|
      requires forall m :: 0 <= m < |vRandom| ==> vRandom[m] in mapInfo
      modifies this`mapInfo, this`mapAddr, this`vRandom, this`nNew
      ensures State() == S.Delete(old(State()), id)
    {
      hide S.SwapRandom;
      S.SwapRandomFrame(State(), mapInfo[id].nRandomPos, |vRandom| - 1);
      SwapRandom(mapInfo[id].nRandomPos, |vRandom| - 1);
      vRandom := vRandom[..|vRandom| - 1];
      mapAddr := mapAddr - {mapInfo[id].service.net};
      mapInfo := mapInfo - {id};
      nNew := nNew - 1;
    }

    method ClearNew(sl: Slot)
      requires vvNew != vvTried && Tidy(State()) && sl in Cells(vvNew)
      modifies this`mapInfo, this`mapAddr, this`vRandom, this`nNew, vvNew
      ensures State() == S.ClearNew(old(State()), sl)
    {
      hide Cells, S.Delete;
      var id := Read(vvNew, sl);
      if id != EMPTY {
        mapInfo := mapInfo[id := mapInfo[id].(nRefCount := mapInfo[id].nRefCount - 1)];
        Write(vvNew, sl, EMPTY);
        if mapInfo[id].nRefCount == 0 {
          Delete(id);
        }
      }
    }

    // The loop of MakeTried that takes an entry out of every new bucket.
    method Drain(id: int)
      requires vvNew != vvTried && S.Shape(L, State()) && id in mapInfo
      modifies this`mapInfo, vvNew
      ensures State() == S.Drain(L, old(State()), id, L.newBuckets)
      ensures id in mapInfo
    {
      hide Cells, DomainOk;
      S.SlotsInDomain(L, State(), mapInfo[id].service);
      ghost var service := mapInfo[id].service;
      for bucket := 0 to L.newBuckets
        invariant id in mapInfo && State() == S.Drain(L, old(State()), id, bucket)
        invariant Cells(vvNew).Keys == old(Cells(vvNew)).Keys && mapInfo[id].service == service
      {
        var sl := L.NewSlot(mapInfo[id].service, bucket);
        var x := Read(vvNew, sl);
        if x == id {
          Write(vvNew, sl, EMPTY);
          mapInfo := mapInfo[id := mapInfo[id].(nRefCount := mapInfo[id].nRefCount - 1)];
        }
      }
    }

    // The part of MakeTried that moves the occupant of a tried slot back to new.
    method Evict(k: Slot, ghost loose: set<int>, ghost ahead: int)
      requires vvNew != vvTried && S.Shape(L, State())
      requires k in Cells(vvTried) && Cells(vvTried)[k] != EMPTY
      requires S.Inv(L, State(), loose, ahead)
      modifies this, vvNew, vvTried
      ensures State() == S.Evict(L, old(State()), k)
      ensures nLastGood == old(nLastGood)
    {
      hide S.ClearNew, S.Inv, Cells, DomainOk, Tidy;
      ghost var s0 := State();
      S.DemoteInv(L, s0, k, loose, ahead);
      S.EvictMiddle(L, s0, k, loose, ahead);
      var id := Read(vvTried, k);
      mapInfo := mapInfo[id := mapInfo[id].(fInTried := false)];
      Write(vvTried, k, EMPTY);
      nTried := nTried - 1;
      assert State() == S.Demote(s0, k);
      InvTidy(L, State(), loose + {id}, ahead + 1);
      var bucket := L.newBucketOf(mapInfo[id].service, mapInfo[id].source);
      var u := Slot(bucket, L.positionOf(mapInfo[id].service, true, bucket));
      ClearNew(u);
      mapInfo := mapInfo[id := mapInfo[id].(nRefCount := 1)];
      Write(vvNew, u, id);
      nNew := nNew + 1;
    }

    method MakeTried(id: int)
      requires Valid() && id in mapInfo && !mapInfo[id].fInTried
      modifies this, vvNew, vvTried
      ensures State() == S.MakeTried(L, old(State()), id)
      ensures nLastGood == old(nLastGood)
    {
      hide S.Inv, S.Drain, S.Evict, Cells, DomainOk;
      ghost var s0 := State();
      S.DrainAllInv(L, s0, id);
      S.MakeTriedInv(L, s0, id);
      S.SlotsInDomain(L, s0, mapInfo[id].service);
      Drain(id);
      nNew := nNew - 1;
      ghost var t := S.DrainAll(L, s0, id);
      assert State() == t;
      assert mapInfo[id].nRefCount == 0;
      var bucket := L.triedBucketOf(mapInfo[id].service);
      var k := Slot(bucket, L.positionOf(mapInfo[id].service, false, bucket));
      var occupant := Read(vvTried, k);
      if occupant != EMPTY {
        S.EvictInv(L, t, k, {id}, 1);
        S.EvictKeepsDrained(L, t, k, id);
        Evict(k, {id}, 1);
      }
      assert Cells(vvTried)[k] == EMPTY;
      Write(vvTried, k, id);
      nTried := nTried + 1;
      mapInfo := mapInfo[id := mapInfo[id].(fInTried := true)];
    }

    // Find, with the port compared as well.
    method Find(service: Service) returns (hit: bool, id: int)
      requires Valid()
      ensures hit <==> O.Hits(State(), service)
      ensures hit ==> service.net in mapAddr && id == mapAddr[service.net]
    {
      hit := service.net in mapAddr && mapAddr[service.net] in mapInfo && mapInfo[mapAddr[service.net]].service == service;
      id := if hit then mapAddr[service.net] else EMPTY;
    }

    // Replaces the statistics of one entry.
    method Update(id: int, info: AddrInfo)
      requires Valid() && id in mapInfo && O.SameRole(mapInfo[id], info)
      modifies this`mapInfo
      ensures Valid() && mapInfo == old(mapInfo)[id := info]
    {
      hide S.Inv, Cells;
      O.UpdateInv(L, State(), id, info, {}, 0);
      mapInfo := mapInfo[id := info];
    }

    method Attempt_(service: Service, fCountFailure: bool, nTime: int)
      requires Valid()
      modifies this`mapInfo
      ensures Valid()
      ensures mapInfo == if !O.Hits(old(State()), service) then old(mapInfo)
                         else old(mapInfo)[mapAddr[service.net] :=
                                O.Attempted(old(mapInfo)[mapAddr[service.net]], fCountFailure, nTime, nLastGood)]
    {
      hide S.Inv, Cells, O.Valid;
      var hit, id := Find(service);
      if hit {
        var info := mapInfo[id].(nLastTry := nTime);
        if fCountFailure && info.nLastCountAttempt < nLastGood {
          info := info.(nLastCountAttempt := nTime, nAttempts := info.nAttempts + 1);
        }
        Update(id, info);
      }
    }

    method Connected_(service: Service, nTime: int)
      requires Valid()
      modifies this`mapInfo
      ensures Valid()
      ensures mapInfo == if !O.Hits(old(State()), service) then old(mapInfo)
                         else old(mapInfo)[mapAddr[service.net] :=
                                O.Connected(old(mapInfo)[mapAddr[service.net]], nTime)]
    {
      hide S.Inv, Cells, O.Valid;
      var hit, id := Find(service);
      if hit {
        var info := mapInfo[id];
        if nTime - info.nTime > 20 * 60 {
          info := info.(nTime := nTime);
        }
        Update(id, info);
      }
    }

    method SetServices_(service: Service, nServices: set<nat>)
      requires Valid()
      modifies this`mapInfo
      ensures Valid()
      ensures mapInfo == if !O.Hits(old(State()), service) then old(mapInfo)
                         else old(mapInfo)[mapAddr[service.net] :=
                                old(mapInfo)[mapAddr[service.net]].(nServices := nServices)]
    {
      hide S.Inv, Cells, O.Valid;
      var hit, id := Find(service);
      if hit {
        Update(id, mapInfo[id].(nServices := nServices));
      }
    }

    // Probes the entry's own position in every new bucket, from a random one on; -1 if the
    // entry is in none of them.
    method FindBucket(id: int, rnd: nat) returns (bucket: int)
      requires S.Shape(L, State()) && id in mapInfo && rnd < L.newBuckets
      ensures -1 <= bucket < L.newBuckets
      ensures bucket != -1 ==> Holds(Cells(vvNew), L, mapInfo[id].service, bucket, id)
      ensures bucket == -1 <==> forall b: nat :: b < L.newBuckets ==> !Holds(Cells(vvNew), L, mapInfo[id].service, b, id)
    {
      S.SlotsInDomain(L, State(), mapInfo[id].service);
      hide Cells, DomainOk;
      var n := 0;
      while n < L.newBuckets
        invariant 0 <= n <= L.newBuckets
        invariant forall m: nat :: m < n ==> !Holds(Cells(vvNew), L, mapInfo[id].service, S.Probe(m, rnd, L.newBuckets), id)
      {
        S.ProbeIsMod(n, rnd, L.newBuckets);
        var nB := (n + rnd) % L.newBuckets;
        var x := Read(vvNew, L.NewSlot(mapInfo[id].service, nB));
        if x == id {
          assert Holds(Cells(vvNew), L, mapInfo[id].service, nB, id);
          return nB;
        }
        n := n + 1;
      }
      forall b: nat | b < L.newBuckets
        ensures !Holds(Cells(vvNew), L, mapInfo[id].service, b, id)
      {
        var m := S.ProbeVisits(rnd, L.newBuckets, b);
      }
      bucket := -1;
    }

    method Good_(service: Service, nTime: int, rnd: nat)
      requires Valid() && rnd < L.newBuckets
      modifies this, vvNew, vvTried
      ensures Valid() && nLastGood == nTime
      ensures State() == O.Good(L, old(State()), service, nTime)
    {
      hide S.Inv, Cells, S.MakeTried, O.Hits, S.Shape;
      O.GoodValid(L, State(), service, nTime);
      nLastGood := nTime;
      var hit, id := Find(service);
      if hit {
        O.HitsId(State(), service);
        Update(id, mapInfo[id].(nLastSuccess := nTime, nLastTry := nTime, nAttempts := 0));
        if !mapInfo[id].fInTried {
          ghost var b := S.InNewTable(L, State(), id);
          assert Holds(Cells(vvNew), L, mapInfo[id].service, b, id);
          var bucket := FindBucket(id, rnd);
          if bucket != -1 {
            MakeTried(id);
          }
        }
      }
    }

    // The end of Add_: put an entry into its slot for this source, if the occupant yields.
    method Place(id: int, source: NetAddr, now: int)
      requires Wired() && S.Shape(L, State()) && S.Inv(L, State(), {id}, 0) && id in mapInfo
      modifies this, vvNew
      ensures State() == O.Place(L, old(State()), id, source, now)
      ensures nLastGood == old(nLastGood)
    {
      hide S.Inv, Cells, DomainOk, S.ClearNew, S.Delete;
      ghost var s0 := State();
      S.SlotsInDomain(L, s0, mapInfo[id].service);
      InvTidy(L, s0, {id}, 0);
      var u := L.NewSlot(mapInfo[id].service, L.newBucketOf(mapInfo[id].service, source));
      var x := Read(vvNew, u);
      if x != id {
        var fInsert := x == EMPTY;
        if !fInsert {
          var existing := mapInfo[x];
          if O.IsTerrible(existing, now) || (existing.nRefCount > 1 && mapInfo[id].nRefCount == 0) {
            fInsert := true;
          }
        }
        if fInsert {
          S.ClearNewFrame(L, s0, u, {id}, 0);
          ClearNew(u);
          mapInfo := mapInfo[id := mapInfo[id].(nRefCount := mapInfo[id].nRefCount + 1)];
          Write(vvNew, u, id);
        } else if mapInfo[id].nRefCount == 0 {
          Delete(id);
        }
      }
    }

    method Add_(addr: O.Address, routable: bool, source: NetAddr, nTimePenalty: int, now: int, rnd: nat) returns (fNew: bool)
      requires Valid()
      modifies this, vvNew
      ensures Valid() && nLastGood == old(nLastGood)
      ensures State() == if routable then O.Add(L, old(State()), addr, source, nTimePenalty, now, rnd) else old(State())
      ensures fNew <==> routable && addr.service.net !in old(mapAddr)
    {
      hide S.Inv, Cells, DomainOk, O.Place, O.WantsReference, O.Refreshed, S.Create;
      if !routable {
        return false;
      }
      ghost var s0 := State();
      O.AddValid(L, s0, addr, source, nTimePenalty, now, rnd);
      O.AddrsKnown(L, s0);
      var penalty := if addr.service.net == source then 0 else nTimePenalty;
      var id: int;
      if addr.service.net in mapAddr {
        id := mapAddr[addr.service.net];
        O.RefreshedRole(mapInfo[id], addr, penalty, now);
        O.UpdateInv(L, s0, id, O.Refreshed(mapInfo[id], addr, penalty, now), {}, 0);
        var wants := Refresh(id, addr, penalty, now, rnd);
        if !wants {
          return false;
        }
        S.Loosen(L, State(), {}, {id}, 0);
        fNew := false;
      } else {
        S.CreateInv(L, s0, O.FreshInfo(addr, source, penalty), {}, 0);
        id := Create(O.FreshInfo(addr, source, penalty));
        nNew := nNew + 1;
        O.CreatedInv(L, s0, State(), O.FreshInfo(addr, source, penalty), id);
        fNew := true;
      }
      Place(id, source, now);
    }

    // The part of Add_ about an address already known; tells whether to add a reference.
    method Refresh(id: int, addr: O.Address, penalty: int, now: int, rnd: nat) returns (wants: bool)
      requires id in mapInfo
      modifies this`mapInfo
      ensures mapInfo == old(mapInfo)[id := O.Refreshed(old(mapInfo)[id], addr, penalty, now)]
      ensures wants <==> O.WantsReference(mapInfo[id], addr, rnd)
    {
      var online := now - addr.nTime < O.DAY;
      var interval := if online then 60 * 60 else O.DAY;
      var info := mapInfo[id];
      if addr.nTime != 0 && (info.nTime == 0 || info.nTime < addr.nTime - interval - penalty) {
        info := info.(nTime := O.Max(0, addr.nTime - penalty));
      }
      info := info.(nServices := info.nServices + addr.nServices);
      mapInfo := mapInfo[id := info];
      if addr.nTime == 0 || (info.nTime != 0 && addr.nTime <= info.nTime) {
        return false;
      }
      if info.fInTried {
        return false;
      }
      if info.nRefCount == NEW_BUCKETS_PER_ADDRESS {
        return false;
      }
      var nFactor := 1;
      var n := 0;
      while n < info.nRefCount
        invariant 0 <= n && (n <= info.nRefCount || n == 0)
        invariant nFactor == Pow2(n) > 0
      {
        nFactor := nFactor * 2;
        n := n + 1;
      }
      assert nFactor == O.Factor(info);
      return !(nFactor > 1 && rnd % nFactor != 0);
    }

    // Draws without replacement: position n is swapped with a random later one.
    method GetAddr_(now: int, rnd: nat -> nat) returns (vAddr: seq<O.Address>, ghost drawn: nat)
      requires Valid()
      modifies this`mapInfo, this`vRandom
      ensures Valid()
      ensures S.Kept(old(mapInfo), mapInfo, {}) && drawn <= |vRandom| == |old(vRandom)|
      ensures vAddr == O.Sample(State(), vRandom[..drawn], now)
      ensures |vAddr| <= O.SampleSize(State())
      ensures |vAddr| == O.SampleSize(State()) || drawn == |vRandom|
    {
      hide S.Inv, Cells, O.IsTerrible, S.Shape, S.Kept, O.Sample;
      vAddr := [];
      drawn := 0;
      O.SampleNone(State(), now);
      S.KeptSelf(mapInfo);
      var nNodes := O.GETADDR_MAX_PCT * |vRandom| / 100;
      if nNodes > O.GETADDR_MAX {
        nNodes := O.GETADDR_MAX;
      }
      ghost var size := |vRandom|;
      for n := 0 to |vRandom|
        invariant Valid() && |vRandom| == size && drawn == n
        invariant S.Kept(old(mapInfo), mapInfo, {})
        invariant vAddr == O.Sample(State(), vRandom[..n], now) && |vAddr| <= nNodes
      {
        if |vAddr| >= nNodes {
          break;
        }
        ghost var s0 := State();
        Draw(n, rnd(n) % (|vRandom| - n) + n);
        O.VRandomKnown(L, s0, {}, 0);
        O.KeptTransitive(old(mapInfo), s0.info, mapInfo);
        O.SampleKept(s0, State(), vRandom[..n], now);
        var ai := mapInfo[vRandom[n]];
        O.SampleStep(State(), vRandom, n, now);
        if !O.IsTerrible(ai, now) {
          vAddr := vAddr + [O.AddressOf(ai)];
        }
        drawn := drawn + 1;
      }
    }

    // Swaps position n with a later one.
    method Draw(n: nat, j: nat)
      requires Valid() && n <= j < |vRandom|
      modifies this`mapInfo, this`vRandom
      ensures Valid() && |vRandom| == |old(vRandom)| && vRandom[..n] == old(vRandom)[..n]
      ensures S.Kept(old(mapInfo), mapInfo, {}) && vRandom[n] in mapInfo
    {
      hide S.Inv, Cells, S.SwapRandom, S.Shape;
      ghost var s0 := State();
      O.VRandomKnown(L, s0, {}, 0);
      S.SwapRandomInv(L, s0, n, j, {}, 0);
      S.SwapRandomFrame(s0, n, j);
      SwapBeyond(s0, n, j);
      SwapShape(L, s0, n, j);
      SwapRandom(n, j);
      O.VRandomKnown(L, State(), {}, 0);
    }

    static lemma SwapShape(L: Layout, s: S.State, i: int, j: int)
      requires S.Shape(L, s)
      ensures S.Shape(L, S.SwapRandom(s, i, j))
    {
    }

    static lemma SwapBeyond(s: S.State, n: nat, j: nat)
      requires n <= j < |s.vRandom|
      ensures S.SwapRandom(s, n, j).vRandom[..n] == s.vRandom[..n]
    {
    }

    // ---------- Serialize ----------

    // The entries of one part of the stream, in the order of mapInfo, and the number of each.
    method WriteEntries(tried: bool) returns (infos: seq<D.Record>, ids: map<int, int>)
      requires Valid()
      ensures var o := D.Order(mapInfo, D.Max0(nIdCount), tried);
              |infos| == |o| && forall k :: 0 <= k < |o| ==> o[k] in mapInfo && infos[k] == D.RecordOf(mapInfo[o[k]])
      ensures forall id :: id in mapInfo ==> id >= 0 && id in ids && ids[id] == |D.Order(mapInfo, id, tried)|
    {
      hide S.Inv, Cells, D.Order, DomainOk;
      D.Sizes(L, State());
      IdsKnown(L, State());
      infos, ids := [], map[];
      OrderNone(mapInfo, tried);
      for id := 0 to nIdCount
        invariant |infos| == |D.Order(mapInfo, id, tried)|
        invariant forall k :: 0 <= k < |infos| ==> D.Order(mapInfo, id, tried)[k] in mapInfo && infos[k] == D.RecordOf(mapInfo[D.Order(mapInfo, id, tried)[k]])
        invariant forall j :: 0 <= j < id && j in mapInfo ==> j in ids && ids[j] == |D.Order(mapInfo, j, tried)|
      {
        OrderNext(mapInfo, id, tried);
        if id in mapInfo {
          ids := ids[id := |infos|];
          if D.Picked(mapInfo[id], tried) {
            D.OrderAt(mapInfo, nIdCount, tried, id);
            assert |infos| != if tried then nTried else nNew;
            infos := infos + [D.RecordOf(mapInfo[id])];
          }
        }
      }
    }

    static lemma IdsKnown(L: Layout, s: S.State)
      requires O.Valid(L, s)
      ensures forall id :: id in s.info ==> 0 <= id < s.nIdCount
    {
    }

    static lemma OrderNone(info: Infos, tried: bool)
      ensures D.Order(info, 0, tried) == []
    {
    }

    static lemma OrderNext(info: Infos, n: nat, tried: bool)
      ensures D.Order(info, n + 1, tried) == D.Order(info, n, tried) + if n in info && D.Picked(info[n], tried) then [n] else []
    {
    }

    // One bucket: the numbers of its entries, whose count is written first.
    method WriteBucket(bucket: nat, ids: map<int, int>) returns (list: seq<int>)
      requires Valid() && bucket < L.newBuckets
      requires forall id :: id in mapInfo ==> id >= 0 && id in ids && ids[id] == |D.Order(mapInfo, id, false)|
      ensures list == D.BucketRanks(State(), bucket, L.bucketSize)
    {
      hide S.Inv, DomainOk, D.BucketRanks;
      D.RanksNone(State(), bucket);
      list := [];
      for i := 0 to L.bucketSize
        invariant list == D.BucketRanks(State(), bucket, i)
      {
        D.RanksStep(State(), bucket, i);
        CellIs(bucket, i);
        if vvNew[bucket, i] != EMPTY {
          D.RankIs(L, State(), Slot(bucket, i));
          RankIs(ids, vvNew[bucket, i]);
          list := list + [ids[vvNew[bucket, i]]];
        }
      }
    }

    lemma CellIs(bucket: nat, i: nat)
      requires Wired() && bucket < L.newBuckets && i < L.bucketSize
      ensures Slot(bucket, i) in State().news && State().news[Slot(bucket, i)] == vvNew[bucket, i]
    {
    }

    lemma RankIs(ids: map<int, int>, id: int)
      requires id in mapInfo && id >= 0 && id in ids && ids[id] == |D.Order(mapInfo, id, false)|
      ensures D.Rank(mapInfo, id) == ids[id]
    {
    }

    // Serialize
    method Serialize() returns (v: D.Saved)
      requires Valid()
      ensures D.IsSerialized(L, State(), v)
    {
      hide S.Inv, Cells, D.Order, DomainOk, D.BucketRanks;
      D.Sizes(L, State());
      var news, ids := WriteEntries(false);
      var tries, _ := WriteEntries(true);
      var buckets: seq<seq<int>> := [];
      for bucket := 0 to L.newBuckets
        invariant |buckets| == bucket
        invariant forall j :: 0 <= j < bucket ==> buckets[j] == D.BucketRanks(State(), j, L.bucketSize)
      {
        var list := WriteBucket(bucket, ids);
        buckets := buckets + [list];
      }
      v := D.Saved(1, 32, nNew, nTried, D.Xor30(L.newBuckets), news + tries, buckets);
    }

    // ---------- Unserialize ----------

    // An entry of the new part, under the id n.
    method ReadNew(r: D.Record, n: int, direct: bool)
      requires Wired()
      modifies this`mapInfo, this`mapAddr, this`vRandom, vvNew
      ensures State().(nIdCount := n + 1) == D.LoadNew(L, old(State()).(nIdCount := n), r, direct)
    {
      hide Cells, DomainOk;
      ghost var s0 := State();
      var info := D.InfoFrom(r).(nRandomPos := |vRandom|);
      mapInfo := mapInfo[n := info];
      mapAddr := mapAddr[r.service.net := n];
      vRandom := vRandom + [n];
      if direct {
        var home := L.NewSlot(r.service, L.newBucketOf(r.service, r.source));
        NewSlotThere(home, r.service, L.newBucketOf(r.service, r.source));
        var x := Read(vvNew, home);
        if x == EMPTY {
          Write(vvNew, home, n);
          mapInfo := mapInfo[n := info.(nRefCount := info.nRefCount + 1)];
          assert mapInfo == s0.info[n := info][n := info.(nRefCount := 1)];
        }
      }
    }

    lemma NewSlotThere(sl: Slot, service: Service, bucket: nat)
      requires Wired() && bucket < L.newBuckets && sl == L.NewSlot(service, bucket)
      ensures sl in Cells(vvNew)
    {
    }

    // An entry of the tried part, unless its slot is taken.
    method ReadTried(r: D.Record) returns (lost: bool)
      requires Wired()
      modifies this`mapInfo, this`mapAddr, this`vRandom, this`nIdCount, vvTried
      ensures State().(nTried := old(nTried) + if lost then 0 else 1) == D.LoadTried(L, old(State()), r)
    {
      hide Cells, DomainOk;
      ghost var s0 := State();
      var k := L.TriedSlot(r.service);
      TriedSlotThere(k, r.service);
      var x := Read(vvTried, k);
      lost := x != EMPTY;
      if x == EMPTY {
        var info := D.InfoFrom(r).(nRandomPos := |vRandom|, fInTried := true);
        vRandom := vRandom + [nIdCount];
        mapInfo := mapInfo[nIdCount := info];
        mapAddr := mapAddr[r.service.net := nIdCount];
        Write(vvTried, k, nIdCount);
        nIdCount := nIdCount + 1;
        assert mapInfo == s0.info[s0.nIdCount := info.(fInTried := false)][s0.nIdCount := info];
      }
    }

    lemma TriedSlotThere(sl: Slot, service: Service)
      requires Wired() && sl == L.TriedSlot(service)
      ensures sl in Cells(vvTried)
    {
    }

    // A position in the new table.
    method ReadIndex(bucket: nat, n: int, nNewRead: nat, usable: bool)
      requires Wired() && D.NewOnes(State(), nNewRead) && (usable ==> bucket < L.newBuckets)
      modifies this`mapInfo, vvNew
      ensures State() == D.LoadIndex(L, old(State()), bucket, n, nNewRead, usable)
    {
      hide Cells, DomainOk;
      if 0 <= n < nNewRead && usable {
        var sl := L.NewSlot(mapInfo[n].service, bucket);
        NewSlotThere(sl, mapInfo[n].service, bucket);
        var x := Read(vvNew, sl);
        if x == EMPTY && mapInfo[n].nRefCount < NEW_BUCKETS_PER_ADDRESS {
          mapInfo := mapInfo[n := mapInfo[n].(nRefCount := mapInfo[n].nRefCount + 1)];
          Write(vvNew, sl, n);
        }
      }
    }

    // Unserialize.  Clear keeps the stored key, hence the layout L.
    static method Unserialize(L: Layout, v: D.Saved) returns (threw: bool, m: AddrMan, ghost clear: S.State)
      requires L.Valid()
      ensures fresh(m) && fresh(m.vvNew) && fresh(m.vvTried)
      ensures m.L == L && m.Wired() && D.IsClear(L, clear)
      ensures threw == D.Throws(L, v)
      ensures !threw ==> m.State() == D.Loaded(L, clear, v)
    {
      hide Cells, DomainOk, O.Valid, S.Inv, D.NewLoaded, D.TriedLoaded, D.BucketsLoaded, D.Pruned;
      m := new AddrMan(L);
      clear := m.State();
      threw := v.keySize != 32 || v.nNew > L.newBuckets * L.bucketSize || v.nTried > L.triedBuckets * L.bucketSize ||
        |v.infos| < v.nNew + v.nTried || |v.buckets| < D.BucketCount(v);
      if threw {
        return;
      }
      m.nNew := v.nNew;
      m.ReadAllNew(v);
      m.ReadAllTried(v);
      m.ReadAllBuckets(v);
      m.Prune();
    }

    method ReadAllNew(v: D.Saved)
      requires Wired() && v.nNew <= |v.infos| && mapInfo == map[] && vRandom == [] && nIdCount == 0
      modifies this, vvNew
      ensures State() == D.NewLoaded(L, old(State()), v, v.nNew) && nIdCount == v.nNew && nTried == old(nTried)
      ensures D.RandomOk(State()) && D.NewOnes(State(), v.nNew)
    {
      hide Cells, DomainOk, D.RandomOk, D.NewOnes, D.LoadNew;
      ghost var s0 := State();
      ClearRandom(s0);
      for n := 0 to v.nNew
        invariant State().(nIdCount := n) == D.NewLoaded(L, s0, v, n) && nTried == old(nTried)
        invariant D.RandomOk(State().(nIdCount := n)) && D.NewOnes(State().(nIdCount := n), n)
      {
        ghost var t := State().(nIdCount := n);
        D.LoadRandom(L, t, v.infos[n], !D.Usable(L, v));
        D.LoadNewNews(L, t, v.infos[n], !D.Usable(L, v), n);
        ReadNew(v.infos[n], n, !D.Usable(L, v));
      }
      nIdCount := v.nNew;
    }

    static lemma ClearRandom(s: S.State)
      requires s.info == map[] && s.vRandom == []
      ensures D.RandomOk(s) && D.NewOnes(s, 0)
    {
    }

    method ReadAllTried(v: D.Saved)
      requires Wired() && v.nNew + v.nTried <= |v.infos| && D.RandomOk(State()) && D.NewOnes(State(), v.nNew)
      requires nIdCount >= v.nNew && nTried == 0
      modifies this, vvTried
      ensures State() == D.TriedLoaded(L, old(State()), v, v.nTried)
      ensures D.RandomOk(State()) && D.NewOnes(State(), v.nNew)
    {
      hide Cells, DomainOk, D.RandomOk, D.NewOnes, D.LoadTried;
      ghost var s0 := State();
      var nLost := 0;
      for n := 0 to v.nTried
        invariant State().(nTried := n - nLost) == D.TriedLoaded(L, s0, v, n) && nTried == 0
        invariant D.RandomOk(State()) && D.NewOnes(State(), v.nNew) && nIdCount >= v.nNew
      {
        ghost var t := State();
        ghost var r := v.infos[v.nNew + n];
        D.LoadRandom(L, t, r, false);
        D.LoadTriedNews(L, t, r, v.nNew);
        TriedCounter(L, t, r, n - nLost);
        var lost := ReadTried(v.infos[v.nNew + n]);
        RandomCounter(D.LoadTried(L, t, r), nTried);
        if lost {
          nLost := nLost + 1;
        }
      }
      nTried := v.nTried - nLost;
      RandomCounter(State().(nTried := 0), nTried);
    }

    // The counter plays no part in the rest.
    static lemma TriedCounter(L: Layout, s: S.State, r: D.Record, n: int)
      ensures D.LoadTried(L, s.(nTried := n), r) == D.LoadTried(L, s, r).(nTried := D.LoadTried(L, s, r).nTried - s.nTried + n)
      ensures D.LoadTried(L, s, r).nIdCount >= s.nIdCount
    {
    }

    static lemma RandomCounter(s: S.State, n: int)
      ensures D.RandomOk(s) ==> D.RandomOk(s.(nTried := n))
      ensures forall k: nat :: D.NewOnes(s, k) ==> D.NewOnes(s.(nTried := n), k)
    {
    }

    method ReadAllBuckets(v: D.Saved)
      requires Wired() && D.BucketCount(v) <= |v.buckets| && D.RandomOk(State()) && D.NewOnes(State(), v.nNew)
      modifies this`mapInfo, vvNew
      ensures State() == D.BucketsLoaded(L, old(State()), v, D.BucketCount(v))
      ensures D.RandomOk(State())
    {
      hide Cells, DomainOk, D.RandomOk, D.NewOnes, D.LoadIndex;
      ghost var s0 := State();
      var usable := D.Usable(L, v);
      for bucket := 0 to D.BucketCount(v)
        invariant State() == D.BucketsLoaded(L, s0, v, bucket) && D.RandomOk(State()) && D.NewOnes(State(), v.nNew)
      {
        ghost var t := State();
        for n := 0 to |v.buckets[bucket]|
          invariant State() == D.IndicesLoaded(L, t, v, bucket, n) && D.RandomOk(State()) && D.NewOnes(State(), v.nNew)
        {
          D.LoadIndexRandom(L, State(), bucket, v.buckets[bucket][n], v.nNew, usable);
          ReadIndex(bucket, v.buckets[bucket][n], v.nNew, usable);
        }
      }
    }

    // Drops the new entries without a reference, in the order of mapInfo.
    method Prune()
      requires Wired() && D.RandomOk(State())
      modifies this`mapInfo, this`mapAddr, this`vRandom, this`nNew
      ensures State() == D.Pruned(old(State()), D.Max0(nIdCount))
    {
      hide Cells, DomainOk, S.Delete;
      ghost var s0 := State();
      for id := 0 to D.Max0(nIdCount)
        invariant State() == D.Pruned(s0, id) && D.RandomOk(State())
      {
        if id in mapInfo && !mapInfo[id].fInTried && mapInfo[id].nRefCount == 0 {
          D.DeleteRandom(State(), id);
          Delete(id);
        }
      }
    }

    // Writing and reading back.
    method Reload() returns (m: AddrMan)
      requires Valid()
      ensures fresh(m) && fresh(m.vvNew) && fresh(m.vvTried) && m.L == L && m.Valid() && D.Matches(State(), m.State())
    {
      hide Cells, DomainOk, S.Inv, D.IsSerialized, D.IsClear, D.Loaded, D.Matches, O.Valid;
      var v := Serialize();
      var threw;
      ghost var clear;
      threw, m, clear := Unserialize(L, v);
      D.RoundTrip(L, State(), v, clear);
      Load.LoadedValid(L, clear, v);
    }

    // The clock of a call: a success comes after time zero, an attempt not before it.
    static predicate ClockOk(c: Call) {
      (c.Good? ==> c.nTime > 0) && (c.Attempt? ==> c.nTime >= 0)
    }

    // Every run of public operations from a cleared manager keeps the invariant, and passes
    // Check_ when the clocks are sensible.
    static method Run(L: Layout, calls: seq<Call>) returns (m: AddrMan)
      requires L.Valid() && forall i :: 0 <= i < |calls| && calls[i].Good? ==> calls[i].rnd < L.newBuckets
      ensures m.L == L && m.Valid()
      ensures (forall i :: 0 <= i < |calls| ==> ClockOk(calls[i])) ==> C.Check(L, m.State(), false) == 0
    {
      hide Cells, DomainOk, S.Inv, O.Valid, C.Check, C.EntryTimes, D.Matches, O.Add, O.Good, O.Sample;
      m := new AddrMan(L);
      for i := 0 to |calls|
        invariant fresh(m) && fresh(m.vvNew) && fresh(m.vvTried) && m.L == L && m.Valid()
        invariant (forall j :: 0 <= j < i ==> ClockOk(calls[j])) ==> C.TimesOk(m.mapInfo)
      {
        m := m.Perform(calls[i]);
      }
      C.CheckPassesIff(L, m.State(), false);
    }

    // One call; loading replaces the object.
    method Perform(c: Call) returns (m: AddrMan)
      requires Valid() && (c.Good? ==> c.rnd < L.newBuckets)
      modifies this, vvNew, vvTried
      ensures m.Valid() && m.L == L && (m == this || (fresh(m) && fresh(m.vvNew) && fresh(m.vvTried)))
      ensures old(C.TimesOk(mapInfo)) && ClockOk(c) ==> C.TimesOk(m.mapInfo)
    {
      hide Cells, DomainOk, S.Inv, O.Valid, D.Matches, O.Add, O.Good, O.Sample, O.Hits, C.TimesOk, S.Kept;
      m := this;
      ghost var s := State();
      match c {
        case Add(addr, routable, source, penalty, now, rnd) =>
          if C.TimesOk(mapInfo) { T.AddTimes(L, s, addr, source, penalty, now, rnd); }
          var _ := Add_(addr, routable, source, penalty, now, rnd);
        case Good(service, nTime, rnd) =>
          if C.TimesOk(mapInfo) && nTime > 0 { T.GoodTimes(L, s, service, nTime); }
          Good_(service, nTime, rnd);
        case Attempt(service, fCountFailure, nTime) =>
          Attempt_(service, fCountFailure, nTime);
          if C.TimesOk(s.info) && nTime >= 0 { AttemptTimes(s, service, fCountFailure, nTime, nLastGood); }
        case Connected(service, nTime) =>
          Connected_(service, nTime);
          if C.TimesOk(s.info) { ConnectedTimes(s, service, nTime); }
        case SetServices(service, nServices) =>
          SetServices_(service, nServices);
          if C.TimesOk(s.info) { ServicesTimes(s, service, nServices); }
        case GetAddr(now, rnds) =>
          var _, _ := GetAddr_(now, (k: nat) => if k < |rnds| then rnds[k] else 0);
          if C.TimesOk(s.info) { T.KeptTimes(s.info, mapInfo); }
        case SaveAndLoad =>
          m := Reload();
          if C.TimesOk(s.info) { T.MatchesTimes(s, m.State()); }
      }
    }

    static lemma AttemptTimes(s: S.State, service: Service, fCountFailure: bool, nTime: int, lastGood: int)
      requires C.TimesOk(s.info) && nTime >= 0
      ensures O.Hits(s, service) ==>
                C.TimesOk(s.info[s.addrs[service.net] := O.Attempted(s.info[s.addrs[service.net]], fCountFailure, nTime, lastGood)])
    {
    }

    static lemma ConnectedTimes(s: S.State, service: Service, nTime: int)
      requires C.TimesOk(s.info)
      ensures O.Hits(s, service) ==> C.TimesOk(s.info[s.addrs[service.net] := O.Connected(s.info[s.addrs[service.net]], nTime)])
    {
    }

    static lemma ServicesTimes(s: S.State, service: Service, nServices: set<nat>)
      requires C.TimesOk(s.info)
      ensures O.Hits(s, service) ==>
                C.TimesOk(s.info[s.addrs[service.net] := s.info[s.addrs[service.net]].(nServices := nServices)])
    {
    }
  }
}
