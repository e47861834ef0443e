/**
 * CAddrMan::Serialize and CAddrMan::Unserialize (src/addrman.h): what is written, and what
 * reading it back rebuilds.  The byte encoding of the fields is left out; ids are renumbered.
 */
module AddrDisk {
  import opened AddrTables
  import opened AddrState
  import O = AddrOps

  // The fields of CAddrInfo that are written.
  datatype Record = Record(
    service: Service,
    nTime: int,
    nServices: set<nat>,
    source: NetAddr,
    nLastSuccess: int,
    nAttempts: int)

  datatype Saved = Saved(
    version: nat,
    keySize: nat,
    nNew: nat,
    nTried: nat,
    nUBuckets: nat,
    infos: seq<Record>,
    buckets: seq<seq<int>>)

  function RecordOf(i: AddrInfo): Record {
    Record(i.service, i.nTime, i.nServices, i.source, i.nLastSuccess, i.nAttempts)
  }

  // The other fields start as in CAddrInfo::Init.
  function InfoFrom(r: Record): AddrInfo {
    AddrInfo(r.service, r.nTime, r.nServices, r.source, r.nLastSuccess, 0, 0, r.nAttempts, 0, false, -1)
  }

  // x ^ (1 << 30)
  function Xor30(x: nat): nat {
    if (x / 0x4000_0000) % 2 == 0 then x + 0x4000_0000 else x - 0x4000_0000
  }

  function BucketCount(v: Saved): nat {
    if v.version != 0 then Xor30(v.nUBuckets) else v.nUBuckets
  }

  predicate Usable(L: Layout, v: Saved) {
    v.version == 1 && BucketCount(v) == L.newBuckets
  }

  // A wrong key size, a count beyond the table, or a stream that ends early.
  predicate Throws(L: Layout, v: Saved) {
    || v.keySize != 32
    || v.nNew > L.newBuckets * L.bucketSize
    || v.nTried > L.triedBuckets * L.bucketSize
    || |v.infos| < v.nNew + v.nTried
    || |v.buckets| < BucketCount(v)
  }

  // ---------- reading ----------

  function LoadNew(L: Layout, s: State, r: Record, direct: bool): State {
    var id := s.nIdCount;
    var t := Create(s, InfoFrom(r));
    var home := HomeSlot(L, InfoFrom(r));
    if direct && Cell(s.news, home) == EMPTY then Reference(t, home, id) else t
  }

  function LoadTried(L: Layout, s: State, r: Record): State {
    var k := L.TriedSlot(r.service);
    if Cell(s.tried, k) == EMPTY then Promote(Create(s, InfoFrom(r)), k, s.nIdCount) else s
  }

  function LoadIndex(L: Layout, s: State, bucket: nat, n: int, nNew: nat, usable: bool): State {
    var sl := L.NewSlot(InfoOf(s, n).service, bucket);
    if 0 <= n < nNew && usable && Cell(s.news, sl) == EMPTY && InfoOf(s, n).nRefCount < NEW_BUCKETS_PER_ADDRESS
    then Reference(s, sl, n) else s
  }

  function NewLoaded(L: Layout, s: State, v: Saved, n: nat): State
    requires n <= |v.infos|
  {
    if n == 0 then s else LoadNew(L, NewLoaded(L, s, v, n - 1), v.infos[n - 1], !Usable(L, v))
  }

  function TriedLoaded(L: Layout, s: State, v: Saved, n: nat): State
    requires v.nNew + n <= |v.infos|
  {
    if n == 0 then s else LoadTried(L, TriedLoaded(L, s, v, n - 1), v.infos[v.nNew + n - 1])
  }

  function IndicesLoaded(L: Layout, s: State, v: Saved, bucket: nat, n: nat): State
    requires bucket < |v.buckets| && n <= |v.buckets[bucket]|
  {
    if n == 0 then s
    else LoadIndex(L, IndicesLoaded(L, s, v, bucket, n - 1), bucket, v.buckets[bucket][n - 1], v.nNew, Usable(L, v))
  }

  function BucketsLoaded(L: Layout, s: State, v: Saved, n: nat): State
    requires n <= |v.buckets|
  {
    if n == 0 then s else IndicesLoaded(L, BucketsLoaded(L, s, v, n - 1), v, n - 1, |v.buckets[n - 1]|)
  }

  // Entries that got no reference are dropped.
  function PruneOne(s: State, id: int): State {
    if id in s.info && !s.info[id].fInTried && s.info[id].nRefCount == 0 then Delete(s, id) else s
  }

  function Pruned(s: State, n: nat): State {
    if n == 0 then s else PruneOne(Pruned(s, n - 1), n - 1)
  }

  function Max0(n: int): nat { if n < 0 then 0 else n }

  // The state that Clear leaves.
  ghost predicate IsClear(L: Layout, s: State) {
    && O.Valid(L, s) && O.Vacant(s.news) && O.Vacant(s.tried) && s.vRandom == []
    && s.info == map[] && s.addrs == map[] && s.nIdCount == s.nNew == s.nTried == 0
  }

  // Unserialize, from the state that Clear leaves.
  function Loaded(L: Layout, clear: State, v: Saved): State
    requires !Throws(L, v)
  {
    var a := NewLoaded(L, clear.(nNew := v.nNew), v, v.nNew);
    var b := TriedLoaded(L, a, v, v.nTried);
    var c := BucketsLoaded(L, b, v, BucketCount(v));
    Pruned(c, Max0(c.nIdCount))
  }

  // ---------- the records ----------

  // No address is repeated among the records that are read.
  predicate DistinctNets(v: Saved) {
    forall j, k :: 0 <= j < k < |v.infos| && k < v.nNew + v.nTried ==> v.infos[j].service.net != v.infos[k].service.net
  }

  // The addresses known so far are those of the first n records.
  ghost predicate FromFirst(s: State, v: Saved, n: nat)
    requires n <= |v.infos|
  {
    forall a :: a in s.addrs ==> exists j :: 0 <= j < n && v.infos[j].service.net == a
  }

  lemma FirstStep(s: State, v: Saved, n: nat, t: State)
    requires n < |v.infos| && FromFirst(s, v, n) && t.addrs == s.addrs[v.infos[n].service.net := n]
    ensures FromFirst(t, v, n + 1)
  {
  }

  // The first nNew ids are new entries.
  ghost predicate NewOnes(s: State, nNew: nat) {
    forall id :: 0 <= id < nNew ==> id in s.info && !s.info[id].fInTried
  }

  lemma LoadNewNews(L: Layout, s: State, r: Record, direct: bool, n: nat)
    requires NewOnes(s, n) && s.nIdCount == n
    ensures NewOnes(LoadNew(L, s, r, direct), n + 1)
  {
  }

  lemma LoadTriedNews(L: Layout, s: State, r: Record, nNew: nat)
    requires NewOnes(s, nNew) && s.nIdCount >= nNew
    ensures NewOnes(LoadTried(L, s, r), nNew)
  {
  }

  // ---------- writing ----------

  // Which entries go into which part of the stream.
  predicate Picked(i: AddrInfo, tried: bool) { if tried then i.fInTried else i.nRefCount != 0 }

  // The ids below n that are picked, in the order of mapInfo.
  function Order(info: Infos, n: nat, tried: bool): seq<int> {
    if n == 0 then []
    else Order(info, n - 1, tried) + if n - 1 in info && Picked(info[n - 1], tried) then [n - 1] else []
  }

  lemma {:induction false} OrderPrefix(info: Infos, m: nat, n: nat, tried: bool)
    requires m <= n
    ensures Order(info, m, tried) <= Order(info, n, tried)
    decreases n
  {
    if m < n { OrderPrefix(info, m, n - 1, tried); }
  }

  // A picked id stands where as many picked ones come before it.
  lemma OrderAt(info: Infos, n: nat, tried: bool, id: nat)
    requires id < n && id in info && Picked(info[id], tried)
    ensures |Order(info, id, tried)| < |Order(info, n, tried)| && Order(info, n, tried)[|Order(info, id, tried)|] == id
  {
    OrderPrefix(info, id + 1, n, tried);
  }

  lemma {:induction false} OrderFrom(info: Infos, n: nat, tried: bool, k: nat)
    requires k < |Order(info, n, tried)|
    ensures var id := Order(info, n, tried)[k];
            0 <= id < n && id in info && Picked(info[id], tried) && |Order(info, id, tried)| == k
  {
    if k < |Order(info, n - 1, tried)| { OrderFrom(info, n - 1, tried, k); }
  }

  // Every entry is written once, so the counts are right.
  lemma OrderSize(info: Infos, n: nat, tried: bool, ids: set<int>)
    requires forall id :: id in ids <==> 0 <= id < n && id in info && Picked(info[id], tried)
    ensures |Order(info, n, tried)| == |ids|
  {
    hide Order;
    var v := Order(info, n, tried);
    forall i, j | 0 <= i < j < |v|
      ensures v[i] != v[j]
    {
      OrderFrom(info, n, tried, i);
      OrderFrom(info, n, tried, j);
    }
    DistinctCount(v);
    var all := set id | id in v;
    forall id | id in all
      ensures id in ids
    {
      var k :| 0 <= k < |v| && v[k] == id;
      OrderFrom(info, n, tried, k);
    }
    forall id | id in ids
      ensures id in all
    {
      OrderAt(info, n, tried, id);
    }
    assert all == ids;
  }

  // The number a new entry is written under: mapUnkIds.
  function Rank(info: Infos, id: int): nat { if id < 0 then 0 else |Order(info, id, false)| }

  // One bucket of the new table: the ranks of its entries, by position.
  function BucketRanks(s: State, bucket: nat, n: nat): seq<int> {
    if n == 0 then []
    else BucketRanks(s, bucket, n - 1) +
         if Cell(s.news, Slot(bucket, n - 1)) == EMPTY then [] else [Rank(s.info, Cell(s.news, Slot(bucket, n - 1)))]
  }

  ghost predicate IsSerialized(L: Layout, s: State, v: Saved) {
    var a, b := Order(s.info, Max0(s.nIdCount), false), Order(s.info, Max0(s.nIdCount), true);
    && v.version == 1 && v.keySize == 32 && v.nNew == s.nNew && v.nTried == s.nTried && v.nUBuckets == Xor30(L.newBuckets)
    && |v.infos| == |a| + |b|
    && (forall k :: 0 <= k < |a| ==> a[k] in s.info && v.infos[k] == RecordOf(s.info[a[k]]))
    && (forall k :: 0 <= k < |b| ==> b[k] in s.info && v.infos[|a| + k] == RecordOf(s.info[b[k]]))
    && |v.buckets| == L.newBuckets
    && forall j :: 0 <= j < L.newBuckets ==> v.buckets[j] == BucketRanks(s, j, L.bucketSize)
  }

  // ---------- the round trip ----------

  // The id an entry comes back with: new entries first, in the order of mapInfo.
  function Rho(s: State, id: int): int {
    if id < 0 || id !in s.info then EMPTY
    else if s.info[id].fInTried then Max0(s.nNew) + |Order(s.info, id, true)|
    else |Order(s.info, id, false)|
  }

  // The same tables and entries under the new ids; only memory-only fields are reset.
  ghost predicate Matches(s: State, t: State) {
    && t.news.Keys == s.news.Keys && (forall sl :: sl in s.news ==> t.news[sl] == Rho(s, s.news[sl]))
    && t.tried.Keys == s.tried.Keys && (forall sl :: sl in s.tried ==> t.tried[sl] == Rho(s, s.tried[sl]))
    && (forall id :: id in s.info ==> Rho(s, id) in t.info && t.info[Rho(s, id)] == Restored(s.info[id], Rho(s, id)))
    && (forall j :: j in t.info ==> exists id :: id in s.info && Rho(s, id) == j)
    && t.addrs.Keys == s.addrs.Keys && (forall a :: a in s.addrs ==> t.addrs[a] == Rho(s, s.addrs[a]))
    && t.nNew == s.nNew && t.nTried == s.nTried
  }

  function Restored(i: AddrInfo, pos: int): AddrInfo {
    i.(nLastTry := 0, nLastCountAttempt := 0, nRandomPos := pos)
  }

  // In a consistent state an entry is written in exactly one of the two parts.
  lemma PickedOne(L: Layout, s: State, id: int)
    requires O.Valid(L, s) && id in s.info
    ensures Picked(s.info[id], true) <==> s.info[id].fInTried
    ensures Picked(s.info[id], false) <==> !s.info[id].fInTried
    ensures 0 <= id < s.nIdCount
  {
    if s.info[id].fInTried { TriedIsUnreferenced(L, s.info, s.news, id); }
  }

  lemma Sizes(L: Layout, s: State)
    requires O.Valid(L, s)
    ensures s.nIdCount >= 0 && s.nNew >= 0 && s.nTried >= 0
    ensures |Order(s.info, s.nIdCount, false)| == s.nNew && |Order(s.info, s.nIdCount, true)| == s.nTried
  {
    hide Order;
    forall id | id in s.info
      ensures (Picked(s.info[id], true) <==> s.info[id].fInTried) && (Picked(s.info[id], false) <==> !s.info[id].fInTried) && 0 <= id < s.nIdCount
    {
      PickedOne(L, s, id);
    }
    OrderSize(s.info, s.nIdCount, false, NewIds(s.info));
    OrderSize(s.info, s.nIdCount, true, TriedIds(s.info));
  }

  // The new id of an entry, the record written for it, and back.
  lemma RhoIs(L: Layout, s: State, v: Saved, id: int)
    requires O.Valid(L, s) && IsSerialized(L, s, v) && id in s.info
    ensures 0 <= Rho(s, id) < |v.infos| == s.nNew + s.nTried
    ensures v.infos[Rho(s, id)] == RecordOf(s.info[id])
    ensures Rho(s, id) < s.nNew <==> !s.info[id].fInTried
  {
    hide Order, BucketRanks, NewOk, TriedOk, IndexOk, LiveOk;
    PickedOne(L, s, id);
    Sizes(L, s);
    OrderAt(s.info, s.nIdCount, s.info[id].fInTried, id);
  }

  lemma RhoBack(L: Layout, s: State, v: Saved, k: nat) returns (id: int)
    requires O.Valid(L, s) && IsSerialized(L, s, v) && k < |v.infos|
    ensures id in s.info && Rho(s, id) == k
  {
    hide Order, BucketRanks, NewOk, TriedOk, IndexOk, LiveOk;
    Sizes(L, s);
    var tried := k >= s.nNew;
    var j := if tried then k - s.nNew else k;
    id := Order(s.info, s.nIdCount, tried)[j];
    OrderFrom(s.info, s.nIdCount, tried, j);
    PickedOne(L, s, id);
  }

  lemma RhoInjective(L: Layout, s: State, v: Saved, i: int, j: int)
    requires O.Valid(L, s) && IsSerialized(L, s, v) && i in s.info && j in s.info && Rho(s, i) == Rho(s, j)
    ensures i == j
  {
    hide Order, BucketRanks, NewOk, TriedOk, IndexOk, LiveOk;
    RhoIs(L, s, v, i);
    RhoIs(L, s, v, j);
    PickedOne(L, s, i);
    PickedOne(L, s, j);
    OrderAt(s.info, s.nIdCount, s.info[i].fInTried, i);
    OrderAt(s.info, s.nIdCount, s.info[j].fInTried, j);
  }

  // The first n records are loaded under the ids 0 to n - 1.
  ghost predicate Stage(v: Saved, t: State, n: nat)
    requires n <= |v.infos|
  {
    && t.nIdCount == n && |t.vRandom| == n && (forall id :: id in t.info <==> 0 <= id < n)
    && (forall k :: 0 <= k < n ==> t.info[k] == Arrived(v, k, t.info[k].nRefCount))
    && (forall k :: 0 <= k < n ==> v.infos[k].service.net in t.addrs && t.addrs[v.infos[k].service.net] == k)
    && FromFirst(t, v, n)
  }

  function Arrived(v: Saved, k: nat, refs: int): AddrInfo
    requires k < |v.infos|
  {
    InfoFrom(v.infos[k]).(nRandomPos := k, fInTried := k >= v.nNew, nRefCount := refs)
  }

  lemma ArrivedRefs(v: Saved, k: nat, refs: int)
    requires k < |v.infos|
    ensures Arrived(v, k, refs).nRefCount == refs
  {
  }

  lemma StageAdd(v: Saved, t: State, u: State, n: nat)
    requires n < |v.infos| && n < v.nNew + v.nTried && Stage(v, t, n) && DistinctNets(v)
    requires u.nIdCount == n + 1 && |u.vRandom| == n + 1 && u.info == t.info[n := Arrived(v, n, 0)]
    requires u.addrs == t.addrs[v.infos[n].service.net := n]
    ensures Stage(v, u, n + 1) && forall k :: 0 <= k < n ==> u.info[k].nRefCount == t.info[k].nRefCount
  {
    hide Arrived, FromFirst;
    ArrivedRefs(v, n, 0);
    FirstStep(t, v, n, u);
    forall k | 0 <= k < n
      ensures v.infos[k].service.net in u.addrs && u.addrs[v.infos[k].service.net] == k
    {
      assert v.infos[k].service.net != v.infos[n].service.net;
    }
  }

  lemma StageNew(L: Layout, v: Saved, t: State, n: nat)
    requires n < v.nNew && n < |v.infos| && DistinctNets(v) && Stage(v, t, n)
    ensures var u := LoadNew(L, t, v.infos[n], false);
            && Stage(v, u, n + 1) && u.news == t.news && u.tried == t.tried && u.nTried == t.nTried && u.nNew == t.nNew
            && u.info[n].nRefCount == 0
            && forall k :: 0 <= k < n ==> u.info[k].nRefCount == t.info[k].nRefCount
  {
    hide DistinctNets, FromFirst;
    var u := LoadNew(L, t, v.infos[n], false);
    assert u.info[n] == Arrived(v, n, 0);
    assert u.info == t.info[n := u.info[n]];
    StageAdd(v, t, u, n);
  }

  lemma {:induction false} NewStage(L: Layout, s0: State, v: Saved, n: nat)
    requires s0.info == map[] && s0.addrs == map[] && s0.vRandom == [] && s0.nIdCount == 0
    requires n <= v.nNew && n <= |v.infos| && DistinctNets(v) && Usable(L, v)
    ensures var t := NewLoaded(L, s0, v, n);
            && Stage(v, t, n) && t.news == s0.news && t.tried == s0.tried && t.nTried == s0.nTried && t.nNew == s0.nNew
            && forall k :: 0 <= k < n ==> t.info[k].nRefCount == 0
  {
    hide LoadNew, Usable, Stage, DistinctNets;
    if n == 0 {
      StageNone(v, s0);
    } else {
      NewStage(L, s0, v, n - 1);
      StageIds(v, NewLoaded(L, s0, v, n - 1), n - 1);
      StageNew(L, v, NewLoaded(L, s0, v, n - 1), n - 1);
      StageIds(v, NewLoaded(L, s0, v, n), n);
    }
  }

  lemma StageNone(v: Saved, t: State)
    requires t.info == map[] && t.addrs == map[] && t.vRandom == [] && t.nIdCount == 0
    ensures Stage(v, t, 0)
  {
  }

  ghost predicate TriedUpTo(L: Layout, v: Saved, t: State, n: nat)
    requires n <= |v.infos|
  {
    && (forall k :: v.nNew <= k < n ==> L.TriedSlot(v.infos[k].service) in t.tried && t.tried[L.TriedSlot(v.infos[k].service)] == k)
    && forall sl :: sl in t.tried && t.tried[sl] != EMPTY ==>
         v.nNew <= t.tried[sl] < n && sl == L.TriedSlot(v.infos[t.tried[sl]].service)
  }

  predicate TriedDistinct(L: Layout, v: Saved) {
    forall j, k :: v.nNew <= j < k < |v.infos| ==> L.TriedSlot(v.infos[j].service) != L.TriedSlot(v.infos[k].service)
  }

  lemma StageTried(L: Layout, v: Saved, t: State, n: nat)
    requires v.nNew <= n < |v.infos| && n < v.nNew + v.nTried && DistinctNets(v) && TriedDistinct(L, v) && Stage(v, t, n) && TriedUpTo(L, v, t, n)
    requires L.TriedSlot(v.infos[n].service) in t.tried
    ensures var u := LoadTried(L, t, v.infos[n]);
            && Stage(v, u, n + 1) && u.news == t.news && TriedUpTo(L, v, u, n + 1) && u.tried.Keys == t.tried.Keys
            && u.nTried == t.nTried + 1 && u.nNew == t.nNew && u.info[n].nRefCount == 0
            && forall k :: 0 <= k < n ==> u.info[k].nRefCount == t.info[k].nRefCount
  {
    hide DistinctNets, FromFirst, TriedUpTo, TriedDistinct;
    TriedFree(L, v, t, n);
    var k := L.TriedSlot(v.infos[n].service);
    var u := LoadTried(L, t, v.infos[n]);
    assert u.info[n] == Arrived(v, n, 0);
    assert u.info == t.info[n := u.info[n]];
    StageAdd(v, t, u, n);
    TriedNext(L, v, t, u, n);
  }

  lemma TriedFree(L: Layout, v: Saved, t: State, n: nat)
    requires v.nNew <= n < |v.infos| && TriedDistinct(L, v) && TriedUpTo(L, v, t, n)
    ensures Cell(t.tried, L.TriedSlot(v.infos[n].service)) == EMPTY
  {
  }

  lemma TriedNext(L: Layout, v: Saved, t: State, u: State, n: nat)
    requires v.nNew <= n < |v.infos| && TriedDistinct(L, v) && TriedUpTo(L, v, t, n)
    requires L.TriedSlot(v.infos[n].service) in t.tried && u.tried == t.tried[L.TriedSlot(v.infos[n].service) := n]
    ensures TriedUpTo(L, v, u, n + 1)
  {
    forall k | v.nNew <= k < n
      ensures L.TriedSlot(v.infos[k].service) in u.tried && u.tried[L.TriedSlot(v.infos[k].service)] == k
    {
      assert L.TriedSlot(v.infos[k].service) != L.TriedSlot(v.infos[n].service);
    }
  }

  lemma {:induction false} TriedStage(L: Layout, a: State, v: Saved, n: nat)
    requires L.Valid() && DomainOk(a.tried, L.triedBuckets, L.bucketSize) && O.Vacant(a.tried)
    requires n <= v.nTried && v.nNew + n <= |v.infos| && Stage(v, a, v.nNew) && DistinctNets(v) && TriedDistinct(L, v)
    ensures var t := TriedLoaded(L, a, v, n);
            && Stage(v, t, v.nNew + n) && TriedUpTo(L, v, t, v.nNew + n) && t.news == a.news && t.tried.Keys == a.tried.Keys
            && t.nTried == a.nTried + n && t.nNew == a.nNew
            && forall k :: 0 <= k < v.nNew + n ==> t.info[k].nRefCount == if k < v.nNew then a.info[k].nRefCount else 0
  {
    hide LoadTried, Stage, TriedUpTo, TriedDistinct, DistinctNets, DomainOk;
    if n == 0 {
      NoTriedYet(L, v, a);
      StageIds(v, a, v.nNew);
    } else {
      TriedStage(L, a, v, n - 1);
      var t, m := TriedLoaded(L, a, v, n - 1), v.nNew + n - 1;
      TriedSlotThere(L, a.tried, v.infos[m].service);
      StageTried(L, v, t, m);
      StageIds(v, LoadTried(L, t, v.infos[m]), m + 1);
      StageIds(v, t, m);
    }
  }

  lemma StageIds(v: Saved, t: State, n: nat)
    requires n <= |v.infos| && Stage(v, t, n)
    ensures forall id :: id in t.info <==> 0 <= id < n
  {
  }

  lemma NoTriedYet(L: Layout, v: Saved, a: State)
    requires v.nNew <= |v.infos| && O.Vacant(a.tried)
    ensures TriedUpTo(L, v, a, v.nNew)
  {
  }

  lemma TriedSlotThere(L: Layout, t: Table, service: Service)
    requires L.Valid() && DomainOk(t, L.triedBuckets, L.bucketSize)
    ensures L.TriedSlot(service) in t
  {
  }

  // ---------- positions in the new table ----------

  // The slots before position i of bucket b are restored, the others still empty.
  ghost predicate NewsUpTo(s: State, t: State, b: nat, i: nat) {
    t.news.Keys == s.news.Keys &&
    forall sl :: sl in s.news ==> t.news[sl] == if Before(sl, b, i) then Rho(s, s.news[sl]) else EMPTY
  }

  // Holding fewer slots than before leaves room for one more reference.
  lemma RoomForOne(L: Layout, s: State, t: State, v: Saved, sl: Slot)
    requires O.Valid(L, s) && IsSerialized(L, s, v) && sl in s.news && s.news[sl] != EMPTY
    requires NewsUpTo(s, t, sl.bucket, sl.pos)
    ensures var id := s.news[sl];
            id in s.info && |Holders(L, t.news, s.info[id].service, Rho(s, id))| < NEW_BUCKETS_PER_ADDRESS
  {
    hide IsSerialized, Rho, IndexOk, TriedOk;
    var id := s.news[sl];
    var now, then_ := Holders(L, t.news, s.info[id].service, Rho(s, id)), Holders(L, s.news, s.info[id].service, id);
    forall b | b in now
      ensures b in then_ - {sl.bucket}
    {
      HolderWas(L, s, t, v, id, b, sl.bucket, sl.pos);
    }
    assert sl.bucket in then_;
    assert RefOk(L, s.info[id], s.news, id);
    SubsetSize(now, then_ - {sl.bucket});
  }

  lemma SubsetSize(a: set<nat>, b: set<nat>)
    requires a <= b
    ensures |a| <= |b|
  {
    if a != {} {
      var x :| x in a;
      SubsetSize(a - {x}, b - {x});
    }
  }

  // A slot that holds a renamed entry held the entry.
  lemma HolderWas(L: Layout, s: State, t: State, v: Saved, id: int, b: nat, b0: nat, i0: nat)
    requires O.Valid(L, s) && IsSerialized(L, s, v) && id in s.info && NewsUpTo(s, t, b0, i0)
    requires b in Holders(L, t.news, s.info[id].service, Rho(s, id))
    ensures b in Holders(L, s.news, s.info[id].service, id) && Before(L.NewSlot(s.info[id].service, b), b0, i0)
  {
    hide IsSerialized, IndexOk, TriedOk;
    var sl := L.NewSlot(s.info[id].service, b);
    RhoIs(L, s, v, id);
    assert t.news[sl] == Rho(s, id) >= 0;
    assert t.news[sl] == Rho(s, s.news[sl]);
    RhoInjective(L, s, v, s.news[sl], id);
  }

  // One more position.
  ghost predicate Placing(L: Layout, s: State, v: Saved, t: State, b: nat, i: nat) {
    Stage(v, t, |v.infos|) && NewOk(L, t.info, t.news) && NewsUpTo(s, t, b, i)
  }

  lemma IndexStep(L: Layout, s: State, v: Saved, t: State, b: nat, i: nat)
    requires O.Valid(L, s) && IsSerialized(L, s, v) && Placing(L, s, v, t, b, i)
    requires Slot(b, i) in s.news && s.news[Slot(b, i)] != EMPTY
    ensures var u := LoadIndex(L, t, b, Rank(s.info, s.news[Slot(b, i)]), v.nNew, true);
            Placing(L, s, v, u, b, i + 1) && u.tried == t.tried && u.nTried == t.nTried && u.nNew == t.nNew && u.addrs == t.addrs
  {
    hide IsSerialized, Order, Inv, DomainOk, FromFirst, Rho, Rank, NewsUpTo, NewOk, Arrived;
    var sl := Slot(b, i);
    var id := s.news[sl];
    var n := Rho(s, id);
    RankIs(L, s, sl);
    RhoIs(L, s, v, id);
    SavedNew(L, s, v);
    RoomForOne(L, s, t, v, sl);
    RefsAre(L, t, n);
    ArrivedService(v, n, t.info[n].nRefCount);
    SlotFree(s, t, sl);
    AddRef(L, t.info, t.news, sl, n);
    var u := Reference(t, sl, n);
    assert LoadIndex(L, t, b, n, v.nNew, true) == u;
    StageRefs(v, t, u, n, t.info[n].nRefCount + 1);
    NewsNext(s, t, u, sl);
  }

  lemma RefsAre(L: Layout, t: State, n: int)
    requires NewOk(L, t.info, t.news) && n in t.info
    ensures t.info[n].nRefCount == |Holders(L, t.news, t.info[n].service, n)|
  {
    assert RefOk(L, t.info[n], t.news, n);
  }

  lemma ArrivedService(v: Saved, n: nat, refs: int)
    requires n < |v.infos|
    ensures Arrived(v, n, refs).service == v.infos[n].service && (Arrived(v, n, refs).fInTried <==> n >= v.nNew)
  {
  }

  lemma SlotFree(s: State, t: State, sl: Slot)
    requires NewsUpTo(s, t, sl.bucket, sl.pos) && sl in s.news
    ensures sl in t.news && t.news[sl] == EMPTY
  {
  }

  lemma NewsNext(s: State, t: State, u: State, sl: Slot)
    requires NewsUpTo(s, t, sl.bucket, sl.pos) && sl in s.news && u.news == t.news[sl := Rho(s, s.news[sl])]
    ensures NewsUpTo(s, u, sl.bucket, sl.pos + 1)
  {
    hide Rho;
  }

  lemma SavedNew(L: Layout, s: State, v: Saved)
    requires IsSerialized(L, s, v)
    ensures v.nNew == s.nNew && v.nTried == s.nTried && BucketCount(v) == L.newBuckets && |v.buckets| == L.newBuckets && v.version == 1
    ensures forall j :: 0 <= j < L.newBuckets ==> v.buckets[j] == BucketRanks(s, j, L.bucketSize)
  {
    XorTwice(L.newBuckets);
  }

  lemma XorTwice(x: nat)
    ensures Xor30(Xor30(x)) == x
  {
  }

  lemma RankIs(L: Layout, s: State, sl: Slot)
    requires O.Valid(L, s) && sl in s.news && s.news[sl] != EMPTY
    ensures s.news[sl] in s.info && Rank(s.info, s.news[sl]) == Rho(s, s.news[sl])
    ensures !s.info[s.news[sl]].fInTried && sl == L.NewSlot(s.info[s.news[sl]].service, sl.bucket) && sl.bucket < L.newBuckets
  {
    hide Order;
  }

  lemma StageRefs(v: Saved, t: State, u: State, n: nat, refs: int)
    requires Stage(v, t, |v.infos|) && n < |v.infos| && u.vRandom == t.vRandom && u.addrs == t.addrs && u.nIdCount == t.nIdCount
    requires u.info == t.info[n := t.info[n].(nRefCount := refs)]
    ensures Stage(v, u, |v.infos|)
  {
  }

  lemma {:induction false} RanksPrefix(s: State, b: nat, i: nat, n: nat)
    requires i <= n
    ensures BucketRanks(s, b, i) <= BucketRanks(s, b, n)
    decreases n
  {
    hide Rank, Cell;
    if i < n { RanksPrefix(s, b, i, n - 1); }
  }

  lemma {:induction false} BucketStage(L: Layout, s: State, v: Saved, t: State, b: nat, i: nat)
    requires O.Valid(L, s) && IsSerialized(L, s, v) && Placing(L, s, v, t, b, 0)
    requires b < L.newBuckets && i <= L.bucketSize && b < |v.buckets| && |BucketRanks(s, b, i)| <= |v.buckets[b]|
    ensures var u := IndicesLoaded(L, t, v, b, |BucketRanks(s, b, i)|);
            Placing(L, s, v, u, b, i) && u.tried == t.tried && u.nTried == t.nTried && u.nNew == t.nNew && u.addrs == t.addrs
  {
    hide IsSerialized, LoadIndex, Placing, Rank, IndicesLoaded, Inv, DomainOk, BucketRanks, Usable;
    SavedNew(L, s, v);
    UsableIs(L, v);
    if i == 0 {
      IndicesNone(L, t, v, b);
      RanksNone(s, b);
    } else {
      RanksStep(s, b, i - 1);
      RanksPrefix(s, b, i, L.bucketSize);
      BucketStage(L, s, v, t, b, i - 1);
      var n := |BucketRanks(s, b, i - 1)|;
      var u := IndicesLoaded(L, t, v, b, n);
      SlotThere(L, s, b, i - 1);
      if s.news[Slot(b, i - 1)] == EMPTY {
        SkipEmpty(L, s, v, u, b, i - 1);
      } else {
        IndexStep(L, s, v, u, b, i - 1);
        IndicesNext(L, t, v, b, n);
        assert v.buckets[b][n] == BucketRanks(s, b, i)[n];
      }
    }
  }

  lemma RanksNone(s: State, b: nat)
    ensures BucketRanks(s, b, 0) == []
  {
  }

  lemma RanksStep(s: State, b: nat, i: nat)
    ensures BucketRanks(s, b, i + 1) == BucketRanks(s, b, i) +
              if Cell(s.news, Slot(b, i)) == EMPTY then [] else [Rank(s.info, Cell(s.news, Slot(b, i)))]
  {
  }

  lemma IndicesNone(L: Layout, t: State, v: Saved, b: nat)
    requires b < |v.buckets|
    ensures IndicesLoaded(L, t, v, b, 0) == t
  {
  }

  lemma IndicesNext(L: Layout, t: State, v: Saved, b: nat, n: nat)
    requires b < |v.buckets| && n < |v.buckets[b]|
    ensures IndicesLoaded(L, t, v, b, n + 1) == LoadIndex(L, IndicesLoaded(L, t, v, b, n), b, v.buckets[b][n], v.nNew, Usable(L, v))
  {
  }

  lemma SlotThere(L: Layout, s: State, b: nat, i: nat)
    requires O.Valid(L, s) && b < L.newBuckets && i < L.bucketSize
    ensures Slot(b, i) in s.news
  {
  }

  lemma SkipEmpty(L: Layout, s: State, v: Saved, t: State, b: nat, i: nat)
    requires Placing(L, s, v, t, b, i) && Slot(b, i) in s.news && s.news[Slot(b, i)] == EMPTY
    ensures Placing(L, s, v, t, b, i + 1)
  {
    hide Stage, NewOk;
    forall sl | sl in s.news
      ensures t.news[sl] == if Before(sl, b, i + 1) then Rho(s, s.news[sl]) else EMPTY
    {
      assert Before(sl, b, i + 1) <==> Before(sl, b, i) || sl == Slot(b, i);
    }
  }

  lemma {:induction false} BucketsStage(L: Layout, s: State, v: Saved, t: State, n: nat)
    requires O.Valid(L, s) && IsSerialized(L, s, v) && Placing(L, s, v, t, 0, 0) && n <= L.newBuckets && n <= |v.buckets|
    ensures var u := BucketsLoaded(L, t, v, n);
            Placing(L, s, v, u, n, 0) && u.tried == t.tried && u.nTried == t.nTried && u.nNew == t.nNew && u.addrs == t.addrs
  {
    hide IsSerialized, Placing, IndicesLoaded, BucketRanks;
    if n > 0 {
      BucketsStage(L, s, v, t, n - 1);
      SavedNew(L, s, v);
      var u := BucketsLoaded(L, t, v, n - 1);
      BucketStage(L, s, v, u, n - 1, L.bucketSize);
      NextBucket(L, s, v, IndicesLoaded(L, u, v, n - 1, |v.buckets[n - 1]|), n - 1);
    }
  }

  lemma NextBucket(L: Layout, s: State, v: Saved, t: State, b: nat)
    requires Placing(L, s, v, t, b, L.bucketSize) && DomainOk(s.news, L.newBuckets, L.bucketSize)
    ensures Placing(L, s, v, t, b + 1, 0)
  {
    hide Stage, NewOk;
    assert forall sl :: sl in s.news ==> (Before(sl, b + 1, 0) <==> Before(sl, b, L.bucketSize));
  }

  // ---------- nothing lost ----------

  // When all slots are restored, an entry holds what it held.
  lemma SameRefs(L: Layout, s: State, v: Saved, t: State, id: int)
    requires O.Valid(L, s) && IsSerialized(L, s, v) && Placing(L, s, v, t, L.newBuckets, 0) && id in s.info
    ensures Rho(s, id) in t.info && t.info[Rho(s, id)].nRefCount == s.info[id].nRefCount
    ensures t.info[Rho(s, id)] == Restored(s.info[id], Rho(s, id))
  {
    hide IsSerialized, Order, TriedOk, IndexOk, FromFirst, LiveOk, CountsOk;
    var n := Rho(s, id);
    RhoIs(L, s, v, id);
    SavedNew(L, s, v);
    assert t.info[n] == Arrived(v, n, t.info[n].nRefCount);
    var now, was := Holders(L, t.news, s.info[id].service, n), Holders(L, s.news, s.info[id].service, id);
    forall b | b in now
      ensures b in was
    {
      HolderWas(L, s, t, v, id, b, L.newBuckets, 0);
    }
    forall b | b in was
      ensures b in now
    {
      assert Before(L.NewSlot(s.info[id].service, b), L.newBuckets, 0);
    }
    assert now == was;
    assert RefOk(L, t.info[n], t.news, n);
    assert RefOk(L, s.info[id], s.news, id);
  }

  lemma {:induction false} NothingPruned(s: State, n: nat)
    requires forall id :: id in s.info ==> s.info[id].fInTried || s.info[id].nRefCount != 0
    ensures Pruned(s, n) == s
  {
    if n > 0 { NothingPruned(s, n - 1); }
  }

  lemma {:induction false} SlotCount(t: Table, buckets: nat, size: nat)
    requires DomainOk(t, buckets, size)
    ensures |t.Keys| == buckets * size
    decreases buckets
  {
    if buckets == 0 {
      assert t.Keys == {};
    } else {
      var low := map sl | sl in t && sl.bucket < buckets - 1 :: t[sl];
      SlotCount(low, buckets - 1, size);
      var row := Row(buckets - 1, size);
      assert t.Keys == low.Keys + row;
      assert (buckets - 1) * size + size == buckets * size;
    }
  }

  function Row(b: nat, size: nat): (r: set<Slot>)
    ensures |r| == size && forall sl :: sl in r <==> sl.bucket == b && sl.pos < size
  {
    if size == 0 then {} else Row(b, size - 1) + {Slot(b, size - 1)}
  }

  ghost predicate Occurs(t: Table, id: int) { exists sl :: sl in t && t[sl] == id }

  lemma OccursElsewhere(t: Table, k: Slot, id: int)
    requires Occurs(t, id) && k in t && t[k] != id
    ensures Occurs(t - {k}, id)
  {
    var sl :| sl in t && t[sl] == id;
    assert sl in t - {k} && (t - {k})[sl] == id;
  }

  // No more entries than slots.
  lemma {:induction false} AtMostSlots(ids: seq<int>, t: Table)
    requires forall i, j :: 0 <= i < j < |ids| ==> ids[i] != ids[j]
    requires forall i :: 0 <= i < |ids| ==> Occurs(t, ids[i])
    ensures |ids| <= |t.Keys|
  {
    if ids != [] {
      var n := |ids| - 1;
      assert Occurs(t, ids[n]);
      var k :| k in t && t[k] == ids[n];
      forall i | 0 <= i < n
        ensures Occurs(t - {k}, ids[i])
      {
        OccursElsewhere(t, k, ids[i]);
      }
      AtMostSlots(ids[..n], t - {k});
      assert t.Keys == (t - {k}).Keys + {k};
    }
  }

  lemma CountsFit(L: Layout, s: State)
    requires O.Valid(L, s)
    ensures s.nNew <= L.newBuckets * L.bucketSize && s.nTried <= L.triedBuckets * L.bucketSize
  {
    hide Order, Occurs;
    Sizes(L, s);
    SlotCount(s.news, L.newBuckets, L.bucketSize);
    SlotCount(s.tried, L.triedBuckets, L.bucketSize);
    OrderOccurs(L, s, false);
    OrderOccurs(L, s, true);
    AtMostSlots(Order(s.info, s.nIdCount, false), s.news);
    AtMostSlots(Order(s.info, s.nIdCount, true), s.tried);
  }

  lemma OrderOccurs(L: Layout, s: State, tried: bool)
    requires O.Valid(L, s)
    ensures s.nIdCount >= 0
    ensures var ids := Order(s.info, s.nIdCount, tried);
            && (forall i, j :: 0 <= i < j < |ids| ==> ids[i] != ids[j])
            && forall i :: 0 <= i < |ids| ==> Occurs(if tried then s.tried else s.news, ids[i])
  {
    hide Order, IndexOk, LiveOk, CountsOk, DomainOk;
    var ids := Order(s.info, s.nIdCount, tried);
    forall i, j | 0 <= i < j < |ids|
      ensures ids[i] != ids[j]
    {
      OrderFrom(s.info, s.nIdCount, tried, i);
      OrderFrom(s.info, s.nIdCount, tried, j);
    }
    forall i | 0 <= i < |ids|
      ensures Occurs(if tried then s.tried else s.news, ids[i])
    {
      OrderFrom(s.info, s.nIdCount, tried, i);
      var id := ids[i];
      if tried {
        assert L.TriedSlot(s.info[id].service) in s.tried;
      } else {
        assert RefOk(L, s.info[id], s.news, id);
        var b := ReferencedIsFound(L, s.info, s.news, id);
      }
    }
  }

  lemma SavedDistinct(L: Layout, s: State, v: Saved)
    requires O.Valid(L, s) && IsSerialized(L, s, v)
    ensures DistinctNets(v) && TriedDistinct(L, v) && |v.infos| == s.nNew + s.nTried
  {
    hide IsSerialized, Rho, NewOk, LiveOk, CountsOk;
    SavedNew(L, s, v);
    InfosCount(L, s, v);
    forall j, k | 0 <= j < k < |v.infos|
      ensures v.infos[j].service.net != v.infos[k].service.net
      ensures j >= v.nNew ==> L.TriedSlot(v.infos[j].service) != L.TriedSlot(v.infos[k].service)
    {
      var a := RhoBack(L, s, v, j);
      var b := RhoBack(L, s, v, k);
      RhoIs(L, s, v, a);
      RhoIs(L, s, v, b);
    }
  }

  lemma InfosCount(L: Layout, s: State, v: Saved)
    requires O.Valid(L, s) && IsSerialized(L, s, v)
    ensures |v.infos| == s.nNew + s.nTried
  {
    hide Order, BucketRanks;
    Sizes(L, s);
  }

  lemma NoThrow(L: Layout, s: State, v: Saved)
    requires O.Valid(L, s) && IsSerialized(L, s, v)
    ensures !Throws(L, v)
  {
    hide Order, BucketRanks, Inv, DomainOk;
    CountsFit(L, s);
    InfosCount(L, s, v);
    SavedNew(L, s, v);
  }

  lemma UsableIs(L: Layout, v: Saved)
    requires v.version == 1 && BucketCount(v) == L.newBuckets
    ensures Usable(L, v)
  {
  }

  lemma SameTables(L: Layout, s: State, t: State)
    requires O.Valid(L, s) && O.Valid(L, t)
    ensures s.news.Keys == t.news.Keys && s.tried.Keys == t.tried.Keys && DomainOk(t.tried, L.triedBuckets, L.bucketSize) && L.Valid()
  {
    hide Inv;
  }

  // Before the positions are read, the new table is empty and nothing is referenced.
  lemma StartPlacing(L: Layout, s: State, v: Saved, t: State)
    requires Stage(v, t, |v.infos|) && O.Vacant(t.news) && t.news.Keys == s.news.Keys
    requires forall k :: 0 <= k < |v.infos| ==> k in t.info && t.info[k].nRefCount == 0
    ensures Placing(L, s, v, t, 0, 0)
  {
    hide FromFirst, Arrived, Rho;
    forall id | id in t.info
      ensures RefOk(L, t.info[id], t.news, id)
    {
      assert Holders(L, t.news, t.info[id].service, id) == {};
    }
  }

  lemma TriedSame(L: Layout, v: Saved, a: State, b: State)
    requires TriedUpTo(L, v, a, |v.infos|) && a.tried == b.tried
    ensures TriedUpTo(L, v, b, |v.infos|)
  {
  }

  lemma AllThere(L: Layout, s: State, v: Saved, t: State)
    requires O.Valid(L, s) && IsSerialized(L, s, v) && Placing(L, s, v, t, L.newBuckets, 0)
    ensures forall id :: id in t.info ==> t.info[id].fInTried || t.info[id].nRefCount != 0
  {
    hide IsSerialized, Rho, NewOk, TriedOk, IndexOk, FromFirst, CountsOk;
    forall k | k in t.info
      ensures t.info[k].fInTried || t.info[k].nRefCount != 0
    {
      var id := RhoBack(L, s, v, k);
      SameRefs(L, s, v, t, id);
    }
  }

  lemma MatchesTried(L: Layout, s: State, v: Saved, t: State, sl: Slot)
    requires O.Valid(L, s) && IsSerialized(L, s, v) && TriedUpTo(L, v, t, |v.infos|) && t.tried.Keys == s.tried.Keys && sl in s.tried
    ensures t.tried[sl] == Rho(s, s.tried[sl])
  {
    hide IsSerialized, NewOk, IndexOk, LiveOk, CountsOk, Order;
    SavedNew(L, s, v);
    if s.tried[sl] != EMPTY {
      RhoIs(L, s, v, s.tried[sl]);
    } else if t.tried[sl] != EMPTY {
      var id := RhoBack(L, s, v, t.tried[sl]);
      RhoIs(L, s, v, id);
    }
  }

  lemma MatchesAddrs(L: Layout, s: State, v: Saved, t: State)
    requires O.Valid(L, s) && IsSerialized(L, s, v) && Stage(v, t, |v.infos|)
    ensures t.addrs.Keys == s.addrs.Keys && forall a :: a in s.addrs ==> t.addrs[a] == Rho(s, s.addrs[a])
  {
    hide IsSerialized, NewOk, TriedOk, LiveOk, CountsOk, Order, Rho;
    forall a | a in s.addrs
      ensures a in t.addrs && t.addrs[a] == Rho(s, s.addrs[a])
    {
      RhoIs(L, s, v, s.addrs[a]);
    }
    forall a | a in t.addrs
      ensures a in s.addrs
    {
      var j :| 0 <= j < |v.infos| && v.infos[j].service.net == a;
      var id := RhoBack(L, s, v, j);
      RhoIs(L, s, v, id);
    }
  }

  lemma MatchesIs(L: Layout, s: State, v: Saved, t: State)
    requires O.Valid(L, s) && IsSerialized(L, s, v) && Placing(L, s, v, t, L.newBuckets, 0)
    requires TriedUpTo(L, v, t, |v.infos|) && t.tried.Keys == s.tried.Keys && t.nNew == s.nNew && t.nTried == s.nTried
    ensures Matches(s, t)
  {
    hide IsSerialized, Inv, Rho, Restored, TriedUpTo, FromFirst, Arrived, NewOk;
    MatchesAddrs(L, s, v, t);
    forall sl | sl in s.tried
      ensures t.tried[sl] == Rho(s, s.tried[sl])
    {
      MatchesTried(L, s, v, t, sl);
    }
    forall id | id in s.info
      ensures Rho(s, id) in t.info && t.info[Rho(s, id)] == Restored(s.info[id], Rho(s, id))
    {
      SameRefs(L, s, v, t, id);
    }
    forall k | k in t.info
      ensures exists id :: id in s.info && Rho(s, id) == k
    {
      var id := RhoBack(L, s, v, k);
    }
    forall sl | sl in s.news
      ensures t.news[sl] == Rho(s, s.news[sl])
    {
      assert Before(sl, L.newBuckets, 0);
    }
  }

  // Reading back what was written: the same tables and entries, renumbered, nothing lost.
  lemma RoundTrip(L: Layout, s: State, v: Saved, clear: State)
    requires O.Valid(L, s) && IsSerialized(L, s, v)
    requires IsClear(L, clear)
    ensures !Throws(L, v)
    ensures Matches(s, Loaded(L, clear, v)) && DistinctNets(v)
  {
    hide IsSerialized, Inv, Stage, NewsUpTo, TriedUpTo, TriedDistinct, DistinctNets, NewLoaded, TriedLoaded, BucketsLoaded,
      Pruned, Placing, Rho, Restored, Matches, DomainOk, Usable, BucketCount, Throws, O.Vacant;
    NoThrow(L, s, v);
    SavedNew(L, s, v);
    SavedDistinct(L, s, v);
    UsableIs(L, v);
    SameTables(L, s, clear);
    InfosCount(L, s, v);
    var s0 := clear.(nNew := v.nNew);
    NewStage(L, s0, v, v.nNew);
    var a := NewLoaded(L, s0, v, v.nNew);
    TriedStage(L, a, v, v.nTried);
    var b := TriedLoaded(L, a, v, v.nTried);
    StageIds(v, a, v.nNew);
    StageIds(v, b, |v.infos|);
    StartPlacing(L, s, v, b);
    BucketsStage(L, s, v, b, L.newBuckets);
    var c := BucketsLoaded(L, b, v, L.newBuckets);
    AllThere(L, s, v, c);
    NothingPruned(c, Max0(c.nIdCount));
    TriedSame(L, v, b, c);
    MatchesIs(L, s, v, c);
  }

  // ---------- any stream ----------

  // vRandom and nRandomPos are inverse, whatever the addresses are.
  ghost predicate RandomOk(s: State) {
    && (forall id :: id in s.info ==> id < s.nIdCount && 0 <= s.info[id].nRandomPos < |s.vRandom| && s.vRandom[s.info[id].nRandomPos] == id)
    && (forall i :: 0 <= i < |s.vRandom| ==> s.vRandom[i] in s.info && s.info[s.vRandom[i]].nRandomPos == i)
  }

  lemma CreateRandom(s: State, i: AddrInfo)
    requires RandomOk(s)
    ensures RandomOk(Create(s, i))
  {
  }

  lemma ReferenceRandom(s: State, sl: Slot, id: int)
    requires RandomOk(s) && id in s.info
    ensures RandomOk(Reference(s, sl, id))
  {
  }

  lemma PromoteRandom(s: State, k: Slot, id: int)
    requires RandomOk(s) && id in s.info
    ensures RandomOk(Promote(s, k, id))
  {
  }

  lemma LoadRandom(L: Layout, s: State, r: Record, direct: bool)
    requires RandomOk(s)
    ensures RandomOk(LoadNew(L, s, r, direct)) && RandomOk(LoadTried(L, s, r))
  {
    hide RandomOk;
    CreateRandom(s, InfoFrom(r));
    var t := Create(s, InfoFrom(r));
    ReferenceRandom(t, HomeSlot(L, InfoFrom(r)), s.nIdCount);
    PromoteRandom(t, L.TriedSlot(r.service), s.nIdCount);
  }

  lemma LoadIndexRandom(L: Layout, s: State, b: nat, n: int, nNew: nat, usable: bool)
    requires RandomOk(s) && NewOnes(s, nNew)
    ensures RandomOk(LoadIndex(L, s, b, n, nNew, usable)) && NewOnes(LoadIndex(L, s, b, n, nNew, usable), nNew)
  {
    hide RandomOk;
    if 0 <= n < nNew { ReferenceRandom(s, L.NewSlot(InfoOf(s, n).service, b), n); }
  }

  lemma SwapRandomOk(s: State, i: nat, j: nat)
    requires RandomOk(s) && i < |s.vRandom| && j < |s.vRandom|
    ensures RandomOk(SwapRandom(s, i, j))
    ensures |SwapRandom(s, i, j).vRandom| == |s.vRandom| && SwapRandom(s, i, j).vRandom[j] == s.vRandom[i]
  {
    if i != j {
      var t := SwapRandom(s, i, j);
      assert s.vRandom[i] != s.vRandom[j];
      forall id | id in t.info
        ensures id < t.nIdCount && 0 <= t.info[id].nRandomPos < |t.vRandom| && t.vRandom[t.info[id].nRandomPos] == id
      {
        assert id in s.info;
        assert s.info[id].nRandomPos == i <==> id == s.vRandom[i];
        assert s.info[id].nRandomPos == j <==> id == s.vRandom[j];
      }
    }
  }

  lemma DeleteRandom(s: State, id: int)
    requires RandomOk(s) && id in s.info
    ensures RandomOk(Delete(s, id))
  {
    hide SwapRandom;
    var n := |s.vRandom| - 1;
    SwapRandomOk(s, s.info[id].nRandomPos, n);
    var t := SwapRandom(s, s.info[id].nRandomPos, n);
    assert t.vRandom[n] == id;
  }
}
