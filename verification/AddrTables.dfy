/**
 * The redundant structures of the address manager (src/addrman.cpp, src/addrman.h) as
 * values, and the structural clauses of CAddrMan::Check_ that tie them together.
 *
 * Bucket and position hashing is left uninterpreted: `Layout` carries the functions and
 * the table sizes.
 */
module AddrTables {

  type NetAddr = nat
  datatype Service = Service(net: NetAddr, port: nat)

  datatype Layout = Layout(
    newBuckets: nat,
    triedBuckets: nat,
    bucketSize: nat,
    newBucketOf: (Service, NetAddr) -> nat,
    triedBucketOf: Service -> nat,
    positionOf: (Service, bool, nat) -> nat)
  {
    ghost predicate Valid() {
      && (forall s: Service, src: NetAddr :: newBucketOf(s, src) < newBuckets)
      && (forall s: Service :: triedBucketOf(s) < triedBuckets)
      && (forall s: Service, isNew: bool, b: nat :: positionOf(s, isNew, b) < bucketSize)
    }

    function NewSlot(s: Service, bucket: nat): Slot {
      Slot(bucket, positionOf(s, true, bucket))
    }

    function TriedSlot(s: Service): Slot {
      Slot(triedBucketOf(s), positionOf(s, false, triedBucketOf(s)))
    }
  }

  datatype AddrInfo = AddrInfo(
    service: Service,
    nTime: int,
    nServices: set<nat>,
    source: NetAddr,
    nLastSuccess: int,
    nLastTry: int,
    nLastCountAttempt: int,
    nAttempts: int,
    nRefCount: int,
    fInTried: bool,
    nRandomPos: int)

  const NEW_BUCKETS_PER_ADDRESS := 8
  const EMPTY := -1

  datatype Slot = Slot(bucket: nat, pos: nat)

  // A table of ids, EMPTY where a slot is free.
  type Table = map<Slot, int>
  type Infos = map<int, AddrInfo>

  // ---------- the clauses of Check_ ----------

  // The buckets of the new table that hold id, for an entry with the given address.
  function Holders(L: Layout, t: Table, s: Service, id: int): set<nat> {
    set b: nat | 0 <= b < L.newBuckets && L.NewSlot(s, b) in t && t[L.NewSlot(s, b)] == id
  }

  // Clauses -12, -15 and -19: new slots hold new entries at their hashed position, and a
  // reference count is the number of slots held.
  ghost predicate NewOk(L: Layout, info: Infos, t: Table) {
    && EMPTY !in info
    && (forall sl :: sl in t && t[sl] != EMPTY ==>
          && t[sl] in info
          && !info[t[sl]].fInTried
          && sl == L.NewSlot(info[t[sl]].service, sl.bucket)
          && sl.bucket < L.newBuckets)
    && (forall id :: id in info ==> RefOk(L, info[id], t, id))
  }

  predicate RefOk(L: Layout, i: AddrInfo, t: Table, id: int) {
    i.nRefCount == |Holders(L, t, i.service, id)|
  }

  // Clauses -11, -13, -17 and -18: tried entries and the tried table determine each other.
  ghost predicate TriedOk(L: Layout, info: Infos, t: Table) {
    && (forall sl :: sl in t && t[sl] != EMPTY ==>
          t[sl] in info && info[t[sl]].fInTried && sl == L.TriedSlot(info[t[sl]].service))
    && (forall id :: id in info && info[id].fInTried ==>
          L.TriedSlot(info[id].service) in t && t[L.TriedSlot(info[id].service)] == id)
  }

  // Clauses -5 and -14: mapAddr and vRandom are inverses of what mapInfo records.
  ghost predicate IndexOk(info: Infos, addrs: map<NetAddr, int>, vRandom: seq<int>, nIdCount: int) {
    && (forall id :: id in info ==>
          && 0 <= id < nIdCount
          && info[id].service.net in addrs && addrs[info[id].service.net] == id
          && 0 <= info[id].nRandomPos < |vRandom| && vRandom[info[id].nRandomPos] == id)
    && (forall a :: a in addrs ==> addrs[a] in info && info[addrs[a]].service.net == a)
    && (forall i :: 0 <= i < |vRandom| ==> vRandom[i] in info && info[vRandom[i]].nRandomPos == i)
  }

  function TriedIds(info: Infos): set<int> {
    set id | id in info && info[id].fInTried
  }

  function NewIds(info: Infos): set<int> {
    set id | id in info && !info[id].fInTried
  }

  // Clauses -9 and -10, with `ahead` entries in transit that nNew does not count.
  predicate CountsOk(info: Infos, nNew: int, nTried: int, ahead: int) {
    nTried == |TriedIds(info)| && nNew + ahead == |NewIds(info)|
  }

  // Clauses -3 and -4: every new entry is referenced, and at most eight times, except that
  // the entries in `loose` may be unreferenced.
  predicate LiveOk(info: Infos, loose: set<int>) {
    forall id :: id in info ==>
      && info[id].nRefCount <= NEW_BUCKETS_PER_ADDRESS
      && (!info[id].fInTried && id !in loose ==> info[id].nRefCount >= 1)
  }

  ghost predicate DomainOk(t: Table, buckets: nat, size: nat) {
    forall sl :: sl in t <==> sl.bucket < buckets && sl.pos < size
  }

  // ---------- slots ----------

  // A scan that has come to position i of bucket b has passed the slot.
  ghost predicate Before(sl: Slot, b: nat, i: nat) { sl.bucket < b || (sl.bucket == b && sl.pos < i) }

  lemma HoldersAfterWrite(L: Layout, t: Table, sl: Slot, x: int, s: Service, id: int)
    requires sl in t && sl.bucket < L.newBuckets
    ensures Holders(L, t[sl := x], s, id)
            == if sl != L.NewSlot(s, sl.bucket) then Holders(L, t, s, id)
               else if x == id then Holders(L, t, s, id) + {sl.bucket}
               else Holders(L, t, s, id) - {sl.bucket}
  {
  }

  // Dropping the reference held by one slot.
  lemma DropRef(L: Layout, info: Infos, t: Table, sl: Slot)
    requires NewOk(L, info, t) && sl in t && t[sl] != EMPTY
    ensures info[t[sl]].nRefCount >= 1
    ensures var id := t[sl];
            NewOk(L, info[id := info[id].(nRefCount := info[id].nRefCount - 1)], t[sl := EMPTY])
  {
    var id := t[sl];
    var info' := info[id := info[id].(nRefCount := info[id].nRefCount - 1)];
    var t' := t[sl := EMPTY];
    assert RefOk(L, info[id], t, id);
    assert sl.bucket in Holders(L, t, info[id].service, id);
    HoldersAfterWrite(L, t, sl, EMPTY, info[id].service, id);
    forall j | j in info'
      ensures RefOk(L, info'[j], t', j)
    {
      assert RefOk(L, info[j], t, j);
      HoldersAfterWrite(L, t, sl, EMPTY, info[j].service, j);
      if j != id {
        assert Holders(L, t', info[j].service, j) == Holders(L, t, info[j].service, j);
      }
    }
  }

  // Referencing a new entry from a free slot.
  lemma AddRef(L: Layout, info: Infos, t: Table, sl: Slot, id: int)
    requires NewOk(L, info, t) && sl in t && t[sl] == EMPTY
    requires id in info && !info[id].fInTried
    requires sl == L.NewSlot(info[id].service, sl.bucket) && sl.bucket < L.newBuckets
    ensures NewOk(L, info[id := info[id].(nRefCount := info[id].nRefCount + 1)], t[sl := id])
  {
    var info' := info[id := info[id].(nRefCount := info[id].nRefCount + 1)];
    var t' := t[sl := id];
    forall j | j in info'
      ensures RefOk(L, info'[j], t', j)
    {
      assert RefOk(L, info[j], t, j);
      HoldersAfterWrite(L, t, sl, id, info[j].service, j);
      if j != id {
        assert Holders(L, t', info[j].service, j) == Holders(L, t, info[j].service, j);
      }
    }
  }

  // An unreferenced entry is nowhere in the new table.
  lemma UnreferencedIsAbsent(L: Layout, info: Infos, t: Table, id: int)
    requires NewOk(L, info, t) && id in info && info[id].nRefCount == 0
    ensures forall sl :: sl in t ==> t[sl] != id
  {
    assert RefOk(L, info[id], t, id);
    assert forall sl :: sl in t && t[sl] == id ==> sl.bucket in Holders(L, t, info[id].service, id);
  }

  // Tried entries hold no new slots.
  lemma TriedIsUnreferenced(L: Layout, info: Infos, t: Table, id: int)
    requires NewOk(L, info, t) && id in info && info[id].fInTried
    ensures info[id].nRefCount == 0
  {
    assert RefOk(L, info[id], t, id);
    assert forall sl :: sl in t ==> t[sl] != id;
    assert Holders(L, t, info[id].service, id) == {};
  }

  // A referenced entry is found by probing its own position in every bucket.
  lemma ReferencedIsFound(L: Layout, info: Infos, t: Table, id: int) returns (b: nat)
    requires NewOk(L, info, t) && id in info && info[id].nRefCount >= 1
    ensures b < L.newBuckets && L.NewSlot(info[id].service, b) in t && t[L.NewSlot(info[id].service, b)] == id
  {
    assert RefOk(L, info[id], t, id);
    b :| b in Holders(L, t, info[id].service, id);
  }

  // ---------- entries ----------

  // Same entries in the same tables; other fields may differ.
  ghost predicate SameRoles(a: Infos, b: Infos) {
    && a.Keys == b.Keys
    && forall id :: id in a ==>
         && a[id].service == b[id].service
         && a[id].nRefCount == b[id].nRefCount
         && a[id].fInTried == b[id].fInTried
  }

  lemma SameRolesKeep(L: Layout, a: Infos, b: Infos, news: Table, tried: Table, loose: set<int>)
    requires SameRoles(a, b)
    ensures NewOk(L, a, news) ==> NewOk(L, b, news)
    ensures TriedOk(L, a, tried) ==> TriedOk(L, b, tried)
    ensures TriedIds(b) == TriedIds(a) && NewIds(b) == NewIds(a)
    ensures LiveOk(a, loose) ==> LiveOk(b, loose)
  {
    assert forall id :: id in a <==> id in b;
    if NewOk(L, a, news) {
      forall id | id in b
        ensures RefOk(L, b[id], news, id)
      {
        assert RefOk(L, a[id], news, id);
      }
    }
  }

  // Same entries at the same places; reference counts may differ.
  ghost predicate SamePlaces(a: Infos, b: Infos) {
    && a.Keys == b.Keys
    && forall id :: id in a ==>
         && a[id].service == b[id].service
         && a[id].nRandomPos == b[id].nRandomPos
         && a[id].fInTried == b[id].fInTried
  }

  lemma SamePlacesKeep(L: Layout, a: Infos, b: Infos, addrs: map<NetAddr, int>, v: seq<int>, n: int, tried: Table)
    requires SamePlaces(a, b)
    ensures IndexOk(a, addrs, v, n) ==> IndexOk(b, addrs, v, n)
    ensures TriedOk(L, a, tried) ==> TriedOk(L, b, tried)
    ensures TriedIds(b) == TriedIds(a) && NewIds(b) == NewIds(a)
  {
    assert forall id :: id in a <==> id in b;
    forall id | id in a
      ensures a[id].fInTried == b[id].fInTried
    {
    }
  }

  lemma LiveAfterSet(a: Infos, id: int, i: AddrInfo, loose: set<int>)
    requires LiveOk(a, loose) && i.nRefCount <= NEW_BUCKETS_PER_ADDRESS
    ensures LiveOk(a[id := i], loose + {id})
  {
  }

  // An entry leaves the tried table ...
  lemma TriedDemote(L: Layout, a: Infos, t: Table, k: Slot)
    requires TriedOk(L, a, t) && k in t && t[k] != EMPTY
    ensures t[k] in a && a[t[k]].fInTried
    ensures var b := a[t[k] := a[t[k]].(fInTried := false)];
            && TriedOk(L, b, t[k := EMPTY])
            && TriedIds(b) == TriedIds(a) - {t[k]} && NewIds(b) == NewIds(a) + {t[k]}
  {
  }

  // ... or enters it.
  lemma TriedPromote(L: Layout, a: Infos, t: Table, k: Slot, id: int)
    requires TriedOk(L, a, t) && k in t && t[k] == EMPTY
    requires EMPTY !in a && id in a && !a[id].fInTried && k == L.TriedSlot(a[id].service)
    ensures var b := a[id := a[id].(fInTried := true)];
            TriedOk(L, b, t[k := id])
  {
  }

  // A new id that no table mentions yet.
  lemma CreateKeeps(L: Layout, a: Infos, id: int, i: AddrInfo, news: Table, tried: Table, loose: set<int>)
    requires NewOk(L, a, news) && TriedOk(L, a, tried) && id !in a && id != EMPTY
    requires i.nRefCount == 0 && !i.fInTried
    ensures NewOk(L, a[id := i], news) && TriedOk(L, a[id := i], tried)
    ensures TriedIds(a[id := i]) == TriedIds(a) && NewIds(a[id := i]) == NewIds(a) + {id}
    ensures LiveOk(a, loose) ==> LiveOk(a[id := i], loose + {id})
  {
    var b := a[id := i];
    forall j | j in b
      ensures RefOk(L, b[j], news, j)
    {
      if j == id {
        assert Holders(L, news, i.service, id) == {};
      } else {
        assert RefOk(L, a[j], news, j);
      }
    }
  }

  // Removing an unreferenced new entry.
  lemma DeleteKeeps(L: Layout, a: Infos, id: int, news: Table, tried: Table, loose: set<int>)
    requires NewOk(L, a, news) && TriedOk(L, a, tried) && id in a
    requires a[id].nRefCount == 0 && !a[id].fInTried
    ensures NewOk(L, a - {id}, news) && TriedOk(L, a - {id}, tried)
    ensures TriedIds(a - {id}) == TriedIds(a) && NewIds(a - {id}) == NewIds(a) - {id}
    ensures LiveOk(a, loose) ==> LiveOk(a - {id}, loose - {id})
  {
    UnreferencedIsAbsent(L, a, news, id);
    forall j | j in a - {id}
      ensures RefOk(L, (a - {id})[j], news, j)
    {
      assert RefOk(L, a[j], news, j);
    }
  }

  // ---------- vRandom and mapAddr ----------

  function SwapInfo(a: Infos, v: seq<int>, i: nat, j: nat): Infos
    requires i < |v| && j < |v| && v[i] in a && v[j] in a
  {
    var b := a[v[i] := a[v[i]].(nRandomPos := j)];
    b[v[j] := b[v[j]].(nRandomPos := i)]
  }

  lemma SwapKeepsIndex(a: Infos, addrs: map<NetAddr, int>, v: seq<int>, n: int, i: nat, j: nat)
    requires IndexOk(a, addrs, v, n) && i < |v| && j < |v| && i != j
    ensures IndexOk(SwapInfo(a, v, i, j), addrs, v[i := v[j]][j := v[i]], n)
    ensures SameRoles(SwapInfo(a, v, i, j), a)
  {
    assert v[i] != v[j];
    var b := SwapInfo(a, v, i, j);
    var w := v[i := v[j]][j := v[i]];
    forall id | id in b
      ensures 0 <= b[id].nRandomPos < |w| && w[b[id].nRandomPos] == id
    {
      assert a[id].nRandomPos == i <==> id == v[i];
      assert a[id].nRandomPos == j <==> id == v[j];
    }
  }

  lemma PopKeepsIndex(a: Infos, addrs: map<NetAddr, int>, v: seq<int>, n: int, id: int)
    requires IndexOk(a, addrs, v, n) && |v| > 0 && id == v[|v| - 1]
    ensures IndexOk(a - {id}, addrs - {a[id].service.net}, v[..|v| - 1], n)
  {
  }

  lemma PushKeepsIndex(a: Infos, addrs: map<NetAddr, int>, v: seq<int>, n: int, i: AddrInfo)
    requires IndexOk(a, addrs, v, n) && n >= 0
    requires i.service.net !in addrs && i.nRandomPos == |v|
    ensures IndexOk(a[n := i], addrs[i.service.net := n], v + [n], n + 1)
  {
    assert n !in a;
  }

  // Clause -7: vRandom lists every entry once.
  lemma RandomListsAll(a: Infos, addrs: map<NetAddr, int>, v: seq<int>, n: int)
    requires IndexOk(a, addrs, v, n)
    ensures |v| == |a| == |TriedIds(a)| + |NewIds(a)|
  {
    assert forall id :: id in a ==> v[a[id].nRandomPos] == id;
    assert a.Keys == set id | id in v;
    DistinctCount(v);
    assert a.Keys == TriedIds(a) + NewIds(a);
    assert |a.Keys| == |a|;
  }

  lemma {:induction false} DistinctCount(v: seq<int>)
    requires forall i, j :: 0 <= i < j < |v| ==> v[i] != v[j]
    ensures |v| == |set id | id in v|
  {
    if v == [] {
      assert (set id | id in v) == {};
    } else {
      var x, w := v[|v| - 1], v[..|v| - 1];
      assert v == w + [x];
      assert (set id | id in v) == (set id | id in w) + {x};
      DistinctCount(w);
    }
  }
}
