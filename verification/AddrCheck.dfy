/**
 * CAddrMan::Check_ (src/addrman.cpp): the source's own consistency test, clause by clause and
 * in its order.
 */
module AddrCheck {
  import opened AddrTables
  import opened AddrState
  import O = AddrOps

  // The first failing clause, or the sets still to be accounted for.
  datatype Scan = Bad(code: int) | Good(tried: set<int>, news: map<int, int>)

  function CheckEntry(s: State, n: int, tried: set<int>, news: map<int, int>): Scan
    requires n in s.info
  {
    var i := s.info[n];
    if i.fInTried && i.nLastSuccess == 0 then Bad(-1)
    else if i.fInTried && i.nRefCount != 0 then Bad(-2)
    else if !i.fInTried && (i.nRefCount < 0 || i.nRefCount > NEW_BUCKETS_PER_ADDRESS) then Bad(-3)
    else if !i.fInTried && i.nRefCount == 0 then Bad(-4)
    else if i.service.net !in s.addrs || s.addrs[i.service.net] != n then Bad(-5)
    else if i.nRandomPos < 0 || i.nRandomPos >= |s.vRandom| || s.vRandom[i.nRandomPos] != n then Bad(-14)
    else if i.nLastTry < 0 then Bad(-6)
    else if i.nLastSuccess < 0 then Bad(-8)
    else if i.fInTried then Good(tried + {n}, news) else Good(tried, news[n := i.nRefCount])
  }

  // The loop over mapInfo, for the ids below n.
  function CheckEntries(s: State, n: nat): Scan {
    if n == 0 then Good({}, map[])
    else match CheckEntries(s, n - 1)
      case Bad(c) => Bad(c)
      case Good(tried, news) => if n - 1 in s.info then CheckEntry(s, n - 1, tried, news) else Good(tried, news)
  }

  function CheckTriedSlot(L: Layout, s: State, sl: Slot, acc: Scan): Scan {
    match acc
    case Bad(c) => Bad(c)
    case Good(tried, news) =>
      var x := Cell(s.tried, sl);
      if x == EMPTY then acc
      else if x !in tried then Bad(-11)
      else if L.triedBucketOf(InfoOf(s, x).service) != sl.bucket then Bad(-17)
      else if L.positionOf(InfoOf(s, x).service, false, sl.bucket) != sl.pos then Bad(-18)
      else Good(tried - {x}, news)
  }

  function CheckNewSlot(L: Layout, s: State, sl: Slot, acc: Scan): Scan {
    match acc
    case Bad(c) => Bad(c)
    case Good(tried, news) =>
      var x := Cell(s.news, sl);
      if x == EMPTY then acc
      else if x !in news then Bad(-12)
      else if L.positionOf(InfoOf(s, x).service, true, sl.bucket) != sl.pos then Bad(-19)
      else if news[x] - 1 == 0 then Good(tried, news - {x})
      else Good(tried, news[x := news[x] - 1])
  }

  function CheckSlot(L: Layout, s: State, isNew: bool, sl: Slot, acc: Scan): Scan {
    if isNew then CheckNewSlot(L, s, sl, acc) else CheckTriedSlot(L, s, sl, acc)
  }

  // The slots of bucket b before position i, after those of the buckets before b.
  function CheckTable(L: Layout, s: State, isNew: bool, acc: Scan, b: nat, i: nat): Scan
    decreases b, i
  {
    if i > 0 then CheckSlot(L, s, isNew, Slot(b, i - 1), CheckTable(L, s, isNew, acc, b, i - 1))
    else if b > 0 then CheckTable(L, s, isNew, acc, b - 1, L.bucketSize)
    else acc
  }

  function Check(L: Layout, s: State, keyNull: bool): int {
    if |s.vRandom| != s.nTried + s.nNew then -7
    else
      match CheckEntries(s, if s.nIdCount < 0 then 0 else s.nIdCount)
      case Bad(c) => c
      case Good(tried, news) =>
        if |tried| != s.nTried then -9
        else if |news| != s.nNew then -10
        else
          var afterTried := CheckTable(L, s, false, Good(tried, news), L.triedBuckets, 0);
          match CheckTable(L, s, true, afterTried, L.newBuckets, 0)
          case Bad(c) => c
          case Good(triedLeft, newsLeft) => if triedLeft != {} then -13 else if newsLeft != map[] then -15 else if keyNull then -16 else 0
  }

  // ---------- every consistent state passes ----------

  // Clauses -1, -6 and -8: no time is negative, and a tried entry has had a success.
  predicate EntryTimes(i: AddrInfo) {
    i.nLastTry >= 0 && i.nLastSuccess >= 0 && (i.fInTried ==> i.nLastSuccess != 0)
  }

  predicate TimesOk(info: Infos) {
    forall id :: id in info ==> EntryTimes(info[id])
  }

  ghost predicate EntriesDone(s: State, n: nat, r: Scan) {
    && r.Good?
    && (forall id :: id in r.tried <==> id in s.info && id < n && s.info[id].fInTried)
    && (forall id :: id in r.news <==> id in s.info && id < n && !s.info[id].fInTried)
    && (forall id :: id in r.news ==> r.news[id] == s.info[id].nRefCount)
  }

  lemma EntryPasses(L: Layout, s: State, id: int, tried: set<int>, news: map<int, int>)
    requires O.Valid(L, s) && id in s.info && EntryTimes(s.info[id])
    ensures 0 <= id < s.nIdCount
    ensures CheckEntry(s, id, tried, news) ==
              if s.info[id].fInTried then Good(tried + {id}, news) else Good(tried, news[id := s.info[id].nRefCount])
  {
    if s.info[id].fInTried { TriedIsUnreferenced(L, s.info, s.news, id); }
  }

  lemma {:induction false} EntriesPass(L: Layout, s: State, n: nat)
    requires O.Valid(L, s) && TimesOk(s.info)
    ensures EntriesDone(s, n, CheckEntries(s, n))
  {
    hide Inv, CheckEntry, DomainOk;
    if n == 0 {
      NoneBelowZero(L, s);
    } else {
      EntriesPass(L, s, n - 1);
      var r := CheckEntries(s, n - 1);
      if n - 1 in s.info { EntryPasses(L, s, n - 1, r.tried, r.news); }
    }
  }

  // A wrong time is found.
  lemma {:induction false} EntriesFail(s: State, n: nat, id: nat)
    requires id in s.info && id < n && !EntryTimes(s.info[id])
    ensures CheckEntries(s, n).Bad? && CheckEntries(s, n).code < 0
  {
    if id < n - 1 {
      EntriesFail(s, n - 1, id);
    } else if CheckEntries(s, n - 1).Bad? {
      BadIsNegative(s, n - 1);
    }
  }

  lemma {:induction false} BadIsNegative(s: State, n: nat)
    requires CheckEntries(s, n).Bad?
    ensures CheckEntries(s, n).code < 0
  {
    if CheckEntries(s, n - 1).Bad? { BadIsNegative(s, n - 1); }
  }

  lemma NoneBelowZero(L: Layout, s: State)
    requires O.Valid(L, s)
    ensures forall id :: id in s.info ==> 0 <= id < s.nIdCount
  {
  }

  lemma BeforeNext(sl: Slot, b: nat, i: nat)
    ensures Before(sl, b, i + 1) <==> Before(sl, b, i) || sl == Slot(b, i)
  {
    assert sl == Slot(sl.bucket, sl.pos);
  }

  // Tried entries whose slot is still to come.
  ghost predicate TriedLeft(L: Layout, s: State, tried: set<int>, b: nat, i: nat) {
    forall id :: id in tried <==> id in s.info && s.info[id].fInTried && !Before(L.TriedSlot(s.info[id].service), b, i)
  }

  lemma TriedSlotPasses(L: Layout, s: State, tried: set<int>, news: map<int, int>, b: nat, i: nat)
    requires O.Valid(L, s) && TriedLeft(L, s, tried, b, i)
    ensures var r := CheckTriedSlot(L, s, Slot(b, i), Good(tried, news)); r.Good? && r.news == news && TriedLeft(L, s, r.tried, b, i + 1)
  {
    hide NewOk, IndexOk, LiveOk, CountsOk, DomainOk;
    var sl := Slot(b, i);
    var x := Cell(s.tried, sl);
    NoneBelowZero(L, s);
    forall id | id in s.info
      ensures Before(L.TriedSlot(s.info[id].service), b, i + 1) <==>
                Before(L.TriedSlot(s.info[id].service), b, i) || L.TriedSlot(s.info[id].service) == sl
    {
      BeforeNext(L.TriedSlot(s.info[id].service), b, i);
    }
  }

  lemma {:induction false} TriedTablePasses(L: Layout, s: State, tried: set<int>, news: map<int, int>, b: nat, i: nat)
    requires O.Valid(L, s) && TriedLeft(L, s, tried, 0, 0) && i <= L.bucketSize
    ensures var r := CheckTable(L, s, false, Good(tried, news), b, i); r.Good? && r.news == news && TriedLeft(L, s, r.tried, b, i)
    decreases b, i
  {
    hide Inv, DomainOk, TriedLeft, CheckTriedSlot;
    if i > 0 {
      TriedTablePasses(L, s, tried, news, b, i - 1);
      var r := CheckTable(L, s, false, Good(tried, news), b, i - 1);
      TriedSlotPasses(L, s, r.tried, news, b, i - 1);
    } else if b > 0 {
      TriedTablePasses(L, s, tried, news, b - 1, L.bucketSize);
      var r := CheckTable(L, s, false, Good(tried, news), b - 1, L.bucketSize);
      TriedRow(L, s, r.tried, b - 1);
    }
  }

  lemma TriedRow(L: Layout, s: State, tried: set<int>, b: nat)
    requires L.Valid() && TriedLeft(L, s, tried, b, L.bucketSize)
    ensures TriedLeft(L, s, tried, b + 1, 0)
  {
    assert forall id :: id in s.info ==> L.TriedSlot(s.info[id].service).pos < L.bucketSize;
  }

  // The buckets in which an entry's references are still to come.
  ghost function Left(L: Layout, s: State, id: int, b: nat, i: nat): set<nat>
    requires id in s.info
  {
    set k | k in Holders(L, s.news, s.info[id].service, id) && !Before(L.NewSlot(s.info[id].service, k), b, i)
  }

  ghost predicate NewsLeft(L: Layout, s: State, news: map<int, int>, b: nat, i: nat) {
    && (forall id :: id in news <==> id in s.info && !s.info[id].fInTried && Left(L, s, id, b, i) != {})
    && forall id :: id in news ==> news[id] == |Left(L, s, id, b, i)|
  }

  lemma LeftNext(L: Layout, s: State, id: int, b: nat, i: nat)
    requires O.Valid(L, s) && id in s.info
    ensures Left(L, s, id, b, i + 1) == if Cell(s.news, Slot(b, i)) == id then Left(L, s, id, b, i) - {b} else Left(L, s, id, b, i)
    ensures Cell(s.news, Slot(b, i)) == id ==> b in Left(L, s, id, b, i)
  {
    hide TriedOk, IndexOk, LiveOk, CountsOk, DomainOk;
    var service := s.info[id].service;
    forall k: nat
      ensures Before(L.NewSlot(service, k), b, i + 1) <==> Before(L.NewSlot(service, k), b, i) || L.NewSlot(service, k) == Slot(b, i)
    {
      BeforeNext(L.NewSlot(service, k), b, i);
    }
  }

  lemma NewSlotPasses(L: Layout, s: State, tried: set<int>, news: map<int, int>, b: nat, i: nat)
    requires O.Valid(L, s) && NewsLeft(L, s, news, b, i)
    ensures var r := CheckNewSlot(L, s, Slot(b, i), Good(tried, news)); r.Good? && r.tried == tried && NewsLeft(L, s, r.news, b, i + 1)
  {
    hide Left, NewOk, TriedOk, IndexOk, LiveOk, CountsOk, DomainOk;
    var sl := Slot(b, i);
    var x := Cell(s.news, sl);
    NoneBelowZero(L, s);
    forall id | id in s.info
      ensures Left(L, s, id, b, i + 1) == if x == id then Left(L, s, id, b, i) - {b} else Left(L, s, id, b, i)
      ensures x == id ==> b in Left(L, s, id, b, i)
    {
      LeftNext(L, s, id, b, i);
    }
    if x != EMPTY {
      HeldIsNew(L, s, sl);
      Fewer(Left(L, s, x, b, i), b);
    }
  }

  lemma HeldIsNew(L: Layout, s: State, sl: Slot)
    requires O.Valid(L, s) && Cell(s.news, sl) != EMPTY
    ensures var x := Cell(s.news, sl);
            x in s.info && !s.info[x].fInTried && L.positionOf(s.info[x].service, true, sl.bucket) == sl.pos
  {
  }

  lemma Fewer(a: set<nat>, b: nat)
    requires b in a
    ensures |a - {b}| == |a| - 1 && (a - {b} == {} <==> |a| == 1)
  {
  }

  lemma {:induction false} NewTablePasses(L: Layout, s: State, tried: set<int>, news: map<int, int>, b: nat, i: nat)
    requires O.Valid(L, s) && NewsLeft(L, s, news, 0, 0) && i <= L.bucketSize
    ensures var r := CheckTable(L, s, true, Good(tried, news), b, i); r.Good? && r.tried == tried && NewsLeft(L, s, r.news, b, i)
    decreases b, i
  {
    hide Inv, DomainOk, NewsLeft, CheckNewSlot;
    if i > 0 {
      NewTablePasses(L, s, tried, news, b, i - 1);
      var r := CheckTable(L, s, true, Good(tried, news), b, i - 1);
      NewSlotPasses(L, s, tried, r.news, b, i - 1);
    } else if b > 0 {
      NewTablePasses(L, s, tried, news, b - 1, L.bucketSize);
      var r := CheckTable(L, s, true, Good(tried, news), b - 1, L.bucketSize);
      NewRow(L, s, r.news, b - 1);
    }
  }

  lemma NewRow(L: Layout, s: State, news: map<int, int>, b: nat)
    requires L.Valid() && NewsLeft(L, s, news, b, L.bucketSize)
    ensures NewsLeft(L, s, news, b + 1, 0)
  {
    forall id | id in s.info
      ensures Left(L, s, id, b + 1, 0) == Left(L, s, id, b, L.bucketSize)
    {
      assert forall k: nat :: L.NewSlot(s.info[id].service, k).pos < L.bucketSize;
    }
  }

  lemma Beginning(L: Layout, s: State, r: Scan)
    requires O.Valid(L, s) && EntriesDone(s, s.nIdCount, r)
    ensures TriedLeft(L, s, r.tried, 0, 0) && NewsLeft(L, s, r.news, 0, 0)
    ensures r.tried == TriedIds(s.info) && r.news.Keys == NewIds(s.info)
  {
    NoneBelowZero(L, s);
    SameSet(r.tried, TriedIds(s.info));
    SameSet(r.news.Keys, NewIds(s.info));
    forall id | id in s.info
      ensures Left(L, s, id, 0, 0) == Holders(L, s.news, s.info[id].service, id)
      ensures RefOk(L, s.info[id], s.news, id)
    {
    }
  }

  lemma SameSet(a: set<int>, b: set<int>)
    requires forall x :: x in a <==> x in b
    ensures a == b
  {
    assert forall x :: x in a ==> x in b;
    assert a <= b;
    assert forall x :: x in b ==> x in a;
    assert b <= a;
  }

  lemma Ending(L: Layout, s: State, tried: set<int>, news: map<int, int>)
    requires O.Valid(L, s) && TriedLeft(L, s, tried, L.triedBuckets, 0) && NewsLeft(L, s, news, L.newBuckets, 0)
    ensures tried == {} && news == map[]
  {
    forall id | id in s.info
      ensures Left(L, s, id, L.newBuckets, 0) == {} && Before(L.TriedSlot(s.info[id].service), L.triedBuckets, 0)
    {
    }
    assert forall id :: id in tried ==> id in {};
    assert tried <= {};
    assert forall id :: id in news.Keys ==> id in {};
    assert news.Keys <= {};
  }

  // Of a state that keeps the invariant Check_ complains exactly about the times and the key.
  lemma CheckPassesIff(L: Layout, s: State, keyNull: bool)
    requires O.Valid(L, s)
    ensures Check(L, s, keyNull) == 0 <==> TimesOk(s.info) && !keyNull
  {
    hide CheckEntries, CheckTable, EntryTimes, Inv;
    if TimesOk(s.info) {
      OnlyKeyLeft(L, s, keyNull);
    } else {
      var id := WrongTime(s.info);
      NoneBelowZero(L, s);
      EntriesFail(s, s.nIdCount, id);
    }
  }

  lemma WrongTime(info: Infos) returns (id: int)
    requires !TimesOk(info)
    ensures id in info && !EntryTimes(info[id])
  {
    id :| id in info && !EntryTimes(info[id]);
  }

  lemma OnlyKeyLeft(L: Layout, s: State, keyNull: bool)
    requires O.Valid(L, s) && TimesOk(s.info)
    ensures Check(L, s, keyNull) == if keyNull then -16 else 0
  {
    hide CheckEntries, CheckTable, TriedLeft, NewsLeft, EntriesDone, NewOk, TriedOk, LiveOk, DomainOk;
    EntriesPass(L, s, s.nIdCount);
    var r := CheckEntries(s, s.nIdCount);
    EntriesGood(s, r);
    Beginning(L, s, r);
    RandomListsAll(s.info, s.addrs, s.vRandom, s.nIdCount);
    TriedTablePasses(L, s, r.tried, r.news, L.triedBuckets, 0);
    var t := CheckTable(L, s, false, Good(r.tried, r.news), L.triedBuckets, 0);
    NewTablePasses(L, s, t.tried, r.news, L.newBuckets, 0);
    var u := CheckTable(L, s, true, Good(t.tried, r.news), L.newBuckets, 0);
    Ending(L, s, t.tried, u.news);
    assert |r.news| == |r.news.Keys|;
  }

  lemma EntriesGood(s: State, r: Scan)
    requires EntriesDone(s, if s.nIdCount < 0 then 0 else s.nIdCount, r)
    ensures r.Good?
  {
  }
}
