/**
 * Compact block reconstruction (src/blockencodings.cpp, BIP 152): a block sent as short ids
 * and a few full transactions is put together again from the receiver's own pools.
 */
module CompactBlocks {

  datatype Option<T> = None | Some(value: T)
  datatype Tx = Tx(txid: int, wtxid: int, isNull: bool)
  datatype Prefilled = Prefilled(index: nat, tx: Tx)
  datatype Message = Message(headerNull: bool, key: int, shortIds: seq<nat>, prefilled: seq<Prefilled>)
  // Endless stands for a call that never returns.
  datatype Status = Ok | Invalid | Failed | CheckBlockFailed | Endless

  // A transaction with the hash it is listed under.
  datatype Entry = Entry(hash: int, tx: Tx)

  // MAX_BLOCK_WEIGHT / MIN_SERIALIZABLE_TRANSACTION_WEIGHT
  const MAX_COUNT: nat := 100_000

  // How many values a uint16_t has.
  const SHORT: nat := 0x1_0000

  // SipHash, an uninterpreted function of key and hash, cut to 48 bits.
  type SipHash = (int, int) -> nat

  function ShortId(sip: SipHash, key: int, hash: int): (id: nat)
    ensures id < 0x1_0000_0000_0000 && (sip(key, hash) - id) % 0x1_0000_0000_0000 == 0
  {
    sip(key, hash) % 0x1_0000_0000_0000
  }

  function Count(m: Message): nat { |m.shortIds| + |m.prefilled| }

  // index is a uint16_t
  predicate WellTyped(m: Message) {
    forall i :: 0 <= i < |m.prefilled| ==> m.prefilled[i].index < SHORT
  }

  // ---------- prefilled transactions ----------

  // The absolute position of the i-th prefilled transaction.
  function PosOf(pre: seq<Prefilled>, i: nat): nat
    requires i < |pre|
  {
    pre[i].index + if i == 0 then 0 else PosOf(pre, i - 1) + 1
  }

  // What InitData accepts of the first n.
  predicate Accepted(m: Message, n: nat)
    requires n <= |m.prefilled|
  {
    forall i :: 0 <= i < n ==> !m.prefilled[i].tx.isNull && PosOf(m.prefilled, i) <= 0xffff && PosOf(m.prefilled, i) <= |m.shortIds| + i
  }

  ghost function Filled(m: Message, n: nat): (s: seq<Option<Tx>>)
    requires n <= |m.prefilled| && Accepted(m, n)
    ensures |s| == Count(m)
  {
    if n == 0 then seq(Count(m), _ => None)
    else Filled(m, n - 1)[PosOf(m.prefilled, n - 1) := Some(m.prefilled[n - 1].tx)]
  }

  // How many of the first n slots are empty.
  ghost function Empties(s: seq<Option<Tx>>, n: nat): (e: nat)
    requires n <= |s|
    ensures e <= n
  {
    if n == 0 then 0 else Empties(s, n - 1) + if s[n - 1].None? then 1 else 0
  }

  lemma {:induction false} EmptiesUpdate(s: seq<Option<Tx>>, p: nat, tx: Tx, n: nat)
    requires n <= |s| && p < |s| && s[p].None?
    ensures Empties(s[p := Some(tx)], n) == Empties(s, n) - if p < n then 1 else 0
  {
    if n > 0 { EmptiesUpdate(s, p, tx, n - 1); }
  }

  lemma {:induction false} EmptiesAll(n: nat, k: nat)
    requires k <= n
    ensures Empties(seq(n, _ => None), k) == k
  {
    if k > 0 { EmptiesAll(n, k - 1); }
  }

  lemma {:induction false} PosIncreasing(pre: seq<Prefilled>, i: nat, j: nat)
    requires i < j < |pre|
    ensures PosOf(pre, i) < PosOf(pre, j)
  {
    if i < j - 1 { PosIncreasing(pre, i, j - 1); }
  }

  // A slot holds a transaction exactly when it is the position of one, and then that one.
  lemma {:induction false} FilledAt(m: Message, n: nat, i: nat)
    requires n <= |m.prefilled| && Accepted(m, n) && i < n
    ensures PosOf(m.prefilled, i) < Count(m) && Filled(m, n)[PosOf(m.prefilled, i)] == Some(m.prefilled[i].tx)
  {
    hide PosOf;
    if i < n - 1 {
      FilledAt(m, n - 1, i);
      PosIncreasing(m.prefilled, i, n - 1);
    }
  }

  lemma {:induction false} FilledFrom(m: Message, n: nat, k: nat) returns (i: nat)
    requires n <= |m.prefilled| && Accepted(m, n) && k < Count(m) && Filled(m, n)[k].Some?
    ensures i < n && PosOf(m.prefilled, i) == k
  {
    hide PosOf;
    if k == PosOf(m.prefilled, n - 1) {
      i := n - 1;
    } else {
      i := FilledFrom(m, n - 1, k);
    }
  }

  lemma {:induction false} FilledEmpties(m: Message, n: nat)
    requires n <= |m.prefilled| && Accepted(m, n)
    ensures Empties(Filled(m, n), Count(m)) == Count(m) - n
  {
    hide PosOf;
    if n == 0 {
      EmptiesAll(Count(m), Count(m));
    } else {
      FilledEmpties(m, n - 1);
      var before, p := Filled(m, n - 1), PosOf(m.prefilled, n - 1);
      if before[p].Some? {
        var i := FilledFrom(m, n - 1, p);
        PosIncreasing(m.prefilled, i, n - 1);
      }
      EmptiesUpdate(before, p, m.prefilled[n - 1].tx, Count(m));
    }
  }

  lemma {:induction false} PosAtLeast(pre: seq<Prefilled>, i: nat)
    requires i < |pre|
    ensures PosOf(pre, i) >= i
  {
    if i > 0 { PosAtLeast(pre, i - 1); }
  }

  // 16-bit positions leave room for 65536 prefilled transactions, which then fill the first
  // 65536 slots.
  lemma PrefilledBound(m: Message)
    requires Accepted(m, |m.prefilled|)
    ensures |m.prefilled| <= SHORT
    ensures |m.prefilled| == SHORT ==> forall k :: 0 <= k < SHORT ==> Filled(m, SHORT)[k].Some?
  {
    hide PosOf, Filled;
    if |m.prefilled| > 0 { PosAtLeast(m.prefilled, |m.prefilled| - 1); }
    if |m.prefilled| == SHORT {
      forall k | 0 <= k < SHORT
        ensures Filled(m, SHORT)[k].Some?
      {
        PosAtLeast(m.prefilled, k);
        PosAtMost(m.prefilled, k, SHORT - 1);
        FilledAt(m, SHORT, k);
      }
    }
  }

  lemma {:induction false} PosAtMost(pre: seq<Prefilled>, i: nat, j: nat)
    requires i <= j < |pre|
    ensures PosOf(pre, i) + (j - i) <= PosOf(pre, j)
    decreases j
  {
    if i < j { PosAtMost(pre, i, j - 1); }
  }

  // ---------- short ids ----------

  // p is the i-th empty slot.
  ghost predicate IsEmptySlot(s: seq<Option<Tx>>, i: nat, p: nat) {
    p < |s| && s[p].None? && Empties(s, p) == i
  }

  lemma {:induction false} EmptiesMonotone(s: seq<Option<Tx>>, p: nat, q: nat)
    requires p <= q <= |s|
    ensures Empties(s, p) <= Empties(s, q)
    decreases q
  {
    if p < q { EmptiesMonotone(s, p, q - 1); }
  }

  // There is only one i-th empty slot.
  lemma EmptySlotUnique(s: seq<Option<Tx>>, i: nat, p: nat, q: nat)
    requires IsEmptySlot(s, i, p) && IsEmptySlot(s, i, q)
    ensures p == q
  {
    if p < q { EmptiesMonotone(s, p + 1, q); }
    if q < p { EmptiesMonotone(s, q + 1, p); }
  }

  lemma {:induction false} Occupied(s: seq<Option<Tx>>, n: nat)
    requires n <= |s|
    ensures n - Empties(s, n) <= |s| - Empties(s, |s|)
    decreases |s| - n
  {
    if n < |s| { Occupied(s, n + 1); }
  }

  // The i-th empty slot, looking back from slot n.
  ghost function EmptyBelow(s: seq<Option<Tx>>, n: nat, i: nat): (p: nat)
    requires n <= |s| && i < Empties(s, n)
    ensures IsEmptySlot(s, i, p)
  {
    if s[n - 1].None? && Empties(s, n - 1) == i then n - 1 else EmptyBelow(s, n - 1, i)
  }

  ghost function EmptySlot(s: seq<Option<Tx>>, i: nat): (p: nat)
    requires i < Empties(s, |s|)
    ensures IsEmptySlot(s, i, p)
  {
    EmptyBelow(s, |s|, i)
  }

  ghost predicate Distinct(ids: seq<nat>, n: nat)
    requires n <= |ids|
  {
    forall i, j :: 0 <= i < j < n ==> ids[i] != ids[j]
  }

  ghost function Seen(ids: seq<nat>, n: nat): set<nat>
    requires n <= |ids|
  {
    set i | 0 <= i < n :: ids[i]
  }

  lemma SeenStep(ids: seq<nat>, n: nat)
    requires n < |ids|
    ensures Seen(ids, n + 1) == Seen(ids, n) + {ids[n]} && Seen(ids, 0) == {}
    ensures Distinct(ids, n + 1) <==> Distinct(ids, n) && ids[n] !in Seen(ids, n)
  {
  }

  // As many different ids as ids means no two are equal.
  lemma {:induction false} SeenSize(ids: seq<nat>, n: nat)
    requires n <= |ids|
    ensures |Seen(ids, n)| <= n && (|Seen(ids, n)| == n <==> Distinct(ids, n))
  {
    if n > 0 {
      SeenSize(ids, n - 1);
      SeenStep(ids, n - 1);
    } else {
      assert Seen(ids, 0) == {};
    }
  }

  // Short id i leads to the i-th empty slot, stored in 16 bits.
  ghost predicate Mapped(positions: map<nat, nat>, ids: seq<nat>, s: seq<Option<Tx>>, n: nat)
    requires n <= |ids| && n <= Empties(s, |s|)
  {
    positions.Keys == Seen(ids, n) &&
    forall i :: 0 <= i < n ==> ids[i] in positions && positions[ids[i]] == EmptySlot(s, i) % SHORT
  }

  lemma MappedAt(positions: map<nat, nat>, ids: seq<nat>, s: seq<Option<Tx>>, i: nat)
    requires i < |ids| <= Empties(s, |s|) && Mapped(positions, ids, s, |ids|)
    ensures IsEmptySlot(s, i, EmptySlot(s, i)) && ids[i] in positions && positions[ids[i]] == EmptySlot(s, i) % SHORT
  {
    hide EmptySlot, Empties;
    var p := EmptySlotIs(s, i);
  }

  lemma MappedFrom(positions: map<nat, nat>, ids: seq<nat>, s: seq<Option<Tx>>, id: nat) returns (i: nat)
    requires |ids| <= Empties(s, |s|) && Mapped(positions, ids, s, |ids|) && id in positions
    ensures i < |ids| && ids[i] == id
  {
    hide EmptySlot, Empties;
    i :| i < |ids| && ids[i] == id;
  }

  lemma MappedStep(positions: map<nat, nat>, ids: seq<nat>, s: seq<Option<Tx>>, n: nat, p: nat)
    requires n < |ids| && n < Empties(s, |s|) && IsEmptySlot(s, n, p)
    requires Mapped(positions, ids, s, n) && Distinct(ids, n + 1)
    ensures Mapped(positions[ids[n] := p % SHORT], ids, s, n + 1)
  {
    hide EmptySlot, IsEmptySlot;
    SeenStep(ids, n);
    EmptySlotUnique(s, n, p, EmptySlotIs(s, n));
  }

  ghost function EmptySlotIs(s: seq<Option<Tx>>, i: nat): (p: nat)
    requires i < Empties(s, |s|)
    ensures IsEmptySlot(s, i, p) && p == EmptySlot(s, i)
  {
    EmptySlot(s, i)
  }

  // The loop that looks for the slot of short id i, after t turns: its 16-bit offset has gone
  // from start to start + t, and the slot it looks at is empty.
  ghost predicate StopsAfter(s: seq<Option<Tx>>, i: nat, start: nat, t: nat) {
    var p := i + (start + t) % SHORT;
    p < |s| && s[p].None?
  }

  // start is an offset with which that loop can begin.
  ghost predicate CanStart(s: seq<Option<Tx>>, i: nat, start: nat) {
    start < SHORT && i + start <= |s| && Empties(s, i + start) == i < Empties(s, |s|)
  }

  // Every such loop ends exactly when there is none, or a slot below 65536 is not prefilled.
  lemma SlotLoopsEndIff(m: Message)
    requires Accepted(m, |m.prefilled|)
    ensures (forall i: nat, start: nat :: CanStart(Filled(m, |m.prefilled|), i, start) ==>
               exists t: nat :: StopsAfter(Filled(m, |m.prefilled|), i, start, t))
            <==> m.shortIds == [] || |m.prefilled| < SHORT
  {
    hide Accepted, Filled, CanStart;
    var s := Filled(m, |m.prefilled|);
    PrefilledBound(m);
    FilledEmpties(m, |m.prefilled|);
    if m.shortIds == [] {
      NoStart(s);
    } else if |m.prefilled| < SHORT {
      forall i: nat, start: nat | CanStart(s, i, start)
        ensures exists t: nat :: StopsAfter(s, i, start, t)
      {
        SlotLoopEnds(s, i, start);
      }
    } else {
      assert CanStart(s, 0, 0) by { NothingBefore(s); }
      assert forall t: nat :: !StopsAfter(s, 0, 0, t);
    }
  }

  lemma NoStart(s: seq<Option<Tx>>)
    requires Empties(s, |s|) == 0
    ensures forall i: nat, start: nat :: !CanStart(s, i, start)
  {
  }

  lemma NothingBefore(s: seq<Option<Tx>>)
    requires 0 < Empties(s, |s|)
    ensures CanStart(s, 0, 0)
  {
  }

  lemma SlotLoopEnds(s: seq<Option<Tx>>, i: nat, start: nat)
    requires CanStart(s, i, start) && |s| - Empties(s, |s|) < SHORT
    ensures exists t: nat :: StopsAfter(s, i, start, t)
  {
    hide Empties;
    var p := EmptySlotIs(s, i);
    Occupied(s, p);
    if p < i + start { EmptyStep(s, i, p); EmptiesMonotone(s, p + 1, i + start); }
    assert StopsAfter(s, i, start, p - i - start);
  }

  // Steps over occupied slots.  An offset that comes back to where it began does so for ever.
  method NextEmpty(s: seq<Option<Tx>>, i: nat, start: nat) returns (ends: bool, offset: nat)
    requires CanStart(s, i, start) && (|s| - Empties(s, |s|) < SHORT || i + SHORT <= |s|)
    ensures ends <==> exists t: nat :: StopsAfter(s, i, start, t)
    ensures ends && |s| - Empties(s, |s|) < SHORT ==> offset < SHORT && IsEmptySlot(s, i, i + offset)
  {
    hide StopsAfter, Empties;
    ghost var tight := |s| - Empties(s, |s|) < SHORT;
    offset := start;
    Occupied(s, i + offset);
    ghost var t := 0;
    while s[i + offset].Some?
      invariant t < SHORT && offset == Turned(start, t) && i + offset < |s|
      invariant tight ==> offset == start + t && Empties(s, i + offset) == i
      invariant forall u :: 0 <= u < t ==> !StopsAfter(s, i, start, u)
      decreases SHORT - t
    {
      StopsIs(s, i, start, t);
      if tight {
        StepOver(s, i + offset);
        Occupied(s, i + offset + 1);
      }
      offset := (offset + 1) % SHORT;
      t := t + 1;
      if offset == start {
        NeverStops(s, i, start);
        return false, offset;
      }
    }
    StopsIs(s, i, start, t);
    ends := true;
  }

  // The offset after t turns, fewer than a round.
  function Turned(start: nat, t: nat): nat {
    if start + t < SHORT then start + t else start + t - SHORT
  }

  lemma StopsIs(s: seq<Option<Tx>>, i: nat, start: nat, t: nat)
    requires start < SHORT && t < SHORT && i + Turned(start, t) < |s|
    ensures StopsAfter(s, i, start, t) <==> s[i + Turned(start, t)].None?
  {
  }

  lemma StepOver(s: seq<Option<Tx>>, p: nat)
    requires p < |s| && s[p].Some?
    ensures Empties(s, p + 1) == Empties(s, p)
  {
  }

  lemma NeverStops(s: seq<Option<Tx>>, i: nat, start: nat)
    requires start < SHORT && forall u :: 0 <= u < SHORT ==> !StopsAfter(s, i, start, u)
    ensures forall t: nat :: !StopsAfter(s, i, start, t)
  {
    forall t: nat
      ensures !StopsAfter(s, i, start, t)
    {
      assert !StopsAfter(s, i, start, t % SHORT);
      SameTurn(start, t);
    }
  }

  lemma SameTurn(start: nat, t: nat)
    ensures (start + t) % SHORT == (start + t % SHORT) % SHORT
  {
  }

  // The same for the slots of a message: the first search fails, or none does.
  method NextSlot(ghost m: Message, s: seq<Option<Tx>>, i: nat, start: nat) returns (ends: bool, offset: nat)
    requires Accepted(m, |m.prefilled|) && s == Filled(m, |m.prefilled|)
    requires CanStart(s, i, start) && (if i == 0 then start == 0 else |m.prefilled| < SHORT)
    ensures ends <==> |m.prefilled| < SHORT
    ensures ends ==> offset < SHORT && i + offset < |s| && IsEmptySlot(s, i, i + offset)
  {
    hide Accepted, Filled, Empties;
    FilledEmpties(m, |m.prefilled|);
    PrefilledBound(m);
    ends, offset := NextEmpty(s, i, start);
    if |m.prefilled| < SHORT {
      SlotLoopEnds(s, i, start);
    } else {
      assert forall t: nat :: !StopsAfter(s, 0, 0, t);
    }
  }

  // The short id loop.  crowded answers, after each insertion, whether a hash bucket of the
  // map has grown too large.
  method MapShortIds(ghost m: Message, s: seq<Option<Tx>>, ids: seq<nat>, crowded: nat -> bool)
    returns (outcome: Status, positions: map<nat, nat>)
    requires Accepted(m, |m.prefilled|) && s == Filled(m, |m.prefilled|) && ids == m.shortIds
    ensures Empties(s, |s|) == |ids|
    ensures outcome in {Ok, Failed, Endless}
    ensures outcome == Endless <==> ids != [] && |m.prefilled| >= SHORT
    ensures outcome == Ok ==> Mapped(positions, ids, s, |ids|)
    ensures outcome != Endless ==>
              (outcome == Failed <==> !Distinct(ids, |ids|) || exists i :: 0 <= i < |ids| && crowded(i))
  {
    hide Accepted, Filled, Mapped, Distinct, Empties, Seen, IsEmptySlot;
    FilledEmpties(m, |m.prefilled|);
    positions := map[];
    var offset: nat := 0;
    NothingMapped(ids, s);
    for i := 0 to |ids|
      invariant i + offset <= |s| && Empties(s, i + offset) == i && offset < SHORT
      invariant if i == 0 then offset == 0 else |m.prefilled| < SHORT
      invariant positions.Keys == Seen(ids, i) && (Distinct(ids, i) ==> Mapped(positions, ids, s, i))
      invariant forall j :: 0 <= j < i ==> !crowded(j)
    {
      var ends;
      ends, offset := NextSlot(m, s, i, offset);
      if !ends {
        return Endless, positions;
      }
      SeenStep(ids, i);
      if Distinct(ids, i + 1) { MappedStep(positions, ids, s, i, i + offset); }
      EmptyStep(s, i, i + offset);
      positions := positions[ids[i] := (i + offset) % SHORT];
      if crowded(i) {
        return Failed, positions;
      }
    }
    SeenSize(ids, |ids|);
    KeysSize(positions);
    outcome := if |positions| == |ids| then Ok else Failed;
  }

  // The positions kept in 16 bits are the slots of the short ids exactly for up to 65536
  // transactions, or when there is no short id.
  lemma PositionsRightIff(m: Message)
    requires Accepted(m, |m.prefilled|)
    ensures Empties(Filled(m, |m.prefilled|), Count(m)) == |m.shortIds|
    ensures (forall i :: 0 <= i < |m.shortIds| ==> EmptySlot(Filled(m, |m.prefilled|), i) < SHORT)
            <==> Count(m) <= SHORT || m.shortIds == []
  {
    hide Filled, Empties, EmptySlot;
    var s := Filled(m, |m.prefilled|);
    FilledEmpties(m, |m.prefilled|);
    if Count(m) <= SHORT {
      forall i | 0 <= i < |m.shortIds| ensures EmptySlot(s, i) < SHORT { var p := EmptySlotIs(s, i); }
    } else if m.shortIds != [] {
      LastSlot(m);
    }
  }

  // Beyond 65536 transactions the last slot belongs to the last short id.
  lemma LastSlot(m: Message)
    requires Accepted(m, |m.prefilled|) && Count(m) > SHORT && m.shortIds != []
    ensures Empties(Filled(m, |m.prefilled|), Count(m)) == |m.shortIds|
    ensures EmptySlot(Filled(m, |m.prefilled|), |m.shortIds| - 1) == Count(m) - 1
  {
    hide Filled, EmptySlot, PosOf;
    var s, last := Filled(m, |m.prefilled|), Count(m) - 1;
    FilledEmpties(m, |m.prefilled|);
    if s[last].Some? { var i := FilledFrom(m, |m.prefilled|, last); }
    EmptySlotUnique(s, |m.shortIds| - 1, EmptySlotIs(s, |m.shortIds| - 1), last);
  }

  lemma KeysSize(positions: map<nat, nat>)
    ensures |positions| == |positions.Keys|
  {
  }

  lemma EmptyStep(s: seq<Option<Tx>>, i: nat, p: nat)
    requires IsEmptySlot(s, i, p)
    ensures Empties(s, p + 1) == i + 1
  {
  }

  lemma NothingMapped(ids: seq<nat>, s: seq<Option<Tx>>)
    ensures Distinct(ids, 0) && Mapped(map[], ids, s, 0) && Empties(s, 0) == 0 && Seen(ids, 0) == {}
  {
    assert Seen(ids, 0) == {};
  }

  // ---------- the partial block ----------

  // The entries of the pool followed by those of the extra list, as the scans see them: the
  // slot each one's short id leads to (-1 for none) and the transaction.
  datatype Offers = Offers(to: seq<int>, txs: seq<Tx>, pool: nat) {
    ghost predicate Valid() { |to| == |txs| && pool <= |to| }

    // The first of n offers for slot k, or -1.
    ghost function First(n: nat, k: nat): (f: int)
      requires n <= |to|
      ensures -1 <= f < n && (f >= 0 ==> to[f] == k) && forall j :: 0 <= j < n && to[j] == k ==> 0 <= f <= j
    {
      if n == 0 then -1
      else if First(n - 1, k) >= 0 then First(n - 1, k)
      else if to[n - 1] == k then n - 1
      else -1
    }

    // A later offer for slot k makes the first one doubtful: any other one of the pool, or
    // one of the extra list that is a different transaction.
    ghost predicate Clash(n: nat, k: nat)
      requires Valid() && n <= |to|
    {
      exists j :: First(n, k) < j < n && First(n, k) >= 0 && to[j] == k && (j < pool || txs[j].wtxid != txs[First(n, k)].wtxid)
    }

    // Slot k after n offers: as it was when there is none for it, else the first, or nothing
    // after a clash.
    ghost predicate SlotIs(n: nat, before: Option<Tx>, after: Option<Tx>, k: nat)
      requires Valid() && n <= |to|
    {
      if First(n, k) < 0 then after == before
      else after == Some(txs[First(n, k)]) || (after.None? && Clash(n, k))
    }

    // The same with nothing left open.
    ghost predicate SlotExact(n: nat, before: Option<Tx>, after: Option<Tx>, k: nat)
      requires Valid() && n <= |to|
    {
      after == if First(n, k) < 0 then before else if Clash(n, k) then None else Some(txs[First(n, k)])
    }

    // The slots that have an offer and no clash.
    ghost function Settled(n: nat, slots: nat): set<nat>
      requires Valid() && n <= |to|
    {
      set k: nat | k < slots && First(n, k) >= 0 && !Clash(n, k)
    }

    lemma NoClash(k: nat)
      requires Valid()
      ensures First(0, k) == -1 && !Clash(0, k)
    {
    }

    lemma ClashStep(n: nat, k: nat)
      requires Valid() && n < |to|
      ensures First(n + 1, k) == if First(n, k) >= 0 then First(n, k) else if to[n] == k then n else -1
      ensures Clash(n + 1, k) <==>
                Clash(n, k) || (First(n, k) >= 0 && to[n] == k && (n < pool || txs[n].wtxid != txs[First(n, k)].wtxid))
    {
    }

    lemma FirstGrows(n: nat, n': nat, k: nat)
      requires Valid() && n <= n' <= |to| && First(n, k) >= 0
      ensures First(n', k) == First(n, k) && (Clash(n, k) ==> Clash(n', k))
    {
    }
  }

  ghost predicate SlotsOk(o: Offers, n: nat, s: seq<Option<Tx>>, avail: seq<Option<Tx>>, have: seq<bool>)
    requires o.Valid() && n <= |o.to|
  {
    |avail| == |s| == |have| && forall k :: 0 <= k < |s| ==> o.SlotIs(n, s[k], avail[k], k) && (have[k] <==> o.First(n, k) >= 0)
  }

  // One more offer looked at, the way the scans do.
  lemma SlotsStep(o: Offers, n: nat, s: seq<Option<Tx>>, avail: seq<Option<Tx>>, have: seq<bool>,
                  avail': seq<Option<Tx>>, have': seq<bool>)
    requires o.Valid() && n < |o.to| && SlotsOk(o, n, s, avail, have) && -1 <= o.to[n] < |s|
    requires var k, tx := o.to[n], o.txs[n];
             if k < 0 then avail' == avail && have' == have
             else if !have[k] then avail' == avail[k := Some(tx)] && have' == have[k := true]
             else if avail[k].Some? && (n < o.pool || avail[k].value.wtxid != tx.wtxid) then avail' == avail[k := None] && have' == have
             else avail' == avail && have' == have
    ensures SlotsOk(o, n + 1, s, avail', have')
  {
    forall k | 0 <= k < |s|
      ensures o.SlotIs(n + 1, s[k], avail'[k], k) && (have'[k] <==> o.First(n + 1, k) >= 0)
    {
      assert o.SlotIs(n, s[k], avail[k], k);
      if o.First(n, k) >= 0 { o.FirstGrows(n, n + 1, k); }
    }
  }

  // When every slot with an offer has been taken the rest need not be looked at.
  lemma SlotsRest(o: Offers, n: nat, n': nat, s: seq<Option<Tx>>, avail: seq<Option<Tx>>, have: seq<bool>)
    requires o.Valid() && n <= n' <= |o.to| && SlotsOk(o, n, s, avail, have)
    requires forall j :: 0 <= j < |o.to| ==> -1 <= o.to[j] < |s| && (o.to[j] >= 0 ==> have[o.to[j]])
    ensures SlotsOk(o, n', s, avail, have)
  {
    forall k | 0 <= k < |s|
      ensures o.SlotIs(n', s[k], avail[k], k) && (have[k] <==> o.First(n', k) >= 0)
    {
      assert o.SlotIs(n, s[k], avail[k], k);
      if o.First(n, k) >= 0 { o.FirstGrows(n, n', k); }
    }
  }

  ghost predicate SlotsExact(o: Offers, n: nat, s: seq<Option<Tx>>, avail: seq<Option<Tx>>, have: seq<bool>)
    requires o.Valid() && n <= |o.to|
  {
    |avail| == |s| == |have| && forall k :: 0 <= k < |s| ==> o.SlotExact(n, s[k], avail[k], k) && (have[k] <==> o.First(n, k) >= 0)
  }

  lemma ExactStep(o: Offers, n: nat, s: seq<Option<Tx>>, avail: seq<Option<Tx>>, have: seq<bool>,
                  avail': seq<Option<Tx>>, have': seq<bool>)
    requires o.Valid() && n < |o.to| && SlotsExact(o, n, s, avail, have) && -1 <= o.to[n] < |s|
    requires var k, tx := o.to[n], o.txs[n];
             if k < 0 then avail' == avail && have' == have
             else if !have[k] then avail' == avail[k := Some(tx)] && have' == have[k := true]
             else if avail[k].Some? && (n < o.pool || avail[k].value.wtxid != tx.wtxid) then avail' == avail[k := None] && have' == have
             else avail' == avail && have' == have
    ensures SlotsExact(o, n + 1, s, avail', have')
  {
    forall k | 0 <= k < |s|
      ensures o.SlotExact(n + 1, s[k], avail'[k], k) && (have'[k] <==> o.First(n + 1, k) >= 0)
    {
      assert o.SlotExact(n, s[k], avail[k], k);
      assert o.First(n, k) < 0 ==> !o.Clash(n, k);
      o.ClashStep(n, k);
    }
  }

  // The same first offers, whatever comes after them.
  lemma {:induction false} SameFirst(o: Offers, o': Offers, n: nat, k: nat)
    requires o.Valid() && o'.Valid() && n <= o.pool && n <= o'.pool
    requires forall j :: 0 <= j < n ==> o.to[j] == o'.to[j] && o.txs[j] == o'.txs[j]
    ensures o.First(n, k) == o'.First(n, k) && o.Clash(n, k) == o'.Clash(n, k)
  {
    hide Offers.First, Offers.Clash;
    if n == 0 {
      o.NoClash(k);
      o'.NoClash(k);
    } else {
      SameFirst(o, o', n - 1, k);
      o.ClashStep(n - 1, k);
      o'.ClashStep(n - 1, k);
    }
  }

  lemma SameExact(o: Offers, o': Offers, n: nat, s: seq<Option<Tx>>, avail: seq<Option<Tx>>, have: seq<bool>)
    requires o.Valid() && o'.Valid() && n <= o.pool && n <= o'.pool && SlotsExact(o, n, s, avail, have)
    requires forall j :: 0 <= j < n ==> o.to[j] == o'.to[j] && o.txs[j] == o'.txs[j]
    ensures SlotsExact(o', n, s, avail, have)
  {
    forall k | 0 <= k < |s|
      ensures o'.SlotExact(n, s[k], avail[k], k) && (have[k] <==> o'.First(n, k) >= 0)
    {
      assert o.SlotExact(n, s[k], avail[k], k);
      SameFirst(o, o', n, k);
    }
  }

  lemma TakenIsSettled(o: Offers, n: nat, s: seq<Option<Tx>>, avail: seq<Option<Tx>>, have: seq<bool>)
    requires o.Valid() && n <= |o.to| && SlotsExact(o, n, s, avail, have)
    ensures Taken(avail, have) == o.Settled(n, |s|)
  {
    forall k: nat | k < |s|
      ensures k in Taken(avail, have) <==> k in o.Settled(n, |s|)
    {
      assert o.SlotExact(n, s[k], avail[k], k);
    }
  }

  // A loop over total offers from lo on stops after the first of them that leaves as many slots
  // settled as there are short ids.
  ghost predicate StopsAt(o: Offers, lo: nat, looked: nat, total: nat, slots: nat, ids: nat)
    requires o.Valid() && looked <= total && lo + total <= |o.to|
  {
    && (looked < total ==> looked > 0 && |o.Settled(lo + looked, slots)| == ids)
    && forall n :: lo < n < lo + looked ==> |o.Settled(n, slots)| != ids
  }

  // While a slot some short id leads to has no offer, no loop stops early.
  lemma Unsettled(o: Offers, lo: nat, looked: nat, total: nat, slots: nat, positions: map<nat, nat>, k: nat)
    requires o.Valid() && looked <= total && lo + total <= |o.to| && StopsAt(o, lo, looked, total, slots, |positions|)
    requires forall j :: 0 <= j < |o.to| && o.to[j] >= 0 ==> o.to[j] in positions.Values
    requires k in positions.Values && forall j :: 0 <= j < |o.to| ==> o.to[j] != k
    ensures looked == total
  {
    hide Offers.Clash;
    if looked < total {
      var n := lo + looked;
      ValuesSize(positions);
      assert o.Settled(n, slots) <= positions.Values && k !in o.Settled(n, slots);
      SubsetSize(o.Settled(n, slots) + {k}, positions.Values);
    }
  }

  // The slots taken from the pools, which mempool_count counts.
  ghost function Taken(avail: seq<Option<Tx>>, have: seq<bool>): set<nat>
    requires |avail| == |have|
  {
    set k: nat | k < |avail| && have[k] && avail[k].Some?
  }

  lemma TakenAdd(avail: seq<Option<Tx>>, have: seq<bool>, k: nat, tx: Tx)
    requires |avail| == |have| && k < |avail| && !have[k]
    ensures |Taken(avail[k := Some(tx)], have[k := true])| == |Taken(avail, have)| + 1
  {
    assert Taken(avail[k := Some(tx)], have[k := true]) == Taken(avail, have) + {k};
  }

  lemma TakenDrop(avail: seq<Option<Tx>>, have: seq<bool>, k: nat)
    requires |avail| == |have| && k < |avail| && have[k] && avail[k].Some?
    ensures |Taken(avail, have)| > 0 && |Taken(avail[k := None], have)| == |Taken(avail, have)| - 1
  {
    assert k in Taken(avail, have);
    assert Taken(avail[k := None], have) == Taken(avail, have) - {k};
  }

  lemma {:induction false} ValuesSize(positions: map<nat, nat>)
    ensures |positions.Values| <= |positions|
    decreases |positions|
  {
    if positions != map[] {
      var id :| id in positions;
      var rest := positions - {id};
      ValuesSize(rest);
      assert forall p :: p in positions.Values ==> p in rest.Values + {positions[id]} by {
        forall p | p in positions.Values
          ensures p in rest.Values + {positions[id]}
        {
          var x :| x in positions && positions[x] == p;
          if x != id { assert x in rest && rest[x] == p; }
        }
      }
      SubsetSize(positions.Values, rest.Values + {positions[id]});
    }
  }

  lemma SubsetSize<T>(a: set<T>, b: set<T>)
    requires a <= b
    ensures |a| <= |b| && (|a| == |b| ==> a == b)
  {
    assert b == a + (b - a);
  }

  // As many slots taken as there are short ids: then every slot a short id leads to is.
  lemma AllTaken(positions: map<nat, nat>, avail: seq<Option<Tx>>, have: seq<bool>)
    requires |avail| == |have| && |Taken(avail, have)| == |positions|
    requires forall k :: 0 <= k < |have| && have[k] ==> k in positions.Values
    ensures forall id <- positions :: positions[id] < |have| && have[positions[id]]
  {
    ValuesSize(positions);
    SubsetSize(Taken(avail, have), positions.Values);
    assert forall id <- positions :: positions[id] in positions.Values;
  }

  class PartialBlock {
    const sip: SipHash
    var headerNull: bool
    var txnAvailable: seq<Option<Tx>>
    var mempoolCount: nat

    constructor (sip: SipHash)
      ensures headerNull && txnAvailable == [] && mempoolCount == 0 && this.sip == sip
    {
      this.sip := sip;
      headerNull := true;
      txnAvailable := [];
      mempoolCount := 0;
    }

    // The loop over prefilled transactions.
    method TakePrefilled(m: Message) returns (ok: bool)
      requires WellTyped(m) && |txnAvailable| == Count(m) && forall k :: 0 <= k < |txnAvailable| ==> txnAvailable[k].None?
      modifies `txnAvailable
      ensures ok == Accepted(m, |m.prefilled|)
      ensures ok ==> txnAvailable == Filled(m, |m.prefilled|)
    {
      hide PosOf;
      var last: int := -1;
      for i := 0 to |m.prefilled|
        invariant Accepted(m, i) && txnAvailable == Filled(m, i)
        invariant last == if i == 0 then -1 else PosOf(m.prefilled, i - 1)
      {
        PosStep(m.prefilled, i);
        if m.prefilled[i].tx.isNull {
          return false;
        }
        last := last + m.prefilled[i].index + 1;
        if last > 0xffff {
          return false;
        }
        if last > |m.shortIds| + i {
          return false;
        }
        txnAvailable := txnAvailable[last := Some(m.prefilled[i].tx)];
      }
      ok := true;
    }

    lemma PosStep(pre: seq<Prefilled>, i: nat)
      requires i < |pre|
      ensures PosOf(pre, i) == pre[i].index + if i == 0 then 0 else PosOf(pre, i - 1) + 1
    {
    }

    // The slot an entry's short id leads to.
    function Target(key: int, positions: map<nat, nat>, e: Entry): (k: int)
      ensures k >= -1 && (k >= 0 ==> k in positions.Values)
    {
      var sid := ShortId(sip, key, e.hash);
      if sid in positions then positions[sid] else -1
    }

    ghost function OffersOf(key: int, positions: map<nat, nat>, pool: seq<Entry>, extra: seq<Entry>): (o: Offers)
      ensures o.Valid() && |o.to| == |pool| + |extra| && o.pool == |pool|
    {
      var all := pool + extra;
      Offers(seq(|all|, j requires 0 <= j < |all| => Target(key, positions, all[j])),
             seq(|all|, j requires 0 <= j < |all| => all[j].tx), |pool|)
    }

    // One of the two pool loops; extra entries with the witness hash already there are skipped.
    // o has all the offers, x only those looked at.
    method Scan(entries: seq<Entry>, key: int, positions: map<nat, nat>, have0: seq<bool>, extra: bool,
                ghost o: Offers, ghost lo: nat, ghost x: Offers, ghost xlo: nat, ghost s: seq<Option<Tx>>)
      returns (have: seq<bool>, ghost looked: nat)
      requires Lists(o, lo, entries, key, positions, extra) && Lists(x, xlo, entries, key, positions, extra)
      requires forall id <- positions :: positions[id] < |s|
      requires SlotsOk(o, lo, s, txnAvailable, have0) && SlotsExact(x, xlo, s, txnAvailable, have0)
      requires mempoolCount == |Taken(txnAvailable, have0)|
      modifies `txnAvailable, `mempoolCount
      ensures SlotsOk(o, lo + |entries|, s, txnAvailable, have) && mempoolCount == |Taken(txnAvailable, have)|
      ensures looked <= |entries| && SlotsExact(x, xlo + looked, s, txnAvailable, have)
      ensures StopsAt(x, xlo, looked, |entries|, |s|, |positions|)
    {
      hide SlotsOk, SlotsExact, Taken, Offers.Settled, Lists;
      have, looked := have0, 0;
      ListsSizes(o, lo, entries, key, positions, extra);
      ListsSizes(x, xlo, entries, key, positions, extra);
      SlotsSizes(o, lo, s, txnAvailable, have, positions);
      for i := 0 to |entries|
        invariant |txnAvailable| == |have| == |s| && SlotsOk(o, lo + i, s, txnAvailable, have) && mempoolCount == |Taken(txnAvailable, have)|
        invariant looked == i && SlotsExact(x, xlo + i, s, txnAvailable, have)
        invariant forall n :: xlo < n <= xlo + i ==> |x.Settled(n, |s|)| != |positions|
      {
        ghost var avail0, have0 := txnAvailable, have;
        have := Look(entries[i], key, positions, have, extra);
        looked := i + 1;
        TargetInside(key, positions, entries[i], |s|);
        ListsAt(o, lo, entries, key, positions, extra, i);
        ListsAt(x, xlo, entries, key, positions, extra, i);
        SlotsStep(o, lo + i, s, avail0, have0, txnAvailable, have);
        ExactStep(x, xlo + i, s, avail0, have0, txnAvailable, have);
        SlotsSizes(o, lo + i + 1, s, txnAvailable, have, positions);
        TakenIsSettled(x, xlo + i + 1, s, txnAvailable, have);
        if mempoolCount == |positions| {
          AllTaken(positions, txnAvailable, have);
          SlotsRest(o, lo + i + 1, lo + |entries|, s, txnAvailable, have);
          return;
        }
      }
    }

    // The entries are the offers from lo on.
    ghost predicate Lists(o: Offers, lo: nat, entries: seq<Entry>, key: int, positions: map<nat, nat>, extra: bool) {
      && o.Valid() && lo + |entries| <= |o.to| && (if extra then lo >= o.pool else lo + |entries| <= o.pool)
      && (forall j :: 0 <= j < |o.to| ==> -1 <= o.to[j] && (o.to[j] >= 0 ==> o.to[j] in positions.Values))
      && forall i :: 0 <= i < |entries| ==> o.to[lo + i] == Target(key, positions, entries[i]) && o.txs[lo + i] == entries[i].tx
    }

    lemma ListsSizes(o: Offers, lo: nat, entries: seq<Entry>, key: int, positions: map<nat, nat>, extra: bool)
      requires Lists(o, lo, entries, key, positions, extra)
      ensures o.Valid() && lo + |entries| <= |o.to|
      ensures forall j :: 0 <= j < |o.to| ==> -1 <= o.to[j] && (o.to[j] >= 0 ==> o.to[j] in positions.Values)
    {
      hide Target;
    }

    lemma ListsAt(o: Offers, lo: nat, entries: seq<Entry>, key: int, positions: map<nat, nat>, extra: bool, i: nat)
      requires Lists(o, lo, entries, key, positions, extra) && i < |entries|
      ensures o.Valid() && lo + |entries| <= |o.to| && (extra <==> lo + i >= o.pool)
      ensures o.to[lo + i] == Target(key, positions, entries[i]) && o.txs[lo + i] == entries[i].tx
    {
      hide Target;
    }

    lemma PoolLists(key: int, positions: map<nat, nat>, pool: seq<Entry>, extra: seq<Entry>)
      ensures Lists(OffersOf(key, positions, pool, extra), 0, pool, key, positions, false)
      ensures Lists(OffersOf(key, positions, pool, extra), |pool|, extra, key, positions, true)
    {
      hide ShortId;
      var o, all := OffersOf(key, positions, pool, extra), pool + extra;
      forall i | 0 <= i < |extra|
        ensures o.to[|pool| + i] == Target(key, positions, extra[i]) && o.txs[|pool| + i] == extra[i].tx
      {
        assert all[|pool| + i] == extra[i];
      }
    }

    lemma TargetInside(key: int, positions: map<nat, nat>, e: Entry, n: nat)
      requires forall id <- positions :: positions[id] < n
      ensures Target(key, positions, e) < n
    {
    }

    // What one turn of the loops does.
    method Look(e: Entry, key: int, positions: map<nat, nat>, have0: seq<bool>, extra: bool) returns (have: seq<bool>)
      requires |txnAvailable| == |have0| && forall id <- positions :: positions[id] < |have0|
      requires mempoolCount == |Taken(txnAvailable, have0)|
      modifies `txnAvailable, `mempoolCount
      ensures var k := Target(key, positions, e);
              if k < 0 then txnAvailable == old(txnAvailable) && have == have0
              else if !have0[k] then txnAvailable == old(txnAvailable)[k := Some(e.tx)] && have == have0[k := true]
              else if old(txnAvailable)[k].Some? && (!extra || old(txnAvailable)[k].value.wtxid != e.tx.wtxid)
              then txnAvailable == old(txnAvailable)[k := None] && have == have0
              else txnAvailable == old(txnAvailable) && have == have0
      ensures mempoolCount == |Taken(txnAvailable, have)|
    {
      hide Taken;
      have := have0;
      var sid := ShortId(sip, key, e.hash);
      if sid in positions {
        var k := positions[sid];
        if !have[k] {
          TakenAdd(txnAvailable, have, k, e.tx);
          txnAvailable := txnAvailable[k := Some(e.tx)];
          have := have[k := true];
          mempoolCount := mempoolCount + 1;
        } else if txnAvailable[k].Some? && (!extra || txnAvailable[k].value.wtxid != e.tx.wtxid) {
          TakenDrop(txnAvailable, have, k);
          txnAvailable := txnAvailable[k := None];
          mempoolCount := mempoolCount - 1;
        }
      }
    }

    static lemma SlotsSizes(o: Offers, n: nat, s: seq<Option<Tx>>, avail: seq<Option<Tx>>, have: seq<bool>, positions: map<nat, nat>)
      requires o.Valid() && n <= |o.to| && SlotsOk(o, n, s, avail, have)
      requires forall j :: 0 <= j < |o.to| ==> -1 <= o.to[j] && (o.to[j] >= 0 ==> o.to[j] in positions.Values)
      ensures |avail| == |s| == |have| && forall k :: 0 <= k < |have| && have[k] ==> k in positions.Values
    {
    }

    // InitData
    method InitData(m: Message, pool: seq<Entry>, extra: seq<Entry>, crowded: nat -> bool) returns (status: Status)
      requires WellTyped(m) && headerNull && txnAvailable == [] && mempoolCount == 0
      modifies this
      ensures status == Invalid <==>
                m.headerNull || Count(m) == 0 || Count(m) > MAX_COUNT || !Accepted(m, |m.prefilled|)
      ensures status != Invalid ==> (status == Endless <==> m.shortIds != [] && |m.prefilled| >= SHORT)
      ensures status != Invalid && status != Endless ==>
                (status == Failed <==> !Distinct(m.shortIds, |m.shortIds|) || exists i :: 0 <= i < |m.shortIds| && crowded(i))
      ensures status != CheckBlockFailed
      ensures status == Ok ==> forall i :: 0 <= i < |m.prefilled| ==> !m.prefilled[i].tx.isNull
      ensures status == Ok ==> !headerNull && Gathered(m, pool, extra, txnAvailable) && Examined(m, pool, extra, txnAvailable)
    {
      hide Accepted, Distinct, SlotsOk, Mapped, Taken, Gathered, Examined, Filled, Empties;
      if m.headerNull || Count(m) == 0 {
        return Invalid;
      }
      if Count(m) > MAX_COUNT {
        return Invalid;
      }
      headerNull := false;
      txnAvailable := seq(Count(m), _ => None);
      var ok := TakePrefilled(m);
      if !ok {
        return Invalid;
      }
      var positions;
      status, positions := MapShortIds(m, txnAvailable, m.shortIds, crowded);
      if status != Ok {
        return;
      }
      ScanBoth(m, pool, extra, positions);
      NoneNull(m);
    }

    static lemma NoneNull(m: Message)
      requires Accepted(m, |m.prefilled|)
      ensures forall i :: 0 <= i < |m.prefilled| ==> !m.prefilled[i].tx.isNull
    {
    }

    // The two pool loops.
    method ScanBoth(m: Message, pool: seq<Entry>, extra: seq<Entry>, positions: map<nat, nat>)
      requires Accepted(m, |m.prefilled|) && Empties(Filled(m, |m.prefilled|), Count(m)) == |m.shortIds|
      requires Mapped(positions, m.shortIds, Filled(m, |m.prefilled|), |m.shortIds|)
      requires txnAvailable == Filled(m, |m.prefilled|) && mempoolCount == 0
      modifies `txnAvailable, `mempoolCount
      ensures Gathered(m, pool, extra, txnAvailable) && Examined(m, pool, extra, txnAvailable)
    {
      hide Accepted, SlotsOk, SlotsExact, Mapped, Taken, Gathered, Examined, Filled, Empties, ShortId, StopsAt, Lists, OffersOf;
      ghost var s := txnAvailable;
      MappedInside(positions, m.shortIds, s);
      var have := seq(|txnAvailable|, _ => false);
      ghost var o := OffersOf(m.key, positions, pool, extra);
      NothingTaken(o, s);
      PoolLists(m.key, positions, pool, extra);
      ghost var e1, e2;
      have, e1 := Scan(pool, m.key, positions, have, false, o, 0, o, 0, s);
      ghost var x := OffersOf(m.key, positions, pool[..e1], extra);
      PoolLists(m.key, positions, pool[..e1], extra);
      SameOffers(m.key, positions, pool, extra, e1, s, txnAvailable, have);
      have, e2 := Scan(extra, m.key, positions, have, true, o, |pool|, x, e1, s);
      GatheredIs(m, pool, extra, txnAvailable, positions, have);
      ExaminedIs(m, pool, extra, txnAvailable, positions, have, e1, e2);
    }

    lemma SameOffers(key: int, positions: map<nat, nat>, pool: seq<Entry>, extra: seq<Entry>, e: nat,
                     s: seq<Option<Tx>>, avail: seq<Option<Tx>>, have: seq<bool>)
      requires e <= |pool| && SlotsExact(OffersOf(key, positions, pool, extra), e, s, avail, have)
      ensures SlotsExact(OffersOf(key, positions, pool[..e], extra), e, s, avail, have)
    {
      hide SlotsExact, ShortId;
      SameExact(OffersOf(key, positions, pool, extra), OffersOf(key, positions, pool[..e], extra), e, s, avail, have);
    }

    static lemma NothingTaken(o: Offers, s: seq<Option<Tx>>)
      requires o.Valid()
      ensures SlotsOk(o, 0, s, s, seq(|s|, _ => false)) && |Taken(s, seq(|s|, _ => false))| == 0
      ensures SlotsExact(o, 0, s, s, seq(|s|, _ => false))
    {
      assert Taken(s, seq(|s|, _ => false)) == {};
    }

    // Which entries were looked at, and what exactly they leave: a slot is empty after a clash
    // among them, holds the first of them otherwise, and is as prefilled without one.
    ghost predicate Examined(m: Message, pool: seq<Entry>, extra: seq<Entry>, avail: seq<Option<Tx>>) {
      && Accepted(m, |m.prefilled|) && |avail| == Count(m) && Empties(Filled(m, |m.prefilled|), Count(m)) == |m.shortIds|
      && exists positions, e1: nat, e2: nat :: ExaminedBy(m, pool, extra, avail, positions, e1, e2)
    }

    ghost predicate ExaminedBy(m: Message, pool: seq<Entry>, extra: seq<Entry>, avail: seq<Option<Tx>>, positions: map<nat, nat>, e1: nat, e2: nat)
      requires Accepted(m, |m.prefilled|) && |avail| == Count(m) && Empties(Filled(m, |m.prefilled|), Count(m)) == |m.shortIds|
    {
      && Mapped(positions, m.shortIds, Filled(m, |m.prefilled|), |m.shortIds|) && e1 <= |pool| && e2 <= |extra|
      && StopsAt(OffersOf(m.key, positions, pool, extra), 0, e1, |pool|, |avail|, |positions|)
      && var x := OffersOf(m.key, positions, pool[..e1], extra);
         && StopsAt(x, e1, e2, |extra|, |avail|, |positions|)
         && forall k :: 0 <= k < |avail| ==> x.SlotExact(e1 + e2, Filled(m, |m.prefilled|)[k], avail[k], k)
    }

    lemma ExaminedIs(m: Message, pool: seq<Entry>, extra: seq<Entry>, avail: seq<Option<Tx>>, positions: map<nat, nat>, have: seq<bool>, e1: nat, e2: nat)
      requires Accepted(m, |m.prefilled|) && Empties(Filled(m, |m.prefilled|), Count(m)) == |m.shortIds|
      requires Mapped(positions, m.shortIds, Filled(m, |m.prefilled|), |m.shortIds|) && e1 <= |pool| && e2 <= |extra|
      requires StopsAt(OffersOf(m.key, positions, pool, extra), 0, e1, |pool|, Count(m), |positions|)
      requires StopsAt(OffersOf(m.key, positions, pool[..e1], extra), e1, e2, |extra|, Count(m), |positions|)
      requires SlotsExact(OffersOf(m.key, positions, pool[..e1], extra), e1 + e2, Filled(m, |m.prefilled|), avail, have)
      ensures Examined(m, pool, extra, avail)
    {
      hide Filled, Empties, Accepted, Mapped, StopsAt;
      assert ExaminedBy(m, pool, extra, avail, positions, e1, e2);
    }

    // When some slot a short id leads to has no entry at all, every entry is looked at, and every
    // clash empties its slot.
    lemma AllExamined(m: Message, pool: seq<Entry>, extra: seq<Entry>, avail: seq<Option<Tx>>, positions: map<nat, nat>, e1: nat, e2: nat, k: nat)
      requires Accepted(m, |m.prefilled|) && |avail| == Count(m) && Empties(Filled(m, |m.prefilled|), Count(m)) == |m.shortIds|
      requires ExaminedBy(m, pool, extra, avail, positions, e1, e2) && k in positions.Values
      requires forall j :: 0 <= j < |pool| ==> Target(m.key, positions, pool[j]) != k
      requires forall j :: 0 <= j < |extra| ==> Target(m.key, positions, extra[j]) != k
      ensures e1 == |pool| && e2 == |extra|
      ensures var o := OffersOf(m.key, positions, pool, extra);
              forall i :: 0 <= i < |avail| ==> o.SlotExact(|o.to|, Filled(m, |m.prefilled|)[i], avail[i], i)
    {
      hide Filled, Empties, Accepted, Mapped, StopsAt;
      var o := OffersOf(m.key, positions, pool, extra);
      Unsettled(o, 0, e1, |pool|, |avail|, positions, k);
      assert pool[..e1] == pool;
      Unsettled(o, e1, e2, |extra|, |avail|, positions, k);
    }

    static lemma MappedInside(positions: map<nat, nat>, ids: seq<nat>, s: seq<Option<Tx>>)
      requires |ids| <= Empties(s, |s|) && Mapped(positions, ids, s, |ids|)
      ensures forall id <- positions :: positions[id] < |s|
    {
      hide EmptySlot, Empties;
      forall id <- positions
        ensures positions[id] < |s|
      {
        var i :| 0 <= i < |ids| && ids[i] == id;
        var p := EmptySlotIs(s, i);
      }
    }

    // The slots after InitData: each holds the first entry whose short id leads to it, or
    // nothing if a later one disagrees; a slot without such an entry is as it was prefilled.
    ghost predicate Gathered(m: Message, pool: seq<Entry>, extra: seq<Entry>, avail: seq<Option<Tx>>)
    {
      && Accepted(m, |m.prefilled|) && |avail| == Count(m) && Empties(Filled(m, |m.prefilled|), Count(m)) == |m.shortIds|
      && exists positions :: GatheredBy(m, pool, extra, avail, positions)
    }

    ghost predicate GatheredBy(m: Message, pool: seq<Entry>, extra: seq<Entry>, avail: seq<Option<Tx>>, positions: map<nat, nat>)
      requires Accepted(m, |m.prefilled|) && |avail| == Count(m) && Empties(Filled(m, |m.prefilled|), Count(m)) == |m.shortIds|
    {
      && Mapped(positions, m.shortIds, Filled(m, |m.prefilled|), |m.shortIds|)
      && var o := OffersOf(m.key, positions, pool, extra);
         forall k :: 0 <= k < |avail| ==> o.SlotIs(|o.to|, Filled(m, |m.prefilled|)[k], avail[k], k)
    }

    lemma GatheredIs(m: Message, pool: seq<Entry>, extra: seq<Entry>, avail: seq<Option<Tx>>, positions: map<nat, nat>, have: seq<bool>)
      requires Accepted(m, |m.prefilled|) && Empties(Filled(m, |m.prefilled|), Count(m)) == |m.shortIds|
      requires Mapped(positions, m.shortIds, Filled(m, |m.prefilled|), |m.shortIds|)
      requires SlotsOk(OffersOf(m.key, positions, pool, extra), |pool| + |extra|, Filled(m, |m.prefilled|), avail, have)
      ensures Gathered(m, pool, extra, avail)
    {
      hide Filled, Empties, Accepted, Mapped;
      assert GatheredBy(m, pool, extra, avail, positions);
    }

    // FillBlock.  check stands for CheckBlock: whether the block is fine, and if not, whether
    // its data may have been corrupted on the way.
    method FillBlock(missing: seq<Tx>, check: seq<Tx> -> (bool, bool)) returns (status: Status, vtx: seq<Tx>)
      requires !headerNull
      modifies this
      ensures status == Invalid <==> |missing| != old(Empties(txnAvailable, |txnAvailable|))
      ensures status != Invalid ==>
                && vtx == Merged(old(txnAvailable), missing, |old(txnAvailable)|) && headerNull && txnAvailable == []
                && status == if check(vtx).0 then Ok else if check(vtx).1 then Failed else CheckBlockFailed
    {
      ghost var avail := txnAvailable;
      vtx := [];
      var offset: nat := 0;
      for i := 0 to |txnAvailable|
        invariant |txnAvailable| == |avail| && forall k :: i <= k < |avail| ==> txnAvailable[k] == avail[k]
        invariant offset == Empties(avail, i) <= |missing| && vtx == Merged(avail, missing, i)
        invariant !headerNull
      {
        if txnAvailable[i].None? {
          if |missing| <= offset {
            EmptiesMonotone(avail, i + 1, |avail|);
            return Invalid, vtx;
          }
          vtx := vtx + [missing[offset]];
          offset := offset + 1;
        } else {
          vtx := vtx + [txnAvailable[i].value];
          // moved from
          txnAvailable := txnAvailable[i := None];
        }
      }
      headerNull := true;
      txnAvailable := [];
      if |missing| != offset {
        return Invalid, vtx;
      }
      var result := check(vtx);
      status := if result.0 then Ok else if result.1 then Failed else CheckBlockFailed;
    }
  }

  // The first n slots, each empty one taking the next missing transaction.
  ghost function Merged(avail: seq<Option<Tx>>, missing: seq<Tx>, n: nat): (vtx: seq<Tx>)
    requires n <= |avail| && Empties(avail, n) <= |missing|
    ensures |vtx| == n
  {
    if n == 0 then []
    else Merged(avail, missing, n - 1) + [if avail[n - 1].None? then missing[Empties(avail, n - 1)] else avail[n - 1].value]
  }

  // ---------- the whole exchange ----------

  // The transactions of the empty slots, in order: what the receiver asks for.
  function Missing(avail: seq<Option<Tx>>, vtx: seq<Tx>, n: nat): seq<Tx>
    requires n <= |avail| == |vtx|
  {
    if n == 0 then []
    else Missing(avail, vtx, n - 1) + if avail[n - 1].None? then [vtx[n - 1]] else []
  }

  lemma {:induction false} MissingSize(avail: seq<Option<Tx>>, vtx: seq<Tx>, n: nat)
    requires n <= |avail| == |vtx|
    ensures |Missing(avail, vtx, n)| == Empties(avail, n)
  {
    if n > 0 { MissingSize(avail, vtx, n - 1); }
  }

  lemma {:induction false} MissingPrefix(avail: seq<Option<Tx>>, vtx: seq<Tx>, n: nat)
    requires n <= |avail| == |vtx|
    ensures Missing(avail, vtx, n) <= Missing(avail, vtx, |vtx|)
    decreases |vtx| - n
  {
    if n < |vtx| { MissingPrefix(avail, vtx, n + 1); }
  }

  // Completed by the missing transactions in order, a slot that was empty is right and a
  // filled one stays as it is.
  lemma {:induction false} MergedAt(avail: seq<Option<Tx>>, vtx: seq<Tx>, n: nat, k: nat)
    requires k < n <= |avail| == |vtx| && Empties(avail, n) <= |Missing(avail, vtx, |vtx|)|
    ensures Merged(avail, Missing(avail, vtx, |vtx|), n)[k] == if avail[k].None? then vtx[k] else avail[k].value
  {
    if k < n - 1 {
      MergedAt(avail, vtx, n - 1, k);
    } else {
      MissingSize(avail, vtx, k);
      MissingPrefix(avail, vtx, n);
      if avail[k].None? { assert Missing(avail, vtx, n)[Empties(avail, k)] == vtx[k]; }
    }
  }

  function HashOf(tx: Tx, useWtxid: bool): int { if useWtxid then tx.wtxid else tx.txid }

  // A message that stands for this block, whichever transactions are prefilled.
  ghost predicate Encodes(m: Message, vtx: seq<Tx>, sip: SipHash, useWtxid: bool) {
    && Accepted(m, |m.prefilled|) && |vtx| == Count(m) && Empties(Filled(m, |m.prefilled|), Count(m)) == |m.shortIds|
    && (forall i :: 0 <= i < |m.prefilled| ==> PosOf(m.prefilled, i) < |vtx| && m.prefilled[i].tx == vtx[PosOf(m.prefilled, i)])
    && forall i :: 0 <= i < |m.shortIds| ==>
         m.shortIds[i] == ShortId(sip, m.key, HashOf(vtx[EmptySlot(Filled(m, |m.prefilled|), i)], useWtxid))
  }

  // No pool transaction shares a short id with a different transaction of the block.
  ghost predicate NoCollision(entries: seq<Entry>, vtx: seq<Tx>, sip: SipHash, key: int, useWtxid: bool) {
    forall j, k :: 0 <= j < |entries| && 0 <= k < |vtx| ==>
      ShortId(sip, key, entries[j].hash) == ShortId(sip, key, HashOf(vtx[k], useWtxid)) ==>
        entries[j].tx == vtx[k]
  }

  // Some short id of another slot leads to slot k, its position being cut to 16 bits.
  ghost predicate Strayed(m: Message, k: nat)
    requires Accepted(m, |m.prefilled|) && Empties(Filled(m, |m.prefilled|), Count(m)) == |m.shortIds|
  {
    exists i :: 0 <= i < |m.shortIds| && EmptySlot(Filled(m, |m.prefilled|), i) % SHORT == k != EmptySlot(Filled(m, |m.prefilled|), i)
  }

  lemma NoneStrays(m: Message, k: nat)
    requires Accepted(m, |m.prefilled|) && Empties(Filled(m, |m.prefilled|), Count(m)) == |m.shortIds|
    requires Count(m) <= SHORT
    ensures !Strayed(m, k)
  {
    hide Filled, Empties, EmptySlot;
    PositionsRightIff(m);
  }

  // Without collisions every filled slot that no other slot's short id leads to holds the
  // block's own transaction; up to 65536 transactions that is every filled slot.
  lemma GatheredRight(b: PartialBlock, m: Message, vtx: seq<Tx>, pool: seq<Entry>, extra: seq<Entry>, avail: seq<Option<Tx>>, useWtxid: bool)
    requires b.Gathered(m, pool, extra, avail) && Encodes(m, vtx, b.sip, useWtxid)
    requires NoCollision(pool, vtx, b.sip, m.key, useWtxid) && NoCollision(extra, vtx, b.sip, m.key, useWtxid)
    ensures |avail| == |vtx|
    ensures forall k: nat :: k < |vtx| && avail[k].Some? && (Count(m) <= SHORT || !Strayed(m, k)) ==> avail[k].value == vtx[k]
  {
    hide Filled, Empties, EmptySlot, Strayed, PosOf, Accepted, b.Gathered, b.GatheredBy, Encodes, NoCollision;
    GatheredFacts(b, m, pool, extra, avail);
    EncodesAccepted(m, vtx, b.sip, useWtxid);
    forall k: nat | k < |vtx| && avail[k].Some? && (Count(m) <= SHORT || !Strayed(m, k))
      ensures avail[k].value == vtx[k]
    {
      if Count(m) <= SHORT { NoneStrays(m, k); }
      SlotRight(b, m, vtx, pool, extra, avail, useWtxid, k);
    }
  }

  lemma GatheredFacts(b: PartialBlock, m: Message, pool: seq<Entry>, extra: seq<Entry>, avail: seq<Option<Tx>>)
    requires b.Gathered(m, pool, extra, avail)
    ensures Accepted(m, |m.prefilled|) && |avail| == Count(m) && Empties(Filled(m, |m.prefilled|), Count(m)) == |m.shortIds|
  {
  }

  lemma SlotRight(b: PartialBlock, m: Message, vtx: seq<Tx>, pool: seq<Entry>, extra: seq<Entry>, avail: seq<Option<Tx>>,
                  useWtxid: bool, k: nat)
    requires b.Gathered(m, pool, extra, avail) && Encodes(m, vtx, b.sip, useWtxid)
    requires NoCollision(pool, vtx, b.sip, m.key, useWtxid) && NoCollision(extra, vtx, b.sip, m.key, useWtxid)
    requires k < |vtx| && avail[k].Some? && !Strayed(m, k)
    ensures avail[k].value == vtx[k]
  {
    hide Filled, Empties, EmptySlot, PosOf, ShortId;
    var s := Filled(m, |m.prefilled|);
    var positions :| b.GatheredBy(m, pool, extra, avail, positions);
    var o := b.OffersOf(m.key, positions, pool, extra);
    assert o.SlotIs(|o.to|, s[k], avail[k], k);
    var f := o.First(|o.to|, k);
    if f < 0 {
      var i := FilledFrom(m, |m.prefilled|, k);
      FilledAt(m, |m.prefilled|, i);
    } else {
      var e := (pool + extra)[f];
      var i :| 0 <= i < |m.shortIds| && m.shortIds[i] == ShortId(b.sip, m.key, e.hash);
      assert EmptySlot(s, i) == k;
    }
  }

  // No transaction is listed twice.
  ghost predicate ListedOnce(pool: seq<Entry>) {
    forall i, j :: 0 <= i < j < |pool| ==> pool[i].tx != pool[j].tx
  }

  // An entry with this short id.
  ghost predicate Offered(entries: seq<Entry>, sip: SipHash, key: int, sid: nat) {
    exists j :: 0 <= j < |entries| && ShortId(sip, key, entries[j].hash) == sid
  }

  // Up to 65536 transactions an entry is taken for the slot of short id i exactly when it has
  // that short id.
  lemma TakenFor(b: PartialBlock, m: Message, positions: map<nat, nat>, i: nat, e: Entry)
    requires Accepted(m, |m.prefilled|) && Empties(Filled(m, |m.prefilled|), Count(m)) == |m.shortIds| && Count(m) <= SHORT
    requires Mapped(positions, m.shortIds, Filled(m, |m.prefilled|), |m.shortIds|) && i < |m.shortIds|
    ensures b.Target(m.key, positions, e) == EmptySlot(Filled(m, |m.prefilled|), i) <==> ShortId(b.sip, m.key, e.hash) == m.shortIds[i]
  {
    hide Filled, Empties, EmptySlot, ShortId, Mapped;
    var s, sid := Filled(m, |m.prefilled|), ShortId(b.sip, m.key, e.hash);
    MappedAt(positions, m.shortIds, s, i);
    if sid in positions {
      var l := MappedFrom(positions, m.shortIds, s, sid);
      MappedAt(positions, m.shortIds, s, l);
    }
  }

  // Up to 65536 transactions, without collisions and repetitions, the transaction of a short
  // id is requested exactly when neither pool offers it.
  lemma RequestedIff(b: PartialBlock, m: Message, vtx: seq<Tx>, pool: seq<Entry>, extra: seq<Entry>, avail: seq<Option<Tx>>,
                     useWtxid: bool, i: nat)
    requires b.Gathered(m, pool, extra, avail) && Encodes(m, vtx, b.sip, useWtxid) && Count(m) <= SHORT && i < |m.shortIds|
    requires NoCollision(pool, vtx, b.sip, m.key, useWtxid) && NoCollision(extra, vtx, b.sip, m.key, useWtxid) && ListedOnce(pool)
    ensures EmptySlot(Filled(m, |m.prefilled|), i) < |avail|
    ensures avail[EmptySlot(Filled(m, |m.prefilled|), i)].None? <==>
            !Offered(pool, b.sip, m.key, m.shortIds[i]) && !Offered(extra, b.sip, m.key, m.shortIds[i])
  {
    hide Filled, Empties, EmptySlot, PosOf, ShortId, NoCollision, Encodes, Accepted, Mapped, Offered;
    var s, all := Filled(m, |m.prefilled|), pool + extra;
    var k := EmptySlotIs(s, i);
    var positions :| b.GatheredBy(m, pool, extra, avail, positions);
    var o := b.OffersOf(m.key, positions, pool, extra);
    EncodesAt(m, vtx, b.sip, useWtxid, i);
    forall j: nat | j < |all|
      ensures o.to[j] == k <==> ShortId(b.sip, m.key, all[j].hash) == m.shortIds[i]
      ensures o.to[j] == k ==> o.txs[j] == vtx[k]
    {
      TakenFor(b, m, positions, i, all[j]);
      if j < |pool| {
        assert all[j] == pool[j];
        NoCollisionAt(pool, vtx, b.sip, m.key, useWtxid, j, k);
      } else {
        assert all[j] == extra[j - |pool|];
        NoCollisionAt(extra, vtx, b.sip, m.key, useWtxid, j - |pool|, k);
      }
    }
    assert o.SlotIs(|o.to|, s[k], avail[k], k);
    NoClash(o, pool, vtx[k], k);
    OfferedConcat(pool, extra, b.sip, m.key, m.shortIds[i]);
    OfferedIff(all, b.sip, m.key, m.shortIds[i], o, k);
  }

  lemma NoClash(o: Offers, pool: seq<Entry>, tx: Tx, k: nat)
    requires o.Valid() && o.pool == |pool| && ListedOnce(pool) && forall j :: 0 <= j < |pool| ==> o.txs[j] == pool[j].tx
    requires forall j :: 0 <= j < |o.to| && o.to[j] == k ==> o.txs[j] == tx
    ensures !o.Clash(|o.to|, k)
  {
  }

  lemma OfferedIff(all: seq<Entry>, sip: SipHash, key: int, sid: nat, o: Offers, k: nat)
    requires |all| == |o.to| && forall j :: 0 <= j < |all| ==> (o.to[j] == k <==> ShortId(sip, key, all[j].hash) == sid)
    ensures Offered(all, sip, key, sid) <==> o.First(|o.to|, k) >= 0
  {
    hide ShortId;
    if j :| 0 <= j < |all| && ShortId(sip, key, all[j].hash) == sid { assert o.to[j] == k; }
  }

  lemma EncodesAt(m: Message, vtx: seq<Tx>, sip: SipHash, useWtxid: bool, i: nat)
    requires Encodes(m, vtx, sip, useWtxid) && i < |m.shortIds|
    ensures Accepted(m, |m.prefilled|) && |vtx| == Count(m) && Empties(Filled(m, |m.prefilled|), Count(m)) == |m.shortIds|
    ensures EmptySlot(Filled(m, |m.prefilled|), i) < |vtx|
    ensures m.shortIds[i] == ShortId(sip, m.key, HashOf(vtx[EmptySlot(Filled(m, |m.prefilled|), i)], useWtxid))
  {
    hide Filled, Empties, EmptySlot;
    var p := EmptySlotIs(Filled(m, |m.prefilled|), i);
  }

  lemma NoCollisionAt(entries: seq<Entry>, vtx: seq<Tx>, sip: SipHash, key: int, useWtxid: bool, j: nat, k: nat)
    requires NoCollision(entries, vtx, sip, key, useWtxid) && j < |entries| && k < |vtx|
    ensures ShortId(sip, key, entries[j].hash) == ShortId(sip, key, HashOf(vtx[k], useWtxid)) ==> entries[j].tx == vtx[k]
  {
  }

  lemma OfferedConcat(pool: seq<Entry>, extra: seq<Entry>, sip: SipHash, key: int, sid: nat)
    ensures Offered(pool + extra, sip, key, sid) <==> Offered(pool, sip, key, sid) || Offered(extra, sip, key, sid)
  {
    hide ShortId;
    var all := pool + extra;
    if j :| 0 <= j < |all| && ShortId(sip, key, all[j].hash) == sid {
      assert if j < |pool| then all[j] == pool[j] else all[j] == extra[j - |pool|];
    }
    if j :| 0 <= j < |pool| && ShortId(sip, key, pool[j].hash) == sid { assert all[j] == pool[j]; }
    if j :| 0 <= j < |extra| && ShortId(sip, key, extra[j].hash) == sid { assert all[|pool| + j] == extra[j]; }
  }

  // The sender's constructor: the coinbase in full, short ids for the rest.
  method MakeMessage(vtx: seq<Tx>, key: int, sip: SipHash, useWtxid: bool) returns (m: Message)
    requires |vtx| > 0 && !vtx[0].isNull
    ensures m.key == key && !m.headerNull && m.prefilled == [Prefilled(0, vtx[0])] && |m.shortIds| == |vtx| - 1
    ensures Encodes(m, vtx, sip, useWtxid)
  {
    hide ShortId;
    var ids: seq<nat> := seq(|vtx| - 1, _ => 0);
    for i := 1 to |vtx|
      invariant |ids| == |vtx| - 1
      invariant forall j :: 1 <= j < i ==> ids[j - 1] == ShortId(sip, key, HashOf(vtx[j], useWtxid))
    {
      ids := ids[i - 1 := ShortId(sip, key, HashOf(vtx[i], useWtxid))];
    }
    m := Message(false, key, ids, [Prefilled(0, vtx[0])]);
    CoinbaseOnly(m, vtx, sip, useWtxid);
  }

  lemma CoinbaseOnly(m: Message, vtx: seq<Tx>, sip: SipHash, useWtxid: bool)
    requires |vtx| > 0 && !vtx[0].isNull && m.prefilled == [Prefilled(0, vtx[0])] && |m.shortIds| == |vtx| - 1
    requires forall j :: 1 <= j < |vtx| ==> m.shortIds[j - 1] == ShortId(sip, m.key, HashOf(vtx[j], useWtxid))
    ensures Encodes(m, vtx, sip, useWtxid)
  {
    hide ShortId, EmptySlot;
    assert PosOf(m.prefilled, 0) == 0;
    FilledEmpties(m, 1);
    var s := Filled(m, 1);
    forall i | 0 <= i < |m.shortIds|
      ensures EmptySlot(s, i) == i + 1
    {
      OneFilled(s, i + 1);
      EmptySlotUnique(s, i, EmptySlotIs(s, i), i + 1);
    }
  }

  lemma {:induction false} OneFilled(s: seq<Option<Tx>>, n: nat)
    requires 1 <= n <= |s| && s[0].Some? && forall k :: 1 <= k < |s| ==> s[k].None?
    ensures Empties(s, n) == n - 1
  {
    if n > 1 { OneFilled(s, n - 1); }
  }

  // From sender to receiver, whatever the sender prefilled: absent collisions, a successful
  // InitData followed by FillBlock with the requested transactions gives the sender's list up
  // to 65536 transactions, and beyond that wherever no short id went astray.
  method Relay(m: Message, vtx: seq<Tx>, sip: SipHash, useWtxid: bool, pool: seq<Entry>, extra: seq<Entry>,
               crowded: nat -> bool, check: seq<Tx> -> (bool, bool))
    returns (first: Status, second: Status, rebuilt: seq<Tx>)
    requires WellTyped(m) && Encodes(m, vtx, sip, useWtxid)
    requires NoCollision(pool, vtx, sip, m.key, useWtxid) && NoCollision(extra, vtx, sip, m.key, useWtxid)
    ensures first == Invalid <==> m.headerNull || |vtx| == 0 || |vtx| > MAX_COUNT
    ensures first != Invalid ==> (first == Endless <==> m.shortIds != [] && |m.prefilled| >= SHORT)
    ensures first == Ok ==>
              && |rebuilt| == |vtx| && second == (if check(rebuilt).0 then Ok else if check(rebuilt).1 then Failed else CheckBlockFailed)
              && (forall k: nat :: k < |vtx| && !Strayed(m, k) ==> rebuilt[k] == vtx[k])
              && (|vtx| <= SHORT ==> rebuilt == vtx)
  {
    hide Encodes, NoCollision, Accepted, Distinct, Empties, Merged, Missing, Strayed, Filled;
    EncodesAccepted(m, vtx, sip, useWtxid);
    var b := new PartialBlock(sip);
    first := b.InitData(m, pool, extra, crowded);
    second, rebuilt := Failed, [];
    if first == Ok {
      ghost var avail := b.txnAvailable;
      GatheredRight(b, m, vtx, pool, extra, avail, useWtxid);
      var missing := Missing(b.txnAvailable, vtx, |vtx|);
      MissingSize(avail, vtx, |vtx|);
      second, rebuilt := b.FillBlock(missing, check);
      forall k: nat | k < |vtx| && (|vtx| <= SHORT || !Strayed(m, k))
        ensures rebuilt[k] == vtx[k]
      {
        MergedAt(avail, vtx, |vtx|, k);
      }
    }
  }

  lemma EncodesAccepted(m: Message, vtx: seq<Tx>, sip: SipHash, useWtxid: bool)
    requires Encodes(m, vtx, sip, useWtxid)
    ensures Accepted(m, |m.prefilled|) && |vtx| == Count(m) && Empties(Filled(m, |m.prefilled|), Count(m)) == |m.shortIds|
  {
  }

  // ---------- messages beyond 16 bits ----------

  // 65536 prefilled transactions and one short id are accepted, and the loop for that id
  // never ends.
  lemma FullMessageIsEndless(key: int, tx: Tx, id: nat)
    requires !tx.isNull
    ensures var m := Message(false, key, [id], seq(SHORT, _ => Prefilled(0, tx)));
            && WellTyped(m) && Count(m) == 65537 <= MAX_COUNT && Accepted(m, SHORT)
            && CanStart(Filled(m, SHORT), 0, 0) && forall t: nat :: !StopsAfter(Filled(m, SHORT), 0, 0, t)
  {
    hide PosOf, Filled;
    var m := Message(false, key, [id], seq(SHORT, _ => Prefilled(0, tx)));
    forall i: nat | i < SHORT ensures PosOf(m.prefilled, i) == i { PosOfZeros(m.prefilled, i); }
    PrefilledBound(m);
    FilledEmpties(m, SHORT);
    NothingBefore(Filled(m, SHORT));
  }

  lemma {:induction false} PosOfZeros(pre: seq<Prefilled>, i: nat)
    requires i < |pre| && forall j :: 0 <= j < |pre| ==> pre[j].index == 0
    ensures PosOf(pre, i) == i
  {
    if i > 0 { PosOfZeros(pre, i - 1); }
  }

  // The sender's own message for 65537 transactions: the last short id leads to slot 0, where
  // the coinbase is.  If the pool offers the last transaction it replaces the coinbase, and
  // the last slot stays empty whatever the pools offer.
  lemma LastStrays(b: PartialBlock, m: Message, vtx: seq<Tx>, pool: seq<Entry>, extra: seq<Entry>, avail: seq<Option<Tx>>, useWtxid: bool)
    requires |vtx| == SHORT + 1 && !vtx[0].isNull && m.prefilled == [Prefilled(0, vtx[0])] && |m.shortIds| == SHORT
    requires forall j :: 1 <= j < |vtx| ==> m.shortIds[j - 1] == ShortId(b.sip, m.key, HashOf(vtx[j], useWtxid))
    requires b.Gathered(m, pool, extra, avail)
    ensures Filled(m, 1)[0] == Some(vtx[0]) && EmptySlot(Filled(m, 1), SHORT - 1) == SHORT && Strayed(m, 0)
    ensures avail[SHORT].None?
    ensures pool == [Entry(HashOf(vtx[SHORT], useWtxid), vtx[SHORT])] && extra == [] ==> avail[0] == Some(vtx[SHORT])
  {
    hide PosOf, ShortId, EmptySlot, Filled, Empties, Accepted, Mapped;
    GatheredFacts(b, m, pool, extra, avail);
    FirstFilled(m, vtx[0]);
    LastSlot(m);
    var positions :| b.GatheredBy(m, pool, extra, avail, positions);
    PositionsShort(positions, m.shortIds, Filled(m, 1));
    LastEmpty(b, m, pool, extra, avail, positions);
    assert m.shortIds[SHORT - 1] == ShortId(b.sip, m.key, HashOf(vtx[SHORT], useWtxid));
    if pool == [Entry(HashOf(vtx[SHORT], useWtxid), vtx[SHORT])] && extra == [] {
      LastTaken(b, m, vtx[SHORT], pool[0], avail, positions);
    }
  }

  lemma LastEmpty(b: PartialBlock, m: Message, pool: seq<Entry>, extra: seq<Entry>, avail: seq<Option<Tx>>, positions: map<nat, nat>)
    requires Accepted(m, |m.prefilled|) && |avail| == Count(m) > SHORT && Empties(Filled(m, |m.prefilled|), Count(m)) == |m.shortIds|
    requires b.GatheredBy(m, pool, extra, avail, positions) && forall p <- positions.Values :: p < SHORT
    requires Filled(m, |m.prefilled|)[SHORT].None?
    ensures avail[SHORT].None?
  {
    hide Filled, Empties, Mapped, ShortId;
    var o := b.OffersOf(m.key, positions, pool, extra);
    assert o.SlotIs(|o.to|, Filled(m, |m.prefilled|)[SHORT], avail[SHORT], SHORT);
    assert forall j :: 0 <= j < |o.to| ==> o.to[j] != SHORT;
  }

  // A single offer with the last short id takes slot 0.
  lemma LastTaken(b: PartialBlock, m: Message, tx: Tx, e: Entry, avail: seq<Option<Tx>>, positions: map<nat, nat>)
    requires Accepted(m, |m.prefilled|) && |avail| == Count(m) && Empties(Filled(m, |m.prefilled|), Count(m)) == |m.shortIds| == SHORT
    requires b.GatheredBy(m, [e], [], avail, positions) && EmptySlot(Filled(m, |m.prefilled|), SHORT - 1) == SHORT
    requires m.shortIds[SHORT - 1] == ShortId(b.sip, m.key, e.hash) && e.tx == tx
    ensures avail[0] == Some(tx)
  {
    hide Filled, Empties, EmptySlot, ShortId;
    var o := b.OffersOf(m.key, positions, [e], []);
    assert ([e] + [])[0] == e;
    assert o.to[0] == 0 && o.txs[0] == tx;
    assert o.SlotIs(1, Filled(m, |m.prefilled|)[0], avail[0], 0);
  }

  lemma FirstFilled(m: Message, tx: Tx)
    requires m.prefilled == [Prefilled(0, tx)] && Accepted(m, 1) && |m.shortIds| == SHORT
    ensures Filled(m, 1)[0] == Some(tx) && Filled(m, 1)[SHORT].None?
  {
    assert PosOf(m.prefilled, 0) == 0;
  }

  lemma PositionsShort(positions: map<nat, nat>, ids: seq<nat>, s: seq<Option<Tx>>)
    requires |ids| <= Empties(s, |s|) && Mapped(positions, ids, s, |ids|)
    ensures forall p <- positions.Values :: p < SHORT
  {
    hide EmptySlot, Empties;
    forall id <- positions
      ensures positions[id] < SHORT
    {
      var i :| 0 <= i < |ids| && ids[i] == id;
    }
  }
}
