/**
 * CuckooCache::cache (src/cuckoocache.h): a lossy set with eight possible slots per element,
 * garbage collection flags and two generations.
 */
module CuckooCache {
  import opened ByteBits

  // ---------- bit-packed flags ----------

  // bit_packed_atomic_flags; each call is one atomic access.
  class BitFlags {
    const mem: array<bv8>
    const size: nat
    // what the packed bytes stand for
    ghost var bits: seq<bool>

    ghost predicate Valid()
      reads this, mem
    {
      && mem.Length == (size + 7) / 8 && |bits| == size
      && forall s :: 0 <= s < size ==> bits[s] == Has(mem[s / 8], s % 8)
    }

    constructor (size: nat)
      ensures Valid() && fresh(mem) && this.size == size && bits == seq(size, _ => true)
    {
      this.size := size;
      mem := new bv8[(size + 7) / 8](_ => 0xff);
      bits := seq(size, _ => true);
      new;
      forall s | 0 <= s < size ensures Has(mem[s / 8], s % 8) { FullHas(s % 8); }
    }

    // bit_set
    method Set(s: nat)
      requires Valid() && s < size
      modifies this, mem
      ensures Valid() && bits == old(bits)[s := true]
    {
      hide Has, With;
      forall j | 0 <= j < 8 ensures Has(With(mem[s / 8], s % 8), j) <==> j == s % 8 || Has(mem[s / 8], j) {
        WithHas(mem[s / 8], s % 8, j);
      }
      mem[s / 8] := With(mem[s / 8], s % 8);
      bits := bits[s := true];
    }

    // bit_unset
    method Unset(s: nat)
      requires Valid() && s < size
      modifies this, mem
      ensures Valid() && bits == old(bits)[s := false]
    {
      hide Has, Without;
      forall j | 0 <= j < 8 ensures Has(Without(mem[s / 8], s % 8), j) <==> j != s % 8 && Has(mem[s / 8], j) {
        WithoutHas(mem[s / 8], s % 8, j);
      }
      mem[s / 8] := Without(mem[s / 8], s % 8);
      bits := bits[s := false];
    }

    // bit_is_set
    method IsSet(s: nat) returns (r: bool)
      requires Valid() && s < size
      ensures r == bits[s]
    {
      r := Has(mem[s / 8], s % 8);
    }
  }

  // ---------- tables ----------

  // The eight slots of an element: hash * size >> 32.
  datatype Hashing<!Element(!new)> = Hashing(hash: (nat, Element) -> bv32, size: nat) {
    predicate Valid() { 2 <= size < 0x1_0000_0000 }

    function Slot(i: nat, e: Element): (s: nat)
      requires Valid()
      ensures s < size
    {
      SlotBound(hash(i, e) as nat, size);
      (hash(i, e) as nat * size) / 0x1_0000_0000
    }

    ghost predicate Home(s: nat, e: Element)
      requires Valid()
    {
      exists i :: 0 <= i < 8 && Slot(i, e) == s
    }
  }

  lemma SlotBound(h: nat, size: nat)
    requires h < 0x1_0000_0000 && size > 0
    ensures 0 <= (h * size) / 0x1_0000_0000 < size
  {
    assert h * size <= (0x1_0000_0000 - 1) * size;
  }

  // Each element but the default occurs once, in one of its slots; a kept slot is not empty.
  ghost predicate Ok<Element(!new)>(t: seq<Element>, free: seq<bool>, none: Element, hs: Hashing<Element>) {
    && hs.Valid() && |t| == |free| == hs.size
    && (forall i, j :: 0 <= i < j < |t| && t[i] == t[j] ==> t[i] == none)
    && (forall i :: 0 <= i < |t| && t[i] != none ==> hs.Home(i, t[i]))
    && (forall i :: 0 <= i < |t| && !free[i] ==> t[i] != none)
  }

  // The elements that are not up for collection.
  ghost function Kept<Element(!new)>(t: seq<Element>, free: seq<bool>): set<Element>
    requires |t| == |free|
  {
    set i | 0 <= i < |t| && !free[i] :: t[i]
  }

  lemma KeptIs<Element(!new)>(t: seq<Element>, free: seq<bool>, x: Element)
    requires |t| == |free|
    ensures x in Kept(t, free) <==> exists i :: 0 <= i < |t| && !free[i] && t[i] == x
  {
  }

  // An element that is in no slot goes into a free slot of its own.
  lemma PlaceOk<Element(!new)>(t: seq<Element>, free: seq<bool>, none: Element, hs: Hashing<Element>, s: nat, e: Element)
    requires Ok(t, free, none, hs) && s < |t| && free[s] && e !in t && e != none && hs.Home(s, e)
    ensures Ok(t[s := e], free[s := false], none, hs)
    ensures Kept(t[s := e], free[s := false]) == Kept(t, free) + {e}
  {
    var t', free' := t[s := e], free[s := false];
    forall x
      ensures x in Kept(t', free') <==> x in Kept(t, free) || x == e
    {
      KeptIs(t, free, x);
      KeptIs(t', free', x);
      if x in Kept(t, free) {
        var i :| 0 <= i < |t| && !free[i] && t[i] == x;
        assert !free'[i] && t'[i] == x;
      }
      if x == e { assert !free'[s] && t'[s] == e; }
    }
  }

  // An element that is in no slot takes the place of a kept one, which is then in no slot.
  lemma SwapOk<Element(!new)>(t: seq<Element>, free: seq<bool>, none: Element, hs: Hashing<Element>, s: nat, e: Element)
    requires Ok(t, free, none, hs) && s < |t| && !free[s] && e !in t && e != none && hs.Home(s, e)
    ensures Ok(t[s := e], free, none, hs)
    ensures t[s] != none && t[s] !in t[s := e] && hs.Home(s, t[s])
    ensures Kept(t[s := e], free) + {t[s]} == Kept(t, free) + {e}
  {
    var t', old_ := t[s := e], t[s];
    assert forall i :: 0 <= i < |t| && i != s ==> t'[i] == t[i] && t[i] != old_;
    forall x
      ensures x in Kept(t', free) || x == old_ <==> x in Kept(t, free) || x == e
    {
      KeptIs(t, free, x);
      KeptIs(t', free, x);
      if x in Kept(t, free) && x != old_ {
        var i :| 0 <= i < |t| && !free[i] && t[i] == x;
        assert t'[i] == x;
      }
      if x == e { assert t'[s] == e; }
      if x == old_ { assert t[s] == x; }
    }
  }

  // An element already in the table is kept from now on.
  lemma KeepOk<Element(!new)>(t: seq<Element>, free: seq<bool>, none: Element, hs: Hashing<Element>, s: nat)
    requires Ok(t, free, none, hs) && s < |t| && t[s] != none
    ensures Ok(t, free[s := false], none, hs)
    ensures Kept(t, free[s := false]) == Kept(t, free) + {t[s]}
  {
    var free' := free[s := false];
    forall x
      ensures x in Kept(t, free') <==> x in Kept(t, free) || x == t[s]
    {
      KeptIs(t, free, x);
      KeptIs(t, free', x);
      if x in Kept(t, free) {
        var i :| 0 <= i < |t| && !free[i] && t[i] == x;
        assert !free'[i];
      }
      if x == t[s] { assert !free'[s]; }
    }
  }

  // An element given up stays in its slot but is no longer kept.
  lemma FreeOk<Element(!new)>(t: seq<Element>, free: seq<bool>, none: Element, hs: Hashing<Element>, s: nat)
    requires Ok(t, free, none, hs) && s < |t|
    ensures Ok(t, free[s := true], none, hs)
    ensures Kept(t, free[s := true]) == Kept(t, free) - {t[s]}
  {
    var free' := free[s := true];
    forall x
      ensures x in Kept(t, free') <==> x in Kept(t, free) && x != t[s]
    {
      KeptIs(t, free, x);
      KeptIs(t, free', x);
      if x in Kept(t, free) && x != t[s] {
        var i :| 0 <= i < |t| && !free[i] && t[i] == x;
        assert !free'[i];
      }
    }
  }

  // ---------- displacement ----------

  // x goes to the first slot of the path, what was there to the second, and so on: the sequence
  // that gives, and what is left over.
  ghost function After<T>(t: seq<T>, x: T, path: seq<nat>): (r: (seq<T>, T))
    requires forall i :: 0 <= i < |path| ==> path[i] < |t|
    ensures |r.0| == |t|
  {
    if path == [] then (t, x)
    else
      var (t', e) := After(t, x, path[..|path| - 1]);
      var l := path[|path| - 1];
      (t'[l := e], t'[l])
  }

  lemma AfterStep<T>(t: seq<T>, x: T, path: seq<nat>, l: nat)
    requires l < |t| && forall i :: 0 <= i < |path| ==> path[i] < |t|
    ensures After(t, x, []) == (t, x)
    ensures var (t', e) := After(t, x, path); After(t, x, path + [l]) == (t'[l := e], t'[l])
  {
    assert (path + [l])[..|path|] == path;
  }

  // Slots off the path are as they were.
  lemma {:induction false} AfterElsewhere<T>(t: seq<T>, x: T, path: seq<nat>, l: nat)
    requires (forall i :: 0 <= i < |path| ==> path[i] < |t|) && l < |t| && l !in path
    ensures After(t, x, path).0[l] == t[l]
  {
    if path != [] { AfterElsewhere(t, x, path[..|path| - 1], l); }
  }

  // Nothing appears or disappears.
  lemma {:induction false} AfterConserves<T>(t: seq<T>, x: T, path: seq<nat>)
    requires forall i :: 0 <= i < |path| ==> path[i] < |t|
    ensures multiset(After(t, x, path).0) + multiset{After(t, x, path).1} == multiset(t) + multiset{x}
  {
    if path != [] {
      var n := |path| - 1;
      AfterConserves(t, x, path[..n]);
      var (t', e) := After(t, x, path[..n]);
      Exchange(t', path[n], e);
    }
  }

  lemma AfterMembers<T>(t: seq<T>, x: T, path: seq<nat>)
    requires forall i :: 0 <= i < |path| ==> path[i] < |t|
    ensures forall e :: e in After(t, x, path).0 ==> e in t || e == x
  {
    hide After;
    AfterConserves(t, x, path);
    forall e | e in After(t, x, path).0
      ensures e in t || e == x
    {
      assert e in multiset(After(t, x, path).0) + multiset{After(t, x, path).1};
    }
  }

  lemma Exchange<T>(t: seq<T>, l: nat, e: T)
    requires l < |t|
    ensures multiset(t[l := e]) + multiset{t[l]} == multiset(t) + multiset{e}
  {
    var a, b := t[..l], t[l + 1..];
    assert t == a + [t[l]] + b;
    assert t[l := e] == a + [e] + b;
  }

  // The slot an element is put in: its first free one, or when all eight are taken the one after
  // the slot it was taken from.
  ghost predicate Chosen<Element(!new)>(hs: Hashing<Element>, free: seq<bool>, e: Element, from: int, l: nat)
    requires hs.Valid() && |free| == hs.size
  {
    if exists j :: 0 <= j < 8 && free[hs.Slot(j, e)] then
      exists j :: 0 <= j < 8 && l == hs.Slot(j, e) && free[l] && forall i :: 0 <= i < j ==> !free[hs.Slot(i, e)]
    else
      exists k: nat :: IsFirst(hs, e, from, k) && l == hs.Slot((1 + k) % 8, e)
  }

  ghost predicate IsFirst<Element(!new)>(hs: Hashing<Element>, e: Element, loc: int, k: nat)
    requires hs.Valid()
  {
    k <= 8 && (k < 8 ==> hs.Slot(k, e) == loc) && forall j :: 0 <= j < k ==> hs.Slot(j, e) != loc
  }

  // Every move goes where the rule says, and none but the last finds a free slot.
  ghost predicate Chain<Element(!new)>(hs: Hashing<Element>, t: seq<Element>, free: seq<bool>, x: Element, path: seq<nat>)
    requires hs.Valid() && |free| == |t| == hs.size
  {
    && (forall i :: 0 <= i < |path| ==> path[i] < |t|)
    && forall i :: 0 <= i < |path| ==> Move(hs, t, free, x, path, i)
  }

  ghost predicate Move<Element(!new)>(hs: Hashing<Element>, t: seq<Element>, free: seq<bool>, x: Element, path: seq<nat>, i: nat)
    requires hs.Valid() && |free| == |t| == hs.size && i < |path| && forall i :: 0 <= i < |path| ==> path[i] < |t|
  {
    && Chosen(hs, free, After(t, x, path[..i]).1, if i == 0 then -1 else path[i - 1], path[i])
    && (i + 1 < |path| ==> !free[path[i]])
  }

  lemma ChainStep<Element(!new)>(hs: Hashing<Element>, t: seq<Element>, free: seq<bool>, x: Element, path: seq<nat>, l: nat)
    requires hs.Valid() && |free| == |t| == hs.size && Chain(hs, t, free, x, path) && l < |t|
    requires Chosen(hs, free, After(t, x, path).1, if path == [] then -1 else path[|path| - 1], l)
    requires path != [] ==> !free[path[|path| - 1]]
    ensures Chain(hs, t, free, x, path + [l])
  {
    hide Chosen, After;
    var path' := path + [l];
    forall i | 0 <= i < |path'|
      ensures Move(hs, t, free, x, path', i)
    {
      if i < |path| {
        assert Move(hs, t, free, x, path, i);
        assert path'[..i] == path[..i];
      } else {
        assert path'[..i] == path;
      }
    }
  }

  lemma FirstHome<Element(!new)>(hs: Hashing<Element>, t: seq<Element>, path: seq<nat>, x: Element, free: seq<bool>)
    requires hs.Valid() && |free| == |t| == hs.size && Chain(hs, t, free, x, path) && path != []
    ensures hs.Home(path[0], x)
  {
    assert Move(hs, t, free, x, path, 0);
    assert path[..0] == [];
  }

  // The slot that was free before is where the path ends.
  ghost predicate Placed(free: seq<bool>, path: seq<nat>)
    requires forall i :: 0 <= i < |path| ==> path[i] < |free|
  {
    path != [] && free[path[|path| - 1]]
  }

  // ---------- the cache ----------

  // Entries of the current epoch that are not up for collection, among the first n.
  ghost function Current(epoch: seq<bool>, free: seq<bool>, n: nat): nat
    requires n <= |epoch| == |free|
  {
    if n == 0 then 0 else Current(epoch, free, n - 1) + if epoch[n - 1] && !free[n - 1] then 1 else 0
  }

  function Max(a: int, b: int): int { if a > b then a else b }

  class Cache<Element(==, !new)> {
    const none: Element
    const hashing: Hashing<Element>
    const epochSize: nat
    const depthLimit: nat
    const flags: BitFlags
    var table: seq<Element>
    var epochFlags: seq<bool>
    var epochHeuristicCounter: nat

    ghost predicate Valid()
      reads this, flags, flags.mem
    {
      && hashing.Valid() && flags.Valid() && flags.size == hashing.size
      && |epochFlags| == |table| == hashing.size && Ok(table, flags.bits, none, hashing)
    }

    ghost function KeptSet(): set<Element>
      reads this, flags
      requires |table| == |flags.bits|
    {
      Kept(table, flags.bits)
    }

    // The kept elements of the current epoch.
    ghost function CurrentSet(): set<Element>
      reads this, flags
      requires |table| == |flags.bits| == |epochFlags|
    {
      set i | 0 <= i < |table| && !flags.bits[i] && epochFlags[i] :: table[i]
    }

    // What epoch_check is to keep: everything, or the current epoch when that has grown large
    // enough and it is time to look.
    ghost function Checked(): set<Element>
      reads this, flags
      requires |table| == |flags.bits| == |epochFlags|
    {
      if epochHeuristicCounter == 0 && Current(epochFlags, flags.bits, |epochFlags|) >= epochSize then CurrentSet() else KeptSet()
    }

    // setup: everything empty and collectable.
    constructor (none: Element, hash: (nat, Element) -> bv32, newSize: nat, depthLimit: nat)
      requires newSize < 0x1_0000_0000
      ensures Valid() && fresh(flags) && fresh(flags.mem) && KeptSet() == {}
      ensures this.none == none && this.hashing.hash == hash && this.hashing.size == Max(2, newSize)
      ensures (forall e :: e in table ==> e == none) && forall i :: 0 <= i < |epochFlags| ==> !epochFlags[i]
      ensures this.depthLimit == depthLimit && epochSize == epochHeuristicCounter == Max(1, 45 * Max(2, newSize) / 100)
    {
      var size := Max(2, newSize);
      this.none := none;
      this.depthLimit := depthLimit;
      hashing := Hashing(hash, size);
      epochSize := Max(1, 45 * size / 100);
      epochHeuristicCounter := Max(1, 45 * size / 100);
      table := seq(size, _ => none);
      epochFlags := seq(size, _ => false);
      flags := new BitFlags(size);
    }

    // compute_hashes
    function Locs(e: Element): (locs: seq<nat>)
      requires hashing.Valid()
      ensures |locs| == 8 && forall i :: 0 <= i < 8 ==> locs[i] < hashing.size && locs[i] == hashing.Slot(i, e)
    {
      seq(8, i requires 0 <= i < 8 => hashing.Slot(i, e))
    }

    // epoch_check
    method EpochCheck()
      requires Valid()
      modifies this, flags, flags.mem
      ensures Valid() && table == old(table) && KeptSet() == old(Checked()) <= old(KeptSet())
      ensures old(epochHeuristicCounter) != 0 ==>
                flags.bits == old(flags.bits) && epochFlags == old(epochFlags) && epochHeuristicCounter == old(epochHeuristicCounter) - 1
      ensures old(epochHeuristicCounter) == 0 ==>
                var n := old(Current(epochFlags, flags.bits, |epochFlags|));
                if n >= epochSize then Aged(old(epochFlags), old(flags.bits), epochFlags, flags.bits) && epochHeuristicCounter == epochSize
                else flags.bits == old(flags.bits) && epochFlags == old(epochFlags) &&
                     epochHeuristicCounter == Max(1, Max(epochSize / 16, epochSize - n))
    {
      hide Ok, Kept;
      if epochHeuristicCounter != 0 {
        epochHeuristicCounter := epochHeuristicCounter - 1;
        return;
      }
      var count := 0;
      for i := 0 to hashing.size
        invariant Valid() && unchanged(this) && unchanged(flags) && unchanged(flags.mem)
        invariant count == Current(epochFlags, flags.bits, i)
      {
        var free := flags.IsSet(i);
        count := count + if epochFlags[i] && !free then 1 else 0;
      }
      if count >= epochSize {
        AgeAll();
        epochHeuristicCounter := epochSize;
      } else {
        epochHeuristicCounter := Max(1, Max(epochSize / 16, epochSize - count));
      }
    }

    // The old epoch is given up and the current one becomes old.
    static ghost predicate Aged(epoch: seq<bool>, free: seq<bool>, epoch': seq<bool>, free': seq<bool>) {
      && |epoch| == |epoch'| == |free| == |free'|
      && forall i :: 0 <= i < |epoch| ==> !epoch'[i] && free'[i] == (free[i] || !epoch[i])
    }

    method AgeAll()
      requires Valid()
      modifies this, flags, flags.mem
      ensures Valid() && table == old(table) && KeptSet() == old(CurrentSet()) <= old(KeptSet())
      ensures Aged(old(epochFlags), old(flags.bits), epochFlags, flags.bits)
    {
      ghost var epoch0, free0 := epochFlags, flags.bits;
      for i := 0 to hashing.size
        invariant flags.Valid() && table == old(table) && |epochFlags| == hashing.size
        invariant forall j :: 0 <= j < i ==> !epochFlags[j] && flags.bits[j] == (free0[j] || !epoch0[j])
        invariant forall j :: i <= j < hashing.size ==> epochFlags[j] == epoch0[j] && flags.bits[j] == free0[j]
      {
        if epochFlags[i] {
          epochFlags := epochFlags[i := false];
        } else {
          flags.Set(i);
        }
      }
      FewerKept(table, free0, flags.bits, none, hashing);
      CurrentKept(table, epoch0, free0, epochFlags, flags.bits);
    }

    static lemma FewerKept(t: seq<Element>, free: seq<bool>, free': seq<bool>, none: Element, hs: Hashing<Element>)
      requires Ok(t, free, none, hs) && |free'| == |free| && forall i :: 0 <= i < |free| && free[i] ==> free'[i]
      ensures Ok(t, free', none, hs) && Kept(t, free') <= Kept(t, free)
    {
    }

    static lemma CurrentKept(t: seq<Element>, epoch: seq<bool>, free: seq<bool>, epoch': seq<bool>, free': seq<bool>)
      requires Aged(epoch, free, epoch', free') && |t| == |free|
      ensures Kept(t, free') == set i | 0 <= i < |t| && !free[i] && epoch[i] :: t[i]
    {
    }

    // insert.  What epoch_check keeps stays, with the element added; lost is the element that
    // ran out of places, if any, and path the slots that were written.
    method Insert(x: Element) returns (ghost lost: set<Element>, ghost path: seq<nat>)
      requires Valid() && x != none
      modifies this, flags, flags.mem
      ensures Valid() && KeptSet() == old(Checked()) + {x} - lost
      ensures lost <= old(Checked()) + {x} && |lost| <= 1 && (x in old(table) ==> lost == {})
      ensures depthLimit > 0 && (exists j :: 0 <= j < 8 && old(flags.bits)[Locs(x)[j]]) ==> lost == {}
      ensures (forall i :: 0 <= i < |path| ==> path[i] < hashing.size) && |path| <= depthLimit
      ensures table == After(old(table), x, path).0 && (path == [] <==> x in old(table) || depthLimit == 0)
      ensures path != [] ==> hashing.Home(path[0], x)
      ensures forall e :: e in table ==> e in old(table) || e == x
    {
      hide Ok, Kept, Max, After, Chain;
      EpochCheck();
      lost, path := {}, [];
      var found := Refresh(x);
      AfterStep(old(table), x, [], 0);
      ghost var was := flags.bits;
      if !found {
        lost, path := Displace(x);
        AfterMembers(old(table), x, path);
        if path != [] { FirstHome(hashing, old(table), path, x, was); }
      }
    }

    // Moves elements along their slots until one finds a free slot, at most depthLimit times.
    method Displace(x: Element) returns (ghost lost: set<Element>, ghost path: seq<nat>)
      requires Valid() && x != none && x !in table
      modifies this, flags, flags.mem
      ensures Valid() && KeptSet() == old(KeptSet()) + {x} - lost && lost <= old(KeptSet()) + {x} && |lost| <= 1
      ensures depthLimit > 0 && (exists j :: 0 <= j < 8 && old(flags.bits)[Locs(x)[j]]) ==> lost == {}
      ensures forall i :: 0 <= i < |path| ==> path[i] < hashing.size
      ensures Chain(hashing, old(table), old(flags.bits), x, path) && |path| <= depthLimit && (path == [] <==> depthLimit == 0)
      ensures table == After(old(table), x, path).0 && epochFlags == After(old(epochFlags), true, path).0
      ensures if Placed(old(flags.bits), path) then lost == {} && flags.bits == old(flags.bits)[path[|path| - 1] := false]
              else lost == {After(old(table), x, path).1} && flags.bits == old(flags.bits) && |path| == depthLimit
    {
      hide Ok, Kept, After, Chain, Chosen, IsFirst, Reached;
      ghost var kept, t0, epoch0 := KeptSet(), table, epochFlags;
      var e, lastEpoch := x, true;
      var lastLoc: int := -1;
      var locs := Locs(e);
      lost, path := {}, [];
      Started(x);
      for depth := 0 to depthLimit
        invariant Valid() && e != none && e !in table && locs == Locs(e) && flags.bits == old(flags.bits)
        invariant KeptSet() + {e} == kept + {x} && |path| == depth
        invariant if depth == 0 then e == x else AllTaken(hashing, flags.bits, x)
        invariant Reached(t0, epoch0, x, path, e, lastEpoch, lastLoc)
      {
        ReachedIs(t0, epoch0, x, path, e, lastEpoch, lastLoc);
        var done, l := TryPlace(e, locs, lastEpoch);
        if done {
          AfterStep(t0, x, path, l);
          AfterStep(epoch0, true, path, l);
          ChainStep(hashing, t0, old(flags.bits), x, path, l);
          path := path + [l];
          return;
        }
        e, lastEpoch, lastLoc := Advance(e, locs, lastEpoch, lastLoc, t0, epoch0, x, path);
        path := path + [lastLoc];
        locs := Locs(e);
      }
      ReachedIs(t0, epoch0, x, path, e, lastEpoch, lastLoc);
      lost := {e};
      NotKept(table, flags.bits, e);
    }

    // Where the displacement of x has got to: what is in the table, and what is in hand.
    ghost predicate Reached(t0: seq<Element>, epoch0: seq<bool>, x: Element, path: seq<nat>, e: Element, epoch: bool, loc: int)
      reads this, flags
    {
      && hashing.Valid() && |flags.bits| == |t0| == |epoch0| == hashing.size
      && Chain(hashing, t0, flags.bits, x, path)
      && (table, e) == After(t0, x, path) && (epochFlags, epoch) == After(epoch0, true, path)
      && loc == (if path == [] then -1 else path[|path| - 1]) && (path != [] ==> !flags.bits[path[|path| - 1]])
    }

    lemma ReachedIs(t0: seq<Element>, epoch0: seq<bool>, x: Element, path: seq<nat>, e: Element, epoch: bool, loc: int)
      requires Reached(t0, epoch0, x, path, e, epoch, loc)
      ensures hashing.Valid() && |flags.bits| == |t0| == |epoch0| == hashing.size && forall i :: 0 <= i < |path| ==> path[i] < |t0|
      ensures Chain(hashing, t0, flags.bits, x, path) && (path != [] ==> !flags.bits[path[|path| - 1]])
      ensures (table, e) == After(t0, x, path) && (epochFlags, epoch) == After(epoch0, true, path)
      ensures loc == if path == [] then -1 else path[|path| - 1]
    {
      hide After, Chosen;
    }

    // One swap, when all slots of the element in hand are taken.
    method Advance(e: Element, locs: seq<nat>, epoch: bool, lastLoc: int,
                   ghost t0: seq<Element>, ghost epoch0: seq<bool>, ghost x: Element, ghost path: seq<nat>)
      returns (evicted: Element, evictedEpoch: bool, loc: nat)
      requires Valid() && e != none && e !in table && locs == Locs(e) && AllTaken(hashing, flags.bits, e)
      requires Reached(t0, epoch0, x, path, e, epoch, lastLoc)
      modifies `table, `epochFlags
      ensures Valid() && evicted != none && evicted !in table && KeptSet() + {evicted} == old(KeptSet()) + {e}
      ensures Reached(t0, epoch0, x, path + [loc], evicted, evictedEpoch, loc)
    {
      hide Ok, Kept, After, Chain, Chosen, IsFirst;
      ReachedIs(t0, epoch0, x, path, e, epoch, lastLoc);
      var k := Position(locs, lastLoc);
      loc := locs[(1 + k) % 8];
      TurnIs(e, lastLoc, k);
      AfterStep(t0, x, path, loc);
      AfterStep(epoch0, true, path, loc);
      ChainStep(hashing, t0, flags.bits, x, path, loc);
      HomeIs(e, (1 + k) % 8);
      evicted, evictedEpoch := SwapOut(e, loc, epoch);
    }

    lemma Started(x: Element)
      requires Valid()
      ensures Reached(table, epochFlags, x, [], x, true, -1)
    {
    }

    lemma TurnIs(e: Element, loc: int, k: nat)
      requires Valid() && AllTaken(hashing, flags.bits, e)
      requires k <= 8 && (k < 8 ==> Locs(e)[k] == loc) && forall j :: 0 <= j < k ==> Locs(e)[j] != loc
      ensures Chosen(hashing, flags.bits, e, loc, Locs(e)[(1 + k) % 8])
    {
      forall j | 0 <= j < k
        ensures hashing.Slot(j, e) != loc
      {
        assert Locs(e)[j] == hashing.Slot(j, e);
      }
      assert IsFirst(hashing, e, loc, k);
    }

    static ghost predicate AllTaken(hs: Hashing<Element>, free: seq<bool>, e: Element)
      requires hs.Valid() && |free| == hs.size
    {
      forall j :: 0 <= j < 8 ==> !free[hs.Slot(j, e)]
    }

    // Puts an element where another is kept, and takes that one out.
    method SwapOut(e: Element, loc: nat, epoch: bool) returns (evicted: Element, evictedEpoch: bool)
      requires Valid() && loc < hashing.size && !flags.bits[loc] && e !in table && e != none && hashing.Home(loc, e)
      modifies `table, `epochFlags
      ensures Valid() && evicted != none && evicted !in table
      ensures KeptSet() + {evicted} == old(KeptSet()) + {e}
      ensures table == old(table)[loc := e] && evicted == old(table)[loc]
      ensures epochFlags == old(epochFlags)[loc := epoch] && evictedEpoch == old(epochFlags)[loc]
    {
      hide Ok, Kept;
      SwapOk(table, flags.bits, none, hashing, loc, e);
      evicted := table[loc];
      table := table[loc := e];
      evictedEpoch := epochFlags[loc];
      epochFlags := epochFlags[loc := epoch];
    }

    static lemma NotKept(t: seq<Element>, free: seq<bool>, e: Element)
      requires |t| == |free| && e !in t
      ensures e !in Kept(t, free)
    {
    }

    lemma HomeIs(e: Element, i: nat)
      requires hashing.Valid() && i < 8
      ensures hashing.Home(Locs(e)[i], e)
    {
    }

    // std::find over the eight slots; 8 when absent.
    static method Position(locs: seq<nat>, loc: int) returns (k: nat)
      requires |locs| == 8
      ensures k <= 8 && (k < 8 ==> locs[k] == loc) && forall j :: 0 <= j < k ==> locs[j] != loc
    {
      k := 0;
      while k < 8 && locs[k] != loc
        invariant k <= 8 && forall j :: 0 <= j < k ==> locs[j] != loc
      {
        k := k + 1;
      }
    }

    // Keeps an element that is already in the table.
    method Refresh(x: Element) returns (found: bool)
      requires Valid() && x != none
      modifies this, flags, flags.mem
      ensures Valid() && table == old(table) && found == (x in table)
      ensures KeptSet() == old(KeptSet()) + if found then {x} else {}
      ensures !found ==> flags.bits == old(flags.bits)
    {
      hide Ok, Kept;
      var locs := Locs(x);
      for i := 0 to 8
        invariant Valid() && unchanged(this) && unchanged(flags) && unchanged(flags.mem)
        invariant forall j :: 0 <= j < i ==> table[locs[j]] != x
      {
        if table[locs[i]] == x {
          KeepOk(table, flags.bits, none, hashing, locs[i]);
          flags.Unset(locs[i]);
          epochFlags := epochFlags[locs[i] := true];
          return true;
        }
      }
      Absent(x, locs);
      return false;
    }

    // Not in any of its own slots means not in the table.
    lemma Absent(x: Element, locs: seq<nat>)
      requires Valid() && x != none && locs == Locs(x) && forall j :: 0 <= j < 8 ==> table[locs[j]] != x
      ensures x !in table
    {
    }

    // Stores an element in the first free slot of its own, if there is one.
    method TryPlace(e: Element, locs: seq<nat>, epoch: bool) returns (done: bool, l: nat)
      requires Valid() && e != none && e !in table && locs == Locs(e)
      modifies this, flags, flags.mem
      ensures Valid() && KeptSet() == old(KeptSet()) + if done then {e} else {}
      ensures !done ==> unchanged(this) && unchanged(flags) && unchanged(flags.mem) && AllTaken(hashing, flags.bits, e)
      ensures done ==> l < hashing.size && old(flags.bits)[l] && flags.bits == old(flags.bits)[l := false]
      ensures done ==> table == old(table)[l := e] && epochFlags == old(epochFlags)[l := epoch]
      ensures done ==> !AllTaken(hashing, old(flags.bits), e) && forall from :: Chosen(hashing, old(flags.bits), e, from, l)
    {
      hide Ok, Kept;
      for i := 0 to 8
        invariant Valid() && unchanged(this) && unchanged(flags) && unchanged(flags.mem)
        invariant forall j :: 0 <= j < i ==> !flags.bits[locs[j]]
      {
        var free := flags.IsSet(locs[i]);
        if free {
          l := locs[i];
          HomeIs(e, i);
          FirstFree(e, i);
          PlaceOk(table, flags.bits, none, hashing, l, e);
          table := table[l := e];
          flags.Unset(l);
          epochFlags := epochFlags[l := epoch];
          return true, l;
        }
      }
      return false, 0;
    }

    lemma FirstFree(e: Element, i: nat)
      requires Valid() && i < 8 && flags.bits[Locs(e)[i]] && forall j :: 0 <= j < i ==> !flags.bits[Locs(e)[j]]
      ensures !AllTaken(hashing, flags.bits, e) && forall from :: Chosen(hashing, flags.bits, e, from, Locs(e)[i])
    {
      assert flags.bits[hashing.Slot(i, e)] && Locs(e)[i] == hashing.Slot(i, e);
    }

    // contains; the default element is found in any of its slots that is empty.
    method Contains(e: Element, erase: bool) returns (r: bool)
      requires Valid()
      modifies flags, flags.mem
      ensures Valid() && (r <==> exists i :: 0 <= i < 8 && table[hashing.Slot(i, e)] == e)
      ensures e != none ==> r == (e in table)
      ensures KeptSet() == if erase then old(KeptSet()) - {e} else old(KeptSet())
    {
      hide Ok, Kept;
      var locs := Locs(e);
      for i := 0 to 8
        invariant Valid() && unchanged(flags) && unchanged(flags.mem)
        invariant forall j :: 0 <= j < i ==> table[locs[j]] != e
      {
        if table[locs[i]] == e {
          if erase {
            FreeOk(table, flags.bits, none, hashing, locs[i]);
            flags.Set(locs[i]);
          }
          return true;
        }
      }
      if e == none {
        NoneNotKept(table, flags.bits, none, hashing);
      } else {
        Absent(e, locs);
        NotKept(table, flags.bits, e);
      }
      return false;
    }

    static lemma NoneNotKept(t: seq<Element>, free: seq<bool>, none: Element, hs: Hashing<Element>)
      requires Ok(t, free, none, hs)
      ensures none !in Kept(t, free)
    {
    }
  }
}
