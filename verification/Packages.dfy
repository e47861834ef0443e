/**
 * The memory pool seen by the block assembler (src/miner.cpp, src/miner.h): a finite DAG
 * with cached ancestor sums, and what package selection keeps true about it.
 */
module Packages {
  import opened AncestorScore

  type Tx = nat

  datatype Entry = Entry(
    size: nat, weight: nat, sigOps: nat, fee: nat, modifiedFee: int,
    countWithAncestors: nat, sizeWithAncestors: nat, sigOpsWithAncestors: nat, modFeesWithAncestors: int,
    hash: nat, isDeposit: bool, sidechain: nat, hasCriticalData: bool)

  // ancestors excludes the transaction itself; order is the ancestor-score index.
  datatype Mempool = Mempool(entries: map<Tx, Entry>, ancestors: map<Tx, set<Tx>>, order: seq<Tx>)

  const WITNESS_SCALE_FACTOR := 4

  // What resetBlock sets aside for the coinbase.
  const COINBASE_WEIGHT := 4000
  const COINBASE_SIGOPS := 400

  // ---------- sums over sets ----------

  type Weights = map<Tx, nat>

  ghost function SumOf(s: set<Tx>, w: Weights): nat
    requires s <= w.Keys
  {
    if s == {} then 0 else var x :| x in s; w[x] + SumOf(s - {x}, w)
  }

  lemma {:induction false} SumRemove(s: set<Tx>, w: Weights, x: Tx)
    requires s <= w.Keys && x in s
    ensures SumOf(s, w) == w[x] + SumOf(s - {x}, w)
  {
    var y :| y in s && SumOf(s, w) == w[y] + SumOf(s - {y}, w);
    if y != x {
      SumRemove(s - {y}, w, x);
      SumRemove(s - {x}, w, y);
      assert s - {x} - {y} == s - {y} - {x};
    }
  }

  lemma {:induction false} SumUnion(a: set<Tx>, b: set<Tx>, w: Weights)
    requires a + b <= w.Keys && a !! b
    ensures SumOf(a + b, w) == SumOf(a, w) + SumOf(b, w)
  {
    if a == {} {
      assert a + b == b;
    } else {
      var x :| x in a;
      SumUnion(a - {x}, b, w);
      SumRemove(a, w, x);
      SumRemove(a + b, w, x);
      assert a + b - {x} == (a - {x}) + b;
    }
  }

  lemma SumSubset(a: set<Tx>, b: set<Tx>, w: Weights)
    requires a <= b <= w.Keys
    ensures SumOf(a, w) <= SumOf(b, w)
  {
    SumUnion(a, b - a, w);
    assert a + (b - a) == b;
  }

  lemma {:induction false} SumScale(s: set<Tx>, v: Weights, w: Weights, k: nat)
    requires s <= v.Keys && s <= w.Keys && forall x :: x in s ==> v[x] <= k * w[x]
    ensures SumOf(s, v) <= k * SumOf(s, w)
  {
    if s != {} {
      var x :| x in s;
      SumRemove(s, v, x);
      SumRemove(s, w, x);
      SumScale(s - {x}, v, w, k);
      assert k * (w[x] + SumOf(s - {x}, w)) == k * w[x] + k * SumOf(s - {x}, w);
    }
  }

  // ---------- the pool ----------

  function Sizes(p: Mempool): (w: Weights)
    ensures w.Keys == p.entries.Keys
  {
    map t | t in p.entries :: p.entries[t].size
  }

  function TxWeights(p: Mempool): (w: Weights)
    ensures w.Keys == p.entries.Keys
  {
    map t | t in p.entries :: p.entries[t].weight
  }

  function SigOps(p: Mempool): (w: Weights)
    ensures w.Keys == p.entries.Keys
  {
    map t | t in p.entries :: p.entries[t].sigOps
  }

  function Fees(p: Mempool): (w: Weights)
    ensures w.Keys == p.entries.Keys
  {
    map t | t in p.entries :: p.entries[t].fee
  }

  // Ancestor queries are transitive and acyclic.
  ghost predicate IsDag(p: Mempool) {
    && p.ancestors.Keys == p.entries.Keys
    && (forall t :: t in p.entries ==> t !in p.ancestors[t] && p.ancestors[t] <= p.entries.Keys)
    && (forall t, a :: t in p.entries && a in p.ancestors[t] ==> p.ancestors[a] <= p.ancestors[t])
  }

  // The cached ancestor sums are exact, and weight is at most four times the virtual size.
  ghost predicate CachesExact(p: Mempool)
    requires IsDag(p)
  {
    forall t :: t in p.entries ==>
      && p.entries[t].countWithAncestors == |p.ancestors[t]| + 1
      && p.entries[t].sizeWithAncestors == SumOf(p.ancestors[t] + {t}, Sizes(p))
      && p.entries[t].sigOpsWithAncestors == SumOf(p.ancestors[t] + {t}, SigOps(p))
      && (Unprioritised(p) ==> p.entries[t].modFeesWithAncestors == SumOf(p.ancestors[t] + {t}, Fees(p)))
      && p.entries[t].size > 0
      && p.entries[t].weight <= WITNESS_SCALE_FACTOR * p.entries[t].size
  }

  // No fee has been modified.
  predicate Unprioritised(p: Mempool) {
    forall t :: t in p.entries ==> p.entries[t].modifiedFee == p.entries[t].fee
  }

  ghost predicate ValidPool(p: Mempool) {
    && IsDag(p)
    && CachesExact(p)
    && (forall i :: 0 <= i < |p.order| ==> p.order[i] in p.entries)
    && (forall t :: t in p.entries ==> t in p.order)
    && SortedByScore(p)
  }

  // The ancestor-score index: best first.
  ghost predicate SortedByScore(p: Mempool)
    requires forall i :: 0 <= i < |p.order| ==> p.order[i] in p.entries
  {
    forall i, j :: 0 <= i < j < |p.order| ==>
      !Higher(CandidateScore(p, p.order[j], FullEntry(p.entries[p.order[j]])), CandidateScore(p, p.order[i], FullEntry(p.entries[p.order[i]])))
  }

  // How a candidate with these package totals ranks.
  function CandidateScore(p: Mempool, t: Tx, m: ModEntry): Score
    requires t in p.entries
  {
    ScoreOf(p.entries[t].modifiedFee, p.entries[t].size, m.modFees, m.size, p.entries[t].hash)
  }

  lemma EntryExact(p: Mempool, t: Tx)
    requires ValidPool(p) && t in p.entries
    ensures p.entries[t].countWithAncestors == |p.ancestors[t]| + 1
    ensures p.entries[t].sizeWithAncestors == SumOf(p.ancestors[t] + {t}, Sizes(p))
    ensures p.entries[t].sigOpsWithAncestors == SumOf(p.ancestors[t] + {t}, SigOps(p))
    ensures Unprioritised(p) ==> p.entries[t].modFeesWithAncestors == SumOf(p.ancestors[t] + {t}, Fees(p))
    ensures p.entries[t].size > 0
    ensures p.entries[t].weight <= WITNESS_SCALE_FACTOR * p.entries[t].size
  {
  }

  lemma WeightsBounded(p: Mempool, s: set<Tx>)
    requires ValidPool(p) && s <= p.entries.Keys
    ensures SumOf(s, TxWeights(p)) <= WITNESS_SCALE_FACTOR * SumOf(s, Sizes(p))
  {
    hide SumOf;
    SumScale(s, TxWeights(p), Sizes(p), WITNESS_SCALE_FACTOR);
  }

  // CalculateDescendants, without the transaction itself.
  function Descendants(p: Mempool, t: Tx): set<Tx>
    requires p.ancestors.Keys == p.entries.Keys
  {
    set d | d in p.entries && t in p.ancestors[d]
  }

  // The package of a transaction: itself and its ancestors outside the block.
  function Package(p: Mempool, inBlock: set<Tx>, t: Tx): set<Tx>
    requires t in p.ancestors
  {
    (p.ancestors[t] - inBlock) + {t}
  }

  // ---------- modified entries ----------

  datatype ModEntry = ModEntry(size: int, modFees: int, sigOps: int)

  type Modified = map<Tx, ModEntry>

  // CTxMemPoolModifiedEntry(entry)
  function FullEntry(e: Entry): ModEntry {
    ModEntry(e.sizeWithAncestors, e.modFeesWithAncestors, e.sigOpsWithAncestors)
  }

  // A new modified entry has the parent's modified fee taken off ...
  function FirstSubtract(e: Entry, parent: Entry): ModEntry {
    ModEntry(e.sizeWithAncestors - parent.size, e.modFeesWithAncestors - parent.modifiedFee,
             e.sigOpsWithAncestors - parent.sigOps)
  }

  // ... but update_for_parent_inclusion takes off its base fee.
  function NextSubtract(m: ModEntry, parent: Entry): ModEntry {
    ModEntry(m.size - parent.size, m.modFees - parent.fee, m.sigOps - parent.sigOps)
  }

  // ---------- what selection keeps ----------

  // The block holds the ancestors of what it holds.
  ghost predicate Closed(p: Mempool, inBlock: set<Tx>)
    requires IsDag(p)
  {
    inBlock <= p.entries.Keys && forall t :: t in inBlock ==> p.ancestors[t] <= inBlock
  }

  // A modified entry never claims less than its unselected package really takes.
  ghost predicate Covers(p: Mempool, inBlock: set<Tx>, t: Tx, m: ModEntry)
    requires IsDag(p) && t in p.entries
  {
    && m.size >= SumOf(Package(p, inBlock, t), Sizes(p))
    && m.sigOps >= SumOf(Package(p, inBlock, t), SigOps(p))
  }

  ghost predicate ModOk(p: Mempool, inBlock: set<Tx>, mod: Modified)
    requires IsDag(p)
  {
    forall t :: t in mod ==> t in p.entries && t !in inBlock && Covers(p, inBlock, t, mod[t])
  }

  // Totals that are exactly those of the unselected package; the fee too, if no fee has been
  // modified.
  ghost predicate Exact(p: Mempool, inBlock: set<Tx>, t: Tx, m: ModEntry)
    requires IsDag(p) && t in p.entries
  {
    && m.size == SumOf(Package(p, inBlock, t), Sizes(p))
    && m.sigOps == SumOf(Package(p, inBlock, t), SigOps(p))
    && (Unprioritised(p) ==> m.modFees == SumOf(Package(p, inBlock, t), Fees(p)))
  }

  // A modified entry is exact unless the transaction has failed before.
  ghost predicate ModExact(p: Mempool, inBlock: set<Tx>, mod: Modified, failed: set<Tx>)
    requires IsDag(p)
  {
    forall t :: t in mod && t in p.entries && t !in failed ==> Exact(p, inBlock, t, mod[t])
  }

  // Outside mapModifiedTx and failedTx the cached state of mapTx is still exact.
  ghost predicate StaleListed(p: Mempool, inBlock: set<Tx>, mod: Modified, failed: set<Tx>)
    requires IsDag(p)
  {
    forall t :: t in p.entries && t !in inBlock && !(p.ancestors[t] !! inBlock) ==> t in mod || t in failed
  }

  // ---------- ancestor counts order packages ----------

  lemma AncestorCountsLess(p: Mempool, a: Tx, t: Tx)
    requires ValidPool(p) && t in p.entries && a in p.ancestors[t]
    ensures p.entries[a].countWithAncestors < p.entries[t].countWithAncestors
  {
    assert p.ancestors[a] < p.ancestors[t];
    SubsetSize(p.ancestors[a], p.ancestors[t]);
  }

  lemma SubsetSize(a: set<Tx>, b: set<Tx>)
    requires a < b
    ensures |a| < |b|
  {
    assert b == a + (b - a);
    assert b - a != {};
  }

  // A package makes the block closed again.
  lemma PackageCloses(p: Mempool, inBlock: set<Tx>, t: Tx)
    requires IsDag(p) && Closed(p, inBlock) && t in p.entries
    ensures Closed(p, inBlock + Package(p, inBlock, t))
  {
  }

  // ---------- UpdatePackagesForAdded ----------

  // The effect of one added transaction on the modified entries of the given descendants.
  function UpdateSome(p: Mempool, mod: Modified, ds: set<Tx>, it: Tx): Modified
    requires ds <= p.entries.Keys && it in p.entries
  {
    map d | d in mod.Keys + ds
      :: if d !in ds then mod[d]
         else if d in mod then NextSubtract(mod[d], p.entries[it])
         else FirstSubtract(p.entries[d], p.entries[it])
  }

  // All of them but those that were added along with it.
  function UpdateFor(p: Mempool, mod: Modified, added: set<Tx>, it: Tx): Modified
    requires IsDag(p) && it in p.entries
  {
    UpdateSome(p, mod, Descendants(p, it) - added, it)
  }

  lemma UpdateNone(p: Mempool, mod: Modified, it: Tx)
    requires it in p.entries
    ensures UpdateSome(p, mod, {}, it) == mod
  {
  }

  lemma UpdateOne(p: Mempool, mod: Modified, ds: set<Tx>, it: Tx, d: Tx)
    requires ds + {d} <= p.entries.Keys && it in p.entries && d !in ds
    ensures d in UpdateSome(p, mod, ds, it) <==> d in mod
    ensures d in mod ==> UpdateSome(p, mod, ds, it)[d] == mod[d]
    ensures UpdateSome(p, mod, ds + {d}, it) ==
              UpdateSome(p, mod, ds, it)[d := if d in mod then NextSubtract(mod[d], p.entries[it])
                                              else FirstSubtract(p.entries[d], p.entries[it])]
  {
  }

  // Taking a selected ancestor off an entry leaves it covering what is unselected.
  lemma SubtractCovers(p: Mempool, inBlock: set<Tx>, it: Tx, d: Tx, m: ModEntry)
    requires ValidPool(p) && d in p.entries && it in p.ancestors[d] && it !in inBlock
    requires Covers(p, inBlock, d, m) && d !in inBlock
    ensures Covers(p, inBlock + {it}, d, NextSubtract(m, p.entries[it]))
  {
    hide SumOf, CachesExact, SortedByScore;
    var before, after := Package(p, inBlock, d), Package(p, inBlock + {it}, d);
    assert after == before - {it};
    SumRemove(before, Sizes(p), it);
    SumRemove(before, SigOps(p), it);
  }

  lemma FirstCovers(p: Mempool, inBlock: set<Tx>, it: Tx, d: Tx)
    requires ValidPool(p) && d in p.entries && it in p.ancestors[d] && it !in inBlock && d !in inBlock
    ensures Covers(p, inBlock + {it}, d, FirstSubtract(p.entries[d], p.entries[it]))
  {
    hide SumOf, CachesExact, SortedByScore;
    EntryExact(p, d);
    var full := p.ancestors[d] + {d};
    SumSubset(Package(p, inBlock, d), full, Sizes(p));
    SumSubset(Package(p, inBlock, d), full, SigOps(p));
    SubtractCovers(p, inBlock, it, d, FullEntry(p.entries[d]));
  }

  lemma SubtractExact(p: Mempool, inBlock: set<Tx>, it: Tx, d: Tx, m: ModEntry)
    requires ValidPool(p) && d in p.entries && it in p.ancestors[d] && it !in inBlock && d !in inBlock
    requires Exact(p, inBlock, d, m)
    ensures Exact(p, inBlock + {it}, d, NextSubtract(m, p.entries[it]))
  {
    hide SumOf, CachesExact, SortedByScore;
    var before, after := Package(p, inBlock, d), Package(p, inBlock + {it}, d);
    assert after == before - {it};
    SumRemove(before, Sizes(p), it);
    SumRemove(before, SigOps(p), it);
    SumRemove(before, Fees(p), it);
  }

  lemma FullIsExact(p: Mempool, inBlock: set<Tx>, d: Tx)
    requires ValidPool(p) && d in p.entries && p.ancestors[d] !! inBlock
    ensures Exact(p, inBlock, d, FullEntry(p.entries[d]))
  {
    hide SumOf, CachesExact, SortedByScore, Unprioritised;
    EntryExact(p, d);
    assert Package(p, inBlock, d) == p.ancestors[d] + {d};
  }

  // The first subtraction, from the cached totals, is exact while no ancestor is selected.
  lemma FirstExact(p: Mempool, inBlock: set<Tx>, it: Tx, d: Tx)
    requires ValidPool(p) && d in p.entries && it in p.ancestors[d] && it !in inBlock && d !in inBlock
    requires p.ancestors[d] !! inBlock
    ensures Exact(p, inBlock + {it}, d, FirstSubtract(p.entries[d], p.entries[it]))
  {
    hide SumOf, CachesExact, SortedByScore, Package;
    FullIsExact(p, inBlock, d);
    SubtractExact(p, inBlock, it, d, FullEntry(p.entries[d]));
    assert Unprioritised(p) ==> NextSubtract(FullEntry(p.entries[d]), p.entries[it]) == FirstSubtract(p.entries[d], p.entries[it]) by {
      if Unprioritised(p) { assert it in p.entries; }
    }
  }

  // The two ways to subtract agree exactly for a parent whose fee was not modified.
  lemma SubtractsAgreeIff(e: Entry, parent: Entry)
    ensures NextSubtract(FullEntry(e), parent) == FirstSubtract(e, parent) <==> parent.modifiedFee == parent.fee
  {
  }

  lemma SamePackageExact(p: Mempool, a: set<Tx>, b: set<Tx>, t: Tx, m: ModEntry)
    requires IsDag(p) && t in p.entries && Exact(p, a, t, m) && p.ancestors[t] * a == p.ancestors[t] * b
    ensures Exact(p, b, t, m)
  {
    SamePackage(p, a, b, t);
  }

  lemma SamePackage(p: Mempool, a: set<Tx>, b: set<Tx>, t: Tx)
    requires IsDag(p) && t in p.entries && p.ancestors[t] * a == p.ancestors[t] * b
    ensures Package(p, a, t) == Package(p, b, t)
  {
    forall x
      ensures x in Package(p, a, t) <==> x in Package(p, b, t)
    {
      assert x in p.ancestors[t] * a <==> x in p.ancestors[t] * b;
    }
  }

  lemma SamePackageCovers(p: Mempool, a: set<Tx>, b: set<Tx>, t: Tx, m: ModEntry)
    requires IsDag(p) && t in p.entries && Covers(p, a, t, m) && p.ancestors[t] * a == p.ancestors[t] * b
    ensures Covers(p, b, t, m)
  {
    SamePackage(p, a, b, t);
  }

  lemma UpdateForKeeps(p: Mempool, base: set<Tx>, mod: Modified, added: set<Tx>, it: Tx)
    requires ValidPool(p) && ModOk(p, base, mod) && it in added && added <= p.entries.Keys && it !in base
    requires forall t :: t in mod ==> t !in added
    requires forall d :: d in Descendants(p, it) ==> d !in base || d in added
    ensures ModOk(p, base + {it}, UpdateFor(p, mod, added, it))
    ensures forall t :: t in UpdateFor(p, mod, added, it) ==> t !in added
  {
    hide SumOf, CachesExact, Covers, SortedByScore;
    var r := UpdateFor(p, mod, added, it);
    forall t | t in r
      ensures t in p.entries && t !in base + {it} && Covers(p, base + {it}, t, r[t])
    {
      if t in Descendants(p, it) - added {
        if t in mod {
          SubtractCovers(p, base, it, t, mod[t]);
        } else {
          FirstCovers(p, base, it, t);
        }
      } else {
        assert Covers(p, base, t, mod[t]);
        SamePackageCovers(p, base, base + {it}, t, mod[t]);
      }
    }
  }

  // Outside the block and what is being added, whoever has an ancestor in the block is known.
  ghost predicate StaleKnown(p: Mempool, inBlock: set<Tx>, added: set<Tx>, mod: Modified, failed: set<Tx>)
    requires IsDag(p)
  {
    forall t :: t in p.entries && t !in inBlock && t !in added && !(p.ancestors[t] !! inBlock) ==> t in mod || t in failed
  }

  lemma UpdateForExact(p: Mempool, base: set<Tx>, mod: Modified, added: set<Tx>, it: Tx, failed: set<Tx>)
    requires ValidPool(p) && ModOk(p, base, mod) && it in added && added <= p.entries.Keys && it !in base
    requires forall d :: d in Descendants(p, it) ==> d !in base || d in added
    requires forall t :: t in mod ==> t !in added
    requires ModExact(p, base, mod, failed) && StaleKnown(p, base, added, mod, failed)
    ensures ModExact(p, base + {it}, UpdateFor(p, mod, added, it), failed)
    ensures StaleKnown(p, base + {it}, added, UpdateFor(p, mod, added, it), failed)
  {
    hide SumOf, CachesExact, Covers, Exact, SortedByScore;
    var r := UpdateFor(p, mod, added, it);
    forall t | t in r && t in p.entries && t !in failed
      ensures Exact(p, base + {it}, t, r[t])
    {
      if t in Descendants(p, it) - added {
        if t in mod {
          SubtractExact(p, base, it, t, mod[t]);
        } else {
          FirstExact(p, base, it, t);
        }
      } else {
        SamePackageExact(p, base, base + {it}, t, mod[t]);
      }
    }
  }

  // ---------- the block under construction ----------

  function Elems(s: seq<Tx>): set<Tx> {
    set t | t in s
  }

  lemma ElemsAppend(s: seq<Tx>, t: Tx)
    ensures Elems(s + [t]) == Elems(s) + {t}
  {
  }

  // vtx lists the block once each, and nothing before one of its ancestors.
  ghost predicate Ordered(p: Mempool, vtx: seq<Tx>)
    requires IsDag(p)
  {
    && (forall i :: 0 <= i < |vtx| ==> vtx[i] in p.entries)
    && (forall i, j :: 0 <= i < j < |vtx| ==> vtx[i] != vtx[j] && vtx[j] !in p.ancestors[vtx[i]])
  }

  // In a closed block that is ordered, every ancestor stands before its descendant.
  lemma AncestorsFirst(p: Mempool, vtx: seq<Tx>, j: nat, a: Tx)
    requires IsDag(p) && Ordered(p, vtx) && Closed(p, Elems(vtx)) && j < |vtx| && a in p.ancestors[vtx[j]]
    ensures exists i :: 0 <= i < j && vtx[i] == a
  {
    assert vtx[j] in Elems(vtx);
    assert a in Elems(vtx);
    var i :| 0 <= i < |vtx| && vtx[i] == a;
  }

  // A package sorted by ancestor count may be appended.
  lemma AppendPackage(p: Mempool, inBlock: set<Tx>, vtx: seq<Tx>, sorted: seq<Tx>)
    requires ValidPool(p) && Ordered(p, vtx) && Closed(p, inBlock) && inBlock == Elems(vtx)
    requires forall i :: 0 <= i < |sorted| ==> sorted[i] in p.entries && sorted[i] !in inBlock
    requires forall i, j :: 0 <= i < j < |sorted| ==>
               sorted[i] != sorted[j] && p.entries[sorted[i]].countWithAncestors <= p.entries[sorted[j]].countWithAncestors
    ensures Ordered(p, vtx + sorted)
  {
    hide CachesExact, SumOf, SortedByScore;
    var r := vtx + sorted;
    forall i, j | 0 <= i < j < |r|
      ensures r[i] != r[j] && r[j] !in p.ancestors[r[i]]
    {
      if i < |vtx| {
        assert r[i] == vtx[i] && r[i] in inBlock;
        if j >= |vtx| { assert r[j] == sorted[j - |vtx|]; }
      } else {
        var x, y := sorted[i - |vtx|], sorted[j - |vtx|];
        if y in p.ancestors[x] { AncestorCountsLess(p, y, x); }
      }
    }
  }

  // The per-transaction lists of the template follow vtx.
  predicate Listed(p: Mempool, vtx: seq<Tx>, vTxFees: seq<int>, vTxSigOpsCost: seq<int>) {
    && |vTxFees| == |vTxSigOpsCost| == |vtx|
    && forall i :: 0 <= i < |vtx| ==>
         vtx[i] in p.entries && vTxFees[i] == p.entries[vtx[i]].fee && vTxSigOpsCost[i] == p.entries[vtx[i]].sigOps
  }

  // What a block under construction adds up to.
  ghost predicate Totals(p: Mempool, inBlock: set<Tx>, nBlockWeight: int, nBlockSigOpsCost: int, nBlockTx: int, nFees: int)
    requires inBlock <= p.entries.Keys
  {
    && nBlockWeight == COINBASE_WEIGHT + SumOf(inBlock, TxWeights(p))
    && nBlockSigOpsCost == COINBASE_SIGOPS + SumOf(inBlock, SigOps(p))
    && nBlockTx == |inBlock|
    && nFees == SumOf(inBlock, Fees(p))
  }

  lemma TotalsAdd(p: Mempool, inBlock: set<Tx>, w: int, c: int, n: int, f: int, t: Tx)
    requires inBlock <= p.entries.Keys && t in p.entries && t !in inBlock && Totals(p, inBlock, w, c, n, f)
    ensures Totals(p, inBlock + {t}, w + p.entries[t].weight, c + p.entries[t].sigOps, n + 1, f + p.entries[t].fee)
  {
    assert inBlock + {t} - {t} == inBlock;
    SumRemove(inBlock + {t}, TxWeights(p), t);
    SumRemove(inBlock + {t}, SigOps(p), t);
    SumRemove(inBlock + {t}, Fees(p), t);
  }

  // A package whose claimed size passes TestPackage fits, because the claim covers it.
  lemma PackageFits(p: Mempool, inBlock: set<Tx>, t: Tx, claim: ModEntry)
    requires ValidPool(p) && Closed(p, inBlock) && t in p.entries && t !in inBlock && Covers(p, inBlock, t, claim)
    ensures inBlock !! Package(p, inBlock, t) && inBlock + Package(p, inBlock, t) <= p.entries.Keys
    ensures SumOf(inBlock + Package(p, inBlock, t), TxWeights(p))
            <= SumOf(inBlock, TxWeights(p)) + WITNESS_SCALE_FACTOR * claim.size
    ensures SumOf(inBlock + Package(p, inBlock, t), SigOps(p)) <= SumOf(inBlock, SigOps(p)) + claim.sigOps
  {
    hide SumOf, CachesExact, SortedByScore;
    var pkg := Package(p, inBlock, t);
    WeightsBounded(p, pkg);
    SumUnion(inBlock, pkg, TxWeights(p));
    SumUnion(inBlock, pkg, SigOps(p));
  }

  // The cached state of mapTx covers any package, and is exact until an ancestor is selected.
  lemma CachedCovers(p: Mempool, inBlock: set<Tx>, t: Tx)
    requires ValidPool(p) && t in p.entries && t !in inBlock
    ensures Covers(p, inBlock, t, FullEntry(p.entries[t]))
    ensures p.ancestors[t] !! inBlock ==> Exact(p, inBlock, t, FullEntry(p.entries[t]))
  {
    hide SumOf, CachesExact, SortedByScore;
    EntryExact(p, t);
    var full := p.ancestors[t] + {t};
    SumSubset(Package(p, inBlock, t), full, Sizes(p));
    SumSubset(Package(p, inBlock, t), full, SigOps(p));
    if p.ancestors[t] !! inBlock { assert Package(p, inBlock, t) == full; }
  }

  // Descendants of something newly selected were not selected before.
  lemma NoSelectedDescendants(p: Mempool, base: set<Tx>, it: Tx)
    requires IsDag(p) && Closed(p, base) && it in p.entries && it !in base
    ensures forall d :: d in Descendants(p, it) ==> d !in base
  {
  }

  // ---------- CompareTxIterByAncestorCount ----------

  predicate Before(p: Mempool, a: Tx, b: Tx) {
    && a in p.entries && b in p.entries
    && if p.entries[a].countWithAncestors != p.entries[b].countWithAncestors
       then p.entries[a].countWithAncestors < p.entries[b].countWithAncestors
       else p.entries[a].hash < p.entries[b].hash
  }

  // Nothing in s comes before t.
  predicate IsFirst(p: Mempool, s: set<Tx>, t: Tx) {
    forall x :: x in s ==> !Before(p, x, t)
  }

  lemma BeforeTransitive(p: Mempool, a: Tx, b: Tx, c: Tx)
    requires Before(p, a, b) && Before(p, b, c)
    ensures Before(p, a, c)
  {
  }

  lemma {:induction false} FirstExists(p: Mempool, s: set<Tx>) returns (t: Tx)
    requires s != {}
    ensures t in s && IsFirst(p, s, t)
  {
    var y :| y in s;
    t := y;
    if s != {y} {
      var u := FirstExists(p, s - {y});
      t := if Before(p, y, u) then y else u;
      forall x | x in s
        ensures !Before(p, x, t)
      {
        if x != y && t == y && Before(p, x, y) { BeforeTransitive(p, x, y, u); }
      }
    }
  }

  predicate Sorted(p: Mempool, s: seq<Tx>) {
    forall i, j :: 0 <= i < j < |s| ==> s[i] != s[j] && !Before(p, s[j], s[i])
  }

  lemma SortedAppend(p: Mempool, s: seq<Tx>, rest: set<Tx>, t: Tx)
    requires Sorted(p, s) && t in rest && Elems(s) !! rest && IsFirst(p, rest, t)
    requires forall x :: x in s ==> IsFirst(p, rest, x)
    ensures Sorted(p, s + [t])
    ensures forall x :: x in s + [t] ==> IsFirst(p, rest - {t}, x)
  {
    forall i | 0 <= i < |s|
      ensures s[i] != t && !Before(p, t, s[i])
    {
      assert s[i] in Elems(s) && IsFirst(p, rest, s[i]);
    }
  }

  lemma NothingSorted(p: Mempool)
    ensures Elems([]) == {} && Sorted(p, [])
  {
  }

  lemma ElemsConcat(a: seq<Tx>, b: seq<Tx>)
    ensures Elems(a + b) == Elems(a) + Elems(b)
  {
  }

  lemma NotYetIn(p: Mempool, s: seq<Tx>, i: nat)
    requires Sorted(p, s) && i < |s|
    ensures s[i] !in Elems(s[..i]) && s[i] in Elems(s)
  {
  }

  lemma SortedCounts(p: Mempool, inBlock: set<Tx>, s: seq<Tx>)
    requires Sorted(p, s) && Elems(s) <= p.entries.Keys && Elems(s) !! inBlock
    ensures forall i :: 0 <= i < |s| ==> s[i] in p.entries && s[i] !in inBlock
    ensures forall i, j :: 0 <= i < j < |s| ==>
              s[i] != s[j] && p.entries[s[i]].countWithAncestors <= p.entries[s[j]].countWithAncestors
  {
    assert forall i :: 0 <= i < |s| ==> s[i] in Elems(s);
  }

  lemma ClosedIsKnown(p: Mempool, inBlock: set<Tx>)
    requires IsDag(p) && Closed(p, inBlock)
    ensures inBlock <= p.entries.Keys
  {
  }

  lemma DescendantsKnown(p: Mempool, it: Tx)
    requires ValidPool(p)
    ensures IsDag(p) && p.ancestors.Keys == p.entries.Keys && Descendants(p, it) <= p.entries.Keys
  {
  }

  lemma ListedAppend(p: Mempool, vtx: seq<Tx>, vTxFees: seq<int>, vTxSigOpsCost: seq<int>, t: Tx)
    requires Listed(p, vtx, vTxFees, vTxSigOpsCost) && t in p.entries
    ensures Listed(p, vtx + [t], vTxFees + [p.entries[t].fee], vTxSigOpsCost + [p.entries[t].sigOps])
  {
  }

  lemma MinusStep(m: Modified, a: set<Tx>, t: Tx)
    ensures m - a - {t} == m - (a + {t})
  {
  }

  lemma UnionStep(a: set<Tx>, b: set<Tx>, t: Tx)
    ensures a + b + {t} == a + (b + {t})
  {
  }

  // ---------- one round of the selection loop ----------

  // What the loop keeps about mapModifiedTx and failedTx.
  ghost predicate LoopOk(p: Mempool, inBlock: set<Tx>, mod: Modified, failed: set<Tx>)
    requires IsDag(p)
  {
    ModOk(p, inBlock, mod) && StaleListed(p, inBlock, mod, failed) && ModExact(p, inBlock, mod, failed)
  }

  lemma DropFailed(p: Mempool, inBlock: set<Tx>, mod: Modified, failed: set<Tx>, t: Tx)
    requires IsDag(p) && LoopOk(p, inBlock, mod, failed)
    ensures LoopOk(p, inBlock, mod - {t}, failed + {t})
  {
    hide Covers;
  }

  // mod records every descendant of the transactions in done that was not added itself.
  ghost predicate Recorded(p: Mempool, done: set<Tx>, added: set<Tx>, mod: Modified)
    requires IsDag(p)
  {
    forall it, d :: it in done && d in p.entries && it in p.ancestors[d] && d !in added ==> d in mod
  }

  lemma NoneRecorded(p: Mempool, added: set<Tx>, mod: Modified)
    requires IsDag(p)
    ensures Recorded(p, {}, added, mod)
  {
  }

  lemma RecordOne(p: Mempool, done: set<Tx>, added: set<Tx>, mod: Modified, it: Tx)
    requires IsDag(p) && Recorded(p, done, added, mod) && it in p.entries
    ensures Recorded(p, done + {it}, added, UpdateFor(p, mod, added, it))
    ensures mod.Keys <= UpdateFor(p, mod, added, it).Keys
  {
  }

  lemma LoopOkAfterAdd(p: Mempool, base: set<Tx>, added: set<Tx>, before: Modified, after: Modified, failed: set<Tx>)
    requires IsDag(p) && LoopOk(p, base, before, failed)
    requires ModOk(p, base + added, after) && (before - added).Keys <= after.Keys && Recorded(p, added, added, after)
    requires ModExact(p, base + added, after, failed)
    ensures LoopOk(p, base + added, after, failed)
  {
    hide Covers;
    forall t | t in p.entries && t !in base + added && !(p.ancestors[t] !! base + added)
      ensures t in after || t in failed
    {
      if !(p.ancestors[t] !! added) {
        var it :| it in p.ancestors[t] && it in added;
      } else {
        assert t in before || t in failed;
        if t in before { assert t in before - added; }
      }
    }
  }

  lemma EraseKeepsModOk(p: Mempool, base: set<Tx>, mod: Modified, added: set<Tx>, failed: set<Tx>)
    requires IsDag(p) && LoopOk(p, base, mod, failed)
    ensures ModOk(p, base, mod - added) && ModExact(p, base, mod - added, failed) && StaleKnown(p, base, added, mod - added, failed)
  {
    hide Covers;
  }

  lemma NothingClosed(p: Mempool, added: set<Tx>)
    requires IsDag(p)
    ensures Closed(p, {}) && ModOk(p, {}, map[]) && ModExact(p, {}, map[], {}) && StaleKnown(p, {}, added, map[], {})
  {
  }

  lemma StartLoop(p: Mempool, inBlock: set<Tx>, mod: Modified)
    requires IsDag(p) && ModOk(p, {} + inBlock, mod) && Recorded(p, inBlock, inBlock, mod) && ModExact(p, {} + inBlock, mod, {})
    ensures LoopOk(p, inBlock, mod, {})
  {
    assert {} + inBlock == inBlock;
  }

  lemma FewerLeft(all: set<Tx>, before: set<Tx>, after: set<Tx>, t: Tx)
    requires before <= after && t in all && t !in before && t in after
    ensures |all - after| < |all - before|
  {
    SubsetSize(all - after, all - before);
  }

  predicate AnyCritical(p: Mempool, s: set<Tx>) {
    exists t :: t in s && t in p.entries && p.entries[t].hasCriticalData
  }

  predicate AllIncludable(ok: Tx -> bool, s: set<Tx>) {
    forall t :: t in s ==> ok(t)
  }

  lemma NoneAdded(p: Mempool, ok: Tx -> bool)
    ensures !AnyCritical(p, {}) && AllIncludable(ok, {})
  {
  }

  lemma AddedMore(p: Mempool, ok: Tx -> bool, start: set<Tx>, block: set<Tx>, package: set<Tx>)
    requires start <= block && block !! package
    ensures AnyCritical(p, block + package - start) <==> AnyCritical(p, block - start) || AnyCritical(p, package)
    ensures AllIncludable(ok, block - start) && AllIncludable(ok, package) ==> AllIncludable(ok, block + package - start)
  {
    assert block + package - start == (block - start) + package;
  }

  lemma PoolFacts(p: Mempool)
    requires ValidPool(p)
    ensures IsDag(p) && p.ancestors.Keys == p.entries.Keys
    ensures forall i :: 0 <= i < |p.order| ==> p.order[i] in p.entries
  {
  }

  lemma ModifiedCovers(p: Mempool, inBlock: set<Tx>, mod: Modified, failed: set<Tx>, t: Tx)
    requires IsDag(p) && LoopOk(p, inBlock, mod, failed)
    ensures t in mod ==> t in p.entries && t !in inBlock && Covers(p, inBlock, t, mod[t])
    ensures t in mod && t !in failed ==> Exact(p, inBlock, t, mod[t])
  {
  }

  lemma MinusSmaller(m: Modified, t: Tx)
    ensures t in m ==> |m - {t}| < |m|
  {
    if t in m {
      assert (m - {t}).Keys == m.Keys - {t};
      SubsetSize((m - {t}).Keys, m.Keys);
    }
  }

  // A candidate taken from mapTx has no ancestor in the block, so its cached totals are exact.
  lemma UnmodifiedIsExact(p: Mempool, inBlock: set<Tx>, mod: Modified, failed: set<Tx>, t: Tx)
    requires ValidPool(p) && LoopOk(p, inBlock, mod, failed)
    requires t in p.entries && t !in inBlock && t !in mod && t !in failed
    ensures p.ancestors[t] !! inBlock && Exact(p, inBlock, t, FullEntry(p.entries[t]))
  {
    hide ModOk, SumOf, SortedByScore, CachesExact, Exact, ModExact;
    CachedCovers(p, inBlock, t);
  }

  // ---------- candidates ----------

  // Totals that cover a package are positive in size, so its score is a rate.
  lemma ScoreValid(p: Mempool, inBlock: set<Tx>, t: Tx, m: ModEntry)
    requires ValidPool(p) && t in p.entries && Covers(p, inBlock, t, m)
    ensures AncestorScore.Valid(CandidateScore(p, t, m))
  {
    hide SumOf, CachesExact, SortedByScore;
    EntryExact(p, t);
    SumRemove(Package(p, inBlock, t), Sizes(p), t);
  }

  // No modified entry scores higher than this one.
  predicate IsBest(p: Mempool, mod: Modified, x: Score) {
    forall t :: t in mod && t in p.entries ==> !Higher(CandidateScore(p, t, mod[t]), x)
  }

  // The modified entries have a best one.
  lemma {:induction false} BestExists(p: Mempool, inBlock: set<Tx>, mod: Modified) returns (best: Tx)
    requires ValidPool(p) && ModOk(p, inBlock, mod) && mod != map[]
    ensures best in mod && best in p.entries && IsBest(p, mod, CandidateScore(p, best, mod[best]))
    decreases mod.Keys
  {
    hide ValidPool, Covers, CandidateScore, Higher;
    var t :| t in mod;
    var rest := mod - {t};
    ScoreValid(p, inBlock, t, mod[t]);
    OrderAt(p, inBlock, mod, t, t, t);
    if rest == map[] {
      assert forall x :: x in mod && x != t ==> x in rest;
      best := t;
    } else {
      var b := BestExists(p, inBlock, rest);
      best := if Higher(CandidateScore(p, t, mod[t]), CandidateScore(p, b, mod[b])) then t else b;
      forall x | x in mod && x in p.entries
        ensures !Higher(CandidateScore(p, x, mod[x]), CandidateScore(p, best, mod[best]))
      {
        assert x != t ==> x in rest && rest[x] == mod[x];
        OrderAt(p, inBlock, mod, x, b, t);
        OrderAt(p, inBlock, mod, x, t, b);
        OrderAt(p, inBlock, mod, b, t, b);
      }
    }
  }

  lemma OrderAt(p: Mempool, inBlock: set<Tx>, mod: Modified, x: Tx, y: Tx, z: Tx)
    requires ValidPool(p) && ModOk(p, inBlock, mod) && x in mod && y in mod && z in mod
    ensures x in p.entries && y in p.entries && z in p.entries
    ensures var a, b, c := CandidateScore(p, x, mod[x]), CandidateScore(p, y, mod[y]), CandidateScore(p, z, mod[z]);
            && !(Higher(a, b) && Higher(b, a)) && !Higher(a, a)
            && (Higher(a, b) && Higher(b, c) ==> Higher(a, c)) && (!Higher(a, b) && !Higher(b, c) ==> !Higher(a, c))
  {
    hide ValidPool, Covers, CandidateScore, Higher;
    ScoreValid(p, inBlock, x, mod[x]);
    ScoreValid(p, inBlock, y, mod[y]);
    ScoreValid(p, inBlock, z, mod[z]);
    var a, b, c := CandidateScore(p, x, mod[x]), CandidateScore(p, y, mod[y]), CandidateScore(p, z, mod[z]);
    HigherIsOrder(a, b, c);
    HigherIsOrder(a, a, a);
  }

  // Nothing left scores higher: no modified entry, and nothing from place mi of the index on.
  ghost predicate Greedy(p: Mempool, mod: Modified, mi: nat, x: Score)
    requires forall i :: 0 <= i < |p.order| ==> p.order[i] in p.entries
  {
    IsBest(p, mod, x) &&
    forall j :: mi <= j < |p.order| ==> !Higher(CandidateScore(p, p.order[j], FullEntry(p.entries[p.order[j]])), x)
  }

  // The better of the best modified entry and the next of the index beats everything left.
  lemma BetterIsGreedy(p: Mempool, inBlock: set<Tx>, mod: Modified, mi: nat, best: Tx)
    requires ValidPool(p) && ModOk(p, inBlock, mod) && mi < |p.order|
    requires best in mod && best in p.entries && IsBest(p, mod, CandidateScore(p, best, mod[best]))
    ensures var next := p.order[mi];
            var a, b := CandidateScore(p, best, mod[best]), CandidateScore(p, next, FullEntry(p.entries[next]));
            Greedy(p, mod, mi, if Higher(a, b) then a else b)
  {
    hide CachesExact, Covers, CandidateScore, Higher, FullEntry;
    var next := p.order[mi];
    var a, b := CandidateScore(p, best, mod[best]), CandidateScore(p, next, FullEntry(p.entries[next]));
    ScoreValid(p, inBlock, best, mod[best]);
    FullScoreValid(p, next);
    HigherIsOrder(b, b, b);
    forall j | mi <= j < |p.order|
      ensures var c := CandidateScore(p, p.order[j], FullEntry(p.entries[p.order[j]])); !Higher(c, b) && (Higher(a, b) ==> !Higher(c, a))
    {
      var c := CandidateScore(p, p.order[j], FullEntry(p.entries[p.order[j]]));
      FullScoreValid(p, p.order[j]);
      HigherIsOrder(c, a, b);
    }
    forall t | t in mod && t in p.entries
      ensures !Higher(a, b) ==> !Higher(CandidateScore(p, t, mod[t]), b)
    {
      ScoreValid(p, inBlock, t, mod[t]);
      HigherIsOrder(CandidateScore(p, t, mod[t]), a, b);
    }
  }

  lemma FullScoreValid(p: Mempool, t: Tx)
    requires ValidPool(p) && t in p.entries
    ensures AncestorScore.Valid(CandidateScore(p, t, FullEntry(p.entries[t])))
  {
    hide SumOf, CachesExact, SortedByScore;
    CachedCovers(p, {}, t);
    ScoreValid(p, {}, t, FullEntry(p.entries[t]));
  }

  // With no modified entry the next of the index is the best left.
  lemma NextIsGreedy(p: Mempool, mi: nat)
    requires ValidPool(p) && mi < |p.order|
    ensures Greedy(p, map[], mi, CandidateScore(p, p.order[mi], FullEntry(p.entries[p.order[mi]])))
  {
    hide CachesExact, CandidateScore, Higher, FullEntry;
    FullScoreValid(p, p.order[mi]);
    var b := CandidateScore(p, p.order[mi], FullEntry(p.entries[p.order[mi]]));
    HigherIsOrder(b, b, b);
  }

  // ---------- what was left out of the block ----------

  // The totals of a candidate and the block it was judged against.
  datatype Refusal = Refusal(block: set<Tx>, claim: ModEntry)

  // The package fits next to this block, by the totals claimed for it.
  ghost predicate Fits(p: Mempool, block: set<Tx>, claim: ModEntry, maxWeight: int, maxSigOps: int)
    requires block <= p.entries.Keys
  {
    && COINBASE_WEIGHT + SumOf(block, TxWeights(p)) + WITNESS_SCALE_FACTOR * claim.size < maxWeight
    && COINBASE_SIGOPS + SumOf(block, SigOps(p)) + claim.sigOps < maxSigOps
  }

  // At some point of the run the transaction did not fit or was not fit to be included.
  ghost predicate Refused(p: Mempool, t: Tx, r: Refusal, final: set<Tx>, ok: Tx -> bool, maxWeight: int, maxSigOps: int)
    requires IsDag(p)
  {
    && t in p.entries && r.block <= final && r.block <= p.entries.Keys && t !in r.block && Covers(p, r.block, t, r.claim)
    && (!Fits(p, r.block, r.claim, maxWeight, maxSigOps) || !AllIncludable(ok, Package(p, r.block, t)))
  }

  ghost predicate AllRefused(p: Mempool, refused: map<Tx, Refusal>, final: set<Tx>, ok: Tx -> bool, maxWeight: int, maxSigOps: int)
    requires IsDag(p)
  {
    forall t :: t in refused ==> Refused(p, t, refused[t], final, ok, maxWeight, maxSigOps)
  }

  lemma StillRefused(p: Mempool, refused: map<Tx, Refusal>, before: set<Tx>, after: set<Tx>, ok: Tx -> bool, maxWeight: int, maxSigOps: int)
    requires IsDag(p) && before <= after && AllRefused(p, refused, before, ok, maxWeight, maxSigOps)
    ensures AllRefused(p, refused, after, ok, maxWeight, maxSigOps)
  {
    hide Covers, Fits, AllIncludable;
  }

  lemma LoopModOk(p: Mempool, inBlock: set<Tx>, mod: Modified, failed: set<Tx>)
    requires IsDag(p) && LoopOk(p, inBlock, mod, failed)
    ensures ModOk(p, inBlock, mod)
  {
  }

  lemma AllListed(p: Mempool, mi: nat)
    requires ValidPool(p) && mi == |p.order|
    ensures forall t :: t in p.entries ==> exists i :: 0 <= i < mi && p.order[i] == t
  {
  }

  predicate IsSkippedDeposit(p: Mempool, t: Tx, withWithdrawal: set<nat>) {
    t in p.entries && p.entries[t].isDeposit && p.entries[t].sidechain in withWithdrawal
  }

  // The transaction was taken, skipped, or judged and refused.
  predicate Settled(p: Mempool, t: Tx, block: set<Tx>, withWithdrawal: set<nat>, refused: map<Tx, Refusal>) {
    t in block || IsSkippedDeposit(p, t, withWithdrawal) || t in refused
  }

  // So is everything before place mi of the index, or it waits among the modified entries.
  ghost predicate SettledTo(p: Mempool, mi: nat, block: set<Tx>, withWithdrawal: set<nat>, refused: map<Tx, Refusal>, mod: Modified) {
    forall i :: 0 <= i < mi && i < |p.order| ==> p.order[i] in mod || Settled(p, p.order[i], block, withWithdrawal, refused)
  }

  lemma SettledSkip(p: Mempool, mi: nat, block: set<Tx>, withWithdrawal: set<nat>, refused: map<Tx, Refusal>, mod: Modified)
    requires SettledTo(p, mi, block, withWithdrawal, refused, mod) && mi < |p.order|
    requires p.order[mi] in mod || Settled(p, p.order[mi], block, withWithdrawal, refused)
    ensures SettledTo(p, mi + 1, block, withWithdrawal, refused, mod)
  {
  }

  // After a round: its candidate is in the block or refused, and nothing else was dropped.
  lemma SettledRound(p: Mempool, mi: nat, next: nat, iter: Tx, block: set<Tx>, block': set<Tx>, withWithdrawal: set<nat>,
                     refused: map<Tx, Refusal>, refused': map<Tx, Refusal>, mod: Modified, mod': Modified)
    requires SettledTo(p, mi, block, withWithdrawal, refused, mod) && block <= block' && refused.Keys <= refused'.Keys
    requires mod.Keys - block' - refused'.Keys <= mod'.Keys && (iter in block' || iter in refused')
    requires next == mi || (next == mi + 1 && mi < |p.order| && iter == p.order[mi])
    ensures SettledTo(p, next, block', withWithdrawal, refused', mod')
  {
  }

  lemma SettledAll(p: Mempool, mi: nat, block: set<Tx>, withWithdrawal: set<nat>, refused: map<Tx, Refusal>)
    requires ValidPool(p) && mi == |p.order| && SettledTo(p, mi, block, withWithdrawal, refused, map[])
    ensures forall t :: t in p.entries ==> Settled(p, t, block, withWithdrawal, refused)
  {
    hide CachesExact, SortedByScore, Settled;
    AllListed(p, mi);
  }

  lemma SettledIs(p: Mempool, t: Tx, block: set<Tx>, withWithdrawal: set<nat>, refused: map<Tx, Refusal>)
    ensures Settled(p, t, block, withWithdrawal, refused) <==> t in block || IsSkippedDeposit(p, t, withWithdrawal) || t in refused
  {
  }
}
