/**
 * BlockAssembler::addPackageTxs (src/miner.cpp): greedy selection of ancestor packages.
 *
 * Scores are compared over integers, where the source uses floating point.
 */
module BlockAssembler {
  import opened AncestorScore
  import opened Packages

  const MAX_BLOCK_SIGOPS_COST := 80000
  const MAX_BLOCK_WEIGHT := 4000000
  // How far the weight limit stays from both ends, and from full when giving up.
  const WEIGHT_MARGIN := 4000
  const MAX_CONSECUTIVE_FAILURES := 1000

  // What happened to a candidate: below the fee floor, too big, not includable, or added.
  datatype Outcome = Stop | NoRoom | NotReady | Added

  // How the selection ended: with nothing left, at a candidate below the fee floor, or after
  // too many failures in a row near the weight limit.
  datatype Ending = Finished | BelowFloor(t: Tx, claim: ModEntry) | GaveUp(failures: nat)

  class BlockAssembler {
    const pool: Mempool
    const nBlockMaxWeight: nat
    // blockMinFeeRate.GetFee
    const minFee: int -> int
    // Finality, witness and critical-data checks on one transaction.
    const includable: Tx -> bool

    var inBlock: set<Tx>
    var vtx: seq<Tx>
    var vTxFees: seq<int>
    var vTxSigOpsCost: seq<int>
    var nBlockWeight: int
    var nBlockTx: int
    var nBlockSigOpsCost: int
    var nFees: int

    ghost predicate Valid()
      reads this
    {
      && ValidPool(pool)
      && Closed(pool, inBlock)
      && inBlock == Elems(vtx)
      && Ordered(pool, vtx)
      && Totals(pool, inBlock, nBlockWeight, nBlockSigOpsCost, nBlockTx, nFees)
      && Listed(pool, vtx, vTxFees, vTxSigOpsCost)
    }

    // The weight and sigop limits; the coinbase reserve alone may reach the weight limit.
    ghost predicate Within()
      reads this
    {
      && (nBlockWeight < nBlockMaxWeight || (inBlock == {} && nBlockWeight <= nBlockMaxWeight))
      && nBlockSigOpsCost < MAX_BLOCK_SIGOPS_COST
    }

    // The constructor clamps the limit; resetBlock reserves space for the coinbase.
    constructor (pool: Mempool, maxWeightOption: nat, minFee: int -> int, includable: Tx -> bool)
      requires ValidPool(pool)
      ensures Valid() && Within() && inBlock == {} && vtx == []
      ensures this.pool == pool && this.minFee == minFee && this.includable == includable
      ensures WEIGHT_MARGIN <= nBlockMaxWeight <= MAX_BLOCK_WEIGHT - WEIGHT_MARGIN
      ensures WEIGHT_MARGIN <= maxWeightOption <= MAX_BLOCK_WEIGHT - WEIGHT_MARGIN ==> nBlockMaxWeight == maxWeightOption
      ensures maxWeightOption > MAX_BLOCK_WEIGHT - WEIGHT_MARGIN ==> nBlockMaxWeight == MAX_BLOCK_WEIGHT - WEIGHT_MARGIN
    {
      this.pool := pool;
      this.minFee := minFee;
      this.includable := includable;
      var capped := if maxWeightOption < MAX_BLOCK_WEIGHT - WEIGHT_MARGIN then maxWeightOption else MAX_BLOCK_WEIGHT - WEIGHT_MARGIN;
      nBlockMaxWeight := if capped < WEIGHT_MARGIN then WEIGHT_MARGIN else capped;
      inBlock := {};
      vtx := [];
      vTxFees := [];
      vTxSigOpsCost := [];
      nBlockWeight := COINBASE_WEIGHT;
      nBlockSigOpsCost := COINBASE_SIGOPS;
      nBlockTx := 0;
      nFees := 0;
    }

    predicate TestPackage(packageSize: int, packageSigOpsCost: int)
      reads this
    {
      && nBlockWeight + WITNESS_SCALE_FACTOR * packageSize < nBlockMaxWeight
      && nBlockSigOpsCost + packageSigOpsCost < MAX_BLOCK_SIGOPS_COST
    }

    method AddToBlock(t: Tx)
      requires t in pool.entries
      modifies this
      ensures inBlock == old(inBlock) + {t} && vtx == old(vtx) + [t]
      ensures vTxFees == old(vTxFees) + [pool.entries[t].fee]
      ensures vTxSigOpsCost == old(vTxSigOpsCost) + [pool.entries[t].sigOps]
      ensures nBlockWeight == old(nBlockWeight) + pool.entries[t].weight
      ensures nBlockSigOpsCost == old(nBlockSigOpsCost) + pool.entries[t].sigOps
      ensures nBlockTx == old(nBlockTx) + 1 && nFees == old(nFees) + pool.entries[t].fee
    {
      vtx := vtx + [t];
      vTxFees := vTxFees + [pool.entries[t].fee];
      vTxSigOpsCost := vTxSigOpsCost + [pool.entries[t].sigOps];
      nBlockWeight := nBlockWeight + pool.entries[t].weight;
      nBlockTx := nBlockTx + 1;
      nBlockSigOpsCost := nBlockSigOpsCost + pool.entries[t].sigOps;
      nFees := nFees + pool.entries[t].fee;
      inBlock := inBlock + {t};
    }

    // A package in the order of CompareTxIterByAncestorCount.
    method SortForBlock(package: set<Tx>) returns (sorted: seq<Tx>)
      ensures Elems(sorted) == package && Sorted(pool, sorted)
    {
      hide Sorted, IsFirst, Elems, Before;
      sorted := [];
      var rest := package;
      NothingSorted(pool);
      while rest != {}
        invariant rest <= package && Elems(sorted) == package - rest && Sorted(pool, sorted)
        invariant forall x :: x in sorted ==> IsFirst(pool, rest, x)
        decreases rest
      {
        ghost var f := FirstExists(pool, rest);
        var t :| t in rest && IsFirst(pool, rest, t);
        SortedAppend(pool, sorted, rest, t);
        ElemsAppend(sorted, t);
        sorted := sorted + [t];
        rest := rest - {t};
      }
    }

    // AddToBlock keeps the totals and the lists right.
    method AddCounted(t: Tx)
      requires t in pool.entries && t !in inBlock && inBlock <= pool.entries.Keys
      requires Totals(pool, inBlock, nBlockWeight, nBlockSigOpsCost, nBlockTx, nFees) && Listed(pool, vtx, vTxFees, vTxSigOpsCost)
      modifies this
      ensures inBlock == old(inBlock) + {t} && vtx == old(vtx) + [t] && inBlock <= pool.entries.Keys
      ensures Totals(pool, inBlock, nBlockWeight, nBlockSigOpsCost, nBlockTx, nFees) && Listed(pool, vtx, vTxFees, vTxSigOpsCost)
    {
      hide Totals, Listed;
      TotalsAdd(pool, inBlock, nBlockWeight, nBlockSigOpsCost, nBlockTx, nFees, t);
      ListedAppend(pool, vtx, vTxFees, vTxSigOpsCost, t);
      AddToBlock(t);
    }

    // Loop of addPackageTxs over a sorted package.
    method AddSorted(sorted: seq<Tx>, mapModifiedTx: Modified) returns (mod: Modified)
      requires Valid() && Sorted(pool, sorted) && Elems(sorted) <= pool.entries.Keys && Elems(sorted) !! inBlock
      requires Closed(pool, inBlock + Elems(sorted))
      modifies this
      ensures Valid() && inBlock == old(inBlock) + Elems(sorted)
      ensures vtx == old(vtx) + sorted
      ensures mod == mapModifiedTx - Elems(sorted)
    {
      hide ValidPool, Totals, Closed, Ordered, Elems, Sorted, Listed, IsDag;
      PoolFacts(pool);
      SortedCounts(pool, inBlock, sorted);
      AppendPackage(pool, inBlock, vtx, sorted);
      ClosedIsKnown(pool, inBlock);
      ghost var block0, vtx0 := inBlock, vtx;
      mod := mapModifiedTx;
      NothingSorted(pool);
      for i := 0 to |sorted|
        invariant inBlock == block0 + Elems(sorted[..i]) && inBlock <= pool.entries.Keys
        invariant vtx == vtx0 + sorted[..i]
        invariant mod == mapModifiedTx - Elems(sorted[..i])
        invariant Totals(pool, inBlock, nBlockWeight, nBlockSigOpsCost, nBlockTx, nFees)
        invariant Listed(pool, vtx, vTxFees, vTxSigOpsCost)
      {
        var t := sorted[i];
        assert sorted[..i + 1] == sorted[..i] + [t];
        ElemsAppend(sorted[..i], t);
        NotYetIn(pool, sorted, i);
        AddCounted(t);
        MinusStep(mapModifiedTx, Elems(sorted[..i]), t);
        UnionStep(block0, Elems(sorted[..i]), t);
        mod := mod - {t};
      }
      assert sorted[..|sorted|] == sorted;
      ElemsConcat(vtx0, sorted);
    }

    // One added transaction: every descendant outside the package gets a modified entry.
    method UpdateDescendants(it: Tx, alreadyAdded: set<Tx>, mapModifiedTx: Modified) returns (mod: Modified)
      requires ValidPool(pool) && it in pool.entries
      ensures mod == UpdateFor(pool, mapModifiedTx, alreadyAdded, it)
    {
      hide ValidPool, UpdateSome;
      DescendantsKnown(pool, it);
      UpdateNone(pool, mapModifiedTx, it);
      mod := mapModifiedTx;
      ghost var targets := Descendants(pool, it) - alreadyAdded;
      ghost var done: set<Tx> := {};
      var rest := Descendants(pool, it);
      while rest != {}
        invariant rest <= Descendants(pool, it) && done == targets - rest
        invariant mod == UpdateSome(pool, mapModifiedTx, done, it)
        decreases rest
      {
        var d :| d in rest;
        rest := rest - {d};
        if d !in alreadyAdded {
          UpdateOne(pool, mapModifiedTx, done, it, d);
          if d !in mod {
            mod := mod[d := FirstSubtract(pool.entries[d], pool.entries[it])];
          } else {
            mod := mod[d := NextSubtract(mod[d], pool.entries[it])];
          }
          done := done + {d};
        }
      }
      assert done == targets;
    }

    // Takes the added transactions off the modified state of all their descendants.
    method UpdatePackagesForAdded(alreadyAdded: set<Tx>, mapModifiedTx: Modified, ghost base: set<Tx>, ghost failed: set<Tx>)
      returns (mod: Modified)
      requires ValidPool(pool) && Closed(pool, base) && Closed(pool, base + alreadyAdded) && alreadyAdded !! base
      requires ModOk(pool, base, mapModifiedTx) && mapModifiedTx.Keys !! alreadyAdded
      requires ModExact(pool, base, mapModifiedTx, failed) && StaleKnown(pool, base, alreadyAdded, mapModifiedTx, failed)
      ensures ModOk(pool, base + alreadyAdded, mod) && ModExact(pool, base + alreadyAdded, mod, failed)
      ensures mapModifiedTx.Keys <= mod.Keys && Recorded(pool, alreadyAdded, alreadyAdded, mod)
    {
      hide CachesExact, SortedByScore, Covers, UpdateFor, ModOk, Recorded, ModExact, StaleKnown;
      mod := mapModifiedTx;
      var rest := alreadyAdded;
      NoneRecorded(pool, alreadyAdded, mod);
      assert alreadyAdded - rest == {} && base + {} == base;
      while rest != {}
        invariant rest <= alreadyAdded
        invariant ModOk(pool, base + (alreadyAdded - rest), mod) && mod.Keys !! alreadyAdded
        invariant ModExact(pool, base + (alreadyAdded - rest), mod, failed)
        invariant StaleKnown(pool, base + (alreadyAdded - rest), alreadyAdded, mod, failed)
        invariant mapModifiedTx.Keys <= mod.Keys && Recorded(pool, alreadyAdded - rest, alreadyAdded, mod)
        decreases rest
      {
        var it :| it in rest;
        ghost var done := alreadyAdded - rest;
        NoSelectedDescendants(pool, base, it);
        UpdateForKeeps(pool, base + done, mod, alreadyAdded, it);
        UpdateForExact(pool, base + done, mod, alreadyAdded, it, failed);
        RecordOne(pool, done, alreadyAdded, mod, it);
        mod := UpdateDescendants(it, alreadyAdded, mod);
        rest := rest - {it};
        assert alreadyAdded - rest == done + {it};
        assert base + (done + {it}) == base + done + {it};
      }
      assert alreadyAdded - rest == alreadyAdded;
    }

    // Adds the package of a transaction whose claimed size and sigops passed TestPackage.
    method AddPackage(iter: Tx, mapModifiedTx: Modified, ghost claim: ModEntry, ghost failed: set<Tx>) returns (mod: Modified)
      requires Valid() && LoopOk(pool, inBlock, mapModifiedTx, failed)
      requires iter in pool.entries && iter !in inBlock && Covers(pool, inBlock, iter, claim)
      requires TestPackage(claim.size, claim.sigOps)
      modifies this
      ensures Valid() && Within() && LoopOk(pool, inBlock, mod, failed)
      ensures inBlock == old(inBlock) + Package(pool, old(inBlock), iter) && old(vtx) <= vtx
      ensures mapModifiedTx.Keys - inBlock <= mod.Keys
    {
      hide CachesExact, SortedByScore, Covers, Ordered, Listed, Elems, Sorted, ModOk, Recorded, StaleListed, StaleKnown, ModExact, SumOf, Closed;
      ghost var base := inBlock;
      var ancestors := Package(pool, inBlock, iter);
      PackageFits(pool, inBlock, iter, claim);
      PackageCloses(pool, inBlock, iter);
      var sorted := SortForBlock(ancestors);
      EraseKeepsModOk(pool, base, mapModifiedTx, ancestors, failed);
      mod := AddSorted(sorted, mapModifiedTx);
      mod := UpdatePackagesForAdded(ancestors, mod, base, failed);
      LoopOkAfterAdd(pool, base, ancestors, mapModifiedTx, mod, failed);
    }

    // The totals a candidate is judged by.
    function ClaimOf(iter: Tx, fUsingModified: bool, mapModifiedTx: Modified): ModEntry
      requires if fUsingModified then iter in mapModifiedTx else iter in pool.entries
    {
      if fUsingModified then mapModifiedTx[iter] else FullEntry(pool.entries[iter])
    }

    // Which transaction to evaluate next: the next of mapTx, or the best modified one.  Nothing
    // left scores higher.
    method Choose(mi: nat, mapModifiedTx: Modified) returns (iter: Tx, fUsingModified: bool, next: nat)
      requires ValidPool(pool) && ModOk(pool, inBlock, mapModifiedTx)
      requires mi <= |pool.order| && (mi < |pool.order| || mapModifiedTx != map[])
      ensures iter in pool.entries
      ensures if fUsingModified then iter in mapModifiedTx && next == mi
              else mi < |pool.order| && iter == pool.order[mi] && next == mi + 1
      ensures Greedy(pool, mapModifiedTx, mi, CandidateScore(pool, iter, ClaimOf(iter, fUsingModified, mapModifiedTx)))
    {
      hide ModOk, CachesExact, SortedByScore, CandidateScore, Higher, IsBest, FullEntry;
      fUsingModified, next := false, mi;
      var best := 0;
      if mapModifiedTx != map[] {
        ghost var b := BestExists(pool, inBlock, mapModifiedTx);
        best :| best in mapModifiedTx && best in pool.entries && IsBest(pool, mapModifiedTx, CandidateScore(pool, best, mapModifiedTx[best]));
      }
      if mi == |pool.order| {
        iter := best;
        fUsingModified := true;
      } else {
        iter := pool.order[mi];
        if mapModifiedTx != map[] {
          BetterIsGreedy(pool, inBlock, mapModifiedTx, mi, best);
          if Higher(CandidateScore(pool, best, mapModifiedTx[best]), CandidateScore(pool, iter, FullEntry(pool.entries[iter]))) {
            iter := best;
            fUsingModified := true;
          }
        } else {
          NextIsGreedy(pool, mi);
        }
        if !fUsingModified {
          next := mi + 1;
        }
      }
    }

    // What decides on a candidate: the fee floor, then the room left, then its transactions.
    ghost function Verdict(iter: Tx, claim: ModEntry, block: set<Tx>): Outcome
      requires IsDag(pool) && iter in pool.entries && block <= pool.entries.Keys
    {
      if claim.modFees < minFee(claim.size) then Stop
      else if !Fits(pool, block, claim, nBlockMaxWeight, MAX_BLOCK_SIGOPS_COST) then NoRoom
      else if exists t :: t in Package(pool, block, iter) && !includable(t) then NotReady
      else Added
    }

    // In terms of the totals kept for the block.
    lemma VerdictIs(iter: Tx, claim: ModEntry)
      requires Valid() && iter in pool.entries && inBlock <= pool.entries.Keys
      ensures Verdict(iter, claim, inBlock) ==
              if claim.modFees < minFee(claim.size) then Stop
              else if !TestPackage(claim.size, claim.sigOps) then NoRoom
              else if !AllIncludable(includable, Package(pool, inBlock, iter)) then NotReady
              else Added
    {
      hide CachesExact, SortedByScore, Closed, Ordered, Listed, SumOf;
    }

    // Evaluates one candidate: adds its package, or drops it from the modified entries.
    method Evaluate(iter: Tx, fUsingModified: bool, mapModifiedTx: Modified, failedTx: set<Tx>)
      returns (outcome: Outcome, mod: Modified, failed: set<Tx>)
      requires Valid() && Within() && LoopOk(pool, inBlock, mapModifiedTx, failedTx)
      requires iter in pool.entries && iter !in inBlock
      requires if fUsingModified then iter in mapModifiedTx else iter !in mapModifiedTx && iter !in failedTx
      modifies this
      ensures inBlock <= pool.entries.Keys && old(inBlock) <= pool.entries.Keys
      ensures outcome == Verdict(iter, ClaimOf(iter, fUsingModified, mapModifiedTx), old(inBlock))
      ensures Covers(pool, old(inBlock), iter, ClaimOf(iter, fUsingModified, mapModifiedTx))
      ensures iter !in failedTx ==> Exact(pool, old(inBlock), iter, ClaimOf(iter, fUsingModified, mapModifiedTx))
      ensures Valid() && Within() && LoopOk(pool, inBlock, mod, failed) && old(vtx) <= vtx
      ensures outcome.Added? ==> inBlock == old(inBlock) + Package(pool, old(inBlock), iter)
      ensures outcome.Added? ==> AllIncludable(includable, Package(pool, old(inBlock), iter))
      ensures outcome.Added? ==> failed == failedTx && mapModifiedTx.Keys - inBlock <= mod.Keys
      ensures !outcome.Added? ==> inBlock == old(inBlock) && vtx == old(vtx)
      ensures !outcome.Added? ==> mod == if fUsingModified && !outcome.Stop? then mapModifiedTx - {iter} else mapModifiedTx
      ensures !outcome.Added? ==> failed == if fUsingModified && !outcome.Stop? then failedTx + {iter} else failedTx
    {
      hide ValidPool, Closed, Covers, Ordered, Listed, Elems, LoopOk, IsDag, Exact, Verdict, Totals, AllIncludable;
      PoolFacts(pool);
      ClosedIsKnown(pool, inBlock);
      mod, failed := mapModifiedTx, failedTx;
      ModifiedCovers(pool, inBlock, mod, failed, iter);
      CachedCovers(pool, inBlock, iter);
      DropFailed(pool, inBlock, mod, failed, iter);
      if !fUsingModified { UnmodifiedIsExact(pool, inBlock, mod, failed, iter); }
      var claim := if fUsingModified then mod[iter] else FullEntry(pool.entries[iter]);
      VerdictIs(iter, claim);
      if claim.modFees < minFee(claim.size) {
        return Stop, mod, failed;
      }
      if !TestPackage(claim.size, claim.sigOps) {
        if fUsingModified {
          mod, failed := mod - {iter}, failed + {iter};
        }
        return NoRoom, mod, failed;
      }
      var ancestors := Package(pool, inBlock, iter);
      if !AllIncludable(includable, ancestors) {
        if fUsingModified {
          mod, failed := mod - {iter}, failed + {iter};
        }
        return NotReady, mod, failed;
      }
      mod := AddPackage(iter, mod, claim, failed);
      return Added, mod, failed;
    }

    // Chooses and evaluates.  Either the block grows or there is less left to look at.
    method Round(mi: nat, mapModifiedTx: Modified, failedTx: set<Tx>)
      returns (outcome: Outcome, ancestors: set<Tx>, next: nat, mod: Modified, failed: set<Tx>, ghost iter: Tx, ghost claim: ModEntry)
      requires Valid() && Within() && LoopOk(pool, inBlock, mapModifiedTx, failedTx)
      requires mi <= |pool.order| && (mi < |pool.order| || mapModifiedTx != map[])
      requires mi < |pool.order| ==> pool.order[mi] !in inBlock && pool.order[mi] !in mapModifiedTx && pool.order[mi] !in failedTx
      modifies this
      ensures Valid() && Within() && LoopOk(pool, inBlock, mod, failed) && old(vtx) <= vtx && mi <= next <= |pool.order|
      ensures iter in pool.entries && iter !in old(inBlock) && old(inBlock) <= pool.entries.Keys
      ensures Greedy(pool, mapModifiedTx, mi, CandidateScore(pool, iter, claim))
      ensures outcome == Verdict(iter, claim, old(inBlock)) && Covers(pool, old(inBlock), iter, claim)
      ensures iter !in failedTx ==> Exact(pool, old(inBlock), iter, claim)
      ensures next == mi || (next == mi + 1 && iter == pool.order[mi])
      ensures outcome.Added? ==>
                && old(inBlock) !! ancestors && inBlock == old(inBlock) + ancestors && AllIncludable(includable, ancestors)
                && iter in inBlock && failed == failedTx && mapModifiedTx.Keys - inBlock <= mod.Keys
                && |pool.entries.Keys - inBlock| < |pool.entries.Keys - old(inBlock)|
      ensures !outcome.Added? ==> inBlock == old(inBlock) && vtx == old(vtx)
      ensures !outcome.Added? ==> mapModifiedTx.Keys - {iter} <= mod.Keys && failedTx <= failed <= failedTx + {iter}
      ensures outcome.Stop? ==> failed == failedTx
      ensures !outcome.Added? && !outcome.Stop? ==>
                |pool.order| - next + |mod| < |pool.order| - mi + |mapModifiedTx|
    {
      hide ValidPool, Closed, Covers, Ordered, Listed, Elems, LoopOk, Totals, AllIncludable, IsDag, Exact, Greedy, CandidateScore, Verdict, FullEntry;
      PoolFacts(pool);
      LoopModOk(pool, inBlock, mapModifiedTx, failedTx);
      var candidate, fUsingModified;
      candidate, fUsingModified, next := Choose(mi, mapModifiedTx);
      iter, claim := candidate, ClaimOf(candidate, fUsingModified, mapModifiedTx);
      ModifiedCovers(pool, inBlock, mapModifiedTx, failedTx, iter);
      assert iter !in inBlock;
      ancestors := Package(pool, inBlock, candidate);
      MinusSmaller(mapModifiedTx, iter);
      outcome, mod, failed := Evaluate(candidate, fUsingModified, mapModifiedTx, failedTx);
      if outcome.Added? {
        FewerLeft(pool.entries.Keys, old(inBlock), inBlock, iter);
      }
    }

    ghost predicate RefusalsOk(refused: map<Tx, Refusal>)
      requires IsDag(pool)
      reads this
    {
      AllRefused(pool, refused, inBlock, includable, nBlockMaxWeight, MAX_BLOCK_SIGOPS_COST)
    }

    // What the selection loop keeps.
    ghost predicate Progress(start: set<Tx>, mi: nat, mod: Modified, failed: set<Tx>, refused: map<Tx, Refusal>, withWithdrawal: set<nat>)
      requires IsDag(pool)
      reads this
    {
      && mi <= |pool.order| && start <= inBlock && AllIncludable(includable, inBlock - start)
      && LoopOk(pool, inBlock, mod, failed)
      && failed <= refused.Keys && RefusalsOk(refused)
      && SettledTo(pool, mi, inBlock, withWithdrawal, refused, mod)
    }

    // A round with its books: what is refused is recorded with the block it was judged against.
    method Turn(mi: nat, mapModifiedTx: Modified, failedTx: set<Tx>, ghost refused0: map<Tx, Refusal>, ghost start: set<Tx>,
                ghost withWithdrawal: set<nat>)
      returns (outcome: Outcome, ancestors: set<Tx>, next: nat, mod: Modified, failed: set<Tx>,
               ghost refused: map<Tx, Refusal>, ghost ending: Ending)
      requires Valid() && Within() && Progress(start, mi, mapModifiedTx, failedTx, refused0, withWithdrawal)
      requires mi < |pool.order| || mapModifiedTx != map[]
      requires mi < |pool.order| ==> pool.order[mi] !in inBlock && pool.order[mi] !in mapModifiedTx && pool.order[mi] !in failedTx
      modifies this
      ensures Valid() && Within() && old(vtx) <= vtx && RefusalsOk(refused)
      ensures start <= inBlock && AllIncludable(includable, inBlock - start)
      ensures !outcome.Stop? ==> next <= |pool.order| && Progress(start, next, mod, failed, refused, withWithdrawal)
      ensures AnyCritical(pool, inBlock - start) <==> old(AnyCritical(pool, inBlock - start)) || (outcome.Added? && AnyCritical(pool, ancestors))
      ensures outcome.Added? ==> |pool.entries.Keys - inBlock| < |pool.entries.Keys - old(inBlock)|
      ensures !outcome.Added? ==> inBlock == old(inBlock)
      ensures !outcome.Added? && !outcome.Stop? ==>
                |pool.order| - next + |mod| < |pool.order| - mi + |mapModifiedTx|
      ensures outcome.Stop? ==> ending.BelowFloor? && Stopped(ending)
    {
      hide Valid, Within, ValidPool, Covers, LoopOk, AllIncludable, IsDag, AllRefused, Refused,
        Exact, Greedy, CandidateScore, Verdict, SettledTo, AnyCritical;
      PoolIsValid();
      PoolFacts(pool);
      ghost var block0 := inBlock;
      ghost var iter, claim;
      outcome, ancestors, next, mod, failed, iter, claim := Round(mi, mapModifiedTx, failedTx);
      StillRefused(pool, refused0, block0, inBlock, includable, nBlockMaxWeight, MAX_BLOCK_SIGOPS_COST);
      refused := refused0;
      ending := BelowFloor(iter, claim);
      if outcome.Added? { AddedMore(pool, includable, start, block0, ancestors); }
      if outcome.Stop? {
        StopMeans(iter, claim);
      } else {
        if !outcome.Added? {
          RefusalMeans(iter, claim, outcome);
          refused := refused[iter := Refusal(inBlock, claim)];
          RefuseOne(refused0, iter, claim);
        }
        SettledRound(pool, mi, next, iter, block0, inBlock, withWithdrawal, refused0, refused, mapModifiedTx, mod);
      }
    }

    // The next of the index is passed over: a deposit, or known already.
    lemma Skip(start: set<Tx>, mi: nat, mod: Modified, failed: set<Tx>, refused: map<Tx, Refusal>, withWithdrawal: set<nat>)
      requires IsDag(pool) && Progress(start, mi, mod, failed, refused, withWithdrawal) && mi < |pool.order|
      requires var t := pool.order[mi]; IsSkippedDeposit(pool, t, withWithdrawal) || t in mod || t in inBlock || t in failed
      ensures Progress(start, mi + 1, mod, failed, refused, withWithdrawal)
    {
      hide LoopOk, AllIncludable, AllRefused;
      SettledSkip(pool, mi, inBlock, withWithdrawal, refused, mod);
    }

    lemma RefuseOne(refused: map<Tx, Refusal>, iter: Tx, claim: ModEntry)
      requires IsDag(pool) && RefusalsOk(refused)
      requires Refused(pool, iter, Refusal(inBlock, claim), inBlock, includable, nBlockMaxWeight, MAX_BLOCK_SIGOPS_COST)
      ensures RefusalsOk(refused[iter := Refusal(inBlock, claim)])
    {
      hide Refused;
    }

    // A candidate outside the block is below the fee floor for its size.
    ghost predicate Stopped(ending: Ending)
      requires IsDag(pool)
      reads this
    {
      && ending.BelowFloor? && ending.t in pool.entries && ending.t !in inBlock && Covers(pool, inBlock, ending.t, ending.claim)
      && ending.claim.modFees < minFee(ending.claim.size)
    }

    lemma ProgressFacts(start: set<Tx>, mi: nat, mod: Modified, failed: set<Tx>, refused: map<Tx, Refusal>, withWithdrawal: set<nat>)
      requires IsDag(pool) && Progress(start, mi, mod, failed, refused, withWithdrawal)
      ensures mi <= |pool.order| && start <= inBlock && AllIncludable(includable, inBlock - start) && RefusalsOk(refused)
    {
    }

    // Why the loop was left early.
    ghost predicate EndedEarly(ending: Ending)
      requires IsDag(pool)
      reads this
    {
      && (ending.BelowFloor? ==> Stopped(ending))
      && (ending.GaveUp? ==> ending.failures > 1000 && nBlockWeight > nBlockMaxWeight - 4000)
      && !ending.Finished?
    }

    // A candidate that is not passed over: judged, and what its judgement leads to.
    method Try(mi: nat, mapModifiedTx: Modified, failedTx: set<Tx>, nConsecutiveFailed: nat, withWithdrawal: set<nat>,
               ghost refused0: map<Tx, Refusal>, ghost start: set<Tx>)
      returns (done: bool, critical: bool, next: nat, mod: Modified, failed: set<Tx>, nFailed: nat,
               ghost refused: map<Tx, Refusal>, ghost ending: Ending)
      requires Valid() && Within() && IsDag(pool) && Progress(start, mi, mapModifiedTx, failedTx, refused0, withWithdrawal)
      requires mi < |pool.order| || mapModifiedTx != map[]
      requires mi < |pool.order| ==> pool.order[mi] !in inBlock && pool.order[mi] !in mapModifiedTx && pool.order[mi] !in failedTx
      modifies this
      ensures Valid() && Within() && IsDag(pool) && old(vtx) <= vtx && RefusalsOk(refused)
      ensures start <= inBlock && AllIncludable(includable, inBlock - start)
      ensures AnyCritical(pool, inBlock - start) <==> old(AnyCritical(pool, inBlock - start)) || critical
      ensures !done ==> next <= |pool.order| && Progress(start, next, mod, failed, refused, withWithdrawal)
      ensures !done ==>
                || |pool.entries.Keys - inBlock| < |pool.entries.Keys - old(inBlock)|
                || (inBlock == old(inBlock) && |pool.order| - next + |mod| < |pool.order| - mi + |mapModifiedTx|)
      ensures done ==> EndedEarly(ending)
    {
      hide Valid, Within, Progress, RefusalsOk, Stopped, AnyCritical, AllIncludable, IsDag;
      done, critical, nFailed := false, false, nConsecutiveFailed;
      var outcome, ancestors;
      outcome, ancestors, next, mod, failed, refused, ending := Turn(mi, mapModifiedTx, failedTx, refused0, start, withWithdrawal);
      match outcome {
        case Stop =>
          done := true;
        case NoRoom =>
          nFailed := nFailed + 1;
          if nFailed > MAX_CONSECUTIVE_FAILURES && nBlockWeight > nBlockMaxWeight - WEIGHT_MARGIN {
            done := true;
            ending := GaveUp(nFailed);
          }
        case NotReady =>
        case Added =>
          nFailed := 0;
          critical := AnyCritical(pool, ancestors);
      }
    }

    // One pass of the loop.  Unless it ends the loop, the block grows or less is left.
    method Pass(mi: nat, mapModifiedTx: Modified, failedTx: set<Tx>, nConsecutiveFailed: nat, withWithdrawal: set<nat>,
                ghost refused0: map<Tx, Refusal>, ghost start: set<Tx>)
      returns (done: bool, critical: bool, next: nat, mod: Modified, failed: set<Tx>, nFailed: nat,
               ghost refused: map<Tx, Refusal>, ghost ending: Ending)
      requires Valid() && Within() && IsDag(pool) && Progress(start, mi, mapModifiedTx, failedTx, refused0, withWithdrawal)
      requires mi < |pool.order| || mapModifiedTx != map[]
      modifies this
      ensures Valid() && Within() && IsDag(pool) && old(vtx) <= vtx && RefusalsOk(refused)
      ensures start <= inBlock && AllIncludable(includable, inBlock - start)
      ensures AnyCritical(pool, inBlock - start) <==> old(AnyCritical(pool, inBlock - start)) || critical
      ensures !done ==> next <= |pool.order| && Progress(start, next, mod, failed, refused, withWithdrawal)
      ensures !done ==>
                || |pool.entries.Keys - inBlock| < |pool.entries.Keys - old(inBlock)|
                || (inBlock == old(inBlock) && |pool.order| - next + |mod| < |pool.order| - mi + |mapModifiedTx|)
      ensures done ==> EndedEarly(ending)
    {
      hide Valid, Within, Progress, RefusalsOk, EndedEarly, ValidPool, AnyCritical, AllIncludable, IsDag;
      PoolIsValid();
      PoolFacts(pool);
      ProgressFacts(start, mi, mapModifiedTx, failedTx, refused0, withWithdrawal);
      if mi < |pool.order| && pool.entries[pool.order[mi]].isDeposit && pool.entries[pool.order[mi]].sidechain in withWithdrawal {
        Skip(start, mi, mapModifiedTx, failedTx, refused0, withWithdrawal);
        return false, false, mi + 1, mapModifiedTx, failedTx, nConsecutiveFailed, refused0, Finished;
      }
      // SkipMapTxEntry
      if mi < |pool.order| && (pool.order[mi] in mapModifiedTx || pool.order[mi] in inBlock || pool.order[mi] in failedTx) {
        Skip(start, mi, mapModifiedTx, failedTx, refused0, withWithdrawal);
        return false, false, mi + 1, mapModifiedTx, failedTx, nConsecutiveFailed, refused0, Finished;
      }
      done, critical, next, mod, failed, nFailed, refused, ending :=
        Try(mi, mapModifiedTx, failedTx, nConsecutiveFailed, withWithdrawal, refused0, start);
    }

    // fNeedBefore is what the flag, passed by reference, was before the call.
    method AddPackageTxs(fDrivechainEnabled: bool, fNeedBefore: bool, withWithdrawal: set<nat>)
      returns (fNeedCriticalFeeTx: bool, ghost ending: Ending, ghost refused: map<Tx, Refusal>)
      requires Valid() && Within()
      modifies this
      ensures Valid() && Within() && old(vtx) <= vtx && old(inBlock) <= inBlock
      ensures AllIncludable(includable, inBlock - old(inBlock))
      ensures fNeedCriticalFeeTx <==> fNeedBefore || (fDrivechainEnabled && AnyCritical(pool, inBlock - old(inBlock)))
      ensures RefusalsOk(refused)
      ensures if ending.Finished? then forall t :: t in pool.entries ==> Settled(pool, t, inBlock, withWithdrawal, refused)
              else EndedEarly(ending)
    {
      hide Valid, Within, Progress, RefusalsOk, EndedEarly, ValidPool, AnyCritical, AllIncludable, IsDag, Settled;
      PoolIsValid();
      PoolFacts(pool);
      fNeedCriticalFeeTx := fNeedBefore;
      ghost var block0, vtx0 := inBlock, vtx;
      var mapModifiedTx := UpdatePackagesForBlock();
      var failedTx: set<Tx> := {};
      var mi: nat := 0;
      var nConsecutiveFailed := 0;
      ending, refused := Finished, map[];
      Begin(mapModifiedTx, withWithdrawal);
      while mi < |pool.order| || mapModifiedTx != map[]
        invariant Valid() && Within() && vtx0 <= vtx && mi <= |pool.order|
        invariant Progress(block0, mi, mapModifiedTx, failedTx, refused, withWithdrawal)
        invariant fNeedCriticalFeeTx <==> fNeedBefore || (fDrivechainEnabled && AnyCritical(pool, inBlock - block0))
        decreases |pool.entries.Keys - inBlock|, |pool.order| - mi + |mapModifiedTx|
      {
        var done, critical;
        done, critical, mi, mapModifiedTx, failedTx, nConsecutiveFailed, refused, ending :=
          Pass(mi, mapModifiedTx, failedTx, nConsecutiveFailed, withWithdrawal, refused, block0);
        fNeedCriticalFeeTx := fNeedCriticalFeeTx || (fDrivechainEnabled && critical);
        if done {
          EarlyIsNotFinished(ending);
          return;
        }
      }
      ending := Finished;
      End(block0, mi, mapModifiedTx, failedTx, refused, withWithdrawal);
    }

    lemma EarlyIsNotFinished(ending: Ending)
      requires IsDag(pool) && EndedEarly(ending)
      ensures !ending.Finished?
    {
    }

    lemma Begin(mod: Modified, withWithdrawal: set<nat>)
      requires IsDag(pool) && LoopOk(pool, inBlock, mod, {})
      ensures Progress(inBlock, 0, mod, {}, map[], withWithdrawal) && !AnyCritical(pool, inBlock - inBlock)
    {
      hide LoopOk;
      assert inBlock - inBlock == {};
    }

    lemma End(start: set<Tx>, mi: nat, mod: Modified, failed: set<Tx>, refused: map<Tx, Refusal>, withWithdrawal: set<nat>)
      requires ValidPool(pool) && Progress(start, mi, mod, failed, refused, withWithdrawal) && mi >= |pool.order| && mod == map[]
      ensures RefusalsOk(refused) && start <= inBlock && AllIncludable(includable, inBlock - start)
      ensures forall t :: t in pool.entries ==> Settled(pool, t, inBlock, withWithdrawal, refused)
    {
      hide LoopOk, AllIncludable, CachesExact, SortedByScore, Settled, SettledTo, AllRefused;
      SettledAll(pool, mi, inBlock, withWithdrawal, refused);
    }

    lemma PoolIsValid()
      requires Valid()
      ensures ValidPool(pool)
    {
    }

    lemma StopMeans(iter: Tx, claim: ModEntry)
      requires IsDag(pool) && iter in pool.entries && inBlock <= pool.entries.Keys && Verdict(iter, claim, inBlock).Stop?
      ensures claim.modFees < minFee(claim.size)
    {
    }

    lemma RefusalMeans(iter: Tx, claim: ModEntry, outcome: Outcome)
      requires IsDag(pool) && iter in pool.entries && iter !in inBlock && inBlock <= pool.entries.Keys
      requires outcome == Verdict(iter, claim, inBlock) && (outcome.NoRoom? || outcome.NotReady?) && Covers(pool, inBlock, iter, claim)
      ensures Refused(pool, iter, Refusal(inBlock, claim), inBlock, includable, nBlockMaxWeight, MAX_BLOCK_SIGOPS_COST)
    {
      hide Covers, Fits;
    }

    // The first call of UpdatePackagesForAdded, for what is in the block already.
    method UpdatePackagesForBlock() returns (mod: Modified)
      requires Valid()
      ensures LoopOk(pool, inBlock, mod, {})
    {
      NothingClosed(pool, inBlock);
      assert {} + inBlock == inBlock;
      mod := UpdatePackagesForAdded(inBlock, map[], {}, {});
      StartLoop(pool, inBlock, mod);
    }
  }
}
