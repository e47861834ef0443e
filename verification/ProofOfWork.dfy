/**
 * Difficulty retargeting (src/pow.cpp): what GetNextWorkRequired asks of the next block, and
 * what that keeps true along a whole chain.
 */
module ProofOfWork {
  import opened Powers
  import opened Limbs
  import opened ArithUint
  import opened Compact
  import opened BlockTree

  datatype Params = Params(
    powLimit: nat,
    fPowAllowMinDifficultyBlocks: bool,
    fPowNoRetargeting: bool,
    nPowTargetSpacing: int,
    nPowTargetTimespan: int,
    DrivechainHeight: int)
  {
    // DifficultyAdjustmentInterval
    function Interval(): int
      requires nPowTargetSpacing > 0
    {
      nPowTargetTimespan / nPowTargetSpacing
    }

    predicate Valid() {
      && powLimit < Modulus() && nPowTargetSpacing > 0 && 0 < 4 * nPowTargetTimespan < 0x8000_0000_0000_0000 && Interval() > 0
    }

    // What keeps the retarget product inside 256 bits and its factor inside 32.
    predicate Bounded() {
      fPowNoRetargeting || (4 * nPowTargetTimespan < B && 4 * nPowTargetTimespan * powLimit < Modulus())
    }
  }

  // The timespan, limited to a quarter and four times what is wanted.
  function Clamped(actual: int, p: Params): (r: int)
    requires p.Valid()
    ensures 0 <= p.nPowTargetTimespan / 4 <= r <= 4 * p.nPowTargetTimespan
    ensures p.nPowTargetTimespan / 4 <= actual <= 4 * p.nPowTargetTimespan ==> r == actual
    ensures (actual < p.nPowTargetTimespan / 4 ==> r == p.nPowTargetTimespan / 4) && (actual > 4 * p.nPowTargetTimespan ==> r == 4 * p.nPowTargetTimespan)
  {
    var low := if actual < p.nPowTargetTimespan / 4 then p.nPowTargetTimespan / 4 else actual;
    if low > p.nPowTargetTimespan * 4 then p.nPowTargetTimespan * 4 else low
  }

  function Min(a: nat, b: nat): nat { if a < b then a else b }

  // bnNew *= factor, where the int64_t factor selects operator*=(uint32_t).
  function Product(bits: nat, factor: nat): nat {
    ((Exact(bits) % Modulus()) * (factor % B)) % Modulus()
  }

  function Rescaled(bits: nat, factor: nat, timespan: nat): nat
    requires timespan > 0
  {
    Product(bits, factor) / timespan
  }

  // The new target as the code computes it, wrap-around included.
  function Retarget(bits: nat, height: nat, actual: int, p: Params): nat
    requires p.Valid()
  {
    if height + 1 == p.DrivechainHeight then p.powLimit
    else Min(Rescaled(bits, Clamped(actual, p), p.nPowTargetTimespan), p.powLimit)
  }

  function CalculatedBits(last: BlockIndex, firstTime: int, p: Params): nat
    requires p.Valid()
  {
    if p.fPowNoRetargeting then last.nBits
    else CompactOf(Retarget(last.nBits, last.nHeight, last.nTime - firstTime, p), false)
  }

  // CalculateNextWorkRequired
  method CalculateNextWorkRequired(last: BlockIndex, firstTime: int, p: Params) returns (bits: nat)
    requires p.Valid() && last.nBits < B
    ensures bits == CalculatedBits(last, firstTime, p) < B
  {
    if p.fPowNoRetargeting {
      return last.nBits;
    }
    hide Value, PowB, Exact, CompactOf, Modulus, Clamped, Rescaled;
    UnitValues();
    var actual := last.nTime - firstTime;
    if actual < p.nPowTargetTimespan / 4 {
      actual := p.nPowTargetTimespan / 4;
    }
    if actual > p.nPowTargetTimespan * 4 {
      actual := p.nPowTargetTimespan * 4;
    }
    ClampedIs(last.nTime - firstTime, p);
    var powLimit := new BaseUint.FromUint256(p.powLimit);
    var bnNew := Rescale(last.nBits, actual, p.nPowTargetTimespan);
    var c := bnNew.CompareTo(powLimit);
    if c > 0 {
      bnNew := new BaseUint.Copy(powLimit);
    }
    if last.nHeight + 1 == p.DrivechainHeight {
      bnNew := new BaseUint.Copy(powLimit);
    }
    bits := GetCompact(bnNew, false);
  }

  method Rescale(bits: nat, factor: nat, timespan: nat) returns (bnNew: BaseUint)
    requires bits < B && 0 < timespan < B * B
    ensures bnNew.Valid() && fresh(bnNew) && bnNew.V() == Rescaled(bits, factor, timespan)
  {
    hide Value, PowB, Exact, Modulus;
    UnitValues();
    bnNew := new BaseUint(0);
    var _, _ := SetCompact(bnNew, bits);
    bnNew.MultiplySmall(factor % B);
    var divisor := new BaseUint(timespan);
    var _ := bnNew.Divide(divisor);
  }

  lemma ClampedIs(actual: int, p: Params)
    requires p.Valid()
    ensures var low := if actual < p.nPowTargetTimespan / 4 then p.nPowTargetTimespan / 4 else actual;
            Clamped(actual, p) == if low > p.nPowTargetTimespan * 4 then p.nPowTargetTimespan * 4 else low
  {
  }

  // ---------- the next block ----------

  predicate PeriodStart(h: nat, interval: int)
    requires interval > 0
  {
    h % interval == 0
  }

  lemma StartAtZero(interval: int)
    requires interval > 0
    ensures PeriodStart(0, interval)
  {
    ModUnique(0, 0, 0, interval);
  }

  lemma WalkNext(b: BlockIndex, k: nat)
    requires b.pprev != null && k > 0
    ensures Walk(b, k) == Walk(b.pprev, k - 1)
  {
  }

  // The testnet walk: back over min-difficulty blocks, no further than the last retarget.
  function LastNormalBits(b: BlockIndex, n: nat, limit: nat, interval: int): nat
    requires interval > 0
    decreases n
  {
    if n > 0 && b.pprev != null && !PeriodStart(n, interval) && b.nBits == limit
    then LastNormalBits(b.pprev, n - 1, limit, interval)
    else b.nBits
  }

  // The first block of the period that ends with this one.
  function FirstTime(last: BlockIndex, p: Params): int
    requires p.Valid()
  {
    var first := Ancestor(last, last.nHeight - (p.Interval() - 1));
    if first == null then 0 else first.nTime
  }

  function NextBits(last: BlockIndex, blockTime: int, p: Params): nat
    requires p.Valid()
  {
    var limit := CompactOf(p.powLimit, false);
    if (last.nHeight + 1) % p.Interval() == 0 then CalculatedBits(last, FirstTime(last, p), p)
    else if !p.fPowAllowMinDifficultyBlocks then last.nBits
    else if blockTime > last.nTime + p.nPowTargetSpacing * 2 then limit
    else LastNormalBits(last, last.nHeight, limit, p.Interval())
  }

  // GetNextWorkRequired
  method GetNextWorkRequired(last: BlockIndex, blockTime: int, p: Params, ghost tree: set<BlockIndex>) returns (bits: nat)
    requires p.Valid() && TreeOk(tree) && last in tree && forall b <- tree :: b.nBits < B
    ensures bits == NextBits(last, blockTime, p) < B
    ensures Prescribed(last, blockTime, p, bits)
  {
    hide Value, PowB, CompactOf, CalculatedBits, TreeOk, Rooted, LastNormalBits, Ancestor, Prescribed;
    InRoot(last, tree);
    NextBitsPrescribed(last, blockTime, p);
    UnitValues();
    var powLimit := new BaseUint.FromUint256(p.powLimit);
    var limit := GetCompact(powLimit, false);
    var interval := p.Interval();
    if (last.nHeight + 1) % interval != 0 {
      if p.fPowAllowMinDifficultyBlocks {
        if blockTime > last.nTime + p.nPowTargetSpacing * 2 {
          return limit;
        }
        bits := WalkBack(last, limit, interval, tree);
        return;
      }
      return last.nBits;
    }
    var heightFirst := last.nHeight - (interval - 1);
    WholePeriod(last.nHeight, interval);
    assert heightFirst >= 0;
    var first := last.GetAncestor(heightFirst, tree);
    assert first != null;
    bits := CalculateNextWorkRequired(last, first.nTime, p);
  }

  // What the code is to ask of the block after `last`, in terms of the blocks before it.
  ghost predicate Prescribed(last: BlockIndex, blockTime: int, p: Params, bits: nat)
    requires p.Valid()
  {
    var n := p.Interval();
    var limit := CompactOf(p.powLimit, false);
    if (last.nHeight + 1) % n == 0 then
      // a period of n blocks ends with `last` and began n - 1 blocks before it
      Walk(last, n - 1) != null && bits == CalculatedBits(last, Walk(last, n - 1).nTime, p)
    else if !p.fPowAllowMinDifficultyBlocks then
      bits == last.nBits
    else if blockTime - last.nTime > 2 * p.nPowTargetSpacing then
      bits == limit
    else
      exists k :: 0 <= k <= last.nHeight && IsLastNormal(last, k, limit, n) && bits == Walk(last, k).nBits
  }

  // The k-th ancestor is the nearest that is not at the minimum difficulty or starts a period.
  ghost predicate IsLastNormal(last: BlockIndex, k: nat, limit: nat, interval: int)
    requires interval > 0
  {
    && k <= last.nHeight && Walk(last, k) != null
    && (Walk(last, k).nBits != limit || PeriodStart(last.nHeight - k, interval))
    && forall j :: 0 <= j < k ==> Walk(last, j) != null && Walk(last, j).nBits == limit && !PeriodStart(last.nHeight - j, interval)
  }

  lemma NextBitsPrescribed(last: BlockIndex, blockTime: int, p: Params)
    requires p.Valid() && Rooted(last, last.nHeight)
    ensures Prescribed(last, blockTime, p, NextBits(last, blockTime, p))
  {
    hide CalculatedBits, CompactOf, Walk, LastNormalBits, Rooted, PeriodStart;
    var n := p.Interval();
    if (last.nHeight + 1) % n == 0 {
      WholePeriod(last.nHeight, n);
      WalkUp(last, n - 1);
    } else {
      var k := LastNormalIs(last, CompactOf(p.powLimit, false), n);
    }
  }

  lemma WholePeriod(h: nat, interval: int)
    requires interval > 0 && (h + 1) % interval == 0
    ensures h + 1 >= interval
  {
    if h + 1 < interval { ModUnique(h + 1, 0, h + 1, interval); }
  }

  method WalkBack(last: BlockIndex, limit: nat, interval: int, ghost tree: set<BlockIndex>) returns (bits: nat)
    requires interval > 0 && TreeOk(tree) && last in tree && forall b <- tree :: b.nBits < B
    ensures bits == LastNormalBits(last, last.nHeight, limit, interval) < B
  {
    hide TreeOk, Rooted;
    var pindex := last;
    InRoot(pindex, tree);
    while pindex.pprev != null && !PeriodStart(pindex.nHeight, interval) && pindex.nBits == limit
      invariant pindex in tree && Rooted(pindex, pindex.nHeight)
      invariant LastNormalBits(last, last.nHeight, limit, interval) == LastNormalBits(pindex, pindex.nHeight, limit, interval)
      decreases pindex.nHeight
    {
      InRoot(pindex, tree);
      NotGenesis(pindex);
      RootedStep(pindex);
      pindex := pindex.pprev;
    }
    return pindex.nBits;
  }

  lemma NotGenesis(b: BlockIndex)
    requires Rooted(b, b.nHeight) && b.pprev != null
    ensures b.nHeight > 0
  {
  }

  // The walk ends at the nearest block that is not special, a period start, or genesis.
  lemma {:induction false} LastNormalIs(b: BlockIndex, limit: nat, interval: int) returns (k: nat)
    requires interval > 0 && Rooted(b, b.nHeight)
    ensures IsLastNormal(b, k, limit, interval) && LastNormalBits(b, b.nHeight, limit, interval) == Walk(b, k).nBits
    decreases b.nHeight
  {
    hide PeriodStart, Walk, Rooted;
    if b.nHeight > 0 && !PeriodStart(b.nHeight, interval) && b.nBits == limit {
      RootedStep(b);
      var m := LastNormalIs(b.pprev, limit, interval);
      k := m + 1;
      WalkNext(b, k);
      WalkHere(b);
      forall j | 0 <= j < k
        ensures Walk(b, j) != null && Walk(b, j).nBits == limit && !PeriodStart(b.nHeight - j, interval)
      {
        if j > 0 {
          WalkNext(b, j);
          assert !PeriodStart(b.pprev.nHeight - (j - 1), interval);
        }
      }
    } else {
      k := 0;
      StartAtZero(interval);
      WalkHere(b);
    }
  }

  // ---------- the whole chain ----------

  ghost predicate TargetOk(bits: nat, p: Params) {
    bits < B && !Negative(bits) && Exact(bits) <= p.powLimit
  }

  // Every block carries what was asked of it; genesis is within the limit.
  ghost predicate FollowsRules(b: BlockIndex, n: nat, p: Params)
    requires p.Valid()
    decreases n
  {
    if n == 0 then TargetOk(b.nBits, p)
    else b.pprev != null && b.nBits == NextBits(b.pprev, b.nTime, p) && FollowsRules(b.pprev, n - 1, p)
  }

  // The product neither wraps nor loses its factor.
  lemma NoWrap(bits: nat, factor: nat, p: Params)
    requires p.Valid() && !p.fPowNoRetargeting && p.Bounded() && Exact(bits) <= p.powLimit && factor <= 4 * p.nPowTargetTimespan
    ensures Product(bits, factor) == Exact(bits) * factor
  {
    hide Exact, Modulus;
    var t := Exact(bits);
    ModUnique(t, 0, t, Modulus());
    ModUnique(factor, 0, factor, B);
    MulMonotone(t, p.powLimit, factor);
    MulMonotone(factor, 4 * p.nPowTargetTimespan, p.powLimit);
    MulComm(p.powLimit, factor);
    ModUnique(t * factor, 0, t * factor, Modulus());
  }

  function Ratio(t: nat, f: nat, span: nat): nat
    requires span > 0
  {
    (t * f) / span
  }

  // An ordinary retarget: exact scaling, limited, rounded down; at most fourfold.
  lemma OrdinaryRetarget(last: BlockIndex, firstTime: int, p: Params)
    requires p.Valid() && p.Bounded() && TargetOk(last.nBits, p)
    requires !p.fPowNoRetargeting && last.nHeight + 1 != p.DrivechainHeight
    ensures var t := Exact(last.nBits);
            var next := Exact(CalculatedBits(last, firstTime, p));
            && next == Rounded(Min(Ratio(t, Clamped(last.nTime - firstTime, p), p.nPowTargetTimespan), p.powLimit))
            && next <= 4 * t
  {
    hide Exact, Modulus, CompactOf, Product, Clamped;
    var f := Clamped(last.nTime - firstTime, p);
    ClampedBound(last.nTime - firstTime, p);
    var t := Exact(last.nBits);
    NoWrap(last.nBits, f, p);
    var target := Min(Ratio(t, f, p.nPowTargetTimespan), p.powLimit);
    RoundedIsGreatest(target, 0);
    FourTimes(t, f, p.nPowTargetTimespan);
  }

  lemma ClampedBound(actual: int, p: Params)
    requires p.Valid()
    ensures 0 <= Clamped(actual, p) <= 4 * p.nPowTargetTimespan
  {
  }

  lemma FourTimes(t: nat, f: nat, span: nat)
    requires span > 0 && f <= 4 * span
    ensures Ratio(t, f, span) <= 4 * t
  {
    MulMonotone(f, 4 * span, t);
    MulComm(t, f);
    var q := (t * f) / span;
    assert q * span <= t * f;
    MulAssoc(t, 4, span);
    if q > 4 * t { MulMonotone(4 * t + 1, q, span); MulDistrib(span, 4 * t, 1); }
  }

  // Whatever rule applies, the next target is within the limit.
  lemma CalculatedOk(last: BlockIndex, firstTime: int, p: Params)
    requires p.Valid() && TargetOk(last.nBits, p)
    ensures TargetOk(CalculatedBits(last, firstTime, p), p)
  {
    hide Exact, Modulus, CompactOf, Rescaled, Clamped, Negative;
    if !p.fPowNoRetargeting {
      var target := Retarget(last.nBits, last.nHeight, last.nTime - firstTime, p);
      RoundOk(target, p);
    }
  }

  lemma RoundOk(target: nat, p: Params)
    requires p.Valid() && target <= p.powLimit
    ensures TargetOk(CompactOf(target, false), p)
  {
    hide Exact, CompactOf, Negative;
    CompactRoundTrip(target, false);
    RoundedIsGreatest(target, 0);
  }

  lemma {:induction false} LastNormalOk(b: BlockIndex, n: nat, p: Params, limit: nat)
    requires p.Valid() && Rooted(b, n) && AllOk(b, n, p)
    ensures TargetOk(LastNormalBits(b, n, limit, p.Interval()), p)
    decreases n
  {
    if n > 0 { LastNormalOk(b.pprev, n - 1, p, limit); }
  }

  // The targets of a block and of all its ancestors.
  ghost predicate AllOk(b: BlockIndex, n: nat, p: Params)
    decreases n
  {
    TargetOk(b.nBits, p) && (n > 0 ==> b.pprev != null && AllOk(b.pprev, n - 1, p))
  }

  // Along every chain that follows the rules no target exceeds the limit.
  lemma {:induction false} NoTargetAboveLimit(b: BlockIndex, n: nat, p: Params)
    requires p.Valid() && Rooted(b, n) && FollowsRules(b, n, p)
    ensures AllOk(b, n, p)
    decreases n
  {
    hide TargetOk, CalculatedBits, LastNormalBits, CompactOf, FirstTime;
    if n > 0 {
      var last := b.pprev;
      NoTargetAboveLimit(last, n - 1, p);
      CalculatedOk(last, FirstTime(last, p), p);
      RoundOk(p.powLimit, p);
      LastNormalOk(last, n - 1, p, CompactOf(p.powLimit, false));
    }
  }

  // Along such a chain every block carries what the blocks before it prescribe.  A retarget
  // never wraps: it scales the last target by the time the period took, from its first to its
  // last block, over the time wanted.
  lemma RetargetAlongChain(b: BlockIndex, p: Params)
    requires p.Valid() && Rooted(b, b.nHeight) && b.nHeight > 0 && FollowsRules(b, b.nHeight, p)
    ensures Prescribed(b.pprev, b.nTime, p, b.nBits)
    ensures b.nHeight % p.Interval() == 0 && p.fPowNoRetargeting ==> b.nBits == b.pprev.nBits
    ensures b.nHeight % p.Interval() == 0 && !p.fPowNoRetargeting && p.Bounded() ==>
              var last, first := b.pprev, Walk(b.pprev, p.Interval() - 1);
              && first != null && first.nHeight == b.nHeight - p.Interval()
              && (forall f: nat :: f <= 4 * p.nPowTargetTimespan ==> Product(last.nBits, f) == Exact(last.nBits) * f)
              && (b.nHeight == p.DrivechainHeight ==> Exact(b.nBits) == Rounded(p.powLimit))
              && (b.nHeight != p.DrivechainHeight ==>
                    && Exact(b.nBits) ==
                       Rounded(Min(Ratio(Exact(last.nBits), Clamped(last.nTime - first.nTime, p), p.nPowTargetTimespan), p.powLimit))
                    && Exact(b.nBits) <= 4 * Exact(last.nBits))
  {
    hide CompactOf, Exact, Product, Rescaled, Clamped, Prescribed, Rooted, Walk, AllOk, CalculatedBits;
    RootedStep(b);
    var last := b.pprev;
    NoTargetAboveLimit(last, b.nHeight - 1, p);
    AllOkHere(last, b.nHeight - 1, p);
    NextBitsPrescribed(last, b.nTime, p);
    if b.nHeight % p.Interval() == 0 {
      WholePeriod(last.nHeight, p.Interval());
      WalkUp(last, p.Interval() - 1);
      RetargetHere(b, last, FirstTime(last, p), p);
    }
  }

  lemma AllOkHere(b: BlockIndex, n: nat, p: Params)
    requires AllOk(b, n, p)
    ensures TargetOk(b.nBits, p)
  {
  }

  lemma RetargetHere(b: BlockIndex, last: BlockIndex, firstTime: int, p: Params)
    requires p.Valid() && b.nHeight == last.nHeight + 1 && TargetOk(last.nBits, p) && b.nBits == CalculatedBits(last, firstTime, p)
    ensures p.fPowNoRetargeting ==> b.nBits == last.nBits
    ensures !p.fPowNoRetargeting && p.Bounded() ==>
              && (forall f: nat :: f <= 4 * p.nPowTargetTimespan ==> Product(last.nBits, f) == Exact(last.nBits) * f)
              && (b.nHeight == p.DrivechainHeight ==> Exact(b.nBits) == Rounded(p.powLimit))
              && (b.nHeight != p.DrivechainHeight ==>
                    && Exact(b.nBits) ==
                       Rounded(Min(Ratio(Exact(last.nBits), Clamped(last.nTime - firstTime, p), p.nPowTargetTimespan), p.powLimit))
                    && Exact(b.nBits) <= 4 * Exact(last.nBits))
  {
    hide CompactOf, Exact, Product, Rescaled, Clamped;
    if !p.fPowNoRetargeting && p.Bounded() {
      forall f: nat | f <= 4 * p.nPowTargetTimespan
        ensures Product(last.nBits, f) == Exact(last.nBits) * f
      {
        NoWrap(last.nBits, f, p);
      }
      if b.nHeight != p.DrivechainHeight { OrdinaryRetarget(last, firstTime, p); }
    }
  }
}
