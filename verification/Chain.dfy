/**
 * An indexed chain of blocks (CChain in src/chain.h and src/chain.cpp), common ancestors and
 * block locators.
 */
module Chain {
  import opened Powers
  import opened Limbs
  import opened BlockTree

  // LastCommonAncestor: the highest block both have behind them, null if they have none.
  method LastCommonAncestor(a: BlockIndex, b: BlockIndex, ghost tree: set<BlockIndex>) returns (r: BlockIndex?)
    requires TreeOk(tree) && a in tree && b in tree
    ensures r != null ==> r in tree && IsAncestor(r, a) && IsAncestor(r, b)
    ensures forall x <- tree :: IsAncestor(x, a) && IsAncestor(x, b) ==> r != null && IsAncestor(x, r)
  {
    hide TreeOk, Walk, Rooted, IsAncestor;
    InRoot(a, tree);
    InRoot(b, tree);
    var pa: BlockIndex?, pb: BlockIndex? := a, b;
    if pa.nHeight > pb.nHeight {
      pa := pa.GetAncestor(pb.nHeight, tree);
    } else if pb.nHeight > pa.nHeight {
      pb := pb.GetAncestor(pa.nHeight, tree);
    }
    WalkHere(a);
    WalkHere(b);
    // the height both stand at, -1 when both have run out of blocks
    ghost var h: int := if a.nHeight < b.nHeight then a.nHeight else b.nHeight;
    while pa != pb && pa != null && pb != null
      invariant -1 <= h <= a.nHeight && h <= b.nHeight
      invariant pa == Ancestor(a, h) && pb == Ancestor(b, h)
      invariant forall k :: h < k && k <= a.nHeight && k <= b.nHeight ==> Ancestor(a, k) != Ancestor(b, k)
      decreases h
    {
      Descend(a, h);
      Descend(b, h);
      pa := pa.pprev;
      pb := pb.pprev;
      h := h - 1;
    }
    Present(a, h);
    Present(b, h);
    assert pa == pb;
    r := pa;
    forall x <- tree | IsAncestor(x, a) && IsAncestor(x, b)
      ensures r != null && IsAncestor(x, r)
    {
      AncestorIs(x, a);
      AncestorIs(x, b);
      if r != null { AncestorTrans(x, r, a); }
    }
    if r != null {
      AncestorIs(r, a);
      AncestorIs(r, b);
      InTree(a, a.nHeight - h, tree);
    }
  }

  // One parent further down.
  lemma Descend(a: BlockIndex, h: int)
    requires Rooted(a, a.nHeight) && 0 <= h <= a.nHeight
    ensures Ancestor(a, h) != null && Ancestor(a, h).pprev == Ancestor(a, h - 1)
  {
    WalkUp(a, a.nHeight - h);
    var x := Walk(a, a.nHeight - h);
    if h > 0 {
      WalkOne(x);
      WalkAdd(a, a.nHeight - h, 1);
    }
  }

  lemma Present(a: BlockIndex, h: int)
    requires Rooted(a, a.nHeight) && -1 <= h <= a.nHeight
    ensures Ancestor(a, h) != null <==> h >= 0
    ensures h >= 0 ==> Ancestor(a, h).nHeight == h && IsAncestor(Ancestor(a, h), a) && Rooted(Ancestor(a, h), h)
  {
    if h >= 0 { WalkUp(a, a.nHeight - h); }
  }

  lemma AncestorIs(x: BlockIndex, a: BlockIndex)
    ensures IsAncestor(x, a) <==> x.nHeight <= a.nHeight && Ancestor(a, x.nHeight) == x
  {
  }

  // The blocks from genesis to b.
  ghost predicate IsPath(s: seq<BlockIndex?>, b: BlockIndex) {
    |s| == b.nHeight + 1 && forall i :: 0 <= i < |s| ==> s[i] == Ancestor(b, i)
  }

  lemma AncestorVia(b: BlockIndex, h: nat, i: nat)
    requires Rooted(b, b.nHeight) && i <= h <= b.nHeight
    ensures Ancestor(b, h) != null && Ancestor(b, h).nHeight == h && Ancestor(Ancestor(b, h), i) == Ancestor(b, i)
  {
    WalkUp(b, b.nHeight - h);
    WalkAdd(b, b.nHeight - h, h - i);
  }

  class BlockChain {
    var vChain: seq<BlockIndex?>

    constructor ()
      ensures Valid() && vChain == []
    {
      vChain := [];
    }

    // Empty, or the whole path to the last entry.
    ghost predicate Valid()
      reads this
    {
      vChain != [] ==> var tip := vChain[|vChain| - 1]; tip != null && Rooted(tip, tip.nHeight) && IsPath(vChain, tip)
    }

    function Tip(): BlockIndex?
      reads this
    {
      if |vChain| > 0 then vChain[|vChain| - 1] else null
    }

    // operator[]
    function At(height: int): BlockIndex?
      reads this
    {
      if height < 0 || height >= |vChain| then null else vChain[height]
    }

    function Height(): int
      reads this
    {
      |vChain| - 1
    }

    predicate Contains(p: BlockIndex)
      reads this
    {
      At(p.nHeight) == p
    }

    function Next(p: BlockIndex): BlockIndex?
      reads this
    {
      if Contains(p) then At(p.nHeight + 1) else null
    }

    // One comparison decides membership of the tip's ancestors.
    lemma ContainsIffAncestor(p: BlockIndex)
      requires Valid()
      ensures Contains(p) <==> Tip() != null && IsAncestor(p, Tip())
    {
      if vChain != [] { AncestorIs(p, Tip()); }
    }

    // Next is the child on the chain, missing only at the tip.
    lemma NextIsChild(p: BlockIndex)
      requires Valid() && Contains(p)
      ensures Next(p) == null <==> p == Tip()
      ensures Next(p) != null ==> Contains(Next(p)) && Next(p).pprev == p
    {
      var tip := Tip();
      Present(tip, p.nHeight);
      WalkHere(tip);
      if p.nHeight < tip.nHeight {
        Descend(tip, p.nHeight + 1);
        Present(tip, p.nHeight + 1);
      }
    }

    // SetTip: rewrites the entries down to the first that already agrees.
    method SetTip(pindex: BlockIndex?)
      requires Valid() && (pindex != null ==> Rooted(pindex, pindex.nHeight))
      modifies this
      ensures Valid() && Tip() == pindex
      ensures if pindex == null then vChain == [] else IsPath(vChain, pindex)
    {
      if pindex == null {
        vChain := [];
        return;
      }
      hide Walk, Rooted, IsAncestor, Ancestor;
      ghost var was := vChain;
      Resize(pindex.nHeight + 1);
      ghost var resized := vChain;
      var cur: BlockIndex? := pindex;
      ghost var h: int := pindex.nHeight;
      AncestorHere(pindex);
      while cur != null && vChain[cur.nHeight] != cur
        invariant |vChain| == pindex.nHeight + 1 && -1 <= h <= pindex.nHeight
        invariant cur == Ancestor(pindex, h) && (cur != null ==> cur.nHeight == h) && (cur == null ==> h == -1)
        invariant forall i :: h < i < |vChain| ==> vChain[i] == Ancestor(pindex, i)
        invariant forall i :: 0 <= i <= h ==> vChain[i] == resized[i]
        decreases h
      {
        vChain := vChain[cur.nHeight := cur];
        Descend(pindex, h);
        cur := cur.pprev;
        h := h - 1;
        Present(pindex, h);
      }
      if cur != null {
        Agree(was, cur, pindex);
      }
      AncestorHere(pindex);
    }

    // The entries below a shared one are shared.
    static lemma Agree(was: seq<BlockIndex?>, cur: BlockIndex, pindex: BlockIndex)
      requires Rooted(pindex, pindex.nHeight) && cur.nHeight <= pindex.nHeight && cur == Ancestor(pindex, cur.nHeight)
      requires cur.nHeight < |was| && was[cur.nHeight] == cur
      requires var tip := was[|was| - 1]; tip != null && Rooted(tip, tip.nHeight) && IsPath(was, tip)
      ensures forall i :: 0 <= i <= cur.nHeight ==> was[i] == Ancestor(pindex, i)
    {
      hide Walk, Rooted, Ancestor;
      var tip := was[|was| - 1];
      forall i | 0 <= i <= cur.nHeight
        ensures was[i] == Ancestor(pindex, i)
      {
        AncestorVia(pindex, cur.nHeight, i);
        AncestorVia(tip, cur.nHeight, i);
      }
    }

    // vChain.resize(n): new entries are null.
    method Resize(n: nat)
      modifies this
      ensures |vChain| == n
      ensures forall i :: 0 <= i < n ==> vChain[i] == if i < |old(vChain)| then old(vChain)[i] else null
    {
      vChain := if n <= |vChain| then vChain[..n] else vChain + seq(n - |vChain|, _ => null);
    }

    // No ancestor of b above height h is on the chain.
    ghost predicate NoneAbove(b: BlockIndex, h: int)
      reads this
    {
      forall k :: h < k <= b.nHeight ==> Ancestor(b, k) == null || !Contains(Ancestor(b, k))
    }

    lemma AboveChain(b: BlockIndex)
      requires Rooted(b, b.nHeight)
      ensures NoneAbove(b, Height()) && NoneAbove(b, b.nHeight)
    {
      forall k | Height() < k <= b.nHeight
        ensures Ancestor(b, k) == null || !Contains(Ancestor(b, k))
      {
        Present(b, k);
      }
    }

    lemma NotHere(b: BlockIndex, h: nat)
      requires NoneAbove(b, h) && h <= b.nHeight && Ancestor(b, h) != null && !Contains(Ancestor(b, h))
      ensures NoneAbove(b, h - 1)
    {
    }

    // Once nothing above is on the chain, what is found is the highest.
    lemma HighestShared(b: BlockIndex, h: int, x: BlockIndex)
      requires Rooted(b, b.nHeight) && -1 <= h <= b.nHeight && NoneAbove(b, h) && IsAncestor(x, b) && Contains(x)
      ensures Ancestor(b, h) != null && IsAncestor(x, Ancestor(b, h))
    {
      hide Walk, Rooted, IsAncestor, Ancestor;
      AncestorIs(x, b);
      assert x.nHeight <= h;
      Present(b, h);
      AncestorTrans(x, Ancestor(b, h), b);
    }

    // FindFork: the highest ancestor of a block that lies on this chain.
    method FindFork(start: BlockIndex?, ghost tree: set<BlockIndex>) returns (r: BlockIndex?)
      requires Valid() && TreeOk(tree) && (start != null ==> start in tree)
      ensures start == null ==> r == null
      ensures start != null && r != null ==> IsAncestor(r, start) && Contains(r)
      ensures start != null ==> forall x <- tree :: IsAncestor(x, start) && Contains(x) ==> r != null && IsAncestor(x, r)
    {
      hide TreeOk, Walk, Rooted, IsAncestor, Valid, Ancestor, NoneAbove;
      if start == null {
        return null;
      }
      InRoot(start, tree);
      AncestorHere(start);
      AboveChain(start);
      var pindex: BlockIndex? := start;
      ghost var h: int := start.nHeight;
      if pindex.nHeight > Height() {
        pindex := pindex.GetAncestor(Height(), tree);
        h := Height();
      }
      while pindex != null && !Contains(pindex)
        invariant -1 <= h <= start.nHeight && pindex == Ancestor(start, h)
        invariant (pindex != null ==> pindex.nHeight == h) && NoneAbove(start, h)
        decreases h
      {
        Present(start, h);
        NotHere(start, h);
        Descend(start, h);
        pindex := pindex.pprev;
        h := h - 1;
        Present(start, h);
      }
      r := pindex;
      Present(start, h);
      forall x <- tree | IsAncestor(x, start) && Contains(x)
        ensures r != null && IsAncestor(x, r)
      {
        HighestShared(start, h, x);
      }
    }

    // GetLocator: hashes from the given block (or the tip) down to genesis.
    method GetLocator(pindex: BlockIndex?, ghost tree: set<BlockIndex>) returns (vHave: seq<int>)
      requires Valid() && TreeOk(tree) && (Tip() != null ==> Tip() in tree) && (pindex != null ==> pindex in tree)
      ensures var start := if pindex == null then Tip() else pindex;
              if start == null then vHave == [] else IsLocator(vHave, start, Heights(start.nHeight, 1, 0))
    {
      hide TreeOk, Walk, Rooted, IsAncestor, Valid, Ancestor, Heights;
      var nStep := 1;
      vHave := [];
      var cur := pindex;
      if cur == null {
        cur := Tip();
      }
      if cur == null {
        return;
      }
      ghost var start := cur;
      ghost var done: seq<nat> := [];
      InRoot(start, tree);
      AncestorHere(start);
      assert Heights(start.nHeight, 1, 0) == done + Heights(cur.nHeight, nStep, 0);
      while true
        invariant cur != null && cur in tree && cur == Ancestor(start, cur.nHeight) && cur.nHeight <= start.nHeight
        invariant nStep > 0 && |done| == |vHave|
        invariant Heights(start.nHeight, 1, 0) == done + Heights(cur.nHeight, nStep, |vHave|)
        invariant IsLocator(vHave, start, done)
        // nStep stays in a 32-bit int for heights below 2^30
        invariant nStep == 1 ==> cur.nHeight == 0 || cur.nHeight + |vHave| <= start.nHeight
        invariant nStep > 1 ==> nStep <= 2 * start.nHeight && (cur.nHeight == 0 || nStep + cur.nHeight <= start.nHeight)
        decreases cur.nHeight
      {
        HeightsStep(cur.nHeight, nStep, |vHave|);
        Listed(vHave, start, done, cur);
        ghost var before := done;
        vHave := vHave + [cur.hash];
        done := done + [cur.nHeight];
        if cur.nHeight == 0 {
          assert Heights(start.nHeight, 1, 0) == done;
          return;
        }
        var nHeight := Back(cur.nHeight, nStep);
        assert Heights(start.nHeight, 1, 0) == done + Heights(nHeight, if |vHave| > 10 then 2 * nStep else nStep, |vHave|);
        AncestorVia(start, cur.nHeight, nHeight);
        InTree(start, start.nHeight - nHeight, tree);
        AncestorIn(start, nHeight);
        Present(start, nHeight);
        if Contains(cur) {
          OnChain(cur, nHeight);
          cur := At(nHeight);
        } else {
          cur := cur.GetAncestor(nHeight, tree);
        }
        if |vHave| > 10 {
          nStep := nStep * 2;
        }
      }
    }

    // The chain index and the skip links agree below a block of the chain.
    lemma OnChain(b: BlockIndex, h: nat)
      requires Valid() && Contains(b) && h <= b.nHeight
      ensures At(h) == Ancestor(b, h)
    {
      AncestorVia(Tip(), b.nHeight, h);
    }
  }

  // Entry i is the hash of the ancestor at height hs[i].
  ghost predicate IsLocator(have: seq<int>, start: BlockIndex, hs: seq<nat>) {
    |have| == |hs| && forall i :: 0 <= i < |hs| ==> Ancestor(start, hs[i]) != null && have[i] == Ancestor(start, hs[i]).hash
  }

  lemma Listed(have: seq<int>, start: BlockIndex, hs: seq<nat>, cur: BlockIndex)
    requires IsLocator(have, start, hs) && cur == Ancestor(start, cur.nHeight)
    ensures IsLocator(have + [cur.hash], start, hs + [cur.nHeight])
  {
  }

  lemma HeightsStep(h: nat, step: nat, count: nat)
    requires step > 0
    ensures Heights(h, step, count) == [h] + if h == 0 then [] else Heights(Back(h, step), if count + 1 > 10 then 2 * step else step, count + 1)
  {
  }

  lemma AncestorIn(b: BlockIndex, h: nat)
    requires h <= b.nHeight
    ensures Ancestor(b, h) == Walk(b, b.nHeight - h)
  {
  }

  lemma AncestorHere(b: BlockIndex)
    ensures Ancestor(b, b.nHeight) == b
  {
  }

  // ---------- locators ----------

  // The step back from the entry with this index: ten single steps, then doubling.
  function StepAt(count: nat): nat {
    if count <= 10 then 1 else Pow2(count - 10)
  }

  function Back(h: nat, step: nat): nat {
    if h > step then h - step else 0
  }

  // The heights GetLocator visits from height h on, when count entries are already listed.
  function Heights(h: nat, step: nat, count: nat): seq<nat>
    requires step > 0
    decreases h
  {
    [h] + if h == 0 then [] else Heights(Back(h, step), if count + 1 > 10 then 2 * step else step, count + 1)
  }

  lemma StepNext(count: nat)
    ensures StepAt(count) > 0
    ensures StepAt(count + 1) == if count + 1 > 10 then 2 * StepAt(count) else StepAt(count)
  {
    if count >= 10 {
      PowPositive(2, count - 10);
      assert Pow(2, count - 9) == 2 * Pow(2, count - 10) && Pow(2, 0) == 1;
    }
  }

  // Strictly down, each entry by its own step.
  ghost predicate Descends(s: seq<nat>, count: nat) {
    forall i :: 0 <= i < |s| - 1 ==> s[i] > s[i + 1] == Back(s[i], StepAt(count + i))
  }

  lemma DescendsPrepend(h: nat, t: seq<nat>, count: nat)
    requires |t| > 0 && h > t[0] == Back(h, StepAt(count)) && Descends(t, count + 1)
    ensures Descends([h] + t, count)
  {
    hide StepAt, Back;
    var s := [h] + t;
    forall i | 0 <= i < |s| - 1
      ensures s[i] > s[i + 1] == Back(s[i], StepAt(count + i))
    {
      if i > 0 {
        assert t[i - 1] > t[i] == Back(t[i - 1], StepAt(count + 1 + (i - 1)));
        assert count + 1 + (i - 1) == count + i;
      }
    }
  }

  // From h to genesis.
  lemma {:induction false} HeightsShape(h: nat, count: nat)
    ensures StepAt(count) > 0
    ensures var s := Heights(h, StepAt(count), count);
            |s| > 0 && s[0] == h && s[|s| - 1] == 0 && Descends(s, count)
    decreases h
  {
    hide StepAt, Heights, Descends;
    StepNext(count);
    HeightsStep(h, StepAt(count), count);
    if h > 0 {
      var g := Back(h, StepAt(count));
      HeightsShape(g, count + 1);
      DescendsPrepend(h, Heights(g, StepAt(count + 1), count + 1), count);
    } else {
      assert Heights(h, StepAt(count), count) == [0];
      DescendsOne(count);
    }
  }

  lemma DescendsOne(count: nat)
    ensures Descends([0], count)
  {
  }

  // Doubling steps of s reach zero from s * (2^k - 1) in k steps.
  lemma {:induction false} DoublingLength(h: nat, step: nat, count: nat, k: nat)
    requires step > 0 && count >= 10 && Pow2(k) > 0 && h <= step * (Pow2(k) - 1)
    ensures |Heights(h, step, count)| <= 1 + k
    decreases h
  {
    if h > 0 {
      assert k == 0 ==> Pow2(k) == 1;
      PowPositive(2, k - 1);
      var p := Pow2(k - 1);
      assert Pow2(k) == 2 * p;
      assert step * (2 * p - 1) == step + (2 * step) * (p - 1) by {
        MulDistrib(step, 2 * (p - 1), 1);
        MulAssoc(step, 2, p - 1);
      }
      assert Back(h, step) <= (2 * step) * (p - 1);
      DoublingLength(Back(h, step), 2 * step, count + 1, k - 1);
    }
  }

  lemma {:induction false} SingleLength(h: nat, count: nat, k: nat)
    requires count <= 10 && Pow2(k) > 0 && h <= 10 - count + Pow2(k) - 1
    ensures |Heights(h, 1, count)| <= 11 - count + k
    decreases h
  {
    if count == 10 {
      DoublingLength(h, 1, 10, k);
    } else if h > 0 {
      SingleLength(h - 1, count + 1, k);
    }
  }

  function Log2(n: nat): nat
    requires n > 0
  {
    if n == 1 then 0 else 1 + Log2(n / 2)
  }

  lemma {:induction false} Log2Bounds(n: nat)
    requires n > 0
    ensures Pow2(Log2(n)) <= n < Pow2(Log2(n) + 1)
  {
    if n > 1 { Log2Bounds(n / 2); }
  }

  // A locator has at most 12 + log2(height) entries.
  lemma LocatorLength(h: nat)
    ensures |Heights(h, 1, 0)| <= if h == 0 then 1 else 12 + Log2(h)
  {
    if h > 0 {
      Log2Bounds(h);
      SingleLength(h, 0, Log2(h) + 1);
    }
  }

  // nStep never passes twice the starting height, so it fits an int for heights below 2^30.
  lemma {:induction false} StepsFit(start: nat, h: nat, count: nat, i: nat)
    requires h <= start && (h == 0 || (count <= 10 && h + count <= start) || StepAt(count) + h <= start)
    requires StepAt(count) > 0 && i < |Heights(h, StepAt(count), count)|
    requires StepAt(count) <= 1 || StepAt(count) <= 2 * start
    ensures StepAt(count + i) <= 1 || StepAt(count + i) <= 2 * start
    decreases h
  {
    if i > 0 {
      StepNext(count);
      StepsFit(start, Back(h, StepAt(count)), count + 1, i - 1);
      assert count + i == count + 1 + (i - 1);
    }
  }
}
