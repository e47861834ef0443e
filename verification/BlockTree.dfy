/**
 * The tree of block index entries (CBlockIndex in src/chain.h and src/chain.cpp): parent
 * links, and skip links that let GetAncestor jump.
 */
module BlockTree {
  class BlockIndex {
    const pprev: BlockIndex?
    const nHeight: nat
    const hash: int
    const nBits: nat
    const nTime: int
    var pskip: BlockIndex?

    constructor (pprev: BlockIndex?, hash: int, nBits: nat, nTime: int)
      ensures this.pprev == pprev && this.hash == hash && this.nBits == nBits && this.nTime == nTime
      ensures nHeight == (if pprev == null then 0 else pprev.nHeight + 1) && pskip == null
    {
      this.pprev, this.hash, this.nBits, this.nTime := pprev, hash, nBits, nTime;
      nHeight := if pprev == null then 0 else pprev.nHeight + 1;
      pskip := null;
    }

    // CBlockIndex::GetAncestor: the block the parent walk would reach.
    method GetAncestor(height: int, ghost tree: set<BlockIndex>) returns (r: BlockIndex?)
      requires TreeOk(tree) && this in tree
      ensures r == Ancestor(this, height)
      ensures r != null <==> 0 <= height <= nHeight
      ensures r != null ==> r in tree && r.nHeight == height
    {
      hide TreeOk, Walk, Rooted, SkipHeight;
      if height > nHeight || height < 0 {
        return null;
      }
      WalkHere(this);
      var pindexWalk := this;
      var heightWalk := nHeight;
      while heightWalk > height
        invariant height <= heightWalk <= nHeight && pindexWalk in tree
        invariant pindexWalk == Walk(this, nHeight - heightWalk) && pindexWalk.nHeight == heightWalk
      {
        JumpFacts(this, pindexWalk, tree);
        var heightSkip := SkipHeight(heightWalk);
        var heightSkipPrev := SkipHeight(heightWalk - 1);
        if pindexWalk.pskip != null && (heightSkip == height || (heightSkip > height && !(heightSkipPrev < heightSkip - 2 && heightSkipPrev >= height))) {
          pindexWalk := pindexWalk.pskip;
          heightWalk := heightSkip;
        } else {
          assert pindexWalk.pprev != null;
          pindexWalk := pindexWalk.pprev;
          heightWalk := heightWalk - 1;
        }
      }
      return pindexWalk;
    }

    // CBlockIndex::BuildSkip: a block joins the tree.
    method BuildSkip(ghost tree: set<BlockIndex>)
      requires TreeOk(tree) && nHeight == (if pprev == null then 0 else pprev.nHeight + 1)
      requires if pprev == null then pskip == null else pprev in tree
      modifies `pskip
      ensures TreeOk(tree + {this})
      ensures pprev != null ==> pskip == Ancestor(this, SkipHeight(nHeight))
    {
      hide Walk, Rooted, SkipHeight;
      RootedJoin(this);
      if pprev != null {
        InRoot(pprev, tree);
        SkipBelow(nHeight);
        AncestorJoin(this, SkipHeight(nHeight));
        pskip := pprev.GetAncestor(SkipHeight(nHeight), tree);
      }
    }
  }

  // The block k parents up, if there are that many.
  function Walk(b: BlockIndex, k: nat): BlockIndex?
    decreases k
  {
    if k == 0 then b else if b.pprev == null then null else Walk(b.pprev, k - 1)
  }

  // Heights count down to a genesis block.
  predicate Rooted(b: BlockIndex, n: nat)
    decreases n
  {
    b.nHeight == n && if n == 0 then b.pprev == null else b.pprev != null && Rooted(b.pprev, n - 1)
  }

  // The ancestor at a height, by walking parents.
  function Ancestor(b: BlockIndex, height: int): BlockIndex? {
    if 0 <= height <= b.nHeight then Walk(b, b.nHeight - height) else null
  }

  predicate IsAncestor(a: BlockIndex, b: BlockIndex) {
    a.nHeight <= b.nHeight && Walk(b, b.nHeight - a.nHeight) == a
  }

  // Every skip link is unset or points at the ancestor it should.
  ghost predicate TreeOk(tree: set<BlockIndex>)
    reads tree
  {
    forall b <- tree ::
      && Rooted(b, b.nHeight)
      && (b.pprev != null ==> b.pprev in tree)
      && (b.pskip != null ==> b.nHeight > 0 && b.pskip == Ancestor(b, SkipHeight(b.nHeight)))
  }

  // ---------- the parent walk ----------

  lemma WalkHere(b: BlockIndex)
    ensures Walk(b, 0) == b
  {
  }

  lemma RootedStep(b: BlockIndex)
    requires Rooted(b, b.nHeight) && b.nHeight > 0
    ensures b.pprev != null && b.pprev.nHeight == b.nHeight - 1 && Rooted(b.pprev, b.pprev.nHeight)
  {
  }

  lemma RootedJoin(b: BlockIndex)
    requires b.nHeight == if b.pprev == null then 0 else b.pprev.nHeight + 1
    ensures (b.pprev == null || Rooted(b.pprev, b.pprev.nHeight)) ==> Rooted(b, b.nHeight)
  {
  }

  lemma InRoot(b: BlockIndex, tree: set<BlockIndex>)
    requires TreeOk(tree) && b in tree
    ensures Rooted(b, b.nHeight) && (b.pprev != null ==> b.pprev in tree)
    ensures b.pskip != null ==> b.nHeight > 0 && b.pskip == Ancestor(b, SkipHeight(b.nHeight))
  {
  }

  lemma AncestorJoin(b: BlockIndex, h: nat)
    requires b.pprev != null && b.nHeight == b.pprev.nHeight + 1 && h < b.nHeight
    ensures Ancestor(b, h) == Ancestor(b.pprev, h)
  {
  }

  // From a block on the walk, the parent and the skip link both stay on it.
  lemma JumpFacts(start: BlockIndex, b: BlockIndex, tree: set<BlockIndex>)
    requires TreeOk(tree) && start in tree && b in tree && 0 < b.nHeight <= start.nHeight
    requires b == Walk(start, start.nHeight - b.nHeight)
    ensures b.pprev != null && b.pprev in tree && b.pprev.nHeight == b.nHeight - 1
    ensures b.pprev == Walk(start, start.nHeight - b.nHeight + 1)
    ensures 0 <= SkipHeight(b.nHeight) < b.nHeight
    ensures b.pskip != null ==>
              && b.pskip in tree && b.pskip.nHeight == SkipHeight(b.nHeight)
              && b.pskip == Walk(start, start.nHeight - SkipHeight(b.nHeight))
  {
    hide TreeOk, Walk, Rooted, SkipHeight;
    InRoot(b, tree);
    RootedStep(b);
    WalkOne(b);
    WalkAdd(start, start.nHeight - b.nHeight, 1);
    SkipBelow(b.nHeight);
    var k := b.nHeight - SkipHeight(b.nHeight);
    WalkUp(b, k);
    WalkAdd(start, start.nHeight - b.nHeight, k);
    InTree(b, k, tree);
  }

  lemma WalkOne(b: BlockIndex)
    ensures Walk(b, 1) == b.pprev
  {
    if b.pprev != null {
      assert Walk(b.pprev, 0) == b.pprev;
    }
  }

  lemma {:induction false} WalkAdd(b: BlockIndex, i: nat, j: nat)
    requires Walk(b, i) != null
    ensures Walk(Walk(b, i), j) == Walk(b, i + j)
    decreases i
  {
    if i > 0 { WalkAdd(b.pprev, i - 1, j); }
  }

  lemma {:induction false} WalkUp(b: BlockIndex, k: nat)
    requires Rooted(b, b.nHeight) && k <= b.nHeight
    ensures Walk(b, k) != null && Rooted(Walk(b, k), b.nHeight - k) && Walk(b, k).nHeight == b.nHeight - k
    decreases k
  {
    if k > 0 { WalkUp(b.pprev, k - 1); }
  }

  lemma {:induction false} InTree(b: BlockIndex, k: nat, tree: set<BlockIndex>)
    requires TreeOk(tree) && b in tree && k <= b.nHeight
    ensures Walk(b, k) in tree
    decreases k
  {
    if k > 0 {
      RootedStep(b);
      InTree(b.pprev, k - 1, tree);
    }
  }

  // Ancestors of ancestors, and two ancestors of one block.
  lemma AncestorTrans(a: BlockIndex, b: BlockIndex, c: BlockIndex)
    requires Rooted(c, c.nHeight) && IsAncestor(b, c)
    ensures IsAncestor(a, b) ==> IsAncestor(a, c)
    ensures IsAncestor(a, c) && a.nHeight <= b.nHeight ==> IsAncestor(a, b)
  {
    if a.nHeight <= b.nHeight {
      WalkAdd(c, c.nHeight - b.nHeight, b.nHeight - a.nHeight);
    }
  }

  // ---------- the skip heights ----------

  // x & y
  function BitAnd(x: nat, y: nat): nat
    decreases x
  {
    if x == 0 then 0
    else 2 * BitAnd(x / 2, y / 2) + (if x % 2 == 1 && y % 2 == 1 then 1 else 0)
  }

  // n & (n - 1), which is 0 for 0
  function InvertLowestOne(n: nat): nat {
    if n == 0 then 0 else BitAnd(n, n - 1)
  }

  function SkipHeight(height: nat): nat {
    if height < 2 then 0
    else if height % 2 == 1 then InvertLowestOne(InvertLowestOne(height - 1)) + 1
    else InvertLowestOne(height)
  }

  // The lowest set bit.
  function LowestOne(n: nat): (b: nat)
    requires n > 0
    ensures 0 < b <= n
  {
    if n % 2 == 1 then 1 else 2 * LowestOne(n / 2)
  }

  lemma {:induction false} AndSelf(n: nat)
    ensures BitAnd(n, n) == n
  {
    if n > 0 { AndSelf(n / 2); }
  }

  // n & (n - 1) takes the lowest set bit away.
  lemma {:induction false} InvertLowestOneIs(n: nat)
    requires n > 0
    ensures InvertLowestOne(n) == n - LowestOne(n)
  {
    if n % 2 == 1 {
      AndSelf(n / 2);
      assert (n - 1) / 2 == n / 2;
    } else {
      InvertLowestOneIs(n / 2);
      assert (n - 1) / 2 == n / 2 - 1 && (n - 1) % 2 == 1;
    }
  }

  // n without its lowest set bit.
  function Cleared(n: nat): nat {
    if n == 0 then 0 else n - LowestOne(n)
  }

  // From an even height the link clears the lowest set bit; from an odd one it keeps the last
  // bit and clears the next two.
  lemma SkipHeightIs(height: nat)
    requires height >= 2
    ensures height % 2 == 0 ==> SkipHeight(height) == Cleared(height)
    ensures height % 2 == 1 ==> SkipHeight(height) == Cleared(Cleared(height - 1)) + 1
  {
    hide InvertLowestOne, LowestOne;
    if height % 2 == 0 {
      InvertLowestOneIs(height);
    } else {
      InvertLowestOneIs(height - 1);
      if InvertLowestOne(height - 1) > 0 { InvertLowestOneIs(InvertLowestOne(height - 1)); } else { NothingToInvert(); }
    }
  }

  lemma NothingToInvert()
    ensures InvertLowestOne(0) == 0
  {
  }

  // A skip link always goes down.
  lemma SkipBelow(height: nat)
    ensures height > 0 ==> SkipHeight(height) < height
  {
    if height >= 2 {
      if height % 2 == 1 {
        InvertLowestOneIs(height - 1);
        if InvertLowestOne(height - 1) > 0 { InvertLowestOneIs(InvertLowestOne(height - 1)); }
      } else {
        InvertLowestOneIs(height);
      }
    }
  }
}
