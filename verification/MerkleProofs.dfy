/**
 * What a partial Merkle tree is, apart from how it is read: a tree that stops at some nodes,
 * written out in pre-order.  ExtractMatches (src/merkleblock.cpp) answers exactly for the bits
 * and hashes that write out such a tree.
 */
module MerkleProofs {
  import opened Powers
  import opened MerkleTree

  // A node whose hash is given, an inner node without a right child, and one with both.
  datatype Proof = Stop(hash: Hash, flag: bool) | One(left: Proof) | Two(left: Proof, right: Proof)

  function BitsOf(p: Proof): seq<bool> {
    match p
    case Stop(_, flag) => [flag]
    case One(l) => [true] + BitsOf(l)
    case Two(l, r) => [true] + (BitsOf(l) + BitsOf(r))
  }

  function HashesOf(p: Proof): seq<Hash> {
    match p
    case Stop(hash, _) => [hash]
    case One(l) => HashesOf(l)
    case Two(l, r) => HashesOf(l) + HashesOf(r)
  }

  function RootOf(pair: Pairing, p: Proof): Hash {
    match p
    case Stop(hash, _) => hash
    case One(l) => pair(RootOf(pair, l), RootOf(pair, l))
    case Two(l, r) => pair(RootOf(pair, l), RootOf(pair, r))
  }

  // The flagged leaves, from left to right.
  function LeavesOf(p: Proof, h: nat, pos: nat): seq<Leaf> {
    match p
    case Stop(hash, flag) => if h == 0 && flag then [Leaf(hash, pos)] else []
    case One(l) => if h == 0 then [] else LeavesOf(l, h - 1, 2 * pos)
    case Two(l, r) => if h == 0 then [] else LeavesOf(l, h - 1, 2 * pos) + LeavesOf(r, h - 1, 2 * pos + 1)
  }

  // The tree has the shape of the node at this place in a tree over n leaves, and no two
  // siblings have the same hash.
  predicate Fits(pair: Pairing, p: Proof, n: nat, h: nat, pos: nat) {
    match p
    case Stop(_, flag) => h == 0 || !flag
    case One(l) => h > 0 && !Exists(n, h - 1, 2 * pos + 1) && Fits(pair, l, n, h - 1, 2 * pos)
    case Two(l, r) =>
      && h > 0 && Exists(n, h - 1, 2 * pos + 1) && RootOf(pair, l) != RootOf(pair, r)
      && Fits(pair, l, n, h - 1, 2 * pos) && Fits(pair, r, n, h - 1, 2 * pos + 1)
  }

  // ---------- reading ----------

  // The tree is what is written at these places.
  predicate WrittenAt(p: Proof, bits: seq<bool>, hashes: seq<Hash>, nb: nat, nh: nat) {
    At(bits, nb, BitsOf(p)) && At(hashes, nh, HashesOf(p))
  }

  function Result(pair: Pairing, p: Proof, h: nat, pos: nat, nb: nat, nh: nat): Reading {
    Reading(RootOf(pair, p), nb + |BitsOf(p)|, nh + |HashesOf(p)|, LeavesOf(p, h, pos), false)
  }

  lemma StopRead(pair: Pairing, p: Proof, n: nat, bits: seq<bool>, hashes: seq<Hash>, h: nat, pos: nat, nb: nat, nh: nat)
    requires p.Stop? && (h == 0 || !p.flag)
    requires WrittenAt(p, bits, hashes, nb, nh)
    ensures Extract(pair, n, bits, hashes, h, pos, nb, nh) == Result(pair, p, h, pos, nb, nh)
  {
    AtHead(bits, nb, p.flag);
    AtHead(hashes, nh, p.hash);
  }

  // A tree written anywhere in the streams is read back as itself.
  lemma {:induction false} TreeRead(pair: Pairing, p: Proof, n: nat, bits: seq<bool>, hashes: seq<Hash>, h: nat, pos: nat, nb: nat, nh: nat)
    requires Fits(pair, p, n, h, pos) && WrittenAt(p, bits, hashes, nb, nh)
    ensures Extract(pair, n, bits, hashes, h, pos, nb, nh) == Result(pair, p, h, pos, nb, nh)
  {
    hide Extract, At, Exists, Width;
    match p
    case Stop(_, _) => StopRead(pair, p, n, bits, hashes, h, pos, nb, nh);
    case One(l) =>
      AtConcat(bits, nb, [true], BitsOf(l));
      AtHead(bits, nb, true);
      TreeRead(pair, l, n, bits, hashes, h - 1, 2 * pos, nb + 1, nh);
      WidthIsExists(n, h - 1, 2 * pos + 1);
      ExtractInner(pair, n, bits, hashes, h, pos, nb, nh);
    case Two(l, r) =>
      AtConcat(bits, nb, [true], BitsOf(l) + BitsOf(r));
      AtHead(bits, nb, true);
      AtConcat(bits, nb + 1, BitsOf(l), BitsOf(r));
      AtConcat(hashes, nh, HashesOf(l), HashesOf(r));
      TreeRead(pair, l, n, bits, hashes, h - 1, 2 * pos, nb + 1, nh);
      TreeRead(pair, r, n, bits, hashes, h - 1, 2 * pos + 1, nb + 1 + |BitsOf(l)|, nh + |HashesOf(l)|);
      WidthIsExists(n, h - 1, 2 * pos + 1);
      ExtractInner(pair, n, bits, hashes, h, pos, nb, nh);
  }

  // What is read without complaint is such a tree.
  lemma {:induction false} ReadTree(pair: Pairing, n: nat, bits: seq<bool>, hashes: seq<Hash>, h: nat, pos: nat, nb: nat, nh: nat) returns (p: Proof)
    requires !Extract(pair, n, bits, hashes, h, pos, nb, nh).bad
    ensures Fits(pair, p, n, h, pos) && WrittenAt(p, bits, hashes, nb, nh)
    ensures Extract(pair, n, bits, hashes, h, pos, nb, nh) == Result(pair, p, h, pos, nb, nh)
    decreases h
  {
    hide Extract, At, Exists, Width, WrittenAt, Fits, Result;
    if h == 0 || nb >= |bits| || !bits[nb] {
      p := StopTree(pair, n, bits, hashes, h, pos, nb, nh);
    } else {
      ExtractInner(pair, n, bits, hashes, h, pos, nb, nh);
      WidthIsExists(n, h - 1, 2 * pos + 1);
      var l := ReadTree(pair, n, bits, hashes, h - 1, 2 * pos, nb + 1, nh);
      if Exists(n, h - 1, 2 * pos + 1) {
        ResultIs(pair, l, h - 1, 2 * pos, nb + 1, nh);
        var nb', nh' := nb + 1 + |BitsOf(l)|, nh + |HashesOf(l)|;
        var r := ReadTree(pair, n, bits, hashes, h - 1, 2 * pos + 1, nb', nh');
        ResultIs(pair, r, h - 1, 2 * pos + 1, nb', nh');
        p := Two(l, r);
        TwoTree(pair, l, r, n, bits, hashes, h, pos, nb, nh);
      } else {
        p := One(l);
        OneTree(pair, l, n, bits, hashes, h, pos, nb, nh);
      }
    }
  }

  lemma ResultIs(pair: Pairing, p: Proof, h: nat, pos: nat, nb: nat, nh: nat)
    ensures Result(pair, p, h, pos, nb, nh)
            == Reading(RootOf(pair, p), nb + |BitsOf(p)|, nh + |HashesOf(p)|, LeavesOf(p, h, pos), false)
  {
  }

  lemma StopTree(pair: Pairing, n: nat, bits: seq<bool>, hashes: seq<Hash>, h: nat, pos: nat, nb: nat, nh: nat) returns (p: Proof)
    requires !Extract(pair, n, bits, hashes, h, pos, nb, nh).bad && (h == 0 || nb >= |bits| || !bits[nb])
    ensures Fits(pair, p, n, h, pos) && WrittenAt(p, bits, hashes, nb, nh)
    ensures Extract(pair, n, bits, hashes, h, pos, nb, nh) == Result(pair, p, h, pos, nb, nh)
  {
    ExtractStop(pair, n, bits, hashes, h, pos, nb, nh);
    p := Stop(hashes[nh], bits[nb]);
    assert bits[nb..nb + 1] == [bits[nb]] && hashes[nh..nh + 1] == [hashes[nh]];
  }

  lemma OneTree(pair: Pairing, l: Proof, n: nat, bits: seq<bool>, hashes: seq<Hash>, h: nat, pos: nat, nb: nat, nh: nat)
    requires h > 0 && nb < |bits| && bits[nb] && !Exists(n, h - 1, 2 * pos + 1)
    requires Fits(pair, l, n, h - 1, 2 * pos) && WrittenAt(l, bits, hashes, nb + 1, nh)
    ensures Fits(pair, One(l), n, h, pos) && WrittenAt(One(l), bits, hashes, nb, nh)
    ensures Extract(pair, n, bits, hashes, h, pos, nb, nh) == Result(pair, One(l), h, pos, nb, nh)
  {
    hide Extract, Exists, Width;
    Joined(bits, nb, [true], BitsOf(l));
    TreeRead(pair, One(l), n, bits, hashes, h, pos, nb, nh);
  }

  lemma TwoTree(pair: Pairing, l: Proof, r: Proof, n: nat, bits: seq<bool>, hashes: seq<Hash>, h: nat, pos: nat, nb: nat, nh: nat)
    requires h > 0 && nb < |bits| && bits[nb] && Exists(n, h - 1, 2 * pos + 1) && RootOf(pair, l) != RootOf(pair, r)
    requires Fits(pair, l, n, h - 1, 2 * pos) && WrittenAt(l, bits, hashes, nb + 1, nh)
    requires Fits(pair, r, n, h - 1, 2 * pos + 1) && WrittenAt(r, bits, hashes, nb + 1 + |BitsOf(l)|, nh + |HashesOf(l)|)
    ensures Fits(pair, Two(l, r), n, h, pos) && WrittenAt(Two(l, r), bits, hashes, nb, nh)
    ensures Extract(pair, n, bits, hashes, h, pos, nb, nh) == Result(pair, Two(l, r), h, pos, nb, nh)
  {
    hide Extract, Exists, Width;
    Joined(bits, nb + 1, BitsOf(l), BitsOf(r));
    Joined(bits, nb, [true], BitsOf(l) + BitsOf(r));
    Joined(hashes, nh, HashesOf(l), HashesOf(r));
    TreeRead(pair, Two(l, r), n, bits, hashes, h, pos, nb, nh);
  }

  lemma Joined<T>(s: seq<T>, i: nat, a: seq<T>, b: seq<T>)
    requires i + |a| <= |s| && s[i..i + |a|] == a && At(s, i + |a|, b)
    ensures At(s, i, a + b)
  {
    assert s[i..i + |a + b|] == s[i..i + |a|] + s[i + |a|..i + |a| + |b|];
  }

  // ---------- sizes ----------

  lemma {:induction false} ProofSizes(pair: Pairing, p: Proof, n: nat, h: nat, pos: nat)
    requires Fits(pair, p, n, h, pos) && Exists(n, h, pos)
    ensures |HashesOf(p)| <= |BitsOf(p)| && |HashesOf(p)| <= Last(n, h, pos) - First(h, pos)
  {
    hide Exists, First, Last;
    NodeRange(n, h, pos);
    match p
    case Stop(_, _) =>
    case One(l) =>
      Children(n, h, pos);
      ProofSizes(pair, l, n, h - 1, 2 * pos);
    case Two(l, r) =>
      Children(n, h, pos);
      ProofSizes(pair, l, n, h - 1, 2 * pos);
      ProofSizes(pair, r, n, h - 1, 2 * pos + 1);
  }

  // ---------- the whole tree ----------

  // All hashes, and all bits but the padding of the last byte, write out this tree.
  predicate Describes(pair: Pairing, p: Proof, n: nat, bits: seq<bool>, hashes: seq<Hash>) {
    && 0 < n <= MAX_BLOCK_WEIGHT / MIN_TRANSACTION_WEIGHT && Fits(pair, p, n, HeightFrom(n, 0), 0)
    && BitsOf(p) <= bits && (|BitsOf(p)| + 7) / 8 == (|bits| + 7) / 8 && hashes == HashesOf(p)
  }

  // Such a tree is always accepted, with its own root and leaves.
  lemma DescribedAccepted(pair: Pairing, p: Proof, n: nat, bits: seq<bool>, hashes: seq<Hash>)
    requires Describes(pair, p, n, bits, hashes)
    ensures ExtractMatches(pair, n, bits, hashes) == Answer(RootOf(pair, p), LeavesOf(p, HeightFrom(n, 0), 0))
  {
    hide Extract, Fits, HeightFrom, Exists, First, Last;
    HeightCovers(n, 0);
    WholeRange(n, HeightFrom(n, 0));
    ProofSizes(pair, p, n, HeightFrom(n, 0), 0);
    assert bits[0..0 + |BitsOf(p)|] == BitsOf(p) && hashes[0..0 + |hashes|] == hashes;
    TreeRead(pair, p, n, bits, hashes, HeightFrom(n, 0), 0, 0, 0);
  }

  lemma WholeRange(n: nat, h: nat)
    requires n > 0
    ensures Exists(n, h, 0) && First(h, 0) == 0 && Last(n, h, 0) <= n
  {
    assert 0 * Pow2(h) == 0;
  }

  // Any answer with a root comes from such a tree.
  lemma AcceptedDescribed(pair: Pairing, n: nat, bits: seq<bool>, hashes: seq<Hash>)
    requires ExtractMatches(pair, n, bits, hashes).root != NULL_HASH
    ensures exists p :: Describes(pair, p, n, bits, hashes)
              && ExtractMatches(pair, n, bits, hashes) == Answer(RootOf(pair, p), LeavesOf(p, HeightFrom(n, 0), 0))
  {
    hide Extract, Fits, HeightFrom;
    var p := ReadTree(pair, n, bits, hashes, HeightFrom(n, 0), 0, 0, 0);
    assert hashes[0..0 + |HashesOf(p)|] == hashes;
    assert BitsOf(p) <= bits by { assert bits[0..0 + |BitsOf(p)|] == BitsOf(p); }
    assert Describes(pair, p, n, bits, hashes);
  }

  // ---------- level by level ----------

  // The level above: neighbours hashed together, an odd last one with itself.
  function Above(pair: Pairing, s: seq<Hash>): (t: seq<Hash>)
    ensures |t| == (|s| + 1) / 2
    ensures forall i :: 0 <= i < |t| ==> t[i] == pair(s[2 * i], if 2 * i + 1 < |s| then s[2 * i + 1] else s[2 * i])
  {
    seq((|s| + 1) / 2, i requires 0 <= i < (|s| + 1) / 2 => pair(s[2 * i], if 2 * i + 1 < |s| then s[2 * i + 1] else s[2 * i]))
  }

  function Reduced(pair: Pairing, s: seq<Hash>): Hash
    requires |s| > 0
    decreases |s|
  {
    if |s| == 1 then s[0] else Reduced(pair, Above(pair, s))
  }

  function Level(pair: Pairing, txids: seq<Hash>, h: nat): seq<Hash> {
    if h == 0 then txids else Above(pair, Level(pair, txids, h - 1))
  }

  lemma WidthAbove(n: nat, h: nat)
    requires n > 0
    ensures Width(n, h + 1) == (Width(n, h) + 1) / 2
  {
    hide Width, Exists, First, Last;
    var a, b := Width(n, h + 1), (Width(n, h) + 1) / 2;
    Doubled(n, h, a);
    Doubled(n, h, b);
    WidthIsExists(n, h + 1, a);
    WidthIsExists(n, h + 1, b);
    WidthIsExists(n, h, 2 * a);
    WidthIsExists(n, h, 2 * b);
  }

  lemma Doubled(n: nat, h: nat, pos: nat)
    ensures Exists(n, h + 1, pos) <==> Exists(n, h, 2 * pos)
  {
    assert pos * (2 * Pow2(h)) == (2 * pos) * Pow2(h);
  }

  // The nodes of a height are that level.
  ghost predicate IsLevel(pair: Pairing, txids: seq<Hash>, h: nat, s: seq<Hash>) {
    |s| == Width(|txids|, h) && forall pos :: 0 <= pos < |s| ==> Exists(|txids|, h, pos) && s[pos] == CalcHash(pair, txids, h, pos)
  }

  lemma LevelNode(pair: Pairing, txids: seq<Hash>, h: nat, pos: nat, s: seq<Hash>)
    requires h > 0 && Exists(|txids|, h, pos) && IsLevel(pair, txids, h - 1, s)
    ensures 2 * pos < |s| && pair(s[2 * pos], if 2 * pos + 1 < |s| then s[2 * pos + 1] else s[2 * pos]) == CalcHash(pair, txids, h, pos)
  {
    hide Width, Exists, First, Last;
    Children(|txids|, h, pos);
    WidthIsExists(|txids|, h - 1, 2 * pos);
    WidthIsExists(|txids|, h - 1, 2 * pos + 1);
  }

  lemma {:induction false} LevelIs(pair: Pairing, txids: seq<Hash>, h: nat)
    requires |txids| > 0
    ensures IsLevel(pair, txids, h, Level(pair, txids, h))
  {
    hide Width, Exists, First, Last, CalcHash;
    var n := |txids|;
    if h == 0 {
      WidthZero(n);
      forall pos | 0 <= pos < n
        ensures Exists(n, 0, pos) && txids[pos] == CalcHash(pair, txids, 0, pos)
      {
        LeafNode(pair, txids, pos);
      }
    } else {
      var s := Level(pair, txids, h - 1);
      LevelIs(pair, txids, h - 1);
      WidthAbove(n, h - 1);
      forall pos | 0 <= pos < Width(n, h)
        ensures Exists(n, h, pos) && Above(pair, s)[pos] == CalcHash(pair, txids, h, pos)
      {
        WidthIsExists(n, h, pos);
        LevelNode(pair, txids, h, pos, s);
      }
    }
  }

  lemma LeafNode(pair: Pairing, txids: seq<Hash>, pos: nat)
    requires pos < |txids|
    ensures Exists(|txids|, 0, pos) && txids[pos] == CalcHash(pair, txids, 0, pos)
  {
    LeafRange(|txids|, pos);
  }

  lemma WidthZero(n: nat)
    ensures Width(n, 0) == n
  {
  }

  lemma {:induction false} ReducedFrom(pair: Pairing, txids: seq<Hash>, h: nat)
    requires |txids| > 0
    ensures |Level(pair, txids, h)| > 0
    ensures Reduced(pair, Level(pair, txids, h)) == CalcHashAt(pair, txids, HeightFrom(|txids|, h))
    decreases |txids| - Pow2(h)
  {
    hide CalcHash, Width, Exists;
    var n := |txids|;
    LevelIs(pair, txids, h);
    WidthIsExists(n, h, 1);
    WidthIsExists(n, h, 0);
    WholeRange(n, h);
    if Width(n, h) > 1 {
      Shrinks(n, h);
      ReducedFrom(pair, txids, h + 1);
    } else {
      assert Level(pair, txids, h)[0] == CalcHash(pair, txids, h, 0);
    }
  }

  function CalcHashAt(pair: Pairing, txids: seq<Hash>, h: nat): Hash
    requires |txids| > 0
  {
    WholeRange(|txids|, h);
    CalcHash(pair, txids, h, 0)
  }

  lemma Shrinks(n: nat, h: nat)
    requires Width(n, h) > 1
    ensures n - Pow2(h + 1) < n - Pow2(h) && n - Pow2(h) >= 0
  {
    WidthIsExists(n, h, 1);
  }

  // The root is what hashing level by level gives.
  lemma RootIsReduced(pair: Pairing, txids: seq<Hash>)
    requires |txids| > 0
    ensures MerkleRoot(pair, txids) == Reduced(pair, txids)
  {
    hide CalcHash, Width, Reduced;
    ReducedFrom(pair, txids, 0);
  }
}
