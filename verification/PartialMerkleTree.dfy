/**
 * CPartialMerkleTree (src/merkleblock.cpp, src/merkleblock.h): the recursive encoder and
 * decoder working on shared streams and cursors, and the packing of flag bits into bytes.
 */
module PartialMerkleTree {
  import opened ByteBits
  import opened MerkleTree
  import opened Powers

  // ---------- flag bits in bytes, least significant bit first ----------

  // SerializationOp, writing
  method PackBits(vBits: seq<bool>) returns (vBytes: array<bv8>)
    ensures fresh(vBytes) && vBytes.Length == (|vBits| + 7) / 8
    ensures forall p :: 0 <= p < 8 * vBytes.Length ==> (Has(vBytes[p / 8], p % 8) <==> p < |vBits| && vBits[p])
  {
    vBytes := new bv8[(|vBits| + 7) / 8](_ => 0);
    forall p | 0 <= p < 8 * vBytes.Length
      ensures !Has(vBytes[p / 8], p % 8)
    {
      FullHas(p % 8);
    }
    for i := 0 to |vBits|
      invariant forall p :: 0 <= p < 8 * vBytes.Length ==> (Has(vBytes[p / 8], p % 8) <==> p < i && vBits[p])
    {
      ghost var before := vBytes[..];
      vBytes[i / 8] := if vBits[i] then With(vBytes[i / 8], i % 8) else vBytes[i / 8];
      forall p | 0 <= p < 8 * vBytes.Length
        ensures Has(vBytes[p / 8], p % 8) <==> p < i + 1 && vBits[p]
      {
        assert Has(before[p / 8], p % 8) <==> p < i && vBits[p];
        if p / 8 == i / 8 && vBits[i] {
          WithHas(before[i / 8], i % 8, p % 8);
        }
      }
    }
  }

  // SerializationOp, reading
  method UnpackBits(vBytes: array<bv8>) returns (vBits: seq<bool>)
    ensures |vBits| == 8 * vBytes.Length
    ensures forall p :: 0 <= p < |vBits| ==> (vBits[p] <==> Has(vBytes[p / 8], p % 8))
  {
    vBits := [];
    for p := 0 to 8 * vBytes.Length
      invariant |vBits| == p
      invariant forall q :: 0 <= q < p ==> (vBits[q] <==> Has(vBytes[q / 8], q % 8))
    {
      vBits := vBits + [vBytes[p / 8] & Mask(p % 8) != 0];
    }
  }

  // ---------- the tree object ----------

  function Txids(found: seq<Leaf>): seq<Hash> {
    seq(|found|, i requires 0 <= i < |found| => found[i].txid)
  }

  function Indices(found: seq<Leaf>): seq<nat> {
    seq(|found|, i requires 0 <= i < |found| => found[i].index)
  }

  lemma SplitLeaves(a: seq<Leaf>, b: seq<Leaf>)
    ensures Txids(a + b) == Txids(a) + Txids(b) && Indices(a + b) == Indices(a) + Indices(b)
  {
  }

  lemma FewLeaves(x: Leaf)
    ensures Txids([]) == [] && Indices([]) == []
    ensures Txids([x]) == [x.txid] && Indices([x]) == [x.index]
  {
  }

  class PartialMerkleTree {
    const pair: Pairing
    var nTransactions: nat
    var vBits: seq<bool>
    var vHash: seq<Hash>
    var fBad: bool

    // From a list of transaction ids and a mask.
    constructor Select(pair: Pairing, vTxid: seq<Hash>, vMatch: seq<bool>)
      requires |vTxid| == |vMatch| > 0
      ensures this.pair == pair && nTransactions == |vTxid| && !fBad
      ensures vBits == EncodeBits(vMatch) && vHash == EncodeHashes(pair, vTxid, vMatch)
    {
      this.pair := pair;
      nTransactions := |vTxid|;
      vBits := [];
      vHash := [];
      fBad := false;
      new;
      HeightCovers(|vTxid|, 0);
      var nHeight := TreeHeight();
      TraverseAndBuild(nHeight, 0, vTxid, vMatch);
    }

    // From the wire: bytes hold eight flag bits each.
    constructor Unserialize(pair: Pairing, nTransactions: nat, vHash: seq<Hash>, vBytes: array<bv8>)
      ensures this.pair == pair && this.nTransactions == nTransactions && this.vHash == vHash && !fBad
      ensures |vBits| == 8 * vBytes.Length
      ensures forall p :: 0 <= p < |vBits| ==> (vBits[p] <==> Has(vBytes[p / 8], p % 8))
    {
      this.pair := pair;
      this.nTransactions := nTransactions;
      this.vHash := vHash;
      fBad := false;
      var bits := UnpackBits(vBytes);
      vBits := bits;
    }

    method TreeHeight() returns (nHeight: nat)
      ensures nHeight == HeightFrom(nTransactions, 0)
    {
      nHeight := 0;
      while Width(nTransactions, nHeight) > 1
        invariant HeightFrom(nTransactions, nHeight) == HeightFrom(nTransactions, 0)
        decreases nTransactions - Pow2(nHeight)
      {
        WidthIsExists(nTransactions, nHeight, 1);
        nHeight := nHeight + 1;
      }
    }

    method TraverseAndBuild(height: nat, pos: nat, vTxid: seq<Hash>, vMatch: seq<bool>)
      requires nTransactions == |vTxid| == |vMatch| && Exists(nTransactions, height, pos)
      modifies this`vBits, this`vHash
      ensures vBits == old(vBits) + BuildBits(vMatch, height, pos)
      ensures vHash == old(vHash) + BuildHashes(pair, vTxid, vMatch, height, pos)
      decreases height
    {
      hide BuildBits, BuildHashes, CalcHash, ParentOfMatch;
      StopNode(height, pos, vTxid, vMatch);
      var fParentOfMatch := IsParentOfMatch(height, pos, vMatch);
      vBits := vBits + [fParentOfMatch];
      if height == 0 || !fParentOfMatch {
        vHash := vHash + [CalcHash(pair, vTxid, height, pos)];
      } else {
        Children(nTransactions, height, pos);
        WidthIsExists(nTransactions, height - 1, 2 * pos + 1);
        InnerNode(pair, vTxid, vMatch, height, pos);
        TraverseAndBuild(height - 1, 2 * pos, vTxid, vMatch);
        if 2 * pos + 1 < Width(nTransactions, height - 1) {
          TraverseAndBuild(height - 1, 2 * pos + 1, vTxid, vMatch);
        }
      }
    }

    lemma StopNode(height: nat, pos: nat, vTxid: seq<Hash>, vMatch: seq<bool>)
      requires |vTxid| == |vMatch| && Exists(|vMatch|, height, pos)
      ensures height == 0 || !ParentOfMatch(vMatch, height, pos) ==>
                && BuildBits(vMatch, height, pos) == [ParentOfMatch(vMatch, height, pos)]
                && BuildHashes(pair, vTxid, vMatch, height, pos) == [CalcHash(pair, vTxid, height, pos)]
    {
    }

    // The loop over the leaves of a node.
    method IsParentOfMatch(height: nat, pos: nat, vMatch: seq<bool>) returns (fParentOfMatch: bool)
      requires nTransactions == |vMatch| && Exists(nTransactions, height, pos)
      ensures fParentOfMatch <==> ParentOfMatch(vMatch, height, pos)
    {
      NodeRange(nTransactions, height, pos);
      fParentOfMatch := false;
      var p := pos * Pow2(height);
      while p < (pos + 1) * Pow2(height) && p < nTransactions
        invariant First(height, pos) <= p <= Last(nTransactions, height, pos)
        invariant fParentOfMatch <==> AnyMatch(vMatch, First(height, pos), p)
        decreases nTransactions - p
      {
        fParentOfMatch := fParentOfMatch || vMatch[p];
        p := p + 1;
      }
    }

    method TraverseAndExtract(height: nat, pos: nat, nBitsUsed: nat, nHashUsed: nat, vMatch: seq<Hash>, vnIndex: seq<nat>)
      returns (hash: Hash, nBits: nat, nHash: nat, matches: seq<Hash>, indices: seq<nat>)
      modifies this`fBad
      ensures var r := Extract(pair, nTransactions, vBits, vHash, height, pos, nBitsUsed, nHashUsed);
              && hash == r.hash && nBits == r.nBits && nHash == r.nHash
              && matches == vMatch + Txids(r.found) && indices == vnIndex + Indices(r.found)
              && (fBad <==> old(fBad) || r.bad)
      decreases height
    {
      hide Extract, Txids, Indices, Width;
      if height == 0 || nBitsUsed >= |vBits| || !vBits[nBitsUsed] {
        ExtractStop(pair, nTransactions, vBits, vHash, height, pos, nBitsUsed, nHashUsed);
      } else {
        ExtractInner(pair, nTransactions, vBits, vHash, height, pos, nBitsUsed, nHashUsed);
      }
      FewLeaves(Leaf(if nHashUsed < |vHash| then vHash[nHashUsed] else NULL_HASH, pos));
      nBits, nHash, matches, indices := nBitsUsed, nHashUsed, vMatch, vnIndex;
      if nBits >= |vBits| {
        fBad := true;
        return NULL_HASH, nBits, nHash, matches, indices;
      }
      var fParentOfMatch := vBits[nBits];
      nBits := nBits + 1;
      if height == 0 || !fParentOfMatch {
        if nHash >= |vHash| {
          fBad := true;
          return NULL_HASH, nBits, nHash, matches, indices;
        }
        hash := vHash[nHash];
        nHash := nHash + 1;
        if height == 0 && fParentOfMatch {
          matches := matches + [hash];
          indices := indices + [pos];
        }
      } else {
        var left, right;
        left, nBits, nHash, matches, indices := TraverseAndExtract(height - 1, 2 * pos, nBits, nHash, matches, indices);
        if 2 * pos + 1 < Width(nTransactions, height - 1) {
          right, nBits, nHash, matches, indices := TraverseAndExtract(height - 1, 2 * pos + 1, nBits, nHash, matches, indices);
          if right == left {
            fBad := true;
          }
          ghost var l := Extract(pair, nTransactions, vBits, vHash, height - 1, 2 * pos, nBitsUsed + 1, nHashUsed);
          SplitLeaves(l.found, Extract(pair, nTransactions, vBits, vHash, height - 1, 2 * pos + 1, l.nBits, l.nHash).found);
        } else {
          right := left;
        }
        hash := pair(left, right);
      }
    }

    // vMatch is cleared first; vnIndex is only appended to.
    method ExtractMatches(vnIndex: seq<nat>) returns (root: Hash, vMatch: seq<Hash>, indices: seq<nat>)
      modifies this`fBad
      ensures var a := MerkleTree.ExtractMatches(pair, nTransactions, vBits, vHash);
              && root == (if old(fBad) then NULL_HASH else a.root)
              && vMatch == Txids(a.found) && indices == vnIndex + Indices(a.found)
    {
      vMatch, indices := [], vnIndex;
      assert Txids([]) == [] && Indices([]) == [];
      if nTransactions == 0 {
        return NULL_HASH, vMatch, indices;
      }
      if nTransactions > MAX_BLOCK_WEIGHT / MIN_TRANSACTION_WEIGHT {
        return NULL_HASH, vMatch, indices;
      }
      if |vHash| > nTransactions {
        return NULL_HASH, vMatch, indices;
      }
      if |vBits| < |vHash| {
        return NULL_HASH, vMatch, indices;
      }
      var nHeight := TreeHeight();
      var nBitsUsed, nHashUsed;
      root, nBitsUsed, nHashUsed, vMatch, indices := TraverseAndExtract(nHeight, 0, 0, 0, vMatch, indices);
      if fBad {
        root := NULL_HASH;
      } else if (nBitsUsed + 7) / 8 != (|vBits| + 7) / 8 {
        root := NULL_HASH;
      } else if nHashUsed != |vHash| {
        root := NULL_HASH;
      }
    }
  }

  // Select, serialize, unserialize and extract: the receiver gets the Merkle root and the
  // masked transactions with their positions, in order.
  method Relay(pair: Pairing, vTxid: seq<Hash>, vMatch: seq<bool>) returns (root: Hash, txids: seq<Hash>, indices: seq<nat>)
    requires Injective(pair) && Distinct(vTxid)
    requires 0 < |vTxid| == |vMatch| <= MAX_BLOCK_WEIGHT / MIN_TRANSACTION_WEIGHT
    ensures root == MerkleRoot(pair, vTxid)
    ensures txids == Txids(Matched(vTxid, vMatch, 0, |vTxid|))
    ensures indices == Indices(Matched(vTxid, vMatch, 0, |vTxid|))
  {
    hide Injective, Distinct, IsMask, Matched, EncodeBits, EncodeHashes, MerkleTree.ExtractMatches, MerkleRoot;
    var sent := new PartialMerkleTree.Select(pair, vTxid, vMatch);
    var vBytes := PackBits(sent.vBits);
    var received := new PartialMerkleTree.Unserialize(pair, sent.nTransactions, sent.vHash, vBytes);
    ghost var bits := EncodeBits(vMatch);
    ghost var padding := seq(8 * vBytes.Length - |bits|, _ => false);
    assert received.vBits == bits + padding;
    RoundTrip(pair, vTxid, vMatch, padding);
    root, txids, indices := received.ExtractMatches([]);
  }
}
