/**
 * Partial Merkle trees (src/merkleblock.cpp, src/merkleblock.h) as functions: the tree,
 * what the encoder writes for a subtree and what the decoder reads.
 *
 * The two-input hash is a parameter; where a result needs it, it is assumed to be
 * injective.
 */
module MerkleTree {
  import opened Powers

  type Hash = nat
  type Pairing = (Hash, Hash) -> Hash

  const NULL_HASH: Hash := 0

  ghost predicate Injective(pair: Pairing) {
    forall a, b, c, d :: pair(a, b) == pair(c, d) ==> a == c && b == d
  }

  predicate Distinct(txids: seq<Hash>) {
    forall i, j :: 0 <= i < j < |txids| ==> txids[i] != txids[j]
  }

  // ---------- shape ----------

  // CalcTreeWidth: the number of nodes at a height.
  function Width(n: nat, h: nat): nat {
    (n + Pow2(h) - 1) / Pow2(h)
  }

  // A node exists iff its first leaf does.
  predicate Exists(n: nat, h: nat, pos: nat) {
    pos * Pow2(h) < n
  }

  lemma DivideBound(a: nat, p: nat, q: nat)
    requires p > 0
    ensures q <= a / p <==> q * p <= a
  {
    var d, m := a / p, a % p;
    assert a == d * p + m;
    if q <= d {
      MulMonotone(q, d, p);
    } else {
      MulMonotone(d + 1, q, p);
      assert (d + 1) * p == d * p + p;
    }
  }

  lemma WidthIsExists(n: nat, h: nat, pos: nat)
    ensures pos < Width(n, h) <==> Exists(n, h, pos)
  {
    DivideBound(n + Pow2(h) - 1, Pow2(h), pos + 1);
    assert (pos + 1) * Pow2(h) == pos * Pow2(h) + Pow2(h);
  }

  // First leaf of a node, and one past its last.
  function First(h: nat, pos: nat): nat {
    pos * Pow2(h)
  }

  function Last(n: nat, h: nat, pos: nat): nat {
    if First(h, pos + 1) < n then First(h, pos + 1) else n
  }

  // The leaves of a node are those of its left child followed by those of its right child.
  lemma Children(n: nat, h: nat, pos: nat)
    requires h > 0 && Exists(n, h, pos)
    ensures First(h - 1, 2 * pos) == First(h, pos) && Exists(n, h - 1, 2 * pos)
    ensures First(h - 1, 2 * pos + 2) == First(h, pos + 1)
    ensures First(h, pos) < Last(n, h, pos)
    ensures Exists(n, h - 1, 2 * pos + 1) ==>
              Last(n, h - 1, 2 * pos) == First(h - 1, 2 * pos + 1) && Last(n, h - 1, 2 * pos + 1) == Last(n, h, pos)
    ensures !Exists(n, h - 1, 2 * pos + 1) ==> Last(n, h - 1, 2 * pos) == Last(n, h, pos) == n
  {
    var p := Pow2(h - 1);
    assert First(h, pos) == pos * (2 * p) == (2 * pos) * p;
    assert First(h, pos + 1) == (pos + 1) * (2 * p) == (2 * pos + 2) * p;
    assert (2 * pos + 1) * p == (2 * pos) * p + p;
    assert (2 * pos + 2) * p == (2 * pos) * p + 2 * p;
  }

  lemma LeafRange(n: nat, pos: nat)
    ensures First(0, pos) == pos && (Exists(n, 0, pos) <==> pos < n)
    ensures Exists(n, 0, pos) ==> Last(n, 0, pos) == pos + 1
  {
  }

  lemma NodeRange(n: nat, h: nat, pos: nat)
    requires Exists(n, h, pos)
    ensures First(h, pos) < Last(n, h, pos) <= n
  {
    assert First(h, pos + 1) == pos * Pow2(h) + Pow2(h);
  }

  // ---------- hashes ----------

  // CalcHash: a missing right child is replaced by the left one.
  function CalcHash(pair: Pairing, txids: seq<Hash>, h: nat, pos: nat): Hash
    requires Exists(|txids|, h, pos)
    decreases h
  {
    if h == 0 then LeafRange(|txids|, pos); txids[pos]
    else
      Children(|txids|, h, pos);
      var left := CalcHash(pair, txids, h - 1, 2 * pos);
      var right := if Exists(|txids|, h - 1, 2 * pos + 1) then CalcHash(pair, txids, h - 1, 2 * pos + 1) else left;
      pair(left, right)
  }

  // Different nodes of one height have different hashes.
  lemma {:induction false} HashesDiffer(pair: Pairing, txids: seq<Hash>, h: nat, p: nat, q: nat)
    requires Injective(pair) && Distinct(txids) && p < q
    requires Exists(|txids|, h, p) && Exists(|txids|, h, q)
    ensures CalcHash(pair, txids, h, p) != CalcHash(pair, txids, h, q)
    decreases h
  {
    if h == 0 {
      LeafRange(|txids|, p);
      LeafRange(|txids|, q);
    } else {
      Children(|txids|, h, p);
      Children(|txids|, h, q);
      HashesDiffer(pair, txids, h - 1, 2 * p, 2 * q);
    }
  }

  // ---------- what the encoder writes ----------

  // Whether some leaf in [lo, hi) is matched.
  predicate AnyMatch(vMatch: seq<bool>, lo: nat, hi: nat)
    requires hi <= |vMatch|
  {
    exists p :: lo <= p < hi && vMatch[p]
  }

  predicate ParentOfMatch(vMatch: seq<bool>, h: nat, pos: nat)
    requires Exists(|vMatch|, h, pos)
  {
    AnyMatch(vMatch, First(h, pos), Last(|vMatch|, h, pos))
  }

  // TraverseAndBuild: the flag bits of a subtree ...
  function BuildBits(vMatch: seq<bool>, h: nat, pos: nat): seq<bool>
    requires Exists(|vMatch|, h, pos)
    decreases h
  {
    var parent := ParentOfMatch(vMatch, h, pos);
    if h == 0 || !parent then [parent]
    else
      Children(|vMatch|, h, pos);
      [parent] + BuildBits(vMatch, h - 1, 2 * pos)
      + (if Exists(|vMatch|, h - 1, 2 * pos + 1) then BuildBits(vMatch, h - 1, 2 * pos + 1) else [])
  }

  // ... and its hashes.
  function BuildHashes(pair: Pairing, txids: seq<Hash>, vMatch: seq<bool>, h: nat, pos: nat): seq<Hash>
    requires |txids| == |vMatch| && Exists(|vMatch|, h, pos)
    decreases h
  {
    if h == 0 || !ParentOfMatch(vMatch, h, pos) then [CalcHash(pair, txids, h, pos)]
    else
      Children(|vMatch|, h, pos);
      BuildHashes(pair, txids, vMatch, h - 1, 2 * pos)
      + (if Exists(|vMatch|, h - 1, 2 * pos + 1) then BuildHashes(pair, txids, vMatch, h - 1, 2 * pos + 1) else [])
  }

  // ---------- what the decoder reads ----------

  datatype Leaf = Leaf(txid: Hash, index: nat)

  // The hash of a subtree, the cursors after it, the matches in it, and whether anything
  // was wrong.
  datatype Reading = Reading(hash: Hash, nBits: nat, nHash: nat, found: seq<Leaf>, bad: bool)

  // TraverseAndExtract
  function Extract(pair: Pairing, n: nat, vBits: seq<bool>, vHash: seq<Hash>, h: nat, pos: nat, nb: nat, nh: nat): Reading
    decreases h
  {
    if nb >= |vBits| then Reading(NULL_HASH, nb, nh, [], true)
    else if h == 0 || !vBits[nb] then
      if nh >= |vHash| then Reading(NULL_HASH, nb + 1, nh, [], true)
      else Reading(vHash[nh], nb + 1, nh + 1, if h == 0 && vBits[nb] then [Leaf(vHash[nh], pos)] else [], false)
    else
      var left := Extract(pair, n, vBits, vHash, h - 1, 2 * pos, nb + 1, nh);
      if 2 * pos + 1 < Width(n, h - 1) then
        var right := Extract(pair, n, vBits, vHash, h - 1, 2 * pos + 1, left.nBits, left.nHash);
        Reading(pair(left.hash, right.hash), right.nBits, right.nHash, left.found + right.found,
                left.bad || right.bad || left.hash == right.hash)
      else
        Reading(pair(left.hash, left.hash), left.nBits, left.nHash, left.found, left.bad)
  }

  // ---------- the matched leaves, in order ----------

  function Matched(txids: seq<Hash>, vMatch: seq<bool>, lo: nat, hi: nat): seq<Leaf>
    requires lo <= hi <= |txids| == |vMatch|
    decreases hi
  {
    if lo == hi then []
    else Matched(txids, vMatch, lo, hi - 1) + (if vMatch[hi - 1] then [Leaf(txids[hi - 1], hi - 1)] else [])
  }

  lemma {:induction false} MatchedSplit(txids: seq<Hash>, vMatch: seq<bool>, lo: nat, mid: nat, hi: nat)
    requires lo <= mid <= hi <= |txids| == |vMatch|
    ensures Matched(txids, vMatch, lo, hi) == Matched(txids, vMatch, lo, mid) + Matched(txids, vMatch, mid, hi)
    decreases hi
  {
    if mid < hi { MatchedSplit(txids, vMatch, lo, mid, hi - 1); }
  }

  lemma {:induction false} MatchedNone(txids: seq<Hash>, vMatch: seq<bool>, lo: nat, hi: nat)
    requires lo <= hi <= |txids| == |vMatch| && !AnyMatch(vMatch, lo, hi)
    ensures Matched(txids, vMatch, lo, hi) == []
    decreases hi
  {
    if lo < hi { MatchedNone(txids, vMatch, lo, hi - 1); }
  }

  // Exactly the masked leaves, each once, in ascending order.
  ghost predicate IsMask(txids: seq<Hash>, vMatch: seq<bool>, lo: nat, hi: nat, r: seq<Leaf>)
    requires lo <= hi <= |txids| == |vMatch|
  {
    && (forall i :: 0 <= i < |r| ==> lo <= r[i].index < hi && vMatch[r[i].index] && r[i].txid == txids[r[i].index])
    && (forall i, j :: 0 <= i < j < |r| ==> r[i].index < r[j].index)
    && (forall p :: lo <= p < hi && vMatch[p] ==> Leaf(txids[p], p) in r)
  }

  lemma {:induction false} MatchedIsMask(txids: seq<Hash>, vMatch: seq<bool>, lo: nat, hi: nat)
    requires lo <= hi <= |txids| == |vMatch|
    ensures IsMask(txids, vMatch, lo, hi, Matched(txids, vMatch, lo, hi))
    decreases hi
  {
    if lo < hi {
      MatchedIsMask(txids, vMatch, lo, hi - 1);
      var q, r := Matched(txids, vMatch, lo, hi - 1), Matched(txids, vMatch, lo, hi);
      assert forall i :: 0 <= i < |q| ==> r[i] == q[i];
      if vMatch[hi - 1] { assert r[|q|] == Leaf(txids[hi - 1], hi - 1); }
      forall p | lo <= p < hi && vMatch[p]
        ensures Leaf(txids[p], p) in r
      {
        if p < hi - 1 { assert Leaf(txids[p], p) in q; }
      }
    }
  }

  // ---------- the round trip ----------

  // The streams b and hs, from the cursors on, are what was written for a node: reading
  // them yields its hash and its matches and moves past them.
  ghost predicate ReadsBack(pair: Pairing, txids: seq<Hash>, vMatch: seq<bool>, h: nat, pos: nat,
                            bits: seq<bool>, hashes: seq<Hash>, nb: nat, nh: nat)
    requires |txids| == |vMatch| && Exists(|txids|, h, pos)
  {
    NodeRange(|txids|, h, pos);
    Extract(pair, |txids|, bits, hashes, h, pos, nb, nh) ==
      Reading(CalcHash(pair, txids, h, pos), nb + |BuildBits(vMatch, h, pos)|,
              nh + |BuildHashes(pair, txids, vMatch, h, pos)|,
              Matched(txids, vMatch, First(h, pos), Last(|txids|, h, pos)), false)
  }

  predicate At<T(==)>(s: seq<T>, i: nat, part: seq<T>) {
    i + |part| <= |s| && s[i..i + |part|] == part
  }

  lemma AtConcat<T>(s: seq<T>, i: nat, a: seq<T>, b: seq<T>)
    requires At(s, i, a + b)
    ensures At(s, i, a) && At(s, i + |a|, b)
  {
    var part := s[i..i + |a + b|];
    assert s[i..i + |a|] == part[..|a|] == a;
    assert s[i + |a|..i + |a| + |b|] == part[|a|..] == b;
  }

  lemma AtHead<T>(s: seq<T>, i: nat, x: T)
    requires At(s, i, [x])
    ensures i < |s| && s[i] == x
  {
    assert s[i..i + 1][0] == x;
  }

  lemma ReadsLeaf(pair: Pairing, txids: seq<Hash>, vMatch: seq<bool>, h: nat, pos: nat,
                  bits: seq<bool>, hashes: seq<Hash>, nb: nat, nh: nat)
    requires |txids| == |vMatch| && Exists(|txids|, h, pos)
    requires h == 0 || !ParentOfMatch(vMatch, h, pos)
    requires At(bits, nb, BuildBits(vMatch, h, pos)) && At(hashes, nh, BuildHashes(pair, txids, vMatch, h, pos))
    ensures ReadsBack(pair, txids, vMatch, h, pos, bits, hashes, nb, nh)
  {
    var n := |txids|;
    NodeRange(n, h, pos);
    AtHead(bits, nb, ParentOfMatch(vMatch, h, pos));
    AtHead(hashes, nh, CalcHash(pair, txids, h, pos));
    if h == 0 {
      LeafRange(n, pos);
      assert Matched(txids, vMatch, pos, pos) == [];
      assert ParentOfMatch(vMatch, h, pos) == vMatch[pos];
    } else {
      MatchedNone(txids, vMatch, First(h, pos), Last(n, h, pos));
    }
  }

  // One unfolding of each function at an inner node.
  lemma InnerNode(pair: Pairing, txids: seq<Hash>, vMatch: seq<bool>, h: nat, pos: nat)
    requires |txids| == |vMatch| && h > 0 && Exists(|txids|, h, pos) && Exists(|txids|, h - 1, 2 * pos)
    ensures var two := Exists(|txids|, h - 1, 2 * pos + 1);
            var left := CalcHash(pair, txids, h - 1, 2 * pos);
            && CalcHash(pair, txids, h, pos) == pair(left, if two then CalcHash(pair, txids, h - 1, 2 * pos + 1) else left)
            && (ParentOfMatch(vMatch, h, pos) ==>
                  && BuildBits(vMatch, h, pos) == [true] + (BuildBits(vMatch, h - 1, 2 * pos)
                     + (if two then BuildBits(vMatch, h - 1, 2 * pos + 1) else []))
                  && BuildHashes(pair, txids, vMatch, h, pos) == BuildHashes(pair, txids, vMatch, h - 1, 2 * pos)
                     + (if two then BuildHashes(pair, txids, vMatch, h - 1, 2 * pos + 1) else []))
  {
    hide ParentOfMatch;
  }

  lemma ExtractStop(pair: Pairing, n: nat, bits: seq<bool>, hashes: seq<Hash>, h: nat, pos: nat, nb: nat, nh: nat)
    requires h == 0 || nb >= |bits| || !bits[nb]
    ensures Extract(pair, n, bits, hashes, h, pos, nb, nh) ==
              if nb >= |bits| then Reading(NULL_HASH, nb, nh, [], true)
              else if nh >= |hashes| then Reading(NULL_HASH, nb + 1, nh, [], true)
              else Reading(hashes[nh], nb + 1, nh + 1, if h == 0 && bits[nb] then [Leaf(hashes[nh], pos)] else [], false)
  {
  }

  lemma ExtractInner(pair: Pairing, n: nat, bits: seq<bool>, hashes: seq<Hash>, h: nat, pos: nat, nb: nat, nh: nat)
    requires h > 0 && nb < |bits| && bits[nb]
    ensures var left := Extract(pair, n, bits, hashes, h - 1, 2 * pos, nb + 1, nh);
            var right := Extract(pair, n, bits, hashes, h - 1, 2 * pos + 1, left.nBits, left.nHash);
            Extract(pair, n, bits, hashes, h, pos, nb, nh) ==
              if 2 * pos + 1 < Width(n, h - 1)
              then Reading(pair(left.hash, right.hash), right.nBits, right.nHash, left.found + right.found,
                           left.bad || right.bad || left.hash == right.hash)
              else Reading(pair(left.hash, left.hash), left.nBits, left.nHash, left.found, left.bad)
  {
  }

  lemma ReadsInner(pair: Pairing, txids: seq<Hash>, vMatch: seq<bool>, h: nat, pos: nat,
                   bits: seq<bool>, hashes: seq<Hash>, nb: nat, nh: nat)
    requires Injective(pair) && Distinct(txids) && |txids| == |vMatch| && Exists(|txids|, h, pos)
    requires h > 0 && ParentOfMatch(vMatch, h, pos) && nb < |bits| && bits[nb]
    requires Exists(|txids|, h - 1, 2 * pos)
    requires ReadsBack(pair, txids, vMatch, h - 1, 2 * pos, bits, hashes, nb + 1, nh)
    requires Exists(|txids|, h - 1, 2 * pos + 1) ==>
               ReadsBack(pair, txids, vMatch, h - 1, 2 * pos + 1, bits, hashes,
                         nb + 1 + |BuildBits(vMatch, h - 1, 2 * pos)|,
                         nh + |BuildHashes(pair, txids, vMatch, h - 1, 2 * pos)|)
    ensures ReadsBack(pair, txids, vMatch, h, pos, bits, hashes, nb, nh)
  {
    hide Extract, CalcHash, BuildBits, BuildHashes, Matched, ParentOfMatch, Width, Injective, Distinct;
    var n := |txids|;
    NodeRange(n, h, pos);
    Children(n, h, pos);
    WidthIsExists(n, h - 1, 2 * pos + 1);
    InnerNode(pair, txids, vMatch, h, pos);
    ExtractInner(pair, n, bits, hashes, h, pos, nb, nh);
    if Exists(n, h - 1, 2 * pos + 1) {
      HashesDiffer(pair, txids, h - 1, 2 * pos, 2 * pos + 1);
      MatchedSplit(txids, vMatch, First(h, pos), First(h - 1, 2 * pos + 1), Last(n, h, pos));
    }
  }

  // Decoding what was encoded for a node, wherever it stands in the streams, reads exactly
  // it and yields its hash and its matches.
  lemma {:induction false} ExtractOfBuild(pair: Pairing, txids: seq<Hash>, vMatch: seq<bool>, h: nat, pos: nat,
                                          bits: seq<bool>, hashes: seq<Hash>, nb: nat, nh: nat)
    requires Injective(pair) && Distinct(txids) && |txids| == |vMatch| && Exists(|txids|, h, pos)
    requires At(bits, nb, BuildBits(vMatch, h, pos)) && At(hashes, nh, BuildHashes(pair, txids, vMatch, h, pos))
    ensures ReadsBack(pair, txids, vMatch, h, pos, bits, hashes, nb, nh)
    decreases h
  {
    hide Extract, ReadsBack, CalcHash, Matched, At, ParentOfMatch, BuildBits, BuildHashes, Exists, Injective, Distinct;
    if h == 0 || !ParentOfMatch(vMatch, h, pos) {
      ReadsLeaf(pair, txids, vMatch, h, pos, bits, hashes, nb, nh);
    } else {
      var n := |txids|;
      Children(n, h, pos);
      var bl, hl := BuildBits(vMatch, h - 1, 2 * pos), BuildHashes(pair, txids, vMatch, h - 1, 2 * pos);
      var two := Exists(n, h - 1, 2 * pos + 1);
      var br := if two then BuildBits(vMatch, h - 1, 2 * pos + 1) else [];
      var hr := if two then BuildHashes(pair, txids, vMatch, h - 1, 2 * pos + 1) else [];
      InnerNode(pair, txids, vMatch, h, pos);
      AtConcat(bits, nb, [true], bl + br);
      AtHead(bits, nb, true);
      AtConcat(bits, nb + 1, bl, br);
      AtConcat(hashes, nh, hl, hr);
      ExtractOfBuild(pair, txids, vMatch, h - 1, 2 * pos, bits, hashes, nb + 1, nh);
      if two {
        ExtractOfBuild(pair, txids, vMatch, h - 1, 2 * pos + 1, bits, hashes, nb + 1 + |bl|, nh + |hl|);
      }
      ReadsInner(pair, txids, vMatch, h, pos, bits, hashes, nb, nh);
    }
  }

  // ---------- authenticity ----------

  // Every leaf reported is a leaf of the real tree, at its own position.
  predicate Genuine(txids: seq<Hash>, lo: nat, hi: nat, found: seq<Leaf>) {
    && (forall i :: 0 <= i < |found| ==> lo <= found[i].index < hi <= |txids| && found[i].txid == txids[found[i].index])
    && (forall i, j :: 0 <= i < j < |found| ==> found[i].index < found[j].index)
  }

  lemma GenuineConcat(txids: seq<Hash>, lo: nat, mid: nat, hi: nat, a: seq<Leaf>, b: seq<Leaf>)
    requires lo <= mid <= hi <= |txids| && Genuine(txids, lo, mid, a) && Genuine(txids, mid, hi, b)
    ensures Genuine(txids, lo, hi, a + b)
  {
  }

  // Whatever the bits and hashes are, a reading that is not bad and has the hash of a real
  // node reports only leaves of that node.
  lemma {:induction false} ExtractSound(pair: Pairing, txids: seq<Hash>, bits: seq<bool>, hashes: seq<Hash>,
                                        h: nat, pos: nat, nb: nat, nh: nat)
    requires Injective(pair) && Exists(|txids|, h, pos)
    requires var r := Extract(pair, |txids|, bits, hashes, h, pos, nb, nh);
             !r.bad && r.hash == CalcHash(pair, txids, h, pos)
    ensures Genuine(txids, First(h, pos), Last(|txids|, h, pos),
                    Extract(pair, |txids|, bits, hashes, h, pos, nb, nh).found)
    decreases h
  {
    hide Extract, CalcHash, Genuine, Width, Injective, Exists;
    var n := |txids|;
    if h == 0 || nb >= |bits| || !bits[nb] {
      StopSound(pair, txids, bits, hashes, h, pos, nb, nh);
    } else {
      Children(n, h, pos);
      NodeRange(n, h, pos);
      WidthIsExists(n, h - 1, 2 * pos + 1);
      InnerNode(pair, txids, seq(n, _ => false), h, pos);
      ExtractInner(pair, n, bits, hashes, h, pos, nb, nh);
      var left := Extract(pair, n, bits, hashes, h - 1, 2 * pos, nb + 1, nh);
      var right := Extract(pair, n, bits, hashes, h - 1, 2 * pos + 1, left.nBits, left.nHash);
      var l := CalcHash(pair, txids, h - 1, 2 * pos);
      if Exists(n, h - 1, 2 * pos + 1) {
        Unpair(pair, left.hash, right.hash, l, CalcHash(pair, txids, h - 1, 2 * pos + 1));
        ExtractSound(pair, txids, bits, hashes, h - 1, 2 * pos, nb + 1, nh);
        ExtractSound(pair, txids, bits, hashes, h - 1, 2 * pos + 1, left.nBits, left.nHash);
        GenuineConcat(txids, First(h, pos), First(h - 1, 2 * pos + 1), Last(n, h, pos), left.found, right.found);
      } else {
        Unpair(pair, left.hash, left.hash, l, l);
        ExtractSound(pair, txids, bits, hashes, h - 1, 2 * pos, nb + 1, nh);
      }
    }
  }

  lemma Unpair(pair: Pairing, a: Hash, b: Hash, c: Hash, d: Hash)
    requires Injective(pair) && pair(a, b) == pair(c, d)
    ensures a == c && b == d
  {
  }

  lemma StopSound(pair: Pairing, txids: seq<Hash>, bits: seq<bool>, hashes: seq<Hash>, h: nat, pos: nat, nb: nat, nh: nat)
    requires Exists(|txids|, h, pos) && (h == 0 || nb >= |bits| || !bits[nb])
    requires var r := Extract(pair, |txids|, bits, hashes, h, pos, nb, nh);
             !r.bad && r.hash == CalcHash(pair, txids, h, pos)
    ensures Genuine(txids, First(h, pos), Last(|txids|, h, pos),
                    Extract(pair, |txids|, bits, hashes, h, pos, nb, nh).found)
  {
    if h == 0 { LeafRange(|txids|, pos); }
  }

  // ---------- sizes ----------

  lemma {:induction false} MatchedSome(txids: seq<Hash>, vMatch: seq<bool>, lo: nat, hi: nat)
    requires lo <= hi <= |txids| == |vMatch| && AnyMatch(vMatch, lo, hi)
    ensures |Matched(txids, vMatch, lo, hi)| >= 1
    decreases hi
  {
    if !vMatch[hi - 1] { MatchedSome(txids, vMatch, lo, hi - 1); }
  }

  // At most one hash per leaf, at most 1 + matches * height, and at least one bit per hash.
  lemma {:induction false} BuildSizes(pair: Pairing, txids: seq<Hash>, vMatch: seq<bool>, h: nat, pos: nat)
    requires |txids| == |vMatch| && Exists(|txids|, h, pos)
    ensures First(h, pos) < Last(|txids|, h, pos) <= |txids|
    ensures var hs, m := |BuildHashes(pair, txids, vMatch, h, pos)|,
                         |Matched(txids, vMatch, First(h, pos), Last(|txids|, h, pos))|;
            && 1 <= hs <= Last(|txids|, h, pos) - First(h, pos)
            && hs <= 1 + m * h
            && hs <= |BuildBits(vMatch, h, pos)|
    decreases h
  {
    hide ParentOfMatch, BuildBits, BuildHashes, Matched, CalcHash, Exists;
    var n := |txids|;
    NodeRange(n, h, pos);
    if h > 0 && ParentOfMatch(vMatch, h, pos) {
      ParentHasMatch(txids, vMatch, h, pos);
      Children(n, h, pos);
      InnerNode(pair, txids, vMatch, h, pos);
      BuildSizes(pair, txids, vMatch, h - 1, 2 * pos);
      var hl := |BuildHashes(pair, txids, vMatch, h - 1, 2 * pos)|;
      var ml := |Matched(txids, vMatch, First(h - 1, 2 * pos), Last(n, h - 1, 2 * pos))|;
      if Exists(n, h - 1, 2 * pos + 1) {
        BuildSizes(pair, txids, vMatch, h - 1, 2 * pos + 1);
        MatchedSplit(txids, vMatch, First(h, pos), First(h - 1, 2 * pos + 1), Last(n, h, pos));
        var hr := |BuildHashes(pair, txids, vMatch, h - 1, 2 * pos + 1)|;
        var mr := |Matched(txids, vMatch, First(h - 1, 2 * pos + 1), Last(n, h - 1, 2 * pos + 1))|;
        BoundStep(hl, hr, ml, mr, h);
      } else {
        BoundStep(hl, 1, ml, 0, h);
      }
    } else {
      StopSizes(pair, txids, vMatch, h, pos);
    }
  }

  lemma ParentHasMatch(txids: seq<Hash>, vMatch: seq<bool>, h: nat, pos: nat)
    requires |txids| == |vMatch| && Exists(|txids|, h, pos) && ParentOfMatch(vMatch, h, pos)
    requires First(h, pos) < Last(|txids|, h, pos) <= |txids|
    ensures |Matched(txids, vMatch, First(h, pos), Last(|txids|, h, pos))| >= 1
  {
    MatchedSome(txids, vMatch, First(h, pos), Last(|txids|, h, pos));
  }

  lemma StopSizes(pair: Pairing, txids: seq<Hash>, vMatch: seq<bool>, h: nat, pos: nat)
    requires |txids| == |vMatch| && Exists(|txids|, h, pos) && (h == 0 || !ParentOfMatch(vMatch, h, pos))
    ensures |BuildHashes(pair, txids, vMatch, h, pos)| == |BuildBits(vMatch, h, pos)| == 1
  {
  }

  lemma BoundStep(a: nat, b: nat, m: nat, k: nat, h: nat)
    requires h > 0 && a <= 1 + m * (h - 1) && b <= 1 + k * (h - 1) && m + k >= 1
    ensures a + b <= 1 + (m + k) * h
  {
    assert (m + k) * h == m * (h - 1) + k * (h - 1) + m + k;
  }

  // ---------- the number of bits ----------

  // An inner node without a right child.
  predicate Lone(n: nat, h: nat, pos: nat) {
    h > 0 && Exists(n, h, pos) && !Exists(n, h - 1, 2 * pos + 1)
  }

  // How many such nodes the encoder descends into.
  function Singles(vMatch: seq<bool>, h: nat, pos: nat): nat
    requires Exists(|vMatch|, h, pos)
    decreases h
  {
    if h == 0 || !ParentOfMatch(vMatch, h, pos) then 0
    else
      Children(|vMatch|, h, pos);
      Singles(vMatch, h - 1, 2 * pos)
      + (if Exists(|vMatch|, h - 1, 2 * pos + 1) then Singles(vMatch, h - 1, 2 * pos + 1) else 1)
  }

  // Two bits per hash but one, and one more for each such node.
  lemma {:induction false} BitsExact(pair: Pairing, txids: seq<Hash>, vMatch: seq<bool>, h: nat, pos: nat)
    requires |txids| == |vMatch| && Exists(|txids|, h, pos)
    ensures |BuildBits(vMatch, h, pos)| == 2 * |BuildHashes(pair, txids, vMatch, h, pos)| - 1 + Singles(vMatch, h, pos)
    decreases h
  {
    hide ParentOfMatch, CalcHash, Exists;
    if h > 0 && ParentOfMatch(vMatch, h, pos) {
      Children(|txids|, h, pos);
      BitsExact(pair, txids, vMatch, h - 1, 2 * pos);
      if Exists(|txids|, h - 1, 2 * pos + 1) {
        BitsExact(pair, txids, vMatch, h - 1, 2 * pos + 1);
      }
    }
  }

  // The node that makes the count positive.
  lemma {:induction false} SingleNode(vMatch: seq<bool>, h: nat, pos: nat) returns (k: nat, q: nat)
    requires Exists(|vMatch|, h, pos) && Singles(vMatch, h, pos) > 0
    ensures k <= h && Lone(|vMatch|, k, q) && ParentOfMatch(vMatch, k, q)
    decreases h
  {
    hide ParentOfMatch, Exists;
    Children(|vMatch|, h, pos);
    if !Exists(|vMatch|, h - 1, 2 * pos + 1) {
      k, q := h, pos;
    } else if Singles(vMatch, h - 1, 2 * pos) > 0 {
      k, q := SingleNode(vMatch, h - 1, 2 * pos);
    } else {
      k, q := SingleNode(vMatch, h - 1, 2 * pos + 1);
    }
  }

  // A node exists only under an existing parent, which has all its matches.
  lemma ParentOf(vMatch: seq<bool>, k: nat, q: nat)
    requires Exists(|vMatch|, k, q)
    ensures Exists(|vMatch|, k + 1, q / 2)
    ensures ParentOfMatch(vMatch, k, q) ==> ParentOfMatch(vMatch, k + 1, q / 2)
  {
    var p := q / 2;
    ParentExists(|vMatch|, k, q);
    hide Exists, First, Last, Pow2;
    Children(|vMatch|, k + 1, p);
    NodeRange(|vMatch|, k, q);
    NodeRange(|vMatch|, k, 2 * p);
    assert q == 2 * p || q == 2 * p + 1;
  }

  lemma ParentExists(n: nat, k: nat, q: nat)
    requires Exists(n, k, q)
    ensures Exists(n, k + 1, q / 2)
  {
    assert (q / 2) * (2 * Pow2(k)) == (2 * (q / 2)) * Pow2(k);
    MulMonotone(2 * (q / 2), q, Pow2(k));
  }

  // A node descended into is counted by every node above it.
  lemma {:induction false} SinglesRise(vMatch: seq<bool>, k: nat, q: nat, h: nat)
    requires k <= h && Width(|vMatch|, h) <= 1
    requires Exists(|vMatch|, k, q) && Singles(vMatch, k, q) > 0 && ParentOfMatch(vMatch, k, q)
    ensures Exists(|vMatch|, h, 0) && Singles(vMatch, h, 0) > 0
    decreases h - k
  {
    hide ParentOfMatch, Exists, Width;
    if k == h {
      WidthIsExists(|vMatch|, h, q);
    } else {
      ParentOf(vMatch, k, q);
      assert q == 2 * (q / 2) || q == 2 * (q / 2) + 1;
      Children(|vMatch|, k + 1, q / 2);
      SinglesRise(vMatch, k + 1, q / 2, h);
    }
  }

  // ---------- the whole tree ----------

  const MAX_BLOCK_WEIGHT := 4000000
  const MIN_TRANSACTION_WEIGHT := 240

  // The loop that looks for the height of the tree.
  function HeightFrom(n: nat, h: nat): nat
    decreases n - Pow2(h)
  {
    WidthIsExists(n, h, 1);
    if Width(n, h) > 1 then HeightFrom(n, h + 1) else h
  }

  lemma {:induction false} HeightCovers(n: nat, h: nat)
    requires n > 0
    ensures Exists(n, HeightFrom(n, h), 0)
    ensures First(HeightFrom(n, h), 0) == 0 && Last(n, HeightFrom(n, h), 0) == n
    ensures Width(n, HeightFrom(n, h)) <= 1
    decreases n - Pow2(h)
  {
    WidthIsExists(n, h, 1);
    if Width(n, h) > 1 { HeightCovers(n, h + 1); }
  }

  function MerkleRoot(pair: Pairing, txids: seq<Hash>): Hash
    requires |txids| > 0
  {
    HeightCovers(|txids|, 0);
    CalcHash(pair, txids, HeightFrom(|txids|, 0), 0)
  }

  // What the constructor from a list of txids and a mask stores.
  function EncodeBits(vMatch: seq<bool>): seq<bool>
    requires |vMatch| > 0
  {
    HeightCovers(|vMatch|, 0);
    BuildBits(vMatch, HeightFrom(|vMatch|, 0), 0)
  }

  function EncodeHashes(pair: Pairing, txids: seq<Hash>, vMatch: seq<bool>): seq<Hash>
    requires |txids| == |vMatch| > 0
  {
    HeightCovers(|vMatch|, 0);
    BuildHashes(pair, txids, vMatch, HeightFrom(|vMatch|, 0), 0)
  }

  // A matched transaction lies under an inner node without a right child.
  ghost predicate MatchUnderLone(vMatch: seq<bool>) {
    exists k: nat, q: nat :: k <= HeightFrom(|vMatch|, 0) && Lone(|vMatch|, k, q) && ParentOfMatch(vMatch, k, q)
  }

  lemma SinglesIff(vMatch: seq<bool>)
    requires |vMatch| > 0
    ensures Exists(|vMatch|, HeightFrom(|vMatch|, 0), 0)
    ensures Singles(vMatch, HeightFrom(|vMatch|, 0), 0) > 0 <==> MatchUnderLone(vMatch)
  {
    hide ParentOfMatch, HeightFrom, Exists, Width;
    var H := HeightFrom(|vMatch|, 0);
    HeightCovers(|vMatch|, 0);
    if Singles(vMatch, H, 0) > 0 {
      var k, q := SingleNode(vMatch, H, 0);
    }
    if k: nat, q: nat :| k <= H && Lone(|vMatch|, k, q) && ParentOfMatch(vMatch, k, q) {
      SinglesRise(vMatch, k, q, H);
    }
  }

  // The documented size limits of the encoding.  The limit of two bits per hash but one holds
  // exactly when no matched transaction lies under an inner node without a right child.
  lemma EncodedSize(pair: Pairing, txids: seq<Hash>, vMatch: seq<bool>)
    requires |txids| == |vMatch| > 0
    ensures var hs, bits := |EncodeHashes(pair, txids, vMatch)|, |EncodeBits(vMatch)|;
            && hs <= |txids|
            && hs <= 1 + |Matched(txids, vMatch, 0, |txids|)| * HeightFrom(|txids|, 0)
            && hs <= bits
            && (bits <= 2 * hs - 1 <==> !MatchUnderLone(vMatch))
    ensures Exists(|vMatch|, HeightFrom(|vMatch|, 0), 0)
    ensures |EncodeBits(vMatch)| == 2 * |EncodeHashes(pair, txids, vMatch)| - 1 + Singles(vMatch, HeightFrom(|vMatch|, 0), 0)
  {
    hide BuildBits, BuildHashes, Singles, MatchUnderLone;
    HeightCovers(|txids|, 0);
    BuildSizes(pair, txids, vMatch, HeightFrom(|txids|, 0), 0);
    BitsExact(pair, txids, vMatch, HeightFrom(|txids|, 0), 0);
    SinglesIff(vMatch);
  }

  // Of three transactions only the third is matched: four bits for two hashes.
  lemma FourBitsTwoHashes(pair: Pairing, txids: seq<Hash>)
    requires |txids| == 3
    ensures var vMatch := [false, false, true];
            |EncodeBits(vMatch)| == 4 && |EncodeHashes(pair, txids, vMatch)| == 2 && MatchUnderLone(vMatch)
  {
    hide BuildBits, BuildHashes, ParentOfMatch, HeightFrom, CalcHash;
    var vMatch := [false, false, true];
    ThreeNodes();
    InnerNode(pair, txids, vMatch, 2, 0);
    StopSizes(pair, txids, vMatch, 1, 0);
    InnerNode(pair, txids, vMatch, 1, 1);
    StopSizes(pair, txids, vMatch, 0, 2);
    assert Lone(3, 1, 1);
  }

  // The tree of three transactions, of which the third is matched.
  lemma ThreeNodes()
    ensures HeightFrom(3, 0) == 2
    ensures Exists(3, 2, 0) && Exists(3, 1, 0) && Exists(3, 1, 1) && Exists(3, 0, 2) && !Exists(3, 0, 3)
    ensures var vMatch := [false, false, true];
            ParentOfMatch(vMatch, 2, 0) && !ParentOfMatch(vMatch, 1, 0) && ParentOfMatch(vMatch, 1, 1)
  {
    hide HeightFrom, Pow2;
    SmallPowers();
    ThreeHigh();
    var vMatch := [false, false, true];
    assert vMatch[2];
  }

  lemma SmallPowers()
    ensures Pow2(0) == 1 && Pow2(1) == 2 && Pow2(2) == 4
  {
  }

  lemma ThreeHigh()
    ensures HeightFrom(3, 0) == 2
  {
    hide Pow2;
    SmallPowers();
    assert HeightFrom(3, 2) == 2;
    assert HeightFrom(3, 1) == 2;
  }

  datatype Answer = Answer(root: Hash, found: seq<Leaf>)

  // ExtractMatches
  function ExtractMatches(pair: Pairing, n: nat, vBits: seq<bool>, vHash: seq<Hash>): Answer {
    if n == 0 || n > MAX_BLOCK_WEIGHT / MIN_TRANSACTION_WEIGHT || |vHash| > n || |vBits| < |vHash| then
      Answer(NULL_HASH, [])
    else
      var r := Extract(pair, n, vBits, vHash, HeightFrom(n, 0), 0, 0, 0);
      if r.bad || (r.nBits + 7) / 8 != (|vBits| + 7) / 8 || r.nHash != |vHash| then Answer(NULL_HASH, r.found)
      else Answer(r.hash, r.found)
  }

  lemma SameBytes(bits: nat, padding: nat)
    requires padding < 8 && (bits + padding) % 8 == 0
    ensures (bits + 7) / 8 == (bits + padding + 7) / 8
  {
  }

  // Encoding, with up to seven padding bits, and decoding again gives the root and exactly
  // the masked transactions.
  lemma RoundTrip(pair: Pairing, txids: seq<Hash>, vMatch: seq<bool>, padding: seq<bool>)
    requires Injective(pair) && Distinct(txids) && |txids| == |vMatch|
    requires 0 < |txids| <= MAX_BLOCK_WEIGHT / MIN_TRANSACTION_WEIGHT
    requires |padding| < 8 && (|EncodeBits(vMatch)| + |padding|) % 8 == 0
    ensures var a := ExtractMatches(pair, |txids|, EncodeBits(vMatch) + padding, EncodeHashes(pair, txids, vMatch));
            && a.root == MerkleRoot(pair, txids)
            && a.found == Matched(txids, vMatch, 0, |txids|)
            && IsMask(txids, vMatch, 0, |txids|, a.found)
  {
    hide Extract, BuildBits, BuildHashes, CalcHash, Matched, IsMask, HeightFrom, Exists, Injective, Distinct;
    var n := |txids|;
    var H := HeightFrom(n, 0);
    HeightCovers(n, 0);
    var b, hs := EncodeBits(vMatch), EncodeHashes(pair, txids, vMatch);
    var bits := b + padding;
    assert bits[0..|b|] == b && hs[0..|hs|] == hs;
    SameBytes(|b|, |padding|);
    ExtractOfBuild(pair, txids, vMatch, H, 0, bits, hs, 0, 0);
    EncodedSize(pair, txids, vMatch);
    MatchedIsMask(txids, vMatch, 0, n);
  }

  // Whatever a peer sends, an answer with the real (non-null) root reports only real
  // transactions at their real positions.
  lemma Authentic(pair: Pairing, txids: seq<Hash>, vBits: seq<bool>, vHash: seq<Hash>)
    requires Injective(pair) && |txids| > 0
    requires ExtractMatches(pair, |txids|, vBits, vHash).root == MerkleRoot(pair, txids) != NULL_HASH
    ensures Genuine(txids, 0, |txids|, ExtractMatches(pair, |txids|, vBits, vHash).found)
  {
    hide Extract, CalcHash, Genuine, HeightFrom;
    HeightCovers(|txids|, 0);
    ExtractSound(pair, txids, vBits, vHash, HeightFrom(|txids|, 0), 0, 0, 0);
  }
}
