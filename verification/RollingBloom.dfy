/**
 * CRollingBloomFilter (src/bloom.cpp): a filter that always remembers the most recently
 * inserted keys.  Every position holds two bits, spread over two words, that name the
 * generation it was last set in.
 */
module RollingBloom {

  // ---------- words and cells ----------

  type Shift = s: bv64 | s < 64

  predicate Bit(x: bv64, s: Shift) { (x >> s) & 1 == 1 }

  // The generation stored at one bit position of a word pair; 0 when unset.
  function Cell(x: bv64, y: bv64, s: Shift): (c: nat)
    ensures c < 4
  {
    (if Bit(x, s) then 1 else 0) + (if Bit(y, s) then 2 else 0)
  }

  // nGeneration & 1 and nGeneration >> 1, for generations 1 to 3
  predicate Low(g: nat) { g % 2 == 1 }
  predicate High(g: nat) { g >= 2 }

  // The bits that stay when one generation is wiped from a word pair.
  function Mask(x: bv64, y: bv64, low: bool, high: bool): bv64 { Or(Flip(x, low), Flip(y, high)) }

  // x ^ (0 - v)
  function Flip(x: bv64, v: bool): bv64 { if v then x ^ (0 - 1) else x ^ (0 - 0) }

  function And(x: bv64, m: bv64): bv64 { x & m }
  function Or(x: bv64, y: bv64): bv64 { x | y }

  function Put(x: bv64, s: Shift, v: bool): bv64 {
    if v then (x & !(1 << s)) | (1 << s) else (x & !(1 << s)) | (0 << s)
  }

  lemma PutOne(x: bv64, s: Shift, t: Shift)
    ensures Bit((x & !(1 << s)) | (1 << s), t) <==> s == t || Bit(x, t)
  {
  }

  lemma PutZero(x: bv64, s: Shift, t: Shift)
    ensures Bit((x & !(1 << s)) | (0 << s), t) <==> s != t && Bit(x, t)
  {
  }

  lemma PutBit(x: bv64, s: Shift, v: bool, t: Shift)
    ensures Bit(Put(x, s, v), t) == if s == t then v else Bit(x, t)
  {
    hide Bit;
    if v { PutOne(x, s, t); } else { PutZero(x, s, t); }
  }

  // A bit of a word with some bits masked out.
  lemma MaskedBit(x: bv64, m: bv64, s: Shift)
    ensures Bit(x & m, s) <==> Bit(x, s) && Bit(m, s)
  {
  }

  lemma AndBit(x: bv64, m: bv64, s: Shift)
    ensures Bit(And(x, m), s) <==> Bit(x, s) && Bit(m, s)
  {
    hide Bit;
    MaskedBit(x, m, s);
  }

  lemma EitherBit(x: bv64, y: bv64, s: Shift)
    ensures Bit(x | y, s) <==> Bit(x, s) || Bit(y, s)
  {
  }

  lemma OrBit(x: bv64, y: bv64, s: Shift)
    ensures Bit(Or(x, y), s) <==> Bit(x, s) || Bit(y, s)
  {
    hide Bit;
    EitherBit(x, y, s);
  }

  lemma FlipOne(x: bv64, s: Shift)
    ensures Bit(x ^ (0 - 1), s) <==> !Bit(x, s)
  {
  }

  lemma FlipZero(x: bv64)
    ensures x ^ (0 - 0) == x
  {
  }

  // 0 - v is all ones or all zeros.
  lemma FlipBit(x: bv64, v: bool, s: Shift)
    ensures Bit(Flip(x, v), s) <==> Bit(x, s) != v
  {
    hide Bit;
    if v { FlipOne(x, s); } else { FlipZero(x); }
  }

  // The mask has a bit where the generations differ.
  lemma MaskBit(x: bv64, y: bv64, low: bool, high: bool, s: Shift)
    ensures Bit(Mask(x, y, low, high), s) <==> !(Bit(x, s) == low && Bit(y, s) == high)
  {
    hide Bit, Flip, Or;
    OrBit(Flip(x, low), Flip(y, high), s);
    FlipBit(x, low, s);
    FlipBit(y, high, s);
  }

  // Wiping generation g, and writing generation g.
  lemma WipeCell(x: bv64, y: bv64, g: nat, s: Shift)
    requires 1 <= g <= 3
    ensures var m := Mask(x, y, Low(g), High(g));
            Cell(And(x, m), And(y, m), s) == if Cell(x, y, s) == g then 0 else Cell(x, y, s)
  {
    hide Bit, Mask, And;
    var m := Mask(x, y, Low(g), High(g));
    MaskBit(x, y, Low(g), High(g), s);
    AndBit(x, m, s);
    AndBit(y, m, s);
  }

  lemma PutCell(x: bv64, y: bv64, g: nat, s: Shift, t: Shift)
    requires 1 <= g <= 3
    ensures Cell(Put(x, s, Low(g)), Put(y, s, High(g)), t) == if s == t then g else Cell(x, y, t)
  {
    hide Bit, Put;
    PutBit(x, s, Low(g), t);
    PutBit(y, s, High(g), t);
  }

  // ---------- the filter ----------

  // Which generations a cell of a key may show, by how many generations ago the key came in.
  predicate Live(cell: nat, age: nat, g: nat) {
    if age == 0 then cell == g
    else if age == 1 then cell == g || cell == Before(g)
    else cell != 0
  }

  function Before(g: nat): nat { if g <= 1 then 3 else g - 1 }
  function After(g: nat): nat { if g + 1 == 4 then 1 else g + 1 }

  // How many generations ago a cell was set.
  function AgeOf(cell: nat, g: nat): nat {
    if cell == g then 0 else if cell == Before(g) then 1 else 2
  }

  lemma AgeOfNext(cell: nat, g: nat)
    requires 1 <= g <= 3 && 1 <= cell <= 3 && cell != After(g)
    ensures AgeOf(cell, After(g)) == AgeOf(cell, g) + 1
  {
  }

  lemma Aging(cell: nat, age: nat, g: nat)
    requires 1 <= g <= 3 && age <= 1 && Live(cell, age, g) && cell < 4
    ensures cell != After(g) && Live(cell, age + 1, After(g))
  {
  }

  // Words come in pairs; the lowest bit of a word index is ignored.
  function CellIn(d: seq<bv64>, w: nat, s: Shift): (c: nat)
    requires w < |d| && |d| % 2 == 0
    ensures c < 4
  {
    Cell(d[w - w % 2], d[w - w % 2 + 1], s)
  }

  ghost predicate SameCell(w: nat, s: Shift, w': nat, s': Shift) {
    w - w % 2 == w' - w' % 2 && s == s'
  }

  ghost predicate WipedPair(d: seq<bv64>, e: seq<bv64>, i: nat, g: nat)
    requires |d| == |e| && i + 1 < |d|
  {
    var m := Mask(d[i], d[i + 1], Low(g), High(g));
    e[i] == And(d[i], m) && e[i + 1] == And(d[i + 1], m)
  }

  // Generation g is gone from every cell, and nothing else.
  ghost predicate Wiped(d: seq<bv64>, e: seq<bv64>, g: nat) {
    && |d| == |e| && |d| % 2 == 0
    && forall w: nat, s: Shift :: w < |d| ==> CellIn(e, w, s) == if CellIn(d, w, s) == g then 0 else CellIn(d, w, s)
  }

  lemma WipedAll(d: seq<bv64>, e: seq<bv64>, g: nat)
    requires 1 <= g <= 3 && |d| == |e| && |d| % 2 == 0
    requires forall i :: 0 <= i < |d| && i % 2 == 0 ==> WipedPair(d, e, i, g)
    ensures Wiped(d, e, g)
  {
    hide Cell, Mask, And;
    forall w: nat, s: Shift | w < |d|
      ensures CellIn(e, w, s) == if CellIn(d, w, s) == g then 0 else CellIn(d, w, s)
    {
      var i := w - w % 2;
      assert WipedPair(d, e, i, g);
      WipeCell(d[i], d[i + 1], g, s);
    }
  }

  // One cell now shows generation g, and nothing else changed.
  ghost predicate Marked(d: seq<bv64>, e: seq<bv64>, w: nat, s: Shift, g: nat) {
    && |d| == |e| && |d| % 2 == 0 && w < |d|
    && forall w': nat, s': Shift :: w' < |d| ==> CellIn(e, w', s') == if SameCell(w, s, w', s') then g else CellIn(d, w', s')
  }

  lemma MarkedIs(d: seq<bv64>, e: seq<bv64>, w: nat, s: Shift, g: nat)
    requires 1 <= g <= 3 && |d| % 2 == 0 && w < |d|
    requires var i := w - w % 2; e == d[i := Put(d[i], s, Low(g))][i + 1 := Put(d[i + 1], s, High(g))]
    ensures Marked(d, e, w, s, g)
  {
    hide Cell, Put;
    var i := w - w % 2;
    forall w': nat, s': Shift | w' < |d|
      ensures CellIn(e, w', s') == if SameCell(w, s, w', s') then g else CellIn(d, w', s')
    {
      PutCell(d[i], d[i + 1], g, s, s');
    }
  }

  class RollingBloomFilter<Key(!new, ==)> {
    const nHashFuncs: nat
    const nEntriesPerGeneration: nat
    const murmur: (bv32, Key) -> bv32
    const data: array<bv64>
    var nEntriesThisGeneration: nat
    var nGeneration: nat
    var nTweak: bv32
    // every key inserted since the last reset
    ghost var history: seq<Key>

    // RollingBloomHash
    function Hash(tweak: bv32, n: nat, key: Key): bv32
    {
      murmur((n % 0x1_0000_0000) as bv32 * 0xFBA4C795 + tweak, key)
    }

    // Where one hash of a key points: a bit, and the pair of words it lives in.
    static function BitOf(h: bv32): Shift { (h & 0x3F) as bv64 }

    static function WordOf(h: bv32, size: nat): (w: nat)
      requires size > 0
      ensures w < size
    {
      ((h >> 6) as nat) % size
    }

    // The generation shown by one cell of a key.
    function KeyCell(d: seq<bv64>, tweak: bv32, n: nat, key: Key): (c: nat)
      requires |d| > 0 && |d| % 2 == 0
      ensures c < 4
    {
      CellIn(d, WordOf(Hash(tweak, n, key), |d|), BitOf(Hash(tweak, n, key)))
    }

    static function Age(j: int, start: int, perGeneration: nat): nat {
      if j >= start then 0 else if j >= start - perGeneration then 1 else 2
    }

    // Every key of the last three generations still shows in all its cells.
    ghost predicate Remembers(d: seq<bv64>, tweak: bv32, keys: seq<Key>, start: int, g: nat)
      requires |d| > 0 && |d| % 2 == 0
    {
      forall j, n :: 0 <= j < |keys| && j >= start - 2 * nEntriesPerGeneration && 0 <= n < nHashFuncs ==>
        Live(KeyCell(d, tweak, n, keys[j]), Age(j, start, nEntriesPerGeneration), g)
    }

    // One hash of a key points at a cell.
    predicate Points(size: nat, tweak: bv32, n: nat, key: Key, w: nat, s: Shift)
      requires size > 0
    {
      var v := WordOf(Hash(tweak, n, key), size);
      v - v % 2 == w - w % 2 && BitOf(Hash(tweak, n, key)) == s
    }

    // Some key that is `age` generations old has a hash pointing at the cell.
    ghost predicate SetBy(size: nat, tweak: bv32, keys: seq<Key>, start: int, w: nat, s: Shift, age: nat)
      requires size > 0
    {
      exists j, n :: 0 <= j < |keys| && j >= start - 2 * nEntriesPerGeneration && 0 <= n < nHashFuncs &&
        Points(size, tweak, n, keys[j], w, s) && Age(j, start, nEntriesPerGeneration) == age
    }

    // Every set cell was set by a key of the generation it shows, so older keys are forgotten.
    ghost predicate Forgets(d: seq<bv64>, tweak: bv32, keys: seq<Key>, start: int, g: nat)
      requires |d| > 0 && |d| % 2 == 0
    {
      forall w: nat, s: Shift :: w < |d| && CellIn(d, w, s) != 0 ==> SetBy(|d|, tweak, keys, start, w, s, AgeOf(CellIn(d, w, s), g))
    }

    ghost predicate Valid()
      reads this, data
    {
      && data.Length > 0 && data.Length % 2 == 0 && nEntriesPerGeneration > 0
      && 1 <= nGeneration <= 3 && nEntriesThisGeneration <= nEntriesPerGeneration && nEntriesThisGeneration <= |history|
      && Remembers(data[..], nTweak, history, |history| - nEntriesThisGeneration, nGeneration)
      && Forgets(data[..], nTweak, history, |history| - nEntriesThisGeneration, nGeneration)
    }

    // The configuration is what the floating-point sizing arrives at for nElements >= 1.
    constructor (nElements: nat, nHashFuncs: nat, words: nat, murmur: (bv32, Key) -> bv32, tweak: bv32)
      requires nElements > 0 && words > 0
      ensures Valid() && history == [] && fresh(data)
      ensures this.nHashFuncs == nHashFuncs && nElements <= 2 * nEntriesPerGeneration <= nElements + 1
      ensures this.murmur == murmur && data.Length == 2 * words && nTweak == tweak && nEntriesThisGeneration == 0
    {
      this.nHashFuncs := nHashFuncs;
      this.murmur := murmur;
      nEntriesPerGeneration := (nElements + 1) / 2;
      data := new bv64[2 * words];
      nEntriesThisGeneration := 0;
      nGeneration := 1;
      nTweak := tweak;
      history := [];
      new;
      Reset(tweak);
    }

    // reset
    method Reset(tweak: bv32)
      requires data.Length > 0 && data.Length % 2 == 0 && nEntriesPerGeneration > 0
      modifies this, data
      ensures Valid() && history == [] && nTweak == tweak && nEntriesThisGeneration == 0 && nGeneration == 1
    {
      nTweak := tweak;
      nEntriesThisGeneration := 0;
      nGeneration := 1;
      history := [];
      for i := 0 to data.Length
        modifies data
        invariant forall k :: 0 <= k < i ==> data[k] == 0
      {
        data[i] := 0;
      }
      NothingSet(data[..]);
    }

    static lemma NothingSet(d: seq<bv64>)
      requires |d| % 2 == 0 && forall k :: 0 <= k < |d| ==> d[k] == 0
      ensures forall w: nat, s: Shift :: w < |d| ==> CellIn(d, w, s) == 0
    {
      hide Bit;
      forall s: Shift ensures !Bit(0, s) { ZeroBit(s); }
    }

    static lemma ZeroBit(s: Shift)
      ensures !Bit(0, s)
    {
    }

    // insert
    method Insert(key: Key)
      requires Valid()
      modifies this, data
      ensures Valid() && history == old(history) + [key]
      ensures nTweak == old(nTweak)
    {
      hide Remembers, Forgets, Wiped, After;
      if nEntriesThisGeneration == nEntriesPerGeneration {
        ghost var d := data[..];
        nEntriesThisGeneration := 0;
        nGeneration := nGeneration + 1;
        if nGeneration == 4 {
          nGeneration := 1;
        }
        AfterIs(old(nGeneration));
        Wipe();
        Rolled(d, data[..], nTweak, history, |history| - nEntriesPerGeneration, old(nGeneration));
        RolledForgets(d, data[..], nTweak, history, old(nGeneration));
      }
      nEntriesThisGeneration := nEntriesThisGeneration + 1;
      ghost var d := data[..];
      Mark(key);
      Inserted(d, data[..], nTweak, history, key, |history| + 1 - nEntriesThisGeneration, nGeneration);
      InsertedForgets(d, data[..], nTweak, history, key, |history| + 1 - nEntriesThisGeneration, nGeneration);
      history := history + [key];
    }

    static lemma AfterIs(g: nat)
      ensures After(g) == if g + 1 == 4 then 1 else g + 1
    {
    }

    // Clears the cells of the generation whose number is taken again.
    method Wipe()
      requires data.Length % 2 == 0 && 1 <= nGeneration <= 3
      modifies data
      ensures Wiped(old(data[..]), data[..], nGeneration)
    {
      hide Mask, And, Wiped;
      ghost var d := data[..];
      var p := 0;
      while p < data.Length
        invariant 0 <= p <= data.Length && p % 2 == 0
        invariant forall i :: 0 <= i < p && i % 2 == 0 ==> WipedPair(d, data[..], i, nGeneration)
        invariant forall i :: p <= i < data.Length ==> data[i] == d[i]
      {
        ghost var before := data[..];
        var p1, p2 := data[p], data[p + 1];
        var mask := Mask(p1, p2, Low(nGeneration), High(nGeneration));
        data[p] := And(p1, mask);
        data[p + 1] := And(p2, mask);
        forall i | 0 <= i < p + 2 && i % 2 == 0
          ensures WipedPair(d, data[..], i, nGeneration)
        {
          assert i < p ==> WipedPair(d, before, i, nGeneration);
        }
        p := p + 2;
      }
      WipedAll(d, data[..], nGeneration);
    }

    // Keys of the last two generations do not carry the wiped number.
    lemma Rolled(d: seq<bv64>, e: seq<bv64>, tweak: bv32, keys: seq<Key>, start: int, g: nat)
      requires |d| > 0 && |d| % 2 == 0 && 1 <= g <= 3 && Wiped(d, e, After(g))
      requires Remembers(d, tweak, keys, start, g) && |keys| - start <= nEntriesPerGeneration
      ensures Remembers(e, tweak, keys, start + nEntriesPerGeneration, After(g))
    {
      hide CellIn, After, Live, WordOf, BitOf, Hash;
      var n0 := nEntriesPerGeneration;
      forall j, n | 0 <= j < |keys| && j >= start + n0 - 2 * n0 && 0 <= n < nHashFuncs
        ensures Live(KeyCell(e, tweak, n, keys[j]), Age(j, start + n0, n0), After(g))
      {
        assert Live(KeyCell(d, tweak, n, keys[j]), Age(j, start, n0), g);
        Aging(KeyCell(d, tweak, n, keys[j]), Age(j, start, n0), g);
      }
    }

    // What is left after a wipe is one generation older.
    lemma RolledForgets(d: seq<bv64>, e: seq<bv64>, tweak: bv32, keys: seq<Key>, g: nat)
      requires |d| > 0 && |d| % 2 == 0 && 1 <= g <= 3 && Wiped(d, e, After(g)) && nEntriesPerGeneration <= |keys|
      requires Forgets(d, tweak, keys, |keys| - nEntriesPerGeneration, g)
      ensures Forgets(e, tweak, keys, |keys|, After(g))
    {
      hide CellIn, After, AgeOf, Points;
      var n0 := nEntriesPerGeneration;
      forall w: nat, s: Shift | w < |e| && CellIn(e, w, s) != 0
        ensures SetBy(|e|, tweak, keys, |keys|, w, s, AgeOf(CellIn(e, w, s), After(g)))
      {
        var c := CellIn(d, w, s);
        assert c == CellIn(e, w, s) && c != After(g);
        AgeOfNext(c, g);
        var j, n :| 0 <= j < |keys| && j >= |keys| - n0 - 2 * n0 && 0 <= n < nHashFuncs &&
          Points(|d|, tweak, n, keys[j], w, s) && Age(j, |keys| - n0, n0) == AgeOf(c, g);
        AgeBound(c, g);
        assert Points(|e|, tweak, n, keys[j], w, s) && Age(j, |keys|, n0) == AgeOf(c, After(g));
      }
    }

    static lemma AgeBound(c: nat, g: nat)
      requires 1 <= g <= 3 && 1 <= c <= 3
      ensures AgeOf(c, After(g)) <= 2
    {
    }

    // A new key sets only its own cells.
    lemma InsertedForgets(d: seq<bv64>, e: seq<bv64>, tweak: bv32, keys: seq<Key>, key: Key, start: int, g: nat)
      requires 1 <= g <= 3 && start <= |keys| && MarkedUpTo(d, e, tweak, key, nHashFuncs, g) && Forgets(d, tweak, keys, start, g)
      ensures Forgets(e, tweak, keys + [key], start, g)
    {
      hide CellIn, Points;
      var n0, all := nEntriesPerGeneration, keys + [key];
      forall w: nat, s: Shift | w < |e| && CellIn(e, w, s) != 0
        ensures SetBy(|e|, tweak, all, start, w, s, AgeOf(CellIn(e, w, s), g))
      {
        if CellIn(e, w, s) == CellIn(d, w, s) {
          var j, n :| 0 <= j < |keys| && j >= start - 2 * n0 && 0 <= n < nHashFuncs &&
            Points(|d|, tweak, n, keys[j], w, s) && Age(j, start, n0) == AgeOf(CellIn(d, w, s), g);
          assert all[j] == keys[j];
        } else {
          var n :| 0 <= n < nHashFuncs && Points(|d|, tweak, n, key, w, s);
          assert all[|keys|] == key && Age(|keys|, start, n0) == 0;
        }
      }
    }

    // The cells of a key show generation g; every other cell shows what it did.
    ghost predicate MarkedUpTo(d: seq<bv64>, e: seq<bv64>, tweak: bv32, key: Key, upTo: nat, g: nat) {
      && |d| == |e| && |d| > 0 && |d| % 2 == 0
      && (forall w: nat, s: Shift :: w < |d| ==>
            || CellIn(e, w, s) == CellIn(d, w, s)
            || (CellIn(e, w, s) == g && exists n :: 0 <= n < upTo && Points(|d|, tweak, n, key, w, s)))
      && forall n :: 0 <= n < upTo ==> KeyCell(e, tweak, n, key) == g
    }

    method Mark(key: Key)
      requires data.Length > 0 && data.Length % 2 == 0 && 1 <= nGeneration <= 3
      modifies data
      ensures MarkedUpTo(old(data[..]), data[..], nTweak, key, nHashFuncs, nGeneration)
    {
      hide MarkedUpTo, Put, Hash, BitOf, WordOf, Low, High, Marked;
      ghost var d := data[..];
      NothingMarked(d, nTweak, key, nGeneration);
      for n := 0 to nHashFuncs
        invariant MarkedUpTo(d, data[..], nTweak, key, n, nGeneration)
      {
        ghost var before := data[..];
        var h := Hash(nTweak, n, key);
        var bit := BitOf(h);
        var pos := WordOf(h, data.Length);
        var low := pos - pos % 2;
        data[low] := Put(data[low], bit, Low(nGeneration));
        data[low + 1] := Put(data[low + 1], bit, High(nGeneration));
        assert data[..] == before[low := Put(before[low], bit, Low(nGeneration))][low + 1 := Put(before[low + 1], bit, High(nGeneration))];
        MarkedIs(before, data[..], pos, bit, nGeneration);
        MarkedOne(d, before, data[..], nTweak, key, n, nGeneration);
      }
    }

    lemma NothingMarked(d: seq<bv64>, tweak: bv32, key: Key, g: nat)
      requires |d| > 0 && |d| % 2 == 0
      ensures MarkedUpTo(d, d, tweak, key, 0, g)
    {
    }

    lemma MarkedOne(d: seq<bv64>, before: seq<bv64>, e: seq<bv64>, tweak: bv32, key: Key, n: nat, g: nat)
      requires MarkedUpTo(d, before, tweak, key, n, g)
      requires var h := Hash(tweak, n, key); Marked(before, e, WordOf(h, |before|), BitOf(h), g)
      ensures MarkedUpTo(d, e, tweak, key, n + 1, g)
    {
      hide CellIn, Hash, BitOf, WordOf, SameCell, Points;
      SameCellHere(WordOf(Hash(tweak, n, key), |before|), BitOf(Hash(tweak, n, key)));
      forall m | 0 <= m < n + 1
        ensures KeyCell(e, tweak, m, key) == g
      {
        assert m < n ==> KeyCell(before, tweak, m, key) == g;
      }
      forall w: nat, s: Shift | w < |d| && CellIn(e, w, s) != CellIn(d, w, s)
        ensures CellIn(e, w, s) == g && exists m :: 0 <= m < n + 1 && Points(|d|, tweak, m, key, w, s)
      {
        PointsHere(|d|, tweak, n, key, w, s);
        if CellIn(e, w, s) == CellIn(before, w, s) {
          var m :| 0 <= m < n && Points(|d|, tweak, m, key, w, s);
        } else {
          assert Points(|d|, tweak, n, key, w, s);
        }
      }
    }

    lemma PointsHere(size: nat, tweak: bv32, n: nat, key: Key, w: nat, s: Shift)
      requires size > 0
      ensures Points(size, tweak, n, key, w, s) <==> SameCell(WordOf(Hash(tweak, n, key), size), BitOf(Hash(tweak, n, key)), w, s)
    {
    }

    static lemma SameCellHere(w: nat, s: Shift)
      ensures SameCell(w, s, w, s)
    {
    }

    // A new key is remembered and no other is forgotten.
    lemma Inserted(d: seq<bv64>, e: seq<bv64>, tweak: bv32, keys: seq<Key>, key: Key, start: int, g: nat)
      requires 1 <= g <= 3 && start <= |keys| && MarkedUpTo(d, e, tweak, key, nHashFuncs, g) && Remembers(d, tweak, keys, start, g)
      ensures Remembers(e, tweak, keys + [key], start, g)
    {
      hide CellIn, Hash, BitOf, WordOf;
      var n0, all := nEntriesPerGeneration, keys + [key];
      forall j, n | 0 <= j < |all| && j >= start - 2 * n0 && 0 <= n < nHashFuncs
        ensures Live(KeyCell(e, tweak, n, all[j]), Age(j, start, n0), g)
      {
        if j < |keys| {
          assert Live(KeyCell(d, tweak, n, keys[j]), Age(j, start, n0), g);
        } else {
          assert KeyCell(e, tweak, n, key) == g;
        }
      }
    }

    // Some recent key has a hash pointing at the same cell as hash n of this key.
    ghost predicate Covered(key: Key, n: nat)
      reads this
    {
      exists j, m :: 0 <= j < |Recent()| && 0 <= m < nHashFuncs && SameTarget(n, key, m, Recent()[j])
    }

    predicate SameTarget(n: nat, key: Key, m: nat, other: Key)
      reads this
    {
      data.Length > 0 &&
      var h := Hash(nTweak, n, key);
      Points(data.Length, nTweak, m, other, WordOf(h, data.Length), BitOf(h))
    }

    // contains: true exactly when each cell of the key is one of a recent key, in particular
    // for every recent key.
    method Contains(key: Key) returns (r: bool)
      requires Valid()
      ensures r <==> forall n :: 0 <= n < nHashFuncs ==> KeyCell(data[..], nTweak, n, key) != 0
      ensures r <==> forall n :: 0 <= n < nHashFuncs ==> Covered(key, n)
      ensures key in Recent() ==> r
    {
      hide Valid, Recent, Covered, Hash, BitOf, Bit, Or, Cell, KeyCell;
      ValidIs();
      RecentShows(key);
      forall n | 0 <= n < nHashFuncs ensures KeyCell(data[..], nTweak, n, key) != 0 <==> Covered(key, n) { CoveredIff(key, n); }
      for n := 0 to nHashFuncs
        invariant forall m :: 0 <= m < n ==> KeyCell(data[..], nTweak, m, key) != 0
      {
        var h := Hash(nTweak, n, key);
        var bit := BitOf(h);
        var pos := WordOf(h, data.Length);
        var low := pos - pos % 2;
        PairBit(data[low], data[low + 1], bit);
        KeyCellIs(n, key);
        if !Bit(Or(data[low], data[low + 1]), bit) {
          assert !Covered(key, n);
          return false;
        }
      }
      return true;
    }

    lemma KeyCellIs(n: nat, key: Key)
      requires data.Length > 0 && data.Length % 2 == 0
      ensures var h := Hash(nTweak, n, key);
              var low := WordOf(h, data.Length) - WordOf(h, data.Length) % 2;
              KeyCell(data[..], nTweak, n, key) == Cell(data[low], data[low + 1], BitOf(h))
    {
      hide Cell, Hash, BitOf, WordOf;
    }

    lemma CoveredIff(key: Key, n: nat)
      requires Valid() && n < nHashFuncs
      ensures KeyCell(data[..], nTweak, n, key) != 0 <==> Covered(key, n)
    {
      hide CellIn, Hash, BitOf, WordOf, Points, Recent, Remembers;
      var h := Hash(nTweak, n, key);
      var w, s, start := WordOf(h, data.Length), BitOf(h), |history| - nEntriesThisGeneration;
      if CellIn(data[..], w, s) != 0 {
        assert SetBy(data.Length, nTweak, history, start, w, s, AgeOf(CellIn(data[..], w, s), nGeneration));
        var j, m :| 0 <= j < |history| && j >= start - 2 * nEntriesPerGeneration && 0 <= m < nHashFuncs &&
          Points(data.Length, nTweak, m, history[j], w, s);
        var k := RecentFrom(j);
        assert SameTarget(n, key, m, Recent()[k]);
      }
      if j, m :| 0 <= j < |Recent()| && 0 <= m < nHashFuncs && SameTarget(n, key, m, Recent()[j]) {
        RecentShows(Recent()[j]);
        SameCells(data[..], nTweak, m, Recent()[j], w, s);
      }
    }

    lemma RecentFrom(j: nat) returns (k: nat)
      requires j < |history| && j >= |history| - nEntriesThisGeneration - 2 * nEntriesPerGeneration
      ensures k < |Recent()| && Recent()[k] == history[j]
    {
      k := j - (|history| - |Recent()|);
    }

    lemma SameCells(d: seq<bv64>, tweak: bv32, m: nat, other: Key, w: nat, s: Shift)
      requires |d| > 0 && |d| % 2 == 0 && w < |d| && Points(|d|, tweak, m, other, w, s)
      ensures KeyCell(d, tweak, m, other) == CellIn(d, w, s)
    {
      hide Cell, Hash, BitOf, WordOf;
    }

    lemma ValidIs()
      requires Valid()
      ensures data.Length > 0 && data.Length % 2 == 0
    {
    }

    static lemma PairBit(x: bv64, y: bv64, s: Shift)
      ensures Bit(Or(x, y), s) <==> Cell(x, y, s) != 0
    {
      hide Bit, Or;
      OrBit(x, y, s);
    }

    // The last 2 * nEntriesPerGeneration + nEntriesThisGeneration keys, or all if fewer.
    ghost function Recent(): seq<Key>
      reads this
    {
      var k := 2 * nEntriesPerGeneration + nEntriesThisGeneration;
      if k <= |history| then history[|history| - k..] else history
    }

    lemma RecentShows(key: Key)
      requires Valid()
      ensures key in Recent() ==> forall n :: 0 <= n < nHashFuncs ==> KeyCell(data[..], nTweak, n, key) != 0
    {
      hide KeyCell;
      if key in Recent() {
        var i :| 0 <= i < |Recent()| && Recent()[i] == key;
        var j := |history| - |Recent()| + i;
        assert history[j] == key;
        forall n | 0 <= n < nHashFuncs
          ensures KeyCell(data[..], nTweak, n, key) != 0
        {
          assert Live(KeyCell(data[..], nTweak, n, history[j]), Age(j, |history| - nEntriesThisGeneration, nEntriesPerGeneration), nGeneration);
        }
      }
    }

    // The filter's promise: at least the last nElements keys are recent.
    lemma LastElements(nElements: nat)
      requires Valid() && 2 * nEntriesPerGeneration >= nElements
      ensures forall j :: |history| - nElements <= j < |history| && 0 <= j ==> history[j] in Recent()
    {
      forall j | |history| - nElements <= j < |history| && 0 <= j
        ensures history[j] in Recent()
      {
        assert Recent()[j - (|history| - |Recent()|)] == history[j];
      }
    }
  }
}
