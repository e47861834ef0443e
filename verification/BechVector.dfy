/**
 * A valid string of src/test/bech32_tests.cpp that uses every character of the set, worked
 * through the model: "abcdef" with the symbols 0 to 31.
 */
module BechVector {
  import opened Bech32

  const PREFIX: seq<bv8> := [0x61, 0x62, 0x63, 0x64, 0x65, 0x66]

  const SMALL: seq<Symbol> := [0, 1, 2, 3, 4, 5, 6, 7, 8, 9, 10, 11, 12, 13, 14, 15]
  const LARGE: seq<Symbol> := [16, 17, 18, 19, 20, 21, 22, 23, 24, 25, 26, 27, 28, 29, 30, 31]
  const VALUES := SMALL + LARGE

  // "qpzry9x8gf2tvdw0", "s3jn54khce6mua7l" and "mqqqxw"
  const SMALL_LETTERS: seq<bv8> :=
    [0x71, 0x70, 0x7a, 0x72, 0x79, 0x39, 0x78, 0x38, 0x67, 0x66, 0x32, 0x74, 0x76, 0x64, 0x77, 0x30]
  const LARGE_LETTERS: seq<bv8> :=
    [0x73, 0x33, 0x6a, 0x6e, 0x35, 0x34, 0x6b, 0x68, 0x63, 0x65, 0x36, 0x6d, 0x75, 0x61, 0x37, 0x6c]
  const CHECK: seq<bv8> := [0x6d, 0x71, 0x71, 0x71, 0x78, 0x77]

  // ---------- the checksum ----------

  function Four(c: bv32, x: Symbol, y: Symbol, z: Symbol, t: Symbol): bv32 { Step(Step(Step(Step(c, x), y), z), t) }

  lemma FourMore(b: bv32, v: seq<Symbol>, k: nat, c: bv32)
    requires k + 4 <= |v| && PolyFrom(b, v[..k]) == c
    ensures PolyFrom(b, v[..k + 4]) == Four(c, v[k], v[k + 1], v[k + 2], v[k + 3])
  {
    hide Step, PolyFrom;
    OneMore(b, v, k);
    OneMore(b, v, k + 1);
    OneMore(b, v, k + 2);
    OneMore(b, v, k + 3);
  }

  lemma OneMore(b: bv32, v: seq<Symbol>, k: nat)
    requires k < |v|
    ensures PolyFrom(b, v[..0]) == b
    ensures PolyFrom(b, v[..k + 1]) == Step(PolyFrom(b, v[..k]), v[k])
  {
    hide Step, PolyFrom;
    assert v[..0] == [];
    PolyNone(b);
    assert v[..k + 1] == v[..k] + [v[k]];
    PolyAppend(b, v[..k], v[k]);
  }

  const EXPANDED: seq<Symbol> := [3, 3, 3, 3, 3, 3, 0, 1, 2, 3, 4, 5, 6]

  lemma PrefixBits()
    ensures Expanded(PREFIX) == EXPANDED
  {
    hide HighBits, LowBits;
    Bits(0x61, 3, 1);
    Bits(0x62, 3, 2);
    Bits(0x63, 3, 3);
    Bits(0x64, 3, 4);
    Bits(0x65, 3, 5);
    Bits(0x66, 3, 6);
  }

  lemma Bits(c: bv8, high: Symbol, low: Symbol)
    requires Up(high) ^ low == c as bv32 && high < 8
    ensures HighBits(c) == high && LowBits(c) == low
  {
  }

  lemma PrefixRounds()
    ensures Four(0x1, 3, 3, 3, 3) == 0x118c63
    ensures Four(0x118c63, 3, 3, 0, 1) == 0x3dc7154c
    ensures Four(0x3dc7154c, 2, 3, 4, 5) == 0x266635a8
    ensures Step(0x266635a8, 6) == 0x3be80e6a
  {
  }

  lemma PrefixRun()
    ensures PolyFrom(0x1, EXPANDED) == 0x3be80e6a
  {
    hide Step, PolyFrom, Four;
    PrefixRounds();
    OneMore(0x1, EXPANDED, 0);
    FourMore(0x1, EXPANDED, 0, 0x1);
    FourMore(0x1, EXPANDED, 4, 0x118c63);
    FourMore(0x1, EXPANDED, 8, 0x3dc7154c);
    OneMore(0x1, EXPANDED, 12);
    assert EXPANDED[..13] == EXPANDED;
  }

  lemma SmallRounds()
    ensures Four(0x3be80e6a, 0, 1, 2, 3) == 0xc815781
    ensures Four(0xc815781, 4, 5, 6, 7) == 0x11e88668
    ensures Four(0x11e88668, 8, 9, 10, 11) == 0x2f8ccedd
    ensures Four(0x2f8ccedd, 12, 13, 14, 15) == 0x31223f8a
  {
  }

  lemma SmallRun()
    ensures PolyFrom(0x3be80e6a, SMALL) == 0x31223f8a
  {
    hide Step, PolyFrom, Four;
    SmallRounds();
    OneMore(0x3be80e6a, SMALL, 0);
    FourMore(0x3be80e6a, SMALL, 0, 0x3be80e6a);
    FourMore(0x3be80e6a, SMALL, 4, 0xc815781);
    FourMore(0x3be80e6a, SMALL, 8, 0x11e88668);
    FourMore(0x3be80e6a, SMALL, 12, 0x2f8ccedd);
    assert SMALL[..16] == SMALL;
  }

  lemma LargeRounds()
    ensures Four(0x31223f8a, 16, 17, 18, 19) == 0x28166541
    ensures Four(0x28166541, 20, 21, 22, 23) == 0x297c48e0
    ensures Four(0x297c48e0, 24, 25, 26, 27) == 0x3eea4538
    ensures Four(0x3eea4538, 28, 29, 30, 31) == 0x1a0d3656
  {
  }

  lemma LargeRun()
    ensures PolyFrom(0x31223f8a, LARGE) == 0x1a0d3656
  {
    hide Step, PolyFrom, Four;
    LargeRounds();
    OneMore(0x31223f8a, LARGE, 0);
    FourMore(0x31223f8a, LARGE, 0, 0x31223f8a);
    FourMore(0x31223f8a, LARGE, 4, 0x28166541);
    FourMore(0x31223f8a, LARGE, 8, 0x297c48e0);
    FourMore(0x31223f8a, LARGE, 12, 0x3eea4538);
    assert LARGE[..16] == LARGE;
  }

  lemma ZerosRounds()
    ensures Four(0x1a0d3656, 0, 0, 0, 0) == 0xe80d418
    ensures Step(0xe80d418, 0) == 0x13814325
    ensures Step(0x13814325, 0) == 0x360000cf
  {
  }

  lemma ZerosRun()
    ensures PolyFrom(0x1a0d3656, Nothing(6)) == 0x360000cf
  {
    hide Step, PolyFrom, Four;
    ZerosRounds();
    OneMore(0x1a0d3656, Nothing(6), 0);
    FourMore(0x1a0d3656, Nothing(6), 0, 0x1a0d3656);
    OneMore(0x1a0d3656, Nothing(6), 4);
    OneMore(0x1a0d3656, Nothing(6), 5);
    assert Nothing(6)[..6] == Nothing(6);
  }

  lemma Remainder()
    ensures PolyFrom(1, EXPANDED + VALUES + Nothing(6)) == 0x360000cf
  {
    hide PolyFrom;
    PrefixRun();
    SmallRun();
    LargeRun();
    ZerosRun();
    PolyConcat(0x3be80e6a, SMALL, LARGE);
    PolyConcat(1, EXPANDED, VALUES);
    PolyConcat(1, EXPANDED + VALUES, Nothing(6));
  }

  lemma CheckSymbols()
    ensures Groups(Xor(0x360000cf, 1)) == [27, 0, 0, 0, 6, 14]
  {
  }

  // ---------- the letters ----------

  lemma Letters0()
    ensures Char(0) == 0x71 && Char(1) == 0x70 && Char(2) == 0x7a && Char(3) == 0x72
    ensures Char(4) == 0x79 && Char(5) == 0x39 && Char(6) == 0x78 && Char(7) == 0x38
    ensures Char(8) == 0x67 && Char(9) == 0x66 && Char(10) == 0x32 && Char(11) == 0x74
    ensures Char(12) == 0x76 && Char(13) == 0x64 && Char(14) == 0x77 && Char(15) == 0x30
  {
  }

  lemma Letters1()
    ensures Char(16) == 0x73 && Char(17) == 0x33 && Char(18) == 0x6a && Char(19) == 0x6e
    ensures Char(20) == 0x35 && Char(21) == 0x34 && Char(22) == 0x6b && Char(23) == 0x68
    ensures Char(24) == 0x63 && Char(25) == 0x65 && Char(26) == 0x36 && Char(27) == 0x6d
    ensures Char(28) == 0x75 && Char(29) == 0x61 && Char(30) == 0x37 && Char(31) == 0x6c
  {
  }

  lemma SmallLetters()
    ensures Chars(SMALL) == SMALL_LETTERS
  {
    hide Char;
    Letters0();
  }

  lemma LargeLetters()
    ensures Chars(LARGE) == LARGE_LETTERS
  {
    hide Char;
    Letters1();
  }

  lemma CheckLetters()
    ensures Chars([27, 0, 0, 0, 6, 14]) == CHECK
  {
    hide Char;
    Letters0();
    Letters1();
  }

  // "abcdef1qpzry9x8gf2tvdw0s3jn54khce6mua7lmqqqxw"
  lemma Vector()
    ensures Encoded(PREFIX, VALUES) == PREFIX + [ONE] + SMALL_LETTERS + LARGE_LETTERS + CHECK
  {
    hide PolyFrom, Char, Expanded, Groups, Xor;
    PrefixBits();
    Remainder();
    CheckSymbols();
    SmallLetters();
    LargeLetters();
    CheckLetters();
    CharsConcat(SMALL, LARGE);
    CharsConcat(VALUES, [27, 0, 0, 0, 6, 14]);
  }

  lemma CharsConcat(v: seq<Symbol>, w: seq<Symbol>)
    ensures Chars(v + w) == Chars(v) + Chars(w)
  {
    hide Char;
  }
}
