/**
 * Bech32 (src/bech32.cpp, section "Bech32" of BIP 173): a checksum over GF(32) and the string
 * format built on it.
 */
module Bech32 {

  // A 5-bit value.
  type Symbol = x: bv32 | x < 32

  // ---------- one round of PolyMod ----------

  const LIMIT: bv32 := 0x4000_0000

  // c0, and c1*x^5 + ... + c5*x
  function Top(c: bv32): bv32 { c >> 25 }
  function Shifted(c: bv32): bv32 { (c & 0x1ffffff) << 5 }

  // For each set bit n of c0, {2^n}k(x).
  function Multiple(c0: bv32): bv32 {
    (if c0 & 1 != 0 then 0x3b6a57b2 else 0)
      ^ (if c0 & 2 != 0 then 0x26508e6d else 0)
      ^ (if c0 & 4 != 0 then 0x1ea119fa else 0)
      ^ (if c0 & 8 != 0 then 0x3d4233dd else 0)
      ^ (if c0 & 16 != 0 then 0x2a1462b3 else 0)
  }

  function Xor(a: bv32, b: bv32): bv32 { a ^ b }

  // c(x) * x + v mod g(x), coefficients packed five bits each.
  function Step(c: bv32, v: Symbol): bv32 { Xor(Xor(Shifted(c), v), Multiple(Top(c))) }

  lemma ShiftedBits(c: bv32)
    ensures Shifted(c) & 31 == 0 && Shifted(c) < LIMIT
  {
  }

  lemma TopBits(c: bv32)
    requires c < LIMIT
    ensures Top(c) < 32
  {
  }

  // The constant coefficient of g is invertible, so the low symbol tells multiples apart.
  lemma MultipleInjective(a: bv32, b: bv32)
    requires a < 32 && b < 32 && Multiple(a) & 31 == Multiple(b) & 31
    ensures a == b
  {
  }

  lemma MultipleBound(a: bv32)
    ensures Multiple(a) < LIMIT
  {
  }

  lemma LowSymbol(s: bv32, t: bv32, v: Symbol, k: bv32, l: bv32)
    requires s & 31 == 0 && t & 31 == 0 && Xor(Xor(s, v), k) == Xor(Xor(t, v), l)
    ensures k & 31 == l & 31
  {
  }

  lemma Cancel(s: bv32, t: bv32, v: bv32, k: bv32)
    requires Xor(Xor(s, v), k) == Xor(Xor(t, v), k)
    ensures s == t
  {
  }

  lemma SameParts(c: bv32, d: bv32)
    requires c < LIMIT && d < LIMIT && Top(c) == Top(d) && Shifted(c) == Shifted(d)
    ensures c == d
  {
  }

  lemma XorBound(a: bv32, b: bv32)
    requires a < LIMIT && b < LIMIT
    ensures Xor(a, b) < LIMIT
  {
  }

  lemma StepBound(c: bv32, v: Symbol)
    ensures Step(c, v) < LIMIT
  {
    hide Multiple, Shifted, Top, Xor;
    ShiftedBits(c);
    MultipleBound(Top(c));
    XorBound(Shifted(c), v);
    XorBound(Xor(Shifted(c), v), Multiple(Top(c)));
  }

  // A round never merges two different states.
  lemma StepInjective(c: bv32, d: bv32, v: Symbol)
    requires c < LIMIT && d < LIMIT && Step(c, v) == Step(d, v)
    ensures c == d
  {
    hide Multiple, Shifted, Top, Xor;
    ShiftedBits(c);
    ShiftedBits(d);
    TopBits(c);
    TopBits(d);
    LowSymbol(Shifted(c), Shifted(d), v, Multiple(Top(c)), Multiple(Top(d)));
    MultipleInjective(Top(c), Top(d));
    Cancel(Shifted(c), Shifted(d), v, Multiple(Top(c)));
    SameParts(c, d);
  }

  // p << 5
  function Up(p: bv32): bv32 { p << 5 }

  lemma TopXor(x: bv32, p: bv32)
    requires p < 0x200_0000
    ensures Top(Xor(x, p)) == Top(x)
  {
  }

  lemma ShiftedXor(x: bv32, p: bv32)
    requires p < 0x200_0000
    ensures Shifted(Xor(x, p)) == Xor(Shifted(x), Up(p))
  {
  }

  lemma Regroup(s: bv32, q: bv32, v: bv32, k: bv32)
    ensures Xor(Xor(Xor(s, q), v), k) == Xor(Xor(Xor(s, 0), k), Xor(q, v))
  {
  }

  // A low part p and a symbol pass through a round unreduced.
  lemma StepSplit(x: bv32, p: bv32, v: Symbol)
    requires p < 0x200_0000
    ensures Step(Xor(x, p), v) == Xor(Step(x, 0), Xor(Up(p), v))
  {
    hide Multiple, Shifted, Top, Xor, Up;
    TopXor(x, p);
    ShiftedXor(x, p);
    Regroup(Shifted(x), Up(p), v, Multiple(Top(x)));
  }

  // ---------- the checksum ----------

  function PolyFrom(c: bv32, v: seq<Symbol>): bv32 {
    if v == [] then c else Step(PolyFrom(c, v[..|v| - 1]), v[|v| - 1])
  }

  // PolyMod
  method PolyMod(v: seq<Symbol>) returns (c: bv32)
    ensures c == PolyFrom(1, v)
  {
    hide Step;
    c := 1;
    for i := 0 to |v|
      invariant c == PolyFrom(1, v[..i])
    {
      assert v[..i + 1][..i] == v[..i];
      c := Step(c, v[i]);
    }
    assert v[..|v|] == v;
  }

  lemma PolyNone(c: bv32)
    ensures PolyFrom(c, []) == c
  {
  }

  lemma PolyAppend(c: bv32, v: seq<Symbol>, x: Symbol)
    ensures PolyFrom(c, v + [x]) == Step(PolyFrom(c, v), x)
  {
    hide Step;
    assert (v + [x])[..|v|] == v;
  }

  lemma {:induction false} PolyConcat(c: bv32, u: seq<Symbol>, v: seq<Symbol>)
    ensures PolyFrom(c, u + v) == PolyFrom(PolyFrom(c, u), v)
  {
    hide Step, PolyFrom;
    if v == [] {
      assert u + v == u;
      PolyNone(PolyFrom(c, u));
    } else {
      var w, x := v[..|v| - 1], v[|v| - 1];
      assert v == w + [x] && u + v == (u + w) + [x];
      PolyConcat(c, u, w);
      PolyAppend(c, u + w, x);
      PolyAppend(PolyFrom(c, u), w, x);
    }
  }

  lemma {:induction false} PolyBound(c: bv32, v: seq<Symbol>)
    requires c < LIMIT
    ensures PolyFrom(c, v) < LIMIT
  {
    hide Step;
    if v != [] { StepBound(PolyFrom(c, v[..|v| - 1]), v[|v| - 1]); }
  }

  // Equal symbols keep different states different.
  lemma {:induction false} PolyInjective(c: bv32, d: bv32, v: seq<Symbol>)
    requires c < LIMIT && d < LIMIT && PolyFrom(c, v) == PolyFrom(d, v)
    ensures c == d
  {
    hide Step;
    if v != [] {
      var w := v[..|v| - 1];
      PolyBound(c, w);
      PolyBound(d, w);
      StepInjective(PolyFrom(c, w), PolyFrom(d, w), v[|v| - 1]);
      PolyInjective(c, d, w);
    }
  }

  // The implicit 1 in front makes a leading zero count.
  lemma LeadingZero(v: seq<Symbol>)
    ensures PolyFrom(1, [0] + v) != PolyFrom(1, v)
  {
    hide Step;
    PolyConcat(1, [0], v);
    PolyAppend(1, [], 0);
    assert [] + [0] == [0];
    PolyNone(1);
    StepBound(1, 0);
    ShiftedOne();
    if PolyFrom(1, [0] + v) == PolyFrom(1, v) { PolyInjective(Step(1, 0), 1, v); }
  }

  lemma ShiftedOne()
    ensures Step(1, 0) == 32
  {
  }

  function Nothing(n: nat): (v: seq<Symbol>)
    ensures |v| == n && forall i :: 0 <= i < n ==> v[i] == 0
  {
    seq(n, _ => 0)
  }

  // Up to six symbols as one 30-bit number.
  function Pack(v: seq<Symbol>): bv32 {
    if v == [] then 0 else Xor(Up(Pack(v[..|v| - 1])), v[|v| - 1])
  }

  lemma PackAppend(v: seq<Symbol>, x: Symbol)
    ensures Pack(v + [x]) == Xor(Up(Pack(v)), x)
  {
    hide Xor, Up;
    assert (v + [x])[..|v|] == v;
  }

  function Room(n: nat): bv32 {
    if n == 0 then 0 else if n == 1 then 0x1f else if n == 2 then 0x3ff else if n == 3 then 0x7fff
    else if n == 4 then 0xf_ffff else 0x1ff_ffff
  }

  lemma UpRoom(n: nat, p: bv32, x: Symbol)
    requires n < 5 && p <= Room(n)
    ensures Xor(Up(p), x) <= Room(n + 1)
  {
  }

  lemma {:induction false} PackRoom(v: seq<Symbol>)
    requires |v| <= 5
    ensures Pack(v) <= Room(|v|) && Pack(v) < 0x200_0000
  {
    hide Xor, Up, Room;
    if v != [] {
      var n := |v| - 1;
      PackRoom(v[..n]);
      UpRoom(n, Pack(v[..n]), v[n]);
    }
    RoomBound(|v|);
  }

  lemma RoomBound(n: nat)
    ensures Room(n) < 0x200_0000 && Room(0) == 0
  {
  }

  // Six symbols enter the state as they are, on top of what zeros would have done.
  lemma {:induction false} SplitRun(c: bv32, v: seq<Symbol>)
    requires |v| <= 6
    ensures PolyFrom(c, v) == Xor(PolyFrom(c, Nothing(|v|)), Pack(v))
  {
    hide Step, Xor, Up, PolyFrom, Pack;
    if v == [] {
      assert Nothing(0) == [];
      PolyNone(c);
      XorZero(c);
    } else {
      var n := |v| - 1;
      var w, x := v[..n], v[n];
      assert v == w + [x] && Nothing(n + 1) == Nothing(n) + [0];
      SplitRun(c, w);
      PackRoom(w);
      PolyAppend(c, w, x);
      PolyAppend(c, Nothing(n), 0);
      PackAppend(w, x);
      StepSplit(PolyFrom(c, Nothing(n)), Pack(w), x);
    }
  }

  lemma XorZero(c: bv32)
    ensures Xor(c, Pack([])) == c
  {
  }

  lemma UpInjective(p: bv32, q: bv32, x: Symbol, y: Symbol)
    requires p < 0x200_0000 && q < 0x200_0000 && Xor(Up(p), x) == Xor(Up(q), y)
    ensures p == q && x == y
  {
  }

  lemma {:induction false} PackInjective(v: seq<Symbol>, w: seq<Symbol>)
    requires |v| == |w| <= 6 && Pack(v) == Pack(w)
    ensures v == w
  {
    hide Xor, Up;
    if v != [] {
      var n := |v| - 1;
      PackRoom(v[..n]);
      PackRoom(w[..n]);
      UpInjective(Pack(v[..n]), Pack(w[..n]), v[n], w[n]);
      PackInjective(v[..n], w[..n]);
      assert v == v[..n] + [v[n]] && w == w[..n] + [w[n]];
    }
  }

  lemma XorCancel(a: bv32, p: bv32, q: bv32)
    requires Xor(a, p) == Xor(a, q)
    ensures p == q
  {
  }

  // Any change confined to six consecutive symbols changes the checksum.
  lemma BurstDetected(before: seq<Symbol>, v: seq<Symbol>, w: seq<Symbol>, after: seq<Symbol>)
    requires |v| == |w| <= 6 && v != w
    ensures PolyFrom(1, before + v + after) != PolyFrom(1, before + w + after)
  {
    hide Step, Xor, PolyFrom, Pack;
    var c := PolyFrom(1, before);
    PolyBound(1, before);
    PolyConcat(1, before, v);
    PolyConcat(1, before, w);
    PolyConcat(1, before + v, after);
    PolyConcat(1, before + w, after);
    PolyBound(c, v);
    PolyBound(c, w);
    SplitRun(c, v);
    SplitRun(c, w);
    if PolyFrom(1, before + v + after) == PolyFrom(1, before + w + after) {
      PolyInjective(PolyFrom(c, v), PolyFrom(c, w), after);
      XorCancel(PolyFrom(c, Nothing(|v|)), Pack(v), Pack(w));
      PackInjective(v, w);
    }
  }

  // So a string whose checksum verifies stops verifying after any such change of its data.
  lemma BurstFails(enc: seq<Symbol>, v: seq<Symbol>, w: seq<Symbol>, i: nat, n: nat)
    requires |v| == |w| && n <= 6 && i + n <= |v| && v != w
    requires forall j :: 0 <= j < |v| && !(i <= j < i + n) ==> v[j] == w[j]
    requires PolyFrom(1, enc + v) == 1
    ensures PolyFrom(1, enc + w) != 1
  {
    hide PolyFrom;
    Window(enc, v, i, n);
    Window(enc, w, i, n);
    assert w[..i] == v[..i];
    assert w[i + n..] == v[i + n..];
    var k :| 0 <= k < |v| && v[k] != w[k];
    assert v[i..i + n][k - i] != w[i..i + n][k - i];
    BurstDetected(enc + v[..i], v[i..i + n], w[i..i + n], v[i + n..]);
  }

  lemma Window(enc: seq<Symbol>, v: seq<Symbol>, i: nat, n: nat)
    requires i + n <= |v|
    ensures enc + v == (enc + v[..i]) + v[i..i + n] + v[i + n..]
  {
  }

  // ---------- creating and verifying ----------

  // The 5-bit groups of a 30-bit number, highest first.
  function Group(m: bv32, i: nat): Symbol {
    if i == 0 then (m >> 25) & 31 else if i == 1 then (m >> 20) & 31 else if i == 2 then (m >> 15) & 31
    else if i == 3 then (m >> 10) & 31 else if i == 4 then (m >> 5) & 31 else m & 31
  }

  function Groups(m: bv32): (v: seq<Symbol>)
    ensures |v| == 6
  {
    [Group(m, 0), Group(m, 1), Group(m, 2), Group(m, 3), Group(m, 4), Group(m, 5)]
  }

  lemma Regrouped(m: bv32)
    requires m < LIMIT
    ensures Xor(Up(Xor(Up(Xor(Up(Xor(Up(Xor(Up(Xor(Up(0), Group(m, 0))), Group(m, 1))), Group(m, 2))), Group(m, 3))), Group(m, 4))), Group(m, 5)) == m
  {
  }

  lemma PackGroups(m: bv32)
    requires m < LIMIT
    ensures Pack(Groups(m)) == m
  {
    hide Xor, Up, Group, Pack;
    var v: seq<Symbol> := Groups(m);
    PackZero();
    PackAppend([], Group(m, 0));
    PackAppend([Group(m, 0)], Group(m, 1));
    PackAppend([Group(m, 0), Group(m, 1)], Group(m, 2));
    PackAppend([Group(m, 0), Group(m, 1), Group(m, 2)], Group(m, 3));
    PackAppend([Group(m, 0), Group(m, 1), Group(m, 2), Group(m, 3)], Group(m, 4));
    PackAppend([Group(m, 0), Group(m, 1), Group(m, 2), Group(m, 3), Group(m, 4)], Group(m, 5));
    Displays(Group(m, 0), Group(m, 1), Group(m, 2), Group(m, 3), Group(m, 4), Group(m, 5));
    Regrouped(m);
  }

  lemma PackZero()
    ensures Pack([]) == 0
  {
  }

  lemma Displays(a: Symbol, b: Symbol, c: Symbol, d: Symbol, e: Symbol, f: Symbol)
    ensures [] + [a] == [a] && [a] + [b] == [a, b] && [a, b] + [c] == [a, b, c] && [a, b, c] + [d] == [a, b, c, d]
    ensures [a, b, c, d] + [e] == [a, b, c, d, e] && [a, b, c, d, e] + [f] == [a, b, c, d, e, f]
  {
  }

  // The checksum over any expanded prefix and data.
  function Checksum(enc: seq<Symbol>): (v: seq<Symbol>)
    ensures |v| == 6
  {
    Groups(Xor(PolyFrom(1, enc + Nothing(6)), 1))
  }

  // Six symbols complete the data to checksum 1 exactly when they are the created ones.
  lemma ChecksumUnique(enc: seq<Symbol>, v: seq<Symbol>)
    requires |v| == 6
    ensures PolyFrom(1, enc + v) == 1 <==> v == Checksum(enc)
  {
    hide Step, Xor, Up, PolyFrom, Pack, Groups;
    var c := PolyFrom(1, enc);
    PolyConcat(1, enc, v);
    PolyConcat(1, enc, Nothing(6));
    SplitRun(c, v);
    var z := PolyFrom(c, Nothing(6));
    PolyBound(1, enc);
    PolyBound(c, Nothing(6));
    XorBound(z, 1);
    PackGroups(Xor(z, 1));
    XorTwice(z);
    if PolyFrom(1, enc + v) == 1 {
      XorSolve(z, Pack(v));
      PackInjective(v, Groups(Xor(z, 1)));
    }
  }

  lemma XorSolve(z: bv32, p: bv32)
    requires Xor(z, p) == 1
    ensures p == Xor(z, 1)
  {
  }

  lemma XorTwice(z: bv32)
    ensures Xor(z, Xor(z, 1)) == 1
  {
  }

  // Byte strings.
  function Symbols(s: seq<bv8>, high: bool): (v: seq<Symbol>)
    ensures |v| == |s|
  {
    seq(|s|, i requires 0 <= i < |s| => if high then HighBits(s[i]) else LowBits(s[i]))
  }

  function HighBits(c: bv8): Symbol { (c >> 5) as bv32 }
  function LowBits(c: bv8): Symbol { (c & 0x1f) as bv32 }

  function Expanded(hrp: seq<bv8>): seq<Symbol> {
    Symbols(hrp, true) + [0] + Symbols(hrp, false)
  }

  // Each character is in there twice over: its upper three bits, and past a zero its lower five.
  lemma ExpandedIs(hrp: seq<bv8>)
    ensures |Expanded(hrp)| == 2 * |hrp| + 1 && Expanded(hrp)[|hrp|] == 0
    ensures forall i :: 0 <= i < |hrp| ==> Xor(Up(Expanded(hrp)[i]), Expanded(hrp)[|hrp| + 1 + i]) == hrp[i] as bv32
  {
    hide Xor, Up, HighBits, LowBits;
    forall i | 0 <= i < |hrp|
      ensures Xor(Up(Expanded(hrp)[i]), Expanded(hrp)[|hrp| + 1 + i]) == hrp[i] as bv32
    {
      HighAndLow(hrp[i]);
    }
  }

  lemma HighAndLow(c: bv8)
    ensures Xor(Up(HighBits(c)), LowBits(c)) == c as bv32
  {
  }

  // ExpandHRP
  method ExpandHRP(hrp: seq<bv8>) returns (ret: seq<Symbol>)
    ensures ret == Expanded(hrp)
  {
    hide HighBits, LowBits;
    var n := |hrp|;
    ret := Nothing(2 * n + 1);
    for i := 0 to n
      invariant |ret| == 2 * n + 1 && ret[n] == 0
      invariant forall j :: 0 <= j < i ==> ret[j] == HighBits(hrp[j]) && ret[j + n + 1] == LowBits(hrp[j])
    {
      ret := ret[i := HighBits(hrp[i])];
      ret := ret[i + n + 1 := LowBits(hrp[i])];
    }
    ret := ret[n := 0];
    forall k | 0 <= k < 2 * n + 1
      ensures ret[k] == Expanded(hrp)[k]
    {
      if k > n { assert ret[(k - n - 1) + n + 1] == LowBits(hrp[k - n - 1]); }
    }
    assert ret == Expanded(hrp);
  }

  // VerifyChecksum
  method VerifyChecksum(hrp: seq<bv8>, values: seq<Symbol>) returns (ok: bool)
    ensures ok == (PolyFrom(1, Expanded(hrp) + values) == 1)
  {
    hide PolyFrom;
    var enc := ExpandHRP(hrp);
    var c := PolyMod(enc + values);
    ok := c == 1;
  }

  // CreateChecksum
  method CreateChecksum(hrp: seq<bv8>, values: seq<Symbol>) returns (ret: seq<Symbol>)
    ensures ret == Checksum(Expanded(hrp) + values)
    ensures PolyFrom(1, Expanded(hrp) + values + ret) == 1
  {
    hide PolyFrom, Xor, Group;
    var enc := ExpandHRP(hrp);
    var c := PolyMod(enc + values + Nothing(6));
    var mod := Xor(c, 1);
    ret := Nothing(6);
    for i := 0 to 6
      invariant |ret| == 6 && forall j :: 0 <= j < i ==> ret[j] == Group(mod, j)
    {
      ret := ret[i := Group(mod, i)];
    }
    assert ret == Groups(mod);
    ChecksumUnique(enc + values, ret);
  }

  // ---------- strings ----------

  datatype Maybe = None | Some(value: Symbol)

  const ONE: bv8 := 0x31

  // CHARSET[v]
  function Char(v: Symbol): bv8 { if v < 16 then FirstHalf(v) else SecondHalf(v) }

  function FirstHalf(v: Symbol): bv8 {
    if v == 0 then 0x71 // 'q'
    else if v == 1 then 0x70 // 'p'
    else if v == 2 then 0x7a // 'z'
    else if v == 3 then 0x72 // 'r'
    else if v == 4 then 0x79 // 'y'
    else if v == 5 then 0x39 // '9'
    else if v == 6 then 0x78 // 'x'
    else if v == 7 then 0x38 // '8'
    else if v == 8 then 0x67 // 'g'
    else if v == 9 then 0x66 // 'f'
    else if v == 10 then 0x32 // '2'
    else if v == 11 then 0x74 // 't'
    else if v == 12 then 0x76 // 'v'
    else if v == 13 then 0x64 // 'd'
    else if v == 14 then 0x77 // 'w'
    else 0x30 // '0'
  }

  function SecondHalf(v: Symbol): bv8 {
    if v == 16 then 0x73 // 's'
    else if v == 17 then 0x33 // '3'
    else if v == 18 then 0x6a // 'j'
    else if v == 19 then 0x6e // 'n'
    else if v == 20 then 0x35 // '5'
    else if v == 21 then 0x34 // '4'
    else if v == 22 then 0x6b // 'k'
    else if v == 23 then 0x68 // 'h'
    else if v == 24 then 0x63 // 'c'
    else if v == 25 then 0x65 // 'e'
    else if v == 26 then 0x36 // '6'
    else if v == 27 then 0x6d // 'm'
    else if v == 28 then 0x75 // 'u'
    else if v == 29 then 0x61 // 'a'
    else if v == 30 then 0x37 // '7'
    else 0x6c // 'l'
  }

  function LowerCase(c: bv8): bv8 { if 0x41 <= c <= 0x5a then c - 0x41 + 0x61 else c }

  // CHARSET_REV, whose upper-case half repeats the lower-case one.
  function Rev(c: bv8): Maybe { RevLower(LowerCase(c)) }

  function RevLower(c: bv8): Maybe {
    if c == 0x71 then Some(0)
    else if c == 0x70 then Some(1)
    else if c == 0x7a then Some(2)
    else if c == 0x72 then Some(3)
    else if c == 0x79 then Some(4)
    else if c == 0x39 then Some(5)
    else if c == 0x78 then Some(6)
    else if c == 0x38 then Some(7)
    else if c == 0x67 then Some(8)
    else if c == 0x66 then Some(9)
    else if c == 0x32 then Some(10)
    else if c == 0x74 then Some(11)
    else if c == 0x76 then Some(12)
    else if c == 0x64 then Some(13)
    else if c == 0x77 then Some(14)
    else if c == 0x30 then Some(15)
    else if c == 0x73 then Some(16)
    else if c == 0x33 then Some(17)
    else if c == 0x6a then Some(18)
    else if c == 0x6e then Some(19)
    else if c == 0x35 then Some(20)
    else if c == 0x34 then Some(21)
    else if c == 0x6b then Some(22)
    else if c == 0x68 then Some(23)
    else if c == 0x63 then Some(24)
    else if c == 0x65 then Some(25)
    else if c == 0x36 then Some(26)
    else if c == 0x6d then Some(27)
    else if c == 0x75 then Some(28)
    else if c == 0x61 then Some(29)
    else if c == 0x37 then Some(30)
    else if c == 0x6c then Some(31)
    else None
  }

  lemma RevFirst(v: Symbol)
    requires v < 16
    ensures RevLower(FirstHalf(v)) == Some(v)
  {
  }

  lemma RevSecond(v: Symbol)
    requires v >= 16
    ensures RevLower(SecondHalf(v)) == Some(v)
  {
  }

  lemma RevLowerOfChar(v: Symbol)
    ensures RevLower(Char(v)) == Some(v)
  {
    hide RevLower, FirstHalf, SecondHalf;
    if v < 16 { RevFirst(v); } else { RevSecond(v); }
  }

  lemma RevOfChar(v: Symbol)
    ensures Rev(Char(v)) == Some(v)
  {
    hide Char, RevLower, LowerCase;
    CharPlain(v);
    RevLowerOfChar(v);
  }

  lemma CharOfRevLower(c: bv8)
    requires RevLower(c).Some?
    ensures Char(RevLower(c).value) == c
  {
  }

  lemma RevOne()
    ensures Rev(ONE) == None
  {
  }

  lemma CharOfRev(c: bv8)
    requires Rev(c).Some?
    ensures Char(Rev(c).value) == LowerCase(c) && c != ONE
  {
    hide Char, RevLower, LowerCase;
    CharOfRevLower(LowerCase(c));
    RevOne();
  }

  // Letters of the character set are printable, never the separator, never upper case.
  predicate Plain(c: bv8) { 33 <= c <= 126 && c != ONE && !IsUpper(c) && LowerCase(c) == c }

  lemma PlainFirst(v: Symbol)
    ensures Plain(FirstHalf(v))
  {
  }

  lemma PlainSecond(v: Symbol)
    ensures Plain(SecondHalf(v))
  {
  }

  lemma CharPlain(v: Symbol)
    ensures Plain(Char(v))
  {
    hide Plain, FirstHalf, SecondHalf;
    PlainFirst(v);
    PlainSecond(v);
  }

  predicate IsLower(c: bv8) { 0x61 <= c <= 0x7a }
  predicate IsUpper(c: bv8) { 0x41 <= c <= 0x5a }

  // ---------- encoding and decoding ----------

  function Chars(v: seq<Symbol>): (s: seq<bv8>)
    ensures |s| == |v| && forall i :: 0 <= i < |v| ==> s[i] == Char(v[i])
  {
    seq(|v|, i requires 0 <= i < |v| => Char(v[i]))
  }

  function Encoded(hrp: seq<bv8>, values: seq<Symbol>): seq<bv8> {
    hrp + [ONE] + Chars(values + Checksum(Expanded(hrp) + values))
  }

  // Encode
  method Encode(hrp: seq<bv8>, values: seq<Symbol>) returns (ret: seq<bv8>)
    ensures ret == Encoded(hrp, values)
  {
    hide PolyFrom, Char, Checksum;
    var checksum := CreateChecksum(hrp, values);
    var combined := values + checksum;
    ret := hrp + [ONE];
    for i := 0 to |combined|
      invariant ret == hrp + [ONE] + Chars(combined)[..i]
    {
      ret := ret + [Char(combined[i])];
    }
    assert Chars(combined)[..|combined|] == Chars(combined);
  }

  predicate Printable(s: seq<bv8>) { forall i :: 0 <= i < |s| ==> 33 <= s[i] <= 126 }
  predicate HasLower(s: seq<bv8>) { exists i :: 0 <= i < |s| && IsLower(s[i]) }
  predicate HasUpper(s: seq<bv8>) { exists i :: 0 <= i < |s| && IsUpper(s[i]) }

  // str.rfind('1'), -1 for npos
  function LastOne(s: seq<bv8>): (pos: int)
    ensures -1 <= pos < |s| && (pos >= 0 ==> s[pos] == ONE)
    ensures forall i :: pos < i < |s| ==> s[i] != ONE
  {
    if s == [] then -1 else if s[|s| - 1] == ONE then |s| - 1 else LastOne(s[..|s| - 1])
  }

  predicate AllInCharset(s: seq<bv8>) { forall i :: 0 <= i < |s| ==> Rev(s[i]).Some? }

  function Reversed(s: seq<bv8>): (v: seq<Symbol>)
    requires AllInCharset(s)
    ensures |v| == |s| && forall i :: 0 <= i < |s| ==> v[i] == Rev(s[i]).value
  {
    seq(|s|, i requires 0 <= i < |s| => Rev(s[i]).value)
  }

  function Lowered(s: seq<bv8>): (t: seq<bv8>)
    ensures |t| == |s| && forall i :: 0 <= i < |s| ==> t[i] == LowerCase(s[i])
  {
    seq(|s|, i requires 0 <= i < |s| => LowerCase(s[i]))
  }

  predicate Shape(s: seq<bv8>) {
    && Printable(s) && !(HasLower(s) && HasUpper(s))
    && |s| <= 90 && 0 < LastOne(s) && LastOne(s) + 7 <= |s|
    && AllInCharset(s[LastOne(s) + 1..])
  }

  // Every failure gives an empty prefix and no data.
  function Decoded(s: seq<bv8>): (seq<bv8>, seq<Symbol>) {
    if !Shape(s) then ([], [])
    else
      var hrp, values := Lowered(s[..LastOne(s)]), Reversed(s[LastOne(s) + 1..]);
      if PolyFrom(1, Expanded(hrp) + values) != 1 then ([], []) else (hrp, values[..|values| - 6])
  }

  // Decode
  method Decode(str: seq<bv8>) returns (hrp: seq<bv8>, data: seq<Symbol>)
    ensures (hrp, data) == Decoded(str)
  {
    hide PolyFrom, Expanded, Printable, HasLower, HasUpper, AllInCharset;
    var plain := CheckCharacters(str);
    if !plain {
      return [], [];
    }
    var pos := LastOne(str);
    if |str| > 90 || pos == -1 || pos == 0 || pos + 7 > |str| {
      return [], [];
    }
    var known, values := ReadValues(str[pos + 1..]);
    if !known {
      return [], [];
    }
    hrp := ReadPrefix(str[..pos]);
    var ok := VerifyChecksum(hrp, values);
    if !ok {
      return [], [];
    }
    data := values[..|values| - 6];
  }

  method CheckCharacters(str: seq<bv8>) returns (ok: bool)
    ensures ok == (Printable(str) && !(HasLower(str) && HasUpper(str)))
  {
    hide IsLower, IsUpper, HasLower, HasUpper;
    var lower, upper := false, false;
    CaseNone();
    for i := 0 to |str|
      invariant Printable(str[..i]) && lower == HasLower(str[..i]) && upper == HasUpper(str[..i])
    {
      var c := str[i];
      if c < 33 || c > 126 {
        return false;
      }
      CaseStep(str, i);
      if IsLower(c) { lower := true; }
      if IsUpper(c) { upper := true; }
    }
    assert str[..|str|] == str;
    ok := !(lower && upper);
  }

  lemma CaseNone()
    ensures !HasLower([]) && !HasUpper([])
  {
  }

  method ReadValues(str: seq<bv8>) returns (ok: bool, values: seq<Symbol>)
    ensures ok == AllInCharset(str)
    ensures ok ==> values == Reversed(str)
  {
    hide Rev;
    values := Nothing(|str|);
    for i := 0 to |str|
      invariant |values| == |str|
      invariant forall j :: 0 <= j < i ==> Rev(str[j]).Some? && values[j] == Rev(str[j]).value
    {
      var rev := Rev(str[i]);
      if rev.None? {
        return false, [];
      }
      values := values[i := rev.value];
    }
    ok := true;
  }

  method ReadPrefix(str: seq<bv8>) returns (hrp: seq<bv8>)
    ensures hrp == Lowered(str)
  {
    hide LowerCase;
    hrp := [];
    for i := 0 to |str|
      invariant hrp == Lowered(str)[..i]
    {
      hrp := hrp + [LowerCase(str[i])];
    }
  }

  lemma CaseStep(s: seq<bv8>, i: nat)
    requires i < |s|
    ensures HasLower(s[..i + 1]) <==> HasLower(s[..i]) || IsLower(s[i])
    ensures HasUpper(s[..i + 1]) <==> HasUpper(s[..i]) || IsUpper(s[i])
  {
    hide IsLower, IsUpper;
    assert forall j :: 0 <= j < i ==> s[..i + 1][j] == s[..i][j] == s[j];
    assert s[..i + 1][i] == s[i];
  }

  // ---------- round trips ----------

  lemma {:induction false} LastOneOf(a: seq<bv8>, b: seq<bv8>)
    requires forall i :: 0 <= i < |b| ==> b[i] != ONE
    ensures LastOne(a + [ONE] + b) == |a|
  {
    var s := a + [ONE] + b;
    var p := LastOne(s);
    assert s[|a|] == ONE;
    assert forall i :: |a| < i < |s| ==> s[i] == b[i - |a| - 1];
  }

  // What a prefix and data must be like for the string format.
  predicate Encodable(hrp: seq<bv8>, values: seq<Symbol>) {
    Printable(hrp) && !HasUpper(hrp) && |hrp| + 7 + |values| <= 90
  }

  // Decoding an encoded string gives prefix and data back exactly then; an empty prefix, which
  // stands for failure, comes back with no data.
  lemma DecodeOfEncode(hrp: seq<bv8>, values: seq<Symbol>)
    ensures Decoded(Encoded(hrp, values)) == (hrp, values) <==> if hrp == [] then values == [] else Encodable(hrp, values)
  {
    hide Encoded, Decoded, Encodable;
    if hrp == [] {
      NoPrefix(values);
    } else {
      if Encodable(hrp, values) { EncodableDecodes(hrp, values); }
      if Decoded(Encoded(hrp, values)).0 == hrp { DecodedIsEncodable(hrp, values); }
    }
  }

  lemma NoPrefix(values: seq<Symbol>)
    ensures Decoded(Encoded([], values)) == ([], [])
  {
    hide PolyFrom, Checksum, Expanded, Rev, Char, LowerCase, IsUpper, IsLower;
    var all := values + Checksum(Expanded([]) + values);
    PlainTail(all);
    LastOneOf([], Chars(all));
  }

  lemma EncodableDecodes(hrp: seq<bv8>, values: seq<Symbol>)
    requires hrp != [] && Encodable(hrp, values)
    ensures Decoded(Encoded(hrp, values)) == (hrp, values)
  {
    hide PolyFrom, Checksum, Expanded, Rev, Char, LowerCase, IsUpper, IsLower;
    var cs := Checksum(Expanded(hrp) + values);
    var all := values + cs;
    var tail := Chars(all);
    var s := Encoded(hrp, values);
    PlainTail(all);
    LastOneOf(hrp, tail);
    assert s[..|hrp|] == hrp && s[|hrp| + 1..] == tail;
    EncodedShape(hrp, all);
    assert Reversed(tail) == all;
    LoweredPlain(hrp);
    assert Expanded(hrp) + all == Expanded(hrp) + values + cs;
    ChecksumUnique(Expanded(hrp) + values, cs);
    assert all[..|all| - 6] == values;
  }

  lemma DecodedIsEncodable(hrp: seq<bv8>, values: seq<Symbol>)
    requires hrp != [] && Decoded(Encoded(hrp, values)).0 == hrp
    ensures Encodable(hrp, values)
  {
    hide PolyFrom, Checksum, Expanded, Rev, Char, LowerCase, IsUpper, IsLower, HasUpper, HasLower, AllInCharset, Lowered;
    var s, all := Encoded(hrp, values), values + Checksum(Expanded(hrp) + values);
    PlainTail(all);
    LastOneOf(hrp, Chars(all));
    assert s[..|hrp|] == hrp;
    LoweredHasNoUpper(hrp);
    assert forall i :: 0 <= i < |hrp| ==> s[i] == hrp[i];
  }

  lemma LoweredHasNoUpper(s: seq<bv8>)
    ensures !HasUpper(Lowered(s))
  {
  }

  lemma PlainTail(v: seq<Symbol>)
    ensures forall i :: 0 <= i < |v| ==> Plain(Chars(v)[i]) && Chars(v)[i] != ONE && Rev(Chars(v)[i]) == Some(v[i])
    ensures AllInCharset(Chars(v))
  {
    hide Rev, Char, LowerCase, IsUpper;
    forall i | 0 <= i < |v|
      ensures Plain(Chars(v)[i]) && Chars(v)[i] != ONE && Rev(Chars(v)[i]) == Some(v[i])
    {
      CharPlain(v[i]);
      RevOfChar(v[i]);
    }
  }

  lemma EncodedShape(hrp: seq<bv8>, all: seq<Symbol>)
    requires Printable(hrp) && !HasUpper(hrp)
    ensures var s := hrp + [ONE] + Chars(all); Printable(s) && !HasUpper(s)
  {
    hide Char, LowerCase, Rev;
    PlainTail(all);
    var s := hrp + [ONE] + Chars(all);
    forall i | 0 <= i < |s|
      ensures 33 <= s[i] <= 126 && !IsUpper(s[i])
    {
      if i > |hrp| { assert s[i] == Chars(all)[i - |hrp| - 1]; }
    }
  }

  lemma LoweredPlain(s: seq<bv8>)
    requires !HasUpper(s)
    ensures Lowered(s) == s
  {
  }

  // A decoded string is the encoding of what it decoded to, up to case.
  lemma EncodeOfDecode(s: seq<bv8>)
    requires Decoded(s).0 != []
    ensures Encoded(Decoded(s).0, Decoded(s).1) == Lowered(s)
  {
    hide PolyFrom, Checksum, Expanded, Rev, Char, LowerCase;
    var pos := LastOne(s);
    var hrp, values := Lowered(s[..pos]), Reversed(s[pos + 1..]);
    var data, cs := values[..|values| - 6], values[|values| - 6..];
    assert values == data + cs;
    assert Expanded(hrp) + values == Expanded(hrp) + data + cs;
    ChecksumUnique(Expanded(hrp) + data, cs);
    CharsBack(s[pos + 1..]);
    LowerOne();
    assert s == s[..pos] + [ONE] + s[pos + 1..];
    LoweredConcat(s[..pos], s[pos + 1..]);
  }

  lemma LowerOne()
    ensures LowerCase(ONE) == ONE
  {
  }

  lemma LoweredConcat(a: seq<bv8>, b: seq<bv8>)
    ensures Lowered(a + [ONE] + b) == Lowered(a) + [ONE] + Lowered(b)
  {
    hide LowerCase;
    LowerOne();
  }

  lemma CharsBack(s: seq<bv8>)
    requires AllInCharset(s)
    ensures Chars(Reversed(s)) == Lowered(s)
  {
    hide Rev, Char, LowerCase;
    forall i | 0 <= i < |s|
      ensures Char(Reversed(s)[i]) == LowerCase(s[i])
    {
      CharOfRev(s[i]);
    }
  }

  // ---------- case ----------

  lemma FoldChar(c: bv8)
    ensures LowerCase(LowerCase(c)) == LowerCase(c) && !IsUpper(LowerCase(c))
    ensures LowerCase(c) == ONE <==> c == ONE
    ensures 33 <= LowerCase(c) <= 126 <==> 33 <= c <= 126
  {
  }

  lemma {:induction false} FoldLastOne(s: seq<bv8>)
    ensures LastOne(Lowered(s)) == LastOne(s)
  {
    hide LowerCase;
    var t := Lowered(s);
    forall i | 0 <= i < |s|
      ensures t[i] == ONE <==> s[i] == ONE
    {
      FoldChar(s[i]);
    }
  }

  lemma FoldPrintable(s: seq<bv8>)
    ensures Printable(Lowered(s)) <==> Printable(s)
    ensures !HasUpper(Lowered(s)) && Lowered(Lowered(s)) == Lowered(s)
  {
    hide LowerCase, IsUpper;
    forall i | 0 <= i < |s|
      ensures 33 <= Lowered(s)[i] <= 126 <==> 33 <= s[i] <= 126
      ensures LowerCase(Lowered(s)[i]) == Lowered(s)[i] && !IsUpper(Lowered(s)[i])
    {
      FoldChar(s[i]);
    }
    if Printable(Lowered(s)) { assert forall i :: 0 <= i < |s| ==> 33 <= Lowered(s)[i] <= 126; }
  }

  lemma FoldCharset(s: seq<bv8>)
    ensures AllInCharset(Lowered(s)) <==> AllInCharset(s)
    ensures AllInCharset(s) ==> Reversed(Lowered(s)) == Reversed(s)
  {
    hide LowerCase, RevLower;
    forall i | 0 <= i < |s|
      ensures Rev(Lowered(s)[i]) == Rev(s[i])
    {
      FoldChar(s[i]);
    }
    if AllInCharset(Lowered(s)) { assert forall i :: 0 <= i < |s| ==> Rev(Lowered(s)[i]).Some?; }
  }

  // A string in one case decodes as its lower-case form does.
  lemma DecodeIgnoresCase(s: seq<bv8>)
    requires !(HasLower(s) && HasUpper(s))
    ensures Decoded(s) == Decoded(Lowered(s))
  {
    hide PolyFrom, Expanded, HasLower, HasUpper, Printable, AllInCharset, LowerCase, Reversed;
    var t, pos := Lowered(s), LastOne(s);
    FoldPrintable(s);
    FoldLastOne(s);
    if pos >= 0 {
      assert t[pos + 1..] == Lowered(s[pos + 1..]) && t[..pos] == Lowered(s[..pos]);
      FoldCharset(s[pos + 1..]);
      FoldPrintable(s[..pos]);
    }
  }

  // The strings that decode to a prefix and data are its encoding and that in upper case, if the
  // format allows them at all.
  lemma DecodesIff(s: seq<bv8>, hrp: seq<bv8>, data: seq<Symbol>)
    requires hrp != []
    ensures Decoded(s) == (hrp, data)
            <==> Encodable(hrp, data) && Lowered(s) == Encoded(hrp, data) && !(HasLower(s) && HasUpper(s))
  {
    hide PolyFrom, Encoded, Encodable, HasLower, HasUpper, Lowered, Printable, AllInCharset;
    if !(HasLower(s) && HasUpper(s)) {
      DecodeIgnoresCase(s);
      DecodeOfEncode(hrp, data);
      if Decoded(s) == (hrp, data) {
        EncodeOfDecode(s);
      }
    }
  }
}
