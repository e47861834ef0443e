/**
 * Compact targets (arith_uint256::SetCompact and GetCompact in src/arith_uint256.cpp) and the
 * work they prove (GetBlockProof in src/chain.cpp).
 */
module Compact {
  import opened Powers
  import opened Limbs
  import opened Bits
  import opened ArithUint

  const SIGN: nat := 0x80_0000
  const EXPONENT: nat := 0x100_0000

  // 256^k
  function Unit(k: nat): (u: nat)
    ensures u > 0
  {
    PowPositive(2, 8 * k);
    Pow2(8 * k)
  }

  // 2^256
  function Modulus(): (u: nat)
    ensures u > 0
  {
    0x1_0000000000000000_0000000000000000_0000000000000000_0000000000000000
  }

  lemma UnitAdd(j: nat, k: nat)
    ensures Unit(j + k) == Unit(j) * Unit(k)
  {
    PowAdd(2, 8 * j, 8 * k);
  }

  lemma UnitNext(k: nat)
    ensures Unit(k + 1) == 256 * Unit(k)
  {
    UnitAdd(1, k);
    FirstUnits();
  }

  lemma UnitMonotone(j: nat, k: nat)
    requires j <= k
    ensures Unit(j) <= Unit(k)
  {
    BaseUint.PowMonotone(8 * j, 8 * k);
  }

  lemma UnitValues()
    ensures Unit(0) == 1 && Unit(1) == 0x100 && Unit(2) == 0x1_0000 && Unit(3) == 0x100_0000
    ensures PowB(WIDTH) == Modulus() == Unit(32)
  {
    hide Unit;
    FirstUnits();
    UnitAdd(1, 1);
    UnitAdd(1, 2);
    UnitAdd(2, 2);
    UnitAdd(4, 4);
    UnitAdd(8, 8);
    UnitAdd(16, 16);
    UnitIs(32);
    Pow2Split(WIDTH);
  }

  lemma FirstUnits()
    ensures Unit(0) == 1 && Unit(1) == 256
  {
  }

  // ---------- the format ----------

  // The sign bit and mantissa as SetCompact sees them.
  function Size(c: nat): nat { c / EXPONENT }
  function Mantissa(c: nat): nat { c % SIGN }
  predicate Signed(c: nat) { (c / SIGN) % 2 == 1 }

  // mantissa * 256^(exponent - 3) as an unbounded integer.
  function Exact(c: nat): nat { Worth(Mantissa(c), Size(c)) }

  function Worth(m: nat, e: nat): nat {
    if e <= 3 then m / Unit(3 - e) else m * Unit(e - 3)
  }

  predicate Negative(c: nat) { Signed(c) && Exact(c) != 0 }
  predicate Overflows(c: nat) { Exact(c) >= Modulus() }

  // The number of bytes needed.
  function ByteLen(x: nat): (n: nat)
    ensures x < Unit(n) && (n > 0 ==> Unit(n - 1) <= x)
  {
    if x == 0 then UnitValues(); 0
    else
      var n := ByteLen(x / 256);
      UnitNext(n);
      if n > 0 then UnitNext(n - 1); n + 1 else UnitValues(); 1
  }

  // The mantissa before the sign bit is kept clear.
  function Scaled(x: nat, n: nat): nat {
    if n <= 3 then x * Unit(3 - n) else x / Unit(n - 3)
  }

  // Joins mantissa, sign and exponent.
  function Packed(m: nat, n: nat, negative: bool): nat {
    var c := if m >= SIGN then m / 256 + (n + 1) * EXPONENT else m + n * EXPONENT;
    if negative && Mantissa(c) != 0 then c + SIGN else c
  }

  // The compact form of a number.
  function CompactOf(x: nat, negative: bool): nat {
    Packed(Scaled(x, ByteLen(x)), ByteLen(x), negative)
  }

  // ---------- decoding ----------

  lemma ExactWord(c: nat)
    requires Size(c) > 3
    ensures Exact(c) == 0 <==> Mantissa(c) == 0
  {
    var u := Unit(Size(c) - 3);
    if Mantissa(c) != 0 {
      MulPositive(Mantissa(c), u);
    }
  }

  // The three tests of SetCompact find exactly the numbers that do not fit.
  lemma OverflowTest(c: nat)
    ensures var word := if Size(c) <= 3 then Mantissa(c) / Unit(3 - Size(c)) else Mantissa(c);
            Overflows(c) <==> word != 0 && (Size(c) > 34 || (word > 0xff && Size(c) > 33) || (word > 0xffff && Size(c) > 32))
  {
    hide Unit;
    var e, m := Size(c), Mantissa(c);
    UnitValues();
    if e <= 3 {
      Below(m, Unit(3 - e));
      UnitMonotone(3, 32);
    } else if m != 0 {
      var k := e - 3;
      if k >= 32 {
        UnitMonotone(32, k);
        MulMonotone(1, m, Unit(k));
      } else {
        // m * 256^k >= 256^32 exactly when m >= 256^(32 - k)
        UnitAdd(32 - k, k);
        if m >= Unit(32 - k) {
          MulMonotone(Unit(32 - k), m, Unit(k));
        } else {
          BaseUint.MulStrict(m, Unit(32 - k), Unit(k));
        }
        if k < 30 { UnitMonotone(3, 32 - k); }
      }
    }
  }

  // arith_uint256::SetCompact
  method SetCompact(self: BaseUint, nCompact: nat) returns (negative: bool, overflow: bool)
    requires self.Valid() && nCompact < B
    modifies self.pn
    ensures self.Valid() && self.V() == Exact(nCompact) % Modulus()
    ensures negative == Negative(nCompact) && overflow == Overflows(nCompact)
  {
    hide Unit;
    var size := nCompact / EXPONENT;
    var word := Mantissa(nCompact);
    UnitValues();
    if size <= 3 {
      Below(word, Unit(3 - size));
      word := word / Unit(3 - size);
      self.Assign(word);
      UnitMonotone(3, 32);
      ModUnique(word, 0, word, Modulus());
    } else {
      self.Assign(word);
      UnitIs(size - 3);
      self.ShiftLeft(8 * (size - 3));
      ExactWord(nCompact);
    }
    OverflowTest(nCompact);
    negative := word != 0 && Signed(nCompact);
    overflow := word != 0 && (size > 34 || (word > 0xff && size > 33) || (word > 0xffff && size > 32));
  }

  lemma UnitIs(k: nat)
    ensures Unit(k) == Pow2(8 * k)
  {
  }

  // ---------- encoding ----------

  lemma ScaledFits(x: nat, n: nat)
    requires n == ByteLen(x)
    ensures Scaled(x, n) < EXPONENT
    ensures n > 0 ==> Scaled(x, n) >= 0x1_0000
  {
    hide Unit, ByteLen;
    UnitValues();
    ByteLenIs(x, n);
    if n <= 3 {
      UnitAdd(n, 3 - n);
      BaseUint.MulStrict(x, Unit(n), Unit(3 - n));
      if n > 0 {
        UnitAdd(n - 1, 3 - n);
        MulMonotone(Unit(n - 1), x, Unit(3 - n));
      }
    } else {
      var u := Unit(n - 3);
      UnitAdd(3, n - 3);
      CutHigh(x, Unit(3), u, Unit(n));
      UnitAdd(2, n - 3);
      AtLeast(x, Unit(2), u);
    }
  }

  lemma AtLeast(x: nat, p: nat, q: nat)
    requires q > 0 && p * q <= x
    ensures x / q >= p
  {
    var h := x / q;
    assert x == h * q + x % q;
    if h < p {
      MulMonotone(h + 1, p, q);
      MulDistrib(q, h, 1);
    }
  }

  lemma ByteLenIs(x: nat, n: nat)
    ensures n == ByteLen(x) ==> x < Unit(n) && (n > 0 ==> Unit(n - 1) <= x)
  {
  }

  lemma ByteLenUnique(x: nat, n: nat)
    requires x < Unit(n) && (n > 0 ==> Unit(n - 1) <= x)
    ensures n == ByteLen(x)
  {
    var k := ByteLen(x);
    if k < n {
      UnitMonotone(k, n - 1);
    } else if n < k {
      UnitMonotone(n, k - 1);
    }
  }

  lemma ByteLenOfBits(x: nat, bits: nat)
    requires (bits == 0 <==> x == 0) && (bits > 0 ==> Pow2(bits - 1) <= x < Pow2(bits))
    ensures ByteLen(x) == (bits + 7) / 8
  {
    hide Pow, ByteLen;
    var n := (bits + 7) / 8;
    if bits > 0 {
      BaseUint.PowMonotone(8 * (n - 1), bits - 1);
      BaseUint.PowMonotone(bits, 8 * n);
    }
    ByteLenUnique(x, n);
  }

  // arith_uint256::GetCompact
  method GetCompact(self: BaseUint, fNegative: bool) returns (nCompact: nat)
    requires self.Valid()
    ensures nCompact == CompactOf(self.V(), fNegative) < B
  {
    hide Unit, ByteLen, Pow, BitOr, Value, Scaled, Packed;
    ghost var x := self.V();
    ValueBound(self.pn[..]);
    UnitValues();
    var bits := self.BitCount();
    ByteLenOfBits(x, bits);
    var nSize := (bits + 7) / 8;
    ScaledFits(x, nSize);
    nCompact := Scale(self, nSize);
    nCompact := Pack(nCompact, nSize, fNegative);
  }

  method Scale(self: BaseUint, nSize: nat) returns (nCompact: nat)
    requires self.Valid() && nSize == ByteLen(self.V())
    ensures nCompact == Scaled(self.V(), nSize)
  {
    hide Unit, ByteLen, Pow, BitOr, Value, Scaled, PowB;
    ghost var x := self.V();
    ScaleLow(x, nSize);
    if nSize <= 3 {
      var low := self.Low64();
      nCompact := (low * Unit(3 - nSize)) % B;
    } else {
      var bn := new BaseUint.Copy(self);
      UnitIs(nSize - 3);
      bn.ShiftRight(8 * (nSize - 3));
      var low := bn.Low64();
      nCompact := low % B;
    }
  }

  // Neither GetLow64 nor the narrowing to 32 bits loses anything.
  lemma ScaleLow(x: nat, n: nat)
    requires n == ByteLen(x)
    ensures n <= 3 ==> ((x % (B * B)) * Unit(3 - n)) % B == Scaled(x, n)
    ensures n > 3 ==> ((x / Unit(n - 3)) % (B * B)) % B == Scaled(x, n)
  {
    hide Unit, ByteLen;
    UnitValues();
    ScaledFits(x, n);
    var m := Scaled(x, n);
    ModUnique(m, 0, m, B);
    ModUnique(m, 0, m, B * B);
    if n <= 3 {
      ByteLenIs(x, n);
      UnitMonotone(n, 3);
      ModUnique(x, 0, x, B * B);
    }
  }

  method Pack(mantissa: nat, size: nat, fNegative: bool) returns (nCompact: nat)
    requires mantissa < EXPONENT && size <= 32
    ensures nCompact == Packed(mantissa, size, fNegative) < B
  {
    hide Pow, BitOr, Size, Mantissa, Signed;
    nCompact := mantissa;
    var nSize := size;
    SignTest(nCompact);
    if Signed(nCompact) {
      nCompact := nCompact / 256;
      nSize := nSize + 1;
    }
    assert nCompact < SIGN;
    assert nSize < 256;
    Pow2Of24();
    OrDisjoint(nCompact, nSize, 24);
    Fields(nCompact, nSize);
    nCompact := BitOr(nCompact, nSize * EXPONENT);
    if fNegative && Mantissa(nCompact) != 0 {
      SignClear(nCompact);
      OrFree(nCompact, 23);
      nCompact := BitOr(nCompact, SIGN);
    }
  }

  lemma SignTest(m: nat)
    requires m < EXPONENT
    ensures Signed(m) <==> m >= SIGN
  {
    if m >= SIGN {
      ModUnique(m, 1, m - SIGN, SIGN);
    } else {
      ModUnique(m, 0, m, SIGN);
    }
  }

  lemma SignClear(c: nat)
    requires !Signed(c)
    ensures (c / SIGN) % 2 == 0
  {
  }

  lemma Pow2Of24()
    ensures Pow2(24) == EXPONENT && Pow2(23) == SIGN
  {
    UnitValues();
    UnitIs(3);
  }

  lemma Fields(m: nat, e: nat)
    requires m < SIGN
    ensures Size(m + e * EXPONENT) == e && Mantissa(m + e * EXPONENT) == m && !Signed(m + e * EXPONENT)
    ensures Size(m + e * EXPONENT + SIGN) == e && Mantissa(m + e * EXPONENT + SIGN) == m && Signed(m + e * EXPONENT + SIGN)
  {
    var c := m + e * EXPONENT;
    ModUnique(c, e, m, EXPONENT);
    ModUnique(c + SIGN, e, m + SIGN, EXPONENT);
    ModUnique(c, 2 * e, m, SIGN);
    ModUnique(c + SIGN, 2 * e + 1, m, SIGN);
  }

  // ---------- rounding ----------

  lemma PackedFields(m: nat, n: nat, negative: bool)
    requires m < EXPONENT
    ensures var c := Packed(m, n, negative);
            && Size(c) == (if m >= SIGN then n + 1 else n)
            && Mantissa(c) == (if m >= SIGN then m / 256 else m)
            && (Signed(c) <==> negative && Mantissa(c) != 0)
            && (n <= 32 ==> c < B)
  {
    hide Size, Mantissa, Signed;
    var e0, m0 := if m >= SIGN then n + 1 else n, if m >= SIGN then m / 256 else m;
    Fields(m0, e0);
  }

  // The compact form keeps the number, or its highest 16 to 23 bits.
  lemma CompactForm(x: nat, negative: bool)
    ensures var c := CompactOf(x, negative); var e, m := Size(c), Mantissa(c);
            && (e <= 3 ==> Exact(c) == x)
            && (e > 3 ==> 0x8000 <= m && Exact(c) <= x < Exact(c) + Unit(e - 3))
            && (x < Modulus() ==> c < B)
            && (Signed(c) <==> negative && m != 0) && (m == 0 <==> x == 0)
  {
    hide Unit, ByteLen, Exact, Size, Mantissa, Signed, Scaled, Packed;
    var n := ByteLen(x);
    var m := Scaled(x, n);
    ScaledFits(x, n);
    PackedFields(m, n, negative);
    var c := CompactOf(x, negative);
    ExactOf(c, Size(c), Mantissa(c));
    ByteLenIs(x, n);
    UnitValues();
    if n > 3 {
      ScaledIs(x, n);
      LargeForm(x, Unit(n - 3), m);
      UnitNext(n - 3);
    } else {
      SmallForm(x, n);
    }
    if x < Modulus() { SizeBound(x, n); }
  }

  lemma ExactOf(c: nat, e: nat, m: nat)
    requires Size(c) == e && Mantissa(c) == m
    ensures Exact(c) == if e <= 3 then m / Unit(3 - e) else m * Unit(e - 3)
  {
  }

  lemma ScaledIs(x: nat, n: nat)
    requires n > 3
    ensures Scaled(x, n) == x / Unit(n - 3)
  {
  }

  lemma SizeBound(x: nat, n: nat)
    requires x < Modulus() && n == ByteLen(x)
    ensures n <= 32
  {
    UnitValues();
    if n > 32 { UnitMonotone(32, n - 1); }
  }

  // Cutting at a unit, and once more at the next byte.
  lemma LargeForm(x: nat, u: nat, m: nat)
    requires u > 0 && m == x / u
    ensures m * u <= x < m * u + u
    ensures (m / 256) * (256 * u) <= x < (m / 256) * (256 * u) + 256 * u
  {
    DivideBounds(x, u);
    DivideBounds(m, 256);
    var q := m / 256;
    MulMonotone(q * 256, m, u);
    MulMonotone(m + 1, q * 256 + 256, u);
    MulDistrib(u, m, 1);
    MulDistrib(u, q * 256, 256);
    MulAssoc(q, 256, u);
  }

  lemma DivideBounds(x: nat, u: nat)
    requires u > 0
    ensures (x / u) * u <= x < (x / u) * u + u
  {
  }

  lemma SmallForm(x: nat, n: nat)
    requires n <= 3 && x < Unit(n)
    ensures var m := Scaled(x, n);
            && (m < SIGN ==> m / Unit(3 - n) == x)
            && (m >= SIGN && n < 3 ==> (m / 256) / Unit(2 - n) == x)
            && (x == 0 ==> m == 0)
            && (n == 3 ==> m == x && (m / 256) * Unit(1) <= x < (m / 256) * Unit(1) + Unit(1))
  {
    hide Unit;
    UnitValues();
  }

  // ---------- the whole loop ----------

  // What SetCompact reads back from GetCompact.
  function Rounded(x: nat): nat { Exact(CompactOf(x, false)) }

  // Nothing overflows, and the sign survives except on zero.
  lemma CompactRoundTrip(x: nat, negative: bool)
    requires x < Modulus()
    ensures var c := CompactOf(x, negative);
            c < B && Exact(c) == Rounded(x) && !Overflows(c) && (Negative(c) <==> negative && x != 0)
  {
    hide Unit, Exact, Size, Mantissa, Signed, CompactOf;
    CompactForm(x, negative);
    CompactForm(x, false);
    var c, d := CompactOf(x, negative), CompactOf(x, false);
    SameFields(x, negative);
    ExactOf(c, Size(c), Mantissa(c));
    ExactOf(d, Size(d), Mantissa(d));
    if Size(c) > 3 { MulPositive(Mantissa(c), Unit(Size(c) - 3)); }
  }

  lemma SameFields(x: nat, negative: bool)
    ensures Size(CompactOf(x, negative)) == Size(CompactOf(x, false))
    ensures Mantissa(CompactOf(x, negative)) == Mantissa(CompactOf(x, false))
  {
    hide Size, Mantissa, Signed, Scaled, Packed, ByteLen;
    ScaledFits(x, ByteLen(x));
    PackedFields(Scaled(x, ByteLen(x)), ByteLen(x), negative);
    PackedFields(Scaled(x, ByteLen(x)), ByteLen(x), false);
  }

  // The greatest value with a compact form that is not above x.
  lemma RoundedIsGreatest(x: nat, c: nat)
    ensures Rounded(x) <= x
    ensures Exact(c) <= x ==> Exact(c) <= Rounded(x)
  {
    hide Unit, Exact, CompactOf, Size, Mantissa;
    var r := CompactOf(x, false);
    CompactForm(x, false);
    var e, m, e', m' := Size(r), Mantissa(r), Size(c), Mantissa(c);
    ExactOf(r, e, m);
    ExactOf(c, e', m');
    MantissaBound(c);
    UnitValues();
    if e > 3 && Exact(c) <= x {
      var u := Unit(e - 3);
      MulMonotone(0x8000, m, u);
      if e' <= 3 {
        Below(m', Unit(3 - e'));
        UnitMonotone(1, e - 3);
      } else if e' >= e {
        UnitAdd(e' - e, e - 3);
        MulAssoc(m', Unit(e' - e), u);
        LastMultiple(m' * Unit(e' - e), m, u, x);
      } else {
        MulMonotone(m', 0x80_0000, Unit(e' - 3));
        UnitNext(e - 4);
        UnitMonotone(e' - 3, e - 4);
      }
    }
  }

  lemma MantissaBound(c: nat)
    ensures Mantissa(c) < SIGN
  {
  }

  lemma LastMultiple(a: nat, b: nat, u: nat, x: nat)
    requires x < b * u + u && a * u <= x
    ensures a * u <= b * u
  {
    if a > b {
      MulMonotone(b + 1, a, u);
      MulDistrib(u, b, 1);
    } else {
      MulMonotone(a, b, u);
    }
  }

  lemma RoundedMonotone(x: nat, y: nat)
    requires x <= y
    ensures Rounded(x) <= Rounded(y)
  {
    RoundedIsGreatest(x, 0);
    RoundedIsGreatest(y, CompactOf(x, false));
  }

  lemma RoundedIdempotent(x: nat)
    ensures Rounded(Rounded(x)) == Rounded(x)
  {
    RoundedIsGreatest(Rounded(x), CompactOf(x, false));
  }

  // x lies within a factor 1 + 2^-15 of what is kept.
  lemma RoundedClose(x: nat)
    ensures Rounded(x) <= x && 0x8000 * (x - Rounded(x)) <= Rounded(x)
  {
    hide Unit, Exact, CompactOf, Size, Mantissa;
    var r := CompactOf(x, false);
    CompactForm(x, false);
    ExactOf(r, Size(r), Mantissa(r));
    if Size(r) > 3 { MulMonotone(0x8000, Mantissa(r), Unit(Size(r) - 3)); }
  }

  // ---------- work ----------

  // A compact target always leaves room for target + 1.
  lemma TargetRoom(c: nat)
    requires Exact(c) < Modulus()
    ensures Exact(c) + 1 < Modulus()
  {
    hide Unit, Exact, Size, Mantissa;
    ExactOf(c, Size(c), Mantissa(c));
    MantissaBound(c);
    UnitValues();
    UnitMonotone(3, 32);
    if Size(c) <= 3 {
      Below(Mantissa(c), Unit(3 - Size(c)));
    } else {
      UnitNext(Size(c) - 4);
      UnitNext(31);
      var a := Mantissa(c) * Unit(Size(c) - 4);
      MulAssoc(Mantissa(c), Unit(Size(c) - 4), 256);
      assert Exact(c) == a * 256;
    }
  }

  // GetBlockProof: floor(2^256 / (target + 1)), or nothing for a target that is not one.
  method GetBlockProof(nBits: nat) returns (work: BaseUint)
    requires nBits < B
    ensures work.Valid() && fresh(work)
    ensures var target := Exact(nBits);
            work.V() == if Negative(nBits) || target >= Modulus() || target == 0 then 0 else Modulus() / (target + 1)
  {
    hide Unit, Exact, Negative, PowB, Value, Modulus;
    UnitValues();
    var bnTarget := new BaseUint(0);
    var fNegative, fOverflow := SetCompact(bnTarget, nBits);
    var zero := new BaseUint(0);
    var c := bnTarget.CompareTo(zero);
    ghost var target := Exact(nBits);
    if !fOverflow { ModUnique(target, 0, target, Modulus()); }
    if fNegative || fOverflow || c == 0 {
      return zero;
    }
    TargetRoom(nBits);
    work := Quotient(bnTarget);
  }

  // ~target / (target + 1) + 1
  method Quotient(bnTarget: BaseUint) returns (work: BaseUint)
    requires bnTarget.Valid() && 0 < bnTarget.V() && bnTarget.V() + 1 < Modulus()
    ensures work.Valid() && fresh(work) && work.V() == Modulus() / (bnTarget.V() + 1)
  {
    hide Unit, PowB, Value, Modulus;
    UnitValues();
    ghost var target := bnTarget.V();
    work := bnTarget.Complement();
    var divisor := new BaseUint.Copy(bnTarget);
    var one := new BaseUint(1);
    divisor.Add(one);
    ModUnique(target + 1, 0, target + 1, Modulus());
    ProofBound(target, Modulus());
    var threw := work.Divide(divisor);
    work.Add(one);
  }

  // ~t / (t + 1) + 1 is 2^256 / (t + 1), and the last addition does not wrap.
  lemma ProofBound(t: nat, n: nat)
    requires 0 < t && t + 1 < n
    ensures (n - 1 - t) / (t + 1) + 1 == n / (t + 1) < n
    ensures ((n - 1 - t) / (t + 1) + 1) % n == n / (t + 1)
  {
    var d := t + 1;
    var q, r := (n - d) / d, (n - d) % d;
    MulDistrib(d, q, 1);
    ModUnique(n, q + 1, r, d);
    MulMonotone(2, d, q + 1);
    ModUnique(q + 1, 0, q + 1, n);
  }
}
