/**
 * base_uint (src/arith_uint256.h, src/arith_uint256.cpp): fixed-width unsigned integers as
 * arrays of 32-bit limbs, updated in place.  Each operator computes the integer operation
 * modulo 2^(32 * width).
 */
module ArithUint {
  import opened Powers
  import opened Limbs
  import opened Bits

  // 256 bits
  const WIDTH: nat := 8

  class BaseUint {
    const pn: array<nat>

    ghost predicate Valid()
      reads pn
    {
      pn.Length == WIDTH && AreLimbs(pn[..])
    }

    // The integer represented.
    ghost function V(): nat
      reads pn
    {
      Value(pn[..])
    }

    constructor (b: nat)
      requires b < B * B
      ensures Valid() && fresh(pn) && V() == b
    {
      pn := new nat[WIDTH](_ => 0);
      new;
      pn[0] := b % B;
      pn[1] := b / B;
      assert b / B < B;
      LowLimbs(pn[..]);
    }

    constructor Copy(b: BaseUint)
      requires b.Valid()
      ensures Valid() && fresh(pn) && pn[..] == b.pn[..] && V() == b.V()
    {
      pn := new nat[WIDTH](i requires 0 <= i < WIDTH reads b.pn requires b.pn.Length == WIDTH => b.pn[i]);
      new;
      assert pn[..] == b.pn[..];
    }

    // UintToArith256: limb by limb from the lowest.
    constructor FromUint256(v: nat)
      requires v < PowB(WIDTH)
      ensures Valid() && fresh(pn) && V() == v
    {
      pn := new nat[WIDTH](_ => 0);
      new;
      hide Value, Place, PowB;
      var rest: nat := v;
      PlaceZero(0);
      ValueNone();
      ValueZero(pn[..]);
      for i := 0 to WIDTH
        invariant Valid() && forall j :: i <= j < WIDTH ==> pn[j] == 0
        invariant V() + Place(rest, i) == v
      {
        ghost var before := pn[..];
        var digit: nat := rest % B;
        PlaceCarry(rest, i);
        ValueUpdate(before, i, digit);
        PlaceZero(i);
        pn[i] := digit;
        assert pn[..] == before[i := digit];
        rest := rest / B;
      }
      if rest > 0 {
        PlaceMonotone(1, rest, WIDTH);
        PlaceZero(WIDTH);
      }
      PlaceZero(WIDTH);
    }

    static lemma LowLimbs(s: seq<nat>)
      requires |s| == WIDTH && forall i :: 2 <= i < |s| ==> s[i] == 0
      ensures Value(s) == s[0] + s[1] * B
    {
      ValueSplit(s, 2);
      ValueZero(s[2..]);
      ValueStep(s, 0);
      ValueStep(s, 1);
      assert s[..0] == [] && Place(s[0], 0) == s[0] && Place(s[1], 1) == s[1] * B;
    }

    // operator+=
    method Add(b: BaseUint)
      requires Valid() && b.Valid()
      modifies pn
      ensures Valid() && V() == (old(V()) + old(b.V())) % PowB(WIDTH)
    {
      hide Value, Place, PowB;
      ghost var s, t := pn[..], b.pn[..];
      var carry: nat := 0;
      ValueNone();
      PlaceZero(0);
      for i := 0 to WIDTH
        invariant AreLimbs(pn[..]) && carry <= 1
        invariant forall j :: i <= j < WIDTH ==> pn[j] == s[j] && b.pn[j] == t[j]
        invariant Value(pn[..i]) + Place(carry, i) == Value(s[..i]) + Value(t[..i])
      {
        ghost var low := pn[..i];
        var n := carry + pn[i] + b.pn[i];
        pn[i] := n % B;
        assert pn[..i] == low;
        PrefixStep(pn[..], i);
        ValueStep(s, i);
        ValueStep(t, i);
        PlaceCarry(n, i);
        PlaceAdd(carry, s[i] + t[i], i);
        PlaceAdd(s[i], t[i], i);
        carry := n / B;
      }
      assert s[..WIDTH] == s && t[..WIDTH] == t;
      Finish(carry, Value(s) + Value(t));
    }

    // One limb more of the array.
    static lemma PrefixStep(s: seq<nat>, i: nat)
      requires i < |s|
      ensures s[..i] == s[..][..i] && Value(s[..i + 1]) == Value(s[..i]) + Place(s[i], i)
    {
      ValueStep(s, i);
    }

    // A carry out of the top limb is what the modulus removes.
    lemma Finish(carry: nat, total: nat)
      requires Valid() && Value(pn[..WIDTH]) + Place(carry, WIDTH) == total
      ensures V() == total % PowB(WIDTH)
    {
      assert pn[..WIDTH] == pn[..];
      ValueBound(pn[..]);
      ModUnique(total, carry, V(), PowB(WIDTH));
    }

    // operator~
    method Complement() returns (ret: BaseUint)
      requires Valid()
      ensures ret.Valid() && fresh(ret) && fresh(ret.pn)
      ensures ret.V() == PowB(WIDTH) - 1 - V()
    {
      hide Value, Place, PowB;
      ret := new BaseUint(0);
      ValueNone();
      for i := 0 to WIDTH
        invariant ret.Valid()
        invariant Value(ret.pn[..i]) + Value(pn[..i]) == PowB(i) - 1
      {
        ghost var low := ret.pn[..i];
        ret.pn[i] := B - 1 - pn[i];
        assert ret.pn[..i] == low;
        PrefixStep(ret.pn[..], i);
        PrefixStep(pn[..], i);
        PlaceAdd(B - 1 - pn[i], pn[i], i);
        PlaceAdd(B - 1, 1, i);
        PlaceZero(i);
      }
      assert ret.pn[..WIDTH] == ret.pn[..] && pn[..WIDTH] == pn[..];
    }

    // operator++
    method Increment()
      requires Valid()
      modifies pn
      ensures Valid() && V() == (old(V()) + 1) % PowB(WIDTH)
    {
      hide Value, Place, PowB;
      ghost var s := pn[..];
      var i := 0;
      PlaceZero(0);
      ValueNone();
      var x := 0;
      // ++pn[i], going on while it wrapped to zero
      while i < WIDTH && x == 0
        invariant 0 <= i <= WIDTH && Valid()
        invariant x == 0 ==> V() + PowB(i) == Value(s) + 1
        invariant x != 0 ==> V() == Value(s) + 1
        decreases WIDTH - i, if x == 0 then 1 else 0
      {
        ghost var before := pn[..];
        x := (pn[i] + 1) % B;
        ValueUpdate(before, i, x);
        pn[i] := x;
        assert pn[..] == before[i := x];
        PlaceZero(i);
        if x == 0 {
          PlaceAdd(B - 1, 1, i);
          i := i + 1;
        } else {
          PlaceAdd(before[i], 1, i);
        }
      }
      assert pn[..WIDTH] == pn[..];
      PlaceZero(WIDTH);
      Finish(if x == 0 then 1 else 0, Value(s) + 1);
    }

    // operator--
    method Decrement()
      requires Valid()
      modifies pn
      ensures Valid() && V() == (old(V()) - 1) % PowB(WIDTH)
    {
      hide Value, Place, PowB;
      ghost var s := pn[..];
      var i := 0;
      PlaceZero(0);
      ValueNone();
      var x: nat := B - 1;
      // --pn[i], going on while it wrapped to 2^32 - 1
      while i < WIDTH && x == B - 1
        invariant 0 <= i <= WIDTH && Valid()
        invariant x == B - 1 ==> V() + 1 == Value(s) + PowB(i)
        invariant x != B - 1 ==> V() + 1 == Value(s)
        decreases WIDTH - i, if x == B - 1 then 1 else 0
      {
        ghost var before := pn[..];
        x := (pn[i] + B - 1) % B;
        ValueUpdate(before, i, x);
        pn[i] := x;
        assert pn[..] == before[i := x];
        PlaceZero(i);
        if x == B - 1 {
          PlaceAdd(B - 1, 1, i);
          i := i + 1;
        } else {
          PlaceAdd(x, 1, i);
        }
      }
      ValueBound(pn[..]);
      if x == B - 1 {
        ModUnique(Value(s) - 1, -1, V(), PowB(WIDTH));
      } else {
        ModUnique(Value(s) - 1, 0, V(), PowB(WIDTH));
      }
    }

    // operator-(): two's complement
    method Negate() returns (ret: BaseUint)
      requires Valid()
      ensures ret.Valid() && fresh(ret) && fresh(ret.pn)
      ensures ret.V() == (PowB(WIDTH) - V()) % PowB(WIDTH)
    {
      ret := Complement();
      ret.Increment();
    }

    // operator-=
    method Subtract(b: BaseUint)
      requires Valid() && b.Valid()
      modifies pn
      ensures Valid() && V() == (old(V()) - old(b.V())) % PowB(WIDTH)
    {
      hide Value, PowB;
      ghost var x, y := V(), b.V();
      ValueBound(pn[..]);
      ValueBound(b.pn[..]);
      var neg := b.Negate();
      ghost var n := neg.V();
      Add(neg);
      SubtractIs(x, y, n, V(), PowB(WIDTH));
    }

    static lemma SubtractIs(x: nat, y: nat, n: nat, v: nat, m: nat)
      requires x < m && y < m && n == (m - y) % m && v == (x + n) % m
      ensures v == (x - y) % m
    {
      SubtractMod(x, y, m);
    }

    static lemma SubtractMod(x: nat, y: nat, m: nat)
      requires x < m && y < m
      ensures (x + (m - y) % m) % m == (x - y) % m
    {
      if y == 0 {
        ModUnique(m, 1, 0, m);
      } else {
        ModUnique(m - y, 0, m - y, m);
        if x >= y {
          ModUnique(x - y, 0, x - y, m);
          ModUnique(x + m - y, 1, x - y, m);
        } else {
          ModUnique(x - y, -1, x - y + m, m);
          ModUnique(x + m - y, 0, x + m - y, m);
        }
      }
    }

    // operator*=(uint32_t)
    method MultiplySmall(b32: nat)
      requires Valid() && b32 < B
      modifies pn
      ensures Valid() && V() == (old(V()) * b32) % PowB(WIDTH)
    {
      hide Value, Place, PowB, Times;
      ghost var s := pn[..];
      var carry: nat := 0;
      ValueNone();
      PlaceZero(0);
      TimesZero(Place(b32, 0));
      for i := 0 to WIDTH
        invariant Valid() && carry < B
        invariant forall j :: i <= j < WIDTH ==> pn[j] == s[j]
        invariant Value(pn[..i]) + Place(carry, i) == Times(Place(b32, 0), Value(s[..i]))
      {
        ghost var low := pn[..i];
        Column(carry, b32, pn[i], i);
        var n := carry + b32 * pn[i];
        pn[i] := n % B;
        assert pn[..i] == low;
        PrefixStep(pn[..], i);
        ValueStep(s, i);
        TimesAdd(Place(b32, 0), Value(s[..i]), Place(s[i], i));
        carry := n / B;
      }
      assert s[..WIDTH] == s;
      Finish(carry, Times(Place(b32, 0), Value(s)));
      SmallProduct(b32, Value(s));
    }

    // One column of the product splits into what stays and what is carried.
    static lemma Column(carry: nat, x: nat, y: nat, i: nat)
      requires carry < B && x < B && y < B
      ensures var n := carry + x * y;
              n / B < B && Place(n % B, i) + Place(n / B, i + 1) == Place(carry, i) + Times(Place(x, 0), Place(y, i))
    {
      hide Place, Times;
      var n := carry + x * y;
      ProductFits(x, y, carry, 0);
      PlaceCarry(n, i);
      PlaceAdd(carry, x * y, i);
      TimesPlace(x, 0, y, i);
    }

    static lemma SmallProduct(b: nat, v: nat)
      ensures Times(Place(b, 0), v) == v * b
    {
      assert Place(b, 0) == b;
    }

    // One row of the schoolbook product: pn += a_j * b, shifted by j limbs.
    method AddRow(j: nat, aj: nat, b: BaseUint) returns (ghost dropped: nat)
      requires Valid() && b.Valid() && j < WIDTH && aj < B && pn != b.pn
      modifies pn
      ensures Valid()
      ensures V() + Place(dropped, WIDTH) == old(V()) + Times(Place(aj, j), b.V())
    {
      hide Value, Place, PowB, Times;
      ghost var t := b.pn[..];
      ghost var v0 := V();
      ghost var p := Place(aj, j);
      var carry: nat := 0;
      ValueNone();
      PlaceZero(j);
      TimesZero(p);
      var i := 0;
      while i + j < WIDTH
        invariant 0 <= i <= WIDTH - j && Valid() && carry < B && b.pn[..] == t
        invariant V() + Place(carry, i + j) == v0 + Times(p, Value(t[..i]))
      {
        ghost var before := pn[..];
        RowColumn(carry, pn[i + j], aj, j, b.pn[i], i);
        var n: nat := carry + pn[i + j] + aj * b.pn[i];
        var digit: nat := n % B;
        ValueUpdate(before, i + j, digit);
        pn[i + j] := digit;
        assert pn[..] == before[i + j := digit];
        ValueStep(t, i);
        TimesAdd(p, Value(t[..i]), Place(t[i], i));
        carry := n / B;
        i := i + 1;
      }
      ghost var high := Value(t[WIDTH - j..]);
      ValueSplit(t, WIDTH - j);
      TimesAdd(p, Value(t[..WIDTH - j]), PowB(WIDTH - j) * high);
      TimesAbove(aj, j, WIDTH, high);
      PlaceAdd(carry, aj * high, WIDTH);
      dropped := carry + aj * high;
    }

    static lemma RowColumn(carry: nat, z: nat, x: nat, j: nat, y: nat, i: nat)
      requires carry < B && x < B && y < B && z < B
      ensures var n := carry + z + x * y;
              && n / B < B
              && Place(n % B, i + j) + Place(n / B, i + j + 1) == Place(carry, i + j) + Place(z, i + j) + Times(Place(x, j), Place(y, i))
    {
      hide Place, Times;
      var n := carry + z + x * y;
      ProductFits(x, y, carry, z);
      PlaceCarry(n, i + j);
      PlaceAdd(carry, z, i + j);
      PlaceAdd(carry + z, x * y, i + j);
      TimesPlace(x, j, y, i);
    }

    // operator*=.  The operand is read after *this has been cleared, so multiplying an
    // object by itself gives zero.
    method Multiply(b: BaseUint)
      requires Valid() && b.Valid()
      modifies pn
      ensures Valid()
      ensures pn != b.pn ==> V() == (old(V()) * old(b.V())) % PowB(WIDTH)
      ensures pn == b.pn ==> V() == 0
    {
      hide Value, Place, PowB, Times;
      ghost var s, y := pn[..], b.V();
      var a := new BaseUint.Copy(this);
      Clear();
      if pn == b.pn {
        ClearedRows(a, b);
        return;
      }
      ghost var dropped := 0;
      ValueNone();
      TimesZero(y);
      PlaceZero(WIDTH);
      for j := 0 to WIDTH
        invariant Valid() && a.pn[..] == s && b.V() == y && b.Valid()
        invariant V() + Place(dropped, WIDTH) == Times(Value(s[..j]), y)
      {
        ghost var d := AddRow(j, a.pn[j], b);
        ValueStep(s, j);
        TimesAdd(y, Value(s[..j]), Place(s[j], j));
        PlaceAdd(dropped, d, WIDTH);
        dropped := dropped + d;
      }
      assert s[..WIDTH] == s && pn[..WIDTH] == pn[..];
      Finish(dropped, Times(Value(s), y));
      TimesIs(Value(s), y);
    }

    static lemma TimesIs(a: nat, b: nat)
      ensures Times(a, b) == a * b
    {
    }

    // *this = 0
    method Clear()
      requires Valid()
      modifies pn
      ensures Valid() && V() == 0 && forall i :: 0 <= i < WIDTH ==> pn[i] == 0
    {
      for i := 0 to WIDTH
        invariant forall j :: 0 <= j < i ==> pn[j] == 0
      {
        pn[i] := 0;
      }
      ValueZero(pn[..]);
    }

    // The rows of the product when both operands are this cleared object.
    method ClearedRows(a: BaseUint, b: BaseUint)
      requires Valid() && a.Valid() && b.pn == pn && a.pn != pn && forall i :: 0 <= i < WIDTH ==> pn[i] == 0
      modifies pn
      ensures Valid() && V() == 0
    {
      for j := 0 to WIDTH
        invariant forall i :: 0 <= i < WIDTH ==> pn[i] == 0
      {
        var carry := 0;
        var i := 0;
        while i + j < WIDTH
          invariant 0 <= i <= WIDTH - j && carry == 0 && forall m :: 0 <= m < WIDTH ==> pn[m] == 0
        {
          var n := carry + pn[i + j] + a.pn[j] * b.pn[i];
          pn[i + j] := n % B;
          carry := n / B;
          i := i + 1;
        }
      }
      ValueZero(pn[..]);
    }

    // pn[m] |= x, where the bits of x are free.
    method OrInto(m: nat, x: nat, r: nat)
      requires Valid() && m < WIDTH && r <= 32 && pn[m] < Pow2(r) && x < B && MultipleOf(x, Pow2(r))
      modifies pn
      ensures Valid() && V() == old(V()) + Place(x, m)
      ensures forall j :: 0 <= j < WIDTH && j != m ==> pn[j] == old(pn[j])
      ensures pn[m] == old(pn[m]) + x
    {
      hide Value, Place, Pow;
      ghost var before := pn[..];
      OrLow(pn[m], x, r);
      ValueUpdate(before, m, pn[m] + x);
      PlaceAdd(pn[m], x, m);
      pn[m] := BitOr(pn[m], x);
      assert pn[..] == before[m := before[m] + x];
    }

    // operator<<=
    method ShiftLeft(shift: nat)
      requires Valid()
      modifies pn
      ensures Valid() && V() == (old(V()) * Pow2(shift)) % PowB(WIDTH)
    {
      hide Value, Place, Pow, PowB, Times, BitOr;
      ghost var s := pn[..];
      var a := new BaseUint.Copy(this);
      Clear();
      var k, r := shift / 32, shift % 32;
      ghost var D := Place(Pow2(r), k);
      ghost var dropped: nat := 0;
      ValueNone();
      TimesZero(D);
      PlaceZero(WIDTH);
      PowPositive(2, r);
      for i := 0 to WIDTH
        invariant Valid() && a.pn[..] == s
        invariant forall m :: 0 <= m < WIDTH && m > i + k ==> pn[m] == 0
        invariant i + k < WIDTH ==> pn[i + k] < Pow2(r)
        invariant V() + Place(dropped, WIDTH) == Times(D, Value(s[..i]))
      {
        ghost var d := ShiftLimb(i, a.pn[i], k, r);
        ValueStep(s, i);
        TimesAdd(D, Value(s[..i]), Place(s[i], i));
        PlaceAdd(dropped, d, WIDTH);
        dropped := dropped + d;
      }
      assert s[..WIDTH] == s && pn[..WIDTH] == pn[..];
      Finish(dropped, Times(D, Value(s)));
      Pow2Parts(shift);
      TimesIs(D, Value(s));
      MulComm(D, Value(s));
    }

    // Spreads limb i, shifted left by k limbs and r bits, over two limbs.
    method ShiftLimb(i: nat, x: nat, k: nat, r: nat) returns (ghost dropped: nat)
      requires Valid() && r < 32 && x < B
      requires forall m :: 0 <= m < WIDTH && m > i + k ==> pn[m] == 0
      requires i + k < WIDTH ==> pn[i + k] < Pow2(r)
      modifies pn
      ensures Valid() && forall m :: 0 <= m < WIDTH && m > i + 1 + k ==> pn[m] == 0
      ensures i + 1 + k < WIDTH ==> pn[i + 1 + k] < Pow2(r)
      ensures V() + Place(dropped, WIDTH) == old(V()) + Times(Place(Pow2(r), k), Place(x, i))
    {
      hide Value, Place, Pow, PowB, Times, BitOr;
      LeftParts(x, r, i, k);
      ghost var hi := if r == 0 then 0 else x / Pow2(32 - r);
      ghost var lo := (x * Pow2(r)) % B;
      if i + k + 1 < WIDTH && r != 0 {
        FreeLimb(x / Pow2(32 - r));
        OrInto(i + k + 1, x / Pow2(32 - r), 0);
      }
      if i + k < WIDTH {
        OrInto(i + k, (x * Pow2(r)) % B, r);
      }
      dropped := Overflowing(lo, i + k) + Overflowing(hi, i + k + 1);
      OverflowValue(lo, hi, i + k);
      PlaceZero(i + k + 1);
    }

    static lemma FreeLimb(x: nat)
      ensures 0 < Pow2(0) && MultipleOf(x, Pow2(0))
    {
      assert x == x * Pow2(0);
    }

    // What a limb at place m loses to the modulus.
    static ghost function Overflowing(x: nat, m: nat): nat {
      if m < WIDTH then 0 else x * PowB(m - WIDTH)
    }

    static lemma OverflowValue(lo: nat, hi: nat, m: nat)
      ensures Place(Overflowing(lo, m) + Overflowing(hi, m + 1), WIDTH) ==
                (if m < WIDTH then 0 else Place(lo, m)) + (if m + 1 < WIDTH then 0 else Place(hi, m + 1))
    {
      PlaceAdd(Overflowing(lo, m), Overflowing(hi, m + 1), WIDTH);
      PlaceZero(WIDTH);
      if m >= WIDTH { PlaceOver(lo, m, WIDTH); }
      if m + 1 >= WIDTH { PlaceOver(hi, m + 1, WIDTH); }
    }

    // operator>>=
    method ShiftRight(shift: nat)
      requires Valid()
      modifies pn
      ensures Valid() && Pow2(shift) > 0 && V() == old(V()) / Pow2(shift)
    {
      hide Value, Place, Pow, PowB, Times, BitOr;
      ghost var s := pn[..];
      var a := new BaseUint.Copy(this);
      Clear();
      var k, r := shift / 32, shift % 32;
      ghost var D := Place(Pow2(r), k);
      PowPositive(2, r);
      // what the shift drops: all limbs below k and the low bits of limb k
      ghost var rem := if k < WIDTH then Value(s[..k]) + Place(s[k] % Pow2(r), k) else Value(s);
      for i := 0 to WIDTH
        invariant Valid() && a.pn[..] == s
        invariant i <= k ==> V() == 0
        invariant forall m :: 0 <= m < WIDTH && m >= i - k ==> pn[m] == 0
        invariant i > k ==> pn[i - k - 1] < Pow2(32 - r)
        invariant i > k ==> Times(D, V()) + rem == Value(s[..i])
      {
        if i >= k {
          ghost var v := V();
          RightLimb(i, a.pn[i], k, r);
          RightRound(s, i, k, r, v, V(), rem);
        }
      }
      assert s[..WIDTH] == s;
      Dropped(s, k, r);
      Pow2Parts(shift);
      PowPositive(2, shift);
      if k < WIDTH {
        TimesIs(D, V());
        MulComm(D, V());
        ModUnique(Value(s), V(), rem, D);
      } else {
        ModUnique(Value(s), 0, rem, D);
      }
    }

    // One limb of the invariant of operator>>=.
    static lemma RightRound(s: seq<nat>, i: nat, k: nat, r: nat, v: nat, w: nat, rem: nat)
      requires AreLimbs(s) && k <= i < |s| && r < 32 && Pow2(r) > 0
      requires w == v + Place(s[i] / Pow2(r), i - k) + if i == k || r == 0 then 0 else Place((s[i] * Pow2(32 - r)) % B, i - k - 1)
      requires i == k ==> v == 0 && rem == Value(s[..k]) + Place(s[k] % Pow2(r), k)
      requires i > k ==> Times(Place(Pow2(r), k), v) + rem == Value(s[..i])
      ensures Times(Place(Pow2(r), k), w) + rem == Value(s[..i + 1])
    {
      hide Value, Place, Pow, PowB, Times;
      var D := Place(Pow2(r), k);
      RightParts(s[i], r, i, k);
      ValueStep(s, i);
      RightStep(D, v, Place(s[i] / Pow2(r), i - k), if i == k || r == 0 then 0 else Place((s[i] * Pow2(32 - r)) % B, i - k - 1));
      PlaceZero(if i == k then 0 else i - k - 1);
    }

    static lemma RightStep(d: nat, v: nat, x: nat, y: nat)
      ensures Times(d, v + x + y) == Times(d, v) + Times(d, x) + Times(d, y) && Times(d, 0) == 0
    {
      TimesAdd(d, v, x);
      TimesAdd(d, v + x, y);
    }

    // The dropped part is less than one unit of what remains.
    static lemma Dropped(s: seq<nat>, k: nat, r: nat)
      requires |s| == WIDTH && AreLimbs(s) && r < 32
      ensures Pow2(r) > 0
      ensures (if k < WIDTH then Value(s[..k]) + Place(s[k] % Pow2(r), k) else Value(s)) < Place(Pow2(r), k)
    {
      hide Value, Pow, Place;
      PowPositive(2, r);
      if k < WIDTH {
        ValueBound(s[..k]);
        PlaceMonotone(s[k] % Pow2(r) + 1, Pow2(r), k);
        PlaceAdd(s[k] % Pow2(r), 1, k);
        PlaceZero(k);
      } else {
        ValueBound(s);
        PlaceZero(WIDTH);
        PlaceOver(1, k, WIDTH);
        PowPositive(B, k - WIDTH);
        PlaceMonotone(1, PowB(k - WIDTH), WIDTH);
        PlaceMonotone(1, Pow2(r), k);
      }
    }

    static lemma PlaceMonotone(x: nat, y: nat, i: nat)
      requires x <= y
      ensures Place(x, i) <= Place(y, i)
    {
      MulMonotone(x, y, PowB(i));
    }

    // Spreads limb i, shifted right by k limbs and r bits, over two limbs.
    method RightLimb(i: nat, x: nat, k: nat, r: nat)
      requires Valid() && r < 32 && x < B && k <= i < WIDTH
      requires forall m :: 0 <= m < WIDTH && m >= i - k ==> pn[m] == 0
      requires i > k ==> pn[i - k - 1] < Pow2(32 - r)
      modifies pn
      ensures Valid() && Pow2(r) > 0 && forall m :: 0 <= m < WIDTH && m >= i + 1 - k ==> pn[m] == 0
      ensures pn[i - k] < Pow2(32 - r)
      ensures V() == old(V()) + Place(x / Pow2(r), i - k) + if i == k || r == 0 then 0 else Place((x * Pow2(32 - r)) % B, i - k - 1)
    {
      hide Value, Place, Pow, PowB, Times, BitOr;
      RightParts(x, r, i, k);
      if i - k - 1 >= 0 && r != 0 {
        OrInto(i - k - 1, (x * Pow2(32 - r)) % B, 32 - r);
      }
      if i - k >= 0 {
        FreeLimb(x / Pow2(r));
        OrInto(i - k, x / Pow2(r), 0);
      }
    }

    // CompareTo
    method CompareTo(b: BaseUint) returns (c: int)
      requires Valid() && b.Valid()
      ensures c == if V() < b.V() then -1 else if V() > b.V() then 1 else 0
    {
      hide Value;
      var i := WIDTH - 1;
      while i >= 0
        invariant -1 <= i < WIDTH
        invariant pn[i + 1..] == b.pn[i + 1..]
      {
        if pn[i] < b.pn[i] {
          SmallerAt(pn[..], b.pn[..], i);
          return -1;
        }
        if pn[i] > b.pn[i] {
          SmallerAt(b.pn[..], pn[..], i);
          return 1;
        }
        i := i - 1;
      }
      assert pn[..] == b.pn[..];
      return 0;
    }

    // The highest limb that differs decides.
    static lemma SmallerAt(s: seq<nat>, t: seq<nat>, i: nat)
      requires AreLimbs(s) && AreLimbs(t) && |s| == |t| && i < |s| && s[i] < t[i] && s[i + 1..] == t[i + 1..]
      ensures Value(s) < Value(t)
    {
      hide Value, Place, PowB;
      ValueSplit(s, i + 1);
      ValueSplit(t, i + 1);
      ValueStep(s, i);
      ValueStep(t, i);
      ValueBound(s[..i]);
      PlaceAdd(s[i], 1, i);
      PlaceZero(i);
      PlaceMonotone(s[i] + 1, t[i], i);
    }

    // bits(): the position of the highest set bit, counted from one.
    method BitCount() returns (n: nat)
      requires Valid()
      ensures n <= 32 * WIDTH && (n == 0 <==> V() == 0)
      ensures n > 0 ==> Pow2(n - 1) <= V() < Pow2(n)
    {
      hide Value, Place, Pow, PowB;
      var pos := WIDTH - 1;
      while pos >= 0
        invariant -1 <= pos < WIDTH
        invariant forall j :: pos < j < WIDTH ==> pn[j] == 0
      {
        if pn[pos] != 0 {
          Pow2Of32();
          var nbits := 31;
          while nbits > 0
            invariant 0 <= nbits < 32 && pn[pos] < Pow2(nbits + 1)
          {
            PowPositive(2, nbits);
            TopBit(pn[pos], nbits);
            // pn[pos] & 1 << nbits
            if (pn[pos] / Pow2(nbits)) % 2 == 1 {
              TopLimb(pn[..], pos, nbits);
              return 32 * pos + nbits + 1;
            }
            nbits := nbits - 1;
          }
          PowZero();
          TopLimb(pn[..], pos, 0);
          return 32 * pos + 1;
        }
        pos := pos - 1;
      }
      ValueZero(pn[..]);
      return 0;
    }

    static lemma TopBit(x: nat, n: nat)
      requires x < Pow2(n + 1)
      ensures Pow2(n) > 0 && ((x / Pow2(n)) % 2 == 1 <==> x >= Pow2(n))
    {
      PowPositive(2, n);
      var p := Pow2(n);
      if x >= p {
        ModUnique(x, 1, x - p, p);
      } else {
        ModUnique(x, 0, x, p);
      }
    }

    static lemma TopLimb(s: seq<nat>, pos: nat, n: nat)
      requires |s| == WIDTH && AreLimbs(s) && pos < WIDTH && n < 32 && forall j :: pos < j < WIDTH ==> s[j] == 0
      requires Pow2(n) <= s[pos] < Pow2(n + 1)
      ensures Pow2(32 * pos + n) <= Value(s) < Pow2(32 * pos + n + 1)
      ensures Value(s) > 0
    {
      hide Value, Place, Pow, PowB;
      ValueSplit(s, pos + 1);
      ValueZero(s[pos + 1..]);
      ValueStep(s, pos);
      ValueBound(s[..pos]);
      PlaceZero(pos);
      PlaceAdd(s[pos], 1, pos);
      PlaceMonotone(Pow2(n), s[pos], pos);
      PlaceMonotone(s[pos] + 1, Pow2(n + 1), pos);
      Pow2Place(n, pos);
      Pow2Place(n + 1, pos);
      PowPositive(2, 32 * pos + n);
      MulZero(PowB(pos + 1));
    }

    static lemma MulZero(a: nat)
      ensures a * 0 == 0
    {
    }

    static lemma Pow2Place(n: nat, k: nat)
      ensures Place(Pow2(n), k) == Pow2(32 * k + n)
    {
      PowAdd(2, n, 32 * k);
      Pow2Split(k);
    }

    // operator/=: bitwise long division.  The operand is copied first, so dividing an object
    // by itself is fine.
    method Divide(b: BaseUint) returns (threw: bool)
      requires Valid() && b.Valid()
      modifies pn
      ensures Valid() && threw == (old(b.V()) == 0)
      ensures V() == if threw then 0 else old(V()) / old(b.V())
    {
      hide Value, Place, Pow, PowB, Times, BitOr;
      var div := new BaseUint.Copy(b);
      var num := new BaseUint.Copy(this);
      ghost var x, y := num.V(), div.V();
      Clear();
      var numBits := num.BitCount();
      var divBits := div.BitCount();
      if divBits == 0 {
        return true;
      }
      threw := false;
      if divBits > numBits {
        Smaller(x, y, numBits, divBits);
        return;
      }
      var shift := numBits - divBits;
      Align(x, y, numBits, divBits);
      div.ShiftLeft(shift);
      TimesZero(y);
      while shift >= 0
        invariant Valid() && num.Valid() && div.Valid() && -1 <= shift < 32 * WIDTH
        invariant Times(V(), y) + num.V() == x
        invariant num.V() < Times(y, Pow2(shift + 1))
        invariant shift >= 0 ==> div.V() == Times(y, Pow2(shift))
        invariant MultipleOf(V(), Pow2(shift + 1))
      {
        QuotientBit(num, div, shift, x, y);
        Halves(y, shift);
        div.ShiftRight(1);
        shift := shift - 1;
      }
      PowZero();
      TimesIs(V(), y);
      TimesIs(y, 1);
      ModUnique(x, V(), num.V(), y);
    }

    // One bit of the quotient in *this, one subtraction from the remainder.
    method QuotientBit(num: BaseUint, div: BaseUint, shift: nat, ghost x: nat, ghost y: nat)
      requires Valid() && num.Valid() && div.Valid() && shift < 32 * WIDTH
      requires pn != num.pn && pn != div.pn && num.pn != div.pn
      requires Times(V(), y) + num.V() == x && num.V() < Times(y, Pow2(shift + 1))
      requires div.V() == Times(y, Pow2(shift)) && MultipleOf(V(), Pow2(shift + 1))
      modifies pn, num.pn
      ensures Valid() && num.Valid()
      ensures Times(V(), y) + num.V() == x && num.V() < Times(y, Pow2(shift)) && MultipleOf(V(), Pow2(shift))
    {
      hide Value, Place, Pow, PowB, Times, BitOr;
      Halves(y, shift);
      var c := num.CompareTo(div);
      if c >= 0 {
        ghost var v, n := V(), num.V();
        Within(n, Times(y, Pow2(shift)), num.pn[..]);
        num.Subtract(div);
        SetBit(shift);
        TimesAdd(y, v, Pow2(shift));
        TimesComm(Pow2(shift), y);
      } else {
        HalfMultiple(V(), shift);
      }
    }

    static lemma TimesComm(a: nat, b: nat)
      ensures Times(a, b) == Times(b, a)
    {
    }

    static lemma Smaller(x: nat, y: nat, m: nat, n: nat)
      requires n > m && (m == 0 <==> x == 0) && (m > 0 ==> x < Pow2(m)) && Pow2(n - 1) <= y
      ensures y > 0 && x / y == 0
    {
      PowPositive(2, n - 1);
      if m > 0 {
        PowMonotone(m, n - 1);
      }
      ModUnique(x, 0, x, y);
    }

    static lemma {:induction false} PowMonotone(m: nat, n: nat)
      requires m <= n
      ensures Pow2(m) <= Pow2(n)
      decreases n
    {
      if m < n {
        PowMonotone(m, n - 1);
      }
    }

    // After aligning, the divisor is where the first quotient bit goes, and nothing wrapped.
    static lemma Align(x: nat, y: nat, m: nat, n: nat)
      requires 0 < n <= m <= 32 * WIDTH && Pow2(n - 1) <= y < Pow2(n) && Pow2(m - 1) <= x < Pow2(m)
      ensures (y * Pow2(m - n)) % PowB(WIDTH) == Times(y, Pow2(m - n))
      ensures x < Times(y, Pow2(m - n + 1)) && MultipleOf(0, Pow2(m - n + 1))
    {
      hide Pow;
      PowAdd(2, n, m - n);
      PowAdd(2, n - 1, m - n + 1);
      MulMonotone(Pow2(n - 1), y, Pow2(m - n + 1));
      PowPositive(2, m - n);
      MulStrict(y, Pow2(n), Pow2(m - n));
      PowMonotone(m, 32 * WIDTH);
      Pow2Split(WIDTH);
      PowPositive(2, 32 * WIDTH);
      ModUnique(y * Pow2(m - n), 0, y * Pow2(m - n), PowB(WIDTH));
      assert 0 == 0 * Pow2(m - n + 1);
    }

    static lemma MulStrict(a: nat, b: nat, c: nat)
      requires a < b && c > 0
      ensures a * c < b * c
    {
      MulMonotone(a + 1, b, c);
      MulDistrib(c, a, 1);
    }

    static lemma Halves(y: nat, shift: nat)
      ensures Times(y, Pow2(shift + 1)) == 2 * Times(y, Pow2(shift)) && Pow2(1) == 2
      ensures shift > 0 ==> Times(y, Pow2(shift)) / 2 == Times(y, Pow2(shift - 1))
    {
      MulAssoc(y, 2, Pow2(shift));
      MulComm(y, 2);
      MulAssoc(2, y, Pow2(shift));
      if shift > 0 {
        MulAssoc(y, 2, Pow2(shift - 1));
        MulAssoc(2, y, Pow2(shift - 1));
      }
    }

    static lemma HalfMultiple(v: nat, shift: nat)
      requires MultipleOf(v, Pow2(shift + 1))
      ensures MultipleOf(v, Pow2(shift))
    {
      var c: nat :| v == c * Pow2(shift + 1);
      MulAssoc(c, 2, Pow2(shift));
      assert v == (c * 2) * Pow2(shift);
    }

    // A difference that does not wrap.
    static lemma Within(n: nat, d: nat, s: seq<nat>)
      requires AreLimbs(s) && |s| == WIDTH && n == Value(s) && d <= n
      ensures PowB(WIDTH) > 0 && (n - d) % PowB(WIDTH) == n - d
    {
      ValueBound(s);
      ModUnique(n - d, 0, n - d, PowB(WIDTH));
    }

    // pn[shift / 32] |= 1 << (shift & 31)
    method SetBit(shift: nat)
      requires Valid() && shift < 32 * WIDTH && MultipleOf(V(), Pow2(shift + 1))
      modifies pn
      ensures Valid() && V() == old(V()) + Pow2(shift) && MultipleOf(V(), Pow2(shift))
    {
      hide Value, Place, Pow, PowB, BitOr;
      var m, t := shift / 32, shift % 32;
      ghost var before := pn[..];
      LimbMultiple(before, m, t);
      OrBit(pn[m], t);
      ValueUpdate(before, m, pn[m] + Pow2(t));
      PlaceAdd(pn[m], Pow2(t), m);
      Pow2Place(t, m);
      AddOne(V(), shift);
      pn[m] := BitOr(pn[m], Pow2(t));
      assert pn[..] == before[m := before[m] + Pow2(t)];
    }

    static lemma AddOne(v: nat, shift: nat)
      requires MultipleOf(v, Pow2(shift + 1))
      ensures MultipleOf(v + Pow2(shift), Pow2(shift))
    {
      HalfMultiple(v, shift);
      var c: nat :| v == c * Pow2(shift);
      MulDistrib(Pow2(shift), c, 1);
      assert v + Pow2(shift) == (c + 1) * Pow2(shift);
    }

    // A multiple of 2^(shift + 1) has only zeros at and below bit shift of its limb.
    static lemma LimbMultiple(s: seq<nat>, m: nat, t: nat)
      requires |s| == WIDTH && AreLimbs(s) && m < WIDTH && t < 32 && MultipleOf(Value(s), Pow2(32 * m + t + 1))
      ensures MultipleOf(s[m], Pow2(t + 1))
    {
      hide Value, Pow;
      var p := Pow2(t + 1);
      var c: nat :| Value(s) == c * Pow2(32 * m + t + 1);
      Pow2Place(t + 1, m);
      MulAssoc(c, p, PowB(m));
      ValueSplit(s, m);
      ValueBound(s[..m]);
      MulComm(PowB(m), Value(s[m..]));
      ModUnique(Value(s), Value(s[m..]), Value(s[..m]), PowB(m));
      ModUnique(Value(s), c * p, 0, PowB(m));
      FirstLimb(s[m..]);
      var q := Pow2(31 - t);
      PowAdd(2, 31 - t, t + 1);
      Pow2Of32();
      LowMultiple(s[m], Value(s[m + 1..]), c, p, q);
    }

    static lemma FirstLimb(s: seq<nat>)
      requires |s| > 0
      ensures Value(s) == s[0] + B * Value(s[1..])
    {
      ValueSplit(s, 1);
      ValueStep(s, 0);
    }

    static lemma LowMultiple(x: nat, r: nat, c: nat, p: nat, q: nat)
      requires x + B * r == c * p && q * p == B && p > 0
      ensures MultipleOf(x, p)
    {
      MulAssoc(r, q, p);
      MulComm(B, r);
      var d := c - r * q;
      assert x == d * p by { MulDistrib(p, c, r * q); }
    }

    static lemma OrBit(x: nat, t: nat)
      requires t < 32 && x < B && MultipleOf(x, Pow2(t + 1))
      ensures BitOr(x, Pow2(t)) == x + Pow2(t) < B
    {
      hide Pow, BitOr;
      var c: nat :| x == c * Pow2(t + 1);
      PowPositive(2, t);
      PowNext(t);
      OrDisjoint(Pow2(t), c, t + 1);
      BitOrComm(x, Pow2(t));
      PowAdd(2, 31 - t, t + 1);
      Pow2Of32();
      Room(Pow2(t), c, Pow2(t + 1), Pow2(31 - t), B);
    }


    // operator=(uint64_t)
    method Assign(b: nat)
      requires Valid() && b < B * B
      modifies pn
      ensures Valid() && V() == b
    {
      Clear();
      pn[0] := b % B;
      pn[1] := b / B;
      assert b / B < B;
      LowLimbs(pn[..]);
    }

    // GetLow64
    method Low64() returns (r: nat)
      requires Valid()
      ensures r == V() % (B * B)
    {
      hide Value, Pow, Place, BitOr;
      Pow2Of32();
      OrDisjoint(pn[0], pn[1], 32);
      r := BitOr(pn[0], pn[1] * Pow2(32));
      assert pn[1..][1..] == pn[2..] && pn[..][1..] == pn[1..];
      FirstLimb(pn[..]);
      FirstLimb(pn[1..]);
      ghost var high := Value(pn[2..]);
      MulDistrib(B, pn[1], B * high);
      MulAssoc(B, B, high);
      MulComm(B * B, high);
      ModUnique(V(), high, r, B * B);
    }
  }
}
