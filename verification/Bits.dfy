/**
 * Bitwise operations on the limbs of src/arith_uint256.h, as integers.
 */
module Bits {
  import opened Powers
  import opened Limbs

  // x | y
  function BitOr(x: nat, y: nat): nat
    decreases x
  {
    if x == 0 then y
    else 2 * BitOr(x / 2, y / 2) + (if x % 2 == 1 || y % 2 == 1 then 1 else 0)
  }

  ghost predicate MultipleOf(x: nat, p: nat) {
    exists c: nat :: x == c * p
  }

  // Numbers without a common bit add up.
  lemma {:induction false} OrDisjoint(x: nat, c: nat, k: nat)
    requires x < Pow2(k)
    ensures BitOr(x, c * Pow2(k)) == x + c * Pow2(k)
    decreases k
  {
    if x != 0 {
      var y := c * Pow2(k - 1);
      assert c * Pow2(k) == 2 * y by {
        MulAssoc(c, 2, Pow2(k - 1));
        MulComm(c, 2);
        MulAssoc(2, c, Pow2(k - 1));
      }
      OrDisjoint(x / 2, c, k - 1);
    }
  }

  lemma OrZero(x: nat)
    ensures BitOr(0, x) == x
  {
  }

  lemma {:induction false} Pow2Split(k: nat)
    ensures PowB(k) == Pow2(32 * k)
  {
    if k > 0 {
      Pow2Split(k - 1);
      PowAdd(2, 32, 32 * (k - 1));
      Pow2Of32();
    }
  }

  lemma Pow2Of32()
    ensures Pow2(32) == B
  {
    PowAdd(2, 16, 16);
    PowAdd(2, 8, 8);
    assert Pow2(8) == 256;
  }

  // 2^(32 k + r) as limbs and bits.
  lemma Pow2Parts(shift: nat)
    ensures Pow2(shift) == Place(Pow2(shift % 32), shift / 32)
  {
    PowAdd(2, shift % 32, 32 * (shift / 32));
    Pow2Split(shift / 32);
  }

  // 32 bits cut at r from the top or at r from the bottom.
  lemma Cut(x: nat, r: nat)
    requires 0 < r < 32 && x < B
    ensures Pow2(r) > 0 && Pow2(32 - r) > 0 && Pow2(r) * Pow2(32 - r) == B
    // x << r drops the top r bits, x >> (32 - r) keeps them
    ensures x / Pow2(32 - r) < Pow2(r)
    ensures (x * Pow2(r)) % B == (x % Pow2(32 - r)) * Pow2(r)
    ensures x * Pow2(r) == (x / Pow2(32 - r)) * B + (x * Pow2(r)) % B
  {
    hide Pow;
    PowPositive(2, r);
    PowPositive(2, 32 - r);
    PowAdd(2, r, 32 - r);
    Pow2Of32();
    CutHigh(x, Pow2(r), Pow2(32 - r), B);
    CutLow(x, Pow2(r), Pow2(32 - r), B);
  }

  lemma CutHigh(x: nat, p: nat, q: nat, b: nat)
    requires p > 0 && q > 0 && p * q == b && x < b
    ensures x / q < p
  {
    var h := x / q;
    assert x == h * q + x % q;
    if h >= p { MulMonotone(p, h, q); }
  }

  lemma CutLow(x: nat, p: nat, q: nat, b: nat)
    requires p > 0 && q > 0 && p * q == b && x < b
    ensures (x * p) % b == (x % q) * p
    ensures x * p == (x / q) * b + (x * p) % b
  {
    var h, l := x / q, x % q;
    assert x * p == h * b + l * p by {
      assert x == h * q + l;
      MulDistrib(p, h * q, l);
      MulAssoc(h, q, p);
      MulComm(p, q);
      MulComm(x, p);
    }
    assert l * p < b by {
      MulMonotone(l + 1, q, p);
      MulDistrib(p, l, 1);
      MulComm(p, q);
    }
    ModUnique(x * p, h, l * p, b);
  }

  // ---------- one limb of a shift ----------

  // A place beyond the top limb is a multiple of the modulus.
  lemma PlaceOver(x: nat, m: nat, w: nat)
    requires m >= w
    ensures Place(x, m) == Place(x * PowB(m - w), w)
  {
    PowAdd(B, m - w, w);
    MulAssoc(x, PowB(m - w), PowB(w));
  }

  // x << r spread over two limbs.
  lemma LeftParts(x: nat, r: nat, i: nat, k: nat)
    requires r < 32 && x < B
    ensures Pow2(32 - r) > 0
    ensures var hi := if r == 0 then 0 else x / Pow2(32 - r);
            var lo := (x * Pow2(r)) % B;
            && hi < B && lo < B && hi < Pow2(r)
            && MultipleOf(lo, Pow2(r))
            && Place(lo, i + k) + Place(hi, i + k + 1) == Times(Place(Pow2(r), k), Place(x, i))
  {
    hide Pow;
    PowPositive(2, 32 - r);
    var p := Pow2(r);
    TimesPlace(p, k, x, i);
    MulComm(p, x);
    if r == 0 {
      assert p == 1 by { PowZero(); }
      PlaceZero(i + k + 1);
      assert x * p == x;
      assert x == x * p;
    } else {
      Cut(x, r);
      PlaceCarry(x * p, i + k);
      DivideIs(x * p, x / Pow2(32 - r));
      Below(x, Pow2(32 - r));
    }
  }

  lemma PowZero()
    ensures Pow2(0) == 1
  {
  }

  lemma DivideIs(n: nat, q: nat)
    requires n == q * B + n % B
    ensures n / B == q
  {
  }

  lemma Below(x: nat, q: nat)
    requires q > 0
    ensures x / q <= x
  {
    var h := x / q;
    assert x == h * q + x % q;
    MulMonotone(1, q, h);
    MulComm(h, q);
  }

  // The two halves of a shifted limb meet without a common bit.
  lemma OrLow(x: nat, lo: nat, r: nat)
    requires r <= 32 && x < Pow2(r) && lo < B && MultipleOf(lo, Pow2(r))
    ensures BitOr(x, lo) == x + lo < B
  {
    hide Pow, BitOr;
    var c: nat :| lo == c * Pow2(r);
    OrDisjoint(x, c, r);
    PowAdd(2, 32 - r, r);
    Pow2Of32();
    Room(x, c, Pow2(r), Pow2(32 - r), B);
  }

  lemma Room(x: nat, c: nat, p: nat, q: nat, b: nat)
    requires x < p && q * p == b && c * p < b
    ensures x + c * p < b
  {
    if c >= q {
      MulMonotone(q, c, p);
    } else {
      MulMonotone(c + 1, q, p);
      MulDistrib(p, c, 1);
    }
  }

  // x >> r, and what it moves into the limb below.
  lemma RightParts(x: nat, r: nat, i: nat, k: nat)
    requires r < 32 && x < B && i >= k
    ensures Pow2(r) > 0
    ensures var h, l := x / Pow2(r), x % Pow2(r);
            var lo := if r == 0 then 0 else (x * Pow2(32 - r)) % B;
            && h < B && lo < B && h < Pow2(32 - r)
            && MultipleOf(lo, Pow2(32 - r))
            && (i == k ==> Times(Place(Pow2(r), k), Place(h, 0)) + Place(l, k) == Place(x, k))
            && (i > k ==> Times(Place(Pow2(r), k), Place(h, i - k)) + Times(Place(Pow2(r), k), Place(lo, i - k - 1)) == Place(x, i))
  {
    hide Pow, Times, Place;
    PowPositive(2, r);
    var p, h, l := Pow2(r), x / Pow2(r), x % Pow2(r);
    var lo := if r == 0 then 0 else (x * Pow2(32 - r)) % B;
    Below(x, p);
    assert x == p * h + l;
    TimesPlace(p, k, h, i - k);
    PlaceAdd(p * h, l, i);
    if r == 0 {
      PowZero();
      Pow2Of32();
      assert lo == 0 * Pow2(32 - r);
      if i > k {
        PlaceZero(i - k - 1);
        TimesZero(Place(p, k));
        PlaceZero(i);
      }
    } else {
      var q := Pow2(32 - r);
      Cut(x, 32 - r);
      assert lo == l * q;
      if i > k {
        TimesPlace(p, k, lo, i - k - 1);
        assert p * lo == l * B by {
          MulComm(l, q);
          MulAssoc(p, q, l);
          MulComm(B, l);
        }
        CarryUp(l, i - 1);
      }
    }
  }

  lemma CarryUp(l: nat, i: nat)
    ensures Place(l * B, i) == Place(l, i + 1)
  {
    MulAssoc(l, B, PowB(i));
  }

  lemma {:induction false} BitOrComm(x: nat, y: nat)
    ensures BitOr(x, y) == BitOr(y, x)
    decreases x + y
  {
    if x == 0 {
      OrNothing(y);
    } else if y == 0 {
      OrNothing(x);
    } else {
      BitOrComm(x / 2, y / 2);
    }
  }

  lemma {:induction false} OrNothing(x: nat)
    ensures BitOr(x, 0) == x
  {
    if x != 0 { OrNothing(x / 2); }
  }

  // Setting a clear bit adds it.
  lemma {:induction false} OrFree(x: nat, t: nat)
    requires Pow2(t) > 0 && (x / Pow2(t)) % 2 == 0
    ensures BitOr(x, Pow2(t)) == x + Pow2(t)
  {
    hide BitOr, Pow;
    if t == 0 {
      PowZero();
      OrNothing(x / 2);
      OrStep(x, 0);
    } else {
      var p := Pow2(t - 1);
      PowPositive(2, t - 1);
      PowNext(t - 1);
      HalfDivide(x, p);
      OrFree(x / 2, t - 1);
      OrStep(x, p);
    }
  }

  lemma PowNext(t: nat)
    ensures Pow2(t + 1) == 2 * Pow2(t)
  {
  }

  // The last bit of an or.
  lemma OrStep(x: nat, y: nat)
    ensures BitOr(x, 2 * y) == 2 * BitOr(x / 2, y) + x % 2
    ensures BitOr(x, 1) == 2 * BitOr(x / 2, 0) + 1
  {
    hide BitOr;
    assert (2 * y) / 2 == y && (2 * y) % 2 == 0;
    if x == 0 {
      OrZero(2 * y);
      OrZero(y);
      OrZero(0);
      OrZero(1);
    } else {
      OrUnfold(x, 2 * y);
      OrUnfold(x, 1);
    }
  }

  lemma OrUnfold(x: nat, y: nat)
    requires x != 0
    ensures BitOr(x, y) == 2 * BitOr(x / 2, y / 2) + (if x % 2 == 1 || y % 2 == 1 then 1 else 0)
  {
  }

  lemma HalfDivide(x: nat, p: nat)
    requires p > 0
    ensures x / (2 * p) == (x / 2) / p
  {
    var q, r := (x / 2) / p, (x / 2) % p;
    assert x / 2 == q * p + r;
    MulAssoc(q, 2, p);
    MulComm(q, 2);
    ModUnique(x, q, 2 * r + x % 2, 2 * p);
  }
}
