/**
 * The field with 1024 elements, as pairs over the field with 32: z^2 = 9 z + 23.  The generator
 * polynomial of src/bech32.cpp has its roots here.
 */
module Gf1024 {
  import Gf32

  type F = Gf32.F

  // a + b z
  datatype E = E(a: F, b: F)

  const ZERO := E(0, 0)
  const ONE := E(1, 0)
  // z, which generates all nonzero elements
  const ALPHA := E(0, 1)

  function Of(x: F): E { E(x, 0) }

  function Add(x: E, y: E): E { E(Gf32.Add(x.a, y.a), Gf32.Add(x.b, y.b)) }

  function Mul(x: E, y: E): E {
    var bd := Gf32.Mul(x.b, y.b);
    E(Gf32.Add(Gf32.Mul(x.a, y.a), Gf32.Mul(bd, 23)),
      Gf32.Add(Gf32.Add(Gf32.Mul(x.a, y.b), Gf32.Mul(x.b, y.a)), Gf32.Mul(bd, 9)))
  }

  // ---------- the laws ----------

  lemma AddLaws(x: E, y: E, z: E)
    ensures Add(x, y) == Add(y, x) && Add(Add(x, y), z) == Add(x, Add(y, z))
    ensures Add(x, ZERO) == x && Add(ZERO, x) == x && Add(x, x) == ZERO
    ensures Add(x, y) == ZERO ==> x == y
  {
    hide Gf32.Add;
    Gf32.AddLaws(x.a, y.a, z.a);
    Gf32.AddLaws(x.b, y.b, z.b);
  }

  lemma AddSwap(a: E, b: E, c: E, d: E)
    ensures Add(Add(a, b), Add(c, d)) == Add(Add(a, c), Add(b, d))
  {
    hide Gf32.Add;
    Gf32.AddSwap(a.a, b.a, c.a, d.a);
    Gf32.AddSwap(a.b, b.b, c.b, d.b);
  }

  lemma MulUnits(x: E)
    ensures Mul(x, ONE) == x && Mul(ONE, x) == x && Mul(x, ZERO) == ZERO && Mul(ZERO, x) == ZERO
  {
    hide Gf32.Add, Gf32.Mul;
    Gf32.MulUnits(x.a);
    Gf32.MulUnits(x.b);
    Gf32.MulUnits(23);
    Gf32.MulUnits(9);
    Gf32.AddLaws(x.a, 0, 0);
    Gf32.AddLaws(x.b, 0, 0);
    Gf32.AddLaws(0, 0, 0);
  }

  lemma MulComm(x: E, y: E)
    ensures Mul(x, y) == Mul(y, x)
  {
    hide Gf32.Add, Gf32.Mul;
    Gf32.MulComm(x.a, y.a);
    Gf32.MulComm(x.b, y.b);
    Gf32.MulComm(x.a, y.b);
    Gf32.MulComm(x.b, y.a);
    Gf32.AddLaws(Gf32.Mul(x.a, y.b), Gf32.Mul(x.b, y.a), 0);
  }

  lemma MulDistrib(x: E, y: E, z: E)
    ensures Mul(Add(x, y), z) == Add(Mul(x, z), Mul(y, z))
  {
    hide Gf32.Add, Gf32.Mul;
    Gf32.MulDistrib(x.a, y.a, z.a);
    Gf32.MulDistrib(x.b, y.b, z.b);
    Gf32.MulDistrib(x.a, y.a, z.b);
    Gf32.MulDistrib(x.b, y.b, z.a);
    var p, q := Gf32.Mul(x.b, z.b), Gf32.Mul(y.b, z.b);
    Gf32.MulDistrib(p, q, 23);
    Gf32.MulDistrib(p, q, 9);
    Gf32.AddSwap(Gf32.Mul(x.a, z.a), Gf32.Mul(y.a, z.a), Gf32.Mul(p, 23), Gf32.Mul(q, 23));
    Gf32.AddSwap(Gf32.Mul(x.a, z.b), Gf32.Mul(y.a, z.b), Gf32.Mul(x.b, z.a), Gf32.Mul(y.b, z.a));
    Gf32.AddSwap(Gf32.Add(Gf32.Mul(x.a, z.b), Gf32.Mul(x.b, z.a)), Gf32.Add(Gf32.Mul(y.a, z.b), Gf32.Mul(y.b, z.a)),
                 Gf32.Mul(p, 9), Gf32.Mul(q, 9));
  }

  // A product with an element of the small field, and with z.
  lemma MulOf(x: E, c: F)
    ensures Mul(x, Of(c)) == E(Gf32.Mul(x.a, c), Gf32.Mul(x.b, c))
  {
    hide Gf32.Add, Gf32.Mul;
    Gf32.MulUnits(x.a);
    Gf32.MulUnits(x.b);
    Gf32.MulUnits(23);
    Gf32.MulUnits(9);
    Gf32.AddLaws(Gf32.Mul(x.a, c), 0, 0);
    Gf32.AddLaws(Gf32.Mul(x.b, c), 0, 0);
  }

  lemma MulAlpha(x: E)
    ensures Mul(x, ALPHA) == E(Gf32.Mul(x.b, 23), Gf32.Add(x.a, Gf32.Mul(x.b, 9)))
  {
    hide Gf32.Add, Gf32.Mul;
    Gf32.MulUnits(x.a);
    Gf32.MulUnits(x.b);
    Gf32.AddLaws(Gf32.Mul(x.b, 23), 0, 0);
    Gf32.AddLaws(x.a, 0, 0);
  }

  lemma Parts(z: E)
    ensures z == Add(Of(z.a), Mul(Of(z.b), ALPHA)) == Add(Of(z.a), Mul(ALPHA, Of(z.b)))
  {
    hide Gf32.Add, Gf32.Mul;
    MulAlpha(Of(z.b));
    MulComm(Of(z.b), ALPHA);
    Gf32.MulUnits(23);
    Gf32.MulUnits(9);
    Gf32.AddLaws(z.a, 0, 0);
    Gf32.AddLaws(z.b, 0, 0);
  }

  // (x y) c == x (y c) for c in the small field.
  lemma AssocOf(x: E, y: E, c: F)
    ensures Mul(Mul(x, y), Of(c)) == Mul(x, Mul(y, Of(c)))
  {
    hide Gf32.Add, Gf32.Mul;
    MulOf(y, c);
    MulOf(Mul(x, y), c);
    Gf32.MulAssoc(x.a, y.a, c);
    Gf32.MulAssoc(x.b, y.b, c);
    Gf32.MulAssoc(x.a, y.b, c);
    Gf32.MulAssoc(x.b, y.a, c);
    var bd := Gf32.Mul(x.b, y.b);
    Past(bd, 23, c);
    Past(bd, 9, c);
    Gf32.MulDistrib(Gf32.Mul(x.a, y.a), Gf32.Mul(bd, 23), c);
    Gf32.MulDistrib(Gf32.Mul(x.a, y.b), Gf32.Mul(x.b, y.a), c);
    Gf32.MulDistrib(Gf32.Add(Gf32.Mul(x.a, y.b), Gf32.Mul(x.b, y.a)), Gf32.Mul(bd, 9), c);
  }

  lemma Past(x: F, y: F, c: F)
    ensures Gf32.Mul(Gf32.Mul(x, y), c) == Gf32.Mul(Gf32.Mul(x, c), y)
  {
    hide Gf32.Mul;
    Gf32.MulAssoc(x, y, c);
    Gf32.MulComm(y, c);
    Gf32.MulAssoc(x, c, y);
  }

  // (x y) z == x (y z) for the generator z.
  lemma AssocAlpha(x: E, y: E)
    ensures Mul(Mul(x, y), ALPHA) == Mul(x, Mul(y, ALPHA))
  {
    hide Gf32.Add, Gf32.Mul;
    MulAlpha(y);
    MulAlpha(Mul(x, y));
    var ac, bd, ad, bc := Gf32.Mul(x.a, y.a), Gf32.Mul(x.b, y.b), Gf32.Mul(x.a, y.b), Gf32.Mul(x.b, y.a);
    var y' := E(Gf32.Mul(y.b, 23), Gf32.Add(y.a, Gf32.Mul(y.b, 9)));
    // the products with y z
    Gf32.MulAssoc(x.a, y.b, 23);
    Gf32.MulAssoc(x.b, y.b, 23);
    Left(x.a, y.a, Gf32.Mul(y.b, 9));
    Left(x.b, y.a, Gf32.Mul(y.b, 9));
    Gf32.MulAssoc(x.a, y.b, 9);
    Gf32.MulAssoc(x.b, y.b, 9);
    assert Gf32.Mul(x.a, y'.b) == Gf32.Add(ac, Gf32.Mul(ad, 9));
    assert Gf32.Mul(x.b, y'.b) == Gf32.Add(bc, Gf32.Mul(bd, 9));
    // both sides written out
    var t, u, v, w := Gf32.Mul(ad, 23), Gf32.Mul(bc, 23), Gf32.Mul(Gf32.Mul(bd, 9), 23), Gf32.Mul(bd, 23);
    Gf32.MulDistrib(bc, Gf32.Mul(bd, 9), 23);
    Gf32.MulDistrib(Gf32.Add(ad, bc), Gf32.Mul(bd, 9), 23);
    Gf32.MulDistrib(ad, bc, 23);
    Gf32.AddLaws(t, u, v);
    var p, q, r := Gf32.Mul(ad, 9), Gf32.Mul(bc, 9), Gf32.Mul(Gf32.Mul(bd, 9), 9);
    Gf32.MulDistrib(bc, Gf32.Mul(bd, 9), 9);
    Gf32.MulDistrib(Gf32.Add(ad, bc), Gf32.Mul(bd, 9), 9);
    Gf32.MulDistrib(ad, bc, 9);
    Rearrange(ac, w, p, q, r);
  }

  lemma Left(x: F, y: F, z: F)
    ensures Gf32.Mul(x, Gf32.Add(y, z)) == Gf32.Add(Gf32.Mul(x, y), Gf32.Mul(x, z))
  {
    hide Gf32.Add, Gf32.Mul;
    Gf32.MulComm(x, Gf32.Add(y, z));
    Gf32.MulComm(x, y);
    Gf32.MulComm(x, z);
    Gf32.MulDistrib(y, z, x);
  }

  lemma Rearrange(ac: F, w: F, p: F, q: F, r: F)
    ensures Gf32.Add(Gf32.Add(ac, w), Gf32.Add(Gf32.Add(p, q), r)) == Gf32.Add(Gf32.Add(Gf32.Add(ac, p), w), Gf32.Add(q, r))
  {
  }

  lemma MulAssoc(x: E, y: E, z: E)
    ensures Mul(Mul(x, y), z) == Mul(x, Mul(y, z))
  {
    hide Add, Mul, Of;
    Parts(z);
    var c, d := Of(z.a), Mul(Of(z.b), ALPHA);
    LeftE(Mul(x, y), c, d);
    LeftE(y, c, d);
    LeftE(x, Mul(y, c), Mul(y, d));
    AssocOf(x, y, z.a);
    // d on the right: first the small element, then z
    AssocD(x, y, z.b);
  }

  lemma AssocD(x: E, y: E, c: F)
    ensures var d := Mul(Of(c), ALPHA); Mul(Mul(x, y), d) == Mul(x, Mul(y, d))
  {
    hide Add, Mul, Of;
    var o := Of(c);
    AssocAlpha(Mul(x, y), o);
    AssocAlpha(y, o);
    AssocOf(x, y, c);
    AssocAlpha(x, Mul(y, o));
  }

  lemma LeftE(x: E, y: E, z: E)
    ensures Mul(x, Add(y, z)) == Add(Mul(x, y), Mul(x, z))
  {
    hide Add, Mul;
    MulComm(x, Add(y, z));
    MulComm(x, y);
    MulComm(x, z);
    MulDistrib(y, z, x);
  }

  // ---------- no zero divisors ----------

  // x times its conjugate is in the small field, and zero only for zero.
  function Conj(x: E): E { E(Gf32.Add(x.a, Gf32.Mul(x.b, 9)), x.b) }
  function Norm(a: F, b: F): F { Gf32.Add(Gf32.Mul(a, Gf32.Add(a, Gf32.Mul(b, 9))), Gf32.Mul(Gf32.Mul(b, b), 23)) }

  lemma NormZero(a: F, b: F)
    requires Norm(a, b) == 0
    ensures a == 0 && b == 0
  {
  }

  lemma ConjIs(x: E)
    ensures Mul(x, Conj(x)) == Of(Norm(x.a, x.b))
  {
    hide Gf32.Add, Gf32.Mul;
    var ab, bb := Gf32.Mul(x.a, x.b), Gf32.Mul(x.b, x.b);
    Left(x.b, x.a, Gf32.Mul(x.b, 9));
    Gf32.MulAssoc(x.b, x.b, 9);
    Gf32.MulComm(x.a, x.b);
    Cancel(ab, Gf32.Mul(bb, 9));
  }

  lemma Cancel(p: F, q: F)
    ensures Gf32.Add(Gf32.Add(p, Gf32.Add(p, q)), q) == 0
  {
  }

  lemma MulZero(x: E, y: E)
    requires Mul(x, y) == ZERO && x != ZERO
    ensures y == ZERO
  {
    hide Mul, Norm, Of, Conj;
    ConjIs(x);
    var n := Norm(x.a, x.b);
    if n == 0 { NormZero(x.a, x.b); }
    MulComm(x, y);
    MulAssoc(y, x, Conj(x));
    MulUnits(Conj(x));
    ScalarZero(y, n);
  }

  lemma ScalarZero(y: E, n: F)
    requires Mul(y, Of(n)) == ZERO && n != 0
    ensures y == ZERO
  {
    hide Mul, Gf32.Mul;
    MulOf(y, n);
    Gf32.MulZero(y.a, n);
    Gf32.MulZero(y.b, n);
  }

  // ---------- powers ----------

  function Pow(x: E, n: nat): E { if n == 0 then ONE else Mul(Pow(x, n - 1), x) }

  lemma PowOf(x: E, n: nat)
    ensures Pow(x, 0) == ONE && Pow(x, 1) == x && Pow(x, n + 1) == Mul(Pow(x, n), x)
  {
    hide Mul;
    MulUnits(x);
    assert Pow(x, 0 + 1) == Mul(Pow(x, 0), x);
  }

  lemma {:induction false} PowAdd(x: E, m: nat, n: nat)
    ensures Pow(x, m + n) == Mul(Pow(x, m), Pow(x, n))
  {
    hide Mul, Pow;
    if n == 0 {
      PowOf(x, 0);
      MulUnits(Pow(x, m));
    } else {
      PowAdd(x, m, n - 1);
      PowOf(x, m + n - 1);
      PowOf(x, n - 1);
      MulAssoc(Pow(x, m), Pow(x, n - 1), x);
    }
  }

  lemma {:induction false} PowMul(x: E, y: E, n: nat)
    ensures Pow(Mul(x, y), n) == Mul(Pow(x, n), Pow(y, n))
  {
    hide Mul, Pow;
    PowOf(x, if n == 0 then 0 else n - 1);
    PowOf(y, if n == 0 then 0 else n - 1);
    PowOf(Mul(x, y), if n == 0 then 0 else n - 1);
    if n == 0 {
      MulUnits(ONE);
    } else {
      PowMul(x, y, n - 1);
      MulSwap(Pow(x, n - 1), Pow(y, n - 1), x, y);
    }
  }

  lemma MulSwap(a: E, b: E, c: E, d: E)
    ensures Mul(Mul(a, b), Mul(c, d)) == Mul(Mul(a, c), Mul(b, d))
  {
    hide Mul;
    MulAssoc(Mul(a, b), c, d);
    MulAssoc(a, b, c);
    MulComm(b, c);
    MulAssoc(a, c, b);
    MulAssoc(Mul(a, c), b, d);
  }

  lemma {:induction false} PowPow(x: E, m: nat, n: nat)
    ensures Pow(x, m * n) == Pow(Pow(x, m), n)
  {
    hide Mul, Pow;
    if n == 0 {
      PowOf(x, 0);
      PowOf(Pow(x, m), 0);
    } else {
      PowPow(x, m, n - 1);
      PowAdd(x, m * (n - 1), m);
      PowOf(Pow(x, m), n - 1);
    }
  }

  lemma {:induction false} PowUnit(n: nat)
    ensures Pow(ONE, n) == ONE
  {
    hide Mul, Pow;
    if n == 0 {
      PowOf(ONE, 0);
    } else {
      PowUnit(n - 1);
      PowOf(ONE, n - 1);
      MulUnits(ONE);
    }
  }

  lemma {:induction false} PowNonzero(x: E, n: nat)
    requires x != ZERO
    ensures Pow(x, n) != ZERO
  {
    hide Mul, Pow;
    if n == 0 {
      PowOf(x, 0);
    } else {
      PowNonzero(x, n - 1);
      PowOf(x, n - 1);
      if Pow(x, n) == ZERO { MulZero(Pow(x, n - 1), x); }
    }
  }

  // ---------- the order of z ----------

  predicate IsPrime(p: nat) { p > 1 && forall m: nat :: 1 < m < p ==> p % m != 0 }

  // An exponent can be taken modulo another one that gives 1.
  lemma PowRest(x: E, a: nat, b: nat)
    requires b > 0 && Pow(x, b) == ONE
    ensures Pow(x, a) == Pow(x, a % b)
  {
    hide Mul, Pow;
    assert a == b * (a / b) + a % b;
    PowAdd(x, b * (a / b), a % b);
    PowPow(x, b, a / b);
    PowUnit(a / b);
    MulUnits(Pow(x, a % b));
  }

  // No element but 1 has both a prime power and a smaller one equal to 1.
  lemma {:induction false} PrimeOrder(x: E, p: nat, r: nat)
    requires IsPrime(p) && 0 < r < p && Pow(x, p) == ONE && Pow(x, r) == ONE
    ensures x == ONE
  {
    hide Mul, Pow;
    if r == 1 {
      PowOf(x, 0);
    } else {
      PowRest(x, p, r);
      PrimeOrder(x, p, p % r);
    }
  }

  lemma Entry(m: nat, n: nat, x: E, y: E, z: E)
    requires Pow(ALPHA, m) == x && Pow(ALPHA, n) == y && Mul(x, y) == z
    ensures Pow(ALPHA, m + n) == z
  {
    hide Mul, Pow;
    PowAdd(ALPHA, m, n);
  }

  // z^n for the n along the doublings to 1023.
  lemma Table()
    ensures Pow(ALPHA, 33) != ONE && Pow(ALPHA, 93) != ONE && Pow(ALPHA, 341) != ONE && Pow(ALPHA, 1023) == ONE
  {
    hide Pow;
    PowOf(ALPHA, 0);
    Entry(1, 1, E(0, 1), E(0, 1), E(23, 9));
    Entry(2, 2, E(23, 9), E(23, 9), E(14, 6));
    Entry(4, 4, E(14, 6), E(14, 6), E(25, 16));
    Entry(8, 8, E(25, 16), E(25, 16), E(3, 21));
    Entry(16, 16, E(3, 21), E(3, 21), E(9, 1));
    Entry(32, 32, E(9, 1), E(9, 1), E(4, 9));
    Entry(64, 64, E(4, 9), E(4, 9), E(17, 6));
    Entry(128, 128, E(17, 6), E(17, 6), E(4, 16));
    Entry(256, 256, E(4, 16), E(4, 16), E(26, 21));
    Entry(32, 1, E(9, 1), E(0, 1), E(23, 0));
    Entry(64, 16, E(4, 9), E(3, 21), E(22, 19));
    Entry(80, 8, E(22, 19), E(25, 16), E(19, 31));
    Entry(88, 4, E(19, 31), E(14, 6), E(21, 18));
    Entry(92, 1, E(21, 18), E(0, 1), E(22, 26));
    Entry(256, 64, E(4, 16), E(4, 9), E(4, 28));
    Entry(320, 16, E(4, 28), E(3, 21), E(26, 4));
    Entry(336, 4, E(26, 4), E(14, 6), E(12, 24));
    Entry(340, 1, E(12, 24), E(0, 1), E(13, 11));
    Entry(341, 341, E(13, 11), E(13, 11), E(12, 11));
    Entry(682, 341, E(12, 11), E(13, 11), E(1, 0));
  }

  lemma NotDivided(n: nat, p: nat, q: nat)
    requires n > 0 && IsPrime(p) && p * q == 1023 && n % p != 0 && Pow(ALPHA, q) != ONE && Pow(ALPHA, 1023) == ONE
    ensures Pow(ALPHA, n) != ONE
  {
    hide Mul, Pow;
    if Pow(ALPHA, n) == ONE {
      var x := Pow(ALPHA, q);
      PowPow(ALPHA, q, p);
      assert q * p == p * q;
      PowPow(ALPHA, n, q);
      PowUnit(q);
      PowPow(ALPHA, q, n);
      assert n * q == q * n;
      PowRest(x, n, p);
      PrimeOrder(x, p, n % p);
    }
  }

  lemma Divided(n: int, a: int, b: int, c: int)
    requires n == 3 * a && n == 11 * b && n == 31 * c
    ensures n == 1023 * (4 * (6 * (3 * c - b) - c) - (a - 10 * c))
  {
  }

  lemma MultipleOf1023(w: int)
    ensures (1023 * w) % 1023 == 0
  {
  }

  lemma DivisibleBy1023(n: nat)
    requires n % 3 == 0 && n % 11 == 0 && n % 31 == 0
    ensures n % 1023 == 0
  {
    var a, b, c := n / 3, n / 11, n / 31;
    Divided(n, a, b, c);
    MultipleOf1023(4 * (6 * (3 * c - b) - c) - (a - 10 * c));
  }

  // z has order 1023.
  lemma AlphaOrder(n: nat)
    ensures Pow(ALPHA, n) == ONE <==> n % 1023 == 0
  {
    hide Mul, Pow;
    Table();
    if n % 1023 == 0 {
      PowRest(ALPHA, n, 1023);
      PowOf(ALPHA, 0);
    } else if n % 3 != 0 {
      NotDivided(n, 3, 341);
    } else if n % 11 != 0 {
      NotDivided(n, 11, 93);
    } else if n % 31 != 0 {
      NotDivided(n, 31, 33);
    } else {
      DivisibleBy1023(n);
    }
  }
}
