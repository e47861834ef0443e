/**
 * The field with 32 elements as src/bech32.cpp uses it: the bits of a number are the
 * coefficients of a polynomial over the field with two elements, modulo a^5 + a^3 + 1.
 */
module Gf32 {

  type F = bv5

  function Add(x: F, y: F): F { x ^ y }

  // a * x: the bit that leaves at the top comes back as a^3 + 1.
  function TimesA(x: F): F { if x & 16 != 0 then (x << 1) ^ 9 else x << 1 }

  function If(x: F, bit: F, y: F): F { if x & bit != 0 then y else 0 }

  // The sum of a^n * x over the set bits n of y.
  function Mul(x: F, y: F): F {
    var x1 := TimesA(x);
    var x2 := TimesA(x1);
    var x3 := TimesA(x2);
    If(y, 1, x) ^ If(y, 2, x1) ^ If(y, 4, x2) ^ If(y, 8, x3) ^ If(y, 16, TimesA(x3))
  }

  // The example in the source: {5} * {26} = {9}.
  lemma Example()
    ensures Mul(5, 26) == 9 && Add(27, 13) == 22
  {
  }

  lemma AddLaws(x: F, y: F, z: F)
    ensures Add(x, y) == Add(y, x) && Add(Add(x, y), z) == Add(x, Add(y, z))
    ensures Add(x, 0) == x && Add(0, x) == x && Add(x, x) == 0
    ensures Add(x, y) == 0 ==> x == y
  {
  }

  lemma MulUnits(x: F)
    ensures Mul(x, 1) == x && Mul(1, x) == x && Mul(x, 0) == 0 && Mul(0, x) == 0
  {
  }

  lemma MulComm(x: F, y: F)
    ensures Mul(x, y) == Mul(y, x)
  {
  }

  lemma TimesAAdd(x: F, y: F)
    ensures TimesA(Add(x, y)) == Add(TimesA(x), TimesA(y))
  {
  }

  lemma IfAdd(z: F, bit: F, x: F, y: F)
    ensures If(z, bit, Add(x, y)) == Add(If(z, bit, x), If(z, bit, y))
  {
  }

  // The five summands of a product.
  lemma MulIs(x: F, y: F)
    ensures var x1 := TimesA(x);
            var x2 := TimesA(x1);
            var x3 := TimesA(x2);
            Mul(x, y) == Sum(If(y, 1, x), If(y, 2, x1), If(y, 4, x2), If(y, 8, x3), If(y, 16, TimesA(x3)))
  {
    hide TimesA, If;
  }

  function Sum(a: F, b: F, c: F, d: F, e: F): F { a ^ b ^ c ^ d ^ e }

  // Sums of sums, term by term.
  lemma AddSwap(a: F, b: F, c: F, d: F)
    ensures Add(Add(a, b), Add(c, d)) == Add(Add(a, c), Add(b, d))
  {
  }

  lemma SumAdd(a: F, b: F, c: F, d: F, e: F, a': F, b': F, c': F, d': F, e': F)
    ensures Sum(Add(a, a'), Add(b, b'), Add(c, c'), Add(d, d'), Add(e, e')) == Add(Sum(a, b, c, d, e), Sum(a', b', c', d', e'))
  {
    hide Add, Sum;
    SumIs(a, b, c, d, e);
    SumIs(a', b', c', d', e');
    SumIs(Add(a, a'), Add(b, b'), Add(c, c'), Add(d, d'), Add(e, e'));
    AddSwap(a, a', b, b');
    AddSwap(Add(a, b), Add(a', b'), c, c');
    AddSwap(Add(Add(a, b), c), Add(Add(a', b'), c'), d, d');
    AddSwap(Add(Add(Add(a, b), c), d), Add(Add(Add(a', b'), c'), d'), e, e');
  }

  lemma MulDistrib(x: F, y: F, z: F)
    ensures Mul(Add(x, y), z) == Add(Mul(x, z), Mul(y, z))
  {
    hide TimesA, If, Mul, Add, Sum;
    var x1, y1 := TimesA(x), TimesA(y);
    var x2, y2 := TimesA(x1), TimesA(y1);
    var x3, y3 := TimesA(x2), TimesA(y2);
    TimesAAdd(x, y);
    TimesAAdd(x1, y1);
    TimesAAdd(x2, y2);
    TimesAAdd(x3, y3);
    IfAdd(z, 1, x, y);
    IfAdd(z, 2, x1, y1);
    IfAdd(z, 4, x2, y2);
    IfAdd(z, 8, x3, y3);
    IfAdd(z, 16, TimesA(x3), TimesA(y3));
    MulIs(x, z);
    MulIs(y, z);
    MulIs(Add(x, y), z);
    SumAdd(If(z, 1, x), If(z, 2, x1), If(z, 4, x2), If(z, 8, x3), If(z, 16, TimesA(x3)),
           If(z, 1, y), If(z, 2, y1), If(z, 4, y2), If(z, 8, y3), If(z, 16, TimesA(y3)));
  }

  lemma MulSum(a: F, b: F, c: F, d: F, e: F, x: F)
    ensures Mul(Sum(a, b, c, d, e), x) == Sum(Mul(a, x), Mul(b, x), Mul(c, x), Mul(d, x), Mul(e, x))
  {
    hide Mul;
    SumIs(a, b, c, d, e);
    SumIs(Mul(a, x), Mul(b, x), Mul(c, x), Mul(d, x), Mul(e, x));
    hide Add, Sum;
    MulDistrib(a, b, x);
    MulDistrib(Add(a, b), c, x);
    MulDistrib(Add(Add(a, b), c), d, x);
    MulDistrib(Add(Add(Add(a, b), c), d), e, x);
  }

  lemma SumIs(a: F, b: F, c: F, d: F, e: F)
    ensures Sum(a, b, c, d, e) == Add(Add(Add(Add(a, b), c), d), e)
  {
  }

  lemma MulIf(z: F, bit: F, y: F, x: F)
    ensures Mul(If(z, bit, y), x) == If(z, bit, Mul(y, x))
  {
    hide Mul;
    MulUnits(x);
  }

  // Multiplying by a on either side.
  lemma MulA(y: F, x: F)
    ensures Mul(TimesA(y), x) == TimesA(Mul(y, x))
  {
  }

  lemma MulAssoc(x: F, y: F, z: F)
    ensures Mul(Mul(x, y), z) == Mul(x, Mul(y, z))
  {
    hide TimesA, If, Mul, Sum;
    var y1 := TimesA(y);
    var y2 := TimesA(y1);
    var y3 := TimesA(y2);
    var y4 := TimesA(y3);
    MulIs(y, z);
    MulSum(If(z, 1, y), If(z, 2, y1), If(z, 4, y2), If(z, 8, y3), If(z, 16, y4), x);
    MulIf(z, 1, y, x);
    MulIf(z, 2, y1, x);
    MulIf(z, 4, y2, x);
    MulIf(z, 8, y3, x);
    MulIf(z, 16, y4, x);
    MulA(y, x);
    MulA(y1, x);
    MulA(y2, x);
    MulA(y3, x);
    MulIs(Mul(y, x), z);
    MulComm(x, y);
    MulComm(x, Mul(y, z));
  }

  // No zero divisors.
  lemma MulZero(x: F, y: F)
    requires Mul(x, y) == 0
    ensures x == 0 || y == 0
  {
  }
}
