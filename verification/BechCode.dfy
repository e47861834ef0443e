/**
 * What the checksum of src/bech32.cpp is for: the state of PolyMod is the remainder of the
 * input polynomial modulo the generator, and a change of up to three symbols within a window of
 * 1023 is always noticed.
 */
module BechCode {
  import opened Bech32
  import Gf32
  import Gf1024
  import opened Polynomials

  function Coef(x: Symbol): F { x as bv5 }

  function Coefs(v: seq<Symbol>): (p: seq<F>)
    ensures |p| == |v| && forall i :: 0 <= i < |v| ==> p[i] == Coef(v[i])
  {
    seq(|v|, i requires 0 <= i < |v| => Coef(v[i]))
  }

  // g(x) = x^6 + {29}x^5 + {22}x^4 + {20}x^3 + {21}x^2 + {29}x + {18}
  const GENERATOR: seq<F> := [1, 29, 22, 20, 21, 29, 18]

  // v(x), with the implicit 1 in front.
  function Input(v: seq<Symbol>): seq<F> { [1] + Coefs(v) }

  // ---------- the remainder ----------

  // A coefficient of a packed polynomial.
  function Digit(m: bv32, i: nat): F { Coef(Group(m, i)) }

  function Digits(m: bv32): (p: seq<F>)
    ensures |p| == 6 && forall i :: 0 <= i < 6 ==> p[i] == Digit(m, i)
  {
    [Digit(m, 0), Digit(m, 1), Digit(m, 2), Digit(m, 3), Digit(m, 4), Digit(m, 5)]
  }

  function Down(m: bv32): bv32 { m >> 5 }
  function Low(m: bv32): F { Coef(m & 31) }

  lemma DigitIs(m: bv32)
    ensures var m1 := Down(m);
            var m2 := Down(m1);
            var m3 := Down(m2);
            var m4 := Down(m3);
            && Digit(m, 5) == Low(m) && Digit(m, 4) == Low(m1) && Digit(m, 3) == Low(m2)
            && Digit(m, 2) == Low(m3) && Digit(m, 1) == Low(m4) && Digit(m, 0) == Low(Down(m4))
  {
  }

  lemma DownXor(m: bv32, n: bv32)
    ensures Down(Xor(m, n)) == Xor(Down(m), Down(n))
  {
  }

  lemma LowXor(m: bv32, n: bv32)
    ensures Low(Xor(m, n)) == Gf32.Add(Low(m), Low(n))
  {
  }

  lemma DigitXor(m: bv32, n: bv32, i: nat)
    requires i < 6
    ensures Digit(Xor(m, n), i) == Gf32.Add(Digit(m, i), Digit(n, i))
  {
    hide Xor, Digit, Down, Low, Gf32.Add;
    DigitIs(m);
    DigitIs(n);
    DigitIs(Xor(m, n));
    var m1, n1 := Down(m), Down(n);
    var m2, n2 := Down(m1), Down(n1);
    var m3, n3 := Down(m2), Down(n2);
    var m4, n4 := Down(m3), Down(n3);
    DownXor(m, n);
    DownXor(m1, n1);
    DownXor(m2, n2);
    DownXor(m3, n3);
    DownXor(m4, n4);
    LowXor(m, n);
    LowXor(m1, n1);
    LowXor(m2, n2);
    LowXor(m3, n3);
    LowXor(m4, n4);
    LowXor(Down(m4), Down(n4));
  }

  lemma DigitShifted(c: bv32, i: nat)
    requires i < 6
    ensures Digit(Shifted(c), i) == if i < 5 then Digit(c, i + 1) else 0
  {
  }

  lemma DigitSymbol(v: Symbol, i: nat)
    requires i < 6
    ensures Digit(v, i) == if i < 5 then 0 else Coef(v)
  {
  }

  lemma TopDigit(c: bv32)
    requires c < LIMIT
    ensures Top(c) < 32 && Coef(Top(c)) == Digit(c, 0)
  {
  }

  // The constants of a round are {2^n}k(x), so the round adds c0*k(x).
  lemma MultipleDigit(a: Symbol, i: nat)
    requires i < 6
    ensures Digit(Multiple(a), i) == Gf32.Mul(Coef(a), GENERATOR[i + 1])
  {
  }

  lemma StepDigit(c: bv32, v: Symbol, i: nat)
    requires c < LIMIT && i < 6
    ensures Digit(Step(c, v), i) == Gf32.Add(if i < 5 then Digit(c, i + 1) else Coef(v), Gf32.Mul(Digit(c, 0), GENERATOR[i + 1]))
  {
    hide Digit, Coef, Multiple, Shifted, Top, Xor, Gf32.Add, Gf32.Mul;
    DigitXor(Shifted(c), v, i);
    DigitXor(Xor(Shifted(c), v), Multiple(Top(c)), i);
    DigitShifted(c, i);
    DigitSymbol(v, i);
    TopDigit(c);
    MultipleDigit(Top(c), i);
    Gf32.AddLaws(if i < 5 then Digit(c, i + 1) else Coef(v), 0, 0);
  }

  // The state before a round, from the state after it.
  lemma StepEarlier(c: bv32, v: Symbol)
    requires c < LIMIT
    ensures Earlier(Digit(c, 0), GENERATOR, Digits(Step(c, v))) == Digits(c)
    ensures Coef(v) == Gf32.Add(Gf32.Mul(Digit(c, 0), GENERATOR[6]), Digits(Step(c, v))[5])
  {
    hide Digit, Coef, Step, Gf32.Add, Gf32.Mul;
    var a, r := Digit(c, 0), Digits(Step(c, v));
    Gf32.MulUnits(a);
    forall i | 0 < i < 6
      ensures Earlier(a, GENERATOR, r)[i] == Digit(c, i)
    {
      StepDigit(c, v, i - 1);
      Twice(Gf32.Mul(a, GENERATOR[i]), Digit(c, i));
    }
    StepDigit(c, v, 5);
    Twice(Gf32.Mul(a, GENERATOR[6]), Coef(v));
  }

  lemma Twice(k: F, d: F)
    ensures Gf32.Add(k, Gf32.Add(d, k)) == d
  {
  }

  // The coefficients that leave the state.
  function Quotient(v: seq<Symbol>): (q: seq<F>)
    ensures |q| == |v|
  {
    if v == [] then [] else Quotient(v[..|v| - 1]) + [Digit(PolyFrom(1, v[..|v| - 1]), 0)]
  }

  lemma DigitsOfOne()
    ensures Digits(1) == Zeros(5) + [1]
  {
  }

  lemma {:induction false} PolyDivides(v: seq<Symbol>)
    ensures Division(Zeros(5) + Input(v), GENERATOR, Quotient(v), Digits(PolyFrom(1, v)))
  {
    hide Digit, Coef, Step, Division, Digits, PolyFrom;
    if v == [] {
      DigitsOfOne();
      assert Zeros(5) + Input(v) == Zeros(5) + [1];
      PolyNone(1);
      NoQuotient(Zeros(5) + [1], GENERATOR, Digits(1));
    } else {
      var n := |v| - 1;
      var w, x := v[..n], v[n];
      var c := PolyFrom(1, w);
      PolyDivides(w);
      PolyBound(1, w);
      PolyAppend(1, w, x);
      assert v == w + [x];
      assert Zeros(5) + Input(v) == (Zeros(5) + Input(w)) + [Coef(x)];
      StepEarlier(c, x);
      Extended(Zeros(5) + Input(w), Coef(x), GENERATOR, Quotient(w), Digit(c, 0), Digits(Step(c, x)));
    }
  }

  // The checksum of v packs the remainder of v(x) modulo g(x), and nothing else is a remainder.
  lemma ChecksumIsRemainder(v: seq<Symbol>, q: seq<F>, r: seq<F>)
    requires |q| == |v| && |r| == 6
    ensures Division(Zeros(5) + Input(v), GENERATOR, q, r) <==> q == Quotient(v) && r == Digits(PolyFrom(1, v))
  {
    hide Division, Digits, PolyFrom;
    PolyDivides(v);
    if Division(Zeros(5) + Input(v), GENERATOR, q, r) {
      DivisionUnique(Zeros(5) + Input(v), GENERATOR, q, r, Quotient(v), Digits(PolyFrom(1, v)));
    }
  }

  // ---------- three roots ----------

  // Roots of g(x), each z times the one before.
  const ROOT_0 := Gf1024.E(29, 13)
  const ROOT_1 := Gf1024.E(5, 3)
  const ROOT_2 := Gf1024.E(16, 30)

  lemma RootsFollow()
    ensures Gf1024.Mul(ROOT_0, Gf1024.ALPHA) == ROOT_1 && Gf1024.Mul(ROOT_1, Gf1024.ALPHA) == ROOT_2
  {
  }

  // One step of evaluating at x.
  function Next(y: E, x: E, k: F): E { Gf1024.Add(Gf1024.Mul(y, x), Gf1024.Of(k)) }

  lemma Horner(i: nat, x: E, y: E, k: F)
    requires i < 6 && Val(GENERATOR[..i + 1], x) == y && GENERATOR[i + 1] == k
    ensures Val(GENERATOR[..i + 2], x) == Next(y, x, k)
  {
    hide Gf1024.Add, Gf1024.Mul, Gf1024.Of, Val;
    assert GENERATOR[..i + 2] == GENERATOR[..i + 1] + [k];
    ValAppend(GENERATOR[..i + 1], k, x);
  }

  lemma HornerAll(x: E)
    ensures Val(GENERATOR, x) == Next(Next(Next(Next(Next(Next(Gf1024.ONE, x, 29), x, 22), x, 20), x, 21), x, 29), x, 18)
  {
    hide Val, Next;
    HornerStart(x);
    var h1 := Next(Gf1024.ONE, x, 29);
    var h2 := Next(h1, x, 22);
    var h3 := Next(h2, x, 20);
    var h4 := Next(h3, x, 21);
    var h5 := Next(h4, x, 29);
    Horner(0, x, Gf1024.ONE, 29);
    Horner(1, x, h1, 22);
    Horner(2, x, h2, 20);
    Horner(3, x, h3, 21);
    Horner(4, x, h4, 29);
    Horner(5, x, h5, 18);
    assert GENERATOR[..7] == GENERATOR;
  }

  lemma HornerStart(x: E)
    ensures Val(GENERATOR[..1], x) == Gf1024.ONE
  {
    hide Gf1024.Add, Gf1024.Mul, Val;
    assert GENERATOR[..1] == [] + [1];
    ValAppend([], 1, x);
    Gf1024.MulUnits(x);
    Gf1024.AddLaws(Gf1024.ONE, Gf1024.ZERO, Gf1024.ZERO);
  }

  lemma Chain0()
    ensures Next(Gf1024.E(1, 0), ROOT_0, 29) == Gf1024.E(0, 13) && Next(Gf1024.E(0, 13), ROOT_0, 22) == Gf1024.E(6, 23)
    ensures Next(Gf1024.E(6, 23), ROOT_0, 20) == Gf1024.E(17, 23) && Next(Gf1024.E(17, 23), ROOT_0, 21) == Gf1024.E(4, 18)
    ensures Next(Gf1024.E(4, 18), ROOT_0, 29) == Gf1024.E(26, 2) && Next(Gf1024.E(26, 2), ROOT_0, 18) == Gf1024.E(0, 0)
  {
  }

  lemma IsRoot0()
    ensures Val(GENERATOR, ROOT_0) == Gf1024.ZERO
  {
    hide Val, Next;
    HornerAll(ROOT_0);
    Chain0();
  }

  lemma Chain1()
    ensures Next(Gf1024.E(1, 0), ROOT_1, 29) == Gf1024.E(24, 3) && Next(Gf1024.E(24, 3), ROOT_1, 22) == Gf1024.E(12, 10)
    ensures Next(Gf1024.E(12, 10), ROOT_1, 20) == Gf1024.E(5, 7) && Next(Gf1024.E(5, 7), ROOT_1, 21) == Gf1024.E(15, 7)
    ensures Next(Gf1024.E(15, 7), ROOT_1, 29) == Gf1024.E(12, 25) && Next(Gf1024.E(12, 25), ROOT_1, 18) == Gf1024.E(0, 0)
  {
  }

  lemma IsRoot1()
    ensures Val(GENERATOR, ROOT_1) == Gf1024.ZERO
  {
    hide Val, Next;
    HornerAll(ROOT_1);
    Chain1();
  }

  lemma Chain2()
    ensures Next(Gf1024.E(1, 0), ROOT_2, 29) == Gf1024.E(13, 30) && Next(Gf1024.E(13, 30), ROOT_2, 22) == Gf1024.E(26, 29)
    ensures Next(Gf1024.E(26, 29), ROOT_2, 20) == Gf1024.E(5, 1) && Next(Gf1024.E(5, 1), ROOT_2, 21) == Gf1024.E(19, 21)
    ensures Next(Gf1024.E(19, 21), ROOT_2, 29) == Gf1024.E(24, 11) && Next(Gf1024.E(24, 11), ROOT_2, 18) == Gf1024.E(0, 0)
  {
  }

  lemma IsRoot2()
    ensures Val(GENERATOR, ROOT_2) == Gf1024.ZERO
  {
    hide Val, Next;
    HornerAll(ROOT_2);
    Chain2();
  }

  // ---------- detection ----------

  // Inputs with the same checksum differ by a polynomial with the three roots.
  function Difference(v: seq<Symbol>, w: seq<Symbol>): seq<F>
    requires |v| == |w|
  {
    Plus(Coefs(v), Coefs(w))
  }

  lemma SameValue(v: seq<Symbol>, w: seq<Symbol>, x: E)
    requires |v| == |w| && PolyFrom(1, v) == PolyFrom(1, w) && Val(GENERATOR, x) == Gf1024.ZERO
    ensures Val(Difference(v, w), x) == Gf1024.ZERO
  {
    hide Val, PolyFrom, Digits, Coef, Gf32.Add, Gf1024.Add, Gf1024.Mul, Division, Quotient;
    ValInput(v, x);
    ValInput(w, x);
    ValPlus(Input(v), Input(w), x);
    Gf1024.AddLaws(Val(Input(v), x), Gf1024.ZERO, Gf1024.ZERO);
    Gf32.AddLaws(1, 1, 1);
    assert Plus(Input(v), Input(w)) == Zeros(1) + Difference(v, w);
    ValLeading(1, Difference(v, w), x);
  }

  lemma ValInput(v: seq<Symbol>, x: E)
    requires Val(GENERATOR, x) == Gf1024.ZERO
    ensures Val(Input(v), x) == Val(Digits(PolyFrom(1, v)), x)
  {
    hide Val, PolyFrom, Digits, Division, Quotient, Zeros, Input;
    PolyDivides(v);
    ValRemainder(Zeros(5) + Input(v), GENERATOR, Quotient(v), Digits(PolyFrom(1, v)), x);
    ValLeading(5, Input(v), x);
  }

  // Zero outside i < j < k.
  predicate Sparse(d: seq<F>, i: nat, j: nat, k: nat) {
    i < j < k < |d| && forall p :: 0 <= p < |d| && p != i && p != j && p != k ==> d[p] == 0
  }

  function Three(a: E, b: E, c: E): E { Gf1024.Add(Gf1024.Add(a, b), c) }

  // The value of a stretch that ends in its only nonzero coefficient.
  lemma One(d: seq<F>, i: nat, from: nat, x: E)
    requires from <= i < |d| && forall p :: from <= p < i ==> d[p] == 0
    ensures Val(d[from..i + 1], x) == Gf1024.Of(d[i])
  {
    hide Val, Gf1024.Add, Gf1024.Mul, Gf1024.Of;
    assert d[from..i + 1] == Zeros(i - from) + ([] + [d[i]]);
    ValLeading(i - from, [] + [d[i]], x);
    ValAppend([], d[i], x);
    Gf1024.MulUnits(x);
    Gf1024.AddLaws(Gf1024.Of(d[i]), Gf1024.ZERO, Gf1024.ZERO);
  }

  lemma Grow(d: seq<F>, i: nat, j: nat, x: E)
    requires i < j < |d| && forall p :: i < p < j ==> d[p] == 0
    ensures Val(d[..j + 1], x) == Gf1024.Add(Gf1024.Mul(Val(d[..i + 1], x), Gf1024.Pow(x, j - i)), Gf1024.Of(d[j]))
  {
    hide Val, Gf1024.Add, Gf1024.Mul, Gf1024.Pow, Gf1024.Of;
    One(d, j, i + 1, x);
    assert d[..j + 1] == d[..i + 1] + d[i + 1..j + 1];
    ValConcat(d[..i + 1], d[i + 1..j + 1], x);
  }

  lemma Finish(d: seq<F>, k: nat, x: E)
    requires k < |d| && x != Gf1024.ZERO && Val(d, x) == Gf1024.ZERO && forall p :: k < p < |d| ==> d[p] == 0
    ensures Val(d[..k + 1], x) == Gf1024.ZERO
  {
    hide Val, Gf1024.Add, Gf1024.Mul, Gf1024.Pow;
    var n, v := |d| - k - 1, Val(d[..k + 1], x);
    assert d == d[..k + 1] + Zeros(n);
    ValConcat(d[..k + 1], Zeros(n), x);
    ValZeros(n, x);
    Gf1024.AddLaws(Gf1024.Mul(v, Gf1024.Pow(x, n)), Gf1024.ZERO, Gf1024.ZERO);
    Gf1024.PowNonzero(x, n);
    Gf1024.MulComm(v, Gf1024.Pow(x, n));
    Gf1024.MulZero(Gf1024.Pow(x, n), v);
  }

  lemma Spread(a: E, b: E, c: E, x: E, s: nat, t: nat)
    ensures Gf1024.Add(Gf1024.Mul(Gf1024.Add(Gf1024.Mul(a, Gf1024.Pow(x, s)), b), Gf1024.Pow(x, t)), c)
            == Three(Gf1024.Mul(a, Gf1024.Pow(x, s + t)), Gf1024.Mul(b, Gf1024.Pow(x, t)), c)
  {
    hide Gf1024.Add, Gf1024.Mul, Gf1024.Pow;
    var p, q := Gf1024.Pow(x, s), Gf1024.Pow(x, t);
    Gf1024.MulDistrib(Gf1024.Mul(a, p), b, q);
    Gf1024.MulAssoc(a, p, q);
    Gf1024.PowAdd(x, s, t);
  }

  function Terms(a: F, b: F, c: F, x: E, m: nat, n: nat): E {
    Three(Gf1024.Mul(Gf1024.Of(a), Gf1024.Pow(x, m)), Gf1024.Mul(Gf1024.Of(b), Gf1024.Pow(x, n)), Gf1024.Of(c))
  }

  lemma Ladder(d: seq<F>, i: nat, j: nat, k: nat, x: E)
    requires Sparse(d, i, j, k)
    ensures Val(d[..k + 1], x) == Terms(d[i], d[j], d[k], x, k - i, k - j)
  {
    hide Val, Gf1024.Add, Gf1024.Mul, Gf1024.Pow, Gf1024.Of, Three;
    One(d, i, 0, x);
    assert d[0..i + 1] == d[..i + 1];
    Grow(d, i, j, x);
    Grow(d, j, k, x);
    Spread(Gf1024.Of(d[i]), Gf1024.Of(d[j]), Gf1024.Of(d[k]), x, j - i, k - j);
  }

  // So its value is a sum of three terms, times a power of x.
  lemma SparseValue(d: seq<F>, i: nat, j: nat, k: nat, x: E)
    requires Sparse(d, i, j, k) && Val(d, x) == Gf1024.ZERO && x != Gf1024.ZERO
    ensures Terms(d[i], d[j], d[k], x, k - i, k - j) == Gf1024.ZERO
  {
    hide Val, Terms;
    Finish(d, k, x);
    Ladder(d, i, j, k, x);
  }

  // Three such sums at the powers 0, 1 and 2 of distinct X, Y and 1 leave no first term.
  lemma Vandermonde(a: E, b: E, c: E, x: E, y: E)
    requires Three(a, b, c) == Gf1024.ZERO
    requires Three(Gf1024.Mul(a, x), Gf1024.Mul(b, y), c) == Gf1024.ZERO
    requires Three(Gf1024.Mul(Gf1024.Mul(a, x), x), Gf1024.Mul(Gf1024.Mul(b, y), y), c) == Gf1024.ZERO
    requires x != Gf1024.ONE && x != y
    ensures a == Gf1024.ZERO
  {
    hide Gf1024.Add, Gf1024.Mul, Three;
    var ax, bz := Gf1024.Mul(a, x), Gf1024.Mul(b, y);
    Eliminate(a, b, c, ax, bz);
    Eliminate(ax, bz, c, Gf1024.Mul(ax, x), Gf1024.Mul(bz, y));
    // u = a (1 + x) = b (1 + y), and u x == u y
    var u := Gf1024.Add(a, ax);
    Gf1024.MulDistrib(a, ax, x);
    Gf1024.MulDistrib(b, bz, y);
    assert Gf1024.Mul(u, x) == Gf1024.Mul(u, y);
    Gf1024.LeftE(u, x, y);
    Gf1024.AddLaws(Gf1024.Mul(u, x), Gf1024.ZERO, Gf1024.ZERO);
    Gf1024.AddLaws(x, y, y);
    Gf1024.MulComm(u, Gf1024.Add(x, y));
    Gf1024.MulZero(Gf1024.Add(x, y), u);
    Gf1024.LeftE(a, Gf1024.ONE, x);
    Gf1024.MulUnits(a);
    Gf1024.AddLaws(Gf1024.ONE, x, x);
    Gf1024.MulComm(a, Gf1024.Add(Gf1024.ONE, x));
    Gf1024.MulZero(Gf1024.Add(Gf1024.ONE, x), a);
  }

  lemma Eliminate(a: E, b: E, c: E, a': E, b': E)
    requires Three(a, b, c) == Gf1024.ZERO && Three(a', b', c) == Gf1024.ZERO
    ensures Gf1024.Add(a, a') == Gf1024.Add(b, b')
  {
    hide Gf1024.Add;
    Gf1024.AddLaws(Gf1024.Add(a, b), c, c);
    Gf1024.AddLaws(Gf1024.Add(a', b'), c, c);
    assert Gf1024.Add(a, b) == Gf1024.Add(a', b');
    Gf1024.AddSwap(a, b, a', b');
    Gf1024.AddLaws(Gf1024.Add(a, b), Gf1024.ZERO, Gf1024.ZERO);
    Gf1024.AddLaws(Gf1024.Add(a, a'), Gf1024.Add(b, b'), Gf1024.ZERO);
  }

  // The term of one position at a root, from the one at the root before.
  lemma NextTerm(a: F, n: nat, r: E, r': E)
    requires r' == Gf1024.Mul(r, Gf1024.ALPHA)
    ensures Gf1024.Mul(Gf1024.Of(a), Gf1024.Pow(r', n)) == Gf1024.Mul(Gf1024.Mul(Gf1024.Of(a), Gf1024.Pow(r, n)), Gf1024.Pow(Gf1024.ALPHA, n))
  {
    hide Gf1024.Mul, Gf1024.Pow, Gf1024.Of;
    Gf1024.PowMul(r, Gf1024.ALPHA, n);
    Gf1024.MulAssoc(Gf1024.Of(a), Gf1024.Pow(r, n), Gf1024.Pow(Gf1024.ALPHA, n));
  }

  // Different powers of z differ.
  lemma AlphaDistinct(s: nat, t: nat)
    requires 0 < s && s + t < 1023
    ensures Gf1024.Pow(Gf1024.ALPHA, s + t) != Gf1024.Pow(Gf1024.ALPHA, t) && Gf1024.Pow(Gf1024.ALPHA, s + t) != Gf1024.ONE
  {
    hide Gf1024.Add, Gf1024.Mul, Gf1024.Pow;
    Gf1024.AlphaOrder(s + t);
    Gf1024.AlphaOrder(s);
    var x, y := Gf1024.Pow(Gf1024.ALPHA, s), Gf1024.Pow(Gf1024.ALPHA, t);
    Gf1024.PowAdd(Gf1024.ALPHA, s, t);
    Gf1024.PowNonzero(Gf1024.ALPHA, t);
    if Gf1024.Mul(x, y) == y {
      Gf1024.MulUnits(y);
      Gf1024.MulDistrib(x, Gf1024.ONE, y);
      Gf1024.AddLaws(y, y, y);
      Gf1024.AddLaws(x, Gf1024.ONE, y);
      Gf1024.MulComm(Gf1024.Add(x, Gf1024.ONE), y);
      Gf1024.MulZero(y, Gf1024.Add(x, Gf1024.ONE));
    }
  }

  lemma NoSparseCodeword(d: seq<F>, i: nat, j: nat, k: nat)
    requires Sparse(d, i, j, k) && k - i < 1023
    requires Val(d, ROOT_0) == Gf1024.ZERO && Val(d, ROOT_1) == Gf1024.ZERO && Val(d, ROOT_2) == Gf1024.ZERO
    ensures d[i] == 0
  {
    hide Val, Gf1024.Mul, Gf1024.Pow, Gf1024.Add, Three;
    SparseValue(d, i, j, k, ROOT_0);
    SparseValue(d, i, j, k, ROOT_1);
    SparseValue(d, i, j, k, ROOT_2);
    RootsFollow();
    NextTerm(d[i], k - i, ROOT_0, ROOT_1);
    NextTerm(d[i], k - i, ROOT_1, ROOT_2);
    NextTerm(d[j], k - j, ROOT_0, ROOT_1);
    NextTerm(d[j], k - j, ROOT_1, ROOT_2);
    AlphaDistinct(j - i, k - j);
    var a := Gf1024.Mul(Gf1024.Of(d[i]), Gf1024.Pow(ROOT_0, k - i));
    Vandermonde(a, Gf1024.Mul(Gf1024.Of(d[j]), Gf1024.Pow(ROOT_0, k - j)), Gf1024.Of(d[k]),
                Gf1024.Pow(Gf1024.ALPHA, k - i), Gf1024.Pow(Gf1024.ALPHA, k - j));
    Gf1024.PowNonzero(ROOT_0, k - i);
    Gf1024.MulComm(Gf1024.Of(d[i]), Gf1024.Pow(ROOT_0, k - i));
    Gf1024.MulZero(Gf1024.Pow(ROOT_0, k - i), Gf1024.Of(d[i]));
  }

  // The positions at which two inputs differ.
  function Errors(v: seq<Symbol>, w: seq<Symbol>): set<nat>
    requires |v| == |w|
  {
    set p: nat | p < |v| && v[p] != w[p]
  }

  lemma CoefInjective(x: Symbol, y: Symbol)
    ensures Gf32.Add(Coef(x), Coef(y)) == 0 <==> x == y
  {
  }

  lemma ThreeDetected(v: seq<Symbol>, w: seq<Symbol>, i: nat, j: nat, k: nat)
    requires |v| == |w| && i < j < k < |v| && k - i < 1023 && v[i] != w[i]
    requires forall p :: 0 <= p < |v| && p != i && p != j && p != k ==> v[p] == w[p]
    ensures PolyFrom(1, v) != PolyFrom(1, w)
  {
    hide Val, PolyFrom, Coef, Gf32.Add;
    if PolyFrom(1, v) == PolyFrom(1, w) {
      var d := Difference(v, w);
      IsRoot0();
      IsRoot1();
      IsRoot2();
      SameValue(v, w, ROOT_0);
      SameValue(v, w, ROOT_1);
      SameValue(v, w, ROOT_2);
      forall p | 0 <= p < |v|
        ensures d[p] == 0 <==> v[p] == w[p]
      {
        CoefInjective(v[p], w[p]);
      }
      NoSparseCodeword(d, i, j, k);
    }
  }

  // A window that starts with an error and has at most two more.
  lemma WindowDetected(v: seq<Symbol>, w: seq<Symbol>, i: nat, j: nat, k: nat)
    requires |v| == |w| && i <= j <= k < |v| && k - i < 1023 && v[i] != w[i]
    requires forall p :: 0 <= p < |v| && p != i && p != j && p != k ==> v[p] == w[p]
    ensures PolyFrom(1, v) != PolyFrom(1, w)
  {
    hide PolyFrom;
    var v', w' := v + [0, 0], w + [0, 0];
    PolyConcat(1, v, [0, 0]);
    PolyConcat(1, w, [0, 0]);
    if i < j < k {
      ThreeDetected(v, w, i, j, k);
    } else if i == k || k == i + 1 {
      ThreeDetected(v', w', i, i + 1, i + 2);
    } else {
      ThreeDetected(v', w', i, i + 1, k);
    }
  }

  lemma FirstError(v: seq<Symbol>, w: seq<Symbol>) returns (i: nat)
    requires |v| == |w| && v != w
    ensures i < |v| && v[i] != w[i] && forall p :: 0 <= p < i ==> v[p] == w[p]
  {
    i := 0;
    while v[i] == w[i]
      invariant i < |v| && forall p :: 0 <= p < i ==> v[p] == w[p]
      decreases |v| - i
    {
      assert i + 1 < |v| || v == w;
      i := i + 1;
    }
  }

  // Up to three errors within a window of 1023 change the checksum.
  lemma ErrorsDetected(v: seq<Symbol>, w: seq<Symbol>)
    requires |v| == |w| && v != w && |Errors(v, w)| <= 3
    requires forall p, q :: p in Errors(v, w) && q in Errors(v, w) ==> q - p < 1023
    ensures PolyFrom(1, v) != PolyFrom(1, w)
  {
    hide PolyFrom;
    var i := FirstError(v, w);
    var s := Errors(v, w);
    assert i in s;
    var j, k := TwoMore(s, i);
    assert forall p :: 0 <= p < |v| && p != i && p != j && p != k ==> v[p] == w[p] by {
      assert forall p: nat :: p < |v| && v[p] != w[p] ==> p in s;
    }
    WindowDetected(v, w, i, if j < k then j else k, if j < k then k else j);
  }

  lemma TwoMore(s: set<nat>, i: nat) returns (j: nat, k: nat)
    requires i in s && |s| <= 3
    ensures j in s && k in s && s == {i, j, k}
  {
    var t := s - {i};
    if t == {} {
      return i, i;
    }
    j :| j in t;
    var u := t - {j};
    if u == {} {
      return j, j;
    }
    k :| k in u;
    assert |u - {k}| == 0;
  }

  // So a string that verifies stops verifying after up to three such changes of its data.
  lemma ErrorsFail(enc: seq<Symbol>, v: seq<Symbol>, w: seq<Symbol>)
    requires |v| == |w| <= 1023 && v != w && |Errors(v, w)| <= 3 && PolyFrom(1, enc + v) == 1
    ensures PolyFrom(1, enc + w) != 1
  {
    hide PolyFrom;
    var n := |enc|;
    var s := Errors(enc + v, enc + w);
    Shift(Errors(v, w), s, -n);
    assert (enc + v)[n..] == v && (enc + w)[n..] == w;
    ErrorsDetected(enc + v, enc + w);
  }

  lemma {:induction false} Shift(s: set<nat>, t: set<nat>, n: int)
    requires forall p :: p in t ==> p + n in s
    ensures |t| <= |s|
    decreases |t|
  {
    if t != {} {
      var p :| p in t;
      Shift(s - {p + n}, t - {p}, n);
    }
  }

  // The positions at which two strings differ by more than case.
  function Changes(s: seq<bv8>, t: seq<bv8>): set<nat>
    requires |s| == |t|
  {
    set p: nat | p < |s| && LowerCase(s[p]) != LowerCase(t[p])
  }

  lemma DecodedParts(s: seq<bv8>)
    requires Decoded(s).0 != []
    ensures Shape(s) && PolyFrom(1, Expanded(Lowered(s[..LastOne(s)])) + Reversed(s[LastOne(s) + 1..])) == 1
  {
    hide PolyFrom, Expanded, Shape;
  }

  lemma ValueAt(s: seq<bv8>, t: seq<bv8>, k: nat, p: nat)
    requires |t| == |s| && k <= p < |s| && AllInCharset(s[k..]) && AllInCharset(t[k..])
    ensures Reversed(s[k..])[p - k] == Reversed(t[k..])[p - k] <==> LowerCase(s[p]) == LowerCase(t[p])
  {
    hide LowerCase, Rev;
    assert s[k..][p - k] == s[p] && t[k..][p - k] == t[p];
    SameLetter(s[p], t[p]);
  }

  lemma ValueErrors(s: seq<bv8>, t: seq<bv8>, k: nat)
    requires |t| == |s| && k <= |s| && AllInCharset(s[k..]) && AllInCharset(t[k..])
    ensures |Errors(Reversed(s[k..]), Reversed(t[k..]))| <= |Changes(s, t)|
  {
    hide LowerCase, AllInCharset, Reversed;
    var v, w := Reversed(s[k..]), Reversed(t[k..]);
    forall p | p in Errors(v, w)
      ensures p + k in Changes(s, t)
    {
      ValueAt(s, t, k, p + k);
    }
    Shift(Changes(s, t), Errors(v, w), k);
  }

  lemma ValuesDiffer(s: seq<bv8>, t: seq<bv8>, k: nat)
    requires |t| == |s| && k <= |s| && t[..k] == s[..k] && AllInCharset(s[k..]) && AllInCharset(t[k..])
    requires Changes(s, t) != {}
    ensures Reversed(s[k..]) != Reversed(t[k..])
  {
    hide LowerCase, AllInCharset, Reversed;
    assert forall i :: 0 <= i < k ==> s[i] == s[..k][i] == t[..k][i] == t[i];
    var p :| p in Changes(s, t);
    ValueAt(s, t, k, p);
  }

  // A string that decodes, with up to three characters after the separator replaced, does not
  // decode: not by characters outside the set, and not by others of the set.
  lemma ChangedFails(s: seq<bv8>, t: seq<bv8>)
    requires Decoded(s).0 != [] && |t| == |s| && t[..LastOne(s) + 1] == s[..LastOne(s) + 1]
    requires forall i :: LastOne(s) < i < |t| ==> t[i] != ONE
    requires 0 < |Changes(s, t)| <= 3
    ensures Decoded(t) == ([], [])
  {
    hide PolyFrom, Expanded, LowerCase, Rev, HasLower, HasUpper, Printable, Lowered, Changes, Errors, Reversed, AllInCharset;
    var pos := LastOne(s);
    DecodedParts(s);
    assert t[pos] == t[..pos + 1][pos] == s[pos];
    LastIs(t, pos);
    if Shape(t) {
      assert t[..pos] == t[..pos + 1][..pos] == s[..pos];
      ValueErrors(s, t, pos + 1);
      ValuesDiffer(s, t, pos + 1);
      ErrorsFail(Expanded(Lowered(s[..pos])), Reversed(s[pos + 1..]), Reversed(t[pos + 1..]));
    }
  }

  lemma LastIs(t: seq<bv8>, pos: nat)
    requires pos < |t| && t[pos] == ONE && forall i :: pos < i < |t| ==> t[i] != ONE
    ensures LastOne(t) == pos
  {
  }

  lemma SameLetter(a: bv8, b: bv8)
    requires Rev(a).Some? && Rev(b).Some?
    ensures Rev(a) == Rev(b) <==> LowerCase(a) == LowerCase(b)
  {
    hide LowerCase, Char, RevLower;
    CharOfRev(a);
    CharOfRev(b);
  }
}
