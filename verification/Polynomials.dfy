/**
 * Polynomials over the field with 32 elements, highest coefficient first, and their values in
 * the field with 1024.
 */
module Polynomials {
  import Gf32
  import Gf1024

  type F = Gf32.F
  type E = Gf1024.E

  function Zeros(n: nat): (p: seq<F>)
    ensures |p| == n && forall i :: 0 <= i < n ==> p[i] == 0
  {
    seq(n, _ => 0)
  }

  function Plus(u: seq<F>, w: seq<F>): (p: seq<F>)
    requires |u| == |w|
    ensures |p| == |u| && forall i :: 0 <= i < |u| ==> p[i] == Gf32.Add(u[i], w[i])
  {
    seq(|u|, i requires 0 <= i < |u| => Gf32.Add(u[i], w[i]))
  }

  function Scale(a: F, u: seq<F>): (p: seq<F>)
    ensures |p| == |u| && forall i :: 0 <= i < |u| ==> p[i] == Gf32.Mul(a, u[i])
  {
    seq(|u|, i requires 0 <= i < |u| => Gf32.Mul(a, u[i]))
  }

  // q(x) * g(x)
  function Times(q: seq<F>, g: seq<F>): (p: seq<F>)
    requires |g| > 0
    ensures |p| == |q| + |g| - 1
  {
    if q == [] then Zeros(|g| - 1)
    else var n := |q| - 1; Plus(Times(q[..n], g) + [0], Zeros(n) + Scale(q[n], g))
  }

  lemma TimesAppend(q: seq<F>, a: F, g: seq<F>)
    requires |g| > 0
    ensures Times(q + [a], g) == Plus(Times(q, g) + [0], Zeros(|q|) + Scale(a, g))
  {
    hide Plus, Scale, Zeros;
    assert (q + [a])[..|q|] == q;
  }

  // ---------- division ----------

  // d(x) == q(x) * g(x) + r(x), with r of lower degree than g.
  predicate Division(d: seq<F>, g: seq<F>, q: seq<F>, r: seq<F>) {
    |g| > 0 && |r| == |g| - 1 && |d| == |q| + |r| && d == Plus(Times(q, g), Zeros(|q|) + r)
  }

  // The top |g| - 1 coefficients of a * g + r, that is the remainder one step earlier.
  function Earlier(a: F, g: seq<F>, r: seq<F>): (e: seq<F>)
    requires |g| > 0 && |r| == |g| - 1
    ensures |e| == |r| && forall i :: 0 <= i < |r| ==> e[i] == if i == 0 then Gf32.Mul(a, g[0]) else Gf32.Add(Gf32.Mul(a, g[i]), r[i - 1])
  {
    seq(|r|, i requires 0 <= i < |r| => if i == 0 then Gf32.Mul(a, g[0]) else Gf32.Add(Gf32.Mul(a, g[i]), r[i - 1]))
  }

  // A division with one more coefficient, and the division it extends.
  lemma Extended(d: seq<F>, x: F, g: seq<F>, q: seq<F>, a: F, r: seq<F>)
    requires |g| > 1 && |r| == |g| - 1 && |d| == |q| + |r|
    ensures Division(d + [x], g, q + [a], r)
            <==> Division(d, g, q, Earlier(a, g, r)) && x == Gf32.Add(Gf32.Mul(a, g[|g| - 1]), r[|r| - 1])
  {
    hide Gf32.Add, Gf32.Mul, Times;
    TimesAppend(q, a, g);
    var t, k, m := Times(q, g), |q|, |r|;
    var e := Earlier(a, g, r);
    var lhs := Plus(t + [0], Zeros(k) + Scale(a, g));
    var whole := Plus(lhs, Zeros(k + 1) + r);
    var part := Plus(t, Zeros(k) + e);
    forall i | 0 <= i < k + m
      ensures whole[i] == part[i]
    {
      if i < k {
        Gf32.AddLaws(t[i], 0, 0);
      } else if i == k {
        Gf32.AddLaws(Gf32.Add(t[i], Gf32.Mul(a, g[0])), 0, 0);
      } else {
        Gf32.AddLaws(t[i], Gf32.Mul(a, g[i - k]), r[i - k - 1]);
      }
    }
    Gf32.AddLaws(Gf32.Mul(a, g[m]), 0, 0);
    assert whole[k + m] == Gf32.Add(Gf32.Mul(a, g[m]), r[m - 1]);
    assert (d + [x])[..k + m] == d && whole[..k + m] == part;
    assert Division(d + [x], g, q + [a], r) <==> d + [x] == whole;
    assert d + [x] == whole <==> d == part && x == whole[k + m] by {
      if d + [x] == whole { assert (d + [x])[k + m] == x; }
      if d == part && x == whole[k + m] { assert whole == part + [x]; }
    }
  }

  lemma NoQuotient(d: seq<F>, g: seq<F>, r: seq<F>)
    requires |g| > 0 && |d| == |r| == |g| - 1
    ensures Division(d, g, [], r) <==> d == r
  {
    hide Gf32.Add;
    var p := Plus(Times([], g), Zeros(0) + r);
    forall i | 0 <= i < |r| ensures p[i] == r[i] { Gf32.AddLaws(r[i], 0, 0); }
    assert p == r;
  }

  // Quotient and remainder by a monic polynomial are unique.
  lemma {:induction false} DivisionUnique(d: seq<F>, g: seq<F>, q: seq<F>, r: seq<F>, q': seq<F>, r': seq<F>)
    requires |g| > 1 && g[0] == 1 && Division(d, g, q, r) && Division(d, g, q', r')
    ensures q == q' && r == r'
    decreases |q|
  {
    hide Gf32.Add, Gf32.Mul, Division;
    DivisionSizes(d, g, q, r);
    DivisionSizes(d, g, q', r');
    if q == [] {
      assert q' == [];
      NoQuotient(d, g, r);
      NoQuotient(d, g, r');
    } else {
      var n, m := |q| - 1, |d| - 1;
      assert d == d[..m] + [d[m]] && q == q[..n] + [q[n]] && q' == q'[..n] + [q'[n]];
      Extended(d[..m], d[m], g, q[..n], q[n], r);
      Extended(d[..m], d[m], g, q'[..n], q'[n], r');
      DivisionUnique(d[..m], g, q[..n], Earlier(q[n], g, r), q'[..n], Earlier(q'[n], g, r'));
      Gf32.MulUnits(q[n]);
      Gf32.MulUnits(q'[n]);
      assert Earlier(q[n], g, r)[0] == Earlier(q'[n], g, r')[0];
      SameRest(q[n], g, r, r', d[m]);
    }
  }

  lemma DivisionSizes(d: seq<F>, g: seq<F>, q: seq<F>, r: seq<F>)
    requires Division(d, g, q, r)
    ensures |r| == |g| - 1 && |d| == |q| + |r|
  {
  }

  lemma SameRest(a: F, g: seq<F>, r: seq<F>, r': seq<F>, x: F)
    requires |g| > 1 && |r| == |r'| == |g| - 1 && Earlier(a, g, r) == Earlier(a, g, r')
    requires x == Gf32.Add(Gf32.Mul(a, g[|g| - 1]), r[|r| - 1]) == Gf32.Add(Gf32.Mul(a, g[|g| - 1]), r'[|r| - 1])
    ensures r == r'
  {
    hide Gf32.Add, Gf32.Mul;
    forall i | 0 <= i < |r|
      ensures r[i] == r'[i]
    {
      if i + 1 < |r| { assert Earlier(a, g, r)[i + 1] == Earlier(a, g, r')[i + 1]; }
      Cancel(Gf32.Mul(a, g[i + 1]), r[i], r'[i]);
    }
  }

  lemma Cancel(c: F, x: F, y: F)
    requires Gf32.Add(c, x) == Gf32.Add(c, y)
    ensures x == y
  {
  }

  // ---------- values ----------

  function Val(p: seq<F>, x: E): E {
    if p == [] then Gf1024.ZERO else Gf1024.Add(Gf1024.Mul(Val(p[..|p| - 1], x), x), Gf1024.Of(p[|p| - 1]))
  }

  lemma ValAppend(p: seq<F>, a: F, x: E)
    ensures Val([], x) == Gf1024.ZERO
    ensures Val(p + [a], x) == Gf1024.Add(Gf1024.Mul(Val(p, x), x), Gf1024.Of(a))
  {
    hide Gf1024.Add, Gf1024.Mul, Gf1024.Of;
    assert (p + [a])[..|p|] == p;
  }

  lemma {:induction false} ValPlus(u: seq<F>, w: seq<F>, x: E)
    requires |u| == |w|
    ensures Val(Plus(u, w), x) == Gf1024.Add(Val(u, x), Val(w, x))
  {
    hide Gf1024.Add, Gf1024.Mul, Gf1024.Of, Gf32.Add, Val;
    ValAppend([], 0, x);
    if u == [] {
      assert Plus(u, w) == [];
      Gf1024.AddLaws(Gf1024.ZERO, Gf1024.ZERO, Gf1024.ZERO);
    } else {
      var n := |u| - 1;
      var u', w' := u[..n], w[..n];
      assert u == u' + [u[n]] && w == w' + [w[n]] && Plus(u, w) == Plus(u', w') + [Gf32.Add(u[n], w[n])];
      ValPlus(u', w', x);
      ValAppend(u', u[n], x);
      ValAppend(w', w[n], x);
      ValAppend(Plus(u', w'), Gf32.Add(u[n], w[n]), x);
      Gf1024.MulDistrib(Val(u', x), Val(w', x), x);
      OfAdd(u[n], w[n]);
      Gf1024.AddSwap(Gf1024.Mul(Val(u', x), x), Gf1024.Mul(Val(w', x), x), Gf1024.Of(u[n]), Gf1024.Of(w[n]));
    }
  }

  lemma OfAdd(a: F, b: F)
    ensures Gf1024.Of(Gf32.Add(a, b)) == Gf1024.Add(Gf1024.Of(a), Gf1024.Of(b))
  {
  }

  lemma OfMul(a: F, b: F)
    ensures Gf1024.Of(Gf32.Mul(a, b)) == Gf1024.Mul(Gf1024.Of(a), Gf1024.Of(b))
  {
    hide Gf32.Mul, Gf1024.Mul;
    Gf1024.MulOf(Gf1024.Of(a), b);
    Gf32.MulUnits(b);
  }

  lemma {:induction false} ValScale(a: F, u: seq<F>, x: E)
    ensures Val(Scale(a, u), x) == Gf1024.Mul(Gf1024.Of(a), Val(u, x))
  {
    hide Gf1024.Add, Gf1024.Mul, Gf1024.Of, Gf32.Mul, Val;
    ValAppend([], 0, x);
    if u == [] {
      assert Scale(a, u) == [];
      Gf1024.MulUnits(Gf1024.Of(a));
    } else {
      var n := |u| - 1;
      var u' := u[..n];
      assert u == u' + [u[n]] && Scale(a, u) == Scale(a, u') + [Gf32.Mul(a, u[n])];
      ValScale(a, u', x);
      ValAppend(u', u[n], x);
      ValAppend(Scale(a, u'), Gf32.Mul(a, u[n]), x);
      OfMul(a, u[n]);
      Gf1024.MulAssoc(Gf1024.Of(a), Val(u', x), x);
      Gf1024.LeftE(Gf1024.Of(a), Gf1024.Mul(Val(u', x), x), Gf1024.Of(u[n]));
    }
  }

  lemma {:induction false} ValConcat(u: seq<F>, w: seq<F>, x: E)
    ensures Val(u + w, x) == Gf1024.Add(Gf1024.Mul(Val(u, x), Gf1024.Pow(x, |w|)), Val(w, x))
  {
    hide Gf1024.Add, Gf1024.Mul, Gf1024.Of, Gf1024.Pow, Val;
    if w == [] {
      assert u + w == u;
      ValAppend([], 0, x);
      Gf1024.PowOf(x, 0);
      Gf1024.MulUnits(Val(u, x));
      Gf1024.AddLaws(Val(u, x), Gf1024.ZERO, Gf1024.ZERO);
    } else {
      var n := |w| - 1;
      var w', o := w[..n], Gf1024.Of(w[n]);
      assert w == w' + [w[n]] && u + w == (u + w') + [w[n]];
      ValConcat(u, w', x);
      ValAppend(w', w[n], x);
      ValAppend(u + w', w[n], x);
      var p := Gf1024.Mul(Val(u, x), Gf1024.Pow(x, n));
      Gf1024.MulDistrib(p, Val(w', x), x);
      Gf1024.PowOf(x, n);
      Gf1024.MulAssoc(Val(u, x), Gf1024.Pow(x, n), x);
      Gf1024.AddLaws(Gf1024.Mul(p, x), Gf1024.Mul(Val(w', x), x), o);
    }
  }

  lemma {:induction false} ValZeros(n: nat, x: E)
    ensures Val(Zeros(n), x) == Gf1024.ZERO
  {
    hide Gf1024.Add, Gf1024.Mul, Val;
    ValAppend([], 0, x);
    if n == 0 {
      assert Zeros(0) == [];
    } else {
      ValZeros(n - 1, x);
      assert Zeros(n) == Zeros(n - 1) + [0];
      ValAppend(Zeros(n - 1), 0, x);
      Gf1024.MulUnits(x);
      Gf1024.AddLaws(Gf1024.ZERO, Gf1024.ZERO, Gf1024.ZERO);
    }
  }

  lemma ValLeading(n: nat, w: seq<F>, x: E)
    ensures Val(Zeros(n) + w, x) == Val(w, x)
  {
    hide Gf1024.Add, Gf1024.Mul, Val, Zeros;
    ValConcat(Zeros(n), w, x);
    ValZeros(n, x);
    Gf1024.MulUnits(Gf1024.Pow(x, |w|));
    Gf1024.AddLaws(Val(w, x), Gf1024.ZERO, Gf1024.ZERO);
  }

  // The value of a product is the product of the values.
  lemma {:induction false} ValTimes(q: seq<F>, g: seq<F>, x: E)
    requires |g| > 0
    ensures Val(Times(q, g), x) == Gf1024.Mul(Val(q, x), Val(g, x))
  {
    hide Gf1024.Add, Gf1024.Mul, Gf1024.Of, Val, Zeros, Plus, Scale;
    ValAppend([], 0, x);
    if q == [] {
      ValZeros(|g| - 1, x);
      Gf1024.MulUnits(Val(g, x));
    } else {
      var n := |q| - 1;
      var q', a := q[..n], q[n];
      assert q == q' + [a];
      TimesAppend(q', a, g);
      ValTimes(q', g, x);
      ValPlus(Times(q', g) + [0], Zeros(n) + Scale(a, g), x);
      ValLeading(n, Scale(a, g), x);
      ValScale(a, g, x);
      ValAppend(q', a, x);
      ValShift(Times(q', g), x);
      ProductStep(Val(q', x), Gf1024.Of(a), Val(g, x), x);
    }
  }

  lemma ValShift(p: seq<F>, x: E)
    ensures Val(p + [0], x) == Gf1024.Mul(Val(p, x), x)
  {
    hide Gf1024.Add, Gf1024.Mul, Val;
    ValAppend(p, 0, x);
    Gf1024.AddLaws(Gf1024.Mul(Val(p, x), x), Gf1024.ZERO, Gf1024.ZERO);
  }

  lemma ProductStep(q: E, a: E, g: E, x: E)
    ensures Gf1024.Add(Gf1024.Mul(Gf1024.Mul(q, g), x), Gf1024.Mul(a, g)) == Gf1024.Mul(Gf1024.Add(Gf1024.Mul(q, x), a), g)
  {
    hide Gf1024.Add, Gf1024.Mul;
    Gf1024.MulDistrib(Gf1024.Mul(q, x), a, g);
    Gf1024.MulAssoc(q, g, x);
    Gf1024.MulComm(g, x);
    Gf1024.MulAssoc(q, x, g);
  }

  // At a root of g, a polynomial and its remainder have the same value.
  lemma ValRemainder(d: seq<F>, g: seq<F>, q: seq<F>, r: seq<F>, x: E)
    requires Division(d, g, q, r) && Val(g, x) == Gf1024.ZERO
    ensures Val(d, x) == Val(r, x)
  {
    hide Gf1024.Add, Gf1024.Mul, Val, Times, Zeros, Plus;
    ValPlus(Times(q, g), Zeros(|q|) + r, x);
    ValTimes(q, g, x);
    Gf1024.MulUnits(Val(q, x));
    ValLeading(|q|, r, x);
    Gf1024.AddLaws(Val(r, x), Gf1024.ZERO, Gf1024.ZERO);
  }
}
