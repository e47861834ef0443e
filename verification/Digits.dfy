/**
 * Big-endian digit sequences in any base: values, canonical digits, and the growth of powers
 * that sizes the buffers of src/base58.cpp.
 */
module Digits {
  import opened Powers
  import opened Limbs

  predicate AreDigits(s: seq<nat>, b: nat) {
    forall i :: 0 <= i < |s| ==> s[i] < b
  }

  function Big(s: seq<nat>, b: nat): nat {
    if s == [] then 0 else Big(s[..|s| - 1], b) * b + s[|s| - 1]
  }

  // The digits of a number, without leading zeros.
  function ToDigits(v: nat, b: nat): (s: seq<nat>)
    requires b > 1
    ensures AreDigits(s, b)
  {
    if v == 0 then [] else Smaller(v, b); ToDigits(v / b, b) + [v % b]
  }

  // What is left after skipping leading zeros.
  function Strip(s: seq<nat>): seq<nat> {
    if s != [] && s[0] == 0 then Strip(s[1..]) else s
  }

  function Leading(s: seq<nat>): (n: nat)
    ensures n <= |s|
  {
    if s != [] && s[0] == 0 then 1 + Leading(s[1..]) else 0
  }

  function Zeros(n: nat): (s: seq<nat>)
    ensures |s| == n && forall i :: 0 <= i < n ==> s[i] == 0
  {
    seq(n, _ => 0)
  }

  lemma {:induction false} StripSplit(s: seq<nat>)
    ensures s == Zeros(Leading(s)) + Strip(s)
    ensures Strip(s) == [] || Strip(s)[0] != 0
  {
    if s != [] && s[0] == 0 {
      StripSplit(s[1..]);
      assert Zeros(Leading(s)) == [0] + Zeros(Leading(s[1..]));
      assert s == [0] + s[1..];
    } else {
      assert Zeros(0) == [];
    }
  }

  lemma {:induction false} LeadingOf(n: nat, t: seq<nat>)
    requires t == [] || t[0] != 0
    ensures Leading(Zeros(n) + t) == n && Strip(Zeros(n) + t) == t
    decreases n
  {
    if n > 0 {
      assert (Zeros(n) + t)[1..] == Zeros(n - 1) + t;
      LeadingOf(n - 1, t);
    } else {
      assert Zeros(n) + t == t;
    }
  }

  // ---------- values ----------

  lemma BigAppend(s: seq<nat>, x: nat, b: nat)
    ensures Big(s + [x], b) == Big(s, b) * b + x
  {
    assert (s + [x])[..|s|] == s;
  }

  lemma {:induction false} BigConcat(s: seq<nat>, t: seq<nat>, b: nat)
    ensures Big(s + t, b) == Big(s, b) * Pow(b, |t|) + Big(t, b)
  {
    hide Big, Pow;
    if t == [] {
      assert s + t == s;
      BigNone(b);
    } else {
      var n := |t| - 1;
      var u, x := t[..n], t[n];
      assert t == u + [x] && s + t == (s + u) + [x];
      BigAppend(s + u, x, b);
      BigAppend(u, x, b);
      BigConcat(s, u, b);
      PowStep(b, n);
      ConcatStep(Big(s, b), Pow(b, n), Big(u, b), b);
    }
  }

  lemma BigNone(b: nat)
    ensures Big([], b) == 0 && Pow(b, 0) == 1
  {
  }

  lemma PowStep(b: nat, n: nat)
    ensures Pow(b, n + 1) == b * Pow(b, n)
  {
  }

  lemma ConcatStep(s: nat, p: nat, u: nat, b: nat)
    ensures (s * p + u) * b == s * (b * p) + u * b
  {
    MulDistrib(b, s * p, u);
    MulAssoc(s, p, b);
    MulComm(p, b);
  }

  lemma {:induction false} BigBound(s: seq<nat>, b: nat)
    requires b > 0 && AreDigits(s, b)
    ensures Big(s, b) < Pow(b, |s|)
  {
    if s != [] {
      var n := |s| - 1;
      BigBound(s[..n], b);
      MulMonotone(Big(s[..n], b) + 1, Pow(b, n), b);
      MulDistrib(b, Big(s[..n], b), 1);
      MulComm(Pow(b, n), b);
    }
  }

  lemma {:induction false} BigZeros(n: nat, b: nat)
    ensures Big(Zeros(n), b) == 0
  {
    if n > 0 {
      assert Zeros(n) == Zeros(n - 1) + [0];
      BigAppend(Zeros(n - 1), 0, b);
      BigZeros(n - 1, b);
    }
  }

  lemma BigPad(n: nat, s: seq<nat>, b: nat)
    ensures Big(Zeros(n) + s, b) == Big(s, b)
  {
    BigConcat(Zeros(n), s, b);
    BigZeros(n, b);
  }

  lemma BigStrip(s: seq<nat>, b: nat)
    ensures Big(Strip(s), b) == Big(s, b)
  {
    StripSplit(s);
    BigPad(Leading(s), Strip(s), b);
  }

  lemma {:induction false} BigOfDigits(v: nat, b: nat)
    requires b > 1
    ensures Big(ToDigits(v, b), b) == v
    ensures ToDigits(v, b) == [] || ToDigits(v, b)[0] != 0
  {
    if v > 0 {
      Smaller(v, b);
      BigOfDigits(v / b, b);
      BigAppend(ToDigits(v / b, b), v % b, b);
      if v / b == 0 {
        assert ToDigits(v, b) == [v % b];
      }
    }
  }

  lemma Smaller(v: nat, b: nat)
    requires b > 1 && v > 0
    ensures v / b < v && v == (v / b) * b + v % b
  {
    assert v == (v / b) * b + v % b;
    MulMonotone(2, b, v / b);
    MulComm(b, v / b);
  }

  // Digits without a leading zero are the digits of their value.
  lemma {:induction false} DigitsOfBig(s: seq<nat>, b: nat)
    requires b > 1 && AreDigits(s, b) && (s == [] || s[0] != 0)
    ensures ToDigits(Big(s, b), b) == s
  {
    if s != [] {
      var n := |s| - 1;
      var t, x := s[..n], s[n];
      DigitsOfBig(t, b);
      ModUnique(Big(s, b), Big(t, b), x, b);
      if t != [] {
        assert Big(t, b) > 0;
        MulMonotone(1, Big(t, b), b);
      }
      assert s == t + [x];
    }
  }

  // ---------- buffer sizes ----------

  lemma {:induction false} PowMono(a: nat, b: nat, n: nat)
    requires a <= b
    ensures Pow(a, n) <= Pow(b, n)
  {
    if n > 0 {
      PowMono(a, b, n - 1);
      MulMonotone(a, b, Pow(a, n - 1));
      MulMonotone(Pow(a, n - 1), Pow(b, n - 1), b);
    }
  }

  lemma {:induction false} PowExpMono(b: nat, m: nat, n: nat)
    requires b > 0 && m <= n
    ensures Pow(b, m) <= Pow(b, n)
  {
    PowAdd(b, m, n - m);
    PowPositive(b, n - m);
    MulMonotone(1, Pow(b, n - m), Pow(b, m));
    MulComm(Pow(b, m), Pow(b, n - m));
  }

  lemma {:induction false} PowPow(b: nat, m: nat, n: nat)
    ensures Pow(b, m * n) == Pow(Pow(b, m), n)
  {
    if n > 0 {
      PowPow(b, m, n - 1);
      MulDistrib(m, n - 1, 1);
      PowAdd(b, m, m * (n - 1));
    } else {
      assert m * 0 == 0;
    }
  }

  lemma {:induction false} PowStrict(a: nat, b: nat, n: nat)
    requires a < b && n > 0
    ensures Pow(a, n) < Pow(b, n)
  {
    PowMono(a, b, n - 1);
    PowPositive(b, n - 1);
    StrictProduct(a, b, Pow(a, n - 1), Pow(b, n - 1));
  }

  lemma StrictProduct(a: nat, b: nat, x: nat, y: nat)
    requires a < b && x <= y && y > 0
    ensures a * x < b * y
  {
    MulMonotone(x, y, a);
    MulComm(x, a);
    MulComm(y, a);
    MulMonotone(a + 1, b, y);
    MulDistrib(y, a, 1);
  }

  lemma RootMono(x: nat, y: nat, q: nat)
    requires q > 0 && Pow(x, q) <= Pow(y, q)
    ensures x <= y
  {
    if y < x { PowStrict(y, x, q); }
  }

  lemma PowSwap(b: nat, m: nat, n: nat)
    ensures Pow(Pow(b, m), n) == Pow(Pow(b, n), m)
  {
    hide Pow;
    PowPow(b, m, n);
    PowPow(b, n, m);
    MulComm(m, n);
  }

  // From a^q <= b^p: n digits in base a need at most m in base b when p * n <= q * m.
  lemma DigitsSuffice(a: nat, b: nat, p: nat, q: nat, n: nat, m: nat)
    requires a > 0 && b > 0 && q > 0 && Pow(a, q) <= Pow(b, p) && p * n <= m * q
    ensures Pow(a, n) <= Pow(b, m)
  {
    hide Pow;
    PowSwap(a, n, q);
    PowMono(Pow(a, q), Pow(b, p), n);
    Exponents(b, p, n, m, q);
    RootMono(Pow(a, n), Pow(b, m), q);
  }

  lemma Exponents(b: nat, p: nat, n: nat, m: nat, q: nat)
    requires b > 0 && p * n <= m * q
    ensures Pow(Pow(b, p), n) <= Pow(Pow(b, m), q)
  {
    hide Pow;
    PowPow(b, p, n);
    PowPow(b, m, q);
    PowExpMono(b, p * n, m * q);
  }
}
