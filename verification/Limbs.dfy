/**
 * Little-endian sequences of 32-bit limbs (src/arith_uint256.h) and the integers they
 * stand for.
 */
module Limbs {
  import opened Powers

  const B: nat := 0x1_0000_0000

  function PowB(n: nat): nat { Pow(B, n) }

  // ---------- values ----------

  predicate AreLimbs(s: seq<nat>) {
    forall i :: 0 <= i < |s| ==> s[i] < B
  }

  // What a number is worth at a limb position.
  function Place(x: nat, i: nat): nat { x * PowB(i) }

  // Built from the top so that loops going up extend it at the end.
  function Value(s: seq<nat>): nat {
    if s == [] then 0 else Value(s[..|s| - 1]) + Place(s[|s| - 1], |s| - 1)
  }

  lemma PlaceAdd(x: nat, y: nat, i: nat)
    ensures Place(x, i) + Place(y, i) == Place(x + y, i)
  {
    MulDistrib(PowB(i), x, y);
  }

  lemma PlaceZero(i: nat)
    ensures Place(0, i) == 0 && Place(1, i) == PowB(i) && Place(B, i) == PowB(i + 1)
  {
  }

  // A column sum splits into what stays and what is carried.
  lemma PlaceCarry(n: nat, i: nat)
    ensures Place(n % B, i) + Place(n / B, i + 1) == Place(n, i)
  {
    assert n == (n / B) * B + n % B;
    MulAssoc(n / B, B, PowB(i));
    MulDistrib(PowB(i), (n / B) * B, n % B);
  }

  lemma PlaceShift(x: nat, i: nat, j: nat)
    ensures PowB(j) * Place(x, i) == Place(x, i + j)
  {
    PowAdd(B, i, j);
    MulAssoc(x, PowB(i), PowB(j));
  }

  lemma ValueNone()
    ensures Value([]) == 0 && PowB(0) == 1
  {
  }

  lemma ValueAppend(s: seq<nat>, x: nat)
    ensures Value(s + [x]) == Value(s) + Place(x, |s|)
  {
    assert (s + [x])[..|s|] == s;
  }

  lemma ValueStep(s: seq<nat>, i: nat)
    requires i < |s|
    ensures Value(s[..i + 1]) == Value(s[..i]) + Place(s[i], i)
  {
    assert s[..i + 1] == s[..i] + [s[i]];
    ValueAppend(s[..i], s[i]);
  }

  lemma {:induction false} ValueBound(s: seq<nat>)
    requires AreLimbs(s)
    ensures Value(s) < PowB(|s|)
  {
    if s != [] {
      hide Value;
      var n := |s| - 1;
      ValueStep(s, n);
      assert s[..n + 1] == s;
      ValueBound(s[..n]);
      PlaceBound(s[n], n);
    } else {
      ValueNone();
    }
  }

  lemma PlaceBound(x: nat, i: nat)
    requires x < B
    ensures Place(x, i) + PowB(i) <= PowB(i + 1)
  {
    MulMonotone(x + 1, B, PowB(i));
    MulDistrib(PowB(i), x, 1);
  }

  lemma {:induction false} ValueUpdate(s: seq<nat>, k: nat, x: nat)
    requires k < |s|
    ensures Value(s[k := x]) + Place(s[k], k) == Value(s) + Place(x, k)
  {
    hide Place;
    var n := |s| - 1;
    if k == n {
      assert s[k := x][..n] == s[..n];
    } else {
      assert s[k := x][..n] == s[..n][k := x];
      ValueUpdate(s[..n], k, x);
    }
  }

  lemma {:induction false} ValueZero(s: seq<nat>)
    requires forall i :: 0 <= i < |s| ==> s[i] == 0
    ensures Value(s) == 0
  {
    if s != [] {
      ValueZero(s[..|s| - 1]);
      PlaceZero(|s| - 1);
    }
  }

  // The low limbs and the high limbs.
  lemma {:induction false} ValueSplit(s: seq<nat>, k: nat)
    requires k <= |s|
    ensures Value(s) == Value(s[..k]) + PowB(k) * Value(s[k..])
  {
    if k == |s| {
      assert s[..k] == s && s[k..] == [];
    } else {
      var n := |s| - 1;
      ValueSplit(s[..n], k);
      assert s[..n][..k] == s[..k] && s[..n][k..] == s[k..][..n - k];
      PlaceShift(s[n], n - k, k);
      MulDistrib(PowB(k), Value(s[k..][..n - k]), Place(s[n], n - k));
    }
  }

  // ---------- remainders ----------

  lemma ModUnique(v: int, q: int, r: int, m: nat)
    requires m > 0 && v == q * m + r && 0 <= r < m
    ensures v % m == r && v / m == q
  {
    var q', r' := v / m, v % m;
    assert v == q' * m + r';
    assert (q - q') * m == r' - r by { MulDistrib(m, q, q'); }
    if q > q' {
      MulMonotone(1, q - q', m);
    } else if q < q' {
      MulMonotone(1, q' - q, m);
      MulDistrib(m, q', q);
    }
  }

  // ---------- products ----------

  // Multiplication under a name, so that proofs use the laws below and nothing else.
  function Times(a: nat, b: nat): nat { a * b }

  lemma TimesAdd(a: nat, b: nat, c: nat)
    ensures Times(a, b + c) == Times(a, b) + Times(a, c) && Times(b + c, a) == Times(b, a) + Times(c, a)
  {
    MulDistrib(a, b, c);
  }

  lemma TimesZero(a: nat)
    ensures Times(a, 0) == 0 && Times(0, a) == 0
  {
  }

  lemma TimesPlace(a: nat, j: nat, b: nat, i: nat)
    ensures Times(Place(a, j), Place(b, i)) == Place(a * b, i + j)
  {
    hide Pow;
    var p, q := PowB(i), PowB(j);
    PowAdd(B, j, i);
    MulAssoc(a, q, b * p);
    MulAssoc(q, b, p);
    MulComm(q, b);
    MulAssoc(b, q, p);
    MulAssoc(a, b, q * p);
  }

  // Limbs that would land at or above the top.
  lemma TimesAbove(a: nat, j: nat, w: nat, x: nat)
    requires j <= w
    ensures Times(Place(a, j), PowB(w - j) * x) == Place(a * x, w)
  {
    hide Pow;
    PowAdd(B, j, w - j);
    MulAssoc(a * PowB(j), PowB(w - j), x);
    MulAssoc(a, PowB(j), PowB(w - j));
    MulAssoc(a, PowB(w), x);
    MulComm(PowB(w), x);
    MulAssoc(a, x, PowB(w));
  }

  lemma ProductFits(x: nat, y: nat, c: nat, d: nat)
    requires x < B && y < B && c < B && d < B
    ensures c + d + x * y < B * B && (c + d + x * y) / B < B
  {
    MulMonotone(x, B - 1, y);
    MulComm(x, y);
  }
}
