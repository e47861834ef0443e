/**
 * CompareTxMemPoolEntryByAncestorFee (src/txmempool.h): candidates by fee rate, over integers.
 * The source multiplies in floating point; rounding is not modelled.
 */
module AncestorScore {
  import opened Powers

  // A fee and the size it pays for, and the transaction's hash.
  datatype Score = Score(fee: int, size: int, hash: nat)

  predicate Valid(a: Score) { a.size > 0 }

  // The worse of the rates of a transaction alone and of its package.
  function ScoreOf(fee: int, size: int, packageFee: int, packageSize: int, hash: nat): (r: Score)
    ensures r.hash == hash
    ensures Rate(r, Score(fee, size, hash)) <= 0 && Rate(r, Score(packageFee, packageSize, hash)) <= 0
    ensures r == Score(fee, size, hash) || r == Score(packageFee, packageSize, hash)
  {
    if fee * packageSize > packageFee * size then Score(packageFee, packageSize, hash) else Score(fee, size, hash)
  }

  // Positive when a pays the higher rate, negative when b does.
  function Rate(a: Score, b: Score): int { a.fee * b.size - b.fee * a.size }

  // a comes before b.
  predicate Higher(a: Score, b: Score) {
    if Rate(a, b) == 0 then a.hash < b.hash else Rate(a, b) > 0
  }

  lemma RateSwap(a: Score, b: Score)
    ensures Rate(a, b) == -Rate(b, a)
  {
  }

  lemma Cancel(x: int, y: int, d: nat)
    requires d > 0
    ensures x * d >= y * d ==> x >= y
    ensures x * d > y * d ==> x > y
  {
    if x < y { MulDistrib(d, y, x); MulMonotone(1, y - x, d); }
  }

  // Rates are ordered like fractions.
  lemma RateTransitive(a: Score, b: Score, c: Score)
    requires Valid(a) && Valid(b) && Valid(c) && Rate(a, b) >= 0 && Rate(b, c) >= 0
    ensures Rate(a, c) >= 0
    ensures Rate(a, b) > 0 || Rate(b, c) > 0 ==> Rate(a, c) > 0
  {
    var x, y := a.fee * c.size, c.fee * a.size;
    assert x * b.size == (a.fee * b.size) * c.size;
    assert y * b.size == (c.fee * b.size) * a.size;
    assert (b.fee * a.size) * c.size == (b.fee * c.size) * a.size;
    Scale(a.fee * b.size, b.fee * a.size, c.size);
    Scale(b.fee * c.size, c.fee * b.size, a.size);
    Cancel(x, y, b.size);
  }

  lemma Scale(x: int, y: int, d: nat)
    requires x >= y && d > 0
    ensures x * d >= y * d && (x > y ==> x * d > y * d)
  {
    MulDistrib(d, x, y);
    if x > y { MulMonotone(1, x - y, d); }
  }

  // A strict order, and not coming after is transitive too.
  lemma HigherIsOrder(a: Score, b: Score, c: Score)
    requires Valid(a) && Valid(b) && Valid(c)
    ensures !(Higher(a, b) && Higher(b, a))
    ensures Higher(a, b) && Higher(b, c) ==> Higher(a, c)
    ensures !Higher(a, b) && !Higher(b, c) ==> !Higher(a, c)
  {
    hide Rate;
    RateSwap(a, b);
    RateSwap(b, c);
    RateSwap(a, c);
    if Rate(a, b) >= 0 && Rate(b, c) >= 0 { RateTransitive(a, b, c); }
    if Rate(b, a) >= 0 && Rate(c, b) >= 0 { RateTransitive(c, b, a); }
  }
}
