/**
 * Single bits of a byte, least significant first.
 */
module ByteBits {

  // 1 << k
  function Mask(k: nat): bv8 {
    if k == 0 then 1 else if k == 1 then 2 else if k == 2 then 4 else if k == 3 then 8
    else if k == 4 then 16 else if k == 5 then 32 else if k == 6 then 64 else 128
  }

  function With(b: bv8, k: nat): bv8 { b | Mask(k) }
  function Without(b: bv8, k: nat): bv8 { b & !Mask(k) }
  predicate Has(b: bv8, k: nat) { Mask(k) & b != 0 }

  lemma WithHas(b: bv8, k: nat, j: nat)
    requires k < 8 && j < 8
    ensures Has(With(b, k), j) <==> j == k || Has(b, j)
  {
  }

  lemma WithoutHas(b: bv8, k: nat, j: nat)
    requires k < 8 && j < 8
    ensures Has(Without(b, k), j) <==> j != k && Has(b, j)
  {
  }

  lemma FullHas(j: nat)
    ensures Has(0xff, j) && !Has(0, j)
  {
  }
}
