/** Shifting one machine word: what stays in it and what moves to its neighbour. */
module WordShift {
  import opened Powers
  import opened BitOps

  /** The bits of a block that stay in it when it is shifted left by s. */
  function Stay(d: nat, s: nat, w: nat): nat { (d * Pow2(s)) % Pow2(w) }

  /** The bits that move on to the next block. */
  function Move(d: nat, s: nat, w: nat): nat
    requires s <= w
  {
    DivNonNegative(d, Pow2(w - s));
    d / Pow2(w - s)
  }

  /** A block multiplied by 2^s splits into the part that stays and the part that moves on. */
  lemma ShiftedParts(d: nat, s: nat, w: nat)
    requires d < Pow2(w) && 0 < s < w
    ensures Move(d, s, w) < Pow2(s)
    ensures d * Pow2(s) == Stay(d, s, w) + Pow2(w) * Move(d, s, w)
    ensures Stay(d, s, w) == (d % Pow2(w - s)) * Pow2(s) <= Pow2(w) - Pow2(s)
  {
    hide Pow2;
    Pow2Add(w - s, s);
    DivBound(d, w - s, s);
    SplitProduct(d, Pow2(w - s), Pow2(s));
  }

  lemma SplitProduct(d: nat, p: nat, q: nat)
    requires p > 0 && q > 0
    ensures p * q > 0 && (d * q) % (p * q) == (d % p) * q <= p * q - q
    ensures d * q == (d * q) % (p * q) + (p * q) * (d / p)
  {
    var hi, lo := d / p, d % p;
    assert d == hi * p + lo;
    PartsProduct(hi, p, lo, q);
    MulMonotone(lo + 1, p, q);
    DivModUnique(d * q, p * q, hi, lo * q);
  }

  lemma PartsProduct(hi: nat, p: nat, lo: nat, q: nat)
    ensures (hi * p + lo) * q == hi * (p * q) + lo * q
    ensures (lo + 1) * q == lo * q + q
  {
  }

  lemma StayBelow(d: nat, s: nat, w: nat)
    ensures Stay(d, s, w) < Pow2(w)
  {
  }

  /** The two halves of a shifted block do not overlap, so the or is a sum. */
  lemma ShiftedBlock(d: nat, below: nat, s: nat, w: nat)
    requires d < Pow2(w) && below < Pow2(w) && 0 < s < w
    ensures Or(Stay(d, s, w), Move(below, s, w)) == Stay(d, s, w) + Move(below, s, w) < Pow2(w)
  {
    hide Pow2, Or, Stay, Move;
    ShiftedParts(d, s, w);
    ShiftedParts(below, s, w);
    OrDisjoint(d % Pow2(w - s), Move(below, s, w), s);
  }

  lemma RightBlock(d: nat, above: nat, s: nat, w: nat)
    requires d < Pow2(w) && above < Pow2(w) && 0 < s < w
    ensures Or(Move(d, w - s, w), Stay(above, w - s, w)) == Move(d, w - s, w) + Stay(above, w - s, w)
    ensures Move(d, w - s, w) + Stay(above, w - s, w) < Pow2(w)
    ensures Move(d, w - s, w) < Pow2(w)
    ensures Move(d, w - s, w) == d / Pow2(s)
    ensures Pow2(s) * Stay(above, w - s, w) == Pow2(w) * (above % Pow2(s))
  {
    hide Pow2, Or, Stay;
    ShiftedBlock(above, d, w - s, w);
    ShiftedParts(above, w - s, w);
    OrCommutes(Move(d, w - s, w), Stay(above, w - s, w));
    Pow2Add(s, w - s);
    SwapFactors(Pow2(s), above % Pow2(s), Pow2(w - s));
  }

  lemma SwapFactors(p: nat, d: nat, q: nat)
    ensures p * (d * q) == (p * q) * d
  {
  }
}
