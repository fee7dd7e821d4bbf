/** The arithmetic of one step of bitwise long division, for operands of any width. */
module LongDivision {
  import opened Powers
  import opened BitOps

  /** The weight of bit k - 1, and zero once all bits are done. */
  function BitWeight(k: nat): nat { if k == 0 then 0 else Pow2(k - 1) }

  lemma TopStart(x: nat, n: nat)
    requires x < Pow2(n)
    ensures x / Pow2(n) == 0 && 0 * Pow2(n) == 0
  {
    ModSmall(x, Pow2(n));
  }

  lemma WholeQuotient(x: nat, q: nat)
    ensures x / Pow2(0) == x && q * Pow2(0) == q
  {
  }

  /** While k bits remain, the remainder is at most the n - k bits of x seen so far; so there is room to double
      it and add the next bit. */
  lemma RemainderSmall(x: nat, k: nat, n: nat, q: nat, y: nat, r: nat)
    requires 1 <= k <= n && x < Pow2(n) && x / Pow2(k) == q * y + r
    ensures r < Pow2(n - k) && 2 * r + 1 < Pow2(n)
  {
    MulMonotone(0, q, y);
    DivBound(x, k, n - k);
    Pow2Monotone(n - k, n - 1);
  }

  lemma DivStep(x: nat, y: nat, k: nat, q: nat, r: nat)
    requires k >= 1 && x / Pow2(k) == q * y + r && r < y
    ensures var r' := 2 * r + (if Bit(x, k - 1) then 1 else 0);
            && (r' < y ==> x / Pow2(k - 1) == (2 * q) * y + r')
            && (r' >= y ==> x / Pow2(k - 1) == (2 * q + 1) * y + (r' - y) && r' - y < y)
  {
    HalveShift(x, k - 1);
    assert (2 * q) * y == 2 * (q * y) && (2 * q + 1) * y == 2 * (q * y) + y;
  }

  lemma QuotientBit(v: nat, q: nat, k: nat)
    requires k >= 1 && v == q * Pow2(k)
    ensures Or(v, Pow2(k - 1)) == (2 * q + 1) * Pow2(k - 1)
    ensures v == (2 * q) * Pow2(k - 1)
  {
    hide Or;
    var p := Pow2(k - 1);
    OrDisjoint(q, p, k);
    assert q * (2 * p) == (2 * q) * p && (2 * q + 1) * p == (2 * q) * p + p;
  }

  lemma NextWeightDown(k: nat)
    requires k >= 1
    ensures BitWeight(k) / Pow2(1) == BitWeight(k - 1)
    ensures k >= 2 ==> BitWeight(k - 1) > 0
  {
    if k >= 2 {
      assert Pow2(k - 1) == 2 * Pow2(k - 2);
    }
  }

  lemma TwiceSmall(r: nat, m: nat)
    requires 2 * r < m
    ensures (r * Pow2(1)) % m == 2 * r
  {
    ModSmall(2 * r, m);
  }
}
