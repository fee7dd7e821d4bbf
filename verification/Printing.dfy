/** What a partly printed number says about the whole one. */
module Printing {
  import opened Powers
  import opened Numerals

  /** The stream flags that printing looks at. */
  datatype Flags = Flags(hex: bool, oct: bool, uppercase: bool, showpos: bool) {
    function Base(): (b: nat)
      ensures b == 8 || b == 10 || b == 16
    {
      if oct then 8 else if hex then 16 else 10
    }
  }

  function BufferSize(bits: nat): nat { 1 + (bits + 2) / 3 }

  /** What the digits written so far and the number still to be written say about x. */
  predicate Emitted(x: nat, rest: nat, s: string, bits: nat, flags: Flags) {
    && x == rest * Pow(flags.Base(), |s|) + Parse(s, flags.Base())
    && rest * Pow2(3 * |s|) < Pow2(bits)
    && DigitsOk(s, flags.Base(), flags.uppercase)
  }

  predicate DigitsOk(s: string, base: nat, upper: bool) {
    forall k :: 0 <= k < |s| ==> s[k] in Table(upper) && DigitOf(s[k]) < base
  }

  lemma SmallPowers()
    ensures Pow2(3) == 8 && Pow2(4) == 16 && Pow2(5) == 32
  {
  }

  lemma OneDigit(s: string, v: nat, flags: Flags)
    requires |s| == 1 && 0 < v < flags.Base() && s[0] == Table(flags.uppercase)[v]
    ensures IsNumeral(s, v, flags.Base(), flags.uppercase)
  {
    TableDigit(v, flags.uppercase);
    assert s[..0] == [];
    assert Parse(s[..0], flags.Base()) == 0;
  }

  lemma PrintStart(x: nat, bits: nat, s: string, flags: Flags)
    requires x < Pow2(bits) && s == []
    ensures Emitted(x, x, s, bits, flags)
  {
  }

  /** While a digit remains there is room for it and for a sign. */
  lemma RoomLeft(x: nat, v: nat, s: string, bits: nat, flags: Flags)
    requires v > 0 && Emitted(x, v, s, bits, flags)
    ensures |s| + 1 < BufferSize(bits)
    ensures 8 <= flags.Base() <= 16
  {
    MulMonotone(1, v, Pow2(3 * |s|));
    if 3 * |s| >= bits {
      Pow2Monotone(bits, 3 * |s|);
    }
  }

  lemma DigitStep(x: nat, v: nat, q: nat, r: nat, s: string, bits: nat, flags: Flags)
    requires v > 0 && v == q * flags.Base() + r && r < flags.Base()
    requires Emitted(x, v, s, bits, flags)
    ensures Emitted(x, q, [Table(flags.uppercase)[r]] + s, bits, flags)
    ensures q == 0 ==> Table(flags.uppercase)[r] != '0'
    ensures q < v
  {
    hide Pow, Parse, Pow2;
    var c, base := Table(flags.uppercase)[r], flags.Base();
    TableDigit(r, flags.uppercase);
    ParsePrepend(c, s, base);
    NextPower(base, |s|);
    NumeralAlgebra(q, base, r, Pow(base, |s|));
    assert 3 * |[c] + s| == 3 * |s| + 3;
    Pow2Add(3 * |s|, 3);
    SmallPowers();
    QuotientShrinks(q, base, r, Pow2(3 * |s|));
  }

  lemma NextPower(b: nat, e: nat)
    ensures Pow(b, e + 1) == b * Pow(b, e)
  {
  }

  lemma NumeralAlgebra(q: nat, base: nat, r: nat, p: nat)
    ensures (q * base + r) * p == q * (base * p) + r * p
  {
  }

  lemma QuotientShrinks(q: nat, base: nat, r: nat, p: nat)
    requires base >= 8 && q * base + r > 0
    ensures q * (p * 8) <= (q * base + r) * p
    ensures q < q * base + r
  {
    MulMonotone(8, base, q);
    MulMonotone(8 * q, q * base + r, p);
    assert q * (p * 8) == (8 * q) * p;
  }

  lemma WholeNumeral(s: string, v: nat, bits: nat, flags: Flags)
    requires |s| > 0 && Emitted(v, 0, s, bits, flags) && s[0] != '0'
    ensures IsNumeral(s, v, flags.Base(), flags.uppercase)
  {
  }
}
