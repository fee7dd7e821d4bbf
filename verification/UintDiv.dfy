/** Bitwise long division of the fixed-width integers. */
module UintDiv {
  import opened Powers
  import opened BitOps
  import opened Blocks
  import opened UintShape
  import opened Uint
  import opened UintOps
  import opened UintShift
  import opened UintMul
  import opened LongDivision

  datatype DivResult = DivisionByZero | Divided(quot: Uint, rem: Uint)

  /** Shifts by one need at least two bits, as the shift operators demand. */
  method DivMod(x: Uint, y: Uint) returns (result: DivResult)
    requires x.Valid() && y.Valid() && x.shape == y.shape && x.shape.bits >= 2
    ensures result.DivisionByZero? <==> y.Value() == 0
    ensures result.Divided? ==>
      var q, r := result.quot, result.rem;
      && fresh(q) && fresh(q.blocks) && q.shape == x.shape && q.Valid()
      && fresh(r) && fresh(r.blocks) && r.shape == x.shape && r.Valid()
      && x.Value() == q.Value() * y.Value() + r.Value() && r.Value() < y.Value()
  {
    hide Pow2, Val, Shape.NumBlocks, Uint.Value, Digits;
    var n := x.shape.bits;
    var isZero := IsZero(y);
    if isZero {
      return DivisionByZero;
    }
    var quot := new Uint.Zero(x.shape);
    var rem := new Uint.Zero(x.shape);
    var bit := TopBit(x.shape);
    ghost var k, q := n, 0;
    TopStart(x.Value(), n);
    var done := IsZero(bit);
    while !done
      invariant k <= n
      invariant fresh(bit) && fresh(bit.blocks) && bit.shape == x.shape && bit.Valid()
      invariant fresh(quot) && fresh(quot.blocks) && quot.shape == x.shape && quot.Valid()
      invariant fresh(rem) && fresh(rem.blocks) && rem.shape == x.shape && rem.Valid()
      invariant bit.Value() == BitWeight(k) && (done <==> k == 0)
      invariant quot.Value() == q * Pow2(k)
      invariant x.Value() / Pow2(k) == q * y.Value() + rem.Value() && rem.Value() < y.Value()
      decreases k
    {
      rem, quot, q := DivideBit(x, y, bit, rem, quot, k, q);
      NextWeightDown(k);
      bit := ShiftRight(bit, 1);
      k := k - 1;
      done := IsZero(bit);
    }
    WholeQuotient(x.Value(), q);
    return Divided(quot, rem);
  }

  /** One iteration: bit k - 1 of x moves into the remainder and decides bit k - 1 of the quotient. */
  method DivideBit(x: Uint, y: Uint, bit: Uint, rem: Uint, quot: Uint, ghost k: nat, ghost q: nat)
    returns (rem': Uint, quot': Uint, ghost q': nat)
    requires x.Valid() && y.Valid() && bit.Valid() && rem.Valid() && quot.Valid()
    requires x.shape == y.shape == bit.shape == rem.shape == quot.shape
    requires 1 <= k <= x.shape.bits && x.shape.bits >= 2 && bit.Value() == Pow2(k - 1)
    requires quot.Value() == q * Pow2(k)
    requires x.Value() / Pow2(k) == q * y.Value() + rem.Value() && rem.Value() < y.Value()
    ensures fresh(rem') && fresh(rem'.blocks) && rem'.shape == x.shape && rem'.Valid()
    ensures quot' == quot || (fresh(quot') && fresh(quot'.blocks))
    ensures quot'.shape == x.shape && quot'.Valid() && quot'.Value() == q' * Pow2(k - 1)
    ensures x.Value() / Pow2(k - 1) == q' * y.Value() + rem'.Value() && rem'.Value() < y.Value()
  {
    hide Pow2, Val, Shape.NumBlocks, Bit, Or;
    ghost var r := rem.Value();
    RemainderSmall(x.Value(), k, x.shape.bits, q, y.Value(), r);
    rem' := BringDown(x, rem, bit, k);
    quot' := quot;
    var below := Less(rem', y);
    DivStep(x.Value(), y.Value(), k, q, r);
    QuotientBit(quot.Value(), q, k);
    q' := 2 * q;
    if !below {
      ModSmall(rem'.Value() - y.Value(), x.shape.Modulus());
      rem' := Sub(rem', y);
      quot' := BitOr(quot, bit);
      q' := 2 * q + 1;
    }
  }

  method TopBit(shape: Shape) returns (bit: Uint)
    requires shape.Valid()
    ensures fresh(bit) && fresh(bit.blocks) && bit.shape == shape && bit.Valid()
    ensures bit.Value() == Pow2(shape.bits - 1)
  {
    hide Pow2, Val, Shape.NumBlocks;
    Pow2Monotone(shape.bits - 1, shape.bits);
    NumBlocksFit(shape);
    BitFits(shape);
    bit := new Uint.FromInteger(shape, 1, shape.BlockBits());
    ModSmall(1, shape.Modulus());
    bit := ShiftLeft(bit, shape.bits - 1);
    ModSmall(Pow2(shape.bits - 1), shape.Modulus());
  }

  /** One more bit of x enters the remainder; no bit of the remainder is lost. */
  method BringDown(x: Uint, rem: Uint, bit: Uint, ghost k: nat) returns (next: Uint)
    requires x.Valid() && rem.Valid() && bit.Valid() && x.shape == rem.shape == bit.shape
    requires 1 <= k && x.shape.bits >= 2 && bit.Value() == Pow2(k - 1)
    requires 2 * rem.Value() + 1 < x.shape.Modulus()
    ensures fresh(next) && fresh(next.blocks) && next.shape == x.shape && next.Valid()
    ensures next.Value() == 2 * rem.Value() + (if Bit(x.Value(), k - 1) then 1 else 0)
  {
    hide Pow2, Val, Shape.NumBlocks, Or, Bit;
    next := ShiftLeft(rem, 1);
    TwiceSmall(rem.Value(), x.shape.Modulus());
    var masked := BitAnd(x, bit);
    AndBit(x.Value(), k - 1);
    var isZero := IsZero(masked);
    if !isZero {
      SetLowBit(next, rem.Value());
    }
  }

  method SetLowBit(x: Uint, ghost half: nat)
    requires x.Valid() && x.Value() == 2 * half && x.Value() + 1 < x.shape.Modulus()
    modifies x.blocks
    ensures x.Valid() && x.Value() == old(x.Value()) + 1
  {
    hide Pow2, Val, Shape.NumBlocks, Or;
    ghost var s := x.blocks[..];
    NumBlocksFit(x.shape);
    OddBit(s, half, x.shape.BlockBits());
    x.blocks[0] := Or(x.blocks[0], 1);
    assert x.blocks[..] == s[0 := Or(s[0], 1)];
  }

  lemma BitFits(shape: Shape)
    requires shape.Valid()
    ensures 1 < Pow2(shape.BlockBits()) && 1 < shape.Modulus()
  {
    Pow2Monotone(1, shape.BlockBits());
    Pow2Monotone(1, shape.bits);
  }

  lemma OddBit(s: seq<nat>, r: nat, w: nat)
    requires |s| > 0 && Digits(s, w) && w >= 1 && Val(s, w) == 2 * r
    ensures Or(s[0], 1) == s[0] + 1 < Pow2(w)
    ensures Val(s[0 := Or(s[0], 1)], w) == Val(s, w) + 1
    ensures Digits(s[0 := Or(s[0], 1)], w)
  {
    hide Val, Pow2, Or;
    LowBlock(s, w);
    EvenBase(w);
    EvenDigit(s[0], Pow2(w), Pow2(w - 1), Val(s, w) / Pow2(w * 1), r);
    OrOne(s[0], Pow2(w - 1));
    ReplaceLow(s, s[0] + 1, w);
  }

  lemma EvenBase(w: nat)
    requires w >= 1
    ensures Pow2(w) == 2 * Pow2(w - 1)
  {
  }

  lemma EvenDigit(d: nat, b: nat, p: nat, rest: int, r: nat)
    requires b == 2 * p && 2 * r == d + b * rest
    ensures d % 2 == 0
  {
    assert b * rest == 2 * (p * rest);
  }
}
