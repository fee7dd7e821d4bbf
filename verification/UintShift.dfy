/** Bit shifts of the fixed-width integers. */
module UintShift {
  import opened Powers
  import opened BitOps
  import opened Blocks
  import opened UintShape
  import opened Uint
  import opened WordShift

  method ShiftLeft(x: Uint, shift: nat) returns (result: Uint)
    requires x.Valid() && shift < x.shape.bits
    ensures fresh(result) && fresh(result.blocks) && result.shape == x.shape && result.Valid()
    ensures result.Value() == (x.Value() * Pow2(shift)) % x.shape.Modulus()
  {
    hide Pow2, Val, Shape.NumBlocks, Or, Stay, Move;
    var w, n := x.shape.BlockBits(), x.blocks.Length;
    if shift == 0 {
      result := new Uint.Copy(x);
      UnitShift(x.Value(), x.shape.Modulus());
      return;
    }
    var blockShift, bitShift := shift / w, shift % w;
    ShiftFits(x.shape, shift);
    if bitShift == 0 {
      result := new Uint.Copy(x);
      result.ShiftBlocksLeft(blockShift);
      return;
    }
    result := new Uint.Zero(x.shape);
    var i := 0;
    while i < blockShift
      invariant 0 <= i <= blockShift
      invariant Digits(result.blocks[..], w)
      invariant forall k :: 0 <= k < i ==> result.blocks[k] == 0
    {
      result.blocks[i] := 0;
      i := i + 1;
    }
    result.blocks[blockShift] := Stay(x.blocks[0], bitShift, w);
    StayBelow(x.blocks[0], bitShift, w);
    i := blockShift + 1;
    while i < n
      invariant blockShift + 1 <= i <= n
      invariant Digits(result.blocks[..], w)
      invariant forall k :: 0 <= k < blockShift ==> result.blocks[k] == 0
      invariant result.blocks[blockShift] == Stay(x.blocks[0], bitShift, w)
      invariant forall k :: blockShift < k < i ==>
        result.blocks[k] == Or(Stay(x.blocks[k - blockShift], bitShift, w),
                               Move(x.blocks[k - blockShift - 1], bitShift, w))
    {
      ShiftedBlock(x.blocks[i - blockShift], x.blocks[i - blockShift - 1], bitShift, w);
      result.blocks[i] := Or(Stay(x.blocks[i - blockShift], bitShift, w),
                             Move(x.blocks[i - blockShift - 1], bitShift, w));
      i := i + 1;
    }
    LeftShifted(x.shape, x.blocks[..], result.blocks[..], blockShift, bitShift);
    result.ClearUnusedBits();
  }

  lemma UnitShift(v: nat, m: nat)
    requires v < m
    ensures (v * Pow2(0)) % m == v
  {
    ModSmall(v, m);
  }

  lemma ShiftFits(s: Shape, shift: nat)
    requires s.Valid() && shift < s.bits
    ensures 0 <= shift / s.BlockBits() < s.NumBlocks() && 0 <= shift % s.BlockBits() < s.BlockBits()
    ensures shift == s.BlockBits() * (shift / s.BlockBits()) + shift % s.BlockBits()
  {
    hide Shape.NumBlocks, Shape.BlockBits;
    NumBlocksFit(s);
    QuotientBelow(shift, s.BlockBits(), s.NumBlocks());
  }

  lemma QuotientBelow(n: nat, d: nat, q: nat)
    requires n < d * q
    ensures d > 0 && 0 <= n / d < q && n == d * (n / d) + n % d
  {
    if n / d >= q {
      MulMonotone(q, n / d, d);
    }
  }

  lemma LeftShifted(shape: Shape, x: seq<nat>, r: seq<nat>, blockShift: nat, bitShift: nat)
    requires shape.Valid() && |x| == |r| == shape.NumBlocks() && Digits(x, shape.BlockBits())
    requires blockShift < |x| && 0 < bitShift < shape.BlockBits()
    requires forall k :: 0 <= k < blockShift ==> r[k] == 0
    requires r[blockShift] == Stay(x[0], bitShift, shape.BlockBits())
    requires forall k :: blockShift < k < |x| ==>
      r[k] == Or(Stay(x[k - blockShift], bitShift, shape.BlockBits()),
                 Move(x[k - blockShift - 1], bitShift, shape.BlockBits()))
    ensures Val(r, shape.BlockBits()) % shape.Modulus()
            == (Val(x, shape.BlockBits()) * Pow2(shape.BlockBits() * blockShift + bitShift))
               % shape.Modulus()
  {
    hide Pow2, Val, Shape.NumBlocks, Shape.Modulus, Or, Stay, Move;
    var w, m, s := shape.BlockBits(), |x| - blockShift, bitShift;
    var y := r[blockShift..];
    forall k | 1 <= k < m
      ensures y[k] == Stay(x[k], s, w) + Move(x[k - 1], s, w)
    {
      ShiftedBlock(x[k], x[k - 1], s, w);
      assert y[k] == r[k + blockShift];
    }
    ShiftChain(x, y, m, s, w);
    assert y[..m] == y;
    LeadingZeros(r, blockShift, w);
    LeftCombined(shape, x, Val(y, w), Val(r, w), blockShift, s, Move(x[m - 1], s, w));
  }

  lemma LeftCombined(shape: Shape, x: seq<nat>, y: nat, r: nat, blockShift: nat, s: nat, c: nat)
    requires shape.Valid() && blockShift < |x| == shape.NumBlocks()
    requires r == Pow2(shape.BlockBits() * blockShift) * y
    requires y + Pow2(shape.BlockBits() * (|x| - blockShift)) * c
             == Pow2(s) * Val(x[..|x| - blockShift], shape.BlockBits())
    ensures r % shape.Modulus()
            == (Val(x, shape.BlockBits()) * Pow2(shape.BlockBits() * blockShift + s)) % shape.Modulus()
  {
    hide Pow2, Val, Shape.NumBlocks, Shape.Modulus;
    var w, m := shape.BlockBits(), |x| - blockShift;
    ValSplit(x, m, w);
    Pow2Add(w * blockShift, s);
    WeightAdd(w, m, blockShift);
    LeftProduct(Pow2(w * blockShift), Pow2(s), Val(x[..m], w), Pow2(w * m), Val(x[m..], w), y, c);
    CapacityDropped(shape, r, Pow2(s) * Val(x[m..], w) + c);
  }

  lemma LeadingZeros(r: seq<nat>, m: nat, w: nat)
    requires m <= |r| && forall k :: 0 <= k < m ==> r[k] == 0
    ensures Val(r, w) == Pow2(w * m) * Val(r[m..], w)
  {
    hide Pow2, Val;
    ValSplit(r, m, w);
    ValZeros(r[..m], w);
  }

  lemma LeftProduct(p: nat, q: nat, low: nat, t: nat, high: nat, y: nat, c: nat)
    requires y + t * c == q * low
    ensures (low + t * high) * (p * q) == p * y + (t * p) * (q * high + c)
  {
    calc {
      (low + t * high) * (p * q);
      p * (q * low) + (t * p) * (q * high);
      p * (y + t * c) + (t * p) * (q * high);
      p * y + (t * p) * c + (t * p) * (q * high);
    }
  }

  /** The moving part of each block acts as a carry into the next one. */
  lemma {:induction false} ShiftChain(x: seq<nat>, y: seq<nat>, i: nat, s: nat, w: nat)
    requires 1 <= i <= |y| <= |x| && Digits(x, w) && 0 < s < w
    requires y[0] == Stay(x[0], s, w)
    requires forall k :: 1 <= k < |y| ==> y[k] == Stay(x[k], s, w) + Move(x[k - 1], s, w)
    ensures Val(y[..i], w) + Pow2(w * i) * Move(x[i - 1], s, w) == Pow2(s) * Val(x[..i], w)
  {
    hide Pow2, Val, Stay, Move;
    ShiftedParts(x[i - 1], s, w);
    ValPrefix(x, i - 1, w);
    ValPrefix(y, i - 1, w);
    NextWeight(w, i - 1);
    EmptyValue(x[..0], y[..0], w);
    if i > 1 {
      ShiftChain(x, y, i - 1, s, w);
    }
    ChainStep(Pow2(w * (i - 1)), Pow2(w), Stay(x[i - 1], s, w), Move(x[i - 1], s, w), x[i - 1],
              Pow2(s), if i > 1 then Move(x[i - 2], s, w) else 0,
              Val(y[..i - 1], w), Val(x[..i - 1], w));
  }

  lemma EmptyValue(x: seq<nat>, y: seq<nat>, w: nat)
    requires x == y == []
    ensures Val(x, w) == Val(y, w) == 0 && Pow2(w * 0) == 1
  {
  }

  lemma ChainStep(p: nat, b: nat, stay: nat, move: nat, d: nat, q: nat, c: nat, vy: nat, vx: nat)
    requires d * q == stay + b * move
    requires vy + p * c == q * vx
    ensures vy + p * (stay + c) + (p * b) * move == q * (vx + p * d)
  {
    calc {
      q * (vx + p * d);
      q * vx + p * (d * q);
      q * vx + p * (stay + b * move);
      vy + p * c + p * stay + (p * b) * move;
    }
  }

  method ShiftRight(x: Uint, shift: nat) returns (result: Uint)
    requires x.Valid() && shift < x.shape.bits
    ensures fresh(result) && fresh(result.blocks) && result.shape == x.shape && result.Valid()
    ensures result.Value() == x.Value() / Pow2(shift)
  {
    hide Pow2, Val, Shape.NumBlocks, Or, Stay, Move;
    var w, n := x.shape.BlockBits(), x.blocks.Length;
    if shift == 0 {
      result := new Uint.Copy(x);
      UnitQuotient(x.Value());
      return;
    }
    var blockShift, bitShift := shift / w, shift % w;
    ShiftFits(x.shape, shift);
    var blockKeep := n - blockShift - 1;
    if bitShift == 0 {
      result := new Uint.Copy(x);
      result.ShiftBlocksRight(blockShift);
      return;
    }
    result := new Uint.Zero(x.shape);
    var i := 0;
    while i < blockKeep
      invariant 0 <= i <= blockKeep
      invariant Digits(result.blocks[..], w)
      invariant forall k :: 0 <= k < i ==>
        result.blocks[k] == Or(Move(x.blocks[k + blockShift], w - bitShift, w),
                               Stay(x.blocks[k + blockShift + 1], w - bitShift, w))
    {
      RightBlock(x.blocks[i + blockShift], x.blocks[i + blockShift + 1], bitShift, w);
      result.blocks[i] := Or(Move(x.blocks[i + blockShift], w - bitShift, w),
                             Stay(x.blocks[i + blockShift + 1], w - bitShift, w));
      i := i + 1;
    }
    result.blocks[blockKeep] := Move(x.blocks[n - 1], w - bitShift, w);
    RightBlock(x.blocks[n - 1], 0, bitShift, w);
    i := blockKeep + 1;
    while i < n
      invariant blockKeep + 1 <= i <= n
      invariant Digits(result.blocks[..], w)
      invariant forall k :: 0 <= k < blockKeep ==>
        result.blocks[k] == Or(Move(x.blocks[k + blockShift], w - bitShift, w),
                               Stay(x.blocks[k + blockShift + 1], w - bitShift, w))
      invariant result.blocks[blockKeep] == Move(x.blocks[n - 1], w - bitShift, w)
      invariant forall k :: blockKeep < k < i ==> result.blocks[k] == 0
    {
      result.blocks[i] := 0;
      i := i + 1;
    }
    RightShifted(x.blocks[..], result.blocks[..], blockShift, bitShift, w);
    DivAtMost(x.Value(), Pow2(shift));
    ModSmall(result.Value(), x.shape.Modulus());
    result.ClearUnusedBits();
  }

  lemma UnitQuotient(v: nat)
    ensures v / Pow2(0) == v
  {
  }

  lemma RightShifted(x: seq<nat>, r: seq<nat>, blockShift: nat, s: nat, w: nat)
    requires |x| == |r| && blockShift < |x| && Digits(x, w) && 0 < s < w
    requires forall k :: 0 <= k < |x| - blockShift - 1 ==>
      r[k] == Or(Move(x[k + blockShift], w - s, w), Stay(x[k + blockShift + 1], w - s, w))
    requires r[|x| - blockShift - 1] == Move(x[|x| - 1], w - s, w)
    requires forall k :: |x| - blockShift <= k < |x| ==> r[k] == 0
    ensures Val(r, w) == Val(x, w) / Pow2(w * blockShift + s)
  {
    hide Pow2, Val, Or, Stay, Move;
    var y, m := x[blockShift..], |x| - blockShift;
    forall k | 0 <= k < m - 1
      ensures r[k] == Move(y[k], w - s, w) + Stay(y[k + 1], w - s, w)
    {
      RightBlock(y[k], y[k + 1], s, w);
    }
    RightChain(y, r, m - 1, s, w);
    RightBlock(y[m - 1], 0, s, w);
    RightTop(y, r, s, w);
    TrailingZeros(r, m, w);
    ModBelow(y[0], Pow2(s));
    DivModUnique(Val(y, w), Pow2(s), Val(r[..m], w), y[0] % Pow2(s));
    ValSplit(x, blockShift, w);
    ValBound(x[..blockShift], w);
    DivModUnique(Val(x, w), Pow2(w * blockShift), Val(y, w), Val(x[..blockShift], w));
    DivDiv(Val(x, w), Pow2(w * blockShift), Pow2(s));
    Pow2Add(w * blockShift, s);
  }

  lemma ModBelow(d: nat, m: nat)
    requires m > 0
    ensures 0 <= d % m < m
  {
  }

  /** The bits that leave each block move down into the block below. */
  lemma {:induction false} RightChain(y: seq<nat>, r: seq<nat>, i: nat, s: nat, w: nat)
    requires i < |y| <= |r| && Digits(y, w) && 0 < s < w
    requires forall k :: 0 <= k < |y| - 1 ==> r[k] == Move(y[k], w - s, w) + Stay(y[k + 1], w - s, w)
    ensures Pow2(s) * Val(r[..i], w) + y[0] % Pow2(s) == Val(y[..i], w) + Pow2(w * i) * (y[i] % Pow2(s))
  {
    hide Pow2, Val, Stay, Move;
    if i == 0 {
      EmptyValue(y[..0], r[..0], w);
      assert Pow2(s) * 0 == 0;
    } else {
      RightChain(y, r, i - 1, s, w);
      RightBlock(y[i - 1], y[i], s, w);
      ValPrefix(y, i - 1, w);
      ValPrefix(r, i - 1, w);
      NextWeight(w, i - 1);
      RightStep(Pow2(w * (i - 1)), Pow2(w), Pow2(s), y[i - 1], y[i] % Pow2(s),
                Stay(y[i], w - s, w), Val(r[..i - 1], w), Val(y[..i - 1], w), y[0] % Pow2(s));
    }
  }

  lemma RightStep(p: nat, b: nat, q: nat, d: nat, next: nat, stay: nat, vr: nat, vy: nat, low: nat)
    requires q > 0 && q * stay == b * next
    requires q * vr + low == vy + p * (d % q)
    ensures q * (vr + p * (d / q + stay)) + low == vy + p * d + (p * b) * next
  {
    calc {
      q * (vr + p * (d / q + stay)) + low;
      q * vr + low + p * (q * (d / q)) + p * (q * stay);
      vy + p * (d % q) + p * (q * (d / q)) + (p * b) * next;
      { assert d == q * (d / q) + d % q; }
      vy + p * d + (p * b) * next;
    }
  }

  lemma RightTop(y: seq<nat>, r: seq<nat>, s: nat, w: nat)
    requires 0 < |y| <= |r| && Digits(y, w) && 0 < s < w
    requires r[|y| - 1] == y[|y| - 1] / Pow2(s)
    requires Pow2(s) * Val(r[..|y| - 1], w) + y[0] % Pow2(s)
             == Val(y[..|y| - 1], w) + Pow2(w * (|y| - 1)) * (y[|y| - 1] % Pow2(s))
    ensures Val(y, w) == Val(r[..|y|], w) * Pow2(s) + y[0] % Pow2(s)
  {
    hide Pow2, Val;
    var t := |y| - 1;
    ValPrefix(y, t, w);
    ValPrefix(r, t, w);
    assert y[..|y|] == y;
    RightStep(Pow2(w * t), 0, Pow2(s), y[t], 0, 0, Val(r[..t], w), Val(y[..t], w), y[0] % Pow2(s));
  }
}
