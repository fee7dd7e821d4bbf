/** Fixed-width unsigned integers stored as blocks, least significant first. */
module Uint {
  import opened Powers
  import opened BitOps
  import opened Blocks
  import opened UintShape

  class Uint {
    const shape: Shape
    const blocks: array<nat>

    /** The blocks fit the layout; unused bits may still be set. */
    ghost predicate Shaped()
      reads blocks
    {
      shape.Valid() && blocks.Length == shape.NumBlocks() && Digits(blocks[..], shape.BlockBits())
    }

    ghost function Value(): nat
      reads blocks
    {
      Val(blocks[..], shape.BlockBits())
    }

    /** The class invariant: unused bits are zero. */
    ghost predicate Valid()
      reads blocks
    {
      Shaped() && Value() < shape.Modulus()
    }

    constructor Zero(shape: Shape)
      requires shape.Valid()
      ensures this.shape == shape && fresh(blocks)
      ensures Valid() && Value() == 0
    {
      NumBlocksFit(shape);
      this.shape := shape;
      blocks := new nat[shape.NumBlocks()](_ => 0);
      new;
      ValZeros(blocks[..], shape.BlockBits());
    }

    constructor Copy(other: Uint)
      requires other.Valid()
      ensures shape == other.shape && fresh(blocks)
      ensures blocks[..] == other.blocks[..]
      ensures Valid() && Value() == other.Value()
    {
      shape := other.shape;
      blocks := new nat[other.blocks.Length](i requires 0 <= i < other.blocks.Length
                                               reads other.blocks => other.blocks[i]);
      new;
      assert blocks[..] == other.blocks[..];
    }

    /** Conversion from an unsigned primitive of valueBits bits. */
    constructor FromInteger(shape: Shape, val: nat, valueBits: nat)
      requires shape.Valid() && val < Pow2(valueBits)
      ensures this.shape == shape && fresh(blocks)
      ensures Valid() && Value() == val % shape.Modulus()
    {
      NumBlocksFit(shape);
      this.shape := shape;
      blocks := new nat[shape.NumBlocks()](_ => 0);
      new;
      ValZeros(blocks[..], shape.BlockBits());
      CopyBits(val, valueBits);
      ClearUnusedBits();
    }

    /** Stores the bits of a primitive into zeroed blocks, dropping those that do not fit. */
    method CopyBits(val: nat, valueBits: nat)
      requires shape.Valid() && blocks.Length == shape.NumBlocks()
      requires forall i :: 0 <= i < blocks.Length ==> blocks[i] == 0
      requires val < Pow2(valueBits)
      modifies blocks
      ensures Shaped() && Value() % shape.Modulus() == val % shape.Modulus()
    {
      hide Pow2, Val, Shape.NumBlocks;
      NumBlocksFit(shape);
      var w := shape.BlockBits();
      if valueBits <= w {
        Pow2Monotone(valueBits, w);
        blocks[0] := val % Pow2(w);
        ModSmall(val, Pow2(w));
        LowBlockOnly(blocks[..], w);
      } else {
        var temp := val;
        var i := 0;
        StartBlocks(blocks[..0], w, val);
        while i < blocks.Length
          invariant 0 <= i <= blocks.Length
          invariant temp == val / Pow2(w * i)
          invariant Digits(blocks[..], w)
          invariant Val(blocks[..i], w) + Pow2(w * i) * temp == val
        {
          ghost var before := blocks[..];
          blocks[i] := temp % Pow2(w);
          assert blocks[..i] == before[..i];
          PeelBlock(blocks[..], i, w, val, temp);
          temp := temp / Pow2(w);
          i := i + 1;
        }
        assert blocks[..blocks.Length] == blocks[..];
        CapacityDropped(shape, Value(), temp);
      }
    }

    /** Zeroes the unused bits of the last block. */
    method ClearUnusedBits()
      requires Shaped()
      modifies blocks
      ensures Valid() && Value() == old(Value()) % shape.Modulus()
    {
      NumBlocksFit(shape);
      MaskReduces(shape, blocks[..]);
      var last := blocks.Length - 1;
      ghost var expected := blocks[..][last := And(blocks[last], shape.LastBlockMask())];
      blocks[last] := And(blocks[last], shape.LastBlockMask());
      assert blocks[..] == expected;
    }

    method ShiftBlocksRight(offset: nat)
      requires Valid() && offset <= shape.NumBlocks()
      modifies blocks
      ensures Valid()
      ensures Value() == old(Value()) / Pow2(shape.BlockBits() * offset)
    {
      hide Pow2, Val, Shape.NumBlocks;
      var n := blocks.Length;
      ghost var a := blocks[..];
      var i := offset;
      while i < n
        invariant offset <= i <= n
        invariant forall k :: 0 <= k < i - offset ==> blocks[k] == a[k + offset]
        invariant forall k :: i - offset <= k < n ==> blocks[k] == a[k]
      {
        blocks[i - offset] := blocks[i];
        i := i + 1;
      }
      i := n - offset;
      while i < n
        invariant n - offset <= i <= n
        invariant forall k :: 0 <= k < n - offset ==> blocks[k] == a[k + offset]
        invariant forall k :: n - offset <= k < i ==> blocks[k] == 0
      {
        blocks[i] := 0;
        i := i + 1;
      }
      BlocksRight(a, blocks[..], offset, shape.BlockBits());
    }

    method ShiftBlocksLeft(offset: nat)
      requires Valid() && offset <= shape.NumBlocks()
      modifies blocks
      ensures Valid()
      ensures Value() == (old(Value()) * Pow2(shape.BlockBits() * offset)) % shape.Modulus()
    {
      hide Pow2, Val, Shape.NumBlocks;
      var n := blocks.Length;
      ghost var a := blocks[..];
      var i := n;
      while i > offset
        invariant offset <= i <= n
        invariant forall k :: 0 <= k < i ==> blocks[k] == a[k]
        invariant forall k :: i <= k < n ==> blocks[k] == a[k - offset]
      {
        i := i - 1;
        blocks[i] := blocks[i - offset];
      }
      i := 0;
      while i < offset
        invariant 0 <= i <= offset
        invariant forall k :: offset <= k < n ==> blocks[k] == a[k - offset]
        invariant forall k :: 0 <= k < i ==> blocks[k] == 0
      {
        blocks[i] := 0;
        i := i + 1;
      }
      BlocksLeft(shape, a, blocks[..], offset);
      ClearUnusedBits();
    }

    method Increment(amount: nat)
      requires Valid() && amount < Pow2(shape.BlockBits())
      modifies blocks
      ensures Valid() && Value() == (old(Value()) + amount) % shape.Modulus()
    {
      hide Pow2, Val, Shape.NumBlocks;
      var w := shape.BlockBits();
      var carry: nat := amount;
      ghost var a := blocks[..];
      var i := 0;
      StartBlocks(blocks[..0], w, amount);
      while i < blocks.Length
        invariant 0 <= i <= blocks.Length && carry < Pow2(w)
        invariant Digits(blocks[..], w)
        invariant blocks[i..] == a[i..]
        invariant Val(blocks[..i], w) + Pow2(w * i) * carry == Val(a[..i], w) + amount
      {
        ghost var before, c := blocks[..], carry;
        assert before[i] == a[i];
        blocks[i] := (blocks[i] + carry) % Pow2(w);
        WrapAdd(a[i], carry, Pow2(w));
        carry := if blocks[i] < carry then 1 else 0;
        assert blocks[..i] == before[..i];
        CarryStep(a, blocks[..], i, w, c, carry, amount);
        i := i + 1;
      }
      assert blocks[..blocks.Length] == blocks[..] && a[..blocks.Length] == a;
      CapacityDropped(shape, Value(), carry);
      ClearUnusedBits();
    }

    method Decrement(amount: nat)
      requires Valid() && amount < Pow2(shape.BlockBits())
      modifies blocks
      ensures Valid() && Value() == (old(Value()) - amount) % shape.Modulus()
    {
      hide Pow2, Val, Shape.NumBlocks;
      var w := shape.BlockBits();
      var borrow: nat := amount;
      ghost var a := blocks[..];
      var i := 0;
      StartBlocks(blocks[..0], w, amount);
      while i < blocks.Length
        invariant 0 <= i <= blocks.Length && borrow < Pow2(w)
        invariant Digits(blocks[..], w)
        invariant blocks[i..] == a[i..]
        invariant Val(blocks[..i], w) - Pow2(w * i) * borrow == Val(a[..i], w) - amount
      {
        ghost var before, c := blocks[..], borrow;
        assert before[i] == a[i];
        var temp := blocks[i];
        blocks[i] := (blocks[i] - borrow) % Pow2(w);
        WrapSub(temp, borrow, Pow2(w));
        borrow := if borrow > temp then 1 else 0;
        assert blocks[..i] == before[..i];
        BorrowStep(a, blocks[..], i, w, c, borrow, amount);
        i := i + 1;
      }
      assert blocks[..blocks.Length] == blocks[..] && a[..blocks.Length] == a;
      CapacityBorrowed(shape, Value(), borrow);
      ClearUnusedBits();
    }
  }

  /** Dropping low blocks divides. */
  lemma BlocksRight(a: seq<nat>, b: seq<nat>, offset: nat, w: nat)
    requires |a| == |b| && offset <= |a| && Digits(a, w)
    requires forall k :: 0 <= k < |a| - offset ==> b[k] == a[k + offset]
    requires forall k :: |a| - offset <= k < |a| ==> b[k] == 0
    ensures Digits(b, w) && Val(b, w) == Val(a, w) / Pow2(w * offset) <= Val(a, w)
  {
    hide Pow2, Val;
    assert b[..|a| - offset] == a[offset..];
    DroppedBlocks(a, b, offset, w);
    QuotientAtMost(Val(a, w), Pow2(w * offset), Val(b, w), Val(a[..offset], w));
  }

  lemma DroppedBlocks(a: seq<nat>, b: seq<nat>, offset: nat, w: nat)
    requires |a| == |b| && offset <= |a| && Digits(a, w)
    requires b[..|a| - offset] == a[offset..]
    requires forall k :: |a| - offset <= k < |a| ==> b[k] == 0
    ensures Val(a, w) == Val(a[..offset], w) + Pow2(w * offset) * Val(b, w)
    ensures Val(a[..offset], w) < Pow2(w * offset)
  {
    hide Pow2, Val;
    ValSplit(a, offset, w);
    TrailingZeros(b, |a| - offset, w);
    ValBound(a[..offset], w);
  }

  lemma TrailingZeros(b: seq<nat>, m: nat, w: nat)
    requires m <= |b| && forall k :: m <= k < |b| ==> b[k] == 0
    ensures Val(b, w) == Val(b[..m], w)
  {
    hide Pow2, Val;
    ValSplit(b, m, w);
    ValZeros(b[m..], w);
    assert Pow2(w * m) * 0 == 0;
  }

  lemma QuotientAtMost(n: nat, d: nat, q: nat, r: nat)
    requires r < d && n == r + d * q
    ensures n / d == q <= n
  {
    DivModUnique(n, d, q, r);
    MulMonotone(1, d, q);
  }

  lemma ValSplit(a: seq<nat>, i: nat, w: nat)
    requires i <= |a|
    ensures Val(a, w) == Val(a[..i], w) + Pow2(w * i) * Val(a[i..], w)
  {
    assert a == a[..i] + a[i..];
    ValConcat(a[..i], a[i..], w);
  }

  /** Moving blocks up multiplies, modulo 2^N. */
  lemma BlocksLeft(shape: Shape, a: seq<nat>, b: seq<nat>, offset: nat)
    requires shape.Valid() && |a| == |b| == shape.NumBlocks() && offset <= |a|
    requires Digits(a, shape.BlockBits())
    requires forall k :: offset <= k < |a| ==> b[k] == a[k - offset]
    requires forall k :: 0 <= k < offset ==> b[k] == 0
    ensures Digits(b, shape.BlockBits())
    ensures Val(b, shape.BlockBits()) % shape.Modulus()
            == (Val(a, shape.BlockBits()) * Pow2(shape.BlockBits() * offset)) % shape.Modulus()
  {
    hide Pow2, Val, Shape.NumBlocks, Shape.Modulus;
    var w, m := shape.BlockBits(), |a| - offset;
    assert b[offset..] == a[..m];
    ValSplit(a, m, w);
    ValSplit(b, offset, w);
    ValZeros(b[..offset], w);
    WeightAdd(w, m, offset);
    RaiseProduct(Pow2(w * offset), Val(a[..m], w), Pow2(w * m), Val(a[m..], w));
    CapacityDropped(shape, Val(b, w), Val(a[m..], w));
  }

  lemma RaiseProduct(p: nat, low: nat, q: nat, high: nat)
    ensures (low + q * high) * p == p * low + (q * p) * high
  {
  }

  /** Unsigned overflow of an addition shows as a result below an operand. */
  lemma WrapAdd(x: nat, c: nat, b: nat)
    requires x < b && c < b
    ensures var t := (x + c) % b; t + b * (if t < c then 1 else 0) == x + c
  {
    if x + c < b { ModSmall(x + c, b); } else { DivModUnique(x + c, b, 1, x + c - b); }
  }

  lemma WrapSub(x: nat, c: nat, b: nat)
    requires x < b && c < b
    ensures (x - c) % b - b * (if c > x then 1 else 0) == x - c
  {
    if c <= x { ModSmall(x - c, b); } else { DivModUnique(x - c, b, -1, x - c + b); }
  }

  lemma CarryStep(a: seq<nat>, r: seq<nat>, i: nat, w: nat, c: nat, c': nat, extra: nat)
    requires i < |a| == |r|
    requires r[i] + Pow2(w) * c' == a[i] + c
    requires Val(r[..i], w) + Pow2(w * i) * c == Val(a[..i], w) + extra
    ensures Val(r[..i + 1], w) + Pow2(w * (i + 1)) * c' == Val(a[..i + 1], w) + extra
  {
    hide Pow2, Val;
    ValPrefix(a, i, w);
    ValPrefix(r, i, w);
    NextWeight(w, i);
    Scale(Pow2(w * i), Pow2(w), r[i], c', a[i], c);
  }

  lemma BorrowStep(a: seq<nat>, r: seq<nat>, i: nat, w: nat, c: nat, c': nat, extra: nat)
    requires i < |a| == |r|
    requires r[i] - Pow2(w) * c' == a[i] - c
    requires Val(r[..i], w) - Pow2(w * i) * c == Val(a[..i], w) - extra
    ensures Val(r[..i + 1], w) - Pow2(w * (i + 1)) * c' == Val(a[..i + 1], w) - extra
  {
    hide Pow2, Val;
    ValPrefix(a, i, w);
    ValPrefix(r, i, w);
    NextWeight(w, i);
    var d: int, d': int := c, c';
    Scale(Pow2(w * i), Pow2(w), r[i], -d', a[i], -d);
  }

  lemma Scale(p: int, b: int, r: int, c': int, x: int, c: int)
    requires r + b * c' == x + c
    ensures p * r + (p * b) * c' == p * x + p * c
  {
    MulAssoc(p, b, c');
    assert p * (r + b * c') == p * (x + c);
  }

  lemma MulAssoc(a: int, b: int, c: int)
    ensures (a * b) * c == a * (b * c)
  {
  }

  /** The value of a number whose blocks above the first are zero. */
  lemma LowBlockOnly(s: seq<nat>, w: nat)
    requires |s| >= 1 && forall i :: 1 <= i < |s| ==> s[i] == 0
    ensures Val(s, w) == s[0]
  {
    assert s == [s[0]] + s[1..];
    ValConcat([s[0]], s[1..], w);
    ValZeros(s[1..], w);
    assert Pow2(w * 0) == 1;
    assert [s[0]][..0] == [];
  }

  lemma StartBlocks(s: seq<nat>, w: nat, val: nat)
    requires s == []
    ensures Pow2(w * 0) == 1 && val / Pow2(w * 0) == val
    ensures Val(s, w) + Pow2(w * 0) * val == val
  {
    assert w * 0 == 0;
  }

  /** What overflows all the blocks does not matter modulo 2^N. */
  lemma CapacityDropped(shape: Shape, v: int, carry: int)
    requires shape.Valid()
    ensures (v + Pow2(shape.BlockBits() * shape.NumBlocks()) * carry) % shape.Modulus()
            == v % shape.Modulus()
  {
    hide Pow2, Shape.NumBlocks;
    CapacityIsMultiple(shape);
    var m, spare := shape.Modulus(), Pow2(shape.BlockBits() * shape.NumBlocks() - shape.bits);
    MulAssoc(m, spare, carry);
    ModAddMultiple(v, m, spare * carry);
  }

  lemma CapacityBorrowed(shape: Shape, v: int, borrow: int)
    requires shape.Valid()
    ensures (v - Pow2(shape.BlockBits() * shape.NumBlocks()) * borrow) % shape.Modulus()
            == v % shape.Modulus()
  {
    hide Pow2, Shape.NumBlocks;
    var p := Pow2(shape.BlockBits() * shape.NumBlocks());
    CapacityDropped(shape, v, -borrow);
    assert p * -borrow == -(p * borrow);
  }

  lemma PeelBlock(s: seq<nat>, i: nat, w: nat, val: nat, temp: nat)
    requires i < |s| && s[i] == temp % Pow2(w)
    requires temp == val / Pow2(w * i)
    requires Val(s[..i], w) + Pow2(w * i) * temp == val
    ensures temp / Pow2(w) == val / Pow2(w * (i + 1))
    ensures Val(s[..i + 1], w) + Pow2(w * (i + 1)) * (temp / Pow2(w)) == val
  {
    hide Pow2, Val;
    ValPrefix(s, i, w);
    NextWeight(w, i);
    DivDiv(val, Pow2(w * i), Pow2(w));
    PeelProduct(Pow2(w * i), Pow2(w), temp);
  }

  lemma PeelProduct(p: nat, b: nat, t: nat)
    requires b > 0
    ensures p * (t % b) + (p * b) * (t / b) == p * t
  {
    assert t == b * (t / b) + t % b;
  }
}
