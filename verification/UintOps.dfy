/** Comparison, bitwise and additive operators of the fixed-width integers. */
module UintOps {
  import opened Powers
  import opened BitOps
  import opened Blocks
  import opened UintShape
  import opened Uint

  method Add(x: Uint, y: Uint) returns (result: Uint)
    requires x.Valid() && y.Valid() && x.shape == y.shape
    ensures fresh(result) && fresh(result.blocks) && result.shape == x.shape && result.Valid()
    ensures result.Value() == (x.Value() + y.Value()) % x.shape.Modulus()
  {
    hide Pow2, Val, Shape.NumBlocks;
    var w, n := x.shape.BlockBits(), x.blocks.Length;
    result := new Uint.Zero(x.shape);
    var carry := false;
    var i := 0;
    StartSum(result.blocks[..0], x.blocks[..0], y.blocks[..0], w);
    while i < n
      invariant 0 <= i <= n
      invariant Digits(result.blocks[..], w)
      invariant Val(result.blocks[..i], w) + Pow2(w * i) * One(carry)
                == Val(x.blocks[..i], w) + Val(y.blocks[..i], w)
    {
      ghost var before, c := result.blocks[..], carry;
      var temp := (x.blocks[i] + y.blocks[i] + One(carry)) % Pow2(w);
      var limit := if x.blocks[i] < y.blocks[i] then x.blocks[i] else y.blocks[i];
      CarryOut(x.blocks[i], y.blocks[i], One(carry), Pow2(w));
      result.blocks[i] := temp;
      carry := temp < limit || (carry && temp == limit);
      assert result.blocks[..i] == before[..i];
      AddStep(x.blocks[..], y.blocks[..], result.blocks[..], i, w, One(c), One(carry));
      i := i + 1;
    }
    FullPrefix(x.blocks[..]);
    FullPrefix(y.blocks[..]);
    FullPrefix(result.blocks[..]);
    CapacityDropped(x.shape, result.Value(), One(carry));
    result.ClearUnusedBits();
  }

  method Sub(x: Uint, y: Uint) returns (result: Uint)
    requires x.Valid() && y.Valid() && x.shape == y.shape
    ensures fresh(result) && fresh(result.blocks) && result.shape == x.shape && result.Valid()
    ensures result.Value() == (x.Value() - y.Value()) % x.shape.Modulus()
  {
    hide Pow2, Val, Shape.NumBlocks;
    var w, n := x.shape.BlockBits(), x.blocks.Length;
    result := new Uint.Zero(x.shape);
    var borrow := false;
    var i := 0;
    StartSum(result.blocks[..0], x.blocks[..0], y.blocks[..0], w);
    while i < n
      invariant 0 <= i <= n
      invariant Digits(result.blocks[..], w)
      invariant Val(result.blocks[..i], w) - Pow2(w * i) * One(borrow)
                == Val(x.blocks[..i], w) - Val(y.blocks[..i], w)
    {
      ghost var before, c := result.blocks[..], borrow;
      var temp := (x.blocks[i] - One(borrow)) % Pow2(w);
      BorrowOut(x.blocks[i], y.blocks[i], One(borrow), Pow2(w));
      borrow := y.blocks[i] > temp || (borrow && x.blocks[i] == 0);
      result.blocks[i] := (temp - y.blocks[i]) % Pow2(w);
      assert result.blocks[..i] == before[..i];
      SubStep(x.blocks[..], y.blocks[..], result.blocks[..], i, w, One(c), One(borrow));
      i := i + 1;
    }
    FullPrefix(x.blocks[..]);
    FullPrefix(y.blocks[..]);
    FullPrefix(result.blocks[..]);
    CapacityBorrowed(x.shape, result.Value(), One(borrow));
    result.ClearUnusedBits();
  }

  method Equal(x: Uint, y: Uint) returns (equal: bool)
    requires x.Valid() && y.Valid() && x.shape == y.shape
    ensures equal <==> x.Value() == y.Value()
  {
    hide Pow2, Val, Shape.NumBlocks;
    var i := 0;
    while i < x.blocks.Length
      invariant 0 <= i <= x.blocks.Length
      invariant forall k :: 0 <= k < i ==> x.blocks[k] == y.blocks[k]
    {
      if x.blocks[i] != y.blocks[i] {
        assert x.blocks[..][i] != y.blocks[..][i];
        if x.Value() == y.Value() {
          ValUnique(x.blocks[..], y.blocks[..], x.shape.BlockBits());
        }
        return false;
      }
      i := i + 1;
    }
    assert x.blocks[..] == y.blocks[..];
    return true;
  }

  method Less(x: Uint, y: Uint) returns (less: bool)
    requires x.Valid() && y.Valid() && x.shape == y.shape
    ensures less <==> x.Value() < y.Value()
  {
    hide Pow2, Val, Shape.NumBlocks;
    var w := x.shape.BlockBits();
    var i := x.blocks.Length;
    while i > 0
      invariant 0 <= i <= x.blocks.Length
      invariant x.blocks[i..] == y.blocks[i..]
    {
      i := i - 1;
      if x.blocks[i] < y.blocks[i] {
        ValOrder(x.blocks[..], y.blocks[..], i, w);
        return true;
      }
      if x.blocks[i] > y.blocks[i] {
        ValOrder(y.blocks[..], x.blocks[..], i, w);
        return false;
      }
    }
    assert x.blocks[..] == x.blocks[0..] && y.blocks[..] == y.blocks[0..];
    return false;
  }

  /** Logical negation: true exactly for zero. */
  method IsZero(x: Uint) returns (zero: bool)
    requires x.Valid()
    ensures zero <==> x.Value() == 0
  {
    hide Pow2, Val, Shape.NumBlocks, Or;
    var acc := 0;
    var i := 0;
    while i < x.blocks.Length
      invariant 0 <= i <= x.blocks.Length
      invariant acc == 0 <==> forall k :: 0 <= k < i ==> x.blocks[k] == 0
    {
      OrIsZero(acc, x.blocks[i]);
      acc := Or(acc, x.blocks[i]);
      i := i + 1;
    }
    zero := acc == 0;
    ZeroBlocks(x.blocks[..], x.shape.BlockBits());
  }

  method BitAnd(x: Uint, y: Uint) returns (result: Uint)
    requires x.Valid() && y.Valid() && x.shape == y.shape
    ensures fresh(result) && fresh(result.blocks) && result.shape == x.shape && result.Valid()
    ensures result.Value() == And(x.Value(), y.Value())
  {
    hide Pow2, Val, Shape.NumBlocks, And;
    var w, n := x.shape.BlockBits(), x.blocks.Length;
    result := new Uint.Zero(x.shape);
    var i := 0;
    while i < n
      invariant 0 <= i <= n
      invariant Digits(result.blocks[..], w)
      invariant forall k :: 0 <= k < i ==> result.blocks[k] == And(x.blocks[k], y.blocks[k])
    {
      AndAtMost(x.blocks[i], y.blocks[i]);
      result.blocks[i] := And(x.blocks[i], y.blocks[i]);
      i := i + 1;
    }
    ValAnd(x.blocks[..], y.blocks[..], result.blocks[..], w);
    AndAtMost(x.Value(), y.Value());
  }

  method BitOr(x: Uint, y: Uint) returns (result: Uint)
    requires x.Valid() && y.Valid() && x.shape == y.shape
    ensures fresh(result) && fresh(result.blocks) && result.shape == x.shape && result.Valid()
    ensures result.Value() == Or(x.Value(), y.Value())
  {
    hide Pow2, Val, Shape.NumBlocks, Or;
    var w, n := x.shape.BlockBits(), x.blocks.Length;
    result := new Uint.Zero(x.shape);
    var i := 0;
    while i < n
      invariant 0 <= i <= n
      invariant Digits(result.blocks[..], w)
      invariant forall k :: 0 <= k < i ==> result.blocks[k] == Or(x.blocks[k], y.blocks[k])
    {
      OrBelow(x.blocks[i], y.blocks[i], w);
      result.blocks[i] := Or(x.blocks[i], y.blocks[i]);
      i := i + 1;
    }
    ValOr(x.blocks[..], y.blocks[..], result.blocks[..], w);
    OrBelow(x.Value(), y.Value(), x.shape.bits);
  }

  function One(b: bool): nat { if b then 1 else 0 }

  lemma FullPrefix(s: seq<nat>)
    ensures s[..|s|] == s
  {
  }

  lemma StartSum(r: seq<nat>, a: seq<nat>, b: seq<nat>, w: nat)
    requires r == a == b == []
    ensures Pow2(w * 0) * 0 == 0 && Val(r, w) == Val(a, w) == Val(b, w) == 0
  {
  }

  /** The carry test is exact, including with a carry coming in. */
  lemma CarryOut(x: nat, y: nat, c: nat, b: nat)
    requires x < b && y < b && c <= 1
    ensures var t := (x + y + c) % b;
            var limit := if x < y then x else y;
            t + b * One(t < limit || (c == 1 && t == limit)) == x + y + c
  {
    if x + y + c < b { ModSmall(x + y + c, b); } else { DivModUnique(x + y + c, b, 1, x + y + c - b); }
  }

  /** The borrow test is exact, including when the borrow itself wraps. */
  lemma BorrowOut(x: nat, y: nat, c: nat, b: nat)
    requires x < b && y < b && c <= 1
    ensures var t := (x - c) % b;
            0 <= t < b && 0 <= (t - y) % b < b
            && (t - y) % b - b * One(y > t || (c == 1 && x == 0)) == x - y - c
  {
    if x >= c { ModSmall(x - c, b); } else { DivModUnique(x - c, b, -1, b - 1); }
    var t := (x - c) % b;
    if t >= y { ModSmall(t - y, b); } else { DivModUnique(t - y, b, -1, t - y + b); }
  }

  lemma AddStep(x: seq<nat>, y: seq<nat>, r: seq<nat>, i: nat, w: nat, c: nat, c': nat)
    requires i < |x| == |y| == |r|
    requires r[i] + Pow2(w) * c' == x[i] + y[i] + c
    requires Val(r[..i], w) + Pow2(w * i) * c == Val(x[..i], w) + Val(y[..i], w)
    ensures Val(r[..i + 1], w) + Pow2(w * (i + 1)) * c' == Val(x[..i + 1], w) + Val(y[..i + 1], w)
  {
    hide Pow2, Val;
    ValPrefix(x, i, w);
    ValPrefix(y, i, w);
    ValPrefix(r, i, w);
    NextWeight(w, i);
    ScaleSum(Pow2(w * i), Pow2(w), r[i], c', x[i], y[i], c);
  }

  lemma ScaleSum(p: int, b: int, r: int, c': int, x: int, y: int, c: int)
    requires r + b * c' == x + y + c
    ensures p * r + (p * b) * c' == p * x + p * y + p * c
  {
    MulAssoc(p, b, c');
    assert p * (r + b * c') == p * (x + y + c);
  }

  lemma SubStep(x: seq<nat>, y: seq<nat>, r: seq<nat>, i: nat, w: nat, c: nat, c': nat)
    requires i < |x| == |y| == |r|
    requires r[i] - Pow2(w) * c' == x[i] - y[i] - c
    requires Val(r[..i], w) - Pow2(w * i) * c == Val(x[..i], w) - Val(y[..i], w)
    ensures Val(r[..i + 1], w) - Pow2(w * (i + 1)) * c' == Val(x[..i + 1], w) - Val(y[..i + 1], w)
  {
    hide Pow2, Val;
    ValPrefix(x, i, w);
    ValPrefix(y, i, w);
    ValPrefix(r, i, w);
    NextWeight(w, i);
    ScaleDifference(Pow2(w * i), Pow2(w), r[i], c', x[i], y[i], c);
  }

  lemma ScaleDifference(p: int, b: int, r: int, c': int, x: int, y: int, c: int)
    requires r - b * c' == x - y - c
    ensures p * r - (p * b) * c' == p * x - p * y - p * c
  {
    MulAssoc(p, b, c');
    assert p * (r - b * c') == p * (x - y - c);
  }

  lemma OrIsZero(a: nat, b: nat)
    ensures Or(a, b) == 0 <==> a == 0 && b == 0
  {
    if a > 0 && b > 0 {
      OrIsZero(a / 2, b / 2);
    }
  }

  lemma {:induction false} AndAtMost(a: nat, b: nat)
    ensures And(a, b) <= a
  {
    if a > 0 && b > 0 {
      AndAtMost(a / 2, b / 2);
    }
  }

  lemma OrBelow(a: nat, b: nat, k: nat)
    requires a < Pow2(k) && b < Pow2(k)
    ensures Or(a, b) < Pow2(k)
  {
    OrSplit(a, 0, b, 0, k);
  }

  lemma {:induction false} ZeroBlocks(s: seq<nat>, w: nat)
    ensures Val(s, w) == 0 <==> forall k :: 0 <= k < |s| ==> s[k] == 0
  {
    if |s| > 0 {
      var t := |s| - 1;
      ZeroBlocks(s[..t], w);
      MulMonotone(1, Pow2(w * t), s[t]);
      if Val(s, w) == 0 {
        assert forall k :: 0 <= k < t ==> s[k] == s[..t][k];
      } else {
        assert s[t] != 0 || exists k :: 0 <= k < t && s[..t][k] != 0;
      }
    }
  }
}
