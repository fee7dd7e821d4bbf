/** School-book multiplication with a carry accumulator no wider than the operands. */
module UintMul {
  import opened Powers
  import opened Words
  import opened BitOps
  import opened Blocks
  import opened UintShape
  import opened Uint
  import opened UintOps

  /** Both halves of the double-width product of two blocks. */
  method MultHiLo(u: nat, v: nat, w: nat) returns (hi: nat, lo: nat)
    requires u < Pow2(w) && v < Pow2(w)
    ensures hi < Pow2(w) && lo < Pow2(w) && hi * Pow2(w) + lo == u * v
  {
    hide Pow2;
    if w == 64 {
      WordSize();
      hi, lo := MultHiLo64(u, v);
      return;
    }
    DoubleWidth(u, v, Pow2(w));
    hi, lo := (u * v) / Pow2(w), (u * v) % Pow2(w);
  }

  /** The 64-bit version from four half-word products, every step modulo 2^64. */
  method MultHiLo64(u: nat, v: nat) returns (hi: nat, lo: nat)
    requires u < WORD && v < WORD
    ensures hi < WORD && lo < WORD && hi * WORD + lo == u * v
  {
    var u1, u0 := u / HALF, u % HALF;
    var v1, v0 := v / HALF, v % HALF;
    HalfProduct(u0, v0);
    HalfProduct(u1, v0);
    HalfProduct(u0, v1);
    HalfProduct(u1, v1);
    var t := (u0 * v0) % WORD;
    var w0 := t % HALF;
    var k := t / HALF;
    t := (u1 * v0 + k) % WORD;
    var w1 := t % HALF;
    var w2 := t / HALF;
    t := (u0 * v1 + w1) % WORD;
    k := t / HALF;
    lo := ((t * HALF) % WORD + w0) % WORD;
    hi := (u1 * v1 + w2 + k) % WORD;
    HalvesProduct(u1, u0, v1, v0);
    CombineHalves(u0 * v0, u1 * v0, u0 * v1, u1 * v1);
  }

  lemma DoubleWidth(u: nat, v: nat, b: nat)
    requires u < b && v < b
    ensures 0 <= (u * v) / b < b && 0 <= (u * v) % b < b
    ensures (u * v) / b * b + (u * v) % b == u * v
  {
    MulMonotone(u, b, v);
    ProductPositive(u, v);
    var n := u * v;
    DivNonNegative(n, b);
    QuotientStrict(n, b, v);
  }

  lemma ProductPositive(u: nat, v: nat)
    ensures 0 <= u * v
  {
  }

  lemma QuotientStrict(n: nat, b: nat, v: nat)
    requires n <= b * v && v < b
    ensures n / b < b && n / b * b + n % b == n
  {
    var q, r := n / b, n % b;
    assert n == b * q + r;
    if q >= b { MulMonotone(v + 1, q, b); }
  }

  lemma HalfProduct(a: nat, b: nat)
    requires a < HALF && b < HALF
    ensures 0 <= a * b <= (HALF - 1) * (HALF - 1)
  {
    MulMonotone(0, a, b);
    MulMonotone(a, HALF - 1, b);
    MulMonotone(b, HALF - 1, HALF - 1);
  }

  lemma HalvesProduct(u1: nat, u0: nat, v1: nat, v0: nat)
    ensures (u1 * HALF + u0) * (v1 * HALF + v0)
            == u1 * v1 * WORD + (u1 * v0 + u0 * v1) * HALF + u0 * v0
  {
  }

  /** No intermediate sum of the four products overflows, and together they are exact. */
  lemma CombineHalves(p00: nat, p10: nat, p01: nat, p11: nat)
    requires p00 <= (HALF - 1) * (HALF - 1) && p10 <= (HALF - 1) * (HALF - 1)
    requires p01 <= (HALF - 1) * (HALF - 1) && p11 <= (HALF - 1) * (HALF - 1)
    requires p11 * WORD + (p10 + p01) * HALF + p00 < WORD * WORD
    ensures var t1 := (p10 + (p00 % WORD) / HALF) % WORD;
            var t2 := (p01 + t1 % HALF) % WORD;
            var lo := ((t2 * HALF) % WORD + (p00 % WORD) % HALF) % WORD;
            var hi := (p11 + t1 / HALF + t2 / HALF) % WORD;
            hi * WORD + lo == p11 * WORD + (p10 + p01) * HALF + p00
  {
    ModSmall(p00, WORD);
    var a, b := p00 / HALF, p00 % HALF;
    var t1 := p10 + a;
    ModSmall(t1, WORD);
    var c, d := t1 / HALF, t1 % HALF;
    var t2 := p01 + d;
    ModSmall(t2, WORD);
    var e, f := t2 / HALF, t2 % HALF;
    DivModUnique(t2 * HALF, WORD, e, f * HALF);
    ModSmall(f * HALF + b, WORD);
    var hi := p11 + c + e;
    assert hi * WORD + (f * HALF + b) == p11 * WORD + (p10 + p01) * HALF + p00;
    ModSmall(hi, WORD);
  }

  /** The first count products of the column of weight i. */
  function Column(x: seq<nat>, y: seq<nat>, i: nat, count: nat): nat
    requires i < |x| == |y| && count <= i + 1
  {
    if count == 0 then 0
    else Column(x, y, i, count - 1) + x[count - 1] * y[i - (count - 1)]
  }

  /** The sum of the first i columns, each at its weight. */
  function Columns(x: seq<nat>, y: seq<nat>, i: nat, w: nat): nat
    requires i <= |x| == |y|
  {
    if i == 0 then 0
    else Columns(x, y, i - 1, w) + Pow2(w * (i - 1)) * Column(x, y, i - 1, i)
  }

  method Mul(x: Uint, y: Uint) returns (result: Uint)
    requires x.Valid() && y.Valid() && x.shape == y.shape
    ensures fresh(result) && fresh(result.blocks) && result.shape == x.shape && result.Valid()
    ensures result.Value() == (x.Value() * y.Value()) % x.shape.Modulus()
  {
    hide Pow2, Val, Shape.NumBlocks, Column, Columns;
    var w, n := x.shape.BlockBits(), x.blocks.Length;
    ghost var m := x.shape.Modulus();
    if n == 1 {
      result := SingleBlock(x, y);
      return;
    }
    result := new Uint.Zero(x.shape);
    var carry := new Uint.Zero(x.shape);
    var i := 0;
    StartColumns(x.blocks[..], y.blocks[..], result.blocks[..0], w);
    while i < n
      invariant 0 <= i <= n
      invariant fresh(carry) && fresh(carry.blocks) && carry.shape == x.shape && carry.Valid()
      invariant carry.blocks != result.blocks && fresh(result.blocks)
      invariant Digits(result.blocks[..], w)
      invariant (Val(result.blocks[..i], w) + Pow2(w * i) * carry.Value()) % m
                == Columns(x.blocks[..], y.blocks[..], i, w) % m
    {
      ghost var before, c := result.blocks[..], carry.Value();
      carry := AddColumn(x, y, i, carry);
      result.blocks[i] := carry.blocks[0];
      ghost var c1 := carry.Value();
      LowBlock(carry.blocks[..], w);
      carry.ShiftBlocksRight(1);
      assert result.blocks[..i] == before[..i];
      ColumnDone(x.blocks[..], y.blocks[..], result.blocks[..], i, w, m, c, c1, carry.Value());
      i := i + 1;
    }
    FullPrefix(result.blocks[..]);
    ColumnsAreProduct(x.shape, x.blocks[..], y.blocks[..]);
    CapacityDropped(x.shape, result.Value(), carry.Value());
    result.ClearUnusedBits();
  }

  method SingleBlock(x: Uint, y: Uint) returns (result: Uint)
    requires x.Valid() && y.Valid() && x.shape == y.shape && x.blocks.Length == 1
    ensures fresh(result) && fresh(result.blocks) && result.shape == x.shape && result.Valid()
    ensures result.Value() == (x.Value() * y.Value()) % x.shape.Modulus()
  {
    hide Pow2, Val, Shape.NumBlocks;
    var w := x.shape.BlockBits();
    result := new Uint.FromInteger(x.shape, (x.blocks[0] * y.blocks[0]) % Pow2(w), w);
    LowBlockOnly(x.blocks[..], w);
    LowBlockOnly(y.blocks[..], w);
    SingleCapacity(x.shape, x.blocks[0] * y.blocks[0]);
    result.ClearUnusedBits();
    ModTwice(x.Value() * y.Value(), x.shape.Modulus());
  }

  /** One column: adds its products to the carry, everything modulo 2^N. */
  method AddColumn(x: Uint, y: Uint, i: nat, start: Uint) returns (carry: Uint)
    requires x.Valid() && y.Valid() && start.Valid() && x.shape == y.shape == start.shape
    requires x.blocks.Length >= 2 && i < x.blocks.Length
    ensures fresh(carry) && fresh(carry.blocks) && carry.shape == x.shape && carry.Valid()
    ensures carry.Value()
            == (start.Value() + Column(x.blocks[..], y.blocks[..], i, i + 1)) % x.shape.Modulus()
  {
    hide Pow2, Val, Shape.NumBlocks, Or, Column;
    var w := x.shape.BlockBits();
    carry := new Uint.Copy(start);
    ColumnStart(x.blocks[..], y.blocks[..], i);
    ModSmall(start.Value(), x.shape.Modulus());
    var j := 0;
    while j <= i
      invariant 0 <= j <= i + 1
      invariant fresh(carry) && fresh(carry.blocks) && carry.shape == x.shape && carry.Valid()
      invariant carry.Value()
                == (start.Value() + Column(x.blocks[..], y.blocks[..], i, j)) % x.shape.Modulus()
    {
      var k := i - j;
      ghost var c := carry.Value();
      carry := AddProduct(x.blocks[j], y.blocks[k], carry);
      ColumnNext(x.blocks[..], y.blocks[..], i, j, start.Value(), c, carry.Value(), x.shape.Modulus());
      j := j + 1;
    }
  }

  /** Adds one double-width product to the carry. */
  method AddProduct(u: nat, v: nat, start: Uint) returns (carry: Uint)
    requires start.Valid() && start.blocks.Length >= 2
    requires u < Pow2(start.shape.BlockBits()) && v < Pow2(start.shape.BlockBits())
    ensures fresh(carry) && fresh(carry.blocks) && carry.shape == start.shape && carry.Valid()
    ensures carry.Value() == (start.Value() + u * v) % start.shape.Modulus()
  {
    hide Pow2, Val, Shape.NumBlocks, Or;
    var w := start.shape.BlockBits();
    var hi, lo := MultHiLo(u, v, w);
    var temp := new Uint.FromInteger(start.shape, hi, w);
    temp.ShiftBlocksLeft(1);
    ghost var t := temp.blocks[..];
    ShiftedHigh(start.shape, t, hi, lo);
    temp.blocks[0] := Or(temp.blocks[0], lo);
    assert temp.blocks[..] == t[0 := lo];
    carry := Add(start, temp);
    AddCongruent(start.Value(), start.Value(), u * v, temp.Value(), start.shape.Modulus());
  }

  lemma ColumnStart(x: seq<nat>, y: seq<nat>, i: nat)
    requires i < |x| == |y|
    ensures Column(x, y, i, 0) == 0
  {
  }

  lemma ColumnNext(x: seq<nat>, y: seq<nat>, i: nat, j: nat, start: nat, c: nat, c': nat, m: nat)
    requires j <= i < |x| == |y| && m > 0
    requires c == (start + Column(x, y, i, j)) % m && c' == (c + x[j] * y[i - j]) % m
    ensures c' == (start + Column(x, y, i, j + 1)) % m
  {
    var t := x[j] * y[i - j];
    ModTwice(start + Column(x, y, i, j), m);
    AddCongruent(start + Column(x, y, i, j), c, t, t, m);
  }

  lemma ModTwice(a: int, m: int)
    requires m > 0
    ensures (a % m) % m == a % m
  {
    ModSmall(a % m, m);
  }

  /** Operands may be replaced by congruent ones under an addition. */
  lemma AddCongruent(a: int, a': int, b: int, b': int, m: int)
    requires m > 0 && a' % m == a % m && b' % m == b % m
    ensures (a' + b') % m == (a + b) % m
  {
    var q := a' / m - a / m + (b' / m - b / m);
    assert a' == m * (a' / m) + a % m && a == m * (a / m) + a % m;
    assert b' == m * (b' / m) + b % m && b == m * (b / m) + b % m;
    assert a' + b' == a + b + m * q;
    ModEqual(a' + b', a + b, m, q);
  }

  lemma MulCongruent(p: int, a: int, a': int, m: int)
    requires m > 0 && a' % m == a % m
    ensures (p * a') % m == (p * a) % m
  {
    var q := a' / m - a / m;
    assert a' == m * (a' / m) + a % m && a == m * (a / m) + a % m;
    assert a' == a + m * q;
    assert p * a' == p * a + m * (p * q);
    ModEqual(p * a', p * a, m, p * q);
  }

  lemma LowBlock(s: seq<nat>, w: nat)
    requires |s| > 0 && Digits(s, w)
    ensures s[0] == Val(s, w) % Pow2(w * 1)
    ensures Val(s, w) == s[0] + Pow2(w) * (Val(s, w) / Pow2(w * 1))
  {
    hide Pow2, Val;
    assert w * 1 == w;
    ValSplit(s, 1, w);
    assert s[..1] == [s[0]];
    LowBlockOnly([s[0]], w);
    DivModUnique(Val(s, w), Pow2(w), Val(s[1..], w), s[0]);
  }

  lemma StartColumns(x: seq<nat>, y: seq<nat>, r: seq<nat>, w: nat)
    requires |x| == |y| && r == []
    ensures Columns(x, y, 0, w) == 0 && Val(r, w) == 0 && Pow2(w * 0) * 0 == 0
  {
  }

  lemma SingleCapacity(shape: Shape, product: nat)
    requires shape.Valid() && shape.NumBlocks() == 1
    ensures 0 <= product % Pow2(shape.BlockBits()) < Pow2(shape.BlockBits())
    ensures (product % Pow2(shape.BlockBits())) % shape.Modulus() == product % shape.Modulus()
  {
    hide Pow2, Shape.NumBlocks;
    var b := Pow2(shape.BlockBits());
    assert shape.BlockBits() * 1 == shape.BlockBits();
    CapacityDropped(shape, product % b, product / b);
    assert product == b * (product / b) + product % b;
  }

  /** The high half moved up one block leaves the lowest block free for the low half. */
  lemma ShiftedHigh(shape: Shape, s: seq<nat>, hi: nat, lo: nat)
    requires shape.Valid() && |s| == shape.NumBlocks() >= 2 && Digits(s, shape.BlockBits())
    requires hi < Pow2(shape.BlockBits()) && lo < Pow2(shape.BlockBits())
    requires Val(s, shape.BlockBits())
             == ((hi % shape.Modulus()) * Pow2(shape.BlockBits() * 1)) % shape.Modulus()
    ensures Or(s[0], lo) == lo
    ensures Digits(s[0 := lo], shape.BlockBits())
    ensures Val(s[0 := lo], shape.BlockBits()) < shape.Modulus()
    ensures Val(s[0 := lo], shape.BlockBits()) % shape.Modulus()
            == (hi * Pow2(shape.BlockBits()) + lo) % shape.Modulus()
  {
    hide Pow2, Val, Shape.NumBlocks;
    var w, m := shape.BlockBits(), shape.Modulus();
    var b, v := Pow2(w), Val(s, w);
    assert w * 1 == w;
    BlockDividesModulus(shape);
    LowBlock(s, w);
    MultipleBelow(hi % m, b, Pow2(shape.bits - w), s[0], v / b);
    ReplaceLow(s, lo, w);
    ShiftedCongruent(hi, b, v, lo, m);
  }

  lemma BlockDividesModulus(shape: Shape)
    requires shape.Valid() && shape.NumBlocks() >= 2
    ensures shape.bits >= shape.BlockBits()
    ensures shape.Modulus() == Pow2(shape.BlockBits()) * Pow2(shape.bits - shape.BlockBits())
  {
    hide Pow2, Shape.NumBlocks;
    var w := shape.BlockBits();
    NumBlocksFit(shape);
    MulMonotone(1, shape.NumBlocks() - 1, w);
    Pow2Add(w, shape.bits - w);
  }

  lemma ShiftedCongruent(hi: nat, b: nat, v: nat, lo: nat, m: nat)
    requires m > 0 && v == ((hi % m) * b) % m
    ensures (v + lo) % m == (hi * b + lo) % m
  {
    ModTwice(hi, m);
    MulCongruent(b, hi, hi % m, m);
    ModTwice((hi % m) * b, m);
    AddCongruent(hi * b, v, lo, lo, m);
  }

  /** A multiple of b reduced modulo a multiple of b is still one, and stays below with room for a digit. */
  lemma MultipleBelow(h: nat, b: nat, m': nat, low: nat, rest: nat)
    requires b > 0 && m' > 0 && low < b
    requires b * m' > 0 && low + b * rest == (h * b) % (b * m')
    ensures low == 0 && b * rest + b <= b * m'
  {
    var v, q := (h * b) % (b * m'), (h * b) / (b * m');
    RemainderMultiple(h, b, m', q, v);
    DigitOfMultiple(b, low, rest, h - m' * q);
    RoomForDigit(b, rest, m');
  }

  lemma RemainderMultiple(h: nat, b: nat, m': nat, q: int, v: int)
    requires h * b == (b * m') * q + v
    ensures v == b * (h - m' * q)
  {
  }

  lemma DigitOfMultiple(b: nat, low: nat, rest: nat, e: int)
    requires low < b && low + b * rest == b * e
    ensures low == 0
  {
    DivModUnique(b * e, b, e, 0);
    DivModUnique(b * e, b, rest, low);
  }

  lemma RoomForDigit(b: nat, rest: nat, m': nat)
    requires b * rest < b * m'
    ensures b * rest + b <= b * m'
  {
    if rest >= m' { MulMonotone(m', rest, b); }
    MulMonotone(rest + 1, m', b);
  }

  lemma ReplaceLow(s: seq<nat>, lo: nat, w: nat)
    requires |s| > 0
    ensures Val(s[0 := lo], w) + s[0] == Val(s, w) + lo
  {
    hide Pow2, Val;
    var t := s[0 := lo];
    ValSplit(s, 1, w);
    ValSplit(t, 1, w);
    assert s[..1] == [s[0]] && t[..1] == [lo] && t[1..] == s[1..];
    LowBlockOnly([s[0]], w);
    LowBlockOnly([lo], w);
  }

  lemma ColumnDone(x: seq<nat>, y: seq<nat>, r: seq<nat>, i: nat, w: nat, m: nat,
                   c: nat, c1: nat, c2: nat)
    requires i < |x| == |y| == |r| && m > 0
    requires (Val(r[..i], w) + Pow2(w * i) * c) % m == Columns(x, y, i, w) % m
    requires c1 == (c + Column(x, y, i, i + 1)) % m
    requires c1 == r[i] + Pow2(w) * c2
    ensures (Val(r[..i + 1], w) + Pow2(w * (i + 1)) * c2) % m == Columns(x, y, i + 1, w) % m
  {
    hide Pow2, Val, Column;
    var p, b, v, t := Pow2(w * i), Pow2(w), Val(r[..i], w), Column(x, y, i, i + 1);
    ValPrefix(r, i, w);
    NextWeight(w, i);
    ModTwice(c + t, m);
    MulCongruent(p, c + t, c1, m);
    AddCongruent(p * (c + t), p * c1, v, v, m);
    AddCongruent(Columns(x, y, i, w), v + p * c, p * t, p * t, m);
    ColumnAlgebra(v, p, b, r[i], c, c1, c2, t);
  }

  lemma ColumnAlgebra(v: nat, p: nat, b: nat, d: nat, c: nat, c1: nat, c2: nat, t: nat)
    requires c1 == d + b * c2
    ensures v + p * d + (p * b) * c2 == p * c1 + v
    ensures v + p * c + p * t == p * (c + t) + v
  {
  }

  /** The product is the columns kept plus what is dropped, at the weight of the whole capacity; so it is the
      columns kept, modulo 2^N. */
  lemma ColumnsAreProduct(shape: Shape, x: seq<nat>, y: seq<nat>)
    requires shape.Valid() && |x| == |y| == shape.NumBlocks()
    ensures Val(x, shape.BlockBits()) * Val(y, shape.BlockBits())
            == Columns(x, y, |x|, shape.BlockBits())
               + Pow2(shape.BlockBits() * |x|) * Dropped(x, y, |x|, shape.BlockBits())
    ensures Columns(x, y, |x|, shape.BlockBits()) % shape.Modulus()
            == (Val(x, shape.BlockBits()) * Val(y, shape.BlockBits())) % shape.Modulus()
  {
    hide Pow2, Val, Shape.NumBlocks, Columns, Dropped;
    var w, n := shape.BlockBits(), |x|;
    ColumnsAreTriangle(x, y, n, w);
    TriangleIsProduct(x, y, n, w);
    assert x[..n] == x;
    CapacityDropped(shape, Columns(x, y, n, w), Dropped(x, y, n, w));
  }

  /** The products of blocks that no column contains, in units of the capacity: block t of x times the high t
      blocks of y. */
  function Dropped(x: seq<nat>, y: seq<nat>, rows: nat, w: nat): nat
    requires rows <= |x| == |y|
  {
    if rows == 0 then 0
    else Dropped(x, y, rows - 1, w) + x[rows - 1] * Val(y[|y| - (rows - 1)..], w)
  }

  /** The same columns summed by rows: block t of x times the low i - t blocks of y. */
  function Triangle(x: seq<nat>, y: seq<nat>, i: nat, rows: nat, w: nat): nat
    requires rows <= i <= |x| == |y|
  {
    if rows == 0 then 0
    else Triangle(x, y, i, rows - 1, w)
         + Pow2(w * (rows - 1)) * (x[rows - 1] * Val(y[..i - (rows - 1)], w))
  }

  lemma {:induction false} ColumnsAreTriangle(x: seq<nat>, y: seq<nat>, i: nat, w: nat)
    requires i <= |x| == |y|
    ensures Columns(x, y, i, w) == Triangle(x, y, i, i, w)
  {
    hide Pow2, Val;
    if i > 0 {
      ColumnsAreTriangle(x, y, i - 1, w);
      WidenTriangle(x, y, i - 1, i - 1, w);
      assert y[..1] == [y[0]];
      LowBlockOnly([y[0]], w);
      Distributed(Pow2(w * (i - 1)), Column(x, y, i - 1, i - 1), x[i - 1] * y[0]);
    }
  }

  lemma Distributed(p: nat, a: nat, b: nat)
    ensures p * (a + b) == p * a + p * b
  {
  }

  /** One more block of y in every row adds one column. */
  lemma {:induction false} WidenTriangle(x: seq<nat>, y: seq<nat>, i: nat, rows: nat, w: nat)
    requires rows <= i < |x| == |y|
    ensures Triangle(x, y, i + 1, rows, w)
            == Triangle(x, y, i, rows, w) + Pow2(w * i) * Column(x, y, i, rows)
  {
    hide Pow2, Val;
    if rows > 0 {
      var t := rows - 1;
      WidenTriangle(x, y, i, t, w);
      ValPrefix(y, i - t, w);
      WeightAdd(w, t, i - t);
      RowAlgebra(Pow2(w * t), Pow2(w * (i - t)), x[t], Val(y[..i - t], w), y[i - t],
                 Column(x, y, i, t));
    } else {
      assert Pow2(w * i) * 0 == 0;
    }
  }

  lemma RowAlgebra(p: nat, q: nat, d: nat, v: nat, e: nat, column: nat)
    ensures p * (d * (v + q * e)) + (p * q) * column
            == p * (d * v) + (p * q) * (column + d * e)
  {
    assert d * (v + q * e) == d * v + q * (d * e);
    assert p * (q * (d * e)) == (p * q) * (d * e);
  }

  lemma {:induction false} TriangleIsProduct(x: seq<nat>, y: seq<nat>, rows: nat, w: nat)
    requires rows <= |x| == |y|
    ensures Val(x[..rows], w) * Val(y, w)
            == Triangle(x, y, |x|, rows, w) + Pow2(w * |x|) * Dropped(x, y, rows, w)
  {
    hide Pow2, Val;
    if rows == 0 {
      ZeroProduct(x[..0], w, Val(y, w), Pow2(w * |x|));
    } else {
      var t, n := rows - 1, |x|;
      var d := Dropped(x, y, t, w);
      TriangleIsProduct(x, y, t, w);
      ValPrefix(x, t, w);
      ValSplit(y, n - t, w);
      WeightAdd(w, t, n - t);
      RowProduct(Val(x[..t], w), Pow2(w * t), x[t], Val(y[..n - t], w), Pow2(w * (n - t)),
                 Val(y[n - t..], w), Triangle(x, y, n, t, w), d);
    }
  }

  lemma ZeroProduct(x: seq<nat>, w: nat, v: nat, p: nat)
    requires x == []
    ensures Val(x, w) * v == 0 && p * 0 == 0
  {
  }

  lemma RowProduct(vx: nat, p: nat, d: nat, low: nat, q: nat, high: nat, tri: nat, dropped: nat)
    requires vx * (low + q * high) == tri + (p * q) * dropped
    ensures (vx + p * d) * (low + q * high)
            == tri + p * (d * low) + (p * q) * (dropped + d * high)
  {
    calc {
      (vx + p * d) * (low + q * high);
      vx * (low + q * high) + p * (d * (low + q * high));
      { assert d * (low + q * high) == d * low + q * (d * high); }
      tri + (p * q) * dropped + p * (d * low) + p * (q * (d * high));
      { MulAssoc(p, q, d * high); }
      tri + (p * q) * dropped + p * (d * low) + (p * q) * (d * high);
      { Distributed(p * q, dropped, d * high); }
      tri + p * (d * low) + (p * q) * (dropped + d * high);
    }
  }
}
