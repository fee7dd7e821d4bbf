/** Static layout of the fixed-width integers: how N bits are spread over blocks,
    and what clearing the unused bits of the last block does to the value. */
module UintShape {
  import opened Powers
  import opened BitOps
  import opened Blocks

  /** The template parameters: number of bits and bytes per block. */
  datatype Shape = Shape(bits: nat, blockBytes: nat) {

    predicate Valid() { bits >= 1 && blockBytes >= 1 }

    function BlockBits(): (w: nat) { 8 * blockBytes }

    function NumBytes(): nat { (bits + 7) / 8 }

    function NumBlocks(): nat
      requires Valid()
    {
      (NumBytes() + blockBytes - 1) / blockBytes
    }

    /** All ones shifted right by the number of unused bits. */
    function LastBlockMask(): nat
      requires Valid()
    {
      NumBlocksFit(this);
      (Pow2(BlockBits()) - 1) / Pow2(BlockBits() * NumBlocks() - bits)
    }

    function Modulus(): nat { Pow2(bits) }

    /** Number of useful bits in the last block. */
    function TopBits(): nat
      requires Valid()
    {
      NumBlocksFit(this);
      bits - BlockBits() * (NumBlocks() - 1)
    }
  }

  lemma CeilDiv(n: nat, d: nat)
    requires n >= 1 && d >= 1
    ensures var q := (n + d - 1) / d; q >= 1 && d * (q - 1) < n <= d * q
  {
    var q, r := (n + d - 1) / d, (n + d - 1) % d;
    assert n + d - 1 == d * q + r;
    if q <= 0 { MulMonotone(q, 0, d); }
  }

  lemma NumBlocksFit(s: Shape)
    requires s.Valid()
    ensures s.NumBlocks() >= 1
    ensures s.BlockBits() * (s.NumBlocks() - 1) < s.bits <= s.BlockBits() * s.NumBlocks()
    ensures s.BlockBits() * s.NumBlocks() - s.bits < s.BlockBits()
  {
    CeilDiv(s.NumBytes(), s.blockBytes);
    var nb := s.NumBlocks();
    var p := s.blockBytes * (nb - 1);
    assert s.BlockBits() * (nb - 1) == 8 * p;
    assert s.blockBytes * nb == p + s.blockBytes;
    assert s.BlockBits() * nb == 8 * (p + s.blockBytes);
  }

  /** The mask keeps exactly the useful bits of the last block. */
  lemma MaskIsLowOnes(s: Shape)
    requires s.Valid()
    ensures s.TopBits() >= 1
    ensures s.LastBlockMask() == Pow2(s.TopBits()) - 1
  {
    hide Pow2, Shape.NumBlocks, Shape.BlockBits;
    NumBlocksFit(s);
    var w, nb := s.BlockBits(), s.NumBlocks();
    var spare := w * nb - s.bits;
    assert w * nb == w * (nb - 1) + w;
    Pow2Add(s.TopBits(), spare);
    OnesShifted(Pow2(s.TopBits()), Pow2(spare));
  }

  lemma OnesShifted(t: nat, p: nat)
    requires t >= 1 && p >= 1
    ensures (t * p - 1) / p == t - 1
  {
    assert t * p - 1 == (t - 1) * p + (p - 1);
    DivModUnique(t * p - 1, p, t - 1, p - 1);
  }

  /** The full capacity of the blocks is a multiple of the modulus. */
  lemma CapacityIsMultiple(s: Shape)
    requires s.Valid()
    ensures s.BlockBits() * s.NumBlocks() >= s.bits
    ensures Pow2(s.BlockBits() * s.NumBlocks())
            == s.Modulus() * Pow2(s.BlockBits() * s.NumBlocks() - s.bits)
  {
    NumBlocksFit(s);
    Pow2Add(s.bits, s.BlockBits() * s.NumBlocks() - s.bits);
  }

  /** Masking the last block reduces the value modulo 2^N. */
  lemma MaskReduces(s: Shape, a: seq<nat>)
    requires s.Valid() && |a| == s.NumBlocks() && Digits(a, s.BlockBits())
    ensures |a| >= 1
    ensures var b := a[|a| - 1 := And(a[|a| - 1], s.LastBlockMask())];
            Digits(b, s.BlockBits())
            && Val(b, s.BlockBits()) == Val(a, s.BlockBits()) % s.Modulus()
  {
    hide And, Pow2, Val, Shape.NumBlocks, Shape.LastBlockMask, Shape.BlockBits;
    NumBlocksFit(s);
    MaskIsLowOnes(s);
    var w, k, m := s.BlockBits(), |a| - 1, s.TopBits();
    AndMask(a[k], m);
    var b := a[k := And(a[k], s.LastBlockMask())];
    ModAtMost(a[k], Pow2(m));
    TopBlock(a, w);
    TopBlock(b, w);
    assert b[..k] == a[..k];
    ValBound(a[..k], w);
    Pow2Add(w * k, m);
    TopRemainder(Val(a[..k], w), Pow2(w * k), a[k], Pow2(m));
  }

  lemma TopBlock(a: seq<nat>, w: nat)
    requires |a| > 0
    ensures Val(a, w) == Val(a[..|a| - 1], w) + Pow2(w * (|a| - 1)) * a[|a| - 1]
  {
  }

  lemma ModAtMost(a: nat, m: nat)
    requires m > 0
    ensures 0 <= a % m <= a
  {
    if a < m { ModSmall(a, m); }
  }

  lemma TopRemainder(l: nat, p: nat, h: nat, t: nat)
    requires l < p && t >= 1
    ensures p * t > 0
    ensures (l + p * h) % (p * t) == l + p * (h % t)
  {
    var q, r := h / t, h % t;
    assert h == q * t + r;
    MulMonotone(r + 1, t, p);
    assert p * h == q * (p * t) + p * r by { assert p * (q * t) == q * (p * t); }
    DivModUnique(l + p * h, p * t, q, l + p * r);
  }
}
