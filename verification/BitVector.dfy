/** A vector of bits kept in blocks of w bits.  The excess bits of the last block may hold anything. */
module BitVector {
  import opened Powers
  import opened BitOps
  import opened BitFacts
  import opened Blocks

  function BlockIndex(pos: nat, w: nat): (i: nat)
    requires w > 0
  {
    DivNonNegative(pos, w);
    pos / w
  }

  function BitIndex(pos: nat, w: nat): nat
    requires w > 0
  {
    pos % w
  }

  function BlockCount(bits: nat, w: nat): nat
    requires w > 0
  {
    BlockIndex(bits, w) + if BitIndex(bits, w) != 0 then 1 else 0
  }

  lemma IndexIs(q: nat, r: nat, w: nat)
    requires r < w
    ensures BlockIndex(w * q + r, w) == q && BitIndex(w * q + r, w) == r
  {
    DivModUnique(w * q + r, w, q, r);
  }

  lemma IndexParts(pos: nat, w: nat)
    requires w > 0
    ensures pos == w * BlockIndex(pos, w) + BitIndex(pos, w) && BitIndex(pos, w) < w
  {
  }

  /** One more bit starts a new block exactly when the bits filled the blocks. */
  lemma NextIndex(n: nat, w: nat)
    requires w > 0
    ensures BlockCount(n + 1, w) == BlockIndex(n, w) + 1
    ensures BlockCount(n, w) == BlockIndex(n, w) + if BitIndex(n, w) == 0 then 0 else 1
  {
    hide BlockIndex, BitIndex;
    IndexParts(n, w);
    var q, r := BlockIndex(n, w), BitIndex(n, w);
    if r + 1 < w {
      IndexIs(q, r + 1, w);
    } else {
      assert w * (q + 1) == w * q + w;
      IndexIs(q + 1, 0, w);
    }
  }

  lemma IndexOrder(i: nat, j: nat, w: nat)
    requires w > 0 && i <= j
    ensures BlockIndex(i, w) <= BlockIndex(j, w)
    ensures i < j && BlockIndex(i, w) == BlockIndex(j, w) ==> BitIndex(i, w) < BitIndex(j, w)
  {
    hide BlockIndex, BitIndex;
    IndexParts(i, w);
    IndexParts(j, w);
    assert w * (BlockIndex(j, w) + 1) == w * BlockIndex(j, w) + w;
    if BlockIndex(i, w) > BlockIndex(j, w) { MulMonotone(BlockIndex(j, w) + 1, BlockIndex(i, w), w); }
  }

  lemma IndexInside(i: nat, n: nat, w: nat)
    requires w > 0 && i < n
    ensures BlockIndex(i, w) < BlockCount(n, w)
  {
    hide BlockIndex, BitIndex;
    NextIndex(n - 1, w);
    IndexOrder(i, n - 1, w);
  }

  ghost function BitAt(blocks: seq<nat>, w: nat, i: nat): bool
    requires w > 0
  {
    BlockIndex(i, w) < |blocks| && Bit(blocks[BlockIndex(i, w)], BitIndex(i, w))
  }

  ghost function Bits(blocks: seq<nat>, w: nat, n: nat): (s: seq<bool>)
    requires w > 0
    ensures |s| == n && forall i | 0 <= i < n :: s[i] == BitAt(blocks, w, i)
  {
    seq(n, i requires 0 <= i < n => BitAt(blocks, w, i))
  }

  /** A block with one of its bits given a value, as push_back and the bit reference do. */
  function WithBit(block: nat, i: nat, val: bool, w: nat): int
    requires i < w && block < Pow2(w)
  {
    ClearBit(block, i, w);
    if val then Or(block, Pow2(i)) else And(block, Not(Pow2(i), w))
  }

  lemma WithOne(block: nat, i: nat, w: nat)
    requires i < w && block < Pow2(w)
    ensures WithBit(block, i, true, w) == Or(block, Pow2(i))
  {
  }

  lemma WithBitOk(block: nat, i: nat, val: bool, w: nat)
    requires i < w && block < Pow2(w)
    ensures 0 <= WithBit(block, i, val, w) < Pow2(w)
    ensures forall k | 0 <= k < w :: Bit(WithBit(block, i, val, w), k) == if k == i then val else Bit(block, k)
  {
    hide Bit, Or, And, Not, Pow2;
    SetBit(block, i, w);
    ClearBit(block, i, w);
  }

  /** Changing one bit in the blocks changes that bit only. */
  lemma PutBit(blocks: seq<nat>, w: nat, i: nat, val: bool)
    requires w > 0 && Digits(blocks, w) && BlockIndex(i, w) < |blocks|
    ensures BitIndex(i, w) < w && blocks[BlockIndex(i, w)] < Pow2(w)
    ensures 0 <= WithBit(blocks[BlockIndex(i, w)], BitIndex(i, w), val, w)
    ensures
      var after := blocks[BlockIndex(i, w) := WithBit(blocks[BlockIndex(i, w)], BitIndex(i, w), val, w)];
      Digits(after, w) && forall j: nat :: BitAt(after, w, j) == if j == i then val else BitAt(blocks, w, j)
  {
    hide Bit, WithBit, BlockIndex, BitIndex, Pow2;
    IndexParts(i, w);
    var b, k := BlockIndex(i, w), BitIndex(i, w);
    WithBitOk(blocks[b], k, val, w);
    var after := blocks[b := WithBit(blocks[b], k, val, w)];
    forall j: nat ensures BitAt(after, w, j) == if j == i then val else BitAt(blocks, w, j) {
      IndexParts(j, w);
      if j != i && BlockIndex(j, w) == b { assert BitIndex(j, w) != k; }
    }
  }

  class BitVec {
    const w: nat
    var blocks: seq<nat>
    var numBits: nat

    /** The number of blocks is exact; nothing is said of the excess bits. */
    ghost predicate Valid()
      reads this
    {
      w > 0 && |blocks| == BlockCount(numBits, w) && Digits(blocks, w)
    }

    ghost function Contents(): seq<bool>
      requires w > 0
      reads this
    {
      Bits(blocks, w, numBits)
    }

    constructor (w: nat)
      requires w > 0
      ensures Valid() && this.w == w && numBits == 0
    {
      this.w, blocks, numBits := w, [], 0;
    }

    method At(i: nat) returns (b: bool)
      requires Valid() && i < numBits
      ensures b == Contents()[i]
    {
      hide Bit, And, BlockIndex, BitIndex, Pow2;
      IndexInside(i, numBits, w);
      AndBit(blocks[BlockIndex(i, w)], BitIndex(i, w));
      b := And(blocks[BlockIndex(i, w)], Pow2(BitIndex(i, w))) != 0;
    }

    /** Assigning through a bit reference. */
    method AssignBit(i: nat, val: bool)
      requires Valid() && i < numBits
      modifies `blocks
      ensures Valid() && Contents() == old(Contents())[i := val]
    {
      hide Bit, WithBit, BlockIndex, BitIndex, BlockCount, BitAt, Digits, Pow2;
      IndexInside(i, numBits, w);
      PutBit(blocks, w, i, val);
      blocks := blocks[BlockIndex(i, w) := WithBit(blocks[BlockIndex(i, w)], BitIndex(i, w), val, w)];
    }

    /** flip on a bit reference. */
    method FlipBit(i: nat)
      requires Valid() && i < numBits
      modifies `blocks
      ensures Valid() && Contents() == old(Contents())[i := !old(Contents())[i]]
    {
      hide Bit, Xor, BlockIndex, BitIndex, BlockCount, Pow2;
      IndexInside(i, numBits, w);
      IndexParts(i, w);
      var b, k := BlockIndex(i, w), BitIndex(i, w);
      Pow2Monotone(k, w);
      XorBound(blocks[b], Pow2(k), w);
      blocks := blocks[b := Xor(blocks[b], Pow2(k))];
      forall j | 0 <= j < numBits
        ensures BitAt(blocks, w, j) == if j == i then !old(Contents())[i] else old(Contents())[j]
      {
        IndexParts(j, w);
        BitXor(old(blocks)[b], Pow2(k), BitIndex(j, w));
        BitPow2(k, BitIndex(j, w));
      }
    }

    method PushBack(val: bool)
      requires Valid()
      modifies this
      ensures Valid() && Contents() == old(Contents()) + [val]
    {
      hide Bit, WithBit, BlockIndex, BitIndex, BlockCount, Pow2;
      NextIndex(numBits, w);
      if BitIndex(numBits, w) == 0 { blocks := blocks + [0]; }
      var last := |blocks| - 1;
      PutBit(blocks, w, numBits, val);
      ghost var before := blocks;
      blocks := blocks[last := WithBit(blocks[last], BitIndex(numBits, w), val, w)];
      numBits := numBits + 1;
      forall i | 0 <= i < old(numBits) ensures BitAt(blocks, w, i) == BitAt(old(blocks), w, i) {
        IndexInside(i, old(numBits), w);
      }
    }

    method PopBack()
      requires Valid() && numBits > 0
      modifies this
      ensures Valid() && Contents() == old(Contents())[..old(numBits) - 1]
    {
      hide Bit, BlockIndex, BitIndex, BlockCount, Pow2;
      NextIndex(numBits - 1, w);
      numBits := numBits - 1;
      if BitIndex(numBits, w) == 0 { blocks := blocks[..|blocks| - 1]; }
      forall i | 0 <= i < numBits ensures BitAt(blocks, w, i) == BitAt(old(blocks), w, i) {
        IndexInside(i, numBits, w);
      }
    }

    /** reset: all blocks zero. */
    method Reset()
      requires Valid()
      modifies `blocks
      ensures Valid() && forall i | 0 <= i < |blocks| :: blocks[i] == 0
      ensures forall i | 0 <= i < numBits :: !Contents()[i]
    {
      hide Bit, BlockIndex, BitIndex, BlockCount, Pow2;
      blocks := seq(|blocks|, _ => 0);
      forall i | 0 <= i < numBits ensures !BitAt(blocks, w, i) { NoBits(BitIndex(i, w)); }
    }

    method SetAll()
      requires Valid()
      modifies `blocks
      ensures Valid() && forall i | 0 <= i < numBits :: Contents()[i]
    {
      hide Bit, BlockIndex, BitIndex, BlockCount, Pow2;
      blocks := seq(|blocks|, _ => Pow2(w) - 1);
      forall i | 0 <= i < numBits ensures BitAt(blocks, w, i) {
        IndexInside(i, numBits, w);
        IndexParts(i, w);
        AllBits(w, BitIndex(i, w));
      }
    }

    /** Every block is replaced by its complement. */
    method FlipAll()
      requires Valid()
      modifies `blocks
      ensures Valid() && forall i | 0 <= i < numBits :: Contents()[i] == !old(Contents())[i]
    {
      hide Bit, BlockIndex, BitIndex, BlockCount, Pow2, Not;
      for i := 0 to |blocks|
        invariant |blocks| == |old(blocks)| && Digits(blocks, w)
        invariant forall j | 0 <= j < i :: blocks[j] == Not(old(blocks)[j], w)
        invariant forall j | i <= j < |blocks| :: blocks[j] == old(blocks)[j]
      {
        BitNot(blocks[i], w, 0);
        blocks := blocks[i := Not(blocks[i], w)];
      }
      forall i | 0 <= i < numBits ensures BitAt(blocks, w, i) == !BitAt(old(blocks), w, i) {
        IndexInside(i, numBits, w);
        IndexParts(i, w);
        BitNot(old(blocks)[BlockIndex(i, w)], w, BitIndex(i, w));
      }
    }

    /** operator ^=; the other vector may be this one. */
    method XorWith(other: BitVec)
      requires Valid() && other.Valid() && other.w == w && other.numBits == numBits
      modifies `blocks
      ensures Valid()
      ensures forall i | 0 <= i < numBits :: Contents()[i] == (old(Contents())[i] != old(other.Contents())[i])
    {
      hide Bit, BlockIndex, BitIndex, BlockCount, Pow2, Xor;
      for i := 0 to |blocks|
        invariant |blocks| == |old(blocks)| && Digits(blocks, w)
        invariant |other.blocks| == |blocks|
        invariant forall j | 0 <= j < i :: blocks[j] == Xor(old(blocks)[j], old(other.blocks)[j])
        invariant forall j | i <= j < |blocks| :: blocks[j] == old(blocks)[j] && other.blocks[j] == old(other.blocks)[j]
      {
        XorBound(blocks[i], other.blocks[i], w);
        blocks := blocks[i := Xor(blocks[i], other.blocks[i])];
      }
      forall i | 0 <= i < numBits
        ensures BitAt(blocks, w, i) == (BitAt(old(blocks), w, i) != BitAt(old(other.blocks), w, i))
      {
        IndexInside(i, numBits, w);
        BitXor(old(blocks)[BlockIndex(i, w)], old(other.blocks)[BlockIndex(i, w)], BitIndex(i, w));
      }
    }

    /** Assigning a range of as many values as there are bits: a mask walks through the blocks. */
    method Assign(bits: seq<bool>)
      requires Valid() && |bits| == numBits
      modifies `blocks
      ensures Valid() && Contents() == bits
    {
      hide Bit, BlockIndex, BitIndex, BlockCount, Pow2, Or, WithBit;
      Reset();
      forall j | 0 <= j < numBits ensures !BitAt(blocks, w, j) { assert !Contents()[j]; }
      var block, mask := 0, Pow2(0);
      ghost var k: nat := 0;
      IndexIs(0, 0, w);
      for i := 0 to |bits|
        invariant Valid() && k < w && mask == Pow2(k) && block == BlockIndex(i, w) && k == BitIndex(i, w)
        invariant forall j | 0 <= j < numBits :: BitAt(blocks, w, j) == (j < i && bits[j])
      {
        IndexInside(i, numBits, w);
        if bits[i] {
          PutBit(blocks, w, i, true);
          WithOne(blocks[block], k, w);
          blocks := blocks[block := Or(blocks[block], mask)];
        }
        NextMask(i, k, w);
        mask := (mask * 2) % Pow2(w);
        if mask == 0 {
          block := block + 1;
          mask := Pow2(0);
          k := 0;
        } else {
          k := k + 1;
        }
      }
    }

    /** operator ==. */
    method Equals(other: BitVec) returns (equal: bool)
      requires Valid() && other.Valid() && other.w == w
      ensures equal <==> Contents() == other.Contents()
    {
      hide Bit, BlockIndex, BitIndex, BlockCount, Pow2, Or, Xor, And, BitAt;
      if numBits != other.numBits { return false; }
      if numBits > 0 {
        NextIndex(numBits - 1, w);
        var n := |other.blocks|;
        var i := 0;
        while i < n - 1
          invariant 0 <= i <= n - 1 && forall j | 0 <= j < i :: blocks[j] == other.blocks[j]
        {
          if blocks[i] != other.blocks[i] {
            DifferentBlock(blocks, other.blocks, w, numBits, i);
            return false;
          }
          i := i + 1;
        }
        var mask := Pow2(BitIndex(numBits - 1, w));
        mask := Or(mask, mask - 1);
        MaskedEqual(blocks[i], other.blocks[i], BitIndex(numBits - 1, w));
        LastBlock(blocks, other.blocks, w, numBits, i);
        if And(Xor(blocks[i], other.blocks[i]), mask) != 0 { return false; }
      }
      return true;
    }
  }

  /** The mask shifted out of the block, exactly at its last bit. */
  lemma NextMask(i: nat, k: nat, w: nat)
    requires w > 0 && k == BitIndex(i, w)
    ensures if k + 1 == w then (Pow2(k) * 2) % Pow2(w) == 0 else (Pow2(k) * 2) % Pow2(w) == Pow2(k + 1) > 0
    ensures BlockIndex(i + 1, w) == BlockIndex(i, w) + if k + 1 == w then 1 else 0
    ensures BitIndex(i + 1, w) == if k + 1 == w then 0 else k + 1
  {
    hide BlockIndex, BitIndex;
    IndexParts(i, w);
    var q := BlockIndex(i, w);
    if k + 1 < w {
      IndexIs(q, k + 1, w);
      Pow2Monotone(k + 1, w);
      ModSmall(Pow2(k + 1), Pow2(w));
    } else {
      assert w * (q + 1) == w * q + w;
      IndexIs(q + 1, 0, w);
      DivModUnique(Pow2(w), Pow2(w), 1, 0);
    }
  }

  /** A difference in a block before the last is a difference of the vectors. */
  lemma DifferentBlock(a: seq<nat>, b: seq<nat>, w: nat, n: nat, i: nat)
    requires w > 0 && n > 0 && |a| == |b| == BlockCount(n, w) && Digits(a, w) && Digits(b, w)
    requires i + 1 < |a| && a[i] != b[i]
    ensures Bits(a, w, n) != Bits(b, w, n)
  {
    hide Bit, BlockIndex, BitIndex, BlockCount, Pow2;
    if Bits(a, w, n) == Bits(b, w, n) {
      forall k | 0 <= k < w ensures Bit(a[i], k) == Bit(b[i], k) {
        IndexIs(i, k, w);
        BlockBefore(i, k, n, w);
        var p := w * i + k;
        assert Bits(a, w, n)[p] == BitAt(a, w, p) && Bits(b, w, n)[p] == BitAt(b, w, p);
      }
      SameBits(a[i], b[i], w);
    }
  }

  lemma BlockBefore(i: nat, k: nat, n: nat, w: nat)
    requires w > 0 && n > 0 && i + 1 < BlockCount(n, w) && k < w
    ensures w * i + k < n
  {
    hide BlockIndex, BitIndex;
    NextIndex(n - 1, w);
    IndexParts(n - 1, w);
    MulMonotone(i + 1, BlockIndex(n - 1, w), w);
    assert w * (i + 1) == w * i + w;
  }

  /** With all blocks before the last equal, the vectors are equal exactly when the used bits of the last are. */
  lemma LastBlock(a: seq<nat>, b: seq<nat>, w: nat, n: nat, q: nat)
    requires w > 0 && n > 0 && |a| == |b| == BlockCount(n, w) == q + 1
    requires forall j | 0 <= j < q :: a[j] == b[j]
    ensures Bits(a, w, n) == Bits(b, w, n) <==> forall k | 0 <= k <= BitIndex(n - 1, w) :: Bit(a[q], k) == Bit(b[q], k)
  {
    hide Bit, BlockIndex, BitIndex, BlockCount;
    NextIndex(n - 1, w);
    IndexParts(n - 1, w);
    if Bits(a, w, n) == Bits(b, w, n) {
      forall k | 0 <= k <= BitIndex(n - 1, w) ensures Bit(a[q], k) == Bit(b[q], k) {
        IndexIs(q, k, w);
        var p := w * q + k;
        assert Bits(a, w, n)[p] == BitAt(a, w, p) && Bits(b, w, n)[p] == BitAt(b, w, p);
      }
    }
    if forall k | 0 <= k <= BitIndex(n - 1, w) :: Bit(a[q], k) == Bit(b[q], k) {
      forall p | 0 <= p < n ensures BitAt(a, w, p) == BitAt(b, w, p) {
        IndexOrder(p, n - 1, w);
      }
    }
  }
}
