/** Sizes of the 32- and 64-bit machine words. */
module Words {
  import opened Powers

  const HALF: nat := 0x1_0000_0000
  const WORD: nat := 0x1_0000_0000_0000_0000

  lemma WordSize()
    ensures Pow2(32) == HALF && Pow2(64) == WORD
  {
    hide Pow2;
    Byte();
    Square(8, 0x100);
    Square(16, 0x1_0000);
    Square(32, HALF);
  }

  lemma Byte()
    ensures Pow2(8) == 0x100
  {
  }

  lemma Square(e: nat, v: nat)
    requires Pow2(e) == v
    ensures Pow2(2 * e) == v * v
  {
    Pow2Add(e, e);
  }
}
