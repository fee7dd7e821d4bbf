/** What the bitwise operators do to each bit. */
module BitFacts {
  import opened Powers
  import opened BitOps

  /** ~a in a word of w bits. */
  function Not(a: nat, w: nat): int { Pow2(w) - 1 - a }

  lemma BitZero(a: nat)
    ensures Bit(a, 0) <==> a % 2 == 1
  {
    assert a / 1 == a;
  }

  lemma BitHalf(a: nat, k: nat)
    ensures Bit(a, k + 1) <==> Bit(a / 2, k)
  {
    DivDiv(a, 2, Pow2(k));
  }

  lemma {:induction false} BitOr(a: nat, b: nat, k: nat)
    ensures Bit(Or(a, b), k) <==> Bit(a, k) || Bit(b, k)
    decreases k
  {
    hide Bit, Or;
    OrHalf(a, b);
    OrRest(a, b);
    if k == 0 {
      BitZero(a); BitZero(b); BitZero(Or(a, b));
    } else {
      BitHalf(a, k - 1); BitHalf(b, k - 1); BitHalf(Or(a, b), k - 1);
      BitOr(a / 2, b / 2, k - 1);
    }
  }

  lemma LastBit(n: nat, h: nat, b: nat)
    requires n == 2 * h + b && b < 2
    ensures n / 2 == h && n % 2 == b
  {
  }

  lemma OrRest(a: nat, b: nat)
    ensures Or(a, b) / 2 == Or(a / 2, b / 2) && (Or(a, b) % 2 == 1 <==> a % 2 == 1 || b % 2 == 1)
  {
    hide Or;
    OrHalf(a, b);
    LastBit(Or(a, b), Or(a / 2, b / 2), (if a % 2 + b % 2 == 0 then 0 else 1));
  }

  lemma AndRest(a: nat, b: nat)
    ensures And(a, b) / 2 == And(a / 2, b / 2) && (And(a, b) % 2 == 1 <==> a % 2 == 1 && b % 2 == 1)
  {
    hide And;
    AndHalf(a, b);
    LastBit(And(a, b), And(a / 2, b / 2), (if a % 2 + b % 2 == 2 then 1 else 0));
  }

  lemma XorRest(a: nat, b: nat)
    ensures Xor(a, b) / 2 == Xor(a / 2, b / 2) && (Xor(a, b) % 2 == 1 <==> (a % 2 == 1) != (b % 2 == 1))
  {
    hide Xor;
    XorHalf(a, b);
    LastBit(Xor(a, b), Xor(a / 2, b / 2), (a % 2 + b % 2) % 2);
  }

  lemma {:induction false} BitAnd(a: nat, b: nat, k: nat)
    ensures Bit(And(a, b), k) <==> Bit(a, k) && Bit(b, k)
    decreases k
  {
    hide Bit, And;
    AndRest(a, b);
    if k == 0 {
      BitZero(a); BitZero(b); BitZero(And(a, b));
    } else {
      BitHalf(a, k - 1); BitHalf(b, k - 1); BitHalf(And(a, b), k - 1);
      BitAnd(a / 2, b / 2, k - 1);
    }
  }

  lemma {:induction false} BitXor(a: nat, b: nat, k: nat)
    ensures Bit(Xor(a, b), k) <==> Bit(a, k) != Bit(b, k)
    decreases k
  {
    hide Bit, Xor;
    XorRest(a, b);
    if k == 0 {
      BitZero(a); BitZero(b); BitZero(Xor(a, b));
    } else {
      BitHalf(a, k - 1); BitHalf(b, k - 1); BitHalf(Xor(a, b), k - 1);
      BitXor(a / 2, b / 2, k - 1);
    }
  }

  lemma {:induction false} BitNot(a: nat, w: nat, k: nat)
    requires a < Pow2(w) && k < w
    ensures 0 <= Not(a, w) < Pow2(w)
    ensures Bit(Not(a, w), k) <==> !Bit(a, k)
    decreases w
  {
    hide Bit;
    var n := Not(a, w);
    if k == 0 {
      BitZero(a); BitZero(n);
      assert Pow2(w) == 2 * Pow2(w - 1);
    } else {
      assert n / 2 == Not(a / 2, w - 1);
      BitHalf(a, k - 1); BitHalf(n, k - 1);
      BitNot(a / 2, w - 1, k - 1);
    }
  }

  lemma {:induction false} BitPow2(j: nat, k: nat)
    ensures Bit(Pow2(j), k) <==> j == k
    decreases k
  {
    hide Bit;
    if k == 0 {
      BitZero(Pow2(j));
    } else if j == 0 {
      BitHalf(1, k - 1);
      NoBits(k - 1);
    } else {
      BitHalf(Pow2(j), k - 1);
      BitPow2(j - 1, k - 1);
    }
  }

  lemma NoBits(k: nat)
    ensures !Bit(0, k)
  {
    assert 0 / Pow2(k) == 0;
  }

  /** All bits of the largest word are set. */
  lemma {:induction false} AllBits(w: nat, k: nat)
    requires k < w
    ensures Bit(Pow2(w) - 1, k)
    decreases w
  {
    hide Bit;
    var n := Pow2(w) - 1;
    if k == 0 {
      BitZero(n);
    } else {
      assert n / 2 == Pow2(w - 1) - 1;
      BitHalf(n, k - 1);
      AllBits(w - 1, k - 1);
    }
  }

  /** The low k bits are zero exactly when the remainder is. */
  lemma {:induction false} LowBits(a: nat, k: nat)
    ensures a % Pow2(k) == 0 <==> forall j | 0 <= j < k :: !Bit(a, j)
    decreases k
  {
    hide Bit;
    if k == 0 {
      assert Pow2(0) == 1;
    } else {
      LowBits(a / 2, k - 1);
      ModDouble(a, Pow2(k - 1));
      BitZero(a);
      forall j | 0 <= j < k - 1 ensures Bit(a, j + 1) <==> Bit(a / 2, j) { BitHalf(a, j); }
      if forall j | 0 <= j < k - 1 :: !Bit(a / 2, j) {
        forall j | 1 <= j < k ensures !Bit(a, j) { assert Bit(a, (j - 1) + 1) <==> Bit(a / 2, j - 1); }
      }
    }
  }

  lemma {:induction false} OrBound(a: nat, b: nat, w: nat)
    requires a < Pow2(w) && b < Pow2(w)
    ensures Or(a, b) < Pow2(w)
    decreases w
  {
    if w > 0 {
      OrHalf(a, b);
      OrBound(a / 2, b / 2, w - 1);
    }
  }

  lemma {:induction false} AndBound(a: nat, b: nat, w: nat)
    requires a < Pow2(w)
    ensures And(a, b) < Pow2(w)
    decreases w
  {
    if w > 0 {
      AndHalf(a, b);
      AndBound(a / 2, b / 2, w - 1);
    }
  }

  lemma {:induction false} XorBound(a: nat, b: nat, w: nat)
    requires a < Pow2(w) && b < Pow2(w)
    ensures Xor(a, b) < Pow2(w)
    decreases w
  {
    if w > 0 {
      XorHalf(a, b);
      XorBound(a / 2, b / 2, w - 1);
    }
  }

  /** Setting one bit of a word. */
  lemma SetBit(a: nat, i: nat, w: nat)
    requires a < Pow2(w) && i < w
    ensures Or(a, Pow2(i)) < Pow2(w)
    ensures forall k | 0 <= k < w :: Bit(Or(a, Pow2(i)), k) <==> k == i || Bit(a, k)
  {
    hide Bit, Or, Pow2;
    Pow2Monotone(i, w);
    OrBound(a, Pow2(i), w);
    forall k | 0 <= k < w ensures Bit(Or(a, Pow2(i)), k) <==> k == i || Bit(a, k) {
      BitOr(a, Pow2(i), k);
      BitPow2(i, k);
    }
  }

  /** Clearing one bit of a word. */
  lemma ClearBit(a: nat, i: nat, w: nat)
    requires a < Pow2(w) && i < w
    ensures Pow2(i) < Pow2(w) && 0 <= Not(Pow2(i), w)
    ensures And(a, Not(Pow2(i), w)) < Pow2(w)
    ensures forall k | 0 <= k < w :: Bit(And(a, Not(Pow2(i), w)), k) <==> k != i && Bit(a, k)
  {
    hide Bit, And, Pow2, Not;
    Pow2Monotone(i, w);
    BitNot(Pow2(i), w, i);
    var m: nat := Not(Pow2(i), w);
    AndBound(a, m, w);
    forall k | 0 <= k < w ensures Bit(And(a, m), k) <==> k != i && Bit(a, k) {
      BitAnd(a, m, k);
      BitNot(Pow2(i), w, k);
      BitPow2(i, k);
    }
  }

  /** The test of equality up to bit k: the masked difference is zero exactly when the bits agree. */
  lemma MaskedEqual(a: nat, b: nat, k: nat)
    ensures And(Xor(a, b), Or(Pow2(k), Pow2(k) - 1)) == 0 <==> forall j | 0 <= j <= k :: Bit(a, j) == Bit(b, j)
  {
    hide Bit, And, Xor, Or;
    OrDisjoint(1, Pow2(k) - 1, k);
    assert Or(Pow2(k), Pow2(k) - 1) == Pow2(k + 1) - 1;
    AndMask(Xor(a, b), k + 1);
    LowBits(Xor(a, b), k + 1);
    forall j | 0 <= j <= k ensures Bit(Xor(a, b), j) <==> Bit(a, j) != Bit(b, j) { BitXor(a, b, j); }
  }

  /** Words of w bits are equal when all their bits are. */
  lemma {:induction false} SameBits(a: nat, b: nat, w: nat)
    requires a < Pow2(w) && b < Pow2(w) && forall k | 0 <= k < w :: Bit(a, k) == Bit(b, k)
    ensures a == b
    decreases w
  {
    hide Bit;
    if w > 0 {
      BitZero(a); BitZero(b);
      assert Bit(a, 0) == Bit(b, 0);
      forall k | 0 <= k < w - 1 ensures Bit(a / 2, k) == Bit(b / 2, k) {
        BitHalf(a, k); BitHalf(b, k);
        assert Bit(a, k + 1) == Bit(b, k + 1);
      }
      SameBits(a / 2, b / 2, w - 1);
    }
  }
}
