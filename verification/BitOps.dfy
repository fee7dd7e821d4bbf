/** Bitwise operators of unsigned machine words, on natural numbers of any size. */
module BitOps {
  import opened Powers

  function And(a: nat, b: nat): nat {
    if a == 0 || b == 0 then 0
    else 2 * And(a / 2, b / 2) + (if a % 2 + b % 2 == 2 then 1 else 0)
  }

  function Or(a: nat, b: nat): nat {
    if a == 0 then b
    else if b == 0 then a
    else 2 * Or(a / 2, b / 2) + (if a % 2 + b % 2 == 0 then 0 else 1)
  }

  function Xor(a: nat, b: nat): nat {
    if a == 0 then b
    else if b == 0 then a
    else 2 * Xor(a / 2, b / 2) + (a % 2 + b % 2) % 2
  }

  /** Bit k of a. */
  function Bit(a: nat, k: nat): bool {
    (a / Pow2(k)) % 2 == 1
  }

  lemma AndZero(a: nat)
    ensures And(a, 0) == 0 && Or(a, 0) == a && Xor(a, 0) == a
  {
  }

  lemma ZeroZero()
    ensures And(0, 0) == 0 && Or(0, 0) == 0 && Xor(0, 0) == 0
  {
  }

  lemma AndHalf(a: nat, b: nat)
    ensures And(a, b) == 2 * And(a / 2, b / 2) + (if a % 2 + b % 2 == 2 then 1 else 0)
  {
  }

  lemma OrHalf(a: nat, b: nat)
    ensures Or(a, b) == 2 * Or(a / 2, b / 2) + (if a % 2 + b % 2 == 0 then 0 else 1)
  {
  }

  lemma XorHalf(a: nat, b: nat)
    ensures Xor(a, b) == 2 * Xor(a / 2, b / 2) + (a % 2 + b % 2) % 2
  {
  }

  /** Masking with k low ones keeps the k low bits. */
  lemma {:induction false} AndMask(a: nat, k: nat)
    ensures And(a, Pow2(k) - 1) == a % Pow2(k)
  {
    hide And;
    if k == 0 {
      AndZero(a);
    } else {
      var p := Pow2(k - 1);
      AndHalf(a, 2 * p - 1);
      AndMask(a / 2, k - 1);
      HalfMask(p);
      MaskStep(a, p, And(a, 2 * p - 1));
    }
  }

  lemma MaskStep(a: nat, p: nat, r: nat)
    requires p > 0 && r == 2 * ((a / 2) % p) + (if a % 2 + 1 == 2 then 1 else 0)
    ensures r == a % (2 * p)
  {
    ModDouble(a, p);
  }

  lemma HalfMask(p: nat)
    requires p > 0
    ensures (2 * p - 1) / 2 == p - 1 && (2 * p - 1) % 2 == 1
  {
  }

  lemma ModDouble(a: nat, p: nat)
    requires p > 0
    ensures a % (2 * p) == 2 * ((a / 2) % p) + a % 2
  {
    var q, r := (a / 2) / p, (a / 2) % p;
    assert a / 2 == q * p + r;
    DivModUnique(a, 2 * p, q, 2 * r + a % 2);
  }

  /** Masking with a single one tests that bit. */
  lemma {:induction false} AndBit(a: nat, k: nat)
    ensures And(a, Pow2(k)) == if Bit(a, k) then Pow2(k) else 0
  {
    AndHalf(a, Pow2(k));
    if k == 0 {
      assert And(a / 2, 0) == 0;
      assert a / 1 == a;
    } else {
      AndBit(a / 2, k - 1);
      DivDiv(a, 2, Pow2(k - 1));
      assert Pow2(k) / 2 == Pow2(k - 1) && Pow2(k) % 2 == 0;
    }
  }

  /** Or of numbers with disjoint low and high parts is their sum. */
  lemma {:induction false} OrDisjoint(h: nat, l: nat, k: nat)
    requires l < Pow2(k)
    ensures Or(h * Pow2(k), l) == h * Pow2(k) + l
    decreases k
  {
    if k == 0 {
      assert Pow2(0) == 1;
    } else {
      var p := Pow2(k - 1);
      var a := h * Pow2(k);
      assert a == 2 * (h * p);
      assert a / 2 == h * p && a % 2 == 0;
      OrDisjoint(h, l / 2, k - 1);
      OrHalf(a, l);
    }
  }

  lemma {:induction false} OrCommutes(a: nat, b: nat)
    ensures Or(a, b) == Or(b, a)
  {
    if a > 0 && b > 0 {
      OrCommutes(a / 2, b / 2);
    }
  }

  /** The operators work on the low and high parts separately. */
  lemma {:induction false} AndSplit(al: nat, ah: nat, bl: nat, bh: nat, k: nat)
    requires al < Pow2(k) && bl < Pow2(k)
    ensures And(al + Pow2(k) * ah, bl + Pow2(k) * bh) == And(al, bl) + Pow2(k) * And(ah, bh)
    ensures And(al, bl) < Pow2(k)
    decreases k
  {
    hide And;
    ZeroZero();
    if k > 0 {
      var p := Pow2(k - 1);
      var a, b := al + Pow2(k) * ah, bl + Pow2(k) * bh;
      HalfSum(al, ah, p);
      HalfSum(bl, bh, p);
      AndHalf(a, b);
      AndHalf(al, bl);
      AndSplit(al / 2, ah, bl / 2, bh, k - 1);
      Double(p, And(ah, bh));
    }
  }

  lemma {:induction false} OrSplit(al: nat, ah: nat, bl: nat, bh: nat, k: nat)
    requires al < Pow2(k) && bl < Pow2(k)
    ensures Or(al + Pow2(k) * ah, bl + Pow2(k) * bh) == Or(al, bl) + Pow2(k) * Or(ah, bh)
    ensures Or(al, bl) < Pow2(k)
    decreases k
  {
    hide Or;
    ZeroZero();
    if k > 0 {
      var p := Pow2(k - 1);
      var a, b := al + Pow2(k) * ah, bl + Pow2(k) * bh;
      HalfSum(al, ah, p);
      HalfSum(bl, bh, p);
      OrHalf(a, b);
      OrHalf(al, bl);
      OrSplit(al / 2, ah, bl / 2, bh, k - 1);
      Double(p, Or(ah, bh));
    }
  }

  lemma {:induction false} XorSplit(al: nat, ah: nat, bl: nat, bh: nat, k: nat)
    requires al < Pow2(k) && bl < Pow2(k)
    ensures Xor(al + Pow2(k) * ah, bl + Pow2(k) * bh) == Xor(al, bl) + Pow2(k) * Xor(ah, bh)
    ensures Xor(al, bl) < Pow2(k)
    decreases k
  {
    hide Xor;
    ZeroZero();
    if k > 0 {
      var p := Pow2(k - 1);
      var a, b := al + Pow2(k) * ah, bl + Pow2(k) * bh;
      HalfSum(al, ah, p);
      HalfSum(bl, bh, p);
      XorHalf(a, b);
      XorHalf(al, bl);
      XorSplit(al / 2, ah, bl / 2, bh, k - 1);
      Double(p, Xor(ah, bh));
    }
  }

  lemma HalfSum(l: nat, h: nat, p: nat)
    ensures (l + 2 * p * h) / 2 == l / 2 + p * h
    ensures (l + 2 * p * h) % 2 == l % 2
  {
    assert 2 * p * h == 2 * (p * h);
  }

  lemma Double(p: nat, x: nat)
    ensures 2 * (p * x) == (2 * p) * x
  {
  }

  lemma OrOne(d: nat, p: nat)
    requires d % 2 == 0 && d < 2 * p
    ensures Or(d, 1) == d + 1 < 2 * p
  {
    OrDisjoint(d / 2, 1, 1);
    assert Pow2(1) == 2;
  }
}
