/** Numbers as sequences of blocks: s[i] is the digit of weight Pow2(w * i). */
module Blocks {
  import opened Powers
  import opened BitOps

  predicate Digits(s: seq<nat>, w: nat) {
    forall i :: 0 <= i < |s| ==> s[i] < Pow2(w)
  }

  function Val(s: seq<nat>, w: nat): nat {
    if |s| == 0 then 0
    else Val(s[..|s| - 1], w) + Pow2(w * (|s| - 1)) * s[|s| - 1]
  }

  lemma ValSnoc(s: seq<nat>, b: nat, w: nat)
    ensures Val(s + [b], w) == Val(s, w) + Pow2(w * |s|) * b
  {
    assert (s + [b])[..|s|] == s;
  }

  lemma ValPrefix(s: seq<nat>, i: nat, w: nat)
    requires i < |s|
    ensures Val(s[..i + 1], w) == Val(s[..i], w) + Pow2(w * i) * s[i]
  {
    assert s[..i + 1] == s[..i] + [s[i]];
    ValSnoc(s[..i], s[i], w);
  }

  lemma {:induction false} ValBound(s: seq<nat>, w: nat)
    requires Digits(s, w)
    ensures Val(s, w) < Pow2(w * |s|)
  {
    if |s| > 0 {
      var k := |s| - 1;
      ValBound(s[..k], w);
      TopDigit(Pow2(w * k), s[k], Pow2(w));
      NextWeight(w, k);
    }
  }

  lemma NextWeight(w: nat, k: nat)
    ensures Pow2(w * (k + 1)) == Pow2(w * k) * Pow2(w)
  {
    assert w * (k + 1) == w * k + w;
    Pow2Add(w * k, w);
  }

  lemma WeightAdd(w: nat, i: nat, k: nat)
    ensures Pow2(w * (i + k)) == Pow2(w * i) * Pow2(w * k)
  {
    assert w * (i + k) == w * i + w * k;
    Pow2Add(w * i, w * k);
  }

  lemma TopDigit(p: nat, d: nat, b: nat)
    requires d < b
    ensures p + p * d <= p * b
  {
    MulMonotone(d + 1, b, p);
  }

  lemma {:induction false} ValConcat(a: seq<nat>, b: seq<nat>, w: nat)
    ensures Val(a + b, w) == Val(a, w) + Pow2(w * |a|) * Val(b, w)
    decreases |b|
  {
    hide Pow2;
    if |b| == 0 {
      assert a + b == a;
    } else {
      var k := |b| - 1;
      assert a + b == (a + b[..k]) + [b[k]];
      ValSnoc(a + b[..k], b[k], w);
      ValConcat(a, b[..k], w);
      WeightAdd(w, |a|, k);
      Distribute(Pow2(w * |a|), Val(b[..k], w), Pow2(w * k), b[k]);
    }
  }

  lemma Distribute(p: nat, v: nat, q: nat, d: nat)
    ensures p * (v + q * d) == p * v + (p * q) * d
  {
  }

  lemma {:induction false} ValZeros(s: seq<nat>, w: nat)
    requires forall i :: 0 <= i < |s| ==> s[i] == 0
    ensures Val(s, w) == 0
  {
    if |s| > 0 {
      ValZeros(s[..|s| - 1], w);
    }
  }

  /** Two block sequences of one length with one value are equal. */
  lemma {:induction false} ValUnique(a: seq<nat>, b: seq<nat>, w: nat)
    requires |a| == |b| && Digits(a, w) && Digits(b, w)
    requires Val(a, w) == Val(b, w)
    ensures a == b
  {
    if |a| > 0 {
      var k := |a| - 1;
      ValBound(a[..k], w);
      ValBound(b[..k], w);
      SplitUnique(Pow2(w * k), Val(a[..k], w), a[k], Val(b[..k], w), b[k]);
      ValUnique(a[..k], b[..k], w);
      assert a == a[..k] + [a[k]] && b == b[..k] + [b[k]];
    }
  }

  lemma SplitUnique(p: nat, l: nat, h: nat, l': nat, h': nat)
    requires l < p && l' < p && l + p * h == l' + p * h'
    ensures l == l' && h == h'
  {
    var n := l + p * h;
    DivModUnique(n, p, h, l);
    DivModUnique(n, p, h', l');
  }

  /** Comparing the first differing block from the top compares the values. */
  lemma ValOrder(a: seq<nat>, b: seq<nat>, i: nat, w: nat)
    requires i < |a| == |b| && Digits(a, w) && Digits(b, w)
    requires a[i + 1..] == b[i + 1..] && a[i] < b[i]
    ensures Val(a, w) < Val(b, w)
  {
    hide Pow2, Val;
    SplitAt(a, i, w);
    SplitAt(b, i, w);
    ValBound(a[..i], w);
    TopDigit(Pow2(w * i), a[i], b[i]);
  }

  lemma SplitAt(a: seq<nat>, i: nat, w: nat)
    requires i < |a|
    ensures Val(a, w) == Val(a[..i], w) + Pow2(w * i) * a[i] + Pow2(w * (i + 1)) * Val(a[i + 1..], w)
  {
    assert a == a[..i + 1] + a[i + 1..];
    ValConcat(a[..i + 1], a[i + 1..], w);
    ValPrefix(a, i, w);
  }

  lemma {:induction false} ValAnd(a: seq<nat>, b: seq<nat>, c: seq<nat>, w: nat)
    requires |a| == |b| == |c| && Digits(a, w) && Digits(b, w)
    requires forall i :: 0 <= i < |a| ==> c[i] == And(a[i], b[i])
    ensures Val(c, w) == And(Val(a, w), Val(b, w))
  {
    hide BitOps.And;
    ZeroZero();
    if |a| > 0 {
      var k := |a| - 1;
      ValBound(a[..k], w);
      ValBound(b[..k], w);
      ValAnd(a[..k], b[..k], c[..k], w);
      AndSplit(Val(a[..k], w), a[k], Val(b[..k], w), b[k], w * k);
    }
  }

  lemma {:induction false} ValOr(a: seq<nat>, b: seq<nat>, c: seq<nat>, w: nat)
    requires |a| == |b| == |c| && Digits(a, w) && Digits(b, w)
    requires forall i :: 0 <= i < |a| ==> c[i] == Or(a[i], b[i])
    ensures Val(c, w) == Or(Val(a, w), Val(b, w))
  {
    hide BitOps.Or;
    ZeroZero();
    if |a| > 0 {
      var k := |a| - 1;
      ValBound(a[..k], w);
      ValBound(b[..k], w);
      ValOr(a[..k], b[..k], c[..k], w);
      OrSplit(Val(a[..k], w), a[k], Val(b[..k], w), b[k], w * k);
    }
  }
}
