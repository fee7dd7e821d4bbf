/** Powers of two and the few facts about quotients and remainders the machine
    arithmetic below rests on.  All numbers are mathematical integers; a machine
    word of width w is a number in [0, Pow2(w)). */
module Powers {

  function Pow2(e: nat): (p: nat)
    ensures p >= 1
  {
    if e == 0 then 1 else 2 * Pow2(e - 1)
  }

  lemma {:induction false} Pow2Add(a: nat, b: nat)
    ensures Pow2(a + b) == Pow2(a) * Pow2(b)
  {
    if a > 0 {
      Pow2Add(a - 1, b);
      assert Pow2(a + b) == 2 * Pow2(a - 1 + b);
    }
  }

  lemma {:induction false} Pow2Monotone(a: nat, b: nat)
    requires a <= b
    ensures Pow2(a) <= Pow2(b)
    ensures a < b ==> 2 * Pow2(a) <= Pow2(b)
  {
    if a < b {
      Pow2Monotone(a, b - 1);
    }
  }

  /** A quotient and remainder are determined by the division equation. */
  lemma DivModUnique(n: int, d: int, q: int, r: int)
    requires 0 < d && 0 <= r < d && n == q * d + r
    ensures n / d == q && n % d == r
  {
    var q', r' := n / d, n % d;
    assert n == q' * d + r';
    assert (q - q') * d == r' - r;
    if q - q' >= 1 {
      MulMonotone(1, q - q', d);
    } else if q - q' <= -1 {
      MulMonotone(q - q', -1, d);
    }
  }

  lemma MulMonotone(a: int, b: int, c: int)
    requires a <= b && 0 <= c
    ensures a * c <= b * c
  {
  }

  lemma DivNonNegative(a: nat, b: nat)
    requires b > 0
    ensures 0 <= a / b
  {
    var q, r := a / b, a % b;
    assert a == b * q + r;
    if q < 0 { MulMonotone(q, -1, b); }
  }

  lemma DivAtMost(v: nat, d: nat)
    requires d > 0
    ensures 0 <= v / d <= v
  {
    DivNonNegative(v, d);
    MulMonotone(1, d, v / d);
    assert v == d * (v / d) + v % d;
  }

  lemma ModAddMultiple(a: int, m: int, q: int)
    requires 0 < m
    ensures (a + m * q) % m == a % m
  {
    var k, r := a / m, a % m;
    assert a == k * m + r;
    assert a + m * q == (k + q) * m + r;
    DivModUnique(a + m * q, m, k + q, r);
  }

  /** Congruence from an explicit witness. */
  lemma ModEqual(a: int, b: int, m: int, q: int)
    requires 0 < m && a == b + m * q
    ensures a % m == b % m
  {
    ModAddMultiple(b, m, q);
  }

  lemma ModSmall(a: int, m: int)
    requires 0 <= a < m
    ensures a % m == a && a / m == 0
  {
    DivModUnique(a, m, 0, a);
  }

  lemma DivDiv(n: nat, a: nat, b: nat)
    requires a > 0 && b > 0
    ensures a * b > 0
    ensures n / (a * b) == n / a / b
  {
    var q, r := n / a, n % a;
    var q', r' := q / b, q % b;
    NestedDivision(n, a, b, q, r, q', r');
    DivModUnique(n, a * b, q', r' * a + r);
  }

  lemma NestedDivision(n: nat, a: nat, b: nat, q: nat, r: nat, q': nat, r': nat)
    requires n == q * a + r && r < a
    requires q == q' * b + r' && r' < b
    ensures n == q' * (a * b) + (r' * a + r)
    ensures 0 <= r' * a + r < a * b
  {
    MulMonotone(r' + 1, b, a);
  }

  /** n / Pow2(k) is twice n / Pow2(k + 1) plus bit k of n. */
  lemma HalveShift(n: nat, k: nat)
    ensures n / Pow2(k) == 2 * (n / Pow2(k + 1)) + (n / Pow2(k)) % 2
  {
    DivDiv(n, Pow2(k), 2);
  }

  /** Quotients by 2^j of numbers below 2^(k + j) are below 2^k. */
  lemma DivBound(n: nat, j: nat, k: nat)
    requires n < Pow2(k + j)
    ensures n / Pow2(j) < Pow2(k)
  {
    Pow2Add(k, j);
    var q, r := n / Pow2(j), n % Pow2(j);
    assert n == q * Pow2(j) + r;
    if q >= Pow2(k) {
      MulMonotone(Pow2(k), q, Pow2(j));
    }
  }
}
