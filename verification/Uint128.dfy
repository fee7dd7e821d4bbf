/** The 128-bit unsigned integers made of two 64-bit words. */
module Uint128 {
  import opened Powers
  import B = BitOps
  import opened Words
  import opened WordShift
  import opened LongDivision
  import opened Numerals
  import opened Printing

  const MODULUS: nat := WORD * WORD

  datatype Uint128 = Uint128(upper: nat, lower: nat) {
    predicate Valid() { upper < WORD && lower < WORD }

    function Value(): nat { upper * WORD + lower }
  }

  const ZERO := Uint128(0, 0)

  /** Conversion from an unsigned integer of at most 64 bits. */
  function From(v: nat): (r: Uint128)
    requires v < WORD
    ensures r.Valid() && r.Value() == v
  {
    Uint128(0, v)
  }

  lemma AndWords(x: Uint128, y: Uint128)
    requires x.Valid() && y.Valid()
    ensures B.And(x.upper, y.upper) < WORD && B.And(x.lower, y.lower) < WORD
    ensures B.And(x.Value(), y.Value()) == B.And(x.upper, y.upper) * WORD + B.And(x.lower, y.lower)
  {
    hide B.And, Pow2;
    B.ZeroZero();
    WordSize();
    B.AndSplit(x.lower, x.upper, y.lower, y.upper, 64);
    B.AndSplit(x.upper, 0, y.upper, 0, 64);
  }

  lemma OrWords(x: Uint128, y: Uint128)
    requires x.Valid() && y.Valid()
    ensures B.Or(x.upper, y.upper) < WORD && B.Or(x.lower, y.lower) < WORD
    ensures B.Or(x.Value(), y.Value()) == B.Or(x.upper, y.upper) * WORD + B.Or(x.lower, y.lower)
  {
    hide B.Or, Pow2;
    B.ZeroZero();
    WordSize();
    B.OrSplit(x.lower, x.upper, y.lower, y.upper, 64);
    B.OrSplit(x.upper, 0, y.upper, 0, 64);
  }

  lemma XorWords(x: Uint128, y: Uint128)
    requires x.Valid() && y.Valid()
    ensures B.Xor(x.upper, y.upper) < WORD && B.Xor(x.lower, y.lower) < WORD
    ensures B.Xor(x.Value(), y.Value()) == B.Xor(x.upper, y.upper) * WORD + B.Xor(x.lower, y.lower)
  {
    hide B.Xor, Pow2;
    B.ZeroZero();
    WordSize();
    B.XorSplit(x.lower, x.upper, y.lower, y.upper, 64);
    B.XorSplit(x.upper, 0, y.upper, 0, 64);
  }

  function And(x: Uint128, y: Uint128): (r: Uint128)
    requires x.Valid() && y.Valid()
    ensures r.Valid() && r.Value() == B.And(x.Value(), y.Value())
  {
    AndWords(x, y);
    Uint128(B.And(x.upper, y.upper), B.And(x.lower, y.lower))
  }

  function Or(x: Uint128, y: Uint128): (r: Uint128)
    requires x.Valid() && y.Valid()
    ensures r.Valid() && r.Value() == B.Or(x.Value(), y.Value())
  {
    OrWords(x, y);
    Uint128(B.Or(x.upper, y.upper), B.Or(x.lower, y.lower))
  }

  function Xor(x: Uint128, y: Uint128): (r: Uint128)
    requires x.Valid() && y.Valid()
    ensures r.Valid() && r.Value() == B.Xor(x.Value(), y.Value())
  {
    XorWords(x, y);
    Uint128(B.Xor(x.upper, y.upper), B.Xor(x.lower, y.lower))
  }

  /** Word operations wrap modulo 2^64; the carry is recovered from the wrapped sum. */
  function Add(x: Uint128, y: Uint128): (r: Uint128)
    requires x.Valid() && y.Valid()
    ensures r.Valid() && r.Value() == (x.Value() + y.Value()) % MODULUS
  {
    var upper := (x.upper + y.upper) % WORD;
    var lower := (x.lower + y.lower) % WORD;
    var overflow := if lower < x.lower then 1 else 0;
    AddWraps(x, y, lower, overflow);
    Uint128((upper + overflow) % WORD, lower)
  }

  function Sub(x: Uint128, y: Uint128): (r: Uint128)
    requires x.Valid() && y.Valid()
    ensures r.Valid() && r.Value() == (x.Value() - y.Value()) % MODULUS
  {
    var upper := (x.upper - y.upper) % WORD;
    var lower := (x.lower - y.lower) % WORD;
    var overflow := if lower > x.lower then 1 else 0;
    SubWraps(x, y, lower, overflow);
    Uint128((upper - overflow) % WORD, lower)
  }

  function Negate(x: Uint128): (r: Uint128)
    requires x.Valid()
    ensures r.Valid() && r.Value() == (0 - x.Value()) % MODULUS
  {
    NegateWraps(x);
    Uint128((0 - x.upper - (if x.lower > 0 then 1 else 0)) % WORD, (0 - x.lower) % WORD)
  }

  /** Shifts of one 64-bit word. */
  function Shl(d: nat, s: nat): nat { Stay(d, s, 64) }

  function Shr(d: nat, s: nat): nat
    requires s <= 64
  {
    Move(d, 64 - s, 64)
  }

  function ShiftLeft(x: Uint128, shift: nat): (r: Uint128)
    requires x.Valid() && shift < 128
    ensures r.Valid() && r.Value() == (x.Value() * Pow2(shift)) % MODULUS
  {
    if shift == 0 then UnitShift(x); x
    else if shift < 64 then
      LeftSmall(x, shift);
      Uint128(B.Or(Shl(x.upper, shift), Shr(x.lower, 64 - shift)), Shl(x.lower, shift))
    else
      LeftLarge(x, shift);
      Uint128(Shl(x.lower, shift - 64), 0)
  }

  function ShiftRight(x: Uint128, shift: nat): (r: Uint128)
    requires x.Valid() && shift < 128
    ensures r.Valid() && r.Value() == x.Value() / Pow2(shift)
  {
    if shift == 0 then UnitShift(x); x
    else if shift < 64 then
      RightSmall(x, shift);
      Uint128(Shr(x.upper, shift), B.Or(Shr(x.lower, shift), Shl(x.upper, 64 - shift)))
    else
      RightLarge(x, shift);
      Uint128(0, Shr(x.upper, shift - 64))
  }

  predicate Less(x: Uint128, y: Uint128)
    requires x.Valid() && y.Valid()
    ensures Less(x, y) <==> x.Value() < y.Value()
  {
    x.upper < y.upper || (x.upper == y.upper && x.lower < y.lower)
  }

  lemma EqualValues(x: Uint128, y: Uint128)
    requires x.Valid() && y.Valid()
    ensures x == y <==> x.Value() == y.Value()
  {
  }

  lemma AddWraps(x: Uint128, y: Uint128, lower: nat, overflow: nat)
    requires x.Valid() && y.Valid()
    requires lower == (x.lower + y.lower) % WORD && overflow == if lower < x.lower then 1 else 0
    ensures var upper := ((x.upper + y.upper) % WORD + overflow) % WORD;
            upper * WORD + lower == (x.Value() + y.Value()) % MODULUS
  {
    var c := if x.lower + y.lower >= WORD then 1 else 0;
    assert lower == x.lower + y.lower - c * WORD;
    var s := x.upper + y.upper + c;
    var upper := ((x.upper + y.upper) % WORD + overflow) % WORD;
    assert upper == s % WORD;
    DivModUnique(x.Value() + y.Value(), MODULUS, s / WORD, upper * WORD + lower);
  }

  lemma SubWraps(x: Uint128, y: Uint128, lower: nat, overflow: nat)
    requires x.Valid() && y.Valid()
    requires lower == (x.lower - y.lower) % WORD && overflow == if lower > x.lower then 1 else 0
    ensures var upper := ((x.upper - y.upper) % WORD - overflow) % WORD;
            upper * WORD + lower == (x.Value() - y.Value()) % MODULUS
  {
    var c := if x.lower < y.lower then 1 else 0;
    assert lower == x.lower - y.lower + c * WORD;
    var s := x.upper - y.upper - c;
    var upper := ((x.upper - y.upper) % WORD - overflow) % WORD;
    assert upper == s % WORD;
    DivModUnique(x.Value() - y.Value(), MODULUS, s / WORD, upper * WORD + lower);
  }

  lemma NegateWraps(x: Uint128)
    requires x.Valid()
    ensures var upper := (0 - x.upper - (if x.lower > 0 then 1 else 0)) % WORD;
            upper * WORD + (0 - x.lower) % WORD == (0 - x.Value()) % MODULUS
  {
    var c := if x.lower > 0 then 1 else 0;
    var s := 0 - x.upper - c;
    assert (0 - x.lower) % WORD == c * WORD - x.lower;
    DivModUnique(0 - x.Value(), MODULUS, s / WORD, (s % WORD) * WORD + (c * WORD - x.lower));
  }

  lemma UnitShift(x: Uint128)
    requires x.Valid()
    ensures (x.Value() * Pow2(0)) % MODULUS == x.Value() == x.Value() / Pow2(0)
  {
    ModSmall(x.Value(), MODULUS);
  }

  lemma LeftSmall(x: Uint128, s: nat)
    requires x.Valid() && 0 < s < 64
    ensures var r := Uint128(B.Or(Shl(x.upper, s), Shr(x.lower, 64 - s)), Shl(x.lower, s));
            r.Valid() && r.Value() == (x.Value() * Pow2(s)) % MODULUS
  {
    hide Pow2, B.Or, Stay, Move;
    WordSize();
    ShiftedBlock(x.upper, x.lower, s, 64);
    ShiftedParts(x.upper, s, 64);
    ShiftedParts(x.lower, s, 64);
    StayBelow(x.lower, s, 64);
    var up, low := Stay(x.upper, s, 64) + Move(x.lower, s, 64), Stay(x.lower, s, 64);
    Spread(x.upper, x.lower, Pow2(s));
    DivModUnique(x.Value() * Pow2(s), MODULUS, Move(x.upper, s, 64), up * WORD + low);
  }

  lemma Spread(u: nat, l: nat, q: nat)
    ensures (u * WORD + l) * q == (u * q) * WORD + l * q
  {
  }

  lemma LeftLarge(x: Uint128, s: nat)
    requires x.Valid() && 64 <= s < 128
    ensures var r := Uint128(Shl(x.lower, s - 64), 0);
            r.Valid() && r.Value() == (x.Value() * Pow2(s)) % MODULUS
  {
    hide Pow2;
    WordSize();
    Pow2Add(s - 64, 64);
    var q := Pow2(s - 64);
    var n := x.lower * q;
    WordTimes(x.upper, x.lower, q);
    DivModUnique(x.Value() * Pow2(s), MODULUS, x.upper * q + n / WORD, (n % WORD) * WORD);
  }

  lemma WordTimes(u: nat, l: nat, q: nat)
    ensures (u * WORD + l) * (q * WORD) == (u * q) * MODULUS + (l * q) * WORD
  {
    Spread(u, l, q);
    assert (u * WORD + l) * (q * WORD) == ((u * WORD + l) * q) * WORD;
  }

  lemma RightSmall(x: Uint128, s: nat)
    requires x.Valid() && 0 < s < 64
    ensures var r := Uint128(Shr(x.upper, s), B.Or(Shr(x.lower, s), Shl(x.upper, 64 - s)));
            r.Valid() && r.Value() == x.Value() / Pow2(s)
  {
    hide Pow2, B.Or, Stay, Move;
    WordSize();
    var q, stay := Pow2(s), Stay(x.upper, 64 - s, 64);
    RightBlock(x.lower, x.upper, s, 64);
    RightBlock(x.upper, 0, s, 64);
    Gather(x.upper, x.lower, q, stay);
    DivModUnique(x.Value(), q, (x.upper / q) * WORD + x.lower / q + stay, x.lower % q);
  }

  lemma Gather(u: nat, l: nat, q: nat, stay: nat)
    requires q > 0 && q * stay == WORD * (u % q)
    ensures u * WORD + l == ((u / q) * WORD + l / q + stay) * q + l % q
  {
    var a, b := u / q, l / q;
    assert u == a * q + u % q && l == b * q + l % q;
    assert (a * WORD + b + stay) * q == (a * q) * WORD + b * q + q * stay;
  }

  lemma RightLarge(x: Uint128, s: nat)
    requires x.Valid() && 64 <= s < 128
    ensures var r := Uint128(0, Shr(x.upper, s - 64));
            r.Valid() && r.Value() == x.Value() / Pow2(s)
  {
    hide Pow2;
    WordSize();
    Pow2Add(64, s - 64);
    DivModUnique(x.Value(), WORD, x.upper, x.lower);
    DivDiv(x.Value(), WORD, Pow2(s - 64));
    DivAtMost(x.upper, Pow2(s - 64));
  }

  /** School-book product of four 32-bit limbs; products beyond 2^128 are never formed. */
  method Mul(x: Uint128, y: Uint128) returns (r: Uint128)
    requires x.Valid() && y.Valid()
    ensures r.Valid() && r.Value() == (x.Value() * y.Value()) % MODULUS
  {
    hide IsColumnSums, ColumnValue, Limbs;
    var xs := Limbs(x);
    var ys := Limbs(y);
    var muls := Products(xs, ys);
    var vals := SumColumns(muls);
    r := SumOfColumns(vals[0], vals[1], vals[2], vals[3]);
    SumOfColumnsValue(vals[0], vals[1], vals[2], vals[3]);
    ColumnsAreProduct(x, y, vals);
  }

  /** The ten products of limbs that are formed, each in a 64-bit word. */
  function Products(xs: seq<nat>, ys: seq<nat>): (muls: seq<nat>)
    requires |xs| == |ys| == 4
    requires (forall k :: 0 <= k < 4 ==> xs[k] < HALF) && (forall k :: 0 <= k < 4 ==> ys[k] < HALF)
    ensures |muls| == 10 && forall k :: 0 <= k < 10 ==> muls[k] < WORD
    ensures muls == [xs[0] * ys[3], xs[1] * ys[2], xs[1] * ys[3], xs[2] * ys[1], xs[2] * ys[2],
                     xs[2] * ys[3], xs[3] * ys[0], xs[3] * ys[1], xs[3] * ys[2], xs[3] * ys[3]]
  {
    [LimbProduct(xs[0], ys[3]), LimbProduct(xs[1], ys[2]), LimbProduct(xs[1], ys[3]), LimbProduct(xs[2], ys[1]),
     LimbProduct(xs[2], ys[2]), LimbProduct(xs[2], ys[3]), LimbProduct(xs[3], ys[0]), LimbProduct(xs[3], ys[1]),
     LimbProduct(xs[3], ys[2]), LimbProduct(xs[3], ys[3])]
  }

  /** The columns are the whole product but for a multiple of 2^128. */
  lemma ColumnsAreProduct(x: Uint128, y: Uint128, vals: seq<nat>)
    requires x.Valid() && y.Valid() && |vals| == 4 && IsColumnSums(Products(Limbs(x), Limbs(y)), vals)
    ensures x.Value() * y.Value() == ColumnValue(vals[0], vals[1], vals[2], vals[3]) + Excess(x, y) * MODULUS
    ensures ColumnValue(vals[0], vals[1], vals[2], vals[3]) % MODULUS == (x.Value() * y.Value()) % MODULUS
  {
    hide IsColumnSums, ColumnValue, Limbs, Beyond, Products, Uint128.Value;
    var xs, ys := Limbs(x), Limbs(y);
    ProductOfLimbs(x, y, xs, ys);
    DroppedParts(xs, ys, Products(xs, ys), vals);
    ModEqual(x.Value() * y.Value(), ColumnValue(vals[0], vals[1], vals[2], vals[3]), MODULUS, Excess(x, y));
  }

  /** Most significant limb first. */
  function Limbs(x: Uint128): (s: seq<nat>)
    requires x.Valid()
    ensures |s| == 4 && forall k :: 0 <= k < 4 ==> s[k] < HALF
    ensures x.Value() == s[0] * (HALF * WORD) + s[1] * WORD + s[2] * HALF + s[3]
  {
    [x.upper / HALF, x.upper % HALF, x.lower / HALF, x.lower % HALF]
  }

  function ColumnValue(v0: nat, v1: nat, v2: nat, v3: nat): nat {
    v0 + v1 * HALF + v2 * WORD + v3 * (HALF * WORD)
  }

  /** The products of weight 2^128 and above, in units of 2^128. */
  function Beyond(xs: seq<nat>, ys: seq<nat>): nat
    requires |xs| == |ys| == 4
  {
    xs[0] * ys[2] + xs[1] * ys[1] + xs[2] * ys[0]
    + HALF * (xs[0] * ys[1] + xs[1] * ys[0]) + WORD * (xs[0] * ys[0])
  }

  /** What the columns leave out, in units of 2^128: the products never formed, and the high halves of those in
      the last column. */
  function Excess(x: Uint128, y: Uint128): nat
    requires x.Valid() && y.Valid()
  {
    HighHalves(Products(Limbs(x), Limbs(y))) + Beyond(Limbs(x), Limbs(y))
  }

  function HighHalves(muls: seq<nat>): nat
    requires |muls| == 10
  {
    muls[0] / HALF + muls[1] / HALF + muls[3] / HALF + muls[6] / HALF
  }

  function LimbProduct(a: nat, b: nat): (p: nat)
    requires a < HALF && b < HALF
    ensures p == a * b < WORD
  {
    MulMonotone(a, HALF - 1, b);
    MulMonotone(b, HALF - 1, HALF - 1);
    ModSmall(a * b, WORD);
    (a * b) % WORD
  }

  lemma ProductOfLimbs(x: Uint128, y: Uint128, xs: seq<nat>, ys: seq<nat>)
    requires x.Valid() && y.Valid() && xs == Limbs(x) && ys == Limbs(y)
    ensures x.Value() * y.Value()
            == xs[3] * ys[3]
               + (xs[2] * ys[3] + xs[3] * ys[2]) * HALF
               + (xs[1] * ys[3] + xs[2] * ys[2] + xs[3] * ys[1]) * WORD
               + (xs[0] * ys[3] + xs[1] * ys[2] + xs[2] * ys[1] + xs[3] * ys[0]) * (HALF * WORD)
               + Beyond(xs, ys) * MODULUS
  {
    var v := y.Value();
    assert x.Value() * v
           == (xs[0] * v) * (HALF * WORD) + (xs[1] * v) * WORD + (xs[2] * v) * HALF + xs[3] * v by {
      Expand(xs[0], xs[1], xs[2], xs[3], v);
    }
    forall k | 0 <= k < 4
      ensures xs[k] * v == (xs[k] * ys[0]) * (HALF * WORD) + (xs[k] * ys[1]) * WORD
                           + (xs[k] * ys[2]) * HALF + xs[k] * ys[3]
    {
      Expand(ys[0], ys[1], ys[2], ys[3], xs[k]);
    }
  }

  lemma Expand(a: nat, b: nat, c: nat, d: nat, v: nat)
    ensures (a * (HALF * WORD) + b * WORD + c * HALF + d) * v
            == (a * v) * (HALF * WORD) + (b * v) * WORD + (c * v) * HALF + d * v
    ensures v * (a * (HALF * WORD) + b * WORD + c * HALF + d)
            == (v * a) * (HALF * WORD) + (v * b) * WORD + (v * c) * HALF + v * d
  {
  }

  /** The column sums account for all products below 2^128; the rest are its multiples. */
  lemma DroppedParts(xs: seq<nat>, ys: seq<nat>, muls: seq<nat>, vals: seq<nat>)
    requires |xs| == |ys| == |vals| == 4 && |muls| == 10
    requires muls == [xs[0] * ys[3], xs[1] * ys[2], xs[1] * ys[3], xs[2] * ys[1], xs[2] * ys[2],
                      xs[2] * ys[3], xs[3] * ys[0], xs[3] * ys[1], xs[3] * ys[2], xs[3] * ys[3]]
    requires IsColumnSums(muls, vals)
    ensures muls[9] + (muls[5] + muls[8]) * HALF + (muls[2] + muls[4] + muls[7]) * WORD
            + (muls[0] + muls[1] + muls[3] + muls[6]) * (HALF * WORD)
            == ColumnValue(vals[0], vals[1], vals[2], vals[3])
               + HighHalves(muls) * MODULUS
  {
  }

  predicate IsColumnSums(muls: seq<nat>, vals: seq<nat>)
    requires |muls| == 10 && |vals| == 4
  {
    && vals[0] == muls[9] % HALF
    && vals[1] == muls[5] % HALF + muls[9] / HALF + muls[8] % HALF
    && vals[2] == muls[2] % HALF + muls[5] / HALF + muls[4] % HALF + muls[8] / HALF + muls[7] % HALF
    && vals[3] == muls[0] % HALF + muls[2] / HALF + muls[1] % HALF + muls[4] / HALF
                  + muls[3] % HALF + muls[7] / HALF + muls[6] % HALF
  }

  /** Adds the column sums at their weights. */
  function SumOfColumns(v0: nat, v1: nat, v2: nat, v3: nat): (r: Uint128)
    requires v0 < 7 * HALF && v1 < 7 * HALF && v2 < 7 * HALF && v3 < 7 * HALF
  {
    ColumnWords(v0, v1, v2, v3);
    Add(Add(Add(Uint128(0, v0), Uint128(v1 / HALF, (v1 * HALF) % WORD)), Uint128(v2, 0)),
        Uint128((v3 * HALF) % WORD, 0))
  }

  lemma SumOfColumnsValue(v0: nat, v1: nat, v2: nat, v3: nat)
    requires v0 < 7 * HALF && v1 < 7 * HALF && v2 < 7 * HALF && v3 < 7 * HALF
    ensures SumOfColumns(v0, v1, v2, v3).Valid()
    ensures SumOfColumns(v0, v1, v2, v3).Value() == ColumnValue(v0, v1, v2, v3) % MODULUS
  {
    hide Add, ColumnValue;
    ColumnWords(v0, v1, v2, v3);
  }

  lemma ColumnWords(v0: nat, v1: nat, v2: nat, v3: nat)
    requires v0 < 7 * HALF && v1 < 7 * HALF && v2 < 7 * HALF && v3 < 7 * HALF
    ensures 0 <= v1 / HALF < WORD && v0 < WORD && v2 < WORD
    ensures var low := v0 + v1 * HALF + v2 * WORD;
            && (v0 + ((v1 / HALF) * WORD + (v1 * HALF) % WORD)) % MODULUS == v0 + v1 * HALF
            && (v0 + v1 * HALF + v2 * WORD) % MODULUS == low
            && (low + ((v3 * HALF) % WORD) * WORD) % MODULUS == ColumnValue(v0, v1, v2, v3) % MODULUS
  {
    SmallColumns(v0, v1, v2);
    TopColumn(v0 + v1 * HALF + v2 * WORD, v3);
  }

  lemma SmallColumns(v0: nat, v1: nat, v2: nat)
    requires v0 < 7 * HALF && v1 < 7 * HALF && v2 < 7 * HALF
    ensures (v1 / HALF) * WORD + (v1 * HALF) % WORD == v1 * HALF
    ensures (v0 + v1 * HALF) % MODULUS == v0 + v1 * HALF
    ensures (v0 + v1 * HALF + v2 * WORD) % MODULUS == v0 + v1 * HALF + v2 * WORD
  {
    DivModUnique(v1 * HALF, WORD, v1 / HALF, (v1 % HALF) * HALF);
    ModSmall(v0 + v1 * HALF, MODULUS);
    ModSmall(v0 + v1 * HALF + v2 * WORD, MODULUS);
  }

  lemma TopColumn(low: nat, v3: nat)
    ensures (low + ((v3 * HALF) % WORD) * WORD) % MODULUS == (low + v3 * (HALF * WORD)) % MODULUS
  {
    var n := v3 * HALF;
    assert n == (n / WORD) * WORD + n % WORD;
    ModEqual(low + v3 * (HALF * WORD), low + (n % WORD) * WORD, MODULUS, n / WORD);
  }

  /** The four column sums, each the low and high halves of the products under one weight. */
  method SumColumns(muls: seq<nat>) returns (vals: seq<nat>)
    requires |muls| == 10 && forall k :: 0 <= k < 10 ==> muls[k] < WORD
    ensures |vals| == 4 && forall k :: 0 <= k < 4 ==> vals[k] < 7 * HALF
    ensures IsColumnSums(muls, vals)
  {
    hide AddWord;
    forall k | 0 <= k < 10
      ensures muls[k] / HALF < HALF
    {
    }
    var v := new nat[4](_ => 0);
    v[0] := AddWord(v[0], muls[9] % HALF);
    v[1] := AddWord(v[1], muls[5] % HALF + muls[9] / HALF);
    v[2] := AddWord(v[2], muls[2] % HALF + muls[5] / HALF);
    v[3] := AddWord(v[3], muls[0] % HALF + muls[2] / HALF);
    v[1] := AddWord(v[1], muls[8] % HALF);
    v[2] := AddWord(v[2], muls[4] % HALF + muls[8] / HALF);
    v[3] := AddWord(v[3], muls[1] % HALF + muls[4] / HALF);
    v[2] := AddWord(v[2], muls[7] % HALF);
    v[3] := AddWord(v[3], muls[3] % HALF + muls[7] / HALF);
    v[3] := AddWord(v[3], muls[6] % HALF);
    vals := v[..];
  }

  function AddWord(a: nat, b: nat): (r: nat)
    ensures a + b < WORD ==> r == a + b
  {
    (a + b) % WORD
  }

  datatype DivResult = DivisionByZero | Divided(quotient: Uint128, reminder: Uint128)

  method DivMod(x: Uint128, y: Uint128) returns (result: DivResult)
    requires x.Valid() && y.Valid()
    ensures result.DivisionByZero? <==> y.Value() == 0
    ensures result.Divided? ==>
      && result.quotient.Valid() && result.reminder.Valid()
      && x.Value() == result.quotient.Value() * y.Value() + result.reminder.Value()
      && result.reminder.Value() < y.Value()
  {
    hide Pow2, B.Or, B.And;
    WordSize();
    DoubleWord();
    if y == ZERO {
      return DivisionByZero;
    }
    var quotient, reminder := ZERO, ZERO;
    var bit := Uint128(Pow2(63), 0);
    ghost var k: nat, q: nat := 128, 0;
    TopStart(x.Value(), 128);
    while bit != ZERO
      invariant k <= 128
      invariant quotient.Valid() && reminder.Valid() && bit.Valid()
      invariant bit.Value() == BitWeight(k) && (bit == ZERO <==> k == 0)
      invariant quotient.Value() == q * Pow2(k)
      invariant x.Value() / Pow2(k) == q * y.Value() + reminder.Value()
      invariant reminder.Value() < y.Value()
      decreases k
    {
      quotient, reminder, q := DivideBit(x, y, bit, quotient, reminder, k, q);
      NextWeightDown(k);
      bit := ShiftRight(bit, 1);
      k := k - 1;
    }
    WholeQuotient(x.Value(), q);
    return Divided(quotient, reminder);
  }

  lemma DoubleWord()
    ensures Pow2(128) == MODULUS && Pow2(63) < WORD && Pow2(127) == Pow2(63) * WORD
  {
    hide Pow2;
    WordSize();
    Pow2Add(64, 64);
    Pow2Add(63, 64);
    Pow2Monotone(63, 64);
  }

  method DivideBit(x: Uint128, y: Uint128, bit: Uint128, quotient: Uint128, reminder: Uint128,
                   ghost k: nat, ghost q: nat)
    returns (quotient': Uint128, reminder': Uint128, ghost q': nat)
    requires x.Valid() && y.Valid() && bit.Valid() && quotient.Valid() && reminder.Valid()
    requires 1 <= k <= 128 && bit.Value() == Pow2(k - 1)
    requires quotient.Value() == q * Pow2(k)
    requires x.Value() / Pow2(k) == q * y.Value() + reminder.Value() && reminder.Value() < y.Value()
    ensures quotient'.Valid() && reminder'.Valid()
    ensures quotient'.Value() == q' * Pow2(k - 1)
    ensures x.Value() / Pow2(k - 1) == q' * y.Value() + reminder'.Value()
    ensures reminder'.Value() < y.Value()
  {
    hide Pow2, B.Or, B.And, B.Bit;
    DoubleWord();
    ghost var r := reminder.Value();
    RemainderSmall(x.Value(), k, 128, q, y.Value(), r);
    reminder' := BringDown(x, reminder, bit, k);
    quotient' := quotient;
    DivStep(x.Value(), y.Value(), k, q, r);
    QuotientBit(quotient.Value(), q, k);
    q' := 2 * q;
    if !Less(reminder', y) {
      ModSmall(reminder'.Value() - y.Value(), MODULUS);
      reminder' := Sub(reminder', y);
      quotient' := Or(quotient, bit);
      q' := 2 * q + 1;
    }
  }

  method BringDown(x: Uint128, reminder: Uint128, bit: Uint128, ghost k: nat) returns (next: Uint128)
    requires x.Valid() && reminder.Valid() && bit.Valid()
    requires 1 <= k <= 128 && bit.Value() == Pow2(k - 1)
    requires 2 * reminder.Value() + 1 < MODULUS
    ensures next.Valid()
    ensures next.Value() == 2 * reminder.Value() + (if B.Bit(x.Value(), k - 1) then 1 else 0)
  {
    hide Pow2, B.Or, B.And, B.Bit;
    next := ShiftLeft(reminder, 1);
    TwiceSmall(reminder.Value(), MODULUS);
    B.AndBit(x.Value(), k - 1);
    if And(x, bit) != ZERO {
      EvenLower(next, reminder.Value());
      next := Uint128(next.upper, B.Or(next.lower, 1));
    }
  }

  lemma EvenLower(x: Uint128, half: nat)
    requires x.Valid() && x.Value() == 2 * half
    ensures B.Or(x.lower, 1) == x.lower + 1 < WORD
  {
    B.OrOne(x.lower, WORD / 2);
  }

  /** The text written to the stream, through a buffer of 64 characters. */
  method Print(x: Uint128, flags: Flags) returns (text: string)
    requires x.Valid()
    ensures x.Value() == 0 ==> text == "0"
    ensures x.Value() > 0 && flags.showpos ==>
      |text| > 0 && text[0] == '+' && IsNumeral(text[1..], x.Value(), flags.Base(), flags.uppercase)
    ensures x.Value() > 0 && !flags.showpos ==>
      IsNumeral(text, x.Value(), flags.Base(), flags.uppercase)
    ensures |text| <= 64
    ensures Written(text, x.Value(), if flags.oct then 8 else if flags.hex then 16 else 10,
                    if flags.uppercase then "0123456789ABCDEF" else "0123456789abcdef",
                    flags.showpos && x.Value() > 0)
  {
    hide Pow2, Parse, Pow, IsNumeral, Written;
    if x == ZERO {
      ZeroWritten(if flags.oct then 8 else if flags.hex then 16 else 10, flags.uppercase);
      return "0";
    }
    var buff := new char[64];
    var i := DivideOut(x, flags, buff);
    ghost var numeral := buff[i..];
    NumeralWritten(numeral, x.Value(), flags.Base(), flags.uppercase);
    if flags.showpos {
      i := i - 1;
      buff[i] := '+';
      assert buff[i..][1..] == numeral && buff[i..] == ['+'] + numeral;
    }
    text := buff[i..];
  }

  /** The loop that divides by the base until nothing is left; there stays room for a sign. */
  method DivideOut(x: Uint128, flags: Flags, buff: array<char>) returns (i: nat)
    requires x.Valid() && x.Value() > 0 && buff.Length == 64
    modifies buff
    ensures 1 <= i < 64
    ensures IsNumeral(buff[i..], x.Value(), flags.Base(), flags.uppercase)
  {
    hide Pow2, Parse, Pow, IsNumeral, DigitsOk, Flags.Base;
    DoubleWord();
    var base := flags.Base();
    var table := Table(flags.uppercase);
    i := 64;
    var rest := x;
    PrintStart(x.Value(), 128, buff[64..], flags);
    while Less(ZERO, rest)
      invariant 0 <= i <= 64 && rest.Valid()
      invariant Emitted(x.Value(), rest.Value(), buff[i..], 128, flags)
      invariant rest.Value() == 0 ==> 1 <= i < 64 && buff[i] != '0'
      decreases rest.Value()
    {
      hide Emitted;
      ghost var s, v := buff[i..], rest.Value();
      RoomLeft(x.Value(), v, s, 128, flags);
      var divided := DivMod(rest, From(base));
      i := i - 1;
      buff[i] := table[divided.reminder.lower];
      assert buff[i..] == [table[divided.reminder.lower]] + s;
      rest := divided.quotient;
      DigitStep(x.Value(), v, rest.Value(), divided.reminder.Value(), s, 128, flags);
    }
    WholeNumeral(buff[i..], x.Value(), 128, flags);
  }
}
