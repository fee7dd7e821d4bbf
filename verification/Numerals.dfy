/** Numerals, most significant digit first, and the digit tables used for printing. */
module Numerals {
  import opened Powers

  function Pow(b: nat, e: nat): nat {
    if e == 0 then 1 else b * Pow(b, e - 1)
  }

  const LOWER: string := "0123456789abcdef"
  const UPPER: string := "0123456789ABCDEF"

  function Table(upper: bool): (t: string)
    ensures |t| == 16
  {
    if upper then UPPER else LOWER
  }

  function DigitOf(c: char): nat {
    if '0' <= c <= '9' then c as nat - '0' as nat
    else if 'a' <= c <= 'f' then c as nat - 'a' as nat + 10
    else if 'A' <= c <= 'F' then c as nat - 'A' as nat + 10
    else 0
  }

  /** Reads a numeral back. */
  function Parse(s: string, base: nat): nat {
    if |s| == 0 then 0
    else Parse(s[..|s| - 1], base) * base + DigitOf(s[|s| - 1])
  }

  /** s is the numeral of v: it reads back to v, its digits are from the table, and it has no leading zero. */
  predicate IsNumeral(s: string, v: nat, base: nat, upper: bool) {
    && |s| > 0
    && Parse(s, base) == v
    && (forall k :: 0 <= k < |s| ==> s[k] in Table(upper) && DigitOf(s[k]) < base)
    && (s[0] != '0' || s == "0")
  }

  lemma TableDigit(d: nat, upper: bool)
    requires d < 16
    ensures DigitOf(Table(upper)[d]) == d
    ensures Table(upper)[d] == '0' <==> d == 0
  {
  }

  lemma {:induction false} ParsePrepend(c: char, s: string, base: nat)
    ensures Parse([c] + s, base) == DigitOf(c) * Pow(base, |s|) + Parse(s, base)
  {
    if |s| == 0 {
      assert [c] + s == [c] && [c][..0] == [];
      assert Parse([c], base) == Parse([c][..0], base) * base + DigitOf(c);
    } else {
      var k := |s| - 1;
      assert ([c] + s)[..k + 1] == [c] + s[..k];
      ParsePrepend(c, s[..k], base);
      Horner(DigitOf(c), Pow(base, k), Parse(s[..k], base), base, DigitOf(s[k]));
    }
  }

  lemma Horner(d: nat, p: nat, v: nat, base: nat, e: nat)
    ensures (d * p + v) * base + e == d * (base * p) + (v * base + e)
  {
  }

  lemma {:induction false} ParseBelow(s: string, base: nat)
    requires forall k :: 0 <= k < |s| ==> DigitOf(s[k]) < base
    ensures Parse(s, base) < Pow(base, |s|)
  {
    if |s| > 0 {
      var k := |s| - 1;
      ParseBelow(s[..k], base);
      HornerBelow(Parse(s[..k], base), Pow(base, k), base, DigitOf(s[k]));
    }
  }

  lemma HornerBelow(v: nat, p: nat, base: nat, e: nat)
    requires v < p && e < base
    ensures v * base + e < base * p
  {
    MulMonotone(v + 1, p, base);
  }

  lemma PowPositive(b: nat, e: nat)
    requires b > 0
    ensures Pow(b, e) > 0
  {
    if e > 0 { PowPositive(b, e - 1); }
  }

  /** A numeral determines its value and a value its numeral: printing loses nothing. */
  lemma {:induction false} NumeralUnique(s: string, t: string, v: nat, base: nat, upper: bool)
    requires 2 <= base <= 16 && IsNumeral(s, v, base, upper) && IsNumeral(t, v, base, upper)
    ensures s == t
  {
    SameLength(s, t, v, base, upper);
    SameDigits(s, t, base, upper);
  }

  /** Without a leading zero the length is fixed by the value. */
  lemma SameLength(s: string, t: string, v: nat, base: nat, upper: bool)
    requires 2 <= base <= 16 && IsNumeral(s, v, base, upper) && IsNumeral(t, v, base, upper)
    ensures |s| == |t|
  {
    if |s| < |t| {
      LengthBound(s, t, v, base, upper);
    } else if |t| < |s| {
      LengthBound(t, s, v, base, upper);
    }
  }

  lemma LengthBound(s: string, t: string, v: nat, base: nat, upper: bool)
    requires 2 <= base <= 16 && IsNumeral(s, v, base, upper) && IsNumeral(t, v, base, upper)
    ensures |t| <= |s|
  {
    hide Pow, Parse, Table;
    if |t| > |s| {
      ParseBelow(s, base);
      ParseAtLeast(t, v, base, upper);
      PowMonotone(base, |s|, |t| - 1);
    }
  }

  lemma ParseAtLeast(t: string, v: nat, base: nat, upper: bool)
    requires 2 <= base <= 16 && IsNumeral(t, v, base, upper) && |t| > 1
    ensures v >= Pow(base, |t| - 1)
  {
    hide Pow, Parse, Table, DigitOf;
    assert t == [t[0]] + t[1..];
    ParsePrepend(t[0], t[1..], base);
    LeadingDigit(t[0], upper);
    MulMonotone(1, DigitOf(t[0]), Pow(base, |t| - 1));
  }

  lemma LeadingDigit(c: char, upper: bool)
    requires c in Table(upper) && c != '0'
    ensures DigitOf(c) >= 1
  {
    var d :| 0 <= d < 16 && Table(upper)[d] == c;
    TableDigit(d, upper);
  }

  lemma PowMonotone(b: nat, e: nat, e': nat)
    requires b >= 1 && e <= e'
    ensures Pow(b, e) <= Pow(b, e')
    decreases e'
  {
    if e < e' {
      PowMonotone(b, e, e' - 1);
      PowPositive(b, e' - 1);
      MulMonotone(1, b, Pow(b, e' - 1));
    }
  }

  lemma {:induction false} SameDigits(s: string, t: string, base: nat, upper: bool)
    requires 2 <= base <= 16 && |s| == |t| && Parse(s, base) == Parse(t, base)
    requires forall k :: 0 <= k < |s| ==> s[k] in Table(upper) && DigitOf(s[k]) < base
    requires forall k :: 0 <= k < |t| ==> t[k] in Table(upper) && DigitOf(t[k]) < base
    ensures s == t
  {
    hide Table, DigitOf;
    if |s| > 0 {
      var k := |s| - 1;
      var n := Parse(s, base);
      DivModUnique(n, base, Parse(s[..k], base), DigitOf(s[k]));
      DivModUnique(n, base, Parse(t[..k], base), DigitOf(t[k]));
      SameDigits(s[..k], t[..k], base, upper);
      SameChar(s[k], t[k], upper);
      assert s == s[..k] + [s[k]] && t == t[..k] + [t[k]];
    }
  }

  lemma SameChar(c: char, d: char, upper: bool)
    requires c in Table(upper) && d in Table(upper) && DigitOf(c) == DigitOf(d)
    ensures c == d
  {
    var i :| 0 <= i < 16 && Table(upper)[i] == c;
    var j :| 0 <= j < 16 && Table(upper)[j] == d;
    TableDigit(i, upper);
    TableDigit(j, upper);
  }

  /** The place of a character in an alphabet of digits. */
  function Place(alphabet: string, c: char): nat {
    if alphabet == [] || alphabet[0] == c then 0 else 1 + Place(alphabet[1..], c)
  }

  /** The number that a text means in a base, with the digits of an alphabet. */
  function Meaning(s: string, base: nat, alphabet: string): nat {
    if s == [] then 0 else Meaning(s[..|s| - 1], base, alphabet) * base + Place(alphabet, s[|s| - 1])
  }

  /** The digits of a text mean v in the base, each is one of the first base digits of the alphabet, and there is
      no leading zero; a plus sign goes before them if there is to be one. */
  predicate Written(text: string, v: nat, base: nat, alphabet: string, plus: bool) {
    && |text| > (if plus then 1 else 0)
    && (plus ==> text[0] == '+')
    && var s := if plus then text[1..] else text;
       && Meaning(s, base, alphabet) == v
       && (forall k :: 0 <= k < |s| ==> s[k] in alphabet && Place(alphabet, s[k]) < base)
       && (s[0] != '0' || |s| == 1)
  }

  lemma {:induction false} PlaceAt(alphabet: string, d: nat)
    requires d < |alphabet| && forall i :: 0 <= i < d ==> alphabet[i] != alphabet[d]
    ensures Place(alphabet, alphabet[d]) == d
  {
    if d > 0 {
      assert alphabet[0] != alphabet[d];
      PlaceAt(alphabet[1..], d - 1);
    }
  }

  lemma PlaceIsDigit(c: char, upper: bool)
    requires c in Table(upper)
    ensures Place(Table(upper), c) == DigitOf(c)
  {
    var t := Table(upper);
    var d :| 0 <= d < 16 && t[d] == c;
    TableDigit(d, upper);
    forall i | 0 <= i < d ensures t[i] != t[d] { TableDigit(i, upper); }
    PlaceAt(t, d);
  }

  lemma {:induction false} MeaningIsParse(s: string, base: nat, upper: bool)
    requires forall k :: 0 <= k < |s| ==> s[k] in Table(upper)
    ensures Meaning(s, base, Table(upper)) == Parse(s, base)
  {
    hide Table, DigitOf, Place;
    if s != [] {
      MeaningIsParse(s[..|s| - 1], base, upper);
      PlaceIsDigit(s[|s| - 1], upper);
    }
  }

  /** A numeral is written with the digits of its table. */
  lemma NumeralWritten(s: string, v: nat, base: nat, upper: bool)
    requires IsNumeral(s, v, base, upper)
    ensures Written(s, v, base, if upper then "0123456789ABCDEF" else "0123456789abcdef", false)
    ensures Written(['+'] + s, v, base, if upper then "0123456789ABCDEF" else "0123456789abcdef", true)
  {
    hide DigitOf, Place, Parse, Meaning;
    MeaningIsParse(s, base, upper);
    forall k | 0 <= k < |s| ensures Place(Table(upper), s[k]) == DigitOf(s[k]) { PlaceIsDigit(s[k], upper); }
    assert (['+'] + s)[1..] == s;
  }

  lemma ZeroWritten(base: nat, upper: bool)
    requires base > 0
    ensures Written("0", 0, base, if upper then "0123456789ABCDEF" else "0123456789abcdef", false)
  {
    var alphabet := if upper then "0123456789ABCDEF" else "0123456789abcdef";
    assert alphabet[0] == '0';
    assert Meaning("0"[..0], base, alphabet) == 0;
  }
}
