/** Printing of the fixed-width integers. */
module UintPrint {
  import opened Powers
  import opened Blocks
  import opened UintShape
  import opened Uint
  import opened UintOps
  import opened UintDiv
  import opened Numerals
  import opened Printing

  /** The text written to the stream; zero gets no sign. */
  method Print(x: Uint, flags: Flags) returns (text: string)
    requires x.Valid()
    ensures x.Value() == 0 ==> text == "0"
    ensures x.Value() > 0 && flags.showpos ==>
      |text| > 0 && text[0] == '+' && IsNumeral(text[1..], x.Value(), flags.Base(), flags.uppercase)
    ensures x.Value() > 0 && !flags.showpos ==>
      IsNumeral(text, x.Value(), flags.Base(), flags.uppercase)
    ensures |text| <= 1 + (x.shape.bits + 2) / 3
    ensures Written(text, x.Value(), if flags.oct then 8 else if flags.hex then 16 else 10,
                    if flags.uppercase then "0123456789ABCDEF" else "0123456789abcdef",
                    flags.showpos && x.Value() > 0)
  {
    hide Pow2, Val, Shape.NumBlocks, Parse, Pow, IsNumeral, Written;
    var size := BufferSize(x.shape.bits);
    var buff := new char[size];
    var isZero := IsZero(x);
    if isZero {
      ZeroWritten(if flags.oct then 8 else if flags.hex then 16 else 10, flags.uppercase);
      return "0";
    }
    var i := WriteDigits(x, flags, buff);
    ghost var numeral := buff[i..];
    NumeralWritten(numeral, x.Value(), flags.Base(), flags.uppercase);
    if flags.showpos {
      i := i - 1;
      buff[i] := '+';
      assert buff[i..][1..] == numeral && buff[i..] == ['+'] + numeral;
    }
    text := buff[i..];
  }

  /** Fills the buffer from its end with the digits of x. */
  method WriteDigits(x: Uint, flags: Flags, buff: array<char>) returns (i: nat)
    requires x.Valid() && x.Value() > 0 && buff.Length == BufferSize(x.shape.bits)
    modifies buff
    ensures 1 <= i < buff.Length
    ensures IsNumeral(buff[i..], x.Value(), flags.Base(), flags.uppercase)
  {
    hide Pow2, Val, Shape.NumBlocks, Parse, Pow, IsNumeral;
    var table := Table(flags.uppercase);
    BaseFits(x.shape.bits, flags);
    var base := new Uint.FromInteger(x.shape, 10, 32);
    var sixteen := new Uint.FromInteger(x.shape, 16, 32);
    if flags.hex { base := new Uint.FromInteger(x.shape, 16, 32); }
    if flags.oct { base := new Uint.FromInteger(x.shape, 8, 32); }
    var isHex := Equal(base, sixteen);
    i := buff.Length;
    if x.shape.bits < 4 + One(isHex) {
      SmallBlock(x.blocks[..], x.shape, x.Value());
      i := i - 1;
      buff[i] := table[x.blocks[0]];
      OneDigit(buff[i..], x.Value(), flags);
      return;
    }
    i := DivideOut(x, base, flags, buff);
  }

  /** The loop that divides by the base until nothing is left. */
  method DivideOut(x: Uint, base: Uint, flags: Flags, buff: array<char>) returns (i: nat)
    requires x.Valid() && x.Value() > 0 && buff.Length == BufferSize(x.shape.bits)
    requires base.Valid() && base.shape == x.shape && base.Value() == flags.Base()
    requires x.shape.bits >= 2
    modifies buff
    ensures 1 <= i < buff.Length
    ensures IsNumeral(buff[i..], x.Value(), flags.Base(), flags.uppercase)
  {
    hide Pow2, Val, Shape.NumBlocks, Parse, Pow, IsNumeral, Flags.Base, DigitsOk, BufferSize;
    var table := Table(flags.uppercase);
    i := buff.Length;
    var quot := x;
    var zero := false;
    PrintStart(x.Value(), x.shape.bits, buff[buff.Length..], flags);
    while !zero
      invariant 0 <= i <= buff.Length
      invariant quot.Valid() && quot.shape == x.shape
      invariant zero <==> quot.Value() == 0
      invariant Emitted(x.Value(), quot.Value(), buff[i..], x.shape.bits, flags)
      invariant zero ==> 1 <= i < buff.Length && buff[i] != '0'
      decreases quot.Value()
    {
      hide Emitted;
      ghost var s, v := buff[i..], quot.Value();
      RoomLeft(x.Value(), v, s, x.shape.bits, flags);
      var divided := DivMod(quot, base);
      SmallBlock(divided.rem.blocks[..], x.shape, divided.rem.Value());
      i := i - 1;
      buff[i] := table[divided.rem.blocks[0]];
      assert buff[i..] == [table[divided.rem.blocks[0]]] + s;
      quot := divided.quot;
      DigitStep(x.Value(), v, quot.Value(), divided.rem.Value(), s, x.shape.bits, flags);
      zero := IsZero(quot);
    }
    WholeNumeral(buff[i..], x.Value(), x.shape.bits, flags);
  }

  /** The base is stored in a number of the same width, yet nothing is lost where it is used. */
  lemma BaseFits(bits: nat, flags: Flags)
    requires bits >= 1
    ensures 16 < Pow2(32)
    ensures var m := Pow2(bits);
            var isHex := flags.Base() % m == 16 % m;
            && (bits < 4 + One(isHex) ==> m <= flags.Base() || m <= 8)
            && (bits >= 4 + One(isHex) ==> flags.Base() % m == flags.Base())
  {
    hide Pow2;
    SmallPowers();
    Pow2Monotone(5, 32);
    if bits >= 5 {
      Pow2Monotone(5, bits);
      ModSmall(flags.Base(), Pow2(bits));
      ModSmall(16, Pow2(bits));
    } else if bits == 4 {
      ModSmall(0, 16);
    } else {
      Pow2Monotone(bits, 3);
    }
  }

  lemma SmallBlock(s: seq<nat>, shape: Shape, v: nat)
    requires shape.Valid() && |s| == shape.NumBlocks() && Digits(s, shape.BlockBits())
    requires v == Val(s, shape.BlockBits()) < 16
    ensures |s| > 0 && s[0] == v
  {
    hide Pow2, Val, Shape.NumBlocks;
    var w := shape.BlockBits();
    NumBlocksFit(shape);
    SmallPowers();
    Pow2Monotone(4, w);
    LowestBlock(s, w);
    ModSmall(v, Pow2(w));
  }

  lemma LowestBlock(s: seq<nat>, w: nat)
    requires |s| > 0 && Digits(s, w)
    ensures s[0] == Val(s, w) % Pow2(w)
  {
    assert w * 1 == w;
    UintMul.LowBlock(s, w);
  }
}
