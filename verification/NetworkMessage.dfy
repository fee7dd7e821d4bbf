/** Messages written field by field into a growing buffer and read back.  A byte is a number below Pow2(8). */
module NetworkMessage {
  import opened Powers
  import opened Blocks
  import opened Options
  import opened Words

  type Bytes = seq<nat>

  /** The largest size_t, on the 64-bit platforms the wire format is for. */
  const MAX_SIZE: nat := 0xFFFF_FFFF_FFFF_FFFF

  /** The n bytes of a value, lowest first. */
  function ToBytes(v: nat, n: nat): Bytes {
    if n == 0 then [] else [v % 256] + ToBytes(v / 256, n - 1)
  }

  lemma {:induction false} ToBytesValue(v: nat, n: nat)
    ensures |ToBytes(v, n)| == n && Digits(ToBytes(v, n), 8)
    ensures Val(ToBytes(v, n), 8) == v % Pow2(8 * n)
    decreases n
  {
    hide Val, Pow2;
    if n == 0 {
      ValEmpty();
    } else {
      var rest := ToBytes(v / 256, n - 1);
      ToBytesValue(v / 256, n - 1);
      ByteSize();
      ValConcat([v % 256], rest, 8);
      ValSnoc([], v % 256, 8);
      ValEmpty();
      assert [] + [v % 256] == [v % 256];
      assert 8 * n == 8 * (n - 1) + 8;
      Pow2Add(8 * (n - 1), 8);
      LowByte(v, Pow2(8 * (n - 1)));
    }
  }

  lemma ValEmpty()
    ensures Val([], 8) == 0 && Pow2(0) == 1
  {
  }

  lemma ByteSize()
    ensures Pow2(8) == 256
  {
  }

  lemma LowByte(v: nat, p: nat)
    requires p > 0
    ensures v % (p * 256) == v % 256 + 256 * ((v / 256) % p)
  {
    var h := v / 256;
    var q, r := h / p, h % p;
    assert h == q * p + r && v == h * 256 + v % 256;
    assert v == q * (p * 256) + (256 * r + v % 256);
    MulMonotone(r + 1, p, 256);
    DivModUnique(v, p * 256, q, 256 * r + v % 256);
  }

  class OutgoingMessage {
    var data: Bytes
    var offset: nat

    ghost predicate Valid()
      reads this
    {
      offset == |data| <= MAX_SIZE
    }

    constructor ()
      ensures Valid() && data == []
    {
      data, offset := [], 0;
    }

    /** Grows the buffer; the new bytes hold anything. */
    method AddBytes(count: nat, garbage: Bytes)
      requires Valid() && 0 < count <= MAX_SIZE - offset && |garbage| == count
      modifies `data
      ensures data == old(data) + garbage
    {
      data := data + garbage;
    }

    method PokeBytes(bytes: Bytes)
      requires offset + |bytes| <= |data|
      modifies this
      ensures offset == old(offset) + |bytes|
      ensures data == old(data)[..old(offset)] + bytes + old(data)[offset..]
    {
      data := data[..offset] + bytes + data[offset + |bytes|..];
      offset := offset + |bytes|;
    }

    /** Appends the bytes, or changes nothing and fails if the message would get too long. */
    method WriteBytes(bytes: Bytes) returns (ok: bool)
      requires Valid()
      modifies this
      ensures Valid() && (ok <==> |old(data)| + |bytes| <= MAX_SIZE)
      ensures data == if ok then old(data) + bytes else old(data)
    {
      if |bytes| == 0 { return true; }
      if |bytes| > MAX_SIZE - offset { return false; }
      var garbage := seq(|bytes|, _ => 0);
      AddBytes(|bytes|, garbage);
      PokeBytes(bytes);
      return true;
    }

    /** A length and an array of bytes, added in one go. */
    method WriteSizeAndArray(bytes: Bytes) returns (ok: bool)
      requires Valid() && |bytes| <= MAX_SIZE
      modifies this
      ensures Valid() && (ok <==> |old(data)| + 8 + |bytes| <= MAX_SIZE)
      ensures data == if ok then old(data) + (ToBytes(|bytes|, 8) + bytes) else old(data)
    {
      ToBytesValue(|bytes|, 8);
      if |bytes| == 0 {
        ok := WriteBytes(ToBytes(0, 8));
        return;
      }
      var left := MAX_SIZE - offset;
      if 8 > left { return false; }
      if left - 8 < |bytes| { return false; }
      var garbage := seq(8 + |bytes|, _ => 0);
      AddBytes(8 + |bytes|, garbage);
      PokeBytes(ToBytes(|bytes|, 8));
      PokeBytes(bytes);
      return true;
    }
  }

  class IncomingMessage {
    const data: Bytes
    var offset: nat

    ghost predicate Valid()
      reads this
    {
      offset <= |data| && Digits(data, 8)
    }

    /** What has not been read. */
    ghost function Rest(): Bytes
      requires Valid()
      reads this
    {
      data[offset..]
    }

    constructor (data: Bytes)
      requires Digits(data, 8)
      ensures Valid() && this.data == data && offset == 0
    {
      this.data, offset := data, 0;
    }

    /** Takes that many bytes, or nothing when there are fewer. */
    method ReadBytes(count: nat) returns (bytes: Option<Bytes>)
      requires Valid()
      modifies `offset
      ensures Valid() && (bytes.Some? <==> count <= |old(Rest())|)
      ensures bytes.Some? ==> |bytes.value| == count && old(Rest()) == bytes.value + Rest()
      ensures bytes.None? ==> offset == old(offset)
    {
      if |data| - offset < count { return None; }
      bytes := Some(data[offset..offset + count]);
      offset := offset + count;
    }

    method ReadWord() returns (v: Option<nat>)
      requires Valid()
      modifies `offset
      ensures Valid() && (v.Some? <==> 8 <= |old(Rest())|)
      ensures v.Some? ==> v.value == Val(old(Rest())[..8], 8) && Rest() == old(Rest())[8..]
      ensures v.None? ==> offset == old(offset)
    {
      var bytes := ReadBytes(8);
      if bytes.None? { return None; }
      v := Some(Val(bytes.value, 8));
    }

    /** A flag is one byte, 0 or 1; anything else is put back. */
    method ReadFlag() returns (b: Option<bool>)
      requires Valid()
      modifies `offset
      ensures Valid() && (b.Some? <==> |old(Rest())| > 0 && old(Rest())[0] <= 1)
      ensures b.Some? ==> b.value == (old(Rest())[0] == 1) && Rest() == old(Rest())[1..]
      ensures b.None? ==> offset == old(offset)
    {
      var rollback := offset;
      var bytes := ReadBytes(1);
      if bytes.None? { return None; }
      match bytes.value[0]
      case 0 => return Some(false);
      case 1 => return Some(true);
      case _ =>
        offset := rollback;
        return None;
    }

    /** A text is its length and its bytes; the length is put back when there are too few bytes. */
    method ReadText() returns (text: Option<Bytes>)
      requires Valid()
      modifies `offset
      ensures Valid()
      ensures text.Some? <==> 8 <= |old(Rest())| && Val(old(Rest())[..8], 8) <= |old(Rest())| - 8
      ensures text.Some? ==> |text.value| == Val(old(Rest())[..8], 8) && old(Rest())[8..] == text.value + Rest()
      ensures text.None? ==> offset == old(offset)
    {
      var rollback := offset;
      var length := ReadWord();
      if length.None? { return None; }
      if length.value == 0 { return Some([]); }
      if length.value > |data| - offset {
        offset := rollback;
        return None;
      }
      text := Some(data[offset..offset + length.value]);
      offset := offset + length.value;
    }
  }

  /** A field of a message. */
  datatype Field = Word(value: nat) | Flag(on: bool) | Text(bytes: Bytes)

  datatype Kind = WordKind | FlagKind | TextKind

  function KindOf(f: Field): Kind {
    match f case Word(_) => WordKind case Flag(_) => FlagKind case Text(_) => TextKind
  }

  predicate Fits(f: Field) {
    match f
    case Word(v) => v < Pow2(64)
    case Flag(_) => true
    case Text(bytes) => |bytes| <= MAX_SIZE && Digits(bytes, 8)
  }

  function Encode(f: Field): Bytes {
    match f
    case Word(v) => ToBytes(v, 8)
    case Flag(b) => [if b then 1 else 0]
    case Text(bytes) => ToBytes(|bytes|, 8) + bytes
  }

  function EncodeAll(fields: seq<Field>): Bytes {
    if fields == [] then [] else Encode(fields[0]) + EncodeAll(fields[1..])
  }

  method Write(f: Field, out: OutgoingMessage) returns (ok: bool)
    requires out.Valid() && Fits(f)
    modifies out
    ensures out.Valid() && (ok <==> |old(out.data)| + |Encode(f)| <= MAX_SIZE)
    ensures out.data == if ok then old(out.data) + Encode(f) else old(out.data)
  {
    hide Pow2, Digits;
    match f
    case Word(v) => ok := out.WriteBytes(ToBytes(v, 8));
    case Flag(b) => ok := out.WriteBytes([if b then 1 else 0]);
    case Text(bytes) =>
      ToBytesValue(|bytes|, 8);
      ok := out.WriteSizeAndArray(bytes);
  }

  method Read(kind: Kind, msg: IncomingMessage) returns (f: Option<Field>)
    requires msg.Valid()
    modifies msg`offset
    ensures msg.Valid() && (f.None? ==> msg.offset == old(msg.offset))
    ensures forall g, rest: Bytes :: KindOf(g) == kind && Fits(g) && old(msg.Rest()) == Encode(g) + rest ==>
                                     f == Some(g) && msg.Rest() == rest
  {
    hide Pow2, Val, Digits, ToBytes, MAX_SIZE;
    ghost var before := msg.Rest();
    match kind {
      case WordKind =>
        var v := msg.ReadWord();
        f := if v.Some? then Some(Word(v.value)) else None;
      case FlagKind =>
        var b := msg.ReadFlag();
        f := if b.Some? then Some(Flag(b.value)) else None;
      case TextKind =>
        var text := msg.ReadText();
        f := if text.Some? then Some(Text(text.value)) else None;
    }
    forall g, rest: Bytes | KindOf(g) == kind && Fits(g) && before == Encode(g) + rest
      ensures f == Some(g) && msg.Rest() == rest
    {
      EncodeStart(g, rest);
      if g.Text? { SplitSame(f.value.bytes, msg.Rest(), g.bytes, rest); }
    }
  }

  lemma SplitSame(a: Bytes, b: Bytes, c: Bytes, d: Bytes)
    requires a + b == c + d && |a| == |c|
    ensures a == c && b == d
  {
    assert a == (a + b)[..|a|] && c == (c + d)[..|c|];
    assert b == (a + b)[|a|..] && d == (c + d)[|c|..];
  }

  /** What the reading methods find at the start of an encoded field. */
  lemma EncodeStart(g: Field, rest: Bytes)
    requires Fits(g)
    ensures var s := Encode(g) + rest;
            match g {
              case Word(v) => |s| >= 8 && Val(s[..8], 8) == v && s[8..] == rest
              case Flag(b) => |s| >= 1 && s[0] == (if b then 1 else 0) && s[1..] == rest
              case Text(bytes) => |s| >= 8 && Val(s[..8], 8) == |bytes| && s[8..] == bytes + rest
            }
  {
    hide Pow2, Val, Digits, ToBytes;
    match g
    case Word(v) =>
      ToBytesValue(v, 8);
      ModSmall(v, Pow2(64));
      assert (ToBytes(v, 8) + rest)[..8] == ToBytes(v, 8);
    case Flag(b) =>
    case Text(bytes) =>
      ToBytesValue(|bytes|, 8);
      SizeFits();
      ModSmall(|bytes|, Pow2(64));
      assert (Encode(g) + rest)[..8] == ToBytes(|bytes|, 8);
      assert (Encode(g) + rest)[8..] == bytes + rest;
  }

  lemma SizeFits()
    ensures MAX_SIZE < Pow2(64)
  {
    WordSize();
  }

  lemma {:induction false} EncodeSnoc(fields: seq<Field>, f: Field)
    ensures EncodeAll(fields + [f]) == EncodeAll(fields) + Encode(f)
  {
    hide Encode;
    if fields == [] {
      assert [] + [f] == [f] && [f][1..] == [];
    } else {
      EncodeSnoc(fields[1..], f);
      assert (fields + [f])[1..] == fields[1..] + [f];
    }
  }

  lemma {:induction false} EncodeDigits(fields: seq<Field>)
    requires forall f <- fields :: Fits(f)
    ensures Digits(EncodeAll(fields), 8)
  {
    hide Pow2, ToBytes;
    if fields != [] {
      EncodeDigits(fields[1..]);
      OneDigits(fields[0]);
    }
  }

  lemma OneDigits(f: Field)
    requires Fits(f)
    ensures Digits(Encode(f), 8)
  {
    hide ToBytes, Val;
    ByteSize();
    match f
    case Word(v) => ToBytesValue(v, 8);
    case Flag(b) =>
    case Text(bytes) => ToBytesValue(|bytes|, 8);
  }

  /** Fields written one after the other are read back one after the other, with nothing left over; it can only
      fail because the message would be too long. */
  method RoundTrip(fields: seq<Field>) returns (readBack: Option<seq<Field>>)
    requires forall f <- fields :: Fits(f)
    ensures readBack == if |EncodeAll(fields)| <= MAX_SIZE then Some(fields) else None
  {
    hide Encode, Fits, Digits, MAX_SIZE;
    var out := new OutgoingMessage();
    for i := 0 to |fields|
      invariant fresh(out) && out.Valid() && out.data == EncodeAll(fields[..i])
    {
      assert fields[..i + 1] == fields[..i] + [fields[i]];
      EncodeSnoc(fields[..i], fields[i]);
      var ok := Write(fields[i], out);
      if !ok {
        PartLength(fields, i + 1);
        return None;
      }
    }
    assert fields[..|fields|] == fields;
    EncodeDigits(fields);
    var msg := new IncomingMessage(out.data);
    var found := [];
    for i := 0 to |fields|
      invariant fresh(msg) && msg.Valid() && found == fields[..i] && msg.Rest() == EncodeAll(fields[i..])
    {
      assert fields[i..][1..] == fields[i + 1..];
      var f := Read(KindOf(fields[i]), msg);
      found := found + [f.value];
    }
    return Some(found);
  }

  lemma {:induction false} PartLength(fields: seq<Field>, i: nat)
    requires i <= |fields|
    ensures |EncodeAll(fields[..i])| <= |EncodeAll(fields)|
  {
    hide Encode;
    if i > 0 {
      PartLength(fields[1..], i - 1);
      assert fields[..i][1..] == fields[1..][..i - 1];
    }
  }
}
