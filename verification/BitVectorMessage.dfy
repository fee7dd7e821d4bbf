/** Writing a bit vector into a message in words of 64 bits, whatever the width of its blocks, and reading it. */
module BitVectorMessage {
  import opened Powers
  import opened BitOps
  import opened Blocks
  import opened BitVector
  import opened NetworkMessage

  /** m blocks of w bits make a word. */
  ghost predicate Divides(w: nat, m: nat) { w > 0 && m > 0 && w * m == 64 }

  /** The first block of word j, of n blocks. */
  function Start(j: nat, m: nat, n: nat): nat { if j * m < n then j * m else n }

  function WordAt(blocks: seq<nat>, w: nat, m: nat, j: nat): nat
  {
    StartOrder(j, m, |blocks|);
    Val(blocks[Start(j, m, |blocks|)..Start(j + 1, m, |blocks|)], w)
  }

  lemma StartOrder(j: nat, m: nat, n: nat)
    ensures Start(j, m, n) <= Start(j + 1, m, n) <= n
    ensures Start(j + 1, m, n) == if Start(j, m, n) + m < n then Start(j, m, n) + m else n
  {
    assert (j + 1) * m == j * m + m;
  }

  /** The words of the first k times m blocks, in bytes. */
  function WordBytes(blocks: seq<nat>, w: nat, m: nat, k: nat): Bytes {
    if k == 0 then [] else WordBytes(blocks, w, m, k - 1) + ToBytes(WordAt(blocks, w, m, k - 1), 8)
  }

  /** Digit c of a word. */
  function Digit(word: nat, w: nat, c: nat): int { (word / Pow2(w * c)) % Pow2(w) }

  /** The words cover the blocks exactly. */
  lemma WordsCover(bits: nat, w: nat, m: nat, n: nat)
    requires Divides(w, m) && n == BlockCount(bits, w)
    ensures Start(BlockCount(bits, 64), m, n) == n
  {
    hide BlockIndex, BitIndex;
    var k := BlockCount(bits, 64);
    if bits == 0 {
      IndexIs(0, 0, w);
    } else {
      NextIndex(bits - 1, w);
      NextIndex(bits - 1, 64);
      IndexParts(bits - 1, w);
      IndexParts(bits - 1, 64);
      CoverBound(n, k, w, m, bits);
    }
  }

  lemma CoverBound(n: nat, k: nat, w: nat, m: nat, bits: nat)
    requires w * m == 64 && n > 0 && w * (n - 1) < bits <= 64 * k
    ensures k * m >= n
  {
    assert w * (k * m) == (w * m) * k;
    if k * m <= n - 1 { MulMonotone(k * m, n - 1, w); }
  }

  lemma PackStep(word: nat, x: nat, b: nat, w: nat)
    requires word < Pow2(b) && x < Pow2(w) && b + w <= 64
    ensures Or(word, (x * Pow2(b)) % Pow2(64)) == word + Pow2(b) * x < Pow2(b + w)
  {
    hide Pow2, Or;
    Pow2Add(b, w);
    Pow2Monotone(b + w, 64);
    TopDigit(Pow2(b), x, Pow2(w));
    ModSmall(x * Pow2(b), Pow2(64));
    OrDisjoint(x, word, b);
    OrCommutes(word, x * Pow2(b));
  }

  /** The inner loop of serialize: the next blocks, up to a word full. */
  method PackWord(v: BitVec, start: nat, ghost m: nat) returns (word: nat, next: nat)
    requires v.Valid() && Divides(v.w, m) && start <= |v.blocks|
    ensures next == if start + m < |v.blocks| then start + m else |v.blocks|
    ensures word == Val(v.blocks[start..next], v.w) < Pow2(64)
  {
    hide Pow2, Val, Or, BlockCount;
    ghost var c: nat := 0;
    var b := 0;
    word, next := 0, start;
    EmptyWord(v.blocks, start, v.w);
    while b < 64 && next != |v.blocks|
      invariant b == v.w * c <= 64 && c <= m && next == start + c <= |v.blocks|
      invariant word == Val(v.blocks[start..next], v.w) < Pow2(b)
      decreases 64 - b
    {
      WordFits(v.w, c, m);
      PackStep(word, v.blocks[next], b, v.w);
      assert v.blocks[start..next + 1] == v.blocks[start..next] + [v.blocks[next]];
      ValSnoc(v.blocks[start..next], v.blocks[next], v.w);
      word := Or(word, (v.blocks[next] * Pow2(b)) % Pow2(64));
      next := next + 1;
      b := b + v.w;
      c := c + 1;
    }
    FullWord(v.w, c, m);
    Pow2Monotone(b, 64);
  }

  lemma EmptyWord(s: seq<nat>, i: nat, w: nat)
    requires i <= |s|
    ensures Val(s[i..i], w) == 0 < Pow2(0)
  {
  }

  lemma WordFits(w: nat, c: nat, m: nat)
    requires w * m == 64 && w * c < 64 && c <= m
    ensures c < m && w * c + w <= 64 && w * (c + 1) == w * c + w
  {
    MulMonotone(c + 1, m, w);
  }

  lemma FullWord(w: nat, c: nat, m: nat)
    requires w > 0 && w * m == 64 && c <= m
    ensures w * c >= 64 ==> c == m
  {
    if c < m { MulMonotone(c + 1, m, w); }
  }

  method Serialize(v: BitVec, out: OutgoingMessage, ghost m: nat) returns (ok: bool)
    requires v.Valid() && Divides(v.w, m) && out.Valid()
    modifies out
    ensures out.Valid()
    ensures ok <==> |old(out.data)| + 8 + 8 * BlockCount(v.numBits, 64) <= MAX_SIZE
    ensures ok ==> out.data == old(out.data) + ToBytes(v.numBits, 8)
                               + WordBytes(v.blocks, v.w, m, BlockCount(v.numBits, 64))
  {
    hide Pow2, Val, BlockIndex, BitIndex, MAX_SIZE, ToBytes, WordAt, Start;
    ToBytesLength(v.numBits);
    ok := out.WriteBytes(ToBytes(v.numBits, 8));
    if !ok { return; }
    var index := 0;
    StartFirst(m, |v.blocks|);
    ghost var header := out.data;
    for i := 0 to BlockCount(v.numBits, 64)
      invariant v.Valid() && out.Valid() && index == Start(i, m, |v.blocks|)
      invariant |out.data| == |old(out.data)| + 8 + 8 * i
      invariant out.data == header + WordBytes(v.blocks, v.w, m, i)
    {
      StartOrder(i, m, |v.blocks|);
      var word, next := PackWord(v, index, m);
      WordIs(v.blocks, v.w, m, i);
      ToBytesLength(word);
      ok := out.WriteBytes(ToBytes(word, 8));
      if !ok { return; }
      index := next;
    }
    WordsCover(v.numBits, v.w, m, |v.blocks|);
    assert index == |v.blocks|;
  }

  lemma ToBytesLength(v: nat)
    ensures |ToBytes(v, 8)| == 8 && Digits(ToBytes(v, 8), 8) && Val(ToBytes(v, 8), 8) == v % Pow2(64)
  {
    hide Pow2, Val, ToBytes;
    ToBytesValue(v, 8);
  }

  lemma StartFirst(m: nat, n: nat)
    ensures Start(0, m, n) == 0
  {
  }

  lemma WordIs(blocks: seq<nat>, w: nat, m: nat, j: nat)
    ensures Start(j, m, |blocks|) <= Start(j + 1, m, |blocks|) <= |blocks|
    ensures WordAt(blocks, w, m, j) == Val(blocks[Start(j, m, |blocks|)..Start(j + 1, m, |blocks|)], w)
  {
    StartOrder(j, m, |blocks|);
  }

  /** The inner loop of deserialize: a word is spread over the next blocks, which are zero. */
  method UnpackWord(v: BitVec, start: nat, word: nat, ghost m: nat) returns (next: nat)
    requires v.Valid() && Divides(v.w, m) && start <= |v.blocks|
    requires forall i | start <= i < |v.blocks| :: v.blocks[i] == 0
    modifies v`blocks
    ensures v.Valid() && next == if start + m < |v.blocks| then start + m else |v.blocks|
    ensures |v.blocks| == |old(v.blocks)| && v.blocks[..start] == old(v.blocks)[..start]
    ensures forall c | 0 <= c < next - start :: v.blocks[start + c] == Digit(word, v.w, c)
    ensures forall i | next <= i < |v.blocks| :: v.blocks[i] == 0
  {
    hide Pow2, Or, BlockCount, Digit;
    ghost var c: nat := 0;
    var b := 0;
    next := start;
    while b < 64 && next != |v.blocks|
      invariant b == v.w * c <= 64 && c <= m && next == start + c <= |v.blocks|
      invariant v.Valid() && |v.blocks| == |old(v.blocks)| && v.blocks[..start] == old(v.blocks)[..start]
      invariant forall d | 0 <= d < c :: v.blocks[start + d] == Digit(word, v.w, d)
      invariant forall i | next <= i < |v.blocks| :: v.blocks[i] == 0
      decreases 64 - b
    {
      WordFits(v.w, c, m);
      OrZero(word, v.w, c);
      v.blocks := v.blocks[next := Or(v.blocks[next], (word / Pow2(b)) % Pow2(v.w))];
      next := next + 1;
      b := b + v.w;
      c := c + 1;
    }
    FullWord(v.w, c, m);
  }

  lemma OrZero(word: nat, w: nat, c: nat)
    ensures 0 <= Digit(word, w, c) < Pow2(w) && Digit(word, w, c) == (word / Pow2(w * c)) % Pow2(w)
    ensures Or(0, Digit(word, w, c)) == Digit(word, w, c)
  {
  }

  /** Word j of what follows the header of a serialized vector. */
  function ReceivedWord(rest: Bytes, j: nat): nat
    requires 8 * (j + 2) <= |rest|
  {
    Val(rest[8 * (j + 1)..8 * (j + 2)], 8)
  }

  ghost predicate Received(blocks: seq<nat>, w: nat, m: nat, rest: Bytes, k: nat)
    requires 8 * (k + 1) <= |rest|
  {
    forall j, c | 0 <= j < k && 0 <= c < Start(j + 1, m, |blocks|) - Start(j, m, |blocks|) ::
      blocks[Start(j, m, |blocks|) + c] == Digit(ReceivedWord(rest, j), w, c)
  }

  method Deserialize(v: BitVec, msg: IncomingMessage, ghost m: nat) returns (ok: bool)
    requires v.Valid() && Divides(v.w, m) && msg.Valid()
    modifies v`blocks, msg`offset
    ensures v.Valid() && msg.Valid() && |v.blocks| == |old(v.blocks)|
    ensures ok <==>
            var rest := old(msg.Rest());
            && 8 * (BlockCount(v.numBits, 64) + 1) <= |rest| && Val(rest[..8], 8) == v.numBits
    ensures |old(msg.Rest())| < 8 || Val(old(msg.Rest())[..8], 8) != v.numBits ==> v.blocks == old(v.blocks)
    ensures ok ==> msg.Rest() == old(msg.Rest())[8 * (BlockCount(v.numBits, 64) + 1)..]
    ensures ok ==> Received(v.blocks, v.w, m, old(msg.Rest()), BlockCount(v.numBits, 64))
  {
    hide Pow2, Val, BlockIndex, BitIndex, Digit, Start, ReceivedWord, Digits;
    ghost var rest := msg.Rest();
    var bits := msg.ReadWord();
    if bits.None? { return false; }
    if bits.value != v.numBits { return false; }
    v.Reset();
    var index := 0;
    StartFirst(m, |v.blocks|);
    for i := 0 to BlockCount(v.numBits, 64)
      invariant v.Valid() && msg.Valid() && |v.blocks| == |old(v.blocks)| && index == Start(i, m, |v.blocks|)
      invariant 8 * (i + 1) <= |rest| && msg.Rest() == rest[8 * (i + 1)..]
      invariant forall b | index <= b < |v.blocks| :: v.blocks[b] == 0
      invariant Received(v.blocks, v.w, m, rest, i)
    {
      StartOrder(i, m, |v.blocks|);
      var word := msg.ReadWord();
      if word.None? { return false; }
      ghost var before := v.blocks;
      WordOf(rest, i);
      index := UnpackWord(v, index, word.value, m);
      KeepReceived(before, v.blocks, v.w, m, rest, i);
    }
    WordsCover(v.numBits, v.w, m, |v.blocks|);
    assert index == |v.blocks|;
    return true;
  }

  lemma WordOf(rest: Bytes, i: nat)
    requires 8 * (i + 2) <= |rest|
    ensures rest[8 * (i + 1)..][..8] == rest[8 * (i + 1)..8 * (i + 2)]
    ensures rest[8 * (i + 1)..][8..] == rest[8 * (i + 2)..]
    ensures ReceivedWord(rest, i) == Val(rest[8 * (i + 1)..][..8], 8)
  {
  }

  lemma {:induction false} StartMonotone(j: nat, k: nat, m: nat, n: nat)
    requires j <= k
    ensures Start(j, m, n) <= Start(k, m, n)
  {
    hide Start;
    if j < k {
      StartMonotone(j, k - 1, m, n);
      StartOrder(k - 1, m, n);
    }
  }

  lemma KeepReceived(before: seq<nat>, after: seq<nat>, w: nat, m: nat, rest: Bytes, i: nat)
    requires 8 * (i + 2) <= |rest| && |before| == |after|
    requires Received(before, w, m, rest, i)
    requires Start(i, m, |after|) <= |after| && after[..Start(i, m, |after|)] == before[..Start(i, m, |after|)]
    requires forall c | 0 <= c < Start(i + 1, m, |after|) - Start(i, m, |after|) ::
               after[Start(i, m, |after|) + c] == Digit(ReceivedWord(rest, i), w, c)
    ensures Received(after, w, m, rest, i + 1)
  {
    hide Start, Digit, ReceivedWord;
    var n := |after|;
    forall j, c | 0 <= j < i + 1 && 0 <= c < Start(j + 1, m, n) - Start(j, m, n)
      ensures Start(j, m, n) + c < n && after[Start(j, m, n) + c] == Digit(ReceivedWord(rest, j), w, c)
    {
      StartOrder(j, m, n);
      if j < i {
        StartMonotone(j + 1, i, m, n);
        assert before[..Start(i, m, n)][Start(j, m, n) + c] == after[..Start(i, m, n)][Start(j, m, n) + c];
      }
    }
  }

  lemma DigitOfVal(s: seq<nat>, c: nat, w: nat)
    requires c < |s| && Digits(s, w)
    ensures Digit(Val(s, w), w, c) == s[c]
  {
    hide Pow2, Val;
    SplitAt(s, c, w);
    ValBound(s[..c], w);
    NextWeight(w, c);
    var low, high := Val(s[..c], w), Val(s[c + 1..], w);
    TakeDigit(Val(s, w), low, s[c], high, Pow2(w * c), Pow2(w));
  }

  lemma TakeDigit(v: nat, low: nat, d: nat, high: nat, p: nat, q: nat)
    requires low < p && d < q && v == low + p * d + (p * q) * high
    ensures (v / p) % q == d
  {
    assert (p * q) * high == p * (q * high);
    assert v == (d + q * high) * p + low;
    DivModUnique(v, p, d + q * high, low);
    DivModUnique(d + q * high, q, high, d);
  }

  lemma WordBytesNext(blocks: seq<nat>, w: nat, m: nat, k: nat)
    ensures WordBytes(blocks, w, m, 0) == []
    ensures WordBytes(blocks, w, m, k + 1) == WordBytes(blocks, w, m, k) + ToBytes(WordAt(blocks, w, m, k), 8)
  {
  }

  lemma Slices(s: Bytes, t: Bytes, i: nat, j: nat)
    requires i <= j
    ensures j <= |s| ==> (s + t)[i..j] == s[i..j]
    ensures i == |s| && j == |s| + |t| ==> (s + t)[i..j] == t
  {
  }

  lemma {:induction false} WordBytesAt(blocks: seq<nat>, w: nat, m: nat, k: nat, j: nat)
    requires j <= k
    ensures |WordBytes(blocks, w, m, k)| == 8 * k
    ensures j < k ==> WordBytes(blocks, w, m, k)[8 * j..8 * (j + 1)] == ToBytes(WordAt(blocks, w, m, j), 8)
    decreases k
  {
    hide ToBytes, WordAt, WordBytes, Pow2, Val, Digits;
    if k == 0 {
      WordBytesNext(blocks, w, m, 0);
    } else {
      WordBytesNext(blocks, w, m, k - 1);
      ToBytesLength(WordAt(blocks, w, m, k - 1));
      WordBytesAt(blocks, w, m, k - 1, if j < k then j else 0);
      Slices(WordBytes(blocks, w, m, k - 1), ToBytes(WordAt(blocks, w, m, k - 1), 8), 8 * j, 8 * (j + 1));
    }
  }

  lemma WordBound(blocks: seq<nat>, w: nat, m: nat, j: nat)
    requires Divides(w, m) && Digits(blocks, w)
    ensures WordAt(blocks, w, m, j) < Pow2(64)
  {
    hide Pow2, Val, Start;
    WordIs(blocks, w, m, j);
    StartOrder(j, m, |blocks|);
    var s := blocks[Start(j, m, |blocks|)..Start(j + 1, m, |blocks|)];
    ValBound(s, w);
    MulMonotone(|s|, m, w);
    Pow2Monotone(w * |s|, 64);
  }

  lemma WordSent(blocks: seq<nat>, w: nat, m: nat, k: nat, j: nat, header: Bytes, tail: Bytes)
    requires Divides(w, m) && Digits(blocks, w) && |header| == 8 && j < k
    ensures |WordBytes(blocks, w, m, k)| == 8 * k
    ensures ReceivedWord(header + WordBytes(blocks, w, m, k) + tail, j) == WordAt(blocks, w, m, j)
  {
    hide Pow2, Val, ToBytes, WordAt, WordBytes, Digits;
    var word := WordAt(blocks, w, m, j);
    WordBytesAt(blocks, w, m, k, j);
    WordBound(blocks, w, m, j);
    ToBytesLength(word);
    ModSmall(word, Pow2(64));
    var rest := header + WordBytes(blocks, w, m, k) + tail;
    assert rest[8 * (j + 1)..8 * (j + 2)] == WordBytes(blocks, w, m, k)[8 * j..8 * (j + 1)];
  }

  lemma SubDigits(s: seq<nat>, i: nat, j: nat, w: nat)
    requires i <= j <= |s| && Digits(s, w)
    ensures Digits(s[i..j], w)
  {
    hide Pow2;
  }

  /** Block i is number c of word j. */
  lemma PartOf(i: nat, m: nat, k: nat, n: nat) returns (j: nat, c: nat)
    requires m > 0 && i < n && Start(k, m, n) == n
    ensures j < k && i == Start(j, m, n) + c < Start(j + 1, m, n)
  {
    DivNonNegative(i, m);
    j, c := i / m, i % m;
    assert j * m + c == i && (j + 1) * m == j * m + m;
    if j >= k { MulMonotone(k, j, m); }
  }

  /** What was sent is what is received, block by block. */
  lemma SentIsReceived(x: seq<nat>, y: seq<nat>, w: nat, m: nat, k: nat, header: Bytes, tail: Bytes)
    requires Divides(w, m) && Digits(x, w) && |x| == |y| && Start(k, m, |x|) == |x| && |header| == 8
    requires |header + WordBytes(x, w, m, k) + tail| >= 8 * (k + 1)
    requires Received(y, w, m, header + WordBytes(x, w, m, k) + tail, k)
    ensures x == y
  {
    hide Digit, ReceivedWord, WordBytes, Digits, WordAt;
    var n := |x|;
    forall i | 0 <= i < n ensures x[i] == y[i] {
      var j, c := PartOf(i, m, k, n);
      WordSent(x, w, m, k, j, header, tail);
      WordIs(x, w, m, j);
      StartOrder(j, m, n);
      var s := x[Start(j, m, n)..Start(j + 1, m, n)];
      assert Digits(s, w) by { SubDigits(x, Start(j, m, n), Start(j + 1, m, n), w); }
      DigitOfVal(s, c, w);
      assert y[Start(j, m, n) + c] == Digit(ReceivedWord(header + WordBytes(x, w, m, k) + tail, j), w, c);
    }
  }

  /** A vector written to a new message and read into a vector of the same length gives an equal vector: all its
      blocks are the same, with the excess bits.  The message cannot get too long. */
  method RoundTrip(x: BitVec, y: BitVec, ghost m: nat)
    requires x.Valid() && y.Valid() && x != y && x.w == y.w && Divides(x.w, m)
    requires x.numBits == y.numBits <= MAX_SIZE
    modifies y`blocks
    ensures y.Valid() && y.blocks == x.blocks && y.Contents() == x.Contents()
  {
    hide Pow2, Val, BlockIndex, BitIndex, BlockCount, ToBytes, WordBytes, Received, Digits, BitAt, Divides, MAX_SIZE;
    var out := new OutgoingMessage();
    SizeInLimit(x.numBits);
    var ok := Serialize(x, out, m);
    assert ok;
    ghost var k, header := BlockCount(x.numBits, 64), ToBytes(x.numBits, 8);
    ToBytesLength(x.numBits);
    Message(x.blocks, x.w, m, k, x.numBits);
    assert out.data == header + WordBytes(x.blocks, x.w, m, k) == header + WordBytes(x.blocks, x.w, m, k) + [];
    var msg := new IncomingMessage(out.data);
    assert msg.Rest() == out.data;
    ok := Deserialize(y, msg, m);
    assert ok;
    WordsCover(x.numBits, x.w, m, |x.blocks|);
    SentIsReceived(x.blocks, y.blocks, x.w, m, k, header, []);
  }

  lemma SizeInLimit(bits: nat)
    requires bits <= MAX_SIZE
    ensures 8 + 8 * BlockCount(bits, 64) <= MAX_SIZE
  {
    IndexParts(bits, 64);
  }

  lemma Message(blocks: seq<nat>, w: nat, m: nat, k: nat, bits: nat)
    requires bits <= MAX_SIZE
    ensures var s := ToBytes(bits, 8) + WordBytes(blocks, w, m, k);
            |s| == 8 + 8 * k && Val(s[..8], 8) == bits && Digits(s, 8)
  {
    hide Pow2, Val, ToBytes, WordBytes, WordAt;
    ToBytesLength(bits);
    SizeFits();
    ModSmall(bits, Pow2(64));
    WordBytesAt(blocks, w, m, k, k);
    WordBytesDigits(blocks, w, m, k);
    assert (ToBytes(bits, 8) + WordBytes(blocks, w, m, k))[..8] == ToBytes(bits, 8);
  }

  lemma {:induction false} WordBytesDigits(blocks: seq<nat>, w: nat, m: nat, k: nat)
    ensures Digits(WordBytes(blocks, w, m, k), 8)
    decreases k
  {
    hide Pow2, ToBytes, WordAt, Val;
    if k > 0 {
      WordBytesDigits(blocks, w, m, k - 1);
      ToBytesLength(WordAt(blocks, w, m, k - 1));
    }
  }

  lemma BitOfDigit(d: nat, high: nat, w: nat, b: nat)
    requires b < w
    ensures Bit(d + Pow2(w) * high, b) == Bit(d, b)
  {
    hide Pow2;
    var p, q := Pow2(b), Pow2(w - b - 1);
    Pow2Add(b, w - b);
    Pow2Add(1, w - b - 1);
    OneBit();
    EvenMultiple(p, q, high);
    HigherPart(d, p, 2 * (q * high));
    EvenSum(d / p, q * high);
  }

  lemma EvenMultiple(p: nat, q: nat, high: nat)
    ensures (p * (2 * q)) * high == p * (2 * (q * high))
  {
    assert (2 * q) * high == 2 * (q * high);
  }

  lemma HigherPart(d: nat, p: nat, t: nat)
    requires p > 0
    ensures (d + p * t) / p == d / p + t
  {
    var n := d / p;
    assert d == n * p + d % p && (n + t) * p == n * p + p * t;
    DivModUnique(d + p * t, p, n + t, d % p);
  }

  lemma EvenSum(a: int, b: int)
    ensures (a + 2 * b) % 2 == a % 2
  {
  }

  lemma OneBit()
    ensures Pow2(1) == 2
  {
  }

  /** Bit b of block c of a word is bit w * c + b of the word. */
  lemma BitOfWord(s: seq<nat>, c: nat, b: nat, w: nat)
    requires c < |s| && b < w && Digits(s, w)
    ensures Bit(Val(s, w), w * c + b) == Bit(s[c], b)
  {
    hide Pow2, Val;
    SplitAt(s, c, w);
    ValBound(s[..c], w);
    NextWeight(w, c);
    var low, high, p := Val(s[..c], w), Val(s[c + 1..], w), Pow2(w * c);
    assert Val(s, w) == (s[c] + Pow2(w) * high) * p + low by {
      assert (p * Pow2(w)) * high == p * (Pow2(w) * high);
    }
    DivModUnique(Val(s, w), p, s[c] + Pow2(w) * high, low);
    Pow2Add(w * c, b);
    DivDiv(Val(s, w), p, Pow2(b));
    BitOfDigit(s[c], high, w, b);
  }

  /** Bit i of the vector is bit i % 64 of word i / 64 of the message, whatever the width of the blocks. */
  lemma BitInMessage(blocks: seq<nat>, w: nat, m: nat, bits: nat, i: nat)
    requires Divides(w, m) && Digits(blocks, w) && |blocks| == BlockCount(bits, w) && i < bits
    ensures 0 <= i / 64
    ensures Bit(WordAt(blocks, w, m, i / 64), i % 64) == BitAt(blocks, w, i)
  {
    hide Pow2, Val, Bit, BlockCount, WordAt, Start, BlockIndex, BitIndex;
    DivNonNegative(i, 64);
    IndexInside(i, bits, w);
    IndexParts(i, w);
    var k, b: nat := BlockIndex(i, w), BitIndex(i, w);
    var j: nat, c: nat := i / 64, k - (i / 64) * m;
    WordOfBlock(i, k, b, w, m);
    StartIs(j, k, m, |blocks|);
    WordIs(blocks, w, m, j);
    var s := blocks[Start(j, m, |blocks|)..Start(j + 1, m, |blocks|)];
    SubDigits(blocks, Start(j, m, |blocks|), Start(j + 1, m, |blocks|), w);
    BitOfWord(s, c, b, w);
  }

  lemma WordOfBlock(i: nat, k: nat, b: nat, w: nat, m: nat)
    requires w * m == 64 && i == w * k + b && b < w
    ensures 0 <= i / 64 && (i / 64) * m <= k < (i / 64 + 1) * m
    ensures i % 64 == w * (k - (i / 64) * m) + b
  {
    DivNonNegative(i, 64);
    var j: nat := i / 64;
    WholeWords(w, m, j);
    WholeWords(w, m, j + 1);
    assert w * (k + 1) == w * k + w;
    if k < j * m { MulMonotone(k + 1, j * m, w); }
    if k >= (j + 1) * m { MulMonotone((j + 1) * m, k, w); }
    Difference(w, k, j * m);
  }

  lemma WholeWords(w: nat, m: nat, j: nat)
    requires w * m == 64
    ensures (j * m) * w == 64 * j == w * (j * m)
  {
    assert (j * m) * w == j * (w * m);
  }

  lemma Difference(w: int, k: int, l: int)
    ensures w * (k - l) == w * k - w * l
  {
  }

  lemma StartIs(j: nat, k: nat, m: nat, n: nat)
    requires j * m <= k < (j + 1) * m && k < n
    ensures Start(j, m, n) == j * m && k < Start(j + 1, m, n)
  {
  }
}
