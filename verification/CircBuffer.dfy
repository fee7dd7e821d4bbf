/** A ring buffer with one producer and one consumer.  Copying an element, updating the shared count and
    moving one's own offset are separate steps of each side, interleaved in any way. */
module CircBuffer {
  import opened Powers
  import opened Options

  type T = int

  /** The array index of the i-th element ever written. */
  function Pos(i: nat, size: nat): (p: nat)
    ensures size > 0 ==> p < size
  {
    if size == 0 then 0 else i % size
  }

  lemma PosDistinct(i: nat, j: nat, size: nat)
    requires i < j < i + size
    ensures Pos(i, size) != Pos(j, size)
  {
    var q := j / size - i / size;
    assert j - i == size * q + (j % size - i % size);
    if q >= 1 { MulMonotone(1, q, size); } else { MulMonotone(q, 0, size); }
  }

  lemma PosAhead(i: nat, k: nat, size: nat)
    requires 0 < size && Pos(i, size) + k < size
    ensures Pos(i + k, size) == Pos(i, size) + k
  {
    DivModUnique(i + k, size, i / size, i % size + k);
  }

  /** The offset computation of haveWritten and haveRead. */
  function MoveOffset(offset: nat, count: nat, size: nat): nat
    requires offset < size && count <= size
  {
    if offset < size - count then offset + count else count - (size - offset)
  }

  lemma MoveOffsetIsPos(i: nat, count: nat, size: nat)
    requires 0 < size && count <= size
    ensures MoveOffset(Pos(i, size), count, size) == Pos(i + count, size)
  {
    var o := i % size;
    if o + count < size {
      DivModUnique(i + count, size, i / size, o + count);
    } else {
      assert (i / size + 1) * size == (i / size) * size + size;
      DivModUnique(i + count, size, i / size + 1, o + count - size);
    }
  }

  function Min(a: nat, b: nat): (m: nat)
    ensures m <= a && m <= b && (m == a || m == b)
  {
    if a < b then a else b
  }

  /** How far a side is: idle; copying at most limit elements, done of them copied; count updated, to the
      value seen, but offset not moved. */
  datatype Side = Idle | Copying(limit: nat, done: nat) | Counted(count: nat, seen: nat)

  class CircBuffer {
    const size: nat
    const buffer: array<T>
    var readOffset: nat
    var writeOffset: nat
    var dataAvailable: nat

    // The progress of the two sides; what the producer has copied in and the consumer copied out without
    // counting it yet; everything counted as written; and how much of it is counted as read.
    var producer: Side
    var consumer: Side
    ghost var staged: seq<T>
    ghost var taken: seq<T>
    ghost var written: seq<T>
    ghost var consumed: nat

    ghost predicate Counters()
      reads this
    {
      && buffer.Length == size
      && consumed + |taken| <= |written| <= consumed + size
      && dataAvailable == |written| - consumed
      && taken == written[consumed..consumed + |taken|]
    }

    ghost predicate ProducerOk()
      reads this
    {
      && consumed <= |written|
      && (producer.Counted? ==> 0 < size && producer.count <= Min(size, |written|)
                                && |written| <= consumed + producer.seen <= consumed + size
                                && writeOffset == Pos(|written| - producer.count, size))
      && (!producer.Counted? ==> writeOffset == Pos(|written|, size))
      && (producer.Copying? ==>
            && |staged| == producer.done <= producer.limit <= size - writeOffset
            && |written| + producer.limit <= consumed + size)
      && (!producer.Copying? ==> staged == [])
    }

    ghost predicate ConsumerOk()
      reads this
    {
      && (consumer.Counted? ==> 0 < size && consumer.count <= Min(size, consumed)
                                && consumed + consumer.seen <= |written|
                                && readOffset == Pos(consumed - consumer.count, size))
      && (!consumer.Counted? ==> readOffset == Pos(consumed, size))
      && (consumer.Copying? ==>
            |taken| == consumer.done <= consumer.limit <= size - readOffset && consumed + consumer.limit <= |written|)
      && (!consumer.Copying? ==> taken == [])
    }

    ghost predicate Stored()
      reads this, buffer
    {
      && buffer.Length == size
      && (forall i :: consumed <= i < |written| && Pos(i, size) < size ==>
            buffer[Pos(i, size)] == written[i])
      && (forall k :: 0 <= k < |staged| && writeOffset + k < size ==> buffer[writeOffset + k] == staged[k])
    }

    ghost predicate Valid()
      reads this, buffer
    {
      Counters() && ProducerOk() && ConsumerOk() && Stored()
    }

    constructor (bufferSize: nat)
      ensures Valid() && size == bufferSize && fresh(buffer)
      ensures producer == consumer == Idle && consumed == 0 && Input() == Output() == []
      ensures written == staged == taken == []
    {
      hide Pos;
      PosZero(bufferSize);
      size := bufferSize;
      buffer := new T[bufferSize](_ => 0);
      readOffset, writeOffset, dataAvailable := 0, 0, 0;
      producer, consumer := Idle, Idle;
      staged, taken, written, consumed := [], [], [], 0;
    }

    lemma Progress()
      requires Valid()
      ensures consumed + |taken| <= |written| <= consumed + size
      ensures |written| + |staged| <= consumed + size
      ensures taken == written[consumed..consumed + |taken|]
      ensures written[..consumed] + taken == written[..consumed + |taken|]
    {
    }

    /** Producer: reads the count and determines how much can be written before the array ends. */
    method BeginWrite() returns (limit: nat)
      requires Valid() && producer == Idle
      modifies `producer
      ensures Valid() && producer == Copying(limit, 0)
      ensures limit == Min(size - dataAvailable, size - writeOffset)
    {
      hide Pos;
      PosRange(|written|, size);
      limit := Min(size - dataAvailable, size - writeOffset);
      producer := Copying(limit, 0);
    }

    /** Producer: copies one element, outside the region the consumer may read. */
    method CopyIn(x: T)
      requires Valid() && producer.Copying? && producer.done < producer.limit
      modifies buffer, `staged, `producer
      ensures Valid() && staged == old(staged) + [x]
      ensures producer == Copying(old(producer.limit), old(producer.done) + 1)
      ensures forall i :: consumed <= i < |written| ==> Pos(i, size) != writeOffset + old(producer.done)
    {
      hide Pos;
      var k := writeOffset + producer.done;
      PosAhead(|written|, producer.done, size);
      forall i | consumed <= i < |written|
        ensures Pos(i, size) != k
      {
        PosDistinct(i, |written| + producer.done, size);
      }
      buffer[k] := x;
      staged := staged + [x];
      producer := Copying(producer.limit, producer.done + 1);
    }

    /** Producer: publishes what it copied by raising the count. */
    method CountWritten()
      requires Valid() && producer.Copying? && producer.done > 0
      modifies `dataAvailable, `producer, `written, `staged
      ensures Valid() && producer == Counted(old(producer.done), dataAvailable)
      ensures dataAvailable == old(dataAvailable) + old(producer.done)
      ensures written == old(written + staged) && staged == []
    {
      hide Pos;
      var count := producer.done;
      forall i | |written| <= i < |written| + count
        ensures Pos(i, size) == writeOffset + (i - |written|)
      {
        PosAhead(|written|, i - |written|, size);
      }
      dataAvailable := dataAvailable + count;
      written := written + staged;
      staged := [];
      producer := Counted(count, dataAvailable);
    }

    /** Producer: moves the offset; to go on it uses the count it saw when publishing. */
    method MoveWriteOffset(goOn: bool) returns (limit: nat)
      requires Valid() && producer.Counted?
      modifies `writeOffset, `producer
      ensures Valid() && producer == if goOn then Copying(limit, 0) else Idle
      ensures limit == Min(size - old(producer.seen), size - writeOffset)
    {
      hide Pos;
      PosRange(|written|, size);
      MoveOffsetIsPos(|written| - producer.count, producer.count, size);
      writeOffset := MoveOffset(writeOffset, producer.count, size);
      limit := Min(size - producer.seen, size - writeOffset);
      producer := if goOn then Copying(limit, 0) else Idle;
    }

    /** Consumer: reads the count and determines how much can be read before the array ends. */
    method BeginRead() returns (limit: nat)
      requires Valid() && consumer == Idle
      modifies `consumer
      ensures Valid() && consumer == Copying(limit, 0)
      ensures limit == Min(dataAvailable, size - readOffset)
    {
      hide Pos;
      PosRange(consumed, size);
      limit := Min(dataAvailable, size - readOffset);
      consumer := Copying(limit, 0);
    }

    /** Consumer: copies one element out; it is the next one written. */
    method CopyOut() returns (x: T)
      requires Valid() && consumer.Copying? && consumer.done < consumer.limit
      modifies `taken, `consumer
      ensures Valid() && taken == old(taken) + [x]
      ensures consumed + |old(taken)| < |written| && x == written[consumed + |old(taken)|]
      ensures consumer == Copying(old(consumer.limit), old(consumer.done) + 1)
    {
      hide Pos;
      PosAhead(consumed, consumer.done, size);
      x := buffer[readOffset + consumer.done];
      taken := taken + [x];
      consumer := Copying(consumer.limit, consumer.done + 1);
    }

    /** Consumer: frees what it copied by lowering the count. */
    method CountRead()
      requires Valid() && consumer.Copying? && consumer.done > 0
      modifies `dataAvailable, `consumer, `consumed, `taken
      ensures Valid() && consumer == Counted(old(consumer.done), dataAvailable)
      ensures dataAvailable == old(dataAvailable) - old(consumer.done)
      ensures consumed == old(consumed + |taken|) && taken == []
    {
      hide Pos;
      dataAvailable := dataAvailable - consumer.done;
      consumed := consumed + consumer.done;
      taken := [];
      consumer := Counted(consumer.done, dataAvailable);
    }

    /** Consumer: moves the offset; to go on it uses the count it saw when freeing. */
    method MoveReadOffset(goOn: bool) returns (limit: nat)
      requires Valid() && consumer.Counted?
      modifies `readOffset, `consumer
      ensures Valid() && consumer == if goOn then Copying(limit, 0) else Idle
      ensures limit == Min(old(consumer.seen), size - readOffset)
    {
      hide Pos;
      PosRange(consumed, size);
      MoveOffsetIsPos(consumed - consumer.count, consumer.count, size);
      readOffset := MoveOffset(readOffset, consumer.count, size);
      limit := Min(consumer.seen, size - readOffset);
      consumer := if goOn then Copying(limit, 0) else Idle;
    }

    /** One chunk of a write: copies count elements and counts them. */
    method WriteChunk(data: seq<T>, start: nat, count: nat)
      requires Valid() && producer.Copying? && producer.done == 0
      requires 0 < count <= producer.limit && start + count <= |data|
      modifies buffer, `staged, `producer, `dataAvailable, `written
      ensures Valid() && producer == Counted(count, dataAvailable)
      ensures written == old(written) + data[start..start + count]
      ensures dataAvailable == old(dataAvailable) + count
    {
      hide Pos;
      ghost var limit := producer.limit;
      for k := 0 to count
        invariant Valid() && producer == Copying(limit, k)
        invariant staged == data[start..start + k]
        invariant written == old(written) && dataAvailable == old(dataAvailable)
      {
        CopyIn(data[start + k]);
      }
      CountWritten();
    }

    method GiveUpWrite()
      requires Valid() && producer.Copying? && producer.done == 0
      modifies `producer
      ensures Valid() && producer == Idle
    {
      producer := Idle;
    }

    method GiveUpRead()
      requires Valid() && consumer.Copying? && consumer.done == 0
      modifies `consumer
      ensures Valid() && consumer == Idle
    {
      consumer := Idle;
    }

    lemma Inside()
      requires Valid()
      ensures dataAvailable == |written| - consumed <= size
      ensures size > 0 && !producer.Counted? ==> writeOffset < size
      ensures size > 0 && !consumer.Counted? ==> readOffset < size
    {
    }

    /** write: with nothing else going on, everything that fits is written, across the array's end. */
    method Write(data: seq<T>) returns (transferred: nat)
      requires Valid() && producer == Idle && |data| > 0
      modifies buffer, `staged, `producer, `dataAvailable, `written, `writeOffset
      ensures Valid() && producer == Idle
      ensures transferred == Min(|data|, size - old(dataAvailable))
      ensures written == old(written) + data[..transferred]
    {
      hide Pos, CircBuffer.Counters, CircBuffer.ProducerOk, CircBuffer.ConsumerOk, CircBuffer.Stored;
      Inside();
      var limit: nat := BeginWrite();
      transferred := 0;
      while limit > 0 && transferred < |data|
        invariant Valid() && transferred <= |data|
        invariant producer == if transferred < |data| then Copying(limit, 0) else Idle
        invariant dataAvailable == old(dataAvailable) + transferred <= size
        invariant written == old(written) + data[..transferred]
        invariant transferred < |data| && limit == 0 ==> dataAvailable == size
        decreases |data| - transferred
      {
        var rest := |data| - transferred;
        var count := if limit >= rest then rest else limit;
        WriteChunk(data, transferred, count);
        limit := MoveWriteOffset(count < rest);
        transferred := transferred + count;
        Inside();
      }
      if transferred < |data| { GiveUpWrite(); }
    }

    method ReadChunk(count: nat) returns (out: seq<T>)
      requires Valid() && consumer.Copying? && consumer.done == 0 && 0 < count <= consumer.limit
      modifies `taken, `consumer, `dataAvailable, `consumed
      ensures Valid() && consumer == Counted(count, dataAvailable)
      ensures old(consumed) + count == consumed <= |written|
      ensures out == written[old(consumed)..consumed]
      ensures dataAvailable == old(dataAvailable) - count
    {
      hide Pos;
      ghost var limit := consumer.limit;
      out := [];
      for k := 0 to count
        invariant Valid() && consumer == Copying(limit, k)
        invariant consumed == old(consumed) && dataAvailable == old(dataAvailable)
        invariant out == taken && |out| == k
      {
        var x := CopyOut();
        out := out + [x];
      }
      CountRead();
    }

    /** read: with nothing else going on, everything available up to the wanted count is read, in order. */
    method Read(wanted: nat) returns (out: seq<T>)
      requires Valid() && consumer == Idle && wanted > 0
      modifies `taken, `consumer, `dataAvailable, `consumed, `readOffset
      ensures Valid() && consumer == Idle
      ensures |out| == Min(wanted, old(dataAvailable))
      ensures consumed == old(consumed) + |out| <= |written|
      ensures out == written[old(consumed)..consumed]
    {
      hide Pos, CircBuffer.Counters, CircBuffer.ProducerOk, CircBuffer.ConsumerOk, CircBuffer.Stored;
      Inside();
      var limit: nat := BeginRead();
      out := [];
      while limit > 0 && |out| < wanted
        invariant Valid() && |out| <= wanted
        invariant consumer == if |out| < wanted then Copying(limit, 0) else Idle
        invariant dataAvailable == old(dataAvailable) - |out|
        invariant old(consumed) + |out| == consumed <= |written|
        invariant out == written[old(consumed)..consumed]
        invariant |out| < wanted && limit == 0 ==> dataAvailable == 0
        decreases wanted - |out|
      {
        var rest := wanted - |out|;
        var count := if limit >= rest then rest else limit;
        var chunk := ReadChunk(count);
        limit := MoveReadOffset(count < rest);
        out := out + chunk;
        Inside();
      }
      if |out| < wanted { GiveUpRead(); }
    }

    /** Everything handed in by the producer and handed out by the consumer so far. */
    ghost function Input(): seq<T>
      reads this
    {
      written + staged
    }

    ghost function Output(): seq<T>
      requires consumed <= |written|
      reads this
    {
      written[..consumed] + taken
    }

    lemma OutputIsPrefix()
      requires Valid()
      ensures consumed <= |written| && Output() <= Input()
      ensures |Input()| <= |Output()| + size
    {
    }

    /** The producer's next step; on says whether to copy on or to finish the chunk, and go on after it. */
    method PutStep(x: T, on: bool) returns (accepted: bool)
      requires Valid()
      modifies buffer, `staged, `producer, `dataAvailable, `written, `writeOffset
      ensures Valid()
      ensures Input() == if accepted then old(Input()) + [x] else old(Input())
      ensures Output() == old(Output())
      ensures accepted <==> old(producer).Copying? && on && old(producer.done) < old(producer.limit)
      ensures match old(producer) {
                case Idle => producer == Copying(Min(size - old(dataAvailable), size - writeOffset), 0)
                case Copying(limit, done) =>
                  producer == if accepted then Copying(limit, done + 1)
                              else if done > 0 then Counted(done, old(dataAvailable) + done) else Idle
                case Counted(_, seen) =>
                  producer == if on then Copying(Min(size - seen, size - writeOffset), 0) else Idle
              }
    {
      hide Pos, CircBuffer.Counters, CircBuffer.ProducerOk, CircBuffer.ConsumerOk, CircBuffer.Stored;
      OutputIsPrefix();
      accepted := false;
      match producer
      case Idle => var limit := BeginWrite();
      case Copying(limit, done) =>
        if on && done < limit {
          CopyIn(x);
          accepted := true;
          assert written + staged == old(written + staged) + [x];
        } else if done > 0 {
          CountWritten();
          assert written[..consumed] == old(written[..consumed]);
        } else {
          GiveUpWrite();
        }
      case Counted(_, _) => var limit := MoveWriteOffset(on);
    }

    /** The consumer's next step. */
    method TakeStep(on: bool) returns (out: Option<T>)
      requires Valid()
      modifies `taken, `consumer, `dataAvailable, `consumed, `readOffset
      ensures Valid()
      ensures Input() == old(Input())
      ensures Output() == if out.Some? then old(Output()) + [out.value] else old(Output())
      ensures out.Some? <==> old(consumer).Copying? && on && old(consumer.done) < old(consumer.limit)
      ensures match old(consumer) {
                case Idle => consumer == Copying(Min(old(dataAvailable), size - readOffset), 0)
                case Copying(limit, done) =>
                  consumer == if out.Some? then Copying(limit, done + 1)
                              else if done > 0 then Counted(done, old(dataAvailable) - done) else Idle
                case Counted(_, seen) => consumer == if on then Copying(Min(seen, size - readOffset), 0) else Idle
              }
    {
      hide Pos, CircBuffer.Counters, CircBuffer.ProducerOk, CircBuffer.ConsumerOk, CircBuffer.Stored;
      OutputIsPrefix();
      out := None;
      match consumer
      case Idle => var limit := BeginRead();
      case Copying(limit, done) =>
        if on && done < limit {
          var x := CopyOut();
          out := Some(x);
          assert written[..consumed] + taken == old(written[..consumed] + taken) + [x];
        } else if done > 0 {
          Progress();
          CountRead();
        } else {
          GiveUpRead();
        }
      case Counted(_, _) => var limit := MoveReadOffset(on);
      OutputIsPrefix();
    }
  }

  lemma PosZero(size: nat)
    ensures Pos(0, size) == 0
  {
    if size > 0 { ModSmall(0, size); }
  }

  lemma PosRange(i: nat, size: nat)
    ensures Pos(i, size) <= size
  {
  }

  /** A schedule decides which side takes its next step and whether it then goes on with its chunk. */
  datatype Action = Put(x: T, on: bool) | Take(on: bool)

  /** The elements are those of the puts at the given places of the schedule, in order. */
  ghost predicate IsSelection(elements: seq<T>, schedule: seq<Action>, places: seq<nat>) {
    && |elements| == |places|
    && (forall k :: 0 <= k < |places| ==>
          places[k] < |schedule| && schedule[places[k]].Put? && schedule[places[k]].x == elements[k])
    && (forall j, k :: 0 <= j < k < |places| ==> places[j] < places[k])
  }

  lemma NothingSelected(schedule: seq<Action>)
    ensures IsSelection([], schedule, [])
  {
  }

  lemma Selects(elements: seq<T>, schedule: seq<Action>, places: seq<nat>, n: nat)
    requires IsSelection(elements, schedule, places) && n < |schedule| && schedule[n].Put?
    requires forall k <- places :: k < n
    ensures IsSelection(elements + [schedule[n].x], schedule, places + [n])
  {
    assert forall k :: 0 <= k < |places| ==> places[k] in places;
  }

  /** Any interleaving of the two sides' steps: what was read is a prefix of what was written. */
  method Run(size: nat, schedule: seq<Action>)
    returns (ring: CircBuffer, input: seq<T>, output: seq<T>, ghost places: seq<nat>)
    ensures fresh(ring) && ring.Valid()
    ensures input == ring.Input() && ring.consumed <= |ring.written| && output == ring.Output()
    ensures IsSelection(input, schedule, places)
    ensures output <= input
    ensures |input| <= |output| + size
  {
    hide Pos, CircBuffer.Valid, CircBuffer.Input, CircBuffer.Output, IsSelection, Min;
    NothingSelected(schedule);
    ring := new CircBuffer(size);
    input, output, places := [], [], [];
    ring.OutputIsPrefix();
    for n := 0 to |schedule|
      invariant fresh(ring) && fresh(ring.buffer) && ring.Valid() && ring.size == size
      invariant IsSelection(input, schedule, places) && forall k <- places :: k < n
      invariant input == ring.Input() && ring.consumed <= |ring.written| && output == ring.Output()
    {
      match schedule[n] {
        case Put(x, on) =>
          var accepted := ring.PutStep(x, on);
          if accepted {
            Selects(input, schedule, places, n);
            input := input + [x];
            places := places + [n];
          }
        case Take(on) =>
          var out := ring.TakeStep(on);
          if out.Some? { output := output + [out.value]; }
      }
      ring.OutputIsPrefix();
    }
    ring.OutputIsPrefix();
  }
}
