/** Structures packed without gaps, some of whose fields have a size known only at run time.  Only the ends of
    those are stored; every offset is computed from them, in size_t arithmetic. */
module DynamicPacking {
  import opened Powers
  import opened Words

  /** A field of a type of that many bytes, or a vector of elements of that many bytes with bounds on how many;
      a placeholder for bytes is a vector of elements of one byte. */
  datatype Field = Static(size: nat) | Dynamic(elem: nat, min: nat, max: nat)

  /** size_t arithmetic. */
  function Wrap(n: nat): (r: nat)
    ensures r < WORD
  {
    n % WORD
  }

  lemma WrapSum(x: nat, y: nat)
    ensures Wrap(Wrap(x) + y) == Wrap(x + y) == Wrap(x + Wrap(y))
  {
    ModEqual(x + y, Wrap(x) + y, WORD, x / WORD);
    ModEqual(x + y, x + Wrap(y), WORD, y / WORD);
    assert 0 <= x / WORD && 0 <= y / WORD;
  }

  lemma WrapSmall(x: nat)
    ensures Wrap(x) == x <==> x < WORD
  {
    if x < WORD { ModSmall(x, WORD); }
  }

  /** How many fields are dynamic. */
  function Dyn(fields: seq<Field>): nat {
    if fields == [] then 0 else (if fields[0].Dynamic? then 1 else 0) + Dyn(fields[1..])
  }

  /** The sizes that belong to the fields behind the first. */
  function Rest(fields: seq<Field>, sizes: seq<nat>): (rest: seq<nat>)
    requires fields != [] && |sizes| == Dyn(fields)
    ensures |rest| == Dyn(fields[1..])
  {
    if fields[0].Dynamic? then sizes[1..] else sizes
  }

  /** The true width of the first field. */
  function Width(fields: seq<Field>, sizes: seq<nat>): nat
    requires fields != [] && |sizes| == Dyn(fields)
  {
    match fields[0] case Static(size) => size case Dynamic(elem, _, _) => elem * sizes[0]
  }

  /** The sum of the true widths of the first i fields: the layout every offset is measured against. */
  function Offset(fields: seq<Field>, sizes: seq<nat>, i: nat): nat
    requires |sizes| == Dyn(fields) && i <= |fields|
  {
    if i == 0 then 0 else Width(fields, sizes) + Offset(fields[1..], Rest(fields, sizes), i - 1)
  }

  function Total(fields: seq<Field>, sizes: seq<nat>): nat
    requires |sizes| == Dyn(fields)
  {
    Offset(fields, sizes, |fields|)
  }

  /** AccumSize, which is sizeInBytes. */
  function AccumSize(fields: seq<Field>, sizes: seq<nat>): nat
    requires |sizes| == Dyn(fields)
  {
    if fields == [] then 0
    else
      match fields[0]
      case Static(size) => Wrap(size + AccumSize(fields[1..], sizes))
      case Dynamic(elem, _, _) => Wrap(Wrap(elem * sizes[0]) + AccumSize(fields[1..], sizes[1..]))
  }

  /** SizeOfTypes; only used on static fields. */
  function SizeOfTypes(fields: seq<Field>): nat {
    if fields == [] then 0
    else Wrap((match fields[0] case Static(size) => size case Dynamic(elem, _, _) => elem) + SizeOfTypes(fields[1..]))
  }

  /** The size of the static fields behind the last dynamic one. */
  function StaticTailSize(fields: seq<Field>): nat {
    if fields == [] then 0
    else if Dyn(fields[1..]) <= 0 then SizeOfTypes(fields[1..])
    else StaticTailSize(fields[1..])
  }

  /** The accumulator array: the end of every dynamic field. */
  function Accums(fields: seq<Field>, sizes: seq<nat>, accum: nat): (a: seq<nat>)
    requires |sizes| == Dyn(fields)
    ensures |a| == Dyn(fields)
  {
    if fields == [] then []
    else
      match fields[0]
      case Static(size) => Accums(fields[1..], sizes, Wrap(accum + size))
      case Dynamic(elem, _, _) =>
        var end := Wrap(accum + Wrap(elem * sizes[0]));
        [end] + Accums(fields[1..], sizes[1..], end)
  }

  /** AccumVecPopulator: writes the array from index ptr on. */
  method Populate(fields: seq<Field>, target: array<nat>, ptr: nat, accum: nat, sizes: seq<nat>)
    requires |sizes| == Dyn(fields) && ptr + Dyn(fields) <= target.Length
    modifies target
    ensures target[..] == old(target[..])[..ptr] + Accums(fields, sizes, accum) + old(target[..])[ptr + Dyn(fields)..]
    decreases |fields|
  {
    hide Wrap, Accums, Dyn;
    ghost var before := target[..];
    AccumsStep(fields, sizes, accum);
    if fields != [] {
      match fields[0]
      case Static(size) => Populate(fields[1..], target, ptr, Wrap(accum + size), sizes);
      case Dynamic(elem, _, _) =>
        var end := Wrap(accum + Wrap(elem * sizes[0]));
        target[ptr] := end;
        assert target[..] == before[ptr := end];
        Populate(fields[1..], target, ptr + 1, end, sizes[1..]);
        Splice(before, ptr, end, Accums(fields[1..], sizes[1..], end), target[..]);
    }
  }

  lemma AccumsStep(fields: seq<Field>, sizes: seq<nat>, accum: nat)
    requires |sizes| == Dyn(fields)
    ensures fields == [] ==> Dyn(fields) == 0 && Accums(fields, sizes, accum) == []
    ensures fields != [] && fields[0].Static? ==>
              Dyn(fields) == Dyn(fields[1..])
              && Accums(fields, sizes, accum) == Accums(fields[1..], sizes, Wrap(accum + fields[0].size))
    ensures fields != [] && fields[0].Dynamic? ==>
              Dyn(fields) == 1 + Dyn(fields[1..])
              && var end := Wrap(accum + Wrap(fields[0].elem * sizes[0]));
                 Accums(fields, sizes, accum) == [end] + Accums(fields[1..], sizes[1..], end)
  {
  }

  lemma Splice(before: seq<nat>, ptr: nat, end: nat, ends: seq<nat>, after: seq<nat>)
    requires ptr + 1 + |ends| <= |before|
    requires after == before[ptr := end][..ptr + 1] + ends + before[ptr := end][ptr + 1 + |ends|..]
    ensures after == before[..ptr] + ([end] + ends) + before[ptr + 1 + |ends|..]
  {
  }

  function ElemOffset(fields: seq<Field>, accums: seq<nat>, i: nat): nat
    requires |accums| == Dyn(fields) && i <= |fields|
  {
    var d := Dyn(fields[..i]);
    DynPrefix(fields, i);
    if d > 0 then Wrap(accums[d - 1] + StaticTailSize(fields[..i])) else SizeOfTypes(fields[..i])
  }

  function StructSizeInBytes(fields: seq<Field>, accums: seq<nat>): nat
    requires |accums| == Dyn(fields) > 0
  {
    Wrap(StaticTailSize(fields) + accums[Dyn(fields) - 1])
  }

  lemma {:induction false} DynPrefix(fields: seq<Field>, i: nat)
    requires i <= |fields|
    ensures Dyn(fields[..i]) <= Dyn(fields)
  {
    if i > 0 {
      assert fields[..i][1..] == fields[1..][..i - 1] && fields[..i][0] == fields[0];
      DynPrefix(fields[1..], i - 1);
    }
  }

  /** Where there is nothing dynamic before a field, its offset is a sum of constants. */
  lemma {:induction false} StaticOffset(fields: seq<Field>, sizes: seq<nat>, i: nat)
    requires |sizes| == Dyn(fields) && i <= |fields| && Dyn(fields[..i]) == 0
    ensures SizeOfTypes(fields[..i]) == Wrap(Offset(fields, sizes, i))
  {
    hide Wrap;
    if i == 0 {
      WrapSmall(0);
    } else {
      assert fields[..i][1..] == fields[1..][..i - 1] && fields[..i][0] == fields[0];
      StaticOffset(fields[1..], Rest(fields, sizes), i - 1);
      WrapSum(Width(fields, sizes), Offset(fields[1..], Rest(fields, sizes), i - 1));
    }
  }

  lemma {:induction false} AccumOffset(fields: seq<Field>, sizes: seq<nat>, accum: nat, i: nat)
    requires |sizes| == Dyn(fields) && i <= |fields| && Dyn(fields[..i]) > 0
    ensures Dyn(fields[..i]) <= Dyn(fields)
    ensures Wrap(Accums(fields, sizes, accum)[Dyn(fields[..i]) - 1] + StaticTailSize(fields[..i]))
            == Wrap(accum + Offset(fields, sizes, i))
  {
    hide Wrap, Accums;
    DynPrefix(fields, i);
    AccumsStep(fields, sizes, accum);
    var prefix, rest, later := fields[..i], fields[1..], fields[1..][..i - 1];
    assert prefix[1..] == later && prefix[0] == fields[0];
    var d, width, behind := Dyn(later), Width(fields, sizes), Offset(rest, Rest(fields, sizes), i - 1);
    match fields[0]
    case Static(size) =>
      AccumOffset(rest, sizes, Wrap(accum + size), i - 1);
      WrapSum(accum + size, behind);
    case Dynamic(elem, _, _) =>
      var end := Wrap(accum + Wrap(elem * sizes[0]));
      WrapSum(accum, width);
      WrapSum(accum + width, behind);
      if d == 0 {
        StaticOffset(rest, sizes[1..], i - 1);
        WrapSum(end, behind);
      } else {
        AccumOffset(rest, sizes[1..], end, i - 1);
      }
  }

  /** Offsets from the accumulator array are the sums of the widths before them, for all sizes. */
  lemma OffsetsAreSums(fields: seq<Field>, sizes: seq<nat>, i: nat)
    requires |sizes| == Dyn(fields) && i <= |fields|
    ensures ElemOffset(fields, Accums(fields, sizes, 0), i) == Wrap(Offset(fields, sizes, i))
  {
    hide Wrap;
    if Dyn(fields[..i]) > 0 { AccumOffset(fields, sizes, 0, i); } else { StaticOffset(fields, sizes, i); }
  }

  lemma {:induction false} SizeIsSum(fields: seq<Field>, sizes: seq<nat>)
    requires |sizes| == Dyn(fields)
    ensures AccumSize(fields, sizes) == Wrap(Total(fields, sizes))
  {
    hide Wrap;
    if fields == [] {
      WrapSmall(0);
    } else {
      var rest := Rest(fields, sizes);
      SizeIsSum(fields[1..], rest);
      WrapSum(Width(fields, sizes), Total(fields[1..], rest));
      WrapSum(Width(fields, sizes), Wrap(Total(fields[1..], rest)));
    }
  }

  /** The size computed from the array is the size computed from the sizes. */
  lemma StructSize(fields: seq<Field>, sizes: seq<nat>)
    requires |sizes| == Dyn(fields) > 0
    ensures StructSizeInBytes(fields, Accums(fields, sizes, 0)) == AccumSize(fields, sizes)
  {
    hide Wrap, Accums, AccumSize, StaticTailSize, Offset;
    assert fields[..|fields|] == fields;
    AccumOffset(fields, sizes, 0, |fields|);
    SizeIsSum(fields, sizes);
  }

  /** What the computed size is, field by field: a static field takes the size of its type, a dynamic one that of
      its element times the number of elements, and fields one after the other take the sum. */
  lemma SizeOfOne(size: nat, elem: nat, min: nat, max: nat, n: nat)
    ensures AccumSize([], []) == 0
    ensures AccumSize([Static(size)], []) == size % WORD
    ensures AccumSize([Dynamic(elem, min, max)], [n]) == (elem * n) % WORD
  {
    hide Wrap;
    var fields, sizes := [Dynamic(elem, min, max)], [n];
    assert fields[1..] == [] && sizes[1..] == [] && [Static(size)][1..] == [];
    WrapSum(elem * n, 0);
    ModuloIs(elem * n);
    ModuloIs(size);
  }

  lemma ModuloIs(n: nat)
    ensures Wrap(n) == n % WORD
  {
  }

  lemma {:induction false} SizesAdd(a: seq<Field>, b: seq<Field>, s: seq<nat>, t: seq<nat>)
    requires |s| == Dyn(a) && |t| == Dyn(b)
    ensures |s + t| == Dyn(a + b)
    ensures AccumSize(a + b, s + t) == (AccumSize(a, s) + AccumSize(b, t)) % WORD
  {
    hide Wrap, AccumSize;
    ModuloIs(AccumSize(a, s) + AccumSize(b, t));
    if a == [] {
      assert a + b == b && s + t == t;
      SizeOfOne(0, 0, 0, 0, 0);
      SizeIsSum(b, t);
      WrapSum(Total(b, t), 0);
    } else {
      assert (a + b)[1..] == a[1..] + b && (a + b)[0] == a[0];
      SizesAdd(a[1..], b, Rest(a, s), t);
      assert Rest(a + b, s + t) == Rest(a, s) + t;
      ModuloIs(AccumSize(a[1..], Rest(a, s)) + AccumSize(b, t));
      FirstWidth(a, s);
      FirstWidth(a + b, s + t);
      assert Width(a + b, s + t) == Width(a, s);
      WrapTwice(Width(a, s), AccumSize(a[1..], Rest(a, s)), AccumSize(b, t));
    }
  }

  lemma WrapTwice(x: nat, y: nat, z: nat)
    ensures Wrap(x + Wrap(y + z)) == Wrap(Wrap(x + y) + z)
  {
    hide Wrap;
    WrapSum(x, y + z);
    WrapSum(x + y, z);
  }

  lemma FirstWidth(fields: seq<Field>, sizes: seq<nat>)
    requires fields != [] && |sizes| == Dyn(fields)
    ensures AccumSize(fields, sizes) == Wrap(Width(fields, sizes) + AccumSize(fields[1..], Rest(fields, sizes)))
  {
    hide Wrap;
    WrapSum(Width(fields, sizes), AccumSize(fields[1..], Rest(fields, sizes)));
  }

  /** What is behind the last dynamic field. */
  function Tail(fields: seq<Field>): (tail: seq<Field>)
    ensures Dyn(tail) == 0
  {
    if Dyn(fields) == 0 then fields else Tail(fields[1..])
  }

  /** With a dynamic field the static tail is the size of all fields behind the last one. */
  lemma {:induction false} TailSize(fields: seq<Field>)
    requires Dyn(fields) > 0
    ensures StaticTailSize(fields) == SizeOfTypes(Tail(fields)) == AccumSize(Tail(fields), [])
  {
    if Dyn(fields[1..]) > 0 { TailSize(fields[1..]); }
    StaticSize(Tail(fields));
  }

  lemma {:induction false} StaticSize(fields: seq<Field>)
    requires Dyn(fields) == 0
    ensures SizeOfTypes(fields) == AccumSize(fields, [])
  {
    if fields != [] { StaticSize(fields[1..]); }
  }

  /** Without a dynamic field the static tail leaves out the first field, so it is the whole size only if that
      field takes no room. */
  lemma NoDynamicField(fields: seq<Field>)
    requires fields != [] && Dyn(fields) == 0 && fields[0].size < WORD
    ensures StaticTailSize(fields) == SizeOfTypes(fields[1..])
    ensures StaticTailSize(fields) == AccumSize(fields, []) <==> fields[0].size == 0
  {
    hide Wrap;
    StaticSize(fields[1..]);
    WrapShift(fields[0].size, AccumSize(fields[1..], []));
  }

  lemma WrapShift(a: nat, b: nat)
    requires a < WORD && b < WORD
    ensures Wrap(a + b) == b <==> a == 0
  {
    if a + b < WORD { WrapSmall(a + b); } else { ModEqual(a + b, a + b - WORD, WORD, 1); WrapSmall(a + b - WORD); }
  }

  lemma {:induction false} OffsetStep(fields: seq<Field>, sizes: seq<nat>, i: nat)
    requires |sizes| == Dyn(fields) && i < |fields|
    ensures Offset(fields, sizes, i) <= Offset(fields, sizes, i + 1) <= Total(fields, sizes)
    ensures fields[i].Static? ==> Offset(fields, sizes, i + 1) == Offset(fields, sizes, i) + fields[i].size
  {
    if i > 0 {
      OffsetStep(fields[1..], Rest(fields, sizes), i - 1);
    } else if |fields| > 1 {
      OffsetStep(fields[1..], Rest(fields, sizes), 0);
    }
  }

  lemma {:induction false} OffsetMonotone(fields: seq<Field>, sizes: seq<nat>, i: nat, j: nat)
    requires |sizes| == Dyn(fields) && i <= j <= |fields|
    ensures Offset(fields, sizes, i) <= Offset(fields, sizes, j) <= Total(fields, sizes)
  {
    if i < j {
      OffsetMonotone(fields, sizes, i, j - 1);
      OffsetStep(fields, sizes, j - 1);
    } else if j < |fields| {
      OffsetStep(fields, sizes, j);
    }
  }

  /** The layout is exact precisely when the whole structure can be addressed. */
  lemma ExactWhenAddressable(fields: seq<Field>, sizes: seq<nat>)
    requires |sizes| == Dyn(fields)
    ensures AccumSize(fields, sizes) == Total(fields, sizes) <==> Total(fields, sizes) < WORD
    ensures Total(fields, sizes) < WORD ==> forall i | 0 <= i <= |fields| ::
              ElemOffset(fields, Accums(fields, sizes, 0), i) == Offset(fields, sizes, i)
  {
    hide Wrap, ElemOffset, Accums, Offset;
    SizeIsSum(fields, sizes);
    WrapSmall(Total(fields, sizes));
    if Total(fields, sizes) < WORD {
      forall i | 0 <= i <= |fields|
        ensures ElemOffset(fields, Accums(fields, sizes, 0), i) == Offset(fields, sizes, i)
      {
        OffsetsAreSums(fields, sizes, i);
        OffsetMonotone(fields, sizes, i, |fields|);
        WrapSmall(Offset(fields, sizes, i));
      }
    }
  }

  /** The bytes of field i. */
  ghost function FieldBytes(data: seq<nat>, fields: seq<Field>, sizes: seq<nat>, i: nat): seq<nat>
    requires |sizes| == Dyn(fields) && i < |fields| && |data| == Total(fields, sizes)
  {
    OffsetStep(fields, sizes, i);
    data[Offset(fields, sizes, i)..Offset(fields, sizes, i + 1)]
  }

  /** The fields one after the other are the whole buffer. */
  lemma {:induction false} FieldsTile(data: seq<nat>, fields: seq<Field>, sizes: seq<nat>, k: nat)
    requires |sizes| == Dyn(fields) && k <= |fields| && |data| == Total(fields, sizes)
    ensures Offset(fields, sizes, k) <= |data|
    ensures data[..Offset(fields, sizes, k)] == Joined(data, fields, sizes, k)
  {
    OffsetMonotone(fields, sizes, 0, k);
    OffsetMonotone(fields, sizes, k, |fields|);
    if k > 0 {
      FieldsTile(data, fields, sizes, k - 1);
      OffsetStep(fields, sizes, k - 1);
    }
  }

  ghost function Joined(data: seq<nat>, fields: seq<Field>, sizes: seq<nat>, k: nat): seq<nat>
    requires |sizes| == Dyn(fields) && k <= |fields| && |data| == Total(fields, sizes)
  {
    if k == 0 then [] else Joined(data, fields, sizes, k - 1) + FieldBytes(data, fields, sizes, k - 1)
  }

  /** Writing a static field changes its bytes and no other field's. */
  method Set(data: array<nat>, fields: seq<Field>, accums: seq<nat>, i: nat, value: seq<nat>, ghost sizes: seq<nat>)
    requires |sizes| == Dyn(fields) && accums == Accums(fields, sizes, 0)
    requires i < |fields| && fields[i].Static? && |value| == fields[i].size
    requires data.Length == Total(fields, sizes) < WORD
    modifies data
    ensures FieldBytes(data[..], fields, sizes, i) == value
    ensures forall j | 0 <= j < |fields| && j != i ::
              FieldBytes(data[..], fields, sizes, j) == FieldBytes(old(data[..]), fields, sizes, j)
  {
    hide Offset, ElemOffset, Accums, Dyn;
    ExactWhenAddressable(fields, sizes);
    OffsetStep(fields, sizes, i);
    CopyIn(data, ElemOffset(fields, accums, i), value);
    forall j | 0 <= j < |fields| && j != i
      ensures FieldBytes(data[..], fields, sizes, j) == FieldBytes(old(data[..]), fields, sizes, j)
    {
      if j < i { OffsetMonotone(fields, sizes, j + 1, i); } else { OffsetMonotone(fields, sizes, i + 1, j); }
      OffsetStep(fields, sizes, j);
      Outside(old(data[..]), data[..], Offset(fields, sizes, i), value,
              Offset(fields, sizes, j), Offset(fields, sizes, j + 1));
    }
  }

  /** The copy of the bytes of a value into the buffer. */
  method CopyIn(data: array<nat>, at: nat, value: seq<nat>)
    requires at + |value| <= data.Length
    modifies data
    ensures data[..] == old(data[..])[..at] + value + old(data[..])[at + |value|..]
  {
    for k := 0 to |value|
      invariant data[..] == old(data[..])[..at] + value[..k] + old(data[..])[at + k..]
    {
      data[at + k] := value[k];
    }
  }

  lemma Outside(before: seq<nat>, after: seq<nat>, at: nat, value: seq<nat>, i: nat, j: nat)
    requires at + |value| <= |before| && i <= j <= |before| && (j <= at || at + |value| <= i)
    requires after == before[..at] + value + before[at + |value|..]
    ensures after[i..j] == before[i..j]
  {
  }

  /** Every run-time size is within the bounds of its field. */
  predicate ValidSizes(fields: seq<Field>, sizes: seq<nat>) {
    |sizes| == Dyn(fields)
    && (fields != [] ==>
          && (fields[0].Dynamic? ==> fields[0].min <= sizes[0] <= fields[0].max)
          && ValidSizes(fields[1..], Rest(fields, sizes)))
  }

  /** FieldsTraits: the bounds of the whole, as computed. */
  function MinBytes(fields: seq<Field>): nat {
    if fields == [] then 0
    else
      match fields[0]
      case Static(size) => Wrap(size + MinBytes(fields[1..]))
      case Dynamic(elem, min, _) => Wrap(Wrap(min * elem) + MinBytes(fields[1..]))
  }

  function MaxBytes(fields: seq<Field>): nat {
    if fields == [] then 0
    else
      match fields[0]
      case Static(size) => Wrap(size + MaxBytes(fields[1..]))
      case Dynamic(elem, _, max) => Wrap(Wrap(max * elem) + MaxBytes(fields[1..]))
  }

  /** The sizes at the upper bounds. */
  function MaxSizes(fields: seq<Field>): (sizes: seq<nat>)
    ensures |sizes| == Dyn(fields)
  {
    if fields == [] then []
    else (match fields[0] case Static(_) => [] case Dynamic(_, _, max) => [max]) + MaxSizes(fields[1..])
  }

  function MinSizes(fields: seq<Field>): (sizes: seq<nat>)
    ensures |sizes| == Dyn(fields)
  {
    if fields == [] then []
    else (match fields[0] case Static(_) => [] case Dynamic(_, min, _) => [min]) + MinSizes(fields[1..])
  }

  predicate Bounded(fields: seq<Field>) { forall f <- fields :: f.Dynamic? ==> f.min <= f.max }

  lemma {:induction false} ComputedBounds(fields: seq<Field>)
    ensures MaxBytes(fields) == Wrap(Total(fields, MaxSizes(fields)))
    ensures MinBytes(fields) == Wrap(Total(fields, MinSizes(fields)))
  {
    hide Wrap;
    if fields == [] {
      WrapSmall(0);
    } else {
      ComputedBounds(fields[1..]);
      SizesBehind(fields);
      if fields[0].Dynamic? {
        Commutes(fields[0].elem, fields[0].max);
        Commutes(fields[0].elem, fields[0].min);
      }
      var high, low := MaxSizes(fields), MinSizes(fields);
      var restHigh, restLow := Total(fields[1..], MaxSizes(fields[1..])), Total(fields[1..], MinSizes(fields[1..]));
      WrapSum(Width(fields, high), restHigh);
      WrapSum(Width(fields, low), restLow);
      WrapSum(Width(fields, high), Wrap(restHigh));
      WrapSum(Width(fields, low), Wrap(restLow));
    }
  }

  lemma Commutes(a: nat, b: nat)
    ensures a * b == b * a
  {
  }

  lemma SizesBehind(fields: seq<Field>)
    requires fields != []
    ensures Rest(fields, MaxSizes(fields)) == MaxSizes(fields[1..])
    ensures Rest(fields, MinSizes(fields)) == MinSizes(fields[1..])
    ensures fields[0].Dynamic? ==> MaxSizes(fields)[0] == fields[0].max
    ensures fields[0].Dynamic? ==> MinSizes(fields)[0] == fields[0].min
  {
    var high, low := MaxSizes(fields[1..]), MinSizes(fields[1..]);
    if fields[0].Dynamic? {
      assert MaxSizes(fields) == [fields[0].max] + high && MinSizes(fields) == [fields[0].min] + low;
    } else {
      assert MaxSizes(fields) == [] + high == high && MinSizes(fields) == [] + low == low;
    }
  }

  lemma {:induction false} ValidBetween(fields: seq<Field>, sizes: seq<nat>)
    requires ValidSizes(fields, sizes)
    ensures Total(fields, MinSizes(fields)) <= Total(fields, sizes) <= Total(fields, MaxSizes(fields))
  {
    if fields != [] {
      SizesBehind(fields);
      ValidBetween(fields[1..], Rest(fields, sizes));
      if fields[0].Dynamic? {
        MulMonotone(fields[0].min, sizes[0], fields[0].elem);
        MulMonotone(sizes[0], fields[0].max, fields[0].elem);
      }
    }
  }

  lemma {:induction false} BoundsValid(fields: seq<Field>)
    requires Bounded(fields)
    ensures ValidSizes(fields, MaxSizes(fields))
  {
    if fields != [] {
      BoundsValid(fields[1..]);
      SizesBehind(fields);
      assert fields[0] in fields;
    }
  }

  /** Valid sizes keep the structure within the computed bounds exactly when the structure can be addressed at
      its largest; otherwise the computed upper bound wrapped around. */
  lemma WithinBounds(fields: seq<Field>)
    requires Bounded(fields)
    ensures (forall sizes: seq<nat> | ValidSizes(fields, sizes) ::
               MinBytes(fields) <= Total(fields, sizes) <= MaxBytes(fields))
            <==> Total(fields, MaxSizes(fields)) < WORD
  {
    hide Wrap, MinBytes, MaxBytes, Offset, MaxSizes, MinSizes, ValidSizes;
    var high, low := Total(fields, MaxSizes(fields)), Total(fields, MinSizes(fields));
    ComputedBounds(fields);
    BoundsValid(fields);
    ValidBetween(fields, MaxSizes(fields));
    WrapSmall(high);
    WrapSmall(low);
    if high < WORD {
      forall sizes: seq<nat> | ValidSizes(fields, sizes)
        ensures |sizes| == Dyn(fields) && MinBytes(fields) <= Total(fields, sizes) <= MaxBytes(fields)
      {
        ValidLength(fields, sizes);
        ValidBetween(fields, sizes);
      }
    } else {
      assert MaxBytes(fields) < WORD <= Total(fields, MaxSizes(fields));
    }
  }

  lemma ValidLength(fields: seq<Field>, sizes: seq<nat>)
    requires ValidSizes(fields, sizes)
    ensures |sizes| == Dyn(fields)
  {
  }

  /** Sizes are valid exactly when each is within the bounds of its own field. */
  lemma {:induction false} ValidExactly(fields: seq<Field>, sizes: seq<nat>)
    requires |sizes| == Dyn(fields)
    ensures ValidSizes(fields, sizes) <==>
            forall i | 0 <= i < |fields| && fields[i].Dynamic? :: InBounds(fields, sizes, i)
  {
    if fields != [] {
      var rest, s := fields[1..], Rest(fields, sizes);
      ValidExactly(rest, s);
      forall i | 0 <= i < |rest|
        ensures InBounds(rest, s, i) <==> InBounds(fields, sizes, i + 1)
      {
        assert fields[..i + 1][1..] == rest[..i] && fields[..i + 1][0] == fields[0];
      }
      assert fields[..0] == [];
      if forall i | 0 <= i < |rest| && rest[i].Dynamic? :: InBounds(rest, s, i) {
        forall i | 1 <= i < |fields| && fields[i].Dynamic? ensures InBounds(fields, sizes, i) {
          assert rest[i - 1] == fields[i] && InBounds(rest, s, i - 1);
        }
      }
      if forall i | 0 <= i < |fields| && fields[i].Dynamic? :: InBounds(fields, sizes, i) {
        forall i | 0 <= i < |rest| && rest[i].Dynamic? ensures InBounds(rest, s, i) {
          assert fields[i + 1] == rest[i] && InBounds(fields, sizes, i + 1);
        }
      }
    }
  }

  /** The size given for field i is within its bounds. */
  predicate InBounds(fields: seq<Field>, sizes: seq<nat>, i: nat)
    requires i < |fields|
  {
    Dyn(fields[..i]) < |sizes| && fields[i].Dynamic? && fields[i].min <= sizes[Dyn(fields[..i])] <= fields[i].max
  }

  /** How much room the wrapped sizes leave outside of the computed bounds. */
  function Gap(fields: seq<Field>): int { WORD - 1 - (MaxBytes(fields) - MinBytes(fields)) }

  /** No element is so large that one more of it could jump over the gap. */
  predicate FineGrained(fields: seq<Field>) {
    MaxBytes(fields) < MinBytes(fields)
    || (0 < Gap(fields) && forall f <- fields :: f.Dynamic? ==> f.elem <= Gap(fields))
  }

  /** The size that the code computes, for all valid sizes: it is within the computed bounds whenever the largest
      and the smallest structure wrap around equally often, and only then if the elements are fine-grained. */
  lemma ComputedWithinBounds(fields: seq<Field>)
    requires Bounded(fields)
    ensures SameWraps(fields) ==> AlwaysWithin(fields)
    ensures FineGrained(fields) && !SameWraps(fields) ==> !AlwaysWithin(fields)
  {
    hide Wrap, MinBytes, MaxBytes, Offset, MaxSizes, MinSizes, ValidSizes, FineGrained;
    var high, low := Total(fields, MaxSizes(fields)), Total(fields, MinSizes(fields));
    ComputedBounds(fields);
    if SameWraps(fields) {
      forall sizes: seq<nat> | ValidSizes(fields, sizes)
        ensures |sizes| == Dyn(fields) && MinBytes(fields) <= AccumSize(fields, sizes) <= MaxBytes(fields)
      {
        ValidLength(fields, sizes);
        SizeIsSum(fields, sizes);
        ValidBetween(fields, sizes);
        WrapOrder(low, Total(fields, sizes), high);
      }
    } else if FineGrained(fields) {
      var sizes := OutOfBounds(fields);
      assert ValidSizes(fields, sizes);
    }
  }

  predicate SameWraps(fields: seq<Field>) {
    Total(fields, MaxSizes(fields)) / WORD == Total(fields, MinSizes(fields)) / WORD
  }

  ghost predicate AlwaysWithin(fields: seq<Field>) {
    forall sizes: seq<nat> | ValidSizes(fields, sizes) ::
      MinBytes(fields) <= AccumSize(fields, sizes) <= MaxBytes(fields)
  }

  lemma WrapOrder(a: nat, b: nat, c: nat)
    requires a <= b <= c && a / WORD == c / WORD
    ensures Wrap(a) <= Wrap(b) <= Wrap(c)
  {
    assert a / WORD <= b / WORD <= c / WORD;
  }

  /** Between the smallest and the largest total every stretch as long as the largest element holds a total. */
  lemma {:induction false} Reachable(fields: seq<Field>, from: nat, g: nat) returns (sizes: seq<nat>)
    requires Bounded(fields) && 0 < g && forall f <- fields :: f.Dynamic? ==> f.elem <= g
    requires Total(fields, MinSizes(fields)) <= from <= Total(fields, MaxSizes(fields))
    ensures ValidSizes(fields, sizes) && |sizes| == Dyn(fields)
    ensures from <= Total(fields, sizes) < from + g
  {
    if fields == [] {
      sizes := [];
    } else {
      var rest := fields[1..];
      SizesBehind(fields);
      assert fields[0] in fields && forall f <- rest :: f in fields;
      var restLow, restHigh := Total(rest, MinSizes(rest)), Total(rest, MaxSizes(rest));
      match fields[0]
      case Static(size) => sizes := Reachable(rest, from - size, g);
      case Dynamic(elem, min, max) =>
        if from <= elem * min + restHigh {
          var s := Reachable(rest, from - elem * min, g);
          sizes := [min] + s;
        } else {
          var k := FirstAbove(elem, min, max, from - restHigh);
          BoundsValid(rest);
          sizes := [k] + MaxSizes(rest);
        }
        assert sizes[1..] == Rest(fields, sizes);
    }
  }

  lemma FirstAbove(elem: nat, min: nat, max: nat, need: nat) returns (k: nat)
    requires elem * min < need <= elem * max && min <= max
    ensures min <= k <= max && need <= elem * k < need + elem
    decreases max - min
  {
    if min + 1 > max { assert false; }
    assert elem * (min + 1) == elem * min + elem;
    if need <= elem * (min + 1) { k := min + 1; } else { k := FirstAbove(elem, min + 1, max, need); }
  }

  lemma OutOfBounds(fields: seq<Field>) returns (sizes: seq<nat>)
    requires Bounded(fields) && FineGrained(fields) && !SameWraps(fields)
    ensures ValidSizes(fields, sizes) && |sizes| == Dyn(fields)
    ensures !(MinBytes(fields) <= AccumSize(fields, sizes) <= MaxBytes(fields))
  {
    hide Wrap, MinBytes, MaxBytes, Offset, MaxSizes, MinSizes, ValidSizes;
    var high, low := Total(fields, MaxSizes(fields)), Total(fields, MinSizes(fields));
    ComputedBounds(fields);
    BoundsValid(fields);
    ValidBetween(fields, MaxSizes(fields));
    if Wrap(high) < Wrap(low) {
      sizes := MaxSizes(fields);
      SizeIsSum(fields, sizes);
    } else {
      var from := GapStart(low, high);
      sizes := Reachable(fields, from, Gap(fields));
      SizeIsSum(fields, sizes);
      InGap(low, high, from, Total(fields, sizes));
    }
  }

  /** The first number from low on that wraps to more than high does. */
  lemma GapStart(low: nat, high: nat) returns (from: nat)
    requires low <= high && low / WORD != high / WORD && Wrap(low) <= Wrap(high)
    ensures from == low - Wrap(low) + Wrap(high) + 1 && low <= from <= high
  {
    from := low - Wrap(low) + Wrap(high) + 1;
    assert low / WORD < high / WORD;
  }

  lemma InGap(low: nat, high: nat, from: nat, n: nat)
    requires Wrap(low) <= Wrap(high) && from == low - Wrap(low) + Wrap(high) + 1
    requires from <= n < from + (WORD - 1 - (Wrap(high) - Wrap(low)))
    ensures Wrap(n) > Wrap(high) || Wrap(n) < Wrap(low)
  {
    var q := low / WORD;
    assert low == q * WORD + Wrap(low);
    if n < (q + 1) * WORD {
      DivModUnique(n, WORD, q, n - q * WORD);
    } else {
      DivModUnique(n, WORD, q + 1, n - (q + 1) * WORD);
    }
  }

  /** Without that condition the converse fails: up to three elements of half the range are always within the
      computed bounds, although the largest structure wraps around and the smallest does not. */
  lemma CoarseElements()
    ensures AlwaysWithin([Dynamic(WORD / 2, 0, 3)]) && !SameWraps([Dynamic(WORD / 2, 0, 3)])
  {
    hide Wrap;
    var half := WORD / 2;
    var fields := [Dynamic(half, 0, 3)];
    assert fields[1..] == [];
    SizesBehind(fields);
    ComputedBounds(fields);
    HalfWraps();
    forall sizes: seq<nat> | ValidSizes(fields, sizes)
      ensures |sizes| == Dyn(fields) && MinBytes(fields) <= AccumSize(fields, sizes) <= MaxBytes(fields)
    {
      SizeIsSum(fields, sizes);
      assert Rest(fields, sizes) == [] && Offset(fields[1..], [], 0) == 0;
      assert Total(fields, sizes) == half * sizes[0];
      assert sizes[0] == 0 || sizes[0] == 1 || sizes[0] == 2 || sizes[0] == 3;
    }
  }

  lemma HalfWraps()
    ensures Wrap(WORD / 2 * 0) == 0 == Wrap(WORD / 2 * 2) && Wrap(WORD / 2 * 1) == WORD / 2 == Wrap(WORD / 2 * 3)
    ensures (WORD / 2 * 3) / WORD == 1 && 0 / WORD == 0
  {
  }

  /** With the default bounds of a placeholder, one more field is enough to break the upper bound. */
  lemma DefaultBoundsWrap()
    ensures var fields := [Dynamic(1, 0, WORD - 1), Static(8)];
            ValidSizes(fields, [0]) && AccumSize(fields, [0]) == 8 && MaxBytes(fields) == 7
  {
    var fields := [Dynamic(1, 0, WORD - 1), Static(8)];
    var rest := fields[1..];
    assert rest == [Static(8)] && rest[1..] == [];
    assert Dyn(rest) == 0 && ValidSizes(rest, []);
    assert AccumSize(rest, []) == 8 && MaxBytes(rest) == 8;
    var sizes: seq<nat> := [0];
    assert sizes[1..] == [];
    assert AccumSize(fields, sizes) == Wrap(Wrap(1 * 0) + AccumSize(rest, sizes[1..]));
    WrapSmall(WORD - 1);
    ModEqual(WORD + 7, 7, WORD, 1);
    assert MaxBytes(fields) == Wrap(Wrap((WORD - 1) * 1) + MaxBytes(rest));
    assert (WORD - 1) * 1 == WORD - 1;
  }
}
