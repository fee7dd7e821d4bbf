/** The reference model of the cache: every key ever inserted with its last value, most recently touched first.
    Nothing is ever forgotten here; a value can be had as long as it is alive. */
module Recency {
  import opened Options

  type Key = int

  /** The identity of a value object. */
  type Value = int

  datatype Entry = Entry(key: Key, value: Value)

  function Without(r: seq<Entry>, k: Key): seq<Entry> {
    if r == [] then [] else (if r[0].key == k then [] else [r[0]]) + Without(r[1..], k)
  }

  function Keep(r: seq<Entry>, keys: set<Key>): seq<Entry> {
    if r == [] then [] else (if r[0].key in keys then [r[0]] else []) + Keep(r[1..], keys)
  }

  function Touched(r: seq<Entry>, x: Entry): seq<Entry> { [x] + Without(r, x.key) }

  function Find(r: seq<Entry>, k: Key): Option<Value> {
    if r == [] then None else if r[0].key == k then Some(r[0].value) else Find(r[1..], k)
  }

  predicate HasValue(r: seq<Entry>, v: Value) { exists i | 0 <= i < |r| :: r[i].value == v }

  predicate DistinctKeys(r: seq<Entry>) { forall i, j | 0 <= i < j < |r| :: r[i].key != r[j].key }

  function Min(a: nat, b: nat): nat { if a < b then a else b }

  /** The reference state: the recency list and the values referred to from outside of the cache. */
  datatype Spec = Spec(recent: seq<Entry>, outside: set<Value>)

  /** A value is alive when it is referred to from outside or among the limit most recent keys. */
  predicate Alive(s: Spec, limit: nat, v: Value) {
    v in s.outside || HasValue(s.recent[..Min(limit, |s.recent|)], v)
  }

  /** A caller inserts a value it refers to, looks up a key, drops its references to a value, makes or copies a
      reference to a value that is not dead, or clears the cache. */
  datatype Op = Insert(key: Key, value: Value) | Get(key: Key) | Release(value: Value) | Acquire(value: Value) | Clear

  function Lookup(s: Spec, limit: nat, k: Key): Option<Value> {
    var found := Find(s.recent, k);
    if found.Some? && Alive(s, limit, found.value) then found else None
  }

  function Step(s: Spec, limit: nat, op: Op): Spec {
    match op
    case Insert(k, v) => if v in s.outside then s.(recent := Touched(s.recent, Entry(k, v))) else s
    case Get(k) =>
      var found := Lookup(s, limit, k);
      if found.Some? then Spec(Touched(s.recent, Entry(k, found.value)), s.outside + {found.value}) else s
    case Release(v) => s.(outside := s.outside - {v})
    case Acquire(v) => if HasValue(s.recent, v) && !Alive(s, limit, v) then s else s.(outside := s.outside + {v})
    case Clear => s.(recent := [])
  }

  function Run(limit: nat, ops: seq<Op>): Spec {
    if ops == [] then Spec([], {}) else Step(Run(limit, ops[..|ops| - 1]), limit, ops[|ops| - 1])
  }

  lemma {:induction false} WithoutGone(r: seq<Entry>, k: Key)
    ensures forall i | 0 <= i < |Without(r, k)| :: Without(r, k)[i].key != k && Without(r, k)[i] in r
    ensures |Without(r, k)| <= |r|
  {
    if r != [] { WithoutGone(r[1..], k); }
  }

  lemma {:induction false} WithoutAbsent(r: seq<Entry>, k: Key)
    requires forall i | 0 <= i < |r| :: r[i].key != k
    ensures Without(r, k) == r
  {
    if r != [] { WithoutAbsent(r[1..], k); }
  }

  lemma WithoutNone(k: Key)
    ensures Without([], k) == []
  {
  }

  lemma KeepNone(keys: set<Key>)
    ensures Keep([], keys) == []
  {
  }

  lemma WithoutFirst(x: Entry, r: seq<Entry>, k: Key)
    ensures Without([x] + r, k) == (if x.key == k then [] else [x]) + Without(r, k)
  {
    assert ([x] + r)[1..] == r;
  }

  lemma KeepFirst(x: Entry, r: seq<Entry>, keys: set<Key>)
    ensures Keep([x] + r, keys) == (if x.key in keys then [x] else []) + Keep(r, keys)
  {
    assert ([x] + r)[1..] == r;
  }

  lemma {:induction false} WithoutConcat(a: seq<Entry>, b: seq<Entry>, k: Key)
    ensures Without(a + b, k) == Without(a, k) + Without(b, k)
  {
    hide Without;
    WithoutNone(k);
    if a == [] {
      assert a + b == b;
    } else {
      WithoutConcat(a[1..], b, k);
      WithoutFirst(a[0], a[1..], k);
      WithoutFirst(a[0], a[1..] + b, k);
      assert a == [a[0]] + a[1..] && a + b == [a[0]] + (a[1..] + b);
    }
  }

  lemma {:induction false} WithoutKeep(r: seq<Entry>, keys: set<Key>, k: Key)
    ensures Without(Keep(r, keys), k) == Keep(Without(r, k), keys) == Keep(r, keys - {k})
  {
    if r != [] {
      WithoutKeep(r[1..], keys, k);
      var kept := if r[0].key in keys then [r[0]] else [];
      WithoutConcat(kept, Keep(r[1..], keys), k);
      KeepConcat(if r[0].key == k then [] else [r[0]], Without(r[1..], k), keys);
    }
  }

  lemma {:induction false} KeepConcat(a: seq<Entry>, b: seq<Entry>, keys: set<Key>)
    ensures Keep(a + b, keys) == Keep(a, keys) + Keep(b, keys)
  {
    hide Keep;
    KeepNone(keys);
    if a == [] {
      assert a + b == b;
    } else {
      KeepConcat(a[1..], b, keys);
      KeepFirst(a[0], a[1..], keys);
      KeepFirst(a[0], a[1..] + b, keys);
      assert a == [a[0]] + a[1..] && a + b == [a[0]] + (a[1..] + b);
    }
  }

  lemma {:induction false} KeepSame(r: seq<Entry>, keys: set<Key>, others: set<Key>)
    requires forall i | 0 <= i < |r| :: r[i].key in keys <==> r[i].key in others
    ensures Keep(r, keys) == Keep(r, others)
  {
    if r != [] { KeepSame(r[1..], keys, others); }
  }

  lemma {:induction false} KeepMember(r: seq<Entry>, keys: set<Key>, x: Entry)
    ensures x in Keep(r, keys) <==> x in r && x.key in keys
  {
    if r != [] { KeepMember(r[1..], keys, x); }
  }

  lemma {:induction false} WithoutMember(r: seq<Entry>, k: Key, x: Entry)
    ensures x in Without(r, k) <==> x in r && x.key != k
  {
    if r != [] { WithoutMember(r[1..], k, x); }
  }

  lemma {:induction false} WithoutDistinct(r: seq<Entry>, k: Key)
    requires DistinctKeys(r)
    ensures DistinctKeys(Without(r, k))
  {
    if r != [] {
      WithoutDistinct(r[1..], k);
      WithoutGone(r[1..], k);
    }
  }

  lemma {:induction false} KeepDistinct(r: seq<Entry>, keys: set<Key>)
    requires DistinctKeys(r)
    ensures DistinctKeys(Keep(r, keys))
  {
    if r != [] {
      KeepDistinct(r[1..], keys);
      forall i | 0 <= i < |Keep(r[1..], keys)| ensures Keep(r[1..], keys)[i] in r[1..] {
        KeepMember(r[1..], keys, Keep(r[1..], keys)[i]);
      }
    }
  }

  lemma {:induction false} FindMember(r: seq<Entry>, k: Key)
    ensures Find(r, k).Some? ==> Entry(k, Find(r, k).value) in r
    ensures Find(r, k).None? ==> forall i | 0 <= i < |r| :: r[i].key != k
    ensures DistinctKeys(r) ==> forall i | 0 <= i < |r| && r[i].key == k :: Find(r, k) == Some(r[i].value)
  {
    if r != [] {
      FindMember(r[1..], k);
      assert forall i | 0 < i < |r| :: r[i] == r[1..][i - 1];
    }
  }

  /** Removing a key keeps a prefix of the rest. */
  lemma WithoutPrefix(r: seq<Entry>, n: nat, k: Key)
    requires n <= |r|
    ensures |Without(r[..n], k)| <= |Without(r, k)|
    ensures Without(r[..n], k) == Without(r, k)[..|Without(r[..n], k)|]
  {
    assert r == r[..n] + r[n..];
    WithoutConcat(r[..n], r[n..], k);
  }

  lemma {:induction false} WithoutLength(r: seq<Entry>, k: Key)
    requires DistinctKeys(r)
    ensures |Without(r, k)| == |r| - if Find(r, k).Some? then 1 else 0
  {
    if r != [] {
      if r[0].key == k {
        WithoutAbsent(r[1..], k);
      } else {
        WithoutLength(r[1..], k);
      }
    }
  }

  lemma {:induction false} RunDistinct(limit: nat, ops: seq<Op>)
    ensures DistinctKeys(Run(limit, ops).recent)
  {
    if ops != [] {
      RunDistinct(limit, ops[..|ops| - 1]);
      TouchedDistinct(Run(limit, ops[..|ops| - 1]).recent);
    }
  }

  lemma TouchedDistinct(r: seq<Entry>)
    requires DistinctKeys(r)
    ensures forall x :: DistinctKeys(Touched(r, x))
  {
    forall x ensures DistinctKeys(Touched(r, x)) {
      WithoutDistinct(r, x.key);
      WithoutGone(r, x.key);
    }
  }

  lemma {:induction false} FindWithout(r: seq<Entry>, k: Key, j: Key)
    ensures Find(Without(r, k), j) == if j == k then None else Find(r, j)
  {
    if r != [] {
      FindWithout(r[1..], k, j);
      if r[0].key == k {
        assert Without(r, k) == Without(r[1..], k);
      } else {
        assert ([r[0]] + Without(r[1..], k))[1..] == Without(r[1..], k);
      }
    }
  }

  lemma FindTouched(r: seq<Entry>, x: Entry, j: Key)
    ensures Find(Touched(r, x), j) == if j == x.key then Some(x.value) else Find(r, j)
  {
    FindWithout(r, x.key, j);
    assert Touched(r, x)[1..] == Without(r, x.key);
  }
}
