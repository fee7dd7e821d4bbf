/** What a cache has to answer, told from the history of operations alone: who still refers to a value, which
    value was last inserted under a key, and when a key was last touched. */
module CacheHistory {
  import opened Options
  import opened Recency

  /** All keys that were ever inserted. */
  function Mentioned(ops: seq<Op>): set<Key> {
    if ops == [] then {}
    else Mentioned(ops[..|ops| - 1]) + match ops[|ops| - 1] case Insert(k, _) => {k} case _ => {}
  }

  /** Code outside of the cache refers to v: it acquired v, or a get gave it v, and it has not released v since. */
  ghost predicate Referred(limit: nat, ops: seq<Op>, v: Value)
    decreases |ops|, 0
  {
    if ops == [] then false
    else
      var before := ops[..|ops| - 1];
      match ops[|ops| - 1]
      case Acquire(u) => Referred(limit, before, v) || (u == v && !Dead(limit, before, v))
      case Get(k) => Referred(limit, before, v) || Answer(limit, before, k) == Some(v)
      case Release(u) => u != v && Referred(limit, before, v)
      case _ => Referred(limit, before, v)
  }

  /** The value last inserted under k, by a caller that referred to it, unless the cache was cleared since. */
  ghost function LastInserted(limit: nat, ops: seq<Op>, k: Key): Option<Value>
    decreases |ops|, 0
  {
    if ops == [] then None
    else
      var before := ops[..|ops| - 1];
      match ops[|ops| - 1]
      case Insert(key, v) => if key == k && Referred(limit, before, v) then Some(v) else LastInserted(limit, before, k)
      case Clear => None
      case _ => LastInserted(limit, before, k)
  }

  /** When k was last inserted or successfully looked up; 0 if never. */
  ghost function LastTouch(limit: nat, ops: seq<Op>, k: Key): nat
    decreases |ops|, 0
  {
    if ops == [] then 0
    else if Touches(limit, ops[..|ops| - 1], ops[|ops| - 1], k) then |ops|
    else LastTouch(limit, ops[..|ops| - 1], k)
  }

  ghost predicate Touches(limit: nat, before: seq<Op>, op: Op, k: Key)
    decreases |before|, 4
  {
    match op
    case Insert(key, v) => key == k && Referred(limit, before, v)
    case Get(key) => key == k && Answer(limit, before, k).Some?
    case _ => false
  }

  /** The keys touched after k. */
  ghost function Later(limit: nat, ops: seq<Op>, k: Key): set<Key>
    decreases |ops|, 1
  {
    set j | j in Mentioned(ops) && LastInserted(limit, ops, j).Some?
            && LastTouch(limit, ops, j) > LastTouch(limit, ops, k)
  }

  /** v is referred to from outside, or by the cache under one of the limit keys touched last. */
  ghost predicate Living(limit: nat, ops: seq<Op>, v: Value)
    decreases |ops|, 2
  {
    || Referred(limit, ops, v)
    || exists k <- Mentioned(ops) :: LastInserted(limit, ops, k) == Some(v) && |Later(limit, ops, k)| < limit
  }

  /** v is under some key but not alive any more. */
  ghost predicate Dead(limit: nat, ops: seq<Op>, v: Value)
    decreases |ops|, 3
  {
    (exists k <- Mentioned(ops) :: LastInserted(limit, ops, k) == Some(v)) && !Living(limit, ops, v)
  }

  /** What get has to answer: the value last inserted under the key while it is alive. */
  ghost function Answer(limit: nat, ops: seq<Op>, k: Key): Option<Value>
    decreases |ops|, 3
  {
    var last := LastInserted(limit, ops, k);
    if last.Some? && Living(limit, ops, last.value) then last else None
  }

  /** What the gets of a run have to answer. */
  ghost function Answers(limit: nat, ops: seq<Op>): seq<Option<Value>> {
    if ops == [] then []
    else
      var before := ops[..|ops| - 1];
      match ops[|ops| - 1]
      case Get(k) => Answers(limit, before) + [Answer(limit, before, k)]
      case _ => Answers(limit, before)
  }

  ghost predicate LatestFirst(limit: nat, ops: seq<Op>, r: seq<Entry>) {
    && (forall i | 0 <= i < |r| :: 0 < LastTouch(limit, ops, r[i].key) <= |ops|)
    && (forall i, j | 0 <= i < j < |r| :: LastTouch(limit, ops, r[i].key) > LastTouch(limit, ops, r[j].key))
  }

  /** How a state of the reference model stands for a history. */
  ghost predicate Agrees(limit: nat, ops: seq<Op>, s: Spec) {
    && DistinctKeys(s.recent)
    && (forall v :: v in s.outside <==> Referred(limit, ops, v))
    && (forall k :: Find(s.recent, k) == LastInserted(limit, ops, k))
    && LatestFirst(limit, ops, s.recent)
  }

  lemma {:induction false} InsertedIsMentioned(limit: nat, ops: seq<Op>, k: Key)
    ensures LastInserted(limit, ops, k).Some? ==> k in Mentioned(ops)
  {
    hide Referred, Answer;
    if ops != [] { InsertedIsMentioned(limit, ops[..|ops| - 1], k); }
  }

  function KeysOf(r: seq<Entry>): set<Key> { set x <- r :: x.key }

  lemma {:induction false} KeyCount(r: seq<Entry>)
    requires DistinctKeys(r)
    ensures |KeysOf(r)| == |r|
  {
    if r == [] {
      assert KeysOf(r) == {};
    } else {
      var k := |r| - 1;
      KeyCount(r[..k]);
      assert r == r[..k] + [r[k]];
      assert KeysOf(r) == KeysOf(r[..k]) + {r[k].key};
      assert r[k].key !in KeysOf(r[..k]);
    }
  }

  /** As many keys were touched after the i-th of the recency list as stand before it. */
  lemma LaterCount(limit: nat, ops: seq<Op>, s: Spec, i: nat)
    requires Agrees(limit, ops, s) && i < |s.recent|
    ensures |Later(limit, ops, s.recent[i].key)| == i
  {
    hide LastTouch, LastInserted, Referred, Mentioned, Find;
    var r, k := s.recent, s.recent[i].key;
    forall j ensures j in Later(limit, ops, k) <==> j in KeysOf(r[..i]) {
      InsertedIsMentioned(limit, ops, j);
      FindMember(r, j);
      if j in Later(limit, ops, k) {
        var x := Entry(j, Find(r, j).value);
        var n :| 0 <= n < |r| && r[n] == x;
        assert n < i;
        assert r[..i][n] == x;
      }
      if j in KeysOf(r[..i]) {
        var x :| x in r[..i] && x.key == j;
        var n :| 0 <= n < i && r[..i][n] == x;
        assert r[n] == x && Find(r, j).Some?;
      }
    }
    assert Later(limit, ops, k) == KeysOf(r[..i]);
    KeyCount(r[..i]);
  }

  /** What is alive and what a lookup gives are the same in the model as in the history. */
  lemma SameLife(limit: nat, ops: seq<Op>, s: Spec, v: Value)
    requires Agrees(limit, ops, s)
    ensures Alive(s, limit, v) <==> Living(limit, ops, v)
    ensures Dead(limit, ops, v) <==> HasValue(s.recent, v) && !Alive(s, limit, v)
  {
    hide LastTouch, LastInserted, Referred, Mentioned, Find, Later, LatestFirst;
    var r := s.recent;
    if HasValue(r, v) {
      var i :| 0 <= i < |r| && r[i].value == v;
      EntryIsInserted(limit, ops, s, i);
    }
    if HasValue(r[..Min(limit, |r|)], v) {
      var i :| 0 <= i < |r[..Min(limit, |r|)]| && r[..Min(limit, |r|)][i].value == v;
      EntryIsInserted(limit, ops, s, i);
      LaterCount(limit, ops, s, i);
    }
    forall k | k in Mentioned(ops) && LastInserted(limit, ops, k) == Some(v)
      ensures HasValue(r, v) && (|Later(limit, ops, k)| < limit ==> HasValue(r[..Min(limit, |r|)], v))
    {
      FindMember(r, k);
      var i :| 0 <= i < |r| && r[i] == Entry(k, v);
      LaterCount(limit, ops, s, i);
      if i < limit { assert r[..Min(limit, |r|)][i].value == v; }
    }
  }

  lemma EntryIsInserted(limit: nat, ops: seq<Op>, s: Spec, i: nat)
    requires Agrees(limit, ops, s) && i < |s.recent|
    ensures s.recent[i].key in Mentioned(ops)
    ensures LastInserted(limit, ops, s.recent[i].key) == Some(s.recent[i].value)
  {
    hide LastTouch, LastInserted, Referred, Mentioned, LatestFirst;
    FindMember(s.recent, s.recent[i].key);
    InsertedIsMentioned(limit, ops, s.recent[i].key);
  }

  lemma SameAnswer(limit: nat, ops: seq<Op>, s: Spec, k: Key)
    requires Agrees(limit, ops, s)
    ensures Lookup(s, limit, k) == Answer(limit, ops, k)
  {
    hide LastTouch, LastInserted, Referred, Mentioned, Find, Living, Alive, LatestFirst;
    var last := LastInserted(limit, ops, k);
    assert Find(s.recent, k) == last;
    if last.Some? { SameLife(limit, ops, s, last.value); }
  }

  lemma {:induction false} WithoutOrder(limit: nat, ops: seq<Op>, r: seq<Entry>, k: Key)
    requires LatestFirst(limit, ops, r)
    ensures LatestFirst(limit, ops, Without(r, k))
  {
    hide LastTouch, LatestFirst;
    if r == [] {
      assert Without(r, k) == r;
    } else {
      var w := Without(r[1..], k);
      RestInOrder(limit, ops, r);
      WithoutOrder(limit, ops, r[1..], k);
      assert Without(r, k) == if r[0].key == k then w else [r[0]] + w;
      if r[0].key != k {
        WithoutGone(r[1..], k);
        PutFirst(limit, ops, r[0], w);
      }
    }
  }

  lemma RestInOrder(limit: nat, ops: seq<Op>, r: seq<Entry>)
    requires LatestFirst(limit, ops, r) && r != []
    ensures LatestFirst(limit, ops, r[1..]) && 0 < LastTouch(limit, ops, r[0].key) <= |ops|
    ensures forall x <- r[1..] :: LastTouch(limit, ops, r[0].key) > LastTouch(limit, ops, x.key)
  {
    hide LastTouch;
    assert forall i | 0 <= i < |r[1..]| :: r[1..][i] == r[i + 1];
  }

  lemma PutFirst(limit: nat, ops: seq<Op>, x: Entry, r: seq<Entry>)
    requires LatestFirst(limit, ops, r) && 0 < LastTouch(limit, ops, x.key) <= |ops|
    requires forall i | 0 <= i < |r| :: LastTouch(limit, ops, x.key) > LastTouch(limit, ops, r[i].key)
    ensures LatestFirst(limit, ops, [x] + r)
  {
    hide LastTouch;
    var t := [x] + r;
    assert forall i | 1 <= i < |t| :: t[i] == r[i - 1];
  }

  lemma SameTouches(limit: nat, before: seq<Op>, op: Op, r: seq<Entry>)
    requires LatestFirst(limit, before, r) && forall x <- r :: !Touches(limit, before, op, x.key)
    ensures LatestFirst(limit, before + [op], r)
    ensures forall i | 0 <= i < |r| :: LastTouch(limit, before + [op], r[i].key) <= |before|
  {
    hide LastTouch, Touches;
    forall x | x in r ensures LastTouch(limit, before + [op], x.key) == LastTouch(limit, before, x.key) {
      OneMore(limit, before, op, x.key);
    }
    assert forall i | 0 <= i < |r| :: r[i] in r;
  }

  lemma OneMore(limit: nat, before: seq<Op>, op: Op, k: Key)
    ensures LastTouch(limit, before + [op], k) ==
            if Touches(limit, before, op, k) then |before| + 1 else LastTouch(limit, before, k)
  {
    assert (before + [op])[..|before|] == before;
  }

  /** The key x.key is touched by the operation: it comes first. */
  lemma TouchedFirst(limit: nat, before: seq<Op>, op: Op, r: seq<Entry>, x: Entry)
    requires LatestFirst(limit, before, r) && forall k :: Touches(limit, before, op, k) <==> k == x.key
    ensures LatestFirst(limit, before + [op], Touched(r, x))
  {
    hide LastTouch, Touches, LatestFirst;
    WithoutOrder(limit, before, r, x.key);
    WithoutGone(r, x.key);
    SameTouches(limit, before, op, Without(r, x.key));
    OneMore(limit, before, op, x.key);
    PutFirst(limit, before + [op], x, Without(r, x.key));
  }

  lemma InsertAgrees(limit: nat, before: seq<Op>, s: Spec, k: Key, v: Value)
    requires Agrees(limit, before, s)
    ensures Agrees(limit, before + [Insert(k, v)], Step(s, limit, Insert(k, v)))
  {
    hide LastTouch, LatestFirst, DistinctKeys, Find, Touched;
    var op := Insert(k, v);
    assert (before + [op])[..|before|] == before;
    if v in s.outside {
      TouchedDistinct(s.recent);
      forall j ensures Find(Touched(s.recent, Entry(k, v)), j) == LastInserted(limit, before + [op], j) {
        FindTouched(s.recent, Entry(k, v), j);
      }
      TouchedFirst(limit, before, op, s.recent, Entry(k, v));
    } else {
      SameTouches(limit, before, op, s.recent);
    }
  }

  lemma GetAgrees(limit: nat, before: seq<Op>, s: Spec, k: Key)
    requires Agrees(limit, before, s)
    ensures Agrees(limit, before + [Get(k)], Step(s, limit, Get(k)))
  {
    hide LastTouch, LatestFirst, DistinctKeys, Find, Touched, Answer, Lookup;
    var op := Get(k);
    assert (before + [op])[..|before|] == before;
    SameAnswer(limit, before, s, k);
    var found := Lookup(s, limit, k);
    if found.Some? {
      FoundIsFirst(s, limit, k);
      TouchedDistinct(s.recent);
      forall j ensures Find(Touched(s.recent, Entry(k, found.value)), j) == LastInserted(limit, before + [op], j) {
        FindTouched(s.recent, Entry(k, found.value), j);
      }
      TouchedFirst(limit, before, op, s.recent, Entry(k, found.value));
    } else {
      SameTouches(limit, before, op, s.recent);
    }
  }

  lemma FoundIsFirst(s: Spec, limit: nat, k: Key)
    ensures Lookup(s, limit, k).Some? ==> Lookup(s, limit, k) == Find(s.recent, k)
  {
  }

  lemma OutsideAgrees(limit: nat, before: seq<Op>, s: Spec, op: Op)
    requires Agrees(limit, before, s) && !op.Insert? && !op.Get?
    ensures Agrees(limit, before + [op], Step(s, limit, op))
  {
    hide LastTouch, LatestFirst, DistinctKeys, Find, Alive, Dead, HasValue;
    assert (before + [op])[..|before|] == before;
    match op
    case Release(v) => SameTouches(limit, before, op, s.recent);
    case Acquire(v) =>
      SameLife(limit, before, s, v);
      SameTouches(limit, before, op, s.recent);
    case Clear => NothingLeft(limit, before + [op]);
  }

  lemma NothingLeft(limit: nat, ops: seq<Op>)
    ensures LatestFirst(limit, ops, []) && DistinctKeys([]) && forall k :: Find([], k) == None
  {
  }

  /** After every run the reference model agrees with the history of operations. */
  lemma {:induction false} RunAgrees(limit: nat, ops: seq<Op>)
    ensures Agrees(limit, ops, Recency.Run(limit, ops))
  {
    hide Agrees, Step;
    if ops == [] {
      StartAgrees(limit);
    } else {
      var before, op := ops[..|ops| - 1], ops[|ops| - 1];
      assert ops == before + [op];
      RunAgrees(limit, before);
      var s := Recency.Run(limit, before);
      match op
      case Insert(k, v) => InsertAgrees(limit, before, s, k, v);
      case Get(k) => GetAgrees(limit, before, s, k);
      case _ => OutsideAgrees(limit, before, s, op);
    }
  }

  lemma StartAgrees(limit: nat)
    ensures Agrees(limit, [], Spec([], {}))
  {
  }

  /** A lookup in the model is what the history demands; code outside refers to a value exactly if it acquired it
      or was given it and has not released it. */
  lemma LookupIsAnswer(limit: nat, ops: seq<Op>, k: Key)
    ensures Lookup(Recency.Run(limit, ops), limit, k) == Answer(limit, ops, k)
  {
    RunAgrees(limit, ops);
    SameAnswer(limit, ops, Recency.Run(limit, ops), k);
  }

  lemma OutsideIsReferred(limit: nat, ops: seq<Op>, v: Value)
    ensures v in Recency.Run(limit, ops).outside <==> Referred(limit, ops, v)
  {
    hide LastTouch, LastInserted, Referred, LatestFirst, Find;
    RunAgrees(limit, ops);
  }

  /** The recency list has the keys inserted, each with its last value, ordered by their last touch; a value is
      alive in the model exactly when it is living in the history. */
  lemma RecentIsLatestFirst(limit: nat, ops: seq<Op>)
    ensures var r := Recency.Run(limit, ops).recent;
            && LatestFirst(limit, ops, r)
            && forall k :: Find(r, k) == LastInserted(limit, ops, k)
    ensures forall v :: Alive(Recency.Run(limit, ops), limit, v) <==> Living(limit, ops, v)
  {
    hide LastTouch, LastInserted, Referred, LatestFirst, Find, Alive, Living;
    RunAgrees(limit, ops);
    forall v ensures Alive(Recency.Run(limit, ops), limit, v) <==> Living(limit, ops, v) {
      SameLife(limit, ops, Recency.Run(limit, ops), v);
    }
  }
}
