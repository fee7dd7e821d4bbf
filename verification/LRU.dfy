/** The cache: elements held strongly in recency order, elements demoted to weak references, and the index. */
module LRU {
  import opened Options
  import opened Recency
  import opened CacheHistory

  /** A weak reference always stays; the strong one is given up and taken again. */
  class CacheElement {
    const key: Key
    const weak: Value
    var strong: Option<Value>

    constructor (key: Key, value: Value)
      ensures this.key == key && weak == value && strong == Some(value)
    {
      this.key, weak, strong := key, value, Some(value);
    }

    method Demote()
      requires strong.Some?
      modifies this
      ensures strong == None
    {
      strong := None;
    }

    method Promote(value: Value)
      requires strong.None?
      modifies this
      ensures strong == Some(value)
    {
      strong := Some(value);
    }

    ghost function Content(): Entry { Entry(key, weak) }
  }

  ghost function Entries(l: seq<CacheElement>): (r: seq<Entry>)
    ensures |r| == |l|
    ensures forall i | 0 <= i < |l| :: r[i] == l[i].Content()
  {
    seq(|l|, i requires 0 <= i < |l| => l[i].Content())
  }

  /** Removes the element that an iterator stands at. */
  function Erase(l: seq<CacheElement>, e: CacheElement): seq<CacheElement> {
    if l == [] then [] else if l[0] == e then l[1..] else [l[0]] + Erase(l[1..], e)
  }

  lemma EntriesConcat(a: seq<CacheElement>, b: seq<CacheElement>)
    ensures Entries(a + b) == Entries(a) + Entries(b)
  {
    assert forall i | 0 <= i < |a + b| :: Entries(a + b)[i] == (Entries(a) + Entries(b))[i];
  }

  lemma {:induction false} EraseEntries(l: seq<CacheElement>, e: CacheElement)
    requires e in l && DistinctKeys(Entries(l))
    ensures Entries(Erase(l, e)) == Without(Entries(l), e.key)
  {
    hide Entries, Without;
    var r := Entries(l);
    assert r == [l[0].Content()] + Entries(l[1..]) && r[1..] == Entries(l[1..]);
    WithoutFirst(l[0].Content(), Entries(l[1..]), e.key);
    if l[0] == e {
      WithoutAbsent(Entries(l[1..]), e.key);
    } else {
      EraseEntries(l[1..], e);
      var i :| 0 <= i < |l| && l[i] == e;
      assert r[0].key != r[i].key;
      EntriesConcat([l[0]], Erase(l[1..], e));
      assert Entries([l[0]]) == [l[0].Content()];
    }
  }

  lemma {:induction false} EraseMembers(l: seq<CacheElement>, e: CacheElement)
    requires DistinctKeys(Entries(l))
    ensures forall d :: d in Erase(l, e) <==> d in l && d != e
    ensures |Erase(l, e)| == |l| - if e in l then 1 else 0
  {
    if l != [] {
      EraseMembers(l[1..], e);
      assert Entries(l)[1..] == Entries(l[1..]);
      forall i | 0 <= i < |l[1..]| ensures l[1..][i] != l[0] {
        assert Entries(l)[i + 1].key != Entries(l)[0].key;
      }
    }
  }

  /** How two lists and the set of indexed keys stand for a recency list. */
  ghost predicate Rep(strong: seq<Entry>, weak: seq<Entry>, recent: seq<Entry>, keys: set<Key>) {
    && DistinctKeys(recent)
    && strong <= recent
    && strong + weak == Keep(recent, keys)
  }

  lemma RepDistinct(strong: seq<Entry>, weak: seq<Entry>, recent: seq<Entry>, keys: set<Key>)
    requires Rep(strong, weak, recent, keys)
    ensures DistinctKeys(strong + weak) && DistinctKeys(strong) && DistinctKeys(weak)
    ensures forall x <- strong + weak :: x.key in keys && x in recent
  {
    KeepDistinct(recent, keys);
    assert forall i | 0 <= i < |weak| :: weak[i] == (strong + weak)[|strong| + i];
    assert forall i | 0 <= i < |strong| :: strong[i] == (strong + weak)[i];
    forall x | x in strong + weak ensures x.key in keys && x in recent { KeepMember(recent, keys, x); }
  }

  /** A key is put first, as insert and get do. */
  lemma TouchRep(strong: seq<Entry>, weak: seq<Entry>, recent: seq<Entry>, keys: set<Key>, x: Entry)
    requires Rep(strong, weak, recent, keys)
    ensures Rep([x] + Without(strong, x.key), Without(weak, x.key), Touched(recent, x), keys + {x.key})
  {
    hide Keep, Without, DistinctKeys;
    var k, rest := x.key, Without(recent, x.key);
    TouchedDistinct(recent);
    WithoutPrefix(recent, |strong|, k);
    assert recent[..|strong|] == strong;
    WithoutConcat(strong, weak, k);
    WithoutKeep(recent, keys, k);
    WithoutGone(recent, k);
    KeepSame(rest, keys, keys + {k});
    KeepFirst(x, rest, keys + {k});
    assert [x] + Without(strong, k) + Without(weak, k) == [x] + (Without(strong, k) + Without(weak, k));
    assert [x] + Without(strong, k) <= [x] + rest;
  }

  /** An entry is dropped from the weak list and the index. */
  lemma ForgetRep(strong: seq<Entry>, weak: seq<Entry>, recent: seq<Entry>, keys: set<Key>, k: Key)
    requires Rep(strong, weak, recent, keys) && Find(strong, k) == None
    ensures Rep(strong, Without(weak, k), recent, keys - {k})
  {
    hide Keep, DistinctKeys;
    FindMember(strong, k);
    WithoutAbsent(strong, k);
    WithoutConcat(strong, weak, k);
    WithoutKeep(recent, keys, k);
  }

  lemma DistinctElements(l: seq<CacheElement>)
    requires DistinctKeys(Entries(l))
    ensures forall i, j | 0 <= i < j < |l| :: l[i] != l[j] && l[i].key != l[j].key
  {
    hide Entries;
    forall i, j | 0 <= i < j < |l| ensures l[i] != l[j] && l[i].key != l[j].key {
      assert Entries(l)[i].key != Entries(l)[j].key;
    }
  }

  lemma PrefixValue(l: seq<CacheElement>, n: nat, v: Value)
    requires n <= |l|
    ensures HasValue(Entries(l[..n]), v) ==> HasValue(Entries(l), v)
  {
    assert forall i | 0 <= i < n :: Entries(l[..n])[i] == Entries(l)[i];
  }

  lemma DemoteRep(l: seq<CacheElement>, weak: seq<CacheElement>, recent: seq<Entry>, keys: set<Key>)
    requires l != [] && Rep(Entries(l), Entries(weak), recent, keys)
    ensures Rep(Entries(l[..|l| - 1]), Entries([l[|l| - 1]] + weak), recent, keys)
  {
    hide Keep, DistinctKeys, Entries;
    var n := |l| - 1;
    EntriesConcat(l, weak);
    EntriesConcat(l[..n], [l[n]] + weak);
    assert l + weak == l[..n] + ([l[n]] + weak);
    assert Entries(l[..n]) == Entries(l)[..n];
  }

  /** Looking at an element of the lists: its entry is the one of its key in the recency list. */
  lemma ElementEntry(l: seq<CacheElement>, weak: seq<CacheElement>, recent: seq<Entry>, keys: set<Key>, e: CacheElement)
    requires Rep(Entries(l), Entries(weak), recent, keys) && e in l + weak
    ensures e.Content() in recent && forall x <- recent :: x.key == e.key ==> x == e.Content()
  {
    hide Keep, DistinctKeys, Without, Entries;
    RepDistinct(Entries(l), Entries(weak), recent, keys);
    EntriesConcat(l, weak);
    var i :| 0 <= i < |l + weak| && (l + weak)[i] == e;
    assert Entries(l + weak)[i] == e.Content();
    OnlyValue(recent, e.Content());
  }

  lemma ForgetElement(l: seq<CacheElement>, weak: seq<CacheElement>, recent: seq<Entry>, keys: set<Key>,
                      e: CacheElement)
    requires e in weak && Rep(Entries(l), Entries(weak), recent, keys)
    ensures Rep(Entries(l), Entries(Erase(weak, e)), recent, keys - {e.key})
  {
    hide Keep, DistinctKeys, Without, Entries, Erase;
    RepDistinct(Entries(l), Entries(weak), recent, keys);
    EntriesConcat(l, weak);
    DistinctElements(l + weak);
    var i :| 0 <= i < |weak| && weak[i] == e;
    assert (l + weak)[|l| + i] == e;
    assert forall j | 0 <= j < |l| :: (l + weak)[j] == l[j];
    assert forall j | 0 <= j < |l| :: Entries(l)[j].key != e.key;
    FindMember(Entries(l), e.key);
    ForgetRep(Entries(l), Entries(weak), recent, keys, e.key);
    EraseEntries(weak, e);
  }

  lemma {:induction false} EraseAt(l: seq<CacheElement>, i: nat)
    requires i < |l| && forall j, k | 0 <= j < k < |l| :: l[j] != l[k]
    ensures Erase(l, l[i]) == l[..i] + l[i + 1..]
  {
    if i > 0 {
      assert l[0] != l[i];
      EraseAt(l[1..], i - 1);
      assert l[1..][..i - 1] == l[1..i] && l[1..][i..] == l[i + 1..];
      assert l[..i] == [l[0]] + l[1..i];
    }
  }

  lemma OnlyValue(r: seq<Entry>, x: Entry)
    requires DistinctKeys(r) && x in r
    ensures forall y <- r :: y.key == x.key ==> y == x
  {
  }

  /** Taking the element of a key out of the list that it is in. */
  lemma DetachList(l: seq<CacheElement>, e: CacheElement)
    requires DistinctKeys(Entries(l))
    requires e !in l ==> forall d <- l :: d.key != e.key
    ensures Entries(Erase(l, e)) == Without(Entries(l), e.key)
    ensures forall d :: d in Erase(l, e) <==> d in l && d != e
    ensures e !in l ==> Erase(l, e) == l
  {
    hide Without, DistinctKeys, Entries, Erase;
    EraseMembers(l, e);
    if e in l {
      EraseEntries(l, e);
    } else {
      EraseAbsent(l, e);
      WithoutAbsent(Entries(l), e.key);
    }
  }

  lemma {:induction false} EraseAbsent(l: seq<CacheElement>, e: CacheElement)
    requires e !in l
    ensures Erase(l, e) == l
  {
    if l != [] { EraseAbsent(l[1..], e); }
  }

  /** The size of the strong list after a key was put first and grow ran. */
  lemma TouchSize(strong: seq<Entry>, weak: seq<Entry>, recent: seq<Entry>, keys: set<Key>, x: Entry, limit: nat)
    requires Rep(strong, weak, recent, keys) && |strong| == Min(limit, |recent|)
    ensures Min(limit, 1 + |Without(strong, x.key)|) == Min(limit, |Touched(recent, x)|)
    ensures Find(strong, x.key).Some? ==> 1 + |Without(strong, x.key)| == |strong|
  {
    WithoutPrefix(recent, |strong|, x.key);
    assert recent[..|strong|] == strong;
    assert DistinctKeys(strong);
    WithoutLength(strong, x.key);
    if |recent| <= limit { assert strong == recent; }
  }

  class LRU {
    const sizeLimit: nat
    var cacheList: seq<CacheElement>
    var weakList: seq<CacheElement>
    var cacheMap: map<Key, CacheElement>
    // Not part of the cache: the values that are referred to from outside of it.
    var outside: set<Value>
    ghost var recent: seq<Entry>

    ghost function Abs(): Spec
      reads this
    {
      Spec(recent, outside)
    }

    /** The reference count of a value object is not zero. */
    predicate HasOwner(v: Value)
      reads this, cacheList
    {
      v in outside || exists e <- cacheList :: e.strong == Some(v)
    }

    ghost predicate Held()
      reads this, cacheList, weakList
    {
      && (forall e <- cacheList :: e.strong == Some(e.weak))
      && (forall e <- weakList :: e.strong == None)
    }

    ghost predicate Indexed()
      reads this
    {
      && (forall e <- cacheList + weakList :: e.key in cacheMap && cacheMap[e.key] == e)
      && (forall k <- cacheMap :: cacheMap[k].key == k && cacheMap[k] in cacheList + weakList)
    }

    ghost predicate Ordered()
      reads this
    {
      Rep(Entries(cacheList), Entries(weakList), recent, cacheMap.Keys)
    }

    ghost predicate Live(v: Value)
      reads this
    {
      v in outside || HasValue(Entries(cacheList), v)
    }

    /** What is no longer indexed is dead. */
    ghost predicate Forgotten()
      reads this
    {
      forall x <- recent :: x.key in cacheMap || !Live(x.value)
    }

    ghost predicate Consistent()
      reads this, cacheList, weakList
    {
      Held() && Indexed() && Ordered() && Forgotten()
    }

    ghost predicate Valid()
      reads this, cacheList, weakList
    {
      0 < sizeLimit && |cacheList| == Min(sizeLimit, |recent|) && Consistent()
    }

    constructor (limit: nat)
      requires limit > 0
      ensures Valid() && sizeLimit == limit && Abs() == Spec([], {})
      ensures cacheList == weakList == []
    {
      sizeLimit, cacheList, weakList, cacheMap, outside, recent := limit, [], [], map[], {}, [];
    }

    lemma OwnersAreLive(v: Value)
      requires Held()
      ensures HasOwner(v) <==> Live(v)
    {
      if HasOwner(v) && v !in outside {
        var e :| e in cacheList && e.strong == Some(v);
        var i :| 0 <= i < |cacheList| && cacheList[i] == e;
        assert Entries(cacheList)[i].value == v;
      }
      if HasValue(Entries(cacheList), v) {
        var i :| 0 <= i < |cacheList| && Entries(cacheList)[i].value == v;
        assert cacheList[i].strong == Some(v);
      }
    }

    /** The strong list is exactly the most recent keys, no key is in the lists twice, and every live value
        in the reference model is found under its key. */
    lemma Layout()
      requires Valid()
      ensures Entries(cacheList) <= recent
      ensures |cacheList| == if |recent| < sizeLimit then |recent| else sizeLimit
      ensures DistinctKeys(Entries(cacheList + weakList))
      ensures forall x <- recent :: Live(x.value) ==> x.key in cacheMap && cacheMap[x.key].Content() == x
    {
      hide Entries, Keep;
      RepDistinct(Entries(cacheList), Entries(weakList), recent, cacheMap.Keys);
      EntriesConcat(cacheList, weakList);
      forall x | x in recent && Live(x.value) ensures x.key in cacheMap && cacheMap[x.key].Content() == x {
        ElementEntry(cacheList, weakList, recent, cacheMap.Keys, cacheMap[x.key]);
      }
    }

    /** The first part of grow: elements over the limit are demoted, the oldest first. */
    method DemoteOver()
      requires Consistent() && 0 < sizeLimit
      modifies `cacheList, `weakList, cacheList
      ensures Consistent()
      ensures |cacheList| == Min(sizeLimit, old(|cacheList|))
      ensures cacheList + weakList == old(cacheList + weakList)
      ensures forall d <- cacheList :: d in old(cacheList)
      ensures forall d <- weakList :: d in old(cacheList) || d in old(weakList)
    {
      hide LRU.Held, LRU.Indexed, LRU.Ordered, LRU.Forgotten;
      while |cacheList| > sizeLimit
        invariant Consistent()
        invariant |cacheList| >= Min(sizeLimit, old(|cacheList|)) && |cacheList| <= old(|cacheList|)
        invariant cacheList + weakList == old(cacheList + weakList)
        invariant cacheList <= old(cacheList)
        invariant forall d <- weakList :: d in old(cacheList) || d in old(weakList)
      {
        DemoteLast();
      }
    }

    method DemoteLast()
      requires Consistent() && cacheList != []
      modifies `cacheList, `weakList, cacheList
      ensures Consistent()
      ensures cacheList == old(cacheList[..|cacheList| - 1])
      ensures weakList == [old(cacheList[|cacheList| - 1])] + old(weakList)
    {
      hide Rep, HasValue, DistinctKeys, Entries;
      var n := |cacheList| - 1;
      var e := cacheList[n];
      ghost var all := cacheList + weakList;
      RepDistinct(Entries(cacheList), Entries(weakList), recent, cacheMap.Keys);
      DistinctElements(cacheList);
      DemoteRep(cacheList, weakList, recent, cacheMap.Keys);
      e.Demote();
      weakList := [e] + weakList;
      cacheList := cacheList[..n];
      assert cacheList + weakList == all;
      forall v | Live(v) ensures old(Live(v)) { PrefixValue(old(cacheList), n, v); }
    }

    /** The second part of grow: weak elements whose value is gone are forgotten. */
    method Collect()
      requires Consistent()
      modifies `weakList, `cacheMap
      ensures Consistent()
      ensures cacheList == old(cacheList)
      ensures forall e <- weakList :: Live(e.weak)
      ensures forall d <- weakList :: d in old(weakList)
    {
      hide LRU.Held, LRU.Indexed, LRU.Ordered, LRU.Forgotten, HasValue, Entries, Erase;
      var i := 0;
      while i < |weakList|
        invariant 0 <= i <= |weakList| && cacheList == old(cacheList)
        invariant Consistent()
        invariant forall j | 0 <= j < i :: Live(weakList[j].weak)
        invariant forall d <- weakList :: d in old(weakList)
        decreases |weakList| - i
      {
        OwnersAreLive(weakList[i].weak);
        if HasOwner(weakList[i].weak) {
          i := i + 1;
        } else {
          EraseWeak(i);
          ForgetWeak(weakList[i]);
        }
      }
    }

    lemma EraseWeak(i: nat)
      requires Consistent() && i < |weakList|
      ensures Erase(weakList, weakList[i]) == weakList[..i] + weakList[i + 1..]
    {
      hide Rep, DistinctKeys, Entries;
      RepDistinct(Entries(cacheList), Entries(weakList), recent, cacheMap.Keys);
      DistinctElements(weakList);
      EraseAt(weakList, i);
    }

    method ForgetWeak(e: CacheElement)
      requires Consistent() && e in weakList && !Live(e.weak)
      modifies `weakList, `cacheMap
      ensures Consistent()
      ensures weakList == Erase(old(weakList), e)
      ensures forall d <- weakList :: d in old(weakList)
    {
      hide Rep, HasValue, DistinctKeys, Entries, Erase;
      RepDistinct(Entries(cacheList), Entries(weakList), recent, cacheMap.Keys);
      EraseMembers(weakList, e);
      ForgetElement(cacheList, weakList, recent, cacheMap.Keys, e);
      ElementEntry(cacheList, weakList, recent, cacheMap.Keys, e);
      assert e !in cacheList;
      cacheMap := cacheMap - {e.key};
      weakList := Erase(weakList, e);
    }

    lemma LiveIsAlive(v: Value)
      requires Valid()
      ensures Live(v) <==> Alive(Abs(), sizeLimit, v)
    {
      hide Keep, DistinctKeys, HasValue;
      assert recent[..Min(sizeLimit, |recent|)] == Entries(cacheList);
    }

    /** Brings the cache back to its limit after an element was put first. */
    method Grow()
      requires Consistent() && 0 < sizeLimit
      requires |cacheList| >= Min(sizeLimit, |recent|)
      modifies `cacheList, `weakList, `cacheMap, cacheList
      ensures Valid()
      ensures forall e <- weakList :: Live(e.weak)
      ensures forall d <- cacheList :: d in old(cacheList) || d in old(weakList)
      ensures forall d <- weakList :: d in old(cacheList) || d in old(weakList)
    {
      hide LRU.Held, LRU.Indexed, LRU.Forgotten, Keep, DistinctKeys;
      DemoteOver();
      Collect();
    }

    /** Takes the element of key k, if there is one, out of its list. */
    method Detach(k: Key)
      requires Consistent()
      modifies `cacheList, `weakList
      ensures Entries(cacheList) == Without(Entries(old(cacheList)), k)
      ensures Entries(weakList) == Without(Entries(old(weakList)), k)
      ensures forall d :: d in cacheList <==> d in old(cacheList) && d.key != k
      ensures forall d :: d in weakList <==> d in old(weakList) && d.key != k
    {
      hide Rep, HasValue, DistinctKeys, Entries, Erase, Without;
      RepDistinct(Entries(cacheList), Entries(weakList), recent, cacheMap.Keys);
      if k in cacheMap {
        var was := cacheMap[k];
        DetachList(cacheList, was);
        DetachList(weakList, was);
        if was.strong.Some? { cacheList := Erase(cacheList, was); } else { weakList := Erase(weakList, was); }
      } else {
        WithoutAbsent(Entries(cacheList), k);
        WithoutAbsent(Entries(weakList), k);
      }
    }

    /** Puts an element at the front of the strong list, in place of the detached one of its key. */
    method PutFirst(e: CacheElement, ghost before: seq<CacheElement>, ghost weakBefore: seq<CacheElement>)
      requires e.strong == Some(e.weak)
      requires Rep(Entries(before), Entries(weakBefore), recent, cacheMap.Keys)
      requires Entries(cacheList) == Without(Entries(before), e.key)
      requires Entries(weakList) == Without(Entries(weakBefore), e.key)
      requires forall d :: d in cacheList + weakList ==> d.key != e.key
      requires Held() && Live(e.weak)
      requires forall d <- cacheList + weakList :: d.key in cacheMap && cacheMap[d.key] == d
      requires forall k <- cacheMap :: k != e.key ==> cacheMap[k].key == k && cacheMap[k] in cacheList + weakList
      requires Forgotten()
      modifies `cacheList, `cacheMap, `recent
      ensures Consistent()
      ensures cacheList == [e] + old(cacheList)
      ensures recent == Touched(old(recent), e.Content()) && cacheMap == old(cacheMap)[e.key := e]
    {
      hide Rep, DistinctKeys, Entries, Without, Erase;
      TouchRep(Entries(before), Entries(weakBefore), recent, cacheMap.Keys, e.Content());
      EntriesConcat([e], cacheList);
      assert Entries([e]) == [e.Content()];
      cacheList := [e] + cacheList;
      cacheMap := cacheMap[e.key := e];
      recent := Touched(recent, e.Content());
      assert cacheMap.Keys == old(cacheMap.Keys) + {e.key};
      forall x | x in recent ensures x.key in cacheMap || !Live(x.value) {
        WithoutMember(old(recent), e.key, x);
        if Live(x.value) { FirstValue(e, old(cacheList), x.value); }
      }
    }

    /** insert: the element of the key, if any, is replaced. */
    method Insert(k: Key, v: Value)
      requires Valid() && v in outside
      modifies `cacheList, `weakList, `cacheMap, `recent, (set d | d in cacheList)
      ensures Valid() && Abs() == Step(old(Abs()), sizeLimit, Op.Insert(k, v))
      ensures forall d <- cacheList :: d in old(cacheList) || d in old(weakList) || fresh(d)
      ensures forall d <- weakList :: d in old(cacheList) || d in old(weakList) || fresh(d)
    {
      hide Rep, DistinctKeys, Entries, Without, Erase;
      var e := new CacheElement(k, v);
      TouchSize(Entries(cacheList), Entries(weakList), recent, cacheMap.Keys, e.Content(), sizeLimit);
      Detach(k);
      PutFirst(e, old(cacheList), old(weakList));
      Grow();
    }

    /** get: the value of the key while it is alive; a found element moves to the front. */
    method Get(k: Key) returns (found: Option<Value>)
      requires Valid()
      modifies `cacheList, `weakList, `cacheMap, `outside, `recent, (set d | d in cacheList || d in weakList)
      ensures Valid() && found == Lookup(old(Abs()), sizeLimit, k)
      ensures outside == if found.Some? then old(outside) + {found.value} else old(outside)
      ensures Abs() == Step(old(Abs()), sizeLimit, Op.Get(k))
      ensures forall d <- cacheList :: d in old(cacheList) || d in old(weakList) || fresh(d)
      ensures forall d <- weakList :: d in old(cacheList) || d in old(weakList) || fresh(d)
    {
      hide Rep, DistinctKeys, Entries, Without, Erase, Alive;
      KeyEntry(k);
      if k !in cacheMap { return None; }
      var e := cacheMap[k];
      LiveIsAlive(e.weak);
      OwnersAreLive(e.weak);
      if e.strong.Some? || HasOwner(e.weak) {
        found := Some(e.weak);
        outside := outside + {e.weak};
        MoveFirst(e);
      } else {
        found := None;
        ForgetWeak(e);
      }
    }

    /** The key's entry in the reference model. */
    lemma KeyEntry(k: Key)
      requires Valid()
      ensures Lookup(Abs(), sizeLimit, k) ==
              if k in cacheMap && Alive(Abs(), sizeLimit, cacheMap[k].weak) then Some(cacheMap[k].weak) else None
    {
      hide DistinctKeys, Entries, Without, Erase, Alive, Keep;
      FindMember(recent, k);
      var found := Find(recent, k);
      if k in cacheMap {
        ElementEntry(cacheList, weakList, recent, cacheMap.Keys, cacheMap[k]);
      } else if found.Some? {
        LiveIsAlive(found.value);
      }
    }

    lemma StrongFound(e: CacheElement)
      requires Consistent() && e in cacheList
      ensures Find(Entries(cacheList), e.key).Some?
    {
      hide DistinctKeys, Entries, Erase, Keep;
      var i :| 0 <= i < |cacheList| && cacheList[i] == e;
      assert Entries(cacheList)[i].key == e.key;
      FindMember(Entries(cacheList), e.key);
    }

    /** The found element is spliced to the front; a weak one takes a strong reference again. */
    method Splice(e: CacheElement)
      requires Consistent() && e in cacheList + weakList && e.weak in outside
      modifies `cacheList, `weakList, `cacheMap, `recent, e
      ensures Consistent()
      ensures |cacheList| == 1 + |Without(Entries(old(cacheList)), e.key)|
      ensures recent == Touched(old(recent), e.Content())
      ensures forall d <- cacheList :: d in old(cacheList) || d in old(weakList)
      ensures forall d <- weakList :: d in old(weakList)
    {
      hide Find, Touched, Rep, DistinctKeys, Entries, Without, Erase;
      Detach(e.key);
      if e.strong.None? { e.Promote(e.weak); }
      PutFirst(e, old(cacheList), old(weakList));
    }

    method MoveFirst(e: CacheElement)
      requires Valid() && e in cacheList + weakList && e.weak in outside
      modifies `cacheList, `weakList, `cacheMap, `recent, cacheList, weakList
      ensures Valid() && recent == Touched(old(recent), e.Content())
      ensures forall d <- cacheList :: d in old(cacheList) || d in old(weakList)
      ensures forall d <- weakList :: d in old(cacheList) || d in old(weakList)
    {
      hide Find, Touched, Rep, DistinctKeys, Entries, Without, Erase;
      TouchSize(Entries(cacheList), Entries(weakList), recent, cacheMap.Keys, e.Content(), sizeLimit);
      var wasStrong := e.strong.Some?;
      if wasStrong { StrongFound(e); }
      Splice(e);
      if !wasStrong { Grow(); }
    }

    /** Code outside of the cache drops all its references to a value. */
    method Release(v: Value)
      requires Valid()
      modifies `outside
      ensures Valid() && Abs() == Step(old(Abs()), sizeLimit, Op.Release(v))
    {
      outside := outside - {v};
    }

    /** Code outside of the cache makes a new value or copies a reference to one that is not dead. */
    method Acquire(v: Value)
      requires Valid() && (HasValue(recent, v) ==> Alive(Abs(), sizeLimit, v))
      modifies `outside
      ensures Valid() && Abs() == Step(old(Abs()), sizeLimit, Op.Acquire(v))
    {
      hide Rep, DistinctKeys, Entries, Erase, Alive;
      LiveIsAlive(v);
      outside := outside + {v};
    }

    method Clear()
      requires Valid()
      modifies `cacheList, `weakList, `cacheMap, `recent
      ensures Valid() && Abs() == Step(old(Abs()), sizeLimit, Op.Clear)
      ensures cacheList == weakList == [] && cacheMap == map[]
    {
      cacheMap := map[];
      cacheList := [];
      weakList := [];
      recent := [];
    }
  }

  lemma FirstValue(e: CacheElement, l: seq<CacheElement>, v: Value)
    ensures HasValue(Entries([e] + l), v) ==> v == e.weak || HasValue(Entries(l), v)
  {
    if i :| 1 <= i < |l| + 1 && Entries([e] + l)[i].value == v { assert Entries(l)[i - 1].value == v; }
  }

  /** Any run of the cache: every get gives what the history of operations demands. */
  method Run(limit: nat, ops: seq<Op>) returns (cache: LRU, found: seq<Option<Value>>)
    requires limit > 0
    ensures cache.Valid() && cache.Abs() == Recency.Run(limit, ops) && cache.sizeLimit == limit
    ensures found == Answers(limit, ops)
    ensures forall v :: v in cache.outside <==> Referred(limit, ops, v)
  {
    hide LRU.Valid, Alive, HasValue, Lookup, Answer, Referred;
    cache := new LRU(limit);
    found := [];
    var model := Spec([], {});
    for n := 0 to |ops|
      invariant cache.Valid() && cache.sizeLimit == limit
      invariant fresh(cache) && (forall d <- cache.cacheList :: fresh(d)) && (forall d <- cache.weakList :: fresh(d))
      invariant cache.Abs() == model == Recency.Run(limit, ops[..n])
      invariant found == Answers(limit, ops[..n])
    {
      assert ops[..n + 1][..n] == ops[..n];
      match ops[n] {
        case Insert(k, v) => if v in cache.outside { cache.Insert(k, v); }
        case Get(k) =>
          LookupIsAnswer(limit, ops[..n], k);
          var value := cache.Get(k);
          found := found + [value];
        case Release(v) => cache.Release(v);
        case Acquire(v) => if !HasValue(model.recent, v) || Alive(model, limit, v) { cache.Acquire(v); }
        case Clear => cache.Clear();
      }
      model := Recency.Step(model, limit, ops[n]);
    }
    assert ops[..|ops|] == ops;
    forall v ensures v in cache.outside <==> Referred(limit, ops, v) { OutsideIsReferred(limit, ops, v); }
  }
}
