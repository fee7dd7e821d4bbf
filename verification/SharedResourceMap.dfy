/** A map that hands out shared resources and forgets them when the last handle is dropped.  Dropping the
    last handle and running its deleter are separate steps, so lookups may come in between. */
module SharedResourceMap {

  type Key = nat

  /** One resource; weakPtr watches the latest group of handles to it. */
  class ValueObj {
    const key: Key
    var weakPtr: ControlBlock?

    constructor (key: Key)
      ensures this.key == key && weakPtr == null
    {
      this.key := key;
      weakPtr := null;
    }
  }

  /** The shared state of one group of handles: how many there are, and whether the deleter that the last
      of them left behind has run.  The deleter keeps the resource alive until then. */
  class ControlBlock {
    const value: ValueObj
    var handles: nat
    var deleted: bool

    constructor (value: ValueObj)
      ensures this.value == value && handles == 1 && !deleted
    {
      this.value := value;
      handles, deleted := 1, false;
    }
  }

  class Inner {
    var alive: bool
    var data: map<Key, ValueObj>
    // Every group of handles ever created.
    ghost var blocks: seq<ControlBlock>

    ghost function Objects(): set<object>
      reads this, blocks
    {
      {this as object} + (set b | b in blocks :: b as object) + (set b | b in blocks :: b.value as object)
    }

    /** Each entry is watched by a group of its own whose deleter has not run. */
    ghost predicate EntryOk(k: Key)
      requires k in data
      reads this, blocks, data[k]
    {
      var o := data[k];
      && o.key == k && o.weakPtr != null && o.weakPtr in blocks
      && o.weakPtr.value == o && !o.weakPtr.deleted
    }

    /** A group with handles is the one its entry watches. */
    ghost predicate LiveOk(b: ControlBlock)
      reads this, b, b.value
    {
      b.handles > 0 ==>
        !b.deleted && (alive ==> b.value.key in data && data[b.value.key] == b.value && b.value.weakPtr == b)
    }

    /** Two groups with handles are of different keys, also when the map object is gone. */
    ghost predicate LiveUnique()
      reads this, blocks
    {
      forall b, c | b in blocks && c in blocks && b.handles > 0 && c.handles > 0 && b.value.key == c.value.key ::
        b == c
    }

    ghost predicate Valid()
      reads this, blocks, set b | b in blocks :: b.value, data.Values
    {
      && LiveUnique()
      && (!alive ==> data == map[])
      && (forall k :: k in data ==> EntryOk(k))
      && (forall b :: b in blocks ==> LiveOk(b))
    }

    constructor ()
      ensures Valid() && alive && data == map[] && blocks == []
    {
      alive, data, blocks := true, map[], [];
    }

    /** Makes a new group with one handle to o and lets o watch it. */
    method CreateShared(o: ValueObj) returns (handle: ControlBlock)
      modifies o`weakPtr, `blocks
      ensures fresh(handle) && handle.value == o && handle.handles == 1 && !handle.deleted
      ensures o.weakPtr == handle && blocks == old(blocks) + [handle]
    {
      handle := new ControlBlock(o);
      o.weakPtr := handle;
      blocks := blocks + [handle];
    }

    lemma DataHeld()
      requires Valid()
      ensures forall k :: k in data ==> exists b :: b in blocks && b.value == data[k]
    {
      forall k | k in data
        ensures exists b :: b in blocks && b.value == data[k]
      {
        assert EntryOk(k);
      }
    }

    method GetResource(key: Key) returns (handle: ControlBlock)
      requires Valid() && alive
      modifies Objects()
      ensures Valid() && alive
      ensures handle in blocks && handle.value.key == key && handle.handles > 0
      // The handle belongs to the same group, hence the same resource, as every live handle of the key.
      ensures forall b :: b in old(blocks) && old(b.handles) > 0 && b.value.key == key ==> b == handle
      ensures key in data && data[key] == handle.value
      ensures key in old(data) ==> data == old(data)
      ensures key !in old(data) ==> fresh(handle.value) && data == old(data)[key := handle.value]
      ensures blocks == old(blocks) || (fresh(handle) && handle.handles == 1 && blocks == old(blocks) + [handle])
      ensures handle in old(blocks) ==> handle.handles == old(handle.handles) + 1
      ensures forall b :: b in old(blocks) && b != handle ==> b.handles == old(b.handles)
      ensures forall b :: b in old(blocks) ==> b.deleted == old(b.deleted)
    {
      hide Inner.LiveUnique;
      LiveEntry(key);
      if key in data {
        var o := data[key];
        assert EntryOk(key);
        if o.weakPtr.handles > 0 {
          handle := o.weakPtr;
          CopyHandle(handle);
        } else {
          handle := Revive(o);
        }
      } else {
        handle := AddEntry(key);
      }
    }

    /** A group with handles is watched by the entry of its key. */
    lemma LiveEntry(key: Key)
      requires Valid() && alive
      ensures forall b <- blocks | b.handles > 0 && b.value.key == key ::
                key in data && data[key] == b.value && b.value.weakPtr == b
    {
      forall b | b in blocks && b.handles > 0 && b.value.key == key
        ensures key in data && data[key] == b.value && b.value.weakPtr == b
      {
        assert LiveOk(b);
      }
    }

    /** The entry is still there but its handles are gone: a new group takes over. */
    method Revive(o: ValueObj) returns (handle: ControlBlock)
      requires Valid() && alive && o.key in data && data[o.key] == o && o.weakPtr != null && o.weakPtr.handles == 0
      modifies o`weakPtr, `blocks
      ensures Valid() && fresh(handle) && handle.value == o && handle.handles == 1 && blocks == old(blocks) + [handle]
    {
      LiveEntry(o.key);
      assert EntryOk(o.key);
      handle := CreateShared(o);
      forall k | k in data ensures EntryOk(k) { assert old(EntryOk(k)); }
      forall b | b in old(blocks) ensures LiveOk(b) { assert old(LiveOk(b)); }
    }

    method AddEntry(key: Key) returns (handle: ControlBlock)
      requires Valid() && alive && key !in data
      modifies `data, `blocks
      ensures Valid() && fresh(handle) && fresh(handle.value) && data == old(data)[key := handle.value]
      ensures handle.value.key == key && handle.handles == 1 && blocks == old(blocks) + [handle]
    {
      LiveEntry(key);
      var o := new ValueObj(key);
      data := data[key := o];
      handle := CreateShared(o);
      forall k | k in data ensures EntryOk(k) { if k != key { assert old(EntryOk(k)); } }
      forall b | b in old(blocks) ensures LiveOk(b) { assert old(LiveOk(b)); }
    }

    method CopyHandle(b: ControlBlock)
      requires Valid() && b in blocks && b.handles > 0
      modifies b`handles
      ensures Valid() && b.handles == old(b.handles) + 1
    {
      b.handles := b.handles + 1;
    }

    /** Drops a handle; when it was the last one the deleter is left to run later. */
    method DropHandle(b: ControlBlock)
      requires Valid() && b in blocks && b.handles > 0
      modifies b`handles
      ensures Valid() && b.handles == old(b.handles) - 1
      ensures !b.deleted
    {
      assert LiveOk(b);
      b.handles := b.handles - 1;
    }

    /** The deleter of a group: erases the entry of its key unless that entry has handles again. */
    method RunDeleter(b: ControlBlock)
      requires Valid() && b in blocks && b.handles == 0 && !b.deleted
      modifies b`deleted, `data
      ensures Valid() && b.deleted
      ensures alive && b.value.key in old(data) && old(data)[b.value.key].weakPtr.handles == 0 ==>
        data == old(data) - {b.value.key}
      ensures !(alive && b.value.key in old(data) && old(data)[b.value.key].weakPtr.handles == 0) ==>
        data == old(data)
      // An entry goes only while its key has no live handle.
      ensures forall c :: c in blocks && c.handles > 0 && alive ==>
        c.value.key in data && data[c.value.key] == c.value
    {
      var k := b.value.key;
      ghost var before := data;
      if alive {
        if k in data {
          assert EntryOk(k);
          if data[k].weakPtr.handles == 0 {
            data := data - {k};
          }
        }
      }
      b.deleted := true;
      forall j | j in data
        ensures EntryOk(j)
      {
      }
      forall c | c in blocks
        ensures LiveOk(c)
      {
      }
    }

    /** The map object goes away; deleters find no container any more. */
    method Destroy()
      requires Valid()
      modifies `alive, `data
      ensures Valid() && !alive && data == map[]
    {
      alive, data := false, map[];
    }

    /** All live handles of one key point to one resource; while the map exists it is the one in the entry. */
    lemma OneResource(b: ControlBlock, c: ControlBlock)
      requires Valid() && b in blocks && c in blocks
      requires b.handles > 0 && c.handles > 0 && b.value.key == c.value.key
      ensures b == c && b.value == c.value
      ensures alive ==> b.value.key in data && data[b.value.key] == b.value
    {
      assert LiveOk(b) && LiveOk(c);
    }

    /** Every entry has a live handle or a deleter still to run. */
    lemma EntriesAreHeld(k: Key)
      requires Valid() && k in data
      ensures exists b :: b in blocks && b.value == data[k] && (b.handles > 0 || !b.deleted)
    {
      assert EntryOk(k);
    }

    /** Once every handle is dropped and every deleter has run, the map is empty. */
    lemma EmptyWhenQuiet()
      requires Valid()
      requires forall b :: b in blocks ==> b.handles == 0 && b.deleted
      ensures data == map[]
    {
      forall k | k in data
        ensures false
      {
        EntriesAreHeld(k);
      }
      assert data.Keys == {};
    }
  }

  /** The threads' steps; i names the i-th group of handles made. */
  datatype Action = Get(key: Key) | Copy(i: nat) | Drop(i: nat) | Delete(i: nat) | DestroyMap

  /** Any interleaving of lookups, copies, drops and delayed deleters, with the map destroyed at any time;
      a step that is not possible is skipped. */
  method Run(schedule: seq<Action>) returns (resources: Inner, groups: seq<ControlBlock>)
    ensures resources.Valid() && resources.blocks == groups
    ensures
      forall b, c | b in groups && c in groups && b.handles > 0 && c.handles > 0
                    && b.value.key == c.value.key :: b.value == c.value
    ensures resources.alive ==>
      forall b :: b in groups && b.handles > 0 ==>
        b.value.key in resources.data && resources.data[b.value.key] == b.value
    ensures (forall b :: b in groups ==> b.handles == 0 && b.deleted) ==> resources.data == map[]
  {
    hide Inner.EntryOk, Inner.LiveOk, Inner.LiveUnique;
    resources := new Inner();
    groups := [];
    for n := 0 to |schedule|
      invariant fresh(resources) && resources.Valid() && resources.blocks == groups
      invariant forall b :: b in groups ==> fresh(b) && fresh(b.value)
    {
      match schedule[n]
      case Get(key) =>
        if resources.alive {
          resources.DataHeld();
          var handle := resources.GetResource(key);
          groups := if handle in groups then groups else groups + [handle];
        }
      case Copy(i) =>
        if i < |groups| {
          var g := groups[i];
          assert g in groups;
          if g.handles > 0 { resources.CopyHandle(g); }
        }
      case Drop(i) =>
        if i < |groups| {
          var g := groups[i];
          assert g in groups;
          if g.handles > 0 { resources.DropHandle(g); }
        }
      case Delete(i) =>
        if i < |groups| {
          var g := groups[i];
          assert g in groups;
          if g.handles == 0 && !g.deleted { resources.RunDeleter(g); }
        }
      case DestroyMap => resources.Destroy();
    }
    Quiescent(resources);
  }

  lemma Quiescent(resources: Inner)
    requires resources.Valid()
    ensures
      forall b, c | b in resources.blocks && c in resources.blocks && b.handles > 0 && c.handles > 0
                    && b.value.key == c.value.key :: b.value == c.value
    ensures resources.alive ==>
      forall b :: b in resources.blocks && b.handles > 0 ==>
        b.value.key in resources.data && resources.data[b.value.key] == b.value
    ensures (forall b :: b in resources.blocks ==> b.handles == 0 && b.deleted) ==> resources.data == map[]
  {
    assert forall b :: b in resources.blocks ==> resources.LiveOk(b);
    if forall b :: b in resources.blocks ==> b.handles == 0 && b.deleted {
      resources.EmptyWhenQuiet();
    }
  }
}
