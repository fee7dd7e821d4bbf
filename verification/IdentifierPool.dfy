/** A pool of identifiers of an unsigned type, and the holders that own the reserved ones. */
module IdentifierPool {
  import opened Options
  import opened Powers

  /** Adding one to an identifier of a type with size values. */
  function Next(id: nat, size: nat): nat { if id + 1 >= size then 0 else id + 1 }

  /** The identifier k places behind another one, in cyclic order. */
  function Behind(id: nat, k: nat, size: nat): int
  {
    if id + k < size then id + k else id + k - size
  }

  /** Cyclic order is addition modulo the number of values. */
  lemma CyclicOrder(id: nat, k: nat, size: nat)
    requires id < size && k < size
    ensures Behind(id, k, size) == (id + k) % size && Next(id, size) == (id + 1) % size
  {
    if id + k < size { ModSmall(id + k, size); } else { DivModUnique(id + k, size, 1, id + k - size); }
    if id + 1 < size { ModSmall(id + 1, size); } else { DivModUnique(id + 1, size, 1, 0); }
  }

  class State {
    const size: nat
    var reserved: set<nat>
    var tryNextId: nat

    ghost predicate Valid()
      reads this
    {
      tryNextId < size && forall id <- reserved :: id < size
    }

    constructor (size: nat)
      requires size > 0
      ensures Valid() && this.size == size && reserved == {} && tryNextId == 0
    {
      this.size, reserved, tryNextId := size, {}, 0;
    }

    /** reserve: the first identifier that is free in cyclic order from the hint; it fails exactly when all are
        reserved, and then changes nothing. */
    method Reserve() returns (id: Option<nat>)
      requires Valid()
      modifies this
      ensures Valid()
      ensures id.None? <==> forall x: nat | x < size :: x in old(reserved)
      ensures id.None? ==> reserved == old(reserved) && tryNextId == old(tryNextId)
      ensures id.Some? ==>
                && id.value < size && id.value !in old(reserved) && reserved == old(reserved) + {id.value}
                && tryNextId == (id.value + 1) % size
                && exists k | 0 <= k < size :: FirstFree(old(reserved), old(tryNextId), k, size, id.value)
    {
      var tryNext := tryNextId;
      var oldTryNext := tryNext;
      ghost var k := 0;
      while tryNext in reserved
        invariant reserved == old(reserved) && tryNextId == oldTryNext == old(tryNextId)
        invariant 0 <= k < size && tryNext == Behind(oldTryNext, k, size)
        invariant forall j | 0 <= j < k :: Behind(oldTryNext, j, size) in reserved
        decreases size - k
      {
        tryNext := Next(tryNext, size);
        if tryNext == oldTryNext {
          assert k == size - 1;
          forall x: nat | x < size ensures x in reserved {
            var j := if x >= oldTryNext then x - oldTryNext else x + size - oldTryNext;
            assert x == Behind(oldTryNext, j, size);
          }
          return None;
        }
        k := k + 1;
      }
      assert FirstFree(reserved, tryNextId, k, size, tryNext);
      reserved := reserved + {tryNext};
      CyclicOrder(tryNext, 0, size);
      tryNextId := Next(tryNext, size);
      id := Some(tryNext);
    }

    /** recycle: the identifier has to be reserved. */
    method Recycle(id: nat)
      requires Valid() && id in reserved
      modifies `reserved
      ensures Valid() && reserved == old(reserved) - {id}
    {
      reserved := reserved - {id};
    }
  }

  /** id is k places behind the hint, everything in between is reserved, and id is not. */
  ghost predicate FirstFree(reserved: set<nat>, hint: nat, k: nat, size: nat, id: nat) {
    id == Behind(hint, k, size) && id !in reserved && forall j | 0 <= j < k :: Behind(hint, j, size) in reserved
  }

  lemma FirstFreeUnique(reserved: set<nat>, hint: nat, size: nat, k: nat, a: nat, l: nat, b: nat)
    requires FirstFree(reserved, hint, k, size, a) && FirstFree(reserved, hint, l, size, b)
    ensures a == b && k == l
  {
  }

  class IdHolder {
    var id: nat
    var state: State?

    constructor Empty()
      ensures state == null
    {
      id, state := 0, null;
    }

    /** The move constructor. */
    constructor Move(from: IdHolder)
      modifies from`state
      ensures id == old(from.id) && state == old(from.state) && from.state == null
    {
      id, state := from.id, from.state;
      new;
      from.state := null;
    }

    constructor Holding(id: nat, state: State)
      ensures this.id == id && this.state == state
    {
      this.id, this.state := id, state;
    }
  }

  /** The pool of a type, all holders that refer to it, and the holders that refer to nothing. */
  class World {
    const pool: State
    var holders: set<IdHolder>

    ghost predicate Live(h: IdHolder)
      reads h
    {
      h.state == pool
    }

    /** The reserved identifiers are those of the live holders, each held once. */
    ghost predicate Valid()
      reads this, pool, holders
    {
      && pool.Valid()
      && (forall h <- holders :: h.state == null || h.state == pool)
      && (forall h <- holders | Live(h) :: h.id in pool.reserved)
      && (forall id <- pool.reserved :: exists h <- holders :: Live(h) && h.id == id)
      && (forall h <- holders, g <- holders | Live(h) && Live(g) && h.id == g.id :: h == g)
    }

    constructor (size: nat)
      requires size > 0
      ensures Valid() && fresh(pool) && pool.size == size && holders == {}
    {
      pool := new State(size);
      holders := {};
    }

    /** A new holder of a new identifier, unless all are reserved. */
    method Reserve() returns (h: IdHolder?)
      requires Valid()
      modifies pool, `holders
      ensures Valid()
      ensures h == null <==> forall x: nat | x < pool.size :: x in old(pool.reserved)
      ensures h == null ==> holders == old(holders) && pool.reserved == old(pool.reserved)
      ensures h != null ==> fresh(h) && holders == old(holders) + {h} && h.state == pool
                            && h.id !in old(pool.reserved) && pool.reserved == old(pool.reserved) + {h.id}
    {
      var id := pool.Reserve();
      if id.None? { return null; }
      h := new IdHolder.Holding(id.value, pool);
      holders := holders + {h};
    }

    /** release: the identifier goes back to the pool; so does the destructor. */
    method Release(h: IdHolder)
      requires Valid() && h in holders
      modifies pool`reserved, h`state
      ensures Valid() && h.state == null
      ensures pool.reserved == if old(h.state) == null then old(pool.reserved) else old(pool.reserved) - {h.id}
    {
      if h.state != null {
        h.state.Recycle(h.id);
        h.state := null;
      }
    }

    method Destroy(h: IdHolder)
      requires Valid() && h in holders
      modifies pool`reserved, h`state, `holders
      ensures Valid() && holders == old(holders) - {h}
      ensures pool.reserved == if old(h.state) == null then old(pool.reserved) else old(pool.reserved) - {h.id}
    {
      Release(h);
      holders := holders - {h};
    }

    method MoveConstruct(from: IdHolder) returns (h: IdHolder)
      requires Valid() && from in holders
      modifies from`state, `holders
      ensures Valid() && fresh(h) && holders == old(holders) + {h} && from.state == null
      ensures h.id == old(from.id) && h.state == old(from.state)
    {
      h := new IdHolder.Move(from);
      holders := holders + {h};
    }

    /** Move assignment: the identifier held before goes back, the other one is taken over. */
    method MoveAssign(to: IdHolder, from: IdHolder)
      requires Valid() && to in holders && from in holders && to != from
      modifies pool`reserved, to`id, to`state, from`state
      ensures Valid() && from.state == null && to.state == old(from.state) && to.id == old(from.id)
      ensures pool.reserved == if old(to.state) == null then old(pool.reserved) else old(pool.reserved) - {old(to.id)}
    {
      if to.state != null { to.state.Recycle(to.id); }
      to.id := from.id;
      to.state := from.state;
      from.state := null;
    }

    ghost function LiveHolders(): set<IdHolder>
      reads this, holders
    {
      set h | h in holders && Live(h)
    }

    /** There are as many live holders as reserved identifiers, so a reservation fails exactly when there are as
        many live holders as the type has values. */
    lemma Exhausted()
      requires Valid()
      ensures |LiveHolders()| == |pool.reserved| <= pool.size
      ensures |LiveHolders()| == pool.size <==> forall x: nat | x < pool.size :: x in pool.reserved
    {
      HeldCount(LiveHolders());
      assert pool.reserved == Held(LiveHolders());
      AllIdsOk(pool.size);
      Subset(pool.reserved, AllIds(pool.size));
      if forall x: nat | x < pool.size :: x in pool.reserved { assert pool.reserved == AllIds(pool.size); }
    }
  }

  ghost function Held(live: set<IdHolder>): set<nat>
    reads live
  {
    set h <- live :: h.id
  }

  lemma {:induction false} HeldCount(live: set<IdHolder>)
    requires forall h <- live, g <- live | h.id == g.id :: h == g
    ensures |Held(live)| == |live|
  {
    if live == {} {
      assert Held(live) == {};
    } else {
      var h :| h in live;
      HeldCount(live - {h});
      assert h.id !in Held(live - {h});
      assert Held(live) == Held(live - {h}) + {h.id};
    }
  }

  function AllIds(n: nat): set<nat> { if n == 0 then {} else AllIds(n - 1) + {n - 1} }

  lemma {:induction false} AllIdsOk(n: nat)
    ensures |AllIds(n)| == n && forall x: nat :: x in AllIds(n) <==> x < n
  {
    if n > 0 { AllIdsOk(n - 1); }
  }

  lemma {:induction false} Subset(a: set<nat>, b: set<nat>)
    requires a <= b
    ensures |a| <= |b| && (|a| == |b| ==> a == b)
  {
    if a != {} {
      var x :| x in a;
      Subset(a - {x}, b - {x});
    }
  }

  /** What code does with its holders, given by their numbers. */
  datatype Action = Reserve | Move(from: nat) | Assign(to: nat, from: nat) | Release(h: nat) | Destroy(h: nat)

  /** Any run: an action on a holder that was destroyed, and a holder assigned to itself, are skipped. */
  method Run(size: nat, actions: seq<Action>) returns (world: World, made: seq<IdHolder>)
    requires size > 0
    ensures fresh(world) && world.Valid() && world.pool.size == size
    ensures forall h <- world.holders :: h in made
  {
    world := new World(size);
    made := [];
    for n := 0 to |actions|
      invariant fresh(world) && fresh(world.pool) && world.Valid() && world.pool.size == size
      invariant forall h <- made :: fresh(h)
      invariant forall h <- world.holders :: h in made
    {
      match actions[n]
      case Reserve =>
        var h := world.Reserve();
        if h != null { made := made + [h]; }
      case Move(i) =>
        if i < |made| && made[i] in world.holders {
          var h := world.MoveConstruct(made[i]);
          made := made + [h];
        }
      case Assign(i, j) =>
        if i < |made| && j < |made| && made[i] in world.holders && made[j] in world.holders && made[i] != made[j] {
          world.MoveAssign(made[i], made[j]);
        }
      case Release(i) => if i < |made| && made[i] in world.holders { world.Release(made[i]); }
      case Destroy(i) => if i < |made| && made[i] in world.holders { world.Destroy(made[i]); }
    }
  }
}
