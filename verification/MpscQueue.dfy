/** A queue for many producers and one consumer.  A push first exchanges the tail and only then links the
    old tail to the new node; every method below is one atomic access, and any number of producers may be
    between their two accesses. */
module MpscQueue {
  import opened Options

  type Data = nat

  class Node {
    var next: Node?
    var data: Option<Data>

    constructor (data: Option<Data>)
      ensures next == null && this.data == data
    {
      next, this.data := null, data;
    }
  }

  /** The consumer's local variables. */
  datatype Pop =
    | NoPop
    | HasHead(h: Node)
    | HasNext(h: Node, n: Node)
    | DataMoved(h: Node, n: Node)
    | HeadStored(h: Node)

  class Queue {
    var tail: Node
    var head: Node
    var pop: Pop

    // The local variables of the producers: for each old tail not yet linked, the node about to be linked.
    var pending: map<Node, Node>

    // All nodes from head to tail in the order of the tail exchanges; and the histories of the two ends.
    ghost var chain: seq<Node>
    ghost var pushed: seq<Data>
    ghost var popped: seq<Data>

    ghost predicate LinkOk(i: nat)
      requires i + 1 < |chain|
      reads `chain, `pending, (set n | n in chain)`next
    {
      if chain[i] in pending then chain[i].next == null && pending[chain[i]] == chain[i + 1]
      else chain[i].next == chain[i + 1]
    }

    ghost predicate Linkage()
      reads `head, `tail, `chain, `pending, (set n | n in chain)`next, tail`next
    {
      && |chain| > 0 && head == chain[0] && tail == chain[|chain| - 1]
      && (forall i, j :: 0 <= i < j < |chain| ==> chain[i] != chain[j])
      && (forall p :: p in pending ==> p in chain && p != tail)
      && tail.next == null
      && (forall i :: 0 <= i < |chain| - 1 ==> LinkOk(i))
    }

    ghost predicate Contents()
      reads `pop, `chain, `pushed, `popped, (set n | n in chain)`data
    {
      && |chain| > 0 && |pushed| == |popped| + |chain| - 1 && popped <= pushed
      && (forall i :: (if pop.DataMoved? then 2 else 1) <= i < |chain| ==>
            chain[i].data == Some(pushed[|popped| + i - 1]))
    }

    ghost predicate Consumer()
      reads this, chain, head, tail, if pop.HeadStored? then {pop.h} else {}
    {
      && (pop.HasHead? || pop.HasNext? || pop.DataMoved? ==> pop.h == head)
      && (pop.HasNext? || pop.DataMoved? ==> |chain| >= 2 && pop.n == chain[1] && head !in pending)
      && (pop.DataMoved? ==> |popped| < |pushed| && head.data == Some(pushed[|popped|]))
      && (pop.HeadStored? ==>
            pop.h !in chain && |popped| > 0 && pop.h.data == Some(popped[|popped| - 1]))
    }

    ghost predicate Valid()
      reads this, chain, head, tail, if pop.HeadStored? then {pop.h} else {}
    {
      Linkage() && Contents() && Consumer()
    }

    constructor ()
      ensures Valid() && chain == [head] && fresh(head) && pending == map[]
      ensures pushed == [] && popped == [] && pop == NoPop
    {
      var empty := new Node(None);
      tail, head, pop := empty, empty, NoPop;
      chain, pending, pushed, popped := [empty], map[], [], [];
    }

    /** push: the atomic exchange of the tail. */
    method Exchange(newNode: Node) returns (oldTail: Node)
      requires Valid() && newNode !in chain && newNode.next == null && newNode.data.Some?
      requires pop.HeadStored? ==> newNode != pop.h
      modifies `tail, `chain, `pending, `pushed
      ensures Valid() && oldTail == old(tail) && tail == newNode
      ensures chain == old(chain) + [newNode] && pending == old(pending)[oldTail := newNode]
      ensures pushed == old(pushed) + [newNode.data.value]
    {
      oldTail := tail;
      tail := newNode;
      chain := chain + [newNode];
      pending := pending[oldTail := newNode];
      pushed := pushed + [newNode.data.value];
      forall i | 0 <= i < |chain| - 1
        ensures LinkOk(i)
      {
        if i < |old(chain)| - 1 { assert old(LinkOk(i)); }
      }
    }

    /** push: the store that links the old tail to the new node. */
    method Link(oldTail: Node, newNode: Node)
      requires Valid() && oldTail in pending && pending[oldTail] == newNode
      modifies `pending, oldTail`next
      ensures Valid() && pending == old(pending) - {oldTail} && oldTail.next == newNode
    {
      ghost var i :| 0 <= i < |chain| && chain[i] == oldTail;
      assert i < |chain| - 1 && LinkOk(i);
      oldTail.next := newNode;
      pending := pending - {oldTail};
      forall j | 0 <= j < |chain| - 1
        ensures LinkOk(j)
      {
        assert old(LinkOk(j));
      }
    }

    method PopLoadHead()
      requires Valid() && pop == NoPop
      modifies `pop
      ensures Valid() && pop == HasHead(head)
    {
      pop := HasHead(head);
    }

    /** pop: the load of the next node.  Nothing is returned only if nothing is queued or the producer of
        the next node has exchanged the tail but not linked it yet. */
    method PopLoadNext() returns (found: bool)
      requires Valid() && pop.HasHead?
      modifies `pop
      ensures Valid()
      ensures found <==> |pushed| > |popped| && head !in pending
      ensures pop == if found then HasNext(head, chain[1]) else NoPop
    {
      HeadLink();
      var next := pop.h.next;
      if next == null {
        pop := NoPop;
        return false;
      }
      pop := HasNext(pop.h, next);
      return true;
    }

    method PopMoveData()
      requires Valid() && pop.HasNext?
      modifies `pop, pop.h`data, pop.n`data
      ensures Valid() && pop == DataMoved(old(pop.h), old(pop.n))
    {
      var h, n := pop.h, pop.n;
      h.data := n.data;
      n.data := None;
      pop := DataMoved(h, n);
    }

    method PopStoreHead()
      requires Valid() && pop.DataMoved?
      modifies `pop, `head, `chain, `popped
      ensures Valid() && pop == HeadStored(old(pop.h))
      ensures chain == old(chain)[1..]
      ensures |old(popped)| < |pushed| && popped == old(popped) + [pushed[|old(popped)|]] && popped <= pushed
    {
      popped := popped + [pushed[|popped|]];
      chain := chain[1..];
      head := pop.n;
      pop := HeadStored(pop.h);
      forall i | 0 <= i < |chain| - 1
        ensures LinkOk(i)
      {
        assert old(LinkOk(i + 1));
      }
    }

    /** pop: clears the link of the node that is returned; nothing in the queue leads to it any more. */
    method PopClearNext() returns (node: Node)
      requires Valid() && pop.HeadStored?
      modifies `pop, pop.h`next
      ensures Valid() && pop == NoPop && node == old(pop.h)
      ensures node.next == null && |popped| > 0 && node.data == Some(popped[|popped| - 1])
      ensures node !in chain && node != head && node != tail
      ensures forall m :: m in chain ==> m.next != node
      ensures forall m :: m in pending ==> pending[m] != node
    {
      node := pop.h;
      node.next := null;
      pop := NoPop;
      LinksStayInside(node);
    }

    lemma LinksStayInside(node: Node)
      requires Valid() && node !in chain
      ensures forall m :: m in chain ==> m.next != node
      ensures forall m :: m in pending ==> pending[m] != node
    {
      forall m | m in chain
        ensures m.next != node && (m in pending ==> pending[m] != node)
      {
        var i :| 0 <= i < |chain| && chain[i] == m;
        if i < |chain| - 1 { assert LinkOk(i) && chain[i + 1] in chain; }
      }
    }

    /** The values handed to the consumer so far. */
    ghost function Returned(): seq<Data>
      reads `pop, `popped
    {
      if pop.HeadStored? && |popped| > 0 then popped[..|popped| - 1] else popped
    }

    ghost function Memory(): set<Node>
      reads this
    {
      (set n | n in chain) + (if pop.HeadStored? then {pop.h} else {})
    }

    /** A node that is not in the queue and may be pushed. */
    ghost predicate Free(node: Node)
      reads this, node
    {
      node !in Memory() && node.next == null && node.data.Some?
    }

    /** A pop that looks now finds a node. */
    ghost predicate Ripe()
      requires |chain| > 0
      reads this
    {
      |pushed| > |popped| && head !in pending
    }

    /** How many of its accesses the consumer has made. */
    ghost function Stage(): nat
      reads `pop
    {
      match pop
      case NoPop => 0
      case HasHead(_) => 1
      case HasNext(_, _) => 2
      case DataMoved(_, _) => 3
      case HeadStored(_) => 4
    }

    /** pop by a consumer that nobody disturbs: it gives the node of the next value, unless nothing is queued or
        the next producer has not linked. */
    method PopAlone() returns (node: Node?)
      requires Valid() && pop == NoPop
      modifies this, Memory()
      ensures Valid() && pop == NoPop && pushed == old(pushed) && pending == old(pending)
      ensures Memory() <= old(Memory())
      ensures node != null <==> |old(popped)| < |pushed| && old(head) !in pending
      ensures if node == null then popped == old(popped)
              else popped == old(popped) + [pushed[|old(popped)|]]
                   && node.data == Some(pushed[|old(popped)|]) && node in old(Memory()) && Free(node)
    {
      hide Queue.Linkage, Queue.Contents, Queue.Consumer;
      Members();
      PopLoadHead();
      var found := PopLoadNext();
      if !found { return null; }
      Members();
      PopMoveData();
      Members();
      PopStoreHead();
      node := PopClearNext();
    }

    /** The destructor pops until nothing is left: with no producer under way everything that was pushed comes out,
        in order. */
    method Drain() returns (values: seq<Data>)
      requires Valid() && pop == NoPop && pending == map[]
      modifies this, Memory()
      ensures Valid() && popped == pushed == old(pushed)
      ensures values == old(pushed)[|old(popped)|..]
    {
      hide Queue.Valid;
      PoppedIsPrefix();
      values := [];
      var more := true;
      while more
        invariant Valid() && pop == NoPop && pending == map[] && pushed == old(pushed) && popped <= pushed
        invariant Memory() <= old(Memory())
        invariant |old(popped)| <= |popped| && values == pushed[|old(popped)|..|popped|]
        invariant !more ==> |popped| == |pushed|
        decreases |pushed| - |popped|, more
      {
        var node := PopAlone();
        PoppedIsPrefix();
        if node == null {
          more := false;
        } else {
          values := values + [node.data.value];
        }
      }
    }

    /** The consumer's next step, whichever it is; the last one gives the node. */
    method PopStep() returns (node: Node?)
      requires Valid()
      modifies this, Memory()
      ensures Valid() && pushed == old(pushed) && pending == old(pending)
      ensures Memory() <= old(Memory())
      ensures |old(chain)| > 0
      ensures Stage() ==
              if old(Stage()) == 4 || (old(Stage()) == 1 && !old(Ripe())) then 0 else old(Stage()) + 1
      ensures node != null <==> old(Stage()) == 4
      ensures node == null ==> Returned() == old(Returned())
      ensures node != null ==> node in old(Memory()) && Free(node) && Returned() == old(Returned()) + [node.data.value]
    {
      Members();
      node := null;
      match pop {
        case NoPop => PopLoadHead();
        case HasHead(_) => var found := PopLoadNext();
        case HasNext(_, _) => PopMoveData();
        case DataMoved(_, _) => PopStoreHead();
        case HeadStored(_) => node := PopClearNext();
      }
    }

    /** Any thread's next step; free are the nodes that may be pushed again. */
    method Take(action: Action, free: set<Node>)
      returns (accepted: Option<Data>, returned: Option<Data>, nowFree: set<Node>)
      requires Valid() && forall n <- free :: Free(n)
      modifies this, Memory(), free
      ensures Valid() && forall n <- nowFree :: Free(n)
      ensures fresh(Memory() + nowFree - (old(Memory()) + free))
      ensures pushed == if accepted.Some? then old(pushed) + [accepted.value] else old(pushed)
      ensures accepted == if action.BeginPush? then Some(action.data) else None
      ensures action.FinishPush? && old(pending) != map[] ==> exists p <- old(pending) :: pending == old(pending) - {p}
      ensures action.AdvancePop? ==>
                && |old(chain)| > 0
                && Stage() == (if old(Stage()) == 4 || (old(Stage()) == 1 && !old(Ripe())) then 0 else old(Stage()) + 1)
                && (returned.Some? <==> old(Stage()) == 4)
      ensures Returned() == if returned.Some? then old(Returned()) + [returned.value] else old(Returned())
    {
      hide Queue.Linkage, Queue.Contents, Queue.Consumer;
      Members();
      accepted, returned, nowFree := None, None, free;
      match action
      case BeginPush(data, again) =>
        accepted := Some(data);
        if again && free != {} {
          var node :| node in free;
          nowFree := free - {node};
          node.data := accepted;
          var oldTail := Exchange(node);
        } else {
          var node := new Node(accepted);
          var oldTail := Exchange(node);
        }
      case FinishPush =>
        if pending != map[] {
          var oldTail :| oldTail in pending;
          Link(oldTail, pending[oldTail]);
        }
      case AdvancePop =>
        var node := PopStep();
        if node != null {
          returned := node.data;
          nowFree := free + {node};
        }
    }

    method Empty() returns (empty: bool)
      requires Valid()
      ensures empty <==> |pushed| == |popped| || head in pending
    {
      HeadLink();
      empty := head.next == null;
    }

    lemma HeadLink()
      requires Valid()
      ensures head.next == null <==> |pushed| == |popped| || head in pending
      ensures head.next != null ==> |chain| >= 2 && head.next == chain[1]
    {
      if |chain| == 1 {
        assert head == tail;
      } else {
        assert LinkOk(0);
      }
    }

    lemma Members()
      requires Valid()
      ensures |chain| > 0 && head in chain && tail in chain && tail !in pending
      ensures forall p :: p in pending ==> p in chain
      ensures pop.HasNext? || pop.DataMoved? ==> pop.h in chain && pop.n in chain
    {
    }

    lemma PoppedIsPrefix()
      requires Valid()
      ensures popped <= pushed && |chain| > 0
    {
    }
  }

  /** The next step of some thread.  Data is pushed in a new node or, again, in one that was popped; FinishPush is
      by any of the producers between their two accesses. */
  datatype Action = BeginPush(data: Data, again: bool) | FinishPush | AdvancePop

  /** The data of the pushes of a schedule, in the order of their exchanges. */
  function Pushes(schedule: seq<Action>): seq<Data> {
    if schedule == [] then []
    else
      var last := schedule[|schedule| - 1];
      Pushes(schedule[..|schedule| - 1]) + if last.BeginPush? then [last.data] else []
  }

  /** Any interleaving of pushes and pops: the values returned, in order, are a prefix of the values pushed
      in the order of the tail exchanges. */
  method Run(schedule: seq<Action>)
    returns (queue: Queue, returned: seq<Data>)
    ensures fresh(queue) && queue.Valid() && queue.pushed == Pushes(schedule)
    ensures returned == queue.Returned()
    ensures returned <= Pushes(schedule)
  {
    hide Queue.Valid;
    queue := new Queue();
    returned := [];
    var free: set<Node> := {};
    for k := 0 to |schedule|
      invariant fresh(queue) && queue.Valid() && fresh(queue.Memory()) && fresh(free)
      invariant forall n <- free :: queue.Free(n)
      invariant queue.pushed == Pushes(schedule[..k]) && returned == queue.Returned()
    {
      hide Queue.Memory, Queue.Free, Queue.Returned;
      var data, done: Option<Data>;
      data, done, free := queue.Take(schedule[k], free);
      assert schedule[..k + 1][..k] == schedule[..k];
      if done.Some? { returned := returned + [done.value]; }
    }
    assert schedule[..|schedule|] == schedule;
    queue.PoppedIsPrefix();
  }
}
