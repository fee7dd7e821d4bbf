/** A thread that runs tasks at their time points.  Insertions, the locked sections of the thread, the end of a
    task and the passing of time are steps, interleaved in any way. */
module TimeoutsThread {

  class Task {
    const isStop: bool
    var timePoint: int
    // m_selfPtr refers to the task itself while it is in the multiset.
    var inserted: bool

    constructor (isStop: bool)
      ensures !inserted && this.isStop == isStop
    {
      this.isStop, timePoint, inserted := isStop, 0, false;
    }
  }

  /** A task in the multiset: its time point, and which insertion of all this is. */
  datatype Item = Item(task: Task, timePoint: int, order: nat)

  /** A task that began to run, when, and how many insertions there had been. */
  datatype Ran = Ran(item: Item, time: int, known: nat)

  /** The thread is about to lock, waits for any task, waits for a time point, runs a task, or has returned. */
  datatype Phase = Ready | AwaitTask | AwaitTime(until: int) | Executing(item: Item) | Returned

  predicate Before(a: Item, b: Item) {
    a.timePoint < b.timePoint || (a.timePoint == b.timePoint && a.order < b.order)
  }

  ghost predicate Sorted(q: seq<Item>) { forall i, j | 0 <= i < j < |q| :: Before(q[i], q[j]) }

  /** Insertion into the multiset: behind all items that are not later. */
  function Insert(q: seq<Item>, x: Item): seq<Item> {
    if q != [] && q[0].timePoint <= x.timePoint then [q[0]] + Insert(q[1..], x) else [x] + q
  }

  lemma {:induction false} InsertMember(q: seq<Item>, x: Item, y: Item)
    ensures y in Insert(q, x) <==> y == x || y in q
  {
    if q != [] { InsertMember(q[1..], x, y); }
  }

  lemma InsertMembers(q: seq<Item>, x: Item)
    ensures forall y :: y in Insert(q, x) <==> y == x || y in q
  {
    forall y ensures y in Insert(q, x) <==> y == x || y in q { InsertMember(q, x, y); }
  }

  lemma InsertFirst(q: seq<Item>, x: Item)
    ensures Insert(q, x) != [] && Insert(q, x)[0].timePoint <= x.timePoint
    ensures q != [] ==> Insert(q, x)[0].timePoint <= q[0].timePoint
  {
  }

  lemma {:induction false} InsertSorted(q: seq<Item>, x: Item)
    requires Sorted(q) && forall y <- q :: y.order < x.order
    ensures Sorted(Insert(q, x))
  {
    if q != [] && q[0].timePoint <= x.timePoint {
      InsertSorted(q[1..], x);
      var r := Insert(q[1..], x);
      forall y | y in r ensures Before(q[0], y) {
        InsertMember(q[1..], x, y);
        if y != x {
          assert y in q[1..];
          var i :| 0 <= i < |q[1..]| && q[1..][i] == y;
          assert Before(q[0], q[i + 1]);
        }
      }
    } else if q != [] {
      assert forall i | 0 < i < |q| :: Before(q[0], q[i]);
    }
  }

  ghost predicate Distinct(q: seq<Item>) {
    forall i, j | 0 <= i < j < |q| :: q[i].task != q[j].task && q[i].order != q[j].order
  }

  ghost predicate Pending(q: seq<Item>, o: nat) { exists x <- q :: x.order == o }

  ghost predicate Done(r: seq<Ran>, o: nat) { exists e <- r :: e.item.order == o }

  /** Every insertion is pending or has run once, not before its time. */
  ghost predicate History(q: seq<Item>, r: seq<Ran>, insertions: nat, now: int) {
    && (forall o | 0 <= o < insertions :: Pending(q, o) <==> !Done(r, o))
    && (forall e <- r :: e.item.order < insertions && e.item.timePoint <= e.time <= now)
    && (forall i, j | 0 <= i < j < |r| :: r[i].item.order != r[j].item.order && r[i].time <= r[j].time)
  }

  /** What runs goes before everything that had been inserted by then and runs later or is still pending. */
  ghost predicate Order(q: seq<Item>, r: seq<Ran>, insertions: nat) {
    && (forall e <- r :: e.item.order < e.known <= insertions)
    && (forall i, j | 0 <= i < j < |r| :: r[j].item.order < r[i].known ==> Before(r[i].item, r[j].item))
    && (forall e <- r, x <- q :: x.order < e.known ==> Before(e.item, x))
  }

  class TimeoutsThread {
    var tasks: seq<Item>
    var stopTask: Task?
    // The thread's progress, whether it was notified since it began to wait, and the clock.
    var phase: Phase
    var notified: bool
    var now: int
    // The number of insertions so far, and the tasks that began to run, with the time.
    var insertions: nat
    ghost var ran: seq<Ran>

    ghost predicate Queue()
      reads this, set x <- tasks :: x.task
    {
      && Sorted(tasks)
      && (forall x <- tasks :: x.task.inserted && x.task.timePoint == x.timePoint && x.order < insertions)
      && Distinct(tasks)
    }

    /** A wait that was not notified is for what is still first; the stop task is the last to run. */
    ghost predicate Thread()
      reads this
    {
      && (phase == AwaitTask && !notified ==> tasks == [])
      && (phase.AwaitTime? ==> tasks != [] && tasks[0].timePoint <= phase.until)
      && (phase.AwaitTime? && !notified ==> tasks[0].timePoint == phase.until)
      && (phase.Executing? ==> ran != [] && ran[|ran| - 1].item == phase.item)
      && (phase.Returned? ==> ran != [] && ran[|ran| - 1].item.task.isStop)
      && (forall i | 0 <= i < |ran| && ran[i].item.task.isStop ::
            i == |ran| - 1 && (phase.Returned? || phase.Executing?))
    }

    ghost predicate Valid()
      reads this, set x <- tasks :: x.task
    {
      && Queue() && History(tasks, ran, insertions, now) && Order(tasks, ran, insertions) && Thread()
      && (stopTask != null ==> stopTask.isStop)
    }

    constructor ()
      ensures Valid() && tasks == [] && insertions == 0 && ran == [] && phase == Ready
      ensures stopTask != null && fresh(stopTask) && !stopTask.inserted
    {
      var stop := new Task(true);
      tasks, stopTask, phase, notified, now, insertions, ran := [], stop, Ready, false, 0, 0, [];
    }

    method AddTask(timePoint: int, task: Task)
      requires Valid() && !task.inserted
      modifies task`timePoint, task`inserted, `tasks, `insertions, `notified
      ensures Valid()
      ensures tasks == Insert(old(tasks), Item(task, timePoint, old(insertions)))
      ensures insertions == old(insertions) + 1 && task.inserted
      ensures forall x <- tasks :: x in old(tasks) || x.task == task
      ensures forall x :: x in tasks <==> x in old(tasks) || x == Item(task, timePoint, old(insertions))
    {
      hide History, Order, Sorted, Distinct, Insert;
      var x := Item(task, timePoint, insertions);
      InsertMembers(tasks, x);
      InsertSorted(tasks, x);
      InsertFirst(tasks, x);
      AddHistory(tasks, ran, x, now);
      task.inserted := true;
      task.timePoint := timePoint;
      tasks := Insert(tasks, x);
      insertions := insertions + 1;
      notified := true;
      InsertDistinct(old(tasks), x);
    }

    method Stop()
      requires Valid() && (stopTask != null ==> !stopTask.inserted)
      modifies (if stopTask != null then {stopTask} else {}), `stopTask, `tasks, `insertions, `notified
      ensures Valid() && stopTask == null
      ensures tasks == if old(stopTask) == null then old(tasks)
                       else Insert(old(tasks), Item(old(stopTask), 0, old(insertions)))
      ensures forall x <- tasks :: x in old(tasks) || x.task == old(stopTask)
    {
      hide History, Order, Sorted, Distinct, Insert;
      if stopTask != null {
        var task := stopTask;
        stopTask := null;
        AddTask(0, task);
      }
    }

    /** takeFirstTask: the taken task is the first inserted one among those of the earliest time point. */
    method TakeFirst()
      requires Valid() && (phase == Ready || phase == AwaitTask || phase.AwaitTime?)
      requires tasks != [] && tasks[0].timePoint <= now
      modifies `tasks, `phase, `ran, tasks[0].task`inserted
      ensures Valid() && phase == Executing(old(tasks[0])) && tasks == old(tasks[1..])
      ensures ran == old(ran) + [Ran(old(tasks[0]), now, insertions)] && !phase.item.task.inserted
      ensures forall x <- tasks ::
                || phase.item.timePoint < x.timePoint
                || (phase.item.timePoint == x.timePoint && phase.item.order < x.order)
      ensures forall x <- tasks :: x in old(tasks)
    {
      hide History, Order, Sorted, Distinct;
      var x := tasks[0];
      TakeHistory(tasks, ran, insertions, now);
      TakeOrder(tasks, ran, insertions, now);
      TakeSorted(tasks);
      x.task.inserted := false;
      tasks := tasks[1..];
      phase := Executing(x);
      ran := ran + [Ran(x, now, insertions)];
    }

    /** The locked section, entered first or after a wait that was notified or ended for no reason. */
    method Evaluate()
      requires Valid() && (phase == Ready || phase == AwaitTask || phase.AwaitTime?)
      modifies `tasks, `phase, `notified, `ran, (set x <- tasks :: x.task)`inserted
      ensures Valid()
      ensures if old(tasks) == [] then phase == AwaitTask && tasks == []
              else if old(tasks[0].timePoint) <= now then phase == Executing(old(tasks[0])) && tasks == old(tasks[1..])
              else phase == AwaitTime(old(tasks[0].timePoint)) && tasks == old(tasks)
      ensures forall x <- tasks :: x in old(tasks)
    {
      hide History, Order, Sorted, Distinct, Before;
      if tasks == [] {
        phase, notified := AwaitTask, false;
      } else if tasks[0].timePoint <= now {
        TakeFirst();
      } else {
        phase, notified := AwaitTime(tasks[0].timePoint), false;
      }
    }

    /** The wait for a time point timed out: what is first by now is taken. */
    method Timeout()
      requires Valid() && phase.AwaitTime? && phase.until <= now
      modifies `tasks, `phase, `ran, (set x <- tasks :: x.task)`inserted
      ensures Valid() && phase == Executing(old(tasks[0])) && tasks == old(tasks[1..])
      ensures forall x <- tasks :: x in old(tasks)
    {
      TakeFirst();
    }

    /** The task returns, or throws if it is the stop task. */
    method Finish()
      requires Valid() && phase.Executing?
      modifies `phase
      ensures Valid() && phase == if old(phase).item.task.isStop then Returned else Ready
    {
      hide History, Order, Sorted, Distinct;
      phase := if phase.item.task.isStop then Returned else Ready;
    }

    /** What holds after any run: nothing ran before its time, every insertion ran at most once and is pending
        otherwise, of two tasks inserted before either ran the earlier one ran first, and nothing ran after
        the stop task. */
    lemma Guarantees()
      requires Valid()
      ensures forall e <- ran :: e.item.timePoint <= e.time <= now
      ensures forall i, j | 0 <= i < j < |ran| :: ran[i].item.order != ran[j].item.order
      ensures forall o | 0 <= o < insertions :: Pending(tasks, o) <==> !Done(ran, o)
      ensures forall i, j | 0 <= i < j < |ran| && ran[j].item.order < ran[i].known ::
                || ran[i].item.timePoint < ran[j].item.timePoint
                || (ran[i].item.timePoint == ran[j].item.timePoint && ran[i].item.order < ran[j].item.order)
      ensures forall i | 0 <= i < |ran| && ran[i].item.task.isStop :: i == |ran| - 1
    {
    }

    method Tick(time: nat)
      requires Valid()
      modifies `now
      ensures Valid() && now == old(now) + time
    {
      hide Order, Sorted, Distinct, Pending, Done;
      now := now + time;
    }
  }

  /** The first pending insertion becomes one that has run. */
  lemma FirstDone(q: seq<Item>, r: seq<Ran>, time: int, known: nat)
    requires q != [] && Distinct(q)
    ensures forall o :: Pending(q[1..], o) <==> o != q[0].order && Pending(q, o)
    ensures forall o :: Done(r + [Ran(q[0], time, known)], o) <==> Done(r, o) || o == q[0].order
  {
    forall o ensures Pending(q[1..], o) <==> o != q[0].order && Pending(q, o) {
      assert q == [q[0]] + q[1..];
      if Pending(q[1..], o) {
        var i :| 0 <= i < |q[1..]| && q[1..][i].order == o;
        assert q[i + 1].order == o;
      }
    }
    forall o ensures Done(r + [Ran(q[0], time, known)], o) <==> Done(r, o) || o == q[0].order {
      assert Ran(q[0], time, known) in r + [Ran(q[0], time, known)];
      if Done(r, o) {
        var e :| e in r && e.item.order == o;
        assert e in r + [Ran(q[0], time, known)];
      }
    }
  }

  lemma AddHistory(q: seq<Item>, r: seq<Ran>, x: Item, now: int)
    requires History(q, r, x.order, now) && Order(q, r, x.order) && forall y <- q :: y.order < x.order
    ensures History(Insert(q, x), r, x.order + 1, now) && Order(Insert(q, x), r, x.order + 1)
  {
    hide Insert, Pending, Done;
    InsertPending(q, x);
    NotYet(q, r, x.order);
    forall e, y | e in r && y in Insert(q, x) && y.order < e.known ensures Before(e.item, y) {
      InsertMember(q, x, y);
    }
  }

  lemma NotYet(q: seq<Item>, r: seq<Ran>, o: nat)
    ensures (forall y <- q :: y.order < o) ==> !Pending(q, o)
    ensures (forall e <- r :: e.item.order < o) ==> !Done(r, o)
  {
  }

  lemma TakeHistory(q: seq<Item>, r: seq<Ran>, insertions: nat, now: int)
    requires q != [] && Distinct(q) && q[0].order < insertions && q[0].timePoint <= now
    requires History(q, r, insertions, now)
    ensures History(q[1..], r + [Ran(q[0], now, insertions)], insertions, now)
  {
    hide Pending, Done;
    var t := r + [Ran(q[0], now, insertions)];
    FirstDone(q, r, now, insertions);
    NotDone(q, r);
    assert forall i | 0 <= i < |r| :: r[i] in r && t[i] == r[i];
  }

  lemma TakeOrder(q: seq<Item>, r: seq<Ran>, insertions: nat, now: int)
    requires q != [] && Sorted(q) && q[0].order < insertions && Order(q, r, insertions)
    ensures Order(q[1..], r + [Ran(q[0], now, insertions)], insertions)
  {
    hide Before;
    var t := r + [Ran(q[0], now, insertions)];
    TakeSorted(q);
    forall i, j | 0 <= i < j < |t| && t[j].item.order < t[i].known ensures Before(t[i].item, t[j].item) {
      assert t[i] == r[i] && r[i] in r && q[0] in q;
      if j < |r| { assert t[j] == r[j]; }
    }
  }

  lemma TakeSorted(q: seq<Item>)
    requires q != []
    ensures forall y <- q[1..] :: y in q
    ensures Sorted(q) ==> Sorted(q[1..]) && forall y <- q[1..] :: Before(q[0], y)
    ensures Distinct(q) ==> Distinct(q[1..]) && forall y <- q[1..] :: y.task != q[0].task
  {
    hide Before;
    forall y | y in q[1..]
      ensures y in q && (Sorted(q) ==> Before(q[0], y)) && (Distinct(q) ==> y.task != q[0].task)
    {
      var i :| 0 <= i < |q[1..]| && q[1..][i] == y;
      assert q[i + 1] == y;
    }
  }

  lemma NotDone(q: seq<Item>, r: seq<Ran>)
    requires q != []
    ensures Pending(q, q[0].order)
    ensures !Done(r, q[0].order) ==> forall e <- r :: e.item.order != q[0].order
  {
    assert q[0] in q;
  }

  lemma InsertPending(q: seq<Item>, x: Item)
    ensures forall o :: Pending(Insert(q, x), o) <==> o == x.order || Pending(q, o)
  {
    hide Insert;
    var r := Insert(q, x);
    forall o ensures Pending(r, o) <==> o == x.order || Pending(q, o) {
      InsertMember(q, x, x);
      if Pending(r, o) {
        var y :| y in r && y.order == o;
        InsertMember(q, x, y);
      }
      if Pending(q, o) {
        var y :| y in q && y.order == o;
        InsertMember(q, x, y);
      }
    }
  }

  lemma {:induction false} InsertDistinct(q: seq<Item>, x: Item)
    requires Distinct(q) && forall y <- q :: y.task != x.task && y.order != x.order
    ensures Distinct(Insert(q, x))
  {
    if q != [] && q[0].timePoint <= x.timePoint {
      InsertDistinct(q[1..], x);
      forall y | y in Insert(q[1..], x) ensures y.task != q[0].task && y.order != q[0].order {
        InsertMember(q[1..], x, y);
        if y != x {
          var i :| 0 <= i < |q[1..]| && q[1..][i] == y;
          assert q[i + 1] == y;
        }
      }
    }
  }

  /** A schedule inserts one of the given tasks, stops, lets the thread take its next step (leaving a wait as if
      notified, or by the time-out), or lets time pass. */
  datatype Action = Add(task: nat, timePoint: int) | Stop | Wake | TimeOut | Finish | Tick(time: nat)

  method Run(count: nat, schedule: seq<Action>) returns (machine: TimeoutsThread, pool: seq<Task>)
    ensures machine.Valid() && |pool| == count && forall t <- pool :: !t.isStop
    ensures forall e <- machine.ran :: e.item.timePoint <= e.time
    ensures forall i, j | 0 <= i < j < |machine.ran| :: machine.ran[i].item.order != machine.ran[j].item.order
    ensures forall i, j | 0 <= i < j < |machine.ran| && machine.ran[j].item.order < machine.ran[i].known ::
              var x, y := machine.ran[i].item, machine.ran[j].item;
              x.timePoint < y.timePoint || (x.timePoint == y.timePoint && x.order < y.order)
    ensures forall i | 0 <= i < |machine.ran| && machine.ran[i].item.task.isStop :: i == |machine.ran| - 1
  {
    hide TimeoutsThread.Valid;
    machine := new TimeoutsThread();
    pool := [];
    for i := 0 to count
      invariant machine.Valid() && fresh(machine) && |pool| == i && machine.tasks == []
      invariant machine.stopTask != null && fresh(machine.stopTask) && !machine.stopTask.inserted
      invariant forall t <- pool :: fresh(t) && !t.isStop && t != machine.stopTask
    {
      var t := new Task(false);
      pool := pool + [t];
    }
    for n := 0 to |schedule|
      invariant machine.Valid() && fresh(machine) && |pool| == count
      invariant forall t <- pool :: fresh(t) && !t.isStop && t != machine.stopTask
      invariant machine.stopTask != null ==> fresh(machine.stopTask) && !machine.stopTask.inserted
      invariant forall x <- machine.tasks :: fresh(x.task) && x.task != machine.stopTask
    {
      match schedule[n] {
        case Add(i, timePoint) =>
          if i < |pool| && !pool[i].inserted {
            assert pool[i] in pool;
            machine.AddTask(timePoint, pool[i]);
          }
        case Stop =>
          if machine.stopTask != null {
            machine.Stop();
          }
        case Wake => if machine.phase in {Ready, AwaitTask} || machine.phase.AwaitTime? { machine.Evaluate(); }
        case TimeOut =>
          if machine.phase.AwaitTime? && machine.phase.until <= machine.now { machine.Timeout(); }
        case Finish => if machine.phase.Executing? { machine.Finish(); }
        case Tick(time) => machine.Tick(time);
      }
    }
    machine.Guarantees();
  }
}
