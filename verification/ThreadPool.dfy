/** The two-lock task queue of the thread pool.  Every method is one step that other threads can
    interleave with: the tail lock protects a submission as a whole, but a pop that has passed its check
    works on the head without it, so a submission is split at each of its writes. */
module ThreadPool {
  import opened Options

  type Work = nat

  class TaskWrapper {
    var value: Option<Work>
    var next: TaskWrapper?

    constructor (work: Option<Work>)
      ensures value == work && next == null
    {
      value, next := work, null;
    }
  }

  /** How far the submission that holds the tail lock has come. */
  datatype Submission =
    | NoSubmission
    | Locked(task: TaskWrapper)
    | ValueMoved(task: TaskWrapper)
    | Linked(task: TaskWrapper)

  /** How far the pop that holds the head lock has come.  afterStop says that it began after the stop. */
  datatype Pop =
    | NoPop
    | Checking(afterStop: bool)
    | Asleep(afterStop: bool, notified: bool)
    | Ready(afterStop: bool)
    | Moved(afterStop: bool, taken: TaskWrapper)

  class ThreadPool {
    var head: TaskWrapper?
    var tail: TaskWrapper
    var stop: bool

    // The local state of the thread holding the tail lock and of the one holding the head lock.
    var submission: Submission
    var pop: Pop

    // The wrappers from head to tail, the last one empty; and the histories of the two ends.
    ghost var chain: seq<TaskWrapper>
    ghost var submitted: seq<Work>
    ghost var popped: seq<Work>

    /** The memory that a submission in progress may write. */
    ghost function SubmitFootprint(): set<TaskWrapper>
      reads this
    {
      if submission.NoSubmission? then {} else {tail, submission.task}
    }

    /** The memory that a pop past its check may write. */
    ghost function PopFootprint(): set<TaskWrapper>
      reads this
    {
      if pop.Moved? then {pop.taken} else if pop.Ready? && head != null then {head} else {}
    }

    ghost predicate Linkage()
      reads this, chain
    {
      && |chain| > 0 && tail == chain[|chain| - 1]
      && (forall i, j :: 0 <= i < j < |chain| ==> chain[i] != chain[j])
      && |submitted| == |popped| + |chain| - 1
      && popped <= submitted
      && (forall i :: 0 <= i < |chain| - 1 ==>
            chain[i].next == chain[i + 1] && chain[i].value == Some(submitted[|popped| + i]))
    }

    /** The last wrapper is empty except while a submission fills it. */
    ghost predicate TailState()
      reads this, tail, if submission.NoSubmission? then {} else {submission.task}
    {
      && (submission.NoSubmission? || submission.Locked? ==> tail.value == None && tail.next == null)
      && (submission.ValueMoved? ==> tail.value.Some? && tail.next == null)
      && (submission.Linked? ==> tail.value.Some? && tail.next == submission.task)
      && (!submission.NoSubmission? ==>
            && submission.task !in chain && submission.task.next == null
            && (submission.Locked? <==> submission.task.value.Some?))
    }

    ghost predicate HeadState()
      reads this
    {
      && |chain| > 0
      && (pop.Moved? ==> head == null && pop.taken == chain[0])
      && (!pop.Moved? ==> head == chain[0])
      && (pop.Moved? || pop.Ready? ==> |chain| >= 2 && !pop.afterStop)
      && (!pop.NoPop? && pop.afterStop ==> stop)
      // A popper sleeps unnotified only while there is nothing to do.
      && (pop.Asleep? && !pop.notified ==> |chain| == 1 && !stop)
    }

    ghost predicate Valid()
      reads this, chain, tail, if submission.NoSubmission? then {} else {submission.task}
    {
      Linkage() && TailState() && HeadState()
    }

    constructor ()
      ensures Valid() && submitted == [] && popped == [] && !stop
      ensures submission.NoSubmission? && pop.NoPop?
      ensures fresh(chain)
    {
      var empty := new TaskWrapper(None);
      head, tail, stop := empty, empty, false;
      chain, submitted, popped := [empty], [], [];
      submission, pop := NoSubmission, NoPop;
    }

    lemma PoppedIsPrefix()
      requires Valid()
      ensures popped <= submitted
    {
    }

    lemma Members()
      requires Valid()
      ensures tail in chain
      ensures pop.Ready? ==> head != null && head in chain
    {
      assert chain[|chain| - 1] in chain && chain[0] in chain;
    }

    /** submit: takes the tail lock. */
    method SubmitLock(task: TaskWrapper)
      requires Valid() && submission.NoSubmission?
      requires task !in chain && task.value.Some? && task.next == null
      modifies `submission
      ensures Valid() && submission == Locked(task)
    {
      submission := Locked(task);
    }

    /** submit: moves the work into the wrapper that was the empty tail. */
    method SubmitValue()
      requires Valid() && submission.Locked?
      modifies `submission, SubmitFootprint()
      ensures Valid() && submission == ValueMoved(old(submission.task))
      ensures tail.value == old(submission.task.value)
      ensures SubmitFootprint() !! PopFootprint()
    {
      var task := submission.task;
      tail.value := task.value;
      task.value := None;
      submission := ValueMoved(task);
    }

    method SubmitLink()
      requires Valid() && submission.ValueMoved?
      modifies `submission, SubmitFootprint()
      ensures Valid() && submission == Linked(old(submission.task))
      ensures tail.value == old(tail.value)
      ensures SubmitFootprint() !! PopFootprint()
    {
      tail.next := submission.task;
      submission := Linked(submission.task);
    }

    /** submit: the emptied wrapper becomes the tail; one sleeper is notified and the lock released. */
    method SubmitTail() returns (work: Work)
      requires Valid() && submission.Linked?
      modifies this
      ensures Valid() && submission == NoSubmission && stop == old(stop)
      ensures old(tail.value) == Some(work)
      ensures submitted == old(submitted) + [work] && popped == old(popped)
      ensures chain == old(chain) + [old(submission.task)]
      ensures pop == Notify(old(pop))
    {
      work := tail.value.value;
      submitted := submitted + [work];
      chain := chain + [submission.task];
      tail := submission.task;
      submission := NoSubmission;
      pop := Notify(pop);
    }

    method NotifyStop()
      requires Valid() && submission.NoSubmission?
      modifies `stop, `pop
      ensures Valid() && stop && pop == Notify(old(pop)) && InFlight() == old(InFlight())
    {
      stop := true;
      pop := Notify(pop);
    }

    /** waitAndPop: takes the head lock. */
    method PopBegin()
      requires Valid() && pop.NoPop?
      modifies `pop
      ensures Valid() && pop == Checking(stop)
    {
      pop := Checking(stop);
    }

    /** waitAndPop: one pass of the loop under the tail lock. */
    method PopCheck() returns (stopped: bool)
      requires Valid() && pop.Checking? && submission.NoSubmission?
      modifies `pop
      ensures Valid()
      ensures stopped <==> stop
      ensures |submitted| >= |popped|
      ensures stopped ==> pop == NoPop
      ensures !stopped && |submitted| > |popped| ==> pop == Ready(old(pop.afterStop))
      ensures !stopped && |submitted| == |popped| ==> pop == Asleep(old(pop.afterStop), false)
    {
      stopped := false;
      if stop {
        pop := NoPop;
        return true;
      }
      if head != tail {
        pop := Ready(pop.afterStop);
      } else {
        pop := Asleep(pop.afterStop, false);
      }
    }

    /** The condition variable wakes the sleeper, notified or spuriously. */
    method PopWake()
      requires Valid() && pop.Asleep?
      modifies `pop
      ensures Valid() && pop == Checking(old(pop.afterStop)) && InFlight() == old(InFlight())
    {
      pop := Checking(pop.afterStop);
    }

    /** The timed wait gives up. */
    method PopTimeout()
      requires Valid() && pop.Asleep?
      modifies `pop
      ensures Valid() && pop == NoPop && !InFlight()
    {
      pop := NoPop;
    }

    /** waitAndPop: moves the head out, without the tail lock. */
    method PopMove()
      requires Valid() && pop.Ready?
      modifies `head, `pop
      ensures Valid() && old(head) != null && pop == Moved(old(pop.afterStop), old(head))
      ensures old(head) == chain[0]
      ensures !pop.afterStop && SubmitFootprint() !! PopFootprint()
    {
      pop := Moved(pop.afterStop, head);
      head := null;
    }

    /** waitAndPop: the next wrapper becomes the head and the old one is returned. */
    method PopFinish() returns (task: TaskWrapper)
      requires Valid() && pop.Moved?
      modifies `head, `pop, `popped, `chain, PopFootprint()`next
      ensures Valid() && pop == NoPop && !old(pop.afterStop)
      ensures |popped| == |old(popped)| + 1 && old(popped) <= popped <= submitted
      ensures task.value == Some(popped[|old(popped)|]) && task.next == null
      ensures chain == old(chain)[1..] && task == old(chain)[0] && task !in chain
    {
      task := pop.taken;
      popped := popped + [submitted[|popped|]];
      head := task.next;
      task.next := null;
      chain := chain[1..];
      pop := NoPop;
    }

    /** A pop under way that began before the stop. */
    ghost predicate InFlight()
      reads this
    {
      !pop.NoPop? && !pop.afterStop
    }

    /** A wrapper that is not in the queue and may be submitted. */
    ghost predicate Free(task: TaskWrapper)
      reads this, task
    {
      && task !in chain && task.value.Some? && task.next == null
      && (!submission.NoSubmission? ==> task != submission.task)
    }

    /** The work of the submission under way. */
    ghost function InHand(): Option<Work>
      reads this, tail`value, (if submission.NoSubmission? then {} else {submission.task})`value
    {
      if submission.NoSubmission? then None else if submission.Locked? then submission.task.value else tail.value
    }

    /** The next step of the thread that holds the tail lock; the last one gives the work submitted. */
    method AdvanceSubmit() returns (work: Option<Work>)
      requires Valid()
      modifies this, SubmitFootprint()
      ensures Valid() && stop == old(stop) && popped == old(popped)
      ensures submitted == if work.Some? then old(submitted) + [work.value] else old(submitted)
      ensures (pop == old(pop) || pop == Notify(old(pop))) && InFlight() == old(InFlight())
      ensures work == if old(submission.Linked?) then old(InHand()) else None
      ensures InHand() == if old(submission.Linked?) then None else old(InHand())
      ensures submission == match old(submission) {
                case NoSubmission => NoSubmission
                case Locked(task) => ValueMoved(task)
                case ValueMoved(task) => Linked(task)
                case Linked(_) => NoSubmission
              }
      ensures work.None? ==> chain == old(chain)
      ensures work.Some? ==> !old(submission.NoSubmission?) && chain == old(chain) + [old(submission.task)]
      ensures forall t <- chain :: t in old(chain) || (work.Some? && t == old(submission.task))
    {
      hide ThreadPool.Linkage, ThreadPool.TailState, ThreadPool.HeadState;
      work := None;
      match submission
      case NoSubmission =>
      case Locked(_) => SubmitValue();
      case ValueMoved(_) => SubmitLink();
      case Linked(_) =>
        var w := SubmitTail();
        work := Some(w);
    }

    /** The next step of the thread that holds the head lock; a sleeper wakes up when notified.  The last step
        gives the wrapper, which is free again. */
    method AdvancePop() returns (task: TaskWrapper?)
      requires Valid()
      modifies `head, `pop, `popped, `chain, PopFootprint()`next
      ensures Valid()
      ensures stop && InFlight() ==> old(InFlight())
      ensures task != null <==> old(pop.Moved?)
      ensures |submitted| >= |popped|
      ensures match old(pop) {
                case NoPop => pop == Checking(stop)
                case Checking(late) =>
                  pop == if !submission.NoSubmission? then old(pop) else if stop then NoPop
                         else if |submitted| > |popped| then Ready(late) else Asleep(late, false)
                case Asleep(late, notified) => pop == if notified then Checking(late) else old(pop)
                case Ready(late) => old(head) != null && pop == Moved(late, old(head))
                case Moved(_, _) => pop == NoPop
              }
      ensures task == null ==> popped == old(popped) && chain == old(chain)
      ensures task != null ==>
                && |popped| == |old(popped)| + 1 && task.value == Some(popped[|old(popped)|])
                && popped[..|old(popped)|] == old(popped)
                && |old(chain)| > 0 && chain == old(chain)[1..] && task == old(chain)[0] && task in old(chain)
                && Free(task)
                && old(InFlight()) && !InFlight()
      ensures forall t <- chain :: t in old(chain)
    {
      hide ThreadPool.Linkage, ThreadPool.TailState, ThreadPool.HeadState;
      PoppedIsPrefix();
      task := null;
      match pop
      case NoPop => PopBegin();
      case Checking(_) => if submission.NoSubmission? { var stopped := PopCheck(); }
      case Asleep(_, notified) => if notified { PopWake(); }
      case Ready(_) => PopMove();
      case Moved(_, _) =>
        Footprints();
        task := PopFinish();
        PoppedIsPrefix();
    }

    /** submit by a thread that nobody disturbs. */
    method SubmitAlone(task: TaskWrapper)
      requires Valid() && submission.NoSubmission? && Free(task)
      modifies this, task, tail
      ensures Valid() && submission.NoSubmission? && old(task.value).Some?
      ensures submitted == old(submitted) + [old(task.value).value] && popped == old(popped)
      ensures pop == Notify(old(pop))
    {
      hide ThreadPool.Linkage, ThreadPool.HeadState;
      SubmitLock(task);
      SubmitValue();
      SubmitLink();
      var work := SubmitTail();
    }

    /** waitAndPop by a thread that nobody disturbs: it gives the oldest work if there is any and no stop; otherwise
        it ends because of the stop or goes to sleep. */
    method PopAlone() returns (task: TaskWrapper?)
      requires Valid() && pop.NoPop? && submission.NoSubmission?
      modifies this, (set t | t in chain)
      ensures Valid() && submission.NoSubmission? && stop == old(stop) && submitted == old(submitted)
      ensures fresh((set t | t in chain) - old(set t | t in chain))
      ensures task != null <==> !stop && |submitted| > |old(popped)|
      ensures pop == if stop || task != null then NoPop else Asleep(false, false)
      ensures if task == null then popped == old(popped)
              else popped == old(popped) + [submitted[|old(popped)|]]
                   && task.value == Some(submitted[|old(popped)|]) && Free(task)
    {
      hide ThreadPool.Linkage, ThreadPool.TailState, ThreadPool.HeadState;
      PoppedIsPrefix();
      PopBegin();
      var stopped := PopCheck();
      if !pop.Ready? { return null; }
      Footprints();
      PopMove();
      Footprints();
      task := PopFinish();
    }

    /** With no submission under way and no stop, all work that was submitted comes out, in order. */
    method Drain() returns (works: seq<Work>)
      requires Valid() && pop.NoPop? && submission.NoSubmission? && !stop
      modifies this, (set t | t in chain)
      ensures Valid() && popped == submitted == old(submitted)
      ensures works == submitted[|old(popped)|..]
    {
      hide ThreadPool.Valid;
      PoppedIsPrefix();
      works := [];
      while !pop.Asleep?
        invariant Valid() && submission.NoSubmission? && !stop && submitted == old(submitted)
        invariant fresh((set t | t in chain) - old(set t | t in chain))
        invariant |old(popped)| <= |popped| && popped <= submitted && works == submitted[|old(popped)|..|popped|]
        invariant pop.NoPop? || (pop.Asleep? && |popped| == |submitted|)
        decreases |submitted| - |popped|, !pop.Asleep?
      {
        var task := PopAlone();
        PoppedIsPrefix();
        if task != null { works := works + [task.value.value]; }
      }
    }

    /** The wrappers of the queue and the one being submitted. */
    ghost function Wrappers(): set<TaskWrapper>
      reads this
    {
      (set t | t in chain) + (if submission.NoSubmission? then {} else {submission.task})
    }

    lemma Footprints()
      requires Valid()
      ensures |chain| > 0 && tail in chain && (!submission.NoSubmission? ==> submission.task !in chain)
      ensures SubmitFootprint() + PopFootprint() <= Wrappers()
    {
      Members();
      assert chain[0] in chain;
    }

    /** Any thread's next step; free are the wrappers that may be submitted again. */
    method Take(action: Action, free: set<TaskWrapper>)
      returns (accepted: Option<Work>, returned: Option<Work>, nowFree: set<TaskWrapper>)
      requires Valid() && forall t <- free :: Free(t)
      modifies this, Wrappers()
      ensures Valid() && forall t <- nowFree :: Free(t)
      ensures fresh(Wrappers() + nowFree - (old(Wrappers()) + free))
      ensures submitted == if accepted.Some? then old(submitted) + [accepted.value] else old(submitted)
      ensures popped == if returned.Some? then old(popped) + [returned.value] else old(popped)
      ensures returned.Some? ==> old(InFlight()) && !InFlight()
      ensures returned.Some? <==> action.AdvancePop? && old(pop.Moved?)
      ensures action.AdvancePop? && old(pop.Ready?) ==> pop.Moved?
      ensures accepted == if action.AdvanceSubmit? && old(submission.Linked?) then old(InHand()) else None
      ensures old(InHand()).Some? ==>
                InHand() == if action.AdvanceSubmit? && old(submission.Linked?) then None else old(InHand())
      ensures old(InHand()).None? && InHand().Some? ==>
                || action == BeginSubmit(InHand().value)
                || (action.Resubmit? && exists t <- free :: old(t.value) == InHand())
      ensures old(submission.NoSubmission?) && (action.BeginSubmit? || (action.Resubmit? && free != {})) ==>
                InHand().Some?
      ensures forall t <- nowFree :: (t in free && t.value == old(t.value)) || t.value == returned
      ensures old(stop) && InFlight() ==> old(InFlight())
      ensures stop == (old(stop) || (action == RequestStop && old(submission.NoSubmission?)))
    {
      hide ThreadPool.Linkage, ThreadPool.TailState, ThreadPool.HeadState;
      Footprints();
      accepted, returned, nowFree := None, None, free;
      match action
      case BeginSubmit(work) =>
        if submission.NoSubmission? {
          var task := new TaskWrapper(Some(work));
          SubmitLock(task);
        }
      case Resubmit =>
        if submission.NoSubmission? && free != {} {
          var task :| task in free;
          nowFree := free - {task};
          SubmitLock(task);
          assert task in free && old(task.value) == InHand();
        }
      case AdvanceSubmit => accepted := AdvanceSubmit();
      case RequestStop => if submission.NoSubmission? { NotifyStop(); }
      case AdvancePop =>
        var task := AdvancePop();
        if task != null {
          returned := task.value;
          nowFree := free + {task};
        }
      case WakePop => if pop.Asleep? { PopWake(); }
      case TimeOutPop => if pop.Asleep? { PopTimeout(); }
    }
  }

  function Notify(pop: Pop): Pop {
    if pop.Asleep? then Asleep(pop.afterStop, true) else pop
  }

  /** A schedule decides which thread takes the next step; a step that is not possible is skipped.  Work is
      submitted in a new wrapper, or a wrapper that was returned is submitted again with its work. */
  datatype Action = BeginSubmit(work: Work) | Resubmit | AdvanceSubmit | RequestStop | AdvancePop | WakePop | TimeOutPop

  /** The n-th action submits the work: in a new wrapper, or in one in which it was returned before. */
  ghost predicate Submits(schedule: seq<Action>, n: nat, work: Work, returned: seq<Work>) {
    n < |schedule| && (schedule[n] == BeginSubmit(work) || (schedule[n].Resubmit? && work in returned))
  }

  /** The works were submitted by the actions at the given places, in order. */
  ghost predicate SubmittedAt(works: seq<Work>, schedule: seq<Action>, places: seq<nat>, returned: seq<Work>) {
    && |works| == |places|
    && (forall k :: 0 <= k < |places| ==> Submits(schedule, places[k], works[k], returned))
    && (forall j, k :: 0 <= j < k < |places| ==> places[j] < places[k])
  }

  lemma OneMoreSubmitted(works: seq<Work>, schedule: seq<Action>, places: seq<nat>, returned: seq<Work>,
                         n: nat, work: Work)
    requires SubmittedAt(works, schedule, places, returned) && Submits(schedule, n, work, returned)
    requires forall k <- places :: k < n
    ensures SubmittedAt(works + [work], schedule, places + [n], returned)
  {
    assert forall k :: 0 <= k < |places| ==> places[k] in places;
  }

  lemma OneMoreReturned(works: seq<Work>, schedule: seq<Action>, places: seq<nat>, returned: seq<Work>, more: Work)
    requires SubmittedAt(works, schedule, places, returned)
    ensures SubmittedAt(works, schedule, places, returned + [more])
  {
  }

  /** Any interleaving of any submissions, pops and stops: what the pops return, in order, is a prefix of
      what was submitted, in tail-lock order, and after the stop at most the one pop already begun still
      returns something. */
  method Run(schedule: seq<Action>)
    returns (pool: ThreadPool, accepted: seq<Work>, returned: seq<Work>, atStop: Option<nat>, ghost places: seq<nat>)
    ensures fresh(pool) && pool.Valid()
    ensures accepted == pool.submitted && returned == pool.popped
    ensures SubmittedAt(accepted, schedule, places, returned)
    ensures returned <= accepted
    ensures pool.stop <==> atStop.Some?
    ensures atStop.Some? ==> atStop.value <= |returned| <= atStop.value + 1
  {
    hide ThreadPool.Valid, SubmittedAt, Submits;
    pool := new ThreadPool();
    accepted, returned, atStop, places := [], [], None, [];
    var free: set<TaskWrapper> := {};
    ghost var begun: nat := 0;
    NoneSubmitted(schedule);
    for i := 0 to |schedule|
      invariant pool.Valid() && fresh(pool) && fresh(pool.Wrappers()) && fresh(free)
      invariant forall t <- free :: pool.Free(t) && t.value.Some? && t.value.value in returned
      invariant accepted == pool.submitted && returned == pool.popped
      invariant SubmittedAt(accepted, schedule, places, returned) && forall k <- places :: k < i
      invariant pool.InHand().Some? ==>
                  && begun < i && Submits(schedule, begun, pool.InHand().value, returned)
                  && forall k <- places :: k < begun
      invariant pool.stop <==> atStop.Some?
      invariant atStop.Some? ==> atStop.value <= |returned| <= atStop.value + 1
      invariant atStop.Some? && pool.InFlight() ==> |returned| == atStop.value
    {
      hide ThreadPool.InFlight, ThreadPool.Free, ThreadPool.Wrappers, ThreadPool.InHand;
      ghost var before := pool.InHand();
      var work, done: Option<Work>;
      work, done, free := pool.Take(schedule[i], free);
      if work.Some? {
        OneMoreSubmitted(accepted, schedule, places, returned, begun, work.value);
        accepted := accepted + [work.value];
        places := places + [begun];
      }
      if before.None? && pool.InHand().Some? {
        begun := i;
        BeginsHere(schedule, i, pool.InHand().value, returned);
      }
      if done.Some? {
        OneMoreReturned(accepted, schedule, places, returned, done.value);
        if pool.InHand().Some? { StillSubmits(schedule, begun, pool.InHand().value, returned, done.value); }
        returned := returned + [done.value];
      }
      if pool.stop && atStop.None? { atStop := Some(|returned|); }
    }
    pool.PoppedIsPrefix();
  }

  lemma NoneSubmitted(schedule: seq<Action>)
    ensures SubmittedAt([], schedule, [], [])
  {
  }

  lemma BeginsHere(schedule: seq<Action>, n: nat, work: Work, returned: seq<Work>)
    requires n < |schedule| && (schedule[n] == BeginSubmit(work) || (schedule[n].Resubmit? && work in returned))
    ensures Submits(schedule, n, work, returned)
  {
  }

  lemma StillSubmits(schedule: seq<Action>, n: nat, work: Work, returned: seq<Work>, more: Work)
    requires Submits(schedule, n, work, returned)
    ensures Submits(schedule, n, work, returned + [more])
  {
  }
}
