/** A strand: jobs that run one at a time on a pool of many threads, serialised by one circulating
    slice task.  Every event below is one critical section or one action outside the lock; runs are
    arbitrary interleavings of them. */
module Strand {
  import opened Options
  import P = ThreadPool

  type Job = P.Work
  type Thread = nat

  /** A worker that took the slice task: before its first critical section, executing a job, after it. */
  datatype Runner = Fetching | Running(job: Job) | Returning

  /** attached: the thread pool pointer is set; parked: m_sliceTask is set; inPool: slice tasks queued in
      the pool; joined: some stopAndJoin has returned. */
  datatype State = State(attached: bool, queue: seq<Job>, parked: bool, inPool: nat,
                         runners: map<Thread, Runner>, joiners: set<Thread>, joined: bool,
                         submitted: seq<Job>, started: seq<Job>)

  datatype Event =
    | Submit(job: Job)
    | PoolPop(t: Thread)
    | Fetch(t: Thread)
    | Finish(t: Thread)
    | Return(t: Thread)
    | Detach
    | StopAndJoin(t: Thread)
    | Join(t: Thread)

  const INITIAL := State(true, [], true, 0, map[], {}, false, [], [])

  predicate Enabled(s: State, e: Event) {
    match e
    case Submit(_) => true
    case PoolPop(t) => s.inPool > 0 && t !in s.runners
    case Fetch(t) => t in s.runners && s.runners[t].Fetching?
    case Finish(t) => t in s.runners && s.runners[t].Running?
    case Return(t) => t in s.runners && s.runners[t].Returning?
    case Detach => true
    case StopAndJoin(t) => true
    case Join(t) => t in s.joiners && s.parked
  }

  /** What the code asserts at the start of the step. */
  predicate Asserted(s: State, e: Event) {
    match e
    case Fetch(t) => if s.attached then |s.queue| > 0 else !s.parked
    case Return(t) => (s.attached && |s.queue| > 0) || !s.parked
    case _ => true
  }

  function Step(s: State, e: Event): State
    requires Enabled(s, e)
  {
    match e
    case Submit(job) =>
      var q := s.(queue := s.queue + [job], submitted := s.submitted + [job]);
      if s.parked && s.attached then q.(parked := false, inPool := s.inPool + 1) else q
    case PoolPop(t) =>
      s.(inPool := s.inPool - 1, runners := s.runners[t := Fetching])
    case Fetch(t) =>
      if !s.attached then s.(parked := true, runners := s.runners - {t})
      else if |s.queue| == 0 then s
      else s.(queue := s.queue[1..], runners := s.runners[t := Running(s.queue[0])],
              started := s.started + [s.queue[0]])
    case Finish(t) => s.(runners := s.runners[t := Returning])
    case Return(t) =>
      if s.attached && |s.queue| > 0 then s.(inPool := s.inPool + 1, runners := s.runners - {t})
      else s.(parked := true, runners := s.runners - {t})
    case Detach => s.(attached := false)
    case StopAndJoin(t) => s.(attached := false, joiners := s.joiners + {t})
    case Join(t) => s.(joiners := s.joiners - {t}, joined := true)
  }

  function Tokens(s: State): nat {
    (if s.parked then 1 else 0) + s.inPool + |s.runners|
  }

  predicate Inv(s: State) {
    && Tokens(s) == 1
    && s.submitted == s.started + s.queue
    // No lost wakeup: with work to do and a pool to do it, the slice task is on its way.
    && (s.attached && |s.queue| > 0 ==> !s.parked)
    // The slice task travels only while there is work.
    && (s.attached && s.inPool > 0 ==> |s.queue| > 0)
    && (s.attached ==> forall t :: t in s.runners && s.runners[t].Fetching? ==> |s.queue| > 0)
    && (s.joiners != {} ==> !s.attached)
    && (s.joined ==> !s.attached && s.parked)
    // A job that runs is the one started last.
    && (forall t :: t in s.runners && s.runners[t].Running? ==>
          s.started != [] && s.runners[t].job == s.started[|s.started| - 1])
  }

  lemma RunnerCount(m: map<Thread, Runner>, t: Thread, r: Runner)
    ensures t in m ==> |m - {t}| == |m| - 1 && |m[t := r]| == |m|
    ensures t !in m ==> |m[t := r]| == |m| + 1
  {
    if t in m {
      assert (m - {t}).Keys == m.Keys - {t} && m[t := r].Keys == m.Keys;
      assert |m.Keys - {t}| == |m.Keys| - 1;
      SizeIsKeys(m - {t});
      SizeIsKeys(m[t := r]);
    } else {
      assert m[t := r].Keys == m.Keys + {t};
      SizeIsKeys(m[t := r]);
    }
    SizeIsKeys(m);
  }

  lemma SizeIsKeys(m: map<Thread, Runner>)
    ensures |m| == |m.Keys|
  {
  }

  lemma OneRunner(m: map<Thread, Runner>, t: Thread)
    requires |m| <= 1 && t in m
    ensures m.Keys == {t}
  {
    SizeIsKeys(m);
    forall u | u in m
      ensures u == t
    {
      if u != t {
        assert {t, u} <= m.Keys;
        SubsetSize({t, u}, m.Keys);
      }
    }
  }

  lemma SubsetSize(a: set<Thread>, b: set<Thread>)
    requires a <= b
    ensures |a| <= |b|
  {
    assert |b - a| == |b| - |a|;
  }

  lemma NoRunner(m: map<Thread, Runner>)
    requires |m| == 0
    ensures m == map[]
  {
    SizeIsKeys(m);
  }

  lemma SubmitInv(s: State, job: Job)
    requires Inv(s)
    ensures Inv(Step(s, Submit(job)))
  {
    assert s.submitted + [job] == s.started + (s.queue + [job]);
  }

  lemma PoolPopInv(s: State, t: Thread)
    requires Inv(s) && Enabled(s, PoolPop(t))
    ensures Inv(Step(s, PoolPop(t)))
  {
    RunnerCount(s.runners, t, Fetching);
    NoRunner(s.runners);
  }

  lemma FetchInv(s: State, t: Thread)
    requires Inv(s) && Enabled(s, Fetch(t))
    ensures Asserted(s, Fetch(t)) && Inv(Step(s, Fetch(t)))
  {
    hide Step;
    RunnerCount(s.runners, t, Returning);
    OneRunner(s.runners, t);
    if s.attached {
      FetchAttached(s, t);
    } else {
      FetchDetached(s, t);
    }
  }

  lemma FetchAttached(s: State, t: Thread)
    requires Inv(s) && Enabled(s, Fetch(t)) && s.attached && s.runners.Keys == {t}
    ensures |s.queue| > 0 && Inv(Step(s, Fetch(t)))
  {
    RunnerCount(s.runners, t, Running(s.queue[0]));
    var s' := Step(s, Fetch(t));
    assert s.queue == [s.queue[0]] + s.queue[1..];
    assert s.submitted == (s.started + [s.queue[0]]) + s.queue[1..];
    assert s'.runners.Keys == {t} && s'.runners[t].Running?;
  }

  lemma FetchDetached(s: State, t: Thread)
    requires Inv(s) && Enabled(s, Fetch(t)) && !s.attached && s.runners.Keys == {t}
    ensures !s.parked && Inv(Step(s, Fetch(t)))
  {
    RunnerCount(s.runners, t, Returning);
  }

  lemma FinishInv(s: State, t: Thread)
    requires Inv(s) && Enabled(s, Finish(t))
    ensures Inv(Step(s, Finish(t)))
  {
    RunnerCount(s.runners, t, Returning);
    OneRunner(s.runners, t);
    assert Step(s, Finish(t)).runners.Keys == {t};
  }

  lemma ReturnInv(s: State, t: Thread)
    requires Inv(s) && Enabled(s, Return(t))
    ensures Asserted(s, Return(t)) && Inv(Step(s, Return(t)))
  {
    RunnerCount(s.runners, t, Returning);
    OneRunner(s.runners, t);
    NoRunner(s.runners - {t});
  }

  /** The assertions in the code hold and the invariant is kept by every step. */
  lemma StepInv(s: State, e: Event)
    requires Inv(s) && Enabled(s, e)
    ensures Asserted(s, e) && Inv(Step(s, e))
  {
    match e
    case Submit(job) => SubmitInv(s, job);
    case PoolPop(t) => PoolPopInv(s, t);
    case Fetch(t) => FetchInv(s, t);
    case Finish(t) => FinishInv(s, t);
    case Return(t) => ReturnInv(s, t);
    case _ =>
  }

  predicate Legal(s: State, run: seq<Event>)
    decreases |run|
  {
    |run| == 0 || (Enabled(s, run[0]) && Legal(Step(s, run[0]), run[1..]))
  }

  function After(s: State, run: seq<Event>): State
    requires Legal(s, run)
    decreases |run|
  {
    if |run| == 0 then s else After(Step(s, run[0]), run[1..])
  }

  lemma {:induction false} AfterSnoc(s: State, run: seq<Event>, e: Event)
    requires Legal(s, run) && Enabled(After(s, run), e)
    ensures Legal(s, run + [e]) && After(s, run + [e]) == Step(After(s, run), e)
    decreases |run|
  {
    hide Step, Enabled;
    if run == [] {
      assert [e][1..] == [] && run + [e] == [e];
      assert Legal(Step(s, e), []) && After(Step(s, e), []) == Step(s, e);
    } else {
      assert (run + [e])[1..] == run[1..] + [e] && (run + [e])[0] == run[0];
      AfterSnoc(Step(s, run[0]), run[1..], e);
    }
  }

  lemma {:induction false} RunInv(s: State, run: seq<Event>)
    requires Inv(s) && Legal(s, run)
    ensures Inv(After(s, run))
    decreases |run|
  {
    if |run| > 0 {
      StepInv(s, run[0]);
      RunInv(Step(s, run[0]), run[1..]);
    }
  }

  /** The jobs that were submitted in a run, in order. */
  function Submissions(run: seq<Event>): seq<Job> {
    if run == [] then [] else (if run[0].Submit? then [run[0].job] else []) + Submissions(run[1..])
  }

  lemma {:induction false} SubmittedIsSubmissions(s: State, run: seq<Event>)
    requires Legal(s, run)
    ensures After(s, run).submitted == s.submitted + Submissions(run)
    decreases |run|
  {
    if run != [] { SubmittedIsSubmissions(Step(s, run[0]), run[1..]); }
  }

  /** In every run the slice task is in exactly one place, so jobs never overlap; they start in submission
      order; and work with a pool attached is never left with the slice task parked. */
  lemma Serialised(run: seq<Event>)
    requires Legal(INITIAL, run)
    ensures var s := After(INITIAL, run);
            && Tokens(s) == 1
            && (forall t, u :: t in s.runners && u in s.runners ==> t == u)
            && s.started + s.queue == Submissions(run)
            && (forall t :: t in s.runners && s.runners[t].Running? ==>
                  0 < |s.started| <= |Submissions(run)| && s.runners[t].job == Submissions(run)[|s.started| - 1])
            && (s.attached && |s.queue| > 0 ==> s.inPool > 0 || s.runners != map[])
  {
    RunInv(INITIAL, run);
    SubmittedIsSubmissions(INITIAL, run);
    var s := After(INITIAL, run);
    forall t, u | t in s.runners && u in s.runners
      ensures t == u
    {
      OneRunner(s.runners, t);
    }
    SizeIsKeys(s.runners);
  }

  /** The slice task never gets stuck: wherever it is a next step is possible, and once it is parked a join
      returns. */
  lemma Unstuck(run: seq<Event>)
    requires Legal(INITIAL, run)
    ensures var s := After(INITIAL, run);
            && (s.inPool > 0 ==> forall t :: Enabled(s, PoolPop(t)))
            && (forall t :: t in s.runners ==> Enabled(s, Fetch(t)) || Enabled(s, Finish(t)) || Enabled(s, Return(t)))
            && (s.inPool == 0 && s.runners == map[] ==> forall t :: Joining(run, t, false) ==> Enabled(s, Join(t)))
            && (forall job :: Enabled(s, Submit(job))) && (forall t :: Enabled(s, StopAndJoin(t))) && Enabled(s, Detach)
  {
    RunInv(INITIAL, run);
    var s := After(INITIAL, run);
    if s.inPool > 0 { NoRunner(s.runners); }
    forall t | Joining(run, t, false) ensures t in s.joiners { JoinersAreJoining(INITIAL, run, t); }
  }

  /** Each of these steps moves the slice task on: from the pool to a worker, to the next submitted job or back to
      rest when stopping, to the end of the job, and back to the pool exactly if there is work and a pool. */
  lemma TokenMoves(run: seq<Event>, e: Event, t: Thread)
    requires Legal(INITIAL, run) && Enabled(After(INITIAL, run), e)
    ensures var s, v := After(INITIAL, run), Step(After(INITIAL, run), e);
            && (e == PoolPop(t) ==> v.inPool == 0 && t in v.runners && v.runners[t] == Fetching)
            && (e == Fetch(t) ==>
                  if s.attached
                  then |s.started| < |Submissions(run)| && t in v.runners
                       && v.runners[t] == Running(Submissions(run)[|s.started|]) && |v.started| == |s.started| + 1
                  else v.parked && v.runners == map[])
            && (e == Finish(t) ==> t in v.runners && v.runners[t] == Returning)
            && (e == Return(t) ==>
                  v.runners == map[] && (v.inPool == 1 <==> s.attached && |s.started| < |Submissions(run)|)
                  && v.parked == (v.inPool == 0))
            && (e == Detach || e == StopAndJoin(t) ==> !v.attached && v.parked == s.parked && v.runners == s.runners)
  {
    RunInv(INITIAL, run);
    SubmittedIsSubmissions(INITIAL, run);
    var s := After(INITIAL, run);
    StepInv(s, e);
    if e.Fetch? || e.Return? {
      OneRunner(s.runners, e.t);
      QueueIsNext(s);
      assert (s.runners - {e.t}).Keys == {};
    }
  }

  /** Every assertion the code makes holds when it is reached. */
  lemma AssertionsHold(run: seq<Event>, e: Event)
    requires Legal(INITIAL, run) && Enabled(After(INITIAL, run), e)
    ensures Asserted(After(INITIAL, run), e)
  {
    RunInv(INITIAL, run);
    StepInv(After(INITIAL, run), e);
  }

  lemma {:induction false} NothingStarts(s: State, more: seq<Event>)
    requires Inv(s) && s.joined && Legal(s, more)
    ensures var s' := After(s, more);
            s'.runners == map[] && s'.inPool == 0 && s'.started == s.started
    decreases |more|
  {
    NoRunner(s.runners);
    if |more| > 0 {
      StepInv(s, more[0]);
      NothingStarts(Step(s, more[0]), more[1..]);
    }
  }

  /** Whether thread t is in stopAndJoin after a run; now says whether it was before. */
  function Joining(run: seq<Event>, t: Thread, now: bool): bool {
    if run == [] then now
    else
      match run[0]
      case StopAndJoin(u) => Joining(run[1..], t, now || u == t)
      case Join(u) => Joining(run[1..], t, now && u != t)
      case _ => Joining(run[1..], t, now)
  }

  /** The threads that wait are those that called stopAndJoin and have not returned from it. */
  lemma {:induction false} JoinersAreJoining(s: State, run: seq<Event>, t: Thread)
    requires Legal(s, run)
    ensures t in After(s, run).joiners <==> Joining(run, t, t in s.joiners)
    ensures After(s, run).joined <==> s.joined || exists e <- run :: e.Join?
    decreases |run|
  {
    if run != [] {
      assert run == [run[0]] + run[1..];
      JoinersAreJoining(Step(s, run[0]), run[1..], t);
    }
  }

  /** Once a stopAndJoin has returned no job is running and none ever starts again. */
  lemma JoinIsFinal(run: seq<Event>, more: seq<Event>)
    requires Legal(INITIAL, run) && (exists e <- run :: e.Join?) && Legal(After(INITIAL, run), more)
    ensures var s, s' := After(INITIAL, run), After(After(INITIAL, run), more);
            s.runners == map[] && s'.runners == map[] && s'.inPool == 0 && s'.started == s.started
  {
    RunInv(INITIAL, run);
    JoinersAreJoining(INITIAL, run, 0);
    NothingStarts(After(INITIAL, run), []);
    NothingStarts(After(INITIAL, run), more);
  }

  /** The fields behind the tail mutex.  The jobs are in linked wrappers, the last of which is empty; history is
      the abstract state that the critical sections follow. */
  class Internal {
    var attached: bool
    var head: P.TaskWrapper?
    var tail: P.TaskWrapper
    var sliceTask: bool
    ghost var chain: seq<P.TaskWrapper>
    ghost var history: State

    /** The wrappers from head to tail hold the queue of the history. */
    ghost predicate Linkage()
      reads this, chain
    {
      && |chain| == |history.queue| + 1
      && head == chain[0] && tail == chain[|chain| - 1] && tail.value == None && tail.next == null
      && (forall i, j :: 0 <= i < j < |chain| ==> chain[i] != chain[j])
      && (forall i :: 0 <= i < |chain| - 1 ==>
            chain[i].value == Some(history.queue[i]) && chain[i].next == chain[i + 1])
    }

    ghost predicate Valid()
      reads this, chain
    {
      Inv(history) && attached == history.attached && sliceTask == history.parked && Linkage()
    }

    /** A wrapper that is not in the queue and may be submitted. */
    ghost predicate Free(task: P.TaskWrapper)
      reads this, task
    {
      task !in chain && task.value.Some? && task.next == null
    }

    constructor ()
      ensures Valid() && history == INITIAL && fresh(chain)
    {
      var empty := new P.TaskWrapper(None);
      attached, head, tail, sliceTask := true, empty, empty, true;
      chain, history := [empty], INITIAL;
    }

    lemma Ends()
      requires Valid()
      ensures |chain| > 0 && tail in chain && head != null && head in chain
      ensures head == tail <==> history.queue == []
    {
      assert chain[0] in chain && chain[|chain| - 1] in chain;
    }

    /** The work moves into the wrapper that was the empty tail, and the emptied one becomes the tail.  True when
        the slice task is handed to the pool. */
    method Submit(task: P.TaskWrapper) returns (toPool: bool)
      requires Valid() && Free(task)
      modifies this, tail, task
      ensures Valid() && old(task.value).Some? && history == Step(old(history), Event.Submit(old(task.value).value))
      ensures history.submitted == old(history.submitted) + [old(task.value).value]
      ensures toPool <==> old(sliceTask) && old(attached)
      ensures sliceTask == (old(sliceTask) && !toPool)
      ensures chain == old(chain) + [task]
    {
      hide Inv, Tokens;
      ghost var e := Event.Submit(task.value.value);
      StepInv(history, e);
      Ends();
      history := Step(history, e);
      var oldTail := tail;
      oldTail.value := task.value;
      task.value := None;
      oldTail.next := task;
      tail := task;
      chain := chain + [task];
      toPool := sliceTask && attached;
      if toPool { sliceTask := false; }
    }

    /** First critical section of run: the wrapper of the next job, or nothing when stopping.  The assertions on
        the head, its value and its next hold. */
    method FetchJob(ghost t: Thread) returns (task: P.TaskWrapper?)
      requires Valid() && Enabled(history, Fetch(t))
      modifies this, chain
      ensures Valid() && history == Step(old(history), Fetch(t))
      ensures task == null <==> !old(attached)
      ensures task == null ==> chain == old(chain)
      ensures task != null ==>
                && Free(task) && |old(chain)| > 0 && chain == old(chain)[1..] && task == old(chain)[0]
                && |old(history).started| < |old(history).submitted|
                && task.value == Some(old(history).submitted[|old(history).started|])
    {
      hide Inv, Tokens;
      StepInv(history, Fetch(t));
      QueueIsNext(history);
      if !attached {
        history := Step(history, Fetch(t));
        sliceTask := true;
        return null;
      }
      Ends();
      assert chain[0].next == chain[1];
      assert head != null && head != tail && head.value.Some? && head.next != null;
      history := Step(history, Fetch(t));
      task := head;
      head := task.next;
      task.next := null;
      chain := chain[1..];
    }

    /** Last critical section of run: the slice task goes back to the pool or is parked. */
    method ReturnSlice(ghost t: Thread) returns (toPool: bool)
      requires Valid() && Enabled(history, Return(t))
      modifies `history, `sliceTask
      ensures Valid() && history == Step(old(history), Return(t))
      ensures toPool <==> attached && |history.started| < |history.submitted|
      ensures sliceTask <==> !toPool
    {
      hide Inv, Tokens;
      StepInv(history, Return(t));
      QueueIsNext(history);
      assert Asserted(history, Return(t));
      Ends();
      history := Step(history, Return(t));
      toPool := attached && head != tail;
      if !toPool { sliceTask := true; }
    }

    /** stopAndJoin until its wait; and the part of stopAndMaybeJoin that runs inside a job. */
    method Stop(ghost caller: Option<Thread>)
      requires Valid()
      modifies `history, `attached
      ensures Valid() && !attached
      ensures history == Step(old(history), if caller.Some? then StopAndJoin(caller.value) else Detach)
      ensures caller.Some? ==> caller.value in history.joiners
    {
      hide Inv, Tokens;
      StepInv(history, if caller.Some? then StopAndJoin(caller.value) else Detach);
      history := Step(history, if caller.Some? then StopAndJoin(caller.value) else Detach);
      attached := false;
    }

    /** One wakeup of the join wait. */
    method TryJoin(ghost t: Thread) returns (done: bool)
      requires Valid() && t in history.joiners
      modifies `history
      ensures Valid() && (done <==> sliceTask)
      ensures history == if done then Step(old(history), Join(t)) else old(history)
      ensures done ==> history.joined && history.runners == map[]
    {
      done := sliceTask;
      if done {
        StepInv(history, Join(t));
        history := Step(history, Join(t));
        NothingStarts(history, []);
      }
    }

    /** What happens outside of the lock: a worker takes the slice task from the pool, or a job ends. */
    method Elsewhere(ghost e: Event)
      requires Valid() && Enabled(history, e) && (e.PoolPop? || e.Finish?)
      modifies `history
      ensures Valid() && history == Step(old(history), e)
    {
      hide Inv, Tokens;
      StepInv(history, e);
      history := Step(history, e);
    }

    ghost function Wrappers(): set<P.TaskWrapper>
      reads this
    {
      set t | t in chain
    }

    /** Any thread's next step, if it is possible; free are the wrappers that may be submitted again. */
    method Take(action: Action, state: State, free: set<P.TaskWrapper>)
      returns (done: Option<Event>, job: Option<Job>, nowFree: set<P.TaskWrapper>)
      requires Valid() && state == history && forall t <- free :: Free(t)
      modifies this, Wrappers(), free
      ensures Valid() && forall t <- nowFree :: Free(t)
      ensures fresh(Wrappers() + nowFree - (old(Wrappers()) + free))
      ensures if done.Some? then Enabled(state, done.value) && history == Step(state, done.value) else history == state
      ensures action.Do? ==> done == if Enabled(state, action.e) then Some(action.e) else None
      ensures action.Resubmit? ==>
                if free == {} then done == None
                else done.Some? && done.value.Submit? && exists t <- free :: old(t.value) == Some(done.value.job)
      ensures history.started == if job.Some? then state.started + [job.value] else state.started
    {
      hide Inv, Internal.Linkage;
      Ends();
      done, job, nowFree := None, None, free;
      match action
      case Resubmit =>
        if free != {} {
          var task :| task in free;
          nowFree := free - {task};
          done := Some(Event.Submit(task.value.value));
          var toPool := Submit(task);
        }
      case Do(e) =>
        if !Enabled(state, e) { return; }
        done := Some(e);
        match e
        case Submit(work) =>
          var task := new P.TaskWrapper(Some(work));
          var toPool := Submit(task);
        case PoolPop(_) => Elsewhere(e);
        case Finish(_) => Elsewhere(e);
        case Fetch(t) =>
          FetchInv(history, t);
          QueueIsNext(history);
          var task := FetchJob(t);
          if task != null {
            job := task.value;
            nowFree := free + {task};
          }
        case Return(t) => var toPool := ReturnSlice(t);
        case Detach => Stop(None);
        case StopAndJoin(t) => Stop(Some(t));
        case Join(t) => var joined := TryJoin(t);
    }
  }

  lemma QueueIsNext(s: State)
    requires Inv(s)
    ensures |s.queue| > 0 <==> |s.started| < |s.submitted|
    ensures |s.queue| > 0 ==> s.submitted[|s.started|] == s.queue[0]
  {
  }

  /** A schedule decides which step comes next: one of the events, a job being submitted in a new wrapper, or a
      wrapper whose job has run being submitted again.  A step that is not possible is skipped. */
  datatype Action = Do(e: Event) | Resubmit

  /** Any interleaving, on the linked wrappers: the jobs that ran, in the order they were taken from the head, are
      a prefix of the jobs in the order they were linked to the tail, and the run is a legal one. */
  method Run(schedule: seq<Action>)
    returns (strand: Internal, ghost run: seq<Event>, ran: seq<Job>)
    ensures fresh(strand) && strand.Valid()
    ensures Legal(INITIAL, run) && strand.history == After(INITIAL, run)
    ensures ran == strand.history.started && ran <= Submissions(run)
  {
    hide Internal.Valid, Enabled, Step;
    strand := new Internal();
    run, ran := [], [];
    var free: set<P.TaskWrapper> := {};
    var state := INITIAL;
    for i := 0 to |schedule|
      invariant strand.Valid() && fresh(strand) && fresh(strand.Wrappers()) && fresh(free)
      invariant forall t <- free :: strand.Free(t)
      invariant Legal(INITIAL, run) && strand.history == state == After(INITIAL, run)
      invariant ran == state.started
    {
      hide Internal.Wrappers, Internal.Free, Legal, After;
      var done, job;
      done, job, free := strand.Take(schedule[i], state, free);
      if job.Some? { ran := ran + [job.value]; }
      if done.Some? {
        AfterSnoc(INITIAL, run, done.value);
        state := Step(state, done.value);
        run := run + [done.value];
      }
    }
    Serialised(run);
  }
}
