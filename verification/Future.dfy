/** Futures and promises: the shared state, continuations attached with then, and their downstream promises.
    Every locked section, and every start or end of a continuation's function, is one step; the steps of all
    threads interleave in any way. */
module Future {
  import opened Options

  type T = int

  datatype Error = Thrown(code: int) | BrokenPromise

  datatype Outcome = Value(value: T) | Failed(error: Error)

  /** The protected contents of a shared state: set or not, and the number of a waiting continuation. */
  datatype Cell = Cell(outcome: Option<Outcome>, continuation: Option<nat>) {
    function Set(o: Outcome): Cell { Cell(Some(o), None) }

    function Attach(c: nat): Cell { if outcome.Some? then this else this.(continuation := Some(c)) }
  }

  const UNSET := Cell(None, None)

  /** The three fields isSet, exception and data stand for the outcome. */
  class SharedState {
    var isSet: bool
    var exception: Option<Error>
    var data: T
    var continuation: Option<nat>

    constructor ()
      ensures Abs() == UNSET && Consistent()
    {
      isSet, exception, data, continuation := false, None, 0, None;
    }

    ghost predicate Consistent()
      reads this
    {
      !isSet ==> exception == None
    }

    ghost function Abs(): Cell
      reads this
    {
      Cell(if !isSet then None else Some(if exception.Some? then Failed(exception.value) else Value(data)),
           continuation)
    }

    /** The locked section of emplaceValue, setReady and setException: next is to be run by the caller. */
    method Set(outcome: Outcome) returns (next: Option<nat>)
      requires !isSet && Consistent()
      modifies this
      ensures Abs() == old(Abs()).Set(outcome) && next == old(continuation) && Consistent()
    {
      match outcome {
        case Value(v) => data := v;
        case Failed(e) => exception := Some(e);
      }
      isSet := true;
      next := continuation;
      continuation := None;
    }

    /** The locked section of then: next is to be run by the caller. */
    method Then(c: nat) returns (next: Option<nat>)
      requires continuation == None
      modifies `continuation
      ensures Abs() == old(Abs()).Attach(c) && next == if isSet then Some(c) else None
    {
      if isSet {
        next := Some(c);
      } else {
        continuation := Some(c);
        next := None;
      }
    }

    /** takeValue, once the state is ready. */
    method TakeValue() returns (outcome: Outcome)
      requires isSet
      ensures Abs().outcome == Some(outcome)
    {
      outcome := if exception.Some? then Failed(exception.value) else Value(data);
    }
  }

  class Promise {
    var state: SharedState?
    var futureState: SharedState?

    constructor ()
      ensures state != null && state == futureState && fresh(state) && state.Abs() == UNSET
      ensures state.Consistent()
    {
      var s := new SharedState();
      state, futureState := s, s;
    }

    /** setValue, setReady, setException and abandon: the state is moved out, so they work once. */
    method Resolve(outcome: Outcome) returns (next: Option<nat>)
      requires state != null && !state.isSet && state.Consistent()
      modifies `state, state
      ensures state == null && next == old(state.continuation)
      ensures old(state).Abs() == old(state.Abs()).Set(outcome) && old(state).Consistent()
    {
      var s := state;
      state := null;
      next := s.Set(outcome);
    }

    /** The destructor breaks the promise unless it was resolved. */
    method Destroy() returns (next: Option<nat>)
      requires state != null ==> !state.isSet && state.Consistent()
      modifies `state, state
      ensures state == null
      ensures if old(state) == null then next == None
              else next == old(state.continuation) && old(state).Abs() == old(state.Abs()).Set(Failed(BrokenPromise))
    {
      next := None;
      if state != null { next := Resolve(Failed(BrokenPromise)); }
    }

    method TakeFuture() returns (f: SharedState)
      requires futureState != null
      modifies `futureState
      ensures f == old(futureState) && futureState == null
    {
      f := futureState;
      futureState := null;
    }
  }

  /** Who holds the promise of a state: user code, continuation c, or nobody once it is resolved. */
  datatype PromiseAt = UserPromise | PromiseOf(c: nat) | Resolved

  /** Where the one future of a state is: in its promise, in user hands, kept by a continuation whose function
      has not begun, or used up. */
  datatype FutureAt = Untaken | UserFuture | KeptBy(c: nat) | Used

  datatype State = State(cell: Cell, promise: PromiseAt, future: FutureAt)

  /** What a continuation's function did: Inner is a valid future, of the given state. */
  datatype Answer = Returned(value: T) | Threw(code: int) | Inner(s: nat) | InvalidInner

  /** A continuation waits in its source state, is due to run, runs its function, waits for the future the
      function returned, or is done. */
  datatype Phase = Stored | Due | Running | Waiting | Done

  datatype Continuation = Continuation(source: nat, target: nat, phase: Phase, answer: Option<Answer>, runs: nat)

  datatype World = World(states: seq<State>, conts: seq<Continuation>)

  datatype Event =
    | NewPromise
    | TakeFuture(s: nat)
    | Resolve(s: nat, outcome: Outcome)
    | Destroy(s: nat)
    | Then(s: nat)
    | TakeValue(s: nat)
    | Begin(c: nat)
    | End(c: nat, answer: Answer)
    | Collect(c: nat)

  /** The promise of state s is resolved; a continuation found waiting becomes due. */
  function SetState(w: World, s: nat, outcome: Outcome): World
    requires s < |w.states|
  {
    var next := w.states[s].cell.continuation;
    World(
      w.states[s := w.states[s].(cell := w.states[s].cell.Set(outcome), promise := Resolved)],
      if next.Some? && next.value < |w.conts|
      then w.conts[next.value := w.conts[next.value].(phase := Due)]
      else w.conts)
  }

  /** then on the future of state s: a continuation with a new promise, whose future the user gets. */
  function Attach(w: World, s: nat): World
    requires s < |w.states|
  {
    var c, wasSet := |w.conts|, w.states[s].cell.outcome.Some?;
    World(
      w.states[s := w.states[s].(cell := w.states[s].cell.Attach(c), future := KeptBy(c))]
      + [State(UNSET, PromiseOf(c), UserFuture)],
      w.conts + [Continuation(s, |w.states|, if wasSet then Due else Stored, None, 0)])
  }

  function MoveFuture(w: World, s: nat, future: FutureAt): World
    requires s < |w.states|
  {
    w.(states := w.states[s := w.states[s].(future := future)])
  }

  /** What the promise of a continuation is resolved with. */
  function Expected(w: World, answer: Answer): Option<Outcome> {
    match answer
    case Returned(v) => Some(Value(v))
    case Threw(code) => Some(Failed(Thrown(code)))
    case Inner(s) => if s < |w.states| then w.states[s].cell.outcome else None
    case InvalidInner => Some(Failed(BrokenPromise))
  }

  /** The step an event makes, if its caller may make it and need not block. */
  function Step(w: World, e: Event): Option<World> {
    match e
    case NewPromise => Some(w.(states := w.states + [State(UNSET, UserPromise, Untaken)]))
    case TakeFuture(s) =>
      if s < |w.states| && w.states[s].future == Untaken then Some(MoveFuture(w, s, UserFuture)) else None
    case Resolve(s, outcome) =>
      if s < |w.states| && w.states[s].promise == UserPromise then Some(SetState(w, s, outcome)) else None
    case Destroy(s) =>
      if s < |w.states| && !w.states[s].promise.PromiseOf? then
        var v := if w.states[s].promise == UserPromise then SetState(w, s, Failed(BrokenPromise)) else w;
        Some(if v.states[s].future == Untaken then MoveFuture(v, s, Used) else v)
      else None
    case Then(s) =>
      if s < |w.states| && w.states[s].future == UserFuture then Some(Attach(w, s)) else None
    case TakeValue(s) =>
      if s < |w.states| && w.states[s].future == UserFuture && w.states[s].cell.outcome.Some?
      then Some(MoveFuture(w, s, Used)) else None
    case Begin(c) =>
      if c < |w.conts| && w.conts[c].phase == Due && w.conts[c].source < |w.states|
      then Some(MoveFuture(w, w.conts[c].source, UserFuture)
                .(conts := w.conts[c := w.conts[c].(phase := Running, runs := w.conts[c].runs + 1)])) else None
    case End(c, answer) =>
      if c < |w.conts| && w.conts[c].phase == Running && w.conts[c].target < |w.states| then
        match answer {
          case Inner(s) =>
            if s < |w.states| && w.states[s].future == UserFuture
            then Some(MoveFuture(w, s, Used)
                      .(conts := w.conts[c := w.conts[c].(phase := Waiting, answer := Some(answer))]))
            else None
          case _ => Finish(w, c, answer)
        }
      else None
    case Collect(c) =>
      if c < |w.conts| && w.conts[c].phase == Waiting && w.conts[c].answer.Some? && w.conts[c].target < |w.states|
      then Finish(w, c, w.conts[c].answer.value) else None
  }

  /** The continuation resolves its promise; it blocks while the inner future is not ready. */
  function Finish(w: World, c: nat, answer: Answer): Option<World>
    requires c < |w.conts| && w.conts[c].target < |w.states|
  {
    var outcome := Expected(w, answer);
    if outcome.None? then None
    else Some(SetState(w.(conts := w.conts[c := w.conts[c].(phase := Done, answer := Some(answer))]),
                       w.conts[c].target, outcome.value))
  }

  function Run(events: seq<Event>): Option<World> {
    if events == [] then Some(World([], []))
    else
      var before := Run(events[..|events| - 1]);
      if before.None? then None else Step(before.value, events[|events| - 1])
  }

  /** A state is unset exactly while someone holds its promise; a continuation waits only in an unset state and
      keeps the state's one future. */
  ghost predicate StateOk(w: World, i: nat)
    requires i < |w.states|
  {
    var s := w.states[i];
    && (s.promise == Resolved <==> s.cell.outcome.Some?)
    && (s.promise.PromiseOf? ==> s.promise.c < |w.conts| && w.conts[s.promise.c].target == i)
    && (s.cell.continuation.Some? ==>
          && s.cell.outcome == None && s.future == KeptBy(s.cell.continuation.value)
          && s.cell.continuation.value < |w.conts| && w.conts[s.cell.continuation.value].source == i
          && w.conts[s.cell.continuation.value].phase == Stored)
  }

  /** A function begins once, after its source is set; a continuation that is done has resolved its promise
      with what its function's answer calls for. */
  ghost predicate ContinuationOk(w: World, c: nat)
    requires c < |w.conts|
  {
    var k := w.conts[c];
    && k.source < k.target < |w.states|
    && k.runs == (if k.phase.Stored? || k.phase.Due? then 0 else 1)
    && (k.phase.Stored? <==> w.states[k.source].cell.continuation == Some(c))
    && (k.phase.Stored? || w.states[k.source].cell.outcome.Some?)
    && (k.phase.Stored? || k.phase.Due? ==> w.states[k.source].future == KeptBy(c))
    && (!k.phase.Done? ==> w.states[k.target].promise == PromiseOf(c))
    && (k.answer.Some? <==> k.phase.Waiting? || k.phase.Done?)
    && (k.phase.Waiting? ==> k.answer.value.Inner?)
    && (k.phase.Done? ==> Expected(w, k.answer.value).Some?
                          && w.states[k.target].cell.outcome == Expected(w, k.answer.value))
  }

  ghost predicate Inv(w: World) {
    && (forall i | 0 <= i < |w.states| :: StateOk(w, i))
    && (forall c | 0 <= c < |w.conts| :: ContinuationOk(w, c))
  }

  /** The assertions in the code hold: a state is set only when unset, and then finds no continuation. */
  lemma AssertionsHold(w: World, s: nat)
    requires Inv(w) && s < |w.states|
    ensures w.states[s].promise == UserPromise ==> w.states[s].cell.outcome == None
    ensures w.states[s].future == UserFuture ==> w.states[s].cell.continuation == None
    ensures forall c | 0 <= c < |w.conts| && w.conts[c].target == s && w.conts[c].phase != Done ::
              w.states[s].cell.outcome == None
  {
    assert StateOk(w, s);
    forall c | 0 <= c < |w.conts| && w.conts[c].target == s && w.conts[c].phase != Done
      ensures w.states[s].cell.outcome == None
    {
      assert ContinuationOk(w, c);
    }
  }

  lemma SetStateInv(w: World, s: nat, outcome: Outcome, c: Option<nat>)
    requires s < |w.states| && w.states[s].cell.outcome == None
    requires forall i | 0 <= i < |w.states| :: StateOk(w, i)
    requires forall d | 0 <= d < |w.conts| && c != Some(d) :: ContinuationOk(w, d)
    requires forall d | 0 <= d < |w.conts| && c != Some(d) :: w.conts[d].target == s ==> w.conts[d].phase == Done
    requires c.Some? ==> c.value < |w.conts| && ContinuationOk(SetState(w, s, outcome), c.value)
    ensures Inv(SetState(w, s, outcome))
  {
    var v := SetState(w, s, outcome);
    assert StateOk(w, s);
    forall i | 0 <= i < |v.states| ensures StateOk(v, i) { assert StateOk(w, i); }
    forall d | 0 <= d < |v.conts| && c != Some(d) ensures ContinuationOk(v, d) { assert ContinuationOk(w, d); }
  }

  lemma AttachInv(w: World, s: nat)
    requires Inv(w) && s < |w.states| && w.states[s].future == UserFuture
    ensures Inv(Attach(w, s))
  {
    var v := Attach(w, s);
    AssertionsHold(w, s);
    forall i | 0 <= i < |v.states| ensures StateOk(v, i) {
      if i < |w.states| { assert StateOk(w, i); }
    }
    forall d | 0 <= d < |v.conts| ensures ContinuationOk(v, d) {
      if d < |w.conts| { assert ContinuationOk(w, d); }
    }
  }

  lemma FinishInv(w: World, c: nat, answer: Answer)
    requires Inv(w) && c < |w.conts| && w.conts[c].phase in {Running, Waiting} && w.conts[c].target < |w.states|
    requires Finish(w, c, answer).Some?
    ensures Inv(Finish(w, c, answer).value)
  {
    var u := w.(conts := w.conts[c := w.conts[c].(phase := Done, answer := Some(answer))]);
    assert ContinuationOk(w, c);
    var s, outcome := w.conts[c].target, Expected(w, answer).value;
    assert StateOk(w, s);
    forall i | 0 <= i < |u.states| ensures StateOk(u, i) { assert StateOk(w, i); }
    forall d | 0 <= d < |u.conts| && d != c ensures ContinuationOk(u, d) { assert ContinuationOk(w, d); }
    SetStateInv(u, s, outcome, Some(c));
  }

  lemma MoveFutureInv(w: World, s: nat, future: FutureAt)
    requires Inv(w) && s < |w.states| && !w.states[s].future.KeptBy? && !future.KeptBy?
    ensures Inv(MoveFuture(w, s, future))
  {
    var v := MoveFuture(w, s, future);
    forall i | 0 <= i < |v.states| ensures StateOk(v, i) { assert StateOk(w, i); }
    forall d | 0 <= d < |v.conts| ensures ContinuationOk(v, d) { assert ContinuationOk(w, d); }
  }

  lemma BeginInv(w: World, c: nat)
    requires Inv(w) && Step(w, Begin(c)).Some?
    ensures Inv(Step(w, Begin(c)).value)
  {
    var v := Step(w, Begin(c)).value;
    assert ContinuationOk(w, c);
    forall i | 0 <= i < |v.states| ensures StateOk(v, i) { assert StateOk(w, i); }
    forall d | 0 <= d < |v.conts| ensures ContinuationOk(v, d) { assert ContinuationOk(w, d); }
  }

  lemma WaitInv(w: World, c: nat, s: nat)
    requires Inv(w) && Step(w, End(c, Inner(s))).Some?
    ensures Inv(Step(w, End(c, Inner(s))).value)
  {
    var v := Step(w, End(c, Inner(s))).value;
    assert ContinuationOk(w, c);
    forall i | 0 <= i < |v.states| ensures StateOk(v, i) { assert StateOk(w, i); }
    forall d | 0 <= d < |v.conts| ensures ContinuationOk(v, d) { assert ContinuationOk(w, d); }
  }

  lemma UserSetInv(w: World, s: nat, outcome: Outcome)
    requires Inv(w) && s < |w.states| && w.states[s].promise == UserPromise
    ensures Inv(SetState(w, s, outcome))
  {
    AssertionsHold(w, s);
    forall d | 0 <= d < |w.conts| && w.conts[d].target == s
      ensures w.conts[d].phase == Done
    {
      assert ContinuationOk(w, d);
    }
    SetStateInv(w, s, outcome, None);
  }

  lemma NewPromiseInv(w: World)
    requires Inv(w)
    ensures Inv(Step(w, NewPromise).value)
  {
    var v := Step(w, NewPromise).value;
    forall i | 0 <= i < |v.states| ensures StateOk(v, i) { if i < |w.states| { assert StateOk(w, i); } }
    forall d | 0 <= d < |v.conts| ensures ContinuationOk(v, d) { assert ContinuationOk(w, d); }
  }

  lemma StepInv(w: World, e: Event)
    requires Inv(w) && Step(w, e).Some?
    ensures Inv(Step(w, e).value)
  {
    hide StateOk, ContinuationOk, Inv, Attach, Finish, Expected;
    match e
    case NewPromise => NewPromiseInv(w);
    case TakeFuture(s) => MoveFutureInv(w, s, UserFuture);
    case Resolve(s, outcome) => UserSetInv(w, s, outcome);
    case Destroy(s) =>
      var v := w;
      if w.states[s].promise == UserPromise {
        UserSetInv(w, s, Failed(BrokenPromise));
        v := SetState(w, s, Failed(BrokenPromise));
      }
      if v.states[s].future == Untaken { MoveFutureInv(v, s, Used); }
    case Then(s) => AttachInv(w, s);
    case TakeValue(s) => MoveFutureInv(w, s, Used);
    case Begin(c) => BeginInv(w, c);
    case End(c, answer) => if answer.Inner? { WaitInv(w, c, answer.s); } else { FinishInv(w, c, answer); }
    case Collect(c) => FinishInv(w, c, w.conts[c].answer.value);
  }

  lemma {:induction false} RunInv(events: seq<Event>)
    requires Run(events).Some?
    ensures Inv(Run(events).value)
  {
    if events != [] {
      RunInv(events[..|events| - 1]);
      StepInv(Run(events[..|events| - 1]).value, events[|events| - 1]);
    }
  }

  /** What users of the futures may rely on after any run: a continuation is due as soon as its source is set,
      its function begins at most once and only then, and when it is done its future has the outcome of the
      function, of the inner future, or a broken promise. */
  lemma Guarantees(events: seq<Event>, c: nat)
    requires Run(events).Some? && c < |Run(events).value.conts|
    ensures
      var w := Run(events).value;
      var k := w.conts[c];
      && k.source < k.target < |w.states|
      && (k.phase == Stored <==> w.states[k.source].cell.outcome == None)
      && (k.runs == 0 <==> k.phase in {Stored, Due}) && k.runs <= 1
      && (k.phase == Done <==> w.states[k.target].cell.outcome.Some?)
      && (k.phase == Done ==> k.answer.Some? && w.states[k.target].cell.outcome == Expected(w, k.answer.value))
  {
    var w := Run(events).value;
    RunInv(events);
    assert ContinuationOk(w, c);
    var k := w.conts[c];
    assert StateOk(w, k.source) && StateOk(w, k.target);
  }

  /** Whether event e sets state s. */
  predicate Sets(w: World, e: Event, s: nat) {
    match e
    case Resolve(t, _) => t == s
    case Destroy(t) => t == s < |w.states| && w.states[s].promise == UserPromise
    case End(c, answer) => !answer.Inner? && c < |w.conts| && w.conts[c].target == s
    case Collect(c) => c < |w.conts| && w.conts[c].target == s
    case _ => false
  }

  /** How often state s is set, and the function of continuation c begins, in a run. */
  function SetCount(events: seq<Event>, s: nat): nat {
    if events == [] then 0
    else
      var before, e := events[..|events| - 1], events[|events| - 1];
      SetCount(before, s) + if Run(before).Some? && Sets(Run(before).value, e, s) then 1 else 0
  }

  function BeginCount(events: seq<Event>, c: nat): nat {
    if events == [] then 0
    else BeginCount(events[..|events| - 1], c) + if events[|events| - 1] == Begin(c) then 1 else 0
  }

  predicate IsSet(w: World, s: nat) { s < |w.states| && w.states[s].cell.outcome.Some? }

  /** A step sets a state only when it was unset, and never changes an outcome. */
  lemma StepSets(w: World, e: Event, s: nat)
    requires Inv(w) && Step(w, e).Some?
    ensures var v := Step(w, e).value;
            && (Sets(w, e, s) ==> !IsSet(w, s))
            && (IsSet(v, s) <==> IsSet(w, s) || Sets(w, e, s))
            && (IsSet(w, s) ==> v.states[s].cell.outcome == w.states[s].cell.outcome)
  {
    if s < |w.states| { AssertionsHold(w, s); }
    match e
    case Begin(c) => assert ContinuationOk(w, c);
    case End(c, answer) => assert ContinuationOk(w, c);
    case Collect(c) => assert ContinuationOk(w, c);
    case Then(t) => AssertionsHold(w, t);
    case _ =>
  }

  lemma {:induction false} SetExactlyOnce(events: seq<Event>, s: nat)
    requires Run(events).Some?
    ensures SetCount(events, s) == if IsSet(Run(events).value, s) then 1 else 0
  {
    hide Inv, IsSet, Sets, Step;
    if events == [] {
      NothingSet(s);
    } else {
      var before := events[..|events| - 1];
      SetExactlyOnce(before, s);
      RunInv(before);
      StepSets(Run(before).value, events[|events| - 1], s);
    }
  }

  lemma NothingSet(s: nat)
    ensures !IsSet(World([], []), s)
  {
  }

  /** An outcome, once set, stays for the rest of the run. */
  lemma {:induction false} OutcomeStays(events: seq<Event>, n: nat, s: nat)
    requires n <= |events| && Run(events).Some?
    ensures Run(events[..n]).Some?
    ensures IsSet(Run(events[..n]).value, s) ==>
              IsSet(Run(events).value, s)
              && Run(events).value.states[s].cell.outcome == Run(events[..n]).value.states[s].cell.outcome
  {
    if n == |events| {
      assert events[..n] == events;
    } else {
      var before := events[..|events| - 1];
      OutcomeStays(before, n, s);
      assert before[..n] == events[..n];
      RunInv(before);
      StepSets(Run(before).value, events[|events| - 1], s);
    }
  }

  /** What became of a promise by user code holds for the rest of the run: a resolved one has given its future
      that outcome, one destroyed unresolved a broken promise. */
  lemma PromiseKept(events: seq<Event>, n: nat)
    requires n < |events| && Run(events).Some?
    ensures Run(events[..n]).Some?
    ensures events[n].Resolve? ==>
              var s := events[n].s;
              IsSet(Run(events).value, s) && Run(events).value.states[s].cell.outcome == Some(events[n].outcome)
    ensures events[n].Destroy? ==>
              var s := events[n].s;
              && s < |Run(events[..n]).value.states|
              && (Run(events[..n]).value.states[s].promise == UserPromise ==>
                    && IsSet(Run(events).value, s)
                    && Run(events).value.states[s].cell.outcome == Some(Failed(BrokenPromise)))
  {
    if events[n].Resolve? || events[n].Destroy? { OutcomeStays(events, n + 1, events[n].s); }
    OutcomeStays(events, n, 0);
    assert events[..n + 1][..n] == events[..n] && events[..n + 1][n] == events[n];
  }

  /** What a function answered at any step of a run is what its future has at the end: the value returned, the
      exception thrown, or a broken promise when the future returned was invalid. */
  lemma AnswerKept(events: seq<Event>, n: nat)
    requires n < |events| && Run(events).Some? && events[n].End?
    ensures Run(events[..n]).Some? && events[n].c < |Run(events[..n]).value.conts|
    ensures var target := Run(events[..n]).value.conts[events[n].c].target;
            match events[n].answer {
              case Returned(v) =>
                IsSet(Run(events).value, target) && Run(events).value.states[target].cell.outcome == Some(Value(v))
              case Threw(code) =>
                && IsSet(Run(events).value, target)
                && Run(events).value.states[target].cell.outcome == Some(Failed(Thrown(code)))
              case InvalidInner =>
                && IsSet(Run(events).value, target)
                && Run(events).value.states[target].cell.outcome == Some(Failed(BrokenPromise))
              case Inner(_) => true
            }
  {
    RunNext(events, n);
    OutcomeStays(events, n + 1, Run(events[..n]).value.conts[events[n].c].target);
  }

  /** When the function returned the future of state s at step n, and its outcome was collected at a later step m,
      the future of the continuation has that outcome at the end. */
  lemma InnerKept(events: seq<Event>, n: nat, m: nat)
    requires n < m < |events| && Run(events).Some?
    requires events[n].End? && events[n].answer.Inner? && events[m] == Collect(events[n].c)
    ensures Run(events[..n]).Some? && events[n].c < |Run(events[..n]).value.conts|
    ensures var target, s := Run(events[..n]).value.conts[events[n].c].target, events[n].answer.s;
            && IsSet(Run(events).value, target) && IsSet(Run(events).value, s)
            && Run(events).value.states[target].cell.outcome == Run(events).value.states[s].cell.outcome
  {
    hide Run, Step, Inv;
    var c, s := events[n].c, events[n].answer.s;
    RunNext(events, n);
    RunNext(events, m);
    EndsWithInner(Run(events[..n]).value, c, s);
    AnswerStays(events[..m], n + 1, c);
    assert events[..m][..n + 1] == events[..n + 1];
    CollectsInner(Run(events[..m]).value, c, s);
    OutcomeStays(events, m + 1, Run(events[..m]).value.conts[c].target);
    OutcomeStays(events, m, s);
  }

  /** A run up to a step, and the step. */
  lemma RunNext(events: seq<Event>, n: nat)
    requires n < |events| && Run(events).Some?
    ensures Run(events[..n]).Some? && Inv(Run(events[..n]).value)
    ensures Run(events[..n + 1]).Some? && Run(events[..n + 1]) == Step(Run(events[..n]).value, events[n])
  {
    hide Step, Inv;
    OutcomeStays(events, n, 0);
    OutcomeStays(events, n + 1, 0);
    RunInv(events[..n]);
    assert events[..n + 1][..n] == events[..n] && events[..n + 1][n] == events[n];
  }

  lemma EndsWithInner(w: World, c: nat, s: nat)
    requires Step(w, End(c, Inner(s))).Some?
    ensures var v := Step(w, End(c, Inner(s))).value;
            && c < |w.conts| == |v.conts| && v.conts[c].answer == Some(Inner(s))
            && v.conts[c].target == w.conts[c].target
  {
  }

  lemma CollectsInner(w: World, c: nat, s: nat)
    requires Inv(w) && Step(w, Collect(c)).Some? && c < |w.conts| && w.conts[c].answer == Some(Inner(s))
    ensures var v, target := Step(w, Collect(c)).value, w.conts[c].target;
            && IsSet(w, s) && IsSet(v, target) && v.states[target].cell.outcome == w.states[s].cell.outcome
  {
  }

  /** What is recorded of a function's answer, and the links of its continuation, never change. */
  lemma {:induction false} AnswerStays(events: seq<Event>, n: nat, c: nat)
    requires n <= |events| && Run(events).Some?
    ensures Run(events[..n]).Some?
    ensures var before, after := Run(events[..n]).value, Run(events).value;
            c < |before.conts| ==>
              && c < |after.conts| && after.conts[c].target == before.conts[c].target
              && (before.conts[c].answer.Some? ==> after.conts[c].answer == before.conts[c].answer)
  {
    hide Step, Inv;
    if n == |events| {
      assert events[..n] == events;
    } else {
      var k := |events| - 1;
      AnswerStays(events[..k], n, c);
      assert events[..k][..n] == events[..n];
      RunInv(events[..k]);
      if c < |Run(events[..n]).value.conts| { StepKeepsAnswer(Run(events[..k]).value, events[k], c); }
    }
  }

  lemma StepKeepsAnswer(w: World, e: Event, c: nat)
    requires Inv(w) && Step(w, e).Some? && c < |w.conts|
    ensures var v := Step(w, e).value;
            && c < |v.conts| && v.conts[c].target == w.conts[c].target
            && (w.conts[c].answer.Some? ==> v.conts[c].answer == w.conts[c].answer)
  {
    assert ContinuationOk(w, c);
  }

  /** Nothing gets stuck: user code can always use what it holds, a continuation that is due can begin, its function
      can end with any answer, and its promise is resolved as soon as the inner future is ready. */
  lemma Unstuck(events: seq<Event>)
    requires Run(events).Some?
    ensures var w := Run(events).value;
            && Step(w, NewPromise).Some?
            && (forall s | 0 <= s < |w.states| ::
                  && (w.states[s].future == Untaken ==> Step(w, TakeFuture(s)).Some?)
                  && (w.states[s].promise == UserPromise ==>
                        Step(w, Destroy(s)).Some? && forall o :: Step(w, Resolve(s, o)).Some?)
                  && (w.states[s].future == UserFuture ==>
                        Step(w, Then(s)).Some? && (Step(w, TakeValue(s)).Some? <==> IsSet(w, s))))
            && (forall c | 0 <= c < |w.conts| ::
                  && (w.conts[c].phase == Due ==> Step(w, Begin(c)).Some?)
                  && (w.conts[c].phase == Running ==>
                        forall a: Answer :: !a.Inner? || FutureIn(w, a.s) ==> Step(w, End(c, a)).Some?)
                  && (w.conts[c].phase == Waiting ==>
                        w.conts[c].answer.Some? && w.conts[c].answer.value.Inner?
                        && (Step(w, Collect(c)).Some? <==> IsSet(w, w.conts[c].answer.value.s))))
  {
    hide SetState, Attach, Finish;
    var w := Run(events).value;
    RunInv(events);
    forall c | 0 <= c < |w.conts|
      ensures w.conts[c].source < |w.states| && w.conts[c].target < |w.states|
      ensures w.conts[c].phase == Waiting ==> w.conts[c].answer.Some? && w.conts[c].answer.value.Inner?
      ensures forall a :: Finish(w, c, a).Some? <==> Expected(w, a).Some?
    {
      assert ContinuationOk(w, c);
      FinishWhenReady(w, c);
    }
  }

  predicate FutureIn(w: World, s: nat) { s < |w.states| && w.states[s].future == UserFuture }

  lemma FinishWhenReady(w: World, c: nat)
    requires c < |w.conts| && w.conts[c].target < |w.states|
    ensures forall a :: Finish(w, c, a).Some? <==> Expected(w, a).Some?
  {
  }

  /** Where futures come from: the promise gives its future to user code once, a then gives user code the future of
      the new state, and a function that begins is given the future it was attached to. */
  lemma FuturesGiven(events: seq<Event>, e: Event)
    requires Run(events).Some? && Step(Run(events).value, e).Some?
    ensures var w, v := Run(events).value, Step(Run(events).value, e).value;
            && (e.TakeFuture? ==> FutureIn(v, e.s))
            && (e.Then? ==> FutureIn(v, |w.states|) && !FutureIn(v, e.s))
            && (e.TakeValue? ==> !FutureIn(v, e.s))
            && (e.NewPromise? ==> |v.states| == |w.states| + 1 && v.states[|w.states|].promise == UserPromise
                                  && v.states[|w.states|].future == Untaken && !IsSet(v, |w.states|))
            && (e.Begin? ==> e.c < |w.conts| && FutureIn(v, w.conts[e.c].source) && IsSet(v, w.conts[e.c].source))
            && (e.End? && e.answer.Inner? ==> FutureIn(w, e.answer.s) && !FutureIn(v, e.answer.s))
  {
    RunInv(events);
    if e.Begin? { assert ContinuationOk(Run(events).value, e.c); }
  }

  /** A continuation stays attached between the state that then was called on and the state made for it, so the
      guarantees above are about that future for the rest of the run. */
  lemma {:induction false} ThenStays(events: seq<Event>, n: nat)
    requires n < |events| && Run(events).Some? && events[n].Then?
    ensures Run(events[..n]).Some?
    ensures var before, after := Run(events[..n]).value, Run(events).value;
            && |before.conts| < |after.conts|
            && after.conts[|before.conts|].source == events[n].s
            && after.conts[|before.conts|].target == |before.states|
  {
    var k := |events| - 1;
    var last := Run(events[..k]).value;
    if n == k {
      assert events[..n] == events[..k];
    } else {
      ThenStays(events[..k], n);
      assert events[..k][..n] == events[..n];
      StepKeepsLinks(last, events[k]);
    }
  }

  lemma StepKeepsLinks(w: World, e: Event)
    requires Step(w, e).Some?
    ensures var v := Step(w, e).value;
            && |w.conts| <= |v.conts|
            && forall c | 0 <= c < |w.conts| ::
                 v.conts[c].source == w.conts[c].source && v.conts[c].target == w.conts[c].target
  {
  }

  lemma {:induction false} BegunAtMostOnce(events: seq<Event>, c: nat)
    requires Run(events).Some?
    ensures BeginCount(events, c) == if c < |Run(events).value.conts| then Run(events).value.conts[c].runs else 0
    ensures BeginCount(events, c) <= 1
  {
    if events != [] {
      var before, e := events[..|events| - 1], events[|events| - 1];
      BegunAtMostOnce(before, c);
      StepRuns(Run(before).value, e, c);
    }
    RunInv(events);
    if c < |Run(events).value.conts| { assert ContinuationOk(Run(events).value, c); }
  }

  lemma StepRuns(w: World, e: Event, c: nat)
    requires Step(w, e).Some?
    ensures var v := Step(w, e).value;
            |w.conts| <= |v.conts|
            && (if c < |v.conts| then v.conts[c].runs else 0)
               == (if c < |w.conts| then w.conts[c].runs else 0) + if e == Begin(c) then 1 else 0
  {
  }

  /** When user code has resolved or destroyed all its promises and every continuation that became due is done,
      no future is left waiting. */
  lemma {:induction false} AllResolved(w: World, s: nat)
    requires Inv(w) && s < |w.states|
    requires forall i | 0 <= i < |w.states| :: w.states[i].promise != UserPromise
    requires forall c | 0 <= c < |w.conts| :: w.conts[c].phase in {Stored, Done}
    ensures w.states[s].cell.outcome.Some?
  {
    assert StateOk(w, s);
    if w.states[s].promise.PromiseOf? {
      var c := w.states[s].promise.c;
      assert ContinuationOk(w, c);
      AllResolved(w, w.conts[c].source);
      if w.conts[c].phase == Stored { assert StateOk(w, w.conts[c].source); }
    }
  }
}
