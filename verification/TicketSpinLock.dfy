/** A ticket lock whose two counters wrap around, under every interleaving of its atomic steps. */
module TicketSpinLock {
  import opened Powers

  type Thread = nat

  /** Where a thread is: waiting with a ticket, inside, or between the two halves of unlocking. */
  datatype Pc = Outside | Waiting(ticket: nat) | Inside | Unlocking(loaded: nat)

  /** The two counters and the threads, with the history: the arrivals in fetch-add order, the place of
      each thread's latest arrival, and how many have entered and left. */
  datatype State = State(next: nat, active: nat, pcs: map<Thread, Pc>,
                         arrivals: seq<Thread>, place: map<Thread, nat>, entered: nat, left: nat)

  datatype Event =
    | FetchAdd(t: Thread)
    | Load(t: Thread)
    | UnlockLoad(t: Thread)
    | UnlockStore(t: Thread)

  /** The value of a counter after i increments from zero. */
  function Wrap(i: nat, m: nat): (r: nat)
    requires m > 0
    ensures r < m
  {
    i % m
  }

  function Init(threads: set<Thread>): State {
    State(0, 0, map t | t in threads :: Outside, [], map[], 0, 0)
  }

  predicate Enabled(s: State, e: Event) {
    && e.t in s.pcs
    && match e
       case FetchAdd(t) => s.pcs[t].Outside?
       case Load(t) => s.pcs[t].Waiting?
       case UnlockLoad(t) => s.pcs[t].Inside?
       case UnlockStore(t) => s.pcs[t].Unlocking?
  }

  /** One atomic step of a thread on a lock with m counter values. */
  function Step(s: State, e: Event, m: nat): State
    requires m > 0 && Enabled(s, e)
  {
    match e
    case FetchAdd(t) =>
      s.(next := Wrap(s.next + 1, m), pcs := s.pcs[t := Waiting(s.next)], arrivals := s.arrivals + [t],
         place := s.place[t := |s.arrivals|])
    case Load(t) =>
      if s.pcs[t].ticket == s.active then s.(pcs := s.pcs[t := Inside], entered := s.entered + 1)
      else s
    case UnlockLoad(t) =>
      s.(pcs := s.pcs[t := Unlocking(s.active)])
    case UnlockStore(t) =>
      s.(active := Wrap(s.pcs[t].loaded + 1, m), pcs := s.pcs[t := Outside], left := s.left + 1)
  }

  predicate Legal(s: State, run: seq<Event>, m: nat)
    requires m > 0
    decreases |run|
  {
    |run| == 0 || (Enabled(s, run[0]) && Legal(Step(s, run[0], m), run[1..], m))
  }

  function After(s: State, run: seq<Event>, m: nat): State
    requires m > 0 && Legal(s, run, m)
    decreases |run|
  {
    if |run| == 0 then s else After(Step(s, run[0], m), run[1..], m)
  }

  predicate Holds(s: State, t: Thread) {
    t in s.pcs && (s.pcs[t].Inside? || s.pcs[t].Unlocking?)
  }

  /** Threads are served strictly in the order of their fetch-adds, one at a time. */
  ghost predicate Inv(s: State, m: nat) {
    && m > 0
    && s.left <= s.entered <= s.left + 1
    && s.entered <= |s.arrivals| && s.left <= |s.arrivals|
    && s.next == Wrap(|s.arrivals|, m)
    && s.active == Wrap(s.left, m)
    && (forall i :: s.entered <= i < |s.arrivals| ==> WaitsAt(s, s.arrivals[i], i))
    && (forall t :: t in s.pcs && s.pcs[t].Waiting? ==>
          && t in s.place && s.entered <= s.place[t] < |s.arrivals| && s.arrivals[s.place[t]] == t
          && s.pcs[t].ticket == Wrap(s.place[t], m))
    && (forall t :: Holds(s, t) ==> s.entered == s.left + 1 && t == s.arrivals[s.left])
    && (s.entered == s.left + 1 ==> Holds(s, s.arrivals[s.left]))
    && (forall t :: t in s.pcs && s.pcs[t].Unlocking? ==> s.pcs[t].loaded == s.active)
  }

  predicate WaitsAt(s: State, t: Thread, i: nat) {
    t in s.pcs && s.pcs[t].Waiting? && t in s.place && s.place[t] == i
  }

  lemma InitInv(threads: set<Thread>, m: nat)
    requires m > 0
    ensures Inv(Init(threads), m)
  {
    ModSmall(0, m);
  }

  lemma {:induction false} DistinctBound(s: seq<Thread>, keys: set<Thread>)
    requires forall i :: 0 <= i < |s| ==> s[i] in keys
    requires forall i, j :: 0 <= i < j < |s| ==> s[i] != s[j]
    ensures |s| <= |keys|
  {
    if |s| > 0 {
      var k := |s| - 1;
      DistinctBound(s[..k], keys - {s[k]});
    }
  }

  /** Threads between arrival and departure are distinct, so they are no more than the threads. */
  lemma PendingBound(s: State, m: nat)
    requires Inv(s, m)
    ensures |s.arrivals| - s.left <= |s.pcs.Keys|
  {
    var p := s.arrivals[s.left..];
    forall i | 0 <= i < |p|
      ensures p[i] in s.pcs.Keys && (s.left + i >= s.entered ==> WaitsAt(s, p[i], s.left + i))
              && (s.left + i < s.entered ==> Holds(s, p[i]))
    {
      assert p[i] == s.arrivals[s.left + i];
    }
    DistinctBound(p, s.pcs.Keys);
  }

  lemma SameResidue(a: nat, b: nat, m: nat)
    requires m > 0 && a <= b < a + m && Wrap(a, m) == Wrap(b, m)
    ensures a == b
  {
    var q := b / m - a / m;
    assert b - a == m * q;
    if q >= 1 { MulMonotone(1, q, m); }
    if q <= -1 { MulMonotone(q, -1, m); }
  }

  lemma NextResidue(a: nat, m: nat)
    requires m > 0
    ensures Wrap(Wrap(a, m) + 1, m) == Wrap(a + 1, m)
  {
    ModAddMultiple(a % m + 1, m, a / m);
    assert a == m * (a / m) + a % m;
  }

  /** Each step keeps the service order, provided there are no more threads than counter values. */
  lemma StepInv(s: State, e: Event, m: nat)
    requires Inv(s, m) && |s.pcs.Keys| <= m && Enabled(s, e)
    ensures Inv(Step(s, e, m), m)
    ensures Step(s, e, m).pcs.Keys == s.pcs.Keys
  {
    hide Wrap;
    match e
    case FetchAdd(t) => FetchAddInv(s, t, m);
    case Load(t) => LoadInv(s, t, m);
    case UnlockLoad(t) => UnlockLoadInv(s, t, m);
    case UnlockStore(t) => UnlockStoreInv(s, t, m);
  }

  lemma FetchAddInv(s: State, t: Thread, m: nat)
    requires Inv(s, m) && Enabled(s, FetchAdd(t))
    ensures Inv(Step(s, FetchAdd(t), m), m)
  {
    hide Wrap;
    var s' := Step(s, FetchAdd(t), m);
    NextResidue(|s.arrivals|, m);
    assert forall u :: u != t ==> (Holds(s', u) <==> Holds(s, u));
    forall i | s'.entered <= i < |s'.arrivals|
      ensures WaitsAt(s', s'.arrivals[i], i)
    {
      if i < |s.arrivals| { assert WaitsAt(s, s.arrivals[i], i); }
    }
  }

  lemma LoadInv(s: State, t: Thread, m: nat)
    requires Inv(s, m) && |s.pcs.Keys| <= m && Enabled(s, Load(t))
    ensures Inv(Step(s, Load(t), m), m)
  {
    hide Wrap;
    if s.pcs[t].ticket == s.active {
      var s' := Step(s, Load(t), m);
      EnterInOrder(s, m, t);
      assert forall u :: u != t ==> (Holds(s', u) <==> Holds(s, u));
      forall i | s'.entered <= i < |s'.arrivals|
        ensures WaitsAt(s', s'.arrivals[i], i)
      {
        assert WaitsAt(s, s.arrivals[i], i);
      }
      assert WaitsAt(s, t, s.left);
    }
  }

  lemma UnlockLoadInv(s: State, t: Thread, m: nat)
    requires Inv(s, m) && Enabled(s, UnlockLoad(t))
    ensures Inv(Step(s, UnlockLoad(t), m), m)
  {
    hide Wrap;
    var s' := Step(s, UnlockLoad(t), m);
    assert Holds(s, t);
    assert forall u :: Holds(s', u) <==> Holds(s, u);
    forall i | s'.entered <= i < |s'.arrivals|
      ensures WaitsAt(s', s'.arrivals[i], i)
    {
      assert WaitsAt(s, s.arrivals[i], i);
    }
  }

  lemma UnlockStoreInv(s: State, t: Thread, m: nat)
    requires Inv(s, m) && Enabled(s, UnlockStore(t))
    ensures Inv(Step(s, UnlockStore(t), m), m)
  {
    hide Wrap;
    var s' := Step(s, UnlockStore(t), m);
    NextResidue(s.left, m);
    assert Holds(s, t);
    forall u | u in s.pcs && s.pcs[u].Unlocking?
      ensures u == t
    {
      assert Holds(s, u);
    }
    assert forall u :: u != t ==> (Holds(s', u) <==> Holds(s, u));
    forall i | s'.entered <= i < |s'.arrivals|
      ensures WaitsAt(s', s'.arrivals[i], i)
    {
      assert WaitsAt(s, s.arrivals[i], i);
    }
  }

  /** The thread that sees its own ticket is the longest waiting one, and nobody is inside. */
  lemma EnterInOrder(s: State, m: nat, t: Thread)
    requires Inv(s, m) && |s.pcs.Keys| <= m
    requires t in s.pcs && s.pcs[t].Waiting? && s.pcs[t].ticket == s.active
    ensures s.entered == s.left == s.place[t]
    ensures forall u :: !Holds(s, u)
  {
    PendingBound(s, m);
    SameResidue(s.left, s.place[t], m);
  }

  /** A load lets the thread in exactly when nobody is inside and it is the earliest arrival that has not left. */
  lemma LoadAdmits(s: State, m: nat, t: Thread)
    requires Inv(s, m) && |s.pcs.Keys| <= m && Enabled(s, Load(t))
    ensures Holds(Step(s, Load(t), m), t) <==>
            s.entered == s.left < |s.arrivals| && s.arrivals[s.left] == t
    ensures !Holds(Step(s, Load(t), m), t) ==> Step(s, Load(t), m) == s
  {
    if s.pcs[t].ticket == s.active { EnterInOrder(s, m, t); }
    if s.entered == s.left < |s.arrivals| && s.arrivals[s.left] == t { assert WaitsAt(s, t, s.left); }
  }

  lemma {:induction false} RunInv(s: State, run: seq<Event>, m: nat)
    requires Inv(s, m) && |s.pcs.Keys| <= m && Legal(s, run, m)
    ensures Inv(After(s, run, m), m) && After(s, run, m).pcs.Keys == s.pcs.Keys
    decreases |run|
  {
    if |run| > 0 {
      StepInv(s, run[0], m);
      RunInv(Step(s, run[0], m), run[1..], m);
    }
  }

  /** In every run at most one thread is in the critical section, and it is the one that fetched the
      earliest ticket among those that have not left. */
  lemma MutualExclusion(threads: set<Thread>, run: seq<Event>, m: nat, t: Thread, u: Thread)
    requires 0 < m && |threads| <= m && Legal(Init(threads), run, m)
    requires Holds(After(Init(threads), run, m), t) && Holds(After(Init(threads), run, m), u)
    ensures t == u
    ensures var s := After(Init(threads), run, m); s.left < |s.arrivals| && t == s.arrivals[s.left]
  {
    InitInv(threads, m);
    assert Init(threads).pcs.Keys == threads;
    RunInv(Init(threads), run, m);
  }

  /** The threads of the fetch-adds of a run, in order. */
  function FetchAdds(run: seq<Event>): seq<Thread> {
    if run == [] then [] else (if run[0].FetchAdd? then [run[0].t] else []) + FetchAdds(run[1..])
  }

  /** The threads that get in during a run, in order. */
  function Admitted(s: State, run: seq<Event>, m: nat): seq<Thread>
    requires m > 0 && Legal(s, run, m)
    decreases |run|
  {
    if run == [] then []
    else (if !Holds(s, run[0].t) && Holds(Step(s, run[0], m), run[0].t) then [run[0].t] else [])
         + Admitted(Step(s, run[0], m), run[1..], m)
  }

  lemma {:induction false} ArrivalsGrow(s: State, run: seq<Event>, m: nat)
    requires m > 0 && Legal(s, run, m)
    ensures After(s, run, m).arrivals == s.arrivals + FetchAdds(run)
    decreases |run|
  {
    if run != [] { ArrivalsGrow(Step(s, run[0], m), run[1..], m); }
  }

  lemma {:induction false} AdmittedGrow(s: State, run: seq<Event>, m: nat)
    requires Inv(s, m) && |s.pcs.Keys| <= m && Legal(s, run, m)
    ensures var s' := After(s, run, m);
            s.entered <= s'.entered <= |s'.arrivals| && s'.arrivals[s.entered..s'.entered] == Admitted(s, run, m)
    decreases |run|
  {
    hide Step, Inv;
    EnteredBelow(s, m);
    if run != [] {
      var e, next := run[0], Step(s, run[0], m);
      StepInv(s, e, m);
      StepAdmits(s, e, m);
      AdmittedGrow(next, run[1..], m);
      ArrivalsGrow(next, run[1..], m);
      var last := After(s, run, m).arrivals;
      assert last[s.entered..next.entered] == next.arrivals[s.entered..next.entered];
    }
  }

  lemma EnteredBelow(s: State, m: nat)
    requires Inv(s, m)
    ensures s.entered <= |s.arrivals|
  {
  }

  lemma StepAdmits(s: State, e: Event, m: nat)
    requires Inv(s, m) && |s.pcs.Keys| <= m && Enabled(s, e)
    ensures var next := Step(s, e, m);
            && s.entered <= next.entered <= |next.arrivals|
            && next.arrivals[s.entered..next.entered] == if !Holds(s, e.t) && Holds(next, e.t) then [e.t] else []
  {
    hide Wrap;
    if e.Load? {
      LoadAdmits(s, m, e.t);
      if s.pcs[e.t].ticket == s.active { EnterInOrder(s, m, e.t); }
    }
  }

  /** In every run the threads that got in are the first ones that fetched a ticket, in the order of their
      fetch-adds. */
  lemma ServedInOrder(threads: set<Thread>, run: seq<Event>, m: nat)
    requires 0 < m && |threads| <= m && Legal(Init(threads), run, m)
    ensures Admitted(Init(threads), run, m) <= FetchAdds(run)
  {
    hide Inv, Step, Legal, Admitted, FetchAdds, After, Wrap;
    InitInv(threads, m);
    assert Init(threads).pcs.Keys == threads;
    AdmittedGrow(Init(threads), run, m);
    ArrivalsGrow(Init(threads), run, m);
  }

  /** In every run, a thread that loads gets in when and only when nobody is inside and all threads that fetched
      a ticket before it have been in. */
  lemma TurnComes(threads: set<Thread>, run: seq<Event>, m: nat, t: Thread)
    requires 0 < m && |threads| <= m && Legal(Init(threads), run + [Load(t)], m)
    ensures Legal(Init(threads), run, m)
    ensures Holds(After(Init(threads), run + [Load(t)], m), t) <==>
            var served := |Admitted(Init(threads), run, m)|;
            && (forall u :: !Holds(After(Init(threads), run, m), u))
            && served < |FetchAdds(run)| && FetchAdds(run)[served] == t
  {
    hide Inv, Admitted, FetchAdds, Wrap;
    LegalPrefix(Init(threads), run, [Load(t)], m);
    InitInv(threads, m);
    assert Init(threads).pcs.Keys == threads;
    RunInv(Init(threads), run, m);
    AdmittedGrow(Init(threads), run, m);
    ArrivalsGrow(Init(threads), run, m);
    var s := After(Init(threads), run, m);
    LoadAdmits(s, m, t);
    NobodyInside(s, m);
  }

  lemma NobodyInside(s: State, m: nat)
    requires Inv(s, m)
    ensures s.entered == s.left <==> forall u :: !Holds(s, u)
  {
  }

  lemma {:induction false} LegalPrefix(s: State, a: seq<Event>, b: seq<Event>, m: nat)
    requires m > 0 && Legal(s, a + b, m)
    ensures Legal(s, a, m) && Legal(After(s, a, m), b, m) && After(s, a + b, m) == After(After(s, a, m), b, m)
    decreases |a|
  {
    if a == [] {
      assert a + b == b;
    } else {
      assert (a + b)[1..] == a[1..] + b && (a + b)[0] == a[0];
      LegalPrefix(Step(s, a[0], m), a[1..], b, m);
    }
  }

  /** With fewer threads than counter values, next - active counts the threads waiting or inside. */
  lemma Occupancy(threads: set<Thread>, run: seq<Event>, m: nat)
    requires 0 < m && |threads| < m && Legal(Init(threads), run, m)
    ensures var s := After(Init(threads), run, m);
            && s.left <= |s.arrivals|
            && (s.next - s.active) % m == |s.arrivals| - s.left
            && (forall t :: t in s.pcs && !s.pcs[t].Outside? <==> t in s.arrivals[s.left..])
  {
    InitInv(threads, m);
    assert Init(threads).pcs.Keys == threads;
    RunInv(Init(threads), run, m);
    var s := After(Init(threads), run, m);
    PendingBound(s, m);
    DifferenceResidue(|s.arrivals|, s.left, m);
    forall t
      ensures t in s.pcs && !s.pcs[t].Outside? <==> t in s.arrivals[s.left..]
    {
      Pending(s, m, t);
    }
  }

  lemma Pending(s: State, m: nat, t: Thread)
    requires Inv(s, m)
    ensures t in s.pcs && !s.pcs[t].Outside? <==> t in s.arrivals[s.left..]
  {
    var p := s.arrivals[s.left..];
    if t in s.pcs && s.pcs[t].Waiting? {
      assert p[s.place[t] - s.left] == t;
    } else if Holds(s, t) {
      assert p[0] == t;
    }
    if t in p {
      var k :| 0 <= k < |p| && p[k] == t;
      assert s.arrivals[s.left + k] == t;
    }
  }

  lemma DifferenceResidue(a: nat, b: nat, m: nat)
    requires m > 0 && b <= a < b + m
    ensures (a % m - b % m) % m == a - b
  {
    assert a == m * (a / m) + a % m && b == m * (b / m) + b % m;
    var q := b / m - a / m;
    assert a % m - b % m == (a - b) + m * q;
    ModEqual(a % m - b % m, a - b, m, q);
    ModSmall(a - b, m);
  }

  /** The fetch-adds of some threads, one after the other. */
  function Arrivals(ts: seq<Thread>): (run: seq<Event>)
    ensures |run| == |ts|
  {
    if ts == [] then [] else Arrivals(ts[..|ts| - 1]) + [FetchAdd(ts[|ts| - 1])]
  }

  predicate Distinct(ts: seq<Thread>) { forall i, j :: 0 <= i < j < |ts| ==> ts[i] != ts[j] }

  lemma {:induction false} LegalConcat(s: State, a: seq<Event>, b: seq<Event>, m: nat)
    requires m > 0 && Legal(s, a, m) && Legal(After(s, a, m), b, m)
    ensures Legal(s, a + b, m) && After(s, a + b, m) == After(After(s, a, m), b, m)
    decreases |a|
  {
    if |a| == 0 {
      assert a + b == b;
    } else {
      assert (a + b)[1..] == a[1..] + b;
      LegalConcat(Step(s, a[0], m), a[1..], b, m);
    }
  }

  /** After the arrivals every one of the threads waits with the ticket of its place. */
  ghost predicate AllWait(s: State, ts: seq<Thread>, m: nat) {
    && m > 0 && s.active == 0 && s.next == Wrap(|ts|, m)
    && (forall i :: 0 <= i < |ts| ==> ts[i] in s.pcs && s.pcs[ts[i]] == Waiting(Wrap(i, m)))
    && (forall t :: t in s.pcs && t !in ts ==> s.pcs[t].Outside?)
  }

  lemma {:induction false} AllArrive(threads: set<Thread>, ts: seq<Thread>, m: nat)
    requires m > 0 && Distinct(ts) && forall t :: t in ts ==> t in threads
    ensures Legal(Init(threads), Arrivals(ts), m)
    ensures var s := After(Init(threads), Arrivals(ts), m); s.pcs.Keys == threads && AllWait(s, ts, m)
  {
    if ts == [] {
      ModSmall(0, m);
    } else {
      hide Init, Wrap;
      var k := |ts| - 1;
      AllArrive(threads, ts[..k], m);
      var s := After(Init(threads), Arrivals(ts[..k]), m);
      OneArrives(s, ts, m);
      LegalConcat(Init(threads), Arrivals(ts[..k]), [FetchAdd(ts[k])], m);
    }
  }

  lemma OneArrives(s: State, ts: seq<Thread>, m: nat)
    requires m > 0 && ts != [] && Distinct(ts) && AllWait(s, ts[..|ts| - 1], m)
    requires ts[|ts| - 1] in s.pcs
    ensures Legal(s, [FetchAdd(ts[|ts| - 1])], m)
    ensures var s' := After(s, [FetchAdd(ts[|ts| - 1])], m); s'.pcs.Keys == s.pcs.Keys && AllWait(s', ts, m)
  {
    hide Wrap;
    var k := |ts| - 1;
    var e := FetchAdd(ts[k]);
    assert ts[k] !in ts[..k];
    assert [e][1..] == [] && Legal(Step(s, e, m), [], m);
    NextResidue(k, m);
    var s' := Step(s, e, m);
    assert After(s, [e], m) == s';
    forall i | 0 <= i < |ts|
      ensures ts[i] in s'.pcs && s'.pcs[ts[i]] == Waiting(Wrap(i, m))
    {
      if i < k { assert ts[..k][i] == ts[i]; }
    }
    assert forall t :: t in ts[..k] ==> t in ts;
  }

  /** Any n of the threads, in some order. */
  lemma {:induction false} PickThreads(threads: set<Thread>, n: nat) returns (ts: seq<Thread>)
    requires n <= |threads|
    ensures |ts| == n && Distinct(ts) && forall t :: t in ts ==> t in threads
  {
    if n == 0 {
      ts := [];
    } else {
      var t :| t in threads;
      var rest := PickThreads(threads - {t}, n - 1);
      ts := rest + [t];
      assert forall i :: 0 <= i < n - 1 ==> rest[i] in rest && ts[i] == rest[i];
    }
  }

  /** With more threads than counter values two of them can be inside at once. */
  lemma TooManyThreads(threads: set<Thread>, m: nat) returns (run: seq<Event>, t: Thread, u: Thread)
    requires 0 < m < |threads|
    ensures Legal(Init(threads), run, m) && t != u
    ensures Holds(After(Init(threads), run, m), t) && Holds(After(Init(threads), run, m), u)
  {
    hide Init;
    var ts := PickThreads(threads, m + 1);
    t, u := ts[0], ts[m];
    AllArrive(threads, ts, m);
    BothEnter(After(Init(threads), Arrivals(ts), m), t, u, m);
    run := Arrivals(ts) + [Load(t), Load(u)];
    LegalConcat(Init(threads), Arrivals(ts), [Load(t), Load(u)], m);
  }

  lemma BothEnter(s: State, t: Thread, u: Thread, m: nat)
    requires m > 0 && s.active == 0 && t in s.pcs && u in s.pcs && t != u
    requires s.pcs[t] == Waiting(Wrap(0, m)) && s.pcs[u] == Waiting(Wrap(m, m))
    ensures Legal(s, [Load(t), Load(u)], m)
    ensures var s' := After(s, [Load(t), Load(u)], m); Holds(s', t) && Holds(s', u)
  {
    ModSmall(0, m);
    ModAddMultiple(0, m, 1);
    var s1 := Step(s, Load(t), m);
    var s2 := Step(s1, Load(u), m);
    assert [Load(t), Load(u)][1..] == [Load(u)];
    assert [Load(u)][1..] == [];
    assert Legal(s2, [], m) && After(s2, [], m) == s2;
    assert Legal(s1, [Load(u)], m) && After(s1, [Load(u)], m) == s2;
  }

  /** No run lets two threads inside. */
  ghost predicate AlwaysExclusive(threads: set<Thread>, m: nat)
    requires m > 0
  {
    forall run, t, u ::
      Legal(Init(threads), run, m) && Holds(After(Init(threads), run, m), t) && Holds(After(Init(threads), run, m), u)
      ==> t == u
  }

  /** The bound on the number of threads is exact. */
  lemma ExclusiveExactly(threads: set<Thread>, m: nat)
    requires m > 0
    ensures AlwaysExclusive(threads, m) <==> |threads| <= m
  {
    if |threads| <= m {
      forall run, t, u |
        Legal(Init(threads), run, m) && Holds(After(Init(threads), run, m), t) && Holds(After(Init(threads), run, m), u)
        ensures t == u
      {
        MutualExclusion(threads, run, m, t, u);
      }
    } else {
      var run, t, u := TooManyThreads(threads, m);
    }
  }

  /** The lock object; history is the abstract state that its atomic accesses follow.  lock() is
      TakeTicket followed by Poll until it succeeds, unlock() is ReadActive followed by StoreActive. */
  class TicketSpinLock {
    const counters: nat
    var active: nat
    var next: nat
    ghost var history: State

    ghost predicate Valid()
      reads this
    {
      && counters > 0
      && |history.pcs.Keys| <= counters
      && Inv(history, counters)
      && next == history.next && active == history.active
    }

    constructor (counters: nat, ghost threads: set<Thread>)
      requires 0 < counters && |threads| <= counters
      ensures Valid() && this.counters == counters && history == Init(threads)
    {
      this.counters := counters;
      active, next := 0, 0;
      history := Init(threads);
      InitInv(threads, counters);
      assert Init(threads).pcs.Keys == threads;
    }

    method TakeTicket(ghost t: Thread) returns (ticket: nat)
      requires Valid() && t in history.pcs && history.pcs[t].Outside?
      modifies this
      ensures Valid() && history == Step(old(history), FetchAdd(t), counters)
      ensures history.pcs[t] == Waiting(ticket)
    {
      StepInv(history, FetchAdd(t), counters);
      ticket := next;
      next := Wrap(next + 1, counters);
      history := Step(history, FetchAdd(t), counters);
    }

    method Poll(ghost t: Thread, ticket: nat) returns (acquired: bool)
      requires Valid() && t in history.pcs && history.pcs[t] == Waiting(ticket)
      modifies `history
      ensures Valid() && history == Step(old(history), Load(t), counters)
      ensures acquired <==> Holds(history, t)
      ensures acquired <==>
              && old(history).entered == old(history).left < |old(history).arrivals|
              && old(history).arrivals[old(history).left] == t
      ensures acquired ==> forall u :: Holds(history, u) ==> u == t
    {
      StepInv(history, Load(t), counters);
      LoadAdmits(history, counters, t);
      acquired := ticket == active;
      history := Step(history, Load(t), counters);
    }

    method ReadActive(ghost t: Thread) returns (loaded: nat)
      requires Valid() && t in history.pcs && history.pcs[t].Inside?
      modifies `history
      ensures Valid() && history == Step(old(history), UnlockLoad(t), counters)
      ensures history.pcs[t] == Unlocking(loaded)
    {
      StepInv(history, UnlockLoad(t), counters);
      loaded := active;
      history := Step(history, UnlockLoad(t), counters);
    }

    method StoreActive(ghost t: Thread, loaded: nat)
      requires Valid() && t in history.pcs && history.pcs[t] == Unlocking(loaded)
      modifies this
      ensures Valid() && history == Step(old(history), UnlockStore(t), counters)
      ensures history.pcs[t].Outside? && active == Wrap(old(active) + 1, counters)
    {
      StepInv(history, UnlockStore(t), counters);
      active := Wrap(loaded + 1, counters);
      history := Step(history, UnlockStore(t), counters);
    }
  }
}
