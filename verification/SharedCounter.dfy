/** The thread counter in its four synchronised builds, as one step relation over the worker threads, the
    main thread, the counter and the lock. The number of workers, which is also the value main waits for,
    is any number below 2^32. Locks follow `pthread_mutex_lock`, `pthread_rwlock_rdlock`,
    `pthread_rwlock_wrlock`, `pthread_cond_wait` and `pthread_cond_signal` of POSIX.1-2017. */
module SharedCounter {

  type uint32 = x: int | 0 <= x < 0x1_0000_0000

  datatype Variant = Atomic | Mutex | Cond | RwLock

  datatype Agent = MainThread | Worker(id: nat)

  datatype Writer = NoWriter | WriterIs(agent: Agent)

  /** `thread`. Ready: before the lock (or the atomic add). The increment is a load and a store. */
  datatype WorkerPc = Unborn | Ready | Loading | Storing(loaded: uint32) | Signalling | Unlocking | Finished

  /** `threads_init` and the waiting loop of `main`. */
  datatype MainPc =
    | Spawning(next: nat)
    | Locking | Sampling | Releasing(seen: uint32) | Testing(seen: uint32)
    | Waiting | Blocked | Woken
    | Printing | Done

  /** `samples` is a history variable: every value of the counter that main has read. */
  datatype State = State(
    val: uint32, writer: Writer, readers: set<Agent>,
    workers: seq<WorkerPc>, main: MainPc, samples: seq<uint32>)

  type Count = n: nat | n < 0x1_0000_0000

  function Initial(n: Count): State {
    State(0, NoWriter, {}, seq(n, _ => Unborn), Spawning(0), [])
  }

  datatype Choice = MainStep | WorkerStep(w: nat) | SpuriousWakeup

  predicate LockFree(s: State) {
    s.writer.NoWriter? && s.readers == {}
  }

  predicate Enabled(v: Variant, s: State, c: Choice) {
    match c
    case MainStep =>
      (match s.main
       case Locking => if v.RwLock? then s.writer.NoWriter? else LockFree(s)
       case Woken => LockFree(s)
       case Blocked => false
       case Done => false
       case _ => true)
    case WorkerStep(w) =>
      w < |s.workers| &&
      (match s.workers[w]
       case Unborn => false
       case Finished => false
       case Ready => v.Atomic? || LockFree(s)
       case _ => true)
    case SpuriousWakeup => s.main.Blocked?
  }

  function Increment(x: uint32): uint32 {
    (x + 1) % 0x1_0000_0000
  }

  function Next(v: Variant, s: State, c: Choice): State
    requires Enabled(v, s, c)
  {
    match c
    case MainStep => NextMain(v, s)
    case WorkerStep(w) => NextWorker(v, s, w)
    case SpuriousWakeup => s.(main := Woken)
  }

  function NextWorker(v: Variant, s: State, w: nat): State
    requires w < |s.workers|
  {
    match s.workers[w]
    case Ready =>
      if v.Atomic? then s.(val := Increment(s.val), workers := s.workers[w := Finished])
      else s.(writer := WriterIs(Worker(w)), workers := s.workers[w := Loading])
    case Loading => s.(workers := s.workers[w := Storing(s.val)])
    case Storing(loaded) =>
      s.(val := Increment(loaded), workers := s.workers[w := if v.Cond? then Signalling else Unlocking])
    case Signalling =>
      s.(main := if s.main.Blocked? then Woken else s.main, workers := s.workers[w := Unlocking])
    case Unlocking => s.(writer := NoWriter, workers := s.workers[w := Finished])
    case _ => s
  }

  function NextMain(v: Variant, s: State): State {
    var n := |s.workers|;
    match s.main
    case Spawning(next) =>
      if next < n then s.(workers := s.workers[next := Ready], main := Spawning(next + 1))
      else s.(main := if v.Atomic? then Sampling else Locking)
    case Locking =>
      if v.RwLock? then s.(readers := s.readers + {MainThread}, main := Sampling)
      else s.(writer := WriterIs(MainThread), main := Sampling)
    case Sampling =>
      s.(samples := s.samples + [s.val],
         main := if v.Atomic? || v.Cond? then Testing(s.val) else Releasing(s.val))
    case Releasing(seen) =>
      var t := s.(main := if v.Cond? then Printing else Testing(seen));
      if v.RwLock? then t.(readers := s.readers - {MainThread}) else t.(writer := NoWriter)
    case Testing(seen) =>
      s.(main := if seen < n
                 then (match v case Atomic => Sampling case Cond => Waiting case _ => Locking)
                 else if v.Cond? then Releasing(seen) else Printing)
    case Waiting => s.(writer := NoWriter, main := Blocked)
    case Woken => s.(writer := WriterIs(MainThread), main := Sampling)
    case Printing => s.(main := Done)
    case _ => s
  }

  datatype Outcome = Stuck | Reached(s: State)

  /** The state after a schedule, if each of its choices was enabled when it was taken. */
  function Execute(v: Variant, n: Count, schedule: seq<Choice>): (r: Outcome)
    ensures r.Reached? ==> |r.s.workers| == n
  {
    if schedule == [] then Reached(Initial(n))
    else match Execute(v, n, schedule[..|schedule| - 1])
      case Stuck => Stuck
      case Reached(s) => var c := schedule[|schedule| - 1]; if Enabled(v, s, c) then Reached(Next(v, s, c)) else Stuck
  }

  lemma {:induction false} ExecutePrefix(v: Variant, n: Count, schedule: seq<Choice>, i: nat)
    requires Execute(v, n, schedule).Reached? && i <= |schedule|
    ensures Execute(v, n, schedule[..i]).Reached?
  {
    if i < |schedule| {
      var front := schedule[..|schedule| - 1];
      ExecutePrefix(v, n, front, i);
      assert front[..i] == schedule[..i];
    } else {
      assert schedule[..i] == schedule;
    }
  }

  // ----- The invariant

  /** The worker's increment is in the counter. */
  predicate Counted(pc: WorkerPc) {
    pc.Signalling? || pc.Unlocking? || pc.Finished?
  }

  predicate WorkerHolds(pc: WorkerPc) {
    pc.Loading? || pc.Storing? || pc.Signalling? || pc.Unlocking?
  }

  predicate MainHolds(v: Variant, pc: MainPc) {
    match v
    case Atomic => false
    case Cond => pc.Sampling? || pc.Releasing? || pc.Testing? || pc.Waiting?
    case _ => pc.Sampling? || pc.Releasing?
  }

  function Arrived(workers: seq<WorkerPc>): set<nat> {
    set w: nat | w < |workers| && Counted(workers[w])
  }

  /** A worker holds the lock for writing exactly while it is in its critical section. */
  predicate WorkersAgree(v: Variant, s: State) {
    && (forall w :: 0 <= w < |s.workers| ==> (WorkerHolds(s.workers[w]) <==> s.writer == WriterIs(Worker(w))))
    && (forall w :: 0 <= w < |s.workers| ==> (s.workers[w].Storing? ==> s.workers[w].loaded == s.val))
    && (forall w :: 0 <= w < |s.workers| ==> (s.workers[w].Signalling? ==> v.Cond?))
    && (forall w :: 0 <= w < |s.workers| ==> (s.workers[w].Unborn? <==> s.main.Spawning? && w >= s.main.next))
    && (s.writer.WriterIs? && s.writer.agent.Worker? ==> s.writer.agent.id < |s.workers| && !v.Atomic?)
  }

  predicate MainAgrees(v: Variant, s: State) {
    && (s.writer == WriterIs(MainThread) <==> (v.Mutex? || v.Cond?) && MainHolds(v, s.main))
    && s.readers == (if v.RwLock? && MainHolds(v, s.main) then {MainThread} else {})
    && (s.writer.WriterIs? ==> s.readers == {})
    && (s.main.Spawning? ==> s.main.next <= |s.workers|)
    && (s.main.Locking? ==> !v.Atomic?)
    && (s.main.Waiting? || s.main.Blocked? || s.main.Woken? ==> v.Cond?)
    && (s.main.Releasing? ==> !v.Atomic?)
  }

  /** What main knows about the counter. */
  predicate MainKnows(v: Variant, s: State) {
    var n := |s.workers|;
    && (s.main.Releasing? || s.main.Testing? ==> s.main.seen <= s.val)
    && (v.Cond? && s.main.Testing? ==> s.main.seen == s.val)
    && (v.Cond? && s.main.Releasing? ==> s.main.seen == n)
    && (s.main.Waiting? ==> s.val < n)
    && (s.main.Printing? || s.main.Done? ==> s.val == n)
  }

  /** No wakeup is lost: main sleeps only if some increment, and with it a signal, is still to come, or a
      worker that has incremented is about to signal. */
  predicate SignalToCome(s: State) {
    s.main.Blocked? ==> s.val < |s.workers| || exists w :: 0 <= w < |s.workers| && s.workers[w].Signalling?
  }

  predicate Sorted(xs: seq<uint32>) {
    forall i, j :: 0 <= i < j < |xs| ==> xs[i] <= xs[j]
  }

  predicate SamplesAgree(s: State) {
    && Sorted(s.samples)
    && (forall k :: 0 <= k < |s.samples| ==> s.samples[k] <= s.val)
    && (|s.workers| in s.samples ==>
          s.main.Printing? || s.main.Done? || ((s.main.Releasing? || s.main.Testing?) && s.main.seen == |s.workers|))
  }

  predicate Invariant(v: Variant, s: State) {
    && |s.workers| < 0x1_0000_0000
    && s.val == |Arrived(s.workers)|
    && WorkersAgree(v, s) && MainAgrees(v, s) && MainKnows(v, s) && SignalToCome(s) && SamplesAgree(s)
  }

  // ----- Counting arrivals

  function Upto(n: nat): (r: set<nat>)
    ensures |r| == n && forall w :: w in r <==> 0 <= w < n
  {
    if n == 0 then {} else Upto(n - 1) + {n - 1}
  }

  lemma SubsetCard<T>(a: set<T>, b: set<T>)
    requires a <= b
    ensures |a| <= |b| && (|a| == |b| ==> a == b)
  {
    assert |b| == |a| + |b - a|;
    assert a + (b - a) == b;
    if |a| == |b| {
      assert b - a == {};
    }
  }

  lemma ArrivedAll(workers: seq<WorkerPc>)
    ensures |Arrived(workers)| <= |workers|
    ensures |Arrived(workers)| == |workers| <==> forall w :: 0 <= w < |workers| ==> Counted(workers[w])
  {
    var all := Upto(|workers|);
    SubsetCard(Arrived(workers), all);
    if |Arrived(workers)| == |workers| {
      forall w | 0 <= w < |workers|
        ensures Counted(workers[w])
      {
        assert w in all;
        assert w in Arrived(workers);
      }
    }
    if forall w :: 0 <= w < |workers| ==> Counted(workers[w]) {
      assert Arrived(workers) == all;
    }
  }

  lemma ArrivedUpdate(workers: seq<WorkerPc>, w: nat, pc: WorkerPc)
    requires w < |workers| && (Counted(workers[w]) ==> Counted(pc))
    ensures Arrived(workers[w := pc]) == Arrived(workers) + if Counted(pc) then {w} else {}
    ensures |Arrived(workers[w := pc])|
         == |Arrived(workers)| + if Counted(pc) && !Counted(workers[w]) then 1 else 0
  {
    assert Arrived(workers[w := pc]) == Arrived(workers) + if Counted(pc) then {w} else {};
  }

  // ----- Every step keeps the invariant

  lemma InitialInvariant(v: Variant, n: Count)
    ensures Invariant(v, Initial(n))
  {
    assert Arrived(Initial(n).workers) == {};
  }

  lemma WorkerValue(v: Variant, s: State, w: nat)
    requires WorkersAgree(v, s) && Enabled(v, s, WorkerStep(w))
    ensures var t := NextWorker(v, s, w);
            && t.workers == s.workers[w := t.workers[w]]
            && (Counted(s.workers[w]) ==> Counted(t.workers[w]))
            && t.val == if Counted(t.workers[w]) && !Counted(s.workers[w]) then Increment(s.val) else s.val
  {
  }

  lemma WorkerCounts(v: Variant, s: State, w: nat)
    requires Invariant(v, s) && Enabled(v, s, WorkerStep(w))
    ensures var t := NextWorker(v, s, w);
            && t.val == |Arrived(t.workers)| <= |t.workers| == |s.workers|
            && t.val == s.val + if Counted(t.workers[w]) && !Counted(s.workers[w]) then 1 else 0
  {
    var t := NextWorker(v, s, w);
    WorkerValue(v, s, w);
    hide NextWorker, Enabled, WorkersAgree, MainAgrees, MainKnows, SignalToCome, SamplesAgree, Arrived;
    ArrivedAll(s.workers);
    ArrivedUpdate(s.workers, w, t.workers[w]);
    ArrivedAll(t.workers);
  }

  lemma WorkerKeepsLock(v: Variant, s: State, w: nat)
    requires WorkersAgree(v, s) && MainAgrees(v, s) && Enabled(v, s, WorkerStep(w))
    ensures WorkersAgree(v, NextWorker(v, s, w)) && MainAgrees(v, NextWorker(v, s, w))
  {
    match s.workers[w]
    case Ready =>
    case Loading =>
    case Storing(_) =>
    case Signalling =>
    case Unlocking =>
  }

  lemma WorkerKeepsKnowledge(v: Variant, s: State, w: nat)
    requires Invariant(v, s) && Enabled(v, s, WorkerStep(w))
    ensures var t := NextWorker(v, s, w); MainKnows(v, t) && SignalToCome(t) && SamplesAgree(t)
  {
    var t := NextWorker(v, s, w);
    WorkerCounts(v, s, w);
    assert WorkerHolds(s.workers[w]) <==> s.writer == WriterIs(Worker(w));
    assert t.workers[w].Signalling? <==> v.Cond? && s.workers[w].Storing?;
    assert forall x :: 0 <= x < |s.workers| && x != w ==> t.workers[x] == s.workers[x];
  }

  lemma WorkerPreserves(v: Variant, s: State, w: nat)
    requires Invariant(v, s) && Enabled(v, s, WorkerStep(w))
    ensures Invariant(v, NextWorker(v, s, w))
  {
    hide NextWorker, Enabled, WorkersAgree, MainAgrees, MainKnows, SignalToCome, SamplesAgree;
    WorkerCounts(v, s, w);
    WorkerKeepsLock(v, s, w);
    WorkerKeepsKnowledge(v, s, w);
  }

  lemma MainKeepsLock(v: Variant, s: State)
    requires WorkersAgree(v, s) && MainAgrees(v, s) && Enabled(v, s, MainStep)
    ensures WorkersAgree(v, NextMain(v, s)) && MainAgrees(v, NextMain(v, s))
  {
    match s.main
    case Spawning(_) =>
    case Locking =>
    case Sampling =>
    case Releasing(_) =>
    case Testing(_) =>
    case Waiting =>
    case Woken =>
    case Printing =>
  }

  lemma MainCounts(v: Variant, s: State)
    requires WorkersAgree(v, s) && Enabled(v, s, MainStep)
    ensures var t := NextMain(v, s); t.val == s.val && |t.workers| == |s.workers| && Arrived(t.workers) == Arrived(s.workers)
  {
    if s.main.Spawning? && s.main.next < |s.workers| {
      ArrivedUpdate(s.workers, s.main.next, Ready);
    }
  }

  lemma MainKeepsKnowledge(v: Variant, s: State)
    requires Invariant(v, s) && Enabled(v, s, MainStep)
    ensures var t := NextMain(v, s); MainKnows(v, t) && SignalToCome(t)
  {
    ArrivedAll(s.workers);
    MainCounts(v, s);
  }

  lemma MainKeepsSamples(v: Variant, s: State)
    requires Invariant(v, s) && Enabled(v, s, MainStep)
    ensures SamplesAgree(NextMain(v, s))
  {
    ArrivedAll(s.workers);
    MainCounts(v, s);
  }

  lemma MainPreserves(v: Variant, s: State)
    requires Invariant(v, s) && Enabled(v, s, MainStep)
    ensures Invariant(v, NextMain(v, s))
  {
    hide NextMain, Enabled, WorkersAgree, MainAgrees, MainKnows, SignalToCome, SamplesAgree;
    MainCounts(v, s);
    MainKeepsLock(v, s);
    MainKeepsKnowledge(v, s);
    MainKeepsSamples(v, s);
  }

  lemma StepPreserves(v: Variant, s: State, c: Choice)
    requires Invariant(v, s) && Enabled(v, s, c)
    ensures Invariant(v, Next(v, s, c)) && |Next(v, s, c).workers| == |s.workers|
  {
    match c
    case MainStep => MainPreserves(v, s);
    case WorkerStep(w) => WorkerPreserves(v, s, w);
    case SpuriousWakeup =>
  }

  lemma {:induction false} Reachable(v: Variant, n: Count, schedule: seq<Choice>)
    requires Execute(v, n, schedule).Reached?
    ensures Invariant(v, Execute(v, n, schedule).s) && |Execute(v, n, schedule).s.workers| == n
  {
    if schedule == [] {
      InitialInvariant(v, n);
    } else {
      var before := schedule[..|schedule| - 1];
      Reachable(v, n, before);
      StepPreserves(v, Execute(v, n, before).s, schedule[|schedule| - 1]);
    }
  }
}
