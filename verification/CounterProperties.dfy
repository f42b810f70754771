/** What the four builds of the thread counter have in common, and what the condition variable build
    guarantees beyond that. */
module CounterProperties {
  import opened SharedCounter

  // ----- One abstract counter

  /** Workers arrive one at a time; completion needs all of them. */
  datatype Abstract = Abstract(arrived: set<nat>, done: bool)

  function Abstraction(s: State): Abstract {
    Abstract(Arrived(s.workers), s.main.Done?)
  }

  ghost predicate AbstractStep(n: nat, a: Abstract, b: Abstract) {
    || (exists w: nat :: w < n && w !in a.arrived && b == a.(arrived := a.arrived + {w}))
    || (!a.done && a.arrived == Upto(n) && b == a.(done := true))
  }

  /** Every step of every build is a step of the abstract counter or invisible in it. */
  lemma StepRefines(v: Variant, s: State, c: Choice)
    requires Invariant(v, s) && Enabled(v, s, c)
    ensures var a, b := Abstraction(s), Abstraction(Next(v, s, c));
            a == b || AbstractStep(|s.workers|, a, b)
  {
    match c
    case WorkerStep(w) => WorkerRefines(v, s, w);
    case MainStep => MainRefines(v, s);
    case SpuriousWakeup =>
  }

  lemma WorkerRefines(v: Variant, s: State, w: nat)
    requires Invariant(v, s) && Enabled(v, s, WorkerStep(w))
    ensures var a, b := Abstraction(s), Abstraction(NextWorker(v, s, w));
            a == b || AbstractStep(|s.workers|, a, b)
  {
    hide WorkersAgree, MainAgrees, MainKnows, SignalToCome, SamplesAgree;
    var t := NextWorker(v, s, w);
    assert t.workers == s.workers[w := t.workers[w]];
    ArrivedUpdate(s.workers, w, t.workers[w]);
    if Counted(t.workers[w]) && !Counted(s.workers[w]) {
      assert w !in Arrived(s.workers);
      assert Abstraction(t) == Abstraction(s).(arrived := Arrived(s.workers) + {w});
    }
  }

  lemma MainRefines(v: Variant, s: State)
    requires Invariant(v, s) && Enabled(v, s, MainStep)
    ensures var a, b := Abstraction(s), Abstraction(NextMain(v, s));
            a == b || AbstractStep(|s.workers|, a, b)
  {
    hide SignalToCome, SamplesAgree;
    MainCounts(v, s);
    ArrivedAll(s.workers);
    if s.main.Printing? {
      assert Arrived(s.workers) == Upto(|s.workers|);
    }
  }

  /** In every reachable state of every build the counter is the number of workers past their increment;
      main prints only after all workers have incremented. */
  lemma CounterExact(v: Variant, n: Count, schedule: seq<Choice>)
    requires Execute(v, n, schedule).Reached?
    ensures var s := Execute(v, n, schedule).s;
            && s.val == |Arrived(s.workers)|
            && (s.main.Printing? || s.main.Done? ==> forall w :: 0 <= w < n ==> Counted(s.workers[w]))
  {
    Reachable(v, n, schedule);
    ArrivedAll(Execute(v, n, schedule).s.workers);
  }

  /** No worker is in its critical section together with another worker or with main reading. */
  lemma NoOverlap(v: Variant, n: Count, schedule: seq<Choice>, w: nat, u: nat)
    requires Execute(v, n, schedule).Reached? && w < n && u < n
    ensures var s := Execute(v, n, schedule).s;
            && (WorkerHolds(s.workers[w]) && WorkerHolds(s.workers[u]) ==> w == u)
            && !(WorkerHolds(s.workers[w]) && MainHolds(v, s.main))
  {
    Reachable(v, n, schedule);
  }

  /** A worker takes part in mutual exclusion and is in its section. */
  predicate SomeWorkerHolds(s: State) {
    exists w :: 0 <= w < |s.workers| && WorkerHolds(s.workers[w])
  }

  /** Threads wait for one another only where the locks make them: a worker before its section exactly
      while another thread is in one, main before its section exactly while a worker is in one, and main
      blocked until woken. Every other thread that has not ended can move. */
  lemma WaitsOnlyForHolder(v: Variant, n: Count, schedule: seq<Choice>, w: nat)
    requires Execute(v, n, schedule).Reached? && w < n
    ensures var s := Execute(v, n, schedule).s;
            && (Enabled(v, s, WorkerStep(w)) <==>
                  !s.workers[w].Unborn? && !s.workers[w].Finished?
                  && (s.workers[w].Ready? ==> v.Atomic? || (!SomeWorkerHolds(s) && !MainHolds(v, s.main))))
            && (Enabled(v, s, MainStep) <==>
                  !s.main.Blocked? && !s.main.Done?
                  && (s.main.Locking? || s.main.Woken? ==> !SomeWorkerHolds(s)))
  {
    Reachable(v, n, schedule);
    var s := Execute(v, n, schedule).s;
    hide Execute, MainKnows, SignalToCome, SamplesAgree, Arrived;
    if s.writer.WriterIs? && s.writer.agent.Worker? {
      assert WorkerHolds(s.workers[s.writer.agent.id]);
    }
  }

  // ----- What main samples

  /** The values main samples never fall; once it has sampled the full count it never samples again. */
  lemma SamplesRise(v: Variant, n: Count, schedule: seq<Choice>)
    requires Execute(v, n, schedule).Reached?
    ensures var s := Execute(v, n, schedule).s;
            && Sorted(s.samples)
            && forall k :: 0 <= k < |s.samples| && s.samples[k] == n ==> k == |s.samples| - 1
  {
    Reachable(v, n, schedule);
    LastFull(v, n, schedule);
  }

  lemma {:induction false} LastFull(v: Variant, n: Count, schedule: seq<Choice>)
    requires Execute(v, n, schedule).Reached?
    ensures var s := Execute(v, n, schedule).s;
            forall k :: 0 <= k < |s.samples| && s.samples[k] == n ==> k == |s.samples| - 1
  {
    if schedule != [] {
      var before, c := schedule[..|schedule| - 1], schedule[|schedule| - 1];
      LastFull(v, n, before);
      Reachable(v, n, before);
      var s := Execute(v, n, before).s;
      assert c == MainStep && s.main.Sampling? ==> n !in s.samples;
      SampleStep(v, s, c);
    }
  }

  lemma SampleStep(v: Variant, s: State, c: Choice)
    requires Enabled(v, s, c)
    ensures Next(v, s, c).samples == s.samples + if c == MainStep && s.main.Sampling? then [s.val] else []
  {
  }

  /** A sample taken after all increments ends the loop. */
  lemma FullSampleEnds(v: Variant, s: State)
    requires Invariant(v, s) && s.main.Sampling? && forall w :: 0 <= w < |s.workers| ==> Counted(s.workers[w])
    ensures |s.workers| in NextMain(v, s).samples
    ensures var t := NextMain(v, s); (t.main.Releasing? || t.main.Testing?) && t.main.seen == |s.workers|
  {
    ArrivedAll(s.workers);
    assert NextMain(v, s).samples[|s.samples|] == s.val;
  }

  // ----- No deadlock

  /** In every reachable state that is not the end, some thread can take a step of its own. */
  lemma NoDeadlock(v: Variant, s: State) returns (c: Choice)
    requires Invariant(v, s) && !s.main.Done?
    ensures Enabled(v, s, c) && !c.SpuriousWakeup?
  {
    if s.writer.WriterIs? && s.writer.agent.Worker? {
      c := WorkerStep(s.writer.agent.id);
      assert WorkerHolds(s.workers[s.writer.agent.id]);
    } else if s.main.Blocked? {
      var w := Unsignalled(v, s);
      c := WorkerStep(w);
    } else {
      c := MainStep;
    }
  }

  /** The worker has yet to signal. */
  predicate BeforeSignal(pc: WorkerPc) {
    !pc.Unlocking? && !pc.Finished?
  }

  /** No lost wakeup: while main is blocked and not woken there is a worker, already running, that has
      not yet signalled. */
  lemma Unsignalled(v: Variant, s: State) returns (w: nat)
    requires Invariant(v, s) && s.main.Blocked?
    ensures w < |s.workers| && BeforeSignal(s.workers[w]) && !s.workers[w].Unborn?
  {
    ArrivedAll(s.workers);
    if s.val < |s.workers| {
      w :| 0 <= w < |s.workers| && !Counted(s.workers[w]);
    } else {
      w :| 0 <= w < |s.workers| && s.workers[w].Signalling?;
    }
  }

  /** The workers past their signal. */
  function Signalled(workers: seq<WorkerPc>): set<nat> {
    set w: nat | w < |workers| && (workers[w].Unlocking? || workers[w].Finished?)
  }

  /** While main decides to wait its last sample is the counter; while it is blocked its last sample is the
      number of workers past their signal. */
  predicate Heard(s: State) {
    && (s.main.Testing? || s.main.Waiting? ==> s.samples != [] && s.samples[|s.samples| - 1] == s.val)
    && (s.main.Blocked? ==> s.samples != [] && s.samples[|s.samples| - 1] == |Signalled(s.workers)|)
  }

  lemma WorkerHeard(s: State, w: nat)
    requires Invariant(Cond, s) && Heard(s) && Enabled(Cond, s, WorkerStep(w))
    ensures Heard(NextWorker(Cond, s, w))
  {
    hide SamplesAgree, SignalToCome, MainKnows;
    var t := NextWorker(Cond, s, w);
    assert WorkerHolds(s.workers[w]) <==> s.writer == WriterIs(Worker(w));
    assert !s.workers[w].Signalling? ==> Signalled(t.workers) == Signalled(s.workers);
  }

  lemma MainHeard(s: State)
    requires Invariant(Cond, s) && Heard(s) && Enabled(Cond, s, MainStep)
    ensures Heard(NextMain(Cond, s))
  {
    hide SamplesAgree, SignalToCome, MainKnows;
    assert s.main.Waiting? ==> Signalled(s.workers) == Arrived(s.workers);
  }

  lemma {:induction false} HeardAlways(n: Count, schedule: seq<Choice>)
    requires Execute(Cond, n, schedule).Reached?
    ensures Heard(Execute(Cond, n, schedule).s)
  {
    if schedule != [] {
      var before, c := schedule[..|schedule| - 1], schedule[|schedule| - 1];
      HeardAlways(n, before);
      Reachable(Cond, n, before);
      var s := Execute(Cond, n, before).s;
      match c
      case MainStep => MainHeard(s);
      case WorkerStep(w) => WorkerHeard(s, w);
      case SpuriousWakeup =>
    }
  }

  /** Every worker signals: while main is blocked no worker has got past its signal since main's last
      sample, for such a signal would have woken it. */
  lemma EverySignalHeard(n: Count, schedule: seq<Choice>)
    requires Execute(Cond, n, schedule).Reached? && Execute(Cond, n, schedule).s.main.Blocked?
    ensures var s := Execute(Cond, n, schedule).s;
            s.samples != [] && |Signalled(s.workers)| == s.samples[|s.samples| - 1]
  {
    HeardAlways(n, schedule);
  }

  // ----- Termination of the condition variable build

  function WorkerRank(pc: WorkerPc): nat {
    match pc
    case Unborn => 10
    case Ready => 9
    case Loading => 8
    case Storing(_) => 7
    case Signalling => 6
    case Unlocking => 1
    case Finished => 0
  }

  function WorkerRanks(workers: seq<WorkerPc>): nat {
    if workers == [] then 0 else WorkerRank(workers[0]) + WorkerRanks(workers[1..])
  }

  lemma {:induction false} RanksUpdate(workers: seq<WorkerPc>, w: nat, pc: WorkerPc)
    requires w < |workers|
    ensures WorkerRanks(workers[w := pc]) + WorkerRank(workers[w]) == WorkerRanks(workers) + WorkerRank(pc)
  {
    if w > 0 {
      assert workers[w := pc][1..] == workers[1..][w - 1 := pc];
      RanksUpdate(workers[1..], w - 1, pc);
    } else {
      assert workers[0 := pc][1..] == workers[1..];
    }
  }

  function MainRank(n: nat, pc: MainPc): nat {
    match pc
    case Spawning(next) => 7 + if next <= n then n - next else 0
    case Locking => 6
    case Woken => 6
    case Sampling => 5
    case Testing(_) => 4
    case Waiting => 3
    case Blocked => 2
    case Releasing(_) => 2
    case Printing => 1
    case Done => 0
  }

  function Measure(s: State): nat {
    MainRank(|s.workers|, s.main) + WorkerRanks(s.workers)
  }

  lemma WorkerMeasure(s: State, w: nat)
    requires Enabled(Cond, s, WorkerStep(w))
    ensures Measure(NextWorker(Cond, s, w)) < Measure(s)
  {
    var t := NextWorker(Cond, s, w);
    RanksUpdate(s.workers, w, t.workers[w]);
    assert t.workers == s.workers[w := t.workers[w]];
  }

  lemma MainMeasure(s: State)
    requires Invariant(Cond, s) && Enabled(Cond, s, MainStep)
    ensures Measure(NextMain(Cond, s)) < Measure(s)
  {
    if s.main.Spawning? && s.main.next < |s.workers| {
      RanksUpdate(s.workers, s.main.next, Ready);
    }
  }

  function Spurious(schedule: seq<Choice>): nat {
    if schedule == [] then 0
    else Spurious(schedule[..|schedule| - 1]) + if schedule[|schedule| - 1].SpuriousWakeup? then 1 else 0
  }

  lemma {:induction false} InitialRanks(n: nat)
    ensures WorkerRanks(seq(n, _ => Unborn)) == 10 * n
  {
    if n > 0 {
      InitialRanks(n - 1);
      assert seq(n, _ => Unborn)[1..] == seq(n - 1, _ => Unborn);
    }
  }

  /** Every run of the condition variable build is finite: it has at most 11 n + 7 steps, and 5 more for
      each spurious wakeup. */
  lemma {:induction false} RunsEnd(n: Count, schedule: seq<Choice>)
    requires Execute(Cond, n, schedule).Reached?
    ensures |schedule| + Measure(Execute(Cond, n, schedule).s) <= 11 * n + 7 + 5 * Spurious(schedule)
  {
    if schedule == [] {
      InitialRanks(n);
    } else {
      var before, c := schedule[..|schedule| - 1], schedule[|schedule| - 1];
      RunsEnd(n, before);
      Reachable(Cond, n, before);
      var s := Execute(Cond, n, before).s;
      match c
      case MainStep => MainMeasure(s);
      case WorkerStep(w) => WorkerMeasure(s, w);
      case SpuriousWakeup =>
    }
  }

  /** A run that cannot be extended, except perhaps by a spurious wakeup, has printed done. With
      `RunsEnd`: whatever the scheduler does, a run with finitely many spurious wakeups gets there. */
  lemma MaximalRunsPrint(v: Variant, n: Count, schedule: seq<Choice>)
    requires Execute(v, n, schedule).Reached?
    requires forall c :: Enabled(v, Execute(v, n, schedule).s, c) ==> c.SpuriousWakeup?
    ensures var s := Execute(v, n, schedule).s; s.main.Done? && s.val == n
  {
    Reachable(v, n, schedule);
    var s := Execute(v, n, schedule).s;
    if !s.main.Done? {
      var c := NoDeadlock(v, s);
    }
  }

  function WorkerSteps(schedule: seq<Choice>): nat {
    if schedule == [] then 0
    else WorkerSteps(schedule[..|schedule| - 1]) + if schedule[|schedule| - 1].WorkerStep? then 1 else 0
  }

  lemma RanksStep(v: Variant, s: State, c: Choice)
    requires Invariant(v, s) && Enabled(v, s, c)
    ensures WorkerRanks(Next(v, s, c).workers) + (if c.WorkerStep? then 1 else 0) <= WorkerRanks(s.workers)
  {
    match c
    case WorkerStep(w) =>
      var t := NextWorker(v, s, w);
      RanksUpdate(s.workers, w, t.workers[w]);
      assert t.workers == s.workers[w := t.workers[w]];
    case MainStep =>
      if s.main.Spawning? && s.main.next < |s.workers| {
        RanksUpdate(s.workers, s.main.next, Ready);
      }
    case SpuriousWakeup =>
  }

  /** In every build the workers take at most 10 n steps between them, so only main can run on. */
  lemma {:induction false} WorkersEnd(v: Variant, n: Count, schedule: seq<Choice>)
    requires Execute(v, n, schedule).Reached?
    ensures WorkerSteps(schedule) + WorkerRanks(Execute(v, n, schedule).s.workers) <= 10 * n
  {
    if schedule == [] {
      InitialRanks(n);
    } else {
      var before, c := schedule[..|schedule| - 1], schedule[|schedule| - 1];
      WorkersEnd(v, n, before);
      Reachable(v, n, before);
      RanksStep(v, Execute(v, n, before).s, c);
    }
  }

  // ----- Termination of the polling builds, once the workers are through

  predicate AllFinished(s: State) {
    forall w :: 0 <= w < |s.workers| ==> s.workers[w].Finished?
  }

  function TailRank(v: Variant, n: nat, pc: MainPc): nat {
    match pc
    case Done => 0
    case Printing => 1
    case Testing(seen) => if seen < n then 6 else if v.Cond? then 3 else 2
    case Releasing(seen) => if seen < n then 7 else if v.Cond? then 2 else 3
    case Sampling => 4
    case Locking => 5
    case Woken => 5
    case Spawning(next) => 8
    case _ => 0
  }

  lemma SpawningUnfinished(v: Variant, s: State)
    requires Invariant(v, s) && s.main.Spawning? && s.main.next < |s.workers|
    ensures !AllFinished(s)
  {
    assert s.workers[s.main.next].Unborn?;
  }

  /** When all workers have finished only main can move, and every step takes it closer to done: the next
      sample it takes ends its loop. */
  lemma TailEnds(v: Variant, s: State, c: Choice)
    requires Invariant(v, s) && AllFinished(s)
    requires Enabled(v, s, c)
    ensures c == MainStep && AllFinished(Next(v, s, c))
    ensures TailRank(v, |s.workers|, Next(v, s, c).main) < TailRank(v, |s.workers|, s.main) <= 8
  {
    ArrivedAll(s.workers);
    if s.main.Spawning? && s.main.next < |s.workers| {
      SpawningUnfinished(v, s);
    }
    match s.main
    case Spawning(next) =>
    case Testing(seen) =>
    case Releasing(seen) =>
    case Sampling =>
    case _ =>
  }

  /** After the workers have finished a run has at most 8 more steps, in every build. */
  lemma {:induction false} TailRun(v: Variant, n: Count, schedule: seq<Choice>, more: seq<Choice>)
    requires Execute(v, n, schedule + more).Reached? && Execute(v, n, schedule).Reached?
    requires AllFinished(Execute(v, n, schedule).s)
    ensures AllFinished(Execute(v, n, schedule + more).s)
    ensures |more| + TailRank(v, n, Execute(v, n, schedule + more).s.main) <= 8
  {
    hide Next, Enabled, Invariant;
    Reachable(v, n, schedule);
    if more == [] {
      assert schedule + more == schedule;
      TailLimit(v, Execute(v, n, schedule).s);
    } else {
      var front := more[..|more| - 1];
      assert (schedule + more)[..|schedule + more| - 1] == schedule + front;
      TailRun(v, n, schedule, front);
      Reachable(v, n, schedule + front);
      TailEnds(v, Execute(v, n, schedule + front).s, more[|more| - 1]);
    }
  }

  lemma TailLimit(v: Variant, s: State)
    ensures TailRank(v, |s.workers|, s.main) <= 8
  {
  }

  // ----- Completion stays possible

  predicate WorkerCanMove(v: Variant, s: State, w: nat) {
    Enabled(v, s, WorkerStep(w))
  }

  /** How far main is from releasing the lock, or from the end once the workers have finished. */
  function MainDistance(v: Variant, s: State): nat {
    if s.main.Spawning? then 9
    else if AllFinished(s) then TailRank(v, |s.workers|, s.main)
    else match s.main
      case Sampling => if v.Atomic? then 0 else 3
      case Testing(_) => if v.Cond? then 2 else 0
      case Waiting => 1
      case Releasing(_) => 1
      case _ => 0
  }

  /** The step of main leads towards done: it creates a worker, or brings main closer to releasing the
      lock or to the end. */
  predicate Closer(v: Variant, s: State, t: State) {
    || WorkerRanks(t.workers) < WorkerRanks(s.workers)
    || (WorkerRanks(t.workers) == WorkerRanks(s.workers) && MainDistance(v, t) < MainDistance(v, s))
  }

  lemma SpawnCloser(v: Variant, s: State)
    requires Invariant(v, s) && s.main.Spawning? && !AllFinished(s)
    ensures Closer(v, s, NextMain(v, s))
  {
    if s.main.next < |s.workers| {
      assert s.workers[s.main.next].Unborn?;
      RanksUpdate(s.workers, s.main.next, Ready);
    }
  }

  /** Main holds the lock that an unfinished worker waits for. */
  lemma HoldingCloser(v: Variant, s: State)
    requires Invariant(v, s) && MainHolds(v, s.main) && !AllFinished(s)
    ensures Closer(v, s, NextMain(v, s))
  {
    hide WorkersAgree, SignalToCome, SamplesAgree;
    assert NextMain(v, s).workers == s.workers;
  }

  lemma UnfinishedWaits(v: Variant, s: State)
    requires Invariant(v, s) && !s.main.Done? && forall w :: !WorkerCanMove(v, s, w)
    ensures AllFinished(s) || s.main.Spawning? || MainHolds(v, s.main)
  {
    hide SamplesAgree;
    if !AllFinished(s) && !s.main.Spawning? {
      var w :| 0 <= w < |s.workers| && !s.workers[w].Finished?;
      assert !WorkerCanMove(v, s, w);
      assert s.writer.WriterIs? && s.writer.agent.Worker? ==> WorkerCanMove(v, s, s.writer.agent.id);
    }
  }

  /** If no worker can move, main can, and its step leads towards done. */
  lemma MainMoves(v: Variant, s: State)
    requires Invariant(v, s) && !s.main.Done? && forall w :: !WorkerCanMove(v, s, w)
    ensures Enabled(v, s, MainStep) && Closer(v, s, NextMain(v, s))
  {
    var c := NoDeadlock(v, s);
    assert c.WorkerStep? ==> WorkerCanMove(v, s, c.w);
    UnfinishedWaits(v, s);
    if AllFinished(s) {
      TailCloser(v, s);
    } else if s.main.Spawning? {
      SpawnCloser(v, s);
    } else {
      HoldingCloser(v, s);
    }
  }

  lemma TailCloser(v: Variant, s: State)
    requires Invariant(v, s) && AllFinished(s) && Enabled(v, s, MainStep)
    ensures Closer(v, s, NextMain(v, s))
  {
    hide WorkersAgree, SignalToCome, SamplesAgree, MainKnows;
    TailEnds(v, s, MainStep);
    RanksStep(v, s, MainStep);
    FinishedRanks(s.workers);
    FinishedRanks(NextMain(v, s).workers);
  }

  lemma {:induction false} FinishedRanks(workers: seq<WorkerPc>)
    requires forall w :: 0 <= w < |workers| ==> workers[w].Finished?
    ensures WorkerRanks(workers) == 0
  {
    if workers != [] {
      FinishedRanks(workers[1..]);
    }
  }

  /** A thread that can move and whose step leads towards done. */
  lemma Progress(v: Variant, s: State) returns (c: Choice)
    requires Invariant(v, s) && !s.main.Done?
    ensures Enabled(v, s, c) && Closer(v, s, Next(v, s, c))
  {
    if exists w :: WorkerCanMove(v, s, w) {
      var w :| WorkerCanMove(v, s, w);
      c := WorkerStep(w);
      RanksStep(v, s, c);
    } else {
      c := MainStep;
      MainMoves(v, s);
    }
  }

  /** From every reachable state of every build the program can still run to done, so a scheduler that
      gives every such possibility its chance gets there also in the polling builds. */
  lemma {:induction false} DoneReachable(v: Variant, n: Count, schedule: seq<Choice>) returns (more: seq<Choice>)
    requires Execute(v, n, schedule).Reached?
    ensures Execute(v, n, schedule + more).Reached?
    ensures Execute(v, n, schedule + more).s.main.Done? && Execute(v, n, schedule + more).s.val == n
    decreases WorkerRanks(Execute(v, n, schedule).s.workers), MainDistance(v, Execute(v, n, schedule).s)
  {
    Reachable(v, n, schedule);
    var s := Execute(v, n, schedule).s;
    if s.main.Done? {
      more := [];
      assert schedule + more == schedule;
    } else {
      var c := Progress(v, s);
      hide Next, Enabled, Invariant, WorkerRanks, MainDistance;
      assert (schedule + [c])[..|schedule|] == schedule;
      var rest := DoneReachable(v, n, schedule + [c]);
      more := [c] + rest;
      assert schedule + more == schedule + [c] + rest;
    }
  }
}
