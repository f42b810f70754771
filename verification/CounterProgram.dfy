/** The thread counter as the program runs it: global variables that the threads change one access at a
    time. Each method executes the next access of one thread. */
module CounterProgram {
  import opened SharedCounter
  import opened CounterProperties

  class Program {
    const build: Variant
    var val: uint32
    var writer: Writer
    var readers: set<Agent>
    const workers: array<WorkerPc>
    var main: MainPc
    var samples: seq<uint32>

    /** The state held by the variables and the positions of the threads. */
    function View(): State
      reads this, workers
    {
      State(val, writer, readers, workers[..], main, samples)
    }

    constructor (build: Variant, n: Count)
      ensures this.build == build && fresh(workers) && View() == Initial(n)
    {
      this.build := build;
      val, writer, readers, main, samples := 0, NoWriter, {}, Spawning(0), [];
      workers := new WorkerPc[n](_ => Unborn);
    }

    /** The next access of worker `w` in `thread`. */
    method StepWorker(w: nat)
      requires Enabled(build, View(), WorkerStep(w))
      modifies this, workers
      ensures View() == NextWorker(build, old(View()), w)
      ensures build.Cond? && workers[w].Unlocking? ==> !main.Blocked?
    {
      match workers[w]
      case Ready =>
        if build.Atomic? {
          val := Increment(val);
          workers[w] := Finished;
        } else {
          writer := WriterIs(Worker(w));
          workers[w] := Loading;
        }
      case Loading => workers[w] := Storing(val);
      case Storing(loaded) =>
        val := Increment(loaded);
        workers[w] := if build.Cond? then Signalling else Unlocking;
      case Signalling =>
        if main.Blocked? {
          main := Woken;
        }
        workers[w] := Unlocking;
      case Unlocking =>
        writer := NoWriter;
        workers[w] := Finished;
    }

    /** The next access of `threads_init` and `main`. */
    method StepMain()
      requires Enabled(build, View(), MainStep)
      modifies this, workers
      ensures View() == NextMain(build, old(View()))
    {
      match main
      case Spawning(next) =>
        if next < workers.Length {
          workers[next] := Ready;
          main := Spawning(next + 1);
        } else {
          main := if build.Atomic? then Sampling else Locking;
        }
      case Locking =>
        if build.RwLock? {
          readers := readers + {MainThread};
        } else {
          writer := WriterIs(MainThread);
        }
        main := Sampling;
      case Sampling =>
        samples := samples + [val];
        main := if build.Atomic? || build.Cond? then Testing(val) else Releasing(val);
      case Releasing(seen) =>
        if build.RwLock? {
          readers := readers - {MainThread};
        } else {
          writer := NoWriter;
        }
        main := if build.Cond? then Printing else Testing(seen);
      case Testing(seen) =>
        if seen < workers.Length {
          main := match build case Atomic => Sampling case Cond => Waiting case _ => Locking;
        } else {
          main := if build.Cond? then Releasing(seen) else Printing;
        }
      case Waiting =>
        writer := NoWriter;
        main := Blocked;
      case Woken =>
        writer := WriterIs(MainThread);
        main := Sampling;
      case Printing => main := Done;
    }

    /** Runs the program under a schedule of threads that can move. */
    method Run(schedule: seq<Choice>)
      requires workers.Length < 0x1_0000_0000 && View() == Initial(workers.Length)
      requires Execute(build, workers.Length, schedule).Reached?
      modifies this, workers
      ensures View() == Execute(build, workers.Length, schedule).s
    {
      for i := 0 to |schedule|
        invariant Execute(build, workers.Length, schedule[..i]) == Reached(View())
      {
        ghost var before := View();
        ExecutePrefix(build, workers.Length, schedule, i + 1);
        assert schedule[..i + 1][..i] == schedule[..i];
        match schedule[i] {
          case MainStep => StepMain();
          case WorkerStep(w) => StepWorker(w);
          case SpuriousWakeup => main := Woken;
        }
        assert View() == Next(build, before, schedule[i]);
      }
      assert schedule[..|schedule|] == schedule;
    }

    /** The condition variable build under any scheduler that moves some thread whenever one can move:
        it terminates with all increments counted. */
    method RunToDone(scheduler: State -> Choice)
      requires build == Cond && Invariant(Cond, View()) && Picks(scheduler)
      modifies this, workers
      ensures main.Done? && val == workers.Length
      ensures Invariant(Cond, View())
    {
      while !main.Done?
        invariant Invariant(Cond, View())
        decreases Measure(View())
      {
        ghost var before := View();
        ghost var possible := NoDeadlock(Cond, before);
        var c := scheduler(View());
        StepPreserves(Cond, before, c);
        match c {
          case MainStep => MainMeasure(before); StepMain();
          case WorkerStep(w) => WorkerMeasure(before, w); StepWorker(w);
        }
      }
    }
  }

  /** The scheduler moves a thread whenever a thread can move without a spurious wakeup. */
  ghost predicate Picks(scheduler: State -> Choice) {
    forall s, c :: Enabled(Cond, s, c) && !c.SpuriousWakeup? ==>
      Enabled(Cond, s, scheduler(s)) && !scheduler(s).SpuriousWakeup?
  }
}
