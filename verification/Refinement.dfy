/** Every interleaving of the device's threads refines a run of atomic sections, and what that gives for
    every reachable state. */
module Refinement {
  import opened Words
  import opened Average
  import opened Registers
  import opened Windows
  import opened History
  import opened Interleaving

  datatype Outcome = Stuck | Reached(m: Machine)

  /** The state after a schedule, if each of its actions was enabled when it was taken. */
  function Execute(schedule: seq<Action>): Outcome {
    if schedule == [] then Reached(Boot())
    else match Execute(schedule[..|schedule| - 1])
      case Stuck => Stuck
      case Reached(m) => var a := schedule[|schedule| - 1]; if Enabled(m, a) then Reached(Next(m, a)) else Stuck
  }

  /** Lock and program counters agree: a thread is in its section exactly when it holds the lock. */
  predicate Exclusive(m: Machine) {
    && (InSection(m, Adc) <==> m.lock == Held(Adc))
    && (InSection(m, Modbus) <==> m.lock == Held(Modbus))
    && (InSection(m, Main) <==> m.lock == Held(Main))
  }

  /** The section in progress, taken atomically. */
  function CurrentEvent(m: Machine): Event
    requires m.lock.Held?
  {
    match m.lock.owner
    case Adc => AdcEvent(m)
    case Modbus => Serve(m.req)
    case Main => Tick
  }

  /** Finishing the section in progress without interruption would have the effect of the atomic section
      on the state that the completed sections left. */
  predicate SectionOnTrack(m: Machine)
    requires Exclusive(m)
  {
    match m.lock
    case Free => m.s == Replay(m.log)
    case Held(Adc) => RestOfAdc(m) == Apply(Replay(m.log), AdcEvent(m))
    case Held(Modbus) =>
      && ModbusFits(m) && (m.mb.CheckWindow? ==> m.out == [])
      && RestOfModbus(m) == (Apply(Replay(m.log), Serve(m.req)), Respond(Replay(m.log), m.req))
    case Held(Main) =>
      match m.main
      case StoreCounter(loaded) => m.s == Replay(m.log) && loaded == m.s.input.cntr
      case MainUnlock => m.s == Apply(Replay(m.log), Tick)
      case _ => m.s == Replay(m.log)
  }

  predicate Invariant(m: Machine) {
    && Exclusive(m)
    && SectionOnTrack(m)
    && Legal(m.log)
    && (Started(m.log) <==> !InBoot(m.adc))
    && m.sent == Answers(m.log)
    && (m.adc == AdcUnlock(false) ==> m.interval == m.s.holding.interval)
  }

  lemma LegalSnoc(log: Log, e: Event)
    requires Legal(log) && (e.Start? ==> !Started(log)) && (e.Sample? ==> Started(log))
    ensures Legal(log + [e])
    ensures Replay(log + [e]) == Apply(Replay(log), e)
    ensures Started(log + [e]) <==> Started(log) || e.Start?
    ensures Answers(log + [e]) == Answers(log) + if e.Serve? then [Respond(Replay(log), e.req)] else []
  {
    assert Front(log + [e]) == log;
  }

  lemma AdcPreserves(m: Machine)
    requires Invariant(m) && InSection(m, Adc)
    ensures Invariant(AdcStep(m))
  {
    hide StoreFrom, ResetFrom, AfterReset, Apply, Legal, Answers, Replay;
    if m.adc.AdcUnlock? {
      LegalSnoc(m.log, AdcEvent(m));
    } else {
      hide PutNow, PutMin, PutMax, PutAvg, RestOfAdc;
      AdcStepKeepsRest(m);
    }
  }

  lemma ModbusPreserves(m: Machine)
    requires Invariant(m) && InSection(m, Modbus)
    ensures InBounds(m) && Invariant(ModbusStep(m))
  {
    if m.mb.ModbusUnlock? {
      LegalSnoc(m.log, Serve(m.req));
    } else {
      ModbusStepKeepsRest(m);
    }
  }

  lemma MainPreserves(m: Machine)
    requires Invariant(m) && InSection(m, Main)
    ensures Invariant(MainStep(m))
  {
    if m.main.MainUnlock? {
      LegalSnoc(m.log, Tick);
    }
  }

  lemma LockPreserves(m: Machine, a: Action)
    requires Invariant(m) && Enabled(m, a) && !a.Step?
    ensures Invariant(Next(m, a))
  {
    if a.AdcLock? {
      AdcFromStart(Next(m, a));
    }
  }

  /** One step of one thread either leaves the completed sections as they are, or completes the section
      in progress: the interleaved machine simulates the machine whose steps are whole sections. */
  lemma StepRefines(m: Machine, a: Action)
    requires Invariant(m) && Enabled(m, a)
    ensures Invariant(Next(m, a))
    ensures var n := Next(m, a);
            if m.lock.Held? && n.lock.Free? then n.log == m.log + [CurrentEvent(m)] else n.log == m.log
  {
    match a
    case Step(Adc) => AdcPreserves(m);
    case Step(Modbus) => ModbusPreserves(m);
    case Step(Main) => MainPreserves(m);
    case _ => LockPreserves(m, a);
  }

  lemma {:induction false} Reachable(schedule: seq<Action>)
    requires Execute(schedule).Reached?
    ensures Invariant(Execute(schedule).m)
  {
    if schedule != [] {
      var before := schedule[..|schedule| - 1];
      Reachable(before);
      StepRefines(Execute(before).m, schedule[|schedule| - 1]);
    }
  }
}
