/** What holds in every reachable state of the interleaved device: exclusion, progress of the lock
    holder, and the register-level results of `History` transported through the refinement. */
module Observers {
  import opened Words
  import opened Average
  import opened Registers
  import opened Windows
  import opened History
  import opened Interleaving
  import opened Refinement

  lemma MutualExclusion(schedule: seq<Action>, t: Owner, u: Owner)
    requires Execute(schedule).Reached?
    ensures var m := Execute(schedule).m;
            && (InSection(m, t) && InSection(m, u) ==> t == u)
            && (InSection(m, t) <==> m.lock == Held(t))
  {
    Reachable(schedule);
  }

  // ----- Progress of the lock holder

  /** How many steps the section in progress can still take. */
  function Remaining(m: Machine): nat {
    match m.lock
    case Free => 0
    case Held(Adc) => AdcRemaining(m.adc)
    case Held(Modbus) =>
      (match m.mb
       case Polling => 0
       case CheckWindow => 2 * m.req.nregs + 2
       case SendFirst(_, left) => 2 * left + 1
       case SendSecond(_, left) => 2 * left
       case PutFirst(_, left, _) => 2 * left + 1
       case PutSecond(_, left, _) => 2 * left
       case ModbusUnlock(_) => 1)
    case Held(Main) =>
      (match m.main case Sleeping => 0 case LoadCounter => 3 case StoreCounter(_) => 2 case MainUnlock => 1)
  }

  function AdcRemaining(pc: AdcPc): nat {
    match pc
    case TestRequest => 32
    case ResetMin(_, i) => 31 - 3 * i
    case ResetMax(_, i) => 30 - 3 * i
    case ResetAvg(_, i) => 29 - 3 * i
    case ClearRequest => 19
    case StoreNow(i) => 18 - 4 * i
    case StoreMin(i) => 17 - 4 * i
    case StoreMax(i) => 16 - 4 * i
    case StoreAvg(i) => 15 - 4 * i
    case LoadInterval => 2
    case SetReady => 2
    case AdcUnlock(_) => 1
    case _ => 0
  }

  /** A step of the lock holder brings it closer to releasing the lock, and releasing it comes last. */
  predicate Advances(m: Machine, n: Machine)
    requires m.lock.Held?
  {
    && Remaining(n) < Remaining(m)
    && if n.lock.Free? then n.log == m.log + [CurrentEvent(m)]
       else n.lock == m.lock && n.log == m.log && CurrentEvent(n) == CurrentEvent(m)
  }

  lemma AdcAdvances(m: Machine)
    requires m.lock == Held(Adc) && InSection(m, Adc)
    ensures Advances(m, AdcStep(m))
  {
    hide PutNow, PutMin, PutMax, PutAvg, Averaged, Converted, Min, Max;
    match m.adc
    case StoreNow(_) => 
    case StoreMin(_) =>
    case StoreMax(_) =>
    case StoreAvg(_) =>
    case _ =>
  }

  lemma ModbusAdvances(m: Machine)
    requires m.lock == Held(Modbus) && InSection(m, Modbus) && ModbusFits(m) && InBounds(m)
    ensures Advances(m, ModbusStep(m))
  {
  }

  lemma MainAdvances(m: Machine)
    requires m.lock == Held(Main) && InSection(m, Main)
    ensures Advances(m, MainStep(m))
  {
  }

  lemma ModbusInBounds(m: Machine)
    requires InSection(m, Modbus) && ModbusFits(m)
    ensures InBounds(m)
  {
  }

  /** The lock holder can always take its next step, which stays inside the register view. */
  lemma HolderProgress(m: Machine)
    requires Invariant(m) && m.lock.Held?
    ensures Enabled(m, Step(m.lock.owner)) && Advances(m, Next(m, Step(m.lock.owner)))
  {
    match m.lock.owner
    case Adc => AdcAdvances(m);
    case Modbus => ModbusInBounds(m); ModbusAdvances(m);
    case Main => MainAdvances(m);
  }

  lemma ExecuteSnoc(schedule: seq<Action>, a: Action)
    requires Execute(schedule).Reached? && Enabled(Execute(schedule).m, a)
    ensures Execute(schedule + [a]) == Reached(Next(Execute(schedule).m, a))
  {
    assert (schedule + [a])[..|schedule|] == schedule;
  }

  lemma HolderStep(schedule: seq<Action>, m: Machine, t: Owner) returns (n: Machine)
    requires Execute(schedule) == Reached(m) && m.lock == Held(t)
    ensures Execute(schedule + [Step(t)]) == Reached(n) && Advances(m, n)
  {
    Reachable(schedule);
    HolderProgress(m);
    ExecuteSnoc(schedule, Step(t));
    n := Next(m, Step(t));
  }

  /** From every reachable state the lock holder alone can finish its section, in a bounded number of
      steps and without any other thread, and that completes exactly the section in progress. */
  lemma {:induction false} FinishSection(schedule: seq<Action>, m: Machine, t: Owner)
    returns (rest: seq<Action>, n: Machine)
    requires Execute(schedule) == Reached(m) && m.lock == Held(t)
    ensures |rest| <= Remaining(m) && forall a :: a in rest ==> a == Step(t)
    ensures Execute(schedule + rest) == Reached(n) && n.lock.Free? && n.log == m.log + [CurrentEvent(m)]
    decreases Remaining(m)
  {
    hide Next, Enabled;
    n := HolderStep(schedule, m, t);
    rest := [Step(t)];
    if n.lock.Held? {
      var more, last := FinishSection(schedule + rest, n, t);
      assert schedule + (rest + more) == schedule + rest + more;
      rest, n := rest + more, last;
    }
  }

  function Acquire(e: Event): Action {
    match e
    case Start => AdcLock([0, 0, 0, 0])
    case Sample(raw) => AdcLock(raw)
    case Tick => MainLock
    case Serve(req) => ModbusLock(req)
  }

  /** A free lock can be taken for any event that is legal next. */
  lemma BeginSection(schedule: seq<Action>, m: Machine, e: Event) returns (n: Machine)
    requires Execute(schedule) == Reached(m) && m.lock.Free? && Legal(m.log + [e])
    ensures Execute(schedule + [Acquire(e)]) == Reached(n)
    ensures n.lock.Held? && n.log == m.log && CurrentEvent(n) == e
  {
    Reachable(schedule);
    assert Front(m.log + [e]) == m.log;
    ExecuteSnoc(schedule, Acquire(e));
    n := Next(m, Acquire(e));
  }

  /** The refinement loses no runs either: every run of atomic sections is the log of a schedule. */
  lemma {:induction false} Realised(log: Log) returns (schedule: seq<Action>, m: Machine)
    requires Legal(log)
    ensures Execute(schedule) == Reached(m) && m.lock.Free? && m.log == log
  {
    if log == [] {
      schedule, m := [], Boot();
    } else {
      schedule, m := Realised(Front(log));
      assert log == Front(log) + [Last(log)];
      var begun := BeginSection(schedule, m, Last(log));
      var rest, done := FinishSection(schedule + [Acquire(Last(log))], begun, begun.lock.owner);
      schedule, m := schedule + [Acquire(Last(log))] + rest, done;
    }
  }

  /** The sections begun by a schedule, in the order in which their threads took the lock, each with the
      samples or the request that its thread brought. */
  function Begun(schedule: seq<Action>): Log {
    if schedule == [] then []
    else var before := Begun(schedule[..|schedule| - 1]);
      match schedule[|schedule| - 1]
      case AdcLock(raw) => before + [if Start in before then Sample(raw) else Start]
      case ModbusLock(req) => before + [Serve(req)]
      case MainLock => before + [Tick]
      case Step(_) => before
  }

  /** The sections completed, and the one in progress if there is one. */
  function Taken(m: Machine): Log {
    if m.lock.Free? then m.log else m.log + [CurrentEvent(m)]
  }

  lemma LockTakes(m: Machine, a: Action)
    requires Invariant(m) && Enabled(m, a) && !a.Step?
    ensures Taken(Next(m, a)) == m.log + [match a
              case AdcLock(raw) => (if Start in m.log then Sample(raw) else Start)
              case ModbusLock(req) => Serve(req)
              case MainLock => Tick]
  {
  }

  lemma StepTakes(m: Machine, t: Owner)
    requires Invariant(m) && Enabled(m, Step(t))
    ensures Taken(Next(m, Step(t))) == Taken(m)
  {
    hide Next, CurrentEvent;
    StepRefines(m, Step(t));
    HolderProgress(m);
  }

  /** No sample and no request is lost, invented, altered or reordered: the log of a run is exactly the
      sections begun by its schedule, but for the one still in progress. */
  lemma {:induction false} LogIsBegun(schedule: seq<Action>)
    requires Execute(schedule).Reached?
    ensures Taken(Execute(schedule).m) == Begun(schedule)
  {
    if schedule != [] {
      var m, a := ExecuteFront(schedule);
      LogIsBegun(schedule[..|schedule| - 1]);
      Reachable(schedule[..|schedule| - 1]);
      match a
      case Step(t) => StepTakes(m, t);
      case _ => LockTakes(m, a);
    }
  }

  // ----- What every reader finds

  /** Whenever the lock is free the register file is the result of the completed sections taken
      atomically, in the phase their history says, and every channel records exactly the samples since
      the last reset. */
  lemma LockFreeState(schedule: seq<Action>, c: Channel)
    requires Execute(schedule).Reached? && Execute(schedule).m.lock.Free?
    ensures var m := Execute(schedule).m;
            && Legal(m.log) && m.s == Replay(m.log) && m.sent == Answers(m.log)
            && PhaseInvariant(PhaseOf(m.log), m.s.input)
            && (Started(m.log) ==>
                  && Records(StatsOf(m.s.input, c), Window(m.log), c)
                  && 0.0 <= WeightedSum(Milivolts(Window(m.log), c)) - m.s.input.avg[c] as real < 3.0)
  {
    Reachable(schedule);
    var log := Execute(schedule).m.log;
    PhaseHolds(log);
    if Started(log) {
      ChannelHistory(log, c);
      AverageWithinThree(log, c);
    }
  }

  lemma {:induction false} AnswerAt(log: Log, k: nat) returns (j: nat)
    requires k < |Answers(log)|
    ensures j < |log| && log[j].Serve? && |Answers(log[..j])| == k
    ensures Answers(log)[k] == Respond(Replay(log[..j]), log[j].req)
  {
    if k < |Answers(Front(log))| {
      j := AnswerAt(Front(log), k);
      assert log[..j] == Front(log)[..j];
    } else {
      j := |log| - 1;
    }
  }

  /** The `k`-th response sent, although its bytes were gathered one at a time, is the response to the
      `k`-th request computed from the single register file that the sections before it left. */
  lemma ResponseIsSnapshot(schedule: seq<Action>, k: nat) returns (j: nat)
    requires Execute(schedule).Reached? && k < |Execute(schedule).m.sent|
    ensures var m := Execute(schedule).m;
            && j < |m.log| && m.log[j].Serve? && |Answers(m.log[..j])| == k
            && m.sent[k] == Respond(Replay(m.log[..j]), m.log[j].req)
  {
    Reachable(schedule);
    j := AnswerAt(Execute(schedule).m.log, k);
  }

  /** Register `reg` as a master decodes it from the bytes of a read of all input registers. */
  function Decoded(bytes: seq<uint8>, reg: nat): int
    requires |bytes| == 2 * INPUT_NREGS && 1 <= reg <= INPUT_NREGS
  {
    Interpreted(reg, WireValue(bytes[2 * (reg - 1)], bytes[2 * (reg - 1) + 1]))
  }

  /** What a master may decode for channel `c`: the zeroes of a booting device, the sentinels of a device
      without samples, or consistent statistics. */
  predicate Consistent(status: int, now: int, min: int, max: int, avg: int) {
    || (status == 0 && now == min == max == avg == 0)
    || (status == 1 && now == avg == 0 && min == 32767 && max == -32768)
    || (status == 1 && 0 <= min <= now <= max <= 3300 && 0 <= avg <= max)
  }

  predicate ConsistentBytes(bytes: seq<uint8>, c: Channel) {
    |bytes| == 36
    && Consistent(Decoded(bytes, 1), Decoded(bytes, 3 + c), Decoded(bytes, 7 + c), Decoded(bytes, 11 + c), Decoded(bytes, 15 + c))
  }

  lemma DecodedIsDocumented(s: State, reg: nat)
    requires 1 <= reg <= 18
    ensures var answer := Respond(s, ReadInput(1, 18));
            answer.err == NoErr && |answer.bytes| == 36 && Decoded(answer.bytes, reg) == DocumentedInput(s.input, reg)
  {
    InputWindowFields(s, 1, 18, reg - 1);
  }

  lemma PhaseConsistent(log: Log, c: Channel)
    requires Legal(log)
    ensures var input := Replay(log).input;
            Consistent(input.status, input.now[c], input.min[c], input.max[c], input.avg[c])
  {
    PhaseHolds(log);
    var input, st := Replay(log).input, StatsOf(Replay(log).input, c);
    assert st.now == input.now[c] && st.min == input.min[c] && st.max == input.max[c] && st.avg == input.avg[c];
  }

  lemma SnapshotConsistent(log: Log, c: Channel)
    requires Legal(log)
    ensures ConsistentBytes(Respond(Replay(log), ReadInput(1, 18)).bytes, c)
    ensures Decoded(Respond(Replay(log), ReadInput(1, 18)).bytes, 2) == Ticks(log) % 0x1_0000
  {
    hide Respond, Replay, Decoded, Legal;
    var s := Replay(log);
    PhaseConsistent(log, c);
    CounterCountsTicks(log);
    DecodedIsDocumented(s, 1);
    DecodedIsDocumented(s, 2);
    DecodedIsDocumented(s, 3 + c);
    DecodedIsDocumented(s, 7 + c);
    DecodedIsDocumented(s, 11 + c);
    DecodedIsDocumented(s, 15 + c);
  }

  /** No read is torn: whenever a master reads all input registers, what it decodes is consistent on every
      channel and the counter is that of one moment, whatever the other threads were doing while the
      bytes were sent. */
  lemma FullReadConsistent(schedule: seq<Action>, k: nat, c: Channel) returns (j: nat)
    requires Execute(schedule).Reached? && k < |Execute(schedule).m.sent|
    ensures var m := Execute(schedule).m;
            && j < |m.log| && m.log[j].Serve? && |Answers(m.log[..j])| == k
            && (m.log[j].req == ReadInput(1, 18) ==>
                  && m.sent[k].err == NoErr && ConsistentBytes(m.sent[k].bytes, c)
                  && Decoded(m.sent[k].bytes, 2) == Ticks(m.log[..j]) % 0x1_0000)
  {
    hide Execute, Replay, Legal, Answers, Decoded;
    j := ResponseIsSnapshot(schedule, k);
    Reachable(schedule);
    var log := Execute(schedule).m.log;
    var before := log[..j];
    assert before + log[j..] == log;
    PhaseForward(before, log[j..]);
    SnapshotConsistent(before, c);
    DecodedIsDocumented(Replay(before), 1);
  }

  lemma TicksSnoc(log: Log, e: Event)
    ensures Ticks(log + [e]) == Ticks(log) + if e.Tick? then 1 else 0
  {
    assert Front(log + [e]) == log;
  }

  /** Increments that have reached the register. */
  function Increments(m: Machine): nat {
    Ticks(m.log) + if m.main.MainUnlock? then 1 else 0
  }

  lemma AdcKeepsCounter(m: Machine)
    requires InSection(m, Adc)
    ensures AdcStep(m).s.input.cntr == m.s.input.cntr && Increments(AdcStep(m)) == Increments(m)
  {
    hide Converted, Averaged, Min, Max, Ticks;
    if m.adc.AdcUnlock? {
      TicksSnoc(m.log, AdcEvent(m));
    }
  }

  lemma ModbusKeepsInput(m: Machine)
    requires InSection(m, Modbus) && InBounds(m)
    ensures ModbusStep(m).s.input == m.s.input && Increments(ModbusStep(m)) == Increments(m)
  {
    if m.mb.ModbusUnlock? {
      TicksSnoc(m.log, Serve(m.req));
    }
  }

  lemma MainCounts(m: Machine)
    requires InSection(m, Main) && (m.main.StoreCounter? ==> m.main.loaded == m.s.input.cntr)
    ensures var n, d := MainStep(m), if m.main.StoreCounter? then 1 else 0;
            Increments(n) == Increments(m) + d && n.s.input.cntr == (m.s.input.cntr + d) % 0x1_0000
  {
    if m.main.MainUnlock? {
      TicksSnoc(m.log, Tick);
    }
  }

  lemma CounterStep(m: Machine, a: Action)
    requires Invariant(m) && Enabled(m, a) && m.s.input.cntr == Increments(m) % 0x1_0000
    ensures Next(m, a).s.input.cntr == Increments(Next(m, a)) % 0x1_0000
  {
    match a
    case Step(Adc) => AdcKeepsCounter(m);
    case Step(Modbus) => ModbusKeepsInput(m);
    case Step(Main) => MainCounts(m);
    case _ =>
  }

  lemma ExecuteFront(schedule: seq<Action>) returns (m: Machine, a: Action)
    requires schedule != [] && Execute(schedule).Reached?
    ensures a == schedule[|schedule| - 1] && Execute(schedule[..|schedule| - 1]) == Reached(m)
    ensures Enabled(m, a) && Execute(schedule) == Reached(Next(m, a))
  {
    a := schedule[|schedule| - 1];
    m := Execute(schedule[..|schedule| - 1]).m;
  }

  /** In every reachable state, also in the middle of sections, the counter register is the number of
      increments stored so far modulo 65536. */
  lemma {:induction false} CounterExact(schedule: seq<Action>)
    requires Execute(schedule).Reached?
    ensures var m := Execute(schedule).m; m.s.input.cntr == Increments(m) % 0x1_0000
  {
    if schedule != [] {
      var m, a := ExecuteFront(schedule);
      CounterExact(schedule[..|schedule| - 1]);
      Reachable(schedule[..|schedule| - 1]);
      CounterStep(m, a);
    }
  }

  /** 0 as long as the ADC thread has not stored the ready status. */
  function ReadyStatus(pc: AdcPc): uint16 {
    if InBoot(pc) && !pc.AdcUnlock? then 0 else 1
  }

  lemma StatusStep(m: Machine, a: Action)
    requires Enabled(m, a) && m.s.input.status == ReadyStatus(m.adc)
    ensures Next(m, a).s.input.status == ReadyStatus(Next(m, a).adc)
    ensures ReadyStatus(m.adc) <= ReadyStatus(Next(m, a).adc)
  {
    match a
    case Step(Modbus) => ModbusKeepsInput(m);
    case _ => hide ModbusStep;
  }

  /** In every reachable state, also in the middle of sections, the status register is 0 until the ADC
      thread's one store to it and 1 ever after. */
  lemma {:induction false} StatusExact(schedule: seq<Action>)
    requires Execute(schedule).Reached?
    ensures var m := Execute(schedule).m; m.s.input.status == ReadyStatus(m.adc)
  {
    if schedule != [] {
      var m, a := ExecuteFront(schedule);
      StatusExact(schedule[..|schedule| - 1]);
      StatusStep(m, a);
    }
  }

  /** Along any run the status register never falls. */
  lemma {:induction false} StatusNeverFalls(schedule: seq<Action>, more: seq<Action>)
    requires Execute(schedule + more).Reached?
    ensures Execute(schedule).Reached?
    ensures Execute(schedule).m.s.input.status <= Execute(schedule + more).m.s.input.status <= 1
  {
    hide Next, Enabled;
    StatusExact(schedule + more);
    if more == [] {
      assert schedule + more == schedule;
    } else {
      var front := more[..|more| - 1];
      assert (schedule + more)[..|schedule + more| - 1] == schedule + front;
      var m, a := ExecuteFront(schedule + more);
      StatusNeverFalls(schedule, front);
      StatusExact(schedule + front);
      StatusStep(m, a);
    }
  }

  /** The delay the ADC thread sleeps for is the interval register of the section it just left. */
  lemma DelayIsInterval(schedule: seq<Action>)
    requires Execute(schedule).Reached? && Execute(schedule).m.adc == AdcUnlock(false)
    ensures var m := Execute(schedule).m; m.interval == Replay(m.log).holding.interval
  {
    Reachable(schedule);
  }
}
