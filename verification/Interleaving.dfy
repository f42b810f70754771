/** The three threads of the device, interleaved at single accesses: every store of a register, every
    loaded value that is used later, every byte sent or received, every lock and unlock is a step of its
    own. The lock is an ordinary variable; that it excludes is proved, not assumed. */
module Interleaving {
  import opened Words
  import opened Average
  import opened Registers
  import opened History

  datatype Owner = Adc | Modbus | Main

  datatype Lock = Free | Held(owner: Owner)

  /** `thread_adc`. `boot` tells the reset before the loop from a reset on request. */
  datatype AdcPc =
    | Opening
    | ResetMin(boot: bool, i: Channel) | ResetMax(boot: bool, i: Channel) | ResetAvg(boot: bool, i: Channel)
    | SetReady
    | Waiting
    | TestRequest | ClearRequest
    | StoreNow(i: Channel) | StoreMin(i: Channel) | StoreMax(i: Channel) | StoreAvg(i: Channel)
    | LoadInterval
    | AdcUnlock(boot: bool)

  /** The callbacks run by `thread_modbus`. `left` counts the registers still to move. */
  datatype ModbusPc =
    | Polling
    | CheckWindow
    | SendFirst(index: nat, left: nat) | SendSecond(index: nat, left: nat)
    | PutFirst(index: nat, left: nat, pos: nat) | PutSecond(index: nat, left: nat, pos: nat)
    | ModbusUnlock(err: ErrorCode)

  datatype MainPc = Sleeping | LoadCounter | StoreCounter(loaded: uint16) | MainUnlock

  /** The shared register file and the lock, the threads with their local variables, and two history
      variables: the sections completed so far and the responses sent so far. */
  datatype Machine = Machine(
    lock: Lock, s: State,
    adc: AdcPc, raw: RawSamples, interval: uint16,
    mb: ModbusPc, req: ValidRequest, out: seq<uint8>,
    main: MainPc,
    log: Log, sent: seq<Response>)

  function Boot(): Machine {
    Machine(Free, Initial(), Opening, [0, 0, 0, 0], 0, Polling, ReadInput(0, 0), [], Sleeping, [], [])
  }

  /** A thread takes the lock with whatever samples it read or request it got, or takes its next step. */
  datatype Action = AdcLock(raw: RawSamples) | ModbusLock(req: ValidRequest) | MainLock | Step(thread: Owner)

  predicate InSection(m: Machine, t: Owner) {
    match t
    case Adc => !m.adc.Opening? && !m.adc.Waiting?
    case Modbus => !m.mb.Polling?
    case Main => !m.main.Sleeping?
  }

  function ViewWords(s: State, req: ValidRequest): seq<uint16> {
    if req.ReadInput? then InputWords(s.input) else HoldingWords(s.holding)
  }

  /** The next access of the Modbus thread is to a register of the view and a byte of the request. */
  predicate InBounds(m: Machine) {
    match m.mb
    case SendFirst(index, left) => index < |ViewWords(m.s, m.req)| && left > 0
    case SendSecond(index, left) => index < |ViewWords(m.s, m.req)| && left > 0
    case PutFirst(index, left, pos) => index < HOLDING_NREGS && left > 0 && m.req.WriteHolding? && pos < |m.req.data|
    case PutSecond(index, left, pos) => index < HOLDING_NREGS && left > 0 && m.req.WriteHolding? && pos + 1 < |m.req.data|
    case _ => true
  }

  /** Only taking the lock waits. A step that would access memory outside the view is not enabled. */
  predicate Enabled(m: Machine, a: Action) {
    match a
    case AdcLock(_) => m.lock.Free? && !InSection(m, Adc)
    case ModbusLock(_) => m.lock.Free? && !InSection(m, Modbus)
    case MainLock => m.lock.Free? && !InSection(m, Main)
    case Step(t) => InSection(m, t) && (t.Modbus? ==> InBounds(m))
  }

  function Next(m: Machine, a: Action): Machine
    requires Enabled(m, a)
  {
    match a
    case AdcLock(raw) =>
      m.(lock := Held(Adc), raw := raw, adc := if m.adc.Opening? then ResetMin(true, 0) else TestRequest)
    case ModbusLock(req) => m.(lock := Held(Modbus), req := req, out := [], mb := CheckWindow)
    case MainLock => m.(lock := Held(Main), main := LoadCounter)
    case Step(Adc) => AdcStep(m)
    case Step(Modbus) => ModbusStep(m)
    case Step(Main) => MainStep(m)
  }

  // ----- Single stores

  function PutNow(s: State, i: Channel, x: int16): State {
    s.(input := s.input.(now := s.input.now[i := x]))
  }

  function PutMin(s: State, i: Channel, x: int16): State {
    s.(input := s.input.(min := s.input.min[i := x]))
  }

  function PutMax(s: State, i: Channel, x: int16): State {
    s.(input := s.input.(max := s.input.max[i := x]))
  }

  function PutAvg(s: State, i: Channel, x: int16): State {
    s.(input := s.input.(avg := s.input.avg[i := x]))
  }

  function Converted(raw: Raw): int16 {
    RawToMilivoltRange(raw);
    RawToMilivolt(raw)
  }

  function Averaged(avg: int16, now: int16): int16 {
    EmaStepBetween(avg, now, INT16_MIN, INT16_MAX);
    EmaStep(avg, now)
  }

  // ----- Thread steps

  function AdcStep(m: Machine): Machine
    requires InSection(m, Adc)
  {
    var s := m.s;
    match m.adc
    case ResetMin(boot, i) => m.(s := PutMin(s, i, INT16_MAX), adc := ResetMax(boot, i))
    case ResetMax(boot, i) => m.(s := PutMax(s, i, INT16_MIN), adc := ResetAvg(boot, i))
    case ResetAvg(boot, i) =>
      m.(s := PutAvg(s, i, 0),
         adc := if i + 1 < ADC_SAMPLES then ResetMin(boot, i + 1) else if boot then SetReady else ClearRequest)
    case SetReady => m.(s := s.(input := s.input.(status := 1)), adc := AdcUnlock(true))
    case TestRequest => m.(adc := if s.holding.rstStats != 0 then ResetMin(false, 0) else StoreNow(0))
    case ClearRequest => m.(s := s.(holding := s.holding.(rstStats := 0)), adc := StoreNow(0))
    case StoreNow(i) => m.(s := PutNow(s, i, Converted(m.raw[i])), adc := StoreMin(i))
    case StoreMin(i) => m.(s := PutMin(s, i, Min(s.input.now[i], s.input.min[i])), adc := StoreMax(i))
    case StoreMax(i) => m.(s := PutMax(s, i, Max(s.input.now[i], s.input.max[i])), adc := StoreAvg(i))
    case StoreAvg(i) =>
      m.(s := PutAvg(s, i, Averaged(s.input.avg[i], s.input.now[i])),
         adc := if i + 1 < ADC_SAMPLES then StoreNow(i + 1) else LoadInterval)
    case LoadInterval => m.(interval := s.holding.interval, adc := AdcUnlock(false))
    case AdcUnlock(boot) => m.(lock := Free, adc := Waiting, log := m.log + [if boot then Start else Sample(m.raw)])
  }

  function ModbusStep(m: Machine): Machine
    requires InSection(m, Modbus) && InBounds(m)
  {
    var s, req := m.s, m.req;
    match m.mb
    case CheckWindow =>
      m.(mb := if !req.Accepted() then ModbusUnlock(NoReg)
               else if req.nregs == 0 then ModbusUnlock(NoErr)
               else if req.WriteHolding? then PutFirst(req.Index(), req.nregs, 0)
               else SendFirst(req.Index(), req.nregs))
    case SendFirst(index, left) =>
      m.(out := m.out + [FirstByte(ViewWords(s, req)[index])], mb := SendSecond(index, left))
    case SendSecond(index, left) =>
      m.(out := m.out + [SecondByte(ViewWords(s, req)[index])],
         mb := if left > 1 then SendFirst(index + 1, left - 1) else ModbusUnlock(NoErr))
    case PutFirst(index, left, pos) =>
      m.(s := s.(holding := SetHoldingWord(s.holding, index, Swap16(req.data[pos]))),
         mb := PutSecond(index, left, pos))
    case PutSecond(index, left, pos) =>
      m.(s := s.(holding := OrSecond(s.holding, index, req.data[pos + 1])),
         mb := if left > 1 then PutFirst(index + 1, left - 1, pos + 2) else ModbusUnlock(NoErr))
    case ModbusUnlock(err) =>
      m.(lock := Free, mb := Polling, log := m.log + [Serve(req)], sent := m.sent + [Response(err, m.out)])
  }

  function OrSecond(h: Holding, index: nat, second: uint8): Holding
    requires index < HOLDING_NREGS
  {
    SetHoldingWord(h, index, Or16(HoldingWords(h)[index], Swap16(second * 0x100)))
  }

  function MainStep(m: Machine): Machine
    requires InSection(m, Main)
  {
    match m.main
    case LoadCounter => m.(main := StoreCounter(m.s.input.cntr))
    case StoreCounter(loaded) =>
      m.(s := m.s.(input := m.s.input.(cntr := (loaded + 1) % 0x1_0000)), main := MainUnlock)
    case MainUnlock => m.(lock := Free, main := Sleeping, log := m.log + [Tick])
  }

  // ----- What the rest of a section will do, run without interruption

  /** The channels from `i` on are still to be reset. */
  function ResetFrom(s: State, i: nat): State
    requires i <= ADC_SAMPLES
    decreases ADC_SAMPLES - i
  {
    if i == ADC_SAMPLES then s else ResetFrom(PutAvg(PutMax(PutMin(s, i, INT16_MAX), i, INT16_MIN), i, 0), i + 1)
  }

  /** The channels from `i` on still have to store their sample. */
  function StoreFrom(s: State, raw: RawSamples, i: nat): State
    requires i <= ADC_SAMPLES
    decreases ADC_SAMPLES - i, 3
  {
    if i == ADC_SAMPLES then s else RestOfMin(PutNow(s, i, Converted(raw[i])), raw, i)
  }

  function RestOfMin(s: State, raw: RawSamples, i: Channel): State
    decreases ADC_SAMPLES - i, 2
  {
    RestOfMax(PutMin(s, i, Min(s.input.now[i], s.input.min[i])), raw, i)
  }

  function RestOfMax(s: State, raw: RawSamples, i: Channel): State
    decreases ADC_SAMPLES - i, 1
  {
    RestOfAvg(PutMax(s, i, Max(s.input.now[i], s.input.max[i])), raw, i)
  }

  function RestOfAvg(s: State, raw: RawSamples, i: Channel): State
    decreases ADC_SAMPLES - i, 0
  {
    StoreFrom(PutAvg(s, i, Averaged(s.input.avg[i], s.input.now[i])), raw, i + 1)
  }

  function AfterReset(s: State, raw: RawSamples, boot: bool): State {
    if boot then s.(input := s.input.(status := 1))
    else StoreFrom(s.(holding := s.holding.(rstStats := 0)), raw, 0)
  }

  function RestOfAdc(m: Machine): State
    requires InSection(m, Adc)
  {
    var s, raw := m.s, m.raw;
    match m.adc
    case ResetMin(boot, i) => AfterReset(ResetFrom(s, i), raw, boot)
    case ResetMax(boot, i) => AfterReset(ResetFrom(PutAvg(PutMax(s, i, INT16_MIN), i, 0), i + 1), raw, boot)
    case ResetAvg(boot, i) => AfterReset(ResetFrom(PutAvg(s, i, 0), i + 1), raw, boot)
    case SetReady => AfterReset(s, raw, true)
    case TestRequest =>
      if s.holding.rstStats != 0 then AfterReset(ResetFrom(s, 0), raw, false) else StoreFrom(s, raw, 0)
    case ClearRequest => AfterReset(s, raw, false)
    case StoreNow(i) => StoreFrom(s, raw, i)
    case StoreMin(i) => RestOfMin(s, raw, i)
    case StoreMax(i) => RestOfMax(s, raw, i)
    case StoreAvg(i) => RestOfAvg(s, raw, i)
    case LoadInterval => s
    case AdcUnlock(_) => s
  }

  lemma {:induction false} ResetFromPerChannel(s: State, i: nat, c: Channel)
    requires i <= ADC_SAMPLES
    ensures var t := ResetFrom(s, i);
            && StatsOf(t.input, c) == (if c < i then StatsOf(s.input, c) else ClearStats(StatsOf(s.input, c)))
            && t.input.status == s.input.status && t.input.cntr == s.input.cntr && t.holding == s.holding
    decreases ADC_SAMPLES - i
  {
    if i < ADC_SAMPLES {
      ResetFromPerChannel(PutAvg(PutMax(PutMin(s, i, INT16_MAX), i, INT16_MIN), i, 0), i + 1, c);
    }
  }

  lemma ResetFromStart(s: State)
    ensures ResetFrom(s, 0) == s.(input := ResetStats(s.input))
  {
    forall c: Channel
      ensures StatsOf(ResetFrom(s, 0).input, c) == StatsOf(ResetStats(s.input), c)
    {
      ResetFromPerChannel(s, 0, c);
      ResetStatsPerChannel(s.input, c);
    }
    ResetFromPerChannel(s, 0, 0);
    SameInput(ResetFrom(s, 0).input, ResetStats(s.input));
  }

  /** One channel's four stores amount to adding the sample to its statistics. */
  function StoreChannel(s: State, raw: Raw, i: Channel): State {
    s.(input := SetStats(s.input, i, AddSample(StatsOf(s.input, i), raw)))
  }

  lemma StoreFromStep(s: State, raw: RawSamples, i: Channel)
    ensures StoreFrom(s, raw, i) == StoreFrom(StoreChannel(s, raw[i], i), raw, i + 1)
  {
    var a := PutNow(s, i, Converted(raw[i]));
    var b := PutMin(a, i, Min(a.input.now[i], a.input.min[i]));
    var c := PutMax(b, i, Max(b.input.now[i], b.input.max[i]));
    var d := PutAvg(c, i, Averaged(c.input.avg[i], c.input.now[i]));
    assert StoreFrom(s, raw, i) == RestOfMin(a, raw, i) == RestOfMax(b, raw, i) == RestOfAvg(c, raw, i)
        == StoreFrom(d, raw, i + 1);
    assert d == StoreChannel(s, raw[i], i);
  }

  lemma {:induction false} StoreFromPerChannel(s: State, raw: RawSamples, i: nat, c: Channel)
    requires i <= ADC_SAMPLES
    ensures var t := StoreFrom(s, raw, i);
            && StatsOf(t.input, c)
               == (if c < i then StatsOf(s.input, c) else AddSample(StatsOf(s.input, c), raw[c]))
            && t.input.status == s.input.status && t.input.cntr == s.input.cntr && t.holding == s.holding
    decreases ADC_SAMPLES - i
  {
    if i < ADC_SAMPLES {
      StoreFromStep(s, raw, i);
      StoreFromPerChannel(StoreChannel(s, raw[i], i), raw, i + 1, c);
    }
  }

  lemma StoreFromStart(s: State, raw: RawSamples)
    ensures StoreFrom(s, raw, 0) == s.(input := StoreSamples(s.input, raw))
  {
    forall c: Channel
      ensures StatsOf(StoreFrom(s, raw, 0).input, c) == StatsOf(StoreSamples(s.input, raw), c)
    {
      StoreFromPerChannel(s, raw, 0, c);
      StoreSamplesPerChannel(s.input, raw, c);
    }
    StoreFromPerChannel(s, raw, 0, 0);
    SameInput(StoreFrom(s, raw, 0).input, StoreSamples(s.input, raw));
  }

  function AdcEvent(m: Machine): Event {
    if InBoot(m.adc) then Start else Sample(m.raw)
  }

  /** The ADC thread has not finished its start section. */
  predicate InBoot(pc: AdcPc) {
    match pc
    case Opening => true
    case ResetMin(boot, _) => boot
    case ResetMax(boot, _) => boot
    case ResetAvg(boot, _) => boot
    case SetReady => true
    case AdcUnlock(boot) => boot
    case _ => false
  }

  /** A section of the ADC thread, run from its first step, has the effect of the atomic section. */
  lemma AdcFromStart(m: Machine)
    requires m.adc == ResetMin(true, 0) || m.adc == TestRequest
    ensures RestOfAdc(m) == Apply(m.s, AdcEvent(m))
  {
    hide ResetFrom, StoreFrom, ResetStats, StoreSamples;
    ResetFromStart(m.s);
    StoreFromStart(m.s, m.raw);
    var cleared := State(ResetStats(m.s.input), m.s.holding.(rstStats := 0));
    StoreFromStart(cleared, m.raw);
  }

  lemma ResetStepKeepsRest(m: Machine)
    requires m.adc.ResetMin? || m.adc.ResetMax? || m.adc.ResetAvg?
    ensures InSection(AdcStep(m), Adc) && AdcEvent(AdcStep(m)) == AdcEvent(m)
    ensures RestOfAdc(AdcStep(m)) == RestOfAdc(m)
  {
    hide StoreFrom;
    var n := AdcStep(m);
    match m.adc
    case ResetMin(_, i) => assert RestOfAdc(m) == RestOfAdc(n);
    case ResetMax(_, i) => assert RestOfAdc(m) == RestOfAdc(n);
    case ResetAvg(_, i) => assert i + 1 == ADC_SAMPLES ==> ResetFrom(n.s, i + 1) == n.s;
  }

  lemma StoreStepKeepsRest(m: Machine)
    requires m.adc.StoreNow? || m.adc.StoreMin? || m.adc.StoreMax? || m.adc.StoreAvg?
    ensures InSection(AdcStep(m), Adc) && AdcEvent(AdcStep(m)) == AdcEvent(m)
    ensures RestOfAdc(AdcStep(m)) == RestOfAdc(m)
  {
    var n := AdcStep(m);
    match m.adc
    case StoreNow(i) => assert StoreFrom(m.s, m.raw, i) == RestOfMin(n.s, m.raw, i);
    case StoreMin(i) => assert RestOfMin(m.s, m.raw, i) == RestOfMax(n.s, m.raw, i);
    case StoreMax(i) => assert RestOfMax(m.s, m.raw, i) == RestOfAvg(n.s, m.raw, i);
    case StoreAvg(i) => assert i + 1 == ADC_SAMPLES ==> StoreFrom(n.s, m.raw, i + 1) == n.s;
  }

  /** A step inside a section of the ADC thread leaves the outcome of the section as it was. */
  lemma AdcStepKeepsRest(m: Machine)
    requires InSection(m, Adc) && !m.adc.AdcUnlock?
    ensures InSection(AdcStep(m), Adc) && AdcEvent(AdcStep(m)) == AdcEvent(m)
    ensures RestOfAdc(AdcStep(m)) == RestOfAdc(m)
  {
    if m.adc.ResetMin? || m.adc.ResetMax? || m.adc.ResetAvg? {
      ResetStepKeepsRest(m);
    } else if m.adc.StoreNow? || m.adc.StoreMin? || m.adc.StoreMax? || m.adc.StoreAvg? {
      StoreStepKeepsRest(m);
    }
  }

  // ----- The rest of a Modbus section

  /** The loop variables of the Modbus thread agree with the request. */
  predicate ModbusFits(m: Machine) {
    match m.mb
    case SendFirst(index, left) => left > 0 && !m.req.WriteHolding? && index + left <= |ViewWords(m.s, m.req)|
    case SendSecond(index, left) => left > 0 && !m.req.WriteHolding? && index + left <= |ViewWords(m.s, m.req)|
    case PutFirst(index, left, pos) => PutFits(m.req, index, left, pos)
    case PutSecond(index, left, pos) => PutFits(m.req, index, left, pos)
    case _ => true
  }

  predicate PutFits(req: ValidRequest, index: nat, left: nat, pos: nat) {
    left > 0 && req.WriteHolding? && index + left <= HOLDING_NREGS && pos + 2 * left == |req.data|
  }

  /** The bytes of `left` registers from position `index` on. */
  function EncodedRun(words: seq<uint16>, index: nat, left: nat): seq<uint8>
    requires index + left <= |words|
  {
    EncodeWords(words[index..index + left])
  }

  function RestOfModbus(m: Machine): (State, Response)
    requires InSection(m, Modbus) && ModbusFits(m)
  {
    var s, req, out := m.s, m.req, m.out;
    match m.mb
    case CheckWindow => (ServeSection(s, req), Respond(s, req))
    case SendFirst(index, left) => (s, Response(NoErr, out + EncodedRun(ViewWords(s, req), index, left)))
    case SendSecond(index, left) =>
      (s, Response(NoErr, out + [SecondByte(ViewWords(s, req)[index])]
                          + EncodedRun(ViewWords(s, req), index + 1, left - 1)))
    case PutFirst(index, left, pos) => (RestOfPut(s, req, s.holding, index, pos), Response(NoErr, out))
    case PutSecond(index, left, pos) =>
      (RestOfPut(s, req, OrSecond(s.holding, index, req.data[pos + 1]), index + 1, pos + 2), Response(NoErr, out))
    case ModbusUnlock(err) => (s, Response(err, out))
  }

  function RestOfPut(s: State, req: ValidRequest, h: Holding, index: nat, pos: nat): State
    requires req.WriteHolding? && pos <= |req.data| && (|req.data| - pos) % 2 == 0
    requires index + (|req.data| - pos) / 2 <= HOLDING_NREGS
  {
    s.(holding := StoreWords(h, index, DecodeWords(req.data[pos..])))
  }

  lemma PutSteps(s: State, req: ValidRequest, index: nat, left: nat, pos: nat)
    requires PutFits(req, index, left, pos)
    ensures var first := SetHoldingWord(s.holding, index, Swap16(req.data[pos]));
            RestOfPut(s, req, s.holding, index, pos)
            == RestOfPut(s, req, OrSecond(first, index, req.data[pos + 1]), index + 1, pos + 2)
  {
    var data := req.data[pos..];
    assert data[2..] == req.data[pos + 2..];
    assert DecodeWords(data) == [AssembleWord(data[0], data[1])] + DecodeWords(data[2..]);
  }

  /** The outcome of a Modbus section is not changed by a step that does not end it. */
  predicate KeepsModbus(m: Machine)
    requires InSection(m, Modbus) && ModbusFits(m) && InBounds(m) && !m.mb.ModbusUnlock?
  {
    var n := ModbusStep(m);
    InSection(n, Modbus) && ModbusFits(n) && RestOfModbus(n) == RestOfModbus(m) && !n.mb.CheckWindow?
  }

  lemma CheckKeepsRest(m: Machine)
    requires m.mb.CheckWindow? && m.out == []
    ensures KeepsModbus(m)
  {
    if m.req.Accepted() {
      if m.req.WriteHolding? {
        assert m.req.data[0..] == m.req.data;
        assert m.req.nregs == 0 ==> StoreWords(m.s.holding, m.req.Index(), []) == m.s.holding;
      } else {
        var window := ViewWords(m.s, m.req)[m.req.Index()..m.req.Index() + m.req.nregs];
        assert m.out + EncodeWords(window) == EncodeWords(window) == Respond(m.s, m.req).bytes;
        assert m.req.nregs == 0 ==> window == [];
      }
    }
  }

  /** Sending the first byte of a word moves it from the rest of the run to the bytes sent. */
  lemma SendSplit(out: seq<uint8>, words: seq<uint16>, index: nat, left: nat)
    requires left > 0 && index + left <= |words|
    ensures out + EncodedRun(words, index, left)
         == out + [FirstByte(words[index])] + [SecondByte(words[index])] + EncodedRun(words, index + 1, left - 1)
    ensures EncodedRun(words, index + 1, 0) == []
  {
    var window := words[index..index + left];
    assert window[1..] == words[index + 1..index + 1 + (left - 1)];
  }

  lemma SendKeepsRest(m: Machine)
    requires (m.mb.SendFirst? || m.mb.SendSecond?) && ModbusFits(m)
    ensures KeepsModbus(m)
  {
    var words := ViewWords(m.s, m.req);
    hide EncodedRun, InputWords, HoldingWords, FirstByte, SecondByte, AdcStep, MainStep;
    SendSplit(m.out, words, m.mb.index, m.mb.left);
    var sent := m.out + [SecondByte(words[m.mb.index])];
    assert sent + [] == sent;
  }

  lemma PutKeepsRest(m: Machine)
    requires (m.mb.PutFirst? || m.mb.PutSecond?) && ModbusFits(m)
    ensures KeepsModbus(m)
  {
    if m.mb.PutFirst? {
      PutSteps(m.s, m.req, m.mb.index, m.mb.left, m.mb.pos);
    } else {
      assert m.mb.left == 1 ==> m.req.data[m.mb.pos + 2..] == [];
    }
  }

  lemma ModbusStepKeepsRest(m: Machine)
    requires InSection(m, Modbus) && ModbusFits(m) && !m.mb.ModbusUnlock?
    requires m.mb.CheckWindow? ==> m.out == []
    ensures InBounds(m) && KeepsModbus(m)
  {
    if m.mb.CheckWindow? {
      CheckKeepsRest(m);
    } else if m.mb.SendFirst? || m.mb.SendSecond? {
      SendKeepsRest(m);
    } else {
      PutKeepsRest(m);
    }
  }
}
