/** Runs of the device as sequences of critical sections, each taken as one atomic step: what the
    register file holds after any run, in terms of what happened in it. */
module History {
  import opened Words
  import opened Average
  import opened Registers
  import opened Windows

  type ValidRequest = r: Request | r.Valid() witness ReadInput(0, 0)

  datatype Event = Start | Sample(raw: RawSamples) | Tick | Serve(req: ValidRequest)

  type Log = seq<Event>

  function Apply(s: State, e: Event): State {
    match e
    case Start => StartSection(s)
    case Sample(raw) => SampleSection(s, raw)
    case Tick => TickSection(s)
    case Serve(req) => ServeSection(s, req)
  }

  function Front(log: Log): Log
    requires log != []
  {
    log[..|log| - 1]
  }

  function Last(log: Log): Event
    requires log != []
  {
    log[|log| - 1]
  }

  function Replay(log: Log): State {
    if log == [] then Initial() else Apply(Replay(Front(log)), Last(log))
  }

  predicate Started(log: Log) {
    Start in log
  }

  /** The order in which the ADC thread runs its sections: one start, then samples. */
  predicate Legal(log: Log) {
    log == [] || (
      && Legal(Front(log))
      && (Last(log).Start? ==> !Started(Front(log)))
      && (Last(log).Sample? ==> Started(Front(log))))
  }

  lemma StartedFront(log: Log)
    requires log != []
    ensures Started(log) <==> Started(Front(log)) || Last(log).Start?
  {
    assert log == Front(log) + [Last(log)];
  }

  // ----- Reset requests

  /** The request stores a value in holding register `a`. */
  predicate WritesRegister(req: ValidRequest, a: int) {
    req.WriteHolding? && req.Accepted() && req.address <= a < req.address + req.nregs
  }

  function WrittenValue(req: ValidRequest, a: int): uint16
    requires WritesRegister(req, a)
  {
    WireValue(req.data[2 * (a - req.address)], req.data[2 * (a - req.address) + 1])
  }

  lemma WriteCell(s: State, req: ValidRequest, a: int)
    requires 31 <= a <= 32
    ensures HoldingWords(ServeSection(s, req).holding)[a - 31]
         == if WritesRegister(req, a) then WrittenValue(req, a) else HoldingWords(s.holding)[a - 31]
  {
    if req.WriteHolding? && req.Accepted() {
      WriteExactly(s, req, a - 31);
    }
  }

  /** A nonzero value was the last one written to register 32 since the last set of samples. */
  predicate ResetPending(log: Log) {
    if log == [] then false
    else match Last(log)
      case Sample(_) => false
      case Serve(req) => if WritesRegister(req, 32) then WrittenValue(req, 32) != 0 else ResetPending(Front(log))
      case _ => ResetPending(Front(log))
  }

  lemma {:induction false} PendingIsRegister(log: Log)
    ensures ResetPending(log) <==> Replay(log).holding.rstStats != 0
  {
    if log != [] {
      PendingIsRegister(Front(log));
      var s := Replay(Front(log));
      match Last(log)
      case Serve(req) => WriteCell(s, req, 32);
      case _ =>
    }
  }

  // ----- Samples since the last reset

  /** A set of samples, and whether a reset request was honoured just before it was stored. */
  datatype Sampling = Sampling(reset: bool, raw: RawSamples)

  function Trace(log: Log): seq<Sampling> {
    if log == [] then []
    else if Last(log).Sample? then Trace(Front(log)) + [Sampling(ResetPending(Front(log)), Last(log).raw)]
    else Trace(Front(log))
  }

  /** The samples seen since the last reset. */
  function Since(trace: seq<Sampling>): seq<RawSamples> {
    if trace == [] then []
    else var last := trace[|trace| - 1];
      if last.reset then [last.raw] else Since(trace[..|trace| - 1]) + [last.raw]
  }

  function Window(log: Log): seq<RawSamples> {
    Since(Trace(log))
  }

  function Raws(w: seq<RawSamples>, c: Channel): (xs: seq<Raw>)
    ensures |xs| == |w|
  {
    seq(|w|, k requires 0 <= k < |w| => w[k][c])
  }

  function Milivolts(w: seq<RawSamples>, c: Channel): (xs: seq<int>)
    ensures |xs| == |w| && forall k :: 0 <= k < |w| ==> xs[k] == RawToMilivolt(w[k][c])
  {
    seq(|w|, k requires 0 <= k < |w| => RawToMilivolt(w[k][c]))
  }

  ghost predicate IsMinimum(m: int, xs: seq<int>) {
    m in xs && forall x :: x in xs ==> m <= x
  }

  ghost predicate IsMaximum(m: int, xs: seq<int>) {
    m in xs && forall x :: x in xs ==> x <= m
  }

  lemma {:induction false} TraceEmpty(log: Log)
    requires Legal(log) && !Started(log)
    ensures Trace(log) == []
  {
    if log != [] {
      StartedFront(log);
      TraceEmpty(Front(log));
    }
  }

  /** What the registers of one channel say about the samples `w` seen since the last reset. */
  ghost predicate Records(st: Stats, w: seq<RawSamples>, c: Channel) {
    var xs := Milivolts(w, c);
    && st.avg == Ema(xs)
    && (w == [] ==> st == Stats(0, INT16_MAX, INT16_MIN, 0))
    && (w != [] ==> st.now == xs[|xs| - 1] && IsMinimum(st.min, xs) && IsMaximum(st.max, xs))
  }

  lemma RecordsFirst(st: Stats, raw: RawSamples, c: Channel)
    ensures Records(AddSample(ClearStats(st), raw[c]), [raw], c)
  {
    var x := RawToMilivolt(raw[c]);
    RawToMilivoltRange(raw[c]);
    assert Milivolts([raw], c) == [x];
    assert [x][..0] == [];
    assert x in [x];
  }

  lemma RecordsNext(st: Stats, w: seq<RawSamples>, raw: RawSamples, c: Channel)
    requires Records(st, w, c)
    ensures Records(AddSample(st, raw[c]), w + [raw], c)
  {
    var xs, x := Milivolts(w, c), RawToMilivolt(raw[c]);
    RawToMilivoltRange(raw[c]);
    assert Milivolts(w + [raw], c) == xs + [x];
    assert (xs + [x])[..|xs|] == xs;
    assert x == (xs + [x])[|xs|];
    assert forall y :: y in xs + [x] <==> y in xs || y == x;
  }

  /** Before the start section only the counter and the holding registers can have changed. */
  lemma {:induction false} BeforeStart(log: Log)
    requires Legal(log) && !Started(log)
    ensures Replay(log).input == Initial().input.(cntr := Replay(log).input.cntr)
  {
    if log != [] {
      StartedFront(log);
      BeforeStart(Front(log));
    }
  }

  /** History correctness: in any run, minimum and maximum are exactly those of the converted samples
      since the last reset, the average is their integer moving average, and `now` is the last one. */
  lemma {:induction false} ChannelHistory(log: Log, c: Channel)
    requires Legal(log) && Started(log)
    ensures Records(StatsOf(Replay(log).input, c), Window(log), c)
  {
    var before, s := Front(log), Replay(Front(log));
    StartedFront(log);
    match Last(log)
    case Start =>
      BeforeStart(before);
      TraceEmpty(before);
    case Sample(raw) =>
      ChannelHistory(before, c);
      PendingIsRegister(before);
      StoreSamplesPerChannel(HonourReset(s).input, raw, c);
      assert Trace(log)[..|Trace(before)|] == Trace(before);
      if ResetPending(before) {
        ResetStatsPerChannel(s.input, c);
        RecordsFirst(StatsOf(s.input, c), raw, c);
      } else {
        RecordsNext(StatsOf(s.input, c), Window(before), raw, c);
      }
    case Tick => ChannelHistory(before, c);
    case Serve(_) => ChannelHistory(before, c);
  }

  /** Minimum and maximum in millivolts are the conversions of the least and greatest raw samples. */
  lemma ExtremesOfRaws(log: Log, c: Channel, lo: Raw, hi: Raw)
    requires Legal(log) && Started(log)
    requires IsMinimum(lo, Raws(Window(log), c)) && IsMaximum(hi, Raws(Window(log), c))
    ensures StatsOf(Replay(log).input, c).min == RawToMilivolt(lo)
    ensures StatsOf(Replay(log).input, c).max == RawToMilivolt(hi)
  {
    ChannelHistory(log, c);
    var w := Window(log);
    var raws, xs := Raws(w, c), Milivolts(w, c);
    forall k | 0 <= k < |w|
      ensures RawToMilivolt(lo) <= xs[k] <= RawToMilivolt(hi)
    {
      assert raws[k] in raws;
      RawToMilivoltMonotone(lo, raws[k]);
      RawToMilivoltMonotone(raws[k], hi);
    }
    var i :| 0 <= i < |w| && raws[i] == lo;
    var j :| 0 <= j < |w| && raws[j] == hi;
    assert xs[i] in xs && xs[j] in xs;
  }

  /** In any run the stored average is within 3 mV below the exact moving average of the samples
      since the last reset, and never above it. */
  lemma AverageWithinThree(log: Log, c: Channel)
    requires Legal(log) && Started(log)
    ensures 0.0 <= WeightedSum(Milivolts(Window(log), c)) - Replay(log).input.avg[c] as real < 3.0
  {
    ChannelHistory(log, c);
    EmaErrorBound(Milivolts(Window(log), c));
    assert StatsOf(Replay(log).input, c).avg == Replay(log).input.avg[c];
  }

  // ----- Phases

  datatype Phase = Booting | Ready | Live

  function PhaseOf(log: Log): Phase {
    if !Started(log) then Booting else if Trace(log) == [] then Ready else Live
  }

  /** What a reader may find in each phase. */
  ghost predicate PhaseInvariant(phase: Phase, input: Input) {
    match phase
    case Booting => input.status == 0 && forall c: Channel :: StatsOf(input, c) == Stats(0, 0, 0, 0)
    case Ready => input.status == 1 && forall c: Channel :: StatsOf(input, c) == Stats(0, INT16_MAX, INT16_MIN, 0)
    case Live => input.status == 1 && forall c: Channel :: LiveStats(StatsOf(input, c))
  }

  predicate LiveStats(st: Stats) {
    0 <= st.min <= st.now <= st.max <= ADC_REF_MILIVOLT && 0 <= st.avg <= st.max
  }

  lemma {:induction false} StatusIsStarted(log: Log)
    ensures Replay(log).input.status == if Started(log) then 1 else 0
  {
    if log != [] {
      StartedFront(log);
      StatusIsStarted(Front(log));
    }
  }

  lemma RecordsLive(st: Stats, w: seq<RawSamples>, c: Channel)
    requires Records(st, w, c) && w != []
    ensures LiveStats(st)
  {
    var xs := Milivolts(w, c);
    forall k | 0 <= k < |xs|
      ensures 0 <= xs[k] <= ADC_REF_MILIVOLT && xs[k] <= st.max
    {
      RawToMilivoltRange(w[k][c]);
      assert xs[k] in xs;
    }
    assert xs[|xs| - 1] in xs;
    EmaRange(xs, 0, st.max);
  }

  lemma SinceEmpty(trace: seq<Sampling>)
    ensures Since(trace) == [] <==> trace == []
  {
  }

  lemma PhaseHolds(log: Log)
    requires Legal(log)
    ensures PhaseInvariant(PhaseOf(log), Replay(log).input)
  {
    StatusIsStarted(log);
    SinceEmpty(Trace(log));
    forall c: Channel
      ensures PhaseOf(log).Booting? ==> StatsOf(Replay(log).input, c) == Stats(0, 0, 0, 0)
      ensures PhaseOf(log).Ready? ==> StatsOf(Replay(log).input, c) == Stats(0, INT16_MAX, INT16_MIN, 0)
      ensures PhaseOf(log).Live? ==> LiveStats(StatsOf(Replay(log).input, c))
    {
      if Started(log) {
        ChannelHistory(log, c);
        if PhaseOf(log).Live? {
          RecordsLive(StatsOf(Replay(log).input, c), Window(log), c);
        }
      } else {
        BeforeStart(log);
      }
    }
  }

  function Rank(phase: Phase): nat {
    match phase case Booting => 0 case Ready => 1 case Live => 2
  }

  lemma {:induction false} PhaseForward(log: Log, more: Log)
    requires Legal(log + more)
    ensures Legal(log) && Rank(PhaseOf(log)) <= Rank(PhaseOf(log + more))
  {
    if more == [] {
      assert log + more == log;
    } else {
      assert Front(log + more) == log + Front(more);
      PhaseForward(log, Front(more));
      StartedFront(log + more);
    }
  }

  /** Once a sample has been stored no later reader sees a sentinel, whatever resets are requested. */
  lemma SentinelsGone(log: Log, more: Log, c: Channel)
    requires Legal(log + more) && PhaseOf(log).Live?
    ensures LiveStats(StatsOf(Replay(log + more).input, c))
    ensures Replay(log + more).input.min[c] != INT16_MAX && Replay(log + more).input.max[c] != INT16_MIN
  {
    PhaseForward(log, more);
    PhaseHolds(log + more);
    var st := StatsOf(Replay(log + more).input, c);
    assert LiveStats(st) && st.min == Replay(log + more).input.min[c] && st.max == Replay(log + more).input.max[c];
  }

  // ----- A reset request is honoured whole by the next sampling section

  /** No event of the run stores samples or writes register 32. */
  predicate LeavesReset(log: Log) {
    forall e :: e in log ==> !e.Sample? && (e.Serve? ==> !WritesRegister(e.req, 32))
  }

  lemma {:induction false} PendingKept(log: Log, between: Log)
    requires LeavesReset(between) && ResetPending(log)
    ensures ResetPending(log + between)
  {
    if between == [] {
      assert log + between == log;
    } else {
      assert Front(log + between) == log + Front(between);
      assert Last(between) in between;
      PendingKept(log, Front(between));
    }
  }

  lemma ResetHonoured(log: Log, req: ValidRequest, between: Log, raw: RawSamples, c: Channel)
    requires WritesRegister(req, 32) && WrittenValue(req, 32) != 0 && LeavesReset(between)
    ensures var s := Replay(log + [Serve(req)] + between + [Sample(raw)]);
            var x := RawToMilivolt(raw[c]);
            && StatsOf(s.input, c) == Stats(x, x, x, x / 4)
            && s.holding.rstStats == 0
  {
    var asked := log + [Serve(req)];
    assert Front(asked) == log;
    PendingKept(asked, between);
    var before := asked + between;
    PendingIsRegister(before);
    assert Front(before + [Sample(raw)]) == before;
    var s := Replay(before);
    StoreSamplesPerChannel(HonourReset(s).input, raw, c);
    ResetStatsPerChannel(s.input, c);
    RawToMilivoltRange(raw[c]);
    EmaStepFloor(0, RawToMilivolt(raw[c]));
  }

  // ----- The counter

  function Ticks(log: Log): nat {
    if log == [] then 0 else Ticks(Front(log)) + if Last(log).Tick? then 1 else 0
  }

  lemma {:induction false} CounterCountsTicks(log: Log)
    ensures Replay(log).input.cntr == Ticks(log) % 0x1_0000
  {
    if log != [] {
      CounterCountsTicks(Front(log));
    }
  }

  // ----- Order preservation

  /** The runs reset at the same sampling sections, and every sample of the second is at least as large. */
  ghost predicate Dominated(a: seq<Sampling>, b: seq<Sampling>) {
    |a| == |b| && forall k :: 0 <= k < |a| ==>
      a[k].reset == b[k].reset && forall c: Channel :: a[k].raw[c] <= b[k].raw[c]
  }

  lemma {:induction false} SinceDominated(a: seq<Sampling>, b: seq<Sampling>)
    requires Dominated(a, b)
    ensures |Since(a)| == |Since(b)|
    ensures forall k, c: Channel :: 0 <= k < |Since(a)| ==> Since(a)[k][c] <= Since(b)[k][c]
  {
    if a != [] {
      SinceDominated(a[..|a| - 1], b[..|b| - 1]);
    }
  }

  lemma OrderPreserved(low: Log, high: Log, c: Channel)
    requires Legal(low) && Started(low) && Legal(high) && Started(high)
    requires Dominated(Trace(low), Trace(high))
    ensures var a, b := StatsOf(Replay(low).input, c), StatsOf(Replay(high).input, c);
            a.now <= b.now && a.min <= b.min && a.max <= b.max && a.avg <= b.avg
  {
    ChannelHistory(low, c);
    ChannelHistory(high, c);
    SinceDominated(Trace(low), Trace(high));
    var v, w := Window(low), Window(high);
    var xs, ys := Milivolts(v, c), Milivolts(w, c);
    forall k | 0 <= k < |xs|
      ensures xs[k] <= ys[k]
    {
      RawToMilivoltMonotone(v[k][c], w[k][c]);
    }
    EmaMonotone(xs, ys);
    var a, b := StatsOf(Replay(low).input, c), StatsOf(Replay(high).input, c);
    if v != [] {
      ExtremesOrdered(xs, ys, a.min, b.min, a.max, b.max);
    }
  }

  lemma ExtremesOrdered(xs: seq<int>, ys: seq<int>, m: int, n: int, p: int, q: int)
    requires |xs| == |ys| && forall k :: 0 <= k < |xs| ==> xs[k] <= ys[k]
    requires IsMinimum(m, xs) && IsMinimum(n, ys) && IsMaximum(p, xs) && IsMaximum(q, ys)
    ensures m <= n && p <= q
  {
    var i :| 0 <= i < |ys| && ys[i] == n;
    var j :| 0 <= j < |xs| && xs[j] == p;
    assert xs[i] in xs && ys[j] in ys;
  }

  // ----- Constant input

  function Feed(raws: seq<RawSamples>): Log {
    if raws == [] then [] else Feed(raws[..|raws| - 1]) + [Sample(raws[|raws| - 1])]
  }

  /** Channel `c` converts to `x` millivolts in every set of samples. */
  predicate Constant(raws: seq<RawSamples>, c: Channel, x: int) {
    raws == [] || (RawToMilivolt(raws[|raws| - 1][c]) == x && Constant(raws[..|raws| - 1], c, x))
  }

  lemma {:induction false} FeedSettles(log: Log, raws: seq<RawSamples>, c: Channel, x: int)
    requires !ResetPending(log) && Constant(raws, c, x)
    ensures !ResetPending(log + Feed(raws))
    ensures Replay(log + Feed(raws)).input.avg[c] == Settle(Replay(log).input.avg[c], x, |raws|)
  {
    hide Replay, ResetPending, RawToMilivolt, EmaStep;
    if raws == [] {
      assert log + Feed(raws) == log;
    } else {
      var init, raw := raws[..|raws| - 1], raws[|raws| - 1];
      FeedSettles(log, init, c, x);
      assert log + Feed(raws) == log + Feed(init) + [Sample(raw)];
      PlainSample(log + Feed(init), raw, c);
    }
  }

  lemma PlainSample(log: Log, raw: RawSamples, c: Channel)
    requires !ResetPending(log)
    ensures !ResetPending(log + [Sample(raw)])
    ensures Replay(log + [Sample(raw)]).input.avg[c] == EmaStep(Replay(log).input.avg[c], RawToMilivolt(raw[c]))
  {
    assert Front(log + [Sample(raw)]) == log;
    PendingIsRegister(log);
    var input := Replay(log).input;
    StoreSamplesPerChannel(input, raw, c);
    assert StatsOf(StoreSamples(input, raw), c).avg == StoreSamples(input, raw).avg[c];
  }

  /** A channel fed a constant voltage of `x` mV lands on the fixed point next to where it was, after at
      most as many samples as it was away from it, and stays there. */
  lemma ConstantInputSettles(log: Log, raws: seq<RawSamples>, c: Channel, x: int)
    requires !ResetPending(log) && Constant(raws, c, x)
    requires |raws| >= Distance(Replay(log).input.avg[c], x)
    ensures Replay(log + Feed(raws)).input.avg[c] == Limit(Replay(log).input.avg[c], x)
  {
    FeedSettles(log, raws, c, x);
    SettleReaches(Replay(log).input.avg[c], x, |raws|);
  }

  // ----- Holding registers as a map from register numbers to words

  /** The last value written to each holding register; storing samples clears the reset request. */
  function Cells(log: Log): map<int, uint16> {
    if log == [] then map[31 := INTERVAL_DEFAULT_US, 32 := 0]
    else var cells := Cells(Front(log));
      match Last(log)
      case Sample(_) => cells[32 := 0]
      case Serve(req) => map a | a in cells :: if WritesRegister(req, a) then WrittenValue(req, a) else cells[a]
      case _ => cells
  }

  lemma {:induction false} CellsAreRegisters(log: Log)
    ensures Cells(log).Keys == {31, 32}
    ensures HoldingWords(Replay(log).holding) == [Cells(log)[31], Cells(log)[32]]
  {
    if log != [] {
      CellsAreRegisters(Front(log));
      var s := Replay(Front(log));
      match Last(log)
      case Serve(req) =>
        WriteCell(s, req, 31);
        WriteCell(s, req, 32);
      case _ =>
    }
  }

  lemma CellAt(log: Log, a: int)
    requires 31 <= a <= 32
    ensures a in Cells(log) && HoldingWords(Replay(log).holding)[a - 31] == Cells(log)[a]
  {
    hide Replay, Cells, HoldingWords;
    CellsAreRegisters(log);
    assert 31 in Cells(log) && 32 in Cells(log);
  }

  /** After any run, an accepted read of any holding window sends the last value written to each of its
      registers, the most significant byte first. */
  lemma ReadsMatchCells(log: Log, address: uint16, nregs: uint16, k: nat)
    requires ReadHolding(address, nregs).Accepted() && k < nregs
    ensures address + k in Cells(log)
    ensures var answer := Respond(Replay(log), ReadHolding(address, nregs));
            && answer.err == NoErr && |answer.bytes| == 2 * nregs
            && WireValue(answer.bytes[2 * k], answer.bytes[2 * k + 1]) == Cells(log)[address + k]
  {
    hide Replay, Cells, EncodeWords, WireValue, HoldingWords;
    CellAt(log, address + k);
    HoldingBytes(Replay(log), address, nregs);
    EncodeWindowAt(HoldingWords(Replay(log).holding), address - HOLDING_START, nregs, k);
  }

  /** Until a write of register 31, a read of it decodes to the default interval of 10000 microseconds. */
  lemma {:induction false} DefaultInterval(log: Log)
    requires forall k :: 0 <= k < |log| ==> log[k].Serve? ==> !WritesRegister(log[k].req, 31)
    ensures var answer := Respond(Replay(log), ReadHolding(31, 1));
            answer.err == NoErr && |answer.bytes| == 2 && WireValue(answer.bytes[0], answer.bytes[1]) == 10000
  {
    DefaultCell(log);
    ReadsMatchCells(log, 31, 1, 0);
  }

  lemma {:induction false} DefaultCell(log: Log)
    requires forall k :: 0 <= k < |log| ==> log[k].Serve? ==> !WritesRegister(log[k].req, 31)
    ensures 31 in Cells(log) && Cells(log)[31] == 10000
  {
    if log != [] {
      DefaultCell(Front(log));
      assert Last(log).Serve? ==> !WritesRegister(Last(log).req, 31);
    }
  }

  // ----- Responses

  /** The responses sent in a run: each is computed from the one register file that the sections before
      it left. */
  function Answers(log: Log): seq<Response> {
    if log == [] then []
    else if Last(log).Serve? then Answers(Front(log)) + [Respond(Replay(Front(log)), Last(log).req)]
    else Answers(Front(log))
  }
}
