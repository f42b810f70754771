/** The shared register file of the Modbus device as a value, and what each critical section of the
    device does to it in one atomic step. */
module Registers {
  import opened Words
  import opened Average

  const ADC_SAMPLES := 4
  const ADC_RAW_MAX := 4095
  const ADC_REF_MILIVOLT := 3300
  const INTERVAL_DEFAULT_US: uint16 := 10000

  const INPUT_START := 1
  const INPUT_NREGS := 18
  const HOLDING_START := 31
  const HOLDING_NREGS := 2

  /** A 12-bit conversion result. */
  type Raw = x: int | 0 <= x <= ADC_RAW_MAX
  type RawSamples = s: seq<Raw> | |s| == ADC_SAMPLES witness [0, 0, 0, 0]

  /** One `int16_t` per ADC channel. */
  type Channels = s: seq<int16> | |s| == ADC_SAMPLES witness [0, 0, 0, 0]
  type Channel = c: nat | c < ADC_SAMPLES

  datatype Input = Input(status: uint16, cntr: uint16, now: Channels, min: Channels, max: Channels, avg: Channels)

  datatype Holding = Holding(interval: uint16, rstStats: uint16)

  datatype State = State(input: Input, holding: Holding)

  /** What the input registers say about one channel. */
  datatype Stats = Stats(now: int16, min: int16, max: int16, avg: int16)

  function StatsOf(input: Input, c: Channel): Stats {
    Stats(input.now[c], input.min[c], input.max[c], input.avg[c])
  }

  function SetStats(input: Input, c: Channel, s: Stats): Input {
    input.(now := input.now[c := s.now], min := input.min[c := s.min],
           max := input.max[c := s.max], avg := input.avg[c := s.avg])
  }

  /** Input registers are determined by the status, the counter and the four channels. */
  lemma SameInput(a: Input, b: Input)
    requires a.status == b.status && a.cntr == b.cntr
    requires forall c: Channel :: StatsOf(a, c) == StatsOf(b, c)
    ensures a == b
  {
    assert forall c: Channel :: StatsOf(a, c).now == a.now[c] && StatsOf(b, c).now == b.now[c];
    assert forall c: Channel :: StatsOf(a, c).min == a.min[c] && StatsOf(b, c).min == b.min[c];
    assert forall c: Channel :: StatsOf(a, c).max == a.max[c] && StatsOf(b, c).max == b.max[c];
    assert forall c: Channel :: StatsOf(a, c).avg == a.avg[c] && StatsOf(b, c).avg == b.avg[c];
    assert a.now == b.now && a.min == b.min && a.max == b.max && a.avg == b.avg;
  }

  function Min(a: int, b: int): int {
    if a < b then a else b
  }

  function Max(a: int, b: int): int {
    if a > b then a else b
  }

  function RawToMilivolt(raw: Raw): int {
    raw * ADC_REF_MILIVOLT / ADC_RAW_MAX
  }

  /** The conversion is the floor of raw * 3300 / 4095: full scale gives the reference voltage. */
  lemma RawToMilivoltFloor(raw: Raw)
    ensures 4095 * RawToMilivolt(raw) <= 3300 * raw < 4095 * (RawToMilivolt(raw) + 1)
    ensures RawToMilivolt(4095) == 3300 && RawToMilivolt(0) == 0
  {
  }

  lemma RawToMilivoltRange(raw: Raw)
    ensures 0 <= RawToMilivolt(raw) <= ADC_REF_MILIVOLT
  {
  }

  lemma RawToMilivoltMonotone(a: Raw, b: Raw)
    requires a <= b
    ensures RawToMilivolt(a) <= RawToMilivolt(b)
  {
  }

  /** `now`, `min` and `max` of a channel after a sample, and its new average. Every stored value fits
      `int16_t` whatever the registers held before. */
  function AddSample(s: Stats, raw: Raw): Stats {
    RawToMilivoltRange(raw);
    var now := RawToMilivolt(raw);
    EmaStepBetween(s.avg, now, INT16_MIN, INT16_MAX);
    Stats(now, Min(now, s.min), Max(now, s.max), EmaStep(s.avg, now))
  }

  function ClearStats(s: Stats): Stats {
    s.(min := INT16_MAX, max := INT16_MIN, avg := 0)
  }

  // ----- Critical sections of the ADC thread

  function ResetStats(input: Input): Input {
    input.(min := [INT16_MAX, INT16_MAX, INT16_MAX, INT16_MAX],
           max := [INT16_MIN, INT16_MIN, INT16_MIN, INT16_MIN],
           avg := [0, 0, 0, 0])
  }

  lemma ResetStatsPerChannel(input: Input, c: Channel)
    ensures StatsOf(ResetStats(input), c) == ClearStats(StatsOf(input, c))
  {
  }

  function StoreSamples(input: Input, raw: RawSamples): Input {
    var s := seq(ADC_SAMPLES, c requires 0 <= c < ADC_SAMPLES => AddSample(StatsOf(input, c), raw[c]));
    Input(input.status, input.cntr,
          [s[0].now, s[1].now, s[2].now, s[3].now], [s[0].min, s[1].min, s[2].min, s[3].min],
          [s[0].max, s[1].max, s[2].max, s[3].max], [s[0].avg, s[1].avg, s[2].avg, s[3].avg])
  }

  lemma StoreSamplesPerChannel(input: Input, raw: RawSamples, c: Channel)
    ensures StatsOf(StoreSamples(input, raw), c) == AddSample(StatsOf(input, c), raw[c])
  {
  }

  /** The first section: clear the statistics and announce that the device is ready. */
  function StartSection(s: State): State {
    s.(input := ResetStats(s.input).(status := 1))
  }

  function HonourReset(s: State): State {
    if s.holding.rstStats != 0
    then State(ResetStats(s.input), s.holding.(rstStats := 0))
    else s
  }

  /** A sampling section: honour a pending reset request, then store the four samples. */
  function SampleSection(s: State, raw: RawSamples): State {
    var t := HonourReset(s);
    t.(input := StoreSamples(t.input, raw))
  }

  /** The main thread's section: `uint16_t` increment. */
  function TickSection(s: State): State {
    s.(input := s.input.(cntr := (s.input.cntr + 1) % 0x1_0000))
  }

  function Initial(): State {
    State(Input(0, 0, [0, 0, 0, 0], [0, 0, 0, 0], [0, 0, 0, 0], [0, 0, 0, 0]), Holding(INTERVAL_DEFAULT_US, 0))
  }

  // ----- The register view used by the callbacks

  function ChannelWords(v: Channels): (ws: seq<uint16>)
    ensures |ws| == ADC_SAMPLES
  {
    [AsUint16(v[0]), AsUint16(v[1]), AsUint16(v[2]), AsUint16(v[3])]
  }

  /** The packed input structure seen through a `uint16_t` pointer. */
  function InputWords(input: Input): (ws: seq<uint16>)
    ensures |ws| == INPUT_NREGS
  {
    [input.status, input.cntr] + ChannelWords(input.now) + ChannelWords(input.min)
    + ChannelWords(input.max) + ChannelWords(input.avg)
  }

  /** The packed holding structure seen through a `uint16_t` pointer. */
  function HoldingWords(h: Holding): (ws: seq<uint16>)
    ensures |ws| == HOLDING_NREGS
  {
    [h.interval, h.rstStats]
  }

  function SetHoldingWord(h: Holding, index: nat, w: uint16): Holding
    requires index < HOLDING_NREGS
  {
    if index == 0 then h.(interval := w) else h.(rstStats := w)
  }

  // ----- Requests of the Modbus thread

  datatype Request =
    | ReadInput(address: uint16, nregs: uint16)
    | ReadHolding(address: uint16, nregs: uint16)
    | WriteHolding(address: uint16, nregs: uint16, data: seq<uint8>)
  {
    /** A write carries the bytes of the registers it names. */
    predicate Valid() {
      WriteHolding? ==> |data| == 2 * nregs
    }

    /** The window test of the callbacks. The sum is computed as `int`, so it does not wrap. */
    predicate Accepted() {
      var start, count := if ReadInput? then INPUT_START else HOLDING_START,
                          if ReadInput? then INPUT_NREGS else HOLDING_NREGS;
      address >= start && address + nregs <= start + count
    }

    function Index(): nat
      requires Accepted()
    {
      address - if ReadInput? then INPUT_START else HOLDING_START
    }
  }

  datatype ErrorCode = NoErr | NoReg

  /** What a callback returns, with the bytes it put in the response buffer. */
  datatype Response = Response(err: ErrorCode, bytes: seq<uint8>)

  function Respond(s: State, req: Request): Response {
    if !req.Accepted() then Response(NoReg, [])
    else match req
      case ReadInput(_, n) => Response(NoErr, EncodeWords(InputWords(s.input)[req.Index()..req.Index() + n]))
      case ReadHolding(_, n) => Response(NoErr, EncodeWords(HoldingWords(s.holding)[req.Index()..req.Index() + n]))
      case WriteHolding(_, _, _) => Response(NoErr, [])
  }

  /** Holding registers after storing words from position `index` on. */
  function StoreWords(h: Holding, index: nat, ws: seq<uint16>): Holding
    requires index + |ws| <= HOLDING_NREGS
  {
    Holding(if index == 0 && |ws| > 0 then ws[0] else h.interval,
            if index <= 1 < index + |ws| then ws[1 - index] else h.rstStats)
  }

  function ServeSection(s: State, req: Request): State
    requires req.Valid()
  {
    if req.WriteHolding? && req.Accepted()
    then s.(holding := StoreWords(s.holding, req.Index(), DecodeWords(req.data)))
    else s
  }
}
