/** The Modbus device as the program runs it: one structure updated in place by the sections that the
    three threads execute while they hold the lock. Each method is proved against the section of the
    same name in `Registers`. */
module Device {
  import opened Words
  import opened Average
  import opened Registers
  import opened Windows

  datatype RegisterMode = RegRead | RegWrite

  class ModbusState {
    var status: uint16
    var cntr: uint16
    const now: array<int16>
    const min: array<int16>
    const max: array<int16>
    const avg: array<int16>
    var interval: uint16
    var rstStats: uint16

    ghost const Repr: set<object>

    ghost predicate Valid()
      reads this
    {
      && {this, now, min, max, avg} <= Repr
      && now.Length == min.Length == max.Length == avg.Length == ADC_SAMPLES
      && now != min && now != max && now != avg && min != max && min != avg && max != avg
    }

    /** The register file held by the fields. */
    ghost function View(): State
      requires Valid()
      reads this, now, min, max, avg
    {
      State(Input(status, cntr, now[..], min[..], max[..], avg[..]), Holding(interval, rstStats))
    }

    /** `device_initialize`. */
    constructor ()
      ensures Valid() && fresh(Repr)
      ensures View() == Initial() && interval == 10000
    {
      status, cntr, rstStats := 0, 0, 0;
      now := new int16[ADC_SAMPLES](_ => 0);
      min := new int16[ADC_SAMPLES](_ => 0);
      max := new int16[ADC_SAMPLES](_ => 0);
      avg := new int16[ADC_SAMPLES](_ => 0);
      interval := INTERVAL_DEFAULT_US;
      Repr := {this, now, min, max, avg};
    }

    /** `adc_reset_stats`. */
    method AdcResetStats()
      requires Valid()
      modifies min, max, avg
      ensures View() == old(View()).(input := ResetStats(old(View()).input))
    {
      for i := 0 to ADC_SAMPLES
        invariant forall k :: 0 <= k < i ==> min[k] == INT16_MAX && max[k] == INT16_MIN && avg[k] == 0
      {
        min[i] := INT16_MAX;
        max[i] := INT16_MIN;
        avg[i] := 0;
      }
    }

    /** The section that `thread_adc` runs once before its loop. */
    method AdcStart()
      requires Valid()
      modifies `status, min, max, avg
      ensures View() == StartSection(old(View()))
    {
      AdcResetStats();
      status := 1;
    }

    ghost function Cell(c: Channel): Stats
      requires Valid()
      reads this, now, min, max, avg
    {
      Stats(now[c], min[c], max[c], avg[c])
    }

    /** The body of the loop that stores the samples. */
    method StoreSample(i: Channel, raw: Raw)
      requires Valid()
      modifies now, min, max, avg
      ensures Cell(i) == AddSample(old(Cell(i)), raw)
      ensures forall k: Channel :: k != i ==> Cell(k) == old(Cell(k))
    {
      RawToMilivoltRange(raw);
      now[i] := RawToMilivolt(raw);
      min[i] := Min(now[i], min[i]);
      max[i] := Max(now[i], max[i]);
      EmaStepBetween(avg[i], now[i], INT16_MIN, INT16_MAX);
      var difference: int := now[i] as int - avg[i] as int;
      avg[i] := avg[i] + ShiftRight(difference, EMA_ALPHA_SHIFT);
    }

    method StoreAllSamples(raw: RawSamples)
      requires Valid()
      modifies now, min, max, avg
      ensures View() == old(View()).(input := StoreSamples(old(View()).input, raw))
    {
      ghost var before := View().input;
      for i := 0 to ADC_SAMPLES
        invariant forall k: Channel :: k < i ==> Cell(k) == AddSample(StatsOf(before, k), raw[k])
        invariant forall k: Channel :: i <= k ==> Cell(k) == StatsOf(before, k)
      {
        StoreSample(i, raw[i]);
      }
      SameInput(View().input, StoreSamples(before, raw));
    }

    /** The section that `thread_adc` runs for every set of samples. */
    method AdcSample(raw: RawSamples) returns (delay: uint16)
      requires Valid()
      modifies `rstStats, now, min, max, avg
      ensures View() == SampleSection(old(View()), raw)
      ensures delay == old(interval)
    {
      if rstStats != 0 {
        AdcResetStats();
        rstStats := 0;
      }
      StoreAllSamples(raw);
      delay := interval;
    }

    /** The section of the main thread. */
    method Tick()
      requires Valid()
      modifies `cntr
      ensures View() == TickSection(old(View()))
    {
      cntr := (cntr + 1) % 0x1_0000;
    }

    /** The word at a position of the input structure seen through a word pointer. */
    function InputPtr(index: nat): (w: uint16)
      requires Valid() && index < INPUT_NREGS
      reads this, now, min, max, avg
      ensures w == InputWords(View().input)[index]
    {
      if index == 0 then status
      else if index == 1 then cntr
      else if index < 6 then AsUint16(now[index - 2])
      else if index < 10 then AsUint16(min[index - 6])
      else if index < 14 then AsUint16(max[index - 10])
      else AsUint16(avg[index - 14])
    }

    function HoldingPtr(index: nat): (w: uint16)
      requires Valid() && index < HOLDING_NREGS
      reads this, now, min, max, avg
      ensures w == HoldingWords(View().holding)[index]
    {
      if index == 0 then interval else rstStats
    }

    method SetHoldingPtr(index: nat, w: uint16)
      requires Valid() && index < HOLDING_NREGS
      modifies `interval, `rstStats
      ensures Holding(interval, rstStats) == SetHoldingWord(old(Holding(interval, rstStats)), index, w)
    {
      if index == 0 {
        interval := w;
      } else {
        rstStats := w;
      }
    }

    /** One turn of a read loop: the low, then the high byte of the swapped word. `w` is the next of the
        registers `words` to send and the buffer held `before`. */
    static method PutWord(buffer: array<uint8>, pos: nat, w: uint16,
                          ghost before: seq<uint8>, ghost words: seq<uint16>, ghost first: nat, ghost count: nat)
      requires pos == 2 * count && pos + 2 <= buffer.Length == |before|
      requires first + count < |words| && words[first + count] == w
      requires Sent(buffer[..], before, words, first, count)
      modifies buffer
      ensures Sent(buffer[..], before, words, first, count + 1)
    {
      ghost var was := buffer[..];
      buffer[pos] := Swap16(w) % 0x100;
      buffer[pos + 1] := Swap16(w) / 0x100;
      SentNext(was, buffer[..], before, words, first, count);
    }

    /** The loop of `eMBRegInputCB`. */
    method SendInput(buffer: array<uint8>, first: nat, nregs: nat)
      requires Valid() && buffer !in Repr
      requires first + nregs <= INPUT_NREGS && 2 * nregs <= buffer.Length
      modifies buffer
      ensures Sent(buffer[..], old(buffer[..]), InputWords(View().input), first, nregs)
    {
      var index: nat, left: nat, pos: nat := first, nregs, 0;
      ghost var words, before, sent: nat := InputWords(View().input), buffer[..], 0;
      hide InputWords, InputPtr, Sent, Swap16, EncodeWords, AsUint16, ChannelWords;
      SentNone(before, words, first);
      while left > 0
        invariant index == first + sent && left + sent == nregs && pos == 2 * sent
        invariant words == InputWords(View().input)
        invariant |before| == buffer.Length && Sent(buffer[..], before, words, first, sent)
      {
        PutWord(buffer, pos, InputPtr(index), before, words, first, sent);
        sent := sent + 1;
        pos := pos + 2;
        index := index + 1;
        left := left - 1;
      }
    }

    /** `eMBRegInputCB`. The buffer must hold two bytes per register of an accepted window. */
    method RegInputCB(buffer: array<uint8>, address: uint16, nregs: uint16) returns (mberr: ErrorCode)
      requires Valid() && buffer !in Repr
      requires ReadInput(address, nregs).Accepted() ==> 2 * nregs <= buffer.Length
      modifies buffer
      ensures mberr == if 1 <= address && address + nregs <= 19 then NoErr else NoReg
      ensures var answer := Respond(View(), ReadInput(address, nregs));
              mberr == answer.err && buffer[..] == answer.bytes + old(buffer[..])[|answer.bytes|..]
    {
      mberr := NoErr;
      if address >= INPUT_START && address + nregs <= INPUT_START + INPUT_NREGS {
        SendInput(buffer, address - INPUT_START, nregs);
      } else {
        mberr := NoReg;
      }
    }

    /** The `MB_REG_READ` case of `eMBRegHoldingCB`. */
    method SendHolding(buffer: array<uint8>, first: nat, nregs: nat)
      requires Valid() && buffer !in Repr
      requires first + nregs <= HOLDING_NREGS && 2 * nregs <= buffer.Length
      modifies buffer
      ensures Sent(buffer[..], old(buffer[..]), HoldingWords(View().holding), first, nregs)
    {
      var index: nat, left: nat, pos: nat := first, nregs, 0;
      ghost var words, before, sent: nat := HoldingWords(View().holding), buffer[..], 0;
      hide Sent, Swap16, EncodeWords, AsUint16;
      SentNone(before, words, first);
      while left > 0
        invariant index == first + sent && left + sent == nregs && pos == 2 * sent
        invariant words == HoldingWords(View().holding)
        invariant |before| == buffer.Length && Sent(buffer[..], before, words, first, sent)
      {
        PutWord(buffer, pos, HoldingPtr(index), before, words, first, sent);
        sent := sent + 1;
        pos := pos + 2;
        index := index + 1;
        left := left - 1;
      }
    }

    /** One turn of the write loop: store the first byte swapped, then or in the second. */
    method ReceiveWord(index: nat, first: uint8, second: uint8)
      requires Valid() && index < HOLDING_NREGS
      modifies `interval, `rstStats
      ensures Holding(interval, rstStats)
           == SetHoldingWord(old(Holding(interval, rstStats)), index, AssembleWord(first, second))
    {
      SetHoldingPtr(index, Swap16(first));
      SetHoldingPtr(index, Or16(HoldingPtr(index), Swap16(second * 0x100)));
    }

    /** The `MB_REG_WRITE` case of `eMBRegHoldingCB`. */
    method ReceiveHolding(buffer: array<uint8>, first: nat, nregs: nat)
      requires Valid() && buffer !in Repr
      requires first + nregs <= HOLDING_NREGS && 2 * nregs <= buffer.Length
      modifies `interval, `rstStats
      ensures Holding(interval, rstStats)
           == StoreWords(old(Holding(interval, rstStats)), first, DecodeWords(buffer[..2 * nregs]))
    {
      var index: nat, left: nat, pos: nat := first, nregs, 0;
      ghost var h := Holding(interval, rstStats);
      while left > 0
        invariant 0 <= left <= nregs && index == first + nregs - left && pos == 2 * (nregs - left)
        invariant Holding(interval, rstStats) == StoreWords(h, first, DecodeWords(buffer[..pos]))
      {
        DecodeNext(buffer[..], pos);
        assert buffer[..][..pos] == buffer[..pos] && buffer[..][..pos + 2] == buffer[..pos + 2];
        ReceiveWord(index, buffer[pos], buffer[pos + 1]);
        pos := pos + 2;
        index := index + 1;
        left := left - 1;
      }
    }

    /** `eMBRegHoldingCB`. A read leaves the registers alone, a write leaves the buffer alone. */
    method RegHoldingCB(buffer: array<uint8>, address: uint16, nregs: uint16, mode: RegisterMode)
      returns (mberr: ErrorCode)
      requires Valid() && buffer !in Repr
      requires ReadHolding(address, nregs).Accepted() ==> 2 * nregs <= buffer.Length
      modifies buffer, `interval, `rstStats
      ensures mberr == if 31 <= address && address + nregs <= 33 then NoErr else NoReg
      ensures mode == RegRead ==> View() == old(View())
      ensures mode == RegRead ==>
                var answer := Respond(old(View()), ReadHolding(address, nregs));
                mberr == answer.err && buffer[..] == answer.bytes + old(buffer[..])[|answer.bytes|..]
      ensures mode == RegWrite ==> buffer[..] == old(buffer[..])
      ensures mode == RegWrite && mberr == NoErr ==>
                var data := old(buffer[..2 * nregs]);
                && interval == WrittenOr(address, nregs, data, 31, old(interval))
                && rstStats == WrittenOr(address, nregs, data, 32, old(rstStats))
      ensures mode == RegWrite && mberr == NoErr ==>
                View() == ServeSection(old(View()), WriteHolding(address, nregs, old(buffer[..2 * nregs])))
      ensures mode == RegWrite && mberr == NoReg ==> View() == old(View())
    {
      mberr := NoErr;
      if address >= HOLDING_START && address + nregs <= HOLDING_START + HOLDING_NREGS {
        var index: nat := address - HOLDING_START;
        match mode
        case RegRead => SendHolding(buffer, index, nregs);
        case RegWrite =>
          WriteCarriedOut(View(), address, nregs, buffer[..2 * nregs]);
          ReceiveHolding(buffer, index, nregs);
      } else {
        mberr := NoReg;
      }
    }
  }

  /** The buffer, which held `before`, starts with the bytes of `count` registers from `first` on and is
      otherwise as it was. */
  ghost predicate Sent(buffer: seq<uint8>, before: seq<uint8>, words: seq<uint16>, first: nat, count: nat)
    requires first + count <= |words| && 2 * count <= |before|
  {
    buffer == EncodeWords(words[first..first + count]) + before[2 * count..]
  }

  lemma SentNone(before: seq<uint8>, words: seq<uint16>, first: nat)
    requires first <= |words|
    ensures Sent(before, before, words, first, 0)
  {
  }

  /** Sending one more register appends its two bytes. */
  lemma SentNext(was: seq<uint8>, now: seq<uint8>, before: seq<uint8>, words: seq<uint16>, first: nat, count: nat)
    requires first + count < |words| && 2 * count + 2 <= |before|
    requires Sent(was, before, words, first, count) && |was| == |before|
    requires var w := words[first + count];
             now == was[2 * count := FirstByte(w)][2 * count + 1 := SecondByte(w)]
    ensures Sent(now, before, words, first, count + 1) && |now| == |before|
  {
    var run, w := words[first..first + count], words[first + count];
    assert words[first..first + (count + 1)] == run + [w];
    EncodeConcat(run, [w]);
    assert EncodeWords([w]) == [FirstByte(w), SecondByte(w)];
  }

  /** Receiving two more bytes appends the word they assemble to. */
  lemma {:induction false} DecodeNext(data: seq<uint8>, pos: nat)
    requires pos % 2 == 0 && pos + 2 <= |data|
    ensures DecodeWords(data[..pos + 2]) == DecodeWords(data[..pos]) + [AssembleWord(data[pos], data[pos + 1])]
  {
    if pos == 0 {
      assert data[..2][2..] == [];
    } else {
      assert data[..pos + 2][2..] == data[2..][..pos];
      assert data[..pos][2..] == data[2..][..pos - 2];
      DecodeNext(data[2..], pos - 2);
    }
  }
}
