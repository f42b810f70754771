/** One node of the CAN example: the frames it builds, the frames it acts on, and its simulated button.
    Identifiers are 32-bit words with wrap-around, as in `struct canmsg_s`. */
module CanNode {
  import opened Words

  const CANMSG_HEARTBEAT_ID: bv32 := 1
  const CANMSG_BUTTON_ID: bv32 := 2
  const CANMSG_LED_ID: bv32 := 3
  const CANMSG_NODEID_MASK: bv32 := 0xf00
  const CAN_DATA_MAX := 8

  /** The build refuses a node id that does not fit the mask. */
  type NodeId = n: bv32 | n & !CANMSG_NODEID_MASK == 0 witness 0

  type uint32 = x: int | 0 <= x < 0x1_0000_0000
  type uint64 = x: int | 0 <= x < 0x1_0000_0000_0000_0000

  type Data = d: seq<uint8> | |d| == CAN_DATA_MAX witness [0, 0, 0, 0, 0, 0, 0, 0]

  datatype Frame = Frame(id: bv32, len: uint8, data: Data)

  // ----- Identifiers

  lemma MaskOfSum(n: bv32, k: bv32)
    requires n & 0xfffff0ff == 0 && k < 4
    ensures (n + k) & 0xf00 == n && (n + k) & 0xfffff0ff == k
  {
  }

  /** The two tests of the receive loop, the mask and the switch on the difference, together accept
      exactly one of all 32-bit identifiers. */
  lemma DispatchExact(n: NodeId, id: bv32)
    ensures id & CANMSG_NODEID_MASK == n && id - n == CANMSG_LED_ID <==> id == n + 3
    ensures CANMSG_NODEID_MASK == 0xf00
  {
    MaskOfSum(n, 3);
    assert id - n == 3 <==> id == n + 3;
  }

  /** Distinct nodes and distinct kinds of message, which are 1, 2 and 3, never share an identifier. */
  lemma IdentifiersDistinct(n: NodeId, m: NodeId, k: bv32, l: bv32)
    requires k <= 3 && l <= 3
    ensures n + k == m + l ==> n == m && k == l
    ensures (n + k) & 0xf00 == n
  {
    MaskOfSum(n, k);
    MaskOfSum(m, l);
  }

  // ----- Timestamps

  /** `can_get_timestamp`: microseconds, in `uint64_t` arithmetic. */
  function Timestamp(sec: nat, nsec: nat): uint64 {
    (1000000 * sec + nsec / 1000) % 0x1_0000_0000_0000_0000
  }

  /** A normalised clock value: the microseconds still fit 64 bits. */
  predicate ClockInRange(sec: nat, nsec: nat) {
    nsec < 1000000000 && 1000000 * sec + 999999 < 0x1_0000_0000_0000_0000
  }

  /** The timestamp determines the seconds and the microseconds, and orders clock values correctly. */
  lemma TimestampFaithful(sec: nat, nsec: nat, sec': nat, nsec': nat)
    requires ClockInRange(sec, nsec) && ClockInRange(sec', nsec')
    ensures Timestamp(sec, nsec) / 1000000 == sec && Timestamp(sec, nsec) % 1000000 == nsec / 1000
    ensures sec < sec' || (sec == sec' && nsec <= nsec') ==> Timestamp(sec, nsec) <= Timestamp(sec', nsec')
  {
    assert nsec / 1000 < 1000000 && nsec' / 1000 < 1000000;
  }

  /** The bytes of a number in memory on a little-endian machine. */
  function LittleEndian(x: nat, bytes: nat): (r: seq<uint8>)
    ensures |r| == bytes
  {
    if bytes == 0 then [] else [x % 0x100] + LittleEndian(x / 0x100, bytes - 1)
  }

  function FromLittleEndian(data: seq<uint8>): nat {
    if data == [] then 0 else data[0] + 0x100 * FromLittleEndian(data[1..])
  }

  function Pow256(k: nat): (p: nat)
    ensures p >= 1
  {
    if k == 0 then 1 else 0x100 * Pow256(k - 1)
  }

  /** Byte `k` of the memory image is digit `k` to base 256, the least significant first. */
  lemma {:induction false} LittleEndianAt(x: nat, bytes: nat, k: nat)
    requires k < bytes
    ensures LittleEndian(x, bytes)[k] == x / Pow256(k) % 0x100
  {
    if k > 0 {
      LittleEndianAt(x / 0x100, bytes - 1, k - 1);
      DivideTwice(x, Pow256(k - 1));
    }
  }

  lemma DivideTwice(x: nat, p: nat)
    requires p > 0
    ensures x / 0x100 / p == x / (0x100 * p)
  {
    var y := x / 0x100;
    var q, r := y / p, y % p;
    assert y == q * p + r;
    var low := x % 0x100;
    assert x == 0x100 * y + low;
    assert x == q * (0x100 * p) + (0x100 * r + low);
    QuotientUnique(x, 0x100 * p, q, 0x100 * r + low);
  }

  lemma QuotientUnique(x: nat, d: nat, q: nat, r: nat)
    requires r < d && x == q * d + r
    ensures x / d == q
  {
    var e := x / d - q;
    assert e * d == x / d * d - q * d;
    assert e >= 1 ==> e * d >= d;
    assert e <= -1 ==> e * d + d <= 0;
  }

  lemma {:induction false} LittleEndianInverse(x: nat, bytes: nat)
    requires x < Pow256(bytes)
    ensures FromLittleEndian(LittleEndian(x, bytes)) == x
  {
    if bytes > 0 {
      LittleEndianInverse(x / 0x100, bytes - 1);
    }
  }

  // ----- Frames built by the node

  function HeartbeatFrame(n: NodeId, ts: uint64): Frame {
    Frame(n + CANMSG_HEARTBEAT_ID, 8, LittleEndian(ts, 8))
  }

  function ButtonFrame(n: NodeId, sample: uint32): Frame {
    Frame(n + CANMSG_BUTTON_ID, 1, [sample % 0x100, 0, 0, 0, 0, 0, 0, 0])
  }

  /** A receiver recovers from a heartbeat, whose eight bytes are all sent, which node sent it and when. */
  lemma HeartbeatDecodes(n: NodeId, sec: nat, nsec: nat)
    requires ClockInRange(sec, nsec)
    ensures var f := HeartbeatFrame(n, Timestamp(sec, nsec));
            && f.id & 0xf00 == n && f.id == n + 1 && f.len == 8
            && FromLittleEndian(f.data) / 1000000 == sec
            && FromLittleEndian(f.data) % 1000000 == nsec / 1000
  {
    IdentifiersDistinct(n, n, CANMSG_HEARTBEAT_ID, CANMSG_HEARTBEAT_ID);
    assert Pow256(4) == 0x1_0000_0000;
    assert Pow256(8) == 0x1_0000_0000_0000_0000;
    LittleEndianInverse(Timestamp(sec, nsec), 8);
    TimestampFaithful(sec, nsec, sec, nsec);
  }

  /** `struct canmsg_s`, filled in place. */
  class Message {
    var id: bv32
    var len: uint8
    const data: array<uint8>

    function View(): Frame
      requires data.Length == CAN_DATA_MAX
      reads this, data
    {
      Frame(id, len, data[..])
    }

    constructor ()
      ensures data.Length == CAN_DATA_MAX && fresh(data)
    {
      id, len := 0, 0;
      data := new uint8[CAN_DATA_MAX](_ => 0);
    }

    /** `heartbeat_msg`. */
    method Heartbeat(nodeid: NodeId, ts: uint64)
      requires data.Length == CAN_DATA_MAX
      modifies this, data
      ensures View() == HeartbeatFrame(nodeid, ts)
      ensures id == nodeid + 1 && len == 8
      ensures forall k :: 0 <= k < 8 ==> data[k] == ts / Pow256(k) % 0x100
    {
      id := nodeid + CANMSG_HEARTBEAT_ID;
      len := 8;
      var bytes := LittleEndian(ts, 8);
      forall k | 0 <= k < 8 {
        data[k] := bytes[k];
      }
      forall k | 0 <= k < 8
        ensures data[k] == ts / Pow256(k) % 0x100
      {
        LittleEndianAt(ts, 8, k);
      }
    }

    /** `button_msg`. */
    method Button(nodeid: NodeId, sample: uint32)
      requires data.Length == CAN_DATA_MAX
      modifies this, data
      ensures View() == ButtonFrame(nodeid, sample)
      ensures id == nodeid + 2 && len == 1 && data[0] == sample % 0x100
      ensures forall k :: 1 <= k < 8 ==> data[k] == 0
    {
      id := nodeid + CANMSG_BUTTON_ID;
      len := 1;
      data[0] := sample % 0x100;
      data[1] := 0;
      data[2] := 0;
      data[3] := 0;
      data[4] := 0;
      data[5] := 0;
      data[6] := 0;
      data[7] := 0;
    }
  }

  // ----- The LED

  /** One turn of the receive loop: the read fails, or it delivers a frame; `ledOk` tells whether the LED
      driver call would succeed. */
  datatype ReadResult = ReadFailed | Received(frame: Frame, ledOk: bool)

  /** The input is a command that switches the LED of node `n`. */
  predicate Commands(n: NodeId, input: ReadResult) {
    input.Received? && input.frame.id == n + 3 && input.ledOk
  }

  /** The first data byte of the last command, or the LED as it was if there was none. */
  function LedAfter(n: NodeId, led: bool, inputs: seq<ReadResult>): bool {
    if inputs == [] then led
    else var last := inputs[|inputs| - 1];
      if Commands(n, last) then last.frame.data[0] != 0 else LedAfter(n, led, inputs[..|inputs| - 1])
  }

  /** No input after index `j` is a command for node `n`. */
  predicate NoneAfter(n: NodeId, inputs: seq<ReadResult>, j: int) {
    forall k :: 0 <= k < |inputs| && j < k ==> !Commands(n, inputs[k])
  }

  /** Inputs after the last command do not matter. */
  lemma {:induction false} LedAfterLast(n: NodeId, led: bool, inputs: seq<ReadResult>, j: int)
    requires -1 <= j < |inputs| && NoneAfter(n, inputs, j)
    ensures LedAfter(n, led, inputs) == LedAfter(n, led, inputs[..j + 1])
  {
    if j + 1 < |inputs| {
      var front := inputs[..|inputs| - 1];
      LedAfterLast(n, led, front, j);
      assert front[..j + 1] == inputs[..j + 1];
    } else {
      assert inputs[..j + 1] == inputs;
    }
  }

  class Node {
    const nodeid: NodeId
    var led: bool

    constructor (nodeid: NodeId)
      ensures this.nodeid == nodeid && !led
    {
      this.nodeid := nodeid;
      led := false;
    }

    /** The body of the receive loop for a delivered frame. */
    method HandleFrame(msg: Frame, ledOk: bool)
      modifies `led
      ensures led == if msg.id == nodeid + 3 && ledOk then msg.data[0] != 0 else old(led)
    {
      DispatchExact(nodeid, msg.id);
      if msg.id & CANMSG_NODEID_MASK != nodeid {
        return;
      }
      var msgid := msg.id - nodeid;
      if msgid == CANMSG_LED_ID && ledOk {
        led := msg.data[0] != 0;
      }
    }

    /** The loop of `thread_rx` over the results of its reads. */
    method ThreadRx(inputs: seq<ReadResult>)
      modifies `led
      ensures led == LedAfter(nodeid, old(led), inputs)
      ensures NoneAfter(nodeid, inputs, -1) ==> led == old(led)
      ensures forall j :: 0 <= j < |inputs| && Commands(nodeid, inputs[j]) && NoneAfter(nodeid, inputs, j)
                ==> led == (inputs[j].frame.data[0] != 0)
    {
      for i := 0 to |inputs|
        invariant led == LedAfter(nodeid, old(led), inputs[..i])
      {
        assert inputs[..i + 1][..i] == inputs[..i];
        match inputs[i]
        case ReadFailed =>
        case Received(msg, ledOk) => HandleFrame(msg, ledOk);
      }
      assert inputs[..|inputs|] == inputs;
      if NoneAfter(nodeid, inputs, -1) {
        LedAfterLast(nodeid, old(led), inputs, -1);
        assert inputs[..0] == [];
      }
      forall j | 0 <= j < |inputs| && Commands(nodeid, inputs[j]) && NoneAfter(nodeid, inputs, j)
        ensures led == (inputs[j].frame.data[0] != 0)
      {
        LedAfterLast(nodeid, old(led), inputs, j);
      }
    }

    /** The simulated `thread_button` over its stream of samples; returns the frames it sends. */
    method ThreadButton(samples: seq<uint32>) returns (sent: seq<Frame>)
      ensures sent == ButtonFrames(nodeid, Emitted(0, samples))
      ensures |sent| == |Changes(0, samples)| == |WithoutRepeats([0] + samples)| - 1
      ensures forall k :: 0 <= k < |sent| ==> Reports(nodeid, WithoutRepeats([0] + samples)[k + 1], sent[k])
    {
      var last := 0;
      var msg := new Message();
      sent := [];
      for i := 0 to |samples|
        invariant msg.data.Length == CAN_DATA_MAX && fresh(msg) && fresh(msg.data)
        invariant sent + ButtonFrames(nodeid, Emitted(last, samples[i..])) == ButtonFrames(nodeid, Emitted(0, samples))
      {
        var sample := samples[i];
        if last == sample {
          continue;
        }
        ghost var rest := Emitted(sample, samples[i + 1..]);
        assert Emitted(last, samples[i..]) == [sample] + rest;
        assert ButtonFrames(nodeid, [sample] + rest) == [ButtonFrame(nodeid, sample)] + ButtonFrames(nodeid, rest);
        last := sample;
        msg.Button(nodeid, sample);
        sent := sent + [msg.View()];
      }
      ButtonFramesReport(nodeid, samples);
    }
  }

  // ----- The simulated button

  function ButtonFrames(n: NodeId, samples: seq<uint32>): seq<Frame> {
    if samples == [] then [] else [ButtonFrame(n, samples[0])] + ButtonFrames(n, samples[1..])
  }

  /** The frame is the button message of node `n` for a sample: its low byte in the first data byte. */
  predicate Reports(n: NodeId, sample: uint32, f: Frame) {
    && f.id == n + 2 && f.len == 1
    && f.data == [sample % 0x100, 0, 0, 0, 0, 0, 0, 0]
  }

  lemma {:induction false} ButtonFramesAt(n: NodeId, samples: seq<uint32>)
    ensures |ButtonFrames(n, samples)| == |samples|
    ensures forall k :: 0 <= k < |samples| ==> Reports(n, samples[k], ButtonFrames(n, samples)[k])
  {
    if samples != [] {
      ButtonFramesAt(n, samples[1..]);
      assert forall k :: 1 <= k < |samples| ==> samples[k] == samples[1..][k - 1];
      assert forall k :: 1 <= k < |samples| ==> ButtonFrames(n, samples)[k] == ButtonFrames(n, samples[1..])[k - 1];
    }
  }

  lemma ButtonFramesReport(n: NodeId, samples: seq<uint32>)
    ensures var sent, stream := ButtonFrames(n, Emitted(0, samples)), WithoutRepeats([0] + samples);
            && |sent| == |Changes(0, samples)| == |stream| - 1
            && forall k :: 0 <= k < |sent| ==> Reports(n, stream[k + 1], sent[k])
  {
    var emitted := Emitted(0, samples);
    ButtonFramesAt(n, emitted);
    EmittedIsWithoutRepeats(0, samples);
    EmittedCountsChanges(0, samples);
    assert forall k :: 0 <= k < |emitted| ==> ([0] + emitted)[k + 1] == emitted[k];
  }

  /** The samples reported when the last one reported was `last`. */
  function Emitted(last: uint32, samples: seq<uint32>): seq<uint32>
    decreases |samples|
  {
    if samples == [] then []
    else if samples[0] == last then Emitted(last, samples[1..])
    else [samples[0]] + Emitted(samples[0], samples[1..])
  }

  /** The stream without elements equal to their predecessor. */
  function WithoutRepeats(xs: seq<uint32>): (r: seq<uint32>)
    ensures |xs| > 0 ==> |r| > 0
  {
    if |xs| <= 1 then xs
    else
      var front := xs[..|xs| - 1];
      if xs[|xs| - 1] == xs[|xs| - 2] then WithoutRepeats(front) else WithoutRepeats(front) + [xs[|xs| - 1]]
  }

  lemma {:induction false} EmittedSnoc(last: uint32, samples: seq<uint32>, x: uint32)
    ensures var before := ([last] + samples)[|samples|];
            Emitted(last, samples + [x]) == Emitted(last, samples) + if x == before then [] else [x]
    decreases |samples|
  {
    if samples != [] {
      assert (samples + [x])[1..] == samples[1..] + [x];
      assert ([last] + samples)[|samples|] == ([samples[0]] + samples[1..])[|samples| - 1];
      EmittedSnoc(samples[0], samples[1..], x);
    } else {
      assert (samples + [x])[1..] == [];
    }
  }

  /** The frames report exactly the stream that starts at 0, without repeats and without that first 0. */
  lemma {:induction false} EmittedIsWithoutRepeats(last: uint32, samples: seq<uint32>)
    ensures [last] + Emitted(last, samples) == WithoutRepeats([last] + samples)
  {
    if samples != [] {
      var front, x := samples[..|samples| - 1], samples[|samples| - 1];
      assert samples == front + [x];
      var xs := [last] + samples;
      assert xs[..|xs| - 1] == [last] + front;
      EmittedIsWithoutRepeats(last, front);
      EmittedSnoc(last, front, x);
    }
  }

  /** The positions at which the stream that starts at `last` changes. */
  function Changes(last: uint32, samples: seq<uint32>): set<nat> {
    set k: nat | k < |samples| && ChangesAt([last] + samples, k)
  }

  predicate ChangesAt(xs: seq<uint32>, k: nat)
    requires k + 1 < |xs|
  {
    xs[k] != xs[k + 1]
  }

  /** There is one frame for each change of state. */
  lemma {:induction false} EmittedCountsChanges(last: uint32, samples: seq<uint32>)
    ensures |Emitted(last, samples)| == |Changes(last, samples)|
  {
    if samples != [] {
      var n := |samples| - 1;
      var front, x := samples[..n], samples[n];
      assert samples == front + [x];
      EmittedCountsChanges(last, front);
      EmittedSnoc(last, front, x);
      ChangesSnoc(last, front, x);
    }
  }

  lemma ChangesSnoc(last: uint32, front: seq<uint32>, x: uint32)
    ensures var n := |front|;
            n !in Changes(last, front)
            && Changes(last, front + [x]) == Changes(last, front) + if x == ([last] + front)[n] then {} else {n}
  {
    var xs, ys := [last] + front, [last] + (front + [x]);
    assert ys == xs + [x];
    assert forall k :: 0 <= k < |front| ==> ChangesAt(ys, k) == ChangesAt(xs, k);
  }

  predicate Binary(xs: seq<uint32>) {
    forall k :: 0 <= k < |xs| ==> xs[k] <= 1
  }

  /** With a button that is up or down the reports alternate 1, 0, 1, ... */
  lemma {:induction false} EmittedAlternates(last: uint32, samples: seq<uint32>, k: nat)
    requires last <= 1 && Binary(samples) && k < |Emitted(last, samples)|
    ensures Emitted(last, samples)[k] == (last + k + 1) % 2
    decreases |samples|
  {
    if samples[0] == last {
      EmittedAlternates(last, samples[1..], k);
    } else if k > 0 {
      EmittedAlternates(samples[0], samples[1..], k - 1);
    }
  }
}
