/** A CAN bus with any set of nodes: every frame is broadcast, and each node acts on what reaches it. */
module CanBus {
  import opened Words
  import opened CanNode

  /** What is sent: frames built by nodes, or any other frame. */
  datatype Traffic =
    | Heartbeat(sender: NodeId, ts: uint64)
    | Button(sender: NodeId, sample: uint32)
    | Other(frame: Frame)

  /** One frame on the bus, the nodes it does not reach, and the nodes whose LED driver fails on it. */
  datatype Slot = Slot(traffic: Traffic, lost: set<NodeId>, stuck: set<NodeId>)

  function FrameOf(t: Traffic): Frame {
    match t
    case Heartbeat(n, ts) => HeartbeatFrame(n, ts)
    case Button(n, sample) => ButtonFrame(n, sample)
    case Other(f) => f
  }

  /** What the read of node `n` returns for a slot. A sender does not receive its own frame. */
  function InputOf(n: NodeId, slot: Slot): ReadResult {
    if n in slot.lost || (!slot.traffic.Other? && slot.traffic.sender == n) then ReadFailed
    else Received(FrameOf(slot.traffic), n !in slot.stuck)
  }

  /** One turn of a node's receive loop: mask, difference, switch. */
  function Receive(n: NodeId, led: bool, input: ReadResult): bool {
    match input
    case ReadFailed => led
    case Received(f, ledOk) =>
      if f.id & CANMSG_NODEID_MASK != n then led
      else if f.id - n == CANMSG_LED_ID && ledOk then f.data[0] != 0
      else led
  }

  lemma ReceiveCommands(n: NodeId, led: bool, input: ReadResult)
    ensures Receive(n, led, input) == if Commands(n, input) then input.frame.data[0] != 0 else led
  {
    if input.Received? {
      var id := input.frame.id;
      DispatchExact(n, id);
      var masked, command := id & CANMSG_NODEID_MASK == n, id - n == CANMSG_LED_ID;
      assert masked && command <==> id == n + 3;
    }
  }

  /** The LED of every node that may be on the bus. Two nodes with one id would be one argument here:
      the ids on a bus are distinct. */
  type Leds = NodeId -> bool

  function BusStep(leds: Leds, slot: Slot): Leds {
    (n: NodeId) => Receive(n, leds(n), InputOf(n, slot))
  }

  function BusRun(leds: Leds, slots: seq<Slot>): Leds {
    if slots == [] then leds else BusStep(BusRun(leds, slots[..|slots| - 1]), slots[|slots| - 1])
  }

  /** The slot carries a foreign frame with the LED identifier of `n` that reaches `n` and its LED. */
  predicate Switches(n: NodeId, slot: Slot) {
    slot.traffic.Other? && slot.traffic.frame.id == n + 3 && n !in slot.lost && n !in slot.stuck
  }

  /** No heartbeat and no button frame, whoever sends it, is a command for any node. */
  lemma NodeFramesAreNotCommands(n: NodeId, slot: Slot)
    ensures Commands(n, InputOf(n, slot)) <==> Switches(n, slot)
  {
    match slot.traffic
    case Heartbeat(m, _) => IdentifiersDistinct(n, m, CANMSG_LED_ID, CANMSG_HEARTBEAT_ID);
    case Button(m, _) => IdentifiersDistinct(n, m, CANMSG_LED_ID, CANMSG_BUTTON_ID);
    case Other(_) =>
  }

  /** The last switching frame decides. */
  function LedExpected(n: NodeId, led: bool, slots: seq<Slot>): bool {
    if slots == [] then led
    else var last := slots[|slots| - 1];
      if Switches(n, last) then last.traffic.frame.data[0] != 0 else LedExpected(n, led, slots[..|slots| - 1])
  }

  /** Bus-wide LED correctness: after any run each node's LED is the first data byte, as a truth value, of
      the last frame with identifier `n + 3` that reached it, and nothing else ever matters. */
  lemma {:induction false} BusLeds(leds: Leds, slots: seq<Slot>, n: NodeId)
    ensures BusRun(leds, slots)(n) == LedExpected(n, leds(n), slots)
  {
    if slots != [] {
      var front, last := slots[..|slots| - 1], slots[|slots| - 1];
      BusLeds(leds, front, n);
      ReceiveCommands(n, BusRun(leds, front)(n), InputOf(n, last));
      NodeFramesAreNotCommands(n, last);
    }
  }

  /** The same without a fold: with no switching frame the LED stays as it was, and otherwise it shows
      whether the first data byte of the last one is nonzero. */
  lemma {:induction false} LastSwitchDecides(leds: Leds, slots: seq<Slot>, n: NodeId, j: int)
    requires -1 <= j < |slots| && forall k :: j < k < |slots| ==> !Switches(n, slots[k])
    requires j >= 0 ==> Switches(n, slots[j])
    ensures BusRun(leds, slots)(n) == if j < 0 then leds(n) else slots[j].traffic.frame.data[0] != 0
  {
    if slots != [] {
      var front, last := slots[..|slots| - 1], slots[|slots| - 1];
      ReceiveCommands(n, BusRun(leds, front)(n), InputOf(n, last));
      NodeFramesAreNotCommands(n, last);
      if j < |slots| - 1 {
        LastSwitchDecides(leds, front, n, j);
      }
    }
  }

  function Inputs(n: NodeId, slots: seq<Slot>): seq<ReadResult> {
    if slots == [] then [] else Inputs(n, slots[..|slots| - 1]) + [InputOf(n, slots[|slots| - 1])]
  }

  /** A node on the bus does what the receive loop does on the results of its own reads. */
  lemma {:induction false} NodeOnBus(n: NodeId, led: bool, slots: seq<Slot>)
    ensures LedAfter(n, led, Inputs(n, slots)) == LedExpected(n, led, slots)
  {
    if slots != [] {
      var front, last := slots[..|slots| - 1], slots[|slots| - 1];
      NodeOnBus(n, led, front);
      NodeFramesAreNotCommands(n, last);
      assert Inputs(n, slots)[..|Inputs(n, slots)| - 1] == Inputs(n, front);
    }
  }

  /** Traffic of the nodes alone never changes an LED. */
  lemma {:induction false} NodesAloneAreInert(leds: Leds, slots: seq<Slot>, n: NodeId)
    requires forall k :: 0 <= k < |slots| ==> !slots[k].traffic.Other?
    ensures BusRun(leds, slots)(n) == leds(n)
  {
    if slots != [] {
      var front, last := slots[..|slots| - 1], slots[|slots| - 1];
      NodesAloneAreInert(leds, front, n);
      ReceiveCommands(n, BusRun(leds, front)(n), InputOf(n, last));
      NodeFramesAreNotCommands(n, last);
    }
  }

  /** A frame changes the LED of at most one node. */
  lemma OneNodePerFrame(leds: Leds, slot: Slot, n: NodeId, m: NodeId)
    requires BusStep(leds, slot)(n) != leds(n) && BusStep(leds, slot)(m) != leds(m)
    ensures n == m
  {
    ReceiveCommands(n, leds(n), InputOf(n, slot));
    ReceiveCommands(m, leds(m), InputOf(m, slot));
    IdentifiersDistinct(n, m, CANMSG_LED_ID, CANMSG_LED_ID);
  }
}
