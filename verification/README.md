# Verified model of the NuttX example applications

Three programs are modelled: the Modbus slave device, the thread counter and the CAN node.

## The Modbus device

One register file, 18 input words and 2 holding words, is shared by three threads under one mutex.

- `Words`, `Average` and `Registers` define the big-endian word codec (MODBUS Application Protocol
  Specification V1.1b3, section 4.2), the exponential moving average, and the effect of each critical
  section as one atomic step on a register file.
- `Device` is the program's structure with its in-place arrays, loops and callbacks. Each method is proved
  to do what the atomic section does.
- `Windows` relates the bytes of register windows to the documented register map. `History` states what the
  registers hold after any run of sections in terms of the samples and requests of that run.
- `Interleaving` runs the three threads at single accesses: each store of a field or array element, each
  byte sent, both half-writes of a received word, each lock and unlock. `Refinement` proves that every such
  run refines a run of atomic sections. The proof idea is one function, the effect of the rest of the
  section in progress, which no single access changes. `Observers` transports the results of `History` to
  every reachable state and shows that a master never decodes a torn read.

Assumptions: the host is little-endian; raw ADC samples are between 0 and 4095 and every read delivers four
of them; a right shift of a negative `int` is arithmetic. The comment at
apps/mini_modbusslave/modbusslave_main.c:119 gives alpha as 0.5, but the shift of 2 makes it 1/4, as
`Average.EmaStepFloor` shows; the model follows the code. The main thread may increment before the ADC
thread has started here, which allows more runs than the program has.

## The thread counter

`SharedCounter` is one step relation for the four synchronised builds, for any number N of workers below
2^32, which is also the value main waits for. `CounterProperties` proves the common refinement, exclusion,
absence of deadlock and of lost wakeups, that done always stays reachable, and termination of the
condition variable build with an explicit bound. `CounterProgram` runs the steps on the program's variables
in place. The lock, read-write lock and condition variable operations are those of POSIX.1-2017, with
spurious wakeups.

## The CAN node

`CanNode` covers the identifiers, the frames built in place, the receive loop and the simulated button;
`CanBus` a bus with any of the 16 node ids that fit the mask, with lost frames and failing LED drivers.
`btn_buttonset_t` is declared outside the repository and is taken as 32 bits wide; only its low byte is sent.

## Model

| member | source | states |
|---|---|---|
| Words.BigEndian | apps/mini_modbusslave/modbusslave_main.c:496-497 | the two byte expressions of a read send the most significant byte of the register first, the least significant second |
| Words.AssembleBigEndian | apps/mini_modbusslave/modbusslave_main.c:557-558 | storing the swapped first byte and or-ing in the second gives the big-endian word of the two bytes, where the or works on bits |
| Words.DecodeEncode | apps/mini_modbusslave/modbusslave_main.c:494-500 | decoding the bytes sent for any run of registers gives the registers back |
| Words.EncodeDecode | apps/mini_modbusslave/modbusslave_main.c:555-561 | encoding the registers assembled from any even number of bytes gives the bytes back |
| Average.EmaStepFloor | apps/mini_modbusslave/modbusslave_main.c:369-376 | the update with the arithmetic shift is the floor of (3 avg + now) / 4 for every avg and now, so alpha is 1/4 |
| Average.EmaErrorBound | apps/mini_modbusslave/modbusslave_main.c:278-288 | after any samples since a reset the integer average is at most, and less than 3 below, the exact closed-form weighted average |
| Average.EmaErrorTight | apps/mini_modbusslave/modbusslave_main.c:369-376 | no bound below 3 would do: for each smaller one some run of samples exceeds it |
| Average.FixedPoints | apps/mini_modbusslave/modbusslave_main.c:373-376 | for a constant input c the average stays where it is exactly at c-3, c-2, c-1 and c |
| Average.SettleGeometric | apps/mini_modbusslave/modbusslave_main.c:373-376 | with constant input the distance d to the nearest fixed point obeys 4^n d_n <= 3^n d_0 and the average never crosses to the other side |
| Average.SettleReaches | apps/mini_modbusslave/modbusslave_main.c:373-376 | with constant input the average equals the nearest fixed point after at most as many samples as it was away from it |
| Average.EmaStepBetween | apps/mini_modbusslave/modbusslave_main.c:373-376 | the new average lies between the old one and the sample, so no value is narrowed on the way into `int16_t` |
| Average.EmaMonotone | apps/mini_modbusslave/modbusslave_main.c:369-376 | pointwise larger samples give a larger average |
| Registers.RawToMilivoltFloor | apps/mini_modbusslave/modbusslave_main.c:79-81 | the conversion is the floor of raw * 3300 / 4095 and maps full scale to the reference voltage |
| Registers.RawToMilivoltMonotone | apps/mini_modbusslave/modbusslave_main.c:79-81 | a larger raw sample never converts to fewer millivolts |
| Device.ModbusState.constructor | apps/mini_modbusslave/modbusslave_main.c:172-193 | the initial register file: all zero but the default interval of 10000 |
| Device.ModbusState.AdcResetStats | apps/mini_modbusslave/modbusslave_main.c:278-288 | the reset loop sets min, max and avg of all four channels to the sentinels and 0 and changes nothing else |
| Device.ModbusState.AdcStart | apps/mini_modbusslave/modbusslave_main.c:315-325 | the first section of the ADC thread is a reset followed by status 1 |
| Device.ModbusState.StoreSample | apps/mini_modbusslave/modbusslave_main.c:363-376 | the in-place stores for one channel are the atomic statistics update of that channel, and leave the other channels alone |
| Device.ModbusState.AdcSample | apps/mini_modbusslave/modbusslave_main.c:353-379 | the sampling section: honour a pending reset, update the four channels, return the interval register |
| Device.ModbusState.Tick | apps/mini_modbusslave/modbusslave_main.c:461-463 | the counter is incremented modulo 65536 and nothing else changes |
| Device.ModbusState.InputPtr | apps/mini_modbusslave/modbusslave_main.c:127-135 | the `uint16_t` view of the input structure: which field each of the 18 words is |
| Device.ModbusState.RegInputCB | apps/mini_modbusslave/modbusslave_main.c:477-512 | the answer is no error exactly for windows inside registers 1 to 18; an accepted window puts exactly the encoding of its registers at the front of the buffer, a rejected one leaves the buffer alone |
| Device.ModbusState.ReceiveWord | apps/mini_modbusslave/modbusslave_main.c:557-558 | one turn of the write loop stores the word its two bytes assemble to |
| Device.ModbusState.RegHoldingCB | apps/mini_modbusslave/modbusslave_main.c:522-576 | the answer is no error exactly for windows inside registers 31 and 32, for reads and writes; an accepted write stores in each register it names the big-endian value of its two bytes, keeps the other register and the buffer; a rejected request changes neither |
| Windows.AcceptedExactly | apps/mini_modbusslave/modbusslave_main.c:488-490 | a read or write is accepted exactly when each of its registers exists, or it is empty and starts no further than one past the map; for all 16-bit addresses and counts |
| Windows.InputWindowFields | apps/mini_modbusslave/modbusslave_main.c:83-102 | every register of every accepted input window decodes to the field of the documented map, signed in two's complement from register 3 on |
| Windows.AdjacentInputWindows | apps/mini_modbusslave/modbusslave_main.c:488-501 | two adjacent reads of one state concatenate to the read of their union |
| Windows.AdjacentHoldingWindows | apps/mini_modbusslave/modbusslave_main.c:533-551 | the same for holding registers |
| Windows.WriteThenRead | apps/mini_modbusslave/modbusslave_main.c:541-563 | reading back a written window gives exactly the written bytes |
| Windows.WriteExactly | apps/mini_modbusslave/modbusslave_main.c:553-563 | a write changes exactly the registers of its window, each to the big-endian value of its two bytes, and no input register |
| Windows.WriteCarriedOut | apps/mini_modbusslave/modbusslave_main.c:533-563 | every write inside registers 31 and 32 is accepted and carried out: each register named takes the value of its two bytes, the other one and all input registers stay |
| Windows.RejectedInert | apps/mini_modbusslave/modbusslave_main.c:566-575 | rejected requests and reads change nothing |
| History.PendingIsRegister | apps/mini_modbusslave/modbusslave_main.c:353-357 | the reset word is nonzero exactly when a nonzero value was the last one written to register 32 since the last sampling section |
| History.ChannelHistory | apps/mini_modbusslave/modbusslave_main.c:353-377 | in every run with interleaved resets: min and max are exactly those of the converted samples since the last reset, avg is their integer moving average, now the last sample |
| History.ExtremesOfRaws | apps/mini_modbusslave/modbusslave_main.c:363-367 | min and max are the conversions of the least and greatest raw sample since the last reset |
| History.AverageWithinThree | apps/mini_modbusslave/modbusslave_main.c:361-377 | in every run the stored average is at most, and less than 3 mV below, the exact moving average since the last reset |
| History.PhaseHolds | apps/mini_modbusslave/modbusslave_main.c:172-193 | booting: statistics 0 and status 0; ready: sentinels; live: 0 <= min <= now <= max <= 3300 and 0 <= avg <= max on every channel |
| History.PhaseForward | apps/mini_modbusslave/modbusslave_main.c:315-325 | phases never go backwards along a run |
| History.SentinelsGone | apps/mini_modbusslave/modbusslave_main.c:353-367 | once a sample has been stored no sentinel is visible between sections again, also across resets |
| History.ResetHonoured | apps/mini_modbusslave/modbusslave_main.c:353-377 | a nonzero write to register 32 that is not overwritten makes the next sampling section end with min, max and now equal to its sample, avg its floor quarter and the request word 0 |
| History.CounterCountsTicks | apps/mini_modbusslave/modbusslave_main.c:457-466 | the counter register is the number of increments modulo 65536, whatever else runs |
| History.OrderPreserved | apps/mini_modbusslave/modbusslave_main.c:361-377 | runs with resets at the same sampling sections and pointwise larger samples have larger now, min, max and avg on every channel |
| History.ConstantInputSettles | apps/mini_modbusslave/modbusslave_main.c:369-376 | a channel fed a constant voltage settles on the nearest fixed point of its average, from any state of the device |
| History.CellsAreRegisters | apps/mini_modbusslave/modbusslave_main.c:541-563 | after any run the holding registers are a map from register numbers to words updated last writer wins, with the reset cell cleared by sampling |
| History.ReadsMatchCells | apps/mini_modbusslave/modbusslave_main.c:541-551 | after any run every accepted holding read sends the bytes of that map |
| History.DefaultInterval | apps/mini_modbusslave/modbusslave_main.c:189 | until register 31 is written, a read of it decodes to the default interval of 10000 microseconds, whatever else runs |
| Interleaving.AdcFromStart | apps/mini_modbusslave/modbusslave_main.c:353-379 | the single accesses of an ADC section, run in order from its start, have the effect of the atomic section |
| Interleaving.AdcStepKeepsRest | apps/mini_modbusslave/modbusslave_main.c:282-287 | every single access of an ADC section leaves the outcome of the section unchanged |
| Interleaving.ModbusStepKeepsRest | apps/mini_modbusslave/modbusslave_main.c:488-563 | every single access of a Modbus section stays inside the registers and the request and leaves the outcome and the response of the section unchanged |
| Refinement.StepRefines | apps/mini_modbusslave/modbusslave_main.c:349-383 | each step of each thread either leaves the completed sections as they are or completes exactly the section in progress: refinement of atomic sections, with the invariant kept |
| Refinement.Reachable | apps/mini_modbusslave/modbusslave_main.c:461-463 | the refinement invariant holds after every schedule |
| Observers.MutualExclusion | apps/mini_modbusslave/modbusslave_main.c:486-509 | no two threads are in their sections together, and the one that is holds the lock |
| Observers.HolderProgress | apps/mini_modbusslave/modbusslave_main.c:531-573 | the lock holder always has an enabled in-bounds step that brings it closer to the unlock |
| Observers.FinishSection | apps/mini_modbusslave/modbusslave_main.c:349-383 | from every reachable state the lock holder alone can finish its section in a bounded number of steps, completing exactly the section in progress |
| Observers.Realised | apps/mini_modbusslave/modbusslave_main.c:329-388 | conversely every legal run of atomic sections is the log of some interleaving |
| Observers.LogIsBegun | apps/mini_modbusslave/modbusslave_main.c:329-388 | the log of a run is exactly the sections its schedule began, with the samples and requests they began with, in order, but for the one in progress: none is lost, altered or invented |
| Observers.LockFreeState | apps/mini_modbusslave/modbusslave_main.c:349-383 | whenever the lock is free: the register file is that of the completed atomic sections, in the phase they say, with exact history and the error bound on every channel |
| Observers.ResponseIsSnapshot | apps/mini_modbusslave/modbusslave_main.c:486-509 | the k-th response, sent byte by byte, is the response to the k-th request computed from one register file |
| Observers.FullReadConsistent | apps/mini_modbusslave/modbusslave_main.c:83-102 | a master that reads all input registers at any time decodes zeroes, sentinels or consistent statistics, never a mixture |
| Observers.CounterExact | apps/mini_modbusslave/modbusslave_main.c:461-463 | in every reachable state, also inside sections, the counter is the number of stored increments modulo 65536 |
| Observers.StatusExact | apps/mini_modbusslave/modbusslave_main.c:323 | in every reachable state the status is 0 before the one store to it and 1 after |
| Observers.StatusNeverFalls | apps/mini_modbusslave/modbusslave_main.c:315-325 | along every run the status never falls |
| Observers.DelayIsInterval | apps/mini_modbusslave/modbusslave_main.c:379-387 | the delay used is the interval register of the section just left |
| SharedCounter.Reachable | apps/mini_components3/components3_main.c:74-131 | lock ownership, counter value, main's knowledge and pending signals agree in every reachable state of all four builds |
| CounterProperties.StepRefines | apps/mini_components3/components3_main.c:74-131 | every step of the atomic, mutex, condition variable and read-write lock builds is a step of one abstract counter or invisible in it |
| CounterProperties.CounterExact | apps/mini_components3/components3_main.c:144-154 | the counter equals the number of workers past their increment, and main prints only after all of them |
| CounterProperties.NoOverlap | apps/mini_components3/components3_main.c:118-131 | no worker's section overlaps another worker's or a read of main |
| CounterProperties.SamplesRise | apps/mini_components3/components3_main.c:184-206 | the values main samples never fall, and a sample of the full count is its last |
| CounterProperties.FullSampleEnds | apps/mini_components3/components3_main.c:241-248 | a sample taken after all increments ends the loop |
| CounterProperties.NoDeadlock | apps/mini_components3/components3_main.c:208-229 | in every reachable state of every build that is not the end some thread can move |
| CounterProperties.WaitsOnlyForHolder | apps/mini_components3/components3_main.c:74-131 | a worker waits exactly while another thread is in its section, main exactly while a worker is in one or until it is woken; every other thread that has not ended can move |
| CounterProperties.Unsignalled | apps/mini_components3/components3_main.c:102-116 | no lost wakeup: while main is blocked some running worker has yet to signal |
| CounterProperties.EverySignalHeard | apps/mini_components3/components3_main.c:102-116 | while main is blocked, the number of workers past their signal equals its last sample: every worker signals, and every signal after that sample would have woken main |
| CounterProperties.RunsEnd | apps/mini_components3/components3_main.c:208-229 | a run of the condition variable build has at most 11 N + 7 steps, and 5 more for each spurious wakeup |
| CounterProperties.MaximalRunsPrint | apps/mini_components3/components3_main.c:208-229 | a run that cannot be extended has printed done with all N increments counted |
| CounterProperties.WorkersEnd | apps/mini_components3/components3_main.c:74-131 | in every build the workers take at most 10 N steps in all |
| CounterProperties.TailRun | apps/mini_components3/components3_main.c:194-203 | after the workers have finished, a run of any build has at most 8 more steps |
| CounterProperties.DoneReachable | apps/mini_components3/components3_main.c:166-253 | from every reachable state of every build the program can still run to done with all N increments counted |
| CounterProgram.Program.StepWorker | apps/mini_components3/components3_main.c:102-116 | the next access of a worker on the program's variables is the modelled step, and no worker of the condition variable build gets past its signal with main left blocked |
| CounterProgram.Program.StepMain | apps/mini_components3/components3_main.c:166-253 | the next access of thread creation and main on the program's variables is the modelled step |
| CounterProgram.Program.Run | apps/mini_components3/components3_main.c:144-154 | the program run from its initial state under a schedule ends in the state of that schedule |
| CounterProgram.Program.RunToDone | apps/mini_components3/components3_main.c:208-229 | the condition variable program terminates done under every scheduler that moves some thread whenever one can move |
| CanNode.DispatchExact | apps/mini_cannode/cannode_main.c:276-291 | mask test, subtraction and switch accept exactly the 32-bit identifier nodeid + 3, and the mask is 0xf00 |
| CanNode.IdentifiersDistinct | apps/mini_cannode/cannode.h:44-51 | distinct nodes and distinct kinds of message never share an identifier, and the mask recovers the node |
| CanNode.TimestampFaithful | apps/mini_cannode/cannode_main.c:82-88 | the timestamp determines seconds and microseconds and orders clock values |
| CanNode.HeartbeatDecodes | apps/mini_cannode/cannode_main.c:198-207 | a receiver of a heartbeat, identifier nodeid + 1 and eight bytes long, recovers its node and the clock value |
| CanNode.Message.Heartbeat | apps/mini_cannode/cannode_main.c:198-207 | the message filled in place has identifier nodeid + 1, length 8, and as byte k digit k of the timestamp to base 256 |
| CanNode.LittleEndianAt | apps/mini_cannode/cannode_main.c:204-206 | byte k of a number in little-endian memory is its digit k to base 256 |
| CanNode.Message.Button | apps/mini_cannode/cannode_main.c:218-234 | the message filled in place has identifier nodeid + 2, length 1, the low byte of the sample as first byte and zeros after it |
| CanNode.Node.HandleFrame | apps/mini_cannode/cannode_main.c:276-314 | a delivered frame changes the LED exactly if its identifier is nodeid + 3 and the driver call succeeds, to data[0] != 0 |
| CanNode.Node.ThreadRx | apps/mini_cannode/cannode_main.c:269-320 | after any reads the LED is data[0] != 0 of the last command nodeid + 3 that reached the driver, or as it was if there was none |
| CanNode.Node.ThreadButton | apps/mini_cannode/cannode_main.c:406-453 | one frame is sent for each change of the stream that starts from 0, in order, with identifier nodeid + 2, length 1 and the low byte of the new sample |
| CanNode.ButtonFramesReport | apps/mini_cannode/cannode_main.c:430-445 | the k-th frame carries the (k+1)-th value of the stream prefixed with 0 and without consecutive repeats, and there are no other frames |
| CanNode.EmittedIsWithoutRepeats | apps/mini_cannode/cannode_main.c:430-441 | the reported samples are the stream prefixed with 0, without consecutive duplicates and without that 0 |
| CanNode.EmittedCountsChanges | apps/mini_cannode/cannode_main.c:430-437 | there is one report for each position at which the stream changes |
| CanNode.EmittedAlternates | apps/mini_cannode/cannode_main.c:426-441 | with samples 0 and 1 the reports alternate 1, 0, 1, ... |
| CanBus.NodeFramesAreNotCommands | apps/mini_cannode/cannode_main.c:198-234 | no heartbeat or button frame of any node is an LED command for any node |
| CanBus.BusLeds | apps/mini_cannode/cannode_main.c:269-320 | after any bus traffic, with losses and driver failures, each node's LED is decided by the last foreign frame with identifier nodeid + 3 that reached it |
| CanBus.LastSwitchDecides | apps/mini_cannode/cannode_main.c:269-320 | with no switching frame on the bus an LED stays as it was, and otherwise it shows whether the first data byte of the last one is nonzero |
| CanBus.NodeOnBus | apps/mini_cannode/cannode_main.c:269-320 | the receive loop of a node run on its own reads agrees with the bus |
| CanBus.NodesAloneAreInert | apps/mini_cannode/cannode_main.c:218-234 | traffic of nodes alone never changes an LED |
| CanBus.OneNodePerFrame | apps/mini_cannode/cannode_main.c:276-291 | a frame changes the LED of at most one node |

## Left out

- The FreeModBus library: initialisation, polling, frames and checksums, and the mapping of errors to exceptions.
- Device opening, `ioctl`, `read`, `poll`, sleeping, thread attributes, stacks and priorities; samples, requests and read results are inputs, and schedules are arbitrary.
- Failed ADC reads, which leave the sample array undefined in C, and failures of `pthread_mutex_init`, `pthread_create` and the device opens.
- Big-endian hosts.
- Fairness: nothing makes a scheduler run the workers, so for the polling builds the results are that done stays reachable, that workers take boundedly many steps, and that a run ends soon after they finish.
- The unsynchronised builds of the thread counter and its build without threads, where the counter is never incremented.
- apps/mini_cannode/cannode_char.c and apps/mini_cannode/cannode_sock.c, which convert frames to the driver formats; the thread that reads a real button.
- The semaphore example and the examples without logic of their own (blinky, hello, oscore, components1, components2, components5), and the coil and discrete input callbacks, which always return an error.
