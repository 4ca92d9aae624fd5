# Chronos-X, modelled and proved in Dafny

Chronos-X is a packet-chaos engine: an AF_XDP runtime moves frames between rings, a data plane
parses each packet and drops, delays, corrupts or reflects it as the chaos rules say, and a
control plane changes the rules over TCP. This project models its core and proves what the parts
promise together.

- **Frame lifecycle** (`Runtime`, `Ledger`, `Lifecycle`, `LossyRing`; objects in `RuntimeObject`).
  The adapter with its allocator, rings, wheel and data plane is one state machine; its steps are
  `init`, `poll_once` and four kernel steps: take a fill address, deliver it as RX, take a TX
  descriptor, complete it. Every frame in use is, at all times, in exactly one of: fill ring, kernel
  RX hand, RX ring, wheel, TX ring, kernel TX hand, completion ring, or it is lost. The theorem
  covers all runs; that nothing is lost when TX holds the posted frames, and that exactly the excess
  can be lost when it does not, are its two corollaries.
- **Timing wheel** (`TimingWheels`, `WheelContents`, `TimingWheelObject`): refines a list of frames by due tick.
- **Frame allocator and rings** (`FrameAllocation`, `FrameAllocatorObject`, `SocketRings`, `XskSocket`).
- **Data plane** (`DataPlane`, `BatchAccounting`, `BatchFates`, `BatchVerdicts`, `BatchEdits`, `BatchInvolution`,
  `DataPlaneMethods`): what a batch does to frames, bytes and counters, and that doing it twice undoes it.
- **End to end** (`PollPhases`, `Delivery`, `ByteIntegrity`): in every run, which packets reach the TX ring, in which
  poll, and with which bytes.
- **Parser** (`PacketParser`, `PacketLayout`, `PacketReprint`, `TestPackets`): inverse of a printer, both ways.
- **Chaos engine** (`ChaosEngine`, `Hashing`, `Decisions`): hashes that separate, decisions that are stable.
- **Control protocol** (`Crc32`, `Crc32Methods`, `Protocol`, `ProtocolMethods`, `ErrorDetection`, `ErrorLimits`, `RuleLayout`).
- **Control plane** (`Control`, `ControlWire`, `ControlObject`, `Reassembly`, `ReassemblyLimits`,
  `ReassemblyObject`).
- **SPSC queue** (`SpscQueue`): a state machine over atomic steps, with stale reads.

The pattern throughout: a value model with pure steps carries the theorems; where the source updates
fields or buffers in place, a class or method does the same and is proved to compute the model's step.
`Machine` holds machine words and counting, `Bits` exclusive or and shifts on integers.

Where the code is weaker than a natural reading, the exact condition is proved: rounding a delay up
(`Delivery.DelayedPacketReturnsOnTime`), the free list (`FrameAllocation.RunKeepsIff`), the TX ring
(`LossyRing.SmallTxRingLoses`), the response buffer (`Control.SnapshotInStepIff`), the message length
(`ReassemblyLimits.CutsAgreeIff`), a shortened length field (`ErrorLimits.ShorterLengthIff`), the test packet's size
(`TestPackets.TestPacketParses`) and a third thread's view of the queue (`SpscQueue.ObserverSize`).

Verify the whole project with `dafny verify dfyconfig.toml`.

## Model

| member | source | states |
|---|---|---|
| `Lifecycle.FramesConserved` | include/chronosx/af_xdp_runtime.hpp:60-141 | over every run of any adapter, any ring sizes, any number of `init` attempts and any kernel that only returns what it was given: each frame in use is in exactly one of the seven places or is a lost frame, the owner table agrees with the place, unposted frames stay free and are nowhere, `owner_failures` is always 0 and `fill_failures` is exactly the number of lost frames |
| `Lifecycle.NothingIsLost` | include/chronosx/af_xdp_runtime.hpp:193-250 | after a first successful `init`, with TX capacity at least the posted count, every run has `fill_failures == 0`, `owner_failures == 0` and no lost frame; the success of `init` itself is what bounds the posted frames by the fill ring |
| `LossyRing.SmallTxRingLoses` | include/chronosx/af_xdp_runtime.hpp:219-220 | that TX bound is exact: whenever more frames are posted than the TX ring holds, a run of one round per posted frame loses precisely the excess |
| `LossyRing.RoundSendsOrLoses` | include/chronosx/af_xdp_runtime.hpp:193-222 | from an idle state, one delivered packet is sent when the TX ring has room and lost when it has not |
| `Lifecycle.SubmitAllLoses` | include/chronosx/af_xdp_runtime.hpp:193-222 | submitting frames loses exactly those beyond the room in the TX ring, in order |
| `Lifecycle.StepKeeps` | include/chronosx/af_xdp_runtime.hpp:60-250 | every step (`init`, `poll_once`, and the four kernel steps) keeps the invariant: books balanced, no owner failure, one fill failure per lost frame, wheel faithful to its schedule |
| `Lifecycle.RunKeeps` | include/chronosx/af_xdp_runtime.hpp:60-250 | the same over every sequence of steps |
| `Lifecycle.InitSucceedsIff` | include/chronosx/af_xdp_runtime.hpp:60-85 | `init` on a fresh adapter answers `Ok` if and only if the fill ring holds min(initial_fill_frames, FrameCount) frames |
| `Lifecycle.InitLoopKeeps` | include/chronosx/af_xdp_runtime.hpp:69-81 | the posting loop keeps the books balanced also when it gives up half way, and gives the allocated frame back |
| `Lifecycle.DelayedFramesReturnOnTime` | include/chronosx/af_xdp_runtime.hpp:179-191 | in every run, an entry the wheel accepted in poll n with a delay of d ticks is among the frames offered to TX in poll n + max(1, d) and in no other poll; which packets get which delay is Delivery.DelayedPacketReturnsOnTime |
| `Lifecycle.PollFollowsSchedule` | include/chronosx/af_xdp_runtime.hpp:87-141 | a poll ticks the wheel once, submits exactly the frames due at that tick in the order they were accepted, and stamps every frame it delays with its own number |
| `Delivery.DelayedPacketReturnsOnTime` | include/chronosx/af_xdp_runtime.hpp:179-191 | the whole delay: in every run, a packet received in poll m that the wheel holds has a verdict that delays it by some delay_ns, and from then on the next poll offers its entry (address, length, rule, due tick) to TX if and only if it is poll m + t, and before that poll no entry with its address, where delay_ns <= t ticks < delay_ns + one tick if and only if the rounding sum does not wrap at 2^64 or the delay is within one tick |
| `Delivery.HeldIff` | include/chronosx/data_plane.hpp:189-209 | in every sound state, an arriving packet is held if and only if its verdict delays it, by no more than a turn of the wheel, and the poll it is due in is not fully booked by then |
| `Delivery.HeldLongEnough` | include/chronosx/data_plane.hpp:66-77 | the number of polls a positive delay is held for covers it and overshoots by less than a tick if and only if the rounding sum does not wrap or the delay is within one tick |
| `Delivery.ForwardedPacketsAreSent` | include/chronosx/af_xdp_runtime.hpp:87-141 | in every poll of every run the TX ring gains the frames falling due and then exactly the packets received in that poll that the rules forward, in order, as many as it has room for, and nothing else |
| `Delivery.PollTransmits` | include/chronosx/af_xdp_runtime.hpp:138-139 | the TX ring after a poll is the one before with the due frames and the batch's TX output appended in order up to its room; the RX ring has lost the packets received |
| `Delivery.BootSound` | include/chronosx/af_xdp_runtime.hpp:60-250 | every state of every run is sound: the lifecycle invariant holds and every packet on the RX ring lies inside its frame and inside UMEM |
| `PollPhases.PollBatchIs` | include/chronosx/af_xdp_runtime.hpp:94-136 | the poll's batch is the data plane's batch over the first 64 packets on the RX ring, on the bytes the kernel delivered and the wheel after its tick, and those packets lie in range and are pairwise disjoint |
| `PollPhases.PollDecides` | include/chronosx/af_xdp_runtime.hpp:126-136 | in every sound state: each arriving packet meets the one fate its verdict on the delivered bytes deserves, it is sent if and only if the verdict forwards it, none overflows, and the wheel is asked for exactly the delays of the delaying verdicts |
| `ByteIntegrity.PacketLeavesIntact` | include/chronosx/af_xdp_runtime.hpp:87-141 | end to end, in every run: from the poll that receives a packet, as long as its frame stays in the wheel, on the TX ring or in the kernel's TX hand, every byte is the delivered one edited exactly as that poll's decision says |
| `ByteIntegrity.StepKeepsByte` | include/chronosx/af_xdp_runtime.hpp:60-250 | no step of any kind writes to a frame owned by the data plane or the TX side |
| `Lifecycle.PollFlowBalance` | include/chronosx/af_xdp_runtime.hpp:27-35 | the counters of a poll balance: completed + received + pending before = refilled + submitted + fill failures + pending after, and each counter is what crossed its ring |
| `Ledger.PollKeeps` | include/chronosx/af_xdp_runtime.hpp:87-141 | a whole poll keeps every frame accounted for, adds no owner failure, adds one fill failure per lost frame, and with ample rings loses none |
| `Ledger.DrainKeeps` | include/chronosx/af_xdp_runtime.hpp:164-177 | draining completions returns each frame to the fill ring or loses it, and no other place changes |
| `Ledger.ReleaseKeeps` | include/chronosx/af_xdp_runtime.hpp:179-191 | releasing delayed frames moves what the tick returned from the wheel to TX or loses it |
| `Ledger.SubmitKeeps` | include/chronosx/af_xdp_runtime.hpp:193-222 | one submission moves one frame from the data plane to the TX ring, or rolls the owner back and loses it |
| `Ledger.RefillKeeps` | include/chronosx/af_xdp_runtime.hpp:235-250 | one refill moves one frame to the fill ring, or rolls the owner back and loses it |
| `Ledger.ReceiveBatchKeeps` | include/chronosx/af_xdp_runtime.hpp:97-124 | receiving claims every frame on the RX ring for the data plane: none fails, none is duplicated |
| `Ledger.BatchKeeps` | include/chronosx/af_xdp_runtime.hpp:126-136 | processing a batch splits the claimed frames between the wheel, TX and recycle without loss |
| `Ledger.TransitionMoves` | include/chronosx/af_xdp_runtime.hpp:111-112 | passing back the owner just read is always accepted for a frame in use, and moves that frame alone |
| `Ledger.RollBack` | include/chronosx/af_xdp_runtime.hpp:219-220 | the roll-back transition restores the owner table exactly |
| `RuntimeObject.AfXdpRuntimeAdapter.Init` | include/chronosx/af_xdp_runtime.hpp:60-85 | the object's `init` computes the new state and status of the model the theorems are about |
| `RuntimeObject.AfXdpRuntimeAdapter.PollOnce` | include/chronosx/af_xdp_runtime.hpp:87-141 | the object's `poll_once` computes the new state and statistics of the model the theorems are about |
| `RuntimeObject.AfXdpRuntimeAdapter.DrainCompletions` | include/chronosx/af_xdp_runtime.hpp:164-177 | the in-place drain computes the model's |
| `RuntimeObject.AfXdpRuntimeAdapter.ReleaseDelayed` | include/chronosx/af_xdp_runtime.hpp:179-191 | the in-place release computes the model's |
| `RuntimeObject.AfXdpRuntimeAdapter.SubmitAll` | include/chronosx/af_xdp_runtime.hpp:193-222 | the submission loop computes the model's |
| `RuntimeObject.AfXdpRuntimeAdapter.RefillAll` | include/chronosx/af_xdp_runtime.hpp:224-233 | the refill loop computes the model's |
| `RuntimeObject.AfXdpRuntimeAdapter.RefillOne` | include/chronosx/af_xdp_runtime.hpp:235-250 | one refill, with its roll-back, computes the model's |
| `RuntimeObject.AfXdpRuntimeAdapter.ReceiveAll` | include/chronosx/af_xdp_runtime.hpp:102-124 | the claim loop computes the model's descriptors and counters |
| `RuntimeObject.NewAdapter` | include/chronosx/af_xdp_runtime.hpp:252-256 | a default-constructed adapter: full pool, empty rings, empty wheel, zeroed UMEM |
| `TimingWheels.RunRefines` | include/chronosx/timing_wheel.hpp:55-102 | after any operations from a fresh wheel, tick i has returned exactly the frames accepted for it in scheduling order, and the slots hold exactly the rest: the wheel refines a plain list of (due tick, frame) |
| `TimingWheels.ReleasedOnTime` | include/chronosx/timing_wheel.hpp:55-102 | an accepted frame is returned at max(1, delay) ticks after it was scheduled and at no other tick |
| `TimingWheels.SlotHoldsOneTick` | include/chronosx/timing_wheel.hpp:65-66 | within one turn a slot holds a single due tick, so residues never mix |
| `TimingWheels.TickReturnsDue` | include/chronosx/timing_wheel.hpp:79-102 | a tick returns exactly what is due and its compaction keeps nothing back |
| `TimingWheels.AcceptedIff` | include/chronosx/timing_wheel.hpp:55-77 | a frame is accepted if and only if its delay is at most one turn and its own due tick is not fully booked |
| `TimingWheels.StepsKeepBounded` | include/chronosx/timing_wheel.hpp:144-149 | `pending_count_` stays the sum of the slot counts, and no slot outgrows its bound |
| `WheelContents.ScheduleAdds` | include/chronosx/timing_wheel.hpp:55-77 | an accepted frame is added to the wheel once; a refused one changes nothing |
| `WheelContents.TickTakes` | include/chronosx/timing_wheel.hpp:79-102 | a tick takes out exactly what it returns, address by address |
| `TimingWheelObject.TimingWheel.Schedule` | include/chronosx/timing_wheel.hpp:55-77 | the in-place insertion computes the model's schedule step |
| `TimingWheelObject.TimingWheel.Tick` | include/chronosx/timing_wheel.hpp:79-102 | the in-place tick computes the model's tick |
| `TimingWheelObject.TimingWheel.ExpireSlot` | include/chronosx/timing_wheel.hpp:86-98 | the compaction loop moves what is due to the expired list, keeps the rest in order at the front of the slot, and touches no other slot |
| `FrameAllocation.RunKeepsIff` | include/chronosx/frame_allocator.hpp:105-220 | over every sequence of calls, the free stack lists exactly the frames owned by Free, without duplicates, in every state passed through if and only if no call is a misuse of the state it meets |
| `FrameAllocation.ApplyKeepsIff` | include/chronosx/frame_allocator.hpp:119-220 | the same for one call: allocating to Free, naming Free as the expected owner, or a repeated handle in a batch, where that call takes effect, are exactly what breaks the law |
| `FrameAllocation.DisciplinedRuns` | include/chronosx/frame_allocator.hpp:119-220 | callers that never do those three things keep the law, whatever else they do |
| `FrameAllocation.ReleaseBatchKeepsIff` | include/chronosx/frame_allocator.hpp:198-220 | for a batch release: exactly when the law survives; and disciplined callers never see `PoolFull` |
| `FrameAllocation.ReleaseKeepsIff` | include/chronosx/frame_allocator.hpp:174-196 | for a single release: exactly when the law survives; and disciplined callers never see `PoolFull` |
| `FrameAllocation.FailureChangesOnlyCounters` | include/chronosx/frame_allocator.hpp:119-220 | a call that reports failure has changed nothing but a failure counter |
| `FrameAllocation.ReleaseUndoesAllocate` | include/chronosx/frame_allocator.hpp:174-196 | releasing an allocated frame restores stack, owners and counters |
| `FrameAllocation.AllocateManyPops` | include/chronosx/frame_allocator.hpp:135-150 | a batch allocation returns the top of the stack, top first, one handle per frame, as many as there are |
| `FrameAllocation.HandleRoundTrip` | include/chronosx/frame_allocator.hpp:222-235 | an address is accepted if and only if it is the start of a frame, and then names that frame |
| `FrameAllocatorObject.FrameAllocator.constructor` | include/chronosx/frame_allocator.hpp:105-112 | a fresh allocator owns all frames as Free, frame 0 on top |
| `FrameAllocatorObject.FrameAllocator.Allocate` | include/chronosx/frame_allocator.hpp:119-133 | the in-place pop computes the model's allocation |
| `FrameAllocatorObject.FrameAllocator.AllocateBatch` | include/chronosx/frame_allocator.hpp:135-150 | the allocation loop computes the model's batch |
| `FrameAllocatorObject.FrameAllocator.Transition` | include/chronosx/frame_allocator.hpp:152-172 | the in-place transition computes the model's, error cases included |
| `FrameAllocatorObject.FrameAllocator.Release` | include/chronosx/frame_allocator.hpp:174-196 | the in-place push computes the model's release, error cases included |
| `FrameAllocatorObject.FrameAllocator.ReleaseBatch` | include/chronosx/frame_allocator.hpp:198-220 | the check-then-free loops compute the model's all-or-nothing release |
| `SocketRings.SimulatedRing.NextSlotIsFree` | include/chronosx/socket_manager.hpp:199-209 | the slot the producer writes next holds no pending item, also after the 64-bit counters wrap |
| `SocketRings.SimulatedRing.Produce` | include/chronosx/socket_manager.hpp:199-209 | appends as many items as there is room for, in order, and says how many |
| `SocketRings.SimulatedRing.Consume` | include/chronosx/socket_manager.hpp:211-221 | removes and returns the oldest items, up to the limit |
| `XskSocket.SimulatedXskSocket.Refill` | include/chronosx/socket_manager.hpp:278-284 | posts addresses to the fill ring alone, and reports `RingFull` exactly when some did not fit |
| `XskSocket.SimulatedXskSocket.DrainCompletions` | include/chronosx/socket_manager.hpp:288-292 | takes the oldest completions and touches no other ring |
| `XskSocket.SimulatedXskSocket.ConsumeRx` | include/chronosx/socket_manager.hpp:296-300 | takes the oldest received descriptors and touches no other ring |
| `XskSocket.SimulatedXskSocket.SubmitTx` | include/chronosx/socket_manager.hpp:304-308 | posts descriptors to the TX ring alone, and reports `RingFull` exactly when some did not fit |
| `BatchInvolution.TwiceRestoresUmem` | include/chronosx/data_plane.hpp:139-231 | running a batch twice with the same rules over pairwise disjoint descriptors restores UMEM byte for byte, whatever the two wheels, output sizes and tick lengths |
| `BatchInvolution.EditedTwice` | include/chronosx/data_plane.hpp:79-108 | for one frame: swap and corruption preserve the parse and the fast decision, so the same edit is made and undoes itself |
| `BatchInvolution.EditKeepsParse` | include/chronosx/data_plane.hpp:79-108 | the edit of a forwarded frame never changes its parse |
| `BatchInvolution.EditAllTwice` | include/chronosx/data_plane.hpp:150-228 | any self-inverse edit of disjoint frames, applied in one pass and again in a second, restores every byte |
| `BatchInvolution.BatchStaysInFrames` | include/chronosx/data_plane.hpp:110-122 | a batch writes no byte outside the in-range frames it was given |
| `BatchEdits.BatchEditsEachByte` | include/chronosx/data_plane.hpp:150-228 | over disjoint descriptors every byte of every frame ends as its own decision says: MAC bytes exchanged if forwarded, the low bit of payload byte hash mod payload_length inverted if corrupted, otherwise unchanged |
| `BatchEdits.PickIsInside` | include/chronosx/data_plane.hpp:93-108 | the corrupted byte is always a payload byte inside the frame, so the function's own range checks never fail on a parsed packet with a payload |
| `BatchVerdicts.BatchFollowsVerdicts` | include/chronosx/data_plane.hpp:139-231 | over disjoint descriptors the whole batch is decided by the bytes UMEM held before it: a packet is sent if and only if its verdict forwards it and fewer than the TX capacity were sent before it, held if and only if its verdict delays it and the wheel accepts it, and of the rest lost if and only if the recycle output was full; the wheel is asked for each delaying verdict's own delay in arrival order; outputs are the verdicts' records; and malformed, invalid, corrupted, schedule-failure and overflow counters are exact |
| `BatchVerdicts.RoomyBatchSends` | include/chronosx/data_plane.hpp:139-231 | with outputs at least as long as the batch, a packet is sent if and only if its verdict forwards it, none is lost and no overflow is counted |
| `BatchFates.ApplyOutcome` | include/chronosx/data_plane.hpp:170-228 | one descriptor: its exact fate from the room left and the wheel it meets, the exact wheel operation, and what it adds to the overflow and schedule-failure counters |
| `BatchFates.PlannedIsAccepted` | include/chronosx/data_plane.hpp:189-209 | a planned delay that the wheel accepts enters the wheel's history with that delay, stamped with the current tick |
| `BatchAccounting.BatchConserves` | include/chronosx/data_plane.hpp:124-231 | for every batch: TX, recycle and newly scheduled frames are order-preserving subsequences that partition the descriptors, except that drops beyond the recycle room are lost, exactly when there are more drops than room; packets_seen = tx_frames + packets_delayed + packets_dropped |
| `BatchAccounting.SelectPartitions` | include/chronosx/data_plane.hpp:124-231 | every descriptor is in exactly one of the four groups |
| `Delivery.LongestDelayWraps` | include/chronosx/data_plane.hpp:66-77 | a delay of 2^64 - 1 ns wraps the rounding sum and is held for one poll |
| `DataPlane.DelayRoundsUp` | include/chronosx/data_plane.hpp:66-77 | the rounding arithmetic by itself: the ticks for a positive delay cover it and overshoot by less than a tick if and only if the sum does not wrap at 2^64 or the delay is within one tick; Delivery.DelayedPacketReturnsOnTime applies it to packets |
| `DataPlaneMethods.SwapEthernetMacs` | include/chronosx/data_plane.hpp:79-91 | the in-place loop exchanges the two addresses of one frame and no other byte, and says whether it did |
| `DataPlaneMethods.CorruptPacketPayload` | include/chronosx/data_plane.hpp:93-108 | the in-place flip changes one bit of one frame, and says whether it did |
| `DataPlaneMethods.AppendRecycle` | include/chronosx/data_plane.hpp:124-136 | writes the next recycle slot, or counts an overflow when there is none |
| `DataPlaneMethods.ProcessPacketBatch` | include/chronosx/data_plane.hpp:139-231 | the in-place loop over UMEM, wheel and output arrays computes the batch the theorems are about |
| `PacketReprint.ParsesIff` | include/chronosx/packet_parser.hpp:208-342 | a frame parses if and only if it is the printed form of some well-formed TCP or UDP packet: each status other than `Ok` is given to frames that are not |
| `PacketReprint.FrameOfParsed` | include/chronosx/packet_parser.hpp:208-342 | printing the packet read from an accepted frame gives the frame back, byte for byte |
| `PacketLayout.ParseOfFrame` | include/chronosx/packet_parser.hpp:208-342 | parsing the printed form of any packet (any options, payload, surplus and padding) gives back every field and offset |
| `PacketLayout.PayloadOfFrame` | include/chronosx/packet_parser.hpp:177-179 | the offsets parsed point at the payload that was printed |
| `PacketParser.ParsedPacketFits` | include/chronosx/packet_parser.hpp:208-342 | payload_offset + payload_length <= 14 + IPv4 total length <= frame length, with the payload after the headers |
| `PacketParser.ParseReadsOnlyHeaders` | include/chronosx/packet_parser.hpp:208-342 | frames that agree from the EtherType up to the payload parse alike, whatever the other bytes |
| `PacketParser.TailIsIgnored` | include/chronosx/packet_parser.hpp:259-269 | bytes past the IPv4 total length never change a parsed field |
| `TestPackets.TestPacketParses` | src/main.cpp:62-95 | for every port and size, the test packet parses back to that port and payload size if and only if the size is at most 65495 |
| `TestPackets.TestPayloadRecovered` | src/main.cpp:62-95 | the bytes parsed out are the payload that was written |
| `TestPackets.BuildTestPacket` | src/main.cpp:62-95 | the writing loops produce exactly that packet and leave the rest of the frame alone |
| `Hashing.PacketHashSeparates` | include/chronosx/chaos_engine.hpp:148-167 | packets whose hashed fields differ in exactly one byte always get different 64-bit packet hashes |
| `Hashing.PayloadByteSeparates` | include/chronosx/chaos_engine.hpp:148-167 | changing one payload byte always changes the packet hash |
| `Hashing.FramePayloadByteSeparates` | include/chronosx/chaos_engine.hpp:148-167 | a parsing frame with one payload byte changed parses alike and always gets a different packet hash |
| `Hashing.FlowHashSeparates` | include/chronosx/chaos_engine.hpp:169-181 | flows that differ in exactly one byte always get different flow hashes |
| `Hashing.OneByteNeverCollides` | include/chronosx/chaos_engine.hpp:114-135 | FNV-1a never collides on strings of one length that differ in one byte, from any starting hash |
| `Hashing.FnvByteInjective` | include/chronosx/chaos_engine.hpp:114-118 | one FNV-1a step is injective in the hash and in the byte, modulo 2^64 |
| `Hashing.AvalancheInjective` | include/chronosx/chaos_engine.hpp:137-144 | the avalanche is injective on 64-bit words |
| `Hashing.XorShiftUndone` | include/chronosx/chaos_engine.hpp:137-144 | each xor-shift by 33 is its own inverse |
| `Bits.XorIsBitwise` | include/chronosx/chaos_engine.hpp:114-118 | the exclusive or the model uses on integers is the machine's: in every bit, the sum of the two bits modulo two |
| `Hashing.StablePacketHash` | include/chronosx/chaos_engine.hpp:148-167 | the byte-by-byte loop computes the hash of the concatenated fields |
| `Hashing.StableFlowHash` | include/chronosx/chaos_engine.hpp:169-181 | likewise for the flow hash |
| `Decisions.FastAgreesWithFull` | include/chronosx/chaos_engine.hpp:255-275 | fast and full decisions always pick the same rule, and agree completely when the payload is empty, nothing matches, or the clamped probability is 0 or 10000 |
| `Decisions.AppliesIff` | include/chronosx/chaos_engine.hpp:213-232 | a rule's action is applied if and only if the roll is below the clamped probability |
| `Decisions.MonotoneInProbability` | include/chronosx/chaos_engine.hpp:213-253 | raising one rule's probability never withdraws an action it applied, and changes no packet another rule decides |
| `Decisions.RemovingARule` | include/chronosx/protocol.hpp:292-304 | removing a rule that does not match a packet, or is shadowed, leaves its decision unchanged; removing its first match leaves the decision to the rules after it |
| `Decisions.FirstMatchUnique` | include/chronosx/chaos_engine.hpp:255-275 | the rule chosen is the only index with the first-match property |
| `Decisions.Decide` | include/chronosx/chaos_engine.hpp:255-264 | the loop computes the first-match decision on the full hash |
| `Decisions.DecideFast` | include/chronosx/chaos_engine.hpp:266-275 | the loop computes the first-match decision on the flow hash |
| `Crc32.TableIsBitwise` | include/chronosx/protocol.hpp:148-173 | one table step equals eight bit-by-bit polynomial steps, on every register and byte (section 8 of RFC 1952) |
| `Crc32.UpdateConcat` | include/chronosx/protocol.hpp:166-173 | updating over a concatenation is updating piecewise |
| `Crc32.UpdateIsWord` | include/chronosx/protocol.hpp:166-173 | a byte string of any length acts as one number: exclusive-or it in, then one polynomial step per bit |
| `Crc32.BitStepLinear` | include/chronosx/protocol.hpp:148-160 | the polynomial step is linear for exclusive or |
| `Crc32.BitStepsInjective` | include/chronosx/protocol.hpp:148-160 | any number of steps is injective on 32-bit registers |
| `Crc32.FourBytesInjective` | include/chronosx/protocol.hpp:166-173 | different strings of the same length up to four bytes give different registers |
| `Crc32.SuffixKeepsDifference` | include/chronosx/protocol.hpp:166-173 | different registers stay different through any common suffix |
| `Crc32.BurstChangesChecksum` | include/chronosx/protocol.hpp:175-179 | two messages that differ only within four consecutive bytes have different checksums |
| `Crc32Methods.GenerateTable` | include/chronosx/protocol.hpp:148-160 | the table loops fill in every entry |
| `Crc32Methods.Crc32Update` | include/chronosx/protocol.hpp:166-173 | the byte loop computes the update |
| `ErrorDetection.BurstRejected` | include/chronosx/protocol.hpp:222-276 | any change within four consecutive bytes that avoids the length field and does not straddle the CRC field's edge is rejected, whatever follows the message |
| `ErrorDetection.SingleByteRejected` | include/chronosx/protocol.hpp:222-276 | any change of a single byte outside the length field is rejected |
| `ErrorDetection.LongerLengthRejected` | include/chronosx/protocol.hpp:244-251 | a length field that grew makes a lone message incomplete or too large |
| `ErrorDetection.DecodeOfWhole` | include/chronosx/protocol.hpp:236-268 | a message with a right length is accepted if and only if magic, version and checksum are right |
| `ErrorLimits.FiveByteChangeAccepted` | include/chronosx/protocol.hpp:222-276 | the four-byte bound is exact: in every message, at every five payload bytes, whatever the first becomes, some change of the five is accepted |
| `ErrorLimits.ShorterLengthIff` | include/chronosx/protocol.hpp:244-268 | a message whose length field was overwritten by a shorter length is accepted if and only if the bytes then covered have the same checksum |
| `ErrorLimits.ShrunkLengthAccepted` | include/chronosx/protocol.hpp:244-268 | for every header and payload four more bytes exist with which the message is also accepted at its shorter length, so a shrunk length field is not always detected |
| `ErrorLimits.FourBytesOnto` | include/chronosx/protocol.hpp:166-173 | from any register, four bytes lead to any register |
| `ErrorLimits.BitStepsOnto` | include/chronosx/protocol.hpp:148-160 | every register is reached in any number of bit steps, which with BitStepsInjective makes the step a bijection |
| `Protocol.DecodeOfEncoding` | include/chronosx/protocol.hpp:191-276 | decode undoes encode for every header and every payload up to 65536 bytes, whatever follows |
| `Protocol.EncodingOfDecoded` | include/chronosx/protocol.hpp:222-276 | an accepted input starts with the encoding of the header and payload it decodes to |
| `Protocol.AcceptedIff` | include/chronosx/protocol.hpp:222-276 | the decoder accepts exactly the inputs that start with some encoding |
| `Protocol.HeaderRoundTrip` | include/chronosx/protocol.hpp:107-142 | the big-endian readers undo the writers on the whole header |
| `Protocol.HeaderUnique` | include/chronosx/protocol.hpp:107-142 | the writers undo the readers on every 24 bytes |
| `ProtocolMethods.EncodeMessage` | include/chronosx/protocol.hpp:191-220 | the in-place encoder writes exactly the encoding, or writes nothing and says why |
| `ProtocolMethods.WriteHeaderWithoutCrc` | include/chronosx/protocol.hpp:181-189 | the header writer puts every field in its place with a zero CRC, and touches nothing else |
| `ProtocolMethods.DecodeMessage` | include/chronosx/protocol.hpp:222-276 | the decoder's two-chunk CRC gives the verdict of the one-pass checksum |
| `Control.SnapshotInStepIff` | include/chronosx/control_plane.hpp:278-293 | one request leaves the published snapshot equal to the rule table if and only if the response buffer holds 24 bytes or the request changes nothing |
| `Control.SnapshotAlwaysInStep` | include/chronosx/control_plane.hpp:278-334 | over every sequence of requests with at least 24 response bytes the snapshot is the rule table |
| `Control.ChangesIff` | include/chronosx/protocol.hpp:340-365 | a request changes the table if and only if it decodes as a well-formed addition with room, removal in range, or clearing of a non-empty table; nothing else changes |
| `Control.EveryRequestAnswered` | include/chronosx/protocol.hpp:340-456 | every request gets a response that decodes, carrying the request's sequence number, or 0 if the request does not decode |
| `Control.DefaultsAreRoomy` | include/chronosx/control_plane.hpp:65 | the default 128 rules and 8192-byte response buffer are large enough for every response |
| `ControlWire.ListingIsTable` | include/chronosx/protocol.hpp:450-456 | an encoded listing request changes nothing, and the whole table is recovered from the decoded response |
| `ControlWire.AddedRuleIsListed` | include/chronosx/protocol.hpp:418-433 | a rule sent in an encoded request is acknowledged, and the next listing asked for and decoded gives the old rules followed by it |
| `ControlWire.RemovedRuleIsGone` | include/chronosx/protocol.hpp:435-448 | an index sent in an encoded request is acknowledged, and the next listing lacks that rule and no other |
| `ControlWire.StatsAreReturned` | include/chronosx/protocol.hpp:409-416 | an encoded statistics request returns the record last published, or zeros before the first |
| `RuleLayout.RuleRoundTrip` | include/chronosx/chaos_engine.hpp:15-28 | a rule survives the copy into its 40 bytes and back |
| `RuleLayout.BytesRoundTrip` | include/chronosx/chaos_engine.hpp:15-28 | every 40 bytes are the bytes of the rule read from them |
| `RuleLayout.TableRoundTrip` | include/chronosx/protocol.hpp:450-456 | the rules are recovered from the bytes of a listing |
| `ControlObject.RuleTable.Add` | include/chronosx/protocol.hpp:282-290 | appends, or reports a full table and changes nothing |
| `ControlObject.RuleTable.RemoveAt` | include/chronosx/protocol.hpp:292-304 | the shifting loop removes one rule and keeps the order of the rest |
| `ControlObject.ControlCore.Handle` | include/chronosx/protocol.hpp:340-365 | the in-place handler computes the model's new table and response |
| `ControlObject.ControlCore.PublishStats` | include/chronosx/protocol.hpp:367-370 | replaces the statistics record and nothing else |
| `ControlObject.ControlPlaneCore.HandleRequest` | include/chronosx/control_plane.hpp:278-293 | the object computes the model's step, and a new snapshot is a new object: earlier snapshots are never written |
| `ControlObject.ControlPlaneCore.PublishRules` | include/chronosx/control_plane.hpp:331-334 | the published snapshot is a fresh copy of the table |
| `Reassembly.SplitsDoNotMatter` | include/chronosx/control_plane.hpp:527-576 | however a well-framed stream is cut into reads of 1 to 4096 bytes, the buffer never overflows, the connection stays open and exactly the stream's messages are dispatched; well framed means every message is at most 4097 bytes or followed by so little that from its start the rest fits 8192 bytes, and a header with a length field above 65536 is the last thing in the stream, where it is dispatched by itself |
| `ReassemblyLimits.CutsAgreeIff` | include/chronosx/control_plane.hpp:527-576 | the condition is exact over every stream: all ways of cutting it keep the connection open and dispatch the same messages if and only if it is well framed |
| `ReassemblyLimits.AllCutsStayOpenIff` | include/chronosx/control_plane.hpp:527-576 | for every stream without a length field above 65536, staying open alone decides: all ways of cutting it keep the connection open if and only if it is well framed |
| `ReassemblyLimits.OversizedLengthDependsOnCut` | include/chronosx/control_plane.hpp:173-200 | for every connection with an empty buffer and every stream that starts with a length field above 65536 and goes on after the header, cutting it after 24 and after 25 bytes dispatches different messages |
| `Reassembly.SplitsServeAlike` | include/chronosx/control_plane.hpp:527-576 | however a well-framed stream is cut, answering each read as it comes leaves the rules and snapshot, and sends the responses, of the stream's messages handled one by one in order |
| `Reassembly.SessionServes` | include/chronosx/control_plane.hpp:552-575 | for every cut and every handler, serving read by read is serving the dispatched messages in order |
| `ReassemblyLimits.LongerMessageCanOverflow` | include/chronosx/control_plane.hpp:137-144 | a message longer than 4097 bytes, met with an empty buffer and followed by enough bytes to make 8193 from its start, loses the connection when they come in reads of 4096, 1 and 4096 |
| `ReassemblyLimits.SameMessageCanArrive` | include/chronosx/control_plane.hpp:137-144 | while reads of 4096 and 4096 bytes of the same stream deliver it, if it fits the buffer |
| `Reassembly.GuardUnreachable` | include/chronosx/control_plane.hpp:554-557 | the guard inside the dispatch loop can never fire |
| `Reassembly.FramesExtend` | include/chronosx/control_plane.hpp:173-200 | more bytes only extend the framing of a stream |
| `Reassembly.DrainIsFraming` | include/chronosx/control_plane.hpp:552-575 | on a well-framed buffer the dispatch loop takes exactly the framed messages |
| `ReassemblyObject.ConnectionBuffer.Append` | include/chronosx/control_plane.hpp:137-144 | appends what fits and records an overflow exactly when something did not |
| `ReassemblyObject.ConnectionBuffer.Consume` | include/chronosx/control_plane.hpp:154-162 | the shifting loop drops the front of the buffer and keeps the rest in order |
| `ReassemblyObject.DispatchAll` | include/chronosx/control_plane.hpp:552-575 | the loop terminates, takes out the complete messages in order and answers each |
| `ReassemblyObject.HandleRead` | include/chronosx/control_plane.hpp:527-576 | one read computes the model's connection step and serves what it dispatched |
| `ReassemblyObject.HandleReads` | include/chronosx/control_plane.hpp:427-459 | the readable events of one connection, each appended, dispatched and answered before the next, compute the session the theorems are about |
| `SpscQueue.FifoUnderEveryInterleaving` | include/chronosx/spsc_queue.hpp:30-54 | under every interleaving and every stale index value coherence allows: popped items are a prefix of pushed items, at most a capacity's worth are outstanding, and each of those is intact in its slot, also after the indices wrap |
| `SpscQueue.StepKeeps` | include/chronosx/spsc_queue.hpp:30-54 | each atomic step of either side keeps the invariant, and histories only grow |
| `SpscQueue.RunKeeps` | include/chronosx/spsc_queue.hpp:30-54 | the same for every run from every coherent state |
| `SpscQueue.WriteSlotKeeps` | include/chronosx/spsc_queue.hpp:30-41 | a push never overwrites an unread slot |
| `SpscQueue.ReadSlotKeeps` | include/chronosx/spsc_queue.hpp:43-54 | a pop reads the oldest item not yet popped |
| `SpscQueue.LoadHeadKeeps` | include/chronosx/spsc_queue.hpp:30-41 | a push gives up exactly when the queue looks full for the head value it saw |
| `SpscQueue.ProducerSize` | include/chronosx/spsc_queue.hpp:56-60 | called by the producer, `size_approx` lies between the true size and the capacity |
| `SpscQueue.ConsumerSize` | include/chronosx/spsc_queue.hpp:56-60 | called by the consumer, `size_approx` is at most the true size |
| `SpscQueue.ObserverSize` | include/chronosx/spsc_queue.hpp:56-60 | called by a third thread with any stale pair of values, `size_approx` is within the capacity if and only if the pair makes sense: no more popped than pushed and no more outstanding than fit; with current values only the first can fail |
| `SpscQueue.ObserverCanWrap` | include/chronosx/spsc_queue.hpp:56-60 | a concrete run: one push and one pop between a third thread's two loads make the result 2^64 - 1 |

## Left out

- The kernel, libxdp and BPF side (`libxdp_socket.hpp`, `run_live`, `bpf/`): foreign calls. The kernel is four abstract steps that return only frame addresses they were given, with a length of at most the frame size; the simulated socket has no operation that drains its TX ring, so the model supplies that step.
- Sockets, epoll, eventfd, accept and send in `ControlPlaneServer`: I/O. Reads arrive as byte strings of 1 to 4096 bytes, and sends are taken to succeed.
- The terminal UI, the Python client, benchmarks, scripts, status-name switches (the control protocol's own names are modelled, since error responses carry them), layout assertions and cache-line alignment: they would only add easy members. The client packs rules big-endian; the 40-byte layout modelled is the server's little-endian one.
- Wrap of the wheel's tick at 2^64, and of statistics and failure counters: these are unbounded naturals. Ring and queue indices do wrap in the model.
- Slot counts and capacities need only be positive where the source asks for powers of two (masking is the remainder); rings and the SPSC queue keep the power of two, which their wrap-around needs. Frame counts are taken to fit the 32-bit frame index.
- Reserved fields of handles and of processed frames; the statistics record is treated as its 48 bytes.
- `SpscQueue` is a state machine on values, one step per atomic access, not a class: two threads cannot call methods in Dafny. What a load may return is any value between the last one seen and the current one; torn or racy access to a slot is outside the model.
- A snapshot's lifetime and the atomicity of the pointer swap: the snapshot is one field holding an immutable object.
- Any claim that hashes or rolls are uniformly distributed.
- DataPlaneMethods.ProcessPacketBatch: asks that UMEM, the wheel's storage and the two output arrays are different memory, as they are wherever the source calls it.
- Code snippets in the repository's prose documents differ from the headers in places; the headers are followed.
