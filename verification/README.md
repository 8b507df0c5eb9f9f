# Verified models of the SoC's AXI multiplexer, multiply/divide unit and helpers

Dafny 4.11 models of the parts of this repository whose correctness rests on more than one function,
with machine-checked proofs. `dafny verify dfyconfig.toml` checks everything.

- **AXI write multiplexer** (`Lzc`, `RrArbTree`, `Fifo`, `SpillRegister`, `AxiIdPrepend`, `AxiMux`,
  `AxiMuxRuns`). N ports share one master port through a locking tree arbiter; a ring buffer remembers
  which port owns each write burst; a lock bit lets an owner be pushed before its address is accepted.
  Proved over all runs, for any number of ports from two on, any queue depth and any register setting:
  data follows addresses, nothing is lost or reordered, offers are stable (ARM IHI 0022, section
  A3.2.1), and no port starves, with a number.
- **Multiply/divide unit** (`DivUnit`, `Mdu`, `MduRuns`, `FuHandshake`). A radix-4 restoring divider
  that skips runs of zero quotient bits after truncated comparisons; the staged unit with HI/LO,
  accumulation and a three-deep undo history; the handshake that starts an instruction exactly once.
- **SECDED encoder** (`Ecc`): the in-place encoder for every data width, and what its code detects.
- **AXI burst addresses** (`AxiBurst`; ARM IHI 0022, section A3.4.1), including one family of inputs
  for which the code is wrong.
- **Issue queue** (`IssueQueue`) and **sub-word memory lanes** (`MemLanes`).

Each clocked module is a class with one field per register and a method `Tick` for one rising edge.
The method is proved against a step on values: for the ring buffer, the spill register and the issue
queue that step is the abstract queue itself; for the others it is a function on the register values,
about which the run-level theorems are proved. Modules are built from each other as in the hardware:
the multiplexer class holds the register-level arbiter, ring buffer and spill registers. `Bits` holds
shared facts about powers of two. Inputs that come from code outside the model (wake-up answers,
downstream ready signals, stalls, operands) are arbitrary; the ports of the multiplexer are assumed
to hold an offer until it is accepted, as the AXI standard demands.

Where the code departs from what is written about it:
- `axi_pkg.sv` says a beat address wraps by one subtraction past the container. In the last container
  of the 128-bit address type the upper limit overflows to zero and earlier beats are wrong;
  `AxiBurst.WrapBurstCorrectIff` gives the exact condition, `AxiBurst.WrapBurstFailsAtTheTop` an input.
- The arbiter's header says priorities rotate each cycle; the code rotates on each handshake, and the
  starvation bound is therefore in handshakes.

## Model

| member | source | states |
|---|---|---|
| Lzc.TreeFindsLowest | mycpu/lzc.sv:76-106 | a tree node forwards the lowest set bit of its window of leaves, for any width |
| Lzc.CountIsLinearSearch | mycpu/lzc.sv:44-109 | for every width and both modes: empty exactly when no bit is set, otherwise the count is the index of the lowest set bit (or the distance to the highest) |
| RrArbTree.TreePicksRequester | mycpu/rr_arb_tree.sv:246-295 | a node requests exactly when an input below it does, its index names a requesting input, and the priority input wins wherever it requests |
| RrArbTree.DataFollowsIndex | mycpu/rr_arb_tree.sv:263-293 | the payload that reaches a node is the one of the input its index names |
| RrArbTree.GrantReachesWinner | mycpu/rr_arb_tree.sv:243-295 | a grant given to a requesting node reaches exactly the winning input |
| RrArbTree.GrantIsUnique | mycpu/rr_arb_tree.sv:243-295 | at most one input is granted even when nothing requests, with either grant style |
| RrArbTree.GrantStyles | mycpu/rr_arb_tree.sv:257-277 | without `AxiVldRdy` only requesters are granted; with it a grant without any request goes to the last input if the tree is full or lacks one leaf, and to none otherwise |
| RrArbTree.ArbiterSpec | mycpu/rr_arb_tree.sv:301-325 | the grant assertions written (commented out) at the end of the module, for the visible requests: one-hot grants, grant out implies grant in, request and grant imply the winner's grant; output request exactly when some visible input requests; and the priority input wins |
| RrArbTree.WinnerIsNearest | mycpu/rr_arb_tree.sv:246-295 | exactly which requester wins: the one whose index, exclusive-or the priority, is least |
| RrArbTree.LiveRequests | mycpu/rr_arb_tree.sv:327-333 | the two request assertions, for the live inputs: any request raises the output request, and the output request implies a live one as long as locked requests are held; only a lock hides live inputs |
| RrArbTree.DataOutIsWinners | mycpu/rr_arb_tree.sv:131-134 | whenever the arbiter requests, its output payload is the winner's |
| RrArbTree.NextIdxIsNearest | mycpu/rr_arb_tree.sv:199-223 | the two masked zero counters yield the requester that comes next in cyclic order after the priority |
| RrArbTree.RotationStep | mycpu/rr_arb_tree.sv:143-240 | the registers after a cycle: the priority moves only with a handshake, in fair rotation to the requester that comes next, in unfair rotation to the next input; locked just when not accepted; a flush clears all |
| RrArbTree.ConstantLoadGoesRound | mycpu/rr_arb_tree.sv:194-223 | under a constant set of requests fair rotation serves the requesters in cyclic order, each handshake the next one |
| RrArbTree.StepKeepsValid | mycpu/rr_arb_tree.sv:143-240 | in every configuration the priority stays below the number of inputs and a lock always covers a request |
| RrArbTree.LockHoldsDecision | mycpu/rr_arb_tree.sv:143-160 | with the lock option a decision that was not accepted is the decision of the next cycle, whatever the inputs do |
| RrArbTree.WaitingStep | mycpu/rr_arb_tree.sv:194-240 | every handshake brings the priority strictly closer to a waiting visible input; a hidden request becomes visible at the next handshake |
| RrArbTree.NoStarvation | mycpu/rr_arb_tree.sv:16-34 | a request held until granted is among the next NumIn winners of any run (one more if an earlier decision hides it), for fair and unfair rotation |
| RrArbTree.FullLoadRotates | mycpu/rr_arb_tree.sv:194-240 | under full load the k-th handshake of a run serves the k-th input after the priority, cyclically |
| RrArbTree.FullLoadServesOnce | mycpu/rr_arb_tree.sv:194-240 | under full load no input is served twice within NumIn consecutive handshakes |
| RrArbTree.FullLoadServesAll | mycpu/rr_arb_tree.sv:194-240 | under full load every input is served within any NumIn consecutive handshakes |
| RrArbTree.Arbiter.Tick | mycpu/rr_arb_tree.sv:142-240 | one clock edge of the registers is the step that RotationStep characterises, from any valid state, and leaves a valid state |
| Fifo.NextPtrWraps | mycpu/fifo_v3.sv:74-92 | the pointer increment, with its truncated depth and 32-bit comparison, wraps at the depth for every depth, powers of two included |
| Fifo.RingStep | mycpu/fifo_v3.sv:61-109 | the written slot and the moved pointers turn the ring into the next queue contents, simultaneous push and pop and fall-through included |
| Fifo.Fifo.NextPointers | mycpu/fifo_v3.sv:61-109 | the next pointers and count as plain moves of at most one slot, for every combination of push, pop, full and empty |
| Fifo.Fifo.DataOut | mycpu/fifo_v3.sv:61-66 | whenever the buffer is not empty its output is the oldest element, or the pushed one when falling through |
| Fifo.Fifo.Tick | mycpu/fifo_v3.sv:61-136 | one clock edge is one step of a bounded queue of the given depth; flush empties it |
| SpillRegister.Conserves | mycpu/spill_register.sv:42-93 | what is sent followed by what is stored equals what was stored followed by what was taken |
| SpillRegister.Stable | mycpu/spill_register.sv:87-93 | an element offered and not accepted is offered again, unchanged; as a wire this needs the input to hold |
| SpillRegister.FullThroughput | mycpu/spill_register.sv:42-93 | an uninterrupted stream passes one element per cycle, one cycle late |
| SpillRegister.Stalled | mycpu/spill_register.sv:42-93 | under a stall it takes elements until it holds two, then none, and releases none |
| SpillRegister.SpillRegister.Tick | mycpu/spill_register.sv:42-93 | the two registers implement a two-entry queue in order, or nothing when bypassed |
| AxiIdPrepend.PrependRoundTrip | mycpu/axi_id_prepend.sv:81-97 | the widened identifier gives back both the port index and the original identifier |
| AxiIdPrepend.ResponseReturnsToRequester | mycpu/axi_mux.sv:309-332 | a response with a widened identifier is offered to the requesting port alone, accepted when that port is ready, and carries the port's own identifier |
| AxiIdPrepend.PrependInjective | mycpu/axi_id_prepend.sv:81-92 | two requests share a widened identifier only if they are from the same port with the same identifier |
| AxiMux.ChosenPort | mycpu/axi_mux.sv:188-205 | the address offered downstream is the offer of the winning, requesting port: every other field unchanged, the port's own identifier in the low bits, the port index above it and nothing above that |
| AxiMux.StepKeepsOk | mycpu/axi_mux.sv:207-257 | in every reachable state a waiting address is a locked arbiter decision, the owner queue is within its depth and holds existing ports only |
| AxiMux.Mux.WChannel | mycpu/axi_mux.sv:276-289 | the data multiplexer connects exactly the port at the head of the owner queue (or the one falling through) and pops on its last beat |
| AxiMux.Mux.Tick | mycpu/axi_mux.sv:188-304 | the multiplexer built from the register-level arbiter, ring buffer and spill registers steps as specified on their queues and shows the specified outputs |
| AxiMuxRuns.AwHandoverIsChosen | mycpu/axi_mux.sv:188-237 | a downstream acceptance is a handshake at the winning port, with the address that port offers, and no other port completes a handshake in that cycle |
| AxiMuxRuns.ControlPushesOnce | mycpu/axi_mux.sv:207-237 | the owner of an address is pushed once, when first offered, however long acceptance takes |
| AxiMuxRuns.QueueFollowsBursts | mycpu/axi_mux.sv:241-289 | owners of finished bursts followed by the owner queue are always all pushes, with fall-through too |
| AxiMuxRuns.CycleKeepsInv | mycpu/axi_mux.sv:188-304 | every cycle with polite ports keeps the whole invariant of addresses, pushes, bursts and stored beats |
| AxiMuxRuns.HeldExactly | mycpu/axi_mux.sv:188-289 | all that is assumed of a port is that it repeats an offer that was not accepted |
| AxiMuxRuns.RunsGoOn | mycpu/axi_mux.sv:188-304 | runs start at reset, and every behaviour of such ports and of the master port extends a run |
| AxiMuxRuns.WriteDataFollowsAddresses | mycpu/axi_mux.sv:188-291 | in every run the beats of the k-th burst come from the port of the k-th push, and pushes are the ports of all accepted addresses plus one pending exactly when the lock is set |
| AxiMuxRuns.NothingLost | mycpu/axi_mux.sv:207-304 | in every run the addresses and data beats sent, followed by those stored, are one for one those the ports handed over, in order: same fields, same identifier, port index above it; the owner queue never exceeds its depth |
| AxiMuxRuns.MasterPortOrder | mycpu/axi_mux.sv:276-304 | seen from the master port alone, the data of burst number b is from the port named by address number b, so bursts never interleave |
| AxiMuxRuns.AddressStable | mycpu/axi_mux.sv:216-271 | an address on the master port stays, unchanged, until accepted, with or without output register |
| AxiMuxRuns.DataStable | mycpu/axi_mux.sv:276-304 | a data beat on the master port stays, unchanged, until accepted, with or without output register and fall-through |
| AxiMuxRuns.EveryPortIsServed | mycpu/axi_mux.sv:188-237 | an address offered by a port is itself, as offered, among the next ports + 1 accepted addresses (among the next ports ones unless an earlier decision is locked) |
| AxiMuxRuns.FairTurn | mycpu/axi_mux.sv:188-205 | an accepted address is that of the port with the priority if it asks, and the priority then goes to the asking port that comes next in cyclic order |
| AxiMuxRuns.AddressProgress | mycpu/axi_mux.sv:207-237 | exactly when an address is accepted, an owner pushed and the lock set, in terms of port offers, room in the owner queue and room downstream |
| AxiMuxRuns.DataProgress | mycpu/axi_mux.sv:276-289 | exactly when a data beat is taken, and which one: that of the oldest owner, or with fall-through of the owner being pushed |
| AxiMuxRuns.MasterProgress | mycpu/axi_mux.sv:258-304 | exactly what is sent on the master port in a cycle, with and without output registers |
| AxiMuxRuns.WireProgress | mycpu/axi_mux.sv:216-289 | without output registers, exactly when the master port shows an address or a beat |
| DivUnit.SkipTestExact | mycpu/MDU_new.v:197-208 | the comparison of a truncated 32-bit slice with the divisor loses nothing: it is the comparison of the untruncated extended remainder |
| DivUnit.SkipTestMeaning | mycpu/MDU_new.v:197-208 | so it succeeds just when that many quotient digits are left and all are zero, stated on the quotient itself |
| DivUnit.BorrowExact | mycpu/MDU_new.v:166-168 | bit 66 of the 67-bit subtraction is set just when the multiple of the divisor does not fit |
| DivUnit.PickDigit | mycpu/MDU_new.v:209-212 | the three sign tests choose the radix-4 quotient digit and leave a remainder below the divisor |
| DivUnit.IterateProgress | mycpu/MDU_new.v:196-212 | every iteration keeps the division invariant and consumes at least 2 and at most 16 further bits of the dividend |
| DivUnit.IterateSkipsMost | mycpu/MDU_new.v:196-212 | every iteration skips 16, 8 or 4 zero quotient digits, the most there are, or else finds one radix-4 digit |
| DivUnit.FinishedDivision | mycpu/MDU_new.v:170-175 | the result is announced just when no bits are left; the register then holds quotient and remainder, all ones and the dividend for a zero divisor |
| DivUnit.StartProgress | mycpu/MDU_new.v:187-195 | a start establishes the invariant for the operand magnitudes |
| DivUnit.WordsDivide | mycpu/MDU_new.v:170-174 | read as numbers, the two result words satisfy dividend = quotient * divisor + remainder, with a smaller remainder of the dividend's sign, if and only if the operands are not the least number and -1; those give the least number and remainder zero |
| DivUnit.ResultsCorrect | mycpu/MDU_new.v:170-174 | the sign-corrected words are truncated quotient and remainder modulo 2^32 for all operands, INT_MIN / -1 and zero divisors included |
| DivUnit.DivisionCorrect | mycpu/MDU_new.v:139-218 | from any start, whatever arrives meanwhile, the first announcement comes after 2 to 16 cycles with the correct words |
| DivUnit.Divider.Tick | mycpu/MDU_new.v:177-218 | one clock edge of the registers is the specified step |
| Mdu.StagedCycle | mycpu/MDU2.v:64-89 | a staged operation enters the right unit with its own operands, one cycle later, and nothing else is in flight |
| Mdu.RunningCycle | mycpu/MDU_new.v:78-137 | a running operation either gets strictly closer to its end or announces its result and retires |
| Mdu.CompletionEffect | mycpu/MDU2.v:161-203 | what a completion writes: products and divisions replace HI and LO, accumulating ones add or subtract modulo 2^64, MUL changes only the product register |
| Mdu.NextKeepsInv | mycpu/MDU2.v:64-203 | every cycle keeps at most one operation in flight, tied to its operands, and all registers 32-bit words |
| Mdu.Unit.HiLoBlock | mycpu/MDU2.v:161-203 | the prioritised block computes the next HI, LO and product register that CompletionEffect, AcceptedStart, ImmediateRecovery and QuietCycle characterise |
| Mdu.Unit.UpdateHistory | mycpu/MDU2.v:112-132 | the three-deep history is cleared on recovery, shifted on an update, kept otherwise |
| Mdu.Unit.Tick | mycpu/MDU2.v:64-203 | one clock edge of all registers, multiplier and divider included, is the specified step |
| MduRuns.LogFollowsHiLo | mycpu/MDU2.v:112-132 | the history registers hold the newest entries of the log of values before each update, and HI and LO change only where the log does |
| MduRuns.RunRemembers | mycpu/MDU2.v:106-203 | every run, recoveries included, keeps the invariant and the match of history and log |
| MduRuns.ReachableRemembers | mycpu/MDU2.v:106-203 | so both hold in every state reachable from reset, for the log of all updates since |
| MduRuns.BusyExactly | mycpu/MDU2.v:106-107 | busy exactly while an operation is in flight or a recovery pending |
| MduRuns.AcceptedStart | mycpu/MDU_Controller.sv:36-45 | a start on an idle unit stages exactly the operation and operands of the selected port; MTHI and MTLO set their register and nothing else |
| MduRuns.MovesAreLogged | mycpu/MDU2.v:106-132 | on an idle unit exactly the moves to HI or LO enter the undo log, with the old values |
| MduRuns.FlightCycle | mycpu/MDU2.v:106-203 | while an operation is in flight the unit is busy, nothing else starts, and results stand still until it retires |
| MduRuns.CompletesOnce | mycpu/MDU2.v:91-106 | an operation in flight retires exactly once, within its latency, with its own effect, whatever the ports and recoveries do |
| MduRuns.StartToCompletion | mycpu/MDU2.v:64-203 | from acceptance: exactly one completion, within 2 cycles or, for a division, 18, with the effect of the accepted operation on its operands, and busy until then |
| MduRuns.ImmediateRecovery | mycpu/MDU2.v:136-169 | a recovery with number n requested while not busy sets HI and LO, in that cycle, to their values before the last n updates, or to zero when fewer were made since the last reset or recovery |
| MduRuns.PendingRecovery | mycpu/MDU2.v:136-169 | a pending one does so in the first cycle with nothing in flight, and leaves the unit free |
| MduRuns.QuietCycle | mycpu/MDU2.v:161-203 | with nothing in flight, requested or started, nothing changes |
| MduRuns.DeferredRecovery | mycpu/MDU2.v:136-160 | a recovery requested during an operation waits for it, counts its update, then undoes exactly the requested number and leaves the unit free |
| FuHandshake.Fu.Tick | mycpu/FU.sv:113-134 | the completion register follows the specified three-state machine |
| FuHandshake.MulHeld | mycpu/FU.sv:84-134 | a held MUL has handed over nothing while fresh and exactly one operation afterwards, whose operands or product the unit holds |
| FuHandshake.MulLeavesWithItsProduct | mycpu/FU.sv:84-134 | under any pattern of stalls, forwarded operands and HI/LO recoveries a MUL leaves after exactly one handover, with the low word of that product in the product register; what the result port shows in either way, whatever operation code the other way presents |
| FuHandshake.MulResultShown | mycpu/MDU_Controller.sv:47-69 | the result port shows that product in way 0, and in way 1 unless way 0 presents a HI/LO read, which neither the decoder nor the pairing rules allow beside a MUL |
| FuHandshake.WriterStartsOnce | mycpu/FU.sv:84-134 | every other instruction that writes HI or LO hands over exactly one operation before it leaves |
| FuHandshake.ReadSeesSettledValue | mycpu/FU.sv:89-97 | MFHI and MFLO, in either way, leave only when no operation is in flight and no recovery pending, with the register asked for on the result port |
| FuHandshake.HandoverIsStaged | mycpu/FU.sv:84-93 | the operation handed over, from either way, is the one the unit stages, and nothing else enters the unit; none is handed over to a busy unit or without enable |
| FuHandshake.OthersPass | mycpu/FU.sv:89-97 | an instruction without enable hands nothing over and waits for nothing but downstream stalls |
| FuHandshake.NoDeadlock | mycpu/FU.sv:84-134 | without downstream stalls every instruction leaves within 24 cycles, whatever recoveries come |
| Ecc.IsPowerOf2Exact | MegaSoC_NSCSCC.srcs/sources_1/modules/pulp-common_cells/test/ecc/ecc.cpp:11-13 | the bit trick accepts only powers of two |
| Ecc.PowerIsPower | MegaSoC_NSCSCC.srcs/sources_1/modules/pulp-common_cells/test/ecc/ecc.cpp:11-13 | and all of them |
| Ecc.CalcParityLen | MegaSoC_NSCSCC.srcs/sources_1/modules/pulp-common_cells/test/ecc/ecc.cpp:44-48 | the least number of check bits, at least two, that can name every position |
| Ecc.DataPositionsMatch | MegaSoC_NSCSCC.srcs/sources_1/modules/pulp-common_cells/test/ecc/ecc.cpp:44-64 | with that number the positions 1..d+p hold exactly d data positions, so the information bits are used up, none twice |
| Ecc.Expand | MegaSoC_NSCSCC.srcs/sources_1/modules/pulp-common_cells/test/ecc/ecc.cpp:62-64 | the first loop places every information bit at its position and clears the check positions |
| Ecc.SetCheckBit | MegaSoC_NSCSCC.srcs/sources_1/modules/pulp-common_cells/test/ecc/ecc.cpp:68-79 | setting a check bit to its check sum makes that sum even and leaves all earlier ones even |
| Ecc.EccEncode | MegaSoC_NSCSCC.srcs/sources_1/modules/pulp-common_cells/test/ecc/ecc.cpp:50-82 | the result carries the information bits in order with all check sums and the overall parity even, for every number of data bits |
| Ecc.WordBitsAreWord | MegaSoC_NSCSCC.srcs/sources_1/modules/pulp-common_cells/test/ecc/ecc.cpp:15-19 | the information bits, read least significant first, are the word modulo 2^d |
| Ecc.EncodingUnique | MegaSoC_NSCSCC.srcs/sources_1/modules/pulp-common_cells/test/ecc/ecc.cpp:50-82 | that description determines the codeword |
| Ecc.WordBitsDistinct | MegaSoC_NSCSCC.srcs/sources_1/modules/pulp-common_cells/test/ecc/ecc.cpp:15-19 | distinct words within the data width have distinct information bits |
| Ecc.SingleErrorLocated | MegaSoC_NSCSCC.srcs/sources_1/modules/pulp-common_cells/test/ecc/ecc.cpp:66-82 | one flipped position gives a syndrome equal to that position with odd overall parity |
| Ecc.ParityBitError | MegaSoC_NSCSCC.srcs/sources_1/modules/pulp-common_cells/test/ecc/ecc.cpp:81-82 | a flipped overall parity bit gives zero syndrome with odd parity |
| Ecc.DoubleErrorDetected | MegaSoC_NSCSCC.srcs/sources_1/modules/pulp-common_cells/test/ecc/ecc.cpp:66-82 | any two flipped bits give a nonzero syndrome with even parity |
| Ecc.CodeDistance | MegaSoC_NSCSCC.srcs/sources_1/modules/pulp-common_cells/test/ecc/ecc.cpp:50-82 | codewords of different information bits differ in at least four positions |
| Ecc.WordDistance | MegaSoC_NSCSCC.srcs/sources_1/modules/pulp-common_cells/test/ecc/ecc.cpp:50-82 | so do the codewords of any two different words, for every data width |
| AxiBurst.WrapShape | mycpu/axi_pkg.sv:103-140 | the boundary of an allowed wrapping burst is container-aligned and the start is a whole slot inside the container |
| AxiBurst.WrapBurstCorrectIff | mycpu/axi_pkg.sv:143-173 | every beat address equals boundary plus offset modulo container, if and only if the container does not end the 128-bit address space or the burst starts in its last slot |
| AxiBurst.WrapBurstFailsAtTheTop | mycpu/axi_pkg.sv:143-173 | a concrete burst at the top of the address space whose second beat address is wrong |
| AxiBurst.WrapIsBijection | mycpu/axi_pkg.sv:143-173 | below the top of the address space the beats visit every slot of the container exactly once |
| AxiBurst.IncrLanesFit | mycpu/axi_pkg.sv:175-192 | the lanes of every beat of an incrementing burst form a range within the bus, unaligned first beat included, wherever the burst lies |
| AxiBurst.IncrBurstTiles | mycpu/axi_pkg.sv:143-192 | the bytes on those lanes tile the addresses from the start to the end of the last aligned block, each in exactly one beat; a burst that reaches the end of the 128-bit type goes on at zero; aligned_addr is the start rounded down to the transfer size |
| AxiBurst.IncrBurstRange | mycpu/axi_pkg.sv:143-192 | below that end this is the plain range [addr, aligned_addr + bytes * (len + 1)) |
| AxiBurst.WrapLanes | mycpu/axi_pkg.sv:175-192 | below the top of the address space the lanes of every beat of a wrapping burst are one transfer from its address on, within the bus |
| AxiBurst.WrapBurstTiles | mycpu/axi_pkg.sv:143-192 | the bytes on those lanes tile the container, each in exactly one beat, for any bus width |
| AxiBurst.StartAddress | mycpu/axi_pkg.sv:143-173 | the first beat of any burst and every beat of a FIXED one have the start address |
| IssueQueue.Queue.Head | mycpu/IssueUnit_2.sv:121-137 | the two head entries are the two oldest waiting ones, and empty when there are none |
| IssueQueue.UpdateWindow | mycpu/IssueUnit_2.sv:105-119 | entering at the tail and clearing at the head never overwrites a live entry and leaves all other slots zero |
| IssueQueue.Queue.Tick | mycpu/IssueUnit_2.sv:69-119 | one clock edge of the ring is one step of the program-order queue; the issued instructions are its oldest |
| IssueQueue.EnteredAsOffered | mycpu/IssueUnit_2.sv:75-104 | in every run the entries are the instructions offered in cycles with two free places, first before second, in order, since the last flush |
| IssueQueue.ProgramOrder | mycpu/IssueUnit_2.sv:69-119 | and they leave in that order, none lost or doubled, at most eight waiting |
| IssueQueue.IssueDecision | mycpu/IssueUnit_2.sv:139-192 | exactly what is issued: nothing under a stall; the two oldest if both are awake and may pair; else the oldest if awake and no branch; else nothing |
| IssueQueue.PairingRules | mycpu/IssueUnit_2.sv:139-192 | without branches in delay slots an issued branch always leaves together with its successor, and no pair holds two memory accesses, two multiply/divide instructions or a privileged one outside a delay slot |
| MemLanes.RightStore | mycpu/MEM_REQ_MUX_2.sv:220-223 | a right store writes the bytes from its address to the end of the word and no others |
| MemLanes.LeftStore | mycpu/MEM_REQ_MUX_2.sv:216-219 | a left store writes the bytes from the start of the word to its address and no others |
| MemLanes.UnalignedStore | mycpu/MEM_REQ_MUX_2.sv:215-228 | the pair, in either order, writes exactly the four little-endian bytes from the address on |
| MemLanes.UnalignedLoad | mycpu/MEM_RECV_MUX.sv:21-33 | the load pair, in either order, reads those four bytes whatever the register held |
| MemLanes.UnalignedRoundTrip | mycpu/MEM_RECV_MUX.sv:21-33 | what the store pair wrote the load pair reads back |
| MemLanes.AlignedStore | mycpu/MEM_REQ_MUX_2.sv:201-233 | an aligned byte, half or word store writes its own low bytes and no others |
| MemLanes.AlignedRoundTrip | mycpu/MEM_RECV_MUX.sv:34-57 | aligned accesses of every size read back what was stored, sign- or zero-extended |
| MemLanes.ExtensionKeepsValue | mycpu/MEM_RECV_MUX.sv:34-53 | extension keeps the number: the register read as a signed (unsigned) word equals the narrow field read as signed (unsigned) |

## Left out

- The multiplexer with a single port (plain wires) and its read address channel (the same arbiter and
  spill register as the address channel here, without owner queue); the B and R output registers.
- The external-priority option of the arbiter: the selection tree is proved for every priority value,
  the register part only with the internal register. `ExtPrio` adds no state.
- Reset, other than as the initial state of each class; clock gating, test mode, X values, assertions.
- `usage_o` and depth 0 of the ring buffer, which its own assertion forbids; depths from 2^32 on.
- The count output of the zero counter when no bit is set: its documented value does not hold for
  every width and nothing uses it.
- The byte lanes of FIXED bursts, and wrapping bursts the standard forbids; the cache and response helpers of the package.
- Ecc.EccEncode: bits are booleans and sizes are unbounded; the 64-bit word type, the 32-bit shift and
  the floating-point power of the original are exact only up to 64 data bits. Printing is not modelled.
- FuHandshake.MulLeavesWithItsProduct: a flush or a reset takes the MUL out of the execution stage instead;
  the other way starts nothing meanwhile, as the pairing rules demand.
- The rest of the execution unit (ALU, branches, forwarding).
- Liveness of the issue queue: the wake-up logic is an arbitrary answer. Register reads and forwarding.
- The request registers, exceptions, LL/SC and cache operations of the memory request stage, and the
  selection between the two ways; only data, strobes and extraction are modelled.
- MemLanes words are four bytes, which is exact because every shift there is by whole bytes.
- Branch prediction, decoder tables, TLB, caches, and all peripherals.
