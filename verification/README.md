# Verified models of the Genesis recompiler runtime

A Dafny model of the runtime half of a static recompiler for the Sega Genesis, with proofs of
what its trickiest parts promise. `dafny verify dfyconfig.toml` checks everything.

| file | models |
|---|---|
| `Bits.dfy` | word types, shifts, masks, or and exclusive or on integers, with their laws |
| `Cpu.dfy` | register file, condition-code helpers and conditional tests of the 68000 interpreter floor |
| `Shifts.dfy` | the eight shift and rotate instructions: closed formulas against one-bit steps |
| `Arithmetic.dfy` | DIVU/DIVS, ADDX/SUBX and ABCD/SBCD/NBCD, one instruction and chains of any length |
| `Movem.dfy` | MOVEM register lists in wrapping big-endian memory |
| `Capsule.dfy` | the framed and RAM capsule runners, and the floor that keeps or rolls back a run |
| `Interrupts.dfy` | V-int and H-int latches, delivery, the exception frame, chunk entry and cycle budget |
| `RasterClock.dfy` | interrupt debt and the fractional main-program clock over whole histories |
| `HostStream.dfy` | the double-buffered stream and its worker thread, all interleavings |
| `PersistWriter.dfy` | the persistence writer and its worker thread, all interleavings |
| `Lockstep.dfy` | the co-simulation park/step protocol, all interleavings |
| `Fnv.dfy` | FNV-1a folding, the checkpoint chain and fault injection |
| `RbBlob.dfy` | rollback blobs: save, frame, load, replay surface, machine digest |
| `RewindRing.dfy` | the rewind ring with byte accounting and branch trimming |
| `ReplayKeys.dfy` | checkpoint rows of feedback recordings, written and played back |
| `AudioRing.dfy` | the audio bridge's ring: frame-by-frame push against block copy |
| `FramePacer.dfy` | the drift-free rational frame pacer |

How the pieces are stated. The interpreter's shifts are compared with repeating a one-bit step,
the reading of section 4 of the Motorola M68000 Family Programmer's Reference Manual. Threads are
state machines with a program counter each; a run is any sequence of steps of either thread, and
history fields that no step reads (bytes accepted, replies sent) let the theorems speak about the
past. What a call means is stated over the actions of a run, from the argument the call was given to
the result it returned, so that no step vouches for its own bookkeeping. State that the source updates in place is a class whose methods are tied to functions on
values, and the laws are proved about those functions.

Decoded instructions, hooks, cycle accounting, interrupt handlers, section save/load callbacks, I/O
outcomes and allocation results enter as parameters and are arbitrary unless a lemma says what it
needs of them.

Where the code and its comments part, the model follows the code:

- An immediate shift count of zero clears X in LSL, LSR, ASL and ASR (`Shifts.DoShift` gives the exact
  condition). No shift instruction encodes that count, and a register count of zero keeps X.
- A comment in `do_shift` says that the 32-bit ROXL and ROXR decline; the code computes them, and the
  closed form is right for them too (`Shifts.RotateThroughX`).
- `rb_state.h` says that section lengths are checked before anything changes. Only the framing is:
  `RbBlob.FailedLoadWitness` loads a ten-section blob that frames, fails, and has changed the machine.
  `RbBlob.FailedLoadChanges` is the exact condition: the machine is left as it was if and only if the
  sections before the first rejection are byte for byte what a save would write now.
- Handler cycles are debt paid plus debt owed if and only if no handler pushed the debt past 32 bits
  (`RasterClock.DebtConserved`), and debt is zero exactly when its level is, after every event, if and
  only if no handler brought it to exactly 2^32 (`RasterClock.LevelMeansDebt`).
  `RasterClock.DebtWraps` is a history where both fail.
- The capsules hand A7 back exactly when no RTR or RTE popped a status word on the way
  (`Capsule.CapsuleIsStackNeutral`); with RTS alone that always holds. `Capsule.RtrLosesTheStack` is a
  call answered by RTR that ends OK two bytes off.
- The recorder writes W and P rows, and I rows, without asking whether a tick is open; the player
  accepts them only outside one. An I row inside a tick comes from a step that was stopped before its
  result (runner/sim_step.c:80-87). `ReplayKeys.UntidyLogBreaks` has both logs, and
  `ReplayKeys.RowKeeps` shows that, short of the memory limit, a row written inside a tick is the only
  recorded row that can stop the player.

## Model

| member | source | states |
|---|---|---|
| `Cpu.RegisterFile.StoreDn` | runner/m68k_interp.c:110-113 | a byte or word write replaces the low part of the register and keeps the rest |
| `Cpu.StoredParts` | runner/m68k_interp.c:110-113 | the stored register has the value's low part and the old register's upper part |
| `Cpu.AddFlagsMeaning` | runner/m68k_interp.c:251-259 | for every size, C and X are unsigned overflow, V is signed overflow, N the sign and Z zero of the wrapped sum |
| `Cpu.SubFlagsMeaning` | runner/m68k_interp.c:260-278 | for every size, C and X are the unsigned borrow, V is signed overflow, and the compare form differs only in keeping X |
| `Cpu.CompareThenBranch` | runner/m68k_interp.c:269-302 | after a compare, HI, LS, CC, CS, NE, EQ, GE, LT, GT and LE are the unsigned and signed comparisons of the operands |
| `Cpu.OtherConditions` | runner/m68k_interp.c:280-302 | T, F, VC, VS, PL and MI after a compare, and each odd condition is the opposite of the even one |
| `Shifts.LeftClosed` | runner/m68k_interp.c:344-354 | LSL and ASL: one shift by k is k one-bit steps, and C and X are the last bit out, zero past the width |
| `Shifts.AslOverflow` | runner/m68k_interp.c:352-369 | ASL's V, "the sign changed at some step", is exactly "the top k+1 bits are mixed" |
| `Shifts.LsrClosed` | runner/m68k_interp.c:348-351 | LSR: one shift by k is k one-bit steps, with C and X |
| `Shifts.AsrClosed` | runner/m68k_interp.c:370-383 | ASR: k one-bit steps are one arithmetic shift of the signed value; past the width C is the sign |
| `Shifts.RotateRightIsLeft` | runner/m68k_interp.c:384-389 | rotating right by k is rotating left by the rest of the width |
| `Shifts.RotateClosed` | runner/m68k_interp.c:384-389 | ROL and ROR: k one-bit steps are one rotation by k modulo the width; X is untouched |
| `Shifts.RotateThroughX` | runner/m68k_interp.c:390-402 | ROXL and ROXR: k one-bit steps are one rotation by k modulo width plus one of the field with X above the operand |
| `Shifts.LeftShiftValue` | runner/m68k_interp.c:344-369 | the source's left-shift formulas give the result, C, X and V of repeated one-bit steps |
| `Shifts.RightShiftValue` | runner/m68k_interp.c:348-383 | the source's right-shift formulas give the result, C and X of repeated one-bit steps |
| `Shifts.RotateValue` | runner/m68k_interp.c:384-389 | the source's rotate formulas give the result and C of repeated one-bit steps |
| `Shifts.RotateXValue` | runner/m68k_interp.c:390-402 | the source's rotate-through-X formulas give the result, C and X of repeated one-bit steps |
| `Shifts.ShiftValue` | runner/m68k_interp.c:343-404 | every operation, size, operand, X and count: the closed formulas equal count one-bit steps |
| `Shifts.DoShift` | runner/m68k_interp.c:333-426 | the register and all five condition codes after the instruction, including X kept at register count zero |
| `Shifts.ShiftWordOnce` | runner/m68k_interp.c:921-938 | the memory form's own one-bit formulas are the word-size shift with count one |
| `Shifts.ShiftMemoryWord` | runner/m68k_interp.c:921-945 | the word written back and the condition codes are those of the word-size shift with count one |
| `Arithmetic.TruncatedDivisionUnique` | runner/m68k_interp.c:432-459 | quotient and remainder are determined by the division equation, the size bound and the sign rule |
| `Arithmetic.MagnitudesDivide` | runner/m68k_interp.c:432-459 | dividing magnitudes and putting the signs back is the one truncated division |
| `Arithmetic.HighWordOverflows` | runner/m68k_interp.c:432-459 | a divisor below the dividend's high word always means a quotient over 16 bits, so the early test never changes the outcome |
| `Arithmetic.DivideMagnitudes` | runner/m68k_interp.c:432-459 | the two overflow tests together decide exactly whether the signed quotient fits |
| `Arithmetic.Divide` | runner/m68k_interp.c:432-459 | the packed words are the truncated quotient and the remainder with the dividend's sign |
| `Arithmetic.DoDiv` | runner/m68k_interp.c:432-459 | Dn gets quotient and remainder exactly when the quotient fits 16 bits; otherwise Dn is unchanged with V set; a zero divisor changes only C |
| `Arithmetic.WideIntermediate` | runner/m68k_interp.c:463-489 | the 64-bit intermediate gives the digit and the carry or borrow of one position |
| `Arithmetic.AddxSubx` | runner/m68k_interp.c:463-489 | one limb of a sum or difference with carry in and out, sticky Z, and V as signed overflow |
| `Arithmetic.DoAddxSubx` | runner/m68k_interp.c:463-489 | the register form stores that limb and those condition codes |
| `Arithmetic.ExtendedChainUnsigned` | runner/m68k_interp.c:463-489 | a chain over any number of limbs computes the whole sum or difference, with C and X its carry and Z sticky zero |
| `Arithmetic.ExtendedChainSigned` | runner/m68k_interp.c:463-489 | N and V after the last limb are the sign and the signed overflow of the whole number |
| `Arithmetic.MultiWordArithmetic` | runner/m68k_interp.c:463-489 | started with X clear and Z set, the chain gives the exact sum or difference and Z exactly when it is zero |
| `Arithmetic.ExtendedString` | runner/m68k_interp.c:463-489 | running the instruction over limbs is such a chain |
| `Arithmetic.AddDigits` | runner/m68k_interp.c:493-543 | on valid digits the adjusted nibble sum is the two-digit decimal sum with carry |
| `Arithmetic.SubtractDigits` | runner/m68k_interp.c:493-543 | on valid digits the adjusted nibble difference is the two-digit decimal difference with borrow |
| `Arithmetic.DoBcd` | runner/m68k_interp.c:493-543 | one ABCD, SBCD or NBCD is one position in base one hundred; X follows C, Z is sticky, V is clear |
| `Arithmetic.BcdChainComputes` | runner/m68k_interp.c:493-543 | chains over any number of packed bytes compute the decimal sum or difference with C and X the final carry and sticky Z |
| `Arithmetic.BcdString` | runner/m68k_interp.c:493-543 | running ABCD or SBCD over packed strings is such a chain and yields the decimal sum or difference of the whole strings |
| `Movem.Core.StorePredecrement` | runner/m68k_interp.c:548-587 | listed registers lie below the old pointer in register order, the pointer ends at the lowest, nothing outside that block is written |
| `Movem.Core.LoadList` | runner/m68k_interp.c:600-613 | each listed register gets its place above the base, words sign-extended; postincrement wins over a loaded base register |
| `Movem.WordLoadsSigned` | runner/m68k_interp.c:606-609 | a word load keeps the signed value of the word |
| `Movem.BigEndian` | runner/m68k_interp.c:604-607 | longs and words are read most significant byte first |
| `Movem.RoundTrip` | runner/m68k_interp.c:548-613 | a load from where a store left the pointer reads back every listed register and the pointer |
| `Movem.Core.SaveThenRestore` | runner/m68k_interp.c:548-613 | saving a list and restoring it leaves every register and the pointer as they were, words sign-extended, for every list and wrap position |
| `Capsule.IterationLevel` | runner/m68k_interp.c:1385-1444 | one loop iteration raises A7 plus four per open call by exactly the status bytes it pops, and an OK exit leaves A7 at that level |
| `Capsule.ExitLevel` | runner/m68k_interp.c:1385-1444 | any run that ends OK leaves A7 at entry level plus all status bytes popped |
| `Capsule.CapsuleIsStackNeutral` | runner/m68k_interp.c:1532-1600 | an OK run from depth zero hands A7 back exactly when no status word was popped, in both capsules, RTE at any depth included |
| `Capsule.RtrLosesTheStack` | runner/m68k_interp.c:908-913 | a program in real memory whose call is answered by RTR: the run ends OK at entry A7 plus two |
| `Capsule.RtsPopsNoStatus` | runner/m68k_interp.c:1385-1444 | programs that return with RTS (and RTE only in the RAM capsule) pop no status word |
| `Capsule.EveryStepAtLevel` | runner/m68k_interp.c:1385-1444 | for such programs A7 is entry A7 minus four per open call at every step of every run |
| `Capsule.CallStep` | runner/m68k_interp.c:881-904 | JSR and BSR go to the target modulo 2^24, and the long at the new A7 is the fall-through address |
| `Capsule.RtsStep` | runner/m68k_interp.c:905-907 | RTS below the top level goes where the long at A7 says and closes one call |
| `Capsule.RtrReturns` | runner/m68k_interp.c:908-913 | RTR takes the CCR byte from the word at A7 and PC from the long above it |
| `Capsule.RteReturns` | runner/m68k_interp.c:914-918 | RTE in the framed capsule takes SR and PC and closes no call |
| `Capsule.ValidSrBits` | runner/m68k_interp.c:914-918 | the status register RTE loads has exactly the popped bits under 0xA71F |
| `Capsule.HookStep` | runner/m68k_interp.c:1395-1404 | a routine the hook handled is an RTS that retires no instruction |
| `Capsule.OtherStep` | runner/m68k_interp.c:1422-1443 | any other instruction: its effect, PC, accounting, and the guard |
| `Capsule.RefusedSteps` | runner/m68k_interp.c:1393-1410 | an address that cannot be fetched and an instruction that cannot be decoded stop the run |
| `Capsule.CallReturns` | runner/m68k_interp.c:1432-1438 | in any run, the RTS that closes a call comes back to its fall-through with A7 and depth as before, while the slot is unwritten |
| `Capsule.ExitReports` | runner/m68k_interp.c:1412-1420 | an OK exit reports the long at A7, above the CCR word for RTR, and none for the RAM capsule's RTE |
| `Capsule.RunReports` | runner/m68k_interp.c:1532-1600 | over whole runs with RTS returns, an OK exit reports the long at the exit A7 |
| `Capsule.IterationsBounded` | runner/m68k_interp.c:1385-1444 | whatever the program, iterations plus open calls are at most twice the instructions counted, so both loops end |
| `Capsule.Machine.StepCapsule` | runner/m68k_interp.c:1385-1444 | the loop body in place does what one step of the run function does |
| `Capsule.Machine.RunCapsule` | runner/m68k_interp.c:1532-1600 | the loop, which terminates on guard left then depth, ends with status, exit address, registers and pending flag of the run function |
| `Capsule.Floor.Attempt` | runner/glue.c:2223-2253 | a run is kept exactly when it ended OK at the expected, plausible return; otherwise every register is given back |
| `Capsule.Floor.HandleMiss` | runner/glue.c:2197-2255 | a miss is handled exactly when it is tried and its run ends OK at the address the native caller is about to pop, with A7 intact; a declined one gives back every register and is remembered while the list of 2048 has room; an untried one changes nothing |
| `Interrupts.Overlay` | runner/native_interrupt_frame.h:7-13 | bytes laid over work RAM from any address land in order, wrap at 64 KiB, and touch nothing else |
| `Interrupts.FrameRead` | runner/native_interrupt_frame.h:14-20 | the SR and PC that the six wrapped bytes spell |
| `Interrupts.FrameRoundTrip` | runner/native_interrupt_frame.h:7-20 | a frame the handler leaves alone gives back the pushed SR and PC at every stack position |
| `Interrupts.FrameSpelled` | runner/native_interrupt_frame.h:7-13 | the frame is the big-endian SR word and then the big-endian PC long |
| `Interrupts.IntactFrameResumes` | runner/glue.c:934-945 | an intact frame resumes exactly the interrupted program |
| `Interrupts.RewrittenFrameResumes` | runner/glue.c:934-945 | a handler that leaves SR and PC of its own in the frame resumes there, with every other register as interrupted |
| `Interrupts.LatchStepKeeps` | runner/glue.c:991-1105 | every raise and every latch service keeps: latch set exactly when a raise is unanswered, and each delivery answers one raise below mask six |
| `Interrupts.LatchMeansPending` | runner/glue.c:991-1105 | that invariant holds after every run of raises and services |
| `Interrupts.LatchByEvents` | runner/glue.c:991-1105 | over every list of events, from flags and masks alone: the latch is set exactly when some raise met no event that allows a delivery; each raise and each delivery leaves one mark |
| `Interrupts.Scheduler.SaveWindow` | runner/glue.c:1057-1062 | the saved bytes are the 256-byte stack window, wrapping |
| `Interrupts.Scheduler.DeliverAtomic` | runner/glue.c:1056-1086 | whatever the handler did, registers, split-stack counter and stack window come back; its other RAM writes stay; its cycles are owed |
| `Interrupts.WithMaskSets` | runner/glue.c:875-878 | entering a precise handler changes only the three mask bits of SR |
| `Interrupts.Scheduler.DeliverPrecise` | runner/glue.c:863-948 | in the precise scope the handler starts from a real frame, PC and SR come back from that frame and every other register from before; its cycles are owed and the budget counts on from after them |
| `Interrupts.Scheduler.DeliverVint` | runner/glue.c:863-948 | V-int delivery in either scope: registers, RAM, debt and meter |
| `Interrupts.Scheduler.RaiseVint` | runner/glue.c:1009-1052 | a V-int is delivered now or latched, exactly by scope, handler in progress and mask; a V-int that cannot be delivered is latched |
| `Interrupts.Scheduler.RaiseHint` | runner/glue.c:1053-1086 | an H-int is delivered now or latched, exactly by scope, handler in progress and mask |
| `Interrupts.Scheduler.OwnInterrupt` | runner/glue.c:991-1087 | the whole entry point: nothing unless the game runs; latches, delivery effects and what each level leaves alone |
| `Interrupts.Scheduler.ServiceVint` | runner/glue.c:1094-1105 | fires exactly when latched, running, between instructions and mask below six, and then delivers once and clears the latch |
| `Interrupts.Scheduler.ServiceHint` | runner/glue.c:1110-1117 | fires exactly when latched, eligible, enabled and mask below four; the V-int latch is untouched |
| `Interrupts.Scheduler.RunGameChunk` | runner/glue.c:698-749 | an unblocked chunk pays debt first and grants the rest as budget, cast to a signed word; a blocked one changes nothing |
| `Interrupts.Scheduler.CheckCycleBudget` | runner/glue.c:766-797 | inside a chunk and outside a handler the in-place settlement is the settlement step of the chunk history, with the budget's cast to a signed word, and reports whether the budget is spent; elsewhere it is inert |
| `Interrupts.NormalizedSettles` | runner/glue.c:770-782 | scaling first and then settling undivided is one settlement with the divisor |
| `Interrupts.Scheduler.ChargeStall` | runner/glue.c:804-809 | in 32-bit words, a freeze event of the chunk history inside a chunk and plain work elsewhere |
| `RasterClock.MainCpuClock.Elapsed` | runner/main_cpu_clock.h:8-16 | scaled time is stalls plus divided work with the remainder carried exactly, for any remainder found; with one below the divisor it is at most the elapsed time |
| `RasterClock.Instalments` | runner/main_cpu_clock.h:8-16 | dividing in instalments with the remainder carried is dividing once |
| `RasterClock.ChunkAccounted` | runner/glue.c:766-803 | after any events of a chunk, settled work has gone through one division and the rest lies between the two counters |
| `RasterClock.BudgetIgnoresSplitting` | runner/glue.c:766-809 | at a bus access the budget used is stalls plus one division of all the work, however earlier accesses split it |
| `RasterClock.ChargeConsistent` | runner/glue.c:900-902 | debt zero exactly when level zero survives one charge if and only if the 32-bit sum does not wrap to zero |
| `RasterClock.DebtFirst` | runner/glue.c:717-731 | a chunk grants budget only once the debt is gone |
| `RasterClock.LevelIsHighest` | runner/glue.c:1077-1079 | the level on record is the highest of the handlers still owed |
| `RasterClock.DebtWraps` | runner/glue.c:900-902 | a history of two handlers after which nothing is owed, 2^32 cycles are lost and the level stands |
| `RasterClock.RasterTimeConserved` | runner/glue.c:698-749 | over every history, cycles offered are debt paid plus budget granted, and handler cycles are paid plus owed plus 2^32 per wrap-around |
| `RasterClock.DebtConserved` | runner/glue.c:1077-1079 | over every history, handler cycles are exactly paid plus owed if and only if no handler pushed the debt past 32 bits |
| `RasterClock.LevelMeansDebt` | runner/glue.c:1077-1079 | over every history, debt is zero exactly when its level is after every event, if and only if no handler brought the debt to exactly 2^32 |
| `HostStream.StepKeeps` | runner/host_stream.c:22-53 | every step of producer or worker keeps ownership, conservation, fault reporting and job counting |
| `HostStream.AlwaysInv` | runner/engine_worker.c:14-51 | the invariant holds in every state of every interleaving, with or without a worker thread |
| `HostStream.StreamConservesBytes` | runner/host_stream.c:77-89 | file, then in-flight job, then active buffer are all bytes written so far, in order, unless a write fell short; the file is always a prefix |
| `HostStream.WorkerIsExclusive` | runner/host_stream.c:40-53 | the worker never reads the buffer being filled, its job fields are not written while it runs, each published job runs once |
| `HostStream.FlushedMeansInFile` | runner/host_stream.c:127-156 | a flush or destroy that reports success has put every byte of every write in the file |
| `HostStream.NoFaultNoFailure` | runner/host_stream.c:127-156 | without an I/O failure no call reports failure |
| `HostStream.RequestedIsHanded` | runner/host_stream.c:77-89 | the byte string of these laws is exactly the data of the write calls that found the stream healthy |
| `HostStream.WriteAnswered` | runner/host_stream.c:77-89 | every write call, from argument to result: success exactly when the stream has not failed, and then exactly its bytes were taken |
| `HostStream.FlushAnswered` | runner/host_stream.c:131-156 | every flush and destroy, from start to result: success exactly when no file operation of the run failed, and then the file holds all the data written |
| `HostStream.AsyncFlushAnswered` | runner/host_stream.c:127-130 | an asynchronous flush that succeeds leaves nothing in the active buffer and a flushing job in flight |
| `HostStream.NeverDeadlocks` | runner/engine_worker.c:37-77 | while a call is in progress some thread can always take a step that serves it |
| `PersistWriter.AlwaysInv` | runner/persist_writer.c:40-87 | ownership, disk, history and flush invariants hold in every interleaving |
| `PersistWriter.DiskIsCommittedOrPending` | runner/persist_writer.c:40-70 | the disk is committed when idle and committed or pending otherwise; completions come once each in submission order |
| `PersistWriter.FlushReachesDisk` | runner/persist_writer.c:80-87 | a flush that returns 1 has put its argument on disk |
| `PersistWriter.FailureIsFinal` | runner/persist_writer.c:40-53 | failure is sticky, and after it neither the disk nor the accepted jobs change |
| `PersistWriter.SubmitAnswered` | runner/persist_writer.c:58-74 | every submit, from argument to result: 1 means handed over, or (unless forced) committed already; 0 means an earlier one is in flight and nothing was taken; -1 means failed |
| `PersistWriter.DecideMeans` | runner/persist_writer.c:61-68 | a job is started exactly when none is in flight and the snapshot is forced or new |
| `PersistWriter.FlushAnswered` | runner/persist_writer.c:80-87 | every flush, from argument to result: 1 exactly when the writer has not failed, and then the argument is on disk |
| `PersistWriter.PollAndWaitAnswer` | runner/persist_writer.c:40-53 | poll and wait answer 1 exactly while the writer has not failed; after a wait nothing is in flight |
| `PersistWriter.NoFaultNoFailure` | runner/persist_writer.c:40-53 | without a failed write the writer never fails |
| `PersistWriter.NeverDeadlocks` | runner/engine_worker.c:37-51 | some step that serves the producer is always enabled |
| `Lockstep.StepKeeps` | runner/cosim.c:110-139 | every step of guest or server keeps the protocol invariant |
| `Lockstep.AlwaysInv` | runner/cosim.c:110-139 | the invariant holds in every interleaving |
| `Lockstep.RepliesAreExact` | runner/cosim.c:198-214 | `step n` from checkpoint k replies k+n with the chain over exactly the first k+n checkpoints; `chain` pairs a checkpoint with its own chain |
| `Lockstep.StepAnswered` | runner/cosim.c:198-208 | every `step n`, from the number it carried and the checkpoint at which the guest stood: the next reply is n further on (at least one), with the chain over exactly the checkpoints taken |
| `Lockstep.ChainAnswered` | runner/cosim.c:209-214 | every `chain` is answered with the checkpoint at which the guest stood and its chain |
| `Lockstep.HistoryIsTaken` | runner/cosim.c:110-131 | the history the chain is folded over is what the guest's checkpoints hashed, all of it, in order |
| `Lockstep.ParkedGuestStands` | runner/cosim.c:133-138 | the guest never passes the target, and parked between commands it changes nothing |
| `Lockstep.WindowIsExact` | runner/cosim.c:228-242 | while the guest is parked the ring rows of the last RING_N checkpoints are the ones those checkpoints recorded |
| `Lockstep.CommandsComplete` | runner/cosim.c:198-214 | every command completes: fewer steps of both threads than its rank pass before the reply, however they are scheduled, and one that serves it is always enabled |
| `Lockstep.RankFalls` | runner/cosim.c:110-139 | every step of either thread strictly lowers the rank of a command in progress |
| `Lockstep.StepRank` | runner/cosim.c:198-208 | the rank of `step n` at its start is at most 8n + 13 |
| `Lockstep.SplitGuestsStaySplit` | runner/cosim.c:122-122 | replies of two guests at the same checkpoint, after equal state hashes since checkpoint k, carry equal chains exactly when the chains agreed at k |
| `Lockstep.DivergenceShows` | runner/cosim.c:120-124 | guests whose state hashes part in one byte at one checkpoint reply with different chains at every later one |
| `Fnv.MixUndone` | runner/cosim.h:30-39 | multiplying by the FNV prime modulo 2^64 can be undone |
| `Fnv.SeedInjective` | runner/cosim.h:35-39 | folding fixed data is injective in the seed |
| `Fnv.OneByteShows` | runner/cosim.h:35-39 | strings that differ in one byte fold differently from every seed |
| `Fnv.Fold64Injective` | runner/cosim.h:40-48 | so is the scalar fold used for the chain |
| `Fnv.SplitChainsStaySplit` | runner/cosim.c:122-122 | chains over equal later checkpoints meet exactly when they were equal |
| `Fnv.ChainsMeetOnlyIfEqual` | runner/cosim.c:122-122 | chains over two histories that agree from checkpoint k on end equal exactly when they were equal at k |
| `Fnv.ChainShowsState` | runner/cosim.c:120-124 | histories that part in one byte of one state hash have different chains at every later length |
| `Fnv.LinkShows` | runner/cosim.c:122-122 | a link depends on the state hash and on the ordinal |
| `Fnv.Fold64Shows` | runner/cosim.h:40-48 | words that differ in one of their eight bytes fold differently |
| `Fnv.XorThenMultiply` | runner/cosim.h:35-39 | one byte is folded by exclusive or and then the prime |
| `Fnv.FnvBytes` | runner/cosim.h:35-39 | the loop computes the recursive fold |
| `Fnv.Injector.InjectRam` | runner/cosim_state.c:36-39 | the pending fault is the masked address and the pattern |
| `Fnv.Injector.ApplyRam` | runner/cosim_state.c:43-47 | a pending fault changes exactly its byte, and the RAM sub-hash changes exactly when the pattern is nonzero |
| `Fnv.Injector.ApplyReg` | runner/cosim_state.c:48-53 | the register half: indices 0-7 and 8-15 flip D and A, others nothing, and the request is consumed |
| `RbBlob.ParseOfEncode` | runner/rb_state.c:234-251 | parsing a printed blob gives back its token and payloads if and only if the lengths fit four bytes and the token eight |
| `RbBlob.EncodeOfParse` | runner/rb_state.c:234-251 | only printed blobs parse, so accepted blobs are tiled to the last byte |
| `RbBlob.LeDigit` | runner/rb_state.c:234-251 | byte i of a length, count or token is the digit of weight 256^i |
| `RbBlob.RbFrame` | runner/rb_state.c:234-251 | accepts exactly the printed blobs; offsets and lengths cut out the payloads and tile the blob |
| `RbBlob.BoundSuffices` | runner/rb_state.c:192-198 | a buffer of the stated bound is always enough: only a failing section stops a save |
| `RbBlob.SaveUntracked` | runner/rb_state.c:200-221 | succeeds exactly when every section fits and saves, and then the buffer holds the printed blob and is unchanged past it |
| `RbBlob.Save` | runner/rb_state.c:223-231 | the same blob with the token in the header; the buffer past it is unchanged |
| `RbBlob.Live.Load` | runner/rb_state.c:264-292 | a blob that does not frame changes nothing; otherwise sections load in order up to the first rejection, and the token is reported on success alone |
| `RbBlob.LoaderCalled` | runner/rb_state.c:276-284 | only a section empty on both sides is passed over |
| `RbBlob.FailedLoadChanges` | runner/rb_state.c:264-292 | with the accepted sections saved by this process, a load leaves the machine as it was if and only if those sections are byte for byte what a save would write now |
| `RbBlob.FailedLoadExample` | runner/rb_state.h:77-81 | a ten-section blob that parses, whose first section loads and whose second is rejected for its length |
| `RbBlob.FailedLoadWitness` | runner/rb_state.c:264-292 | the live load of that blob fails with the first section changed |
| `RbBlob.Live.Restore` | runner/rb_state.c:264-292 | loading a saved blob over any contents brings back every section |
| `RbBlob.ReplayParts` | runner/rb_state.c:294-306 | four slices, in order and apart, after the exec section and up to the end, holding the replay surface |
| `RbBlob.SurfaceSeparates` | runner/rb_state.c:294-306 | the surface is equal exactly when every section but exec is |
| `RbBlob.DigestMachine` | runner/rb_state.c:134-154 | the folds in source order are one fold per partition over the partition's bytes |
| `RbBlob.PartitionsCover` | runner/rb_state.c:134-154 | the three partitions hold each image byte exactly once |
| `RbBlob.DigestNamesTheChip` | runner/rb_state.c:134-154 | a one-byte difference shows in the digest of the partition that owns the byte and in no other |
| `RewindRing.EveryRunGood` | runner/local_states.c:211-290 | in every run of captures, evictions, rewinds and clears: consecutive ticks ending at the current one, empty vacant slots, byte count the sum over live entries, ring keys exactly the live ticks |
| `RewindRing.Rewind.Capture` | runner/local_states.c:211-232 | the new record becomes the newest, a full ring loses its oldest, and then the fewest oldest go that meet the budget, or all but the new one; the invariant holds |
| `RewindRing.CapturedGood` | runner/local_states.c:211-232 | the same as a law of the value-level capture |
| `RewindRing.TrimmedLeast` | runner/local_states.c:227-230 | the budget loop leaves a suffix within budget or a single record, and dropping one fewer would be over budget |
| `RewindRing.Rewind.SnapAt` | runner/local_states.c:114-118 | the slot arithmetic finds the record that many places before the newest |
| `RewindRing.Rewind.Accept` | runner/local_states.c:268-290 | accepting entry k keeps exactly entry k and the older ones, with the tick back at k's; a refused accept changes nothing |
| `RewindRing.RewoundGood` | runner/local_states.c:282-287 | the same as a law of the value-level rewind, with the invariant |
| `RewindRing.Rewind.Clear` | runner/local_states.c:67-73 | no entries, no bytes, tick zero |
| `RewindRing.Rewind.Release` | runner/local_states.c:50-55 | a release frees exactly the slot's bytes |
| `ReplayKeys.Recorder.Line` | runner/diagnostic_replay.c:75-90 | a row is appended exactly when recording, within the text limit and taken by the writer; otherwise recording ends |
| `ReplayKeys.DigitsCount` | runner/diagnostic_replay.c:447-448 | a K or R row is charged the decimal digits of its number |
| `ReplayKeys.Recorder.SnapshotSaved` | runner/diagnostic_replay.c:436-451 | a live recording numbers checkpoints 1, 2, 3, ...; the exact conditions under which it goes on |
| `ReplayKeys.Recorder.SnapshotLoaded` | runner/diagnostic_replay.c:452-462 | only a checkpoint already recorded, outside a tick, is written as restored |
| `ReplayKeys.Recorder.Note` | runner/diagnostic_replay.c:483-489 | the W and P rows are appended whether or not a tick is open, and recording goes on exactly when there is room and the writer takes them |
| `ReplayKeys.Recorder.Begin` | runner/diagnostic_replay.c:640-657 | the input row opens a tick, and recording goes on exactly when there is room and the writer takes it |
| `ReplayKeys.Recorder.End` | runner/diagnostic_replay.c:659-719 | the result row closes the open tick, and recording goes on exactly when there is room and the writer takes it |
| `ReplayKeys.RecordedScannable` | runner/diagnostic_replay.c:267-291 | every recorded log passes the first pass; the text limit keeps use counts far below 32 bits |
| `ReplayKeys.KeysLimited` | runner/diagnostic_replay.c:273-277 | a log that passes has at most a million checkpoints |
| `ReplayKeys.Player.ScanKeys` | runner/diagnostic_replay.c:267-291 | accepts exactly the logs with consecutive K numbers, R numbers in range and counts within 32 bits, and counts each checkpoint's uses |
| `ReplayKeys.RowKeeps` | runner/diagnostic_replay.c:491-553 | one row at any position: uses are the restores to come, a checkpoint is held exactly from its K to its last R, cache bytes are the held sizes within MAX_CACHE; only a row inside a tick can break playback |
| `ReplayKeys.MemoryLimitExactly` | runner/diagnostic_replay.c:514-517 | the limit stops a row exactly when it is the K row of a checkpoint to be restored and held bytes, bound and presentation exceed 256 MiB |
| `ReplayKeys.CheckpointHolds` | runner/diagnostic_replay.c:518-531 | a K row that will be restored keeps what the machine saved and charges exactly that |
| `ReplayKeys.UntidyLogBreaks` | runner/diagnostic_replay.c:483-489 | two logs the recorder can write, one with a save request and one with a second input row inside a tick, that pass the scan and break playback |
| `ReplayKeys.PlaybackAccepts` | runner/diagnostic_replay.c:491-553 | a recorded log plays to its end exactly up to memory and rows inside ticks, and then nothing is held |
| `ReplayKeys.Player.PlayCheckpoint` | runner/diagnostic_replay.c:500-532 | the K branch in place is the value-level row |
| `ReplayKeys.Player.PlayRestore` | runner/diagnostic_replay.c:533-553 | the R branch in place is the value-level row |
| `ReplayKeys.Player.Playback` | runner/diagnostic_replay.c:491-553 | a whole playback of a recorded log ends with an empty cache, for memory, or at a row inside a tick |
| `AudioRing.UnreadFramesSurvive` | runner/recomp_audio_drc.h:273-291 | after any pushes the ring holds the newest frames, fill stays below capacity, and no frame at or past the read cursor is overwritten |
| `AudioRing.DropsAccounted` | runner/recomp_audio_drc.h:273-291 | the cursor moves exactly by the frames dropped |
| `AudioRing.PushAllLays` | runner/recomp_audio_drc.h:293-317 | when the last frame's check passes, pushing frame by frame lays the block down round the ring and moves nothing but the count |
| `AudioRing.LastCheckIsExact` | runner/recomp_audio_drc.h:293-305 | no frame is dropped if and only if the last frame's check passes |
| `AudioRing.FitsExactly` | runner/recomp_audio_drc.h:293-305 | the block test takes exactly the blocks of at most a ring, with counts a double holds exactly, that would drop no frame one by one |
| `AudioRing.UnitRange` | runner/recomp_audio_drc.h:286-287 | full scale of a 16-bit sample is one |
| `AudioRing.Bridge.Push` | runner/recomp_audio_drc.h:273-291 | the loops over interleaved samples push frame by frame |
| `AudioRing.Bridge.WriteSlot` | runner/recomp_audio_drc.h:284-287 | sample by sample at slot*channels+channel, exactly one frame of the ring is replaced |
| `AudioRing.TwoPiecesLay` | runner/recomp_audio_drc.h:306-313 | two copies of interleaved samples lay the block's frames down round the ring |
| `AudioRing.Bridge.TryPushPrepared` | runner/recomp_audio_drc.h:293-317 | refuses, changing nothing, exactly when its test fails; otherwise ring, counters and cursor are those of the frame-by-frame push |
| `AudioRing.Bridge.CopyBlock` | runner/recomp_audio_drc.h:306-313 | the two copies lay the block down round the ring at every wrap position |
| `AudioRing.Bridge.Publish` | runner/audio.c:374-395 | whichever way it goes, publishing is the frame-by-frame push of the 16-bit samples |
| `FramePacer.SplitProduct` | runner/frame_pacer.h:36-41 | the split computation is floor and remainder of the full product |
| `FramePacer.PeriodOf` | runner/frame_pacer.h:31-47 | the overflow tests pass exactly when floor(frequency*ticks/clock) fits 64 bits |
| `FramePacer.Pacer.InitRatio` | runner/frame_pacer.h:31-47 | succeeds exactly when that floor is nonzero and fits 64 bits |
| `FramePacer.Pacer.Deadline` | runner/frame_pacer.h:57-82 | the n-th deadline after a restart is start plus floor(n*frequency*ticks/clock), positions grow by at least a period, none is more than a period behind now |

## Left out

- The instruction decoder, ROM parser, bus, VDP, Z80, YM2612 and PSG: their sources are not part of this model.
- NEGX, which shares NEG's flag helper, and the remaining straight-line instructions.
- m68k_interp_run_handler: it does not stop at a depth-0 RTS, so the capsule laws are not its contract.
- Effective-address side of ADDX, SUBX and BCD (predecrement operands) and MOVEM's addressing modes and its store without predecrement.
- Memory effects of a declined floor run: only CPU state is rolled back.
- Capsule.Floor.HandleMiss: coverage records the missed entry, not the call subtree discovered while running it.
- Interleaved interrupt delivery, reverse-debug break yields and the co-simulation `reset` command.
- Interrupts.Scheduler.CheckCycleBudget: signed overflow of the running budget, which C leaves undefined, is plain subtraction.
- Stamp rebase, in_vblank and pending-RTE pointer saves around a delivery, and the wait-satisfied flag.
- The body of the game fiber inside a chunk: its effect on the budget is the event history of `RasterClock`.
- The scheduler section's field-by-field copy: it is one abstract save/load pair.
- XXH64, the other build of the section digest: the digest lemmas are about the FNV build.
- The exec section's own digest, the fold of partitions into a master digest, and the skip-one-section control of the probe.
- The snapshot ring library: a map from tick to blob size; thumbnails, slots and the cadence counter of the rewind menu.
- RewindRing.Rewind.Capture: ticks do not wrap at 32 bits, because a capture per frame does not reach 2^32.
- Lockstep.RepliesAreExact: checkpoint counts do not wrap at 64 bits; the ordinal folded into the chain does.
- Replay attachments (L rows and snapshots), the state comparison of H rows, the end row, and row syntax: rows arrive parsed, and a machine that fails its own calls is a parameter.
- AudioRing.Bridge.Push: counts do not wrap at 64 bits, and samples and cursor are reals.
- Filter, concealment, fill controller and presentation clock of the audio and video paths, and the floating-point mode of the pacer: signal quality.
- Buffers of the stream and of the persistence writer are modelled by their contents, not their addresses; the worker's try_start and completed entry points.
- Allocation failures, sockets, SDL, files, launcher, overlays and probes.
