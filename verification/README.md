# A verified model of the RISC-V proof virtual machine

This project models the core of a RISC-V virtual machine in Dafny and proves that its fast
paths cannot be told from one simple machine that fetches, decodes and executes a single
instruction at a time.

* **Compiled blocks.** Instruction bodies are written once over an instruction context. In
  the model a body is a term (`Icb`, `Instructions`), which is interpreted directly
  (`Execution`; `Meaning` says in closed form what each opcode does, `Effects` what it
  leaves alone and what it does byte by byte) and lowered to control-flow graph code (`Ir`)
  by an imperative builder (`Builder`). Every builder method states, for every graph that
  the function may still grow into and every machine state, what running the code it emitted
  does (`Lowering`, `OpLowering`, `BodyLowering`, `BlockLowering`). `Jit.Produce` compiles a
  whole block and `Jit.Jit.Compile` keeps the results. `Shape` proves that the graphs have
  no cycles and return through a single block.
* **Stepping with the block cache.** `BlockCache` models the cache with its joining of blocks,
  fence counter and paused block; `Stepper` models the stepping loops, with whole blocks run
  compiled or interpreted. Everything is proved equal to a number of ticks (`Ticking`,
  `Handling`), and ticks equal to steps of the plain machine (`Isa`, `Coherence`,
  `Transparency`, `Jumps`, `Soundness`), with and without a handler for exceptions.
  `Straddling` characterises when the cache could be seen. `Fences` and `Pages` prove what
  `fence.i` promises and that blocks stay on one page.
* **Program image and loader.** `Chunks`, `ProgramImage`, `Loader` and `Decoding`.
* **Arithmetic and reservations.** `Arithmetic` and `Reservations`.
* **Smaller state machines.** `Storage` (content-addressed repository), `Requests` (inputs and
  reveals), `Transfers` (the token transfer benchmark).

Words are unbounded integers reduced explicitly (`Words`); arithmetic wraps as in a release
build. `dafny verify dfyconfig.toml` checks the whole project.

## What was found

* A write strictly inside a chunk of the program image loses the rest of the chunk: the
  predecessor is cut off at the start of the write and what followed the end of the write is
  never put back (`src/riscv/lib/src/program.rs:43-51`). `ProgramImage.InteriorLoses` is a
  three-byte example, `Loader.RelocationLoses` shows that every relocation strictly inside a
  chunk of any image triggers it, and `ProgramImage.ExactIff` proves that the image is flat
  memory after every write exactly when no write is interior, which a caller can check before
  writing.
* The block cache can be seen from an odd program counter. A half-word at an odd address can
  straddle a page that may be written to and one that may not; it is then taken to be
  unwritable and kept, and a store can still change it. `Straddling.BoundaryShows` runs a
  program that does this, a `c.sw` and a `c.j`, and the core after three ticks is not the
  core after three plain steps. Besides widths and even offsets, it assumes of the decoder
  only how it decodes four half-words, which the source decodes so
  (`src/riscv/lib/src/parser.rs:1208-1352`). What is fetched is out of reach of all stores
  exactly when neither of its two bytes can be written to (`Memory.FetchFixedIff`). For such
  a decoder and a given layout of permissions, no program, at any start, sees the cache if
  and only if adjacent executable pages can both be written to or neither
  (`Straddling.NeverSeenIff`). The source assumes two-byte alignment in a comment
  (`src/riscv/lib/src/machine_state.rs:334`); `Soundness.RunsAsPlain` covers every start at
  an even program counter in any layout, since every instruction is proved to keep to even
  addresses, and every start in such a layout.
* After lowering a branch and merge the builder goes on with the symbolic program counter of
  the false arm (`src/riscv/lib/src/jit/builder.rs:419-436`). Correctness is proved under the
  condition that the false arm does not read the program counter (`Icb.Scoped`), and
  `Instructions.RoutineOf` proves this condition of every instruction body.
* A hart that is created but not reset starts with a reservation of the first doubleword,
  because its cell starts at zero and not at the unset value
  (`src/riscv/lib/src/machine_state/reservation_set.rs:108-117`, `Reservations.UnresetHolds`).
  `Reservations.LawIff` gives the exact condition: a reservation is held if and only if a
  load-reserved was the latest event, in all runs from a given cell, exactly when the cell is
  not a multiple of eight at the start; aligned store-conditionals alone already show the
  failure. A reset hart is one case in which the law holds.
* The message "must be greater than zero" of the benchmark generator is never given: one is
  added to the number of accounts, so it is never zero
  (`src/riscv/jstz/bench/src/generate.rs:77-81`, `AccountsFor` in `Transfers`). The comment
  there allows the square of the number of accounts as transfers; the schedule has
  `n * (n - 1)`, which is enough (`Transfers.EnoughAccounts`).

## Model

| member | source | states |
|---|---|---|
| `Instructions.RoutineOf` | src/riscv/lib/src/machine_state/instruction.rs:426-725 | every opcode has a well-scoped body: both arms of a merge yield the same values, no false arm reads the program counter, only divisions divide, and only load-reserved and store-conditional touch the reservation |
| `Meaning.InstrMeans` | src/riscv/lib/src/machine_state/instruction.rs:426-725 | for every opcode and every machine state, running the body gives the result written in closed form: the ISA's value in `rd`, the branch condition, the access, exchange or fault, and the program counter update |
| `Machine.ReadAfterWrite` | src/riscv/lib/src/machine_state/registers.rs:221-245 | a write changes the register written and no other; `x0` reads as zero and drops writes |
| `Effects.RegistersKept` | src/riscv/lib/src/machine_state/instruction.rs:426-725 | no instruction changes a register other than its `rd`, in any machine state |
| `Effects.MemoryKept` | src/riscv/lib/src/machine_state/instruction.rs:426-725 | no instruction changes a byte outside of the range it accesses, nor any permission |
| `Effects.LoadMeans` | src/riscv/lib/src/interpreter/load_store.rs:67-80 | a load faults with nothing changed unless every byte is in memory and readable; else `rd` gets the number with these bytes that is in the signed or unsigned range of the width |
| `Effects.StoreMeans` | src/riscv/lib/src/interpreter/load_store.rs:44-60 | a store faults with nothing changed unless every byte is in memory and writable; else exactly these bytes become the low bytes of the register, in little-endian order |
| `Effects.StoreThenLoad` | src/riscv/lib/src/interpreter/load_store.rs:44-80 | a load gives back the register that a store of the same width to the same address stored, whenever it fits the width, signed or unsigned |
| `Effects.LogicMeans` | src/riscv/lib/src/instruction_context/arithmetic.rs:62-100 | each bit of the result of an and, or or xor instruction is that of the bits of the operands |
| `Effects.ShiftRightMeans` | src/riscv/lib/src/instruction_context/arithmetic.rs:102-108 | a right shift divides by two to the amount modulo 64, rounding down, on the signed or the unsigned reading |
| `Execution.BodyKeeps` | src/riscv/lib/src/instruction_context.rs:233-444 | no body moves the program counter, and bodies change memory only on writable pages, whatever they raise |
| `Execution.ReservationStays` | src/riscv/lib/src/interpreter/atomics.rs:397-431 | bodies other than load-reserved and store-conditional leave the reservation alone |
| `Execution.OnlyDivisionPanics` | src/riscv/lib/src/instruction_context/arithmetic.rs:62-179 | no value operation other than a division can panic |
| `Execution.LegalDivision` | src/riscv/lib/src/interpreter/integer.rs:385-518 | the partial machine division is defined on every operand pair that gets past the zero and overflow tests, and gives the ISA's value there |
| `Execution.DivideRuns` | src/riscv/lib/src/interpreter/integer.rs:385-518 | the nested branch-and-merge of a division goes on with the ISA's quotient or remainder for all operands, including zero divisor and overflow |
| `Execution.DivisionRuns` | src/riscv/lib/src/interpreter/integer.rs:385-750 | all eight division and remainder instructions complete and write that value, sign-extended for the word forms |
| `Execution.NeverCrashes` | src/riscv/lib/src/interpreter/integer.rs:385-750 | no instruction panics in any machine state |
| `Execution.RunKeeps` | src/riscv/lib/src/machine_state/block_cache.rs:201-213 | running any instruction leaves the program counter to the caller and unwritable memory unchanged |
| `Memory.LoadAfterStore` | src/riscv/lib/src/machine_state/memory/state.rs:92-173 | a load gives back the value stored at the same address, truncated to the width of the access |
| `Memory.ReadMeans` | src/riscv/lib/src/machine_state/memory/state.rs:92-108 | a read succeeds exactly when every byte is in memory and readable, and its bytes are those of memory in little-endian order |
| `Memory.WriteMeans` | src/riscv/lib/src/machine_state/memory/state.rs:157-173 | a write succeeds exactly when every byte is in memory and writable, and changes these bytes and no others |
| `Memory.ReadExecMeans` | src/riscv/lib/src/machine_state/memory/state.rs:110-133 | a half-word is fetched exactly when both bytes are executable, and counts as writable exactly when both are writable |
| `Memory.ExtendMeans` | src/riscv/lib/src/instruction_context/value.rs:36-70 | extension keeps the low bytes, and the signed or unsigned reading is in the range of the width |
| `Memory.WriteKeepsCode` | src/riscv/lib/src/machine_state/memory/state.rs:157-173 | a store changes nothing outside writable pages |
| `Memory.FetchStable` | src/riscv/lib/src/machine_state/memory/state.rs:110-133 | a half-word fetched as unwritable is the same after any stores, if its address is even or adjacent executable pages are writable together |
| `Memory.FetchFixedIff` | src/riscv/lib/src/machine_state/memory/protection.rs:92-107 | what can be fetched at an address is the same after all stores if and only if neither of its bytes can be written to |
| `Words.AndNot7` | src/riscv/lib/src/machine_state/reservation_set.rs:32-46 | masking with `!0b111` rounds down to a multiple of eight |
| `Words.AndNot1` | src/riscv/lib/src/interpreter/branching.rs:30-51 | masking with `!1` rounds down to an even address |
| `Words.BitwiseBit` | src/riscv/lib/src/instruction_context/arithmetic.rs:62-100 | bitwise operations combine the bits at each position |
| `Words.ShiftedRight` | src/riscv/lib/src/instruction_context/arithmetic.rs:102-108 | a logical right shift of either width divides the unsigned reading, rounding down |
| `Words.ShiftedArithmetically` | src/riscv/lib/src/instruction_context/arithmetic.rs:160-166 | an arithmetic right shift of either width divides the signed reading, rounding down |
| `Words.ShiftedLeft` | src/riscv/lib/src/instruction_context/arithmetic.rs:102-108 | a left shift doubles as often as the amount modulo the width says, modulo the width |
| `Words.SignedMeans` | src/riscv/lib/src/instruction_context/arithmetic.rs:62-179 | the signed reading is the number in range with the same low bits |
| `Lowering.EndBlockRuns` | src/riscv/lib/src/jit/builder.rs:118-135 | the end block commits the program counter it is passed and returns the steps it is passed |
| `Lowering.ExitComposes` | src/riscv/lib/src/jit/builder.rs:178-194 | code that jumps to the end returns with the symbolic steps and program counter, in every graph grown later |
| `Lowering.BranchComposes` | src/riscv/lib/src/jit/builder.rs:228-250 | an exit on a branch completes the step where the condition holds, and otherwise goes on with the symbolic state as it was before |
| `Lowering.HandleComposes` | src/riscv/lib/src/jit/builder.rs:197-216 | an exception is handed over and the block left, with the step counted exactly when it was handled |
| `OpLowering.AluAgrees` | src/riscv/lib/src/jit/builder/arithmetic.rs:15-147 | each emitted integer instruction computes, or traps, exactly as the interpreter's operation does or panics |
| `OpLowering.CompareAgrees` | src/riscv/lib/src/jit/builder.rs:539-552 | each emitted comparison decides the interpreter's predicate |
| `OpLowering.MulHighAgrees` | src/riscv/lib/src/jit/builder.rs:279-303 | the 128-bit extension, product and split give the interpreter's high product for each signedness |
| `OpLowering.SimpleCorrect` | src/riscv/lib/src/jit/builder.rs:261-354 | a value operation lowered to one instruction simulates the interpreter from every frame |
| `OpLowering.ErrnoComposes` | src/riscv/lib/src/jit/builder/errno.rs:80-105 | a failed call leaves through exception handling, a successful one goes on with the snapshot |
| `OpLowering.FaultReset` | src/riscv/lib/src/jit/builder/errno.rs:135-165 | the alignment fault of a store-conditional drops the reservation before it leaves |
| `OpLowering.GuardOpCorrect` | src/riscv/lib/src/jit/builder.rs:439-457 | the emitted alignment guard faults exactly when the interpreter's does, with the same state |
| `OpLowering.LoadOpCorrect` | src/riscv/lib/src/jit/builder.rs:515-526 | an emitted load yields the extended value or leaves with the access fault, as the interpreter does |
| `OpLowering.StoreOpCorrect` | src/riscv/lib/src/jit/builder.rs:498-513 | an emitted store changes memory as the interpreter does, or leaves with the access fault |
| `BodyLowering.LetCorrect` | src/riscv/lib/src/jit/builder.rs:261-354 | lowering an operation and then the rest simulates the body |
| `BodyLowering.MergeCorrect` | src/riscv/lib/src/jit/builder.rs:376-437 | lowering both arms from the same symbolic state and joining them in a block with parameters simulates branch-and-merge, including arms that raise |
| `Builder.Builder.constructor` | src/riscv/lib/src/jit/builder.rs:90-111 | a fresh function: one entry block that receives the program counter |
| `Builder.Builder.ReadPc` | src/riscv/lib/src/jit/builder/block_state.rs:79-92 | the value returned is the effective program counter, and the symbolic one stays equal to it |
| `Builder.Builder.CompleteStep` | src/riscv/lib/src/jit/builder/block_state.rs:99-113 | one step more, and an offset accrued or an address set; tells whether lowering goes on |
| `Builder.Builder.FinaliseEndBlock` | src/riscv/lib/src/jit/builder.rs:118-135 | the end block is constructed once and is the only block that returns |
| `Builder.Builder.JumpToEnd` | src/riscv/lib/src/jit/builder.rs:178-194 | leaves with the symbolic steps and program counter; closes the current block and no other |
| `Builder.Builder.ExitOnBranch` | src/riscv/lib/src/jit/builder.rs:228-250 | leaves when the condition holds, goes on otherwise; the symbolic state is unchanged on the fallthrough path |
| `Builder.Builder.HandleException` | src/riscv/lib/src/jit/builder.rs:197-216 | every path leaves, with the result of handling the exception |
| `Builder.Builder.CheckErrno` | src/riscv/lib/src/jit/builder/errno.rs:80-105 | exception handling on error; on success the symbolic state is the snapshot |
| `Builder.Builder.RaiseAmoFault` | src/riscv/lib/src/jit/builder/errno.rs:151-161 | raises the alignment fault, resetting the reservation when asked to, and leaves |
| `Builder.Builder.GuardAtomic` | src/riscv/lib/src/jit/builder/errno.rs:135-167 | faults when the flag is set and otherwise changes nothing |
| `Builder.Builder.LowerGuard` | src/riscv/lib/src/jit/builder.rs:439-457 | simulates the interpreter's alignment guard |
| `Builder.Builder.LowerLoad` | src/riscv/lib/src/jit/state_access.rs:679-749 | simulates the interpreter's load |
| `Builder.Builder.LowerStore` | src/riscv/lib/src/jit/state_access.rs:628-674 | simulates the interpreter's store |
| `Builder.Builder.LowerOp` | src/riscv/lib/src/jit/builder.rs:254-537 | every operation of the instruction context is lowered to code that simulates it |
| `Builder.Builder.LowerBody` | src/riscv/lib/src/jit/builder.rs:254-537 | every well-scoped body is lowered to code that simulates it, and the graph stays free of cycles |
| `Builder.Builder.LowerMerge` | src/riscv/lib/src/jit/builder.rs:376-437 | branch-and-merge is lowered to code that simulates it, with the steps and program counter of the fallthrough path after it |
| `Builder.Builder.LowerTail` | src/riscv/lib/src/jit/builder.rs:363-374 | the end of an instruction: next address, jump, conditional branch or exception |
| `Builder.Builder.LowerInstr` | src/riscv/lib/src/machine_state/instruction.rs:619-725 | the code of one instruction does, from every state, what running the instruction does |
| `BlockLowering.StepOfRoutine` | src/riscv/lib/src/machine_state.rs:94-113 | running an instruction and committing the program counter, in terms of its body and its end |
| `BlockLowering.InstrComposes` | src/riscv/lib/src/jit.rs:155-182 | a lowered body followed by its lowered end simulates the instruction |
| `Shape.CloseNeat` | src/riscv/lib/src/jit/builder.rs:178-250 | closing a block with branches to open blocks or the end block keeps an order in which all branches lead forward |
| `Shape.ClosedOrdered` | src/riscv/lib/src/jit/builder.rs:118-150 | when nothing is left open, all blocks have one terminator and an order in which every branch leads forward to the single end block |
| `Shape.PathsBounded` | src/riscv/lib/src/jit/builder.rs:118-150 | no path through such a graph is longer than the number of its blocks: there is no cycle |
| `Shape.PathsReturn` | src/riscv/lib/src/jit/builder.rs:118-135 | a path that cannot go on has arrived at the end block |
| `Jit.EndsBlockStatus` | src/riscv/lib/src/jit.rs:169-182 | lowering stops exactly at unconditional jumps and exceptions |
| `Jit.PrefixExtends` | src/riscv/lib/src/jit.rs:155-182 | code for the first instructions of a block simulates them; one more instruction extends it |
| `Jit.EndsAfterLast` | src/riscv/lib/src/jit.rs:184-187 | falling off the end returns the number of instructions and the state after them |
| `Jit.EndsInJump` | src/riscv/lib/src/jit.rs:178-187 | after an unconditional jump the rest of the block is irrelevant and need not be compiled |
| `Jit.EndsInException` | src/riscv/lib/src/jit.rs:170-176 | after an unconditional exception the rest of the block is irrelevant |
| `Jit.Produce` | src/riscv/lib/src/jit.rs:143-188 | `None` exactly when an opcode that cannot be lowered comes before the first unconditional jump or exception; otherwise a graph without cycles that, from every machine state and program counter, returns the registers, memory, reservation, program counter, steps and environment error of interpreting the block |
| `Jit.OnlyResult` | src/riscv/lib/src/jit.rs:36-65 | what the compiled function returns is the only way its run can end: it neither traps nor runs on |
| `Jit.Call` | src/riscv/lib/src/machine_state/block_cache/block/jitted.rs:190-213 | running the compiled function terminates with the result of interpreting the block |
| `Jit.Jit.constructor` | src/riscv/lib/src/jit.rs:110-137 | an empty cache of compilation results |
| `Jit.Jit.Compile` | src/riscv/lib/src/jit.rs:143-260 | after any history of successful and failed compilations, the answer means what a fresh compilation of a block seen with this hash means, and of this block when no other has the hash |
| `Blocks.RunBlock` | src/riscv/lib/src/machine_state/block_cache/block.rs:123-156 | a block takes at most as many steps as it has instructions, and fewer when it ends with an environment error |
| `BlockCache.PushedBounded` | src/riscv/lib/src/machine_state/block_cache/state.rs:358-411 | no sequence of pushes makes a block outgrow its slot |
| `BlockCache.PushedIsFound` | src/riscv/lib/src/machine_state/block_cache/state.rs:486-530 | a new block is found at its address from its first instruction on, and the following instructions are added to its end |
| `BlockCache.BlockCache.constructor` | src/riscv/lib/src/machine_state/block_cache/state.rs:429-441 | an empty cache with nothing paused |
| `BlockCache.BlockCache.OpenBlock` | src/riscv/lib/src/machine_state/block_cache/state.rs:362-383 | the block to add to: the one under construction, or a new one when its slot was taken or it is full |
| `BlockCache.BlockCache.Join` | src/riscv/lib/src/machine_state/block_cache/state.rs:389-410 | the instructions of the adjacent block are copied to the end of the current one |
| `BlockCache.BlockCache.CacheInner` | src/riscv/lib/src/machine_state/block_cache/state.rs:358-411 | adds an instruction to a block and joins the adjacent block when fence, page and size allow |
| `BlockCache.BlockCache.PushCompressed` | src/riscv/lib/src/machine_state/block_cache/state.rs:511-530 | a push starts a new block at the start of a page or away from the current block |
| `BlockCache.BlockCache.PushUncompressed` | src/riscv/lib/src/machine_state/block_cache/state.rs:532-557 | the same for four-byte instructions, which are not kept when they straddle a page boundary |
| `BlockCache.BlockCache.Invalidate` | src/riscv/lib/src/machine_state/block_cache/state.rs:476-484 | a new fence number, no block under construction, and one slot emptied |
| `Fences.EmptiedInTime` | src/riscv/lib/src/machine_state/block_cache/config.rs:41-58 | before the fence counter can come back to the same value every slot has been emptied |
| `Fences.HalvesAgree` | src/riscv/lib/src/machine_state/block_cache/config.rs:32-45 | wrapping the 32-bit counter does not change which slot a fence empties |
| `Fences.PushedTracks` | src/riscv/lib/src/machine_state/block_cache/state.rs:358-411 | pushes and joins only bring together instructions pushed since the same fence |
| `Fences.FoundIsFresh` | src/riscv/lib/src/machine_state/block_cache/state.rs:476-509 | after any history of pushes and fences, a block that is found holds only instructions pushed since the last fence, although the counter wraps around |
| `Pages.AllOnPage` | src/riscv/lib/src/machine_state/block_cache.rs:6-8 | all bytes of a block lie on the page of its first instruction |
| `Pages.PushedPaged` | src/riscv/lib/src/machine_state/block_cache/state.rs:511-557 | a push at an even address keeps every block on one page |
| `Pages.BlocksStayOnPage` | src/riscv/lib/src/machine_state/block_cache.rs:24-26 | no history of pushes and fences makes a block cross a page boundary |
| `Ticking.TicksSplit` | src/riscv/lib/src/machine_state/block_cache.rs:28-73 | splitting a number of ticks in two gives the same core, cache, paused block, steps and error, whatever the cache holds |
| `Ticking.TicksCounted` | src/riscv/lib/src/machine_state.rs:442-486 | an environment error means strictly fewer steps than the budget; otherwise exactly the budget is taken |
| `Ticking.TicksRun` | src/riscv/lib/src/machine_state/block_cache/state.rs:117-187 | ticking through a block, paused or not, is running its instructions one after the other |
| `Stepper.BlockAdvances` | src/riscv/lib/src/machine_state/block_cache.rs:186-198 | running some or all of a block comes to as many ticks |
| `Stepper.MachineState.constructor` | src/riscv/lib/src/machine_state.rs:271-279 | an empty cache around the given core |
| `Stepper.MachineState.Commit` | src/riscv/lib/src/machine_state.rs:94-113 | only the program counter changes: the trap address, the target, or the next instruction; an error is reported exactly for an environment call |
| `Machine.CommitMeans` | src/riscv/lib/src/machine_state.rs:70-113 | the nested handling of exceptions comes to this in every case |
| `Stepper.MachineState.RunBlockInner` | src/riscv/lib/src/machine_state/block_cache/block.rs:123-156 | interprets a block until an instruction leaves it; a raised exception is still to be committed |
| `Stepper.MachineState.RunInterpreted` | src/riscv/lib/src/machine_state/block_cache/block/interpreted.rs:133-160 | interpreting a block with its exception handled is running the block |
| `Stepper.MachineState.RunWhole` | src/riscv/lib/src/machine_state/block_cache/block/jitted.rs:190-213 | compiled or interpreted, running a block as a whole gives the same state, steps and error |
| `Stepper.MachineState.RunPartialInner` | src/riscv/lib/src/machine_state/block_cache/state.rs:117-187 | going on with a paused block comes to as many ticks as it took steps |
| `Stepper.MachineState.RunBlockCall` | src/riscv/lib/src/machine_state/block_cache.rs:186-198 | running a block fully or in part comes to ticks, and makes progress |
| `Stepper.MachineState.FetchAt` | src/riscv/lib/src/machine_state.rs:336-376 | fetches and decodes, and pushes into the cache exactly the cacheable instructions that cannot be written to |
| `Stepper.MachineState.RunInstrAt` | src/riscv/lib/src/machine_state.rs:379-424 | running a fetched instruction, including `fence.i`, is the uncached tick |
| `Stepper.MachineState.StepMaxInner` | src/riscv/lib/src/machine_state.rs:442-486 | for every budget, running whole blocks, partial blocks and single instructions gives the core, cache, paused block, steps and error of that many single ticks |
| `Stepper.MachineState.StepMax` | src/riscv/lib/src/machine_state.rs:491-508 | a call is the run of ticks its bound allows, or up to the first exception when there is no bound; without an error it takes exactly its budget, with one strictly less, and always stays within the bound |
| `Stepper.MachineState.StepMaxHandle` | src/riscv/lib/src/machine_state.rs:514-553 | with every handler, and with or without a bound, the run is the one that makes the steps one at a time, an exception and its handling counting as one |
| `Handling.BoundLaws` | src/riscv/lib/src/range_utils.rs:10-39 | the three operations on bounds fit together: what was taken and what is left add up to the limit, and no bound is never used up |
| `Handling.BoundMeans` | src/riscv/lib/src/range_utils.rs:10-39 | the number a bound is turned into is the largest within it, and a step may be taken exactly when the count stays within it |
| `Handling.HandledSplit` | src/riscv/lib/src/machine_state.rs:514-553 | however the steps are split, and whatever the handler does, the run is the same |
| `Handling.HandledBurst` | src/riscv/lib/src/machine_state.rs:525-547 | up to the first exception a handled run is a run of ticks; raising and handling is one more step |
| `Handling.CallsSum` | src/riscv/lib/src/machine_state/block_cache.rs:28-73 | of a sequence of calls only the sum of the budgets matters |
| `Coherence.PushedCoded` | src/riscv/lib/src/machine_state/block_cache/state.rs:358-411 | a push keeps every kept instruction equal to what fetching at its address decodes, including after joining blocks |
| `Coherence.InvalidatedCoded` | src/riscv/lib/src/machine_state/block_cache/state.rs:476-484 | so does a fence |
| `Coherence.CodedStable` | src/riscv/lib/src/machine_state/memory/state.rs:110-173 | code that cannot be written to decodes to the same instructions after any stores |
| `Transparency.TickTransparent` | src/riscv/lib/src/machine_state.rs:442-486 | from a coherent state a tick does to the core what a plain fetch, decode and execute step does, and leads to a coherent state |
| `Transparency.TicksTransparent` | src/riscv/lib/src/machine_state.rs:336-486 | any number of ticks does to the core what as many plain steps do |
| `Transparency.CacheIrrelevant` | src/riscv/lib/src/machine_state.rs:336-486 | runs from the same core with any two coherent caches give the same core, steps and error |
| `Isa.UncacheableStep` | src/riscv/lib/src/machine_state.rs:379-424 | fences go on with the next instruction; break points and other instructions that are not kept trap |
| `Transparency.HandledTransparent` | src/riscv/lib/src/machine_state.rs:514-553 | with every handler that leaves alone the code that cannot be written to and keeps to even addresses, any number of handled steps does to the core, and to the handler's memory, what as many handled plain steps do |
| `Jumps.JumpRuns` | src/riscv/lib/src/interpreter/branching.rs:23-166 | every jump goes to its target, relative or rounded down to even, and links the address of the next instruction |
| `Jumps.AllBehave` | src/riscv/lib/src/interpreter/branching.rs:23-230 | every instruction keeps to even addresses when its offset is even, and keeps code that cannot be written to |
| `Soundness.MachineLawful` | src/riscv/lib/src/machine_state.rs:331-336 | with a decoder that tells widths and gives even offsets, the machine's own instructions obey the laws that make the cache invisible |
| `Soundness.RunsAsPlain` | src/riscv/lib/src/machine_state.rs:442-486 | from an empty cache of any size, any number of steps is the same number of plain fetch, decode and execute steps, if the program counter is even or adjacent executable pages are writable together |
| `Chunks.PutBytes` | src/riscv/lib/src/program.rs:60-95 | putting a chunk that fits changes exactly its own addresses |
| `Chunks.CutBytes` | src/riscv/lib/src/program.rs:43-51 | shrinking a chunk loses exactly the bytes cut off |
| `ProgramImage.LostIffInterior` | src/riscv/lib/src/program.rs:43-51 | bytes are lost exactly when the chunk before the write reaches beyond its end |
| `ProgramImage.Program.WriteBytes` | src/riscv/lib/src/program.rs:34-98 | chunks stay non-empty and disjoint; the written range reads back the new bytes, only the predecessor's bytes past the end of the write are lost, and every other address is unchanged |
| `ProgramImage.Program.PutPieces` | src/riscv/lib/src/program.rs:56-74 | the part of the write up to the last chunk start is put in place piece by piece |
| `ProgramImage.AlwaysAgree` | src/riscv/lib/src/program.rs:34-98 | after every sequence of writes from empty the chunks are disjoint and every byte held is the last one written to its address |
| `ProgramImage.WroteExact` | src/riscv/lib/src/program.rs:34-98 | an exact image stays exact if and only if the write is not interior |
| `ProgramImage.ExactIff` | src/riscv/lib/src/program.rs:34-98 | the image is flat memory after every one of the writes if and only if none of them is interior |
| `ProgramImage.InteriorLoses` | src/riscv/lib/src/program.rs:43-51 | three bytes, then one in the middle: the last byte is gone |
| `Loader.LoadSegment` | src/riscv/lib/src/kernel_loader.rs:131-146 | copies a segment and zero-fills the gap, in an image or a flat buffer; an exact image stays exact when the target range is free |
| `Loader.LoadSegments` | src/riscv/lib/src/kernel_loader.rs:113-146 | fails exactly when a segment reaches beyond the file; for disjoint target ranges the image of an empty program is exact |
| `Loader.LoadedExactly` | src/riscv/lib/src/kernel_loader.rs:113-146 | disjoint segments give exactly the file's bytes and then zeroes up to the memory size, and nothing elsewhere |
| `Loader.LoadReloc` | src/riscv/lib/src/kernel_loader.rs:157-232 | every segment ends up at the start address plus its own, with the file's bytes and then zeroes, and every relocation that no later one overlaps points to the start address plus its addend; without relocations a fresh image holds this and nothing else; unknown relocations are refused |
| `Loader.RelocatedExactly` | src/riscv/lib/src/kernel_loader.rs:157-191 | the image of disjoint moved segments, address by address |
| `Loader.FileLoaded` | src/riscv/lib/src/kernel_loader.rs:157-225 | what was last written to each address of a segment or relocation, in terms of the file and the start address |
| `Loader.FlatPointsTo` | src/riscv/lib/src/kernel_loader.rs:210-265 | the relocated address is read back from the flat buffer as a little-endian number |
| `Loader.Cursor.constructor` | src/riscv/lib/src/kernel_loader.rs:250-253 | an empty flat buffer |
| `Loader.Cursor.WriteBytes` | src/riscv/lib/src/kernel_loader.rs:250-265 | the flat buffer holds what was last written and zeroes in the gaps |
| `Loader.LikeFlat` | src/riscv/lib/src/kernel_loader.rs:157-265 | every byte that the image holds is the byte of the flat buffer after the same writes, relocations included |
| `Loader.LoadBoth` | src/riscv/lib/src/kernel_loader.rs:157-265 | loading the same relocatable file into an image and into a flat buffer succeeds or fails alike, and then the buffer has every byte that the image holds |
| `Loader.RelocationLoses` | src/riscv/lib/src/kernel_loader.rs:210-225 | in every image, a relocation strictly inside a chunk loses all bytes of the chunk that follow it |
| `Isa.CompressedMask` | src/riscv/lib/src/parser.rs:1385-1389 | a half-word is a compressed instruction exactly when not both of its low bits are set |
| `Decoding.ProperMask` | src/riscv/lib/src/parser.rs:1371-1389 | the two low bits tell encodings of two and four bytes apart |
| `Decoding.ItemsOfLayout` | src/riscv/lib/src/parser.rs:1375-1407 | encodings laid out one after the other are split into the same encodings; only an incomplete tail is dropped |
| `Decoding.LayoutOfItems` | src/riscv/lib/src/parser.rs:1391-1407 | every stream of bytes is a layout of encodings followed by an incomplete tail |
| `Decoding.ParseBlock` | src/riscv/lib/src/parser.rs:1391-1407 | the iterators over bytes and half-words return exactly the decodings of those encodings |
| `Decoding.FetchAgrees` | src/riscv/lib/src/machine_state.rs:336-376 | fetching at the address of an encoding decodes the instruction that disassembling gives, with its width |
| `Decoding.Parsed` | src/riscv/lib/src/program.rs:122-133 | lists the text of every instruction of every chunk at the chunk's address plus the widths before it, and nothing else |
| `Arithmetic.HighLowProduct` | src/riscv/lib/src/instruction_context.rs:306-320 | for all operands and each signedness, high half times 2^64 plus MUL's low half is the exact integer product |
| `Arithmetic.CompiledProduct` | src/riscv/lib/src/jit/builder.rs:279-303 | the same for the high half that compiled code computes |
| `Arithmetic.MultiplicationPair` | src/riscv/lib/src/interpreter/integer.rs:334-377 | a MULH, MULHU or MULHSU and a MUL instruction on the same registers write the two halves of the exact product |
| `Arithmetic.DivisionCorners` | src/riscv/lib/src/interpreter/integer.rs:385-415 | all ones and the dividend for a zero divisor; the minimum and zero for overflow |
| `Arithmetic.UnsignedDivision` | src/riscv/lib/src/interpreter/integer.rs:423-440 | dividend equals divisor times quotient plus remainder, and the remainder is smaller than the divisor |
| `Arithmetic.SignedDivision` | src/riscv/lib/src/interpreter/integer.rs:385-416 | the same for signed operands without overflow; the remainder takes the sign of the dividend |
| `Arithmetic.DivisionLaw` | src/riscv/lib/src/interpreter/integer.rs:385-750 | for all operands, widths and signedness, including zero divisor and overflow, divisor times quotient plus remainder is the dividend modulo the width |
| `Arithmetic.DivisionPair` | src/riscv/lib/src/interpreter/integer.rs:385-750 | a division and a remainder instruction on the same registers write values that give back the dividend |
| `Reservations.LoadReservedRuns` | src/riscv/lib/src/interpreter/atomics.rs:169-196 | a load-reserved faults when misaligned or unreadable with nothing changed, and otherwise registers its doubleword and writes `rd` |
| `Reservations.StoreConditionalRuns` | src/riscv/lib/src/interpreter/atomics.rs:205-246 | a store-conditional drops the reservation in every case, and stores exactly when it held its doubleword |
| `Reservations.EventReservation` | src/riscv/lib/src/interpreter/atomics.rs:397-431 | the reservation after any instruction |
| `Reservations.HoldsIffLatest` | src/riscv/lib/src/machine_state/reservation_set.rs:95-106 | in every run from a reset hart, the reservation of a doubleword is held if and only if a successful load-reserved on it is the latest reservation-changing event, misaligned store-conditionals included |
| `Reservations.LawIff` | src/riscv/lib/src/machine_state/reservation_set.rs:95-117 | that law holds in all runs from a cell if and only if the cell is not a multiple of eight at the start, and so does the law for aligned store-conditionals alone |
| `Reservations.StoresIffLatest` | src/riscv/lib/src/interpreter/atomics.rs:205-246 | from every such cell, an aligned store-conditional attempts its store if and only if so; otherwise it reports failure and leaves memory alone |
| `Reservations.StoredBounded` | src/riscv/lib/src/interpreter/atomics.rs:169-246 | from every such cell, in every prefix of a run, stores by store-conditional never outnumber successful load-reserved |
| `Reservations.UnresetHolds` | src/riscv/lib/src/machine_state/reservation_set.rs:108-117 | a hart that was created but not reset holds a reservation of the first doubleword |
| `Storage.Repo.constructor` | src/riscv/lib/src/storage.rs:120-126 | an empty repository |
| `Storage.Repo.Store` | src/riscv/lib/src/storage.rs:85-92 | the data is found under its hash afterwards, and no other file is changed or added |
| `Storage.Repo.StoreChunks` | src/riscv/lib/src/storage.rs:131-137 | the chunks joined in order are the bytes, for every length; all are of 4096 bytes except perhaps the last, and no other file is added |
| `Storage.Repo.Commit` | src/riscv/lib/src/storage.rs:131-142 | every earlier commit still checks out to its bytes, and so does the new one; only its chunks and the list of them are added |
| `Storage.Repo.Checkout` | src/riscv/lib/src/storage.rs:161-176 | gives back the bytes of every commit ever made; else reports an unknown id, an unreadable commit, or the first chunk that is missing |
| `Storage.Repo.ExportSnapshot` | src/riscv/lib/src/storage.rs:188-205 | the snapshot holds exactly the files the commit needs, and they suffice to check it out; the same failures are reported |
| `Requests.Pvm.constructor` | src/riscv/lib/src/pvm/common.rs:124-132 | evaluating, with no requests made |
| `Requests.Pvm.HandleTezos` | src/riscv/lib/src/pvm/tezos.rs:293-310 | input requests and readable reveal requests are counted, each once; unsupported calls only report an error |
| `Requests.Pvm.HandleReveal` | src/riscv/lib/src/pvm/tezos.rs:254-279 | the request becomes the bytes at the guest's address and is counted, or an error is reported and nothing else changes |
| `Requests.Pvm.ToVec` | src/riscv/lib/src/pvm/reveals.rs:49-59 | exactly the bytes of the latest request, despite older, longer contents |
| `Requests.Pvm.WriteInput` | src/riscv/lib/src/pvm/tezos.rs:93-117 | payload, level and counter are written in this order; at the first refused address the writes before it stay and no others are made |
| `Requests.InputSize` | src/riscv/lib/src/pvm/tezos.rs:102-108 | the smallest of the payload, the guest's buffer and the limit of the interface |
| `Requests.DeliveredBytes` | src/riscv/lib/src/pvm/tezos.rs:95-117 | a delivery is complete exactly when all three writes are allowed, and then memory holds payload, level and counter byte by byte and is otherwise unchanged |
| `Requests.DeliveredIsRead` | src/riscv/lib/src/pvm/tezos.rs:95-117 | after a complete delivery whose level and counter lie apart from the buffer, the payload is read back from it |
| `Requests.Pvm.ProvideInput` | src/riscv/lib/src/pvm/tezos.rs:73-120 | accepted inputs never outnumber requests; a refused one changes nothing; an accepted one delivers payload, level and counter with the count in `a0`, or the part before a refused address with an error code |
| `Requests.Pvm.ProvideReveal` | src/riscv/lib/src/pvm/tezos.rs:124-159 | the same for reveals, with the exact state after an accepted one |
| `Requests.WrittenIsRead` | src/riscv/lib/src/machine_state/memory/state.rs:135-194 | bytes written over any number of pages are read back |
| `Requests.ReadAllMeans` | src/riscv/lib/src/machine_state/memory/state.rs:135-155 | bytes can be read exactly when all are in memory and readable |
| `Requests.WriteAllMeans` | src/riscv/lib/src/machine_state/memory/state.rs:175-194 | bytes can be written exactly when all are in memory and writable, and then no others change |
| `Transfers.Fa2.constructor` | src/riscv/jstz/fa2.js:1 | an empty ledger |
| `Transfers.Fa2.MintNew` | src/riscv/jstz/fa2.js:1 | creates a token once and credits its owner; the ledger after a refusal is stated too |
| `Transfers.Fa2.TransferOne` | src/riscv/jstz/fa2.js:1 | accepted exactly when the token exists, the caller may move it and no balance becomes negative; then both balances move, and after a refusal exactly the debit made before it stays |
| `Transfers.SupplyKept` | src/riscv/jstz/fa2.js:1 | no transfer changes the supply of any token |
| `Transfers.EnoughAccounts` | src/riscv/jstz/bench/src/generate.rs:330-332 | the number of accounts is the rounded-up square root plus one, and there are enough transfers to be made between them |
| `Transfers.Generate` | src/riscv/jstz/bench/src/generate.rs:93-113 | exactly the requested number of transfers, a prefix of the schedule |
| `Transfers.HopAccepted` | src/riscv/jstz/bench/src/generate.rs:93-113 | no transfer of the schedule overdraws its sender, and each moves the ledger to the next point of the schedule |
| `Transfers.HopFills` | src/riscv/jstz/bench/src/generate.rs:93-113 | each transfer leaves exactly one empty balance less |
| `Transfers.BatchMint` | src/riscv/jstz/bench/src/generate.rs:217-244 | every account holds one more than the number of accounts of its own token, and nothing else |
| `Transfers.RunAll` | src/riscv/jstz/bench/src/generate.rs:74-127 | every transfer is accepted; the empty balances number `n * (n - 1)` minus the transfers, and every supply is as minted |
| `Transfers.CheckBalances` | src/riscv/jstz/bench/src/results.rs:217-267 | accepts exactly when accounts, tokens and messages agree and the missing receipts account for the transfers |
| `Transfers.Benchmark` | src/riscv/jstz/bench/src/generate.rs:74-127 | for every number of transfers, minting and running the schedule accepts all of them, and checking the balances accepts exactly that number |
| `Soundness.StepAsPlain` | src/riscv/lib/src/machine_state.rs:442-486 | from every coherent state, and for every budget, stepping with the cache and with compiled or interpreted blocks does to the core what as many plain steps do, with the same steps and error, and leads to a coherent state |
| `Soundness.HandleAsPlain` | src/riscv/lib/src/machine_state.rs:514-553 | the same for calls with such a handler, with or without a bound: core, handler's memory, steps and verdict are those of the handled plain machine |
| `Straddling.BoundaryShows` | src/riscv/lib/src/parser.rs:1208-1352 | with every decoder that decodes `c.sw x9, 0(x8)`, `c.j -2`, `c.swsp x0, 0(x2)` and a reserved encoding as the source does, a program at an odd address across any two executable pages of which one is writable: three ticks with the cache and three plain steps lead to different cores |
| `Straddling.NeverSeenIff` | src/riscv/lib/src/machine_state.rs:331-376 | for every such decoder and every layout of permissions, no program at any start sees the cache if and only if adjacent executable pages are writable together |
| `BlockCache.SlotIsMasked` | src/riscv/lib/src/machine_state/block_cache/config.rs:39-45 | with a power of two as the number of slots, the remainder used here is the mask of the source |

## Left out

- Floating point, control and status registers: their semantics is in libraries or plumbing that is not part of this model.
- Decoding tables and the constructors of instructions: the decoder is a parameter; where it matters it is required to tell the width of instructions and to give even offsets for jumps and branches.
- Some opcodes: the word forms of the read-modify-write atomics other than swap, the unsigned and maximum forms, and duplicates of opcodes that share a body; `Amoxord`, `Amoandd` and `Amoord` stand for the opcodes that cannot be lowered.
- Cranelift itself: the graph code is given the meaning of `Ir`, with calls into the machine state as state transformers; calling conventions, stack slot layout and machine code are not modelled.
- The compiler that runs in a background thread: compilation is inline here; as compiled and interpreted runs of a block are equal, the moment of the swap does not show.
- State backends, layouts, commitments and proofs; the buddy allocator, changes of page permissions and system calls: permissions are fixed during a run.
- Panics of debug builds on arithmetic overflow: arithmetic wraps as in a release build.
- Stepper.MachineState.StepMax: without a bound, the contract is for runs that raise an exception, as the call does not return otherwise; steps are counted without wrapping.
- Stepper.MachineState.StepMaxHandle: the handler may change the core and its own memory in any way, but not the block cache, which no handler of the program does (`src/riscv/lib/src/pvm/common.rs:335-343`); without a bound, the contract is for runs that the handler stops.
- Stepper.MachineState.RunWhole: the hash by which compiled blocks are found is required to be injective.
- Jit.Jit.Compile: hashing does not fail.
- Soundness.HandleAsPlain: handlers that change page permissions, or code that cannot be written to, are not covered.
- ProgramImage.Program.WriteBytes: the end of the write is required to be below the end of the address space, where the source adds without a check.
- Loader.LoadSegments: parsing of the file, its program headers and the permissions of segments are left out; target ranges end below the end of the address space. A slice beyond the file, which panics in the source, is the answer `false`.
- Loader.LoadReloc: finding the relocation table in the dynamic section is left out; relocations are given.
- Decoding.Parsed: how an instruction is printed is a parameter.
- Storage.Repo.Commit: failures of the file system and the streaming writer and reader are left out; hashing is required to be injective and the encoding of commits to be invertible.
- Requests.Pvm.HandleTezos: signatures, signature checks and hashing are left out; size limits and error codes come from another crate and are parameters.
- Transfers.Fa2.TransferOne: operators are never changed and requests are not encoded; the debit that stays after a refusal is that of the contract's own code, without a rollback by the host.
- Transfers.EnoughAccounts: the square root is exact, where the source rounds a floating-point root.
- Storage of the machine on disk, the sandbox, the command line, log parsing and the other kernels.
