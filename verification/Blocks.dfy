/**
 Blocks: sequences of instructions executed one after the other until one of them jumps,
 takes a branch or raises an exception. The definitions are over any way of running one
 instruction; `RunInstr` is the machine's.
 */
module Blocks {
  import opened Words
  import opened Machine
  import opened Instructions
  import opened Execution

  /** What one instruction in a block leads to: the following one, or out of the block. */
  datatype InstrStep =
    | Continues(core: Core)
    | Leaves(core: Core, error: Option<EnvironException>)

  /** A way of running one instruction; the program counter is left to the caller. */
  type Semantics = (Instruction, Core) -> Ran

  /** Commit the program counter after an instruction at `pc` has been run. */
  function Committed(result: RunResult, core: Core, pc: u64): InstrStep {
    var h := HandleStepResult(core, pc, result);
    if result.Ok? && result.update.Next? then Continues(h.core) else Leaves(h.core, h.error)
  }

  /** Run an instruction at the current program counter and commit the new one. */
  function StepWith(run: Semantics, i: Instruction, core: Core): InstrStep {
    var r := run(i, core);
    Committed(r.result, r.core, core.pc)
  }

  /** A step of the machine's own instructions. */
  function StepInstr(i: Instruction, core: Core): InstrStep { StepWith(RunInstr, i, core) }

  /** A step is counted unless the environment has to deal with it. */
  function Counted(error: Option<EnvironException>): nat { if error.Some? then 0 else 1 }

  /** Where execution of a block has got to. */
  datatype Progress =
    | Running(core: Core)
    | Left(core: Core, steps: nat, error: Option<EnvironException>)

  /** Where a block stands after the instruction that follows the first `n`. */
  function After(r: InstrStep, n: nat): Progress {
    match r
    case Continues(core) => Running(core)
    case Leaves(core, error) => Left(core, n + Counted(error), error)
  }

  /** Run at most the first `n` instructions. */
  function RunFirst(run: Semantics, instrs: seq<Instruction>, core: Core, n: nat): Progress
    requires n <= |instrs|
    decreases n
  {
    if n == 0 then Running(core)
    else match RunFirst(run, instrs, core, n - 1)
      case Running(core') => After(StepWith(run, instrs[n - 1], core'), n - 1)
      case left => left
  }

  /** One more instruction of a block, by its result. */
  lemma RunNext(run: Semantics, instrs: seq<Instruction>, start: Core, n: nat, core: Core)
    requires n < |instrs| && RunFirst(run, instrs, start, n) == Running(core)
    ensures var r := run(instrs[n], core);
            RunFirst(run, instrs, start, n + 1)
            == match r.result
               case Ok(Next(width)) => Running(r.core.(pc := U64(core.pc + WidthBytes(width))))
               case Ok(Set(address)) => Left(r.core.(pc := address), n + 1, None)
               case Err(e) =>
                 var h := HandleStepResult(r.core, core.pc, Err(e));
                 Left(h.core, n + Counted(h.error), h.error)
  {
  }

  datatype BlockResult = BlockResult(core: Core, steps: nat, error: Option<EnvironException>)

  /** Run a block as a whole. */
  function RunBlock(run: Semantics, instrs: seq<Instruction>, core: Core): (r: BlockResult)
    ensures r.steps <= |instrs|
    ensures r.error.Some? ==> r.steps < |instrs|
  {
    FirstBounded(run, instrs, core, |instrs|);
    match RunFirst(run, instrs, core, |instrs|)
    case Running(core') => BlockResult(core', |instrs|, None)
    case Left(core', steps, error) => BlockResult(core', steps, error)
  }

  lemma {:induction false} FirstBounded(run: Semantics, instrs: seq<Instruction>, core: Core, n: nat)
    requires n <= |instrs|
    ensures var p := RunFirst(run, instrs, core, n);
            p.Left? ==> p.steps <= n && (p.error.Some? ==> p.steps < n) && (p.error == None ==> p.steps > 0)
    decreases n
  {
    if n != 0 { FirstBounded(run, instrs, core, n - 1); }
  }

  /** Once a block has been left, nothing more of it is run. */
  lemma {:induction false} LeftStays(run: Semantics, instrs: seq<Instruction>, core: Core, n: nat, m: nat)
    requires n <= m <= |instrs| && RunFirst(run, instrs, core, n).Left?
    ensures RunFirst(run, instrs, core, m) == RunFirst(run, instrs, core, n)
    decreases m
  {
    if n < m { LeftStays(run, instrs, core, n, m - 1); }
  }
}
