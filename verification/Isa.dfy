/**
 Fetching and decoding instructions, and the plain machine: fetch, decode, execute, one
 instruction at a time, with no cache. Decoding itself is a parameter.
 */
module Isa {
  import opened Words
  import opened Memory
  import opened Machine
  import opened Instructions
  import opened Blocks

  /** Instructions that are never kept in a cache. */
  datatype UncacheableOp = Fence | FenceTso | Ebreak | CEbreak | FenceI

  datatype Instr = Cacheable(instr: Instruction) | Uncacheable(op: UncacheableOp)

  /** How instructions are decoded from half-words and words, and how one is run. */
  datatype Isa = Isa(parse16: u64 -> Instr, parse32: u64 -> Instr, run: Semantics)

  /** The two low bits of a half-word tell a compressed instruction from a longer one. */
  predicate IsCompressed(half: u64) { half % 4 != 3 }

  /** The test is on the lowest two bits, `half & 0b11 != 0b11`. */
  lemma CompressedMask(half: u64)
    ensures IsCompressed(half) <==> Bits64(BitAnd, half, 3) != 3
  {
    assert Pow2(2) == 2 * (2 * Pow2(0));
    AndLowMask(64, 2, half);
  }

  /** What fetching at an address gives: a fault, or an instruction that may be writable. */
  datatype Fetch = Fault(at: u64) | Fetched(instr: Instr, width: InstrWidth, writable: bool)

  function FetchInstr(isa: Isa, m: Mem, addr: u64): Fetch {
    match ReadExec(m, addr)
    case None => Fault(addr)
    case Some(lower) =>
      if IsCompressed(lower.data) then Fetched(isa.parse16(lower.data), Compressed, lower.writable)
      else match ReadExec(m, U64(addr + 2))
        case None => Fault(U64(addr + 2))
        case Some(upper) =>
          Fetched(isa.parse32(U64(lower.data + upper.data * 0x1_0000)), Uncompressed, lower.writable || upper.writable)
  }

  function UncacheableResult(op: UncacheableOp): RunResult {
    match op
    case Fence => Ok(Next(Uncompressed))
    case FenceTso => Err(IllegalInstruction)
    case Ebreak => Err(Breakpoint)
    case CEbreak => Err(Breakpoint)
    case FenceI => Ok(Next(Uncompressed))
  }

  /** The machine state and environment error after an instruction in or out of a block. */
  function Outcome(s: InstrStep): StepResult {
    match s
    case Continues(core) => StepResult(core, None)
    case Leaves(core, error) => StepResult(core, error)
  }

  function RunDecoded(isa: Isa, i: Instr, core: Core): StepResult {
    match i
    case Cacheable(instr) => Outcome(StepWith(isa.run, instr, core))
    case Uncacheable(op) => HandleStepResult(core, core.pc, UncacheableResult(op))
  }

  /** One step of the plain machine. */
  function PlainStep(isa: Isa, core: Core): StepResult {
    match FetchInstr(isa, core.mem, core.pc)
    case Fault(at) => HandleStepResult(core, core.pc, Err(InstructionAccessFault(at)))
    case Fetched(instr, _, _) => RunDecoded(isa, instr, core)
  }

  /** Fences go on with the next instruction; every other instruction that is not kept traps. */
  lemma UncacheableStep(isa: Isa, core: Core, op: UncacheableOp, w: InstrWidth, writable: bool)
    requires FetchInstr(isa, core.mem, core.pc) == Fetched(Uncacheable(op), w, writable)
    ensures PlainStep(isa, core)
            == StepResult(core.(pc := if op.Fence? || op.FenceI? then (core.pc + 4) % TWO64 else 0), None)
  {
  }

  /** A run of steps: the state reached, the steps counted, and the error that ended it early. */
  datatype StepMany<S> = StepMany(state: S, steps: nat, error: Option<EnvironException>)

  /** At most `n` steps of the plain machine, up to the first environment exception. */
  function PlainSteps(isa: Isa, core: Core, n: nat): StepMany<Core>
    decreases n
  {
    if n == 0 then StepMany(core, 0, None)
    else
      var r := PlainStep(isa, core);
      if r.error.Some? then StepMany(r.core, 0, r.error)
      else
        var rest := PlainSteps(isa, r.core, n - 1);
        rest.(steps := rest.steps + 1)
  }
}
