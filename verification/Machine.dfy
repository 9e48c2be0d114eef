/**
 The core machine state that instructions run over, the exceptions they raise, and how an
 exception or a program counter update ends a step.
 */
module Machine {
  import opened Words
  import opened Memory

  type Reg = r: nat | r < 32

  type XRegs = s: seq<u64> | |s| == 32 witness seq(32, _ => 0)

  /** Value of the reservation cell when no reservation is held. */
  const UNSET: u64 := 0xFFFF_FFFF_FFFF_FFFF

  datatype Core = Core(xregs: XRegs, pc: u64, reservation: u64, mem: Mem) {

    /** Register `x0` always reads as zero. */
    function XRead(r: Reg): u64 { if r == 0 then 0 else xregs[r] }

    /** Writes to register `x0` are dropped. */
    function XWrite(r: Reg, v: u64): Core { if r == 0 then this else this.(xregs := xregs[r := v]) }
  }

  /** A write changes the register written, unless it is `x0`, and nothing else. */
  lemma ReadAfterWrite(core: Core, r: Reg, v: u64, q: Reg)
    ensures core.XWrite(r, v).XRead(q) == if q == r && r != 0 then v else core.XRead(q)
    ensures core.XRead(0) == 0
    ensures var core' := core.XWrite(r, v);
            core'.pc == core.pc && core'.reservation == core.reservation && core'.mem == core.mem
  {
  }

  datatype Exception =
    | InstructionAccessFault(addr: u64)
    | IllegalInstruction
    | Breakpoint
    | LoadAccessFault(addr: u64)
    | StoreAMOAccessFault(addr: u64)
    | EnvCall
    | InstructionPageFault(addr: u64)
    | LoadPageFault(addr: u64)
    | StoreAMOPageFault(addr: u64)

  /** The exceptions that the execution environment deals with. */
  datatype EnvironException = EnvironCall

  datatype InstrWidth = Compressed | Uncompressed

  function WidthBytes(w: InstrWidth): u64 { if w.Compressed? then 2 else 4 }

  datatype PcUpdate = Set(address: u64) | Next(width: InstrWidth)

  /** Result of running one instruction. */
  datatype RunResult = Ok(update: PcUpdate) | Err(exception: Exception)

  /** State and environment error after a completed or refused step. */
  datatype StepResult = StepResult(core: Core, error: Option<EnvironException>)

  function ToEnviron(e: Exception): Option<EnvironException> {
    if e.EnvCall? then Some(EnvironCall) else None
  }

  /**
   Take a trap: an environment exception commits the current program counter and is handed
   to the environment, every other exception continues at the trap address zero.
   */
  function AddressOnException(core: Core, e: Exception, currentPc: u64): (Core, Option<u64>) {
    match ToEnviron(e)
    case Some(_) => (core.(pc := currentPc), None)
    case None => (core, Some(0))
  }

  /** Where execution goes on after an instruction at `instrPc`. */
  function NextPcAfter(instrPc: u64, result: RunResult): u64 {
    match result
    case Ok(Set(address)) => address
    case Ok(Next(width)) => U64(instrPc + WidthBytes(width))
    case Err(EnvCall) => instrPc
    case Err(_) => 0
  }

  /** Commit the program counter after an instruction at `instrPc`. */
  function HandleStepResult(core: Core, instrPc: u64, result: RunResult): StepResult {
    match result
    case Err(e) =>
      var (core', target) := AddressOnException(core, e, instrPc);
      (match target
       case Some(pc) => StepResult(core'.(pc := pc), None)
       case None => StepResult(core', ToEnviron(e)))
    case Ok(Set(address)) => StepResult(core.(pc := address), None)
    case Ok(Next(width)) => StepResult(core.(pc := U64(instrPc + WidthBytes(width))), None)
  }

  /**
   Committing changes the program counter and nothing else. The environment is told of an
   environment call, with the program counter still at the call, and of nothing else.
   */
  lemma CommitMeans(core: Core, instrPc: u64, result: RunResult)
    ensures var r := HandleStepResult(core, instrPc, result);
            && r.core == core.(pc := NextPcAfter(instrPc, result))
            && r.error == if result == Err(EnvCall) then Some(EnvironCall) else None
  {
  }
}
