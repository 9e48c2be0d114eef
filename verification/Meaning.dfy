/**
 What every instruction means, said directly in terms of registers, memory and the program
 counter, and that running its body means this.
 */
module Meaning {
  import opened Words
  import opened Memory
  import opened Machine
  import opened Icb
  import opened Instructions
  import opened Execution
  import opened Arithmetic
  import opened Jumps
  import opened Reservations

  // ----- the meaning -----

  /** Opcodes whose second operand is the immediate. */
  predicate UsesImmediate(op: OpCode) {
    || op.Addi? || op.AddWordImmediate? || op.X64XorImm? || op.X64OrImm? || op.Andi?
    || op.ShiftLeftImmediate? || op.ShiftRightImmediateUnsigned? || op.ShiftRightImmediateSigned?
    || op.X32ShiftLeftImm? || op.X32ShiftRightImmSigned? || op.X32ShiftRightImmUnsigned?
    || op.SetLessThanImmediateSigned? || op.SetLessThanImmediateUnsigned? || op.Li? || op.AddImmediateToPC?
  }

  function SecondOperand(i: Instruction, core: Core): u64 {
    if UsesImmediate(i.opcode) then U64(i.imm) else core.XRead(i.rs2)
  }

  /** The low 32 bits, sign-extended. */
  function Extended(v: u64): u64 { U64(S32(v)) }

  /** The value that a computing instruction writes to `rd`; `Nop` writes none. */
  function Value(i: Instruction, core: Core): Option<u64> {
    var x, y := core.XRead(i.rs1), SecondOperand(i, core);
    match i.opcode
    case AddOp => Some(U64(x + y))
    case Addi => Some(U64(x + y))
    case SubOp => Some(U64(x - y))
    case X64Xor => Some(Bits64(BitXor, x, y))
    case X64XorImm => Some(Bits64(BitXor, x, y))
    case OrOp => Some(Bits64(BitOr, x, y))
    case X64OrImm => Some(Bits64(BitOr, x, y))
    case AndOp => Some(Bits64(BitAnd, x, y))
    case Andi => Some(Bits64(BitAnd, x, y))
    case MulOp => Some(U64(x * y))
    case ShiftLeft => Some(Words.ShiftLeft(W64, x, y))
    case ShiftLeftImmediate => Some(Words.ShiftLeft(W64, x, y))
    case ShiftRightUnsigned => Some(Words.ShiftRightUnsigned(W64, x, y))
    case ShiftRightImmediateUnsigned => Some(Words.ShiftRightUnsigned(W64, x, y))
    case ShiftRightSigned => Some(Words.ShiftRightSigned(W64, x, y))
    case ShiftRightImmediateSigned => Some(Words.ShiftRightSigned(W64, x, y))
    case SetLessThanSigned => Some(FromBool(S64(x) < S64(y)))
    case SetLessThanImmediateSigned => Some(FromBool(S64(x) < S64(y)))
    case SetLessThanUnsigned => Some(FromBool(x < y))
    case SetLessThanImmediateUnsigned => Some(FromBool(x < y))
    case AddWord => Some(Extended(U64(x + y)))
    case AddWordImmediate => Some(Extended(U64(x + y)))
    case SubWord => Some(Extended(U64(x - y)))
    case X32ShiftLeft => Some(Extended(Words.ShiftLeft(W32, U32(x), y)))
    case X32ShiftLeftImm => Some(Extended(Words.ShiftLeft(W32, U32(x), y)))
    case X32ShiftRightUnsigned => Some(Extended(Words.ShiftRightUnsigned(W32, U32(x), y)))
    case X32ShiftRightImmUnsigned => Some(Extended(Words.ShiftRightUnsigned(W32, U32(x), y)))
    case X32ShiftRightSigned => Some(Extended(Words.ShiftRightSigned(W32, U32(x), y)))
    case X32ShiftRightImmSigned => Some(Extended(Words.ShiftRightSigned(W32, U32(x), y)))
    case X32Mul => Some(Extended(U64(x * y)))
    case X64MulHighSigned => Some(U64((S64(x) * S64(y)) / TWO64))
    case X64MulHighSignedUnsigned => Some(U64((S64(x) * y) / TWO64))
    case X64MulHighUnsigned => Some(U64((x * y) / TWO64))
    case AddImmediateToPC => Some(U64(core.pc + y))
    case Li => Some(y)
    case Mv => Some(y)
    case Neg => Some(U64(0 - y))
    case _ => None
  }

  function Computed(i: Instruction, core: Core): Core {
    match Value(i, core)
    case Some(v) => core.XWrite(i.rd, v)
    case None => core
  }

  /** Whether a branch is taken. */
  predicate Taken(i: Instruction, core: Core) {
    var x, y := core.XRead(i.rs1), core.XRead(i.rs2);
    match i.opcode
    case BranchEqual => x == y
    case BranchNotEqual => x != y
    case BranchLessThanSigned => S64(x) < S64(y)
    case BranchGreaterThanOrEqualSigned => S64(x) >= S64(y)
    case BranchLessThanUnsigned => x < y
    case BranchGreaterThanOrEqualUnsigned => x >= y
    case BranchEqualZero => x == 0
    case BranchNotEqualZero => x != 0
    case BranchLessThanZero => S64(x) < 0
    case BranchGreaterThanOrEqualZero => S64(x) >= 0
    case BranchLessThanOrEqualZero => S64(x) <= 0
    case BranchGreaterThanZero => S64(x) > 0
    case _ => false
  }

  predicate IsLoad(op: OpCode) {
    || op.X8LoadSigned? || op.X16LoadSigned? || op.X32LoadSigned? || op.X64LoadSigned?
    || op.X8LoadUnsigned? || op.X16LoadUnsigned? || op.X32LoadUnsigned?
  }

  predicate IsStore(op: OpCode) { op.X8Store? || op.X16Store? || op.X32Store? || op.X64Store? }

  predicate IsSwap(op: OpCode) { op.X32AtomicSwap? || op.X64AtomicSwap? }

  predicate LoadsSigned(op: OpCode) { op.X8LoadSigned? || op.X16LoadSigned? || op.X32LoadSigned? || op.X64LoadSigned? }

  function AccessSize(op: OpCode): Size {
    if op.X8LoadSigned? || op.X8LoadUnsigned? || op.X8Store? then Byte
    else if op.X16LoadSigned? || op.X16LoadUnsigned? || op.X16Store? then Half
    else if op.X32LoadSigned? || op.X32LoadUnsigned? || op.X32Store? || op.X32AtomicSwap? then Word
    else Double
  }

  /** What an atomic update stores. */
  function Updated(op: OpCode, x: u64, y: u64): u64 {
    if op.X64AtomicAdd? then U64(x + y)
    else if op.X64AtomicMinSigned? then (if S64(x) <= S64(y) then x else y)
    else if op.Amoxord? then Bits64(BitXor, x, y)
    else if op.Amoandd? then Bits64(BitAnd, x, y)
    else Bits64(BitOr, x, y)
  }

  /** A load to `rd`. */
  function Loaded(size: Size, signed: bool, rd: Reg, addr: u64, core: Core): BodyResult {
    match Read(core.mem, addr, size)
    case Some(v) => Yielded([], core.XWrite(rd, Extend(size, signed, v)))
    case None => Raised(LoadAccessFault(addr), core)
  }

  /** A store of a register value. */
  function Stored(size: Size, addr: u64, v: u64, core: Core): BodyResult {
    match Write(core.mem, addr, size, Truncate(size, v))
    case Some(m) => Yielded([], core.(mem := m))
    case None => Raised(StoreAMOAccessFault(addr), core)
  }

  /** Load, keep the old value in `rd`, and store; a store that is refused leaves `rd` written. */
  function Exchanged(i: Instruction, core: Core): BodyResult {
    var addr, y, size := core.XRead(i.rs1), core.XRead(i.rs2), AccessSize(i.opcode);
    if addr % Bytes(size) != 0 then Raised(StoreAMOAccessFault(addr), core)
    else match Read(core.mem, addr, size)
      case None => Raised(LoadAccessFault(addr), core)
      case Some(v) =>
        var old' := Extend(size, IsSwap(i.opcode), v);
        Stored(size, addr, if IsSwap(i.opcode) then y else Updated(i.opcode, old', y), core.XWrite(i.rd, old'))
  }

  function Accessed(i: Instruction, core: Core): BodyResult {
    var addr := U64(core.XRead(i.rs1) + i.imm);
    if IsLoad(i.opcode) then Loaded(AccessSize(i.opcode), LoadsSigned(i.opcode), i.rd, addr, core)
    else if IsStore(i.opcode) then Stored(AccessSize(i.opcode), addr, core.XRead(i.rs2), core)
    else Exchanged(i, core)
  }

  /** A result that goes on to the next instruction, or an exception. */
  function Onwards(b: BodyResult, w: InstrWidth): Ran
    requires !b.Panicked?
  {
    if b.Raised? then Ran(Err(b.exception), b.core) else Ran(Ok(Next(w)), b.core)
  }

  /** The meaning of an instruction. */
  function Means(i: Instruction, core: Core): Ran {
    if IsMemory(i.opcode) then Onwards(Accessed(i, core), i.width)
    else if IsBranch(i.opcode) then
      Ran(Ok(if Taken(i, core) then Set(U64(core.pc + i.imm)) else Next(i.width)), core)
    else if IsJump(i.opcode) then Ran(Ok(Set(JumpTarget(i, core))), Jumped(i, core))
    else if IsDivision(i.opcode) then Ran(Ok(Next(i.width)), core.XWrite(i.rd, DivisionResult(i, core)))
    else if IsLoadReserved(i.opcode) then Onwards(LoadReservedOutcome(SizeOf(i.opcode), i, core), i.width)
    else if IsStoreConditional(i.opcode) then Onwards(StoreConditionalOutcome(SizeOf(i.opcode), i, core), i.width)
    else if i.opcode.ECallOp? then Ran(Err(EnvCall), core)
    else if i.opcode.Unknown? then Ran(Err(IllegalInstruction), core)
    else Ran(Ok(Next(i.width)), Computed(i, core))
  }

  // ----- pieces of bodies -----

  /** Two operands are read into variables 0 and 1. */
  lemma TwoRuns(o1: Op, o2: Op, k: Body, core: Core, x: u64, y: u64)
    requires OpScoped(o1, 0) && OpScoped(o2, 1) && Binds(o1) == Binds(o2) == 1 && Scoped(k, 2, 0)
    requires RunOp(o1, [], core) == Yielded([x], core) && RunOp(o2, [x], core) == Yielded([y], core)
    ensures RunBody(Do(0, 0, o1, Do(1, 0, o2, k)), [], core, 0) == RunBody(k, [x, y], core, 0)
  {
    hide RunBody, RunOp, KeepsReservation, DivisionFree, ReadsPc, Scoped;
    RunDo(0, 0, o1, Do(1, 0, o2, k), [], core, x);
    assert [] + [x] == [x] && [x] + [y] == [x, y];
    RunDo(1, 0, o2, k, [x], core, y);
  }

  /** One more value is computed and written to `rd`. */
  lemma ThenWrites(o: Op, rd: Reg, env: seq<u64>, core: Core, v: u64)
    requires OpScoped(o, |env|) && Binds(o) == 1 && RunOp(o, env, core) == Yielded([v], core)
    ensures RunBody(Do(|env|, 0, o, Do(|env| + 1, 0, XRegWrite(rd, |env|), Done(|env| + 1))), env, core, 0)
            == Yielded([], core.XWrite(rd, v))
  {
    hide RunBody, RunOp, KeepsReservation, DivisionFree, ReadsPc, Scoped;
    var n := |env|;
    RunDo(n, 0, o, Do(n + 1, 0, XRegWrite(rd, n), Done(n + 1)), env, core, v);
    WriteRuns(n + 1, n, rd, env + [v], core);
  }

  /** The second operand of an instruction, as an operation. */
  function SecondOp(i: Instruction): (o: Op)
    ensures o.XRegRead? || o.Imm?
  {
    if UsesImmediate(i.opcode) then Imm(W64, i.imm) else XRegRead(i.rs2)
  }

  lemma SecondOpRuns(i: Instruction, core: Core, env: seq<u64>)
    ensures RunOp(SecondOp(i), env, core) == Yielded([SecondOperand(i, core)], core)
  {
  }

  // ----- computing instructions -----

  lemma RegImmRuns(f: AluOp, i: Instruction, core: Core, v: u64)
    requires !OpDivides(Alu(W64, f, 0, 1)) && AluValue(W64, f, core.XRead(i.rs1), U64(i.imm)) == Some(v)
    ensures RunBody(RegImm(f, i), [], core, 0) == Yielded([], core.XWrite(i.rd, v))
  {
    hide RunBody, AluValue, KeepsReservation, DivisionFree, ReadsPc, Scoped;
    var x, y := core.XRead(i.rs1), U64(i.imm);
    var k := Do(2, 0, Alu(W64, f, 0, 1), Do(3, 0, XRegWrite(i.rd, 2), Done(3)));
    TwoRuns(XRegRead(i.rs1), Imm(W64, i.imm), k, core, x, y);
    ThenWrites(Alu(W64, f, 0, 1), i.rd, [x, y], core, v);
  }

  lemma RegRegRuns(f: AluOp, i: Instruction, core: Core, v: u64)
    requires !OpDivides(Alu(W64, f, 0, 1)) && AluValue(W64, f, core.XRead(i.rs1), core.XRead(i.rs2)) == Some(v)
    ensures RunBody(RegReg(f, i), [], core, 0) == Yielded([], core.XWrite(i.rd, v))
  {
    hide RunBody, AluValue, ThreeRegister, KeepsReservation, DivisionFree, ReadsPc, Scoped;
    ThreeRegisterRuns(i, Alu(W64, f, 0, 1), core, v);
  }

  lemma WordOfRuns(f: AluOp, i: Instruction, core: Core, v: u64)
    requires !OpDivides(Alu(W64, f, 0, 1)) && AluValue(W64, f, core.XRead(i.rs1), SecondOperand(i, core)) == Some(v)
    ensures RunBody(WordOf(SecondOp(i), f, i), [], core, 0) == Yielded([], core.XWrite(i.rd, Extended(v)))
  {
    hide RunBody, AluValue, SecondOp, SecondOperand, WriteExtended, KeepsReservation, DivisionFree, ReadsPc, Scoped;
    var x, y := core.XRead(i.rs1), SecondOperand(i, core);
    var k3 := Do(3, 0, Narrow(2), WriteExtended(4, 3, i.rd));
    SecondOpRuns(i, core, [x]);
    TwoRuns(XRegRead(i.rs1), SecondOp(i), Do(2, 0, Alu(W64, f, 0, 1), k3), core, x, y);
    RunDo(2, 0, Alu(W64, f, 0, 1), k3, [x, y], core, v);
    RunDo(3, 0, Narrow(2), WriteExtended(4, 3, i.rd), [x, y] + [v], core, U32(v));
    WriteExtendedRuns(4, 3, i.rd, [x, y] + [v] + [U32(v)], core);
  }

  lemma MaskLow(y: u64)
    ensures AluValue(W64, And, y, 0x3F) == Some(y % 64) && AluValue(W64, And, y, 0x1F) == Some(y % 32)
  {
    assert Pow2(5) == 2 * (2 * (2 * (2 * (2 * Pow2(0))))) == 32;
    assert Pow2(6) == 2 * Pow2(5) == 64;
    AndLowMask(64, 6, y);
    AndLowMask(64, 5, y);
  }

  lemma ShiftRegRuns(f: AluOp, i: Instruction, core: Core, v: u64)
    requires !OpDivides(Alu(W64, f, 0, 1)) && AluValue(W64, f, core.XRead(i.rs1), core.XRead(i.rs2) % 64) == Some(v)
    ensures RunBody(ShiftReg(f, i), [], core, 0) == Yielded([], core.XWrite(i.rd, v))
  {
    hide RunBody, AluValue, ShiftBy, KeepsReservation, DivisionFree, ReadsPc, Scoped;
    var y := core.XRead(i.rs2);
    var k2 := ShiftBy(f, i);
    MaskLow(y);
    TwoRuns(Imm(W64, 0x3F), XRegRead(i.rs2), Do(2, 0, Alu(W64, And, 1, 0), k2), core, 0x3F, y);
    RunDo(2, 0, Alu(W64, And, 1, 0), k2, [0x3F, y], core, y % 64);
    ShiftByRuns(f, i, [0x3F, y] + [y % 64], core, v);
  }

  lemma ShiftByRuns(f: AluOp, i: Instruction, env: seq<u64>, core: Core, v: u64)
    requires |env| == 3 && !OpDivides(Alu(W64, f, 0, 1)) && AluValue(W64, f, core.XRead(i.rs1), env[2]) == Some(v)
    ensures RunBody(ShiftBy(f, i), env, core, 0) == Yielded([], core.XWrite(i.rd, v))
  {
    hide RunBody, AluValue, KeepsReservation, DivisionFree, ReadsPc, Scoped;
    var x := core.XRead(i.rs1);
    ReadRuns(3, i.rs1, Do(4, 0, Alu(W64, f, 3, 2), Do(5, 0, XRegWrite(i.rd, 4), Done(5))), env, core);
    ThenWrites(Alu(W64, f, 3, 2), i.rd, env + [x], core, v);
  }

  lemma ShiftNarrowedRuns(f: AluOp, i: Instruction, env: seq<u64>, core: Core, v: u64)
    requires |env| == 4 && !OpDivides(Alu(W32, f, 0, 1)) && AluValue(W32, f, U32(env[0]), U32(env[3])) == Some(v)
    ensures RunBody(ShiftNarrowed(f, i), env, core, 0) == Yielded([], core.XWrite(i.rd, Extended(v)))
  {
    hide RunBody, AluValue, WriteExtended, KeepsReservation, DivisionFree, ReadsPc, Scoped;
    var k2 := Do(6, 0, Alu(W32, f, 5, 4), WriteExtended(7, 6, i.rd));
    var k1 := Do(5, 0, Narrow(0), k2);
    var a, b := U32(env[3]), U32(env[0]);
    RunDo(4, 0, Narrow(3), k1, env, core, a);
    RunDo(5, 0, Narrow(0), k2, env + [a], core, b);
    RunDo(6, 0, Alu(W32, f, 5, 4), WriteExtended(7, 6, i.rd), env + [a] + [b], core, v);
    WriteExtendedRuns(7, 6, i.rd, env + [a] + [b] + [v], core);
  }

  lemma ShiftWordRuns(f: AluOp, i: Instruction, core: Core, v: u64)
    requires !OpDivides(Alu(W32, f, 0, 1))
    requires AluValue(W32, f, U32(core.XRead(i.rs1)), SecondOperand(i, core) % 32) == Some(v)
    ensures RunBody(ShiftWord(SecondOp(i), f, i), [], core, 0) == Yielded([], core.XWrite(i.rd, Extended(v)))
  {
    hide RunBody, AluValue, SecondOp, SecondOperand, ShiftMasked, Extended, KeepsReservation, DivisionFree, ReadsPc,
      Scoped;
    var x, y := core.XRead(i.rs1), SecondOperand(i, core);
    SecondOpRuns(i, core, [x]);
    TwoRuns(XRegRead(i.rs1), SecondOp(i), ShiftMasked(f, i), core, x, y);
    ShiftMaskedRuns(f, i, [x, y], core, v);
  }

  lemma ShiftMaskedRuns(f: AluOp, i: Instruction, env: seq<u64>, core: Core, v: u64)
    requires |env| == 2 && !OpDivides(Alu(W32, f, 0, 1)) && AluValue(W32, f, U32(env[0]), env[1] % 32) == Some(v)
    ensures RunBody(ShiftMasked(f, i), env, core, 0) == Yielded([], core.XWrite(i.rd, Extended(v)))
  {
    hide RunBody, AluValue, ShiftNarrowed, Extended, KeepsReservation, DivisionFree, ReadsPc, Scoped;
    var k3, n := ShiftNarrowed(f, i), env[1] % 32;
    MaskLow(env[1]);
    RunDo(2, 0, Imm(W64, 0x1F), Do(3, 0, Alu(W64, And, 1, 2), k3), env, core, 0x1F);
    RunDo(3, 0, Alu(W64, And, 1, 2), k3, env + [0x1F], core, n);
    assert U32(n) == n;
    ShiftNarrowedRuns(f, i, env + [0x1F] + [n], core, v);
  }

  lemma SetIfRuns(p: Predicate, i: Instruction, core: Core)
    ensures RunBody(SetIf(p, SecondOp(i), i), [], core, 0)
            == Yielded([], core.XWrite(i.rd, FromBool(Holds(W64, p, core.XRead(i.rs1), SecondOperand(i, core)))))
  {
    hide RunBody, Holds, SecondOp, SecondOperand, KeepsReservation, DivisionFree, ReadsPc, Scoped;
    var x, y := core.XRead(i.rs1), SecondOperand(i, core);
    var b := FromBool(Holds(W64, p, x, y));
    var k3 := Do(3, 0, ValueFromBool(2), Do(4, 0, XRegWrite(i.rd, 3), Done(4)));
    SecondOpRuns(i, core, [x]);
    TwoRuns(XRegRead(i.rs1), SecondOp(i), Do(2, 0, Compare(W64, p, 0, 1), k3), core, x, y);
    RunDo(2, 0, Compare(W64, p, 0, 1), k3, [x, y], core, b);
    ThenWrites(ValueFromBool(2), i.rd, [x, y] + [b], core, b);
  }

  lemma MulWordRuns(i: Instruction, core: Core)
    ensures RunBody(MulWord(i), [], core, 0)
            == Yielded([], core.XWrite(i.rd, Extended(U64(core.XRead(i.rs1) * core.XRead(i.rs2)))))
  {
    hide RunBody, WriteExtended, KeepsReservation, DivisionFree, ReadsPc, Scoped;
    var x, y := core.XRead(i.rs1), core.XRead(i.rs2);
    var v := U32(U32(x) * U32(y));
    var k4 := Do(4, 0, Alu(W32, Mul, 1, 3), WriteExtended(5, 4, i.rd));
    var k3 := Do(3, 0, Narrow(2), k4);
    TwoRuns(XRegRead(i.rs1), Narrow(0), Do(2, 0, XRegRead(i.rs2), k3), core, x, U32(x));
    ReadRuns(2, i.rs2, k3, [x, U32(x)], core);
    RunDo(3, 0, Narrow(2), k4, [x, U32(x)] + [y], core, U32(y));
    RunDo(4, 0, Alu(W32, Mul, 1, 3), WriteExtended(5, 4, i.rd), [x, U32(x)] + [y] + [U32(y)], core, v);
    WriteExtendedRuns(5, 4, i.rd, [x, U32(x)] + [y] + [U32(y)] + [v], core);
    LowProduct(x, y);
  }

  /** The low 32 bits of a product are those of the product of the low halves. */
  lemma LowProduct(x: u64, y: u64)
    ensures Extended(U32(U32(x) * U32(y))) == Extended(U64(x * y))
  {
    hide Extended, U32, U64;
    LowAgrees(x, y);
    SameLow(U32(U32(x) * U32(y)), U64(x * y));
  }

  lemma LowAgrees(x: u64, y: u64)
    ensures U32(U32(x) * U32(y)) % TWO32 == U64(x * y) % TWO32
  {
    ModProduct(x, y, TWO32);
    LowOf(U32(x) * U32(y), x * y);
  }

  lemma LowOf(q: int, p: int)
    requires q % TWO32 == p % TWO32
    ensures U32(q) % TWO32 == U64(p) % TWO32
  {
  }

  lemma SameLow(a: u64, b: u64)
    requires a % TWO32 == b % TWO32
    ensures Extended(a) == Extended(b)
  {
  }

  lemma AssignRuns(o: Op, i: Instruction, core: Core, v: u64)
    requires (o.XRegRead? || o.Imm?) && RunOp(o, [], core) == Yielded([v], core)
    ensures RunBody(Assign(o, i), [], core, 0) == Yielded([], core.XWrite(i.rd, v))
  {
    hide RunBody, RunOp, KeepsReservation, DivisionFree, ReadsPc, Scoped;
    ThenWrites(o, i.rd, [], core, v);
  }

  lemma NegRuns(i: Instruction, core: Core)
    ensures RunBody(NegBody(i), [], core, 0) == Yielded([], core.XWrite(i.rd, U64(0 - core.XRead(i.rs2))))
  {
    hide RunBody, KeepsReservation, DivisionFree, ReadsPc, Scoped;
    var y := core.XRead(i.rs2);
    ReadRuns(0, i.rs2, Do(1, 0, Negate(W64, 0), Do(2, 0, XRegWrite(i.rd, 1), Done(2))), [], core);
    assert [] + [y] == [y];
    ThenWrites(Negate(W64, 0), i.rd, [y], core, NegateValue(W64, y));
  }

  lemma AddToPcRuns(i: Instruction, core: Core)
    ensures RunBody(AddToPc(i), [], core, 0) == Yielded([], core.XWrite(i.rd, Plus(core.pc, U64(i.imm))))
  {
    hide RunBody, KeepsReservation, DivisionFree, ReadsPc, Scoped;
    var y := U64(i.imm);
    var k := Do(2, 0, Alu(W64, Add, 0, 1), Do(3, 0, XRegWrite(i.rd, 2), Done(3)));
    TwoRuns(PcRead, Imm(W64, i.imm), k, core, core.pc, y);
    ThenWrites(Alu(W64, Add, 0, 1), i.rd, [core.pc, y], core, Plus(core.pc, y));
  }

  lemma HighIsFloor(t: MulHighType, x: u64, y: u64)
    ensures MulHighValue(t, x, y) == U64((Operand(FirstSigned(t), x) * Operand(SecondSigned(t), y)) / TWO64)
  {
    var p := Operand(FirstSigned(t), x) * Operand(SecondSigned(t), y);
    hide MulHighValue, Operand;
    HighLowProduct(t, x, y);
    var h := MulHighValue(t, x, y);
    FloorOf(HighHalf(t, h), Wrap(W64, x * y), p);
    HalfAgain(t, h);
  }

  lemma FloorOf(h: int, l: int, p: int)
    requires p == h * TWO64 + l && 0 <= l < TWO64
    ensures p / TWO64 == h
  {
  }

  lemma HalfAgain(t: MulHighType, h: u64)
    ensures U64(HighHalf(t, h)) == h
  {
  }

  // ----- which body an opcode has -----

  function RegRegAlu(op: OpCode): Option<AluOp> {
    if op.AddOp? then Some(Add) else if op.SubOp? then Some(Sub) else if op.X64Xor? then Some(Xor)
    else if op.OrOp? then Some(Or) else if op.AndOp? then Some(And) else if op.MulOp? then Some(Mul) else None
  }

  function RegImmAlu(op: OpCode): Option<AluOp> {
    if op.Addi? then Some(Add) else if op.X64XorImm? then Some(Xor) else if op.X64OrImm? then Some(Or)
    else if op.Andi? then Some(And) else if op.ShiftLeftImmediate? then Some(ShiftLeftOp)
    else if op.ShiftRightImmediateUnsigned? then Some(ShiftRightU)
    else if op.ShiftRightImmediateSigned? then Some(ShiftRightS) else None
  }

  function ShiftRegAlu(op: OpCode): Option<AluOp> {
    if op.ShiftLeft? then Some(ShiftLeftOp) else if op.ShiftRightUnsigned? then Some(ShiftRightU)
    else if op.ShiftRightSigned? then Some(ShiftRightS) else None
  }

  function WordAlu(op: OpCode): Option<AluOp> {
    if op.AddWord? || op.AddWordImmediate? then Some(Add) else if op.SubWord? then Some(Sub) else None
  }

  function ShiftWordAlu(op: OpCode): Option<AluOp> {
    if op.X32ShiftLeft? || op.X32ShiftLeftImm? then Some(ShiftLeftOp)
    else if op.X32ShiftRightUnsigned? || op.X32ShiftRightImmUnsigned? then Some(ShiftRightU)
    else if op.X32ShiftRightSigned? || op.X32ShiftRightImmSigned? then Some(ShiftRightS) else None
  }

  function SetIfPredicate(op: OpCode): Option<Predicate> {
    if op.SetLessThanSigned? || op.SetLessThanImmediateSigned? then Some(LessSigned)
    else if op.SetLessThanUnsigned? || op.SetLessThanImmediateUnsigned? then Some(LessUnsigned) else None
  }

  lemma AluBodies(i: Instruction)
    ensures RegRegAlu(i.opcode).Some? ==> ComputeBody(i) == RegReg(RegRegAlu(i.opcode).value, i)
    ensures RegImmAlu(i.opcode).Some? ==> ComputeBody(i) == RegImm(RegImmAlu(i.opcode).value, i)
    ensures ShiftRegAlu(i.opcode).Some? ==> ComputeBody(i) == ShiftReg(ShiftRegAlu(i.opcode).value, i)
  {
    hide RegReg, MulHighBody, RegImm, ShiftReg, SetIf, WordOf, ShiftWord, AddToPc, Assign, NegBody, MulWord, Done;
  }

  lemma WordBodies(i: Instruction)
    ensures WordAlu(i.opcode).Some? ==> ComputeBody(i) == WordOf(SecondOp(i), WordAlu(i.opcode).value, i)
    ensures ShiftWordAlu(i.opcode).Some? ==> ComputeBody(i) == ShiftWord(SecondOp(i), ShiftWordAlu(i.opcode).value, i)
    ensures SetIfPredicate(i.opcode).Some? ==> ComputeBody(i) == SetIf(SetIfPredicate(i.opcode).value, SecondOp(i), i)
  {
    hide RegReg, MulHighBody, RegImm, ShiftReg, SetIf, WordOf, ShiftWord, AddToPc, Assign, NegBody, MulWord, Done;
  }

  lemma OtherBodies(i: Instruction)
    ensures i.opcode.X32Mul? ==> ComputeBody(i) == MulWord(i)
    ensures i.opcode.AddImmediateToPC? ==> ComputeBody(i) == AddToPc(i)
    ensures i.opcode.Li? ==> ComputeBody(i) == Assign(Imm(W64, i.imm), i)
    ensures i.opcode.Mv? ==> ComputeBody(i) == Assign(XRegRead(i.rs2), i)
    ensures i.opcode.Neg? ==> ComputeBody(i) == NegBody(i)
  {
    hide RegReg, MulHighBody, RegImm, ShiftReg, SetIf, WordOf, ShiftWord, AddToPc, Assign, NegBody, MulWord, Done;
  }

  /** The remaining opcodes compute nothing. */
  predicate ComputesNothing(op: OpCode) {
    || op.Nop? || op.ECallOp? || op.Unknown? || IsMemory(op) || IsBranch(op) || IsJump(op) || IsSpecial(op)
  }

  lemma NopBody(i: Instruction)
    requires i.opcode.Nop?
    ensures ComputeBody(i) == Done(0)
  {
  }

  /** The groups are all the opcodes there are. */
  lemma AllGrouped(op: OpCode)
    ensures || RegRegAlu(op).Some? || RegImmAlu(op).Some? || ShiftRegAlu(op).Some?
            || WordAlu(op).Some? || ShiftWordAlu(op).Some? || SetIfPredicate(op).Some? || IsMulHigh(op)
            || op.X32Mul? || op.AddImmediateToPC? || op.Li? || op.Mv? || op.Neg? || ComputesNothing(op)
  {
  }

  // ----- computing instructions mean their value -----

  lemma RegRegValues(i: Instruction, core: Core)
    requires RegRegAlu(i.opcode).Some?
    ensures Value(i, core) == AluValue(W64, RegRegAlu(i.opcode).value, core.XRead(i.rs1), SecondOperand(i, core))
  {
    hide SecondOperand, Bitwise;
    hide Words.ShiftLeft, Words.ShiftRightUnsigned, Words.ShiftRightSigned;
  }

  lemma RegImmValues(i: Instruction, core: Core)
    requires RegImmAlu(i.opcode).Some?
    ensures Value(i, core) == AluValue(W64, RegImmAlu(i.opcode).value, core.XRead(i.rs1), SecondOperand(i, core))
  {
    hide SecondOperand, Bitwise, Pow2, U64;
    match i.opcode
    case Addi =>
    case X64XorImm =>
    case X64OrImm =>
    case Andi =>
    case ShiftLeftImmediate =>
    case ShiftRightImmediateUnsigned =>
    case ShiftRightImmediateSigned =>
  }

  lemma ShiftValues(i: Instruction, core: Core)
    requires ShiftRegAlu(i.opcode).Some?
    ensures Value(i, core) == AluValue(W64, ShiftRegAlu(i.opcode).value, core.XRead(i.rs1), SecondOperand(i, core) % 64)
  {
    hide SecondOperand, Bitwise, U64, S64, S32, TruncDiv, TruncRem, Pow2;
    ShiftModulo(core.XRead(i.rs1), SecondOperand(i, core));
    hide Words.ShiftLeft, Words.ShiftRightUnsigned, Words.ShiftRightSigned;
  }

  lemma WordValues(i: Instruction, core: Core)
    requires WordAlu(i.opcode).Some?
    ensures var v := AluValue(W64, WordAlu(i.opcode).value, core.XRead(i.rs1), SecondOperand(i, core));
            v.Some? && Value(i, core) == Some(Extended(v.value))
  {
    hide SecondOperand, Extended;
  }

  lemma ShiftWordValues(i: Instruction, core: Core)
    requires ShiftWordAlu(i.opcode).Some?
    ensures var v := AluValue(W32, ShiftWordAlu(i.opcode).value, U32(core.XRead(i.rs1)), SecondOperand(i, core) % 32);
            v.Some? && Value(i, core) == Some(Extended(v.value))
  {
    hide SecondOperand, Pow2, Extended;
    ShiftModulo(U32(core.XRead(i.rs1)), SecondOperand(i, core));
    hide Words.ShiftLeft, Words.ShiftRightUnsigned, Words.ShiftRightSigned;
  }

  /** Only six bits of the amount matter, and five in the word forms. */
  lemma ShiftModulo(x: u64, y: u64)
    ensures Words.ShiftLeft(W32, x, y % 32) == Words.ShiftLeft(W32, x, y)
    ensures Words.ShiftRightUnsigned(W32, x, y % 32) == Words.ShiftRightUnsigned(W32, x, y)
    ensures Words.ShiftRightSigned(W32, x, y % 32) == Words.ShiftRightSigned(W32, x, y)
    ensures Words.ShiftLeft(W64, x, y % 64) == Words.ShiftLeft(W64, x, y)
    ensures Words.ShiftRightUnsigned(W64, x, y % 64) == Words.ShiftRightUnsigned(W64, x, y)
    ensures Words.ShiftRightSigned(W64, x, y % 64) == Words.ShiftRightSigned(W64, x, y)
  {
    assert ShiftAmount(W32, y % 32) == ShiftAmount(W32, y) && ShiftAmount(W64, y % 64) == ShiftAmount(W64, y);
    hide ShiftAmount, Pow2, Wrap, Unsigned, Signed;
  }

  lemma SetIfValues(i: Instruction, core: Core)
    requires SetIfPredicate(i.opcode).Some?
    ensures var holds := Holds(W64, SetIfPredicate(i.opcode).value, core.XRead(i.rs1), SecondOperand(i, core));
            Value(i, core) == Some(FromBool(holds))
  {
    hide SecondOperand;
  }

  lemma AluMeans(i: Instruction, core: Core)
    requires RegRegAlu(i.opcode).Some? || RegImmAlu(i.opcode).Some? || ShiftRegAlu(i.opcode).Some?
    ensures RunBody(ComputeBody(i), [], core, 0) == Yielded([], Computed(i, core))
  {
    hide RunBody, ComputeBody, RegReg, RegImm, ShiftReg, Value, AluValue, KeepsReservation, DivisionFree, ReadsPc,
      Scoped;
    AluBodies(i);
    AluNeverPanics(i, core);
    if RegRegAlu(i.opcode).Some? {
      RegRegValues(i, core);
      RegRegRuns(RegRegAlu(i.opcode).value, i, core, Value(i, core).value);
    } else if RegImmAlu(i.opcode).Some? {
      RegImmValues(i, core);
      RegImmRuns(RegImmAlu(i.opcode).value, i, core, Value(i, core).value);
    } else {
      ShiftValues(i, core);
      ShiftRegRuns(ShiftRegAlu(i.opcode).value, i, core, Value(i, core).value);
    }
  }

  lemma AluNeverPanics(i: Instruction, core: Core)
    ensures RegRegAlu(i.opcode).Some? || RegImmAlu(i.opcode).Some? || ShiftRegAlu(i.opcode).Some?
            ==> Value(i, core).Some?
  {
    hide SecondOperand, Pow2;
  }

  lemma WordMeans(i: Instruction, core: Core)
    requires WordAlu(i.opcode).Some? || ShiftWordAlu(i.opcode).Some? || SetIfPredicate(i.opcode).Some?
    ensures RunBody(ComputeBody(i), [], core, 0) == Yielded([], Computed(i, core))
  {
    hide RunBody, ComputeBody, WordOf, ShiftWord, SetIf, SecondOp, SecondOperand, Extended, Value, AluValue, Holds,
      KeepsReservation, DivisionFree, ReadsPc, Scoped;
    WordBodies(i);
    var x, y := core.XRead(i.rs1), SecondOperand(i, core);
    if WordAlu(i.opcode).Some? {
      WordValues(i, core);
      WordOfRuns(WordAlu(i.opcode).value, i, core, AluValue(W64, WordAlu(i.opcode).value, x, y).value);
    } else if ShiftWordAlu(i.opcode).Some? {
      ShiftWordValues(i, core);
      ShiftWordRuns(ShiftWordAlu(i.opcode).value, i, core,
                    AluValue(W32, ShiftWordAlu(i.opcode).value, U32(x), y % 32).value);
    } else {
      SetIfValues(i, core);
      SetIfRuns(SetIfPredicate(i.opcode).value, i, core);
    }
  }

  lemma MulHighValues(i: Instruction, core: Core)
    requires IsMulHigh(i.opcode)
    ensures Value(i, core) == Some(MulHighValue(MulHighOf(i.opcode), core.XRead(i.rs1), core.XRead(i.rs2)))
  {
    hide MulHighValue;
    HighIsFloor(MulHighOf(i.opcode), core.XRead(i.rs1), core.XRead(i.rs2));
  }

  lemma MulHighMeans(i: Instruction, core: Core)
    requires IsMulHigh(i.opcode)
    ensures RunBody(ComputeBody(i), [], core, 0) == Yielded([], Computed(i, core))
  {
    hide RunBody, ComputeBody, MulHighValue, ThreeRegister, Value, KeepsReservation, DivisionFree, ReadsPc, Scoped;
    var t, x, y := MulHighOf(i.opcode), core.XRead(i.rs1), core.XRead(i.rs2);
    MulCompute(i);
    ThreeRegisterRuns(i, MulHigh(t, 0, 1), core, MulHighValue(t, x, y));
    MulHighValues(i, core);
  }

  /** The values of the opcodes with a body of their own. */
  lemma OtherValues(i: Instruction, core: Core)
    ensures var x, y := core.XRead(i.rs1), core.XRead(i.rs2);
            && (i.opcode.X32Mul? ==> Value(i, core) == Some(Extended(U64(x * y))))
            && (i.opcode.AddImmediateToPC? ==> Value(i, core) == Some(Plus(core.pc, U64(i.imm))))
            && (i.opcode.Li? ==> Value(i, core) == Some(U64(i.imm)))
            && (i.opcode.Mv? ==> Value(i, core) == Some(y))
            && (i.opcode.Neg? ==> Value(i, core) == Some(U64(0 - y)))
            && (i.opcode.Nop? ==> Value(i, core) == None)
  {
    hide Extended;
  }

  lemma OtherMeans(i: Instruction, core: Core)
    requires i.opcode.X32Mul? || i.opcode.AddImmediateToPC? || i.opcode.Li? || i.opcode.Mv? || i.opcode.Neg?
             || i.opcode.Nop?
    ensures RunBody(ComputeBody(i), [], core, 0) == Yielded([], Computed(i, core))
  {
    hide ComputeBody, RunBody, MulWord, AddToPc, Assign, NegBody, Extended, Value, Plus, KeepsReservation, DivisionFree,
      ReadsPc, Scoped;
    OtherBodies(i);
    OtherValues(i, core);
    if i.opcode.X32Mul? {
      MulWordRuns(i, core);
    } else if i.opcode.AddImmediateToPC? {
      AddToPcRuns(i, core);
    } else if i.opcode.Li? {
      AssignRuns(Imm(W64, i.imm), i, core, U64(i.imm));
    } else if i.opcode.Mv? {
      AssignRuns(XRegRead(i.rs2), i, core, core.XRead(i.rs2));
    } else if i.opcode.Neg? {
      NegRuns(i, core);
    } else {
      NopBody(i);
      DoneRuns(core);
    }
  }

  lemma DoneRuns(core: Core)
    ensures RunBody(Done(0), [], core, 0) == Yielded([], core)
  {
    assert Pick([], []) == [];
  }

  lemma ComputeMeans(i: Instruction, core: Core)
    requires !ComputesNothing(i.opcode) || i.opcode.Nop?
    ensures RunBody(ComputeBody(i), [], core, 0) == Yielded([], Computed(i, core))
  {
    hide RunBody, ComputeBody, Computed, KeepsReservation, DivisionFree, ReadsPc, Scoped;
    var op := i.opcode;
    AllGrouped(op);
    if RegRegAlu(op).Some? || RegImmAlu(op).Some? || ShiftRegAlu(op).Some? { AluMeans(i, core); }
    else if WordAlu(op).Some? || ShiftWordAlu(op).Some? || SetIfPredicate(op).Some? { WordMeans(i, core); }
    else if IsMulHigh(op) { MulHighMeans(i, core); }
    else { OtherMeans(i, core); }
  }

  // ----- memory -----

  /** The address of a load or store goes to variable 2. */
  lemma AddressRuns(i: Instruction, k: Body, core: Core)
    requires Scoped(k, 3, 0)
    ensures var x, y := core.XRead(i.rs1), U64(i.imm);
            RunBody(Do(0, 0, XRegRead(i.rs1), Do(1, 0, Imm(W64, i.imm), Do(2, 0, Alu(W64, Add, 0, 1), k))), [], core, 0)
            == RunBody(k, [x, y, Plus(x, i.imm)], core, 0)
  {
    hide RunBody, KeepsReservation, DivisionFree, ReadsPc, Scoped;
    var x, y := core.XRead(i.rs1), U64(i.imm);
    PlusImm(x, i.imm);
    TwoRuns(XRegRead(i.rs1), Imm(W64, i.imm), Do(2, 0, Alu(W64, Add, 0, 1), k), core, x, y);
    RunDo(2, 0, Alu(W64, Add, 0, 1), k, [x, y], core, Plus(x, y));
    assert [x, y] + [Plus(x, y)] == [x, y, Plus(x, y)];
  }

  lemma LoadRuns(size: Size, signed: bool, i: Instruction, core: Core)
    ensures RunBody(LoadBody(size, signed, i), [], core, 0)
            == Loaded(size, signed, i.rd, Plus(core.XRead(i.rs1), i.imm), core)
  {
    hide Read, Extend, RunBody, KeepsReservation, DivisionFree, ReadsPc, Scoped;
    var x, y, load := core.XRead(i.rs1), U64(i.imm), Load(size, signed, 2);
    var addr := Plus(x, i.imm);
    var k := Do(4, 0, XRegWrite(i.rd, 3), Done(4));
    AddressRuns(i, Do(3, 0, load, k), core);
    if Read(core.mem, addr, size).Some? {
      ThenWrites(load, i.rd, [x, y, addr], core, Extend(size, signed, Read(core.mem, addr, size).value));
    } else {
      RunRaises(3, load, k, [x, y, addr], core, LoadAccessFault(addr), core);
    }
  }

  lemma StoreRuns(size: Size, i: Instruction, core: Core)
    ensures RunBody(StoreBody(size, i), [], core, 0)
            == Stored(size, Plus(core.XRead(i.rs1), i.imm), core.XRead(i.rs2), core)
  {
    hide Write, Truncate, RunBody, KeepsReservation, DivisionFree, ReadsPc, Scoped;
    var x, y, v := core.XRead(i.rs1), U64(i.imm), core.XRead(i.rs2);
    var env := [x, y, Plus(x, i.imm)];
    var k := Do(4, 0, Store(size, 2, 3), Done(4));
    AddressRuns(i, Do(3, 0, XRegRead(i.rs2), k), core);
    ReadRuns(3, i.rs2, k, env, core);
    LastStoreRuns(size, 2, 3, env + [v], core);
  }

  /** A body that ends with a store. */
  lemma LastStoreRuns(size: Size, a: Var, v: Var, env: seq<u64>, core: Core)
    requires a < |env| && v < |env|
    ensures RunBody(Do(|env|, 0, Store(size, a, v), Done(|env|)), env, core, 0) == Stored(size, env[a], env[v], core)
  {
    hide Write, Truncate;
    assert env + [] == env && Pick(env, []) == [];
  }

  lemma SwapUpdateRuns(size: Size, i: Instruction, addr: u64, v: u64, core: Core)
    ensures RunBody(SwapUpdate(size, i), [addr] + [v], core, 0)
            == Stored(size, addr, core.XRead(i.rs2), core.XWrite(i.rd, v))
  {
    hide RunBody, Write, Truncate, KeepsReservation, DivisionFree, ReadsPc, Scoped;
    var y, env := core.XRead(i.rs2), [addr] + [v];
    var k2 := Do(3, 0, Store(size, 0, 2), Done(3));
    ReadRuns(2, i.rs2, Do(3, 0, XRegWrite(i.rd, 1), k2), env, core);
    RunDoWith(3, XRegWrite(i.rd, 1), k2, env + [y], core, [], core.XWrite(i.rd, v));
    assert env + [y] + [] == env + [y];
    LastStoreRuns(size, 0, 2, env + [y], core.XWrite(i.rd, v));
  }

  lemma AmoUpdateRuns(f: AluOp, i: Instruction, addr: u64, v: u64, core: Core, w: u64)
    requires !OpDivides(Alu(W64, f, 0, 1)) && AluValue(W64, f, v, core.XRead(i.rs2)) == Some(w)
    ensures RunBody(AmoOperand(f, i), [addr] + [v], core, 0) == Stored(Double, addr, w, core.XWrite(i.rd, v))
  {
    hide RunBody, Write, Truncate, AluValue, KeepsReservation, DivisionFree, ReadsPc, Scoped;
    var y, env := core.XRead(i.rs2), [addr] + [v];
    var k3 := Do(4, 0, Store(Double, 0, 3), Done(4));
    var k2 := Do(4, 0, XRegWrite(i.rd, 1), k3);
    ReadRuns(2, i.rs2, AmoUpdate(f, i), env, core);
    RunDo(3, 0, Alu(W64, f, 1, 2), k2, env + [y], core, w);
    RunDoWith(4, XRegWrite(i.rd, 1), k3, env + [y] + [w], core, [], core.XWrite(i.rd, v));
    assert env + [y] + [w] + [] == env + [y] + [w];
    LastStoreRuns(Double, 0, 3, env + [y] + [w], core.XWrite(i.rd, v));
  }

  /** An aligned load into variable 1, as atomic updates begin. */
  lemma AtomicLoadRuns(size: Size, signed: bool, i: Instruction, k: Body, core: Core, raw: u64, env: seq<u64>)
    requires Scoped(k, 2, 0) && core.XRead(i.rs1) % Bytes(size) == 0
             && Read(core.mem, core.XRead(i.rs1), size) == Some(raw)
    requires |env| == 2 && env[0] == core.XRead(i.rs1) && env[1] == Extend(size, signed, raw)
    ensures RunBody(AtomicLoad(size, signed, i, k), [], core, 0) == RunBody(k, env, core, 0)
  {
    hide Read, Extend, RunBody, KeepsReservation, DivisionFree, ReadsPc, Scoped;
    AtAlignedRuns(size, false, i, Do(1, 0, Load(size, signed, 0), k), core);
    RunDo(1, 0, Load(size, signed, 0), k, [env[0]], core, env[1]);
    assert [env[0]] + [env[1]] == env;
  }

  lemma AtomicLoadFails(size: Size, signed: bool, i: Instruction, k: Body, core: Core)
    requires Scoped(k, 2, 0)
    requires core.XRead(i.rs1) % Bytes(size) != 0 || Read(core.mem, core.XRead(i.rs1), size) == None
    ensures var addr := core.XRead(i.rs1);
            RunBody(AtomicLoad(size, signed, i, k), [], core, 0)
            == Raised(if addr % Bytes(size) != 0 then StoreAMOAccessFault(addr) else LoadAccessFault(addr), core)
  {
    hide Read, Extend;
    AtAlignedRuns(size, false, i, Do(1, 0, Load(size, signed, 0), k), core);
  }

  function AmoAlu(op: OpCode): Option<AluOp> {
    if op.X64AtomicAdd? then Some(Add) else if op.X64AtomicMinSigned? then Some(MinSignedOp)
    else if op.Amoxord? then Some(Xor) else if op.Amoandd? then Some(And) else if op.Amoord? then Some(Or) else None
  }

  lemma MemoryBodies(i: Instruction)
    requires IsMemory(i.opcode)
    ensures IsLoad(i.opcode) ==> MemoryBody(i) == LoadBody(AccessSize(i.opcode), LoadsSigned(i.opcode), i)
    ensures IsStore(i.opcode) ==> MemoryBody(i) == StoreBody(AccessSize(i.opcode), i)
    ensures IsSwap(i.opcode) ==> MemoryBody(i) == Swap(AccessSize(i.opcode), i)
    ensures AmoAlu(i.opcode).Some? ==> MemoryBody(i) == Amo(AmoAlu(i.opcode).value, i)
    ensures IsLoad(i.opcode) || IsStore(i.opcode) || IsSwap(i.opcode) || AmoAlu(i.opcode).Some?
  {
    hide LoadBody, StoreBody, Swap, Amo;
  }

  lemma AmoValues(op: OpCode, x: u64, y: u64)
    requires AmoAlu(op).Some?
    ensures AluValue(W64, AmoAlu(op).value, x, y) == Some(Updated(op, x, y))
  {
    hide Bitwise, Pow2, TruncDiv, TruncRem;
    if op.X64AtomicAdd? {
    } else if op.X64AtomicMinSigned? {
    } else if op.Amoxord? {
    } else if op.Amoandd? {
    }
  }

  lemma ExchangeMeans(i: Instruction, core: Core)
    requires IsSwap(i.opcode) || AmoAlu(i.opcode).Some?
    ensures RunBody(MemoryBody(i), [], core, 0) == Exchanged(i, core)
  {
    hide RunBody, MemoryBody, Read, Extend, Write, Truncate, AluValue, Updated, SwapUpdate, AmoOperand, AtomicLoad,
      KeepsReservation, DivisionFree, ReadsPc, Scoped;
    MemoryBodies(i);
    var addr, y, size := core.XRead(i.rs1), core.XRead(i.rs2), AccessSize(i.opcode);
    var k := if IsSwap(i.opcode) then SwapUpdate(size, i) else AmoOperand(AmoAlu(i.opcode).value, i);
    if addr % Bytes(size) != 0 || Read(core.mem, addr, size) == None {
      AtomicLoadFails(size, IsSwap(i.opcode), i, k, core);
    } else {
      var v := Extend(size, IsSwap(i.opcode), Read(core.mem, addr, size).value);
      AtomicLoadRuns(size, IsSwap(i.opcode), i, k, core, Read(core.mem, addr, size).value, [addr] + [v]);
      if IsSwap(i.opcode) {
        SwapUpdateRuns(size, i, addr, v, core);
      } else {
        AmoValues(i.opcode, v, y);
        AmoUpdateRuns(AmoAlu(i.opcode).value, i, addr, v, core, Updated(i.opcode, v, y));
      }
    }
  }

  lemma MemoryMeans(i: Instruction, core: Core)
    requires IsMemory(i.opcode)
    ensures RunBody(MemoryBody(i), [], core, 0) == Accessed(i, core)
  {
    hide RunBody, MemoryBody, Loaded, Stored, Exchanged, LoadBody, StoreBody, Swap, Amo, KeepsReservation, DivisionFree,
      ReadsPc, Scoped;
    MemoryBodies(i);
    if IsLoad(i.opcode) {
      LoadRuns(AccessSize(i.opcode), LoadsSigned(i.opcode), i, core);
    } else if IsStore(i.opcode) {
      StoreRuns(AccessSize(i.opcode), i, core);
    } else {
      ExchangeMeans(i, core);
    }
  }

  // ----- branches -----

  function BranchPredicate(op: OpCode): Predicate
    requires IsBranch(op)
  {
    if op.BranchEqual? || op.BranchEqualZero? then Equal
    else if op.BranchNotEqual? || op.BranchNotEqualZero? then NotEqual
    else if op.BranchLessThanSigned? || op.BranchLessThanZero? then LessSigned
    else if op.BranchLessThanUnsigned? then LessUnsigned
    else if op.BranchGreaterThanOrEqualUnsigned? then GreaterEqualUnsigned
    else if op.BranchLessThanOrEqualZero? then LessEqualSigned
    else if op.BranchGreaterThanZero? then GreaterSigned
    else GreaterEqualSigned
  }

  predicate ComparesZero(op: OpCode) {
    || op.BranchEqualZero? || op.BranchNotEqualZero? || op.BranchLessThanZero? || op.BranchGreaterThanOrEqualZero?
    || op.BranchLessThanOrEqualZero? || op.BranchGreaterThanZero?
  }

  function Compared(i: Instruction): (o: Op)
    ensures o.XRegRead? || o.Imm?
  {
    if ComparesZero(i.opcode) then Imm(W64, 0) else XRegRead(i.rs2)
  }

  lemma BranchBodies(i: Instruction)
    requires IsBranch(i.opcode)
    ensures BranchBody(i) == CompareBody(BranchPredicate(i.opcode), Compared(i), i)
  {
    hide CompareBody;
  }

  lemma TakenIs(i: Instruction, core: Core)
    requires IsBranch(i.opcode)
    ensures var y := if ComparesZero(i.opcode) then 0 else core.XRead(i.rs2);
            Taken(i, core) == Holds(W64, BranchPredicate(i.opcode), core.XRead(i.rs1), y)
  {
  }

  lemma CompareRuns(p: Predicate, o: Op, i: Instruction, core: Core, y: u64)
    requires (o.XRegRead? || o.Imm?) && RunOp(o, [core.XRead(i.rs1)], core) == Yielded([y], core)
    ensures RunBody(CompareBody(p, o, i), [], core, 1) == Yielded([FromBool(Holds(W64, p, core.XRead(i.rs1), y))], core)
  {
    hide RunBody, Holds, KeepsReservation, DivisionFree, ReadsPc, Scoped;
    var x := core.XRead(i.rs1);
    var b := FromBool(Holds(W64, p, x, y));
    var k2 := Do(2, 1, Compare(W64, p, 0, 1), Result(3, 2));
    RunDo(0, 1, XRegRead(i.rs1), Do(1, 1, o, k2), [], core, x);
    assert [] + [x] == [x] && [x] + [y] == [x, y];
    RunDo(1, 1, o, k2, [x], core, y);
    RunDo(2, 1, Compare(W64, p, 0, 1), Result(3, 2), [x, y], core, b);
    RunResult1(2, [x, y] + [b], core);
  }

  lemma BranchMeans(i: Instruction, core: Core)
    requires IsBranch(i.opcode)
    ensures RunBody(BranchBody(i), [], core, 1) == Yielded([FromBool(Taken(i, core))], core)
  {
    hide RunBody, BranchBody, CompareBody, Holds, BranchPredicate, Taken, KeepsReservation, DivisionFree, ReadsPc,
      Scoped;
    BranchBodies(i);
    TakenIs(i, core);
    var y := if ComparesZero(i.opcode) then 0 else core.XRead(i.rs2);
    CompareRuns(BranchPredicate(i.opcode), Compared(i), i, core, y);
  }

  // ----- all instructions -----

  /** Running an instruction, from the result of its body. */
  lemma FromBody(i: Instruction, core: Core, b: BodyResult)
    requires RunBody(RoutineOf(i).body, [], core, TailOuts(RoutineOf(i).tail)) == b
    ensures !b.Panicked? && (b.Yielded? ==> |b.vals| == TailOuts(RoutineOf(i).tail))
    ensures RunInstr(i, core) ==
            match RoutineOf(i).tail
            case SetPc => if b.Raised? then Ran(Err(b.exception), b.core) else Ran(Ok(Set(b.vals[0])), b.core)
            case BranchIf(offset, w) =>
              if b.Raised? then Ran(Err(b.exception), b.core)
              else Ran(Ok(if b.vals[0] != 0 then Set(U64(b.core.pc + offset)) else Next(w)), b.core)
            case NextPc(w) => Onwards(b, w)
            case Illegal => if b.Raised? then Ran(Err(b.exception), b.core) else Ran(Err(IllegalInstruction), b.core)
            case ECall => if b.Raised? then Ran(Err(b.exception), b.core) else Ran(Err(EnvCall), b.core)
  {
    hide RoutineOf, RunBody, Scoped, KeepsReservation, DivisionFree, ReadsPc;
    NeverCrashes(i, core);
  }

  /** Which routine an opcode has. */
  lemma RoutineIs(i: Instruction)
    ensures RoutineOf(i) ==
            if IsMemory(i.opcode) then Routine(MemoryBody(i), NextPc(i.width))
            else if IsBranch(i.opcode) then Routine(BranchBody(i), BranchIf(i.imm, i.width))
            else if IsJump(i.opcode) then Routine(JumpBody(i), SetPc)
            else if IsSpecial(i.opcode) then Routine(SpecialBody(i), NextPc(i.width))
            else if i.opcode.ECallOp? then Routine(Done(0), ECall)
            else if i.opcode.Unknown? then Routine(Done(0), Illegal)
            else Routine(ComputeBody(i), NextPc(i.width))
  {
    hide MemoryBody, BranchBody, JumpBody, SpecialBody, ComputeBody, Done;
  }

  /** Divisions and reservations mean what was said of them. */
  lemma SpecialMeans(i: Instruction, core: Core)
    requires IsSpecial(i.opcode)
    ensures RunInstr(i, core) == Means(i, core)
  {
    hide RunInstr, DivisionResult, LoadReservedOutcome, StoreConditionalOutcome;
    if IsDivision(i.opcode) {
      DivisionInstr(i, core);
    } else if IsLoadReserved(i.opcode) {
      LoadReservedStep(Event(i, core));
    } else {
      StoreConditionalStep(Event(i, core));
    }
  }

  /** Every instruction does what it means. */
  lemma InstrMeans(i: Instruction, core: Core)
    ensures RunInstr(i, core) == Means(i, core)
  {
    hide RunInstr, RunBody, RoutineOf, MemoryBody, BranchBody, JumpBody, SpecialBody, ComputeBody, Done,
      KeepsReservation, DivisionFree, ReadsPc, Scoped;
    hide Accessed, Taken, JumpTarget, Jumped, Computed, DivisionResult, LoadReservedOutcome, StoreConditionalOutcome;
    RoutineIs(i);
    if IsMemory(i.opcode) {
      MemoryMeans(i, core);
      FromBody(i, core, Accessed(i, core));
    } else if IsBranch(i.opcode) {
      BranchMeans(i, core);
      FromBody(i, core, Yielded([FromBool(Taken(i, core))], core));
    } else if IsJump(i.opcode) {
      JumpRuns(i, core);
      FromBody(i, core, Yielded([JumpTarget(i, core)], Jumped(i, core)));
    } else if IsSpecial(i.opcode) {
      SpecialMeans(i, core);
    } else if i.opcode.ECallOp? || i.opcode.Unknown? {
      DoneRuns(core);
      FromBody(i, core, Yielded([], core));
    } else {
      ComputeMeans(i, core);
      FromBody(i, core, Yielded([], Computed(i, core)));
    }
  }
}
