/**
 The instructions: opcodes with flat arguments, and the routine in the instruction context
 that each opcode stands for. Opcodes that cannot be lowered are interpreted all the same.
 */
module Instructions {
  import opened Words
  import opened Memory
  import opened Machine
  import opened Icb

  datatype OpCode =
    | Unknown | ECallOp
    // register-register
    | AddOp | SubOp | X64Xor | OrOp | AndOp | ShiftLeft | ShiftRightUnsigned | ShiftRightSigned
    | SetLessThanSigned | SetLessThanUnsigned | AddWord | SubWord
    | X32ShiftLeft | X32ShiftRightSigned | X32ShiftRightUnsigned
    // register-immediate
    | Addi | AddWordImmediate | X64XorImm | X64OrImm | Andi
    | ShiftLeftImmediate | ShiftRightImmediateUnsigned | ShiftRightImmediateSigned
    | X32ShiftLeftImm | X32ShiftRightImmSigned | X32ShiftRightImmUnsigned
    | SetLessThanImmediateSigned | SetLessThanImmediateUnsigned
    // memory
    | X8LoadSigned | X16LoadSigned | X32LoadSigned | X8LoadUnsigned | X16LoadUnsigned | X32LoadUnsigned | X64LoadSigned
    | X8Store | X16Store | X32Store | X64Store
    // branches and jumps
    | BranchEqual | BranchNotEqual | BranchLessThanSigned | BranchGreaterThanOrEqualSigned
    | BranchLessThanUnsigned | BranchGreaterThanOrEqualUnsigned
    | BranchEqualZero | BranchNotEqualZero | BranchLessThanZero | BranchGreaterThanOrEqualZero
    | BranchLessThanOrEqualZero | BranchGreaterThanZero
    | AddImmediateToPC | J | JAbsolute | Jr | JrImm | Jal | Jalr | JalrImm | JalrAbsolute
    | Li | Mv | Neg | Nop
    // multiplication and division
    | MulOp | X32Mul | X64MulHighSigned | X64MulHighSignedUnsigned | X64MulHighUnsigned
    | X64DivSigned | X64DivUnsigned | X32DivSigned | X32DivUnsigned
    | X64RemSigned | X64RemUnsigned | X32RemSigned | X32RemUnsigned
    // atomics
    | X32AtomicLoad | X32AtomicStore | X32AtomicSwap
    | X64AtomicLoad | X64AtomicStore | X64AtomicSwap | X64AtomicAdd | X64AtomicMinSigned
    | Amoxord | Amoandd | Amoord

  datatype Instruction = Instruction(opcode: OpCode, rd: Reg, rs1: Reg, rs2: Reg, imm: int, width: InstrWidth)

  /** Opcodes that the builder knows how to lower. */
  predicate Lowerable(op: OpCode) { !op.Amoxord? && !op.Amoandd? && !op.Amoord? }

  // ----- what bodies can and cannot do -----

  /** Operations that leave the reservation alone. */
  predicate OpKeepsReservation(o: Op) { !o.ReservationWrite? && !(o.AtomicGuard? && o.reset) }

  predicate KeepsReservation(c: Body) {
    match c
    case Let(o, k) => OpKeepsReservation(o) && KeepsReservation(k)
    case Merge(_, t, f, _, k) => KeepsReservation(t) && KeepsReservation(f) && KeepsReservation(k)
    case Yield(_) => true
  }

  predicate OpDivides(o: Op) {
    o.Alu? && (o.f.DivUnsigned? || o.f.DivSigned? || o.f.RemUnsigned? || o.f.RemSigned?)
  }

  predicate DivisionFree(c: Body) {
    match c
    case Let(o, k) => !OpDivides(o) && DivisionFree(k)
    case Merge(_, t, f, _, k) => DivisionFree(t) && DivisionFree(f) && DivisionFree(k)
    case Yield(_) => true
  }

  // ----- well-scoped construction of bodies -----

  /** An operation followed by the rest of the body; `n` variables are in scope. */
  function Do(n: nat, outs: nat, o: Op, k: Body): (c: Body)
    requires OpScoped(o, n) && Scoped(k, n + Binds(o), outs)
    ensures Scoped(c, n, outs)
    ensures KeepsReservation(c) == (OpKeepsReservation(o) && KeepsReservation(k))
    ensures DivisionFree(c) == (!OpDivides(o) && DivisionFree(k))
    ensures ReadsPc(c) == (o.PcRead? || ReadsPc(k))
  {
    Let(o, k)
  }

  function Choose(n: nat, outs: nat, cond: Var, t: Body, f: Body, phis: nat, k: Body): (c: Body)
    requires cond < n && Scoped(t, n, phis) && Scoped(f, n, phis) && !ReadsPc(f) && Scoped(k, n + phis, outs)
    ensures Scoped(c, n, outs)
    ensures KeepsReservation(c) == (KeepsReservation(t) && KeepsReservation(f) && KeepsReservation(k))
    ensures DivisionFree(c) == (DivisionFree(t) && DivisionFree(f) && DivisionFree(k))
    ensures ReadsPc(c) == (ReadsPc(t) || ReadsPc(f) || ReadsPc(k))
  {
    Merge(cond, t, f, phis, k)
  }

  function Done(n: nat): (c: Body)
    ensures Scoped(c, n, 0) && KeepsReservation(c) && DivisionFree(c) && !ReadsPc(c)
  {
    Yield([])
  }

  function Result(n: nat, v: Var): (c: Body)
    requires v < n
    ensures Scoped(c, n, 1) && KeepsReservation(c) && DivisionFree(c) && !ReadsPc(c)
  {
    Yield([v])
  }

  /** Sign-extend a 32-bit value and write it to `rd`. */
  function WriteExtended(n: nat, v: Var, rd: Reg): (c: Body)
    requires v < n
    ensures Scoped(c, n, 0) && KeepsReservation(c) && DivisionFree(c) && !ReadsPc(c)
  {
    Do(n, 0, ExtendSigned(v), Do(n + 1, 0, XRegWrite(rd, n), Done(n + 1)))
  }

  // ----- integer instructions -----

  /** A body that yields nothing and neither divides nor touches the reservation. */
  ghost predicate Plain(c: Body) { Scoped(c, 0, 0) && KeepsReservation(c) && DivisionFree(c) }

  /** Read two operands into variables 0 and 1, compute, and write the result to `rd`. */
  function ThreeRegister(i: Instruction, o: Op): (c: Body)
    requires OpScoped(o, 2) && Binds(o) == 1
    ensures Scoped(c, 0, 0)
    ensures KeepsReservation(c) == OpKeepsReservation(o) && DivisionFree(c) == !OpDivides(o)
  {
    Do(0, 0, XRegRead(i.rs1), Do(1, 0, XRegRead(i.rs2), Do(2, 0, o, Do(3, 0, XRegWrite(i.rd, 2), Done(3)))))
  }

  function RegReg(f: AluOp, i: Instruction): (c: Body)
    requires !OpDivides(Alu(W64, f, 0, 1))
    ensures Plain(c)
  {
    ThreeRegister(i, Alu(W64, f, 0, 1))
  }

  function RegImm(f: AluOp, i: Instruction): (c: Body)
    requires !OpDivides(Alu(W64, f, 0, 1))
    ensures Plain(c)
  {
    Do(0, 0, XRegRead(i.rs1),
       Do(1, 0, Imm(W64, i.imm), Do(2, 0, Alu(W64, f, 0, 1), Do(3, 0, XRegWrite(i.rd, 2), Done(3)))))
  }

  /** Sum or difference of which only the low 32 bits are kept, sign-extended. */
  function WordOf(second: Op, f: AluOp, i: Instruction): (c: Body)
    requires !OpDivides(Alu(W64, f, 0, 1)) && (second.XRegRead? || second.Imm?)
    ensures Plain(c)
  {
    Do(0, 0, XRegRead(i.rs1), Do(1, 0, second, Do(2, 0, Alu(W64, f, 0, 1),
      Do(3, 0, Narrow(2), WriteExtended(4, 3, i.rd)))))
  }

  /** Shift the first operand by variable 2. */
  function ShiftBy(f: AluOp, i: Instruction): (c: Body)
    requires !OpDivides(Alu(W64, f, 0, 1))
    ensures Scoped(c, 3, 0) && KeepsReservation(c) && DivisionFree(c)
  {
    Do(3, 0, XRegRead(i.rs1), Do(4, 0, Alu(W64, f, 3, 2), Do(5, 0, XRegWrite(i.rd, 4), Done(5))))
  }

  /** Shift by the low six bits of a register. */
  function ShiftReg(f: AluOp, i: Instruction): (c: Body)
    requires !OpDivides(Alu(W64, f, 0, 1))
    ensures Plain(c)
  {
    Do(0, 0, Imm(W64, 0x3F), Do(1, 0, XRegRead(i.rs2), Do(2, 0, Alu(W64, And, 1, 0), ShiftBy(f, i))))
  }

  /** Shift the low half of variable 0 by variable 3. */
  function ShiftNarrowed(f: AluOp, i: Instruction): (c: Body)
    requires !OpDivides(Alu(W32, f, 0, 1))
    ensures Scoped(c, 4, 0) && KeepsReservation(c) && DivisionFree(c)
  {
    Do(4, 0, Narrow(3), Do(5, 0, Narrow(0), Do(6, 0, Alu(W32, f, 5, 4), WriteExtended(7, 6, i.rd))))
  }

  /** Shift the low half of variable 0 by five bits of variable 1. */
  function ShiftMasked(f: AluOp, i: Instruction): (c: Body)
    requires !OpDivides(Alu(W32, f, 0, 1))
    ensures Scoped(c, 2, 0) && KeepsReservation(c) && DivisionFree(c)
  {
    Do(2, 0, Imm(W64, 0x1F), Do(3, 0, Alu(W64, And, 1, 2), ShiftNarrowed(f, i)))
  }

  /** Shift of the low 32 bits by five bits of `amount`. */
  function ShiftWord(amount: Op, f: AluOp, i: Instruction): (c: Body)
    requires !OpDivides(Alu(W32, f, 0, 1)) && (amount.XRegRead? || amount.Imm?)
    ensures Plain(c)
  {
    Do(0, 0, XRegRead(i.rs1), Do(1, 0, amount, ShiftMasked(f, i)))
  }

  function SetIf(p: Predicate, second: Op, i: Instruction): (c: Body)
    requires second.XRegRead? || second.Imm?
    ensures Plain(c)
  {
    Do(0, 0, XRegRead(i.rs1), Do(1, 0, second, Do(2, 0, Compare(W64, p, 0, 1),
      Do(3, 0, ValueFromBool(2), Do(4, 0, XRegWrite(i.rd, 3), Done(4))))))
  }

  function MulHighBody(t: MulHighType, i: Instruction): (c: Body)
    ensures Plain(c)
  {
    ThreeRegister(i, MulHigh(t, 0, 1))
  }

  function MulWord(i: Instruction): (c: Body)
    ensures Plain(c)
  {
    Do(0, 0, XRegRead(i.rs1), Do(1, 0, Narrow(0), Do(2, 0, XRegRead(i.rs2), Do(3, 0, Narrow(2),
      Do(4, 0, Alu(W32, Mul, 1, 3), WriteExtended(5, 4, i.rd))))))
  }

  /** Write one operation's value to `rd`. */
  function Assign(o: Op, i: Instruction): (c: Body)
    requires o.XRegRead? || o.Imm?
    ensures Plain(c)
  {
    Do(0, 0, o, Do(1, 0, XRegWrite(i.rd, 0), Done(1)))
  }

  function NegBody(i: Instruction): (c: Body)
    ensures Plain(c)
  {
    Do(0, 0, XRegRead(i.rs2), Do(1, 0, Negate(W64, 0), Do(2, 0, XRegWrite(i.rd, 1), Done(2))))
  }

  function AddToPc(i: Instruction): (c: Body)
    ensures Plain(c)
  {
    Do(0, 0, PcRead, Do(1, 0, Imm(W64, i.imm), Do(2, 0, Alu(W64, Add, 0, 1), Do(3, 0, XRegWrite(i.rd, 2), Done(3)))))
  }

  // ----- division -----

  /** The four divisions and remainders. */
  datatype Division = Quotient(signed: bool) | Remainder(signed: bool)

  function DivisionOp(d: Division): AluOp {
    match d
    case Quotient(signed) => if signed then DivSigned else DivUnsigned
    case Remainder(signed) => if signed then RemSigned else RemUnsigned
  }

  /** The choice made between overflow and the machine division; variable `n - 2` is zero. */
  function OverflowChoice(d: Division, w: Width, x: Var, y: Var, n: nat): (c: Body)
    requires x < n && y < n && n > 1
    ensures Scoped(c, n + 5, 1) && KeepsReservation(c) && !ReadsPc(c)
  {
    Choose(n + 5, 1, n + 4,
      if d.Quotient? then Do(n + 5, 1, Imm(w, MinSigned(w)), Result(n + 6, n + 5)) else Result(n + 5, n - 2),
      Do(n + 5, 1, Alu(w, DivisionOp(d), x, y), Result(n + 6, n + 5)),
      1, Result(n + 6, n + 5))
  }

  /** The comparisons that recognise overflow, with the limits in variables `n` and `n + 1`. */
  function OverflowTest(d: Division, w: Width, x: Var, y: Var, n: nat): (c: Body)
    requires x < n && y < n && n > 1
    ensures Scoped(c, n + 2, 1) && KeepsReservation(c) && !ReadsPc(c)
  {
    Do(n + 2, 1, Compare(w, Equal, y, n + 1), Do(n + 3, 1, Compare(w, Equal, x, n),
      Do(n + 4, 1, BoolAnd(n + 2, n + 3), OverflowChoice(d, w, x, y, n))))
  }

  /** The arm taken for a non-zero divisor, which for signed operands also excludes overflow. */
  function NonZeroArm(d: Division, w: Width, x: Var, y: Var, n: nat): (c: Body)
    requires x < n && y < n && n > 1
    ensures Scoped(c, n, 1) && KeepsReservation(c) && !ReadsPc(c)
  {
    if d.signed then
      Do(n, 1, Imm(w, MinSigned(w)), Do(n + 1, 1, Imm(w, -1), OverflowTest(d, w, x, y, n)))
    else
      Do(n, 1, Alu(w, DivisionOp(d), x, y), Result(n + 1, n))
  }

  /** Divide `x` by `y` and go on with the result in variable `n + 2`. */
  function Divide(d: Division, w: Width, x: Var, y: Var, n: nat, k: Body): (c: Body)
    requires x < n && y < n && n > 1 && Scoped(k, n + 3, 0) && KeepsReservation(k)
    ensures Scoped(c, n, 0) && KeepsReservation(c)
  {
    Do(n, 0, Imm(w, 0), Do(n + 1, 0, Compare(w, Equal, y, n),
      Choose(n + 2, 0, n + 1,
        if d.Quotient? then Do(n + 2, 1, Imm(w, -1), Result(n + 3, n + 2)) else Result(n + 2, x),
        NonZeroArm(d, w, x, y, n + 2),
        1, k)))
  }

  /** Divide the values in variables 0 and 1. */
  function DivideOperands(d: Division, i: Instruction): (c: Body)
    ensures Scoped(c, 2, 0) && KeepsReservation(c)
  {
    Divide(d, W64, 0, 1, 2, Do(5, 0, XRegWrite(i.rd, 4), Done(5)))
  }

  /** Go on with the operands in variables 0 and 1. */
  function Operands(i: Instruction, k: Body): (c: Body)
    requires Scoped(k, 2, 0) && KeepsReservation(k)
    ensures Scoped(c, 0, 0) && KeepsReservation(c)
  {
    Do(0, 0, XRegRead(i.rs1), Do(1, 0, XRegRead(i.rs2), k))
  }

  function DivideDouble(d: Division, i: Instruction): (c: Body)
    ensures Scoped(c, 0, 0) && KeepsReservation(c)
  {
    Operands(i, DivideOperands(d, i))
  }

  /** Divide the 32-bit values in variables 2 and 3. */
  function DivideNarrowed(d: Division, i: Instruction): (c: Body)
    ensures Scoped(c, 4, 0) && KeepsReservation(c)
  {
    Divide(d, W32, 2, 3, 4, WriteExtended(7, 6, i.rd))
  }

  /** Go on with the low halves of the operands in variables 2 and 3. */
  function NarrowedOperands(i: Instruction, k: Body): (c: Body)
    requires Scoped(k, 4, 0) && KeepsReservation(k)
    ensures Scoped(c, 0, 0) && KeepsReservation(c)
  {
    Do(0, 0, XRegRead(i.rs1), Do(1, 0, XRegRead(i.rs2), Do(2, 0, Narrow(0), Do(3, 0, Narrow(1), k))))
  }

  function DivideWord(d: Division, i: Instruction): (c: Body)
    ensures Scoped(c, 0, 0) && KeepsReservation(c)
  {
    NarrowedOperands(i, DivideNarrowed(d, i))
  }

  // ----- memory -----

  function LoadBody(size: Size, signed: bool, i: Instruction): (c: Body)
    ensures Plain(c)
  {
    Do(0, 0, XRegRead(i.rs1), Do(1, 0, Imm(W64, i.imm), Do(2, 0, Alu(W64, Add, 0, 1),
      Do(3, 0, Load(size, signed, 2), Do(4, 0, XRegWrite(i.rd, 3), Done(4))))))
  }

  function StoreBody(size: Size, i: Instruction): (c: Body)
    ensures Plain(c)
  {
    Do(0, 0, XRegRead(i.rs1), Do(1, 0, Imm(W64, i.imm), Do(2, 0, Alu(W64, Add, 0, 1),
      Do(3, 0, XRegRead(i.rs2), Do(4, 0, Store(size, 2, 3), Done(4))))))
  }

  /** Mask that aligns an address to the eight-byte reservation set. */
  const RESERVATION_MASK: int := -8

  /** Read the address of an atomic access into variable 0, fault when misaligned, and go on. */
  function AtAligned(size: Size, reset: bool, i: Instruction, k: Body): (c: Body)
    requires Scoped(k, 1, 0)
    ensures Scoped(c, 0, 0)
    ensures DivisionFree(c) == DivisionFree(k) && KeepsReservation(c) == (!reset && KeepsReservation(k))
  {
    Do(0, 0, XRegRead(i.rs1), Do(1, 0, AtomicGuard(size, 0, reset), k))
  }

  /** Load from an aligned address into variable 1 and go on. */
  function AtomicLoad(size: Size, signed: bool, i: Instruction, k: Body): (c: Body)
    requires Scoped(k, 2, 0)
    ensures Scoped(c, 0, 0)
    ensures DivisionFree(c) == DivisionFree(k) && KeepsReservation(c) == KeepsReservation(k)
  {
    AtAligned(size, false, i, Do(1, 0, Load(size, signed, 0), k))
  }

  /** Register a reservation for the address in variable 0 and write variable 1 to `rd`. */
  function Reserve(i: Instruction): (c: Body)
    ensures Scoped(c, 2, 0) && DivisionFree(c)
  {
    Do(2, 0, Imm(W64, RESERVATION_MASK), Do(3, 0, Alu(W64, And, 0, 2), Do(4, 0, ReservationWrite(3),
      Do(4, 0, XRegWrite(i.rd, 1), Done(4)))))
  }

  /** Load and register a reservation. */
  function LoadReserved(size: Size, i: Instruction): (c: Body)
    ensures Scoped(c, 0, 0) && DivisionFree(c)
  {
    AtomicLoad(size, true, i, Reserve(i))
  }

  /** Report success and store the operand at the address in variable 0. */
  function StoreArm(size: Size, i: Instruction): (c: Body)
    ensures Scoped(c, 9, 0) && DivisionFree(c) && !ReadsPc(c)
  {
    Do(9, 0, XRegRead(i.rs2),
       Do(10, 0, Imm(W64, 0), Do(11, 0, XRegWrite(i.rd, 10), Do(11, 0, Store(size, 0, 9), Done(11)))))
  }

  /** Report failure. */
  function RefuseArm(i: Instruction): (c: Body)
    ensures Scoped(c, 9, 0) && DivisionFree(c) && !ReadsPc(c)
  {
    Do(9, 0, Imm(W64, 1), Do(10, 0, XRegWrite(i.rd, 9), Done(10)))
  }

  /** The store of a store-conditional, or its refusal, depending on variable 8. */
  function TryStore(size: Size, i: Instruction): (c: Body)
    ensures Scoped(c, 9, 0) && DivisionFree(c)
  {
    Choose(9, 0, 8, StoreArm(size, i), RefuseArm(i), 0, Done(9))
  }

  /** Whether the address in variable 0 lies in the reservation set read into variable 1. */
  function TestReservation(k: Body): (c: Body)
    requires Scoped(k, 9, 0) && DivisionFree(k)
    ensures Scoped(c, 3, 0) && DivisionFree(c)
  {
    Do(3, 0, Imm(W64, -1), Do(4, 0, Compare(W64, NotEqual, 1, 3), Do(5, 0, Imm(W64, RESERVATION_MASK),
      Do(6, 0, Alu(W64, And, 0, 5), Do(7, 0, Compare(W64, Equal, 6, 1), Do(8, 0, BoolAnd(4, 7), k))))))
  }

  /** Store if the reservation is still held; the reservation is dropped in any case. */
  function StoreConditional(size: Size, i: Instruction): (c: Body)
    ensures Scoped(c, 0, 0) && DivisionFree(c)
  {
    AtAligned(size, true, i, Do(1, 0, ReservationRead,
      Do(2, 0, Imm(W64, -1), Do(3, 0, ReservationWrite(2), TestReservation(TryStore(size, i))))))
  }

  /** Keep the value in variable 1 and store the operand. */
  function SwapUpdate(size: Size, i: Instruction): (c: Body)
    ensures Scoped(c, 2, 0) && KeepsReservation(c) && DivisionFree(c)
  {
    Do(2, 0, XRegRead(i.rs2), Do(3, 0, XRegWrite(i.rd, 1), Do(3, 0, Store(size, 0, 2), Done(3))))
  }

  function Swap(size: Size, i: Instruction): (c: Body)
    ensures Plain(c)
  {
    AtomicLoad(size, true, i, SwapUpdate(size, i))
  }

  /** Combine the loaded value with the operand, keep the old value, and write back. */
  function AmoUpdate(f: AluOp, i: Instruction): (c: Body)
    requires !OpDivides(Alu(W64, f, 0, 1))
    ensures Scoped(c, 3, 0) && KeepsReservation(c) && DivisionFree(c)
  {
    Do(3, 0, Alu(W64, f, 1, 2), Do(4, 0, XRegWrite(i.rd, 1), Do(4, 0, Store(Double, 0, 3), Done(4))))
  }

  /** Read the operand and update the value in variable 1. */
  function AmoOperand(f: AluOp, i: Instruction): (c: Body)
    requires !OpDivides(Alu(W64, f, 0, 1))
    ensures Scoped(c, 2, 0) && KeepsReservation(c) && DivisionFree(c)
  {
    Do(2, 0, XRegRead(i.rs2), AmoUpdate(f, i))
  }

  /** Read-modify-write of a double word. */
  function Amo(f: AluOp, i: Instruction): (c: Body)
    requires !OpDivides(Alu(W64, f, 0, 1))
    ensures Plain(c)
  {
    AtomicLoad(Double, false, i, AmoOperand(f, i))
  }

  // ----- control transfer -----

  /** A body that yields one value and neither divides nor touches the reservation. */
  ghost predicate PlainValue(c: Body) { Scoped(c, 0, 1) && KeepsReservation(c) && DivisionFree(c) }

  function CompareBody(p: Predicate, second: Op, i: Instruction): (c: Body)
    requires second.XRegRead? || second.Imm?
    ensures PlainValue(c)
  {
    Do(0, 1, XRegRead(i.rs1), Do(1, 1, second, Do(2, 1, Compare(W64, p, 0, 1), Result(3, 2))))
  }

  /** Add the variables and go on with the sum in variable `n`. */
  function Summed(n: nat, x: Var, y: Var, k: Body): (c: Body)
    requires x < n && y < n && Scoped(k, n + 1, 1) && KeepsReservation(k) && DivisionFree(k)
    ensures Scoped(c, n, 1) && KeepsReservation(c) && DivisionFree(c)
  {
    Do(n, 1, Alu(W64, Add, x, y), k)
  }

  /** Clear the lowest bit of a variable and go on with the result in variable `n + 1`. */
  function Masked(n: nat, x: Var, k: Body): (c: Body)
    requires x < n && Scoped(k, n + 2, 1) && KeepsReservation(k) && DivisionFree(k)
    ensures Scoped(c, n, 1) && KeepsReservation(c) && DivisionFree(c)
  {
    Do(n, 1, Imm(W64, -2), Do(n + 1, 1, Alu(W64, And, x, n), k))
  }

  function JumpRelative(i: Instruction): (c: Body)
    ensures PlainValue(c)
  {
    Do(0, 1, Imm(W64, i.imm), Do(1, 1, PcRead, Summed(2, 1, 0, Result(3, 2))))
  }

  function JumpReg(i: Instruction): (c: Body)
    ensures PlainValue(c)
  {
    Do(0, 1, XRegRead(i.rs1), Masked(1, 0, Result(3, 2)))
  }

  function JumpRegImm(i: Instruction): (c: Body)
    ensures PlainValue(c)
  {
    Do(0, 1, XRegRead(i.rs1), Do(1, 1, Imm(W64, i.imm), Summed(2, 0, 1, Masked(3, 2, Result(5, 4)))))
  }

  function JumpAbsolute(i: Instruction): (c: Body)
    ensures PlainValue(c)
  {
    Do(0, 1, Imm(W64, i.imm), Masked(1, 0, Result(3, 2)))
  }

  /** Compute the return address into variable 2 and go on. */
  function Linking(i: Instruction, k: Body): (c: Body)
    requires Scoped(k, 3, 1) && KeepsReservation(k) && DivisionFree(k)
    ensures PlainValue(c)
  {
    Do(0, 1, PcRead, Do(1, 1, Imm(W64, WidthBytes(i.width)), Summed(2, 0, 1, k)))
  }

  /** Write the return address to `rd` and yield the target. */
  function WriteLink(n: nat, target: Var, rd: Reg): (c: Body)
    requires 2 < n && target < n
    ensures Scoped(c, n, 1) && KeepsReservation(c) && DivisionFree(c)
  {
    Do(n, 1, XRegWrite(rd, 2), Result(n, target))
  }

  function JumpAndLink(i: Instruction): (c: Body)
    ensures PlainValue(c)
  {
    Linking(i, Do(3, 1, Imm(W64, i.imm), Summed(4, 0, 3, WriteLink(5, 4, i.rd))))
  }

  function JumpRegAndLink(i: Instruction): (c: Body)
    ensures PlainValue(c)
  {
    Linking(i, Do(3, 1, XRegRead(i.rs1), Masked(4, 3, WriteLink(6, 5, i.rd))))
  }

  function JumpRegImmAndLink(i: Instruction): (c: Body)
    ensures PlainValue(c)
  {
    Linking(i, Do(3, 1, XRegRead(i.rs1),
                  Do(4, 1, Imm(W64, i.imm), Summed(5, 3, 4, Masked(6, 5, WriteLink(8, 7, i.rd))))))
  }

  function JumpAbsoluteAndLink(i: Instruction): (c: Body)
    ensures PlainValue(c)
  {
    Linking(i, Do(3, 1, Imm(W64, i.imm), Masked(4, 3, WriteLink(6, 5, i.rd))))
  }

  // ----- dispatch -----

  predicate IsDoubleDivision(op: OpCode) {
    op.X64DivSigned? || op.X64DivUnsigned? || op.X64RemSigned? || op.X64RemUnsigned?
  }

  predicate IsWordDivision(op: OpCode) {
    op.X32DivSigned? || op.X32DivUnsigned? || op.X32RemSigned? || op.X32RemUnsigned?
  }

  predicate IsDivision(op: OpCode) { IsDoubleDivision(op) || IsWordDivision(op) }

  function DivisionOf(op: OpCode): Division
    requires IsDivision(op)
  {
    if op.X64DivSigned? || op.X32DivSigned? then Quotient(true)
    else if op.X64DivUnsigned? || op.X32DivUnsigned? then Quotient(false)
    else if op.X64RemSigned? || op.X32RemSigned? then Remainder(true)
    else Remainder(false)
  }

  predicate IsLoadReserved(op: OpCode) { op.X32AtomicLoad? || op.X64AtomicLoad? }

  predicate IsStoreConditional(op: OpCode) { op.X32AtomicStore? || op.X64AtomicStore? }

  predicate IsMemory(op: OpCode) {
    || op.X8LoadSigned? || op.X16LoadSigned? || op.X32LoadSigned? || op.X64LoadSigned?
    || op.X8LoadUnsigned? || op.X16LoadUnsigned? || op.X32LoadUnsigned?
    || op.X8Store? || op.X16Store? || op.X32Store? || op.X64Store?
    || op.X32AtomicSwap? || op.X64AtomicSwap? || op.X64AtomicAdd? || op.X64AtomicMinSigned?
    || op.Amoxord? || op.Amoandd? || op.Amoord?
  }

  predicate IsBranch(op: OpCode) {
    || op.BranchEqual? || op.BranchNotEqual? || op.BranchLessThanSigned? || op.BranchGreaterThanOrEqualSigned?
    || op.BranchLessThanUnsigned? || op.BranchGreaterThanOrEqualUnsigned?
    || op.BranchEqualZero? || op.BranchNotEqualZero? || op.BranchLessThanZero? || op.BranchGreaterThanOrEqualZero?
    || op.BranchLessThanOrEqualZero? || op.BranchGreaterThanZero?
  }

  predicate IsJump(op: OpCode) {
    op.J? || op.JAbsolute? || op.Jr? || op.JrImm? || op.Jal? || op.Jalr? || op.JalrImm? || op.JalrAbsolute?
  }

  predicate IsSpecial(op: OpCode) { IsDivision(op) || IsLoadReserved(op) || IsStoreConditional(op) }

  /** What the routine of an opcode may contain. */
  ghost predicate Fits(op: OpCode, r: Routine) {
    && WellFormed(r)
    && (!IsDivision(op) ==> DivisionFree(r.body))
    && (!IsLoadReserved(op) && !IsStoreConditional(op) ==> KeepsReservation(r.body))
  }

  function ComputeBody(i: Instruction): (b: Body)
    ensures Plain(b)
  {
    match i.opcode
    case AddOp => RegReg(Add, i)
    case SubOp => RegReg(Sub, i)
    case X64Xor => RegReg(Xor, i)
    case OrOp => RegReg(Or, i)
    case AndOp => RegReg(And, i)
    case MulOp => RegReg(Mul, i)
    case ShiftLeft => ShiftReg(ShiftLeftOp, i)
    case ShiftRightUnsigned => ShiftReg(ShiftRightU, i)
    case ShiftRightSigned => ShiftReg(ShiftRightS, i)
    case SetLessThanSigned => SetIf(LessSigned, XRegRead(i.rs2), i)
    case SetLessThanUnsigned => SetIf(LessUnsigned, XRegRead(i.rs2), i)
    case AddWord => WordOf(XRegRead(i.rs2), Add, i)
    case SubWord => WordOf(XRegRead(i.rs2), Sub, i)
    case X32ShiftLeft => ShiftWord(XRegRead(i.rs2), ShiftLeftOp, i)
    case X32ShiftRightSigned => ShiftWord(XRegRead(i.rs2), ShiftRightS, i)
    case X32ShiftRightUnsigned => ShiftWord(XRegRead(i.rs2), ShiftRightU, i)
    case Addi => RegImm(Add, i)
    case AddWordImmediate => WordOf(Imm(W64, i.imm), Add, i)
    case X64XorImm => RegImm(Xor, i)
    case X64OrImm => RegImm(Or, i)
    case Andi => RegImm(And, i)
    case ShiftLeftImmediate => RegImm(ShiftLeftOp, i)
    case ShiftRightImmediateUnsigned => RegImm(ShiftRightU, i)
    case ShiftRightImmediateSigned => RegImm(ShiftRightS, i)
    case X32ShiftLeftImm => ShiftWord(Imm(W64, i.imm), ShiftLeftOp, i)
    case X32ShiftRightImmSigned => ShiftWord(Imm(W64, i.imm), ShiftRightS, i)
    case X32ShiftRightImmUnsigned => ShiftWord(Imm(W64, i.imm), ShiftRightU, i)
    case SetLessThanImmediateSigned => SetIf(LessSigned, Imm(W64, i.imm), i)
    case SetLessThanImmediateUnsigned => SetIf(LessUnsigned, Imm(W64, i.imm), i)
    case AddImmediateToPC => AddToPc(i)
    case Li => Assign(Imm(W64, i.imm), i)
    case Mv => Assign(XRegRead(i.rs2), i)
    case Neg => NegBody(i)
    case X32Mul => MulWord(i)
    case X64MulHighSigned => MulHighBody(HighSigned, i)
    case X64MulHighSignedUnsigned => MulHighBody(HighSignedUnsigned, i)
    case X64MulHighUnsigned => MulHighBody(HighUnsigned, i)
    case _ => Done(0)
  }

  function MemoryBody(i: Instruction): (b: Body)
    requires IsMemory(i.opcode)
    ensures Plain(b)
  {
    if i.opcode.X8LoadSigned? then LoadBody(Byte, true, i)
    else if i.opcode.X16LoadSigned? then LoadBody(Half, true, i)
    else if i.opcode.X32LoadSigned? then LoadBody(Word, true, i)
    else if i.opcode.X8LoadUnsigned? then LoadBody(Byte, false, i)
    else if i.opcode.X16LoadUnsigned? then LoadBody(Half, false, i)
    else if i.opcode.X32LoadUnsigned? then LoadBody(Word, false, i)
    else if i.opcode.X64LoadSigned? then LoadBody(Double, true, i)
    else if i.opcode.X8Store? then StoreBody(Byte, i)
    else if i.opcode.X16Store? then StoreBody(Half, i)
    else if i.opcode.X32Store? then StoreBody(Word, i)
    else if i.opcode.X64Store? then StoreBody(Double, i)
    else if i.opcode.X32AtomicSwap? then Swap(Word, i)
    else if i.opcode.X64AtomicSwap? then Swap(Double, i)
    else if i.opcode.X64AtomicAdd? then Amo(Add, i)
    else if i.opcode.X64AtomicMinSigned? then Amo(MinSignedOp, i)
    else if i.opcode.Amoxord? then Amo(Xor, i)
    else if i.opcode.Amoandd? then Amo(And, i)
    else Amo(Or, i)
  }

  function BranchBody(i: Instruction): (b: Body)
    requires IsBranch(i.opcode)
    ensures PlainValue(b)
  {
    if i.opcode.BranchEqual? then CompareBody(Equal, XRegRead(i.rs2), i)
    else if i.opcode.BranchNotEqual? then CompareBody(NotEqual, XRegRead(i.rs2), i)
    else if i.opcode.BranchLessThanSigned? then CompareBody(LessSigned, XRegRead(i.rs2), i)
    else if i.opcode.BranchGreaterThanOrEqualSigned? then CompareBody(GreaterEqualSigned, XRegRead(i.rs2), i)
    else if i.opcode.BranchLessThanUnsigned? then CompareBody(LessUnsigned, XRegRead(i.rs2), i)
    else if i.opcode.BranchGreaterThanOrEqualUnsigned? then CompareBody(GreaterEqualUnsigned, XRegRead(i.rs2), i)
    else if i.opcode.BranchEqualZero? then CompareBody(Equal, Imm(W64, 0), i)
    else if i.opcode.BranchNotEqualZero? then CompareBody(NotEqual, Imm(W64, 0), i)
    else if i.opcode.BranchLessThanZero? then CompareBody(LessSigned, Imm(W64, 0), i)
    else if i.opcode.BranchGreaterThanOrEqualZero? then CompareBody(GreaterEqualSigned, Imm(W64, 0), i)
    else if i.opcode.BranchLessThanOrEqualZero? then CompareBody(LessEqualSigned, Imm(W64, 0), i)
    else CompareBody(GreaterSigned, Imm(W64, 0), i)
  }

  function JumpBody(i: Instruction): (b: Body)
    requires IsJump(i.opcode)
    ensures PlainValue(b)
  {
    if i.opcode.J? then JumpRelative(i)
    else if i.opcode.JAbsolute? then JumpAbsolute(i)
    else if i.opcode.Jr? then JumpReg(i)
    else if i.opcode.JrImm? then JumpRegImm(i)
    else if i.opcode.Jal? then JumpAndLink(i)
    else if i.opcode.Jalr? then JumpRegAndLink(i)
    else if i.opcode.JalrImm? then JumpRegImmAndLink(i)
    else JumpAbsoluteAndLink(i)
  }

  /** The remaining opcodes: divisions and the two reservation instructions. */
  function SpecialBody(i: Instruction): (b: Body)
    requires IsSpecial(i.opcode)
    ensures Scoped(b, 0, 0)
    ensures !IsDivision(i.opcode) ==> DivisionFree(b)
    ensures !IsLoadReserved(i.opcode) && !IsStoreConditional(i.opcode) ==> KeepsReservation(b)
  {
    if IsDoubleDivision(i.opcode) then DivideDouble(DivisionOf(i.opcode), i)
    else if IsWordDivision(i.opcode) then DivideWord(DivisionOf(i.opcode), i)
    else if IsLoadReserved(i.opcode) then LoadReserved(if i.opcode.X32AtomicLoad? then Word else Double, i)
    else StoreConditional(if i.opcode.X32AtomicStore? then Word else Double, i)
  }

  /** The routine of an instruction. */
  function RoutineOf(i: Instruction): (r: Routine)
    ensures Fits(i.opcode, r)
  {
    if IsMemory(i.opcode) then Routine(MemoryBody(i), NextPc(i.width))
    else if IsBranch(i.opcode) then Routine(BranchBody(i), BranchIf(i.imm, i.width))
    else if IsJump(i.opcode) then Routine(JumpBody(i), SetPc)
    else if IsSpecial(i.opcode) then Routine(SpecialBody(i), NextPc(i.width))
    else if i.opcode.ECallOp? then Routine(Done(0), ECall)
    else if i.opcode.Unknown? then Routine(Done(0), Illegal)
    else Routine(ComputeBody(i), NextPc(i.width))
  }
}
