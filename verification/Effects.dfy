/**
 What instructions do to registers and memory, byte by byte and bit by bit: which registers and
 bytes they leave alone, what loads and stores mean, and what the logical and shift instructions
 compute.
 */
module Effects {
  import opened Words
  import opened Memory
  import opened Machine
  import opened Icb
  import opened Instructions
  import opened Execution
  import opened Jumps
  import opened Reservations
  import opened Meaning

  // ----- registers -----

  lemma ComputedKeeps(i: Instruction, core: Core, q: Reg)
    requires q != i.rd
    ensures Computed(i, core).XRead(q) == core.XRead(q) && Computed(i, core).mem == core.mem
    ensures Jumped(i, core).XRead(q) == core.XRead(q) && Jumped(i, core).mem == core.mem
  {
    hide Value, Links, Plus;
  }

  lemma AccessedKeeps(i: Instruction, core: Core, q: Reg)
    requires q != i.rd
    ensures var b := Accessed(i, core); !b.Panicked? && b.core.XRead(q) == core.XRead(q)
  {
    hide Read, Write, Extend, Truncate, Updated, IsLoad, IsStore, AccessSize;
  }

  lemma ReservedKeeps(i: Instruction, core: Core, size: Size, q: Reg)
    requires q != i.rd
    ensures var b := LoadReservedOutcome(size, i, core); !b.Panicked? && b.core.XRead(q) == core.XRead(q)
    ensures var b := StoreConditionalOutcome(size, i, core); !b.Panicked? && b.core.XRead(q) == core.XRead(q)
  {
    hide Read, Write, Extend, Truncate, Reservations.Holding, SetOf;
  }

  /** No instruction changes a register other than `rd`. */
  lemma RegistersKept(i: Instruction, core: Core, q: Reg)
    requires q != i.rd
    ensures RunInstr(i, core).core.XRead(q) == core.XRead(q)
  {
    hide RunInstr, Computed, Jumped, JumpTarget, DivisionResult, Taken, Accessed, LoadReservedOutcome,
      StoreConditionalOutcome;
    InstrMeans(i, core);
    ComputedKeeps(i, core, q);
    AccessedKeeps(i, core, q);
    if IsLoadReserved(i.opcode) || IsStoreConditional(i.opcode) { ReservedKeeps(i, core, SizeOf(i.opcode), q); }
  }

  // ----- bytes -----

  /** How many bytes an instruction accesses. */
  function ByteCount(op: OpCode): nat {
    if op.X8LoadSigned? || op.X8LoadUnsigned? || op.X8Store? then 1
    else if op.X16LoadSigned? || op.X16LoadUnsigned? || op.X16Store? then 2
    else if op.X32LoadSigned? || op.X32LoadUnsigned? || op.X32Store? then 4
    else if op.X32AtomicSwap? || op.X32AtomicLoad? || op.X32AtomicStore? then 4
    else if IsMemory(op) || op.X64AtomicLoad? || op.X64AtomicStore? then 8
    else 0
  }

  /** Loads and stores add the immediate to the base register, atomic accesses do not. */
  function AddressOf(i: Instruction, core: Core): u64 {
    if IsLoad(i.opcode) || IsStore(i.opcode) then (core.XRead(i.rs1) + i.imm) % TWO64 else core.XRead(i.rs1)
  }

  lemma SizeIs(op: OpCode)
    requires IsMemory(op)
    ensures Bytes(AccessSize(op)) == ByteCount(op)
  {
  }

  lemma ReservedSizeIs(op: OpCode)
    requires IsLoadReserved(op) || IsStoreConditional(op)
    ensures Bytes(SizeOf(op)) == ByteCount(op)
  {
  }

  /** The low bytes of a number are those of the truncated number. */
  lemma LowBytes(v: u64, w: u64, n: nat, k: nat)
    requires k < n && v % Pow2(8 * n) == w
    ensures Digit(v, k) == Digit(w, k)
  {
    hide Pow2, ToLE, Digit;
    LERoundTrip(v, n);
    LEBytes(ToLE(v, n));
    WrittenDigit(v, n, k);
    WrittenDigit(w, n, k);
  }

  /** The bytes of a value from an address on. */
  ghost predicate HoldsBytes(m: Mem, addr: u64, n: nat, v: u64)
    requires addr + n <= |m.data|
  {
    forall k :: 0 <= k < n ==> m.data[addr + k] == Digit(v, k)
  }

  lemma LoadedBytes(m: Mem, addr: u64, size: Size, signed: bool)
    requires Read(m, addr, size).Some?
    ensures addr + Bytes(size) <= |m.data|
    ensures HoldsBytes(m, addr, Bytes(size), Extend(size, signed, Read(m, addr, size).value))
  {
    hide Read, Extend, Pow2, Digit, Permitted;
    var raw := Read(m, addr, size).value;
    ReadMeans(m, addr, size);
    ExtendMeans(size, signed, raw);
    var v := Extend(size, signed, raw);
    forall k | 0 <= k < Bytes(size) ensures m.data[addr + k] == Digit(v, k) { LowBytes(v, raw, Bytes(size), k); }
  }

  /**
   A load faults, with nothing changed, unless all its bytes are in memory and readable; else it
   writes the number with these bytes that is in the range of the width, signed or not.
   */
  lemma LoadMeans(i: Instruction, core: Core) returns (v: u64)
    requires IsLoad(i.opcode)
    ensures var addr, n := AddressOf(i, core), ByteCount(i.opcode);
            if addr + n <= |core.mem.data| && Permitted(core.mem.readable, addr, n) then
              && RunInstr(i, core) == Ran(Ok(Next(i.width)), core.XWrite(i.rd, v))
              && HoldsBytes(core.mem, addr, n, v)
              && if LoadsSigned(i.opcode) then -Pow2(8 * n - 1) <= S64(v) < Pow2(8 * n - 1) else v < Pow2(8 * n)
            else
              RunInstr(i, core) == Ran(Err(LoadAccessFault(addr)), core)
  {
    hide RunInstr, Read, Extend, Pow2, Digit, Permitted, HoldsBytes, S64;
    InstrMeans(i, core);
    SizeIs(i.opcode);
    var addr, size, signed := AddressOf(i, core), AccessSize(i.opcode), LoadsSigned(i.opcode);
    ReadMeans(core.mem, addr, size);
    v := 0;
    if Read(core.mem, addr, size).Some? {
      var raw := Read(core.mem, addr, size).value;
      v := Extend(size, signed, raw);
      ExtendMeans(size, signed, raw);
      LoadedBytes(core.mem, addr, size, signed);
    }
  }

  /** The bytes of a value have been written from an address on, and no others changed. */
  ghost predicate OnlyWrote(m: Mem, addr: u64, n: nat, v: u64, m': Mem) {
    && m' == m.(data := m'.data) && |m'.data| == |m.data|
    && forall a: nat :: a < |m.data| ==>
         m'.data[a] == if addr <= a < addr + n then Digit(v, a - addr) else m.data[a]
  }

  lemma StoredBytes(m: Mem, addr: u64, size: Size, v: u64)
    requires Write(m, addr, size, Truncate(size, v)).Some?
    ensures OnlyWrote(m, addr, Bytes(size), v, Write(m, addr, size, Truncate(size, v)).value)
  {
    hide Write, Pow2, Digit, Permitted;
    WriteMeans(m, addr, size, Truncate(size, v));
    forall k | 0 <= k < Bytes(size) ensures Digit(v, k) == Digit(Truncate(size, v), k) {
      LowBytes(v, Truncate(size, v), Bytes(size), k);
    }
  }

  /**
   A store faults, with nothing changed, unless all its bytes are in memory and writable; else it
   changes exactly these bytes, to the low bytes of the register in little-endian order.
   */
  lemma StoreMeans(i: Instruction, core: Core)
    requires IsStore(i.opcode)
    ensures var addr, n := AddressOf(i, core), ByteCount(i.opcode);
            var r := RunInstr(i, core);
            if addr + n <= |core.mem.data| && Permitted(core.mem.writable, addr, n) then
              && r == Ran(Ok(Next(i.width)), core.(mem := r.core.mem))
              && OnlyWrote(core.mem, addr, n, core.XRead(i.rs2), r.core.mem)
            else
              r == Ran(Err(StoreAMOAccessFault(addr)), core)
  {
    hide RunInstr, Write, Truncate, Pow2, Digit, Permitted, OnlyWrote;
    InstrMeans(i, core);
    SizeIs(i.opcode);
    var addr, size, v := AddressOf(i, core), AccessSize(i.opcode), core.XRead(i.rs2);
    WriteMeans(core.mem, addr, size, Truncate(size, v));
    if Write(core.mem, addr, size, Truncate(size, v)).Some? { StoredBytes(core.mem, addr, size, v); }
  }

  /** No instruction changes a byte outside of what it accesses, nor any permission. */
  lemma MemoryKept(i: Instruction, core: Core, a: nat)
    requires a < |core.mem.data| && !(AddressOf(i, core) <= a < AddressOf(i, core) + ByteCount(i.opcode))
    ensures var m := RunInstr(i, core).core.mem;
            m == core.mem.(data := m.data) && |m.data| == |core.mem.data| && m.data[a] == core.mem.data[a]
  {
    hide RunInstr, Value, JumpTarget, DivisionResult, Taken, Read, Write, Extend, Truncate, Updated, Digit, Permitted;
    InstrMeans(i, core);
    if IsMemory(i.opcode) { SizeIs(i.opcode); }
    if IsLoadReserved(i.opcode) || IsStoreConditional(i.opcode) { ReservedSizeIs(i.opcode); }
    forall size: Size, v: u64, m: Mem | m == core.mem
      ensures Write(m, AddressOf(i, core), size, v).Some? ==> WroteAt(m, AddressOf(i, core), size, v)
    {
      WriteMeans(m, AddressOf(i, core), size, v);
    }
  }

  /** A write that is made changes only its bytes. */
  ghost predicate WroteAt(m: Mem, addr: u64, size: Size, v: u64)
    requires Write(m, addr, size, v).Some?
  {
    var m' := Write(m, addr, size, v).value;
    && m' == m.(data := m'.data) && |m'.data| == |m.data|
    && forall a: nat :: a < |m.data| && !(addr <= a < addr + Bytes(size)) ==> m'.data[a] == m.data[a]
  }

  // ----- round trips -----

  /** Truncating a value in the range of the width. */
  lemma TruncatedIs(size: Size, signed: bool, v: u64)
    requires var half := Pow2(8 * Bytes(size) - 1); if signed then -half <= S64(v) < half else v < 2 * half
    ensures var half := Pow2(8 * Bytes(size) - 1);
            Truncate(size, v) == if signed && v >= TWO63 then v - TWO64 + 2 * half else v
  {
    var half := Pow2(8 * Bytes(size) - 1);
    assert Pow2(8 * Bytes(size)) == 2 * half;
    hide Pow2;
    if signed && v >= TWO63 {
      var q := WholeRange(size, half);
      NegativeLow(v, half, q);
    } else {
      ModUnique(v, 2 * half, 0, v);
    }
  }

  /** A value in the range of the width survives truncation and extension. */
  lemma ExtendBack(size: Size, signed: bool, v: u64)
    requires var half := Pow2(8 * Bytes(size) - 1); if signed then -half <= S64(v) < half else v < 2 * half
    ensures Extend(size, signed, Truncate(size, v)) == v
  {
    assert Pow2(8 * Bytes(size)) == 2 * Pow2(8 * Bytes(size) - 1);
    hide Pow2, Truncate;
    TruncatedIs(size, signed, v);
  }

  lemma NegativeLow(v: u64, half: int, q: int)
    requires TWO63 <= v && -half <= v - TWO64 && 0 < half && TWO64 == q * (2 * half)
    ensures v % (2 * half) == v - TWO64 + 2 * half
  {
    var low := v - TWO64 + 2 * half;
    assert v == (q - 1) * (2 * half) + low;
    ModUnique(v, 2 * half, q - 1, low);
  }

  /** A load gives back what a store of the same width to the same address stored, if it fits the width. */
  lemma StoreThenLoad(s: Instruction, l: Instruction, core: Core)
    requires IsStore(s.opcode) && IsLoad(l.opcode) && ByteCount(s.opcode) == ByteCount(l.opcode)
    requires s.rs1 == l.rs1 && s.imm == l.imm && l.rd != 0 && RunInstr(s, core).result.Ok?
    requires AddressOf(s, core) + ByteCount(s.opcode) <= |core.mem.data|
    requires Permitted(core.mem.readable, AddressOf(s, core), ByteCount(s.opcode))
    requires var v, n := core.XRead(s.rs2), ByteCount(s.opcode);
             if LoadsSigned(l.opcode) then -Pow2(8 * n - 1) <= S64(v) < Pow2(8 * n - 1) else v < Pow2(8 * n)
    ensures var r := RunInstr(l, RunInstr(s, core).core);
            r.result == Ok(Next(l.width)) && r.core.XRead(l.rd) == core.XRead(s.rs2)
  {
    hide RunInstr, Read, Write, Extend, Truncate, Pow2, Permitted, CanAccess, S64;
    var size, addr, v := AccessSize(s.opcode), AddressOf(s, core), core.XRead(s.rs2);
    SizeIs(s.opcode);
    SizeIs(l.opcode);
    assert AccessSize(l.opcode) == size;
    InstrMeans(s, core);
    var core1 := RunInstr(s, core).core;
    InstrMeans(l, core1);
    WriteMeans(core.mem, addr, size, Truncate(size, v));
    AccessIff(core.mem.readable, addr, Bytes(size));
    LoadAfterStore(core.mem, addr, size, Truncate(size, v));
    TruncateTwice(size, v);
    RangeIs(size);
    ExtendBack(size, LoadsSigned(l.opcode), v);
  }

  lemma RangeIs(size: Size)
    ensures Pow2(8 * Bytes(size)) == 2 * Pow2(8 * Bytes(size) - 1)
  {
  }

  lemma TruncateTwice(size: Size, v: u64)
    ensures Truncate(size, Truncate(size, v)) == Truncate(size, v)
  {
    var p := Pow2(8 * Bytes(size));
    hide Pow2;
    ModUnique(v % p, p, 0, v % p);
  }

  // ----- logical and shift instructions -----

  predicate IsAnd(op: OpCode) { op.AndOp? || op.Andi? }

  predicate IsOr(op: OpCode) { op.OrOp? || op.X64OrImm? }

  predicate IsXor(op: OpCode) { op.X64Xor? || op.X64XorImm? }

  /** An instruction that computes a value writes it to `rd` and goes on. */
  lemma Computes(i: Instruction, core: Core, v: u64)
    requires IsAnd(i.opcode) || IsOr(i.opcode) || IsXor(i.opcode) || IsShiftRight(i.opcode)
    requires Value(i, core) == Some(v)
    ensures RunInstr(i, core) == Ran(Ok(Next(i.width)), core.XWrite(i.rd, v))
  {
    hide RunInstr, Value, Accessed, Jumped, JumpTarget, Taken, DivisionResult, LoadReservedOutcome,
      StoreConditionalOutcome;
    InstrMeans(i, core);
  }

  /** Each bit of the result is the conjunction, disjunction or difference of the bits of the operands. */
  lemma LogicMeans(i: Instruction, core: Core, k: nat)
    requires (IsAnd(i.opcode) || IsOr(i.opcode) || IsXor(i.opcode)) && i.rd != 0 && k < 64
    ensures var x, y := core.XRead(i.rs1), if UsesImmediate(i.opcode) then i.imm % TWO64 else core.XRead(i.rs2);
            var r := RunInstr(i, core);
            && r.result == Ok(Next(i.width))
            && Bit(r.core.XRead(i.rd), k) ==
               if IsAnd(i.opcode) then Bit(x, k) && Bit(y, k)
               else if IsOr(i.opcode) then Bit(x, k) || Bit(y, k)
               else Bit(x, k) != Bit(y, k)
  {
    hide RunInstr, Bit, Bits64, Value;
    var x, y := core.XRead(i.rs1), SecondOperand(i, core);
    var f := if IsAnd(i.opcode) then BitAnd else if IsOr(i.opcode) then BitOr else BitXor;
    LogicValue(i, core, f);
    Computes(i, core, Bits64(f, x, y));
    WordBit(f, x, y, k);
  }

  lemma LogicValue(i: Instruction, core: Core, f: BitFn)
    requires if f == BitAnd then IsAnd(i.opcode) else if f == BitOr then IsOr(i.opcode) else IsXor(i.opcode)
    ensures Value(i, core) == Some(Bits64(f, core.XRead(i.rs1), SecondOperand(i, core)))
  {
    hide Bits64, SecondOperand;
    match i.opcode
    case AndOp =>
    case Andi =>
    case OrOp =>
    case X64OrImm =>
    case X64Xor =>
    case X64XorImm =>
  }

  lemma WordBit(f: BitFn, x: u64, y: u64, k: nat)
    requires k < 64
    ensures Bit(Bits64(f, x, y), k) ==
            match f
            case BitAnd => Bit(x, k) && Bit(y, k)
            case BitOr => Bit(x, k) || Bit(y, k)
            case BitXor => Bit(x, k) != Bit(y, k)
  {
    var n := 64;
    hide Bit, Bitwise;
    BitwiseBit(f, n, x, y, k);
  }

  predicate IsShiftRight(op: OpCode) {
    || op.ShiftRightUnsigned? || op.ShiftRightImmediateUnsigned?
    || op.ShiftRightSigned? || op.ShiftRightImmediateSigned?
  }

  predicate IsArithmetic(op: OpCode) { op.ShiftRightSigned? || op.ShiftRightImmediateSigned? }

  /** A right shift divides by a power of two, rounding down, on the signed or the unsigned reading. */
  lemma ShiftRightMeans(i: Instruction, core: Core)
    requires IsShiftRight(i.opcode) && i.rd != 0
    ensures var x, y := core.XRead(i.rs1), if UsesImmediate(i.opcode) then i.imm % TWO64 else core.XRead(i.rs2);
            var p, r := Pow2(y % 64), RunInstr(i, core);
            && r.result == Ok(Next(i.width))
            && var v := r.core.XRead(i.rd);
            if IsArithmetic(i.opcode) then S64(v) * p <= S64(x) < (S64(v) + 1) * p else v * p <= x < (v + 1) * p
  {
    hide RunInstr, Pow2, Words.ShiftRightUnsigned, Words.ShiftRightSigned, S64, Value;
    var x, y := core.XRead(i.rs1), SecondOperand(i, core);
    ShiftValue(i, core);
    Computes(i, core, Value(i, core).value);
    ShiftedRight(W64, x, y);
    ShiftedArithmetically(W64, x, y);
  }

  lemma ShiftValue(i: Instruction, core: Core)
    requires IsShiftRight(i.opcode)
    ensures var x, y := core.XRead(i.rs1), SecondOperand(i, core);
            Value(i, core) == Some(if IsArithmetic(i.opcode) then Words.ShiftRightSigned(W64, x, y)
                                   else Words.ShiftRightUnsigned(W64, x, y))
  {
    hide SecondOperand, Words.ShiftRightUnsigned, Words.ShiftRightSigned;
    match i.opcode
    case ShiftRightUnsigned =>
    case ShiftRightImmediateUnsigned =>
    case ShiftRightSigned =>
    case ShiftRightImmediateSigned =>
  }
}
