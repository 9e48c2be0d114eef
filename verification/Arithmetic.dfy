/**
 The laws of multiplication and division: the high and the low half of a product make the
 exact product (section 7.1 of the RISC-V Unprivileged ISA, version 20191213), and quotient
 and remainder make the dividend (section 7.2).
 */
module Arithmetic {
  import opened Words
  import opened Machine
  import opened Icb
  import opened Ir
  import opened OpLowering
  import opened Instructions
  import opened Execution

  // ----- modular arithmetic -----

  lemma ModOf(a: int, k: int, d: int)
    requires d > 0
    ensures (a + k * d) % d == a % d
  {
    ModUnique(a + k * d, d, a / d + k, a % d);
  }

  lemma ModProduct(a: int, b: int, d: int)
    requires d > 0
    ensures ((a % d) * (b % d)) % d == (a * b) % d
  {
    ModLeft(a, b, d);
    ModLeft(b, a % d, d);
    assert (a % d) * b == b * (a % d) && (b % d) * (a % d) == (a % d) * (b % d);
  }

  /** A factor may be reduced. */
  lemma ModLeft(a: int, b: int, d: int)
    requires d > 0
    ensures ((a % d) * b) % d == (a * b) % d
  {
    assert a == (a / d) * d + a % d;
    FactorReduced(a, a / d, a % d, b, d);
  }

  lemma FactorReduced(a: int, q: int, r: int, b: int, d: int)
    requires d > 0 && a == q * d + r
    ensures (r * b) % d == (a * b) % d
  {
    Distribute(q, d, r, b);
    ModOf(r * b, q * b, d);
  }

  lemma Distribute(q: int, d: int, r: int, b: int)
    ensures (q * d + r) * b == r * b + (q * b) * d
  {
    assert (q * d + r) * b == (q * d) * b + r * b;
    assert (q * d) * b == (q * b) * d;
  }

  // ----- multiplication -----

  /** An operand as the instruction reads it. */
  function Operand(signed: bool, x: u64): int { if signed then S64(x) else x }

  predicate FirstSigned(t: MulHighType) { !t.HighUnsigned? }

  predicate SecondSigned(t: MulHighType) { t.HighSigned? }

  /** The high half as the instruction means it. */
  function HighHalf(t: MulHighType, h: u64): int { if t.HighUnsigned? then h else S64(h) }

  /** The low half does not depend on the signs. */
  lemma LowHalf(t: MulHighType, x: u64, y: u64)
    ensures (Operand(FirstSigned(t), x) * Operand(SecondSigned(t), y)) % TWO64 == Wrap(W64, x * y)
  {
    var a, b := Operand(FirstSigned(t), x), Operand(SecondSigned(t), y);
    assert a % TWO64 == x && b % TWO64 == y;
    ModProduct(a, b, TWO64);
  }

  /** Bounds of the exact product. */
  lemma ProductBounds(t: MulHighType, x: u64, y: u64)
    ensures var p := Operand(FirstSigned(t), x) * Operand(SecondSigned(t), y);
            if t.HighUnsigned? then 0 <= p < TWO128 else -TWO127 <= p < TWO127
  {
    var a, b := Operand(FirstSigned(t), x), Operand(SecondSigned(t), y);
    if t.HighUnsigned? {
      MulBound(a, b, TWO64, TWO64);
    } else {
      assert -TWO63 <= a < TWO63 && -TWO63 <= b < TWO64;
      SignedBound(a, b);
    }
  }

  lemma MulBound(a: int, b: int, m: int, n: int)
    requires 0 <= a < m && 0 <= b < n
    ensures 0 <= a * b < m * n
  {
    Monotone(0, a, b);
    Monotone(b, n, a);
    Monotone(a, m - 1, n);
    assert (m - 1) * n == m * n - n && a * b == b * a && n * a == a * n;
  }

  lemma SignedBound(a: int, b: int)
    requires -TWO63 <= a < TWO63 && -TWO63 <= b < TWO64
    ensures -TWO127 <= a * b < TWO127
  {
    if b >= 0 {
      if a >= 0 {
        MulBound(a, b, TWO63, TWO64);
      } else {
        MulBound(-a, b, TWO63 + 1, TWO64);
        assert (-a) * b == -(a * b);
        NegBound(-a, b);
      }
    } else if a >= 0 {
      MulBound(a, -b, TWO63, TWO63 + 1);
      assert a * (-b) == -(a * b);
    } else {
      MulBound(-a, -b, TWO63 + 1, TWO63 + 1);
      assert (-a) * (-b) == a * b;
    }
  }

  lemma NegBound(a: int, b: int)
    requires 0 < a <= TWO63 && 0 <= b < TWO64
    ensures a * b <= TWO127
  {
    Monotone(a, TWO63, b);
  }

  lemma Monotone(a: int, c: int, b: int)
    requires a <= c && 0 <= b
    ensures a * b <= c * b
  {
  }

  /** The two halves of a number of 128 bits, read as unsigned or as signed. */
  lemma Halves(p: int)
    ensures 0 <= p < TWO128 ==> (p % TWO128) / TWO64 * TWO64 + p % TWO64 == p
    ensures -TWO127 <= p < TWO127 ==> S64((p % TWO128) / TWO64) * TWO64 + p % TWO64 == p
  {
    assert p < 0 && p >= -TWO127 ==> p % TWO128 == p + TWO128;
  }

  /** High and low half together are the exact product. */
  lemma HighLowProduct(t: MulHighType, x: u64, y: u64)
    ensures HighHalf(t, MulHighValue(t, x, y)) * TWO64 + Wrap(W64, x * y)
            == Operand(FirstSigned(t), x) * Operand(SecondSigned(t), y)
  {
    var a, b := Operand(FirstSigned(t), x), Operand(SecondSigned(t), y);
    var p := a * b;
    assert MulHighValue(t, x, y) == (p % TWO128) / TWO64 by { ModProduct(a, b, TWO128); }
    LowHalf(t, x, y);
    ProductBounds(t, x, y);
    Halves(p);
  }

  /** The same for the high half that compiled code computes. */
  lemma CompiledProduct(t: MulHighType, x: u64, y: u64)
    ensures HighHalf(t, SplitHigh(FirstSigned(t), SecondSigned(t), x, y)) * TWO64 + Wrap(W64, x * y)
            == Operand(FirstSigned(t), x) * Operand(SecondSigned(t), y)
  {
    MulHighAgrees(t, x, y);
    HighLowProduct(t, x, y);
  }

  // ----- division -----

  function Abs(a: int): nat { if a < 0 then -a else a }

  /** Truncating division rounds towards zero. */
  lemma TruncLaws(a: int, b: int)
    requires b != 0
    ensures TruncRem(a, b) == if a >= 0 then Abs(a) % Abs(b) else -(Abs(a) % Abs(b))
    ensures Abs(TruncDiv(a, b)) == Abs(a) / Abs(b)
  {
    var q := Abs(a) / Abs(b);
    Euclid(Abs(a), Abs(b));
    if a >= 0 && b < 0 {
      assert TruncDiv(a, b) == -q && b * -q == Abs(b) * q;
    } else if a < 0 && b > 0 {
      assert TruncDiv(a, b) == -q && b * -q == -(Abs(b) * q);
    } else if a < 0 {
      assert TruncDiv(a, b) == q && b * q == -(Abs(b) * q);
    } else {
      assert TruncDiv(a, b) == q && b * q == Abs(b) * q;
    }
  }

  lemma Euclid(n: nat, d: nat)
    requires d > 0
    ensures n == d * (n / d) + n % d && 0 <= n % d < d && n / d >= 0
  {
  }

  /** A quotient is at most the dividend, and less than it for a divisor above one. */
  lemma QuotientBound(n: nat, d: nat)
    requires d > 0
    ensures n / d <= n && (d > 1 && n > 0 ==> n / d < n)
  {
    FactorBound(n, d, n / d, n % d);
  }

  lemma FactorBound(n: int, d: int, q: int, r: int)
    requires n == d * q + r && d > 0 && q >= 0 && r >= 0
    ensures q <= n && (d > 1 && n > 0 ==> q < n)
  {
    assert d * q == (d - 1) * q + q && (d - 1) * q >= 0;
    if d > 1 && q > 0 { assert (d - 1) * q >= 1; }
  }

  lemma SignedRange(w: Width, v: int)
    requires MinSigned(w) <= v < -MinSigned(w)
    ensures Signed(w, Wrap(w, v)) == v
  {
  }

  /** The values for a zero divisor and for overflow. */
  lemma DivisionCorners(w: Width, x: u64, y: u64, signed: bool)
    ensures Unsigned(w, y) == 0 ==>
              DivisionValue(Quotient(signed), w, x, y) == Wrap(w, -1) && DivisionValue(Remainder(signed), w, x, y) == x
    ensures signed && Overflows(w, x, y) ==>
              Signed(w, DivisionValue(Quotient(true), w, x, y)) == MinSigned(w)
                && DivisionValue(Remainder(true), w, x, y) == 0
  {
  }

  /** Unsigned quotient and remainder of a non-zero divisor. */
  lemma UnsignedDivision(w: Width, x: u64, y: u64)
    requires Unsigned(w, y) != 0
    ensures var q, r := DivisionValue(Quotient(false), w, x, y), DivisionValue(Remainder(false), w, x, y);
            Unsigned(w, x) == Unsigned(w, y) * q + r && 0 <= r < Unsigned(w, y)
  {
    var n: nat, d: nat := Unsigned(w, x), Unsigned(w, y);
    Euclid(n, d);
    QuotientBound(n, d);
    var q, r := n / d, n % d;
    assert DivisionValue(Quotient(false), w, x, y) == Wrap(w, q);
    assert DivisionValue(Remainder(false), w, x, y) == Wrap(w, r);
    hide DivisionValue;
    Small(w, q);
    Small(w, r);
  }

  lemma Small(w: Width, v: int)
    requires 0 <= v < if w.W64? then TWO64 else TWO32
    ensures Wrap(w, v) == v
  {
  }

  /** Signed quotient and remainder of a non-zero divisor without overflow. */
  lemma SignedDivision(w: Width, x: u64, y: u64)
    requires Signed(w, y) != 0 && !Overflows(w, x, y)
    ensures var q := Signed(w, DivisionValue(Quotient(true), w, x, y));
            var r := Signed(w, DivisionValue(Remainder(true), w, x, y));
            && Signed(w, x) == Signed(w, y) * q + r
            && Abs(r) < Abs(Signed(w, y))
            && (r == 0 || (r < 0 <==> Signed(w, x) < 0))
  {
    var a, b := Signed(w, x), Signed(w, y);
    TruncLaws(a, b);
    QuotientBound(Abs(a), Abs(b));
    assert Unsigned(w, y) != 0;
    QuotientInRange(w, a, b);
    SignedRange(w, TruncDiv(a, b));
    SignedRange(w, TruncRem(a, b));
  }

  lemma QuotientInRange(w: Width, a: int, b: int)
    requires MinSigned(w) <= a < -MinSigned(w) && b != 0 && !(a == MinSigned(w) && b == -1)
    ensures MinSigned(w) <= TruncDiv(a, b) < -MinSigned(w)
  {
    TruncLaws(a, b);
    QuotientBound(Abs(a), Abs(b));
    if Abs(b) == 1 { assert Abs(a) / 1 == Abs(a); }
  }

  /** For all operands, divisor times quotient plus remainder is the dividend, modulo the width. */
  lemma DivisionLaw(signed: bool, w: Width, x: u64, y: u64)
    ensures var q, r := DivisionValue(Quotient(signed), w, x, y), DivisionValue(Remainder(signed), w, x, y);
            Wrap(w, y * q + r) == Wrap(w, x)
  {
    hide DivisionValue;
    var q, r := DivisionValue(Quotient(signed), w, x, y), DivisionValue(Remainder(signed), w, x, y);
    DivisionCorners(w, x, y, signed);
    Readings(w, x);
    Readings(w, y);
    Readings(w, q);
    Readings(w, r);
    var d := if w.W64? then TWO64 else TWO32;
    if Unsigned(w, y) == 0 {
      ZeroDivisor(w, x, y, q);
    } else if !signed {
      UnsignedDivision(w, x, y);
      Congruent(d, y, Unsigned(w, y), q, q, r, r);
    } else if Overflows(w, x, y) {
      Congruent(d, y, -1, q, MinSigned(w), r, 0);
    } else {
      SignedDivision(w, x, y);
      Congruent(d, y, Signed(w, y), q, Signed(w, q), r, Signed(w, r));
    }
  }

  /** A pattern and its two readings are congruent. */
  lemma Readings(w: Width, x: u64)
    ensures Wrap(w, x) == Wrap(w, Signed(w, x)) == Wrap(w, Unsigned(w, x))
    ensures Signed(w, x) == 0 <==> Unsigned(w, x) == 0
  {
  }

  lemma ZeroDivisor(w: Width, x: u64, y: u64, q: u64)
    requires Unsigned(w, y) == 0
    ensures Wrap(w, y * q + x) == Wrap(w, x)
  {
    var d := if w.W64? then TWO64 else TWO32;
    assert y == (y / d) * d;
    assert y * q == ((y / d) * q) * d;
    ModOf(x, (y / d) * q, d);
  }

  /** Congruent operands give congruent results. */
  lemma Congruent(d: int, y: int, y': int, q: int, q': int, r: int, r': int)
    requires d > 0 && y % d == y' % d && q % d == q' % d && r % d == r' % d
    ensures (y * q + r) % d == (y' * q' + r') % d
  {
    ModProduct(y, q, d);
    ModProduct(y', q', d);
    ModSum(y * q, r, d);
    ModSum(y' * q', r', d);
  }

  lemma ModSum(a: int, b: int, d: int)
    requires d > 0
    ensures (a + b) % d == ((a % d) + (b % d)) % d
  {
    var p, q := a / d, b / d;
    var r, t := a % d, b % d;
    assert a == p * d + r && b == q * d + t;
    assert (p + q) * d == p * d + q * d;
    ModOf(r + t, p + q, d);
  }

  // ----- the instructions -----

  predicate IsMulHigh(op: OpCode) { op.X64MulHighSigned? || op.X64MulHighSignedUnsigned? || op.X64MulHighUnsigned? }

  function MulHighOf(op: OpCode): MulHighType
    requires IsMulHigh(op)
  {
    if op.X64MulHighSigned? then HighSigned else if op.X64MulHighUnsigned? then HighUnsigned else HighSignedUnsigned
  }

  /** Read two operands, compute, and write the result to `rd`. */
  lemma ThreeRegisterRuns(i: Instruction, o: Op, core: Core, v: u64)
    requires OpScoped(o, 2) && Binds(o) == 1
    requires RunOp(o, [core.XRead(i.rs1), core.XRead(i.rs2)], core) == Yielded([v], core)
    ensures RunBody(ThreeRegister(i, o), [], core, 0) == Yielded([], core.XWrite(i.rd, v))
  {
    hide RunBody, RunOp, KeepsReservation, DivisionFree, ReadsPc, Scoped;
    var x, y := core.XRead(i.rs1), core.XRead(i.rs2);
    var k3 := Do(3, 0, XRegWrite(i.rd, 2), Done(3));
    var k2 := Do(2, 0, o, k3);
    ReadRuns(0, i.rs1, Do(1, 0, XRegRead(i.rs2), k2), [], core);
    ReadRuns(1, i.rs2, k2, [x], core);
    assert [] + [x] == [x] && [x] + [y] == [x, y];
    RunDo(2, 0, o, k3, [x, y], core, v);
    WriteRuns(3, 2, i.rd, [x, y] + [v], core);
  }

  /** An instruction whose body completes with nothing more to do. */
  lemma CompletesNext(i: Instruction, body: Body, core: Core, core': Core)
    requires Scoped(body, 0, 0) && RoutineOf(i) == Routine(body, NextPc(i.width))
             && RunBody(body, [], core, 0) == Yielded([], core')
    ensures RunInstr(i, core) == Ran(Ok(Next(i.width)), core')
  {
    hide RoutineOf, RunBody, Scoped, KeepsReservation, DivisionFree, ReadsPc;
  }

  lemma MulCompute(i: Instruction)
    ensures i.opcode.MulOp? ==> ComputeBody(i) == RegReg(Mul, i)
    ensures IsMulHigh(i.opcode) ==> ComputeBody(i) == MulHighBody(MulHighOf(i.opcode), i)
  {
    hide RegReg, MulHighBody, RegImm, ShiftReg, SetIf, WordOf, ShiftWord, AddToPc, Assign, NegBody, MulWord, Done;
  }

  /** The bodies of the multiplications. */
  lemma MulRoutine(i: Instruction)
    ensures i.opcode.MulOp? ==> RoutineOf(i) == Routine(RegReg(Mul, i), NextPc(i.width))
    ensures IsMulHigh(i.opcode) ==> RoutineOf(i) == Routine(MulHighBody(MulHighOf(i.opcode), i), NextPc(i.width))
  {
    MulCompute(i);
    hide ComputeBody, RegReg, MulHighBody, MemoryBody, BranchBody, JumpBody, SpecialBody, Done;
  }

  lemma MulRuns(i: Instruction, core: Core)
    requires i.opcode.MulOp?
    ensures RunInstr(i, core)
            == Ran(Ok(Next(i.width)), core.XWrite(i.rd, Wrap(W64, core.XRead(i.rs1) * core.XRead(i.rs2))))
  {
    hide RunInstr, RoutineOf, RunBody, KeepsReservation, DivisionFree, ReadsPc, Scoped;
    var v := Wrap(W64, core.XRead(i.rs1) * core.XRead(i.rs2));
    ThreeRegisterRuns(i, Alu(W64, Mul, 0, 1), core, v);
    MulRoutine(i);
    CompletesNext(i, RegReg(Mul, i), core, core.XWrite(i.rd, v));
  }

  lemma MulHighRuns(i: Instruction, core: Core)
    requires IsMulHigh(i.opcode)
    ensures var v := MulHighValue(MulHighOf(i.opcode), core.XRead(i.rs1), core.XRead(i.rs2));
            RunInstr(i, core) == Ran(Ok(Next(i.width)), core.XWrite(i.rd, v))
  {
    hide RunInstr, RoutineOf, RunBody, MulHighValue, KeepsReservation, DivisionFree, ReadsPc, Scoped;
    var t := MulHighOf(i.opcode);
    var v := MulHighValue(t, core.XRead(i.rs1), core.XRead(i.rs2));
    ThreeRegisterRuns(i, MulHigh(t, 0, 1), core, v);
    MulRoutine(i);
    CompletesNext(i, MulHighBody(t, i), core, core.XWrite(i.rd, v));
  }

  /** What an instruction leaves in its destination register. */
  function Written(i: Instruction, core: Core): u64 { RunInstr(i, core).core.XRead(i.rd) }

  /** The two multiplication instructions together compute the exact product. */
  lemma MultiplicationPair(high: Instruction, low: Instruction, core: Core)
    requires IsMulHigh(high.opcode) && low.opcode.MulOp? && high.rd != 0 && low.rd != 0
    requires high.rs1 == low.rs1 && high.rs2 == low.rs2
    ensures var t := MulHighOf(high.opcode);
            HighHalf(t, Written(high, core)) * TWO64 + Written(low, core)
            == Operand(FirstSigned(t), core.XRead(high.rs1)) * Operand(SecondSigned(t), core.XRead(high.rs2))
  {
    hide RunInstr, MulHighValue, Operand;
    MulHighRuns(high, core);
    MulRuns(low, core);
    HighLowProduct(MulHighOf(high.opcode), core.XRead(high.rs1), core.XRead(high.rs2));
  }

  lemma DivisionInstr(i: Instruction, core: Core)
    requires IsDivision(i.opcode)
    ensures RunInstr(i, core) == Ran(Ok(Next(i.width)), core.XWrite(i.rd, DivisionResult(i, core)))
  {
    hide RoutineOf, RunRoutine, DivisionResult;
    DivisionRuns(i, core);
  }

  /** A division and a remainder instruction of the same width and signedness. */
  predicate Matched(div: OpCode, rem: OpCode) {
    && IsDivision(div) && IsDivision(rem) && (IsDoubleDivision(div) <==> IsDoubleDivision(rem))
    && DivisionOf(div).Quotient? && DivisionOf(rem).Remainder? && DivisionOf(div).signed == DivisionOf(rem).signed
  }

  /** The two division instructions together give back the dividend, modulo the width. */
  lemma DivisionPair(div: Instruction, rem: Instruction, core: Core)
    requires Matched(div.opcode, rem.opcode) && div.rd != 0 && rem.rd != 0 && div.rs1 == rem.rs1 && div.rs2 == rem.rs2
    ensures var w := if IsDoubleDivision(div.opcode) then W64 else W32;
            Wrap(w, core.XRead(div.rs2) * Written(div, core) + Written(rem, core)) == Wrap(w, core.XRead(div.rs1))
  {
    hide RunInstr, DivisionValue, Wrap, U32, S32, U64;
    DivisionInstr(div, core);
    DivisionInstr(rem, core);
    var x, y := core.XRead(div.rs1), core.XRead(div.rs2);
    var signed := DivisionOf(div.opcode).signed;
    assert DivisionOf(div.opcode) == Quotient(signed) && DivisionOf(rem.opcode) == Remainder(signed);
    if IsDoubleDivision(div.opcode) {
      DivisionLaw(signed, W64, x, y);
    } else {
      WordDivisionLaw(signed, x, y);
    }
  }

  /** The law for the low halves of the operands and sign-extended results. */
  lemma WordDivisionLaw(signed: bool, x: u64, y: u64)
    ensures var q := DivisionValue(Quotient(signed), W32, U32(x), U32(y));
            var r := DivisionValue(Remainder(signed), W32, U32(x), U32(y));
            Wrap(W32, y * U64(S32(q)) + U64(S32(r))) == Wrap(W32, x)
  {
    hide DivisionValue, S32, U64;
    var q := DivisionValue(Quotient(signed), W32, U32(x), U32(y));
    var r := DivisionValue(Remainder(signed), W32, U32(x), U32(y));
    DivisionLaw(signed, W32, U32(x), U32(y));
    SignExtended(q);
    SignExtended(r);
    Congruent(TWO32, y, U32(y), U64(S32(q)), q, U64(S32(r)), r);
  }

  lemma SignExtended(v: u64)
    ensures U64(S32(v)) % TWO32 == v % TWO32
  {
  }
}
