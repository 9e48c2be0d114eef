/**
 Facts about the direct interpretation of instructions, and running one instruction.
 */
module Execution {
  import opened Words
  import opened Memory
  import opened Machine
  import opened Icb
  import opened Instructions

  // ----- what every body keeps -----

  /** Bodies never move the program counter themselves, and store only where memory is writable. */
  lemma {:induction false} BodyKeeps(c: Body, env: seq<u64>, core: Core, outs: nat)
    requires Scoped(c, |env|, outs)
    ensures var r := RunBody(c, env, core, outs);
            !r.Panicked? ==> r.core.pc == core.pc && SameCode(core.mem, r.core.mem)
    decreases c
  {
    match c
    case Let(o, k) =>
      OpKeeps(o, env, core);
      var r := RunOp(o, env, core);
      if r.Yielded? {
        BodyKeeps(k, env + r.vals, r.core, outs);
        var r' := RunBody(k, env + r.vals, r.core, outs);
        if !r'.Panicked? { SameCodeTransitive(core.mem, r.core.mem, r'.core.mem); }
      }
    case Merge(cond, t, f, phis, k) =>
      var arm := if env[cond] != 0 then t else f;
      BodyKeeps(arm, env, core, phis);
      var r := RunBody(arm, env, core, phis);
      if r.Yielded? {
        BodyKeeps(k, env + r.vals, r.core, outs);
        var r' := RunBody(k, env + r.vals, r.core, outs);
        if !r'.Panicked? { SameCodeTransitive(core.mem, r.core.mem, r'.core.mem); }
      }
    case Yield(_) =>
  }

  lemma OpKeeps(o: Op, env: seq<u64>, core: Core)
    requires OpScoped(o, |env|)
    ensures var r := RunOp(o, env, core);
            !r.Panicked? ==> r.core.pc == core.pc && SameCode(core.mem, r.core.mem)
  {
    if o.Store? && Write(core.mem, env[o.a], o.size, Truncate(o.size, env[o.v])).Some? {
      WriteKeepsCode(core.mem, env[o.a], o.size, Truncate(o.size, env[o.v]));
    }
  }

  lemma {:induction false} ReservationStays(c: Body, env: seq<u64>, core: Core, outs: nat)
    requires Scoped(c, |env|, outs) && KeepsReservation(c)
    ensures var r := RunBody(c, env, core, outs);
            !r.Panicked? ==> r.core.reservation == core.reservation
    decreases c
  {
    match c
    case Let(o, k) =>
      var r := RunOp(o, env, core);
      if r.Yielded? { ReservationStays(k, env + r.vals, r.core, outs); }
    case Merge(cond, t, f, phis, k) =>
      var arm := if env[cond] != 0 then t else f;
      ReservationStays(arm, env, core, phis);
      var r := RunBody(arm, env, core, phis);
      if r.Yielded? { ReservationStays(k, env + r.vals, r.core, outs); }
    case Yield(_) =>
  }

  /** Only divisions can panic. */
  lemma {:induction false} OnlyDivisionPanics(c: Body, env: seq<u64>, core: Core, outs: nat)
    requires Scoped(c, |env|, outs) && DivisionFree(c)
    ensures !RunBody(c, env, core, outs).Panicked?
    decreases c
  {
    match c
    case Let(o, k) =>
      var r := RunOp(o, env, core);
      if r.Yielded? { OnlyDivisionPanics(k, env + r.vals, r.core, outs); }
    case Merge(cond, t, f, phis, k) =>
      var arm := if env[cond] != 0 then t else f;
      OnlyDivisionPanics(arm, env, core, phis);
      var r := RunBody(arm, env, core, phis);
      if r.Yielded? { OnlyDivisionPanics(k, env + r.vals, r.core, outs); }
    case Yield(_) =>
  }

  // ----- division -----

  predicate Overflows(w: Width, x: u64, y: u64) { Signed(w, x) == MinSigned(w) && Signed(w, y) == -1 }

  /** The value of a division or remainder, with its values for a zero divisor and for overflow. */
  function DivisionValue(d: Division, w: Width, x: u64, y: u64): u64 {
    if Unsigned(w, y) == 0 then
      if d.Quotient? then Wrap(w, -1) else x
    else if d.signed && Overflows(w, x, y) then
      if d.Quotient? then Wrap(w, MinSigned(w)) else 0
    else match d
      case Quotient(true) => Wrap(w, TruncDiv(Signed(w, x), Signed(w, y)))
      case Quotient(false) => Wrap(w, Unsigned(w, x) / Unsigned(w, y))
      case Remainder(true) => Wrap(w, TruncRem(Signed(w, x), Signed(w, y)))
      case Remainder(false) => Wrap(w, Unsigned(w, x) % Unsigned(w, y))
  }

  /** The machine division is only reached with legal operands, and gives the value above. */
  lemma LegalDivision(d: Division, w: Width, x: u64, y: u64)
    requires Unsigned(w, y) != 0 && !(d.signed && Overflows(w, x, y))
    ensures AluValue(w, DivisionOp(d), x, y) == Some(DivisionValue(d, w, x, y))
  {
  }

  lemma RunDo(n: nat, outs: nat, o: Op, k: Body, env: seq<u64>, core: Core, v: u64)
    requires n == |env| && OpScoped(o, n) && Scoped(k, n + Binds(o), outs)
    requires RunOp(o, env, core) == Yielded([v], core)
    ensures RunBody(Do(n, outs, o, k), env, core, outs) == RunBody(k, env + [v], core, outs)
  {
  }

  lemma RunDoWith(n: nat, o: Op, k: Body, env: seq<u64>, core: Core, vals: seq<u64>, core': Core)
    requires n == |env| && OpScoped(o, n) && Scoped(k, n + Binds(o), 0)
    requires RunOp(o, env, core) == Yielded(vals, core')
    ensures RunBody(Do(n, 0, o, k), env, core, 0) == RunBody(k, env + vals, core', 0)
  {
  }

  lemma RunRaises(n: nat, o: Op, k: Body, env: seq<u64>, core: Core, x: Exception, core': Core)
    requires n == |env| && OpScoped(o, n) && Scoped(k, n + Binds(o), 0)
    requires RunOp(o, env, core) == Raised(x, core')
    ensures RunBody(Do(n, 0, o, k), env, core, 0) == Raised(x, core')
  {
  }

  lemma RunResult1(v: Var, env: seq<u64>, core: Core)
    requires v < |env|
    ensures RunBody(Result(|env|, v), env, core, 1) == Yielded([env[v]], core)
  {
    assert Pick(env, [v]) == [env[v]];
  }

  lemma NonZeroArmRuns(d: Division, w: Width, x: Var, y: Var, env: seq<u64>, core: Core)
    requires x < |env| && y < |env| && |env| > 1 && env[|env| - 2] == 0
    requires Unsigned(w, env[y]) != 0
    ensures RunBody(NonZeroArm(d, w, x, y, |env|), env, core, 1) == Yielded([DivisionValue(d, w, env[x], env[y])], core)
  {
    var n := |env|;
    var op := Alu(w, DivisionOp(d), x, y);
    if !d.signed {
      var q := DivisionValue(d, w, env[x], env[y]);
      LegalDivision(d, w, env[x], env[y]);
      RunDo(n, 1, op, Result(n + 1, n), env, core, q);
      RunResult1(n, env + [q], core);
    } else {
      SignedArmRuns(d, w, x, y, env, core);
    }
  }

  lemma OverflowChoiceRuns(d: Division, w: Width, x: Var, y: Var, n: nat, env: seq<u64>, core: Core)
    requires d.signed && x < n && y < n && n > 1 && |env| == n + 5 && env[n - 2] == 0
    requires Unsigned(w, env[y]) != 0 && env[n + 4] == FromBool(Overflows(w, env[x], env[y]))
    ensures RunBody(OverflowChoice(d, w, x, y, n), env, core, 1) == Yielded([DivisionValue(d, w, env[x], env[y])], core)
  {
    var q := DivisionValue(d, w, env[x], env[y]);
    if Overflows(w, env[x], env[y]) {
      if d.Quotient? {
        RunDo(n + 5, 1, Imm(w, MinSigned(w)), Result(n + 6, n + 5), env, core, q);
        RunResult1(n + 5, env + [q], core);
      } else {
        RunResult1(n - 2, env, core);
      }
    } else {
      LegalDivision(d, w, env[x], env[y]);
      RunDo(n + 5, 1, Alu(w, DivisionOp(d), x, y), Result(n + 6, n + 5), env, core, q);
      RunResult1(n + 5, env + [q], core);
    }
    RunResult1(n + 5, env + [q], core);
  }

  lemma OverflowTestRuns(d: Division, w: Width, x: Var, y: Var, n: nat, env: seq<u64>, core: Core)
    requires d.signed && x < n && y < n && n > 1 && |env| == n + 2 && env[n - 2] == 0
    requires env[n] == Wrap(w, MinSigned(w)) && env[n + 1] == Wrap(w, -1)
    requires Unsigned(w, env[y]) != 0
    ensures RunBody(OverflowTest(d, w, x, y, n), env, core, 1) == Yielded([DivisionValue(d, w, env[x], env[y])], core)
  {
    hide DivisionValue, OverflowChoice, AluValue, RunBody, Holds, Wrap, Signed, Unsigned, KeepsReservation,
      DivisionFree, ReadsPc, Scoped;
    var isOne, isMin := FromBool(Signed(w, env[y]) == -1), FromBool(Signed(w, env[x]) == MinSigned(w));
    var k4 := Do(n + 4, 1, BoolAnd(n + 2, n + 3), OverflowChoice(d, w, x, y, n));
    var k3 := Do(n + 3, 1, Compare(w, Equal, x, n), k4);
    LimitTests(w, env[x], env[y]);
    RunDo(n + 2, 1, Compare(w, Equal, y, n + 1), k3, env, core, isOne);
    RunDo(n + 3, 1, Compare(w, Equal, x, n), k4, env + [isOne], core, isMin);
    OverflowFlagRuns(d, w, x, y, n, env + [isOne] + [isMin], core);
  }

  lemma OverflowFlagRuns(d: Division, w: Width, x: Var, y: Var, n: nat, env: seq<u64>, core: Core)
    requires d.signed && x < n && y < n && n > 1 && |env| == n + 4 && env[n - 2] == 0
    requires env[n + 2] == FromBool(Signed(w, env[y]) == -1)
             && env[n + 3] == FromBool(Signed(w, env[x]) == MinSigned(w))
    requires Unsigned(w, env[y]) != 0
    ensures RunBody(Do(n + 4, 1, BoolAnd(n + 2, n + 3), OverflowChoice(d, w, x, y, n)), env, core, 1)
            == Yielded([DivisionValue(d, w, env[x], env[y])], core)
  {
    hide DivisionValue, OverflowChoice, RunBody, Bits64, Signed, Unsigned, KeepsReservation, DivisionFree, ReadsPc,
      Scoped;
    var both := FromBool(Overflows(w, env[x], env[y]));
    AndOfBools(Signed(w, env[y]) == -1, Signed(w, env[x]) == MinSigned(w));
    RunDo(n + 4, 1, BoolAnd(n + 2, n + 3), OverflowChoice(d, w, x, y, n), env, core, both);
    OverflowChoiceRuns(d, w, x, y, n, env + [both], core);
  }

  /** Comparing bit patterns with the limits decides the signed comparison. */
  lemma LimitTests(w: Width, x: u64, y: u64)
    ensures Holds(w, Equal, y, Wrap(w, -1)) == (Signed(w, y) == -1)
    ensures Holds(w, Equal, x, Wrap(w, MinSigned(w))) == (Signed(w, x) == MinSigned(w))
  {
  }

  lemma SignedArmRuns(d: Division, w: Width, x: Var, y: Var, env: seq<u64>, core: Core)
    requires d.signed && x < |env| && y < |env| && |env| > 1 && env[|env| - 2] == 0
    requires Unsigned(w, env[y]) != 0
    ensures RunBody(NonZeroArm(d, w, x, y, |env|), env, core, 1) == Yielded([DivisionValue(d, w, env[x], env[y])], core)
  {
    var n := |env|;
    var min, one := Wrap(w, MinSigned(w)), Wrap(w, -1);
    var k2 := OverflowTest(d, w, x, y, n);
    var k1 := Do(n + 1, 1, Imm(w, -1), k2);
    assert NonZeroArm(d, w, x, y, n) == Do(n, 1, Imm(w, MinSigned(w)), k1);
    RunDo(n, 1, Imm(w, MinSigned(w)), k1, env, core, min);
    RunDo(n + 1, 1, Imm(w, -1), k2, env + [min], core, one);
    OverflowTestRuns(d, w, x, y, n, env + [min] + [one], core);
  }

  /** The value for a zero divisor. */
  lemma ZeroArmRuns(d: Division, w: Width, x: Var, y: Var, env: seq<u64>, core: Core)
    requires x < |env| && y < |env| && Unsigned(w, env[y]) == 0
    ensures var n := |env|;
            RunBody(if d.Quotient? then Do(n, 1, Imm(w, -1), Result(n + 1, n)) else Result(n, x), env, core, 1)
            == Yielded([DivisionValue(d, w, env[x], env[y])], core)
  {
    var n, q := |env|, DivisionValue(d, w, env[x], env[y]);
    if d.Quotient? {
      RunDo(n, 1, Imm(w, -1), Result(n + 1, n), env, core, q);
      RunResult1(n, env + [q], core);
    } else {
      RunResult1(x, env, core);
    }
  }

  /** Dividing goes on with the value of the division. */
  lemma DivideRuns(d: Division, w: Width, x: Var, y: Var, k: Body, env: seq<u64>, core: Core)
    requires x < |env| && y < |env| && |env| > 1 && Scoped(k, |env| + 3, 0) && KeepsReservation(k)
    ensures var isZero := FromBool(Unsigned(w, env[y]) == 0);
            RunBody(Divide(d, w, x, y, |env|, k), env, core, 0)
            == RunBody(k, env + [0] + [isZero] + [DivisionValue(d, w, env[x], env[y])], core, 0)
  {
    hide DivisionValue, NonZeroArm;
    var n := |env|;
    var isZero := FromBool(Unsigned(w, env[y]) == 0);
    var onZero := if d.Quotient? then Do(n + 2, 1, Imm(w, -1), Result(n + 3, n + 2)) else Result(n + 2, x);
    var k2 := Choose(n + 2, 0, n + 1, onZero, NonZeroArm(d, w, x, y, n + 2), 1, k);
    var k1 := Do(n + 1, 0, Compare(w, Equal, y, n), k2);
    assert Divide(d, w, x, y, n, k) == Do(n, 0, Imm(w, 0), k1);
    var env2 := env + [0] + [isZero];
    RunDo(n, 0, Imm(w, 0), k1, env, core, 0);
    RunDo(n + 1, 0, Compare(w, Equal, y, n), k2, env + [0], core, isZero);
    if isZero != 0 {
      ZeroArmRuns(d, w, x, y, env2, core);
    } else {
      NonZeroArmRuns(d, w, x, y, env2, core);
    }
  }

  // ----- instructions -----

  /** What a division instruction writes to `rd`. */
  function DivisionResult(i: Instruction, core: Core): u64
    requires IsDivision(i.opcode)
  {
    var d, x, y := DivisionOf(i.opcode), core.XRead(i.rs1), core.XRead(i.rs2);
    if IsDoubleDivision(i.opcode) then DivisionValue(d, W64, x, y)
    else U64(S32(DivisionValue(d, W32, U32(x), U32(y))))
  }

  lemma DivideDoubleRuns(d: Division, i: Instruction, core: Core)
    ensures RunBody(DivideDouble(d, i), [], core, 0)
            == Yielded([], core.XWrite(i.rd, DivisionValue(d, W64, core.XRead(i.rs1), core.XRead(i.rs2))))
  {
    hide DivisionValue, RunBody, KeepsReservation, DivisionFree, ReadsPc, Scoped;
    var x, y := core.XRead(i.rs1), core.XRead(i.rs2);
    OperandsRun(i, DivideOperands(d, i), core);
    DivideOperandsRun(d, i, core, [x, y]);
  }

  lemma OperandsRun(i: Instruction, k: Body, core: Core)
    requires Scoped(k, 2, 0) && KeepsReservation(k)
    ensures RunBody(Operands(i, k), [], core, 0) == RunBody(k, [core.XRead(i.rs1), core.XRead(i.rs2)], core, 0)
  {
    var x, y := core.XRead(i.rs1), core.XRead(i.rs2);
    ReadRuns(0, i.rs1, Do(1, 0, XRegRead(i.rs2), k), [], core);
    ReadRuns(1, i.rs2, k, [x], core);
    assert [] + [x] == [x] && [x] + [y] == [x, y];
  }

  lemma ReadRuns(n: nat, r: Reg, k: Body, env: seq<u64>, core: Core)
    requires n == |env| && Scoped(k, n + 1, 0)
    ensures RunBody(Do(n, 0, XRegRead(r), k), env, core, 0) == RunBody(k, env + [core.XRead(r)], core, 0)
  {
  }

  lemma DivideOperandsRun(d: Division, i: Instruction, core: Core, env: seq<u64>)
    requires |env| == 2
    ensures RunBody(DivideOperands(d, i), env, core, 0)
            == Yielded([], core.XWrite(i.rd, DivisionValue(d, W64, env[0], env[1])))
  {
    hide DivisionValue, Divide;
    var q := DivisionValue(d, W64, env[0], env[1]);
    DivideRuns(d, W64, 0, 1, Do(5, 0, XRegWrite(i.rd, 4), Done(5)), env, core);
    WriteRuns(5, 4, i.rd, env + [0] + [FromBool(Unsigned(W64, env[1]) == 0)] + [q], core);
  }

  lemma WriteRuns(n: nat, v: Var, rd: Reg, env: seq<u64>, core: Core)
    requires n == |env| && v < n
    ensures RunBody(Do(n, 0, XRegWrite(rd, v), Done(n)), env, core, 0) == Yielded([], core.XWrite(rd, env[v]))
  {
    assert Pick(env, []) == [];
    assert env + [] == env;
  }

  lemma WriteExtendedRuns(n: nat, v: Var, rd: Reg, env: seq<u64>, core: Core)
    requires n == |env| && v < n
    ensures RunBody(WriteExtended(n, v, rd), env, core, 0) == Yielded([], core.XWrite(rd, U64(S32(env[v]))))
  {
    var x := U64(S32(env[v]));
    RunDo(n, 0, ExtendSigned(v), Do(n + 1, 0, XRegWrite(rd, n), Done(n + 1)), env, core, x);
    WriteRuns(n + 1, n, rd, env + [x], core);
  }

  lemma DivideNarrowedRuns(d: Division, i: Instruction, core: Core, env: seq<u64>)
    requires |env| == 4
    ensures RunBody(DivideNarrowed(d, i), env, core, 0)
            == Yielded([], core.XWrite(i.rd, U64(S32(DivisionValue(d, W32, env[2], env[3])))))
  {
    DivideRuns(d, W32, 2, 3, WriteExtended(7, 6, i.rd), env, core);
    var q := DivisionValue(d, W32, env[2], env[3]);
    WriteExtendedRuns(7, 6, i.rd, env + [0] + [FromBool(Unsigned(W32, env[3]) == 0)] + [q], core);
  }

  lemma NarrowedOperandsRun(i: Instruction, k: Body, core: Core)
    requires Scoped(k, 4, 0) && KeepsReservation(k)
    ensures var x, y := core.XRead(i.rs1), core.XRead(i.rs2);
            RunBody(NarrowedOperands(i, k), [], core, 0) == RunBody(k, [x, y, U32(x), U32(y)], core, 0)
  {
    hide RunBody, KeepsReservation, DivisionFree, ReadsPc, Scoped;
    var x, y := core.XRead(i.rs1), core.XRead(i.rs2);
    var k3 := Do(3, 0, Narrow(1), k);
    var k2 := Do(2, 0, Narrow(0), k3);
    var k1 := Do(1, 0, XRegRead(i.rs2), k2);
    ReadRuns(0, i.rs1, k1, [], core);
    assert [] + [x] == [x] && [x] + [y] == [x, y] && [x, y] + [U32(x)] == [x, y, U32(x)];
    ReadRuns(1, i.rs2, k2, [x], core);
    RunDo(2, 0, Narrow(0), k3, [x, y], core, U32(x));
    RunDo(3, 0, Narrow(1), k, [x, y, U32(x)], core, U32(y));
    assert [x, y, U32(x)] + [U32(y)] == [x, y, U32(x), U32(y)];
  }

  lemma DivideWordRuns(d: Division, i: Instruction, core: Core)
    ensures RunBody(DivideWord(d, i), [], core, 0)
            == var v := DivisionValue(d, W32, U32(core.XRead(i.rs1)), U32(core.XRead(i.rs2)));
               Yielded([], core.XWrite(i.rd, U64(S32(v))))
  {
    var x, y := core.XRead(i.rs1), core.XRead(i.rs2);
    NarrowedOperandsRun(i, DivideNarrowed(d, i), core);
    DivideNarrowedRuns(d, i, core, [x, y, U32(x), U32(y)]);
  }

  /** Opcodes with a body of their own are dispatched to it. */
  lemma SpecialRoutine(i: Instruction)
    requires IsSpecial(i.opcode)
    ensures RoutineOf(i) == Routine(SpecialBody(i), NextPc(i.width))
  {
    hide SpecialBody, MemoryBody, BranchBody, JumpBody, ComputeBody, Done;
  }

  lemma DivisionBodyRuns(i: Instruction, core: Core)
    requires IsDivision(i.opcode)
    ensures RunBody(SpecialBody(i), [], core, 0) == Yielded([], core.XWrite(i.rd, DivisionResult(i, core)))
  {
    if IsDoubleDivision(i.opcode) {
      DivideDoubleRuns(DivisionOf(i.opcode), i, core);
    } else {
      DivideWordRuns(DivisionOf(i.opcode), i, core);
    }
  }

  /** Every division instruction completes, writing the value of the division. */
  lemma DivisionRuns(i: Instruction, core: Core)
    requires IsDivision(i.opcode)
    ensures RunRoutine(RoutineOf(i), core) == Finished(Ok(Next(i.width)), core.XWrite(i.rd, DivisionResult(i, core)))
  {
    SpecialRoutine(i);
    DivisionBodyRuns(i, core);
  }

  /** No instruction ever panics, whatever the machine state. */
  lemma NeverCrashes(i: Instruction, core: Core)
    ensures RunRoutine(RoutineOf(i), core).Finished?
  {
    if IsDivision(i.opcode) {
      DivisionRuns(i, core);
    } else {
      var r := RoutineOf(i);
      OnlyDivisionPanics(r.body, [], core, TailOuts(r.tail));
    }
  }

  datatype Ran = Ran(result: RunResult, core: Core)

  /** Run an instruction over the machine core state. */
  function RunInstr(i: Instruction, core: Core): Ran {
    NeverCrashes(i, core);
    var f := RunRoutine(RoutineOf(i), core);
    Ran(f.result, f.core)
  }

  /** Instructions leave the program counter to the caller, and code on non-writable pages alone. */
  lemma RunKeeps(i: Instruction, core: Core)
    ensures RunInstr(i, core).core.pc == core.pc
    ensures SameCode(core.mem, RunInstr(i, core).core.mem)
  {
    hide RoutineOf;
    NeverCrashes(i, core);
    var r := RoutineOf(i);
    BodyKeeps(r.body, [], core, TailOuts(r.tail));
  }
}
