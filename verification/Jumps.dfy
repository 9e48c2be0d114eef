/**
 Where jumps and branches lead, and that instructions keep to even addresses.
 */
module Jumps {
  import opened Words
  import opened Memory
  import opened Machine
  import opened Icb
  import opened Instructions
  import opened Execution
  import opened Blocks
  import opened Isa
  import opened Transparency

  function Even(x: u64): u64 { x - x % 2 }

  /** The target of an unconditional jump: relative to the program counter, or an even address. */
  function JumpTarget(i: Instruction, core: Core): u64
    requires IsJump(i.opcode)
  {
    if i.opcode.J? || i.opcode.Jal? then Plus(core.pc, i.imm)
    else if i.opcode.Jr? || i.opcode.Jalr? then Even(core.XRead(i.rs1))
    else if i.opcode.JrImm? || i.opcode.JalrImm? then Even(Plus(core.XRead(i.rs1), i.imm))
    else Even(U64(i.imm))
  }

  predicate Links(op: OpCode) { op.Jal? || op.Jalr? || op.JalrImm? || op.JalrAbsolute? }

  /** The core after a jump: the return address is written by the linking ones. */
  function Jumped(i: Instruction, core: Core): Core {
    if Links(i.opcode) then core.XWrite(i.rd, Plus(core.pc, WidthBytes(i.width))) else core
  }

  // ----- pieces of jump bodies -----

  /** Adding an immediate is adding its two's complement pattern. */
  lemma PlusImm(x: u64, imm: int)
    ensures Plus(x, U64(imm)) == Plus(x, imm)
  {
  }

  lemma SummedRuns(x: Var, y: Var, k: Body, env: seq<u64>, core: Core)
    requires x < |env| && y < |env| && Scoped(k, |env| + 1, 1) && KeepsReservation(k) && DivisionFree(k)
    ensures RunBody(Summed(|env|, x, y, k), env, core, 1) == RunBody(k, env + [Plus(env[x], env[y])], core, 1)
  {
    RunDo(|env|, 1, Alu(W64, Add, x, y), k, env, core, Plus(env[x], env[y]));
  }

  lemma MaskedRuns(x: Var, k: Body, env: seq<u64>, core: Core)
    requires x < |env| && Scoped(k, |env| + 2, 1) && KeepsReservation(k) && DivisionFree(k)
    ensures RunBody(Masked(|env|, x, k), env, core, 1) == RunBody(k, env + [TWO64 - 2, Even(env[x])], core, 1)
  {
    hide RunBody, KeepsReservation, DivisionFree, ReadsPc, Scoped;
    var n, m := |env|, TWO64 - 2;
    AndNot1(env[x]);
    RunDo(n, 1, Imm(W64, -2), Do(n + 1, 1, Alu(W64, And, x, n), k), env, core, m);
    RunDo(n + 1, 1, Alu(W64, And, x, n), k, env + [m], core, Even(env[x]));
    assert env + [m] + [Even(env[x])] == env + [m, Even(env[x])];
  }

  lemma WriteLinkRuns(target: Var, rd: Reg, env: seq<u64>, core: Core)
    requires 2 < |env| && target < |env|
    ensures RunBody(WriteLink(|env|, target, rd), env, core, 1) == Yielded([env[target]], core.XWrite(rd, env[2]))
  {
    assert env + [] == env;
    RunResult1(target, env, core.XWrite(rd, env[2]));
  }

  /** The return address is the third variable of a linking jump. */
  lemma LinkingRuns(i: Instruction, k: Body, core: Core)
    requires Scoped(k, 3, 1) && KeepsReservation(k) && DivisionFree(k)
    ensures var w := WidthBytes(i.width);
            RunBody(Linking(i, k), [], core, 1) == RunBody(k, [core.pc, w, Plus(core.pc, w)], core, 1)
  {
    hide RunBody, Plus, Masked, Summed, WriteLink, KeepsReservation, DivisionFree, ReadsPc, Scoped;
    var pc, w := core.pc, WidthBytes(i.width);
    RunDo(0, 1, PcRead, Do(1, 1, Imm(W64, w), Summed(2, 0, 1, k)), [], core, pc);
    assert [] + [pc] == [pc] && [pc] + [w] == [pc, w];
    RunDo(1, 1, Imm(W64, w), Summed(2, 0, 1, k), [pc], core, w);
    SummedRuns(0, 1, k, [pc, w], core);
    assert [pc, w] + [Plus(pc, w)] == [pc, w, Plus(pc, w)];
  }

  // ----- jumps without a link -----

  lemma RelativeRuns(i: Instruction, core: Core)
    ensures RunBody(JumpRelative(i), [], core, 1) == Yielded([Plus(core.pc, i.imm)], core)
  {
    hide RunBody, Plus, Masked, Summed, WriteLink, KeepsReservation, DivisionFree, ReadsPc, Scoped;
    var imm := U64(i.imm);
    PlusImm(core.pc, i.imm);
    RunDo(0, 1, Imm(W64, i.imm), Do(1, 1, PcRead, Summed(2, 1, 0, Result(3, 2))), [], core, imm);
    RunDo(1, 1, PcRead, Summed(2, 1, 0, Result(3, 2)), [] + [imm], core, core.pc);
    SummedRuns(1, 0, Result(3, 2), [] + [imm] + [core.pc], core);
    RunResult1(2, [] + [imm] + [core.pc] + [Plus(core.pc, imm)], core);
  }

  /** Jumping to a value that the first operation gives. */
  lemma MaskFirst(o: Op, v: u64, core: Core)
    requires OpScoped(o, 0) && Binds(o) == 1 && RunOp(o, [], core) == Yielded([v], core)
    ensures RunBody(Do(0, 1, o, Masked(1, 0, Result(3, 2))), [], core, 1) == Yielded([Even(v)], core)
  {
    hide RunBody, Plus, Masked, Summed, WriteLink, KeepsReservation, DivisionFree, ReadsPc, Scoped;
    RunDo(0, 1, o, Masked(1, 0, Result(3, 2)), [], core, v);
    assert [] + [v] == [v];
    MaskedRuns(0, Result(3, 2), [v], core);
    RunResult1(2, [v] + [TWO64 - 2, Even(v)], core);
  }

  lemma RegImmRuns(i: Instruction, env: seq<u64>, core: Core)
    requires |env| == 0
    ensures RunBody(Do(0, 1, XRegRead(i.rs1), Do(1, 1, Imm(W64, i.imm), Summed(2, 0, 1, Masked(3, 2, Result(5, 4))))),
                    env, core, 1)
            == Yielded([Even(Plus(core.XRead(i.rs1), i.imm))], core)
  {
    hide RunBody, Plus, Masked, Summed, WriteLink, KeepsReservation, DivisionFree, ReadsPc, Scoped;
    var x, imm := core.XRead(i.rs1), U64(i.imm);
    var sum := Plus(x, imm);
    PlusImm(x, i.imm);
    var k2 := Masked(3, 2, Result(5, 4));
    var k1 := Summed(2, 0, 1, k2);
    RunDo(0, 1, XRegRead(i.rs1), Do(1, 1, Imm(W64, i.imm), k1), env, core, x);
    RunDo(1, 1, Imm(W64, i.imm), k1, env + [x], core, imm);
    SummedRuns(0, 1, k2, env + [x] + [imm], core);
    MaskedRuns(2, Result(5, 4), env + [x] + [imm] + [sum], core);
    RunResult1(4, env + [x] + [imm] + [sum] + [TWO64 - 2, Even(sum)], core);
  }

  // ----- jumps with a link -----

  lemma LinkRelativeRuns(i: Instruction, core: Core, w: u64, ret: u64)
    ensures RunBody(Do(3, 1, Imm(W64, i.imm), Summed(4, 0, 3, WriteLink(5, 4, i.rd))), [core.pc, w, ret], core, 1)
            == Yielded([Plus(core.pc, i.imm)], core.XWrite(i.rd, ret))
  {
    hide RunBody, Plus, Masked, Summed, WriteLink, KeepsReservation, DivisionFree, ReadsPc, Scoped;
    var imm, env := U64(i.imm), [core.pc, w, ret];
    PlusImm(core.pc, i.imm);
    var k := WriteLink(5, 4, i.rd);
    RunDo(3, 1, Imm(W64, i.imm), Summed(4, 0, 3, k), env, core, imm);
    SummedRuns(0, 3, k, env + [imm], core);
    WriteLinkRuns(4, i.rd, env + [imm] + [Plus(core.pc, imm)], core);
  }

  lemma LinkMaskRuns(o: Op, v: u64, rd: Reg, env: seq<u64>, core: Core)
    requires |env| == 3 && OpScoped(o, 3) && Binds(o) == 1 && RunOp(o, env, core) == Yielded([v], core)
    requires OpKeepsReservation(o) && !OpDivides(o)
    ensures RunBody(Do(3, 1, o, Masked(4, 3, WriteLink(6, 5, rd))), env, core, 1)
            == Yielded([Even(v)], core.XWrite(rd, env[2]))
  {
    hide RunBody, Plus, Masked, Summed, WriteLink, KeepsReservation, DivisionFree, ReadsPc, Scoped;
    var k := WriteLink(6, 5, rd);
    RunDo(3, 1, o, Masked(4, 3, k), env, core, v);
    MaskedRuns(3, k, env + [v], core);
    WriteLinkRuns(5, rd, env + [v] + [TWO64 - 2, Even(v)], core);
  }

  lemma LinkRegImmRuns(i: Instruction, env: seq<u64>, core: Core)
    requires |env| == 3
    ensures RunBody(Do(3, 1, XRegRead(i.rs1),
                       Do(4, 1, Imm(W64, i.imm), Summed(5, 3, 4, Masked(6, 5, WriteLink(8, 7, i.rd))))), env, core, 1)
            == Yielded([Even(Plus(core.XRead(i.rs1), i.imm))], core.XWrite(i.rd, env[2]))
  {
    hide RunBody, Plus, Masked, Summed, WriteLink, KeepsReservation, DivisionFree, ReadsPc, Scoped;
    var x, imm := core.XRead(i.rs1), U64(i.imm);
    var sum := Plus(x, imm);
    PlusImm(x, i.imm);
    var k3 := WriteLink(8, 7, i.rd);
    var k2 := Masked(6, 5, k3);
    var k1 := Summed(5, 3, 4, k2);
    RunDo(3, 1, XRegRead(i.rs1), Do(4, 1, Imm(W64, i.imm), k1), env, core, x);
    RunDo(4, 1, Imm(W64, i.imm), k1, env + [x], core, imm);
    SummedRuns(3, 4, k2, env + [x] + [imm], core);
    MaskedRuns(5, k3, env + [x] + [imm] + [sum], core);
    WriteLinkRuns(7, i.rd, env + [x] + [imm] + [sum] + [TWO64 - 2, Even(sum)], core);
  }

  /** A jump goes to its target and links the address of the following instruction. */
  lemma JumpRuns(i: Instruction, core: Core)
    requires IsJump(i.opcode)
    ensures RunBody(JumpBody(i), [], core, 1) == Yielded([JumpTarget(i, core)], Jumped(i, core))
  {
    hide RunBody, Masked, Summed, Linking, WriteLink, KeepsReservation, DivisionFree, ReadsPc, Scoped;
    var w, ret := WidthBytes(i.width), Plus(core.pc, WidthBytes(i.width));
    if i.opcode.J? {
      RelativeRuns(i, core);
    } else if i.opcode.JAbsolute? {
      MaskFirst(Imm(W64, i.imm), U64(i.imm), core);
    } else if i.opcode.Jr? {
      MaskFirst(XRegRead(i.rs1), core.XRead(i.rs1), core);
    } else if i.opcode.JrImm? {
      RegImmRuns(i, [], core);
    } else {
      LinkRuns(i, core);
    }
  }

  lemma LinkRuns(i: Instruction, core: Core)
    requires Links(i.opcode)
    ensures RunBody(JumpBody(i), [], core, 1) == Yielded([JumpTarget(i, core)], Jumped(i, core))
  {
    hide RunBody, Masked, Summed, Linking, WriteLink, KeepsReservation, DivisionFree, ReadsPc, Scoped;
    var w, ret := WidthBytes(i.width), Plus(core.pc, WidthBytes(i.width));
    if i.opcode.Jal? {
      LinkingRuns(i, Do(3, 1, Imm(W64, i.imm), Summed(4, 0, 3, WriteLink(5, 4, i.rd))), core);
      LinkRelativeRuns(i, core, w, ret);
    } else if i.opcode.Jalr? {
      LinkingRuns(i, Do(3, 1, XRegRead(i.rs1), Masked(4, 3, WriteLink(6, 5, i.rd))), core);
      LinkMaskRuns(XRegRead(i.rs1), core.XRead(i.rs1), i.rd, [core.pc, w, ret], core);
    } else if i.opcode.JalrImm? {
      LinkingRuns(i, Do(3, 1, XRegRead(i.rs1),
                        Do(4, 1, Imm(W64, i.imm), Summed(5, 3, 4, Masked(6, 5, WriteLink(8, 7, i.rd))))), core);
      LinkRegImmRuns(i, [core.pc, w, ret], core);
    } else {
      LinkingRuns(i, Do(3, 1, Imm(W64, i.imm), Masked(4, 3, WriteLink(6, 5, i.rd))), core);
      LinkMaskRuns(Imm(W64, i.imm), U64(i.imm), i.rd, [core.pc, w, ret], core);
    }
  }

  // ----- all instructions -----

  /** The update of the program counter that a routine that completes asks for. */
  lemma RoutineUpdate(r: Routine, core: Core)
    requires WellFormed(r) && RunRoutine(r, core).Finished? && RunRoutine(r, core).result.Ok?
    ensures var b := RunBody(r.body, [], core, TailOuts(r.tail));
            var u := RunRoutine(r, core).result.update;
            && b.Yielded?
            && (u.Next? ==> (r.tail.NextPc? || r.tail.BranchIf?) && u.width == r.tail.width)
            && (u.Set? ==>
                  || (r.tail.SetPc? && u.address == b.vals[0])
                  || (r.tail.BranchIf? && u.address == Plus(core.pc, r.tail.offset)))
  {
    hide RunBody, Scoped, SameCode, KeepsReservation, DivisionFree, ReadsPc;
    BodyKeeps(r.body, [], core, TailOuts(r.tail));
  }

  /** What the tail of each routine is. */
  lemma RoutineTail(i: Instruction)
    ensures var r := RoutineOf(i);
            && (r.tail.NextPc? || r.tail.BranchIf? ==> r.tail.width == i.width)
            && (r.tail.BranchIf? ==> IsBranch(i.opcode) && r.tail.offset == i.imm)
            && (r.tail.SetPc? ==> IsJump(i.opcode) && r.body == JumpBody(i))
  {
    hide MemoryBody, BranchBody, JumpBody, SpecialBody, ComputeBody, Done;
  }

  lemma PlusEven(x: u64, y: int)
    requires x % 2 == 0 && y % 2 == 0
    ensures Plus(x, y) % 2 == 0
  {
  }

  lemma TargetEven(i: Instruction, core: Core)
    requires core.pc % 2 == 0 && EvenTarget(i)
    ensures IsJump(i.opcode) ==> JumpTarget(i, core) % 2 == 0
    ensures IsBranch(i.opcode) ==> Plus(core.pc, i.imm) % 2 == 0
  {
    hide Plus;
    if i.imm % 2 == 0 { PlusEven(core.pc, i.imm); }
  }

  /** The address that an instruction that does not simply go on sets. */
  lemma UpdateEven(i: Instruction, core: Core)
    requires RunRoutine(RoutineOf(i), core).Finished? && RunRoutine(RoutineOf(i), core).result.Ok?
    requires core.pc % 2 == 0 && EvenTarget(i)
    ensures var u := RunRoutine(RoutineOf(i), core).result.update; u.Set? ==> u.address % 2 == 0
  {
    hide RoutineOf, RunRoutine, RunBody, JumpBody, SameCode, Plus, JumpTarget, Jumped, EvenTarget, WellFormed,
      KeepsReservation, DivisionFree, ReadsPc, Scoped;
    RoutineTail(i);
    RoutineUpdate(RoutineOf(i), core);
    TargetEven(i, core);
    if RoutineOf(i).tail.SetPc? { JumpRuns(i, core); }
  }

  /** Every instruction keeps code that cannot be written to, and keeps to even addresses. */
  lemma AllBehave(i: Instruction, core: Core)
    ensures Behaves(RunInstr, i, core)
  {
    hide RoutineOf, RunRoutine, RunBody, JumpBody, SameCode, EvenTarget, WellFormed, KeepsReservation, DivisionFree,
      ReadsPc, Scoped;
    RunKeeps(i, core);
    NeverCrashes(i, core);
    RoutineTail(i);
    if RunRoutine(RoutineOf(i), core).result.Ok? {
      RoutineUpdate(RoutineOf(i), core);
      if core.pc % 2 == 0 && EvenTarget(i) { UpdateEven(i, core); }
    }
  }
}
