/**
 Load-reserved and store-conditional over whole runs (section 8.2 of the RISC-V Unprivileged
 ISA, version 20191213): when a store-conditional stores, in terms of what came before it.
 */
module Reservations {
  import opened Words
  import opened Memory
  import opened Machine
  import opened Icb
  import opened Instructions
  import opened Execution

  /** The start of the eight-byte reservation set that an address is in. */
  function SetOf(addr: u64): u64 { addr - addr % 8 }

  function SizeOf(op: OpCode): Size
    requires IsLoadReserved(op) || IsStoreConditional(op)
  {
    if op.X32AtomicLoad? || op.X32AtomicStore? then Word else Double
  }

  // ----- one instruction -----

  /** What a load-reserved does. */
  function LoadReservedOutcome(size: Size, i: Instruction, core: Core): BodyResult {
    var addr := core.XRead(i.rs1);
    if addr % Bytes(size) != 0 then Raised(StoreAMOAccessFault(addr), core)
    else match Read(core.mem, addr, size)
      case None => Raised(LoadAccessFault(addr), core)
      case Some(v) => Yielded([], core.(reservation := SetOf(addr)).XWrite(i.rd, Extend(size, true, v)))
  }

  /** Whether the reservation set of an address is held. */
  predicate Holding(core: Core, addr: u64) { core.reservation != UNSET && core.reservation == SetOf(addr) }

  /** What a store-conditional does: the reservation is gone in every case. */
  function StoreConditionalOutcome(size: Size, i: Instruction, core: Core): BodyResult {
    var addr := core.XRead(i.rs1);
    var freed := core.(reservation := UNSET);
    if addr % Bytes(size) != 0 then Raised(StoreAMOAccessFault(addr), freed)
    else if !Holding(core, addr) then Yielded([], freed.XWrite(i.rd, 1))
    else match Write(core.mem, addr, size, Truncate(size, core.XRead(i.rs2)))
      case None => Raised(StoreAMOAccessFault(addr), freed.XWrite(i.rd, 0))
      case Some(m) => Yielded([], freed.XWrite(i.rd, 0).(mem := m))
  }

  lemma AtAlignedRuns(size: Size, reset: bool, i: Instruction, k: Body, core: Core)
    requires Scoped(k, 1, 0)
    ensures var addr := core.XRead(i.rs1);
            RunBody(AtAligned(size, reset, i, k), [], core, 0)
            == if addr % Bytes(size) != 0 then
                 Raised(StoreAMOAccessFault(addr), if reset then core.(reservation := UNSET) else core)
               else RunBody(k, [addr], core, 0)
  {
    hide RunBody, KeepsReservation, DivisionFree, ReadsPc, Scoped;
    var addr, guard := core.XRead(i.rs1), AtomicGuard(size, 0, reset);
    ReadRuns(0, i.rs1, Do(1, 0, guard, k), [], core);
    assert [] + [addr] == [addr] && [addr] + [] == [addr];
    if addr % Bytes(size) == 0 {
      RunDoWith(1, guard, k, [addr], core, [], core);
    } else {
      var core' := if reset then core.(reservation := UNSET) else core;
      RunRaises(1, guard, k, [addr], core, StoreAMOAccessFault(addr), core');
    }
  }

  lemma MaskSet(addr: u64)
    ensures AluValue(W64, And, addr, U64(RESERVATION_MASK)) == Some(SetOf(addr))
  {
    AndNot7(addr);
  }

  lemma ReserveRuns(i: Instruction, env: seq<u64>, core: Core)
    requires |env| == 2
    ensures RunBody(Reserve(i), env, core, 0) == Yielded([], core.(reservation := SetOf(env[0])).XWrite(i.rd, env[1]))
  {
    hide RunBody, AluValue, KeepsReservation, DivisionFree, ReadsPc, Scoped;
    var m, base, held := U64(RESERVATION_MASK), SetOf(env[0]), core.(reservation := SetOf(env[0]));
    var k3 := Do(4, 0, XRegWrite(i.rd, 1), Done(4));
    var k2 := Do(4, 0, ReservationWrite(3), k3);
    var k1 := Do(3, 0, Alu(W64, And, 0, 2), k2);
    MaskSet(env[0]);
    RunDo(2, 0, Imm(W64, RESERVATION_MASK), k1, env, core, m);
    RunDo(3, 0, Alu(W64, And, 0, 2), k2, env + [m], core, base);
    RunDoWith(4, ReservationWrite(3), k3, env + [m] + [base], core, [], held);
    assert env + [m] + [base] + [] == env + [m] + [base];
    WriteRuns(4, 1, i.rd, env + [m] + [base], held);
  }

  lemma LoadReservedRuns(size: Size, i: Instruction, core: Core)
    ensures RunBody(LoadReserved(size, i), [], core, 0) == LoadReservedOutcome(size, i, core)
  {
    hide Reserve, Read, Extend, RunBody, KeepsReservation, DivisionFree, ReadsPc, Scoped;
    var addr, load := core.XRead(i.rs1), Load(size, true, 0);
    AtAlignedRuns(size, false, i, Do(1, 0, load, Reserve(i)), core);
    if addr % Bytes(size) == 0 {
      if Read(core.mem, addr, size).Some? {
        var v := Extend(size, true, Read(core.mem, addr, size).value);
        RunDo(1, 0, load, Reserve(i), [addr], core, v);
        ReserveRuns(i, [addr] + [v], core);
      } else {
        RunRaises(1, load, Reserve(i), [addr], core, LoadAccessFault(addr), core);
      }
    }
  }

  lemma TryStoreRuns(size: Size, i: Instruction, env: seq<u64>, core: Core, held: bool)
    requires |env| == 9 && env[8] == FromBool(held)
    ensures RunBody(TryStore(size, i), env, core, 0)
            == if !held then Yielded([], core.XWrite(i.rd, 1))
               else match Write(core.mem, env[0], size, Truncate(size, core.XRead(i.rs2)))
                 case None => Raised(StoreAMOAccessFault(env[0]), core.XWrite(i.rd, 0))
                 case Some(m) => Yielded([], core.XWrite(i.rd, 0).(mem := m))
  {
    hide Write, Truncate, StoreArm, RefuseArm;
    assert Pick(env, []) == [] && env + [] == env;
    if held { StoreArmRuns(size, i, env, core); } else { RefuseArmRuns(i, env, core); }
  }

  lemma StoreArmRuns(size: Size, i: Instruction, env: seq<u64>, core: Core)
    requires |env| == 9
    ensures RunBody(StoreArm(size, i), env, core, 0)
            == match Write(core.mem, env[0], size, Truncate(size, core.XRead(i.rs2)))
               case None => Raised(StoreAMOAccessFault(env[0]), core.XWrite(i.rd, 0))
               case Some(m) => Yielded([], core.XWrite(i.rd, 0).(mem := m))
  {
    hide Write, Truncate, RunBody, AluValue, Read, Extend, KeepsReservation, DivisionFree, ReadsPc, Scoped;
    var v, core' := core.XRead(i.rs2), core.XWrite(i.rd, 0);
    var k3 := Do(11, 0, Store(size, 0, 9), Done(11));
    var k2 := Do(11, 0, XRegWrite(i.rd, 10), k3);
    ReadRuns(9, i.rs2, Do(10, 0, Imm(W64, 0), k2), env, core);
    RunDo(10, 0, Imm(W64, 0), k2, env + [v], core, 0);
    var env' := env + [v] + [0];
    RunDoWith(11, XRegWrite(i.rd, 10), k3, env', core, [], core');
    assert env' + [] == env';
    StoreLast(size, env', core');
  }

  lemma StoreLast(size: Size, env: seq<u64>, core: Core)
    requires |env| == 11
    ensures RunBody(Do(11, 0, Store(size, 0, 9), Done(11)), env, core, 0)
            == match Write(core.mem, env[0], size, Truncate(size, env[9]))
               case None => Raised(StoreAMOAccessFault(env[0]), core)
               case Some(m) => Yielded([], core.(mem := m))
  {
    hide Write, Truncate;
    assert env + [] == env && Pick(env, []) == [];
  }

  lemma RefuseArmRuns(i: Instruction, env: seq<u64>, core: Core)
    requires |env| == 9
    ensures RunBody(RefuseArm(i), env, core, 0) == Yielded([], core.XWrite(i.rd, 1))
  {
    RunDo(9, 0, Imm(W64, 1), Do(10, 0, XRegWrite(i.rd, 9), Done(10)), env, core, 1);
    WriteRuns(10, 9, i.rd, env + [1], core);
  }

  /** Testing the reservation that was read goes on with the answer in the last variable. */
  lemma TestReservationRuns(k: Body, env: seq<u64>, core: Core) returns (env': seq<u64>)
    requires |env| == 3 && Scoped(k, 9, 0) && DivisionFree(k)
    ensures |env'| == 9 && env'[0] == env[0] && env'[8] == FromBool(env[1] != UNSET && SetOf(env[0]) == env[1])
    ensures RunBody(TestReservation(k), env, core, 0) == RunBody(k, env', core, 0)
  {
    hide RunBody, AluValue, Bits64, KeepsReservation, DivisionFree, ReadsPc, Scoped;
    var base := SetOf(env[0]);
    var some, same := FromBool(env[1] != UNSET), FromBool(base == env[1]);
    var m := U64(RESERVATION_MASK);
    var k6 := Do(8, 0, BoolAnd(4, 7), k);
    var k5 := Do(7, 0, Compare(W64, Equal, 6, 1), k6);
    var k4 := Do(6, 0, Alu(W64, And, 0, 5), k5);
    var k3 := Do(5, 0, Imm(W64, RESERVATION_MASK), k4);
    var k2 := Do(4, 0, Compare(W64, NotEqual, 1, 3), k3);
    MaskSet(env[0]);
    RunDo(3, 0, Imm(W64, -1), k2, env, core, UNSET);
    RunDo(4, 0, Compare(W64, NotEqual, 1, 3), k3, env + [UNSET], core, some);
    RunDo(5, 0, Imm(W64, RESERVATION_MASK), k4, env + [UNSET] + [some], core, m);
    RunDo(6, 0, Alu(W64, And, 0, 5), k5, env + [UNSET] + [some] + [m], core, base);
    RunDo(7, 0, Compare(W64, Equal, 6, 1), k6, env + [UNSET] + [some] + [m] + [base], core, same);
    var both := FromBool(env[1] != UNSET && base == env[1]);
    AndOfBools(env[1] != UNSET, base == env[1]);
    RunDo(8, 0, BoolAnd(4, 7), k, env + [UNSET] + [some] + [m] + [base] + [same], core, both);
    env' := env + [UNSET] + [some] + [m] + [base] + [same] + [both];
  }

  lemma StoreConditionalRuns(size: Size, i: Instruction, core: Core)
    ensures RunBody(StoreConditional(size, i), [], core, 0) == StoreConditionalOutcome(size, i, core)
  {
    hide RunBody, Write, Truncate, TryStore, TestReservation, AluValue, Read, Extend, KeepsReservation, DivisionFree,
      ReadsPc, Scoped;
    var addr, freed := core.XRead(i.rs1), core.(reservation := UNSET);
    var k3 := TestReservation(TryStore(size, i));
    var k2 := Do(3, 0, ReservationWrite(2), k3);
    var k1 := Do(2, 0, Imm(W64, -1), k2);
    AtAlignedRuns(size, true, i, Do(1, 0, ReservationRead, k1), core);
    if addr % Bytes(size) == 0 {
      RunDo(1, 0, ReservationRead, k1, [addr], core, core.reservation);
      RunDo(2, 0, Imm(W64, -1), k2, [addr] + [core.reservation], core, UNSET);
      var env := [addr] + [core.reservation] + [UNSET];
      RunDoWith(3, ReservationWrite(2), k3, env, core, [], freed);
      assert env + [] == env;
      var env' := TestReservationRuns(TryStore(size, i), env, freed);
      TryStoreRuns(size, i, env', freed, Holding(core, addr));
      assert freed.XRead(i.rs2) == core.XRead(i.rs2);
    }
  }

  // ----- instructions in a run -----

  /** One executed instruction and the state it was executed in. */
  datatype Event = Event(i: Instruction, core: Core) {
    function Address(): u64 { core.XRead(i.rs1) }

    predicate Aligned()
      requires IsLoadReserved(i.opcode) || IsStoreConditional(i.opcode)
    {
      Address() % Bytes(SizeOf(i.opcode)) == 0
    }

    /** A load-reserved that registers a reservation. */
    predicate Reserves() {
      IsLoadReserved(i.opcode) && Aligned() && Read(core.mem, Address(), SizeOf(i.opcode)).Some?
    }

    /** A store-conditional whose store is performed. */
    predicate Stores() {
      && IsStoreConditional(i.opcode) && Aligned() && Holding(core, Address())
      && Write(core.mem, Address(), SizeOf(i.opcode), Truncate(SizeOf(i.opcode), core.XRead(i.rs2))).Some?
    }
  }

  /** The core that an instruction leaves behind. */
  function After(e: Event): Core { RunInstr(e.i, e.core).core }

  /** A routine that goes on to the next instruction leaves the core that its body leaves. */
  lemma BodyDecides(i: Instruction, core: Core)
    requires RoutineOf(i).tail.NextPc? || RunBody(RoutineOf(i).body, [], core, TailOuts(RoutineOf(i).tail)).Raised?
    ensures var b := RunBody(RoutineOf(i).body, [], core, TailOuts(RoutineOf(i).tail));
            && !b.Panicked? && RunInstr(i, core).core == b.core
            && RunInstr(i, core).result == if b.Raised? then Err(b.exception) else Ok(Next(RoutineOf(i).tail.width))
  {
    hide RoutineOf, RunBody, Scoped, KeepsReservation, DivisionFree, ReadsPc;
    NeverCrashes(i, core);
  }

  lemma SpecialDecides(i: Instruction, core: Core)
    requires IsSpecial(i.opcode)
    ensures var b := RunBody(SpecialBody(i), [], core, 0);
            && !b.Panicked? && RunInstr(i, core).core == b.core
            && RunInstr(i, core).result == if b.Raised? then Err(b.exception) else Ok(Next(i.width))
  {
    hide RoutineOf, RunBody, SpecialBody, RunInstr, KeepsReservation, DivisionFree, ReadsPc, Scoped;
    SpecialRoutine(i);
    BodyDecides(i, core);
  }

  lemma LoadReservedStep(e: Event)
    requires IsLoadReserved(e.i.opcode)
    ensures var b := LoadReservedOutcome(SizeOf(e.i.opcode), e.i, e.core);
            && After(e) == b.core
            && RunInstr(e.i, e.core).result == if b.Raised? then Err(b.exception) else Ok(Next(e.i.width))
  {
    hide RunInstr, RunBody, LoadReservedOutcome, LoadReserved, StoreConditional, DivideDouble, DivideWord,
      KeepsReservation, DivisionFree, ReadsPc, Scoped;
    SpecialDecides(e.i, e.core);
    LoadReservedRuns(SizeOf(e.i.opcode), e.i, e.core);
  }

  lemma StoreConditionalStep(e: Event)
    requires IsStoreConditional(e.i.opcode)
    ensures var b := StoreConditionalOutcome(SizeOf(e.i.opcode), e.i, e.core);
            && After(e) == b.core
            && RunInstr(e.i, e.core).result == if b.Raised? then Err(b.exception) else Ok(Next(e.i.width))
  {
    hide RunInstr, RunBody, StoreConditionalOutcome, LoadReserved, StoreConditional, DivideDouble, DivideWord,
      KeepsReservation, DivisionFree, ReadsPc, Scoped;
    SpecialDecides(e.i, e.core);
    StoreConditionalRuns(SizeOf(e.i.opcode), e.i, e.core);
  }

  lemma OthersKeep(i: Instruction, core: Core)
    requires !IsLoadReserved(i.opcode) && !IsStoreConditional(i.opcode)
    ensures RunInstr(i, core).core.reservation == core.reservation
  {
    hide RoutineOf, RunBody, KeepsReservation, Scoped, DivisionFree, ReadsPc;
    NeverCrashes(i, core);
    var r := RoutineOf(i);
    ReservationStays(r.body, [], core, TailOuts(r.tail));
  }

  /** The reservation after an instruction. */
  lemma EventReservation(e: Event)
    ensures After(e).reservation ==
            if IsStoreConditional(e.i.opcode) then UNSET
            else if e.Reserves() then SetOf(e.Address())
            else e.core.reservation
  {
    hide RunInstr;
    if IsStoreConditional(e.i.opcode) {
      StoreConditionalStep(e);
    } else if IsLoadReserved(e.i.opcode) {
      LoadReservedStep(e);
    } else {
      OthersKeep(e.i, e.core);
    }
  }

  // ----- whole runs -----

  /**
   A run from a reservation cell with the value `start`. The reservation is passed on from one
   instruction to the next; everything else may be changed in between, by the environment or
   by jumps.
   */
  ghost predicate TraceFrom(es: seq<Event>, start: u64) {
    && (es != [] ==> es[0].core.reservation == start)
    && forall k {:trigger After(es[k])} :: 0 <= k < |es| - 1 ==> es[k + 1].core.reservation == After(es[k]).reservation
  }

  /** A run from a reset hart. */
  ghost predicate Trace(es: seq<Event>) { TraceFrom(es, UNSET) }

  /** The reservation set of the last load-reserved, unless a store-conditional came after it. */
  function Latest(es: seq<Event>, n: nat): Option<u64>
    requires n <= |es|
  {
    if n == 0 then None
    else if IsStoreConditional(es[n - 1].i.opcode) then None
    else if es[n - 1].Reserves() then Some(SetOf(es[n - 1].Address()))
    else Latest(es, n - 1)
  }

  /** The cell holds the latest reservation set, or a value that is the start of no set. */
  lemma {:induction false} ReservationIsLatest(es: seq<Event>, start: u64, n: nat)
    requires TraceFrom(es, start) && start % 8 != 0 && n < |es|
    ensures match Latest(es, n)
            case Some(held) => es[n].core.reservation == held && held % 8 == 0
            case None => es[n].core.reservation % 8 != 0
  {
    hide After, Read;
    if n != 0 {
      ReservationIsLatest(es, start, n - 1);
      EventReservation(es[n - 1]);
      assert SetOf(es[n - 1].Address()) % 8 == 0;
      hide SetOf;
      assert es[n].core.reservation == After(es[n - 1]).reservation;
    }
  }

  /** The doubleword of the address is held exactly when the latest event was a load-reserved on it. */
  ghost predicate LawAt(es: seq<Event>, n: nat)
    requires n < |es|
  {
    Holding(es[n].core, es[n].Address()) <==> Latest(es, n) == Some(SetOf(es[n].Address()))
  }

  lemma HoldsIffLatestFrom(es: seq<Event>, start: u64, n: nat)
    requires TraceFrom(es, start) && start % 8 != 0 && n < |es|
    ensures LawAt(es, n)
  {
    hide TraceFrom, Latest, RunInstr, Read;
    ReservationIsLatest(es, start, n);
  }

  /** A reservation cell that starts a doubleword is taken for a reservation of it. */
  lemma WrongStart(start: u64, e: Event)
    requires start % 8 == 0 && e.core.reservation == start && e.Address() == start
    ensures TraceFrom([e], start) && !LawAt([e], 0)
  {
  }

  /** A store-conditional of a doubleword to the address in every register. */
  function StoreTo(start: u64): Event {
    Event(Instruction(X64AtomicStore, 0, 1, 2, 0, Uncompressed),
          Core(seq(32, _ => start), 0, start, RawMem([], [], [], [])))
  }

  /** In every run from a cell with this value the law holds. */
  ghost predicate LawHolds(start: u64) {
    forall es, n: nat {:trigger TraceFrom(es, start), LawAt(es, n)} :: TraceFrom(es, start) && n < |es| ==> LawAt(es, n)
  }

  /** An aligned store-conditional is about to run, for which the reservation decides. */
  predicate Decides(es: seq<Event>, n: nat)
    requires n < |es|
  {
    IsStoreConditional(es[n].i.opcode) && es[n].Aligned()
  }

  /** The same for aligned store-conditionals only. */
  ghost predicate StoreLawHolds(start: u64) {
    forall es, n: nat {:trigger TraceFrom(es, start), LawAt(es, n)} ::
      TraceFrom(es, start) && n < |es| && Decides(es, n) ==> LawAt(es, n)
  }

  /**
   The law holds in all runs exactly when the cell does not start as a multiple of eight, and
   already store-conditionals show it.
   */
  lemma LawIff(start: u64)
    ensures LawHolds(start) <==> start % 8 != 0
    ensures StoreLawHolds(start) <==> start % 8 != 0
  {
    hide LawAt, TraceFrom;
    if start % 8 != 0 {
      forall es, n: nat | TraceFrom(es, start) && n < |es| ensures LawAt(es, n) {
        HoldsIffLatestFrom(es, start, n);
      }
    } else {
      var e := StoreTo(start);
      assert e.Address() == start && Decides([e], 0);
      WrongStart(start, e);
    }
  }

  /** From a reset hart the law holds. */
  lemma HoldsIffLatest(es: seq<Event>, n: nat)
    requires Trace(es) && n < |es|
    ensures Holding(es[n].core, es[n].Address()) <==> Latest(es, n) == Some(SetOf(es[n].Address()))
  {
    hide TraceFrom, Latest, RunInstr, Read;
    LawIff(UNSET);
    assert LawAt(es, n);
  }

  /** An aligned store-conditional performs its store if so, and otherwise fails and leaves memory alone. */
  lemma StoresIffLatest(es: seq<Event>, start: u64, n: nat)
    requires TraceFrom(es, start) && start % 8 != 0 && n < |es| && IsStoreConditional(es[n].i.opcode) && es[n].Aligned()
    ensures var e := es[n];
            var size := SizeOf(e.i.opcode);
            var freed := e.core.(reservation := UNSET);
            if Latest(es, n) != Some(SetOf(e.Address())) then
              After(e) == freed.XWrite(e.i.rd, 1)
            else match Write(e.core.mem, e.Address(), size, Truncate(size, e.core.XRead(e.i.rs2)))
              case Some(m) => After(e) == freed.XWrite(e.i.rd, 0).(mem := m)
              case None =>
                && After(e) == freed.XWrite(e.i.rd, 0)
                && RunInstr(e.i, e.core).result == Err(StoreAMOAccessFault(e.Address()))
  {
    hide TraceFrom, RunInstr, Write, Truncate, Latest;
    HoldsIffLatestFrom(es, start, n);
    StoreConditionalStep(es[n]);
  }

  /** How many load-reserved registered a reservation. */
  function Reserved(es: seq<Event>, n: nat): nat
    requires n <= |es|
  {
    if n == 0 then 0 else Reserved(es, n - 1) + if es[n - 1].Reserves() then 1 else 0
  }

  /** How many store-conditional performed their store. */
  function Stored(es: seq<Event>, n: nat): nat
    requires n <= |es|
  {
    if n == 0 then 0 else Stored(es, n - 1) + if es[n - 1].Stores() then 1 else 0
  }

  /** In every prefix of a run, stores by store-conditional never outnumber reservations. */
  lemma {:induction false} StoredBounded(es: seq<Event>, start: u64, n: nat)
    requires TraceFrom(es, start) && start % 8 != 0 && n <= |es|
    ensures Stored(es, n) + (if Latest(es, n).Some? then 1 else 0) <= Reserved(es, n)
  {
    hide TraceFrom, Write;
    if n != 0 {
      StoredBounded(es, start, n - 1);
      if es[n - 1].Stores() { HoldsIffLatestFrom(es, start, n - 1); }
    }
  }

  /**
   A hart that was created but not reset: its cell starts at zero, which reads as a reservation
   of the first doubleword, so that a store-conditional there succeeds without a load-reserved.
   */
  lemma UnresetHolds(e: Event)
    requires e.core.reservation == 0 && IsStoreConditional(e.i.opcode) && e.Aligned() && e.Address() < 8 && e.i.rd != 0
    ensures Holding(e.core, e.Address()) && After(e).XRead(e.i.rd) == 0
  {
    hide RunInstr, Write, Truncate;
    StoreConditionalStep(e);
  }
}
