/**
 Correctness of compiled instructions and blocks.
 */
module BlockLowering {
  import opened Words
  import opened Machine
  import opened Icb
  import opened Ir
  import opened Lowering
  import opened OpLowering
  import opened Instructions
  import Execution
  import opened Blocks

  /** How lowering of a block goes on after an instruction. */
  datatype Status = Falls | Jumps | Throws

  function StatusOf(t: Tail): Status {
    if t.SetPc? then Jumps else if t.Illegal? || t.ECall? then Throws else Falls
  }

  ghost predicate Arrives(g: Graph, e: Emitter, fr: Frame, e': Emitter, core: Core)
    requires Open(e)
  {
    Open(e') && exists fr': Frame :: Goes(g, e, fr, e', fr') && Sim(e', [], [], core, fr')
  }

  /** What the code of one instruction does, compared with running the instruction. */
  ghost predicate InstrOutcome(g: Graph, e: Emitter, fr: Frame, e': Emitter, status: Status, r: InstrStep)
    requires Open(e)
  {
    match r
    case Continues(core) => status.Falls? && Arrives(g, e, fr, e', core)
    case Leaves(core, error) =>
      || (status.Jumps? && error == None && Arrives(g, e, fr, e', core))
      || HaltsWith(g, Here(e, fr), U64(e.dyn.steps + Counted(error)), core, error)
  }

  ghost predicate InstrCorrect(e: Emitter, e': Emitter, i: Instruction, status: Status)
    requires Open(e)
  {
    forall g: Graph, fr: Frame, core: Core {:trigger Sim(e, [], [], core, fr), Grows(e'.graph, g)} ::
      Sim(e, [], [], core, fr) && Grows(e'.graph, g) ==>
        InstrOutcome(g, e, fr, e', status, StepInstr(i, core))
  }

  /** Where the tail of a routine leads from the state at the end of its body. */
  function StepOfTail(t: Tail, vals: seq<u64>, core: Core): InstrStep
    requires |vals| == TailOuts(t)
  {
    match t
    case NextPc(w) => Continues(core.(pc := U64(core.pc + WidthBytes(w))))
    case SetPc => Leaves(core.(pc := vals[0]), None)
    case BranchIf(offset, w) =>
      if vals[0] != 0 then Leaves(core.(pc := U64(core.pc + offset)), None)
      else Continues(core.(pc := U64(core.pc + WidthBytes(w))))
    case Illegal => Leaves(core.(pc := 0), None)
    case ECall => Leaves(core, Some(EnvironCall))
  }

  /** Where a routine leads from the result of its body. */
  function StepOfBody(t: Tail, b: BodyResult): InstrStep
    requires !b.Panicked? && (b.Yielded? ==> |b.vals| == TailOuts(t))
  {
    match b
    case Yielded(vals, core) => StepOfTail(t, vals, core)
    case Raised(x, core) =>
      var h := HandleStepResult(core, core.pc, Err(x));
      Leaves(h.core, h.error)
  }

  /** Running a routine and committing the result, in terms of its body. */
  lemma CommittedRoutine(r: Routine, core: Core)
    requires WellFormed(r) && RunRoutine(r, core).Finished?
    ensures var b := RunBody(r.body, [], core, TailOuts(r.tail));
            var f := RunRoutine(r, core);
            !b.Panicked? && Committed(f.result, f.core, core.pc) == StepOfBody(r.tail, b)
  {
    hide Scoped;
    Execution.BodyKeeps(r.body, [], core, TailOuts(r.tail));
  }

  /** Running an instruction, in terms of its routine. */
  lemma StepOfRoutine(i: Instruction, core: Core)
    ensures var r := RoutineOf(i);
            var b := RunBody(r.body, [], core, TailOuts(r.tail));
            !b.Panicked? && StepInstr(i, core) == StepOfBody(r.tail, b)
  {
    hide RoutineOf, RunBody, RunRoutine, StepOfBody, Committed, Scoped;
    Execution.NeverCrashes(i, core);
    CommittedRoutine(RoutineOf(i), core);
  }

  /** The symbolic program counter after a relative update. */
  lemma OffsetPc(d: Dynamic, delta: int, env: map<Value, u64>)
    requires d.pcVal in env
    ensures PcOf(CompleteStep(d, Offset(delta)), env) == U64(PcOf(d, env) + delta)
  {
  }

  /** What the tail of a routine becomes: a program counter change, or an exception. */
  ghost predicate TailCode(e1: Emitter, e': Emitter, tail: Tail, vals: seq<Value>, status: Status) {
    && Sound(e1)
    && match tail
       case NextPc(w) =>
         status.Falls? && e' == e1.(dyn := CompleteStep(e1.dyn, Offset(WidthBytes(w))))
       case SetPc =>
         status.Jumps? && |vals| == 1 && e' == e1.(dyn := CompleteStep(e1.dyn, Absolute(vals[0])))
       case BranchIf(offset, w) =>
         && status.Falls? && |vals| == 1
         && var b := e'.(dyn := e1.dyn);
         && Sound(b) && Later(e1, b) && BranchCorrect(e1, b, vals[0], Offset(offset))
         && e'.dyn == CompleteStep(e1.dyn, Offset(WidthBytes(w)))
       case _ =>
         && status.Throws?
         && forall g: Graph, fr: Frame {:trigger Here(e1, fr), Grows(e'.graph, g)} ::
              Grows(e'.graph, g) && e1.dyn.pcVal in fr.env && fr.result == None ==>
                Traps(g, Here(e1, fr), e1.dyn.steps, PcOf(e1.dyn, fr.env),
                      if tail.ECall? then EnvCall else IllegalInstruction, fr.core)
  }

  /** The raise and its handling, as the tail of a routine. */
  lemma RaiseRuns(e: Emitter, i: Inst, x: Exception, exc: Slot, e1: Emitter, e': Emitter, g: Graph, fr: Frame)
    requires Sound(e) && Emitted(e, i, e1) && e1.dyn == e.dyn && Open(e1)
    requires ExecInst(i, fr) == Some(fr.(excs := fr.excs[exc := x]))
    requires ExitsWith(e1, e', exc) && Grows(e1.graph, g) && Grows(e'.graph, g)
    requires e.dyn.pcVal in fr.env && fr.result == None
    ensures Traps(g, Here(e, fr), e.dyn.steps, PcOf(e.dyn, fr.env), x, fr.core)
  {
    var fr1 := fr.(excs := fr.excs[exc := x]);
    EmittedRuns(e, i, e1, g, fr);
    assert Here(e1, fr1).At?;
    TrapsLater(g, Here(e, fr), Here(e1, fr1), e.dyn.steps, PcOf(e.dyn, fr.env), x, fr.core);
  }

  lemma RaiseCorrect(e: Emitter, i: Inst, tail: Tail, exc: Slot, e1: Emitter, e': Emitter)
    requires tail.Illegal? || tail.ECall?
    requires i == if tail.ECall? then CallEcall(exc) else CallRaiseIllegal(exc)
    requires Sound(e) && Emitted(e, i, e1) && e1.dyn == e.dyn && Open(e1)
    requires ExitsWith(e1, e', exc) && Grows(e1.graph, e'.graph)
    ensures TailCode(e, e', tail, [], Throws)
  {
    var x := if tail.ECall? then EnvCall else IllegalInstruction;
    forall g: Graph, fr: Frame | Grows(e'.graph, g) && e.dyn.pcVal in fr.env && fr.result == None
      ensures Traps(g, Here(e, fr), e.dyn.steps, PcOf(e.dyn, fr.env), x, fr.core)
    {
      GrowsTransitive(e1.graph, e'.graph, g);
      RaiseRuns(e, i, x, exc, e1, e', g, fr);
    }
  }

  /** The tail run from a frame that simulates the interpreter at the end of the body. */
  lemma TailOutcome(e1: Emitter, e': Emitter, t: Tail, vals: seq<Value>, vs: seq<u64>, status: Status,
                    g: Graph, fr: Frame, core: Core)
    requires TailCode(e1, e', t, vals, status) && Grows(e'.graph, g)
    requires Sim(e1, vals, vs, core, fr) && |vs| == TailOuts(t)
    ensures InstrOutcome(g, e1, fr, e', status, StepOfTail(t, vs, core))
  {
    hide Reaches, Grows;
    assert Here(e1, fr).At?;
    match t
    case NextPc(w) =>
      OffsetPc(e1.dyn, WidthBytes(w), fr.env);
      ReachesSelf(g, Here(e1, fr));
      assert Goes(g, e1, fr, e', fr) && Sim(e', [], [], core.(pc := U64(core.pc + WidthBytes(w))), fr);
    case SetPc =>
      ReachesSelf(g, Here(e1, fr));
      assert Goes(g, e1, fr, e', fr) && Sim(e', [], [], core.(pc := vs[0]), fr);
    case BranchIf(offset, w) =>
      OffsetPc(e1.dyn, WidthBytes(w), fr.env);
      OffsetPc(e1.dyn, offset, fr.env);
      if vs[0] == 0 {
        assert Goes(g, e1, fr, e', fr) && Sim(e', [], [], core.(pc := U64(core.pc + WidthBytes(w))), fr);
      }
    case Illegal =>
      TrapsAnyPc(g, Here(e1, fr), e1.dyn.steps, core.pc, IllegalInstruction, fr.core, core);
    case ECall =>
      TrapsAnyPc(g, Here(e1, fr), e1.dyn.steps, core.pc, EnvCall, fr.core, core);
  }

  lemma ArrivesLater(g: Graph, e: Emitter, fr: Frame, e1: Emitter, fr1: Frame, e': Emitter, core: Core)
    requires Open(e) && Open(e1) && e.nextVal <= e1.nextVal && Goes(g, e, fr, e1, fr1) && Arrives(g, e1, fr1, e', core)
    ensures Arrives(g, e, fr, e', core)
  {
    var fr': Frame :| Goes(g, e1, fr1, e', fr') && Sim(e', [], [], core, fr');
    GoesTransitive(g, e, fr, e1, fr1, e', fr');
  }

  /** A lowered body followed by its lowered tail does what the instruction does. */
  lemma InstrComposes(e: Emitter, e1: Emitter, e': Emitter, i: Instruction, vals: seq<Value>, status: Status)
    requires Sound(e) && Sound(e1) && Later(e, e1) && e1.dyn.steps == e.dyn.steps
    requires BodyCorrect(e, e1, RoutineOf(i).body, [], vals, TailOuts(RoutineOf(i).tail))
    requires TailCode(e1, e', RoutineOf(i).tail, vals, status) && Grows(e1.graph, e'.graph)
    ensures InstrCorrect(e, e', i, status)
  {
    hide RoutineOf, StepInstr;
    var r := RoutineOf(i);
    forall g: Graph, fr: Frame, core: Core | Sim(e, [], [], core, fr) && Grows(e'.graph, g)
      ensures InstrOutcome(g, e, fr, e', status, StepInstr(i, core))
    {
      GrowsTransitive(e1.graph, e'.graph, g);
      StepOfRoutine(i, core);
      var b := RunBody(r.body, [], core, TailOuts(r.tail));
      RoutineOutcome(e, e1, e', r.tail, vals, status, b, g, fr);
    }
  }

  /** The tail follows on from a body that yields; a body that raises has already left. */
  lemma RoutineOutcome(e: Emitter, e1: Emitter, e': Emitter, t: Tail, vals: seq<Value>, status: Status, b: BodyResult,
                       g: Graph, fr: Frame)
    requires Sound(e) && Sound(e1) && e.nextVal <= e1.nextVal && e1.dyn.steps == e.dyn.steps
    requires TailCode(e1, e', t, vals, status) && Grows(e'.graph, g)
    requires !b.Panicked? && (b.Yielded? ==> |b.vals| == TailOuts(t)) && BodyOutcome(g, e, fr, e1, vals, b)
    ensures InstrOutcome(g, e, fr, e', status, StepOfBody(t, b))
  {
    if b.Yielded? {
      var fr1: Frame :| Goes(g, e, fr, e1, fr1) && Sim(e1, vals, b.vals, b.core, fr1);
      TailOutcome(e1, e', t, vals, b.vals, status, g, fr1, b.core);
      LiftOutcome(g, e, fr, e1, fr1, e', status, StepOfTail(t, b.vals, b.core));
    }
  }

  /** An outcome seen from the end of the body is the outcome of the whole instruction. */
  lemma LiftOutcome(g: Graph, e: Emitter, fr: Frame, e1: Emitter, fr1: Frame, e': Emitter, status: Status, r: InstrStep)
    requires Sound(e) && Sound(e1) && e.nextVal <= e1.nextVal && e1.dyn.steps == e.dyn.steps && Goes(g, e, fr, e1, fr1)
    requires InstrOutcome(g, e1, fr1, e', status, r)
    ensures InstrOutcome(g, e, fr, e', status, r)
  {
    match r
    case Continues(core) => ArrivesLater(g, e, fr, e1, fr1, e', core);
    case Leaves(core, error) =>
      if status.Jumps? && error == None && Arrives(g, e1, fr1, e', core) {
        ArrivesLater(g, e, fr, e1, fr1, e', core);
      } else {
        HaltsLater(g, Here(e, fr), Here(e1, fr1), U64(e.dyn.steps + Counted(error)), core, error);
      }
  }
}
