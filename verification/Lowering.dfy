/**
 What it means for construction of control-flow graph code to be correct. `Emitter` is the
 state of a function under construction; the predicates below relate two such states to the
 meaning of what was lowered between them, for every graph that the later state may still
 grow into and every machine state the code may run from.
 */
module Lowering {
  import opened Words
  import opened Machine
  import opened Icb
  import opened Ir

  /** Values updated while lowering; copied and restored around branches. */
  datatype Dynamic = Dynamic(steps: nat, pcVal: Value, pcOffset: int)

  /** The function under construction: its graph, the block being filled, and the end block. */
  datatype Emitter = Emitter(graph: Graph, cur: BlockId, nextVal: Value, nextSlot: Slot, dyn: Dynamic,
                             end: Option<BlockId>)

  // ----- growth of the graph -----

  ghost predicate BlockGrows(x: Block, y: Block) {
    && x.params == y.params
    && x.insts <= y.insts
    && (x.term.Some? ==> x == y)
  }

  /** Blocks are added, filled while open, and closed once. */
  ghost predicate Grows(g: Graph, h: Graph) {
    && |g| <= |h|
    && forall i {:trigger g[i]} :: 0 <= i < |g| ==> BlockGrows(g[i], h[i])
  }

  lemma GrowsTransitive(a: Graph, b: Graph, c: Graph)
    requires Grows(a, b) && Grows(b, c)
    ensures Grows(a, c)
  {
    forall i | 0 <= i < |a| ensures BlockGrows(a[i], c[i]) {
      assert BlockGrows(a[i], b[i]) && BlockGrows(b[i], c[i]);
    }
  }

  // ----- well-formed construction states -----

  predicate Open(e: Emitter) { e.cur < |e.graph| && e.graph[e.cur].term == None }

  /** The end block writes the program counter and returns the number of steps. */
  predicate IsEndBlock(b: Block) {
    && |b.params| == 2 && b.params[0] != b.params[1]
    && b.insts == [CallPcWrite(b.params[0])]
    && b.term == Some(Return(b.params[1]))
  }

  predicate EndOk(e: Emitter) { e.end.Some? ==> e.end.value < |e.graph| && IsEndBlock(e.graph[e.end.value]) }

  predicate Sound(e: Emitter) { Open(e) && EndOk(e) && e.dyn.pcVal < e.nextVal }

  /**
   What holds from one construction state to a later one: only the block being filled and
   blocks created since have changed.
   */
  ghost predicate Later(e: Emitter, e': Emitter) {
    && Grows(e.graph, e'.graph)
    && e.nextVal <= e'.nextVal
    && EndOk(e')
    && (e'.cur == e.cur || e'.cur >= |e.graph|)
    && forall i {:trigger e.graph[i]} :: 0 <= i < |e.graph| && i != e.cur ==> e'.graph[i] == e.graph[i]
  }

  lemma LaterTransitive(a: Emitter, b: Emitter, c: Emitter)
    requires Later(a, b) && Later(b, c)
    ensures Later(a, c)
  {
    GrowsTransitive(a.graph, b.graph, c.graph);
    forall i | 0 <= i < |a.graph| && i != a.cur ensures c.graph[i] == a.graph[i] {
      assert b.graph[i] == a.graph[i];
    }
  }

  // ----- primitive construction -----

  function Emit(e: Emitter, i: Inst): Emitter
    requires Open(e)
  {
    var b := e.graph[e.cur];
    e.(graph := e.graph[e.cur := b.(insts := b.insts + [i])])
  }

  function Close(e: Emitter, t: Terminator): Emitter
    requires Open(e)
  {
    e.(graph := e.graph[e.cur := e.graph[e.cur].(term := Some(t))])
  }

  function CreateBlock(e: Emitter, params: seq<Value>): Emitter {
    e.(graph := e.graph + [Block(params, [], None)])
  }

  // ----- running code under construction -----

  /** The point that lowering has reached, as a point of execution. */
  function Here(e: Emitter, fr: Frame): Config
    requires Open(e)
  {
    At(e.cur, |e.graph[e.cur].insts|, fr)
  }

  /** An emitted instruction is the next one executed, in every graph grown from here. */
  lemma EmitRuns(e: Emitter, i: Inst, g: Graph, fr: Frame)
    requires Open(e) && Grows(Emit(e, i).graph, g)
    ensures Open(Emit(e, i))
    ensures match ExecInst(i, fr)
            case Some(fr') => Reaches(g, Here(e, fr), Here(Emit(e, i), fr'))
            case None => Reaches(g, Here(e, fr), Trapped)
  {
    var e' := Emit(e, i);
    assert BlockGrows(e'.graph[e.cur], g[e.cur]);
    assert g[e.cur].insts[|e.graph[e.cur].insts|] == e'.graph[e.cur].insts[|e.graph[e.cur].insts|] == i;
    ReachesStep(g, Here(e, fr));
  }

  /** A terminator is executed once the block it ends has been run. */
  lemma CloseRuns(e: Emitter, t: Terminator, g: Graph, fr: Frame)
    requires Open(e) && Grows(Close(e, t).graph, g)
    ensures Reaches(g, Here(e, fr), Terminate(g, t, fr))
  {
    assert BlockGrows(Close(e, t).graph[e.cur], g[e.cur]);
    ReachesStep(g, Here(e, fr));
  }

  /** The program counter that the symbolic state stands for. */
  function PcOf(d: Dynamic, env: map<Value, u64>): u64
    requires d.pcVal in env
  {
    U64(env[d.pcVal] + d.pcOffset)
  }

  /** Values known before a point keep their meaning. */
  ghost predicate Kept(bound: Value, env: map<Value, u64>, env': map<Value, u64>) {
    forall v {:trigger v in env} {:trigger v in env'} :: v < bound && v in env ==> v in env' && env'[v] == env[v]
  }

  /** Execution goes from one point of lowering to another. */
  ghost predicate Goes(g: Graph, e: Emitter, fr: Frame, e': Emitter, fr': Frame)
    requires Open(e) && Open(e')
  {
    Reaches(g, Here(e, fr), Here(e', fr')) && Kept(e.nextVal, fr.env, fr'.env)
  }

  lemma GoesTransitive(g: Graph, a: Emitter, fr: Frame, b: Emitter, fr': Frame, c: Emitter, fr'': Frame)
    requires Open(a) && Open(b) && Open(c) && a.nextVal <= b.nextVal
    requires Goes(g, a, fr, b, fr') && Goes(g, b, fr', c, fr'')
    ensures Goes(g, a, fr, c, fr'')
  {
    ReachesTransitive(g, Here(a, fr), Here(b, fr'), Here(c, fr''));
  }

  /** Execution returns with these steps, machine state and result. */
  ghost predicate HaltsWith(g: Graph, c: Config, steps: u64, core: Core, result: Option<EnvironException>) {
    exists fr: Frame :: fr.core == core && fr.result == result && Reaches(g, c, Halted(steps, fr))
  }

  lemma HaltsLater(g: Graph, c: Config, d: Config, steps: u64, core: Core, result: Option<EnvironException>)
    requires Reaches(g, c, d) && HaltsWith(g, d, steps, core, result)
    ensures HaltsWith(g, c, steps, core, result)
  {
    var fr: Frame :| fr.core == core && fr.result == result && Reaches(g, d, Halted(steps, fr));
    ReachesTransitive(g, c, d, Halted(steps, fr));
  }

  // ----- correctness of what was lowered -----

  /** The values stand for the variables. */
  ghost predicate Stand(vars: seq<Value>, bound: Value, env: seq<u64>, values: map<Value, u64>) {
    && |vars| == |env|
    && forall i :: 0 <= i < |vars| ==> vars[i] < bound && vars[i] in values && values[vars[i]] == env[i]
  }

  /**
   A running frame simulates the interpreter: values stand for variables, the symbolic program
   counter is the interpreter's, and the machine states agree but for the program counter,
   which compiled code only writes back on exit.
   */
  ghost predicate Sim(e: Emitter, vars: seq<Value>, env: seq<u64>, core: Core, fr: Frame) {
    && Stand(vars, e.nextVal, env, fr.env)
    && e.dyn.pcVal < e.nextVal && e.dyn.pcVal in fr.env
    && PcOf(e.dyn, fr.env) == core.pc
    && fr.core.(pc := core.pc) == core
    && fr.result == None
  }

  /** Returning with the symbolic steps and program counter. */
  ghost predicate Exits(e: Emitter, e': Emitter)
    requires Open(e)
  {
    forall g: Graph, fr: Frame {:trigger Here(e, fr), Grows(e'.graph, g)} ::
      Grows(e'.graph, g) && e.dyn.pcVal in fr.env ==>
        HaltsWith(g, Here(e, fr), U64(e.dyn.steps), fr.core.(pc := PcOf(e.dyn, fr.env)), fr.result)
  }

  /** Steps and state with which a block returns after an exception in a later state `core`. */
  ghost predicate Traps(g: Graph, c: Config, steps: nat, pc: u64, x: Exception, core: Core) {
    var r := HandleStepResult(core, pc, Err(x));
    HaltsWith(g, c, U64(if r.error.Some? then steps else steps + 1), r.core, r.error)
  }

  /** Returning because of the exception in a slot. */
  ghost predicate ExitsWith(e: Emitter, e': Emitter, exc: Slot)
    requires Open(e)
  {
    forall g: Graph, fr: Frame {:trigger Here(e, fr), Grows(e'.graph, g)} ::
      Grows(e'.graph, g) && e.dyn.pcVal in fr.env && exc in fr.excs && fr.result == None ==>
        Traps(g, Here(e, fr), e.dyn.steps, PcOf(e.dyn, fr.env), fr.excs[exc], fr.core)
  }

  /** Outcome of running the code between two construction states. */
  ghost predicate BodyOutcome(g: Graph, e: Emitter, fr: Frame, e': Emitter, vals: seq<Value>, r: BodyResult)
    requires Open(e) && Open(e')
  {
    match r
    case Yielded(vs, core) => exists fr': Frame :: Goes(g, e, fr, e', fr') && Sim(e', vals, vs, core, fr')
    case Raised(x, core) => Traps(g, Here(e, fr), e.dyn.steps, core.pc, x, core)
    case Panicked => Reaches(g, Here(e, fr), Trapped)
  }

  ghost predicate OpCorrect(e: Emitter, e': Emitter, o: Op, vars: seq<Value>, vals: seq<Value>)
    requires Open(e) && Open(e') && OpScoped(o, |vars|)
  {
    forall g: Graph, fr: Frame, env: seq<u64>, core: Core {:trigger Sim(e, vars, env, core, fr), Grows(e'.graph, g)} ::
      Sim(e, vars, env, core, fr) && Grows(e'.graph, g) ==>
        BodyOutcome(g, e, fr, e', vals, RunOp(o, env, core))
  }

  /** The code between two construction states does what the interpreter does with the body. */
  ghost predicate BodyCorrect(e: Emitter, e': Emitter, c: Body, vars: seq<Value>, vals: seq<Value>, outs: nat)
    requires Open(e) && Open(e') && Scoped(c, |vars|, outs)
  {
    forall g: Graph, fr: Frame, env: seq<u64>, core: Core {:trigger Sim(e, vars, env, core, fr), Grows(e'.graph, g)} ::
      Sim(e, vars, env, core, fr) && Grows(e'.graph, g) ==>
        BodyOutcome(g, e, fr, e', vals, RunBody(c, env, core, outs))
  }

  ghost predicate Known(vars: seq<Value>, bound: Value) { forall i :: 0 <= i < |vars| ==> vars[i] < bound }

  // ----- exits -----

  datatype PcChange = Offset(delta: int) | Absolute(target: Value)

  /** The symbolic state after a completed step. */
  function CompleteStep(d: Dynamic, c: PcChange): Dynamic {
    match c
    case Offset(delta) => d.(steps := d.steps + 1, pcOffset := S64(U64(d.pcOffset + delta)))
    case Absolute(target) => Dynamic(d.steps + 1, target, 0)
  }

  /** The state after emitting an instruction, new values allocated. */
  ghost predicate Emitted(e: Emitter, i: Inst, e': Emitter)
    requires Open(e)
  {
    e'.graph == Emit(e, i).graph && e'.cur == e.cur && e'.nextVal >= e.nextVal && e'.end == e.end
  }

  lemma EmittedLater(e: Emitter, i: Inst, e': Emitter)
    requires Open(e) && EndOk(e) && Emitted(e, i, e')
    ensures Open(e') && Later(e, e')
  {
  }

  lemma EmittedRuns(e: Emitter, i: Inst, e': Emitter, g: Graph, fr: Frame)
    requires Open(e) && Emitted(e, i, e') && Grows(e'.graph, g)
    ensures Open(e')
    ensures match ExecInst(i, fr)
            case Some(fr') => Reaches(g, Here(e, fr), Here(e', fr'))
            case None => Reaches(g, Here(e, fr), Trapped)
  {
    EmitRuns(e, i, g, fr);
  }

  /** Reading the program counter yields a value for it. */
  ghost predicate PcReadCorrect(e: Emitter, e': Emitter, v: Value)
    requires Open(e) && Open(e')
  {
    forall g: Graph, fr: Frame {:trigger Here(e, fr), Grows(e'.graph, g)} ::
      Grows(e'.graph, g) && e.dyn.pcVal < e.nextVal && e.dyn.pcVal in fr.env ==>
        exists fr': Frame ::
          && Goes(g, e, fr, e', fr') && fr' == fr.(env := fr'.env)
          && v in fr'.env && fr'.env[v] == PcOf(e.dyn, fr.env)
  }

  lemma PcReadAdds(e: Emitter, e': Emitter, v: Value)
    requires Open(e) && v == e.nextVal
    requires Emitted(e, IaddImm(v, e.dyn.pcVal, e.dyn.pcOffset), e')
    ensures Open(e') && PcReadCorrect(e, e', v)
  {
    forall g: Graph, fr: Frame | Grows(e'.graph, g) && e.dyn.pcVal < e.nextVal && e.dyn.pcVal in fr.env
      ensures exists fr': Frame ::
          && Goes(g, e, fr, e', fr') && fr' == fr.(env := fr'.env)
          && v in fr'.env && fr'.env[v] == PcOf(e.dyn, fr.env)
    {
      var fr' := fr.Def(v, PcOf(e.dyn, fr.env));
      EmittedRuns(e, IaddImm(v, e.dyn.pcVal, e.dyn.pcOffset), e', g, fr);
      assert Goes(g, e, fr, e', fr');
    }
  }

  lemma PcReadKnown(e: Emitter)
    requires Open(e) && e.dyn.pcOffset == 0
    ensures PcReadCorrect(e, e, e.dyn.pcVal)
  {
    forall g: Graph, fr: Frame | Grows(e.graph, g) && e.dyn.pcVal < e.nextVal && e.dyn.pcVal in fr.env
      ensures exists fr': Frame ::
          && Goes(g, e, fr, e, fr') && fr' == fr.(env := fr'.env)
          && e.dyn.pcVal in fr'.env && fr'.env[e.dyn.pcVal] == PcOf(e.dyn, fr.env)
    {
      ReachesSelf(g, Here(e, fr));
      assert Goes(g, e, fr, e, fr);
    }
  }

  /** The end block commits the program counter it is given and returns the steps it is given. */
  lemma EndBlockRuns(g: Graph, b: BlockId, pc: Value, steps: Value, fr: Frame)
    requires b < |g| && IsEndBlock(g[b])
    requires pc in fr.env && steps in fr.env
    ensures HaltsWith(g, Enter(g, b, [pc, steps], fr), fr.env[steps], fr.core.(pc := fr.env[pc]), fr.result)
  {
    var p, s := g[b].params[0], g[b].params[1];
    assert g[b].params == [p, s];
    var vals := Lookup(fr.env, [pc, steps]);
    assert vals == [fr.env[pc], fr.env[steps]];
    var env1 := fr.env[p := fr.env[pc]];
    assert [p, s][1..] == [s] && vals[1..] == [fr.env[steps]];
    assert [s][1..] == [] && [fr.env[steps]][1..] == [];
    assert BindParams(env1, [s], [fr.env[steps]]) == env1[s := fr.env[steps]];
    var fr1 := fr.(env := env1[s := fr.env[steps]]);
    assert Enter(g, b, [pc, steps], fr) == At(b, 0, fr1);
    var fr2 := fr1.(core := fr1.core.(pc := fr.env[pc]));
    assert Step(g, At(b, 0, fr1)) == At(b, 1, fr2);
    assert Step(g, At(b, 1, fr2)) == Halted(fr.env[steps], fr2);
    ReachesStep(g, At(b, 0, fr1));
    ReachesStep(g, At(b, 1, fr2));
    ReachesTransitive(g, At(b, 0, fr1), At(b, 1, fr2), Halted(fr.env[steps], fr2));
  }

  lemma ExitRuns(e: Emitter, e1: Emitter, e2: Emitter, steps: Value, pc: Value, b: BlockId, g: Graph, fr: Frame)
    requires Sound(e) && steps == e.nextVal && e1.nextVal > e.nextVal && e1.dyn == e.dyn
    requires Emitted(e, Iconst(steps, U64(e.dyn.steps)), e1)
    requires Open(e1) && Open(e2) && PcReadCorrect(e1, e2, pc)
    requires Grows(e1.graph, g) && Grows(e2.graph, g) && Grows(Close(e2, Jump(b, [pc, steps])).graph, g)
    requires b < |g| && IsEndBlock(g[b]) && e.dyn.pcVal in fr.env
    ensures HaltsWith(g, Here(e, fr), U64(e.dyn.steps), fr.core.(pc := PcOf(e.dyn, fr.env)), fr.result)
  {
    hide Reaches, HaltsWith, Enter, Grows;
    var n := U64(e.dyn.steps);
    var fr1 := fr.Def(steps, n);
    EmittedRuns(e, Iconst(steps, n), e1, g, fr);
    assert Here(e1, fr1).At?;
    var fr2: Frame :| Goes(g, e1, fr1, e2, fr2) && fr2 == fr1.(env := fr2.env)
                      && pc in fr2.env && fr2.env[pc] == PcOf(e.dyn, fr1.env);
    assert steps in fr2.env && fr2.env[steps] == n;
    var core := fr.core.(pc := fr2.env[pc]);
    CloseRuns(e2, Jump(b, [pc, steps]), g, fr2);
    EndBlockRuns(g, b, pc, steps, fr2);
    HaltsLater(g, Here(e2, fr2), Enter(g, b, [pc, steps], fr2), n, core, fr.result);
    HaltsLater(g, Here(e1, fr1), Here(e2, fr2), n, core, fr.result);
    HaltsLater(g, Here(e, fr), Here(e1, fr1), n, core, fr.result);
  }

  lemma ExitComposes(e: Emitter, e1: Emitter, e2: Emitter, e': Emitter, steps: Value, pc: Value, b: BlockId)
    requires Sound(e) && steps == e.nextVal && e1.nextVal > e.nextVal && e1.dyn == e.dyn
    requires Emitted(e, Iconst(steps, U64(e.dyn.steps)), e1)
    requires Open(e1) && Open(e2) && Later(e1, e2) && PcReadCorrect(e1, e2, pc)
    requires Grows(Close(e2, Jump(b, [pc, steps])).graph, e'.graph)
    requires b < |e'.graph| && IsEndBlock(e'.graph[b])
    ensures Exits(e, e')
  {
    var c := Close(e2, Jump(b, [pc, steps]));
    forall g: Graph, fr: Frame | Grows(e'.graph, g) && e.dyn.pcVal in fr.env
      ensures HaltsWith(g, Here(e, fr), U64(e.dyn.steps), fr.core.(pc := PcOf(e.dyn, fr.env)), fr.result)
    {
      GrowsTransitive(c.graph, e'.graph, g);
      GrowsTransitive(e2.graph, c.graph, g);
      GrowsTransitive(e1.graph, e2.graph, g);
      assert BlockGrows(e'.graph[b], g[b]);
      ExitRuns(e, e1, e2, steps, pc, b, g, fr);
    }
  }

  // ----- forks -----

  /** The current block ended with a branch to two new blocks, the first of which is now filled. */
  ghost predicate Forked(e: Emitter, cond: Value, e1: Emitter)
    requires Open(e)
  {
    && e1.graph == Close(CreateBlock(CreateBlock(e, []), []), Brif(cond, |e.graph|, |e.graph| + 1)).graph
    && e1.cur == |e.graph| && e1.nextVal >= e.nextVal && e1.end == e.end
  }

  lemma ForkedLater(e: Emitter, cond: Value, e1: Emitter)
    requires Sound(e) && Forked(e, cond, e1)
    ensures Open(e1) && Later(e, e1)
    ensures e1.graph[|e.graph|] == Block([], [], None) && e1.graph[|e.graph| + 1] == Block([], [], None)
  {
  }

  /** Coming back to the second block of a fork after the first has been filled. */
  lemma Resume(e: Emitter, cond: Value, e1: Emitter, e2: Emitter, e': Emitter)
    requires Sound(e) && Forked(e, cond, e1) && Later(e1, e2)
    requires e' == e2.(cur := |e.graph| + 1, dyn := e.dyn)
    ensures Later(e, e') && Sound(e') && e'.graph[e'.cur] == Block([], [], None)
  {
    ForkedLater(e, cond, e1);
    GrowsTransitive(e.graph, e1.graph, e2.graph);
    forall i | 0 <= i < |e.graph| && i != e.cur ensures e2.graph[i] == e.graph[i] {
      assert e1.graph[i] == e.graph[i];
    }
  }

  /** A branch goes to the start of the block chosen by the condition. */
  lemma ForkRuns(e: Emitter, cond: Value, e1: Emitter, e2: Emitter, e': Emitter, g: Graph, fr: Frame)
    requires Sound(e) && Forked(e, cond, e1) && Later(e1, e2)
    requires e' == e2.(cur := |e.graph| + 1, dyn := e.dyn)
    requires Grows(e'.graph, g) && cond in fr.env
    ensures Open(e1) && Open(e')
    ensures Reaches(g, Here(e, fr), if fr.env[cond] != 0 then Here(e1, fr) else Here(e', fr))
  {
    ForkedLater(e, cond, e1);
    Resume(e, cond, e1, e2, e');
    var t, f := |e.graph|, |e.graph| + 1;
    var e0 := CreateBlock(CreateBlock(e, []), []);
    GrowsTransitive(e1.graph, e2.graph, g);
    CloseRuns(e0, Brif(cond, t, f), g, fr);
    assert Here(e0, fr) == Here(e, fr);
    assert BlockGrows(e1.graph[t], g[t]) && BlockGrows(e1.graph[f], g[f]);
    assert Lookup(fr.env, []) == [];
  }

  /** Leaving when a condition holds and going on otherwise. */
  ghost predicate BranchCorrect(e: Emitter, e': Emitter, cond: Value, change: PcChange)
    requires Open(e) && Open(e')
  {
    forall g: Graph, fr: Frame {:trigger Here(e, fr), Grows(e'.graph, g)} ::
      && Grows(e'.graph, g) && cond in fr.env && e.dyn.pcVal in fr.env
      && (change.Absolute? ==> change.target in fr.env) ==>
        if fr.env[cond] != 0 then
          var d := CompleteStep(e.dyn, change);
          HaltsWith(g, Here(e, fr), U64(d.steps), fr.core.(pc := PcOf(d, fr.env)), fr.result)
        else
          Goes(g, e, fr, e', fr)
  }

  lemma BranchComposes(e: Emitter, cond: Value, change: PcChange, e1: Emitter, e2: Emitter, e': Emitter)
    requires Sound(e) && Forked(e, cond, e1) && e1.dyn == CompleteStep(e.dyn, change)
    requires Open(e1) && Later(e1, e2) && Exits(e1, e2)
    requires e' == e2.(cur := |e.graph| + 1, dyn := e.dyn)
    ensures Open(e') && BranchCorrect(e, e', cond, change)
  {
    Resume(e, cond, e1, e2, e');
    forall g: Graph, fr: Frame |
      && Grows(e'.graph, g) && cond in fr.env && e.dyn.pcVal in fr.env
      && (change.Absolute? ==> change.target in fr.env)
      ensures if fr.env[cond] != 0 then
                var d := CompleteStep(e.dyn, change);
                HaltsWith(g, Here(e, fr), U64(d.steps), fr.core.(pc := PcOf(d, fr.env)), fr.result)
              else
                Goes(g, e, fr, e', fr)
    {
      ForkRuns(e, cond, e1, e2, e', g, fr);
      if fr.env[cond] != 0 {
        var d := e1.dyn;
        HaltsLater(g, Here(e, fr), Here(e1, fr), U64(d.steps), fr.core.(pc := PcOf(d, fr.env)), fr.result);
      }
    }
  }

  /** The call that handles an exception either resumes at the trap address or reports to the environment. */
  lemma HandleRuns(fr: Frame, handled: Value, newPc: Value, exc: Slot, pc: Value)
    requires exc in fr.excs && pc in fr.env && fr.result == None && pc < handled < newPc
    ensures var fr' := ExecInst(CallHandleException(handled, newPc, exc, pc), fr);
            var r := HandleStepResult(fr.core, fr.env[pc], Err(fr.excs[exc]));
            && fr'.Some? && fr'.value.env == fr.env[handled := FromBool(r.error == None)][newPc := r.core.pc]
            && fr'.value.core.(pc := r.core.pc) == r.core && fr'.value.result == r.error
  {
  }

  lemma HaltsThrough(g: Graph, e: Emitter, fr: Frame, e1: Emitter, fr1: Frame, e2: Emitter, fr2: Frame,
                     steps: u64, core: Core, result: Option<EnvironException>)
    requires Open(e) && Open(e1) && Open(e2)
    requires Reaches(g, Here(e, fr), Here(e1, fr1)) && Reaches(g, Here(e1, fr1), Here(e2, fr2))
    requires HaltsWith(g, Here(e2, fr2), steps, core, result)
    ensures HaltsWith(g, Here(e, fr), steps, core, result)
  {
    HaltsLater(g, Here(e1, fr1), Here(e2, fr2), steps, core, result);
    HaltsLater(g, Here(e, fr), Here(e1, fr1), steps, core, result);
  }

  /** From the call on: leave with a completed step, or leave with the environment error. */
  lemma AfterHandle(e2: Emitter, e3: Emitter, e': Emitter, handled: Value, newPc: Value, g: Graph, fr: Frame,
                    r: StepResult)
    requires Sound(e2) && Sound(e3) && BranchCorrect(e2, e3, handled, Absolute(newPc)) && e3.dyn == e2.dyn
    requires Exits(e3, e') && Grows(e3.graph, g) && Grows(e'.graph, g)
    requires handled in fr.env && newPc in fr.env && e2.dyn.pcVal in fr.env && e2.dyn.pcOffset == 0
    requires fr.env[handled] == FromBool(r.error == None) && fr.env[newPc] == r.core.pc
    requires r.error.Some? ==> fr.env[e2.dyn.pcVal] == r.core.pc
    requires fr.core.(pc := r.core.pc) == r.core && fr.result == r.error
    ensures HaltsWith(g, Here(e2, fr), U64(if r.error.Some? then e2.dyn.steps else e2.dyn.steps + 1), r.core, r.error)
  {
    assert Here(e2, fr).At?;
    if r.error.Some? {
      assert Goes(g, e2, fr, e3, fr);
      assert PcOf(e3.dyn, fr.env) == r.core.pc;
      assert Here(e3, fr).At?;
      HaltsLater(g, Here(e2, fr), Here(e3, fr), U64(e2.dyn.steps), r.core, r.error);
    } else {
      assert PcOf(CompleteStep(e2.dyn, Absolute(newPc)), fr.env) == r.core.pc;
    }
  }

  /** An exception is handed over and the block left, with the step counted when it was handled. */
  lemma HandleComposes(e: Emitter, e1: Emitter, e2: Emitter, e3: Emitter, e': Emitter,
                       pc: Value, handled: Value, newPc: Value, exc: Slot, g: Graph, fr: Frame)
    requires Sound(e) && Sound(e1) && PcReadCorrect(e, e1, pc) && e1.dyn == e.dyn.(pcVal := pc, pcOffset := 0)
    requires handled == e1.nextVal && newPc == handled + 1 && e2.dyn == e1.dyn
    requires Emitted(e1, CallHandleException(handled, newPc, exc, pc), e2)
    requires Sound(e2) && Sound(e3) && BranchCorrect(e2, e3, handled, Absolute(newPc)) && e3.dyn == e2.dyn
    requires Exits(e3, e')
    requires Grows(e1.graph, g) && Grows(e2.graph, g) && Grows(e3.graph, g) && Grows(e'.graph, g)
    requires e.dyn.pcVal in fr.env && exc in fr.excs && fr.result == None
    ensures Traps(g, Here(e, fr), e.dyn.steps, PcOf(e.dyn, fr.env), fr.excs[exc], fr.core)
  {
    hide Reaches, HaltsWith, ExecInst, Grows, Exits;
    var pc0 := PcOf(e.dyn, fr.env);
    var call := CallHandleException(handled, newPc, exc, pc);
    assert Here(e, fr).At?;
    var fr1: Frame :| Goes(g, e, fr, e1, fr1) && fr1 == fr.(env := fr1.env) && pc in fr1.env && fr1.env[pc] == pc0;
    HandleRuns(fr1, handled, newPc, exc, pc);
    EmittedRuns(e1, call, e2, g, fr1);
    var fr2 := ExecInst(call, fr1).value;
    var r := HandleStepResult(fr.core, pc0, Err(fr.excs[exc]));
    AfterHandle(e2, e3, e', handled, newPc, g, fr2, r);
    HaltsThrough(g, e, fr, e1, fr1, e2, fr2, U64(if r.error.Some? then e.dyn.steps else e.dyn.steps + 1), r.core,
                 r.error);
  }
}
