/**
 Compilation of blocks of instructions to control-flow graph functions, and the cache of
 compilation results.
 */
module Jit {
  import opened Words
  import opened Machine
  import opened Icb
  import opened Ir
  import opened Lowering
  import opened Shape
  import opened Instructions
  import opened Execution
  import opened Blocks
  import opened BlockLowering
  import opened Builder

  /** Opcodes that never go on to the next instruction of a block: jumps and exceptions. */
  predicate EndsBlock(op: OpCode) {
    IsJump(op) || op.ECallOp? || op.Unknown?
  }

  lemma EndsBlockStatus(i: Instruction)
    ensures StatusOf(RoutineOf(i).tail).Falls? <==> !EndsBlock(i.opcode)
  {
    hide MemoryBody, BranchBody, JumpBody, SpecialBody, ComputeBody, Done;
  }

  /** An opcode that cannot be lowered comes before the first unconditional jump or exception. */
  ghost predicate Unsupported(instrs: seq<Instruction>) {
    exists k :: 0 <= k < |instrs| && !Lowerable(instrs[k].opcode) && FallsThrough(instrs, k)
  }

  ghost predicate FallsThrough(instrs: seq<Instruction>, k: nat)
    requires k <= |instrs|
  {
    forall j :: 0 <= j < k ==> !EndsBlock(instrs[j].opcode)
  }

  // ----- what compiled functions do -----

  /** Calling a function: the entry block receives the program counter. */
  function Entry(core: Core, pc: u64): Config {
    At(0, 0, Frame(map[0 := pc], map[], map[], core, None))
  }

  /** Running the function has the effect of running the block, whatever the machine state. */
  ghost predicate Implements(g: Graph, instrs: seq<Instruction>) {
    forall core: Core, pc: u64 ::
      var r := RunBlock(RunInstr, instrs, core.(pc := pc));
      HaltsWith(g, Entry(core, pc), U64(r.steps), r.core, r.error)
  }

  /** What such a function returns is the only end its run can have: it never traps or runs on. */
  lemma OnlyResult(g: Graph, instrs: seq<Instruction>, core: Core, pc: u64, d: Config)
    requires Implements(g, instrs) && Reaches(g, Entry(core, pc), d) && !d.At?
    ensures var r := RunBlock(RunInstr, instrs, core.(pc := pc));
            d.Halted? && d.steps == U64(r.steps) && d.frame.core == r.core && d.frame.result == r.error
  {
    hide RunInstr, RunBlock, Reaches;
    var r := RunBlock(RunInstr, instrs, core.(pc := pc));
    var fr: Frame :| fr.core == r.core && fr.result == r.error && Reaches(g, Entry(core, pc), Halted(U64(r.steps), fr));
    ReachesUnique(g, Entry(core, pc), d, Halted(U64(r.steps), fr));
  }

  /** Outcome of the code for the first instructions of a block. */
  ghost predicate PrefixOutcome(g: Graph, e: Emitter, fr: Frame, e': Emitter, p: Progress)
    requires Open(e)
  {
    match p
    case Running(core) => Arrives(g, e, fr, e', core)
    case Left(core, steps, error) => HaltsWith(g, Here(e, fr), U64(steps), core, error)
  }

  ghost predicate PrefixCorrect(e: Emitter, e': Emitter, instrs: seq<Instruction>, n: nat)
    requires Open(e) && n <= |instrs|
  {
    forall g: Graph, fr: Frame, core: Core {:trigger Sim(e, [], [], core, fr), Grows(e'.graph, g)} ::
      Sim(e, [], [], core, fr) && Grows(e'.graph, g) ==>
        PrefixOutcome(g, e, fr, e', RunFirst(RunInstr, instrs, core, n))
  }

  lemma PrefixStarts(e: Emitter, instrs: seq<Instruction>)
    requires Open(e)
    ensures PrefixCorrect(e, e, instrs, 0)
  {
    forall g: Graph, fr: Frame, core: Core | Sim(e, [], [], core, fr) && Grows(e.graph, g)
      ensures PrefixOutcome(g, e, fr, e, RunFirst(RunInstr, instrs, core, 0))
    {
      ReachesSelf(g, Here(e, fr));
      assert Goes(g, e, fr, e, fr) && Sim(e, [], [], core, fr);
    }
  }

  /** One more instruction of a block. */
  lemma FirstStep(instrs: seq<Instruction>, core: Core, n: nat)
    requires n < |instrs|
    ensures var p := RunFirst(RunInstr, instrs, core, n);
            RunFirst(RunInstr, instrs, core, n + 1) == if p.Running? then After(StepInstr(instrs[n], p.core), n) else p
  {
    hide RunInstr, StepWith;
  }

  /** The outcome of one more instruction, seen from the start of the block. */
  lemma OutcomeExtends(g: Graph, e: Emitter, fr: Frame, e1: Emitter, fr1: Frame, e2: Emitter, status: Status,
                       r: InstrStep)
    requires Sound(e) && Sound(e1) && e.nextVal <= e1.nextVal && Goes(g, e, fr, e1, fr1)
    requires InstrOutcome(g, e1, fr1, e2, status, r) && !status.Jumps?
    ensures PrefixOutcome(g, e, fr, e2, After(r, e1.dyn.steps))
  {
    match r
    case Continues(core') => ArrivesLater(g, e, fr, e1, fr1, e2, core');
    case Leaves(core', error) =>
      HaltsLater(g, Here(e, fr), Here(e1, fr1), U64(e1.dyn.steps + Counted(error)), core', error);
  }

  lemma PrefixOutcomeExtends(g: Graph, e: Emitter, fr: Frame, e1: Emitter, e2: Emitter, status: Status,
                             instrs: seq<Instruction>, core: Core, n: nat)
    requires Sound(e) && Sound(e1) && e.nextVal <= e1.nextVal && n < |instrs| && e1.dyn.steps == n
    requires InstrCorrect(e1, e2, instrs[n], status) && Grows(e2.graph, g)
    requires PrefixOutcome(g, e, fr, e1, RunFirst(RunInstr, instrs, core, n)) && !status.Jumps?
    ensures PrefixOutcome(g, e, fr, e2, RunFirst(RunInstr, instrs, core, n + 1))
  {
    hide StepInstr, InstrOutcome, After, Goes, RunInstr, RunFirst;
    FirstStep(instrs, core, n);
    var p := RunFirst(RunInstr, instrs, core, n);
    if p.Running? {
      var fr1: Frame :| Goes(g, e, fr, e1, fr1) && Sim(e1, [], [], p.core, fr1);
      OutcomeExtends(g, e, fr, e1, fr1, e2, status, StepInstr(instrs[n], p.core));
    }
  }

  lemma PrefixExtends(e: Emitter, e1: Emitter, e2: Emitter, status: Status, instrs: seq<Instruction>, n: nat)
    requires Sound(e) && Sound(e1) && Later(e, e1) && Later(e1, e2) && n < |instrs| && e1.dyn.steps == n
    requires PrefixCorrect(e, e1, instrs, n) && InstrCorrect(e1, e2, instrs[n], status) && !status.Jumps?
    ensures PrefixCorrect(e, e2, instrs, n + 1)
  {
    hide StepInstr, RunFirst;
    forall g: Graph, fr: Frame, core: Core | Sim(e, [], [], core, fr) && Grows(e2.graph, g)
      ensures PrefixOutcome(g, e, fr, e2, RunFirst(RunInstr, instrs, core, n + 1))
    {
      GrowsTransitive(e1.graph, e2.graph, g);
      PrefixOutcomeExtends(g, e, fr, e1, e2, status, instrs, core, n);
    }
  }

  // ----- whole blocks -----

  /** Every run of the code of a block returns with the result of running the block. */
  ghost predicate BlockCorrect(e: Emitter, e': Emitter, instrs: seq<Instruction>)
    requires Open(e)
  {
    forall g: Graph, fr: Frame, core: Core {:trigger Sim(e, [], [], core, fr), Grows(e'.graph, g)} ::
      Sim(e, [], [], core, fr) && Grows(e'.graph, g) ==>
        var r := RunBlock(RunInstr, instrs, core);
        HaltsWith(g, Here(e, fr), U64(r.steps), r.core, r.error)
  }

  /** Exiting at a point that stands for a machine state returns that state. */
  lemma ArrivedExits(g: Graph, e: Emitter, fr: Frame, e1: Emitter, e2: Emitter, core: Core)
    requires Open(e) && Open(e1) && Arrives(g, e, fr, e1, core) && Exits(e1, e2) && Grows(e2.graph, g)
    ensures HaltsWith(g, Here(e, fr), U64(e1.dyn.steps), core, None)
  {
    var fr1: Frame :| Goes(g, e, fr, e1, fr1) && Sim(e1, [], [], core, fr1);
    assert Here(e1, fr1).At?;
    HaltsLater(g, Here(e, fr), Here(e1, fr1), U64(e1.dyn.steps), core, None);
  }

  /** Falling off the end of a block. */
  lemma EndsAfterLast(e: Emitter, e1: Emitter, e2: Emitter, instrs: seq<Instruction>)
    requires Sound(e) && Sound(e1) && PrefixCorrect(e, e1, instrs, |instrs|) && e1.dyn.steps == |instrs|
    requires Exits(e1, e2) && Later(e1, e2)
    ensures BlockCorrect(e, e2, instrs)
  {
    hide RunFirst;
    forall g: Graph, fr: Frame, core: Core | Sim(e, [], [], core, fr) && Grows(e2.graph, g)
      ensures var r := RunBlock(RunInstr, instrs, core); HaltsWith(g, Here(e, fr), U64(r.steps), r.core, r.error)
    {
      GrowsTransitive(e1.graph, e2.graph, g);
      var p := RunFirst(RunInstr, instrs, core, |instrs|);
      assert PrefixOutcome(g, e, fr, e1, p);
      if p.Running? { ArrivedExits(g, e, fr, e1, e2, p.core); }
    }
  }

  /** An instruction that always leaves the block makes the rest of the block irrelevant. */
  lemma RestIrrelevant(instrs: seq<Instruction>, core: Core, n: nat)
    requires n < |instrs| && RunFirst(RunInstr, instrs, core, n + 1).Left?
    ensures var p := RunFirst(RunInstr, instrs, core, n + 1);
            RunBlock(RunInstr, instrs, core) == BlockResult(p.core, p.steps, p.error)
  {
    hide StepInstr, RunFirst;
    LeftStays(RunInstr, instrs, core, n + 1, |instrs|);
  }

  /** Instructions with these tails never go on. */
  lemma AlwaysLeaves(i: Instruction, core: Core)
    requires EndsBlock(i.opcode)
    ensures StepInstr(i, core).Leaves?
  {
    hide RoutineOf, StepInstr;
    EndsBlockStatus(i);
    StepOfRoutine(i, core);
  }

  lemma LeftByNow(instrs: seq<Instruction>, core: Core, n: nat)
    requires n < |instrs| && EndsBlock(instrs[n].opcode)
    ensures RunFirst(RunInstr, instrs, core, n + 1).Left?
  {
    hide StepInstr, RunInstr, RunFirst;
    FirstStep(instrs, core, n);
    var p := RunFirst(RunInstr, instrs, core, n);
    if p.Running? { AlwaysLeaves(instrs[n], p.core); }
  }

  /** An unconditional exception ends the block. */
  lemma EndsInException(e: Emitter, e2: Emitter, instrs: seq<Instruction>, n: nat)
    requires Open(e) && n < |instrs| && EndsBlock(instrs[n].opcode) && PrefixCorrect(e, e2, instrs, n + 1)
    ensures BlockCorrect(e, e2, instrs)
  {
    hide StepInstr, RunFirst, RunBlock, EndsBlock;
    forall g: Graph, fr: Frame, core: Core | Sim(e, [], [], core, fr) && Grows(e2.graph, g)
      ensures var r := RunBlock(RunInstr, instrs, core); HaltsWith(g, Here(e, fr), U64(r.steps), r.core, r.error)
    {
      LeftByNow(instrs, core, n);
      RestIrrelevant(instrs, core, n);
      assert PrefixOutcome(g, e, fr, e2, RunFirst(RunInstr, instrs, core, n + 1));
    }
  }

  /** The outcome of a jump followed by the exit. */
  lemma ExitAfterJump(g: Graph, e: Emitter, fr: Frame, e1: Emitter, fr1: Frame, e2: Emitter, e3: Emitter, r: InstrStep)
    requires Sound(e) && Sound(e1) && Sound(e2) && Goes(g, e, fr, e1, fr1) && e2.dyn.steps == e1.dyn.steps + 1
    requires InstrOutcome(g, e1, fr1, e2, Jumps, r) && r.Leaves? && Exits(e2, e3) && Grows(e3.graph, g)
    ensures HaltsWith(g, Here(e, fr), U64(e1.dyn.steps + Counted(r.error)), r.core, r.error)
  {
    if r.error == None && Arrives(g, e1, fr1, e2, r.core) {
      ArrivedExits(g, e1, fr1, e2, e3, r.core);
    }
    HaltsLater(g, Here(e, fr), Here(e1, fr1), U64(e1.dyn.steps + Counted(r.error)), r.core, r.error);
  }

  lemma JumpOutcome(g: Graph, e: Emitter, fr: Frame, e1: Emitter, e2: Emitter, e3: Emitter,
                    instrs: seq<Instruction>, core: Core, n: nat)
    requires Sound(e) && Sound(e1) && Sound(e2) && e.nextVal <= e1.nextVal && n < |instrs| && e1.dyn.steps == n
             && e2.dyn.steps == n + 1
    requires EndsBlock(instrs[n].opcode)
    requires InstrCorrect(e1, e2, instrs[n], Jumps) && Grows(e2.graph, g) && Exits(e2, e3) && Grows(e3.graph, g)
    requires PrefixOutcome(g, e, fr, e1, RunFirst(RunInstr, instrs, core, n))
    ensures var p := RunFirst(RunInstr, instrs, core, n + 1);
            p.Left? && HaltsWith(g, Here(e, fr), U64(p.steps), p.core, p.error)
  {
    hide StepInstr, EndsBlock, InstrOutcome, Goes, Exits, HaltsWith, RunInstr, RunFirst;
    FirstStep(instrs, core, n);
    var p := RunFirst(RunInstr, instrs, core, n);
    if p.Running? {
      AlwaysLeaves(instrs[n], p.core);
      var fr1: Frame :| Goes(g, e, fr, e1, fr1) && Sim(e1, [], [], p.core, fr1);
      ExitAfterJump(g, e, fr, e1, fr1, e2, e3, StepInstr(instrs[n], p.core));
    }
  }

  /** An unconditional jump ends the block. */
  lemma EndsInJump(e: Emitter, e1: Emitter, e2: Emitter, e3: Emitter, instrs: seq<Instruction>, n: nat)
    requires Sound(e) && Sound(e1) && Sound(e2) && n < |instrs| && e1.dyn.steps == n && e2.dyn.steps == n + 1
    requires Later(e, e1) && Later(e1, e2) && Later(e2, e3) && EndsBlock(instrs[n].opcode)
    requires PrefixCorrect(e, e1, instrs, n) && InstrCorrect(e1, e2, instrs[n], Jumps) && Exits(e2, e3)
    ensures BlockCorrect(e, e3, instrs)
  {
    hide StepInstr, RunFirst, RunBlock, EndsBlock;
    forall g: Graph, fr: Frame, core: Core | Sim(e, [], [], core, fr) && Grows(e3.graph, g)
      ensures var r := RunBlock(RunInstr, instrs, core); HaltsWith(g, Here(e, fr), U64(r.steps), r.core, r.error)
    {
      GrowsTransitive(e2.graph, e3.graph, g);
      GrowsTransitive(e1.graph, e2.graph, g);
      JumpOutcome(g, e, fr, e1, e2, e3, instrs, core, n);
      RestIrrelevant(instrs, core, n);
    }
  }

  const FRESH: Emitter := Emitter([Block([0], [], None)], 0, 1, 0, Dynamic(0, 0, 0), None)

  /** Correct code that starts in a fresh function makes a correct function. */
  lemma CorrectImplements(e': Emitter, instrs: seq<Instruction>)
    requires BlockCorrect(FRESH, e', instrs)
    ensures Implements(e'.graph, instrs)
  {
    hide RunBlock;
    forall core: Core, pc: u64
      ensures var r := RunBlock(RunInstr, instrs, core.(pc := pc));
              HaltsWith(e'.graph, Entry(core, pc), U64(r.steps), r.core, r.error)
    {
      var fr := Frame(map[0 := pc], map[], map[], core, None);
      assert Sim(FRESH, [], [], core.(pc := pc), fr);
      assert Grows(e'.graph, e'.graph);
      assert Here(FRESH, fr) == Entry(core, pc);
    }
  }

  lemma FreshStarts(instrs: seq<Instruction>)
    ensures Sound(FRESH) && Later(FRESH, FRESH) && PrefixCorrect(FRESH, FRESH, instrs, 0)
  {
    hide PrefixCorrect;
    PrefixStarts(FRESH, instrs);
  }

  /** The answer of a compilation: nothing exactly when unsupported, else a correct function. */
  ghost predicate Answers(f: Option<Graph>, instrs: seq<Instruction>) {
    && (f.None? <==> Unsupported(instrs))
    && (f.Some? ==> Implements(f.value, instrs) && WellShaped(f.value))
  }

  /** No cycles, every block ended, and a single block that returns. */
  ghost predicate WellShaped(g: Graph) { exists order :: Ordered(g, order) }

  /** Only the current block has yet to be closed. */
  ghost predicate OneOpen(e: Emitter, order: seq<BlockId>) { Neat(e, order) && Opens(e) == {e.cur} }

  lemma FreshOpen()
    ensures OneOpen(FRESH, [])
  {
  }

  lemma StillOneOpen(e: Emitter, order: seq<BlockId>, e': Emitter, order': seq<BlockId>)
    requires OneOpen(e, order) && Moves(e, e') && Neat(e', order')
    ensures OneOpen(e', order')
  {
    hide Neat;
  }

  lemma ShapedFinally(e: Emitter, order: seq<BlockId>, e': Emitter, order': seq<BlockId>)
    requires OneOpen(e, order) && Ends(e, e') && Neat(e', order') && Later(e, e') && e'.end.Some?
    ensures WellShaped(e'.graph)
  {
    hide Neat;
    ClosedOrdered(e', order');
  }

  /** Compile a block; `None` when it holds an opcode that cannot be lowered. */
  method Produce(instrs: seq<Instruction>) returns (f: Option<Graph>)
    ensures Answers(f, instrs)
  {
    hide RoutineOf, EndsBlock, Lowerable, Sound, Later, Implements, WellShaped;
    hide PrefixCorrect, InstrCorrect, BlockCorrect, Exits, Neat, Moves, Ends;
    var b := new Builder();
    FreshStarts(instrs);
    FreshOpen();
    var n := 0;
    while n < |instrs|
      invariant 0 <= n <= |instrs| && Sound(b.View()) && b.dyn.steps == n
      invariant fresh(b) && OneOpen(b.View(), b.order)
      invariant Later(FRESH, b.View()) && PrefixCorrect(FRESH, b.View(), instrs, n)
      invariant FallsThrough(instrs, n) && forall j :: 0 <= j < n ==> Lowerable(instrs[j].opcode)
    {
      if !Lowerable(instrs[n].opcode) { return None; }
      ghost var e1, o1 := b.View(), b.order;
      var status := b.LowerInstr(instrs[n]);
      ghost var e2, o2 := b.View(), b.order;
      EndsBlockStatus(instrs[n]);
      if status.Throws? {
        PrefixExtends(FRESH, e1, e2, status, instrs, n);
        EndsInException(FRESH, e2, instrs, n);
        CorrectImplements(e2, instrs);
        ShapedFinally(e1, o1, e2, o2);
        return Some(b.graph);
      }
      StillOneOpen(e1, o1, e2, o2);
      if status.Jumps? {
        b.JumpToEnd();
        EndsInJump(FRESH, e1, e2, b.View(), instrs, n);
        CorrectImplements(b.View(), instrs);
        ShapedFinally(e2, o2, b.View(), b.order);
        return Some(b.graph);
      }
      PrefixExtends(FRESH, e1, e2, status, instrs, n);
      LaterTransitive(FRESH, e1, e2);
      n := n + 1;
    }
    ghost var e1, o1 := b.View(), b.order;
    b.JumpToEnd();
    EndsAfterLast(FRESH, e1, b.View(), instrs);
    CorrectImplements(b.View(), instrs);
    ShapedFinally(e1, o1, b.View(), b.order);
    return Some(b.graph);
  }

  /** Run code from a configuration that reaches the end of the function. */
  method Execute(g: Graph, start: Config, ghost steps: u64, ghost last: Frame) returns (c: Config)
    requires Reaches(g, start, Halted(steps, last))
    ensures c == Halted(steps, last)
  {
    hide Step;
    c := start;
    ghost var n: nat :| Run(g, c, n) == Halted(steps, last);
    while c.At?
      invariant Run(g, c, n) == Halted(steps, last)
      decreases n
    {
      c, n := Step(g, c), n - 1;
    }
    FinalStays(g, c, n);
  }

  /** Call a compiled function: run its code until it returns. */
  method Call(g: Graph, core: Core, pc: u64, ghost instrs: seq<Instruction>) returns (r: BlockResult)
    requires Implements(g, instrs) && |instrs| < TWO64
    ensures r == RunBlock(RunInstr, instrs, core.(pc := pc))
  {
    hide RunInstr, RunBlock, Reaches, Entry;
    ghost var want := RunBlock(RunInstr, instrs, core.(pc := pc));
    ghost var last: Frame :| last.core == want.core && last.result == want.error
                             && Reaches(g, Entry(core, pc), Halted(U64(want.steps), last));
    var c := Execute(g, Entry(core, pc), U64(want.steps), last);
    r := BlockResult(c.frame.core, c.steps, c.frame.result);
  }

  type Digest = seq<byte>

  /** The compiler with its cache of compilation results, successful or not. */
  class Jit {
    const hash: seq<Instruction> -> Digest
    var cache: map<Digest, Option<Graph>>

    /** Every block that has been given to `Compile`. */
    ghost var seen: set<seq<Instruction>>

    constructor (hash: seq<Instruction> -> Digest)
      ensures Valid() && seen == {} && cache == map[] && this.hash == hash
    {
      this.hash := hash;
      cache, seen := map[], {};
    }

    /** Each result kept has the meaning of a compilation of a block seen with its hash. */
    ghost predicate Valid()
      reads this
    {
      && (forall d | d in cache :: AnswersOne(cache[d], d))
      && (forall l | l in seen :: hash(l) in cache)
    }

    /** The answer for one of the blocks seen with this hash. */
    ghost predicate AnswersOne(f: Option<Graph>, d: Digest)
      reads this
    {
      exists l :: l in seen && hash(l) == d && Answers(f, l)
    }

    /** Another block with the same hash has been seen. */
    ghost predicate Collides(instrs: seq<Instruction>)
      reads this
    {
      exists l :: l in seen && l != instrs && hash(l) == hash(instrs)
    }

    /** Compile a block, unless the result is known. */
    method Compile(instrs: seq<Instruction>) returns (f: Option<Graph>)
      requires Valid()
      modifies this
      ensures Valid() && seen == old(seen) + {instrs}
      ensures AnswersOne(f, hash(instrs))
      ensures !Collides(instrs) ==> Answers(f, instrs)
    {
      hide Answers;
      ghost var before := cache;
      var d := hash(instrs);
      if d in cache {
        f := cache[d];
      } else {
        f := Produce(instrs);
        cache := cache[d := f];
      }
      seen := seen + {instrs};
      assert AnswersOne(f, d);
      forall e | e in before ensures AnswersOne(before[e], e) {
        assert old(AnswersOne(cache[e], e));
        var l :| l in old(seen) && hash(l) == e && Answers(before[e], l);
        assert l in seen;
      }
    }
  }
}
