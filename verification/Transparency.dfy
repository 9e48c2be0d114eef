/**
 The block cache cannot be observed: from a coherent state every tick does to the core what a
 step of the plain machine does, and leads to a coherent state.
 */
module Transparency {
  import opened Words
  import opened Memory
  import opened Machine
  import opened Instructions
  import opened Execution
  import opened Blocks
  import opened Isa
  import opened BlockCache
  import opened Ticking
  import opened Handling
  import opened Coherence

  /** Offsets of jumps and branches are even. */
  predicate EvenTarget(i: Instruction) { (i.opcode.J? || i.opcode.Jal? || IsBranch(i.opcode)) ==> i.imm % 2 == 0 }

  /** Running the instruction keeps code that cannot be written to, and keeps to even addresses. */
  ghost predicate Behaves(run: Semantics, i: Instruction, core: Core) {
    var r := run(i, core);
    && SameCode(core.mem, r.core.mem)
    && (r.result.Ok? && r.result.update.Next? ==> r.result.update.width == i.width)
    && (r.result.Ok? && r.result.update.Set? && core.pc % 2 == 0 && EvenTarget(i) ==> r.result.update.address % 2 == 0)
  }

  /** Decoding tells the width of an instruction, and gives even offsets. */
  ghost predicate DecodesTo(i: Instr, w: InstrWidth) { i.Cacheable? ==> i.instr.width == w && EvenTarget(i.instr) }

  /** The decoder tells the width of instructions and gives even offsets for jumps and branches. */
  ghost predicate DecodesWell(isa: Isa) {
    && (forall h :: DecodesTo(isa.parse16(h), Compressed))
    && (forall h :: DecodesTo(isa.parse32(h), Uncompressed))
  }

  ghost predicate Lawful(isa: Isa) {
    && DecodesWell(isa)
    && (forall i: Instruction, core: Core :: Behaves(isa.run, i, core))
  }

  /** The paused block goes on at the program counter. */
  ghost predicate Resumes(s: State)
    requires Steady(s)
  {
    var p := s.cache.partial;
    p.inProgress ==>
      var e := s.cache.At(p.addr);
      s.core.pc == End(e.address, e.instrs[..p.progress])
  }

  ghost predicate Coherent(isa: Isa, s: State) {
    && Steady(s) && Settled(s.core.mem, s.core.pc)
    && AllCoded(isa, s.core.mem, s.cache) && Linked(s.cache) && Resumes(s)
  }

  // ----- steps keep even addresses and code -----

  lemma FetchedWell(isa: Isa, m: Mem, addr: u64)
    requires Lawful(isa)
    ensures var f := FetchInstr(isa, m, addr); f.Fetched? ==> DecodesTo(f.instr, f.width)
  {
    hide Behaves;
  }

  /** Stores and a program counter that stays even where it was even keep fetching settled. */
  lemma SettledOn(m: Mem, pc: u64, m': Mem, pc': u64)
    requires Settled(m, pc) && SameCode(m, m') && (pc % 2 == 0 ==> pc' % 2 == 0)
    ensures Settled(m', pc')
  {
    SettledStays(m, m', pc');
  }

  /** Committing the result of an instruction that behaves. */
  lemma StepBehaves(run: Semantics, i: Instruction, core: Core)
    requires Behaves(run, i, core) && EvenTarget(i)
    ensures var o := Outcome(StepWith(run, i, core));
            (core.pc % 2 == 0 ==> o.core.pc % 2 == 0) && SameCode(core.mem, o.core.mem)
    ensures StepWith(run, i, core).Continues? ==> StepWith(run, i, core).core.pc == NextAddr(core.pc, i)
  {
    hide SameCode, EvenTarget;
  }

  lemma PlainBehaves(isa: Isa, core: Core)
    requires Lawful(isa)
    ensures var o := PlainStep(isa, core);
            (core.pc % 2 == 0 ==> o.core.pc % 2 == 0) && SameCode(core.mem, o.core.mem)
  {
    hide FetchInstr, Behaves, SameCode, EvenTarget, StepWith, HandleStepResult;
    var f := FetchInstr(isa, core.mem, core.pc);
    FetchedWell(isa, core.mem, core.pc);
    if f.Fault? {
      CommittedBehaves(core, Err(InstructionAccessFault(f.at)));
    } else if f.instr.Cacheable? {
      StepBehaves(isa.run, f.instr.instr, core);
    } else {
      CommittedBehaves(core, UncacheableResult(f.instr.op));
    }
  }

  /** Going on with the next instruction or raising an exception keeps to even addresses. */
  lemma CommittedBehaves(core: Core, result: RunResult)
    requires result.Err? || result.update.Next?
    ensures var o := HandleStepResult(core, core.pc, result);
            (core.pc % 2 == 0 ==> o.core.pc % 2 == 0) && SameCode(core.mem, o.core.mem)
  {
    CommitMeans(core, core.pc, result);
  }

  // ----- one tick -----

  /** Running a kept instruction is a plain step. */
  lemma KeptPlain(isa: Isa, core: Core, i: Instruction)
    requires KeptAt(isa, core.mem, core.pc, i) && Lawful(isa)
    ensures PlainStep(isa, core) == Outcome(StepWith(isa.run, i, core))
    ensures Behaves(isa.run, i, core) && EvenTarget(i)
  {
    hide Behaves, EvenTarget, FetchInstr, StepWith;
    FetchedWell(isa, core.mem, core.pc);
  }

  lemma CachedTransparent(isa: Isa, s: State, addr: u64, k: nat)
    requires Coherent(isa, s) && Lawful(isa) && k < |s.cache.At(addr).instrs|
    requires var e := s.cache.At(addr); s.core.pc == End(e.address, e.instrs[..k])
    ensures var t := RunCached(isa, s, addr, k);
            && Coherent(isa, t.state)
            && PlainStep(isa, s.core) == StepResult(t.state.core, t.error)
  {
    hide SlotOf, Behaves, StepWith, PlainStep, EvenTarget, Coded, KeptAt, NextAddr, Lawful, SameCode, End, Settled;
    var e := s.cache.At(addr);
    var i := e.instrs[k];
    CodedAt(isa, s.core.mem, e.address, e.instrs, k);
    KeptPlain(isa, s.core, i);
    StepBehaves(isa.run, i, s.core);
    var t := RunCached(isa, s, addr, k);
    SettledOn(s.core.mem, s.core.pc, t.state.core.mem, t.state.core.pc);
    StoredCoded(isa, s.core.mem, t.state.core.mem, s.cache);
  }

  lemma FetchedTransparent(isa: Isa, s: State)
    requires Coherent(isa, s) && Lawful(isa) && !s.cache.partial.inProgress
    ensures var t := RunFetched(isa, s);
            && Coherent(isa, t.state)
            && PlainStep(isa, s.core) == StepResult(t.state.core, t.error)
  {
    hide Pushed, Behaves, PlainStep, Settled, SameCode;
    var f := FetchInstr(isa, s.core.mem, s.core.pc);
    FetchedWell(isa, s.core.mem, s.core.pc);
    PlainBehaves(isa, s.core);
    FetchedSteady(isa, s);
    var t := RunFetched(isa, s);
    SettledOn(s.core.mem, s.core.pc, t.state.core.mem, t.state.core.pc);
    var c := Remembered(s.cache, s.core.pc, f);
    if f.Fetched? && !f.writable && f.instr.Cacheable? {
      PushedCoded(isa, s.core.mem, s.cache, s.core.pc, f.instr.instr);
    }
    StoredCoded(isa, s.core.mem, t.state.core.mem, c);
    if f.Fetched? && f.instr == Uncacheable(FenceI) {
      InvalidatedCoded(isa, t.state.core.mem, c);
    }
  }

  /** A tick is a plain step, and keeps the cache coherent. */
  lemma TickTransparent(isa: Isa, s: State)
    requires Coherent(isa, s) && Lawful(isa)
    ensures var t := Tick(isa, s);
            && Coherent(isa, t.state)
            && PlainStep(isa, s.core) == StepResult(t.state.core, t.error)
  {
    hide RunCached, RunFetched, PlainStep, Lawful;
    var c := s.cache;
    if c.partial.inProgress {
      CachedTransparent(isa, s, c.partial.addr, c.partial.progress);
    } else if c.Hit(s.core.pc) {
      assert c.At(s.core.pc).instrs[..0] == [];
      CachedTransparent(isa, s, s.core.pc, 0);
    } else {
      FetchedTransparent(isa, s);
    }
  }

  // ----- runs -----

  /** Any number of ticks does to the core what as many plain steps do. */
  lemma {:induction false} TicksTransparent(isa: Isa, s: State, n: nat)
    requires Coherent(isa, s) && Lawful(isa)
    ensures var r := Ticks(isa, s, n);
            && Coherent(isa, r.state)
            && PlainSteps(isa, s.core, n) == StepMany(r.state.core, r.steps, r.error)
    decreases n
  {
    hide Tick, PlainStep, Lawful;
    if n != 0 {
      TickTransparent(isa, s);
      var t := Tick(isa, s);
      if t.error == None { TicksTransparent(isa, t.state, n - 1); }
    }
  }

  /** Whatever two coherent caches hold, runs from the same core give the same core and result. */
  lemma CacheIrrelevant(isa: Isa, s: State, s': State, n: nat)
    requires Coherent(isa, s) && Coherent(isa, s') && s.core == s'.core && Lawful(isa)
    ensures var r, r' := Ticks(isa, s, n), Ticks(isa, s', n);
            r.state.core == r'.state.core && r.steps == r'.steps && r.error == r'.error
  {
    hide Ticks, PlainSteps, Lawful, Coherent;
    TicksTransparent(isa, s, n);
    TicksTransparent(isa, s', n);
  }

  // ----- runs with a handler -----

  /** The handler leaves code that cannot be written to alone, and keeps to even addresses. */
  ghost predicate KeepsCode<H(!new), E>(handler: Handler<H, E>) {
    forall memory: H, core: Core, x: EnvironException ::
      var a := handler(memory, core, x).core;
      SameCode(core.mem, a.mem) && (core.pc % 2 == 0 ==> a.pc % 2 == 0)
  }

  /** No block is paused after a tick that raises an exception. */
  lemma RaisedIdle(isa: Isa, s: State)
    requires Steady(s) && Tick(isa, s).error.Some?
    ensures Tick(isa, s).state.cache.partial == IDLE
  {
    hide PlainStep, StepWith;
    if !s.cache.partial.inProgress { FetchedSteady(isa, s); }
  }

  /** Changes of the core between blocks that keep the code keep the cache coherent. */
  lemma HandledCoherent(isa: Isa, s: State, core: Core)
    requires Coherent(isa, s) && s.cache.partial == IDLE
    requires SameCode(s.core.mem, core.mem) && (s.core.pc % 2 == 0 ==> core.pc % 2 == 0)
    ensures Coherent(isa, s.(core := core))
  {
    hide Settled, SameCode, Linked;
    SettledOn(s.core.mem, s.core.pc, core.mem, core.pc);
    StoredCoded(isa, s.core.mem, core.mem, s.cache);
  }

  lemma HandledTickTransparent<H(!new), E>(isa: Isa, handler: Handler<H, E>, s: State, memory: H)
    requires Coherent(isa, s) && Lawful(isa) && KeepsCode(handler)
    ensures var t := HandledTick(isa, handler, s, memory);
            && Coherent(isa, t.state)
            && PlainHandledStep(isa, handler, s.core, memory) == Handled(t.state.core, t.memory, 1, t.verdict)
  {
    hide Tick, PlainStep, Lawful, AllCoded, Linked, Resumes, Settled, SameCode;
    TickTransparent(isa, s);
    var t := Tick(isa, s);
    if t.error.Some? {
      RaisedIdle(isa, s);
      HandledCoherent(isa, t.state, handler(memory, t.state.core, t.error.value).core);
    }
  }

  /** With such a handler, any number of steps does to the core what as many plain steps do. */
  lemma {:induction false} HandledTransparent<H(!new), E>(isa: Isa, handler: Handler<H, E>, s: State, memory: H, n: nat)
    requires Coherent(isa, s) && Lawful(isa) && KeepsCode(handler)
    ensures var r := HandledTicks(isa, handler, s, memory, n);
            && Coherent(isa, r.state)
            && PlainHandled(isa, handler, s.core, memory, n) == Handled(r.state.core, r.memory, r.steps, r.verdict)
    decreases n
  {
    hide HandledTick, PlainHandledStep, Lawful, KeepsCode, AllCoded, Linked, Resumes, Settled;
    if n != 0 {
      HandledTickTransparent(isa, handler, s, memory);
      var t := HandledTick(isa, handler, s, memory);
      if t.verdict.Continue? { HandledTransparent(isa, handler, t.state, t.memory, n - 1); }
    }
  }
}
