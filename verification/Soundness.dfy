/**
 The machine as a whole: started with an empty cache, it runs every program exactly as the
 plain machine does.
 */
module Soundness {
  import opened Words
  import opened Memory
  import opened Machine
  import opened Instructions
  import opened Execution
  import opened Blocks
  import opened Isa
  import opened BlockCache
  import opened Ticking
  import opened Handling
  import opened Coherence
  import opened Transparency
  import Jumps
  import Stepper

  /** The machine's own instructions obey the laws. */
  lemma MachineLawful(isa: Isa)
    requires DecodesWell(isa) && isa.run == RunInstr
    ensures Lawful(isa)
  {
    hide Behaves, RunInstr;
    forall i: Instruction, core: Core ensures Behaves(isa.run, i, core) {
      Jumps.AllBehave(i, core);
    }
  }

  lemma EmptyCoherent(isa: Isa, core: Core, size: nat)
    requires size > 0 && Settled(core.mem, core.pc)
    ensures Coherent(isa, State(core, EmptyCache(size)))
  {
  }

  /** From an empty cache of any size, any number of ticks runs as many plain steps. */
  lemma RunsAsPlain(isa: Isa, core: Core, size: nat, n: nat)
    requires DecodesWell(isa) && isa.run == RunInstr && size > 0 && Settled(core.mem, core.pc)
    ensures Steady(State(core, EmptyCache(size)))
    ensures var r := Ticks(isa, State(core, EmptyCache(size)), n);
            PlainSteps(isa, core, n) == StepMany(r.state.core, r.steps, r.error)
  {
    hide Ticks, PlainSteps, RunInstr, Lawful, DecodesWell, AllCoded, Linked, Resumes;
    MachineLawful(isa);
    EmptyCoherent(isa, core, size);
    TicksTransparent(isa, State(core, EmptyCache(size)), n);
  }

  /**
   Stepping the machine, with whatever its cache holds and its blocks compiled or interpreted,
   does to the core what the plain machine does in as many steps.
   */
  method StepAsPlain(m: Stepper.MachineState, max: nat) returns (steps: nat, error: Option<EnvironException>)
    requires m.Valid() && Lawful(m.isa) && Coherent(m.isa, m.View())
    modifies m`core, m.blocks, m.jit
    ensures m.Valid() && Coherent(m.isa, m.View())
    ensures StepMany(m.core, steps, error) == PlainSteps(m.isa, old(m.core), max)
  {
    hide Ticks, PlainSteps, Lawful, AllCoded, Linked, Resumes;
    ghost var s := m.View();
    steps, error := m.StepMaxInner(max);
    TicksTransparent(m.isa, s, max);
  }

  /** A call covers as many steps with the cache as without. */
  lemma CoversAlike<H(!new), E>(isa: Isa, handler: Handler<H, E>, s: State, memory: H, bound: Bound, n: nat)
    requires Coherent(isa, s) && Lawful(isa) && KeepsCode(handler)
    ensures CoversPlain(isa, handler, s.core, memory, bound, n) == CoversHandled(isa, handler, s, memory, bound, n)
  {
    hide HandledTicks, PlainHandled, Lawful, KeepsCode, AllCoded, Linked, Resumes;
    HandledTransparent(isa, handler, s, memory, n);
  }

  /**
   The same with a handler for exceptions, any that leaves alone the code that cannot be written
   to, and with or without a bound on the steps.
   */
  method HandleAsPlain<H(!new), E>(m: Stepper.MachineState, bound: Bound, handler: Handler<H, E>, start: H)
    returns (steps: nat, memory: H, verdict: Verdict<E>)
    requires m.Valid() && Lawful(m.isa) && Coherent(m.isa, m.View()) && KeepsCode(handler)
    requires exists n :: CoversPlain(m.isa, handler, m.core, start, bound, n)
    modifies m`core, m.blocks, m.jit
    ensures m.Valid() && Coherent(m.isa, m.View())
    ensures forall n :: CoversPlain(m.isa, handler, old(m.core), start, bound, n) ==>
                          Handled(m.core, memory, steps, verdict) == PlainHandled(m.isa, handler, old(m.core), start, n)
  {
    hide HandledTicks, PlainHandled, Lawful, KeepsCode, AllCoded, Linked, Resumes, CoversPlain, CoversHandled;
    ghost var isa, s := m.isa, m.View();
    ghost var all :| CoversPlain(isa, handler, s.core, start, bound, all);
    CoversAlike(isa, handler, s, start, bound, all);
    steps, memory, verdict := m.StepMaxHandle(bound, handler, start);
    HandledTransparent(isa, handler, s, start, all);
    forall n | CoversPlain(isa, handler, s.core, start, bound, n)
      ensures Handled(m.core, memory, steps, verdict) == PlainHandled(isa, handler, s.core, start, n)
    {
      CoversAlike(isa, handler, s, start, bound, n);
      HandledTransparent(isa, handler, s, start, n);
    }
  }
}
