/**
 Stepping with the block cache, one instruction at a time: the reference that running whole
 blocks has to agree with. What a tick runs depends on the cache, and the cache on what was
 fetched before.
 */
module Ticking {
  import opened Words
  import opened Machine
  import opened Blocks
  import opened Isa
  import opened BlockCache

  datatype State = State(core: Core, cache: Cache)

  /** A paused block has instructions left to run; nothing is recorded when no block is paused. */
  ghost predicate Steady(s: State) {
    && Bounded(s.cache)
    && var p := s.cache.partial;
    && (if p.inProgress then p.progress < |s.cache.At(p.addr).instrs| else p == IDLE)
  }

  /** Result of one tick. */
  datatype Ticked = Ticked(state: State, error: Option<EnvironException>)

  /** Run instruction `k` of the block kept for `addr`. */
  function RunCached(isa: Isa, s: State, addr: u64, k: nat): Ticked
    requires |s.cache.entries| > 0 && k < |s.cache.At(addr).instrs|
  {
    var instrs := s.cache.At(addr).instrs;
    match StepWith(isa.run, instrs[k], s.core)
    case Continues(core) =>
      var paused := if k + 1 == |instrs| then IDLE else Partial(addr, true, k + 1);
      Ticked(State(core, s.cache.(partial := paused)), None)
    case Leaves(core, error) => Ticked(State(core, s.cache.(partial := IDLE)), error)
  }

  /** The cache after fetching an instruction: kept when it cannot be written to. */
  function Remembered(c: Cache, pc: u64, f: Fetch): Cache
    requires |c.entries| > 0
  {
    if !f.Fault? && !f.writable && f.instr.Cacheable? then Pushed(c, pc, f.instr.instr, f.width) else c
  }

  /** Fetch, decode and run the instruction at the program counter. */
  function RunFetched(isa: Isa, s: State): Ticked
    requires |s.cache.entries| > 0
  {
    var f := FetchInstr(isa, s.core.mem, s.core.pc);
    var cache := Remembered(s.cache, s.core.pc, f);
    var fenced := !f.Fault? && f.instr == Uncacheable(FenceI);
    var r := PlainStep(isa, s.core);
    Ticked(State(r.core, if fenced then Invalidated(cache) else cache), r.error)
  }

  function Tick(isa: Isa, s: State): Ticked
    requires Steady(s)
  {
    var c := s.cache;
    if c.partial.inProgress then RunCached(isa, s, c.partial.addr, c.partial.progress)
    else if c.Hit(s.core.pc) then RunCached(isa, s, s.core.pc, 0)
    else RunFetched(isa, s)
  }

  lemma FetchedSteady(isa: Isa, s: State)
    requires Steady(s) && !s.cache.partial.inProgress
    ensures Steady(RunFetched(isa, s).state) && RunFetched(isa, s).state.cache.partial == s.cache.partial
  {
    var f := FetchInstr(isa, s.core.mem, s.core.pc);
    if !f.Fault? && f.instr.Cacheable? { PushedBounded(s.cache, s.core.pc, f.instr.instr, f.width); }
  }

  lemma TickSteady(isa: Isa, s: State)
    requires Steady(s)
    ensures Steady(Tick(isa, s).state)
  {
    if !s.cache.partial.inProgress { FetchedSteady(isa, s); }
  }

  /** At most `n` ticks, up to the first environment exception. */
  function Ticks(isa: Isa, s: State, n: nat): (r: StepMany<State>)
    requires Steady(s)
    ensures Steady(r.state)
    decreases n
  {
    if n == 0 then StepMany(s, 0, None)
    else
      TickSteady(isa, s);
      var t := Tick(isa, s);
      if t.error.Some? then StepMany(t.state, 0, t.error)
      else
        var rest := Ticks(isa, t.state, n - 1);
        rest.(steps := rest.steps + 1)
  }

  /** One run of ticks followed by another; an error in the first ends it. */
  function Then(a: StepMany<State>, b: StepMany<State>): StepMany<State> {
    if a.error.Some? then a else b.(steps := a.steps + b.steps)
  }

  /** However the number of ticks is split, the state, the steps and the error are the same. */
  lemma {:induction false} TicksSplit(isa: Isa, s: State, n: nat, m: nat)
    requires Steady(s)
    ensures Ticks(isa, s, n + m) == Then(Ticks(isa, s, n), Ticks(isa, Ticks(isa, s, n).state, m))
    decreases n
  {
    hide Tick, Steady;
    if n != 0 {
      TickSteady(isa, s);
      var t := Tick(isa, s);
      if t.error == None {
        assert n + m - 1 == (n - 1) + m;
        TicksSplit(isa, t.state, n - 1, m);
      }
    }
  }

  /** Without an error every tick is counted, and an error ends a run strictly early. */
  lemma {:induction false} TicksCounted(isa: Isa, s: State, n: nat)
    requires Steady(s)
    ensures var r := Ticks(isa, s, n); if r.error.Some? then r.steps < n else r.steps == n
    decreases n
  {
    hide Tick, Steady;
    if n != 0 {
      TickSteady(isa, s);
      var t := Tick(isa, s);
      if t.error == None { TicksCounted(isa, t.state, n - 1); }
    }
  }

  // ----- blocks -----

  /** The next tick runs instruction `k` of the block kept for `addr`. */
  ghost predicate Poised(s: State, addr: u64, k: nat) {
    && Steady(s) && k < |s.cache.At(addr).instrs|
    && var p := s.cache.partial;
    && (p == Partial(addr, true, k) || (p == IDLE && k == 0 && s.core.pc == addr && s.cache.Hit(addr)))
  }

  /** The paused block after running some of the instructions from `k` on. */
  function Paused(s: State, addr: u64, k: nat, ran: nat): Partial
    requires |s.cache.entries| > 0
  {
    if ran == 0 then s.cache.partial
    else if k + ran == |s.cache.At(addr).instrs| then IDLE
    else Partial(addr, true, k + ran)
  }

  /** Ticks it takes to see the outcome of a block that is left. */
  function Needed(p: Progress): nat
    requires p.Left?
  {
    if p.error.Some? then p.steps + 1 else p.steps
  }

  /** What a number of ticks comes to, compared with running so many instructions of a block. */
  ghost predicate TicksAgree(isa: Isa, s: State, addr: u64, k: nat, n: nat, p: Progress)
    requires Steady(s)
  {
    match p
    case Running(core) => Ticks(isa, s, n) == StepMany(State(core, s.cache.(partial := Paused(s, addr, k, n))), n, None)
    case Left(core, steps, error) =>
      Ticks(isa, s, Needed(p)) == StepMany(State(core, s.cache.(partial := IDLE)), steps, error)
  }

  /** Ticking through a block runs its instructions one after the other. */
  lemma {:induction false} TicksRun(isa: Isa, s: State, addr: u64, k: nat, n: nat)
    requires Poised(s, addr, k) && k + n <= |s.cache.At(addr).instrs|
    ensures TicksAgree(isa, s, addr, k, n, RunFirst(isa.run, s.cache.At(addr).instrs[k..], s.core, n))
    decreases n
  {
    hide Tick;
    if n != 0 {
      TicksRun(isa, s, addr, k, n - 1);
      var instrs := s.cache.At(addr).instrs;
      var p := RunFirst(isa.run, instrs[k..], s.core, n - 1);
      if p.Running? {
        assert instrs[k..][n - 1] == instrs[k + n - 1];
        TicksRunOne(isa, s, addr, k, n - 1, p.core);
      }
    }
  }

  lemma TicksRunOne(isa: Isa, s: State, addr: u64, k: nat, n: nat, core: Core)
    requires Poised(s, addr, k) && k + n < |s.cache.At(addr).instrs|
    requires TicksAgree(isa, s, addr, k, n, Running(core))
    ensures TicksAgree(isa, s, addr, k, n + 1, After(StepWith(isa.run, s.cache.At(addr).instrs[k + n], core), n))
  {
    hide Tick;
    assert n == 0 ==> Ticks(isa, s, n).state == s;
    hide Ticks, SlotOf;
    var s' := State(core, s.cache.(partial := Paused(s, addr, k, n)));
    TickOnce(isa, s', addr, k + n);
    TicksSplit(isa, s, n, 1);
  }

  lemma TickOnce(isa: Isa, s: State, addr: u64, k: nat)
    requires Steady(s) && k < |s.cache.At(addr).instrs|
    requires s.cache.partial == Partial(addr, true, k)
             || (s.cache.partial == IDLE && k == 0 && s.core.pc == addr && s.cache.Hit(addr))
    ensures var t := RunCached(isa, s, addr, k);
            Ticks(isa, s, 1) == StepMany(t.state, Counted(t.error), t.error)
  {
    TickSteady(isa, s);
    assert Tick(isa, s) == RunCached(isa, s, addr, k);
    var t := Tick(isa, s);
    assert Ticks(isa, t.state, 0) == StepMany(t.state, 0, None);
  }
}
