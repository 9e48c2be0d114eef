/**
 The machine with its block cache: stepping runs whole blocks, compiled or interpreted, when
 enough steps remain, part of a block when not, and fetches single instructions otherwise.
 Every method is proved to come to a number of ticks.
 */
module Stepper {
  import opened Words
  import opened Memory
  import opened Machine
  import opened Instructions
  import Execution
  import opened Blocks
  import opened Isa
  import opened BlockCache
  import opened Ticking
  import opened Handling
  import Jit

  /** Going some of the way: what remains to be ticked is to be ticked from where this got to. */
  ghost predicate Advances(isa: Isa, s: State, max: nat, r: StepMany<State>)
    requires Steady(s)
  {
    && Steady(r.state) && r.steps <= max
    && Ticks(isa, s, max) == Then(r, Ticks(isa, r.state, max - r.steps))
  }

  lemma TicksZero(isa: Isa, s: State)
    requires Steady(s)
    ensures Ticks(isa, s, 0) == StepMany(s, 0, None)
  {
  }

  lemma AdvancesAlong(isa: Isa, s: State, max: nat, a: StepMany<State>, b: StepMany<State>)
    requires Steady(s) && Advances(isa, s, max, a) && a.error == None
    requires Advances(isa, a.state, max - a.steps, b)
    ensures Advances(isa, s, max, Then(a, b))
  {
    hide Ticks, Steady;
  }

  /** A number of ticks goes that far. */
  lemma TicksAdvance(isa: Isa, s: State, n: nat, max: nat)
    requires Steady(s) && n <= max
    ensures Advances(isa, s, max, Ticks(isa, s, n))
  {
    hide Tick, Steady;
    var r, m := Ticks(isa, s, n), max - n;
    TicksCounted(isa, s, n);
    TicksSplit(isa, s, n, m);
    assert n + m == max;
    var rest := Ticks(isa, r.state, m);
    assert Ticks(isa, s, max) == Then(r, rest);
    if r.error.Some? {
      ThenStops(r, rest, Ticks(isa, r.state, max - r.steps));
    }
  }

  lemma ThenStops(a: StepMany<State>, b: StepMany<State>, c: StepMany<State>)
    requires a.error.Some?
    ensures Then(a, b) == Then(a, c)
  {
  }

  /** Running some of a block goes as far as it got. */
  lemma BlockAdvances(isa: Isa, s: State, addr: u64, k: nat, n: nat, max: nat)
    requires Poised(s, addr, k) && k + n <= |s.cache.At(addr).instrs| && n <= max
    ensures match RunFirst(isa.run, s.cache.At(addr).instrs[k..], s.core, n)
            case Running(core) =>
              Advances(isa, s, max, StepMany(State(core, s.cache.(partial := Paused(s, addr, k, n))), n, None))
            case Left(core, steps, error) =>
              Advances(isa, s, max, StepMany(State(core, s.cache.(partial := IDLE)), steps, error))
  {
    hide Ticks, RunFirst;
    var p := RunFirst(isa.run, s.cache.At(addr).instrs[k..], s.core, n);
    TicksRun(isa, s, addr, k, n);
    FirstBounded(isa.run, s.cache.At(addr).instrs[k..], s.core, n);
    TicksAdvance(isa, s, if p.Running? then n else Needed(p), max);
  }

  /** Marking a block as started changes nothing, as long as a step remains. */
  lemma StartedSame(isa: Isa, s: State, max: nat)
    requires Steady(s) && !s.cache.partial.inProgress && s.cache.Hit(s.core.pc) && max > 0
    ensures var s' := s.(cache := s.cache.(partial := Partial(s.core.pc, true, 0)));
            Steady(s') && Ticks(isa, s', max) == Ticks(isa, s, max)
  {
    var s' := s.(cache := s.cache.(partial := Partial(s.core.pc, true, 0)));
    assert Tick(isa, s') == Tick(isa, s);
    hide Tick;
  }

  lemma FetchAdvances(isa: Isa, s: State, max: nat)
    requires Steady(s) && !s.cache.partial.inProgress && !s.cache.Hit(s.core.pc) && max > 0
    ensures var t := RunFetched(isa, s);
            && Steady(t.state) && t.state.cache.partial == s.cache.partial
            && Advances(isa, s, max, StepMany(t.state, Counted(t.error), t.error))
  {
    FetchedSteady(isa, s);
    var t := RunFetched(isa, s);
    assert Tick(isa, s) == t;
    assert Ticks(isa, t.state, 0) == StepMany(t.state, 0, None);
    assert Ticks(isa, s, 1) == StepMany(t.state, Counted(t.error), t.error);
    hide Tick, Ticks, RunFetched;
    TicksAdvance(isa, s, 1, max);
  }

  ghost predicate Injective(hash: seq<Instruction> -> Jit.Digest) {
    forall a, b :: hash(a) == hash(b) ==> a == b
  }

  class MachineState {
    const isa: Isa
    var core: Core
    const blocks: BlockCache

    /** The compiler for blocks, when blocks are compiled rather than interpreted. */
    const jit: Jit.Jit?

    constructor (isa: Isa, core: Core, cacheSize: nat, jit: Jit.Jit?)
      requires cacheSize > 0
      requires jit != null ==> jit.Valid() && Injective(jit.hash) && isa.run == Execution.RunInstr
      ensures Valid() && View().core == core && this.isa == isa && this.jit == jit && fresh(blocks)
    {
      this.isa, this.core, this.jit := isa, core, jit;
      blocks := new BlockCache(cacheSize);
    }

    ghost function View(): State
      reads this, blocks
    {
      State(core, blocks.View())
    }

    ghost predicate Valid()
      reads this, blocks, jit
    {
      && Steady(View())
      && (jit != null ==> jit.Valid() && Injective(jit.hash) && isa.run == Execution.RunInstr)
    }

    // ----- blocks -----

    /** Commit the program counter after an instruction at `pc`. */
    method Commit(pc: u64, result: RunResult) returns (error: Option<EnvironException>)
      modifies this`core
      ensures core == old(core).(pc := NextPcAfter(pc, result))
      ensures error == if result == Err(EnvCall) then Some(EnvironCall) else None
    {
      error := None;
      match result
      case Err(e) =>
        var (core', target) := AddressOnException(core, e, pc);
        core := core';
        if target == None { return ToEnviron(e); }
        core := core.(pc := target.value);
      case Ok(Set(address)) =>
        core := core.(pc := address);
      case Ok(Next(width)) =>
        core := core.(pc := U64(pc + WidthBytes(width)));
    }

    /** Interpret the instructions of a block until one of them leaves it. */
    method RunBlockInner(instrs: seq<Instruction>) returns (steps: nat, exception: Option<Exception>, pc: u64)
      modifies this`core
      ensures exception == None ==> BlockResult(core, steps, None) == RunBlock(isa.run, instrs, old(core))
      ensures exception.Some? ==>
                var h := HandleStepResult(core, pc, Err(exception.value));
                BlockResult(h.core, steps + Counted(h.error), h.error) == RunBlock(isa.run, instrs, old(core))
    {
      ghost var core0 := core;
      assert RunFirst(isa.run, instrs, core0, 0) == Running(core0);
      hide RunFirst, HandleStepResult, StepWith, Committed;
      steps, exception, pc := 0, None, core.pc;
      while steps < |instrs|
        invariant 0 <= steps <= |instrs| && pc == core.pc
        invariant RunFirst(isa.run, instrs, core0, steps) == Running(core)
      {
        var r := isa.run(instrs[steps], core);
        RunNext(isa.run, instrs, core0, steps, core);
        core := r.core;
        match r.result
        case Ok(Next(width)) =>
          pc := U64(pc + WidthBytes(width));
          core := core.(pc := pc);
          steps := steps + 1;
        case Ok(Set(address)) =>
          core := core.(pc := address);
          steps := steps + 1;
          LeftStays(isa.run, instrs, core0, steps, |instrs|);
          return;
        case Err(e) =>
          exception := Some(e);
          LeftStays(isa.run, instrs, core0, steps + 1, |instrs|);
          return;
      }
    }

    /** Run a block by interpreting it. */
    method RunInterpreted(instrs: seq<Instruction>) returns (steps: nat, error: Option<EnvironException>)
      modifies this`core
      ensures BlockResult(core, steps, error) == RunBlock(isa.run, instrs, old(core))
    {
      var exception, pc;
      steps, exception, pc := RunBlockInner(instrs);
      error := None;
      if exception.Some? {
        CommitMeans(core, pc, Err(exception.value));
        error := Commit(pc, Err(exception.value));
        if error == None { steps := steps + 1; }
      }
    }

    /** Run a block as a whole: compiled when there is a compiler and it can, else interpreted. */
    method RunWhole(instrs: seq<Instruction>) returns (steps: nat, error: Option<EnvironException>)
      requires Valid() && |instrs| <= CACHE_INSTR
      modifies this`core, jit
      ensures BlockResult(core, steps, error) == RunBlock(isa.run, instrs, old(core))
      ensures jit != null ==> jit.Valid()
    {
      if jit != null {
        var f := jit.Compile(instrs);
        if f.Some? {
          assert core.(pc := core.pc) == core;
          var r := Jit.Call(f.value, core, core.pc, instrs);
          core := r.core;
          return r.steps, r.error;
        }
      }
      steps, error := RunInterpreted(instrs);
    }

    /** Go on with the paused block for as long as steps remain. */
    method RunPartialInner(max: nat) returns (steps: nat, error: Option<EnvironException>)
      requires Steady(View()) && blocks.partial.inProgress
      modifies this`core, blocks`partial
      ensures Advances(isa, old(View()), max, StepMany(View(), steps, error))
      ensures error == None ==> (steps < max ==> blocks.partial == IDLE) && (max > 0 ==> steps > 0)
    {
      hide Ticks, Tick, Advances, SlotOf, U64, WidthBytes, NextPcAfter;
      steps, error := 0, None;
      ghost var s := View();
      if max == 0 {
        TicksAdvance(isa, s, 0, max);
        TicksZero(isa, s);
        return;
      }
      var addr, k := blocks.partial.addr, blocks.partial.progress;
      var instrs := blocks.View().At(addr).instrs[k..];
      var pc := core.pc;
      assert RunFirst(isa.run, instrs, s.core, 0) == Running(core);
      hide RunFirst, HandleStepResult, StepWith, Committed;
      while steps < |instrs| && steps < max
        invariant 0 <= steps <= |instrs| && steps <= max && pc == core.pc && blocks.partial == s.cache.partial
        invariant RunFirst(isa.run, instrs, s.core, steps) == Running(core)
      {
        var r := isa.run(instrs[steps], core);
        RunNext(isa.run, instrs, s.core, steps, core);
        core := r.core;
        match r.result
        case Ok(Next(width)) =>
          pc := U64(pc + WidthBytes(width));
          core := core.(pc := pc);
          steps := steps + 1;
        case Ok(Set(address)) =>
          core := core.(pc := address);
          steps := steps + 1;
          blocks.partial := IDLE;
          BlockAdvances(isa, s, addr, k, steps, max);
          return;
        case Err(e) =>
          blocks.partial := IDLE;
          BlockAdvances(isa, s, addr, k, steps + 1, max);
          CommitMeans(core, pc, Err(e));
          error := Commit(pc, Err(e));
          if error == None { steps := steps + 1; }
          return;
      }
      BlockAdvances(isa, s, addr, k, steps, max);
      if steps == |instrs| {
        blocks.partial := IDLE;
      } else {
        blocks.partial := blocks.partial.(progress := k + steps);
      }
    }

    /** Run a block fully, or in part when fewer steps remain than it has instructions. */
    method RunBlockCall(max: nat) returns (steps: nat, error: Option<EnvironException>)
      requires Valid() && !blocks.partial.inProgress && blocks.View().Hit(core.pc) && max > 0
      modifies this`core, blocks`partial, jit
      ensures Valid() && Advances(isa, old(View()), max, StepMany(View(), steps, error))
      ensures error == None ==> steps > 0 && (steps < max ==> blocks.partial == IDLE)
    {
      hide Ticks, Tick;
      ghost var s := View();
      var addr := core.pc;
      var instrs := blocks.View().At(addr).instrs;
      assert Poised(s, addr, 0) && instrs[0..] == instrs;
      if |instrs| <= max {
        BlockAdvances(isa, s, addr, 0, |instrs|, max);
        FirstBounded(isa.run, instrs, s.core, |instrs|);
        steps, error := RunWhole(instrs);
      } else {
        StartedSame(isa, s, max);
        blocks.partial := Partial(addr, true, 0);
        steps, error := RunPartialInner(max);
      }
    }

    /** Fetch the instruction at an address, and keep it in the cache when it cannot be written to. */
    method FetchAt(addr: u64) returns (i: Option<Instr>, fault: u64)
      requires Steady(View())
      modifies blocks
      ensures var f := FetchInstr(isa, core.mem, addr);
              && blocks.View() == Remembered(old(blocks.View()), addr, f)
              && (if f.Fault? then i == None && fault == f.at else i == Some(f.instr))
    {
      hide Pushed, ReadExec;
      i, fault := None, addr;
      var lower := ReadExec(core.mem, addr);
      if lower == None { return; }
      var instr;
      if IsCompressed(lower.value.data) {
        instr := isa.parse16(lower.value.data);
        if !lower.value.writable && instr.Cacheable? {
          blocks.PushCompressed(addr, instr.instr);
        }
      } else {
        var upper := ReadExec(core.mem, U64(addr + 2));
        if upper == None {
          fault := U64(addr + 2);
          return;
        }
        instr := isa.parse32(U64(lower.value.data + upper.value.data * 0x1_0000));
        if !(lower.value.writable || upper.value.writable) && instr.Cacheable? {
          blocks.PushUncompressed(addr, instr.instr);
        }
      }
      i := Some(instr);
    }

    /** Fetch and run the instruction at the program counter. */
    method RunInstrAt() returns (result: RunResult)
      requires Steady(View())
      modifies this`core, blocks
      ensures var t := RunFetched(isa, old(View()));
              var h := HandleStepResult(core, old(core).pc, result);
              t.state.cache == blocks.View() && t.state.core == h.core && t.error == h.error
    {
      var i, fault := FetchAt(core.pc);
      if i == None { return Err(InstructionAccessFault(fault)); }
      match i.value
      case Cacheable(instr) =>
        var r := isa.run(instr, core);
        core := r.core;
        return r.result;
      case Uncacheable(op) =>
        if op.FenceI? { blocks.Invalidate(); }
        return UncacheableResult(op);
    }

    /** Run the block at the program counter, or fetch a single instruction. */
    method StepSome(max: nat) returns (steps: nat, error: Option<EnvironException>)
      requires Valid() && !blocks.partial.inProgress && max > 0
      modifies this`core, blocks, jit
      ensures Valid() && Advances(isa, old(View()), max, StepMany(View(), steps, error))
      ensures error == None ==> steps > 0 && (steps < max ==> !blocks.partial.inProgress)
    {
      hide Ticks, Tick, RunFetched, Advances;
      ghost var s := View();
      if blocks.View().Hit(core.pc) {
        steps, error := RunBlockCall(max);
      } else {
        FetchAdvances(isa, s, max);
        var pc := core.pc;
        var result := RunInstrAt();
        CommitMeans(core, pc, result);
        error := Commit(pc, result);
        steps := Counted(error);
      }
    }

    /** Take at most `max` steps, up to the first environment exception. */
    method StepMaxInner(max: nat) returns (steps: nat, error: Option<EnvironException>)
      requires Valid()
      modifies this`core, blocks, jit
      ensures Valid()
      ensures StepMany(View(), steps, error) == Ticks(isa, old(View()), max)
    {
      hide Ticks, Tick, Steady;
      ghost var s := View();
      steps, error := 0, None;
      TicksAdvance(isa, s, 0, max);
      TicksZero(isa, s);
      if blocks.partial.inProgress {
        steps, error := RunPartialInner(max);
        if error.Some? { return; }
      }
      while steps < max
        invariant Valid() && steps <= max && error == None
        invariant Advances(isa, s, max, StepMany(View(), steps, None))
        invariant steps < max ==> !blocks.partial.inProgress
      {
        ghost var a := StepMany(View(), steps, None);
        var n;
        n, error := StepSome(max - steps);
        AdvancesAlong(isa, s, max, a, StepMany(View(), n, error));
        steps := steps + n;
        if error.Some? { return; }
      }
      TicksZero(isa, View());
    }

    /**
     Take as many steps as the bound allows, up to the first environment exception. Without a
     bound the call returns only if there is one.
     */
    method StepMax(bound: Bound) returns (steps: nat, error: Option<EnvironException>)
      requires Valid() && exists n :: Covers(isa, View(), bound, n)
      modifies this`core, blocks, jit
      ensures Valid()
      ensures forall n :: Covers(isa, old(View()), bound, n) ==>
                            StepMany(View(), steps, error) == Ticks(isa, old(View()), n)
      ensures if error == None then !bound.Unbounded? && steps == UnwrapBound(bound)
              else !bound.Unbounded? ==> steps < UnwrapBound(bound)
      ensures if bound == Excluded(0) then steps == 0 else InBound(bound, steps)
    {
      hide Ticks, Steady;
      ghost var s := View();
      ghost var asked: nat := 0;
      ghost var whole :| Covers(isa, s, bound, whole);
      steps, error := 0, None;
      var errored, outOfSteps := false, false;
      TicksZero(isa, s);
      while !errored && !outOfSteps
        invariant Valid() && (errored <==> error.Some?)
        invariant Ticks(isa, s, asked) == StepMany(View(), steps, error)
        invariant bound.Unbounded? ==> !outOfSteps
        invariant !bound.Unbounded? ==> asked == if errored || outOfSteps then UnwrapBound(bound) else 0
        decreases if errored || outOfSteps then 0 else 1 + SaturatingSub(whole, asked)
      {
        if bound.Unbounded? { NotYet(isa, s, asked, whole); }
        TicksCounted(isa, s, asked);
        TicksSplit(isa, s, asked, UnwrapBound(bound));
        var n;
        n, error := StepMaxInner(UnwrapBound(bound));
        asked := asked + UnwrapBound(bound);
        steps := steps + n;
        errored := error.Some?;
        outOfSteps := !LessThanBound(steps, bound);
        TicksCounted(isa, s, asked);
        BoundLaws(bound, steps);
      }
      TicksCounted(isa, s, asked);
      assert Covers(isa, s, bound, asked);
      forall n | Covers(isa, s, bound, n) ensures Ticks(isa, s, asked) == Ticks(isa, s, n) {
        CoversSame(isa, s, bound, asked, n);
      }
    }

    /**
     Like `StepMax`, but environment exceptions are passed to a handler. Without a bound the call
     returns only if the handler stops the run.
     */
    method StepMaxHandle<H, E>(bound: Bound, handler: Handler<H, E>, start: H)
      returns (steps: nat, memory: H, verdict: Verdict<E>)
      requires Valid() && exists n :: CoversHandled(isa, handler, View(), start, bound, n)
      modifies this`core, blocks, jit
      ensures Valid()
      ensures forall n :: CoversHandled(isa, handler, old(View()), start, bound, n) ==>
                            Handled(View(), memory, steps, verdict) == HandledTicks(isa, handler, old(View()), start, n)
    {
      hide Ticks, HandledTicks, Reached, Steady, Injective;
      ghost var s := View();
      ghost var all :| CoversHandled(isa, handler, s, start, bound, all);
      ghost var whole, rest := HandledTicks(isa, handler, s, start, all), all;
      forall n | CoversHandled(isa, handler, s, start, bound, n)
        ensures HandledTicks(isa, handler, s, start, n) == whole
      {
        CoversHandledSame(isa, handler, s, start, bound, all, n);
      }
      var left := bound;
      steps, memory, verdict := 0, start, Continue;
      ReachedStart(isa, handler, s, memory, all);
      while true
        invariant Valid() && left.Unbounded? == bound.Unbounded?
        invariant if left.Unbounded? then !whole.verdict.Continue? else rest == UnwrapBound(left)
        invariant Reached(isa, handler, whole, Handled(View(), memory, steps, Continue), rest)
        decreases rest
      {
        ghost var r: Handled<State, H, E> := Handled(View(), memory, steps, Continue);
        if left.Unbounded? { ReachedRaises(isa, handler, whole, r, rest); }
        assert Covers(isa, View(), left, rest);
        var n, error := StepMax(left);
        if error == None {
          ReachedEnd(isa, handler, whole, r, rest);
          steps, verdict := steps + n, Continue;
          return;
        }
        ReachedOn(isa, handler, whole, r, rest);
        BoundLaws(left, n);
        BoundLaws(BoundSub(left, n), 1);
        steps := steps + n + 1;
        left := BoundSub(BoundSub(left, n), 1);
        rest := rest - (n + 1);
        var a := handler(memory, core, error.value);
        core, memory, verdict := a.core, a.memory, a.verdict;
        if !verdict.Continue? { return; }
      }
    }
  }
}
