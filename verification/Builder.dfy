/**
 The builder that lowers instruction bodies by filling in a function under construction.
 Every method says, for all graphs the function may still grow into, what running the code
 it emitted does.
 */
module Builder {
  import opened Words
  import opened Memory
  import opened Machine
  import opened Icb
  import opened Ir
  import opened Lowering
  import opened OpLowering
  import opened BodyLowering
  import opened Shape
  import opened Instructions
  import opened BlockLowering

  class Builder {
    var graph: Graph
    var cur: BlockId
    var nextVal: Value
    var nextSlot: Slot

    /** Values that are dynamically updated throughout lowering. */
    var dyn: Dynamic

    /** The block through which every exit returns, once there has been one. */
    var end: Option<BlockId>

    /** The blocks closed so far, other than the end block, in the order in which they were closed. */
    ghost var order: seq<BlockId>

    ghost function View(): Emitter
      reads this
    {
      Emitter(graph, cur, nextVal, nextSlot, dyn, end)
    }

    /** A fresh function: the entry block receives the program counter as its parameter. */
    constructor ()
      ensures View() == Emitter([Block([0], [], None)], 0, 1, 0, Dynamic(0, 0, 0), None)
      ensures order == []
    {
      order := [];
      graph, cur, nextVal, nextSlot := [Block([0], [], None)], 0, 1, 0;
      dyn, end := Dynamic(0, 0, 0), None;
    }

    // ----- primitive construction -----

    method NewValue() returns (v: Value)
      modifies this
      ensures v == old(nextVal) && View() == old(View()).(nextVal := v + 1) && order == old(order)
    {
      v := nextVal;
      nextVal := nextVal + 1;
    }

    method NewSlot() returns (s: Slot)
      modifies this
      ensures s == old(nextSlot) && View() == old(View()).(nextSlot := s + 1) && order == old(order)
    {
      s := nextSlot;
      nextSlot := nextSlot + 1;
    }

    method Ins(i: Inst)
      requires Open(View())
      modifies this
      ensures View() == Emit(old(View()), i) && order == old(order)
    {
      var b := graph[cur];
      graph := graph[cur := b.(insts := b.insts + [i])];
    }

    /** Emit an instruction for the next value. */
    method Define(i: Inst)
      requires Sound(View())
      modifies this
      ensures Sound(View()) && Emitted(old(View()), i, View())
      ensures nextVal == old(nextVal) + 1 && dyn == old(dyn) && order == old(order)
    {
      hide Grows;
      var _ := NewValue();
      Ins(i);
    }

    method Finish(t: Terminator)
      requires Open(View())
      modifies this
      ensures View() == Close(old(View()), t) && order == old(order) + [old(cur)]
    {
      graph := graph[cur := graph[cur].(term := Some(t))];
      order := order + [cur];
    }

    method NewBlock(params: seq<Value>) returns (b: BlockId)
      modifies this
      ensures b == old(|graph|) && View() == CreateBlock(old(View()), params) && order == old(order)
    {
      b := |graph|;
      graph := graph + [Block(params, [], None)];
    }

    method SwitchTo(b: BlockId)
      modifies this
      ensures View() == old(View()).(cur := b) && order == old(order)
    {
      cur := b;
    }

    // ----- exits -----

    /** Read the effective program counter: the last known value plus the offset accrued since. */
    method ReadPc() returns (v: Value)
      requires Sound(View()) && Neat(View(), order)
      modifies this
      ensures Sound(View()) && Later(old(View()), View()) && cur == old(cur) && end == old(end)
      ensures dyn == old(dyn).(pcVal := v, pcOffset := 0)
      ensures PcReadCorrect(old(View()), View(), v)
      ensures Neat(View(), order) && Moves(old(View()), View()) && order == old(order)
    {
      hide Neat, Moves, Opens;
      ghost var e := View();
      if dyn.pcOffset == 0 {
        PcReadKnown(View());
        SameNeat(e, e, order);
        return dyn.pcVal;
      }
      v := NewValue();
      Ins(IaddImm(v, dyn.pcVal, dyn.pcOffset));
      dyn := dyn.(pcVal := v, pcOffset := 0);
      PcReadAdds(e, View(), v);
      EmittedLater(e, IaddImm(v, e.dyn.pcVal, e.dyn.pcOffset), View());
      EmittedNeat(e, IaddImm(v, e.dyn.pcVal, e.dyn.pcOffset), View(), order);
    }

    /** Complete a step; `false` means that lowering stops here. */
    method CompleteStep(change: PcChange) returns (continues: bool)
      modifies this
      ensures View() == old(View()).(dyn := Lowering.CompleteStep(old(dyn), change))
      ensures continues == change.Offset? && order == old(order)
    {
      match change
      case Offset(delta) =>
        dyn := dyn.(steps := dyn.steps + 1, pcOffset := S64(U64(dyn.pcOffset + delta)));
        return true;
      case Absolute(target) =>
        dyn := Dynamic(dyn.steps + 1, target, 0);
        return false;
    }

    /** Construct the end block, unless there is one. */
    method FinaliseEndBlock(b: BlockId)
      requires EndOk(View()) && b < |graph| && Neat(View(), order)
      requires end.None? ==> graph[b] == Block([], [], None)
      modifies this
      ensures end.Some? && EndOk(View()) && dyn == old(dyn) && nextVal >= old(nextVal) && |graph| == old(|graph|)
      ensures old(end).Some? ==> View() == old(View())
      ensures old(end).None? ==> end == Some(b) && cur == b
      ensures forall i :: 0 <= i < |graph| && i != b ==> graph[i] == old(graph[i])
      ensures Neat(View(), order) && order == old(order)
      ensures old(end).None? ==> Opens(View()) == Opens(old(View())) - {b}
    {
      hide Neat;
      if end.Some? { return; }
      ghost var e, before := View(), order;
      SwitchTo(b);
      var pc := NewValue();
      var steps := NewValue();
      graph := graph[b := graph[b].(params := [pc, steps])];
      Ins(CallPcWrite(pc));
      Finish(Return(steps));
      end := Some(b);
      order := before;
      EndNeat(e, b, View(), order);
    }

    /** Close the current block with a jump to the end block, which is constructed if need be. */
    method LeaveWith(pc: Value, steps: Value) returns (b: BlockId)
      requires Sound(View()) && Neat(View(), order)
      modifies this
      ensures end.Some? && Neat(View(), order) && Later(old(View()), View())
      ensures b < |graph| && IsEndBlock(graph[b])
      ensures Grows(Close(old(View()), Jump(b, [pc, steps])).graph, graph)
      ensures Opens(View()) == Opens(old(View())) - {old(cur)}
    {
      hide Neat, Opens;
      ghost var e := View();
      if end.Some? {
        b := end.value;
      } else {
        b := NewBlock([]);
        MoreNeat(e, View(), order);
      }
      ghost var e1 := View();
      CloseNeat(e1, Jump(b, [pc, steps]), order);
      Finish(Jump(b, [pc, steps]));
      FinaliseEndBlock(b);
      if e.end == None { CreatedCloses(e, View()); }
    }

    /** Jump from the current block to the end block, exiting the function. */
    method JumpToEnd()
      requires Sound(View()) && Neat(View(), order)
      modifies this
      ensures Later(old(View()), View()) && end.Some?
      ensures Exits(old(View()), View())
      ensures Neat(View(), order) && Ends(old(View()), View())
    {
      hide Neat, Moves, Exits, Ends, Opens;
      ghost var e := View();
      var steps := NewValue();
      Ins(Iconst(steps, U64(dyn.steps)));
      ghost var e1 := View();
      EmittedLater(e, Iconst(steps, U64(e.dyn.steps)), e1);
      EmittedNeat(e, Iconst(steps, U64(e.dyn.steps)), e1, order);
      var pc := ReadPc();
      ghost var e2 := View();
      MovesAlong(e, e1, e2);
      var b := LeaveWith(pc, steps);
      hide Later;
      LaterTransitive(e, e1, e2);
      LaterTransitive(e, e2, View());
      ExitEnds(e, e2, View());
      ExitComposes(e, e1, e2, View(), steps, pc, b);
    }

    /** Leave when the condition holds, completing the step; go on in the fallthrough block. */
    method ExitOnBranch(cond: Value, change: PcChange)
      requires Sound(View()) && Neat(View(), order)
      requires change.Absolute? ==> change.target < nextVal
      modifies this
      ensures Later(old(View()), View()) && Sound(View()) && dyn == old(dyn)
      ensures BranchCorrect(old(View()), View(), cond, change)
      ensures Neat(View(), order) && Moves(old(View()), View())
    {
      hide Neat, Moves, Ends, Opens;
      ghost var e, before := View(), order;
      var onBranch := NewBlock([]);
      var fallthrough := NewBlock([]);
      Finish(Brif(cond, onBranch, fallthrough));
      var snapshot := dyn;
      SwitchTo(onBranch);
      var _ := CompleteStep(change);
      ghost var e1 := View();
      ForkedLater(e, cond, e1);
      ForkedNeat(e, cond, e1, before);
      JumpToEnd();
      ghost var e2 := View();
      dyn := snapshot;
      SwitchTo(fallthrough);
      Resume(e, cond, e1, e2, View());
      ResumedNeat(e, e1, e2, View(), order);
      BranchComposes(e, cond, change, e1, e2, View());
    }

    /** Handle an exception that has occurred; the block is left either way. */
    method HandleException(exc: Slot)
      requires Sound(View()) && Neat(View(), order)
      modifies this
      ensures Later(old(View()), View()) && end.Some?
      ensures ExitsWith(old(View()), View(), exc)
      ensures Neat(View(), order) && Ends(old(View()), View())
    {
      hide Neat, Moves, Ends, Opens;
      ghost var e := View();
      var pc := ReadPc();
      ghost var e1 := View();
      var handled := NewValue();
      var newPc := NewValue();
      Ins(CallHandleException(handled, newPc, exc, pc));
      ghost var e2 := View();
      EmittedLater(e1, CallHandleException(handled, newPc, exc, pc), e2);
      EmittedNeat(e1, CallHandleException(handled, newPc, exc, pc), e2, order);
      ExitOnBranch(handled, Absolute(newPc));
      ghost var e3 := View();
      JumpToEnd();
      ghost var e' := View();
      LaterTransitive(e, e1, e2);
      LaterTransitive(e, e2, e3);
      LaterTransitive(e, e3, e');
      MovesAlong(e, e1, e2);
      MovesAlong(e, e2, e3);
      MovesEnds(e, e3, e');
      forall g: Graph, fr: Frame |
        Grows(e'.graph, g) && e.dyn.pcVal in fr.env && exc in fr.excs && fr.result == None
        ensures Traps(g, Here(e, fr), e.dyn.steps, PcOf(e.dyn, fr.env), fr.excs[exc], fr.core)
      {
        GrowsTransitive(e3.graph, e'.graph, g);
        GrowsTransitive(e2.graph, e3.graph, g);
        GrowsTransitive(e1.graph, e2.graph, g);
        HandleComposes(e, e1, e2, e3, e', pc, handled, newPc, exc, g, fr);
      }
    }

    // ----- fallible operations -----

    /** Exception branch for a call that reports failure in `errno`; goes on where it succeeded. */
    method CheckErrno(errno: Value, exc: Slot)
      requires Sound(View()) && Neat(View(), order)
      modifies this
      ensures Later(old(View()), View()) && Sound(View()) && dyn == old(dyn)
      ensures ErrnoCorrect(old(View()), View(), errno, exc)
      ensures Neat(View(), order) && Moves(old(View()), View())
    {
      hide Neat, Moves, Ends, Opens;
      ghost var e, before := View(), order;
      var onError := NewBlock([]);
      var onOk := NewBlock([]);
      Finish(Brif(errno, onError, onOk));
      var snapshot := dyn;
      SwitchTo(onError);
      ghost var e1 := View();
      ForkedLater(e, errno, e1);
      ForkedNeat(e, errno, e1, before);
      HandleException(exc);
      ghost var e2 := View();
      SwitchTo(onOk);
      dyn := snapshot;
      Resume(e, errno, e1, e2, View());
      ResumedNeat(e, e1, e2, View(), order);
      ErrnoComposes(e, errno, exc, e1, e2, View());
    }

    /** Raise the alignment fault of an atomic access, dropping the reservation when asked to. */
    method RaiseAmoFault(address: Value, reset: bool)
      requires Sound(View()) && Neat(View(), order)
      modifies this
      ensures Later(old(View()), View()) && FaultCorrect(old(View()), View(), address, reset)
      ensures Neat(View(), order) && Ends(old(View()), View())
    {
      hide Neat, Moves, Ends, Opens;
      ghost var e := View();
      var exc := NewSlot();
      Ins(CallRaiseAmoFault(exc, address));
      ghost var e1 := View();
      EmittedLater(e, CallRaiseAmoFault(exc, address), e1);
      EmittedNeat(e, CallRaiseAmoFault(exc, address), e1, order);
      if reset {
        var unset := NewValue();
        Ins(Iconst(unset, UNSET));
        ghost var e2 := View();
        EmittedLater(e1, Iconst(unset, UNSET), e2);
        EmittedNeat(e1, Iconst(unset, UNSET), e2, order);
        Ins(CallReservationWrite(unset));
        ghost var e3 := View();
        EmittedLater(e2, CallReservationWrite(unset), e3);
        EmittedNeat(e2, CallReservationWrite(unset), e3, order);
        HandleException(exc);
        FaultReset(e, e1, e2, e3, View(), address, exc, unset);
        LaterTransitive(e, e1, e2);
        LaterTransitive(e, e2, e3);
        LaterTransitive(e, e3, View());
        MovesAlong(e, e1, e2);
        MovesAlong(e, e2, e3);
        MovesEnds(e, e3, View());
      } else {
        HandleException(exc);
        FaultNoReset(e, e1, View(), address, exc);
        LaterTransitive(e, e1, View());
        MovesEnds(e, e1, View());
      }
    }

    /** Branch to a fault when the address of an atomic access is not aligned. */
    method GuardAtomic(flag: Value, address: Value, reset: bool)
      requires Sound(View()) && Neat(View(), order)
      modifies this
      ensures Later(old(View()), View()) && Sound(View()) && dyn == old(dyn)
      ensures GuardCorrect(old(View()), View(), flag, address, reset)
      ensures Neat(View(), order) && Moves(old(View()), View())
    {
      hide Neat, Moves, Ends, Opens;
      ghost var e, before := View(), order;
      var onError := NewBlock([]);
      var fallthrough := NewBlock([]);
      Finish(Brif(flag, onError, fallthrough));
      var snapshot := dyn;
      SwitchTo(onError);
      ghost var e1 := View();
      ForkedLater(e, flag, e1);
      ForkedNeat(e, flag, e1, before);
      RaiseAmoFault(address, reset);
      ghost var e2 := View();
      dyn := snapshot;
      SwitchTo(fallthrough);
      Resume(e, flag, e1, e2, View());
      ResumedNeat(e, e1, e2, View(), order);
      GuardComposes(e, flag, address, reset, e1, e2, View());
    }

    // ----- operations -----

    /** Compute whether an address is not a multiple of the size of an access. */
    method Misaligned(size: Size, address: Value)
      returns (flag: Value, ghost e1: Emitter, ghost e2: Emitter, ghost e3: Emitter)
      requires Sound(View())
      modifies this
      ensures AlignmentCode(old(View()), e1, e2, e3, View(), size, address)
      ensures flag == old(nextVal) + 3 && dyn == old(dyn) && order == old(order) && nextVal >= old(nextVal)
    {
      hide Emitted, EndOk, Grows;
      var width, remainder, zero := nextVal, nextVal + 1, nextVal + 2;
      flag := nextVal + 3;
      Define(Iconst(width, Bytes(size)));
      e1 := View();
      Define(Binary(remainder, Urem, W64, address, width));
      e2 := View();
      Define(Iconst(zero, 0));
      e3 := View();
      Define(Icmp(flag, Ne, W64, remainder, zero));
    }

    method LowerGuard(size: Size, a: Var, reset: bool, vars: seq<Value>)
      requires Sound(View()) && a < |vars| && Neat(View(), order)
      modifies this
      ensures Later(old(View()), View()) && Sound(View()) && dyn == old(dyn)
      ensures OpCorrect(old(View()), View(), AtomicGuard(size, a, reset), vars, [])
      ensures Neat(View(), order) && Moves(old(View()), View())
    {
      hide OpCorrect, GuardCorrect, Later, Neat, Moves;
      ghost var e := View();
      var flag;
      ghost var e1, e2, e3;
      flag, e1, e2, e3 := Misaligned(size, vars[a]);
      ghost var e4 := View();
      AlignmentLater(e, e1, e2, e3, e4, size, vars[a]);
      AlignmentNeat(e, e1, e2, e3, e4, size, vars[a], order);
      GuardAtomic(flag, vars[a], reset);
      LaterTransitive(e, e4, View());
      MovesAlong(e, e4, View());
      GuardOpCorrect(e, e1, e2, e3, e4, View(), size, a, reset, vars);
    }

    /** Load the out-parameter of a memory access and extend it. */
    method LoadOut(size: Size, signed: bool, out: Slot) returns (v: Value, ghost e1: Emitter)
      requires Sound(View()) && Neat(View(), order)
      modifies this
      ensures Later(old(View()), View()) && Sound(View()) && dyn == old(dyn) && v < nextVal
      ensures LoadedCode(old(View()), e1, View(), size, signed, out, v)
      ensures Neat(View(), order) && Moves(old(View()), View())
    {
      hide Neat, Moves, Opens, Grows;
      ghost var e := View();
      v := NewValue();
      Ins(StackLoad(v, out));
      e1 := View();
      EmittedLater(e, StackLoad(v, out), e1);
      EmittedNeat(e, StackLoad(v, out), e1, order);
      if !size.Double? {
        var raw := v;
        v := NewValue();
        Ins(ExtendFrom(v, size, signed, raw));
        EmittedLater(e1, ExtendFrom(v, size, signed, raw), View());
        EmittedNeat(e1, ExtendFrom(v, size, signed, raw), View(), order);
        LaterTransitive(e, e1, View());
        MovesAlong(e, e1, View());
      }
    }

    method LowerLoad(size: Size, signed: bool, a: Var, vars: seq<Value>) returns (v: Value)
      requires Sound(View()) && a < |vars| && Neat(View(), order)
      modifies this
      ensures Later(old(View()), View()) && Sound(View()) && dyn == old(dyn) && v < nextVal
      ensures OpCorrect(old(View()), View(), Load(size, signed, a), vars, [v])
      ensures Neat(View(), order) && Moves(old(View()), View())
    {
      hide Neat, Moves, Opens, OpCorrect, Grows, LoadedCode;
      ghost var e := View();
      var exc := NewSlot();
      var out := NewSlot();
      var errno := NewValue();
      Ins(CallMemoryLoad(errno, size, vars[a], out, exc));
      ghost var e1 := View();
      EmittedLater(e, CallMemoryLoad(errno, size, vars[a], out, exc), e1);
      EmittedNeat(e, CallMemoryLoad(errno, size, vars[a], out, exc), e1, order);
      CheckErrno(errno, exc);
      ghost var e2 := View();
      ghost var e3;
      v, e3 := LoadOut(size, signed, out);
      LaterTransitive(e, e1, e2);
      LaterTransitive(e, e2, View());
      MovesAlong(e, e1, e2);
      MovesAlong(e, e2, View());
      LoadOpCorrect(e, e1, e2, e3, View(), size, signed, a, vars, out, exc, v);
    }

    /** The value in the width in which it is stored. */
    method Narrowed(size: Size, v: Value) returns (v': Value)
      requires Sound(View()) && Neat(View(), order)
      modifies this
      ensures Later(old(View()), View()) && Sound(View()) && dyn == old(dyn)
      ensures NarrowCorrect(old(View()), View(), size, v, v')
      ensures Neat(View(), order) && Moves(old(View()), View())
    {
      hide Neat, Moves, Opens;
      ghost var e := View();
      if size.Double? {
        NarrowWhole(View(), View(), v);
        SameNeat(e, e, order);
        return v;
      }
      v' := NewValue();
      Ins(ReduceTo(v', size, v));
      EmittedLater(e, ReduceTo(v', size, v), View());
      EmittedNeat(e, ReduceTo(v', size, v), View(), order);
      NarrowReduces(e, View(), size, v, v');
    }

    method LowerStore(size: Size, a: Var, v: Var, vars: seq<Value>)
      requires Sound(View()) && a < |vars| && v < |vars| && Neat(View(), order)
      modifies this
      ensures Later(old(View()), View()) && Sound(View()) && dyn == old(dyn)
      ensures OpCorrect(old(View()), View(), Store(size, a, v), vars, [])
      ensures Neat(View(), order) && Moves(old(View()), View())
    {
      hide Neat, Moves, Opens;
      ghost var e := View();
      var narrowed := Narrowed(size, vars[v]);
      ghost var e1 := View();
      var exc := NewSlot();
      var errno := NewValue();
      Ins(CallMemoryStore(errno, size, vars[a], narrowed, exc));
      ghost var e2 := View();
      EmittedLater(e1, CallMemoryStore(errno, size, vars[a], narrowed, exc), e2);
      EmittedNeat(e1, CallMemoryStore(errno, size, vars[a], narrowed, exc), e2, order);
      CheckErrno(errno, exc);
      LaterTransitive(e, e1, e2);
      LaterTransitive(e, e2, View());
      MovesAlong(e, e1, e2);
      MovesAlong(e, e2, View());
      StoreOpCorrect(e, e1, e2, View(), size, a, v, vars, narrowed, exc);
    }

    /** Lower one operation; `vals` are the values that stand for the variables it binds. */
    method LowerOp(o: Op, vars: seq<Value>) returns (vals: seq<Value>)
      requires Sound(View()) && OpScoped(o, |vars|) && Neat(View(), order)
      modifies this
      ensures Later(old(View()), View()) && Sound(View())
      ensures |vals| == Binds(o) && Known(vals, nextVal)
      ensures dyn.steps == old(dyn).steps && (!o.PcRead? ==> dyn == old(dyn))
      ensures OpCorrect(old(View()), View(), o, vars, vals)
      ensures Neat(View(), order) && Moves(old(View()), View())
    {
      hide Neat, Moves, Opens;
      ghost var e := View();
      vals := [];
      if Simple(o) {
        var d := NewValue();
        Ins(SimpleInst(o, vars, d));
        EmittedLater(e, SimpleInst(o, vars, d), View());
        EmittedNeat(e, SimpleInst(o, vars, d), View(), order);
        SimpleCorrect(e, o, vars, d, View());
        return [d];
      }
      if o.PcRead? {
        var v := ReadPc();
        PcReadOpCorrect(e, vars, v, View());
        vals := [v];
      } else if o.AtomicGuard? {
        LowerGuard(o.size, o.a, o.reset, vars);
      } else if o.Load? {
        var v := LowerLoad(o.size, o.signed, o.a, vars);
        vals := [v];
      } else if o.Store? {
        LowerStore(o.size, o.a, o.v, vars);
      } else if o.XRegWrite? && o.r == 0 {
        NoEffectCorrect(e, o, vars);
        SameNeat(e, e, order);
      } else {
        Ins(EffectInst(o, vars));
        EmittedLater(e, EffectInst(o, vars), View());
        EmittedNeat(e, EffectInst(o, vars), View(), order);
        EffectCorrect(e, o, vars, View());
      }
    }

    // ----- bodies -----

    /** Lower a body; `vals` are the values that stand for what it yields. */
    method LowerBody(c: Body, vars: seq<Value>, ghost outs: nat) returns (vals: seq<Value>)
      requires Sound(View()) && Scoped(c, |vars|, outs) && Known(vars, nextVal) && Neat(View(), order)
      modifies this
      ensures Later(old(View()), View()) && Sound(View())
      ensures |vals| == outs && Known(vals, nextVal)
      ensures dyn.steps == old(dyn).steps && (!ReadsPc(c) ==> dyn == old(dyn))
      ensures BodyCorrect(old(View()), View(), c, vars, vals, outs)
      ensures Neat(View(), order) && Moves(old(View()), View())
      decreases c
    {
      hide Neat, Moves, Opens;
      ghost var e := View();
      match c
      case Let(o, k) =>
        var bound := LowerOp(o, vars);
        ghost var e1 := View();
        vals := LowerBody(k, vars + bound, outs);
        LaterTransitive(e, e1, View());
        MovesAlong(e, e1, View());
        LetCorrect(e, e1, View(), o, k, vars, bound, vals, outs);
      case Merge(cond, onTrue, onFalse, phis, k) =>
        vals := LowerMerge(c, vars, outs);
      case Yield(vs) =>
        vals := seq(|vs|, i requires 0 <= i < |vs| => vars[vs[i]]);
        YieldCorrect(e, vs, vars, vals);
        SameNeat(e, e, order);
    }

    /** Create the blocks of a merge, branch, and start filling the true block. */
    method OpenMerge(cond: Value, phis: nat)
      requires Sound(View())
      modifies this
      ensures Merging(old(View()), cond, phis, View()) && order == old(order) + [old(cur)]
    {
      var trueBlock := NewBlock([]);
      var falseBlock := NewBlock([]);
      var _ := NewBlock(FreshValues(nextVal, phis));
      nextVal := nextVal + phis;
      Finish(Brif(cond, trueBlock, falseBlock));
      SwitchTo(trueBlock);
    }

    /** Lower both arms from the same symbolic state; the block where they meet is filled next. */
    method LowerArms(c: Body, vars: seq<Value>) returns (ghost s: Stages, ghost l1: seq<Value>, ghost l2: seq<Value>)
      requires Sound(View()) && c.Merge? && c.cond < |vars| && Known(vars, nextVal) && Neat(View(), order)
      requires Scoped(c.onTrue, |vars|, c.phis) && Scoped(c.onFalse, |vars|, c.phis) && !ReadsPc(c.onFalse)
      modifies this
      ensures s.e == old(View()) && s.e2 == View() && dyn == old(dyn)
      ensures MergeStages(s, vars[c.cond], c.phis, l1, l2) && |l1| == |l2| == c.phis
      ensures Sound(s.e0) && Sound(s.e1)
      ensures BodyCorrect(s.e0, s.a1, c.onTrue, vars, l1, c.phis)
      ensures BodyCorrect(s.e1, s.a2, c.onFalse, vars, l2, c.phis)
      ensures Neat(View(), order) && Moves(old(View()), View())
      decreases c, 0
    {
      hide Neat, Moves, Opens, BodyCorrect, Grows;
      ghost var e, before := View(), order;
      var falseBlock, post := |graph| + 1, |graph| + 2;
      OpenMerge(vars[c.cond], c.phis);
      var snapshot := dyn;
      ghost var e0 := View();
      MergingLater(e, vars[c.cond], c.phis, e0);
      MergingNeat(e, vars[c.cond], c.phis, e0, before);
      var trueVals := LowerBody(c.onTrue, vars, c.phis);
      ghost var a1 := View();
      before := order;
      Finish(Jump(post, trueVals));
      dyn := snapshot;
      SwitchTo(falseBlock);
      ghost var e1 := View();
      ArmNeat(e0, a1, post, trueVals, falseBlock, e1, before);
      FirstArmClosed(Stages(e, e0, a1, e1, e1, e1), vars[c.cond], c.phis, trueVals);
      var falseVals := LowerBody(c.onFalse, vars, c.phis);
      ghost var a2 := View();
      before := order;
      Finish(Jump(post, falseVals));
      SwitchTo(post);
      ArmNeat(e1, a2, post, falseVals, post, View(), before);
      MergedMoves(e, e0, e1, View());
      s, l1, l2 := Stages(e, e0, a1, e1, a2, View()), trueVals, falseVals;
    }

    /** Take a branch and return to a common line of execution. */
    method LowerMerge(c: Body, vars: seq<Value>, ghost outs: nat) returns (vals: seq<Value>)
      requires Sound(View()) && c.Merge? && Scoped(c, |vars|, outs) && Known(vars, nextVal) && Neat(View(), order)
      modifies this
      ensures Later(old(View()), View()) && Sound(View())
      ensures |vals| == outs && Known(vals, nextVal)
      ensures dyn.steps == old(dyn).steps && (!ReadsPc(c) ==> dyn == old(dyn))
      ensures BodyCorrect(old(View()), View(), c, vars, vals, outs)
      ensures Neat(View(), order) && Moves(old(View()), View())
      decreases c, 1
    {
      hide Neat, Moves, Opens;
      ghost var e := View();
      var params := FreshValues(nextVal, c.phis);
      ghost var s, l1, l2 := LowerArms(c, vars);
      MergeLater(s, vars[c.cond], c.phis, l1, l2);
      vals := LowerBody(c.k, vars + params, outs);
      LaterTransitive(e, s.e2, View());
      MovesAlong(e, s.e2, View());
      MergeCorrect(s, c, vars, l1, l2, View(), vals, outs);
    }

    // ----- instructions -----

    /** Raise an exception on every path. */
    method RaiseAlways(tail: Tail)
      requires Sound(View()) && (tail.Illegal? || tail.ECall?) && Neat(View(), order)
      modifies this
      ensures Later(old(View()), View()) && TailCode(old(View()), View(), tail, [], Throws) && end.Some?
      ensures Neat(View(), order) && Ends(old(View()), View())
    {
      hide Neat, Moves, Ends, Opens;
      ghost var e := View();
      var exc := NewSlot();
      var call := if tail.ECall? then CallEcall(exc) else CallRaiseIllegal(exc);
      Ins(call);
      ghost var e1 := View();
      EmittedLater(e, call, e1);
      EmittedNeat(e, call, e1, order);
      HandleException(exc);
      LaterTransitive(e, e1, View());
      MovesEnds(e, e1, View());
      RaiseCorrect(e, call, tail, exc, e1, View());
    }

    /** Lower the end of a routine and complete the step. */
    method LowerTail(tail: Tail, vals: seq<Value>) returns (status: Status)
      requires Sound(View()) && |vals| == TailOuts(tail) && Known(vals, nextVal) && Neat(View(), order)
      modifies this
      ensures Later(old(View()), View()) && TailCode(old(View()), View(), tail, vals, status)
      ensures status == StatusOf(tail)
      ensures !status.Throws? ==> Sound(View()) && dyn.steps == old(dyn).steps + 1 && Moves(old(View()), View())
      ensures Neat(View(), order) && (status.Throws? ==> Ends(old(View()), View()) && end.Some?)
    {
      hide Neat, Moves, Ends, Opens;
      ghost var e := View();
      if tail.NextPc? {
        var _ := CompleteStep(Offset(WidthBytes(tail.width)));
        status := Falls;
        SameNeat(e, View(), order);
      } else if tail.SetPc? {
        var _ := CompleteStep(Absolute(vals[0]));
        status := Jumps;
        SameNeat(e, View(), order);
      } else if tail.BranchIf? {
        ExitOnBranch(vals[0], Offset(tail.offset));
        ghost var e1 := View();
        var _ := CompleteStep(Offset(WidthBytes(tail.width)));
        status := Falls;
        SameNeat(e1, View(), order);
        MovesAlong(e, e1, View());
      } else {
        RaiseAlways(tail);
        status := Throws;
      }
    }

    /** Lower one instruction and complete its step. */
    method LowerInstr(i: Instruction) returns (status: Status)
      requires Sound(View()) && Neat(View(), order)
      modifies this
      ensures Later(old(View()), View()) && InstrCorrect(old(View()), View(), i, status)
      ensures status == StatusOf(RoutineOf(i).tail)
      ensures !status.Throws? ==> Sound(View()) && dyn.steps == old(dyn).steps + 1 && Moves(old(View()), View())
      ensures Neat(View(), order) && (status.Throws? ==> Ends(old(View()), View()) && end.Some?)
    {
      hide RoutineOf, Neat, Moves, Ends;
      ghost var e := View();
      var r := RoutineOf(i);
      var vals := LowerBody(r.body, [], TailOuts(r.tail));
      ghost var e1 := View();
      status := LowerTail(r.tail, vals);
      LaterTransitive(e, e1, View());
      if status.Throws? { MovesEnds(e, e1, View()); } else { MovesAlong(e, e1, View()); }
      InstrComposes(e, e1, View(), i, vals, status);
    }
  }
}
