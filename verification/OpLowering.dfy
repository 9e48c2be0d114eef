/**
 Correctness of the code that single operations are lowered to.
 */
module OpLowering {
  import opened Words
  import opened Memory
  import opened Machine
  import opened Icb
  import opened Ir
  import opened Lowering

  // ----- operations that define one value -----

  function LowerAlu(f: AluOp): BinOp {
    match f
    case Add => Iadd
    case Sub => Isub
    case And => Band
    case Or => Bor
    case Xor => Bxor
    case Mul => Imul
    case DivUnsigned => Udiv
    case DivSigned => Sdiv
    case RemUnsigned => Urem
    case RemSigned => Srem
    case ShiftLeftOp => Ishl
    case ShiftRightU => Ushr
    case ShiftRightS => Sshr
    case MinSignedOp => Smin
  }

  function LowerPredicate(p: Predicate): IntCC {
    match p
    case Equal => Eq
    case NotEqual => Ne
    case LessSigned => Slt
    case LessUnsigned => Ult
    case LessEqualSigned => Sle
    case GreaterSigned => Sgt
    case GreaterEqualSigned => Sge
    case GreaterEqualUnsigned => Uge
  }

  /** Operations lowered to one instruction that defines a value. */
  predicate Simple(o: Op) { Binds(o) == 1 && !o.PcRead? && !o.Load? }

  function SimpleInst(o: Op, vars: seq<Value>, d: Value): Inst
    requires Simple(o) && OpScoped(o, |vars|)
  {
    match o
    case Imm(w, imm) => Iconst(d, Wrap(w, imm))
    case Alu(w, f, a, b) => Binary(d, LowerAlu(f), w, vars[a], vars[b])
    case Negate(w, a) => Ineg(d, w, vars[a])
    case Compare(w, p, a, b) => Icmp(d, LowerPredicate(p), w, vars[a], vars[b])
    case BoolAnd(a, b) => Binary(d, Band, W64, vars[a], vars[b])
    case Narrow(a) => Ireduce(d, vars[a])
    case ExtendSigned(a) => Sextend(d, vars[a])
    case ValueFromBool(a) => UextendBool(d, vars[a])
    case MulHigh(t, a, b) => MulSplitHigh(d, !t.HighUnsigned?, t.HighSigned?, vars[a], vars[b])
    case XRegRead(r) => if r == 0 then Iconst(d, 0) else CallXRegRead(d, r)
    case ReservationRead => CallReservationRead(d)
  }

  lemma AluAgrees(w: Width, f: AluOp, x: u64, y: u64)
    ensures BinaryValue(LowerAlu(f), w, x, y) == AluValue(w, f, x, y)
  {
    hide TruncDiv, TruncRem, ShiftLeft, ShiftRightUnsigned, ShiftRightSigned, Bits;
  }

  lemma CompareAgrees(w: Width, p: Predicate, x: u64, y: u64)
    ensures IcmpHolds(LowerPredicate(p), w, x, y) == Holds(w, p, x, y)
  {
  }

  /** The high product computed by extension to 128 bits is the interpreter's, for each signedness. */
  lemma MulHighAgrees(t: MulHighType, x: u64, y: u64)
    ensures SplitHigh(!t.HighUnsigned?, t.HighSigned?, x, y) == MulHighValue(t, x, y)
  {
    assert forall s: bool, v: u64 :: To128(s, v) == Widen(s, v);
  }

  lemma BoolAndAgrees(x: u64, y: u64)
    ensures BinaryValue(Band, W64, x, y) == Some(Bits64(BitAnd, x, y))
  {
  }

  lemma AluRuns(o: Op, vars: seq<Value>, d: Value, bound: Value, env: seq<u64>, core: Core, fr: Frame)
    requires o.Alu? && OpScoped(o, |vars|) && Stand(vars, bound, env, fr.env)
    ensures match AluValue(o.w, o.f, env[o.a], env[o.b])
            case Some(v) => ExecInst(SimpleInst(o, vars, d), fr) == Some(fr.Def(d, v))
            case None => ExecInst(SimpleInst(o, vars, d), fr) == None
  {
    AluAgrees(o.w, o.f, env[o.a], env[o.b]);
    assert fr.env[vars[o.a]] == env[o.a] && fr.env[vars[o.b]] == env[o.b];
  }

  lemma OtherRuns(o: Op, vars: seq<Value>, d: Value, bound: Value, env: seq<u64>, core: Core, fr: Frame)
    requires Simple(o) && !o.Alu? && OpScoped(o, |vars|) && Stand(vars, bound, env, fr.env)
    requires fr.core.(pc := core.pc) == core
    ensures var r := RunOp(o, env, core);
            r.Yielded? && r.core == core && ExecInst(SimpleInst(o, vars, d), fr) == Some(fr.Def(d, r.vals[0]))
  {
    hide IcmpHolds, Holds, SplitHigh, MulHighValue, AluValue, BinaryValue, Bits64, Read, Write;
    match o
    case Compare(w, p, a, b) => CompareAgrees(w, p, env[a], env[b]);
    case MulHigh(t, a, b) => MulHighAgrees(t, env[a], env[b]);
    case BoolAnd(a, b) => BoolAndAgrees(env[a], env[b]);
    case _ =>
  }

  /** One value operation and the instruction it becomes, on frames that simulate each other. */
  lemma SimpleAgrees(o: Op, vars: seq<Value>, d: Value, bound: Value, env: seq<u64>, core: Core, fr: Frame)
    requires Simple(o) && OpScoped(o, |vars|) && Stand(vars, bound, env, fr.env)
    requires fr.core.(pc := core.pc) == core
    ensures match RunOp(o, env, core)
            case Yielded(vs, core') => core' == core && ExecInst(SimpleInst(o, vars, d), fr) == Some(fr.Def(d, vs[0]))
            case Panicked => ExecInst(SimpleInst(o, vars, d), fr) == None
            case Raised(_, _) => false
  {
    if o.Alu? {
      AluRuns(o, vars, d, bound, env, core, fr);
    } else {
      OtherRuns(o, vars, d, bound, env, core, fr);
    }
  }

  lemma SimpleCorrect(e: Emitter, o: Op, vars: seq<Value>, d: Value, e': Emitter)
    requires Sound(e) && Simple(o) && OpScoped(o, |vars|)
    requires d == e.nextVal && e'.nextVal == d + 1 && e'.dyn == e.dyn && Emitted(e, SimpleInst(o, vars, d), e')
    ensures Open(e') && OpCorrect(e, e', o, vars, [d])
  {
    forall g: Graph, fr: Frame, env: seq<u64>, core: Core |
      Sim(e, vars, env, core, fr) && Grows(e'.graph, g)
      ensures BodyOutcome(g, e, fr, e', [d], RunOp(o, env, core))
    {
      SimpleAgrees(o, vars, d, e.nextVal, env, core, fr);
      EmittedRuns(e, SimpleInst(o, vars, d), e', g, fr);
      match RunOp(o, env, core)
      case Yielded(vs, core') =>
        var fr' := fr.Def(d, vs[0]);
        assert Goes(g, e, fr, e', fr') && Sim(e', [d], vs, core', fr');
      case Panicked =>
    }
  }

  // ----- effects -----

  /** Operations lowered to one instruction without a value. */
  function EffectInst(o: Op, vars: seq<Value>): Inst
    requires (o.XRegWrite? || o.ReservationWrite?) && OpScoped(o, |vars|)
  {
    match o
    case XRegWrite(r, a) => CallXRegWrite(r, vars[a])
    case ReservationWrite(a) => CallReservationWrite(vars[a])
  }

  lemma EffectCorrect(e: Emitter, o: Op, vars: seq<Value>, e': Emitter)
    requires Sound(e) && (o.XRegWrite? || o.ReservationWrite?) && OpScoped(o, |vars|)
    requires e'.dyn == e.dyn && Emitted(e, EffectInst(o, vars), e')
    ensures Open(e') && OpCorrect(e, e', o, vars, [])
  {
    forall g: Graph, fr: Frame, env: seq<u64>, core: Core |
      Sim(e, vars, env, core, fr) && Grows(e'.graph, g)
      ensures BodyOutcome(g, e, fr, e', [], RunOp(o, env, core))
    {
      EmittedRuns(e, EffectInst(o, vars), e', g, fr);
      var fr' := ExecInst(EffectInst(o, vars), fr).value;
      assert Goes(g, e, fr, e', fr') && Sim(e', [], [], RunOp(o, env, core).core, fr');
    }
  }

  /** A write to `x0` needs no code. */
  lemma NoEffectCorrect(e: Emitter, o: Op, vars: seq<Value>)
    requires Sound(e) && o.XRegWrite? && o.r == 0 && OpScoped(o, |vars|)
    ensures OpCorrect(e, e, o, vars, [])
  {
    forall g: Graph, fr: Frame, env: seq<u64>, core: Core |
      Sim(e, vars, env, core, fr) && Grows(e.graph, g)
      ensures BodyOutcome(g, e, fr, e, [], RunOp(o, env, core))
    {
      ReachesSelf(g, Here(e, fr));
      assert Goes(g, e, fr, e, fr) && Sim(e, [], [], core, fr);
    }
  }

  lemma PcReadOpCorrect(e: Emitter, vars: seq<Value>, v: Value, e': Emitter)
    requires Sound(e) && Sound(e') && PcReadCorrect(e, e', v) && e'.dyn == e.dyn.(pcVal := v, pcOffset := 0)
    ensures OpCorrect(e, e', PcRead, vars, [v])
  {
    forall g: Graph, fr: Frame, env: seq<u64>, core: Core |
      Sim(e, vars, env, core, fr) && Grows(e'.graph, g)
      ensures BodyOutcome(g, e, fr, e', [v], RunOp(PcRead, env, core))
    {
      assert Here(e, fr).At?;
      var fr': Frame :| Goes(g, e, fr, e', fr') && fr' == fr.(env := fr'.env)
                        && v in fr'.env && fr'.env[v] == PcOf(e.dyn, fr.env);
      assert Sim(e', [v], [core.pc], core, fr');
    }
  }

  // ----- fallible operations -----

  lemma TrapsLater(g: Graph, c: Config, d: Config, steps: nat, pc: u64, x: Exception, core: Core)
    requires Reaches(g, c, d) && Traps(g, d, steps, pc, x, core)
    ensures Traps(g, c, steps, pc, x, core)
  {
    var r := HandleStepResult(core, pc, Err(x));
    HaltsLater(g, c, d, U64(if r.error.Some? then steps else steps + 1), r.core, r.error);
  }

  /** A trap does not depend on the program counter that the machine state holds. */
  lemma TrapsAnyPc(g: Graph, c: Config, steps: nat, pc: u64, x: Exception, core: Core, core': Core)
    requires Traps(g, c, steps, pc, x, core) && core'.(pc := pc) == core.(pc := pc)
    ensures Traps(g, c, steps, pc, x, core')
  {
    assert core.(pc := 0) == core.(pc := pc).(pc := 0) && core'.(pc := 0) == core'.(pc := pc).(pc := 0);
  }

  /** Failure reported by a call leads out of the block, success goes on. */
  ghost predicate ErrnoCorrect(e: Emitter, e': Emitter, errno: Value, exc: Slot)
    requires Open(e) && Open(e')
  {
    forall g: Graph, fr: Frame {:trigger Here(e, fr), Grows(e'.graph, g)} ::
      && Grows(e'.graph, g) && errno in fr.env && e.dyn.pcVal in fr.env && fr.result == None
      && (fr.env[errno] != 0 ==> exc in fr.excs) ==>
        if fr.env[errno] != 0 then
          Traps(g, Here(e, fr), e.dyn.steps, PcOf(e.dyn, fr.env), fr.excs[exc], fr.core)
        else
          Goes(g, e, fr, e', fr)
  }

  lemma ErrnoComposes(e: Emitter, errno: Value, exc: Slot, e1: Emitter, e2: Emitter, e': Emitter)
    requires Sound(e) && Forked(e, errno, e1) && e1.dyn == e.dyn
    requires Open(e1) && Later(e1, e2) && ExitsWith(e1, e2, exc)
    requires e' == e2.(cur := |e.graph| + 1, dyn := e.dyn)
    ensures Open(e') && ErrnoCorrect(e, e', errno, exc)
  {
    Resume(e, errno, e1, e2, e');
    forall g: Graph, fr: Frame |
      && Grows(e'.graph, g) && errno in fr.env && e.dyn.pcVal in fr.env && fr.result == None
      && (fr.env[errno] != 0 ==> exc in fr.excs)
      ensures if fr.env[errno] != 0 then
                Traps(g, Here(e, fr), e.dyn.steps, PcOf(e.dyn, fr.env), fr.excs[exc], fr.core)
              else
                Goes(g, e, fr, e', fr)
    {
      ForkRuns(e, errno, e1, e2, e', g, fr);
      if fr.env[errno] != 0 {
        TrapsLater(g, Here(e, fr), Here(e1, fr), e.dyn.steps, PcOf(e.dyn, fr.env), fr.excs[exc], fr.core);
      }
    }
  }

  /** The state in which a misaligned atomic access faults. */
  function FaultCore(core: Core, reset: bool): Core { if reset then core.(reservation := UNSET) else core }

  /** A raised alignment fault, with the reservation dropped when asked to. */
  ghost predicate FaultCorrect(e: Emitter, e': Emitter, address: Value, reset: bool)
    requires Open(e)
  {
    forall g: Graph, fr: Frame {:trigger Here(e, fr), Grows(e'.graph, g)} ::
      Grows(e'.graph, g) && address < e.nextVal && address in fr.env && e.dyn.pcVal in fr.env && fr.result == None ==>
        Traps(g, Here(e, fr), e.dyn.steps, PcOf(e.dyn, fr.env), StoreAMOAccessFault(fr.env[address]),
              FaultCore(fr.core, reset))
  }

  lemma FaultNoReset(e: Emitter, e1: Emitter, e': Emitter, address: Value, exc: Slot)
    requires Sound(e) && Emitted(e, CallRaiseAmoFault(exc, address), e1) && e1.dyn == e.dyn
    requires Open(e1) && Later(e1, e') && ExitsWith(e1, e', exc)
    ensures FaultCorrect(e, e', address, false)
  {
    forall g: Graph, fr: Frame |
      Grows(e'.graph, g) && address < e.nextVal && address in fr.env && e.dyn.pcVal in fr.env && fr.result == None
      ensures Traps(g, Here(e, fr), e.dyn.steps, PcOf(e.dyn, fr.env), StoreAMOAccessFault(fr.env[address]), fr.core)
    {
      GrowsTransitive(e1.graph, e'.graph, g);
      var fr1 := fr.(excs := fr.excs[exc := StoreAMOAccessFault(fr.env[address])]);
      EmittedRuns(e, CallRaiseAmoFault(exc, address), e1, g, fr);
      assert Here(e1, fr1).At?;
      TrapsLater(g, Here(e, fr), Here(e1, fr1), e.dyn.steps, PcOf(e.dyn, fr.env), fr1.excs[exc], fr.core);
    }
  }

  lemma FaultReset(e: Emitter, e1: Emitter, e2: Emitter, e3: Emitter, e': Emitter, address: Value, exc: Slot,
                   unset: Value)
    requires Sound(e) && e1.dyn == e2.dyn == e3.dyn == e.dyn && unset == e1.nextVal
    requires Open(e1) && Open(e2) && Open(e3)
    requires Emitted(e, CallRaiseAmoFault(exc, address), e1)
    requires Emitted(e1, Iconst(unset, UNSET), e2) && Emitted(e2, CallReservationWrite(unset), e3)
    requires Later(e1, e2) && Later(e2, e3) && Later(e3, e') && ExitsWith(e3, e', exc)
    ensures FaultCorrect(e, e', address, true)
  {
    hide Reaches, HaltsWith, Grows;
    forall g: Graph, fr: Frame |
      Grows(e'.graph, g) && address < e.nextVal && address in fr.env && e.dyn.pcVal in fr.env && fr.result == None
      ensures Traps(g, Here(e, fr), e.dyn.steps, PcOf(e.dyn, fr.env), StoreAMOAccessFault(fr.env[address]),
                    FaultCore(fr.core, true))
    {
      GrowsTransitive(e3.graph, e'.graph, g);
      GrowsTransitive(e2.graph, e3.graph, g);
      GrowsTransitive(e1.graph, e2.graph, g);
      FaultResetRuns(e, e1, e2, e3, e', address, exc, unset, g, fr);
    }
  }

  lemma FaultResetRuns(e: Emitter, e1: Emitter, e2: Emitter, e3: Emitter, e': Emitter, address: Value, exc: Slot,
                       unset: Value, g: Graph, fr: Frame)
    requires Sound(e) && e1.dyn == e2.dyn == e3.dyn == e.dyn && unset == e1.nextVal
    requires Open(e1) && Open(e2) && Open(e3)
    requires Emitted(e, CallRaiseAmoFault(exc, address), e1)
    requires Emitted(e1, Iconst(unset, UNSET), e2) && Emitted(e2, CallReservationWrite(unset), e3)
    requires ExitsWith(e3, e', exc)
    requires Grows(e1.graph, g) && Grows(e2.graph, g) && Grows(e3.graph, g) && Grows(e'.graph, g)
    requires address < e.nextVal && address in fr.env && e.dyn.pcVal in fr.env && fr.result == None
    ensures Traps(g, Here(e, fr), e.dyn.steps, PcOf(e.dyn, fr.env), StoreAMOAccessFault(fr.env[address]),
                  FaultCore(fr.core, true))
  {
    hide Reaches, HaltsWith, Grows;
    var fr1 := fr.(excs := fr.excs[exc := StoreAMOAccessFault(fr.env[address])]);
    var fr2 := fr1.Def(unset, UNSET);
    var fr3 := fr2.(core := FaultCore(fr.core, true));
    EmittedRuns(e, CallRaiseAmoFault(exc, address), e1, g, fr);
    EmittedRuns(e1, Iconst(unset, UNSET), e2, g, fr1);
    EmittedRuns(e2, CallReservationWrite(unset), e3, g, fr2);
    ReachesTransitive(g, Here(e, fr), Here(e1, fr1), Here(e2, fr2));
    ReachesTransitive(g, Here(e, fr), Here(e2, fr2), Here(e3, fr3));
    assert PcOf(e3.dyn, fr3.env) == PcOf(e.dyn, fr.env);
    TrapsLater(g, Here(e, fr), Here(e3, fr3), e.dyn.steps, PcOf(e.dyn, fr.env), fr3.excs[exc], fr3.core);
  }

  /** The alignment check: a fault when the flag is set, otherwise nothing. */
  ghost predicate GuardCorrect(e: Emitter, e': Emitter, flag: Value, address: Value, reset: bool)
    requires Open(e) && Open(e')
  {
    forall g: Graph, fr: Frame {:trigger Here(e, fr), Grows(e'.graph, g)} ::
      && Grows(e'.graph, g) && flag in fr.env && address in fr.env && address < e.nextVal
      && e.dyn.pcVal in fr.env && fr.result == None ==>
        if fr.env[flag] != 0 then
          Traps(g, Here(e, fr), e.dyn.steps, PcOf(e.dyn, fr.env), StoreAMOAccessFault(fr.env[address]),
                FaultCore(fr.core, reset))
        else
          Goes(g, e, fr, e', fr)
  }

  lemma GuardComposes(e: Emitter, flag: Value, address: Value, reset: bool, e1: Emitter, e2: Emitter, e': Emitter)
    requires Sound(e) && Forked(e, flag, e1) && e1.dyn == e.dyn
    requires Open(e1) && Later(e1, e2) && FaultCorrect(e1, e2, address, reset)
    requires e' == e2.(cur := |e.graph| + 1, dyn := e.dyn)
    ensures Open(e') && GuardCorrect(e, e', flag, address, reset)
  {
    Resume(e, flag, e1, e2, e');
    forall g: Graph, fr: Frame |
      && Grows(e'.graph, g) && flag in fr.env && address in fr.env && address < e.nextVal
      && e.dyn.pcVal in fr.env && fr.result == None
      ensures if fr.env[flag] != 0 then
                Traps(g, Here(e, fr), e.dyn.steps, PcOf(e.dyn, fr.env), StoreAMOAccessFault(fr.env[address]),
                      FaultCore(fr.core, reset))
              else
                Goes(g, e, fr, e', fr)
    {
      ForkRuns(e, flag, e1, e2, e', g, fr);
      if fr.env[flag] != 0 {
        TrapsLater(g, Here(e, fr), Here(e1, fr), e.dyn.steps, PcOf(e.dyn, fr.env),
                   StoreAMOAccessFault(fr.env[address]), FaultCore(fr.core, reset));
      }
    }
  }

  /** Two emitted instructions run one after the other. */
  lemma EmittedTwice(e: Emitter, i: Inst, e1: Emitter, j: Inst, e2: Emitter, g: Graph, fr: Frame)
    requires Open(e) && EndOk(e) && Emitted(e, i, e1) && Open(e1) && Emitted(e1, j, e2) && Grows(e2.graph, g)
    requires ExecInst(i, fr).Some? && ExecInst(j, ExecInst(i, fr).value).Some?
    ensures Open(e2) && Later(e, e2)
    ensures Reaches(g, Here(e, fr), Here(e2, ExecInst(j, ExecInst(i, fr).value).value))
  {
    EmittedLater(e, i, e1);
    EmittedLater(e1, j, e2);
    LaterTransitive(e, e1, e2);
    GrowsTransitive(e1.graph, e2.graph, g);
    EmittedRuns(e, i, e1, g, fr);
    EmittedRuns(e1, j, e2, g, ExecInst(i, fr).value);
    var fr1 := ExecInst(i, fr).value;
    ReachesTransitive(g, Here(e, fr), Here(e1, fr1), Here(e2, ExecInst(j, fr1).value));
  }

  /** The values computed by the alignment check. */
  lemma AlignmentValues(size: Size, address: Value, w: Value, fr: Frame)
    requires address in fr.env && address < w
    ensures var fr1 := fr.Def(w, Bytes(size));
            var fr2 := fr1.Def(w + 1, fr.env[address] % Bytes(size));
            var fr3 := fr2.Def(w + 2, 0);
            && ExecInst(Iconst(w, Bytes(size)), fr) == Some(fr1)
            && ExecInst(Binary(w + 1, Urem, W64, address, w), fr1) == Some(fr2)
            && ExecInst(Iconst(w + 2, 0), fr2) == Some(fr3)
            && ExecInst(Icmp(w + 3, Ne, W64, w + 1, w + 2), fr3)
               == Some(fr3.Def(w + 3, FromBool(fr.env[address] % Bytes(size) != 0)))
  {
  }

  /** The code of the alignment check, up to the branch. */
  ghost predicate AlignmentCode(e: Emitter, e1: Emitter, e2: Emitter, e3: Emitter, e4: Emitter, size: Size,
                                address: Value) {
    && Sound(e) && Open(e1) && Open(e2) && Open(e3) && Sound(e4)
    && var w := e.nextVal;
    && Emitted(e, Iconst(w, Bytes(size)), e1)
    && Emitted(e1, Binary(w + 1, Urem, W64, address, w), e2)
    && Emitted(e2, Iconst(w + 2, 0), e3)
    && Emitted(e3, Icmp(w + 3, Ne, W64, w + 1, w + 2), e4)
  }

  lemma AlignmentLater(e: Emitter, e1: Emitter, e2: Emitter, e3: Emitter, e4: Emitter, size: Size, address: Value)
    requires AlignmentCode(e, e1, e2, e3, e4, size, address)
    ensures Later(e, e4)
  {
    var w := e.nextVal;
    EmittedLater(e, Iconst(w, Bytes(size)), e1);
    EmittedLater(e1, Binary(w + 1, Urem, W64, address, w), e2);
    EmittedLater(e2, Iconst(w + 2, 0), e3);
    EmittedLater(e3, Icmp(w + 3, Ne, W64, w + 1, w + 2), e4);
    LaterTransitive(e, e1, e2);
    LaterTransitive(e, e2, e3);
    LaterTransitive(e, e3, e4);
  }

  lemma AlignmentRuns(e: Emitter, e1: Emitter, e2: Emitter, e3: Emitter, e4: Emitter, size: Size, address: Value,
                      g: Graph, fr: Frame) returns (fr4: Frame)
    requires AlignmentCode(e, e1, e2, e3, e4, size, address)
    requires address in fr.env && address < e.nextVal && Grows(e4.graph, g)
    ensures Goes(g, e, fr, e4, fr4) && fr4 == fr.(env := fr4.env)
    ensures e.nextVal + 3 in fr4.env && fr4.env[e.nextVal + 3] == FromBool(fr.env[address] % Bytes(size) != 0)
  {
    hide Reaches, Grows, ExecInst;
    var w := e.nextVal;
    EmittedLater(e2, Iconst(w + 2, 0), e3);
    EmittedLater(e3, Icmp(w + 3, Ne, W64, w + 1, w + 2), e4);
    GrowsTransitive(e3.graph, e4.graph, g);
    GrowsTransitive(e2.graph, e3.graph, g);
    AlignmentValues(size, address, w, fr);
    var fr2 := fr.Def(w, Bytes(size)).Def(w + 1, fr.env[address] % Bytes(size));
    fr4 := fr2.Def(w + 2, 0).Def(w + 3, FromBool(fr.env[address] % Bytes(size) != 0));
    EmittedTwice(e, Iconst(w, Bytes(size)), e1, Binary(w + 1, Urem, W64, address, w), e2, g, fr);
    EmittedTwice(e2, Iconst(w + 2, 0), e3, Icmp(w + 3, Ne, W64, w + 1, w + 2), e4, g, fr2);
    ReachesTransitive(g, Here(e, fr), Here(e2, fr2), Here(e4, fr4));
  }

  lemma GuardOpCorrect(e: Emitter, e1: Emitter, e2: Emitter, e3: Emitter, e4: Emitter, e': Emitter,
                       size: Size, a: Var, reset: bool, vars: seq<Value>)
    requires a < |vars| && AlignmentCode(e, e1, e2, e3, e4, size, vars[a]) && Sound(e')
    requires GuardCorrect(e4, e', e.nextVal + 3, vars[a], reset)
    requires e4.dyn == e'.dyn == e.dyn && Later(e4, e') && e4.nextVal >= e.nextVal
    ensures OpCorrect(e, e', AtomicGuard(size, a, reset), vars, [])
  {
    forall g: Graph, fr: Frame, env: seq<u64>, core: Core |
      Sim(e, vars, env, core, fr) && Grows(e'.graph, g)
      ensures BodyOutcome(g, e, fr, e', [], RunOp(AtomicGuard(size, a, reset), env, core))
    {
      GrowsTransitive(e4.graph, e'.graph, g);
      var fr4 := AlignmentRuns(e, e1, e2, e3, e4, size, vars[a], g, fr);
      GuardOutcome(g, e, fr, e4, fr4, e', size, a, reset, vars, env, core, e.nextVal + 3);
    }
  }

  lemma GuardOutcome(g: Graph, e: Emitter, fr: Frame, e4: Emitter, fr4: Frame, e': Emitter,
                     size: Size, a: Var, reset: bool, vars: seq<Value>, env: seq<u64>, core: Core, flag: Value)
    requires Sound(e) && Sound(e4) && Sound(e') && e4.dyn == e'.dyn == e.dyn && e4.nextVal >= e.nextVal
             && e'.nextVal >= e.nextVal
    requires a < |vars| && Sim(e, vars, env, core, fr) && Grows(e'.graph, g)
    requires Goes(g, e, fr, e4, fr4) && fr4 == fr.(env := fr4.env)
    requires flag in fr4.env && fr4.env[flag] == FromBool(env[a] % Bytes(size) != 0)
    requires GuardCorrect(e4, e', flag, vars[a], reset)
    ensures BodyOutcome(g, e, fr, e', [], RunOp(AtomicGuard(size, a, reset), env, core))
  {
    assert PcOf(e.dyn, fr4.env) == core.pc;
    assert Here(e4, fr4).At?;
    if env[a] % Bytes(size) != 0 {
      TrapsAnyPc(g, Here(e4, fr4), e.dyn.steps, core.pc, StoreAMOAccessFault(env[a]), FaultCore(fr4.core, reset),
                 FaultCore(core, reset));
      TrapsLater(g, Here(e, fr), Here(e4, fr4), e.dyn.steps, core.pc, StoreAMOAccessFault(env[a]),
                 FaultCore(core, reset));
    } else {
      GoesTransitive(g, e, fr, e4, fr4, e', fr4);
      assert Sim(e', [], [], core, fr4);
    }
  }

  // ----- memory -----

  /** A double-width load needs no extension, a double-width store no reduction. */
  lemma DoubleIsWhole(v: u64, signed: bool)
    ensures Extend(Double, signed, v) == v && Truncate(Double, v) == v
  {
    Pow2Of64();
  }

  /** Outcome of a call that may fail, up to the branch on its error code. */
  lemma CallOutcome(g: Graph, e: Emitter, fr: Frame, e1: Emitter, fr1: Frame, e2: Emitter, core: Core, core': Core,
                    errno: Value, exc: Slot)
    requires Sound(e) && Sound(e1) && Sound(e2) && e1.dyn == e.dyn
    requires Grows(e2.graph, g) && ErrnoCorrect(e1, e2, errno, exc)
    requires Goes(g, e, fr, e1, fr1) && errno in fr1.env && fr1.result == None
    requires e.dyn.pcVal in fr.env && PcOf(e.dyn, fr.env) == core'.pc == core.pc
    requires fr1.core.(pc := core'.pc) == core'
    requires fr1.env[errno] != 0 ==> exc in fr1.excs
    ensures if fr1.env[errno] != 0 then Traps(g, Here(e, fr), e.dyn.steps, core'.pc, fr1.excs[exc], core')
            else Goes(g, e1, fr1, e2, fr1)
  {
    assert PcOf(e.dyn, fr1.env) == core.pc;
    assert Here(e1, fr1).At?;
    if fr1.env[errno] != 0 {
      TrapsAnyPc(g, Here(e1, fr1), e.dyn.steps, core'.pc, fr1.excs[exc], fr1.core, core');
      TrapsLater(g, Here(e, fr), Here(e1, fr1), e.dyn.steps, core'.pc, fr1.excs[exc], core');
    }
  }

  /** Loading the out-parameter and extending it. */
  lemma LoadedRuns(g: Graph, e: Emitter, fr: Frame, e3: Emitter, e': Emitter, size: Size, signed: bool, out: Slot,
                   d: Value)
    requires Open(e) && EndOk(e) && Open(e3) && d == e.nextVal && Emitted(e, StackLoad(d, out), e3)
    requires if size.Double? then e' == e3 else Emitted(e3, ExtendFrom(d + 1, size, signed, d), e')
    requires Grows(e'.graph, g) && out in fr.slots
    ensures Open(e')
    ensures var v := Extend(size, signed, fr.slots[out]);
            var fr' := if size.Double? then fr.Def(d, v) else fr.Def(d, fr.slots[out]).Def(d + 1, v);
            Reaches(g, Here(e, fr), Here(e', fr'))
  {
    if size.Double? {
      DoubleIsWhole(fr.slots[out], signed);
      EmittedRuns(e, StackLoad(d, out), e3, g, fr);
    } else {
      EmittedTwice(e, StackLoad(d, out), e3, ExtendFrom(d + 1, size, signed, d), e', g, fr);
    }
  }

  /** The frame after the call that loads from memory. */
  function AfterLoad(fr: Frame, errno: Value, size: Size, address: u64, out: Slot, exc: Slot): Frame {
    match Read(fr.core.mem, address, size)
    case Some(v) => fr.(slots := fr.slots[out := v]).Def(errno, 0)
    case None => fr.(excs := fr.excs[exc := LoadAccessFault(address)]).Def(errno, 1)
  }

  lemma LoadCallRuns(e: Emitter, e1: Emitter, size: Size, address: Value, out: Slot, exc: Slot, g: Graph, fr: Frame)
    requires Sound(e) && Open(e1) && Emitted(e, CallMemoryLoad(e.nextVal, size, address, out, exc), e1)
    requires Grows(e1.graph, g) && address in fr.env
    ensures Goes(g, e, fr, e1, AfterLoad(fr, e.nextVal, size, fr.env[address], out, exc))
  {
    EmittedRuns(e, CallMemoryLoad(e.nextVal, size, address, out, exc), e1, g, fr);
  }

  /** The code that fetches and extends a loaded value. */
  ghost predicate LoadedCode(e2: Emitter, e3: Emitter, e': Emitter, size: Size, signed: bool, out: Slot, v: Value) {
    && Sound(e2) && Open(e3) && Sound(e') && v < e'.nextVal
    && Emitted(e2, StackLoad(e2.nextVal, out), e3)
    && if size.Double? then e' == e3 && v == e2.nextVal
       else Emitted(e3, ExtendFrom(v, size, signed, e2.nextVal), e') && v == e2.nextVal + 1
  }

  lemma LoadOpCorrect(e: Emitter, e1: Emitter, e2: Emitter, e3: Emitter, e': Emitter,
                      size: Size, signed: bool, a: Var, vars: seq<Value>, out: Slot, exc: Slot, v: Value)
    requires Sound(e) && Sound(e1) && a < |vars|
    requires e1.dyn == e2.dyn == e'.dyn == e.dyn
    requires Emitted(e, CallMemoryLoad(e.nextVal, size, vars[a], out, exc), e1) && e1.nextVal > e.nextVal
    requires Sound(e2) && Later(e1, e2) && ErrnoCorrect(e1, e2, e.nextVal, exc)
    requires LoadedCode(e2, e3, e', size, signed, out, v) && Later(e2, e')
    ensures OpCorrect(e, e', Load(size, signed, a), vars, [v])
  {
    hide Reaches, HaltsWith, Extend, Read;
    forall g: Graph, fr: Frame, env: seq<u64>, core: Core |
      Sim(e, vars, env, core, fr) && Grows(e'.graph, g)
      ensures BodyOutcome(g, e, fr, e', [v], RunOp(Load(size, signed, a), env, core))
    {
      GrowsTransitive(e2.graph, e'.graph, g);
      GrowsTransitive(e1.graph, e2.graph, g);
      LoadCallRuns(e, e1, size, vars[a], out, exc, g, fr);
      var fr1 := AfterLoad(fr, e.nextVal, size, env[a], out, exc);
      CallOutcome(g, e, fr, e1, fr1, e2, core, core, e.nextVal, exc);
      if Read(core.mem, env[a], size).Some? {
        LoadedOutcome(g, e, fr, e1, fr1, e2, e3, e', size, signed, out, v, core);
      }
    }
  }

  lemma LoadedOutcome(g: Graph, e: Emitter, fr: Frame, e1: Emitter, fr1: Frame, e2: Emitter, e3: Emitter, e': Emitter,
                      size: Size, signed: bool, out: Slot, v: Value, core: Core)
    requires Sound(e) && Sound(e1) && LoadedCode(e2, e3, e', size, signed, out, v) && Grows(e'.graph, g)
    requires e'.dyn == e.dyn && e.nextVal < e1.nextVal <= e2.nextVal
    requires Goes(g, e, fr, e1, fr1) && Goes(g, e1, fr1, e2, fr1) && out in fr1.slots
    requires e.dyn.pcVal in fr.env && PcOf(e.dyn, fr.env) == core.pc
    requires fr1.core.(pc := core.pc) == core && fr1.result == None
    ensures exists fr': Frame ::
        Goes(g, e, fr, e', fr') && Sim(e', [v], [Extend(size, signed, fr1.slots[out])], core, fr')
  {
    hide Reaches, HaltsWith, Extend, Grows;
    var d := e2.nextVal;
    var x := Extend(size, signed, fr1.slots[out]);
    var fr' := if size.Double? then fr1.Def(d, x) else fr1.Def(d, fr1.slots[out]).Def(d + 1, x);
    LoadedRuns(g, e2, fr1, e3, e', size, signed, out, d);
    GoesTransitive(g, e, fr, e1, fr1, e2, fr1);
    assert Goes(g, e2, fr1, e', fr');
    GoesTransitive(g, e, fr, e2, fr1, e', fr');
    assert Sim(e', [v], [x], core, fr');
  }

  /** The value in the width in which it is stored. */
  ghost predicate NarrowCorrect(e: Emitter, e': Emitter, size: Size, v: Value, v': Value)
    requires Open(e) && Open(e')
  {
    forall g: Graph, fr: Frame {:trigger Here(e, fr), Grows(e'.graph, g)} ::
      Grows(e'.graph, g) && v in fr.env ==>
        exists fr': Frame ::
          && Goes(g, e, fr, e', fr') && fr' == fr.(env := fr'.env)
          && v' in fr'.env && fr'.env[v'] == Truncate(size, fr.env[v])
  }

  lemma NarrowReduces(e: Emitter, e': Emitter, size: Size, v: Value, v': Value)
    requires Open(e) && v' == e.nextVal && Emitted(e, ReduceTo(v', size, v), e')
    ensures Open(e') && NarrowCorrect(e, e', size, v, v')
  {
    forall g: Graph, fr: Frame | Grows(e'.graph, g) && v in fr.env
      ensures exists fr': Frame ::
          && Goes(g, e, fr, e', fr') && fr' == fr.(env := fr'.env)
          && v' in fr'.env && fr'.env[v'] == Truncate(size, fr.env[v])
    {
      EmittedRuns(e, ReduceTo(v', size, v), e', g, fr);
      assert Goes(g, e, fr, e', fr.Def(v', Truncate(size, fr.env[v])));
    }
  }

  lemma NarrowWhole(e: Emitter, e': Emitter, v: Value)
    requires Open(e) && e'.graph == e.graph && e'.cur == e.cur
    ensures NarrowCorrect(e, e', Double, v, v)
  {
    hide Truncate, Reaches;
    forall g: Graph, fr: Frame | Grows(e.graph, g) && v in fr.env
      ensures exists fr': Frame ::
          && Goes(g, e, fr, e', fr') && fr' == fr.(env := fr'.env)
          && v in fr'.env && fr'.env[v] == Truncate(Double, fr.env[v])
    {
      DoubleIsWhole(fr.env[v], false);
      ReachesSelf(g, Here(e, fr));
      assert Goes(g, e, fr, e', fr);
    }
  }

  lemma StoreOpCorrect(e: Emitter, e1: Emitter, e2: Emitter, e': Emitter,
                       size: Size, a: Var, v: Var, vars: seq<Value>, narrowed: Value, exc: Slot)
    requires Sound(e) && Sound(e1) && Sound(e2) && Sound(e') && a < |vars| && v < |vars|
    requires e1.dyn == e2.dyn == e'.dyn == e.dyn && Later(e, e1)
    requires NarrowCorrect(e, e1, size, vars[v], narrowed)
    requires Emitted(e1, CallMemoryStore(e1.nextVal, size, vars[a], narrowed, exc), e2) && e2.nextVal > e1.nextVal
    requires Later(e2, e') && ErrnoCorrect(e2, e', e1.nextVal, exc)
    ensures OpCorrect(e, e', Store(size, a, v), vars, [])
  {
    forall g: Graph, fr: Frame, env: seq<u64>, core: Core |
      Sim(e, vars, env, core, fr) && Grows(e'.graph, g)
      ensures BodyOutcome(g, e, fr, e', [], RunOp(Store(size, a, v), env, core))
    {
      GrowsTransitive(e2.graph, e'.graph, g);
      GrowsTransitive(e1.graph, e2.graph, g);
      StoreOutcome(g, e, fr, e1, e2, e', size, a, v, vars, narrowed, exc, env, core);
    }
  }

  /** The frame after the call that stores to memory. */
  function AfterStore(fr: Frame, errno: Value, size: Size, address: u64, v: u64, exc: Slot): Frame {
    match Write(fr.core.mem, address, size, v)
    case Some(m) => fr.(core := fr.core.(mem := m)).Def(errno, 0)
    case None => fr.(excs := fr.excs[exc := StoreAMOAccessFault(address)]).Def(errno, 1)
  }

  lemma StoreCallRuns(e: Emitter, e1: Emitter, size: Size, address: Value, a: Value, exc: Slot, g: Graph, fr: Frame)
    requires Sound(e) && Open(e1) && Emitted(e, CallMemoryStore(e.nextVal, size, address, a, exc), e1)
    requires Grows(e1.graph, g) && address in fr.env && a in fr.env
    ensures Goes(g, e, fr, e1, AfterStore(fr, e.nextVal, size, fr.env[address], fr.env[a], exc))
  {
    EmittedRuns(e, CallMemoryStore(e.nextVal, size, address, a, exc), e1, g, fr);
  }

  lemma NarrowGoes(e: Emitter, e1: Emitter, size: Size, v: Value, v': Value, g: Graph, fr: Frame) returns (fr1: Frame)
    requires Open(e) && Open(e1) && NarrowCorrect(e, e1, size, v, v') && Grows(e1.graph, g) && v in fr.env
    ensures Goes(g, e, fr, e1, fr1) && fr1 == fr.(env := fr1.env)
    ensures v' in fr1.env && fr1.env[v'] == Truncate(size, fr.env[v])
  {
    assert Here(e, fr).At?;
    fr1 :| Goes(g, e, fr, e1, fr1) && fr1 == fr.(env := fr1.env)
           && v' in fr1.env && fr1.env[v'] == Truncate(size, fr.env[v]);
  }

  lemma StoreOutcome(g: Graph, e: Emitter, fr: Frame, e1: Emitter, e2: Emitter, e': Emitter,
                     size: Size, a: Var, v: Var, vars: seq<Value>, narrowed: Value, exc: Slot, env: seq<u64>,
                     core: Core)
    requires Sound(e) && Sound(e1) && Sound(e2) && Sound(e') && a < |vars| && v < |vars|
    requires e1.dyn == e2.dyn == e'.dyn == e.dyn && e.nextVal <= e1.nextVal < e2.nextVal <= e'.nextVal
    requires NarrowCorrect(e, e1, size, vars[v], narrowed)
    requires Emitted(e1, CallMemoryStore(e1.nextVal, size, vars[a], narrowed, exc), e2)
    requires ErrnoCorrect(e2, e', e1.nextVal, exc)
    requires Grows(e1.graph, g) && Grows(e2.graph, g) && Grows(e'.graph, g)
    requires Sim(e, vars, env, core, fr)
    ensures BodyOutcome(g, e, fr, e', [], RunOp(Store(size, a, v), env, core))
  {
    var fr1 := NarrowGoes(e, e1, size, vars[v], narrowed, g, fr);
    StoreCallRuns(e1, e2, size, vars[a], narrowed, exc, g, fr1);
    StoredOutcome(g, e, fr, e1, fr1, e2, e', size, env[a], Truncate(size, env[v]), exc, core);
    var r := RunOp(Store(size, a, v), env, core);
    match Write(core.mem, env[a], size, Truncate(size, env[v]))
    case Some(m) => assert r == Yielded([], core.(mem := m));
    case None => assert r == Raised(StoreAMOAccessFault(env[a]), core);
  }

  lemma StoredOutcome(g: Graph, e: Emitter, fr: Frame, e1: Emitter, fr1: Frame, e2: Emitter, e': Emitter,
                      size: Size, address: u64, v: u64, exc: Slot, core: Core)
    requires Sound(e) && Sound(e1) && Sound(e2) && Sound(e')
    requires e1.dyn == e2.dyn == e'.dyn == e.dyn && e.nextVal <= e1.nextVal < e2.nextVal <= e'.nextVal
    requires ErrnoCorrect(e2, e', e1.nextVal, exc) && Grows(e'.graph, g)
    requires Goes(g, e, fr, e1, fr1) && Goes(g, e1, fr1, e2, AfterStore(fr1, e1.nextVal, size, address, v, exc))
    requires e.dyn.pcVal in fr.env && PcOf(e.dyn, fr.env) == core.pc
    requires fr1.core.(pc := core.pc) == core && fr1.result == None
    ensures match Write(core.mem, address, size, v)
            case Some(m) => exists fr': Frame :: Goes(g, e, fr, e', fr') && Sim(e', [], [], core.(mem := m), fr')
            case None => Traps(g, Here(e, fr), e.dyn.steps, core.pc, StoreAMOAccessFault(address), core)
  {
    var fr2 := AfterStore(fr1, e1.nextVal, size, address, v, exc);
    GoesTransitive(g, e, fr, e1, fr1, e2, fr2);
    var core' := match Write(core.mem, address, size, v)
                 case Some(m) => core.(mem := m)
                 case None => core;
    assert fr2.core.(pc := core.pc) == core';
    CallOutcome(g, e, fr, e2, fr2, e', core, core', e1.nextVal, exc);
    if fr2.env[e1.nextVal] == 0 {
      GoesTransitive(g, e, fr, e2, fr2, e', fr2);
      assert Sim(e', [], [], core', fr2);
    }
  }
}
