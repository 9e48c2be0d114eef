/**
 The control-flow graph code that instructions are lowered to: numbered values, blocks with
 parameters, explicit branches, and calls back into the machine state. Stack slots carry the
 out-parameters of those calls and hold nothing until a call has written them.

 Execution is a small-step machine. Reading a value or a slot that was never written,
 dividing illegally, or running past an unfinished block is a trap.
 */
module Ir {
  import opened Words
  import opened Memory
  import opened Machine

  type Value = nat
  type Slot = nat
  type BlockId = nat

  datatype BinOp = Iadd | Isub | Band | Bor | Bxor | Imul | Udiv | Sdiv | Urem | Srem | Ishl | Ushr | Sshr | Smin

  datatype IntCC = Eq | Ne | Slt | Ult | Sle | Sgt | Sge | Uge

  datatype Inst =
    | Iconst(d: Value, c: u64)
    | IaddImm(d: Value, a: Value, imm: int)
    | Binary(d: Value, op: BinOp, ty: Width, a: Value, b: Value)
    | Ineg(d: Value, ty: Width, a: Value)
    | Icmp(d: Value, cc: IntCC, ty: Width, a: Value, b: Value)
    | Ireduce(d: Value, a: Value)
    | Sextend(d: Value, a: Value)
    | UextendBool(d: Value, a: Value)
    | MulSplitHigh(d: Value, signedA: bool, signedB: bool, a: Value, b: Value)
    | CallXRegRead(d: Value, r: Reg)
    | CallXRegWrite(r: Reg, a: Value)
    | CallReservationRead(d: Value)
    | CallReservationWrite(a: Value)
    | ReduceTo(d: Value, size: Size, a: Value)
    | CallMemoryStore(errno: Value, size: Size, addr: Value, a: Value, exc: Slot)
    | CallMemoryLoad(errno: Value, size: Size, addr: Value, out: Slot, exc: Slot)
    | StackLoad(d: Value, slot: Slot)
    | ExtendFrom(d: Value, size: Size, signed: bool, a: Value)
    | CallRaiseIllegal(exc: Slot)
    | CallRaiseAmoFault(exc: Slot, addr: Value)
    | CallEcall(exc: Slot)
    | CallHandleException(handled: Value, newPc: Value, exc: Slot, pc: Value)
    | CallPcWrite(a: Value)

  datatype Terminator =
    | Jump(target: BlockId, args: seq<Value>)
    | Brif(cond: Value, onTrue: BlockId, onFalse: BlockId)
    | Return(v: Value)

  datatype Block = Block(params: seq<Value>, insts: seq<Inst>, term: Option<Terminator>)

  type Graph = seq<Block>

  /** Everything a running function can see. */
  datatype Frame = Frame(
    env: map<Value, u64>,
    slots: map<Slot, u64>,
    excs: map<Slot, Exception>,
    core: Core,
    result: Option<EnvironException>)
  {
    function Def(d: Value, v: u64): Frame { this.(env := env[d := v]) }
  }

  datatype Config = At(block: BlockId, index: nat, frame: Frame) | Halted(steps: u64, frame: Frame) | Trapped

  /** Integer instructions of the given type; `None` is a trap. */
  function BinaryValue(op: BinOp, ty: Width, x: u64, y: u64): Option<u64> {
    match op
    case Iadd => Some(Wrap(ty, x + y))
    case Isub => Some(Wrap(ty, x - y))
    case Band => Some(Bits(ty, BitAnd, x, y))
    case Bor => Some(Bits(ty, BitOr, x, y))
    case Bxor => Some(Bits(ty, BitXor, x, y))
    case Imul => Some(Wrap(ty, x * y))
    case Udiv => if Unsigned(ty, y) == 0 then None else Some(Wrap(ty, Unsigned(ty, x) / Unsigned(ty, y)))
    case Urem => if Unsigned(ty, y) == 0 then None else Some(Wrap(ty, Unsigned(ty, x) % Unsigned(ty, y)))
    case Sdiv =>
      if Signed(ty, y) == 0 then None
      else if Signed(ty, x) == MinSigned(ty) && Signed(ty, y) == -1 then None
      else Some(Wrap(ty, TruncDiv(Signed(ty, x), Signed(ty, y))))
    case Srem => if Signed(ty, y) == 0 then None else Some(Wrap(ty, TruncRem(Signed(ty, x), Signed(ty, y))))
    case Ishl => Some(ShiftLeft(ty, x, y))
    case Ushr => Some(ShiftRightUnsigned(ty, x, y))
    case Sshr => Some(ShiftRightSigned(ty, x, y))
    case Smin => Some(if Signed(ty, y) < Signed(ty, x) then y else x)
  }

  predicate IcmpHolds(cc: IntCC, ty: Width, x: u64, y: u64) {
    match cc
    case Eq => Unsigned(ty, x) == Unsigned(ty, y)
    case Ne => Unsigned(ty, x) != Unsigned(ty, y)
    case Slt => Signed(ty, x) < Signed(ty, y)
    case Ult => Unsigned(ty, x) < Unsigned(ty, y)
    case Sle => Signed(ty, x) <= Signed(ty, y)
    case Sgt => Signed(ty, y) < Signed(ty, x)
    case Sge => Signed(ty, y) <= Signed(ty, x)
    case Uge => Unsigned(ty, y) <= Unsigned(ty, x)
  }

  /** A 64-bit operand extended to 128 bits, as an unsigned 128-bit pattern. */
  function To128(signed: bool, x: u64): int {
    if signed && x >= TWO63 then x + (TWO128 - TWO64) else x
  }

  /** `imul` at 128 bits followed by the high half of `isplit`. */
  function SplitHigh(signedA: bool, signedB: bool, x: u64, y: u64): u64 {
    ((To128(signedA, x) * To128(signedB, y)) % TWO128) / TWO64
  }

  function ExecInst(i: Inst, fr: Frame): Option<Frame> {
    match i
    case Iconst(d, c) => Some(fr.Def(d, c))
    case IaddImm(d, a, imm) => if a in fr.env then Some(fr.Def(d, U64(fr.env[a] + imm))) else None
    case Binary(d, op, ty, a, b) =>
      if a in fr.env && b in fr.env then
        match BinaryValue(op, ty, fr.env[a], fr.env[b])
        case Some(v) => Some(fr.Def(d, v))
        case None => None
      else None
    case Ineg(d, ty, a) => if a in fr.env then Some(fr.Def(d, IrNegate(ty, fr.env[a]))) else None
    case Icmp(d, cc, ty, a, b) =>
      if a in fr.env && b in fr.env then Some(fr.Def(d, FromBool(IcmpHolds(cc, ty, fr.env[a], fr.env[b])))) else None
    case Ireduce(d, a) => if a in fr.env then Some(fr.Def(d, U32(fr.env[a]))) else None
    case Sextend(d, a) => if a in fr.env then Some(fr.Def(d, U64(S32(fr.env[a])))) else None
    case UextendBool(d, a) => if a in fr.env then Some(fr.Def(d, fr.env[a])) else None
    case MulSplitHigh(d, sa, sb, a, b) =>
      if a in fr.env && b in fr.env then Some(fr.Def(d, SplitHigh(sa, sb, fr.env[a], fr.env[b]))) else None
    case CallXRegRead(d, r) => Some(fr.Def(d, fr.core.XRead(r)))
    case CallXRegWrite(r, a) =>
      if a in fr.env then Some(fr.(core := fr.core.XWrite(r, fr.env[a]))) else None
    case CallReservationRead(d) => Some(fr.Def(d, fr.core.reservation))
    case CallReservationWrite(a) =>
      if a in fr.env then Some(fr.(core := fr.core.(reservation := fr.env[a]))) else None
    case ReduceTo(d, size, a) => if a in fr.env then Some(fr.Def(d, Truncate(size, fr.env[a]))) else None
    case CallMemoryStore(errno, size, addr, a, exc) =>
      if addr in fr.env && a in fr.env then
        match Write(fr.core.mem, fr.env[addr], size, fr.env[a])
        case Some(m) => Some(fr.(core := fr.core.(mem := m)).Def(errno, 0))
        case None => Some(fr.(excs := fr.excs[exc := StoreAMOAccessFault(fr.env[addr])]).Def(errno, 1))
      else None
    case CallMemoryLoad(errno, size, addr, out, exc) =>
      if addr in fr.env then
        match Read(fr.core.mem, fr.env[addr], size)
        case Some(v) => Some(fr.(slots := fr.slots[out := v]).Def(errno, 0))
        case None => Some(fr.(excs := fr.excs[exc := LoadAccessFault(fr.env[addr])]).Def(errno, 1))
      else None
    case StackLoad(d, slot) => if slot in fr.slots then Some(fr.Def(d, fr.slots[slot])) else None
    case ExtendFrom(d, size, signed, a) =>
      if a in fr.env then Some(fr.Def(d, Extend(size, signed, fr.env[a]))) else None
    case CallRaiseIllegal(exc) => Some(fr.(excs := fr.excs[exc := IllegalInstruction]))
    case CallRaiseAmoFault(exc, addr) =>
      if addr in fr.env then Some(fr.(excs := fr.excs[exc := StoreAMOAccessFault(fr.env[addr])])) else None
    case CallEcall(exc) => Some(fr.(excs := fr.excs[exc := EnvCall]))
    case CallHandleException(handled, newPc, exc, pc) =>
      if exc in fr.excs && pc in fr.env then
        match AddressOnException(fr.core, fr.excs[exc], fr.env[pc])
        case (core', Some(target)) => Some(fr.(core := core').Def(handled, 1).Def(newPc, target))
        case (core', None) =>
          Some(fr.(core := core', result := ToEnviron(fr.excs[exc])).Def(handled, 0).Def(newPc, fr.env[pc]))
      else None
    case CallPcWrite(a) => if a in fr.env then Some(fr.(core := fr.core.(pc := fr.env[a]))) else None
  }

  function IrNegate(ty: Width, x: int): u64 { Wrap(ty, -x) }

  function BindParams(env: map<Value, u64>, params: seq<Value>, vals: seq<u64>): map<Value, u64>
    requires |params| == |vals|
    decreases |params|
  {
    if params == [] then env else BindParams(env[params[0] := vals[0]], params[1..], vals[1..])
  }

  predicate Defined(env: map<Value, u64>, vs: seq<Value>) {
    forall i :: 0 <= i < |vs| ==> vs[i] in env
  }

  function Lookup(env: map<Value, u64>, vs: seq<Value>): (r: seq<u64>)
    requires Defined(env, vs)
    ensures |r| == |vs|
  {
    seq(|vs|, i requires 0 <= i < |vs| => env[vs[i]])
  }

  /** Enter a block, passing values for its parameters. */
  function Enter(g: Graph, target: BlockId, args: seq<Value>, fr: Frame): Config {
    if target < |g| && |g[target].params| == |args| && Defined(fr.env, args) then
      At(target, 0, fr.(env := BindParams(fr.env, g[target].params, Lookup(fr.env, args))))
    else
      Trapped
  }

  function Terminate(g: Graph, t: Terminator, fr: Frame): Config {
    match t
    case Jump(target, args) => Enter(g, target, args, fr)
    case Brif(cond, onTrue, onFalse) =>
      if cond !in fr.env then Trapped
      else if fr.env[cond] != 0 then Enter(g, onTrue, [], fr)
      else Enter(g, onFalse, [], fr)
    case Return(v) => if v in fr.env then Halted(fr.env[v], fr) else Trapped
  }

  function Step(g: Graph, c: Config): Config {
    match c
    case At(b, i, fr) =>
      if b >= |g| then Trapped
      else if i < |g[b].insts| then
        match ExecInst(g[b].insts[i], fr)
        case Some(fr') => At(b, i + 1, fr')
        case None => Trapped
      else
        (match g[b].term
         case Some(t) => Terminate(g, t, fr)
         case None => Trapped)
    case _ => c
  }

  function Run(g: Graph, c: Config, n: nat): Config
    decreases n
  {
    if n == 0 then c else Run(g, Step(g, c), n - 1)
  }

  /** Execution from one configuration arrives at the other. */
  ghost predicate Reaches(g: Graph, c: Config, d: Config) {
    exists n: nat :: Run(g, c, n) == d
  }

  lemma {:induction false} RunSum(g: Graph, c: Config, n: nat, m: nat)
    ensures Run(g, c, n + m) == Run(g, Run(g, c, n), m)
    decreases n
  {
    if n != 0 { RunSum(g, Step(g, c), n - 1, m); }
  }

  lemma ReachesSelf(g: Graph, c: Config)
    ensures Reaches(g, c, c)
  {
    assert Run(g, c, 0) == c;
  }

  lemma ReachesStep(g: Graph, c: Config)
    ensures Reaches(g, c, Step(g, c))
  {
    assert Run(g, c, 1) == Run(g, Step(g, c), 0);
  }

  lemma ReachesTransitive(g: Graph, a: Config, b: Config, c: Config)
    requires Reaches(g, a, b) && Reaches(g, b, c)
    ensures Reaches(g, a, c)
  {
    var n: nat :| Run(g, a, n) == b;
    var m: nat :| Run(g, b, m) == c;
    RunSum(g, a, n, m);
  }

  lemma {:induction false} FinalStays(g: Graph, c: Config, n: nat)
    requires !c.At?
    ensures Run(g, c, n) == c
  {
    if n != 0 { FinalStays(g, c, n - 1); }
  }

  /** Execution is deterministic: a configuration reaches at most one final configuration. */
  lemma ReachesUnique(g: Graph, c: Config, d: Config, e: Config)
    requires Reaches(g, c, d) && Reaches(g, c, e) && !d.At? && !e.At?
    ensures d == e
  {
    var n: nat :| Run(g, c, n) == d;
    var m: nat :| Run(g, c, m) == e;
    if n <= m {
      RunSum(g, c, n, m - n);
      FinalStays(g, d, m - n);
    } else {
      RunSum(g, c, m, n - m);
      FinalStays(g, e, n - m);
    }
  }
}
