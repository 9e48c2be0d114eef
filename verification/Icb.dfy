/**
 The instruction context: the operations in which every instruction body is written once,
 and their direct interpretation over the core machine state. A body is a term, so that the
 same term can be interpreted here and lowered to control-flow graph code elsewhere.

 Values are numbered in the order in which the operations of a body bind them.
 */
module Icb {
  import opened Words
  import opened Memory
  import opened Machine

  datatype AluOp = Add | Sub | And | Or | Xor | Mul | DivUnsigned | DivSigned
                 | RemUnsigned | RemSigned | ShiftLeftOp | ShiftRightU | ShiftRightS | MinSignedOp

  datatype Predicate = Equal | NotEqual | LessSigned | LessUnsigned | LessEqualSigned
                     | GreaterSigned | GreaterEqualSigned | GreaterEqualUnsigned

  datatype MulHighType = HighSigned | HighUnsigned | HighSignedUnsigned

  type Var = nat

  /** One call into the instruction context. Booleans are the values zero and one. */
  datatype Op =
    | Imm(w: Width, imm: int)
    | Alu(w: Width, f: AluOp, a: Var, b: Var)
    | Negate(w: Width, a: Var)
    | Compare(w: Width, p: Predicate, a: Var, b: Var)
    | BoolAnd(a: Var, b: Var)
    | Narrow(a: Var)
    | ExtendSigned(a: Var)
    | ValueFromBool(a: Var)
    | MulHigh(t: MulHighType, a: Var, b: Var)
    | XRegRead(r: Reg)
    | XRegWrite(r: Reg, a: Var)
    | PcRead
    | ReservationRead
    | ReservationWrite(a: Var)
    | AtomicGuard(size: Size, a: Var, reset: bool)
    | Load(size: Size, signed: bool, a: Var)
    | Store(size: Size, a: Var, v: Var)

  /** A body: operations and branch-and-merge, ending with the values it yields. */
  datatype Body =
    | Let(op: Op, k: Body)
    | Merge(cond: Var, onTrue: Body, onFalse: Body, phis: nat, k: Body)
    | Yield(outs: seq<Var>)

  /** How an instruction ends; `SetPc` and `BranchIf` use the one value the body yields. */
  datatype Tail =
    | NextPc(width: InstrWidth)
    | SetPc
    | BranchIf(offset: int, width: InstrWidth)
    | Illegal
    | ECall

  datatype Routine = Routine(body: Body, tail: Tail)

  // ----- scoping -----

  /** How many values an operation binds. */
  function Binds(o: Op): nat {
    match o
    case XRegWrite(_, _) => 0
    case ReservationWrite(_) => 0
    case AtomicGuard(_, _, _) => 0
    case Store(_, _, _) => 0
    case _ => 1
  }

  predicate OpScoped(o: Op, n: nat) {
    match o
    case Imm(_, _) => true
    case Alu(_, _, a, b) => a < n && b < n
    case Negate(_, a) => a < n
    case Compare(_, _, a, b) => a < n && b < n
    case BoolAnd(a, b) => a < n && b < n
    case Narrow(a) => a < n
    case ExtendSigned(a) => a < n
    case ValueFromBool(a) => a < n
    case MulHigh(_, a, b) => a < n && b < n
    case XRegRead(_) => true
    case XRegWrite(_, a) => a < n
    case PcRead => true
    case ReservationRead => true
    case ReservationWrite(a) => a < n
    case AtomicGuard(_, a, _) => a < n
    case Load(_, _, a) => a < n
    case Store(_, a, v) => a < n && v < n
  }

  predicate ReadsPc(c: Body) {
    match c
    case Let(o, k) => o.PcRead? || ReadsPc(k)
    case Merge(_, t, f, _, k) => ReadsPc(t) || ReadsPc(f) || ReadsPc(k)
    case Yield(_) => false
  }

  /**
   Every variable is bound before it is used, both arms of a merge yield the same number of
   values, and the false arm of a merge does not read the program counter.
   */
  predicate Scoped(c: Body, n: nat, outs: nat) {
    match c
    case Let(o, k) => OpScoped(o, n) && Scoped(k, n + Binds(o), outs)
    case Merge(cond, t, f, phis, k) =>
      && cond < n
      && Scoped(t, n, phis)
      && Scoped(f, n, phis)
      && !ReadsPc(f)
      && Scoped(k, n + phis, outs)
    case Yield(vs) => |vs| == outs && forall i :: 0 <= i < |vs| ==> vs[i] < n
  }

  function TailOuts(t: Tail): nat { if t.SetPc? || t.BranchIf? then 1 else 0 }

  predicate WellFormed(r: Routine) { Scoped(r.body, 0, TailOuts(r.tail)) }

  // ----- direct interpretation -----

  /** Value operations; `None` is a panic (division by zero, or overflow in a signed division). */
  function AluValue(w: Width, f: AluOp, x: u64, y: u64): Option<u64> {
    var ux, uy, sx, sy := Unsigned(w, x), Unsigned(w, y), Signed(w, x), Signed(w, y);
    match f
    case Add => Some(Wrap(w, x + y))
    case Sub => Some(Wrap(w, x - y))
    case And => Some(Bits(w, BitAnd, x, y))
    case Or => Some(Bits(w, BitOr, x, y))
    case Xor => Some(Bits(w, BitXor, x, y))
    case Mul => Some(Wrap(w, x * y))
    case DivUnsigned => if uy == 0 then None else Some(Wrap(w, ux / uy))
    case DivSigned =>
      if sy == 0 || (sx == MinSigned(w) && sy == -1) then None else Some(Wrap(w, TruncDiv(sx, sy)))
    case RemUnsigned => if uy == 0 then None else Some(Wrap(w, ux % uy))
    case RemSigned => if sy == 0 then None else Some(Wrap(w, TruncRem(sx, sy)))
    case ShiftLeftOp => Some(ShiftLeft(w, x, y))
    case ShiftRightU => Some(ShiftRightUnsigned(w, x, y))
    case ShiftRightS => Some(ShiftRightSigned(w, x, y))
    case MinSignedOp => Some(if sx <= sy then x else y)
  }

  function NegateValue(w: Width, x: int): u64 { Wrap(w, -x) }

  predicate Holds(w: Width, p: Predicate, x: u64, y: u64) {
    var ux, uy, sx, sy := Unsigned(w, x), Unsigned(w, y), Signed(w, x), Signed(w, y);
    match p
    case Equal => ux == uy
    case NotEqual => ux != uy
    case LessSigned => sx < sy
    case LessUnsigned => ux < uy
    case LessEqualSigned => sx <= sy
    case GreaterSigned => sx > sy
    case GreaterEqualSigned => sx >= sy
    case GreaterEqualUnsigned => ux >= uy
  }

  /** `as u128` of a sign- or zero-extended operand. */
  function Widen(signed: bool, x: u64): int { (if signed then S64(x) else x) % TWO128 }

  /** High half of the wrapping 128-bit product of the extended operands. */
  function MulHighValue(t: MulHighType, x: u64, y: u64): u64 {
    var lhs := Widen(!t.HighUnsigned?, x);
    var rhs := Widen(t.HighSigned?, y);
    ((lhs * rhs) % TWO128) / TWO64
  }

  /** Outcome of running code: values and new state, an exception, or a panic. */
  datatype BodyResult = Yielded(vals: seq<u64>, core: Core) | Raised(exception: Exception, core: Core) | Panicked

  function RunOp(o: Op, env: seq<u64>, core: Core): (r: BodyResult)
    requires OpScoped(o, |env|)
    ensures r.Yielded? ==> |r.vals| == Binds(o)
  {
    match o
    case Imm(w, imm) => Yielded([Wrap(w, imm)], core)
    case Alu(w, f, a, b) =>
      (match AluValue(w, f, env[a], env[b])
       case Some(v) => Yielded([v], core)
       case None => Panicked)
    case Negate(w, a) => Yielded([NegateValue(w, env[a])], core)
    case Compare(w, p, a, b) => Yielded([FromBool(Holds(w, p, env[a], env[b]))], core)
    case BoolAnd(a, b) => Yielded([Bits64(BitAnd, env[a], env[b])], core)
    case Narrow(a) => Yielded([U32(env[a])], core)
    case ExtendSigned(a) => Yielded([U64(S32(env[a]))], core)
    case ValueFromBool(a) => Yielded([env[a]], core)
    case MulHigh(t, a, b) => Yielded([MulHighValue(t, env[a], env[b])], core)
    case XRegRead(r) => Yielded([core.XRead(r)], core)
    case XRegWrite(r, a) => Yielded([], core.XWrite(r, env[a]))
    case PcRead => Yielded([core.pc], core)
    case ReservationRead => Yielded([core.reservation], core)
    case ReservationWrite(a) => Yielded([], core.(reservation := env[a]))
    case AtomicGuard(size, a, reset) =>
      if env[a] % Bytes(size) != 0 then
        Raised(StoreAMOAccessFault(env[a]), if reset then core.(reservation := UNSET) else core)
      else
        Yielded([], core)
    case Load(size, signed, a) =>
      (match Read(core.mem, env[a], size)
       case Some(v) => Yielded([Extend(size, signed, v)], core)
       case None => Raised(LoadAccessFault(env[a]), core))
    case Store(size, a, v) =>
      (match Write(core.mem, env[a], size, Truncate(size, env[v]))
       case Some(m) => Yielded([], core.(mem := m))
       case None => Raised(StoreAMOAccessFault(env[a]), core))
  }

  function Pick(env: seq<u64>, vs: seq<Var>): seq<u64>
    requires forall i :: 0 <= i < |vs| ==> vs[i] < |env|
  {
    seq(|vs|, i requires 0 <= i < |vs| => env[vs[i]])
  }

  function RunBody(c: Body, env: seq<u64>, core: Core, ghost outs: nat): (r: BodyResult)
    requires Scoped(c, |env|, outs)
    ensures r.Yielded? ==> |r.vals| == outs
    decreases c
  {
    match c
    case Let(o, k) =>
      (match RunOp(o, env, core)
       case Yielded(vals, core') => RunBody(k, env + vals, core', outs)
       case Raised(e, core') => Raised(e, core')
       case Panicked => Panicked)
    case Merge(cond, t, f, phis, k) =>
      (match if env[cond] != 0 then RunBody(t, env, core, phis) else RunBody(f, env, core, phis)
       case Yielded(vals, core') => RunBody(k, env + vals, core', outs)
       case Raised(e, core') => Raised(e, core')
       case Panicked => Panicked)
    case Yield(vs) => Yielded(Pick(env, vs), core)
  }

  /** Result of a whole routine. */
  datatype RoutineResult = Finished(result: RunResult, core: Core) | Crashed

  function RunRoutine(r: Routine, core: Core): RoutineResult
    requires WellFormed(r)
  {
    match RunBody(r.body, [], core, TailOuts(r.tail))
    case Panicked => Crashed
    case Raised(e, core') => Finished(Err(e), core')
    case Yielded(vals, core') =>
      match r.tail
      case NextPc(width) => Finished(Ok(Next(width)), core')
      case SetPc => Finished(Ok(Set(vals[0])), core')
      case BranchIf(offset, width) =>
        if vals[0] != 0 then Finished(Ok(Set(U64(core'.pc + offset))), core')
        else Finished(Ok(Next(width)), core')
      case Illegal => Finished(Err(IllegalInstruction), core')
      case ECall => Finished(Err(EnvCall), core')
  }
}
