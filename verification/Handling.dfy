/**
 Step bounds, and runs in which environment exceptions are passed to a handler and then
 carried on with. The handler may change the core in any way and keeps a memory of its own.
 */
module Handling {
  import opened Words
  import opened Machine
  import opened Isa
  import opened Ticking

  const USIZE_MAX: nat := TWO64 - 1

  /** A limit on the number of steps. */
  datatype Bound = Included(n: nat) | Excluded(n: nat) | Unbounded

  function SaturatingSub(a: nat, b: nat): nat { if a < b then 0 else a - b }

  /** Shift the bound towards zero without wrapping. */
  function BoundSub(b: Bound, shift: nat): Bound {
    match b
    case Included(x) => Included(SaturatingSub(x, shift))
    case Excluded(x) => Excluded(SaturatingSub(x, shift))
    case Unbounded => Unbounded
  }

  predicate LessThanBound(num: nat, b: Bound) {
    match b
    case Included(x) => num < x
    case Excluded(x) => num < SaturatingSub(x, 1)
    case Unbounded => true
  }

  /** Turn a bound into a fixed number. */
  function UnwrapBound(b: Bound): nat {
    match b
    case Included(x) => x
    case Excluded(x) => SaturatingSub(x, 1)
    case Unbounded => USIZE_MAX
  }

  /** Whether a number of steps is within the bound. */
  predicate InBound(b: Bound, k: nat) {
    match b
    case Included(x) => k <= x
    case Excluded(x) => k < x
    case Unbounded => true
  }

  /**
   The number that a bound is turned into is the largest within it; a step may be taken exactly
   when the number of steps is within the bound after it; and what is left is what may be added.
   */
  lemma BoundMeans(b: Bound, k: nat)
    ensures !b.Unbounded? && InBound(b, k) ==> InBound(b, UnwrapBound(b)) && k <= UnwrapBound(b)
    ensures b == Excluded(0) ==> UnwrapBound(b) == 0
    ensures LessThanBound(k, b) <==> InBound(b, k + 1)
    ensures InBound(b, k) ==> forall j: nat :: InBound(BoundSub(b, k), j) <==> InBound(b, k + j)
  {
  }

  /** The three operations on bounds fit together; a missing bound is never used up. */
  lemma BoundLaws(b: Bound, k: nat)
    ensures !b.Unbounded? ==> (LessThanBound(k, b) <==> k < UnwrapBound(b))
    ensures !b.Unbounded? ==> UnwrapBound(BoundSub(b, k)) == SaturatingSub(UnwrapBound(b), k)
    ensures !b.Unbounded? && k <= UnwrapBound(b) ==> k + UnwrapBound(BoundSub(b, k)) == UnwrapBound(b)
    ensures b.Unbounded? ==> BoundSub(b, k) == b && LessThanBound(k, b)
    ensures BoundSub(b, k).Unbounded? == b.Unbounded?
  {
  }

  /** The number of ticks of a call: its bound, or as many as show an exception when there is none. */
  ghost predicate Covers(isa: Isa, s: State, b: Bound, n: nat)
    requires Steady(s)
  {
    if b.Unbounded? then Ticks(isa, s, n).error.Some? else n == UnwrapBound(b)
  }

  /** Ticks beyond an exception change nothing. */
  lemma CoversSame(isa: Isa, s: State, b: Bound, n: nat, m: nat)
    requires Steady(s) && Covers(isa, s, b, n) && Covers(isa, s, b, m)
    ensures Ticks(isa, s, n) == Ticks(isa, s, m)
  {
    hide Ticks, Steady;
    if n < m { TicksSplit(isa, s, n, m - n); } else { TicksSplit(isa, s, m, n - m); }
  }

  /** Before the exception there are fewer ticks than it takes to see it. */
  lemma NotYet(isa: Isa, s: State, n: nat, m: nat)
    requires Steady(s) && Ticks(isa, s, n).error == None && Ticks(isa, s, m).error.Some?
    ensures n < m
  {
    hide Ticks, Steady;
    if m <= n { TicksSplit(isa, s, m, n - m); }
  }

  datatype Verdict<E> = Continue | Stop | Fail(error: E)

  datatype HandlerResult<H, E> = HandlerResult(memory: H, core: Core, verdict: Verdict<E>)

  type Handler<!H, E> = (H, Core, EnvironException) -> HandlerResult<H, E>

  /** A run with a handler; the verdict is `Continue` when the steps ran out. */
  datatype Handled<S, H, E> = Handled(state: S, memory: H, steps: nat, verdict: Verdict<E>)

  /** Pass an exception to the handler. */
  function Handle<H, E>(handler: Handler<H, E>, s: State, memory: H, x: EnvironException): Handled<State, H, E> {
    var a := handler(memory, s.core, x);
    Handled(s.(core := a.core), a.memory, 1, a.verdict)
  }

  /** One step: a tick, or a tick that raises an exception and the handling of it. */
  function HandledTick<H, E>(isa: Isa, handler: Handler<H, E>, s: State, memory: H): (r: Handled<State, H, E>)
    requires Steady(s)
    ensures Steady(r.state) && r.steps == 1
  {
    TickSteady(isa, s);
    var t := Tick(isa, s);
    if t.error.Some? then Handle(handler, t.state, memory, t.error.value)
    else Handled(t.state, memory, 1, Continue)
  }

  /** At most `n` steps, one at a time. */
  function HandledTicks<H, E>(isa: Isa, handler: Handler<H, E>, s: State, memory: H, n: nat): (r: Handled<State, H, E>)
    requires Steady(s)
    ensures Steady(r.state) && r.steps <= n && (r.verdict.Continue? ==> r.steps == n)
    decreases n
  {
    if n == 0 then Handled(s, memory, 0, Continue)
    else
      var t := HandledTick(isa, handler, s, memory);
      if !t.verdict.Continue? then t
      else
        var rest := HandledTicks(isa, handler, t.state, t.memory, n - 1);
        rest.(steps := rest.steps + 1)
  }

  function ThenHandled<State, H, E>(a: Handled<State, H, E>, b: Handled<State, H, E>): Handled<State, H, E> {
    if !a.verdict.Continue? then a else b.(steps := a.steps + b.steps)
  }

  /** However the steps are split, and whatever the handler does, the run is the same. */
  lemma {:induction false} HandledSplit<H, E>(isa: Isa, handler: Handler<H, E>, s: State, memory: H, n: nat, m: nat)
    requires Steady(s)
    ensures var a := HandledTicks(isa, handler, s, memory, n);
            HandledTicks(isa, handler, s, memory, n + m)
              == ThenHandled(a, HandledTicks(isa, handler, a.state, a.memory, m))
    decreases n
  {
    hide HandledTick, Steady;
    if n != 0 {
      var t := HandledTick(isa, handler, s, memory);
      if t.verdict.Continue? {
        assert n + m - 1 == (n - 1) + m;
        HandledSplit(isa, handler, t.state, t.memory, n - 1, m);
      }
    }
  }

  /** Up to the first exception, a handled run is a run of ticks; the exception is one more step. */
  lemma {:induction false} HandledBurst<H, E>(isa: Isa, handler: Handler<H, E>, s: State, memory: H, n: nat)
    requires Steady(s)
    ensures var r := Ticks(isa, s, n);
            if r.error == None then HandledTicks(isa, handler, s, memory, n) == Handled(r.state, memory, n, Continue)
            else
              var a := Handle(handler, r.state, memory, r.error.value);
              r.steps + 1 <= n && HandledTicks(isa, handler, s, memory, r.steps + 1) == a.(steps := r.steps + 1)
    decreases n
  {
    hide Tick;
    if n != 0 {
      TickSteady(isa, s);
      var t := Tick(isa, s);
      if t.error == None {
        HandledBurst(isa, handler, t.state, memory, n - 1);
      } else {
        var a := Handle(handler, t.state, memory, t.error.value);
        if a.verdict.Continue? { assert HandledTicks(isa, handler, a.state, a.memory, 0).steps == 0; }
      }
    }
  }

  /** A burst of ticks and the handling of its exception, as part of a longer run. */
  lemma HandledOnwards<H, E>(isa: Isa, handler: Handler<H, E>, s: State, memory: H, n: nat)
    requires Steady(s) && Ticks(isa, s, n).error.Some?
    ensures var r := Ticks(isa, s, n);
            var a := Handle(handler, r.state, memory, r.error.value).(steps := r.steps + 1);
            && r.steps < n
            && HandledTicks(isa, handler, s, memory, n)
               == ThenHandled(a, HandledTicks(isa, handler, a.state, a.memory, n - a.steps))
  {
    hide Tick, Steady, HandledTicks;
    var r := Ticks(isa, s, n);
    HandledBurst(isa, handler, s, memory, n);
    HandledSplit(isa, handler, s, memory, r.steps + 1, n - (r.steps + 1));
  }

  /** A run has got part of the way, with some of its steps left. */
  ghost predicate Reached<H, E>(isa: Isa, handler: Handler<H, E>, whole: Handled<State, H, E>, r: Handled<State, H, E>,
                                left: nat)
    requires Steady(r.state)
  {
    r.verdict.Continue? && whole == ThenHandled(r, HandledTicks(isa, handler, r.state, r.memory, left))
  }

  lemma ReachedStart<H, E>(isa: Isa, handler: Handler<H, E>, s: State, memory: H, n: nat)
    requires Steady(s)
    ensures Reached(isa, handler, HandledTicks(isa, handler, s, memory, n), Handled(s, memory, 0, Continue), n)
  {
    hide HandledTicks, Steady;
  }

  lemma ReachedRaises<H, E>(isa: Isa, handler: Handler<H, E>, whole: Handled<State, H, E>, r: Handled<State, H, E>,
                            left: nat)
    requires Steady(r.state) && Reached(isa, handler, whole, r, left) && !whole.verdict.Continue?
    ensures Ticks(isa, r.state, left).error.Some?
  {
    hide Ticks, HandledTicks, Steady;
    StoppedRaises(isa, handler, r.state, r.memory, left);
  }

  /** The run ends here when a burst of ticks uses up the steps. */
  lemma ReachedEnd<H, E>(isa: Isa, handler: Handler<H, E>, whole: Handled<State, H, E>, r: Handled<State, H, E>,
                         left: nat)
    requires Steady(r.state) && Reached(isa, handler, whole, r, left) && Ticks(isa, r.state, left).error == None
    ensures var t := Ticks(isa, r.state, left); whole == Handled(t.state, r.memory, r.steps + left, Continue)
  {
    hide Ticks, HandledTicks, Steady;
    HandledBurst(isa, handler, r.state, r.memory, left);
  }

  /** A burst that raises an exception, and the handling of it, get the run further. */
  lemma ReachedOn<H, E>(isa: Isa, handler: Handler<H, E>, whole: Handled<State, H, E>, r: Handled<State, H, E>,
                        left: nat)
    requires Steady(r.state) && Reached(isa, handler, whole, r, left) && Ticks(isa, r.state, left).error.Some?
    ensures var t := Ticks(isa, r.state, left);
            var a := Handle(handler, t.state, r.memory, t.error.value);
            var r' := a.(steps := r.steps + t.steps + 1);
            && t.steps < left && Steady(r'.state)
            && if r'.verdict.Continue? then Reached(isa, handler, whole, r', left - (t.steps + 1)) else whole == r'
  {
    hide Ticks, HandledTicks;
    HandledOnwards(isa, handler, r.state, r.memory, left);
  }

  /** A run that the handler stops raises an exception on the way. */
  lemma StoppedRaises<H, E>(isa: Isa, handler: Handler<H, E>, s: State, memory: H, n: nat)
    requires Steady(s) && !HandledTicks(isa, handler, s, memory, n).verdict.Continue?
    ensures Ticks(isa, s, n).error.Some?
  {
    hide Ticks, HandledTicks, Steady;
    HandledBurst(isa, handler, s, memory, n);
  }

  /** The number of steps of a handled call: its bound, or as many as the handler lets pass when there is none. */
  ghost predicate CoversHandled<H, E>(isa: Isa, handler: Handler<H, E>, s: State, memory: H, b: Bound, n: nat)
    requires Steady(s)
  {
    if b.Unbounded? then !HandledTicks(isa, handler, s, memory, n).verdict.Continue? else n == UnwrapBound(b)
  }

  lemma CoversHandledSame<H, E>(isa: Isa, handler: Handler<H, E>, s: State, memory: H, b: Bound, n: nat, m: nat)
    requires Steady(s) && CoversHandled(isa, handler, s, memory, b, n) && CoversHandled(isa, handler, s, memory, b, m)
    ensures HandledTicks(isa, handler, s, memory, n) == HandledTicks(isa, handler, s, memory, m)
  {
    hide HandledTicks, Steady;
    if n < m {
      HandledSplit(isa, handler, s, memory, n, m - n);
    } else {
      HandledSplit(isa, handler, s, memory, m, n - m);
    }
  }

  // ----- the plain machine with a handler -----

  function PlainHandledStep<H, E>(isa: Isa, handler: Handler<H, E>, core: Core, memory: H): Handled<Core, H, E> {
    var t := PlainStep(isa, core);
    if t.error == None then Handled(t.core, memory, 1, Continue)
    else
      var a := handler(memory, t.core, t.error.value);
      Handled(a.core, a.memory, 1, a.verdict)
  }

  /** At most `n` steps of the plain machine, exceptions being handled. */
  function PlainHandled<H, E>(isa: Isa, handler: Handler<H, E>, core: Core, memory: H, n: nat): Handled<Core, H, E>
    decreases n
  {
    if n == 0 then Handled(core, memory, 0, Continue)
    else
      var t := PlainHandledStep(isa, handler, core, memory);
      if !t.verdict.Continue? then t
      else
        var rest := PlainHandled(isa, handler, t.state, t.memory, n - 1);
        rest.(steps := rest.steps + 1)
  }

  ghost predicate CoversPlain<H, E>(isa: Isa, handler: Handler<H, E>, core: Core, memory: H, b: Bound, n: nat) {
    if b.Unbounded? then !PlainHandled(isa, handler, core, memory, n).verdict.Continue? else n == UnwrapBound(b)
  }

  // ----- sequences of calls -----

  function Sum(budgets: seq<nat>): nat { if budgets == [] then 0 else budgets[0] + Sum(budgets[1..]) }

  /** One call after the other, each with its own number of steps, until the handler stops the run. */
  function Calls<H, E>(isa: Isa, handler: Handler<H, E>, s: State, memory: H, budgets: seq<nat>): Handled<State, H, E>
    requires Steady(s)
    decreases |budgets|
  {
    if budgets == [] then Handled(s, memory, 0, Continue)
    else
      var a := HandledTicks(isa, handler, s, memory, budgets[0]);
      ThenHandled(a, Calls(isa, handler, a.state, a.memory, budgets[1..]))
  }

  /** Only the sum of the budgets matters. */
  lemma {:induction false} CallsSum<H, E>(isa: Isa, handler: Handler<H, E>, s: State, memory: H, budgets: seq<nat>)
    requires Steady(s)
    ensures Calls(isa, handler, s, memory, budgets) == HandledTicks(isa, handler, s, memory, Sum(budgets))
    decreases |budgets|
  {
    hide Steady, HandledTick;
    if budgets != [] {
      var a := HandledTicks(isa, handler, s, memory, budgets[0]);
      CallsSum(isa, handler, a.state, a.memory, budgets[1..]);
      HandledSplit(isa, handler, s, memory, budgets[0], Sum(budgets[1..]));
    }
  }
}
