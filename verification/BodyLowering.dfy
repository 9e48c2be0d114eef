/**
 Correctness of lowered bodies, put together from the correctness of their parts.
 */
module BodyLowering {
  import opened Words
  import opened Machine
  import opened Icb
  import opened Ir
  import opened Lowering
  import opened OpLowering
  import Execution

  // ----- sequencing -----

  /** Variables in scope before a fragment still stand after it, next to those it binds. */
  lemma ScopeExtends(e: Emitter, vars: seq<Value>, env: seq<u64>, core: Core, fr: Frame,
                     e': Emitter, vals: seq<Value>, vs: seq<u64>, core': Core, fr': Frame)
    requires Sim(e, vars, env, core, fr) && Kept(e.nextVal, fr.env, fr'.env) && e.nextVal <= e'.nextVal
    requires Sim(e', vals, vs, core', fr')
    ensures Sim(e', vars + vals, env + vs, core', fr')
  {
    forall i | 0 <= i < |vars + vals|
      ensures (vars + vals)[i] < e'.nextVal && (vars + vals)[i] in fr'.env && fr'.env[(vars + vals)[i]] == (env + vs)[i]
    {
      if i < |vars| {
        assert vars[i] in fr.env;
      } else {
        assert vals[i - |vars|] in fr'.env;
      }
    }
  }

  /** What follows a fragment that has not yielded is not run. */
  lemma StopsEarly(g: Graph, e: Emitter, fr: Frame, e1: Emitter, e2: Emitter, vals: seq<Value>, vals': seq<Value>,
                   r: BodyResult)
    requires Open(e) && Open(e1) && Open(e2) && !r.Yielded? && BodyOutcome(g, e, fr, e1, vals, r)
    ensures BodyOutcome(g, e, fr, e2, vals', r)
  {
  }

  /** Running a body after a fragment that has yielded. */
  lemma ContinuesWith(g: Graph, e: Emitter, vars: seq<Value>, env: seq<u64>, core: Core, fr: Frame,
                      e1: Emitter, vals: seq<Value>, vs: seq<u64>, core': Core,
                      k: Body, e2: Emitter, vals': seq<Value>, outs: nat)
    requires Sound(e) && Sound(e1) && Sound(e2) && e.nextVal <= e1.nextVal && e1.dyn.steps == e.dyn.steps
    requires Sim(e, vars, env, core, fr) && BodyOutcome(g, e, fr, e1, vals, Yielded(vs, core')) && |vs| == |vals|
    requires Scoped(k, |vars + vals|, outs) && BodyCorrect(e1, e2, k, vars + vals, vals', outs) && Grows(e2.graph, g)
    ensures BodyOutcome(g, e, fr, e2, vals', RunBody(k, env + vs, core', outs))
  {
    var fr': Frame :| Goes(g, e, fr, e1, fr') && Sim(e1, vals, vs, core', fr');
    ScopeExtends(e, vars, env, core, fr, e1, vals, vs, core', fr');
    assert Sim(e1, vars + vals, env + vs, core', fr');
    match RunBody(k, env + vs, core', outs)
    case Yielded(vs', core'') =>
      var fr'': Frame :| Goes(g, e1, fr', e2, fr'') && Sim(e2, vals', vs', core'', fr'');
      GoesTransitive(g, e, fr, e1, fr', e2, fr'');
    case Raised(x, core'') =>
      TrapsLater(g, Here(e, fr), Here(e1, fr'), e.dyn.steps, core''.pc, x, core'');
    case Panicked =>
      ReachesTransitive(g, Here(e, fr), Here(e1, fr'), Trapped);
  }

  lemma LetRuns(e: Emitter, e1: Emitter, e2: Emitter, o: Op, k: Body, vars: seq<Value>, vals: seq<Value>,
                vals': seq<Value>, outs: nat, g: Graph, fr: Frame, env: seq<u64>, core: Core)
    requires Sound(e) && Sound(e1) && Sound(e2) && Later(e, e1) && Later(e1, e2) && e1.dyn.steps == e.dyn.steps
    requires Scoped(Let(o, k), |vars|, outs) && |vals| == Binds(o) && Sim(e, vars, env, core, fr) && Grows(e2.graph, g)
    requires OpCorrect(e, e1, o, vars, vals) && BodyCorrect(e1, e2, k, vars + vals, vals', outs)
    ensures BodyOutcome(g, e, fr, e2, vals', RunBody(Let(o, k), env, core, outs))
  {
    hide Reaches, HaltsWith, Traps, RunOp, BodyOutcome;
    GrowsTransitive(e1.graph, e2.graph, g);
    var r := RunOp(o, env, core);
    assert BodyOutcome(g, e, fr, e1, vals, r);
    if r.Yielded? {
      ContinuesWith(g, e, vars, env, core, fr, e1, vals, r.vals, r.core, k, e2, vals', outs);
    } else {
      StopsEarly(g, e, fr, e1, e2, vals, vals', r);
    }
  }

  lemma LetCorrect(e: Emitter, e1: Emitter, e2: Emitter, o: Op, k: Body, vars: seq<Value>, vals: seq<Value>,
                   vals': seq<Value>, outs: nat)
    requires Sound(e) && Sound(e1) && Sound(e2) && Later(e, e1) && Later(e1, e2) && e1.dyn.steps == e.dyn.steps
    requires Scoped(Let(o, k), |vars|, outs) && |vals| == Binds(o)
    requires OpCorrect(e, e1, o, vars, vals) && BodyCorrect(e1, e2, k, vars + vals, vals', outs)
    ensures BodyCorrect(e, e2, Let(o, k), vars, vals', outs)
  {
    hide Grows, BodyOutcome, RunOp, OpCorrect, RunBody;
    forall g: Graph, fr: Frame, env: seq<u64>, core: Core |
      Sim(e, vars, env, core, fr) && Grows(e2.graph, g)
      ensures BodyOutcome(g, e, fr, e2, vals', RunBody(Let(o, k), env, core, outs))
    {
      LetRuns(e, e1, e2, o, k, vars, vals, vals', outs, g, fr, env, core);
    }
  }

  lemma YieldCorrect(e: Emitter, vs: seq<Var>, vars: seq<Value>, vals: seq<Value>)
    requires Sound(e) && Scoped(Yield(vs), |vars|, |vs|)
    requires |vals| == |vs| && forall i :: 0 <= i < |vs| ==> vals[i] == vars[vs[i]]
    ensures BodyCorrect(e, e, Yield(vs), vars, vals, |vs|)
  {
    hide Grows, BodyOutcome;
    forall g: Graph, fr: Frame, env: seq<u64>, core: Core |
      Sim(e, vars, env, core, fr) && Grows(e.graph, g)
      ensures BodyOutcome(g, e, fr, e, vals, RunBody(Yield(vs), env, core, |vs|))
    {
      YieldRuns(e, vs, vars, vals, g, fr, env, core);
    }
  }

  lemma YieldRuns(e: Emitter, vs: seq<Var>, vars: seq<Value>, vals: seq<Value>, g: Graph, fr: Frame, env: seq<u64>,
                  core: Core)
    requires Sound(e) && Scoped(Yield(vs), |vars|, |vs|) && Sim(e, vars, env, core, fr)
    requires |vals| == |vs| && forall i :: 0 <= i < |vs| ==> vals[i] == vars[vs[i]]
    ensures Scoped(Yield(vs), |env|, |vs|) && BodyOutcome(g, e, fr, e, vals, RunBody(Yield(vs), env, core, |vs|))
  {
    hide Reaches;
    ReachesSelf(g, Here(e, fr));
    assert Goes(g, e, fr, e, fr) && Sim(e, vals, Pick(env, vs), core, fr);
  }

  // ----- merges -----

  /** Parameters of a merge block: consecutive values. */
  function FreshValues(from: Value, n: nat): (r: seq<Value>)
    ensures |r| == n && forall i :: 0 <= i < n ==> r[i] == from + i
  {
    seq(n, i => from + i)
  }

  /** Binding consecutive parameters gives each its argument and leaves smaller values alone. */
  lemma {:induction false} BindFresh(env: map<Value, u64>, from: Value, params: seq<Value>, vals: seq<u64>)
    requires |params| == |vals| && forall i :: 0 <= i < |params| ==> params[i] == from + i
    ensures var env' := BindParams(env, params, vals);
            && Kept(from, env, env')
            && forall i :: 0 <= i < |params| ==> params[i] in env' && env'[params[i]] == vals[i]
    decreases |params|
  {
    if params != [] {
      var env1 := env[params[0] := vals[0]];
      var env' := BindParams(env1, params[1..], vals[1..]);
      BindFresh(env1, from + 1, params[1..], vals[1..]);
      assert from in env1;
      forall i | 0 <= i < |params| ensures params[i] in env' && env'[params[i]] == vals[i] {
        if i != 0 { assert params[1..][i - 1] in env'; }
      }
    }
  }

  /** The three blocks of a merge have been created and the true block is being filled. */
  ghost predicate Merging(e: Emitter, cond: Value, phis: nat, e0: Emitter)
    requires Open(e)
  {
    var t := |e.graph|;
    && e0.graph == Close(CreateBlock(CreateBlock(CreateBlock(e, []), []), FreshValues(e.nextVal, phis)),
                         Brif(cond, t, t + 1)).graph
    && e0.cur == t && e0.nextVal == e.nextVal + phis && e0.end == e.end && e0.dyn == e.dyn
  }

  lemma MergingLater(e: Emitter, cond: Value, phis: nat, e0: Emitter)
    requires Sound(e) && Merging(e, cond, phis, e0)
    ensures Sound(e0) && Later(e, e0) && |e0.graph| == |e.graph| + 3
    ensures e0.graph[|e.graph|] == Block([], [], None) && e0.graph[|e.graph| + 1] == Block([], [], None)
    ensures e0.graph[|e.graph| + 2] == Block(FreshValues(e.nextVal, phis), [], None)
  {
  }

  /** An arm has been ended by a jump to the merge block, and the next block is being filled. */
  ghost predicate ArmClosed(a: Emitter, post: BlockId, vals: seq<Value>, next: BlockId, e': Emitter)
    requires Open(a)
  {
    e'.graph == Close(a, Jump(post, vals)).graph && e'.cur == next && e'.nextVal == a.nextVal && e'.end == a.end
  }

  /** The construction states of a merge, in order. */
  datatype Stages = Stages(e: Emitter, e0: Emitter, a1: Emitter, e1: Emitter, a2: Emitter, e2: Emitter)

  ghost predicate MergeStages(s: Stages, cond: Value, phis: nat, l1: seq<Value>, l2: seq<Value>) {
    var t := |s.e.graph|;
    && Sound(s.e) && Merging(s.e, cond, phis, s.e0)
    && Sound(s.a1) && Later(s.e0, s.a1) && ArmClosed(s.a1, t + 2, l1, t + 1, s.e1) && s.e1.dyn == s.e.dyn
    && Sound(s.a2) && Later(s.e1, s.a2) && ArmClosed(s.a2, t + 2, l2, t + 2, s.e2) && s.e2.dyn == s.a2.dyn
  }

  lemma FirstArmClosed(s: Stages, cond: Value, phis: nat, l1: seq<Value>)
    requires var t := |s.e.graph|;
             && Sound(s.e) && Merging(s.e, cond, phis, s.e0)
             && Sound(s.a1) && Later(s.e0, s.a1) && ArmClosed(s.a1, t + 2, l1, t + 1, s.e1) && s.e1.dyn == s.e.dyn
    ensures Sound(s.e1) && Grows(s.e0.graph, s.e1.graph) && Grows(s.a1.graph, s.e1.graph)
    ensures var t := |s.e.graph|;
            && |s.e1.graph| >= t + 3 && s.e1.graph[t + 1] == Block([], [], None)
            && s.e1.graph[t + 2] == Block(FreshValues(s.e.nextVal, phis), [], None)
            && forall i :: 0 <= i < t && i != s.e.cur ==> s.e1.graph[i] == s.e.graph[i]
  {
    MergingLater(s.e, cond, phis, s.e0);
    var t := |s.e.graph|;
    assert s.a1.graph[t + 1] == s.e0.graph[t + 1] && s.a1.graph[t + 2] == s.e0.graph[t + 2];
    assert Grows(s.a1.graph, s.e1.graph);
    GrowsTransitive(s.e0.graph, s.a1.graph, s.e1.graph);
    forall i | 0 <= i < t && i != s.e.cur ensures s.e1.graph[i] == s.e.graph[i] {
      assert s.e0.graph[i] == s.e.graph[i];
    }
  }

  lemma MergeLater(s: Stages, cond: Value, phis: nat, l1: seq<Value>, l2: seq<Value>)
    requires MergeStages(s, cond, phis, l1, l2)
    ensures Sound(s.e0) && Sound(s.e1) && Open(s.e2) && EndOk(s.e2) && Later(s.e, s.e2)
    ensures s.e2.graph[|s.e.graph| + 2] == Block(FreshValues(s.e.nextVal, phis), [], None)
    ensures Grows(s.a1.graph, s.e2.graph) && Grows(s.a2.graph, s.e2.graph) && Grows(s.e0.graph, s.e2.graph)
  {
    MergingLater(s.e, cond, phis, s.e0);
    FirstArmClosed(s, cond, phis, l1);
    var t := |s.e.graph|;
    assert s.a2.graph[t + 2] == s.e1.graph[t + 2];
    assert Grows(s.a2.graph, s.e2.graph);
    GrowsTransitive(s.e1.graph, s.a2.graph, s.e2.graph);
    GrowsTransitive(s.a1.graph, s.e1.graph, s.e2.graph);
    GrowsTransitive(s.e0.graph, s.e1.graph, s.e2.graph);
    GrowsTransitive(s.e.graph, s.e0.graph, s.e2.graph);
    forall i | 0 <= i < t && i != s.e.cur ensures s.e2.graph[i] == s.e.graph[i] {
      assert s.e1.graph[i] == s.e.graph[i];
    }
  }

  /** The branch of a merge enters the arm chosen by the condition. */
  lemma MergeBranches(s: Stages, cond: Value, phis: nat, l1: seq<Value>, l2: seq<Value>, g: Graph, fr: Frame)
    requires MergeStages(s, cond, phis, l1, l2) && Grows(s.e2.graph, g) && cond in fr.env
    ensures Open(s.e0) && Open(s.e1)
    ensures Reaches(g, Here(s.e, fr), if fr.env[cond] != 0 then Here(s.e0, fr) else Here(s.e1, fr))
  {
    MergingLater(s.e, cond, phis, s.e0);
    FirstArmClosed(s, cond, phis, l1);
    MergeLater(s, cond, phis, l1, l2);
    var t := |s.e.graph|;
    var c := CreateBlock(CreateBlock(CreateBlock(s.e, []), []), FreshValues(s.e.nextVal, phis));
    GrowsTransitive(s.e0.graph, s.e2.graph, g);
    CloseRuns(c, Brif(cond, t, t + 1), g, fr);
    assert Here(c, fr) == Here(s.e, fr);
    assert BlockGrows(s.e0.graph[t], g[t]) && BlockGrows(s.e0.graph[t + 1], g[t + 1]);
    assert Lookup(fr.env, []) == [];
  }

  /** Leaving an arm passes its values to the parameters of the merge block. */
  lemma ArmJoins(a: Emitter, post: BlockId, vals: seq<Value>, from: Value, vs: seq<u64>, g: Graph, fr: Frame)
    returns (fr': Frame)
    requires Open(a) && Grows(Close(a, Jump(post, vals)).graph, g)
    requires post < |g| && g[post].params == FreshValues(from, |vals|)
    requires |vs| == |vals| && forall i :: 0 <= i < |vals| ==> vals[i] in fr.env && fr.env[vals[i]] == vs[i]
    ensures Reaches(g, Here(a, fr), At(post, 0, fr')) && fr' == fr.(env := fr'.env) && Kept(from, fr.env, fr'.env)
    ensures var params := FreshValues(from, |vals|);
            forall i :: 0 <= i < |vals| ==> params[i] in fr'.env && fr'.env[params[i]] == vs[i]
  {
    CloseRuns(a, Jump(post, vals), g, fr);
    var args := Lookup(fr.env, vals);
    assert args == vs;
    fr' := fr.(env := BindParams(fr.env, g[post].params, args));
    BindFresh(fr.env, from, g[post].params, args);
  }

  lemma ArmYields(s: Stages, b: Emitter, a: Emitter, l: seq<Value>, phis: nat,
                  g: Graph, fr: Frame, fr1: Frame, vs: seq<u64>, core: Core)
    requires Sound(s.e) && Sound(b) && Sound(a) && Sound(s.e2) && s.e.nextVal + phis <= b.nextVal
             && s.e.nextVal + phis <= s.e2.nextVal
    requires s.e2.dyn == s.e.dyn && |l| == phis
    requires s.e2.cur == |s.e.graph| + 2 && s.e2.graph[s.e2.cur] == Block(FreshValues(s.e.nextVal, phis), [], None)
    requires Grows(Close(a, Jump(|s.e.graph| + 2, l)).graph, g) && Grows(s.e2.graph, g)
    requires Reaches(g, Here(s.e, fr), Here(b, fr)) && Goes(g, b, fr, a, fr1) && Sim(a, l, vs, core, fr1)
    requires s.e.dyn.pcVal in fr.env && PcOf(s.e.dyn, fr.env) == core.pc
    ensures exists fr2: Frame :: Goes(g, s.e, fr, s.e2, fr2) && Sim(s.e2, FreshValues(s.e.nextVal, phis), vs, core, fr2)
  {
    var post := |s.e.graph| + 2;
    assert BlockGrows(s.e2.graph[post], g[post]);
    var fr2 := ArmJoins(a, post, l, s.e.nextVal, vs, g, fr1);
    ReachesTransitive(g, Here(s.e, fr), Here(b, fr), Here(a, fr1));
    ReachesTransitive(g, Here(s.e, fr), Here(a, fr1), At(post, 0, fr2));
    assert Goes(g, s.e, fr, s.e2, fr2);
    assert Sim(s.e2, FreshValues(s.e.nextVal, phis), vs, core, fr2);
  }

  /** One arm of a merge, from its first instruction to the start of the merge block. */
  lemma ArmOutcome(s: Stages, b: Emitter, a: Emitter, arm: Body, vars: seq<Value>, l: seq<Value>, phis: nat,
                   g: Graph, fr: Frame, env: seq<u64>, core: Core)
    requires Sound(s.e) && Sound(b) && Sound(a) && Sound(s.e2) && s.e.nextVal + phis <= b.nextVal
             && s.e.nextVal + phis <= s.e2.nextVal
    requires b.dyn == s.e.dyn && s.e2.dyn == s.e.dyn
    requires s.e2.cur == |s.e.graph| + 2 && s.e2.graph[s.e2.cur] == Block(FreshValues(s.e.nextVal, phis), [], None)
    requires Scoped(arm, |vars|, phis) && |l| == phis && BodyCorrect(b, a, arm, vars, l, phis)
    requires Sim(s.e, vars, env, core, fr) && Reaches(g, Here(s.e, fr), Here(b, fr))
    requires Grows(a.graph, g) && Grows(Close(a, Jump(|s.e.graph| + 2, l)).graph, g) && Grows(s.e2.graph, g)
    ensures BodyOutcome(g, s.e, fr, s.e2, FreshValues(s.e.nextVal, phis), RunBody(arm, env, core, phis))
  {
    var post := |s.e.graph| + 2;
    assert Sim(b, vars, env, core, fr);
    match RunBody(arm, env, core, phis)
    case Yielded(vs, core') =>
      Execution.BodyKeeps(arm, env, core, phis);
      var fr1: Frame :| Goes(g, b, fr, a, fr1) && Sim(a, l, vs, core', fr1);
      ArmYields(s, b, a, l, phis, g, fr, fr1, vs, core');
    case Raised(x, core') =>
      TrapsLater(g, Here(s.e, fr), Here(b, fr), s.e.dyn.steps, core'.pc, x, core');
    case Panicked =>
      ReachesTransitive(g, Here(s.e, fr), Here(b, fr), Trapped);
  }


  lemma MergeCorrect(s: Stages, c: Body, vars: seq<Value>, l1: seq<Value>, l2: seq<Value>, e3: Emitter,
                     vals: seq<Value>, outs: nat)
    requires c.Merge? && Scoped(c, |vars|, outs) && MergeStages(s, vars[c.cond], c.phis, l1, l2)
    requires |l1| == |l2| == c.phis && s.e2.dyn == s.e.dyn
    requires Sound(s.e0) && Sound(s.e1) && Sound(s.e2)
    requires BodyCorrect(s.e0, s.a1, c.onTrue, vars, l1, c.phis) && BodyCorrect(s.e1, s.a2, c.onFalse, vars, l2, c.phis)
    requires Sound(e3) && Later(s.e2, e3)
    requires BodyCorrect(s.e2, e3, c.k, vars + FreshValues(s.e.nextVal, c.phis), vals, outs)
    ensures BodyCorrect(s.e, e3, c, vars, vals, outs)
  {
    MergeLater(s, vars[c.cond], c.phis, l1, l2);
    MergingLater(s.e, vars[c.cond], c.phis, s.e0);
    FirstArmClosed(s, vars[c.cond], c.phis, l1);
    forall g: Graph, fr: Frame, env: seq<u64>, core: Core |
      Sim(s.e, vars, env, core, fr) && Grows(e3.graph, g)
      ensures BodyOutcome(g, s.e, fr, e3, vals, RunBody(c, env, core, outs))
    {
      MergeRuns(s, c, vars, l1, l2, e3, vals, outs, g, fr, env, core);
    }
  }

  /** The arm that is taken, up to the merge block. */
  function Arm(c: Body, env: seq<u64>, core: Core): BodyResult
    requires c.Merge? && c.cond < |env| && Scoped(c.onTrue, |env|, c.phis) && Scoped(c.onFalse, |env|, c.phis)
  {
    if env[c.cond] != 0 then RunBody(c.onTrue, env, core, c.phis) else RunBody(c.onFalse, env, core, c.phis)
  }

  lemma ArmsRun(s: Stages, c: Body, vars: seq<Value>, l1: seq<Value>, l2: seq<Value>,
                g: Graph, fr: Frame, env: seq<u64>, core: Core)
    requires c.Merge? && c.cond < |vars| && Scoped(c.onTrue, |vars|, c.phis) && Scoped(c.onFalse, |vars|, c.phis)
    requires MergeStages(s, vars[c.cond], c.phis, l1, l2) && |l1| == |l2| == c.phis && s.e2.dyn == s.e.dyn
    requires Sound(s.e0) && Sound(s.e1) && Sound(s.e2)
    requires BodyCorrect(s.e0, s.a1, c.onTrue, vars, l1, c.phis) && BodyCorrect(s.e1, s.a2, c.onFalse, vars, l2, c.phis)
    requires Sim(s.e, vars, env, core, fr) && Grows(s.e2.graph, g)
    ensures BodyOutcome(g, s.e, fr, s.e2, FreshValues(s.e.nextVal, c.phis), Arm(c, env, core))
  {
    hide Reaches, HaltsWith, Traps, BodyOutcome, BodyCorrect, RunBody, Grows;
    MergeLater(s, vars[c.cond], c.phis, l1, l2);
    GrowsTransitive(s.a1.graph, s.e2.graph, g);
    GrowsTransitive(s.a2.graph, s.e2.graph, g);
    MergeBranches(s, vars[c.cond], c.phis, l1, l2, g, fr);
    if env[c.cond] != 0 {
      GrowsTransitive(s.e1.graph, s.a2.graph, g);
      ArmOutcome(s, s.e0, s.a1, c.onTrue, vars, l1, c.phis, g, fr, env, core);
    } else {
      ArmOutcome(s, s.e1, s.a2, c.onFalse, vars, l2, c.phis, g, fr, env, core);
    }
  }

  lemma MergeRuns(s: Stages, c: Body, vars: seq<Value>, l1: seq<Value>, l2: seq<Value>, e3: Emitter,
                  vals: seq<Value>, outs: nat, g: Graph, fr: Frame, env: seq<u64>, core: Core)
    requires c.Merge? && Scoped(c, |vars|, outs) && MergeStages(s, vars[c.cond], c.phis, l1, l2)
    requires |l1| == |l2| == c.phis && s.e2.dyn == s.e.dyn
    requires Sound(s.e0) && Sound(s.e1) && Sound(s.e2)
    requires BodyCorrect(s.e0, s.a1, c.onTrue, vars, l1, c.phis) && BodyCorrect(s.e1, s.a2, c.onFalse, vars, l2, c.phis)
    requires Sound(e3) && Later(s.e2, e3)
    requires BodyCorrect(s.e2, e3, c.k, vars + FreshValues(s.e.nextVal, c.phis), vals, outs)
    requires Sim(s.e, vars, env, core, fr) && Grows(e3.graph, g)
    ensures BodyOutcome(g, s.e, fr, e3, vals, RunBody(c, env, core, outs))
  {
    hide Reaches, HaltsWith, Traps, BodyOutcome, BodyCorrect, Grows;
    var params := FreshValues(s.e.nextVal, c.phis);
    MergeLater(s, vars[c.cond], c.phis, l1, l2);
    hide MergeStages;
    GrowsTransitive(s.e2.graph, e3.graph, g);
    ArmsRun(s, c, vars, l1, l2, g, fr, env, core);
    var r := Arm(c, env, core);
    if r.Yielded? {
      ContinuesWith(g, s.e, vars, env, core, fr, s.e2, params, r.vals, r.core, c.k, e3, vals, outs);
    } else {
      StopsEarly(g, s.e, fr, s.e2, e3, params, vals, r);
    }
  }
}
