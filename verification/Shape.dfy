/**
 The shape of emitted graphs: blocks are closed in an order in which every branch leads
 forward, and only the end block returns.
 */
module Shape {
  import opened Words
  import opened Ir
  import opened Lowering
  import opened Memory
  import opened OpLowering
  import opened BodyLowering

  function Targets(t: Terminator): set<BlockId> {
    match t
    case Jump(b, _) => {b}
    case Brif(_, x, y) => {x, y}
    case Return(_) => {}
  }

  /** A block leads only to the end block and to blocks other than those in `before`. */
  ghost predicate Leads(e: Emitter, from: BlockId, before: seq<BlockId>) {
    && from < |e.graph| && e.graph[from].term.Some?
    && var t := e.graph[from].term.value;
    && !t.Return? && forall b :: b in Targets(t) ==> b < |e.graph| && (Some(b) == e.end || b !in before)
  }

  /**
   The blocks closed so far, other than the end block, in the order in which they were closed:
   each leads only to blocks closed after it, or not yet closed, or to the end block.
   */
  ghost predicate Neat(e: Emitter, order: seq<BlockId>) {
    && (forall b: BlockId :: b in order <==> Closed(e, b))
    && (forall i, j :: 0 <= i < j < |order| ==> order[i] != order[j])
    && (forall i :: 0 <= i < |order| ==> Leads(e, order[i], order[..i + 1]))
  }

  /** A block other than the end block that has been closed. */
  ghost predicate Closed(e: Emitter, b: BlockId) { b < |e.graph| && Some(b) != e.end && e.graph[b].term.Some? }

  /** The blocks that have yet to be closed. */
  ghost function Opens(e: Emitter): set<BlockId> { set b | 0 <= b < |e.graph| && e.graph[b].term == None }

  /** The current block has been closed, or left for another; no other block is left open. */
  ghost predicate Moves(e: Emitter, e': Emitter) { Opens(e') == Opens(e) - {e.cur} + {e'.cur} }

  /** The current block has been closed; no other block is left open. */
  ghost predicate Ends(e: Emitter, e': Emitter) { Opens(e') == Opens(e) - {e.cur} }

  // ----- composition -----

  lemma MovesAlong(e: Emitter, e1: Emitter, e2: Emitter)
    requires Later(e, e1) && Moves(e, e1) && Moves(e1, e2)
    ensures Moves(e, e2)
  {
    assert e1.cur == e.cur || e1.cur !in Opens(e);
  }

  lemma MovesEnds(e: Emitter, e1: Emitter, e2: Emitter)
    requires Later(e, e1) && Moves(e, e1) && Ends(e1, e2)
    ensures Ends(e, e2)
  {
    assert e1.cur == e.cur || e1.cur !in Opens(e);
  }

  // ----- elementary steps -----

  /** No block was opened or closed. */
  ghost predicate SameTerms(e: Emitter, e': Emitter) {
    && |e'.graph| == |e.graph| && e'.end == e.end
    && forall b :: 0 <= b < |e.graph| ==> e'.graph[b].term == e.graph[b].term
  }

  lemma SameNeat(e: Emitter, e': Emitter, order: seq<BlockId>)
    requires Neat(e, order) && SameTerms(e, e')
    ensures Neat(e', order) && Opens(e') == Opens(e)
    ensures Open(e) && e'.cur == e.cur ==> Moves(e, e')
  {
    forall b: BlockId ensures b in order <==> Closed(e', b) { assert b in order <==> Closed(e, b); }
    forall i | 0 <= i < |order| ensures Leads(e', order[i], order[..i + 1]) {
      assert Leads(e, order[i], order[..i + 1]);
    }
  }

  lemma EmittedNeat(e: Emitter, i: Inst, e': Emitter, order: seq<BlockId>)
    requires Open(e) && Emitted(e, i, e') && Neat(e, order)
    ensures Neat(e', order) && Moves(e, e')
  {
    SameNeat(e, e', order);
  }

  lemma AlignmentNeat(e: Emitter, e1: Emitter, e2: Emitter, e3: Emitter, e4: Emitter, size: Size, address: Value,
                      order: seq<BlockId>)
    requires AlignmentCode(e, e1, e2, e3, e4, size, address) && Neat(e, order)
    ensures Neat(e4, order) && Moves(e, e4)
  {
    hide Neat, Moves;
    assert SameTerms(e, e1) && SameTerms(e1, e2) && SameTerms(e2, e3) && SameTerms(e3, e4);
    SameNeat(e, e4, order);
  }

  /** New blocks are open. */
  lemma MoreNeat(e: Emitter, e': Emitter, order: seq<BlockId>)
    requires Neat(e, order) && |e.graph| <= |e'.graph| && e'.end == e.end
    requires forall b :: 0 <= b < |e.graph| ==> e'.graph[b].term == e.graph[b].term
    requires forall b :: |e.graph| <= b < |e'.graph| ==> e'.graph[b].term == None
    requires e.end.Some? ==> e.end.value < |e.graph|
    ensures Neat(e', order) && forall b: BlockId :: b in Opens(e') <==> b in Opens(e) || |e.graph| <= b < |e'.graph|
  {
    forall b: BlockId ensures b in order <==> Closed(e', b) { assert b in order <==> Closed(e, b); }
    forall i | 0 <= i < |order| ensures Leads(e', order[i], order[..i + 1]) {
      assert order[i] in order;
      assert Leads(e, order[i], order[..i + 1]);
    }
  }

  /** Closing the current block with branches to open blocks or to the end block. */
  lemma CloseNeat(e: Emitter, t: Terminator, order: seq<BlockId>)
    requires Open(e) && EndOk(e) && Neat(e, order) && !t.Return?
    requires forall b :: b in Targets(t) ==>
                           && b != e.cur && b < |e.graph|
                           && (Some(b) == e.end || e.graph[b].term == None)
    ensures Neat(Close(e, t), order + [e.cur]) && Opens(Close(e, t)) == Opens(e) - {e.cur}
  {
    var e', order' := Close(e, t), order + [e.cur];
    assert e.cur !in order;
    forall b: BlockId ensures b in order' <==> Closed(e', b) {
      assert b in order <==> Closed(e, b);
    }
    forall i | 0 <= i < |order'| ensures Leads(e', order'[i], order'[..i + 1]) {
      if i < |order| {
        assert order[i] in order;
        assert Leads(e, order[i], order[..i + 1]);
        assert order'[..i + 1] == order[..i + 1];
      } else {
        assert order'[..i + 1] == order';
      }
    }
  }

  /** An open block becomes the end block. */
  lemma EndNeat(e: Emitter, b: BlockId, e': Emitter, order: seq<BlockId>)
    requires Neat(e, order) && e.end == None && b < |e.graph| && e.graph[b].term == None
    requires e'.end == Some(b) && |e'.graph| == |e.graph| && e'.graph[b].term.Some?
    requires forall i :: 0 <= i < |e.graph| && i != b ==> e'.graph[i] == e.graph[i]
    ensures Neat(e', order) && Opens(e') == Opens(e) - {b}
  {
    forall c: BlockId ensures c in order <==> Closed(e', c) { assert c in order <==> Closed(e, c); }
    forall i | 0 <= i < |order| ensures Leads(e', order[i], order[..i + 1]) {
      assert order[i] in order;
      assert Leads(e, order[i], order[..i + 1]);
    }
  }

  /** The current block has been closed by a jump to the end block, new or not. */
  lemma ExitEnds(e: Emitter, e2: Emitter, e': Emitter)
    requires Later(e, e2) && Moves(e, e2) && Opens(e') == Opens(e2) - {e2.cur}
    ensures Ends(e, e')
  {
    assert e2.cur == e.cur || e2.cur !in Opens(e);
  }

  /** A block that is created only to be closed is not left open. */
  lemma CreatedCloses(e: Emitter, e': Emitter)
    requires Opens(e') == Opens(CreateBlock(e, [])) - {e.cur} - {|e.graph|}
    ensures Opens(e') == Opens(e) - {e.cur}
  {
    var e3 := CreateBlock(e, []);
    assert Opens(e3) == Opens(e) + {|e.graph|} && |e.graph| !in Opens(e);
  }

  // ----- forks and merges -----

  lemma ForkedNeat(e: Emitter, cond: Value, e1: Emitter, order: seq<BlockId>)
    requires Sound(e) && Forked(e, cond, e1) && Neat(e, order)
    ensures Neat(e1, order + [e.cur]) && Opens(e1) == Opens(e) - {e.cur} + {|e.graph|, |e.graph| + 1}
  {
    var e0 := CreateBlock(CreateBlock(e, []), []);
    MoreNeat(e, e0, order);
    var t := Brif(cond, |e.graph|, |e.graph| + 1);
    CloseNeat(e0, t, order);
    SameNeat(Close(e0, t), e1, order + [e.cur]);
    assert Opens(e0) == Opens(e) + {|e.graph|, |e.graph| + 1};
  }

  /** Back in the second block of a fork after the first has been ended. */
  lemma ResumedNeat(e: Emitter, e1: Emitter, e2: Emitter, e': Emitter, order: seq<BlockId>)
    requires Opens(e1) == Opens(e) - {e.cur} + {|e.graph|, |e.graph| + 1} && e1.cur == |e.graph|
    requires Neat(e2, order) && Ends(e1, e2) && e'.graph == e2.graph && e'.end == e2.end && e'.cur == |e.graph| + 1
    ensures Neat(e', order) && Moves(e, e')
  {
    SameNeat(e2, e', order);
    assert |e.graph| !in Opens(e);
  }

  lemma MergingNeat(e: Emitter, cond: Value, phis: nat, e0: Emitter, order: seq<BlockId>)
    requires Sound(e) && Merging(e, cond, phis, e0) && Neat(e, order)
    ensures Neat(e0, order + [e.cur])
    ensures Opens(e0) == Opens(e) - {e.cur} + {|e.graph|, |e.graph| + 1, |e.graph| + 2}
  {
    var c := CreateBlock(CreateBlock(CreateBlock(e, []), []), FreshValues(e.nextVal, phis));
    MoreNeat(e, c, order);
    var t := Brif(cond, |e.graph|, |e.graph| + 1);
    CloseNeat(c, t, order);
    SameNeat(Close(c, t), e0, order + [e.cur]);
    assert Opens(c) == Opens(e) + {|e.graph|, |e.graph| + 1, |e.graph| + 2};
  }

  /** An arm that started in `b` is ended by a jump to a block that was open all along. */
  lemma ArmNeat(b: Emitter, a: Emitter, post: BlockId, vals: seq<Value>, next: BlockId, e': Emitter,
                order: seq<BlockId>)
    requires Sound(a) && Later(b, a) && Moves(b, a) && Neat(a, order)
    requires post in Opens(b) && post != b.cur && ArmClosed(a, post, vals, next, e')
    ensures Neat(e', order + [a.cur]) && Opens(e') == Opens(b) - {b.cur}
  {
    assert post != a.cur && post in Opens(a);
    CloseNeat(a, Jump(post, vals), order);
    SameNeat(Close(a, Jump(post, vals)), e', order + [a.cur]);
    assert a.cur == b.cur || a.cur !in Opens(b);
  }

  /** Both arms of a merge have been ended, and the block where they meet is current. */
  lemma MergedMoves(e: Emitter, e0: Emitter, e1: Emitter, e2: Emitter)
    requires Opens(e0) == Opens(e) - {e.cur} + {|e.graph|, |e.graph| + 1, |e.graph| + 2} && e0.cur == |e.graph|
    requires Opens(e1) == Opens(e0) - {e0.cur} && e1.cur == |e.graph| + 1
    requires Opens(e2) == Opens(e1) - {e1.cur} && e2.cur == |e.graph| + 2
    ensures Moves(e, e2)
  {
    assert |e.graph| !in Opens(e) && |e.graph| + 1 !in Opens(e);
  }

  // ----- whole graphs -----

  /** An ordering of all blocks in which every branch leads forward, to the end block in last place. */
  ghost predicate Ordered(g: Graph, order: seq<BlockId>) {
    && order != [] && |order| == |g|
    && (forall i :: 0 <= i < |order| ==> order[i] < |g| && g[order[i]].term.Some?)
    && (forall i, j :: 0 <= i < j < |order| ==> order[i] != order[j])
    && (forall i :: 0 <= i < |order| - 1 ==> Forward(g, order, i))
    && IsEndBlock(g[order[|order| - 1]])
  }

  ghost predicate Forward(g: Graph, order: seq<BlockId>, i: nat)
    requires i < |order| && order[i] < |g| && g[order[i]].term.Some?
  {
    var t := g[order[i]].term.value;
    !t.Return? && forall b :: b in Targets(t) ==> b in order[i + 1..]
  }

  /** When nothing is left open, the blocks as they were closed, then the end block, are such an ordering. */
  lemma ClosedOrdered(e: Emitter, order: seq<BlockId>)
    requires Neat(e, order) && EndOk(e) && e.end.Some? && Opens(e) == {}
    ensures Ordered(e.graph, order + [e.end.value])
  {
    var all := order + [e.end.value];
    assert e.end.value !in order;
    forall b | 0 <= b < |e.graph| ensures b in all {
      assert b !in Opens(e);
      assert b in order || b == e.end.value;
      assert b in order ==> b in all;
    }
    forall i, j | 0 <= i < j < |all| ensures all[i] != all[j] {
      if j == |order| { assert all[i] == order[i] && order[i] in order; }
    }
    forall i | 0 <= i < |all| ensures all[i] < |e.graph| {
      if i < |order| { assert order[i] in order; }
    }
    AllOnce(all, |e.graph|);
    forall i | 0 <= i < |order| ensures Forward(e.graph, all, i) {
      assert order[i] in order;
      var t := e.graph[order[i]].term.value;
      assert Leads(e, order[i], order[..i + 1]);
      forall b | b in Targets(t) ensures b in all[i + 1..] {
        assert b in all && b !in all[..i + 1] by { assert all[..i + 1] == order[..i + 1]; }
        assert all == all[..i + 1] + all[i + 1..];
      }
    }
  }

  // ----- counting blocks -----

  ghost function Elements(s: seq<nat>): set<nat> { set b | b in s }

  lemma {:induction false} Distinct(s: seq<nat>)
    requires forall i, j :: 0 <= i < j < |s| ==> s[i] != s[j]
    ensures |Elements(s)| == |s|
  {
    if s != [] {
      var n := |s| - 1;
      Distinct(s[..n]);
      assert s == s[..n] + [s[n]];
      assert Elements(s) == Elements(s[..n]) + {s[n]};
      assert s[n] !in Elements(s[..n]);
    }
  }

  lemma SubsetSize(x: set<nat>, y: set<nat>)
    requires x <= y
    ensures |x| <= |y| && (|x| == |y| ==> x == y)
  {
    assert y == x + (y - x);
  }

  /** A sequence without repetition of numbers below `n` holds all of them exactly when it has length `n`. */
  lemma AllOnce(s: seq<nat>, n: nat)
    requires forall i, j :: 0 <= i < j < |s| ==> s[i] != s[j]
    requires forall i :: 0 <= i < |s| ==> s[i] < n
    ensures |s| == n <==> forall b :: 0 <= b < n ==> b in s
  {
    Distinct(s);
    assert Elements(s) <= UpTo(n);
    SubsetSize(Elements(s), UpTo(n));
    if forall b :: 0 <= b < n ==> b in s { assert Elements(s) == UpTo(n); }
    if |s| == n {
      forall b | 0 <= b < n ensures b in s { assert b in Elements(s); }
    }
  }

  // ----- paths -----

  /** A path through the graph along its branches. */
  ghost predicate Path(g: Graph, path: seq<BlockId>) {
    && (forall i :: 0 <= i < |path| ==> path[i] < |g| && g[path[i]].term.Some?)
    && forall i :: 0 <= i < |path| - 1 ==> path[i + 1] in Targets(g[path[i]].term.value)
  }

  ghost function Position(order: seq<BlockId>, b: BlockId): (k: nat)
    requires b in order
    ensures k < |order| && order[k] == b
  {
    var k :| 0 <= k < |order| && order[k] == b; k
  }

  lemma BlockInOrder(g: Graph, order: seq<BlockId>, b: BlockId)
    requires Ordered(g, order) && b < |g|
    ensures b in order
  {
    AllOnce(order, |g|);
  }

  /** One step along a path goes forward in the ordering. */
  lemma StepForward(g: Graph, order: seq<BlockId>, b: BlockId, c: BlockId)
    requires Ordered(g, order) && b < |g| && b in order && c in Targets(g[b].term.value)
    ensures c in order && Position(order, b) < Position(order, c)
  {
    var k := Position(order, b);
    assert Targets(g[order[|order| - 1]].term.value) == {};
    assert Forward(g, order, k);
    var j :| 0 <= j < |order[k + 1..]| && order[k + 1..][j] == c;
    assert order[k + 1 + j] == c;
  }

  /** No path is longer than the number of blocks: the graph has no cycle. */
  lemma {:induction false} PathsBounded(g: Graph, order: seq<BlockId>, path: seq<BlockId>)
    requires Ordered(g, order) && Path(g, path) && path != []
    ensures path[|path| - 1] in order && |path| <= Position(order, path[|path| - 1]) + 1 <= |g|
    decreases |path|
  {
    var n := |path| - 1;
    BlockInOrder(g, order, path[n]);
    if n > 0 {
      assert Path(g, path[..n]);
      PathsBounded(g, order, path[..n]);
      StepForward(g, order, path[n - 1], path[n]);
    }
  }

  /** A path that cannot go on has arrived at the end block. */
  lemma PathsReturn(g: Graph, order: seq<BlockId>, b: BlockId)
    requires Ordered(g, order) && b < |g| && g[b].term.Some? && Targets(g[b].term.value) == {}
    ensures b == order[|order| - 1]
  {
    BlockInOrder(g, order, b);
    var k := Position(order, b);
    forall i | 0 <= i < |order| - 1 ensures Targets(g[order[i]].term.value) != {} {
      assert Forward(g, order, i);
    }
  }
}
