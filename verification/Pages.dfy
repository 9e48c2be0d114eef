/**
 Blocks never cross page boundaries, however they were put together.
 */
module Pages {
  import opened Words
  import opened Memory
  import opened Machine
  import opened Instructions
  import opened BlockCache
  import opened Coherence
  import opened Fences

  /** Each instruction fits on its page, and only the first may be at the start of one. */
  predicate OnePage(addr: u64, instrs: seq<Instruction>)
    decreases |instrs|
  {
    instrs != [] ==>
      && addr % PAGE_SIZE + WidthBytes(instrs[0].width) <= PAGE_SIZE
      && var next := NextAddr(addr, instrs[0]);
      && (instrs[1..] != [] ==> next % PAGE_SIZE != 0)
      && OnePage(next, instrs[1..])
  }

  lemma {:induction false} EndAppend(addr: u64, a: seq<Instruction>, b: seq<Instruction>)
    ensures End(addr, a + b) == End(End(addr, a), b)
    decreases |a|
  {
    hide NextAddr;
    if a == [] {
      assert a + b == b;
    } else {
      assert (a + b)[0] == a[0] && (a + b)[1..] == a[1..] + b;
      EndAppend(NextAddr(addr, a[0]), a[1..], b);
    }
  }

  lemma {:induction false} OnePageAppend(addr: u64, a: seq<Instruction>, b: seq<Instruction>)
    requires OnePage(addr, a) && OnePage(End(addr, a), b)
    requires a != [] && b != [] ==> End(addr, a) % PAGE_SIZE != 0
    ensures OnePage(addr, a + b)
    decreases |a|
  {
    hide NextAddr;
    if a == [] {
      assert a + b == b;
    } else {
      assert (a + b)[0] == a[0] && (a + b)[1..] == a[1..] + b;
      OnePageAppend(NextAddr(addr, a[0]), a[1..], b);
    }
  }

  /** All bytes of the instructions are on the page of the first. */
  lemma {:induction false} AllOnPage(addr: u64, instrs: seq<Instruction>, k: nat)
    requires OnePage(addr, instrs) && k < |instrs|
    ensures var at := End(addr, instrs[..k]);
            at / PAGE_SIZE == addr / PAGE_SIZE == (at + WidthBytes(instrs[k].width) - 1) / PAGE_SIZE
    decreases |instrs|
  {
    SamePage(addr, instrs[0]);
    hide NextAddr;
    if k != 0 {
      assert instrs[..k][1..] == instrs[1..][..k - 1];
      AllOnPage(NextAddr(addr, instrs[0]), instrs[1..], k - 1);
    }
  }

  lemma SamePage(addr: u64, i: Instruction)
    requires addr % PAGE_SIZE + WidthBytes(i.width) <= PAGE_SIZE
    ensures (addr + WidthBytes(i.width) - 1) / PAGE_SIZE == addr / PAGE_SIZE
    ensures NextAddr(addr, i) % PAGE_SIZE != 0 ==> NextAddr(addr, i) / PAGE_SIZE == addr / PAGE_SIZE
  {
  }

  // ----- the cache -----

  ghost predicate Paged(c: Cache) {
    && Bounded(c) && Linked(c)
    && forall k :: 0 <= k < |c.entries| ==> OnePage(c.entries[k].address, c.entries[k].instrs)
  }

  lemma TargetPaged(c: Cache, addr: u64)
    requires Paged(c)
    ensures var t := Target(Aimed(c, addr), addr);
            && OnePage(t.address, t.instrs) && End(t.address, t.instrs) == addr
            && (t.instrs != [] ==> addr % PAGE_SIZE != 0)
  {
  }

  /** Pushing an instruction at an even address keeps every block on one page. */
  lemma PushedPaged(c: Cache, addr: u64, i: Instruction)
    requires Paged(c) && addr % 2 == 0
    ensures Paged(Pushed(c, addr, i, i.width))
  {
    hide SlotOf, Target, OnePage, Added;
    PushedBounded(c, addr, i, i.width);
    if !Straddles(addr, i.width) {
      TargetPaged(c, addr);
      AddedPaged(Aimed(c, addr), addr, i);
    }
  }

  lemma AddedPaged(a: Cache, addr: u64, i: Instruction)
    requires Bounded(a) && addr % 2 == 0 && !Straddles(addr, i.width)
    requires forall k :: 0 <= k < |a.entries| ==> OnePage(a.entries[k].address, a.entries[k].instrs)
    requires var t := Target(a, addr);
             && OnePage(t.address, t.instrs) && End(t.address, t.instrs) == addr
             && (t.instrs != [] ==> addr % PAGE_SIZE != 0)
    ensures var c' := Added(a, addr, i, i.width);
            Linked(c') && forall k :: 0 <= k < |c'.entries| ==> OnePage(c'.entries[k].address, c'.entries[k].instrs)
  {
    hide SlotOf, Target;
    var t := Target(a, addr);
    OnePageOne(addr, i);
    hide OnePage, NextAddr;
    EndAppend(t.address, t.instrs, [i]);
    OnePageAppend(t.address, t.instrs, [i]);
    var x := Extended(a, addr, i, i.width);
    var e := x.At(x.current);
    if Joins(x, e, x.next) {
      OnePageAppend(e.address, e.instrs, x.At(x.next).instrs);
    }
  }

  lemma OnePageOne(addr: u64, i: Instruction)
    requires addr % 2 == 0 && !Straddles(addr, i.width)
    ensures OnePage(addr, [i]) && End(addr, [i]) == U64(addr + WidthBytes(i.width))
  {
    assert [i][1..] == [];
  }

  lemma FencedPaged(c: Cache)
    requires Paged(c)
    ensures Paged(Invalidated(c))
  {
  }

  /** A push as fetching does it: at an even address, with the width of the instruction. */
  predicate Proper(op: CacheOp) { op.Push? ==> op.addr % 2 == 0 && op.width == op.instr.width }

  /** No history of pushes and fences makes a block cross a page. */
  lemma {:induction false} BlocksStayOnPage(t: Tracked, ops: seq<CacheOp>)
    requires |t.cache.entries| == |t.ages| && Paged(t.cache) && forall op :: op in ops ==> Proper(op)
    ensures Paged(DoesAll(t, ops).cache)
    decreases |ops|
  {
    hide OnePage, Linked, SlotOf, Pushed, Invalidated, Does;
    if ops != [] {
      var before := DoesAll(t, ops[..|ops| - 1]).cache;
      BlocksStayOnPage(t, ops[..|ops| - 1]);
      var op := ops[|ops| - 1];
      assert op in ops;
      match op
      case Push(addr, i, w) => PushedPaged(before, addr, i);
      case FenceAll => FencedPaged(before);
    }
  }
}
