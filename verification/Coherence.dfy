/**
 What keeps the block cache in agreement with memory: every instruction kept is the one that
 fetching at its address gives, and cannot be written to. Pushes, fences and stores keep it so.
 */
module Coherence {
  import opened Words
  import opened Memory
  import opened Machine
  import opened Instructions
  import opened Isa
  import opened BlockCache

  // ----- code laid out from an address -----

  /** Fetching at the address gives this instruction, and it cannot be written to. */
  ghost predicate KeptAt(isa: Isa, m: Mem, addr: u64, i: Instruction) {
    Settled(m, addr) && FetchInstr(isa, m, addr) == Fetched(Cacheable(i), i.width, false)
  }

  function NextAddr(addr: u64, i: Instruction): u64 { U64(addr + WidthBytes(i.width)) }

  /** The address after the last of the instructions. */
  function End(addr: u64, instrs: seq<Instruction>): u64
    decreases |instrs|
  {
    if instrs == [] then addr else End(NextAddr(addr, instrs[0]), instrs[1..])
  }

  /** The instructions are those found in memory from the address on. */
  ghost predicate Coded(isa: Isa, m: Mem, addr: u64, instrs: seq<Instruction>)
    decreases |instrs|
  {
    instrs != [] ==> KeptAt(isa, m, addr, instrs[0]) && Coded(isa, m, NextAddr(addr, instrs[0]), instrs[1..])
  }

  lemma {:induction false} CodedAppend(isa: Isa, m: Mem, addr: u64, a: seq<Instruction>, b: seq<Instruction>)
    requires Coded(isa, m, addr, a) && Coded(isa, m, End(addr, a), b)
    ensures Coded(isa, m, addr, a + b) && End(addr, a + b) == End(End(addr, a), b)
    decreases |a|
  {
    hide KeptAt, NextAddr;
    if a == [] {
      assert a + b == b;
    } else {
      assert (a + b)[0] == a[0];
      CodedAppend(isa, m, NextAddr(addr, a[0]), a[1..], b);
      assert (a + b)[1..] == a[1..] + b;
    }
  }

  lemma {:induction false} CodedAt(isa: Isa, m: Mem, addr: u64, instrs: seq<Instruction>, k: nat)
    requires Coded(isa, m, addr, instrs) && k < |instrs|
    ensures KeptAt(isa, m, End(addr, instrs[..k]), instrs[k])
    ensures End(addr, instrs[..k + 1]) == NextAddr(End(addr, instrs[..k]), instrs[k])
    decreases |instrs|
  {
    if k == 0 {
      assert instrs[..1][1..] == [];
    } else {
      CodedAt(isa, m, NextAddr(addr, instrs[0]), instrs[1..], k - 1);
      assert instrs[..k][1..] == instrs[1..][..k - 1] && instrs[..k + 1][1..] == instrs[1..][..k];
    }
  }

  // ----- stores -----

  lemma KeptStable(isa: Isa, m: Mem, m': Mem, addr: u64, i: Instruction)
    requires KeptAt(isa, m, addr, i) && SameCode(m, m')
    ensures KeptAt(isa, m', addr, i)
  {
    hide SameCode, ReadExec, Unmixed;
    SettledStays(m, m', addr);
    FetchStable(m, m', addr);
    if !IsCompressed(ReadExec(m, addr).value.data) {
      FetchStable(m, m', U64(addr + 2));
    }
  }

  /** Code that cannot be written to stays what it is. */
  lemma {:induction false} CodedStable(isa: Isa, m: Mem, m': Mem, addr: u64, instrs: seq<Instruction>)
    requires Coded(isa, m, addr, instrs) && SameCode(m, m')
    ensures Coded(isa, m', addr, instrs)
    decreases |instrs|
  {
    hide KeptAt, SameCode;
    if instrs != [] {
      KeptStable(isa, m, m', addr, instrs[0]);
      CodedStable(isa, m, m', NextAddr(addr, instrs[0]), instrs[1..]);
    }
  }

  // ----- the cache -----

  ghost predicate AllCoded(isa: Isa, m: Mem, c: Cache) {
    forall k :: 0 <= k < |c.entries| ==> Coded(isa, m, c.entries[k].address, c.entries[k].instrs)
  }

  /** The next instruction can only be added to the block that it follows. */
  ghost predicate Linked(c: Cache)
    requires |c.entries| > 0
  {
    c.next % PAGE_SIZE != 0 ==>
      var e := c.At(c.current);
      || (c.current == NOWHERE && c.next == NOWHERE)
      || (e.address == c.current && End(e.address, e.instrs) == c.next)
  }

  /** Whatever block is added to, it ends where the instruction is. */
  lemma TargetEnds(isa: Isa, m: Mem, c: Cache, addr: u64)
    requires Bounded(c) && AllCoded(isa, m, c) && Linked(c)
    ensures var t := Target(Aimed(c, addr), addr);
            Coded(isa, m, t.address, t.instrs) && End(t.address, t.instrs) == addr
  {
  }

  lemma AddedCoded(isa: Isa, m: Mem, c: Cache, addr: u64, i: Instruction)
    requires Bounded(c) && AllCoded(isa, m, c) && KeptAt(isa, m, addr, i)
    requires var t := Target(c, addr); Coded(isa, m, t.address, t.instrs) && End(t.address, t.instrs) == addr
    ensures var c' := Added(c, addr, i, i.width); AllCoded(isa, m, c') && Linked(c')
  {
    hide KeptAt, SlotOf;
    var t := Target(c, addr);
    assert [i][1..] == [];
    CodedAppend(isa, m, t.address, t.instrs, [i]);
    var x := Extended(c, addr, i, i.width);
    var e := x.At(x.current);
    assert AllCoded(isa, m, x) && Linked(x);
    if Joins(x, e, x.next) {
      CodedAppend(isa, m, e.address, e.instrs, x.At(x.next).instrs);
    }
  }

  lemma PushedCoded(isa: Isa, m: Mem, c: Cache, addr: u64, i: Instruction)
    requires Bounded(c) && AllCoded(isa, m, c) && Linked(c) && KeptAt(isa, m, addr, i)
    ensures var c' := Pushed(c, addr, i, i.width); Bounded(c') && AllCoded(isa, m, c') && Linked(c')
  {
    hide Target, Added;
    PushedBounded(c, addr, i, i.width);
    TargetEnds(isa, m, c, addr);
    assert AllCoded(isa, m, Aimed(c, addr));
    AddedCoded(isa, m, Aimed(c, addr), addr, i);
  }

  lemma InvalidatedCoded(isa: Isa, m: Mem, c: Cache)
    requires Bounded(c) && AllCoded(isa, m, c)
    ensures var c' := Invalidated(c); Bounded(c') && AllCoded(isa, m, c') && Linked(c')
  {
  }

  lemma StoredCoded(isa: Isa, m: Mem, m': Mem, c: Cache)
    requires AllCoded(isa, m, c) && SameCode(m, m')
    ensures AllCoded(isa, m', c)
  {
    forall k | 0 <= k < |c.entries| ensures Coded(isa, m', c.entries[k].address, c.entries[k].instrs) {
      CodedStable(isa, m, m', c.entries[k].address, c.entries[k].instrs);
    }
  }
}
