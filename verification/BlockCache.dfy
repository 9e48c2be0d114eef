/**
 The block cache: sequences of instructions kept by the address of the first one, the block
 under construction, and the block that was only executed part of the way.
 */
module BlockCache {
  import opened Words
  import opened Memory
  import opened Machine
  import opened Instructions

  /** The maximum number of instructions in a block. */
  const CACHE_INSTR: nat := 20

  /** The address of no block. */
  const NOWHERE: u64 := 0xFFFF_FFFF_FFFF_FFFF

  datatype Entry = Entry(address: u64, fence: u64, instrs: seq<Instruction>)

  /** A block that was paused after `progress` instructions because the steps had run out. */
  datatype Partial = Partial(addr: u64, inProgress: bool, progress: nat)

  const IDLE: Partial := Partial(0, false, 0)

  /** The slot that an address is kept in; the number of slots is a power of two. */
  function SlotOf(addr: u64, size: nat): (k: nat)
    requires size > 0
    ensures k < size
  {
    (addr / 2) % size
  }

  /** For a number of slots that is a power of two, the slot is found by masking. */
  lemma SlotIsMasked(addr: u64, j: nat)
    requires j <= 64
    ensures Bitwise(BitAnd, 64, addr / 2, Pow2(j) - 1) == SlotOf(addr, Pow2(j))
  {
    AndLowMask(64, j, addr / 2);
  }

  datatype Cache = Cache(current: u64, next: u64, fence: u64, partial: Partial, entries: seq<Entry>) {

    function Slot(addr: u64): nat
      requires |entries| > 0
    {
      SlotOf(addr, |entries|)
    }

    function At(addr: u64): Entry
      requires |entries| > 0
    {
      entries[Slot(addr)]
    }

    /** A block that may be run from this address. */
    predicate Hit(addr: u64)
      requires |entries| > 0
    {
      At(addr).address == addr && At(addr).fence == fence && |At(addr).instrs| > 0
    }
  }

  // ----- what the operations do to the cache -----

  /** A cache with nothing in it. */
  function EmptyCache(size: nat): Cache
    requires size > 0
  {
    Cache(NOWHERE, NOWHERE, 0, IDLE, seq(size, _ => Entry(NOWHERE, 0, [])))
  }

  /** Where pushing at this address continues: the block under construction, or a new one. */
  function Aimed(c: Cache, addr: u64): Cache {
    if addr % PAGE_SIZE == 0 || addr != c.next then c.(current := addr, next := 0) else c
  }

  /** The block that an instruction at this address is to be added to. */
  function Target(c: Cache, addr: u64): Entry
    requires |c.entries| > 0
  {
    var e := c.At(c.current);
    if e.address != c.current || e.address == addr then Entry(c.current, c.fence, [])
    else if |e.instrs| == CACHE_INSTR then Entry(addr, c.fence, [])
    else e
  }

  /** Whether the block that starts where this one ends can be joined to it. */
  predicate Joins(c: Cache, e: Entry, next: u64)
    requires |c.entries| > 0
  {
    var adj := c.At(next);
    adj.address == next && adj.fence == c.fence && next % PAGE_SIZE != 0 && |adj.instrs| + |e.instrs| <= CACHE_INSTR
  }

  /** The cache after adding an instruction to a block. */
  function Extended(c: Cache, addr: u64, instr: Instruction, w: InstrWidth): Cache
    requires |c.entries| > 0
  {
    var t := Target(c, addr);
    Cache(t.address, U64(addr + WidthBytes(w)), c.fence, c.partial,
          c.entries[c.Slot(t.address) := t.(instrs := t.instrs + [instr])])
  }

  /** The cache after adding an instruction to a block, and joining the block that follows. */
  function Added(c: Cache, addr: u64, instr: Instruction, w: InstrWidth): Cache
    requires |c.entries| > 0
  {
    var x := Extended(c, addr, instr, w);
    var e := x.At(x.current);
    if Joins(x, e, x.next) then
      x.(current := NOWHERE, next := NOWHERE,
         entries := x.entries[x.Slot(x.current) := e.(instrs := e.instrs + x.At(x.next).instrs)])
    else
      x
  }

  /** Uncompressed instructions that straddle a page boundary are not kept. */
  predicate Straddles(addr: u64, w: InstrWidth) { w.Uncompressed? && addr % PAGE_SIZE == PAGE_SIZE - 2 }

  function Pushed(c: Cache, addr: u64, instr: Instruction, w: InstrWidth): Cache
    requires |c.entries| > 0
  {
    if Straddles(addr, w) then c else Added(Aimed(c, addr), addr, instr, w)
  }

  /** Invalidate all blocks: a new fence, and one slot emptied. */
  function Invalidated(c: Cache): Cache
    requires |c.entries| > 0
  {
    var k := c.Slot(c.fence);
    c.(fence := U32(c.fence + 1), current := NOWHERE, next := 0,
       entries := c.entries[k := c.entries[k].(address := NOWHERE, instrs := [])])
  }

  /** What can happen to the cache. */
  datatype CacheOp = Push(addr: u64, instr: Instruction, width: InstrWidth) | FenceAll

  function Apply(c: Cache, op: CacheOp): (c': Cache)
    requires |c.entries| > 0
    ensures |c'.entries| == |c.entries|
  {
    match op
    case Push(addr, instr, w) => Pushed(c, addr, instr, w)
    case FenceAll => Invalidated(c)
  }

  /** No block outgrows its slot. */
  ghost predicate Bounded(c: Cache) {
    |c.entries| > 0 && forall k :: 0 <= k < |c.entries| ==> |c.entries[k].instrs| <= CACHE_INSTR
  }

  lemma PushedBounded(c: Cache, addr: u64, instr: Instruction, w: InstrWidth)
    requires Bounded(c)
    ensures var c' := Pushed(c, addr, instr, w);
            Bounded(c') && |c'.entries| == |c.entries| && c'.partial == c.partial && c'.fence == c.fence
  {
  }

  /** A block is found at its address from its first instruction on, and a later one is added to its end. */
  lemma PushedIsFound(c: Cache, addr: u64, instr: Instruction, w: InstrWidth)
    requires |c.entries| > 0 && !Straddles(addr, w)
    ensures addr % PAGE_SIZE == 0 || addr != c.next ==>
              var c' := Pushed(c, addr, instr, w); c'.Hit(addr) && c'.At(addr).instrs[0] == instr
    ensures addr % PAGE_SIZE != 0 && addr == c.next && addr != c.current && c.Hit(c.current)
            && |c.At(c.current).instrs| < CACHE_INSTR ==>
              var c' := Pushed(c, addr, instr, w);
              c'.Hit(c.current) && c.At(c.current).instrs + [instr] <= c'.At(c.current).instrs
  {
    hide SlotOf;
  }

  // ----- the operations -----

  class BlockCache {
    var current: u64
    var next: u64
    var fence: u64
    var partial: Partial
    var entries: seq<Entry>

    function View(): Cache
      reads this
    {
      Cache(current, next, fence, partial, entries)
    }

    constructor (size: nat)
      requires size > 0
      ensures View() == EmptyCache(size)
      ensures Bounded(View())
    {
      current, next, fence, partial := NOWHERE, NOWHERE, 0, IDLE;
      entries := seq(size, _ => Entry(NOWHERE, 0, []));
    }

    method ResetTo(addr: u64)
      modifies this
      ensures View() == old(View()).(current := addr, next := 0)
    {
      current, next := addr, 0;
    }

    method StartBlock(k: nat, addr: u64)
      requires k < |entries|
      modifies this
      ensures View() == old(View()).(entries := old(entries)[k := Entry(addr, fence, [])])
    {
      entries := entries[k := Entry(addr, fence, [])];
    }

    method PushInto(k: nat, instr: Instruction)
      requires k < |entries| && |entries[k].instrs| < CACHE_INSTR
      modifies this
      ensures var e := old(entries)[k];
              View() == old(View()).(entries := old(entries)[k := e.(instrs := e.instrs + [instr])])
    {
      entries := entries[k := entries[k].(instrs := entries[k].instrs + [instr])];
    }

    /** Copy the instructions of the block at `next` to the end of the block at `addr`. */
    method Join(addr: u64, next: u64)
      requires Bounded(View()) && |View().At(addr).instrs| + |View().At(next).instrs| <= CACHE_INSTR
      modifies this
      ensures var c := old(View());
              var joined := c.At(addr).instrs + c.At(next).instrs;
              View() == c.(entries := c.entries[c.Slot(addr) := c.At(addr).(instrs := joined)])
    {
      ghost var c := View();
      ghost var (a, b) := (c.At(addr), c.At(next));
      var k := View().Slot(addr);
      var n := |View().At(next).instrs|;
      var i := 0;
      assert a.instrs + b.instrs[..0] == a.instrs;
      while i < n
        invariant 0 <= i <= n && k == c.Slot(addr)
        invariant View() == c.(entries := c.entries[k := a.(instrs := a.instrs + b.instrs[..i])])
      {
        assert View().At(next).instrs[i] == b.instrs[i];
        var more := View().At(next).instrs[i];
        PushInto(k, more);
        assert a.instrs + b.instrs[..i] + [more] == a.instrs + b.instrs[..i + 1];
        i := i + 1;
      }
      assert b.instrs[..n] == b.instrs;
    }

    /** Find the block to add to, starting a new one where needed. */
    method OpenBlock(addr: u64) returns (block: u64)
      requires Bounded(View())
      modifies this
      ensures var t := Target(old(View()), addr);
              && block == t.address && |t.instrs| < CACHE_INSTR
              && View() == old(View()).(current := block, next := next,
                                        entries := old(entries)[old(View()).Slot(block) := t])
    {
      block := current;
      var start := View().At(block).address;
      if start != block || start == addr {
        StartBlock(View().Slot(block), block);
      } else if |View().At(block).instrs| == CACHE_INSTR {
        ResetTo(addr);
        block := addr;
        StartBlock(View().Slot(block), block);
      }
    }

    /** Add the instruction to a block, and join the block at the next address where possible. */
    method CacheInner(addr: u64, instr: Instruction, w: InstrWidth)
      requires Bounded(View())
      modifies this
      ensures View() == Added(old(View()), addr, instr, w)
      ensures Bounded(View())
    {
      hide SlotOf;
      var block := OpenBlock(addr);
      PushInto(View().Slot(block), instr);
      var newLen := |View().At(block).instrs|;
      next := U64(addr + WidthBytes(w));
      assert View() == Extended(old(View()), addr, instr, w);
      hide Extended, Target;
      var adjacent := View().At(next);
      if adjacent.address == next && adjacent.fence == fence && next % PAGE_SIZE != 0
         && |adjacent.instrs| + newLen <= CACHE_INSTR
      {
        Join(block, next);
        next := NOWHERE;
        current := NOWHERE;
      }
    }

    method PushCompressed(addr: u64, instr: Instruction)
      requires Bounded(View())
      modifies this
      ensures View() == Pushed(old(View()), addr, instr, Compressed) && Bounded(View())
    {
      if addr % PAGE_SIZE == 0 || addr != next { ResetTo(addr); }
      CacheInner(addr, instr, Compressed);
    }

    method PushUncompressed(addr: u64, instr: Instruction)
      requires Bounded(View())
      modifies this
      ensures View() == Pushed(old(View()), addr, instr, Uncompressed) && Bounded(View())
    {
      if addr % PAGE_SIZE == PAGE_SIZE - 2 { return; }
      if addr % PAGE_SIZE == 0 || addr != next { ResetTo(addr); }
      CacheInner(addr, instr, Uncompressed);
    }

    method Invalidate()
      requires Bounded(View())
      modifies this
      ensures View() == Invalidated(old(View())) && Bounded(View())
    {
      var counter: int := fence;
      fence := U32(counter + 1);
      ResetTo(NOWHERE);
      var k := View().Slot(counter);
      entries := entries[k := entries[k].(address := NOWHERE, instrs := [])];
    }
  }
}
