/**
 When the block cache can be seen. At an odd address a half-word may straddle a page that can
 be written to and one that cannot; it counts as unwritable, is kept, and is changed by a store.
 A program that does so is run, and the layouts of memory in which none can are characterised.
 */
module Straddling {
  import opened Words
  import opened Memory
  import opened Machine
  import opened Instructions
  import opened Execution
  import opened Blocks
  import opened Isa
  import opened BlockCache
  import opened Ticking
  import opened Transparency
  import opened Meaning
  import opened Soundness

  // ----- a program that changes itself -----

  /** `c.sw x9, 0(x8)`: store the word in `x9` to the address in `x8`. */
  const STORE: u64 := 0xC004

  /** `c.j -2`: jump back by one compressed instruction. */
  const BACK: u64 := 0xBFFD

  /** `c.swsp x0, 0(x2)`: the store with its low byte changed. */
  const STORE_SP: u64 := 0xC002

  /** A reserved encoding: the store with its high byte changed. */
  const RESERVED: u64 := 0x0004

  ghost predicate StoresWord(i: Instr, rs1: Reg, rs2: Reg) {
    i.Cacheable? && i.instr.opcode.X32Store? && i.instr.rs1 == rs1 && i.instr.rs2 == rs2 && i.instr.imm == 0
  }

  /** The four half-words are decoded as the compressed instruction set of RISC-V says. */
  ghost predicate DecodesThese(isa: Isa) {
    && DecodesWell(isa) && isa.run == RunInstr
    && StoresWord(isa.parse16(STORE), 8, 9) && StoresWord(isa.parse16(STORE_SP), 2, 0)
    && (var j := isa.parse16(BACK); j.Cacheable? && j.instr.opcode.J? && j.instr.imm == -2)
    && (var x := isa.parse16(RESERVED); x.Cacheable? && x.instr.opcode.Unknown?)
  }

  /** The last byte of an executable page before another one, of which exactly one can be written to. */
  ghost predicate Boundary(m: Mem, a: nat) {
    && a % PAGE_SIZE == PAGE_SIZE - 1 && a + 5 <= |m.data| && a + 5 < TWO64
    && m.executable[a / PAGE_SIZE] && m.executable[(a + 1) / PAGE_SIZE]
    && m.writable[a / PAGE_SIZE] != m.writable[(a + 1) / PAGE_SIZE]
  }

  /** The first of the two pages can be written to: the low byte of the half-word at the boundary. */
  predicate LowSoft(m: Mem, a: nat)
    requires a < |m.data|
  {
    m.writable[a / PAGE_SIZE]
  }

  /** The word that is stored, on the page that can be written to. */
  function Target(m: Mem, a: nat): u64
    requires 3 <= a < |m.data| && a + 1 < TWO64
  {
    if LowSoft(m, a) then a - 3 else a + 1
  }

  /** What is stored: one byte is changed and three are written back. */
  function Payload(m: Mem, a: nat): u64
    requires a < |m.data|
  {
    if LowSoft(m, a) then 0x0200_0000 else 0x00BF_FD00
  }

  function Replaced(m: Mem, a: nat): u64
    requires a < |m.data|
  {
    if LowSoft(m, a) then STORE_SP else RESERVED
  }

  /** Memory with two half-words from `a` on and otherwise zeroes. */
  function Holding(m: Mem, a: nat, first: u64, second: u64): Mem {
    m.(data := seq(|m.data|, i =>
      if i == a then first % 256 else if i == a + 1 then first / 256 % 256
      else if i == a + 2 then second % 256 else if i == a + 3 then second / 256 % 256 else 0))
  }

  /** A store at the boundary and a jump back to it. */
  function Program(m: Mem, a: nat): Mem { Holding(m, a, STORE, BACK) }

  /** The same once the store has overwritten itself. */
  function Overwritten(m: Mem, a: nat): Mem
    requires a < |m.data|
  {
    Holding(m, a, Replaced(m, a), BACK)
  }

  function StartRegister(m: Mem, a: nat, r: int): u64
    requires 3 <= a < |m.data| && a + 1 < TWO64
  {
    if r == 8 then Target(m, a) else if r == 9 then Payload(m, a) else if r == 2 then TWO64 - 1 else 0
  }

  function Start(m: Mem, a: nat): Core
    requires 3 <= a < |m.data| && a + 1 < TWO64
  {
    Core(seq(32, r => StartRegister(m, a, r)), a, UNSET, Program(m, a))
  }

  // ----- fetching -----

  lemma HalfHeld(m: Mem, a: nat, first: u64, second: u64)
    requires a + 4 <= |m.data| && first < 0x1_0000 && second < 0x1_0000
    ensures var d := Holding(m, a, first, second).data;
            FromLE(d[a..a + 2]) == first && FromLE(d[a + 2..a + 4]) == second
  {
    hide FromLE;
    var d := Holding(m, a, first, second).data;
    TwoBytes(d[a..a + 2]);
    TwoBytes(d[a + 2..a + 4]);
  }

  lemma FetchHeld(isa: Isa, m: Mem, a: nat, first: u64)
    requires Boundary(m, a) && first < 0x1_0000 && IsCompressed(first)
    ensures var h := Holding(m, a, first, BACK);
            && FetchInstr(isa, h, a) == Fetched(isa.parse16(first), Compressed, false)
            && FetchInstr(isa, h, a + 2) == Fetched(isa.parse16(BACK), Compressed, m.writable[(a + 1) / PAGE_SIZE])
  {
    HalfHeld(m, a, first, BACK);
    hide FromLE, Holding;
    assert (a + 2) / PAGE_SIZE == (a + 3) / PAGE_SIZE == (a + 1) / PAGE_SIZE;
  }

  // ----- running -----

  lemma {:induction false} FourBytes(v: nat)
    ensures ToLE(v, 4) == [v % 256, v / 256 % 256, v / 256 / 256 % 256, v / 256 / 256 / 256 % 256]
  {
    assert ToLE(v, 4) == [v % 256] + ToLE(v / 256, 3);
    assert ToLE(v / 256, 3) == [v / 256 % 256] + ToLE(v / 256 / 256, 2);
    assert ToLE(v / 256 / 256, 2) == [v / 256 / 256 % 256] + ToLE(v / 256 / 256 / 256, 1);
    assert ToLE(v / 256 / 256 / 256, 1) == [v / 256 / 256 / 256 % 256] + [];
  }

  /** The bytes written are those of the changed program. */
  lemma PayloadBytes(m: Mem, a: nat, k: nat)
    requires Boundary(m, a) && k < 4
    ensures ToLE(Payload(m, a), 4)[k] == Overwritten(m, a).data[Target(m, a) + k]
  {
    FourBytes(Payload(m, a));
    hide ToLE;
  }

  lemma OtherBytes(m: Mem, a: nat, i: nat)
    requires Boundary(m, a) && i < |m.data| && !(Target(m, a) <= i < Target(m, a) + 4)
    ensures Program(m, a).data[i] == Overwritten(m, a).data[i]
  {
  }

  lemma SplicedIn(m: Mem, a: nat, data: seq<byte>)
    requires Boundary(m, a) && (data == Program(m, a).data || data == Overwritten(m, a).data)
    ensures Splice(data, Target(m, a), ToLE(Payload(m, a), 4)) == Overwritten(m, a).data
  {
    var t, bytes, d := Target(m, a), ToLE(Payload(m, a), 4), Overwritten(m, a).data;
    assert |d| == |data| == |m.data| && t + 4 <= |data|;
    hide Program, Overwritten, Payload, ToLE, LowSoft;
    forall i | 0 <= i < |data| ensures Splice(data, t, bytes)[i] == d[i] {
      if t <= i < t + 4 { PayloadBytes(m, a, i - t); } else { OtherBytes(m, a, i); }
    }
  }

  lemma TargetWritable(m: Mem, a: nat, m': Mem)
    requires Boundary(m, a) && m'.writable == m.writable
    ensures InBounds(m', Target(m, a), 4) && CanAccess(m'.writable, Target(m, a), 4)
  {
    var t := Target(m, a);
    assert t / PAGE_SIZE == (t + 3) / PAGE_SIZE == if LowSoft(m, a) then a / PAGE_SIZE else (a + 1) / PAGE_SIZE;
  }

  /** The word store changes one byte of the half-word, the first time and ever after. */
  lemma StoredWord(m: Mem, a: nat, core: Core)
    requires Boundary(m, a) && (core.mem == Program(m, a) || core.mem == Overwritten(m, a))
    ensures Stored(Word, Target(m, a), Payload(m, a), core) == Icb.Yielded([], core.(mem := Overwritten(m, a)))
  {
    assert Truncate(Word, Payload(m, a)) == Payload(m, a) by { WordFits(); }
    hide Truncate, Boundary, Target, Payload, ToLE, Splice, InBounds, CanAccess;
    SplicedIn(m, a, core.mem.data);
    TargetWritable(m, a, core.mem);
  }

  lemma WordFits()
    ensures Pow2(8 * Bytes(Word)) == 0x1_0000_0000
  {
    Pow2Sum(16, 16);
    assert Pow2(16) == 0x1_0000 by { Pow2Sum(8, 8); assert Pow2(8) == 4 * Pow2(6) == 16 * Pow2(4) == 64 * Pow2(2); }
  }

  lemma StoreStep(m: Mem, a: nat, i: Instruction, core: Core)
    requires Boundary(m, a) && StoresWord(Cacheable(i), 8, 9) && i.width == Compressed
    requires core.xregs == Start(m, a).xregs && core.pc == a
    requires core.mem == Program(m, a) || core.mem == Overwritten(m, a)
    ensures StepWith(RunInstr, i, core) == Continues(core.(mem := Overwritten(m, a), pc := a + 2))
  {
    hide RunInstr, Stored, Program, Overwritten;
    InstrMeans(i, core);
    StoredWord(m, a, core);
    assert core.XRead(8) == Target(m, a) && core.XRead(9) == Payload(m, a);
  }

  lemma BackStep(a: nat, j: Instruction, core: Core)
    requires a + 2 < TWO64 && core.pc == a + 2 && j.opcode.J? && j.imm == -2
    ensures StepWith(RunInstr, j, core) == Leaves(core.(pc := a), None)
  {
    hide RunInstr;
    InstrMeans(j, core);
  }

  lemma UnknownStep(i: Instruction, core: Core)
    requires i.opcode.Unknown?
    ensures StepWith(RunInstr, i, core) == Leaves(core.(pc := 0), None)
  {
    hide RunInstr;
    InstrMeans(i, core);
  }

  lemma FarStoreStep(i: Instruction, core: Core)
    requires StoresWord(Cacheable(i), 2, 0) && |core.mem.data| <= TWO64 && core.XRead(2) == TWO64 - 1
    ensures StepWith(RunInstr, i, core) == Leaves(core.(pc := 0), None)
  {
    hide RunInstr, CanAccess, Truncate, Splice, ToLE;
    InstrMeans(i, core);
    assert !InBounds(core.mem, core.XRead(2), 4);
  }

  /** The replaced instruction raises an exception: it is unknown, or stores beyond the end of memory. */
  lemma TrapStep(isa: Isa, m: Mem, a: nat, core: Core)
    requires DecodesThese(isa) && a < |m.data| && |core.mem.data| <= TWO64 && core.XRead(2) == TWO64 - 1
    ensures isa.parse16(Replaced(m, a)).Cacheable?
    ensures StepWith(RunInstr, isa.parse16(Replaced(m, a)).instr, core) == Leaves(core.(pc := 0), None)
  {
    hide RunInstr, StepWith, DecodesWell;
    var i := isa.parse16(Replaced(m, a)).instr;
    if LowSoft(m, a) { FarStoreStep(i, core); } else { UnknownStep(i, core); }
  }

  lemma DecodedStore(isa: Isa)
    requires DecodesThese(isa)
    ensures StoresWord(isa.parse16(STORE), 8, 9) && isa.parse16(STORE).instr.width == Compressed
  {
    assert DecodesTo(isa.parse16(STORE), Compressed);
  }

  lemma StartRegisters(m: Mem, a: nat)
    requires 3 <= a < |m.data| && a + 1 < TWO64
    ensures Start(m, a).XRead(2) == TWO64 - 1 && |Overwritten(m, a).data| == |m.data|
  {
  }

  /** The plain machine fetches the changed half-word and stops. */
  lemma PlainRun(isa: Isa, m: Mem, a: nat)
    requires DecodesThese(isa) && Boundary(m, a) && |m.data| <= TWO64
    ensures PlainSteps(isa, Start(m, a), 3).state.pc == 0
  {
    hide StepWith, FetchInstr, Holding, RunInstr, DecodesWell;
    var c0 := Start(m, a);
    var c1 := c0.(mem := Overwritten(m, a), pc := a + 2);
    var c2 := c1.(pc := a);
    FetchHeld(isa, m, a, STORE);
    FetchHeld(isa, m, a, Replaced(m, a));
    DecodedStore(isa);
    StoreStep(m, a, isa.parse16(STORE).instr, c0);
    BackStep(a, isa.parse16(BACK).instr, c1);
    StartRegisters(m, a);
    TrapStep(isa, m, a, c2);
    assert PlainStep(isa, c0) == StepResult(c1, None);
    assert PlainStep(isa, c1) == StepResult(c2, None);
    assert PlainStep(isa, c2) == StepResult(c2.(pc := 0), None);
    hide PlainStep, Start;
    assert PlainSteps(isa, c2.(pc := 0), 0).state == c2.(pc := 0);
    assert PlainSteps(isa, c2, 1).state == c2.(pc := 0);
    assert PlainSteps(isa, c1, 2).state == c2.(pc := 0);
  }

  // ----- running with a cache of one slot -----

  /** The only slot holds the store, and perhaps what follows it. */
  ghost predicate Keeps(c: Cache, i: Instruction, a: u64, next: u64) {
    && |c.entries| == 1 && c.fence == 0 && c.partial == IDLE && c.current == a && c.next == next
    && c.entries[0].address == a && c.entries[0].fence == 0
    && 0 < |c.entries[0].instrs| <= 2 && c.entries[0].instrs[0] == i
  }

  lemma OneSlot(c: Cache, addr: u64)
    requires |c.entries| == 1
    ensures c.Slot(addr) == 0 && c.At(addr) == c.entries[0]
  {
  }

  lemma FirstPush(a: u64, i: Instruction)
    requires a % PAGE_SIZE == PAGE_SIZE - 1 && a + 4 < TWO64
    ensures var c := Pushed(EmptyCache(1), a, i, Compressed);
            Keeps(c, i, a, a + 2) && |c.entries[0].instrs| == 1
  {
    hide SlotOf;
    OneSlot(EmptyCache(1), a);
    OneSlot(EmptyCache(1), a + 2);
  }

  lemma SecondPush(c: Cache, i: Instruction, a: u64, j: Instruction)
    requires a % PAGE_SIZE == PAGE_SIZE - 1 && a + 4 < TWO64 && Keeps(c, i, a, a + 2) && |c.entries[0].instrs| == 1
    ensures Keeps(Pushed(c, a + 2, j, Compressed), i, a, a + 4)
  {
    hide SlotOf;
    OneSlot(c, a);
    OneSlot(c, a + 2);
    OneSlot(c, a + 4);
  }

  lemma FirstTick(isa: Isa, m: Mem, a: nat)
    requires DecodesThese(isa) && Boundary(m, a)
    ensures var t := RunFetched(isa, State(Start(m, a), EmptyCache(1)));
            && t.error == None && t.state.core == Start(m, a).(mem := Overwritten(m, a), pc := a + 2)
            && Keeps(t.state.cache, isa.parse16(STORE).instr, a, a + 2) && |t.state.cache.entries[0].instrs| == 1
  {
    hide StepWith, FetchInstr, Holding, Pushed, RunInstr, DecodesWell;
    FetchHeld(isa, m, a, STORE);
    DecodedStore(isa);
    StoreStep(m, a, isa.parse16(STORE).instr, Start(m, a));
    FirstPush(a, isa.parse16(STORE).instr);
  }

  lemma SecondTick(isa: Isa, m: Mem, a: nat, s: State)
    requires DecodesThese(isa) && Boundary(m, a) && s.core == Start(m, a).(mem := Overwritten(m, a), pc := a + 2)
    requires Keeps(s.cache, isa.parse16(STORE).instr, a, a + 2) && |s.cache.entries[0].instrs| == 1
    ensures var t := RunFetched(isa, s);
            && t.error == None && t.state.core == s.core.(pc := a)
            && exists next :: Keeps(t.state.cache, isa.parse16(STORE).instr, a, next)
  {
    hide StepWith, FetchInstr, Holding, Pushed, RunInstr, DecodesWell;
    FetchHeld(isa, m, a, Replaced(m, a));
    BackStep(a, isa.parse16(BACK).instr, s.core);
    SecondPush(s.cache, isa.parse16(STORE).instr, a, isa.parse16(BACK).instr);
  }

  lemma ThirdTick(isa: Isa, m: Mem, a: nat, s: State, next: u64)
    requires DecodesThese(isa) && Boundary(m, a) && s.core == Start(m, a).(mem := Overwritten(m, a))
    requires Keeps(s.cache, isa.parse16(STORE).instr, a, next)
    ensures Steady(s) && s.cache.Hit(a) && Tick(isa, s).error == None && Tick(isa, s).state.core.pc == a + 2
  {
    hide StepWith, Holding, RunFetched, RunInstr, DecodesWell;
    OneSlot(s.cache, a);
    DecodedStore(isa);
    StoreStep(m, a, isa.parse16(STORE).instr, s.core);
  }

  /** The cache runs the store again. */
  lemma CachedRun(isa: Isa, m: Mem, a: nat)
    requires DecodesThese(isa) && Boundary(m, a)
    ensures Steady(State(Start(m, a), EmptyCache(1)))
    ensures Ticks(isa, State(Start(m, a), EmptyCache(1)), 3).state.core.pc == a + 2
  {
    hide RunFetched, Holding, RunCached, DecodesWell, RunInstr;
    var s0 := State(Start(m, a), EmptyCache(1));
    OneSlot(s0.cache, a);
    FirstTick(isa, m, a);
    FetchedSteady(isa, s0);
    var s1 := RunFetched(isa, s0).state;
    assert Tick(isa, s0) == RunFetched(isa, s0);
    SecondTick(isa, m, a, s1);
    FetchedSteady(isa, s1);
    OneSlot(s1.cache, a + 2);
    var s2 := RunFetched(isa, s1).state;
    assert Tick(isa, s1) == RunFetched(isa, s1);
    var next :| Keeps(s2.cache, isa.parse16(STORE).instr, a, next);
    ThirdTick(isa, m, a, s2, next);
    hide Tick, Steady;
    TickSteady(isa, s2);
    var s3 := Tick(isa, s2).state;
    assert Ticks(isa, s3, 0).state == s3;
    assert Ticks(isa, s2, 1).state == s3;
    assert Ticks(isa, s1, 2).state == s3;
  }

  // ----- the exact condition -----

  /** A run with a cache does to the core what the plain machine does. */
  ghost predicate RunsPlain(isa: Isa, core: Core, size: nat, n: nat) {
    && size > 0 && Steady(State(core, EmptyCache(size)))
    && var r := Ticks(isa, State(core, EmptyCache(size)), n);
    && PlainSteps(isa, core, n) == StepMany(r.state.core, r.steps, r.error)
  }

  ghost predicate SamePages(m: Mem, m': Mem) {
    m'.readable == m.readable && m'.writable == m.writable && m'.executable == m.executable
  }

  /** Whatever is in memory with these permissions and wherever it starts, no program sees the cache. */
  ghost predicate NeverSeen(isa: Isa, m: Mem) {
    forall core: Core, size: nat, n: nat {:trigger RunsPlain(isa, core, size, n)} ::
      SamePages(m, core.mem) && size > 0 ==> RunsPlain(isa, core, size, n)
  }

  /** The program shows the cache, with every decoder that decodes its four half-words. */
  lemma BoundaryShows(isa: Isa, m: Mem, a: nat)
    requires DecodesThese(isa) && Boundary(m, a) && |m.data| <= TWO64
    ensures !RunsPlain(isa, Start(m, a), 1, 3)
  {
    hide Ticks, PlainSteps, Holding, DecodesThese;
    PlainRun(isa, m, a);
    CachedRun(isa, m, a);
  }

  /**
   In a memory that can be addressed, the cache is never seen exactly when adjacent executable
   pages are writable together or not at all.
   */
  lemma NeverSeenIff(isa: Isa, m: Mem)
    requires DecodesThese(isa) && |m.data| <= TWO64
    ensures NeverSeen(isa, m) <==> Unmixed(m)
  {
    hide RunsPlain, RunInstr, DecodesWell;
    if Unmixed(m) {
      forall core: Core, size: nat, n: nat | SamePages(m, core.mem) && size > 0
        ensures RunsPlain(isa, core, size, n)
      {
        UnmixedRuns(isa, core, size, n);
      }
    } else {
      var p :| 0 <= p < |m.executable| - 1 && m.executable[p] && m.executable[p + 1]
        && m.writable[p] != m.writable[p + 1];
      var a := PAGE_SIZE * (p + 1) - 1;
      assert a / PAGE_SIZE == p && (a + 1) / PAGE_SIZE == p + 1;
      assert Boundary(m, a);
      BoundaryShows(isa, m, a);
      assert SamePages(m, Start(m, a).mem);
    }
  }

  lemma UnmixedRuns(isa: Isa, core: Core, size: nat, n: nat)
    requires DecodesWell(isa) && isa.run == RunInstr && Unmixed(core.mem) && size > 0
    ensures RunsPlain(isa, core, size, n)
  {
    hide Ticks, PlainSteps, RunInstr, DecodesWell, Steady;
    RunsAsPlain(isa, core, size, n);
  }
}
