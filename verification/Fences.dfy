/**
 What `fence.i` promises: a block that is found was put together entirely after the last
 fence, although the fence counter wraps around and only one slot is emptied by each fence.
 */
module Fences {
  import opened Words
  import opened Memory
  import opened Machine
  import opened Instructions
  import opened BlockCache

  /** A cache together with the number of fences so far and, for every instruction kept, how many
      there had been when it was pushed. */
  datatype Tracked = Tracked(cache: Cache, count: nat, ages: seq<seq<nat>>)

  /** The cache before blocks are joined. */
  function Grown(t: Tracked, addr: u64, instr: Instruction, w: InstrWidth): Tracked
    requires |t.cache.entries| == |t.ages| > 0
  {
    var c := Aimed(t.cache, addr);
    var x := Extended(c, addr, instr, w);
    var k := x.Slot(x.current);
    var kept := if Target(c, addr).instrs == [] then [] else t.ages[k];
    Tracked(x, t.count, t.ages[k := kept + [t.count]])
  }

  function Pushes(t: Tracked, addr: u64, instr: Instruction, w: InstrWidth): Tracked
    requires |t.cache.entries| == |t.ages| > 0
  {
    if Straddles(addr, w) then t
    else
      var g := Grown(t, addr, instr, w);
      var x := g.cache;
      var k := x.Slot(x.current);
      g.(cache := Pushed(t.cache, addr, instr, w),
         ages := if Joins(x, x.At(x.current), x.next) then g.ages[k := g.ages[k] + g.ages[x.Slot(x.next)]] else g.ages)
  }

  function Does(t: Tracked, op: CacheOp): (t': Tracked)
    requires |t.cache.entries| == |t.ages| > 0
    ensures |t'.cache.entries| == |t'.ages| == |t.ages| && t'.cache == Apply(t.cache, op)
  {
    match op
    case Push(addr, instr, w) => Pushes(t, addr, instr, w)
    case FenceAll =>
      Tracked(Apply(t.cache, op), t.count + 1, t.ages[t.cache.Slot(t.cache.fence) := []])
  }

  // ----- the invariant -----

  /** The slot that the fence with this number empties. */
  function Emptied(number: nat, size: nat): nat
    requires size > 0
  {
    SlotOf(U32(number), size)
  }

  /** The instructions of a slot were all pushed after `born` fences, and no later fence emptied it. */
  ghost predicate Whole(t: Tracked, k: nat, born: nat)
    requires k < |t.cache.entries| == |t.ages|
  {
    var e := t.cache.entries[k];
    && e.fence == U32(born) && born <= t.count
    && (forall j :: 0 <= j < |t.ages[k]| ==> t.ages[k][j] == born)
    && (forall f {:trigger Emptied(f, |t.ages|)} :: born <= f < t.count ==> Emptied(f, |t.ages|) != k)
  }

  ghost predicate SlotOk(t: Tracked, k: nat)
    requires k < |t.cache.entries| == |t.ages|
  {
    && |t.ages[k]| == |t.cache.entries[k].instrs|
    && (t.ages[k] != [] ==> Whole(t, k, t.ages[k][0]))
  }

  /** The block under construction was started after the last fence. */
  ghost predicate Current(t: Tracked)
    requires |t.cache.entries| == |t.ages| > 0
  {
    var c := t.cache;
    c.next % PAGE_SIZE != 0 ==>
      || (c.current == NOWHERE && c.next == NOWHERE)
      || (t.ages[c.Slot(c.current)] != [] && t.ages[c.Slot(c.current)][0] == t.count)
  }

  /** The number of slots is a power of two that the fence counter outruns. */
  ghost predicate Sized(size: nat) { size > 0 && TWO31 % size == 0 }

  ghost predicate Tracks(t: Tracked) {
    && |t.cache.entries| == |t.ages| && Sized(|t.ages|)
    && t.cache.fence == U32(t.count)
    && (forall k :: 0 <= k < |t.ages| ==> SlotOk(t, k))
    && Current(t)
  }

  // ----- wrap-around -----

  /** Before the counter can wrap around to the same value, every slot has been emptied. */
  lemma EmptiedInTime(born: nat, count: nat, k: nat, size: nat)
    requires Sized(size) && k < size && born + 2 * size <= count
    ensures exists f {:trigger Emptied(f, size)} :: born <= f < count && Emptied(f, size) == k
  {
    var h := (born + 1) / 2;
    var f := 2 * (h + (k - h) % size);
    assert born <= f < count;
    ResidueHit(h, k, size);
    HalvesAgree(f, size);
  }

  lemma ResidueHit(h: nat, k: nat, size: nat)
    requires k < size
    ensures (h + (k - h) % size) % size == k
  {
    var q := (k - h) / size;
    assert k - h == q * size + (k - h) % size;
    ModUnique(h + (k - h) % size, size, -q, k);
  }

  /** Wrapping the counter does not change the slot. */
  lemma HalvesAgree(f: nat, size: nat)
    requires Sized(size)
    ensures Emptied(f, size) == (f / 2) % size
  {
    var w, m := f / TWO32, TWO31 / size;
    assert f / 2 == w * TWO31 + U32(f) / 2;
    var q, r := (U32(f) / 2) / size, (U32(f) / 2) % size;
    assert TWO31 == m * size;
    assert f / 2 == (w * m + q) * size + r by {
      assert w * (m * size) == (w * m) * size;
      assert (w * m + q) * size == (w * m) * size + q * size;
    }
    ModUnique(f / 2, size, w * m + q, r);
  }

  /** Equal counter values of a slot that still holds something mean the same fence. */
  lemma SameFence(t: Tracked, k: nat, born: nat)
    requires |t.cache.entries| == |t.ages| && Sized(|t.ages|) && k < |t.ages| && Whole(t, k, born)
    requires t.cache.entries[k].fence == U32(t.count)
    ensures born == t.count
  {
    var size := |t.ages|;
    if born + 2 * size <= t.count {
      EmptiedInTime(born, t.count, k, size);
    } else {
      SizeBelow(size);
      assert t.count - born < TWO32;
    }
  }

  lemma SizeBelow(size: nat)
    requires Sized(size)
    ensures 2 * size <= TWO32
  {
    var m := TWO31 / size;
    assert TWO31 == m * size;
    assert m >= 1;
    assert m * size >= 1 * size;
  }

  // ----- every operation keeps the invariant -----

  lemma FencedTracks(t: Tracked)
    requires Tracks(t)
    ensures Tracks(Does(t, FenceAll))
  {
    hide SlotOf;
    var t' := Does(t, FenceAll);
    forall k | 0 <= k < |t'.ages| ensures SlotOk(t', k) {
      assert SlotOk(t, k);
      if t'.ages[k] != [] {
        var born := t.ages[k][0];
        assert Emptied(t.count, |t.ages|) != k;
        assert Whole(t', k, born);
      }
    }
  }

  /** The block that is added to is empty, or was started after the last fence. */
  lemma TargetFresh(t: Tracked, addr: u64)
    requires Tracks(t)
    ensures var c := Aimed(t.cache, addr);
            var g := Target(c, addr);
            && g.fence == U32(t.count)
            && (g.instrs != [] ==>
                  && g == c.At(g.address) && t.ages[c.Slot(g.address)] != []
                  && t.ages[c.Slot(g.address)][0] == t.count)
  {
    hide SlotOf;
    var c := Aimed(t.cache, addr);
    assert SlotOk(t, c.Slot(c.current));
    if addr % PAGE_SIZE != 0 && addr == t.cache.next && t.cache.current == NOWHERE && t.cache.next == NOWHERE {
      assert Target(c, addr).instrs == [];
    }
  }

  /** A slot whose ages are all those of now is whole. */
  lemma NowWhole(t: Tracked, k: nat)
    requires k < |t.cache.entries| == |t.ages| && t.cache.entries[k].fence == U32(t.count)
    requires forall j :: 0 <= j < |t.ages[k]| ==> t.ages[k][j] == t.count
    ensures Whole(t, k, t.count)
  {
  }

  /** Slots that did not change are as they were. */
  lemma SlotKept(t: Tracked, t': Tracked, k: nat)
    requires |t.cache.entries| == |t.ages| == |t'.cache.entries| == |t'.ages| && k < |t.ages|
    requires SlotOk(t, k) && t'.cache.entries[k] == t.cache.entries[k] && t'.ages[k] == t.ages[k] && t'.count == t.count
    ensures SlotOk(t', k)
  {
    if t.ages[k] != [] { assert Whole(t', k, t.ages[k][0]); }
  }

  lemma GrownTracks(t: Tracked, addr: u64, instr: Instruction, w: InstrWidth)
    requires Tracks(t)
    ensures Tracks(Grown(t, addr, instr, w))
    ensures var g := Grown(t, addr, instr, w);
            var k := g.cache.Slot(g.cache.current);
            g.ages[k] != [] && Whole(g, k, t.count)
  {
    hide SlotOf, Target;
    TargetFresh(t, addr);
    var g := Grown(t, addr, instr, w);
    var c := Aimed(t.cache, addr);
    var k := g.cache.Slot(g.cache.current);
    assert SlotOk(t, k);
    assert forall j :: 0 <= j < |g.ages[k]| ==> g.ages[k][j] == t.count;
    NowWhole(g, k);
    forall i | 0 <= i < |g.ages| ensures SlotOk(g, i) {
      if i != k { SlotKept(t, g, i); }
    }
  }

  /** Joining two blocks of the same fence. */
  lemma JoinedTracks(g: Tracked, t': Tracked)
    requires Tracks(g)
    requires var x := g.cache;
             var k, n := x.Slot(x.current), x.Slot(x.next);
             && Whole(g, k, g.count) && Joins(x, x.At(x.current), x.next)
             && t'.cache == x.(current := NOWHERE, next := NOWHERE,
                               entries := x.entries[k := x.entries[k].(
                                            instrs := x.entries[k].instrs + x.entries[n].instrs)])
             && t'.ages == g.ages[k := g.ages[k] + g.ages[n]] && t'.count == g.count
    ensures Tracks(t')
  {
    hide SlotOf;
    var x := g.cache;
    var k, n := x.Slot(x.current), x.Slot(x.next);
    assert SlotOk(g, k) && SlotOk(g, n);
    if g.ages[n] != [] { SameFence(g, n, g.ages[n][0]); }
    NowWhole(t', k);
    forall i | 0 <= i < |g.ages| ensures SlotOk(t', i) {
      if i != k { SlotKept(g, t', i); }
    }
  }

  lemma PushedTracks(t: Tracked, addr: u64, instr: Instruction, w: InstrWidth)
    requires Tracks(t)
    ensures Tracks(Pushes(t, addr, instr, w))
  {
    hide SlotOf, Target, Joins;
    if !Straddles(addr, w) {
      GrownTracks(t, addr, instr, w);
      var g := Grown(t, addr, instr, w);
      var x := g.cache;
      if Joins(x, x.At(x.current), x.next) {
        JoinedTracks(g, Pushes(t, addr, instr, w));
      }
    }
  }

  // ----- runs -----

  function DoesAll(t: Tracked, ops: seq<CacheOp>): (t': Tracked)
    requires |t.cache.entries| == |t.ages| > 0
    ensures |t'.cache.entries| == |t'.ages| == |t.ages|
    decreases |ops|
  {
    if ops == [] then t else Does(DoesAll(t, ops[..|ops| - 1]), ops[|ops| - 1])
  }

  function Empty(size: nat): Tracked
    requires size > 0
  {
    Tracked(EmptyCache(size), 0, seq(size, _ => []))
  }

  lemma EmptyTracks(size: nat)
    requires Sized(size)
    ensures Tracks(Empty(size))
  {
  }

  lemma {:induction false} AllTracks(size: nat, ops: seq<CacheOp>)
    requires Sized(size)
    ensures Tracks(DoesAll(Empty(size), ops))
    decreases |ops|
  {
    hide Tracks;
    if ops == [] {
      EmptyTracks(size);
    } else {
      AllTracks(size, ops[..|ops| - 1]);
      var t := DoesAll(Empty(size), ops[..|ops| - 1]);
      match ops[|ops| - 1]
      case Push(addr, instr, w) => PushedTracks(t, addr, instr, w);
      case FenceAll => FencedTracks(t);
    }
  }

  /** After any pushes and fences, a block that is found holds only instructions pushed since the last fence. */
  lemma FoundIsFresh(size: nat, ops: seq<CacheOp>, addr: u64)
    requires Sized(size) && DoesAll(Empty(size), ops).cache.Hit(addr)
    ensures var t := DoesAll(Empty(size), ops);
            var k := t.cache.Slot(addr);
            |t.ages[k]| == |t.cache.At(addr).instrs| && forall j :: 0 <= j < |t.ages[k]| ==> t.ages[k][j] == t.count
  {
    hide SlotOf, DoesAll;
    AllTracks(size, ops);
    var t := DoesAll(Empty(size), ops);
    var k := t.cache.Slot(addr);
    assert SlotOk(t, k);
    SameFence(t, k, t.ages[k][0]);
  }
}
