/**
 Loading the segments and relocations of an executable into memory: into a program image, or
 into a flat buffer. Parsing of the file is not modelled; segments and relocations are given.
 */
module Loader {
  import opened Words
  import opened Chunks
  import opened ProgramImage
  import Memory

  /** A loadable segment: where its bytes are in the file and where it goes in memory. */
  datatype Segment = Segment(offset: nat, filesz: nat, addr: u64, memsz: nat) {

    predicate InFile(contents: seq<byte>) { offset + filesz <= |contents| }

    /** How many bytes of memory it fills. */
    function Length(): nat { if memsz > filesz then memsz else filesz }

    /** The end of the target range. */
    function End(): nat { addr + Length() }

    function FileBytes(contents: seq<byte>): seq<byte>
      requires InFile(contents)
    {
      contents[offset..offset + filesz]
    }

    function ZeroBytes(): seq<byte> { if memsz > filesz then seq(memsz - filesz, _ => 0) else [] }

    /** What memory holds at an address of the target range: the file's bytes, then zeroes. */
    function ByteFor(contents: seq<byte>, a: nat): byte
      requires InFile(contents) && addr <= a < End()
    {
      if a < addr + filesz then contents[offset + a - addr] else 0
    }
  }

  /** The writes of one segment; the gap after the bytes from the file is filled with zeroes. */
  function SegmentWrites(s: Segment, contents: seq<byte>): seq<Write>
    requires s.InFile(contents)
  {
    [Write(s.addr, s.FileBytes(contents))] +
    if s.memsz > s.filesz then [Write(s.addr + s.filesz, s.ZeroBytes())] else []
  }

  ghost predicate AllInFile(segments: seq<Segment>, contents: seq<byte>) {
    forall i :: 0 <= i < |segments| ==> segments[i].offset + segments[i].filesz <= |contents|
  }

  function AllWrites(segments: seq<Segment>, contents: seq<byte>): seq<Write>
    requires AllInFile(segments, contents)
  {
    if segments == [] then []
    else AllWrites(segments[..|segments| - 1], contents) + SegmentWrites(segments[|segments| - 1], contents)
  }

  /** No two target ranges have an address in common. */
  ghost predicate Disjoint(segments: seq<Segment>) {
    forall i, j :: 0 <= i < j < |segments| ==>
                     segments[i].End() <= segments[j].addr || segments[j].End() <= segments[i].addr
  }

  /** The segment that an address is in. */
  ghost predicate Within(segments: seq<Segment>, i: nat, a: nat) {
    i < |segments| && segments[i].addr <= a < segments[i].End()
  }

  /** What memory holds at an address once the segments are loaded one after the other. */
  function SegmentByte(segments: seq<Segment>, contents: seq<byte>, a: nat): Option<byte>
    requires AllInFile(segments, contents)
    decreases |segments|
  {
    if segments == [] then None
    else
      var last := segments[|segments| - 1];
      if last.addr <= a < last.End() then Some(last.ByteFor(contents, a))
      else SegmentByte(segments[..|segments| - 1], contents, a)
  }

  // ----- what the writes come to -----

  lemma {:induction false} LastWrittenAppend(x: seq<Write>, y: seq<Write>, a: nat)
    ensures LastWritten(x + y, a) == if LastWritten(y, a).Some? then LastWritten(y, a) else LastWritten(x, a)
    decreases |y|
  {
    if y == [] {
      assert x + y == x;
    } else {
      assert (x + y)[..|x + y| - 1] == x + y[..|y| - 1];
      LastWrittenAppend(x, y[..|y| - 1], a);
    }
  }

  lemma LastWrittenOne(w: Write, a: nat)
    ensures LastWritten([w], a) == if w.Touches(a) then Some(w.bytes[a - w.at]) else None
  {
    assert [w][..0] == [];
  }

  /** The writes of a segment give its range exactly its bytes. */
  lemma SegmentWritten(s: Segment, contents: seq<byte>, a: nat)
    requires s.InFile(contents)
    ensures LastWritten(SegmentWrites(s, contents), a)
            == if s.addr <= a < s.End() then Some(s.ByteFor(contents, a)) else None
  {
    hide LastWritten;
    var w := Write(s.addr, s.FileBytes(contents));
    var z := Write(s.addr + s.filesz, s.ZeroBytes());
    LastWrittenOne(w, a);
    LastWrittenOne(z, a);
    LastWrittenAppend([w], [z], a);
    assert [w] + [] == [w];
  }

  lemma {:induction false} AllWritten(segments: seq<Segment>, contents: seq<byte>, a: nat)
    requires AllInFile(segments, contents)
    ensures LastWritten(AllWrites(segments, contents), a) == SegmentByte(segments, contents, a)
    decreases |segments|
  {
    hide LastWritten;
    if segments == [] {
      NothingWritten(a);
    } else {
      var n := |segments| - 1;
      var front, last := segments[..n], segments[n];
      AllWritten(front, contents, a);
      SegmentWritten(last, contents, a);
      LastWrittenAppend(AllWrites(front, contents), SegmentWrites(last, contents), a);
    }
  }

  /** Of disjoint segments, the one that an address is in decides. */
  lemma {:induction false} OneSegment(segments: seq<Segment>, contents: seq<byte>, a: nat, i: nat)
    requires AllInFile(segments, contents) && Disjoint(segments) && Within(segments, i, a)
    ensures SegmentByte(segments, contents, a) == Some(segments[i].ByteFor(contents, a))
    decreases |segments|
  {
    var n := |segments| - 1;
    if i < n {
      OneSegment(segments[..n], contents, a, i);
    }
  }

  lemma NothingWritten(a: nat)
    ensures LastWritten([], a) == None
  {
  }

  /** Earlier segments leave alone what a later one of a disjoint list covers. */
  lemma {:induction false} NotBefore(segments: seq<Segment>, contents: seq<byte>, n: nat, i: nat, a: nat)
    requires n <= i && AllInFile(segments, contents) && Disjoint(segments) && Within(segments, i, a)
    ensures SegmentByte(segments[..n], contents, a) == None
    decreases n
  {
    if n != 0 {
      assert segments[..n][..n - 1] == segments[..n - 1];
      NotBefore(segments, contents, n - 1, i, a);
    }
  }

  // ----- the flat buffer -----

  /** A growing flat buffer. */
  class Cursor {
    var buffer: seq<byte>
    ghost var history: seq<Write>

    constructor ()
      ensures Valid() && buffer == [] && history == []
    {
      buffer, history := [], [];
    }

    /** The buffer holds what was last written, and zeroes where nothing was. */
    ghost predicate Valid()
      reads this
    {
      forall a: nat {:trigger LastWritten(history, a)} ::
        match LastWritten(history, a)
        case Some(b) => a < |buffer| && buffer[a] == b
        case None => a < |buffer| ==> buffer[a] == 0
    }

    method WriteBytes(paddr: nat, bytes: seq<byte>)
      requires Valid()
      modifies this
      ensures Valid() && history == old(history) + [Write(paddr, bytes)]
    {
      ghost var w := Write(paddr, bytes);
      history := history + [w];
      assert (old(history) + [w])[..|old(history)|] == old(history);
      if bytes == [] { return; }
      if |buffer| < paddr { buffer := buffer + seq(paddr - |buffer|, _ => 0); }
      var end := paddr + |bytes|;
      buffer := buffer[..paddr] + bytes + if end < |buffer| then buffer[end..] else [];
    }
  }

  // ----- where files are loaded to -----

  /** A memory that a file can be loaded into. */
  datatype Sink = Image(program: Program) | Flat(cursor: Cursor)

  ghost function Objects(mem: Sink): set<object> { if mem.Image? then {mem.program} else {mem.cursor} }

  ghost predicate Ready(mem: Sink)
    reads Objects(mem)
  {
    if mem.Image? then mem.program.Valid() else mem.cursor.Valid()
  }

  /** Every write so far. */
  ghost function History(mem: Sink): seq<Write>
    reads Objects(mem)
  {
    if mem.Image? then mem.program.history else mem.cursor.history
  }

  /** The memory is an image that is exact so far. */
  ghost predicate ExactImage(mem: Sink)
    reads Objects(mem)
  {
    mem.Image? && Exact(mem.program.segments, mem.program.history)
  }

  /** The same, and the addresses of a range have not been written to. */
  ghost predicate FreeImage(mem: Sink, lo: nat, hi: nat)
    reads Objects(mem)
  {
    mem.Image? && ExactAndFree(mem.program.segments, mem.program.history, lo, hi)
  }

  method WriteTo(mem: Sink, paddr: nat, bytes: seq<byte>)
    requires Ready(mem) && paddr + |bytes| < TWO64
    modifies Objects(mem)
    ensures Ready(mem) && History(mem) == old(History(mem)) + [Write(paddr, bytes)]
    ensures mem.Image? ==> Wrote(old(mem.program.segments), Write(paddr, bytes), mem.program.segments)
  {
    match mem
    case Image(program) => program.WriteBytes(paddr, bytes);
    case Flat(cursor) => cursor.WriteBytes(paddr, bytes);
  }

  // ----- loading -----

  /** The image is exact and the addresses of a range have not been written to. */
  ghost predicate ExactAndFree(m: Chunks, writes: seq<Write>, lo: nat, hi: nat) {
    Exact(m, writes) && forall a :: lo <= a < hi ==> LastWritten(writes, a) == None
  }

  /** A write to the start of a free range keeps the image exact, and the rest of the range free. */
  lemma FreeWrite(m: Chunks, writes: seq<Write>, lo: nat, hi: nat, w: Write, m': Chunks)
    requires Sparse(m) && Wrote(m, w, m') && ExactAndFree(m, writes, lo, hi) && w.at == lo && w.End() <= hi
    ensures ExactAndFree(m', writes + [w], w.End(), hi)
  {
    if w.bytes != [] { FreshNotInterior(m, writes, w); }
    WroteExact(m, w, m', writes);
    forall a | w.End() <= a < hi ensures LastWritten(writes + [w], a) == None {
      LastWrittenAppend(writes, [w], a);
      LastWrittenOne(w, a);
    }
  }

  /** A write to the start of a free range of an image. */
  method WriteFree(mem: Sink, paddr: nat, bytes: seq<byte>, ghost hi: nat)
    requires Ready(mem) && paddr + |bytes| <= hi < TWO64
    modifies Objects(mem)
    ensures Ready(mem) && History(mem) == old(History(mem)) + [Write(paddr, bytes)]
    ensures old(FreeImage(mem, paddr, hi)) ==> FreeImage(mem, paddr + |bytes|, hi)
  {
    hide Exact, HeldAgree, Wrote, LastWritten, Sparse, ExactAndFree;
    ghost var free := FreeImage(mem, paddr, hi);
    WriteTo(mem, paddr, bytes);
    if free {
      FreeWrite(old(mem.program.segments), old(mem.program.history), paddr, hi, Write(paddr, bytes),
                mem.program.segments);
    }
  }

  /** Copy a segment from the file to memory and fill the gap after it with zeroes. */
  method LoadSegment(mem: Sink, s: Segment, contents: seq<byte>)
    requires Ready(mem) && s.InFile(contents) && s.End() < TWO64
    modifies Objects(mem)
    ensures Ready(mem) && History(mem) == old(History(mem)) + SegmentWrites(s, contents)
    ensures old(FreeImage(mem, s.addr, s.End())) ==> ExactImage(mem)
  {
    hide Exact, LastWritten;
    WriteFree(mem, s.addr, s.FileBytes(contents), s.End());
    if s.memsz > s.filesz {
      var firstZero := U64(s.addr + s.filesz);
      WriteFree(mem, firstZero, seq(s.memsz - s.filesz, _ => 0), s.End());
    }
  }

  /** Load all segments; `false` when a segment reaches beyond the file. */
  method LoadSegments(mem: Sink, segments: seq<Segment>, contents: seq<byte>) returns (ok: bool)
    requires Ready(mem) && forall i :: 0 <= i < |segments| ==> segments[i].End() < TWO64
    modifies Objects(mem)
    ensures Ready(mem) && (ok <==> AllInFile(segments, contents))
    ensures ok ==> History(mem) == old(History(mem)) + AllWrites(segments, contents)
    ensures ok && Disjoint(segments) && old(ExactImage(mem) && History(mem) == []) ==> ExactImage(mem)
  {
    ghost var h0 := History(mem);
    ghost var fresh0 := ExactImage(mem) && h0 == [];
    var i := 0;
    assert h0 + AllWrites(segments[..0], contents) == h0;
    hide Exact, HeldAgree, LastWritten, Sparse, SegmentWrites, AllWrites, Disjoint, AllInFile;
    while i < |segments|
      invariant 0 <= i <= |segments| && Ready(mem) && AllInFile(segments[..i], contents)
      invariant History(mem) == h0 + AllWrites(segments[..i], contents)
      invariant Disjoint(segments) && fresh0 && AllInFile(segments, contents) ==> ExactImage(mem)
    {
      if !segments[i].InFile(contents) {
        NotAllInFile(segments, contents, i);
        return false;
      }
      if Disjoint(segments) && fresh0 && AllInFile(segments, contents) {
        assert History(mem) == AllWrites(segments[..i], contents);
        StillFree(segments, contents, i, mem.program.segments);
      }
      LoadSegment(mem, segments[i], contents);
      NextWrites(segments, contents, i);
      AppendAgain(h0, AllWrites(segments[..i], contents), SegmentWrites(segments[i], contents));
      i := i + 1;
    }
    assert segments[..i] == segments;
    ok := true;
  }

  lemma AppendAgain(a: seq<Write>, b: seq<Write>, c: seq<Write>)
    ensures (a + b) + c == a + (b + c)
  {
  }

  lemma NotAllInFile(segments: seq<Segment>, contents: seq<byte>, i: nat)
    requires i < |segments| && !segments[i].InFile(contents)
    ensures !AllInFile(segments, contents)
  {
  }

  lemma NextWrites(segments: seq<Segment>, contents: seq<byte>, i: nat)
    requires i < |segments| && AllInFile(segments[..i], contents) && segments[i].InFile(contents)
    ensures AllInFile(segments[..i + 1], contents)
    ensures AllWrites(segments[..i + 1], contents)
            == AllWrites(segments[..i], contents) + SegmentWrites(segments[i], contents)
  {
    hide SegmentWrites;
    assert segments[..i + 1][..i] == segments[..i];
    assert segments[..i + 1][i] == segments[i];
  }

  /** The range of the next segment has not been written to. */
  lemma StillFree(segments: seq<Segment>, contents: seq<byte>, i: nat, m: Chunks)
    requires i < |segments| && AllInFile(segments, contents) && AllInFile(segments[..i], contents) && Disjoint(segments)
    requires Exact(m, AllWrites(segments[..i], contents))
    ensures ExactAndFree(m, AllWrites(segments[..i], contents), segments[i].addr, segments[i].End())
  {
    hide Exact, LastWritten;
    var s := segments[i];
    forall a | s.addr <= a < s.End() ensures LastWritten(AllWrites(segments[..i], contents), a) == None {
      AllWritten(segments[..i], contents, a);
      NotBefore(segments, contents, i, i, a);
    }
  }

  /** Disjoint segments loaded into an empty image give exactly the file's bytes and zeroes. */
  lemma LoadedExactly(m: Chunks, segments: seq<Segment>, contents: seq<byte>)
    requires AllInFile(segments, contents) && Disjoint(segments) && Exact(m, AllWrites(segments, contents))
    ensures forall i: nat, a: nat :: Within(segments, i, a) ==> ByteAt(m, a) == Some(segments[i].ByteFor(contents, a))
    ensures forall a: nat :: (forall i: nat :: !Within(segments, i, a)) ==> ByteAt(m, a) == None
  {
    forall i: nat, a: nat | Within(segments, i, a) ensures ByteAt(m, a) == Some(segments[i].ByteFor(contents, a)) {
      AllWritten(segments, contents, a);
      OneSegment(segments, contents, a, i);
    }
    forall a: nat | forall i: nat :: !Within(segments, i, a) ensures ByteAt(m, a) == None {
      AllWritten(segments, contents, a);
      NoSegment(segments, contents, a);
    }
  }

  lemma {:induction false} NoSegment(segments: seq<Segment>, contents: seq<byte>, a: nat)
    requires AllInFile(segments, contents) && forall i: nat :: !Within(segments, i, a)
    ensures SegmentByte(segments, contents, a) == None
    decreases |segments|
  {
    if segments != [] {
      var n: nat := |segments| - 1;
      assert !Within(segments, n, a);
      forall i: nat ensures !Within(segments[..n], i, a) { assert !Within(segments, i, a); }
      NoSegment(segments[..n], contents, a);
    }
  }

  // ----- relocation -----

  const R_RISCV_RELATIVE: nat := 3

  datatype Rela = Rela(kind: nat, offset: nat, addend: int)

  function RelaWrite(start: u64, r: Rela): Write { Write(start + r.offset, Memory.ToLE(U64(start + r.addend), 8)) }

  function RelaWrites(start: u64, relas: seq<Rela>): seq<Write> {
    seq(|relas|, i requires 0 <= i < |relas| => RelaWrite(start, relas[i]))
  }

  function Moved(start: u64, segments: seq<Segment>): seq<Segment> {
    seq(|segments|, i requires 0 <= i < |segments| => segments[i].(addr := U64(start + segments[i].addr)))
  }

  /** The target ranges, relative to the start address, end below the end of the address space. */
  ghost predicate TargetsFit(start: u64, segments: seq<Segment>) {
    forall i :: 0 <= i < |segments| ==> U64(start + segments[i].addr) + segments[i].Length() < TWO64
  }

  /** The address is in the target range of a segment. */
  ghost predicate Targets(start: u64, s: Segment, a: nat) {
    U64(start + s.addr) <= a < U64(start + s.addr) + s.Length()
  }

  ghost predicate TargetsDisjoint(start: u64, segments: seq<Segment>) {
    forall i, j :: 0 <= i < j < |segments| ==>
                     var s, t := segments[i], segments[j];
                     || U64(start + s.addr) + s.Length() <= U64(start + t.addr)
                     || U64(start + t.addr) + t.Length() <= U64(start + s.addr)
  }

  /** In each target range are the bytes of the file and then zeroes. */
  ghost predicate AtTarget(m: Chunks, start: u64, s: Segment, contents: seq<byte>)
    requires s.InFile(contents)
  {
    forall a: nat :: Targets(start, s, a) ==>
                       var k := a - U64(start + s.addr);
                       ByteAt(m, a) == Some(if k < s.filesz then contents[s.offset + k] else 0)
  }

  /** That is all there is. */
  ghost predicate Relocated(m: Chunks, start: u64, segments: seq<Segment>, contents: seq<byte>)
    requires AllInFile(segments, contents)
  {
    && (forall i :: 0 <= i < |segments| ==> AtTarget(m, start, segments[i], contents))
    && (forall a: nat :: (forall i :: 0 <= i < |segments| ==> !Targets(start, segments[i], a)) ==> ByteAt(m, a) == None)
  }

  lemma MovedTargets(start: u64, segments: seq<Segment>, i: nat, a: nat)
    ensures i < |segments| ==> (Within(Moved(start, segments), i, a) <==> Targets(start, segments[i], a))
    ensures i >= |segments| ==> !Within(Moved(start, segments), i, a)
  {
  }

  lemma RelocatedExactly(m: Chunks, start: u64, segments: seq<Segment>, contents: seq<byte>)
    requires AllInFile(segments, contents) && AllInFile(Moved(start, segments), contents)
    requires TargetsDisjoint(start, segments) && Exact(m, AllWrites(Moved(start, segments), contents))
    ensures Relocated(m, start, segments, contents)
  {
    var moved := Moved(start, segments);
    hide Exact, AllWrites, ByteAt, Disjoint, TargetsDisjoint, Within, Targets, U64;
    MovedAlike(start, segments, contents);
    LoadedExactly(m, moved, contents);
    forall i: nat, a: nat | i < |segments| && Targets(start, segments[i], a)
      ensures Within(moved, i, a)
    {
      MovedTargets(start, segments, i, a);
    }
    forall i | 0 <= i < |segments| ensures AtTarget(m, start, segments[i], contents) {
      TargetBytes(m, start, segments, contents, i);
    }
    forall a: nat | forall i :: 0 <= i < |segments| ==> !Targets(start, segments[i], a) ensures ByteAt(m, a) == None {
      forall i: nat ensures !Within(moved, i, a) { MovedTargets(start, segments, i, a); }
    }
  }

  lemma TargetBytes(m: Chunks, start: u64, segments: seq<Segment>, contents: seq<byte>, i: nat)
    requires i < |segments| && AllInFile(segments, contents) && AllInFile(Moved(start, segments), contents)
    requires forall a: nat :: Within(Moved(start, segments), i, a) ==>
                                ByteAt(m, a) == Some(Moved(start, segments)[i].ByteFor(contents, a))
    ensures AtTarget(m, start, segments[i], contents)
  {
    hide ByteAt;
    var s, moved := segments[i], Moved(start, segments)[i];
    forall a: nat | Targets(start, s, a)
      ensures var k := a - U64(start + s.addr);
              ByteAt(m, a) == Some(if k < s.filesz then contents[s.offset + k] else 0)
    {
      assert Within(Moved(start, segments), i, a);
    }
  }

  /** The last bytes written where a relocation points are those of the address it relocates, in little-endian order. */
  ghost predicate PointsTo(writes: seq<Write>, start: u64, r: Rela) {
    var at := start + r.offset;
    forall a: nat :: at <= a < at + 8 ==> LastWritten(writes, a) == Some(Memory.Digit(U64(start + r.addend), a - at))
  }

  /** No later relocation overlaps this one. */
  ghost predicate Stands(relas: seq<Rela>, i: nat) {
    && i < |relas|
    && forall j :: i < j < |relas| ==> relas[j].offset + 8 <= relas[i].offset || relas[i].offset + 8 <= relas[j].offset
  }

  lemma {:induction false} RelocationStands(h: seq<Write>, start: u64, relas: seq<Rela>, i: nat)
    requires Stands(relas, i)
    ensures PointsTo(h + RelaWrites(start, relas), start, relas[i])
    decreases |relas|
  {
    hide LastWritten, Memory.ToLE, Memory.Digit;
    var n := |relas| - 1;
    var front, w := relas[..n], RelaWrite(start, relas[n]);
    assert RelaWrites(start, relas) == RelaWrites(start, front) + [w];
    assert h + RelaWrites(start, relas) == (h + RelaWrites(start, front)) + [w];
    if i < n { RelocationStands(h, start, front, i); }
    var at, v := start + relas[i].offset, U64(start + relas[i].addend);
    forall a: nat | at <= a < at + 8
      ensures LastWritten(h + RelaWrites(start, relas), a) == Some(Memory.Digit(v, a - at))
    {
      LastWrittenAppend(h + RelaWrites(start, front), [w], a);
      LastWrittenOne(w, a);
      if i == n { Memory.WrittenDigit(v, 8, a - at); }
    }
  }

  /** In a flat buffer the address can be read where the relocation points. */
  lemma FlatPointsTo(c: Cursor, start: u64, r: Rela)
    requires c.Valid() && PointsTo(c.history, start, r)
    ensures var at := start + r.offset;
            at + 8 <= |c.buffer| && Memory.FromLE(c.buffer[at..at + 8]) == U64(start + r.addend)
  {
    hide LastWritten, Memory.ToLE, Memory.FromLE, Memory.Digit;
    var at, v := start + r.offset, U64(start + r.addend);
    forall k: nat | k < 8 ensures at + k < |c.buffer| && c.buffer[at + k] == Memory.ToLE(v, 8)[k] {
      assert LastWritten(c.history, at + k) == Some(Memory.Digit(v, k));
      Memory.WrittenDigit(v, 8, k);
    }
    assert LastWritten(c.history, at + 7) == Some(Memory.Digit(v, 7));
    assert c.buffer[at..at + 8] == Memory.ToLE(v, 8);
    Memory.LERoundTrip(v, 8);
    Pow2Of64();
  }

  /** No relocation reaches the address. */
  ghost predicate Unpatched(start: u64, relas: seq<Rela>, a: nat) {
    forall j :: 0 <= j < |relas| ==> a < start + relas[j].offset || start + relas[j].offset + 8 <= a
  }

  /** The last bytes written in a target range are those of the file and then zeroes, save for relocations. */
  ghost predicate FilledFrom(writes: seq<Write>, start: u64, s: Segment, relas: seq<Rela>, contents: seq<byte>)
    requires s.InFile(contents)
  {
    forall a: nat :: Targets(start, s, a) && Unpatched(start, relas, a) ==>
                       var k := a - U64(start + s.addr);
                       LastWritten(writes, a) == Some(if k < s.filesz then contents[s.offset + k] else 0)
  }

  lemma {:induction false} UnpatchedStays(h: seq<Write>, start: u64, relas: seq<Rela>, a: nat)
    requires Unpatched(start, relas, a)
    ensures LastWritten(h + RelaWrites(start, relas), a) == LastWritten(h, a)
    decreases |relas|
  {
    hide LastWritten, Memory.ToLE;
    if relas == [] {
      assert h + RelaWrites(start, relas) == h;
    } else {
      var n := |relas| - 1;
      var front, w := relas[..n], RelaWrite(start, relas[n]);
      assert h + RelaWrites(start, relas) == (h + RelaWrites(start, front)) + [w];
      UnpatchedStays(h, start, front, a);
      LastWrittenAppend(h + RelaWrites(start, front), [w], a);
      LastWrittenOne(w, a);
    }
  }

  lemma MovedAt(start: u64, segments: seq<Segment>)
    ensures var moved := Moved(start, segments);
            && |moved| == |segments|
            && forall i :: 0 <= i < |moved| ==>
                 && moved[i].offset == segments[i].offset && moved[i].filesz == segments[i].filesz
                 && moved[i].addr == U64(start + segments[i].addr)
                 && moved[i].End() == U64(start + segments[i].addr) + segments[i].Length()
  {
    hide U64;
  }

  /** Moving segments keeps what is required of them. */
  lemma MovedAlike(start: u64, segments: seq<Segment>, contents: seq<byte>)
    ensures AllInFile(Moved(start, segments), contents) <==> AllInFile(segments, contents)
    ensures TargetsDisjoint(start, segments) ==> Disjoint(Moved(start, segments))
    ensures var moved := Moved(start, segments);
            TargetsFit(start, segments) ==> forall i :: 0 <= i < |moved| ==> moved[i].End() < TWO64
  {
    hide U64, Moved;
    MovedAt(start, segments);
    var moved := Moved(start, segments);
    if AllInFile(moved, contents) {
      forall i | 0 <= i < |segments| ensures segments[i].offset + segments[i].filesz <= |contents| {
        assert moved[i].offset + moved[i].filesz <= |contents|;
      }
    }
  }

  /** What the moved segments give an address of a target range. */
  lemma MovedByte(start: u64, segments: seq<Segment>, contents: seq<byte>, i: nat, a: nat)
    requires i < |segments| && AllInFile(segments, contents) && AllInFile(Moved(start, segments), contents)
    requires Disjoint(Moved(start, segments)) && Targets(start, segments[i], a)
    ensures var s := segments[i];
            var k := a - U64(start + s.addr);
            SegmentByte(Moved(start, segments), contents, a) == Some(if k < s.filesz then contents[s.offset + k] else 0)
  {
    hide SegmentByte, Disjoint, AllInFile;
    assert Within(Moved(start, segments), i, a);
    OneSegment(Moved(start, segments), contents, a, i);
  }

  lemma SegmentFilled(start: u64, segments: seq<Segment>, relas: seq<Rela>, contents: seq<byte>, i: nat)
    requires i < |segments| && AllInFile(segments, contents) && AllInFile(Moved(start, segments), contents)
    requires Disjoint(Moved(start, segments))
    ensures var h := AllWrites(Moved(start, segments), contents);
            FilledFrom(h + RelaWrites(start, relas), start, segments[i], relas, contents)
  {
    hide LastWritten, AllWrites, RelaWrites, Disjoint, Unpatched, Targets, Moved, SegmentByte;
    var h, s := AllWrites(Moved(start, segments), contents), segments[i];
    forall a: nat | Targets(start, s, a) && Unpatched(start, relas, a)
      ensures LastWritten(h + RelaWrites(start, relas), a) == SegmentByte(Moved(start, segments), contents, a)
    {
      UnpatchedStays(h, start, relas, a);
      AllWritten(Moved(start, segments), contents, a);
    }
    forall a: nat | Targets(start, s, a)
      ensures a >= U64(start + s.addr)
      ensures var k := a - U64(start + s.addr);
              && (k < s.filesz ==> s.offset + k < |contents|)
              && SegmentByte(Moved(start, segments), contents, a)
                 == Some(if k < s.filesz then contents[s.offset + k] else 0)
    {
      InTarget(start, s, contents, a);
      MovedByte(start, segments, contents, i, a);
    }
  }

  lemma InTarget(start: u64, s: Segment, contents: seq<byte>, a: nat)
    requires Targets(start, s, a) && s.InFile(contents)
    ensures a >= U64(start + s.addr)
    ensures a - U64(start + s.addr) < s.filesz ==> s.offset + a - U64(start + s.addr) < |contents|
  {
  }

  /** Make the relocations; `false` for an unknown one. */
  method Relocate(mem: Sink, start: u64, relas: seq<Rela>) returns (ok: bool)
    requires Ready(mem) && forall i :: 0 <= i < |relas| ==> start + relas[i].offset + 8 < TWO64
    modifies Objects(mem)
    ensures Ready(mem) && (ok <==> forall i :: 0 <= i < |relas| ==> relas[i].kind == R_RISCV_RELATIVE)
    ensures ok ==> History(mem) == old(History(mem)) + RelaWrites(start, relas)
    ensures relas == [] && mem.Image? ==> mem.program.segments == old(mem.program.segments)
  {
    hide HeldAgree, Sparse, Wrote, LastWritten, Memory.ToLE;
    ghost var h := History(mem);
    var i := 0;
    assert h + RelaWrites(start, relas)[..0] == h;
    while i < |relas|
      invariant 0 <= i <= |relas| && Ready(mem) && History(mem) == h + RelaWrites(start, relas)[..i]
      invariant forall j :: 0 <= j < i ==> relas[j].kind == R_RISCV_RELATIVE
      invariant i == 0 && mem.Image? ==> mem.program.segments == old(mem.program.segments)
    {
      if relas[i].kind != R_RISCV_RELATIVE { return false; }
      WriteTo(mem, start + relas[i].offset, Memory.ToLE(U64(start + relas[i].addend), 8));
      assert RelaWrites(start, relas)[..i] + [RelaWrite(start, relas[i])] == RelaWrites(start, relas)[..i + 1];
      i := i + 1;
    }
    assert RelaWrites(start, relas)[..i] == RelaWrites(start, relas);
    ok := true;
  }

  /** What a loaded file comes to: every address relocated, the rest of each segment in place. */
  ghost predicate LoadedFile(writes: seq<Write>, start: u64, segments: seq<Segment>, relas: seq<Rela>,
                             contents: seq<byte>)
    requires AllInFile(segments, contents)
  {
    && (forall i: nat :: Stands(relas, i) ==> PointsTo(writes, start, relas[i]))
    && (forall i :: 0 <= i < |segments| ==> FilledFrom(writes, start, segments[i], relas, contents))
  }

  lemma FileLoaded(start: u64, segments: seq<Segment>, relas: seq<Rela>, contents: seq<byte>)
    requires AllInFile(segments, contents) && AllInFile(Moved(start, segments), contents)
    requires TargetsDisjoint(start, segments)
    ensures var h := AllWrites(Moved(start, segments), contents);
            LoadedFile(h + RelaWrites(start, relas), start, segments, relas, contents)
  {
    MovedAlike(start, segments, contents);
    hide PointsTo, FilledFrom, AllWrites, RelaWrites, Disjoint, TargetsDisjoint;
    var h := AllWrites(Moved(start, segments), contents);
    forall i: nat | Stands(relas, i) ensures PointsTo(h + RelaWrites(start, relas), start, relas[i]) {
      RelocationStands(h, start, relas, i);
    }
    forall i | 0 <= i < |segments|
      ensures FilledFrom(h + RelaWrites(start, relas), start, segments[i], relas, contents)
    {
      SegmentFilled(start, segments, relas, contents, i);
    }
  }

  /** Load a relocatable file; `false` for a segment beyond the file or an unknown relocation. */
  method LoadReloc(mem: Sink, start: u64, segments: seq<Segment>, relas: seq<Rela>, contents: seq<byte>)
    returns (ok: bool)
    requires Ready(mem)
    requires TargetsFit(start, segments)
    requires forall i :: 0 <= i < |relas| ==> start + relas[i].offset + 8 < TWO64
    modifies Objects(mem)
    ensures Ready(mem)
    ensures ok <==> AllInFile(segments, contents) && forall i :: 0 <= i < |relas| ==> relas[i].kind == R_RISCV_RELATIVE
    ensures ok ==> AllInFile(Moved(start, segments), contents)
                   && History(mem) == old(History(mem)) + AllWrites(Moved(start, segments), contents)
                     + RelaWrites(start, relas)
    ensures ok && TargetsDisjoint(start, segments) && old(History(mem)) == [] ==>
              LoadedFile(History(mem), start, segments, relas, contents)
    ensures ok && relas == [] && TargetsDisjoint(start, segments) && old(ExactImage(mem) && History(mem) == []) ==>
              Relocated(mem.program.segments, start, segments, contents)
  {
    hide HeldAgree, Sparse, Wrote, AllWrites, Exact, LastWritten, Relocated, LoadedFile, RelaWrites;
    hide Disjoint, TargetsDisjoint, AllInFile, TargetsFit, Moved;
    MovedAlike(start, segments, contents);
    var moved := Moved(start, segments);
    ok := LoadSegments(mem, moved, contents);
    if !ok { return; }
    ghost var h := AllWrites(moved, contents);
    if TargetsDisjoint(start, segments) && old(History(mem)) == [] {
      assert History(mem) == h;
      if old(ExactImage(mem)) { RelocatedExactly(mem.program.segments, start, segments, contents); }
      FileLoaded(start, segments, relas, contents);
    }
    ok := Relocate(mem, start, relas);
  }

  // ----- both memories -----

  /** What an image holds after some writes is what a flat buffer holds after the same writes. */
  lemma LikeFlat(p: Program, c: Cursor, a: nat)
    requires p.Valid() && c.Valid() && p.history == c.history && ByteAt(p.segments, a).Some?
    ensures a < |c.buffer| && c.buffer[a] == ByteAt(p.segments, a).value
  {
    assert LastWritten(c.history, a) == ByteAt(p.segments, a);
  }

  /** Loading the same file into an image and into a flat buffer: every byte that the image holds is the buffer's. */
  method LoadBoth(p: Program, c: Cursor, start: u64, segments: seq<Segment>, relas: seq<Rela>, contents: seq<byte>)
    returns (ok: bool)
    requires p.Valid() && c.Valid() && p.history == c.history
    requires TargetsFit(start, segments)
    requires forall i :: 0 <= i < |relas| ==> start + relas[i].offset + 8 < TWO64
    modifies p, c
    ensures p.Valid() && c.Valid()
    ensures ok <==> AllInFile(segments, contents) && forall i :: 0 <= i < |relas| ==> relas[i].kind == R_RISCV_RELATIVE
    ensures ok ==> forall a: nat :: ByteAt(p.segments, a).Some? ==>
                                      a < |c.buffer| && c.buffer[a] == ByteAt(p.segments, a).value
  {
    hide AllWrites, HeldAgree, LastWritten;
    ok := LoadReloc(Image(p), start, segments, relas, contents);
    var flat := LoadReloc(Flat(c), start, segments, relas, contents);
    if ok {
      forall a: nat | ByteAt(p.segments, a).Some? ensures a < |c.buffer| && c.buffer[a] == ByteAt(p.segments, a).value {
        LikeFlat(p, c, a);
      }
    }
  }

  /** Every relocation strictly inside a chunk loses the bytes of the chunk that follow it. */
  lemma RelocationLoses(m: Chunks, p: nat, start: u64, r: Rela, m': Chunks)
    requires Sparse(m) && p in m && p < start + r.offset && start + r.offset + 8 < p + |m[p]|
    requires Wrote(m, RelaWrite(start, r), m')
    ensures forall a: nat :: start + r.offset + 8 <= a < p + |m[p]| ==> ByteAt(m, a).Some? && ByteAt(m', a) == None
  {
    var w := RelaWrite(start, r);
    assert LastBelow(m, w.at) == Some(p);
    forall a: nat | start + r.offset + 8 <= a < p + |m[p]| ensures ByteAt(m, a).Some? && ByteAt(m', a) == None {
      Covered(m, p, a);
      assert Lost(m, w, a);
    }
  }
}
