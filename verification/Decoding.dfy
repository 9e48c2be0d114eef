/**
 Disassembling a stream of bytes, and its agreement with fetching the same bytes from memory.
 */
module Decoding {
  import opened Words
  import opened Memory
  import opened Machine
  import opened Instructions
  import opened Isa
  import opened Chunks

  /** An encoded instruction of two or four bytes. */
  datatype Encoding = Short(half: u64) | Long(word: u64) {

    function Size(): nat { if Short? then 2 else 4 }

    /** The lowest two bits are both set in an encoding of four bytes, and not in one of two. */
    predicate Proper() {
      if Short? then half < 0x1_0000 && half % 4 != 3 else word < TWO32 && word % 4 == 3
    }

    function Bytes(): seq<byte> { if Short? then ToLE(half, 2) else ToLE(word, 4) }
  }

  /** In terms of the mask: `bits & 0b11 == 0b11` for four bytes. */
  lemma ProperMask(e: Encoding)
    ensures e.Proper() <==> if e.Short? then e.half < 0x1_0000 && Bits64(BitAnd, e.half, 3) != 3
                            else e.word < TWO32 && Bits64(BitAnd, e.word, 3) == 3
  {
    hide Bits64;
    CompressedMask(if e.Short? then e.half else e.word);
  }

  function Decode(isa: Isa, e: Encoding): Instr { if e.Short? then isa.parse16(e.half) else isa.parse32(e.word) }

  function DecodeAll(isa: Isa, es: seq<Encoding>): seq<Instr> {
    seq(|es|, i requires 0 <= i < |es| => Decode(isa, es[i]))
  }

  /** The bytes of encodings laid out one after the other. */
  function Layout(es: seq<Encoding>): seq<byte> { if es == [] then [] else es[0].Bytes() + Layout(es[1..]) }

  // ----- splitting bytes into encodings -----

  function HalfAt(bytes: seq<byte>, p: nat): (h: u64)
    requires p + 2 <= |bytes|
    ensures h < 0x1_0000
  {
    var lower: int, upper: int := bytes[p], bytes[p + 1];
    lower + 256 * upper
  }

  /** The first encoding, unless the bytes end before it does. */
  function First(bytes: seq<byte>): (e: Option<Encoding>)
    ensures e.Some? ==> e.value.Proper() && e.value.Size() <= |bytes|
  {
    if |bytes| < 2 then None
    else if IsCompressed(HalfAt(bytes, 0)) then Some(Short(HalfAt(bytes, 0)))
    else if |bytes| < 4 then None
    else Some(Long(HalfAt(bytes, 0) + HalfAt(bytes, 2) * 0x1_0000))
  }

  function Items(bytes: seq<byte>): seq<Encoding>
    decreases |bytes|
  {
    match First(bytes)
    case None => []
    case Some(e) => [e] + Items(bytes[e.Size()..])
  }

  lemma ShortBytes(v: nat)
    requires v < 0x1_0000
    ensures ToLE(v, 2) == [v % 256, v / 256]
  {
    assert ToLE(v / 256, 1) == [v / 256 % 256] + ToLE(v / 256 / 256, 0);
  }

  lemma LongBytes(v: nat)
    requires v < TWO32
    ensures ToLE(v, 4) == [v % 256, v / 256 % 256, v / 0x1_0000 % 256, v / 0x100_0000]
  {
    assert ToLE(v / 256, 3) == [v / 256 % 256] + ToLE(v / 256 / 256, 2);
    assert v / 256 / 256 == v / 0x1_0000;
    ShortBytes(v / 0x1_0000);
  }

  /** An encoding is read back from its bytes. */
  lemma FirstOfBytes(e: Encoding, rest: seq<byte>)
    requires e.Proper()
    ensures |e.Bytes()| == e.Size() && First(e.Bytes() + rest) == Some(e)
  {
    hide ToLE;
    if e.Short? {
      ShortBytes(e.half);
      assert HalfAt(e.Bytes() + rest, 0) == e.half;
    } else {
      LongBytes(e.word);
      LongHalves(e.word);
      assert HalfAt(e.Bytes() + rest, 0) == e.word % 0x1_0000;
      assert HalfAt(e.Bytes() + rest, 2) == e.word / 0x1_0000;
    }
  }

  lemma LongHalves(v: nat)
    requires v < TWO32
    ensures v % 256 + 256 * (v / 256 % 256) == v % 0x1_0000
    ensures v / 0x1_0000 % 256 + 256 * (v / 0x100_0000) == v / 0x1_0000
    ensures v % 0x1_0000 + v / 0x1_0000 * 0x1_0000 == v && v % 0x1_0000 % 4 == v % 4
  {
    var q := v / 256;
    var h := q / 256;
    var b0, b1, b2, b3 := v % 256, q % 256, h % 256, h / 256;
    assert v == b0 + 256 * b1 + (b2 + 256 * b3) * 0x1_0000;
    Digits(b0, b1, b2, b3);
    FromHalves(v, b0 + 256 * b1, b2 + 256 * b3);
  }

  lemma FromHalves(v: int, low: int, high: int)
    requires v == low + high * 0x1_0000 && 0 <= low < 0x1_0000
    ensures v / 0x1_0000 == high && v % 0x1_0000 == low && low % 4 == v % 4
  {
  }

  lemma Digits(b0: int, b1: int, b2: int, b3: int)
    requires 0 <= b0 < 256 && 0 <= b1 < 256 && 0 <= b2 < 256 && 0 <= b3 < 256
    ensures var v := b0 + 256 * b1 + (b2 + 256 * b3) * 0x1_0000;
            0 <= v < TWO32 && v % 256 == b0 && v / 256 % 256 == b1 && v / 0x1_0000 % 256 == b2 && v / 0x100_0000 == b3
  {
  }

  /** Reading an encoding and writing it out gives the bytes back. */
  lemma BytesOfFirst(bytes: seq<byte>)
    requires First(bytes).Some?
    ensures First(bytes).value.Bytes() == bytes[..First(bytes).value.Size()]
  {
    hide ToLE;
    var e := First(bytes).value;
    if e.Short? {
      Digits(bytes[0], bytes[1], 0, 0);
      ShortBytes(e.half);
    } else {
      Digits(bytes[0], bytes[1], bytes[2], bytes[3]);
      LongBytes(e.word);
    }
  }

  /** The first encoding from a position on. */
  lemma FirstFrom(bytes: seq<byte>, p: nat)
    requires p <= |bytes|
    ensures First(bytes[p..]) ==
            if p + 2 > |bytes| then None
            else if IsCompressed(HalfAt(bytes, p)) then Some(Short(HalfAt(bytes, p)))
            else if p + 4 > |bytes| then None
            else Some(Long(HalfAt(bytes, p) + HalfAt(bytes, p + 2) * 0x1_0000))
  {
    var rest := bytes[p..];
    if |rest| >= 2 { assert HalfAt(rest, 0) == HalfAt(bytes, p); }
    if |rest| >= 4 { assert HalfAt(rest, 2) == HalfAt(bytes, p + 2); }
  }

  /** Laid out encodings are split into the same encodings; only an incomplete tail is dropped. */
  lemma {:induction false} ItemsOfLayout(es: seq<Encoding>, tail: seq<byte>)
    requires First(tail) == None && forall i :: 0 <= i < |es| ==> es[i].Proper()
    ensures Items(Layout(es) + tail) == es
    decreases |es|
  {
    hide First;
    if es == [] {
      assert Layout(es) + tail == tail;
    } else {
      var rest := Layout(es[1..]) + tail;
      assert Layout(es) + tail == es[0].Bytes() + rest;
      FirstOfBytes(es[0], rest);
      assert (es[0].Bytes() + rest)[es[0].Size()..] == rest;
      ItemsOfLayout(es[1..], tail);
    }
  }

  /** Every stream of bytes is a layout of encodings followed by an incomplete tail. */
  lemma {:induction false} LayoutOfItems(bytes: seq<byte>)
    ensures var n := |Layout(Items(bytes))|;
            n <= |bytes| && Layout(Items(bytes)) == bytes[..n] && First(bytes[n..]) == None
    decreases |bytes|
  {
    hide First;
    if First(bytes).Some? {
      var e := First(bytes).value;
      var rest := bytes[e.Size()..];
      BytesOfFirst(bytes);
      LayoutOfItems(rest);
      assert Items(bytes)[1..] == Items(rest);
      var n := |Layout(Items(rest))|;
      assert bytes[..e.Size() + n] == bytes[..e.Size()] + rest[..n];
      assert bytes[e.Size() + n..] == rest[n..];
    } else {
      assert bytes[0..] == bytes;
    }
  }

  /** Disassemble: take half-words from the bytes and instructions from the half-words. */
  method ParseBlock(isa: Isa, bytes: seq<byte>) returns (instrs: seq<Instr>)
    ensures instrs == DecodeAll(isa, Items(bytes))
  {
    hide First, HalfAt;
    instrs := [];
    var p := 0;
    ghost var done: seq<Encoding> := [];
    assert bytes[0..] == bytes;
    FirstFrom(bytes, p);
    while p + 2 <= |bytes|
      invariant 0 <= p <= |bytes|
      invariant Items(bytes) == done + Items(bytes[p..]) && instrs == DecodeAll(isa, done)
      decreases |bytes| - p
    {
      FirstFrom(bytes, p);
      var lower := HalfAt(bytes, p);
      var i, size;
      if IsCompressed(lower) {
        i, size := isa.parse16(lower), 2;
      } else {
        if p + 4 > |bytes| {
          assert done + [] == done;
          return;
        }
        var upper := HalfAt(bytes, p + 2);
        i, size := isa.parse32(U64(lower + upper * 0x1_0000)), 4;
      }
      ghost var e := First(bytes[p..]).value;
      assert i == Decode(isa, e) && size == e.Size();
      ItemsStep(isa, bytes, p, done, e);
      instrs, p, done := instrs + [i], p + size, done + [e];
    }
    FirstFrom(bytes, p);
    assert done + [] == done;
  }

  /** One more encoding has been split off. */
  lemma ItemsStep(isa: Isa, bytes: seq<byte>, p: nat, done: seq<Encoding>, e: Encoding)
    requires p <= |bytes| && First(bytes[p..]) == Some(e)
    ensures done + Items(bytes[p..]) == (done + [e]) + Items(bytes[p + e.Size()..])
    ensures DecodeAll(isa, done + [e]) == DecodeAll(isa, done) + [Decode(isa, e)]
  {
    hide First;
    assert bytes[p..][e.Size()..] == bytes[p + e.Size()..];
    assert done + ([e] + Items(bytes[p + e.Size()..])) == (done + [e]) + Items(bytes[p + e.Size()..]);
  }

  // ----- where instructions are -----

  /** How far an encoding is from the start of the layout. */
  function Offset(es: seq<Encoding>, k: nat): nat
    requires k <= |es|
  {
    if k == 0 then 0 else es[0].Size() + Offset(es[1..], k - 1)
  }

  /** At the offset of an encoding the bytes begin with it. */
  lemma {:induction false} ItemAt(bytes: seq<byte>, k: nat)
    requires k < |Items(bytes)|
    ensures var at := Offset(Items(bytes), k);
            at + Items(bytes)[k].Size() <= |bytes| && First(bytes[at..]) == Some(Items(bytes)[k])
    decreases k
  {
    hide First;
    var e := First(bytes).value;
    if k == 0 {
      assert bytes[0..] == bytes;
    } else {
      var rest := bytes[e.Size()..];
      assert Items(bytes)[1..] == Items(rest);
      ItemAt(rest, k - 1);
      var at := Offset(Items(rest), k - 1);
      assert rest[at..] == bytes[e.Size() + at..];
    }
  }

  lemma {:induction false} OffsetNext(es: seq<Encoding>, k: nat)
    requires k < |es|
    ensures Offset(es, k + 1) == Offset(es, k) + es[k].Size()
    decreases k
  {
    if k != 0 { OffsetNext(es[1..], k - 1); }
  }

  /** The bytes are in memory at the address and may be executed. */
  ghost predicate LoadedAt(m: Mem, base: nat, bytes: seq<byte>) {
    && base + |bytes| <= |m.data| < TWO64
    && m.data[base..base + |bytes|] == bytes
    && forall a :: base <= a < base + |bytes| ==> m.executable[a / PAGE_SIZE]
  }

  lemma HalfFetched(m: Mem, base: nat, bytes: seq<byte>, p: nat)
    requires LoadedAt(m, base, bytes) && p + 2 <= |bytes|
    ensures var f := ReadExec(m, base + p); f.Some? && f.value.data == HalfAt(bytes, p)
  {
    var a := base + p;
    var half := m.data[a..a + 2];
    hide FromLE;
    assert half[0] == bytes[p] && half[1] == bytes[p + 1];
    TwoBytes(half);
    assert m.executable[a / PAGE_SIZE] && m.executable[(a + 1) / PAGE_SIZE];
  }

  lemma FetchFirst(isa: Isa, m: Mem, base: nat, bytes: seq<byte>, at: nat, e: Encoding)
    requires LoadedAt(m, base, bytes) && at < |bytes| && First(bytes[at..]) == Some(e)
    ensures base + at < TWO64
    ensures FetchInstr(isa, m, base + at).Fetched?
    ensures var f := FetchInstr(isa, m, base + at); f.instr == Decode(isa, e) && WidthBytes(f.width) == e.Size()
  {
    hide ReadExec, LoadedAt, First, HalfAt, IsCompressed;
    FirstFrom(bytes, at);
    BelowEnd(m, base, bytes);
    HalfFetched(m, base, bytes, at);
    if e.Long? {
      HalfFetched(m, base, bytes, at + 2);
      assert U64(base + at + 2) == base + at + 2;
    }
  }

  /** Fetching at the address of an encoding decodes the same instruction as disassembling. */
  lemma FetchAgrees(isa: Isa, m: Mem, base: nat, bytes: seq<byte>, k: nat)
    requires LoadedAt(m, base, bytes) && k < |Items(bytes)|
    ensures Offset(Items(bytes), k) < |bytes|
    ensures var f := FetchInstr(isa, m, base + Offset(Items(bytes), k));
            f.Fetched? && f.instr == Decode(isa, Items(bytes)[k]) && WidthBytes(f.width) == Items(bytes)[k].Size()
  {
    hide LoadedAt, First, FetchInstr;
    ItemAt(bytes, k);
    FetchFirst(isa, m, base, bytes, Offset(Items(bytes), k), Items(bytes)[k]);
  }

  lemma BelowEnd(m: Mem, base: nat, bytes: seq<byte>)
    requires LoadedAt(m, base, bytes)
    ensures base + |bytes| < TWO64
  {
  }

  // ----- disassembling a program -----

  function WidthOf(i: Instr): InstrWidth {
    match i
    case Cacheable(c) => c.width
    case Uncacheable(op) => if op.CEbreak? then Compressed else Uncompressed
  }

  /** The width of a decoded instruction is that of its encoding. */
  ghost predicate TellsWidth(isa: Isa) {
    && (forall h :: WidthOf(isa.parse16(h)) == Compressed)
    && (forall w :: WidthOf(isa.parse32(w)) == Uncompressed)
  }

  /** A decoder and the printed form of instructions. */
  datatype Disassembler = Disassembler(isa: Isa, show: Instr -> string)

  function Text(d: Disassembler, e: Encoding): string { d.show(Decode(d.isa, e)) }

  /** The first instructions of a chunk are listed at their addresses. */
  ghost predicate Listed(d: Disassembler, p: nat, es: seq<Encoding>, n: nat, r: map<nat, string>)
    requires n <= |es|
  {
    forall k :: 0 <= k < n ==> var at := p + Offset(es, k); at in r && r[at] == Text(d, es[k])
  }

  /** Every instruction listed is one of a chunk, at its address. */
  ghost predicate Origin(d: Disassembler, m: Chunks, a: nat, text: string) {
    exists p, k ::
      && p in m && 0 <= k < |Items(m[p])|
      && a == p + Offset(Items(m[p]), k) && text == Text(d, Items(m[p])[k])
  }

  ghost predicate OnlyThese(d: Disassembler, m: Chunks, r: map<nat, string>) {
    forall a :: a in r ==> Origin(d, m, a, r[a])
  }

  ghost predicate AllBelow(r: map<nat, string>, bound: nat) { forall a :: a in r ==> a < bound }

  ghost predicate Extends(r: map<nat, string>, r': map<nat, string>) { forall a :: a in r ==> a in r' && r'[a] == r[a] }

  /** All instructions of a chunk are listed. */
  ghost predicate ChunkListed(d: Disassembler, m: Chunks, p: nat, r: map<nat, string>)
    requires p in m
  {
    Listed(d, p, Items(m[p]), |Items(m[p])|, r)
  }

  lemma ListedStays(d: Disassembler, m: Chunks, p: nat, r: map<nat, string>, r': map<nat, string>)
    requires p in m && ChunkListed(d, m, p, r) && Extends(r, r')
    ensures ChunkListed(d, m, p, r')
  {
    hide Items, Offset;
  }

  lemma {:induction false} OffsetGrows(es: seq<Encoding>, j: nat, k: nat)
    requires j < k <= |es|
    ensures Offset(es, j) < Offset(es, k)
    decreases k
  {
    OffsetNext(es, k - 1);
    if j < k - 1 { OffsetGrows(es, j, k - 1); }
  }

  /** Listing one more instruction leaves those before it. */
  lemma ListOne(d: Disassembler, p: nat, es: seq<Encoding>, n: nat, r: map<nat, string>)
    requires n < |es| && Listed(d, p, es, n, r)
    ensures Listed(d, p, es, n + 1, r[p + Offset(es, n) := Text(d, es[n])])
  {
    hide Offset, Text;
    forall k | 0 <= k < n ensures Offset(es, k) < Offset(es, n) { OffsetGrows(es, k, n); }
  }

  /** List the instructions of one chunk after those at lower addresses. */
  method ListChunk(d: Disassembler, ghost m: Chunks, p: nat, bytes: seq<byte>, before: map<nat, string>)
    returns (r: map<nat, string>)
    requires TellsWidth(d.isa) && p in m && m[p] == bytes && AllBelow(before, p) && OnlyThese(d, m, before)
    ensures Listed(d, p, Items(bytes), |Items(bytes)|, r) && OnlyThese(d, m, r) && AllBelow(r, p + |bytes|)
    ensures Extends(before, r)
  {
    hide Items, Offset, Origin;
    r := before;
    var instrs := ParseBlock(d.isa, bytes);
    ghost var es := Items(bytes);
    var address, n := p, 0;
    assert Offset(es, 0) == 0 by { StartOffset(es); }
    while n < |instrs|
      invariant 0 <= n <= |instrs| && address == p + Offset(es, n) && address <= p + |bytes|
      invariant Listed(d, p, es, n, r) && OnlyThese(d, m, r) && AllBelow(r, address)
      invariant Extends(before, r)
    {
      ListOne(d, p, es, n, r);
      OffsetNext(es, n);
      ItemAt(bytes, n);
      assert Origin(d, m, address, d.show(instrs[n])) by { IsOrigin(d, m, p, n); }
      r := r[address := d.show(instrs[n])];
      address := address + WidthBytes(WidthOf(instrs[n]));
      n := n + 1;
    }
  }

  lemma StartOffset(es: seq<Encoding>)
    ensures Offset(es, 0) == 0
  {
  }

  lemma IsOrigin(d: Disassembler, m: Chunks, p: nat, k: nat)
    requires p in m && k < |Items(m[p])|
    ensures Origin(d, m, p + Offset(Items(m[p]), k), Text(d, Items(m[p])[k]))
  {
    hide Items, Offset;
  }

  /** List the instructions of all chunks of a program by address. */
  method Parsed(d: Disassembler, m: Chunks) returns (r: map<nat, string>)
    requires TellsWidth(d.isa) && Sparse(m) && forall p :: p in m ==> p < TWO64
    ensures forall p :: p in m ==> ChunkListed(d, m, p, r)
    ensures OnlyThese(d, m, r)
  {
    hide Items, Listed, OnlyThese, Extends, TellsWidth;
    assert OnlyThese(d, m, map[]) by { NothingListed(d, m); }
    var keys := KeysIn(m, 0, TWO64);
    r := map[];
    var i := 0;
    while i < |keys|
      invariant 0 <= i <= |keys| && OnlyThese(d, m, r)
      invariant forall j :: 0 <= j < i ==> ChunkListed(d, m, keys[j], r)
      invariant i < |keys| ==> AllBelow(r, keys[i])
    {
      ghost var before := r;
      r := ListChunk(d, m, keys[i], m[keys[i]], r);
      forall j | 0 <= j < i ensures ChunkListed(d, m, keys[j], r) {
        ListedStays(d, m, keys[j], before, r);
      }
      i := i + 1;
    }
  }

  lemma NothingListed(d: Disassembler, m: Chunks)
    ensures OnlyThese(d, m, map[])
  {
  }
}
