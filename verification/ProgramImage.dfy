/**
 The image of a program to be loaded: segments are written into a sparse map of chunks that
 stands for flat memory. A write strictly inside a chunk loses the bytes that follow it.
 */
module ProgramImage {
  import opened Words
  import opened Chunks

  datatype Write = Write(at: nat, bytes: seq<byte>) {
    function End(): nat { at + |bytes| }
    predicate Touches(a: nat) { at <= a < End() }
  }

  // ----- one write -----

  /** The chunk before the write reaches beyond the end of it. */
  predicate Interior(m: Chunks, w: Write) {
    var p := LastBelow(m, w.at);
    w.bytes != [] && p.Some? && p.value + |m[p.value]| > w.End()
  }

  /** An address of the chunk before the write, beyond the end of it. */
  predicate Lost(m: Chunks, w: Write, a: nat) {
    var p := LastBelow(m, w.at);
    w.bytes != [] && p.Some? && Covers(m, p.value, a) && a >= w.End()
  }

  /** The exact effect of a write. */
  ghost predicate Wrote(m: Chunks, w: Write, m': Chunks) {
    && Sparse(m')
    && forall a: nat {:trigger ByteAt(m', a)} ::
         ByteAt(m', a) == if w.Touches(a) then Some(w.bytes[a - w.at]) else if Lost(m, w, a) then None else ByteAt(m, a)
  }

  /** Something is lost exactly when the write is interior. */
  lemma LostIffInterior(m: Chunks, w: Write)
    requires Sparse(m)
    ensures Interior(m, w) <==> exists a :: Lost(m, w, a)
    ensures Interior(m, w) ==> Lost(m, w, w.End()) && ByteAt(m, w.End()).Some? && ByteAt(m, w.at).Some?
  {
    if Interior(m, w) {
      var p := LastBelow(m, w.at).value;
      assert Lost(m, w, w.End());
      Covered(m, p, w.End());
      Covered(m, p, w.at);
    }
  }

  // ----- the chunk before the write -----

  /** The map after the chunk that starts before the write has been shrunk. */
  ghost predicate Shrunk(m: Chunks, at: nat, m': Chunks) {
    && Sparse(m') && Clear(m', at)
    && (forall q :: q in m' <==> q in m) && (forall q :: q in m && q >= at ==> m'[q] == m[q])
    && forall a: nat {:trigger ByteAt(m', a)} ::
         ByteAt(m', a)
         == if a >= at && LastBelow(m, at).Some? && Covers(m, LastBelow(m, at).value, a) then None else ByteAt(m, a)
  }

  lemma ShrinkNeeded(m: Chunks, at: nat)
    requires Sparse(m) && LastBelow(m, at).Some?
    requires var p := LastBelow(m, at).value; at < p + |m[p]|
    ensures var p := LastBelow(m, at).value; Shrunk(m, at, m[p := m[p][..at - p]])
  {
    var p := LastBelow(m, at).value;
    var m' := m[p := m[p][..at - p]];
    forall a: nat ensures Sparse(m') && ByteAt(m', a) == if a >= at && Covers(m, p, a) then None else ByteAt(m, a) {
      CutBytes(m, p, at - p, a);
    }
    assert Sparse(m') by { CutBytes(m, p, at - p, 0); }
  }

  lemma ShrinkNotNeeded(m: Chunks, at: nat)
    requires Sparse(m)
    requires var p := LastBelow(m, at); p.Some? ==> p.value + |m[p.value]| <= at
    ensures Shrunk(m, at, m)
  {
  }

  // ----- the pieces of the write -----

  /** Part of the write has been put in place. */
  ghost predicate Filled(m: Chunks, w: Write, upTo: nat, m': Chunks) {
    && Sparse(m')
    && forall a: nat {:trigger ByteAt(m', a)} ::
         ByteAt(m', a) == if w.at <= a < upTo <= w.End() then Some(w.bytes[a - w.at]) else ByteAt(m, a)
  }

  lemma PieceFilled(m: Chunks, w: Write, from: nat, upTo: nat, m1: Chunks, m2: Chunks)
    requires w.at <= from <= upTo <= w.End() && Filled(m, w, from, m1)
    requires Sparse(m2)
    requires forall a: nat :: ByteAt(m2, a) == if from <= a < upTo then Some(w.bytes[a - w.at]) else ByteAt(m1, a)
    ensures Filled(m, w, upTo, m2)
  {
  }

  /** Pieces of the write that, put over the map, fill the write up to an address. */
  ghost predicate Placed(s: Chunks, w: Write, pieces: Chunks, at: nat) {
    && (forall q :: q in pieces ==> q < at)
    && Filled(s, w, at, s + pieces) && Clear(s + pieces, at)
  }

  lemma NothingPlaced(s: Chunks, w: Write)
    requires Sparse(s) && Clear(s, w.at)
    ensures Placed(s, w, map[], w.at)
  {
    assert s + map[] == s;
  }

  /** One more piece, up to the start of the next chunk. */
  lemma PiecePlaced(s: Chunks, w: Write, pieces: Chunks, at: nat, next: nat)
    requires Placed(s, w, pieces, at) && w.at <= at < next < w.End()
    requires next in s && forall q :: q in s && at < q ==> next <= q
    ensures Placed(s, w, pieces[at := w.bytes[at - w.at..next - w.at]], next)
  {
    var m, piece := s + pieces, w.bytes[at - w.at..next - w.at];
    var m' := m[at := piece];
    assert next in m && Fits(m, at, piece);
    PutSparse(m, at, piece);
    forall a: nat ensures ByteAt(m', a) == if at <= a < next then Some(w.bytes[a - w.at]) else ByteAt(m, a) {
      PutBytes(m, at, piece, a);
    }
    PieceFilled(s, w, at, next, m, m');
    assert s + pieces[at := piece] == m';
  }

  lemma PlacedEnds(s: Chunks, w: Write, pieces: Chunks, at: nat)
    requires Placed(s, w, pieces, at)
    ensures Filled(s, w, at, s + pieces) && Clear(s + pieces, at)
    ensures forall q :: q in s + pieces && q > at ==> q in s
  {
  }

  /** The last piece completes the write. */
  lemma FilledWrote(m: Chunks, w: Write, s: Chunks, m': Chunks)
    requires w.bytes != [] && Shrunk(m, w.at, s) && Filled(s, w, w.End(), m')
    ensures Wrote(m, w, m')
  {
  }

  // ----- the program -----

  /** The byte last written to an address. */
  function LastWritten(writes: seq<Write>, a: nat): Option<byte>
    decreases |writes|
  {
    if writes == [] then None
    else
      var w := writes[|writes| - 1];
      if w.Touches(a) then Some(w.bytes[a - w.at]) else LastWritten(writes[..|writes| - 1], a)
  }

  /** Every byte held is the one last written to its address. */
  ghost predicate HeldAgree(m: Chunks, writes: seq<Write>) {
    forall a: nat {:trigger ByteAt(m, a)} :: ByteAt(m, a).Some? ==> ByteAt(m, a) == LastWritten(writes, a)
  }

  /** The image is flat memory. */
  ghost predicate Exact(m: Chunks, writes: seq<Write>) {
    forall a: nat {:trigger ByteAt(m, a)} :: ByteAt(m, a) == LastWritten(writes, a)
  }

  lemma WroteAgrees(m: Chunks, w: Write, m': Chunks, writes: seq<Write>)
    requires Sparse(m) && Wrote(m, w, m') && HeldAgree(m, writes)
    ensures HeldAgree(m', writes + [w])
  {
    assert (writes + [w])[..|writes|] == writes;
  }

  /** An exact image stays exact exactly when the write is not interior. */
  lemma WroteExact(m: Chunks, w: Write, m': Chunks, writes: seq<Write>)
    requires Sparse(m) && Wrote(m, w, m') && Exact(m, writes)
    ensures Exact(m', writes + [w]) <==> !Interior(m, w)
  {
    assert (writes + [w])[..|writes|] == writes;
    LostIffInterior(m, w);
    if Interior(m, w) {
      assert ByteAt(m', w.End()) == None;
    }
  }

  class Program {
    var segments: Chunks

    /** Every write so far. */
    ghost var history: seq<Write>

    constructor ()
      ensures Valid() && segments == map[] && history == []
    {
      segments, history := map[], [];
    }

    ghost predicate Valid()
      reads this
    {
      Sparse(segments) && HeldAgree(segments, history)
    }

    /** Shrink the chunk before the address so that it does not reach it. */
    method ShrinkBefore(at: nat)
      requires Sparse(segments)
      modifies this`segments
      ensures Shrunk(old(segments), at, segments)
    {
      var prev := LastBelow(segments, at);
      if prev.Some? && at < prev.value + |segments[prev.value]| {
        ShrinkNeeded(segments, at);
        segments := segments[prev.value := segments[prev.value][..at - prev.value]];
      } else {
        ShrinkNotNeeded(segments, at);
      }
    }

    /** Write bytes at an address that, with their number, stays below the end of the address space. */
    method WriteBytes(paddr: nat, bytes: seq<byte>)
      requires Valid() && paddr + |bytes| < TWO64
      modifies this
      ensures Valid() && history == old(history) + [Write(paddr, bytes)]
      ensures Wrote(old(segments), Write(paddr, bytes), segments)
    {
      ghost var w := Write(paddr, bytes);
      ghost var m := segments;
      history := history + [w];
      if bytes == [] {
        WroteAgrees(m, w, segments, old(history));
        return;
      }
      ShrinkBefore(paddr);
      ghost var s := segments;
      var at, rest := PutPieces(paddr, bytes);
      FinishWrite(at, rest, s, w);
      FilledWrote(m, w, s, segments);
      WroteAgrees(m, w, segments, old(history));
    }

    /** Put the parts of the write that end where other chunks start; what is left starts at `at`. */
    method PutPieces(paddr: nat, bytes: seq<byte>) returns (at: nat, rest: seq<byte>)
      requires Sparse(segments) && Clear(segments, paddr) && bytes != []
      modifies this`segments
      ensures paddr <= at < paddr + |bytes| && rest == bytes[at - paddr..]
      ensures Filled(old(segments), Write(paddr, bytes), at, segments)
      ensures Clear(segments, at) && forall q :: q in segments && q > at ==> at + |rest| <= q
    {
      hide Filled, Sparse, Clear, Placed, Lists;
      ghost var w := Write(paddr, bytes);
      var keys := KeysIn(segments, paddr, paddr + |bytes|);
      var pieces: Chunks := map[];
      at, rest := paddr, bytes;
      var i := 0;
      NothingPlaced(segments, w);
      while i < |keys|
        invariant 0 <= i <= |keys| && segments == old(segments)
        invariant at == if i == 0 then paddr else keys[i - 1]
        invariant paddr <= at < paddr + |bytes| && rest == bytes[at - paddr..]
        invariant Placed(segments, w, pieces, at)
      {
        NextKey(segments, paddr, paddr + |bytes|, keys, i);
        var next := keys[i];
        var piece := rest[..next - at];
        assert piece == bytes[at - paddr..next - paddr];
        if piece != [] {
          PiecePlaced(segments, w, pieces, at, next);
          pieces := pieces[at := piece];
        }
        at, rest := next, rest[next - at..];
        i := i + 1;
      }
      NextKey(segments, paddr, paddr + |bytes|, keys, i);
      PlacedEnds(segments, w, pieces, at);
      segments := segments + pieces;
    }

    /** Write what is left: over a chunk that starts here and is long enough, or as a new chunk. */
    method FinishWrite(at: nat, rest: seq<byte>, ghost s: Chunks, ghost w: Write)
      requires w.at <= at < w.End() && rest == w.bytes[at - w.at..]
      requires Filled(s, w, at, segments)
      requires Clear(segments, at) && forall q :: q in segments && q > at ==> at + |rest| <= q
      modifies this`segments
      ensures Filled(s, w, w.End(), segments)
    {
      ghost var m1 := segments;
      if at in segments && |segments[at]| >= |rest| {
        segments := segments[at := rest + segments[at][|rest|..]];
        forall a: nat
          ensures Sparse(segments)
          ensures ByteAt(segments, a) == if at <= a < w.End() then Some(w.bytes[a - w.at]) else ByteAt(m1, a)
        {
          OverwriteBytes(m1, at, rest, a);
        }
        assert Sparse(segments) by { OverwriteBytes(m1, at, rest, 0); }
      } else {
        segments := segments[at := rest];
        PutSparse(m1, at, rest);
        forall a: nat
          ensures ByteAt(segments, a) == if at <= a < w.End() then Some(w.bytes[a - w.at]) else ByteAt(m1, a)
        {
          PutBytes(m1, at, rest, a);
        }
      }
      PieceFilled(s, w, at, w.End(), m1, segments);
    }
  }


  // ----- sequences of writes -----

  /** The images before and after each of the writes, from an empty one. */
  ghost predicate WroteAll(images: seq<Chunks>, writes: seq<Write>) {
    && |images| == |writes| + 1 && images[0] == map[]
    && forall i {:trigger writes[i]} :: 0 <= i < |writes| ==> Wrote(images[i], writes[i], images[i + 1])
  }

  /** After every sequence of writes the image is sparse and every byte held is the last one written. */
  lemma {:induction false} AlwaysAgree(images: seq<Chunks>, writes: seq<Write>, n: nat)
    requires WroteAll(images, writes) && n <= |writes|
    ensures Sparse(images[n]) && HeldAgree(images[n], writes[..n])
  {
    if n != 0 {
      AlwaysAgree(images, writes, n - 1);
      assert writes[..n] == writes[..n - 1] + [writes[n - 1]];
      WroteAgrees(images[n - 1], writes[n - 1], images[n], writes[..n - 1]);
    }
  }

  /** An image that is flat memory stays so in the next write exactly when it is not interior. */
  lemma ExactStep(images: seq<Chunks>, writes: seq<Write>, n: nat)
    requires WroteAll(images, writes) && n < |writes| && Exact(images[n], writes[..n])
    ensures Exact(images[n + 1], writes[..n + 1]) <==> !Interior(images[n], writes[n])
  {
    hide Exact, Interior, Wrote, Sparse, HeldAgree;
    AlwaysAgree(images, writes, n);
    assert writes[..n + 1] == writes[..n] + [writes[n]];
    WroteExact(images[n], writes[n], images[n + 1], writes[..n]);
  }

  /** The image is flat memory after each of the first writes. */
  ghost predicate ExactUpTo(images: seq<Chunks>, writes: seq<Write>, n: nat)
    requires n < |images| && n <= |writes|
  {
    forall i :: 0 <= i <= n ==> Exact(images[i], writes[..i])
  }

  ghost predicate NoneInterior(images: seq<Chunks>, writes: seq<Write>, n: nat)
    requires n < |images| && n <= |writes|
  {
    forall i :: 0 <= i < n ==> !Interior(images[i], writes[i])
  }

  lemma OneMore(images: seq<Chunks>, writes: seq<Write>, n: nat)
    requires n + 1 < |images| && n + 1 <= |writes|
    ensures ExactUpTo(images, writes, n) ==> Exact(images[n], writes[..n])
    ensures ExactUpTo(images, writes, n + 1) <==> ExactUpTo(images, writes, n) && Exact(images[n + 1], writes[..n + 1])
    ensures NoneInterior(images, writes, n + 1) <==> NoneInterior(images, writes, n) && !Interior(images[n], writes[n])
  {
    hide Exact, Interior;
  }

  /** The image is flat memory after each of the first writes exactly when none of them is interior. */
  lemma {:induction false} ExactIff(images: seq<Chunks>, writes: seq<Write>, n: nat)
    requires WroteAll(images, writes) && n <= |writes|
    ensures ExactUpTo(images, writes, n) <==> NoneInterior(images, writes, n)
  {
    hide Exact, Interior, Wrote, ExactUpTo, NoneInterior;
    if n == 0 {
      NoneYet(images, writes);
    } else {
      ExactIff(images, writes, n - 1);
      OneMore(images, writes, n - 1);
      if Exact(images[n - 1], writes[..n - 1]) { ExactStep(images, writes, n - 1); }
    }
  }

  lemma EmptyExact()
    ensures Exact(map[], [])
  {
  }

  lemma NoneYet(images: seq<Chunks>, writes: seq<Write>)
    requires images != [] && images[0] == map[]
    ensures ExactUpTo(images, writes, 0) && NoneInterior(images, writes, 0)
  {
    hide Exact, Interior;
    EmptyExact();
    assert writes[..0] == [];
  }

  /** Three bytes at address zero, then one at address one: the byte at address two is gone. */
  lemma InteriorLoses(m: Chunks)
    requires Wrote(map[0 := [1, 2, 3]], Write(1, [9]), m)
    ensures Interior(map[0 := [1, 2, 3]], Write(1, [9]))
    ensures ByteAt(m, 1) == Some(9) && ByteAt(m, 2) == None
    ensures LastWritten([Write(0, [1, 2, 3]), Write(1, [9])], 2) == Some(3)
  {
    var writes := [Write(0, [1, 2, 3]), Write(1, [9])];
    assert writes[..1] == [Write(0, [1, 2, 3])];
    assert LastBelow(map[0 := [1, 2, 3]], 1) == Some(0);
  }

  /** Nothing is lost by a write to an address that was never written to. */
  lemma FreshNotInterior(m: Chunks, writes: seq<Write>, w: Write)
    requires Sparse(m) && HeldAgree(m, writes) && LastWritten(writes, w.at) == None
    ensures !Interior(m, w)
  {
    LostIffInterior(m, w);
  }
}
