/**
 Sparse byte images: an ordered map from addresses to chunks of bytes, and the elementary
 changes made to one.
 */
module Chunks {
  import opened Words

  /** Chunks by start address. */
  type Chunks = map<nat, seq<byte>>

  /** Chunks hold something and do not overlap. */
  ghost predicate Sparse(m: Chunks) {
    && (forall p :: p in m ==> |m[p]| > 0)
    && (forall p, q :: p in m && q in m && p < q ==> p + |m[p]| <= q)
  }

  /** The last chunk that starts below an address. */
  function LastBelow(m: Chunks, a: nat): (r: Option<nat>)
    ensures r.Some? ==> r.value in m && r.value < a && forall q :: q in m && q < a ==> q <= r.value
    ensures r.None? ==> forall q :: q in m ==> q >= a
  {
    if a == 0 then None else if a - 1 in m then Some(a - 1) else LastBelow(m, a - 1)
  }

  ghost predicate Lists(m: Chunks, lo: nat, hi: nat, keys: seq<nat>) {
    && (forall i :: 0 <= i < |keys| ==> lo <= keys[i] < hi && keys[i] in m)
    && (forall i, j :: 0 <= i < j < |keys| ==> keys[i] < keys[j])
    && (forall q :: q in m && lo <= q < hi ==> q in keys)
  }

  /** The addresses in a range at which chunks start, in order. */
  function KeysIn(m: Chunks, lo: nat, hi: nat): (keys: seq<nat>)
    ensures Lists(m, lo, hi, keys)
    decreases if lo < hi then hi - lo else 0
  {
    if lo >= hi then []
    else if lo in m then [lo] + KeysIn(m, lo + 1, hi) else KeysIn(m, lo + 1, hi)
  }

  /** No chunk starts between one of them and the next. */
  lemma NextKey(m: Chunks, lo: nat, hi: nat, keys: seq<nat>, i: nat)
    requires Lists(m, lo, hi, keys) && i <= |keys|
    ensures var at := if i == 0 then lo else keys[i - 1];
            && (i < |keys| ==> at <= keys[i] < hi && keys[i] in m && forall q :: q in m && at < q ==> keys[i] <= q)
            && (i == |keys| ==> forall q :: q in m && at < q ==> hi <= q)
  {
    var at := if i == 0 then lo else keys[i - 1];
    forall q | q in m && at < q < hi ensures i < |keys| && keys[i] <= q {
      var j :| 0 <= j < |keys| && keys[j] == q;
    }
  }

  /** The byte held at an address, if any. */
  function ByteAt(m: Chunks, a: nat): Option<byte> {
    match LastBelow(m, a + 1)
    case None => None
    case Some(p) => if a < p + |m[p]| then Some(m[p][a - p]) else None
  }

  predicate Covers(m: Chunks, p: nat, a: nat) { p in m && p <= a < p + |m[p]| }

  lemma Covered(m: Chunks, p: nat, a: nat)
    requires Sparse(m) && Covers(m, p, a)
    ensures ByteAt(m, a) == Some(m[p][a - p])
  {
  }

  lemma Uncovered(m: Chunks, a: nat)
    requires Sparse(m)
    ensures ByteAt(m, a) == None <==> forall p :: !Covers(m, p, a)
  {
    if ByteAt(m, a).Some? {
      assert Covers(m, LastBelow(m, a + 1).value, a);
    } else {
      forall p ensures !Covers(m, p, a) {
        if Covers(m, p, a) { Covered(m, p, a); }
      }
    }
  }

  /** The chunk that a held byte is in. */
  lemma HeldIn(m: Chunks, a: nat) returns (p: nat)
    requires Sparse(m) && ByteAt(m, a).Some?
    ensures Covers(m, p, a)
  {
    p := LastBelow(m, a + 1).value;
  }

  // ----- elementary changes -----

  /** No chunk that starts below the address reaches it. */
  ghost predicate Clear(m: Chunks, a: nat) { forall p :: p in m && p < a ==> p + |m[p]| <= a }

  /** A chunk is put at an address; a shorter chunk there is replaced. */
  ghost predicate Fits(m: Chunks, p: nat, x: seq<byte>) {
    && |x| > 0 && Clear(m, p)
    && (forall q :: q in m && q > p ==> p + |x| <= q)
    && (p in m ==> |m[p]| <= |x|)
  }

  lemma PutSparse(m: Chunks, p: nat, x: seq<byte>)
    requires Sparse(m) && Fits(m, p, x)
    ensures Sparse(m[p := x])
  {
  }

  lemma PutBytes(m: Chunks, p: nat, x: seq<byte>, a: nat)
    requires Sparse(m) && Fits(m, p, x)
    ensures ByteAt(m[p := x], a) == if p <= a < p + |x| then Some(x[a - p]) else ByteAt(m, a)
  {
    var m' := m[p := x];
    PutSparse(m, p, x);
    if p <= a < p + |x| {
      Covered(m', p, a);
    } else if ByteAt(m, a).Some? {
      var q := HeldIn(m, a);
      Covered(m, q, a);
      Covered(m', q, a);
    } else {
      Uncovered(m, a);
      forall q ensures !Covers(m', q, a) { assert !Covers(m, q, a); }
      Uncovered(m', a);
    }
  }

  /** A chunk is cut off, keeping its first bytes. */
  lemma CutBytes(m: Chunks, p: nat, n: nat, a: nat)
    requires Sparse(m) && p in m && 0 < n <= |m[p]|
    ensures Sparse(m[p := m[p][..n]])
    ensures ByteAt(m[p := m[p][..n]], a) == if Covers(m, p, a) && a >= p + n then None else ByteAt(m, a)
  {
    var m' := m[p := m[p][..n]];
    if ByteAt(m, a).Some? {
      var q := HeldIn(m, a);
      Covered(m, q, a);
      if Covers(m, p, a) && a >= p + n {
        forall r ensures !Covers(m', r, a) { }
        Uncovered(m', a);
      } else {
        Covered(m', q, a);
      }
    } else {
      Uncovered(m, a);
      forall r ensures !Covers(m', r, a) { assert !Covers(m, r, a); }
      Uncovered(m', a);
    }
  }

  /** The first bytes of a chunk are overwritten. */
  lemma OverwriteBytes(m: Chunks, p: nat, x: seq<byte>, a: nat)
    requires Sparse(m) && p in m && |x| <= |m[p]|
    ensures Sparse(m[p := x + m[p][|x|..]])
    ensures ByteAt(m[p := x + m[p][|x|..]], a) == if p <= a < p + |x| then Some(x[a - p]) else ByteAt(m, a)
  {
    var m' := m[p := x + m[p][|x|..]];
    if ByteAt(m, a).Some? {
      var q := HeldIn(m, a);
      Covered(m, q, a);
      Covered(m', q, a);
      if p <= a < p + |x| { Covered(m', p, a); }
    } else {
      Uncovered(m, a);
      assert !Covers(m, p, a);
      forall r ensures !Covers(m', r, a) { assert !Covers(m, r, a); }
      Uncovered(m', a);
    }
  }
}
