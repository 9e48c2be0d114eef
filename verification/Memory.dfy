/**
 Main memory: a flat array of bytes with read, write and execute permissions per page.
 Accesses are little-endian and are refused when out of bounds or when one of the pages
 they touch lacks the permission.
 */
module Memory {
  import opened Words

  const PAGE_SIZE: nat := 4096

  datatype RawMem = RawMem(data: seq<byte>, readable: seq<bool>, writable: seq<bool>, executable: seq<bool>)

  ghost predicate WellSized(m: RawMem) {
    && |m.data| == PAGE_SIZE * |m.readable|
    && |m.readable| == |m.writable| == |m.executable|
  }

  type Mem = m: RawMem | WellSized(m) ghost witness RawMem([], [], [], [])

  /** Width of a memory access. */
  datatype Size = Byte | Half | Word | Double

  function Bytes(size: Size): nat {
    match size
    case Byte => 1
    case Half => 2
    case Word => 4
    case Double => 8
  }

  // ----- little-endian numbers -----

  function FromLE(s: seq<byte>): (r: nat)
    ensures r < Pow2(8 * |s|)
  {
    if s == [] then 0 else
      Pow2Sum(8, 8 * (|s| - 1));
      assert Pow2(8) == 256 by { assert Pow2(8) == 4 * Pow2(6) == 16 * Pow2(4) == 64 * Pow2(2); }
      s[0] + 256 * FromLE(s[1..])
  }

  lemma TwoBytes(s: seq<byte>)
    requires |s| == 2
    ensures FromLE(s) == (s[0] as int) + 256 * (s[1] as int)
  {
    hide Pow2;
    assert s[1..] == [s[1]] && [s[1]][1..] == [];
    assert FromLE([s[1]]) == s[1] + 256 * FromLE([]);
  }

  function ToLE(v: nat, n: nat): (s: seq<byte>)
    ensures |s| == n
  {
    if n == 0 then [] else [v % 256] + ToLE(v / 256, n - 1)
  }

  /** Writing a number and reading it back truncates it to the width written. */
  lemma {:induction false} LERoundTrip(v: nat, n: nat)
    ensures FromLE(ToLE(v, n)) == v % Pow2(8 * n)
  {
    if n != 0 {
      LERoundTrip(v / 256, n - 1);
      Pow2Sum(8, 8 * (n - 1));
      assert Pow2(8) == 256 by { assert Pow2(8) == 4 * Pow2(6) == 16 * Pow2(4) == 64 * Pow2(2); }
      var p := Pow2(8 * (n - 1));
      assert ToLE(v, n)[1..] == ToLE(v / 256, n - 1);
      ModSplit(v, p);
    }
  }

  lemma ModSplit(v: nat, p: nat)
    requires p > 0
    ensures v % (256 * p) == v % 256 + 256 * ((v / 256) % p)
  {
    var q, r := (v / 256) / p, (v / 256) % p;
    assert v == 256 * (q * p + r) + v % 256;
    assert v == q * (256 * p) + (256 * r + v % 256);
    assert 0 <= 256 * r + v % 256 < 256 * p;
    ModUnique(v, 256 * p, q, 256 * r + v % 256);
  }

  /** Reading bytes as a number and writing it out again gives the bytes back. */
  lemma {:induction false} LEBytes(s: seq<byte>)
    ensures ToLE(FromLE(s), |s|) == s
  {
    if s != [] {
      LEBytes(s[1..]);
      assert FromLE(s) % 256 == s[0] && FromLE(s) / 256 == FromLE(s[1..]);
    }
  }

  /** Byte `k` of a number: the bytes are in little-endian order. */
  function Digit(v: nat, k: nat): byte { v / Pow2(8 * k) % 256 }

  lemma DigitNext(v: nat, k: nat)
    ensures Digit(v, 0) == v % 256 && Digit(v, k + 1) == Digit(v / 256, k)
  {
    var p := Pow2(8 * k);
    assert Pow2(8 * (k + 1)) == 256 * p by {
      Pow2Sum(8, 8 * k);
      assert Pow2(8) == 256 by { assert Pow2(8) == 4 * Pow2(6) == 16 * Pow2(4) == 64 * Pow2(2); }
    }
    hide Pow2;
    var q, r := v / 256 / p, v / 256 % p;
    assert v == 256 * (q * p + r) + v % 256;
    assert v == q * (256 * p) + (256 * r + v % 256) && 0 <= 256 * r + v % 256 < 256 * p;
    DivUnique(v, 256 * p, q, 256 * r + v % 256);
  }

  lemma {:induction false} WrittenDigit(v: nat, n: nat, k: nat)
    requires k < n
    ensures ToLE(v, n)[k] == Digit(v, k)
    decreases n
  {
    if k == 0 {
      DigitNext(v, 0);
    } else {
      DigitNext(v, k - 1);
      WrittenDigit(v / 256, n - 1, k - 1);
    }
  }

  lemma ReadDigit(s: seq<byte>, k: nat)
    requires k < |s|
    ensures Digit(FromLE(s), k) == s[k]
  {
    WrittenDigit(FromLE(s), |s|, k);
    LEBytes(s);
  }

  lemma SizeBound(size: Size)
    ensures Pow2(8 * Bytes(size)) <= TWO64
  {
    Pow2Of64();
    Pow2Sum(8 * Bytes(size), 64 - 8 * Bytes(size));
    assert Pow2(64 - 8 * Bytes(size)) >= 1;
    assert Pow2(8 * Bytes(size)) * Pow2(64 - 8 * Bytes(size)) >= Pow2(8 * Bytes(size)) * 1;
  }

  /** Truncation of a register value to the width of an access. */
  function Truncate(size: Size, v: u64): u64 {
    SizeBound(size);
    v % Pow2(8 * Bytes(size))
  }

  /** Extension of a value of the given width to a register value. */
  function Extend(size: Size, signed: bool, v: u64): u64 {
    var range := Pow2(8 * Bytes(size));
    if signed && 2 * v >= range then U64(v - range) else v
  }

  // ----- accesses -----

  /** The bounds check: `length <= total.saturating_sub(address)`. */
  predicate InBounds(m: Mem, addr: u64, len: nat) { addr + len <= |m.data| }

  /** Whether the first and the last byte of a narrow access lie on pages with the permission. */
  predicate CanAccess(pages: seq<bool>, addr: nat, len: nat)
    requires 0 < len && addr + len <= PAGE_SIZE * |pages|
  {
    pages[addr / PAGE_SIZE] && pages[(addr + len - 1) / PAGE_SIZE]
  }

  function Read(m: Mem, addr: u64, size: Size): Option<u64> {
    var len := Bytes(size);
    if InBounds(m, addr, len) && CanAccess(m.readable, addr, len) then
      SizeBound(size);
      Some(FromLE(m.data[addr..addr + len]))
    else
      None
  }

  /** Replace the bytes at `addr`. */
  function Splice(data: seq<byte>, addr: nat, bytes: seq<byte>): (r: seq<byte>)
    requires addr + |bytes| <= |data|
    ensures |r| == |data|
    ensures forall i :: 0 <= i < |data| ==>
                          r[i] == if addr <= i < addr + |bytes| then bytes[i - addr] else data[i]
  {
    data[..addr] + bytes + data[addr + |bytes|..]
  }

  function Write(m: Mem, addr: u64, size: Size, v: u64): Option<Mem> {
    var len := Bytes(size);
    if InBounds(m, addr, len) && CanAccess(m.writable, addr, len) then
      Some(m.(data := Splice(m.data, addr, ToLE(v, len))))
    else
      None
  }

  /** A half-word read for execution, with the flag saying that it may still be written to. */
  datatype InstructionData = InstructionData(data: u64, writable: bool)

  function ReadExec(m: Mem, addr: u64): Option<InstructionData> {
    if InBounds(m, addr, 2) && CanAccess(m.executable, addr, 2) then
      SizeBound(Half);
      Some(InstructionData(FromLE(m.data[addr..addr + 2]), CanAccess(m.writable, addr, 2)))
    else
      None
  }

  /** Every byte of a range lies on a page with the permission. */
  ghost predicate Permitted(pages: seq<bool>, addr: nat, len: nat)
    requires addr + len <= PAGE_SIZE * |pages|
  {
    forall a :: addr <= a < addr + len ==> pages[a / PAGE_SIZE]
  }

  lemma AccessIff(pages: seq<bool>, addr: nat, len: nat)
    requires 0 < len <= PAGE_SIZE && addr + len <= PAGE_SIZE * |pages|
    ensures CanAccess(pages, addr, len) <==> Permitted(pages, addr, len)
  {
    assert forall a :: addr <= a < addr + len ==>
                         a / PAGE_SIZE == addr / PAGE_SIZE || a / PAGE_SIZE == (addr + len - 1) / PAGE_SIZE;
  }

  /** A read succeeds exactly when all bytes are in memory and readable, and gives them in little-endian order. */
  lemma ReadMeans(m: Mem, addr: u64, size: Size)
    ensures Read(m, addr, size).Some? <==>
            addr + Bytes(size) <= |m.data| && Permitted(m.readable, addr, Bytes(size))
    ensures Read(m, addr, size).Some? ==>
              && Read(m, addr, size).value < Pow2(8 * Bytes(size))
              && forall k :: 0 <= k < Bytes(size) ==> Digit(Read(m, addr, size).value, k) == m.data[addr + k]
  {
    hide CanAccess, Permitted, Digit, FromLE;
    var len := Bytes(size);
    if addr + len <= |m.data| {
      AccessIff(m.readable, addr, len);
      var bytes := m.data[addr..addr + len];
      forall k | 0 <= k < len ensures Digit(FromLE(bytes), k) == m.data[addr + k] { ReadDigit(bytes, k); }
    }
  }

  /** A write succeeds exactly when all bytes are in memory and writable, and changes these bytes. */
  lemma WriteMeans(m: Mem, addr: u64, size: Size, v: u64)
    ensures Write(m, addr, size, v).Some? <==>
            addr + Bytes(size) <= |m.data| && Permitted(m.writable, addr, Bytes(size))
    ensures Write(m, addr, size, v).Some? ==>
              var m' := Write(m, addr, size, v).value;
              && m' == m.(data := m'.data) && |m'.data| == |m.data|
              && forall a: nat :: a < |m.data| ==>
                   m'.data[a] == if addr <= a < addr + Bytes(size) then Digit(v, a - addr) else m.data[a]
  {
    hide CanAccess, Permitted, Digit, ToLE;
    var len := Bytes(size);
    if addr + len <= |m.data| {
      AccessIff(m.writable, addr, len);
      forall k | 0 <= k < len ensures ToLE(v, len)[k] == Digit(v, k) { WrittenDigit(v, len, k); }
    }
  }

  /** Fetching a half-word succeeds exactly when both bytes are in memory and executable. */
  lemma ReadExecMeans(m: Mem, addr: u64)
    ensures ReadExec(m, addr).Some? <==> addr + 2 <= |m.data| && Permitted(m.executable, addr, 2)
    ensures ReadExec(m, addr).Some? ==>
              && ReadExec(m, addr).value.data == (m.data[addr] as int) + 256 * (m.data[addr + 1] as int)
              && ReadExec(m, addr).value.writable == Permitted(m.writable, addr, 2)
  {
    hide CanAccess, Permitted, FromLE;
    if addr + 2 <= |m.data| {
      AccessIff(m.executable, addr, 2);
      AccessIff(m.writable, addr, 2);
      TwoBytes(m.data[addr..addr + 2]);
    }
  }

  /** Extension keeps the value: the low bytes are those given, and the reading is in the range of the width. */
  lemma ExtendMeans(size: Size, signed: bool, v: u64)
    requires v < Pow2(8 * Bytes(size))
    ensures Truncate(size, Extend(size, signed, v)) == v
    ensures signed ==> var half := Pow2(8 * Bytes(size) - 1); -half <= S64(Extend(size, true, v)) < half
    ensures !signed ==> Extend(size, false, v) < Pow2(8 * Bytes(size))
  {
    SizeBound(size);
    var half := Pow2(8 * Bytes(size) - 1);
    assert Pow2(8 * Bytes(size)) == 2 * half;
    hide Pow2;
    var q := WholeRange(size, half);
    ExtendRange(v, half, q);
    hide S64, U64;
  }

  /** The range of a width divides that of a register. */
  lemma WholeRange(size: Size, half: int) returns (q: int)
    requires half == Pow2(8 * Bytes(size) - 1)
    ensures 0 < 2 * half <= TWO64 && TWO64 == q * (2 * half)
  {
    var n := 8 * Bytes(size);
    Pow2Of64();
    Pow2Sum(n, 64 - n);
    assert Pow2(n) == 2 * half;
    q := Pow2(64 - n);
    hide Pow2;
    SizeBound(size);
    assert q * (2 * half) == (2 * half) * q;
  }

  lemma ExtendRange(v: int, half: int, q: int)
    requires 0 <= v < 2 * half && 0 < 2 * half <= TWO64 && TWO64 == q * (2 * half)
    ensures v % (2 * half) == v
    ensures 2 * v >= 2 * half ==> U64(v - 2 * half) % (2 * half) == v && S64(U64(v - 2 * half)) == v - 2 * half
    ensures 2 * v < 2 * half ==> S64(v) == v
  {
    ModUnique(v, 2 * half, 0, v);
    if 2 * v >= 2 * half {
      var u := U64(v - 2 * half);
      assert u == v - 2 * half + TWO64;
      assert u == (q - 1) * (2 * half) + v;
      ModUnique(u, 2 * half, q - 1, v);
    }
  }

  // ----- what a store can and cannot do -----

  /** Two memories that differ only in bytes on writable pages. */
  ghost predicate SameCode(m: Mem, m': Mem) {
    && m'.readable == m.readable && m'.writable == m.writable && m'.executable == m.executable
    && |m'.data| == |m.data|
    && forall i :: 0 <= i < |m.data| && !m.writable[i / PAGE_SIZE] ==> m'.data[i] == m.data[i]
  }

  lemma SameCodeTransitive(a: Mem, b: Mem, c: Mem)
    requires SameCode(a, b) && SameCode(b, c)
    ensures SameCode(a, c)
  {
  }

  lemma WriteKeepsCode(m: Mem, addr: u64, size: Size, v: u64)
    requires Write(m, addr, size, v).Some?
    ensures SameCode(m, Write(m, addr, size, v).value)
  {
    var len := Bytes(size);
    // at most two pages are touched, and both are writable
    assert forall i :: addr <= i < addr + len ==>
                         i / PAGE_SIZE == addr / PAGE_SIZE || i / PAGE_SIZE == (addr + len - 1) / PAGE_SIZE;
  }

  /** Both bytes of a half-word lie on pages that cannot be written to. */
  ghost predicate Frozen(m: Mem, addr: u64)
    requires InBounds(m, addr, 2)
  {
    !m.writable[addr / PAGE_SIZE] && !m.writable[(addr + 1) / PAGE_SIZE]
  }

  lemma FrozenStays(m: Mem, m': Mem, addr: u64)
    requires SameCode(m, m') && InBounds(m, addr, 2) && Frozen(m, addr)
    ensures ReadExec(m', addr) == ReadExec(m, addr)
  {
    assert m'.data[addr..addr + 2] == m.data[addr..addr + 2];
  }

  /** The memory with one byte changed. */
  function Flipped(m: Mem, a: nat): Mem
    requires a < |m.data|
  {
    var b: int := m.data[a];
    m.(data := m.data[a := (b + 1) % 256])
  }

  lemma FlippedShows(m: Mem, addr: u64, a: nat)
    requires ReadExec(m, addr).Some? && addr <= a < addr + 2 && m.writable[a / PAGE_SIZE]
    ensures SameCode(m, Flipped(m, a)) && ReadExec(Flipped(m, a), addr) != ReadExec(m, addr)
  {
    var x, y := m.data[addr..addr + 2], Flipped(m, a).data[addr..addr + 2];
    assert x[a - addr] != y[a - addr];
    LEBytes(x);
    LEBytes(y);
  }

  /** No stores change what is fetched. */
  ghost predicate FetchFixed(m: Mem, addr: u64) {
    forall m': Mem {:trigger SameCode(m, m')} :: SameCode(m, m') ==> ReadExec(m', addr) == ReadExec(m, addr)
  }

  /** What can be fetched is out of reach of all stores exactly when neither byte can be written to. */
  lemma FetchFixedIff(m: Mem, addr: u64)
    requires ReadExec(m, addr).Some?
    ensures FetchFixed(m, addr) <==> Frozen(m, addr)
  {
    if Frozen(m, addr) {
      forall m': Mem | SameCode(m, m') ensures ReadExec(m', addr) == ReadExec(m, addr) {
        FrozenStays(m, m', addr);
      }
    } else {
      var a := if m.writable[addr / PAGE_SIZE] then addr else addr + 1;
      FlippedShows(m, addr, a);
    }
  }

  /** Adjacent pages that can both be executed can both be written to, or neither. */
  ghost predicate Unmixed(m: Mem) {
    forall p {:trigger m.executable[p]} ::
      0 <= p < |m.executable| - 1 && m.executable[p] && m.executable[p + 1] ==> m.writable[p] == m.writable[p + 1]
  }

  /** A half-word that counts as unwritable cannot straddle pages of both kinds. */
  ghost predicate Settled(m: Mem, addr: u64) { addr % 2 == 0 || Unmixed(m) }

  lemma SettledFrozen(m: Mem, addr: u64)
    requires Settled(m, addr) && ReadExec(m, addr).Some? && !ReadExec(m, addr).value.writable
    ensures Frozen(m, addr)
  {
    var p, q := addr / PAGE_SIZE, (addr + 1) / PAGE_SIZE;
    assert addr % 2 == 0 ==> p == q;
    assert q == p || q == p + 1;
    assert m.executable[p] && m.executable[q];
  }

  /** A fetched half-word that is not writable stays what it is under any stores. */
  lemma FetchStable(m: Mem, m': Mem, addr: u64)
    requires SameCode(m, m') && Settled(m, addr)
    requires ReadExec(m, addr).Some? ==> !ReadExec(m, addr).value.writable
    ensures ReadExec(m', addr) == ReadExec(m, addr)
  {
    hide Settled;
    if ReadExec(m, addr).Some? {
      SettledFrozen(m, addr);
      FetchFixedIff(m, addr);
      assert FetchFixed(m, addr);
    }
  }

  lemma SettledStays(m: Mem, m': Mem, addr: u64)
    requires SameCode(m, m')
    ensures Settled(m', addr) == Settled(m, addr)
  {
  }

  /** A value stored is the value loaded back, truncated to the width of the access. */
  lemma LoadAfterStore(m: Mem, addr: u64, size: Size, v: u64)
    requires Write(m, addr, size, v).Some?
    requires CanAccess(m.readable, addr, Bytes(size))
    ensures Read(Write(m, addr, size, v).value, addr, size) == Some(Truncate(size, v))
  {
    var len := Bytes(size);
    var m' := Write(m, addr, size, v).value;
    assert m'.data[addr..addr + len] == ToLE(v, len);
    LERoundTrip(v, len);
  }
}
