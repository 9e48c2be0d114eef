/**
 Machine words as the interpreter and the generated code see them: unsigned bit patterns of
 64 (or 32) bits, with their two's complement readings, wrapping arithmetic, bitwise
 operations and shifts.
 */
module Words {

  const TWO31: int := 0x8000_0000
  const TWO32: int := 0x1_0000_0000
  const TWO63: int := 0x8000_0000_0000_0000
  const TWO64: int := 0x1_0000_0000_0000_0000
  const TWO127: int := 0x8000_0000_0000_0000_0000_0000_0000_0000
  const TWO128: int := 0x1_0000_0000_0000_0000_0000_0000_0000_0000

  /** A 64-bit pattern; 32-bit values and booleans are the small ones. */
  type u64 = x: int | 0 <= x < TWO64

  type byte = x: int | 0 <= x < 256

  datatype Option<+T> = None | Some(value: T)

  /** Operand width of a value operation. */
  datatype Width = W32 | W64

  /** Truncation to 64 bits (`as u64`, and the result of every wrapping 64-bit operation). */
  function U64(x: int): u64 { x % TWO64 }

  /** The wrapping sum of two words. */
  function Plus(x: int, y: int): u64 { U64(x + y) }

  /** Truncation to 32 bits. */
  function U32(x: int): u64 { x % TWO32 }

  function Wrap(w: Width, x: int): u64 { if w.W64? then U64(x) else U32(x) }

  /** Two's complement reading of a 64-bit pattern (`as i64`). */
  function S64(x: u64): int { if x < TWO63 then x else x - TWO64 }

  /** Two's complement reading of the low 32 bits (`as u32 as i32`). */
  function S32(x: u64): int { if x % TWO32 < TWO31 then x % TWO32 else x % TWO32 - TWO32 }

  function Signed(w: Width, x: u64): int { if w.W64? then S64(x) else S32(x) }

  function Unsigned(w: Width, x: u64): u64 { if w.W64? then x else U32(x) }

  function MinSigned(w: Width): int { if w.W64? then -TWO63 else -TWO31 }

  function FromBool(b: bool): u64 { if b then 1 else 0 }

  function Pow2(k: nat): (r: int)
    ensures r >= 1
  {
    if k == 0 then 1 else 2 * Pow2(k - 1)
  }

  datatype BitFn = BitAnd | BitOr | BitXor

  function OnBits(f: BitFn, x: bool, y: bool): bool {
    match f
    case BitAnd => x && y
    case BitOr => x || y
    case BitXor => x != y
  }

  /** Bit by bit combination of the low `k` bits. */
  function Bitwise(f: BitFn, k: nat, a: nat, b: nat): (r: nat)
    ensures r < Pow2(k)
  {
    if k == 0 then 0 else
      FromBool(OnBits(f, a % 2 == 1, b % 2 == 1)) + 2 * Bitwise(f, k - 1, a / 2, b / 2)
  }

  lemma {:induction false} Pow2Sum(a: nat, b: nat)
    ensures Pow2(a + b) == Pow2(a) * Pow2(b)
  {
    if a != 0 {
      Pow2Sum(a - 1, b);
      assert 2 * (Pow2(a - 1) * Pow2(b)) == (2 * Pow2(a - 1)) * Pow2(b);
    }
  }

  lemma Pow2Of64()
    ensures Pow2(64) == TWO64 && Pow2(32) == TWO32
  {
    assert Pow2(4) == 2 * (2 * Pow2(2)) == 16;
    Pow2Sum(4, 4);
    Pow2Sum(8, 8);
    Pow2Sum(16, 16);
    Pow2Sum(32, 32);
  }

  function Bits64(f: BitFn, a: u64, b: u64): u64 {
    Pow2Of64(); Bitwise(f, 64, a, b)
  }

  function Bits(w: Width, f: BitFn, a: u64, b: u64): u64 {
    Pow2Of64(); if w.W64? then Bitwise(f, 64, a, b) else Bitwise(f, 32, a, b)
  }

  /** Division rounding towards zero, as Rust's `/` and the `sdiv` instruction do. */
  function TruncDiv(a: int, b: int): int
    requires b != 0
  {
    if a >= 0 then (if b > 0 then a / b else -(a / -b))
    else if b > 0 then -(-a / b) else -a / -b
  }

  /** The remainder that goes with `TruncDiv`. */
  function TruncRem(a: int, b: int): int
    requires b != 0
  {
    a - b * TruncDiv(a, b)
  }

  function ShiftAmount(w: Width, n: u64): nat { if w.W64? then n % 64 else n % 32 }

  function ShiftLeft(w: Width, x: u64, n: u64): u64 { Wrap(w, x * Pow2(ShiftAmount(w, n))) }

  function ShiftRightUnsigned(w: Width, x: u64, n: u64): u64 {
    Wrap(w, Unsigned(w, x) / Pow2(ShiftAmount(w, n)))
  }

  function ShiftRightSigned(w: Width, x: u64, n: u64): u64 {
    Wrap(w, Signed(w, x) / Pow2(ShiftAmount(w, n)))
  }

  /** The numbers below `n`. */
  ghost function UpTo(n: nat): (r: set<nat>)
    ensures |r| == n && forall b: nat :: b in r <==> b < n
  {
    if n == 0 then {} else UpTo(n - 1) + {n - 1}
  }

  // ----- facts about masks -----

  /** Masking with all ones changes nothing. */
  lemma {:induction false} AndAllOnes(k: nat, x: nat)
    requires x < Pow2(k)
    ensures Bitwise(BitAnd, k, x, Pow2(k) - 1) == x
  {
    if k != 0 {
      AndAllOnes(k - 1, x / 2);
      assert (Pow2(k) - 1) / 2 == Pow2(k - 1) - 1;
    }
  }

  /** `x & !7` rounds down to a multiple of eight. */
  lemma AndNot7(x: u64)
    ensures Bits64(BitAnd, x, TWO64 - 8) == x - x % 8
  {
    Pow2Of64();
    Pow2Sum(61, 3);
    assert Pow2(3) == 2 * Pow2(2) == 8;
    AndAllOnes(61, x / 8);
    var m := TWO64 - 8;
    assert m / 2 / 2 / 2 == Pow2(61) - 1 && x / 2 / 2 / 2 == x / 8;
    assert Bitwise(BitAnd, 63, x / 2, m / 2) == 2 * Bitwise(BitAnd, 62, x / 2 / 2, m / 2 / 2);
    assert Bitwise(BitAnd, 62, x / 2 / 2, m / 2 / 2) == 2 * Bitwise(BitAnd, 61, x / 8, Pow2(61) - 1);
  }

  lemma {:induction false} AndZero(k: nat)
    ensures Bitwise(BitAnd, k, 0, 0) == 0
  {
    if k != 0 { AndZero(k - 1); }
  }

  /** On zero and one, bitwise and is the conjunction. */
  lemma AndOfBools(x: bool, y: bool)
    ensures Bits64(BitAnd, FromBool(x), FromBool(y)) == FromBool(x && y)
  {
    AndZero(63);
    assert Bitwise(BitAnd, 64, FromBool(x), FromBool(y)) == FromBool(x && y) + 2 * Bitwise(BitAnd, 63, 0, 0);
  }

  /** `x & !1` rounds down to an even number. */
  lemma AndNot1(x: u64)
    ensures Bits64(BitAnd, x, TWO64 - 2) == x - x % 2
  {
    Pow2Of64();
    Pow2Sum(63, 1);
    assert Pow2(1) == 2 * Pow2(0) == 2;
    AndAllOnes(63, x / 2);
    assert (TWO64 - 2) / 2 == Pow2(63) - 1;
  }

  lemma {:induction false} AndWithZero(k: nat, x: nat)
    ensures Bitwise(BitAnd, k, x, 0) == 0
  {
    if k != 0 { AndWithZero(k - 1, x / 2); }
  }

  lemma ModUnique(v: int, d: int, q: int, r: int)
    requires d > 0 && v == q * d + r && 0 <= r < d
    ensures v % d == r
  {
    var q', r' := v / d, v % d;
    assert (q - q') * d == r' - r;
    assert q - q' >= 1 ==> (q - q') * d >= d;
    assert q - q' <= -1 ==> (q - q') * d <= -d;
  }

  lemma HalvedMod(v: nat, p: nat)
    requires p > 0
    ensures v % (2 * p) == v % 2 + 2 * ((v / 2) % p)
  {
    var q, r := (v / 2) / p, (v / 2) % p;
    assert v == 2 * (q * p + r) + v % 2;
    assert v == q * (2 * p) + (2 * r + v % 2);
    assert 0 <= 2 * r + v % 2 < 2 * p;
    ModUnique(v, 2 * p, q, 2 * r + v % 2);
  }

  lemma AndLowStep(k: nat, x: nat, p: nat)
    requires k > 0 && p > 0
    ensures Bitwise(BitAnd, k, x, 2 * p - 1) == x % 2 + 2 * Bitwise(BitAnd, k - 1, x / 2, p - 1)
  {
    assert (2 * p - 1) / 2 == p - 1 && (2 * p - 1) % 2 == 1;
  }

  lemma AndLowNext(k: nat, x: nat, p: nat, r: nat)
    requires k > 0 && p > 0 && Bitwise(BitAnd, k - 1, x / 2, p - 1) == r && r == (x / 2) % p
    ensures Bitwise(BitAnd, k, x, 2 * p - 1) == x % (2 * p)
  {
    hide Bitwise;
    AndLowStep(k, x, p);
    HalvedMod(x, p);
  }

  /** Masking with a power of two less one is the remainder. */
  lemma {:induction false} AndLowMask(k: nat, j: nat, x: nat)
    requires j <= k
    ensures Bitwise(BitAnd, k, x, Pow2(j) - 1) == x % Pow2(j)
    decreases k
  {
    if j == 0 {
      AndWithZero(k, x);
    } else {
      var p := Pow2(j - 1);
      assert Pow2(j) == 2 * p;
      hide Pow2, Bitwise;
      AndLowMask(k - 1, j - 1, x / 2);
      AndLowNext(k, x, p, (x / 2) % p);
    }
  }

  // ----- what the operations mean -----

  /** The two's complement reading is the number in range with the same low bits. */
  lemma SignedMeans(w: Width, x: u64)
    ensures Wrap(w, Signed(w, x)) == Unsigned(w, x)
    ensures MinSigned(w) <= Signed(w, x) < -MinSigned(w)
  {
  }

  /** A number in range is its own reading. */
  lemma SignedOf(w: Width, z: int)
    requires MinSigned(w) <= z < -MinSigned(w)
    ensures Signed(w, Wrap(w, z)) == z
  {
  }

  predicate Bit(x: nat, k: nat) { x / Pow2(k) % 2 == 1 }

  lemma DivTwice(x: nat, p: nat)
    requires p > 0
    ensures x / (2 * p) == x / 2 / p
  {
    var q, r := x / 2 / p, x / 2 % p;
    assert x == 2 * (q * p + r) + x % 2;
    assert x == q * (2 * p) + (2 * r + x % 2) && 0 <= 2 * r + x % 2 < 2 * p;
    DivUnique(x, 2 * p, q, 2 * r + x % 2);
  }

  lemma DivUnique(v: int, d: int, q: int, r: int)
    requires d > 0 && v == q * d + r && 0 <= r < d
    ensures v / d == q
  {
    ModUnique(v, d, q, r);
    assert (v / d) * d == q * d;
    assert (v / d - q) * d == 0;
  }

  lemma BitNext(x: nat, k: nat)
    ensures Bit(x, 0) == (x % 2 == 1) && Bit(x, k + 1) == Bit(x / 2, k)
  {
    assert Pow2(k + 1) == 2 * Pow2(k);
    hide Pow2;
    DivTwice(x, Pow2(k));
  }

  /** Bitwise operations work on each bit. */
  lemma {:induction false} BitwiseBit(f: BitFn, n: nat, a: nat, b: nat, k: nat)
    requires k < n
    ensures Bit(Bitwise(f, n, a, b), k) ==
            match f
            case BitAnd => Bit(a, k) && Bit(b, k)
            case BitOr => Bit(a, k) || Bit(b, k)
            case BitXor => (Bit(a, k) || Bit(b, k)) && !(Bit(a, k) && Bit(b, k))
    decreases n
  {
    var r, rest := Bitwise(f, n, a, b), Bitwise(f, n - 1, a / 2, b / 2);
    assert r == FromBool(OnBits(f, a % 2 == 1, b % 2 == 1)) + 2 * rest;
    assert r / 2 == rest && (r % 2 == 1 <==> OnBits(f, a % 2 == 1, b % 2 == 1));
    hide Bit, Bitwise;
    if k == 0 {
      BitNext(a, 0);
      BitNext(b, 0);
      BitNext(r, 0);
    } else {
      BitNext(a, k - 1);
      BitNext(b, k - 1);
      BitNext(r, k - 1);
      BitwiseBit(f, n - 1, a / 2, b / 2, k - 1);
    }
  }

  /** The number of bits of an operand. */
  function BitsOf(w: Width): nat { if w.W64? then 64 else 32 }

  lemma FloorDiv(z: int, p: int)
    requires p >= 1
    ensures (z / p) * p <= z < (z / p + 1) * p
    ensures z >= 0 ==> 0 <= z / p <= z
    ensures z < 0 ==> z <= z / p < 0
  {
    assert z == (z / p) * p + z % p;
    RoundsDown(z, p, z / p, z % p);
  }

  lemma RoundsDown(z: int, p: int, q: int, r: int)
    requires p >= 1 && z == q * p + r && 0 <= r < p
    ensures q * p <= z < (q + 1) * p
    ensures z >= 0 ==> 0 <= q <= z
    ensures z < 0 ==> z <= q < 0
  {
    assert (q + 1) * p == q * p + p;
    if q >= 0 {
      assert q * (p - 1) == q * p - q && q * (p - 1) >= 0;
    } else {
      assert (q + 1) * (p - 1) == (q + 1) * p - (q + 1) && (-q - 1) * (p - 1) >= 0;
      assert (q + 1) * (p - 1) == -((-q - 1) * (p - 1));
    }
  }

  lemma AmountIs(w: Width, n: u64)
    ensures ShiftAmount(w, n) == n % BitsOf(w)
  {
  }

  lemma WrapSmall(w: Width, x: u64, z: int)
    requires 0 <= z <= Unsigned(w, x)
    ensures Wrap(w, z) == z
  {
  }

  /** A logical right shift divides by a power of two, rounding down; the amount is taken modulo the width. */
  lemma ShiftedRight(w: Width, x: u64, n: u64)
    ensures var p, r := Pow2(n % BitsOf(w)), ShiftRightUnsigned(w, x, n); r * p <= Unsigned(w, x) < (r + 1) * p
  {
    hide Pow2, Wrap, Unsigned, ShiftAmount;
    var u, p := Unsigned(w, x), Pow2(n % BitsOf(w));
    AmountIs(w, n);
    FloorDiv(u, p);
    WrapSmall(w, x, u / p);
    assert ShiftRightUnsigned(w, x, n) == u / p;
  }

  /** So does an arithmetic one, on the two's complement readings. */
  lemma ShiftedArithmetically(w: Width, x: u64, n: u64)
    ensures var p, r := Pow2(n % BitsOf(w)), Signed(w, ShiftRightSigned(w, x, n)); r * p <= Signed(w, x) < (r + 1) * p
  {
    hide Pow2, Wrap, Signed, ShiftAmount;
    var z, p := Signed(w, x), Pow2(n % BitsOf(w));
    AmountIs(w, n);
    FloorDiv(z, p);
    SignedMeans(w, x);
    SignedOf(w, z / p);
    assert Signed(w, ShiftRightSigned(w, x, n)) == z / p;
  }

  /** A left shift doubles so often, modulo the width. */
  lemma ShiftedLeft(w: Width, x: u64, n: u64)
    requires n < BitsOf(w)
    ensures ShiftLeft(w, x, n) == if n == 0 then Wrap(w, x) else Wrap(w, 2 * ShiftLeft(w, x, n - 1))
    ensures ShiftLeft(w, x, n + BitsOf(w)) == ShiftLeft(w, x, n)
  {
    assert ShiftAmount(w, n) == ShiftAmount(w, n + BitsOf(w)) == n && Pow2(0) == 1;
    if n != 0 {
      assert ShiftAmount(w, n - 1) == n - 1;
      var p := Pow2(n - 1);
      assert Pow2(n) == 2 * p;
      hide Pow2, Wrap, ShiftAmount;
      Doubled(x, p);
      DoubledWrap(w, x * p);
    }
  }

  lemma Doubled(x: int, p: int)
    ensures x * (2 * p) == 2 * (x * p)
  {
  }

  lemma DoubledWrap(w: Width, z: int)
    ensures Wrap(w, 2 * Wrap(w, z)) == Wrap(w, 2 * z)
  {
  }
}
