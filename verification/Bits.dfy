/**
 Go's fixed-width integers and bit operators, written out over Dafny's unbounded
 integers.  A `uint64` is a number below 2^64, an `int` is its two's-complement
 reading, and the bit operators are defined bit by bit, so that the arithmetic
 facts the codec relies on are proved here and nowhere assumed.
 */
module Bits {
  const TWO_31: int := 0x8000_0000
  const TWO_32: int := 0x1_0000_0000
  const TWO_63: int := 0x8000_0000_0000_0000
  const TWO_64: int := 0x1_0000_0000_0000_0000

  /** The largest Go `int`, and so the largest length of a Go slice. */
  const MAX_INT: int := TWO_63 - 1

  type byte = b: int | 0 <= b < 256
  type Slice = s: seq<byte> | |s| <= MAX_INT
  type u64 = x: int | 0 <= x < TWO_64

  function Pow2(n: nat): (p: nat)
    ensures p >= 1
  {
    if n == 0 then 1 else 2 * Pow2(n - 1)
  }

  /** x | y */
  function BitOr(x: nat, y: nat): nat
    decreases x + y
  {
    if x == 0 then y
    else if y == 0 then x
    else (if x % 2 == 1 || y % 2 == 1 then 1 else 0) + 2 * BitOr(x / 2, y / 2)
  }

  /** x & y */
  function BitAnd(x: nat, y: nat): nat {
    if x == 0 || y == 0 then 0
    else (if x % 2 == 1 && y % 2 == 1 then 1 else 0) + 2 * BitAnd(x / 2, y / 2)
  }

  /** x << s, for a uint64: the bits that leave the top are lost. */
  function Shl64(x: nat, s: nat): u64 {
    (x * Pow2(s)) % TWO_64
  }

  /** x >> s */
  function Shr(x: nat, s: nat): nat {
    if s == 0 then x else Shr(x / 2, s - 1)
  }

  /** bits.Len64: the number of bits needed to write x. */
  function Len64(x: nat): nat {
    if x == 0 then 0 else 1 + Len64(x / 2)
  }

  /** int(x) for a uint64 x */
  function ToInt64(x: u64): int {
    if x < TWO_63 then x else x - TWO_64
  }

  /** int32(x): the low 32 bits, read as two's complement. */
  function ToInt32(x: nat): int {
    var low := x % TWO_32;
    if low < TWO_31 then low else low - TWO_32
  }

  /** x + y for two Go ints, wrapping around. */
  function AddInt(x: int, y: int): int {
    ToInt64((x + y) % TWO_64)
  }

  /** Masking with k ones keeps the remainder modulo 2^k. */
  lemma {:induction false} AndOnes(x: nat, k: nat)
    ensures BitAnd(x, Pow2(k) - 1) == x % Pow2(k)
    decreases k
  {
    if k == 0 {
      assert x % 1 == 0;
    } else if x == 0 {
      DivModUnique(0, Pow2(k), 0, 0);
    } else {
      var p := Pow2(k - 1);
      AndOnes(x / 2, k - 1);
      assert (2 * p - 1) / 2 == p - 1 && (2 * p - 1) % 2 == 1;
      ModTwice(x, p);
    }
  }

  lemma Pow2Seven()
    ensures Pow2(7) == 128
  {
    assert Pow2(4) == 16;
  }

  /** x & 0x7F */
  lemma AndSevenOnes(x: nat)
    ensures BitAnd(x, 0x7F) == x % 128
  {
    Pow2Seven();
    AndOnes(x, 7);
  }

  /** x & 0x7 */
  lemma AndThreeOnes(x: nat)
    ensures BitAnd(x, 0x7) == x % 8
  {
    assert Pow2(3) == 8;
    AndOnes(x, 3);
  }

  /** x & 0x7F | 0x80 */
  lemma OrEighthBit(x: nat)
    requires x < 128
    ensures BitOr(x, 0x80) == x + 128
  {
    Pow2Seven();
    OrAbove(x, 1, 7);
  }

  /** x >> 7 */
  lemma ShrSeven(x: nat)
    ensures Shr(x, 7) == x / 128
  {
    var y := x / 2 / 2 / 2 / 2;
    assert Shr(x, 7) == Shr(x / 2 / 2, 5) == Shr(y, 3);
    assert Shr(y, 3) == Shr(y / 2 / 2, 1) == y / 2 / 2 / 2;
  }

  /** x >> 3 */
  lemma ShrThree(x: nat)
    ensures Shr(x, 3) == x / 8
  {
    assert Shr(x, 3) == Shr(x / 2 / 2, 1) == x / 2 / 2 / 2;
  }

  lemma ModTwice(x: nat, p: nat)
    requires p >= 1
    ensures x % (2 * p) == x % 2 + 2 * ((x / 2) % p)
  {
    var q := x / 2 / p;
    var m := (x / 2) % p;
    assert x / 2 == q * p + m;
    var r := x % 2 + 2 * m;
    assert x == q * (2 * p) + r by {
      assert x == 2 * (x / 2) + x % 2;
      assert 2 * (q * p) == q * (2 * p);
    }
    DivModUnique(x, 2 * p, q, r);
  }

  lemma DivModUnique(x: int, d: int, q: int, r: int)
    requires d > 0 && 0 <= r < d && x == q * d + r
    ensures x / d == q && x % d == r
  {
    var q', r' := x / d, x % d;
    assert x == q' * d + r';
    assert (q - q') * d == r' - r;
    assert q - q' >= 1 ==> (q - q') * d >= d;
    assert q - q' <= -1 ==> (q - q') * d <= -d;
  }

  /** Or-ing in bits above every set bit of x is addition. */
  lemma {:induction false} OrAbove(x: nat, c: nat, s: nat)
    requires x < Pow2(s)
    ensures BitOr(x, c * Pow2(s)) == x + c * Pow2(s)
    decreases s
  {
    if s == 0 || x == 0 || c == 0 {
    } else {
      var y := c * Pow2(s);
      var h := c * Pow2(s - 1);
      assert y == 2 * h;
      assert h >= 1;
      OrAbove(x / 2, c, s - 1);
    }
  }

  /** Setting the lowest bit of a non-zero number does not lengthen it. */
  lemma {:induction false} Len64OrOne(x: nat)
    requires x >= 1
    ensures Len64(BitOr(x, 1)) == Len64(x)
  {
    var y := BitOr(x, 1);
    assert BitOr(x / 2, 0) == x / 2;
    assert y == 1 + 2 * (x / 2);
    assert y / 2 == x / 2;
  }
}
