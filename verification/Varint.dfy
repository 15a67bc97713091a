/**
 Base 128 varints: the encoder, its length formula and the decoding loop
 (x/fixedmint/types/params.pb.go, repeated verbatim in every generated file).
 Protocol Buffers Encoding, section "Base 128 Varints".
 */
module Varint {
  import opened Bits
  import opened Wire

  /** A decoded varint and the number of bytes it took. */
  datatype Decoded = Decoded(value: u64, size: nat)

  function Pow128(n: nat): (p: nat)
    ensures p >= 1
  {
    if n == 0 then 1 else 128 * Pow128(n - 1)
  }

  /** The bytes of the shortest varint for v, least significant group first. */
  function Encode(v: nat): (s: seq<byte>)
    ensures |s| >= 1
  {
    if v < 128 then [v] else [v % 128 + 128] + Encode(v / 128)
  }

  /** The length formula of the source. */
  function Sov(x: nat): nat {
    (Len64(BitOr(x, 1)) + 6) / 7
  }

  /** Where the varint at the head of s ends: k bytes of it have been seen. */
  function Extent(s: seq<byte>, k: nat): (r: Result<nat>)
    requires k <= |s|
    ensures r.Ok? ==> k < r.value <= |s| && r.value <= 10
    decreases |s| - k
  {
    if k >= 10 then Err(IntOverflow)
    else if k == |s| then Err(UnexpectedEOF)
    else if s[k] < 128 then Ok(k + 1)
    else Extent(s, k + 1)
  }

  /** The number whose base-128 digits are the low seven bits of each byte. */
  function Digits(s: seq<byte>): nat {
    if s == [] then 0 else s[0] % 128 + 128 * Digits(s[1..])
  }

  /** What decoding the head of s yields; a tenth byte keeps only one bit. */
  function Read(s: seq<byte>): (r: Result<Decoded>)
    ensures r.Ok? ==> 1 <= r.value.size <= |s| && r.value.size <= 10
  {
    match Extent(s, 0)
    case Err(e) => Err(e)
    case Ok(n) => Ok(Decoded(Digits(s[..n]) % TWO_64, n))
  }

  /** s is one whole varint, possibly longer than it needs to be. */
  predicate IsVarint(s: seq<byte>) {
    Extent(s, 0) == Ok(|s|)
  }

  // ---------------------------------------------------------------- powers

  lemma {:induction false} Pow128IsPow2(n: nat)
    ensures Pow128(n) == Pow2(7 * n)
  {
    if n > 0 {
      Pow128IsPow2(n - 1);
      var m := 7 * (n - 1);
      assert 7 * n == m + 7;
      assert Pow2(m + 7) == 2 * Pow2(m + 6);
      assert Pow2(m + 6) == 2 * Pow2(m + 5);
      assert Pow2(m + 5) == 2 * Pow2(m + 4);
      assert Pow2(m + 4) == 2 * Pow2(m + 3);
      assert Pow2(m + 3) == 2 * Pow2(m + 2);
      assert Pow2(m + 2) == 2 * Pow2(m + 1);
      assert Pow2(m + 1) == 2 * Pow2(m);
    }
  }

  lemma Pow128Nine()
    ensures Pow128(9) == TWO_63
    ensures Pow128(10) == 64 * TWO_64
  {
    assert Pow128(3) == 2_097_152;
    assert Pow128(6) == 2_097_152 * 2_097_152 by { assert Pow128(4) == 268_435_456; }
    assert Pow128(9) == TWO_63 by { assert Pow128(7) == 128 * Pow128(6); }
  }

  lemma {:induction false} Pow128Monotone(m: nat, n: nat)
    requires m <= n
    ensures Pow128(m) <= Pow128(n)
  {
    if m < n { Pow128Monotone(m, n - 1); }
  }

  // ---------------------------------------------------------------- digits

  lemma {:induction false} DigitsBound(s: seq<byte>)
    ensures Digits(s) < Pow128(|s|)
  {
    if s != [] { DigitsBound(s[1..]); }
  }

  lemma {:induction false} DigitsSnoc(s: seq<byte>, b: byte)
    ensures Digits(s + [b]) == Digits(s) + (b % 128) * Pow128(|s|)
  {
    if s == [] {
      assert [] + [b] == [b];
      assert [b][1..] == [];
    } else {
      DigitsSnoc(s[1..], b);
      assert (s + [b])[1..] == s[1..] + [b];
      var p := Pow128(|s| - 1);
      assert (b % 128) * (128 * p) == 128 * ((b % 128) * p);
    }
  }

  // ---------------------------------------------------- locality and shape

  /** Decoding looks at no byte after the varint, in either direction. */
  lemma {:induction false} ExtentLocal(s: seq<byte>, t: seq<byte>, k: nat)
    requires k <= |s|
    requires Extent(s, k).Ok?
    ensures Extent(s + t, k) == Extent(s, k)
    decreases |s| - k
  {
    assert (s + t)[k] == s[k];
    if s[k] >= 128 { ExtentLocal(s, t, k + 1); }
  }

  lemma {:induction false} ExtentCut(s: seq<byte>, k: nat, n: nat)
    requires k < n <= |s|
    requires Extent(s, k) == Ok(n)
    ensures Extent(s[..n], k) == Ok(n)
    decreases |s| - k
  {
    assert s[..n][k] == s[k];
    if s[k] >= 128 { ExtentCut(s, k + 1, n); }
  }

  lemma ReadLocal(s: seq<byte>, t: seq<byte>)
    requires Read(s).Ok?
    ensures Read(s + t) == Read(s)
  {
    ExtentLocal(s, t, 0);
    var n := Extent(s, 0).value;
    assert (s + t)[..n] == s[..n];
  }

  /** A varint read off the head of s is a whole varint by itself. */
  lemma ReadIsVarint(s: seq<byte>)
    requires Read(s).Ok?
    ensures IsVarint(s[..Read(s).value.size])
    ensures Read(s[..Read(s).value.size]) == Read(s)
  {
    var n := Extent(s, 0).value;
    ExtentCut(s, 0, n);
    assert s[..n][..n] == s[..n];
  }

  lemma {:induction false} ExtentRefused(s: seq<byte>, k: nat)
    requires k <= |s| && k <= 10
    ensures Extent(s, k) == Err(IntOverflow) <==> |s| >= 10 && forall i :: k <= i < 10 ==> s[i] >= 128
    ensures Extent(s, k) == Err(UnexpectedEOF) <==> |s| < 10 && forall i :: k <= i < |s| ==> s[i] >= 128
    ensures Extent(s, k).Err? ==> Extent(s, k).error in {IntOverflow, UnexpectedEOF}
    decreases |s| - k
  {
    if k < 10 && k < |s| {
      if s[k] >= 128 { ExtentRefused(s, k + 1); }
    }
  }

  /** Decoding fails exactly on ten bytes that all ask for more, or on fewer that are all there is. */
  lemma ReadRefusedExactlyWhen(s: seq<byte>)
    ensures Read(s) == Err(IntOverflow) <==> |s| >= 10 && forall i :: 0 <= i < 10 ==> s[i] >= 128
    ensures Read(s) == Err(UnexpectedEOF) <==> |s| < 10 && forall i :: 0 <= i < |s| ==> s[i] >= 128
    ensures Read(s).Err? ==> Read(s).error in {IntOverflow, UnexpectedEOF}
  {
    hide Extent, Digits;
    ExtentRefused(s, 0);
  }

  /** Nine bytes are read in full; of a tenth only the lowest bit is. */
  lemma TenthByteKeepsOneBit(s: seq<byte>)
    requires Read(s).Ok?
    ensures var Decoded(v, n) := Read(s).value;
            v == if n < 10 then Digits(s[..n]) else Digits(s[..9]) + (s[9] % 2) * TWO_63
  {
    hide Digits, Extent;
    var n := Read(s).value.size;
    Pow128Nine();
    if n < 10 {
      DigitsBound(s[..n]);
      Pow128Monotone(n, 9);
    } else {
      ExtentShape(s, 0, 10);
      assert s[..10] == s[..9] + [s[9]];
      DigitsSnoc(s[..9], s[9]);
      DigitsBound(s[..9]);
      DivModUnique(Digits(s[..10]), TWO_64, s[9] / 2, Digits(s[..9]) + (s[9] % 2) * TWO_63);
    }
  }

  // -------------------------------------------------------------- encoding

  lemma {:induction false} EncodeBound(v: nat, n: nat)
    requires n >= 1
    ensures v < Pow128(n) <==> |Encode(v)| <= n
    decreases n
  {
    if v < 128 {
      Pow128Monotone(1, n);
    } else if n > 1 {
      EncodeBound(v / 128, n - 1);
    }
  }

  lemma {:induction false} Len64Shift7(x: nat)
    requires x >= 128
    ensures Len64(x) == 7 + Len64(x / 128)
  {
    var a := x / 2; var b := a / 2; var c := b / 2; var d := c / 2;
    var e := d / 2; var f := e / 2; var g := f / 2;
    assert g == x / 128;
    assert Len64(x) == 1 + Len64(a) && Len64(a) == 1 + Len64(b);
    assert Len64(b) == 1 + Len64(c) && Len64(c) == 1 + Len64(d);
    assert Len64(d) == 1 + Len64(e) && Len64(e) == 1 + Len64(f);
    assert Len64(f) == 1 + Len64(g);
  }

  lemma Len64Small(x: nat)
    requires 1 <= x < 128
    ensures 1 <= Len64(x) <= 7
  {
    var a := x / 2; var b := a / 2; var c := b / 2; var d := c / 2;
    var e := d / 2; var f := e / 2; var g := f / 2;
    assert g == 0 && Len64(g) == 0;
    assert Len64(f) <= 1;
    assert Len64(e) <= 2;
    assert Len64(d) <= 3;
    assert Len64(c) <= 4;
    assert Len64(b) <= 5;
    assert Len64(a) <= 6;
  }

  /** The bit-length formula is the true length of the encoding. */
  lemma {:induction false} SovIsLength(v: nat)
    ensures Sov(v) == |Encode(v)|
  {
    if v == 0 {
      assert Len64(1) == 1 + Len64(0);
    } else {
      Len64OrOne(v);
      if v < 128 {
        Len64Small(v);
      } else {
        SovIsLength(v / 128);
        Len64OrOne(v / 128);
        Len64Shift7(v);
      }
    }
  }

  /** Sov(v) is the least n >= 1 with v < 2^(7n). */
  lemma SovIsLeast(v: nat, n: nat)
    requires n >= 1
    ensures v < Pow2(7 * n) <==> Sov(v) <= n
  {
    EncodeBound(v, n);
    SovIsLength(v);
    Pow128IsPow2(n);
  }

  lemma U64TakesTen(v: u64)
    ensures |Encode(v)| <= 10
  {
    Pow128Nine();
    EncodeBound(v, 10);
  }

  lemma {:induction false} EncodeShape(v: nat)
    ensures Digits(Encode(v)) == v
    ensures forall i :: 0 <= i < |Encode(v)| - 1 ==> Encode(v)[i] >= 128
    ensures Encode(v)[|Encode(v)| - 1] < 128
  {
    if v < 128 {
      assert [v][1..] == [];
    } else {
      EncodeShape(v / 128);
      var e, rest := Encode(v), Encode(v / 128);
      assert e == [v % 128 + 128] + rest;
      assert e[1..] == rest;
      forall i | 0 <= i < |e| - 1
        ensures e[i] >= 128
      {
        if i > 0 { assert e[i] == rest[i - 1]; }
      }
    }
  }

  lemma {:induction false} ExtentOfContinued(s: seq<byte>, k: nat, n: nat)
    requires k < n <= |s| && n <= 10
    requires forall i :: k <= i < n - 1 ==> s[i] >= 128
    requires s[n - 1] < 128
    ensures Extent(s, k) == Ok(n)
    decreases n - k
  {
    if k < n - 1 { ExtentOfContinued(s, k + 1, n); }
  }

  /** Reading back: every uint64, whatever bytes follow it. */
  lemma RoundTrip(v: u64, rest: seq<byte>)
    ensures Read(Encode(v) + rest) == Ok(Decoded(v, |Encode(v)|))
  {
    var e := Encode(v);
    U64TakesTen(v);
    EncodeShape(v);
    assert forall i :: 0 <= i < |e| ==> (e + rest)[i] == e[i];
    ExtentOfContinued(e + rest, 0, |e|);
    assert (e + rest)[..|e|] == e;
  }

  /** No byte string shorter than Sov(v) decodes to v. */
  lemma Minimal(s: seq<byte>)
    requires Read(s).Ok?
    ensures Sov(Read(s).value.value) <= Read(s).value.size
  {
    var n := Read(s).value.size;
    var d := Digits(s[..n]);
    DigitsBound(s[..n]);
    assert d % TWO_64 <= d;
    EncodeBound(d % TWO_64, n);
    SovIsLength(d % TWO_64);
  }

  /** Every byte but the last of a varint asks for more. */
  lemma {:induction false} ExtentShape(s: seq<byte>, k: nat, n: nat)
    requires k < n <= |s| && Extent(s, k) == Ok(n)
    ensures forall i :: k <= i < n - 1 ==> s[i] >= 128
    ensures s[n - 1] < 128
    decreases |s| - k
  {
    if s[k] >= 128 { ExtentShape(s, k + 1, n); }
  }

  /** Digits determine the bytes, once the length is the encoder's. */
  lemma {:induction false} EncodingIsUnique(t: seq<byte>)
    requires t != [] && |t| == |Encode(Digits(t))|
    requires forall i :: 0 <= i < |t| - 1 ==> t[i] >= 128
    requires t[|t| - 1] < 128
    ensures t == Encode(Digits(t))
    decreases |t|
  {
    var rest := t[1..];
    var d := Digits(rest);
    assert Digits(t) == t[0] % 128 + 128 * d;
    if |t| == 1 {
      assert rest == [];
    } else {
      assert Digits(t) / 128 == d && Digits(t) % 128 == t[0] % 128;
      assert Encode(Digits(t)) == [t[0]] + Encode(d);
      assert forall i :: 0 <= i < |rest| - 1 ==> rest[i] == t[i + 1];
      EncodingIsUnique(rest);
      assert t == [t[0]] + rest;
    }
  }

  /** The tenth byte holds one bit: with a 1 there, nothing is lost. */
  lemma TenBytes(t: seq<byte>)
    requires |t| == 10 && t[9] == 1
    ensures Digits(t) < TWO_64
  {
    assert t == t[..9] + [t[9]];
    DigitsSnoc(t[..9], t[9]);
    DigitsBound(t[..9]);
    Pow128Nine();
  }

  /** In a varint that lost no bits, a last byte other than zero means none is superfluous. */
  lemma ShortestExactlyWhen(t: seq<byte>)
    requires t != []
    requires t[|t| - 1] < 128
    ensures |Encode(Digits(t))| <= |t|
    ensures |Encode(Digits(t))| == |t| <==> |t| == 1 || t[|t| - 1] != 0
  {
    hide Encode, Digits, Pow128;
    var n := |t|;
    DigitsBound(t);
    EncodeBound(Digits(t), n);
    if n > 1 {
      var front, last, p := t[..n - 1], t[n - 1], Pow128(n - 1);
      assert t == front + [last];
      DigitsSnoc(front, last);
      DigitsBound(front);
      EncodeBound(Digits(t), n - 1);
      LeadingDigit(last, p);
    }
  }

  lemma LeadingDigit(d: nat, p: nat)
    ensures d >= 1 ==> d * p >= p
    ensures d == 0 ==> d * p == 0
  {
  }

  /**
   The decoder accepts more than the encoder writes.  A varint it reads is the encoder's
   own exactly when its last byte is not a superfluous zero and a tenth byte, if there is
   one, is 1.
   */
  lemma CanonicalExactlyWhen(s: seq<byte>)
    requires Read(s).Ok?
    ensures var Decoded(v, n) := Read(s).value;
            s[..n] == Encode(v) <==> (n == 1 || s[n - 1] != 0) && (n == 10 ==> s[9] == 1)
  {
    hide Encode, Digits, Extent;
    var Decoded(v, n) := Read(s).value;
    var t := s[..n];
    ExtentShape(s, 0, n);
    if n == 10 && s[9] != 1 {
      if t == Encode(v) {
        LastByteOfTen(v);
      }
    } else {
      NoBitsLost(t);
      ShortestExactlyWhen(t);
      if |Encode(v)| == n {
        EncodingIsUnique(t);
      }
    }
  }

  lemma NoBitsLost(t: seq<byte>)
    requires |t| <= 10 && (|t| == 10 ==> t[9] == 1)
    ensures Digits(t) < TWO_64
  {
    if |t| == 10 {
      TenBytes(t);
    } else {
      DigitsBound(t);
      Pow128Nine();
      Pow128Monotone(|t|, 9);
    }
  }

  /** Zero in two bytes: accepted, and not what the encoder writes. */
  lemma OverlongExample()
    ensures Read([0x80, 0]) == Ok(Decoded(0, 2))
    ensures Encode(0) == [0]
  {
    var s: seq<byte> := [0x80, 0];
    ExtentOfContinued(s, 0, 2);
    assert s[..2] == s && s[1..] == [0] && s[1..][1..] == [];
    assert Digits([0]) == 0;
  }

  lemma LastByteOfTen(v: u64)
    requires |Encode(v)| == 10
    ensures Encode(v)[9] == 1
  {
    var e := Encode(v);
    var front := e[..9];
    EncodeShape(v);
    assert e == front + [e[9]];
    DigitsSnoc(front, e[9]);
    DigitsBound(front);
    Pow128Nine();
    EncodeBound(v, 9);
    assert v == Digits(front) + e[9] * TWO_63;
    assert v >= TWO_63;
  }

  // --------------------------------------------------------------- methods

  /** One step of the loop: `wire |= uint64(b&0x7F) << shift`. */
  lemma AccumulateStep(s: seq<byte>, k: nat)
    requires k < |s| && k < 10
    ensures BitOr(Digits(s[..k]) % TWO_64, Shl64(BitAnd(s[k], 0x7F), 7 * k)) == Digits(s[..k + 1]) % TWO_64
  {
    var d, c := Digits(s[..k]), s[k] % 128;
    DigitsBound(s[..k]);
    DigitsSnoc(s[..k], s[k]);
    assert s[..k + 1] == s[..k] + [s[k]];
    AndSevenOnes(s[k]);
    Pow128IsPow2(k);
    OrShifted(d, c, k);
  }

  lemma OrShifted(d: nat, c: nat, k: nat)
    requires k < 10 && c < 128
    requires d < Pow128(k) == Pow2(7 * k)
    ensures BitOr(d % TWO_64, Shl64(c, 7 * k)) == (d + c * Pow128(k)) % TWO_64
  {
    Pow128Nine();
    if k < 9 {
      Pow128Monotone(k + 1, 9);
      OrShiftedLow(d, c, k, Pow128(k));
    } else {
      OrShiftedTop(d, c);
    }
  }

  lemma OrShiftedLow(d: nat, c: nat, k: nat, p: nat)
    requires c < 128 && p == Pow2(7 * k)
    requires d < p && 128 * p <= TWO_63
    ensures BitOr(d % TWO_64, Shl64(c, 7 * k)) == (d + c * p) % TWO_64
  {
    var x := c * p;
    assert 0 <= x <= 127 * p by { MulBound(c, 127, p); }
    OrAbove(d, c, 7 * k);
    assert Shl64(c, 7 * k) == x % TWO_64;
    SumBelow(d, x);
  }

  lemma MulBound(c: nat, m: nat, p: nat)
    requires c <= m
    ensures 0 <= c * p <= m * p
  {
  }

  lemma SumBelow(d: nat, x: nat)
    requires d + x < TWO_64
    ensures d % TWO_64 == d && x % TWO_64 == x && (d + x) % TWO_64 == d + x
  {
  }

  /** The tenth byte: only its lowest bit survives. */
  lemma OrShiftedTop(d: nat, c: nat)
    requires d < TWO_63 == Pow2(63)
    ensures BitOr(d % TWO_64, Shl64(c, 63)) == (d + c * TWO_63) % TWO_64
  {
    hide BitOr, Pow2;
    DivModUnique(c * TWO_63, TWO_64, c / 2, (c % 2) * TWO_63);
    DivModUnique(d + c * TWO_63, TWO_64, c / 2, d + (c % 2) * TWO_63);
    OrAbove(d, c % 2, 63);
  }

  /** The decoding loop, started at index `start` of the buffer. */
  method ReadVarint(dAtA: seq<byte>, start: nat) returns (r: Result<Decoded>)
    requires start <= |dAtA|
    ensures r == Read(dAtA[start..])
  {
    var l := |dAtA|;
    var iNdEx := start;
    var wire: u64 := 0;
    var shift := 0;
    ghost var s := dAtA[start..];
    while true
      invariant start <= iNdEx <= l
      invariant shift == 7 * (iNdEx - start) && shift <= 70
      invariant wire == Digits(s[..iNdEx - start]) % TWO_64
      invariant Extent(s, 0) == Extent(s, iNdEx - start)
      decreases 70 - shift
    {
      if shift >= 64 {
        return Err(IntOverflow);
      }
      if iNdEx >= l {
        return Err(UnexpectedEOF);
      }
      var b := dAtA[iNdEx];
      AccumulateStep(s, iNdEx - start);
      iNdEx := iNdEx + 1;
      wire := BitOr(wire, Shl64(BitAnd(b, 0x7F), shift));
      if b < 0x80 {
        return Ok(Decoded(wire, iNdEx - start));
      }
      shift := shift + 7;
    }
  }

  /** The value as the encoder's loop leaves it after j groups. */
  lemma EncodeStep(v: nat)
    requires v >= 0x80
    ensures BitOr(BitAnd(v, 0x7F), 0x80) == v % 128 + 128
    ensures Shr(v, 7) == v / 128
  {
    ShrSeven(v);
    AndSevenOnes(v);
    OrEighthBit(v % 128);
  }

  /** The encoder's loop, at the j-th byte with w still to be written. */
  lemma EncodeNext(v: u64, j: nat, w: nat)
    requires j <= |Encode(v)| && Encode(v)[j..] == Encode(w)
    requires w >= 0x80
    ensures j + 1 < |Encode(v)|
    ensures Encode(v)[j] == BitOr(BitAnd(w, 0x7F), 0x80)
    ensures Encode(v)[j + 1..] == Encode(Shr(w, 7)) && Shr(w, 7) < w
  {
    EncodeStep(w);
    var e := Encode(v);
    assert Encode(w) == [w % 128 + 128] + Encode(w / 128);
    assert e[j] == e[j..][0];
    assert e[j + 1..] == e[j..][1..];
  }

  lemma EncodeLast(v: u64, j: nat, w: nat)
    requires j <= |Encode(v)| && Encode(v)[j..] == Encode(w)
    requires w < 0x80
    ensures j + 1 == |Encode(v)| && Encode(v)[j] == w
  {
    assert Encode(v)[j] == Encode(v)[j..][0];
  }

  /** Writes v so that its encoding ends just before `offset`; returns its start. */
  method EncodeVarint(dAtA: array<byte>, offset: nat, v: u64) returns (base: nat)
    requires Sov(v) <= offset <= dAtA.Length
    modifies dAtA
    ensures base == offset - Sov(v) && base + |Encode(v)| == offset
    ensures forall k :: 0 <= k < base ==> dAtA[k] == old(dAtA[k])
    ensures dAtA[base..] == Encode(v) + old(dAtA[offset..])
  {
    hide Encode, BitOr, BitAnd, Shr, Sov;
    SovIsLength(v);
    var offset' := offset - Sov(v);
    base := offset';
    var v' := v;
    ghost var e := Encode(v);
    while v' >= 0x80
      invariant 0 <= v' <= v
      invariant base <= offset' < offset
      invariant e[offset' - base..] == Encode(v')
      invariant forall k :: base <= k < offset' ==> dAtA[k] == e[k - base]
      invariant forall k :: 0 <= k < dAtA.Length && !(base <= k < offset) ==> dAtA[k] == old(dAtA[k])
      decreases v'
    {
      EncodeNext(v, offset' - base, v');
      dAtA[offset'] := BitOr(BitAnd(v', 0x7F), 0x80);
      v' := Shr(v', 7);
      offset' := offset' + 1;
    }
    EncodeLast(v, offset' - base, v');
    dAtA[offset'] := v';
    assert dAtA[base..offset] == e;
    assert dAtA[offset..] == old(dAtA[offset..]);
    assert dAtA[base..] == dAtA[base..offset] + dAtA[offset..];
  }
}
