/**
  Bit strings, integers and bytes: utils/casting.c and the string helpers of
  utils/misc.c that the codecs use.

  A bit string is a sequence of booleans, `true` standing for the character '1'.
  A byte is its unsigned value; where the source reads it as a signed char the
  sign is written out.
 */
module Bits {

  type Byte = x: int | 0 <= x < 256
  type BitString = seq<bool>

  const INT_BITS: nat := 32
  const LONG_MAX: int := 0x7FFF_FFFF_FFFF_FFFF

  function Pow2(k: nat): (p: int)
    ensures p >= 1
  {
    if k == 0 then 1 else 2 * Pow2(k - 1)
  }

  lemma {:induction false} Pow2Monotone(j: nat, k: nat)
    requires j <= k
    ensures Pow2(j) <= Pow2(k)
    decreases k
  {
    if j < k {
      Pow2Monotone(j, k - 1);
    }
  }

  lemma Pow2Values()
    ensures Pow2(2) == 4 && Pow2(3) == 8 && Pow2(4) == 16 && Pow2(5) == 32
    ensures Pow2(6) == 64 && Pow2(8) == 256
    ensures Pow2(31) == 0x8000_0000 && Pow2(32) == 0x1_0000_0000
    ensures Pow2(63) == LONG_MAX + 1
  {
    assert Pow2(8) == 256;
    assert Pow2(16) == 0x1_0000;
    assert Pow2(24) == 0x100_0000;
    assert Pow2(31) == 0x8000_0000;
    assert Pow2(40) == 0x100_0000_0000;
    assert Pow2(48) == 0x1_0000_0000_0000;
    assert Pow2(56) == 0x100_0000_0000_0000;
  }

  // ---------------------------------------------------------------- strings

  function Repeat(c: bool, k: nat): (s: BitString)
    ensures |s| == k && forall i | 0 <= i < k :: s[i] == c
  {
    seq(k, _ => c)
  }

  /** is_monochar: the empty string is not monochar. */
  predicate Monochar(s: BitString, c: bool) {
    s != [] && forall i | 0 <= i < |s| :: s[i] == c
  }

  /** The string strncpy leaves when it copies `len` characters from position `at`:
      it stops at the end of the source. */
  function Field(b: BitString, at: nat, len: nat): (f: BitString)
    ensures |f| <= len
  {
    if at >= |b| then []
    else if at + len <= |b| then b[at..at + len]
    else b[at..]
  }

  function Splice<T>(buf: seq<T>, at: nat, piece: seq<T>): (r: seq<T>)
    requires at + |piece| <= |buf|
    ensures |r| == |buf|
  {
    buf[..at] + piece + buf[at + |piece|..]
  }

  /** strncpy of a whole string into the middle of a buffer. */
  method CopyInto<T>(dest: array<T>, at: nat, src: seq<T>)
    requires at + |src| <= dest.Length
    modifies dest
    ensures dest[..] == Splice(old(dest[..]), at, src)
  {
    ghost var before := dest[..];
    for i := 0 to |src|
      invariant dest[..] == Splice(before, at, src[..i])
    {
      SpliceNext(before, at, src, i);
      dest[at + i] := src[i];
    }
    assert src[..|src|] == src;
  }

  lemma SpliceNext<T>(buf: seq<T>, at: nat, src: seq<T>, i: nat)
    requires i < |src| && at + |src| <= |buf|
    ensures Splice(buf, at, src[..i])[at + i := src[i]] == Splice(buf, at, src[..i + 1])
  {
    assert src[..i + 1] == src[..i] + [src[i]];
  }

  /** A buffer of `len` characters that starts with `done` and is '0' after it. */
  function Padded(done: BitString, len: nat): (b: BitString)
    requires |done| <= len
    ensures |b| == len
  {
    done + Repeat(false, len - |done|)
  }

  lemma PaddedAppend(done: BitString, len: nat, rest: BitString)
    requires |done| <= len
    ensures Padded(done, len) + rest == done + (Repeat(false, len - |done|) + rest)
  {
  }

  lemma SplicePadded(done: BitString, piece: BitString, len: nat)
    requires |done| + |piece| <= len
    ensures Splice(Padded(done, len), |done|, piece) == Padded(done + piece, len)
  {
  }

  /** Writing a field right after the ones already written to a buffer of '0' characters. */
  method AppendField(buf: array<bool>, at: nat, piece: BitString, ghost done: BitString)
    requires at == |done| && at + |piece| <= buf.Length
    requires buf[..] == Padded(done, buf.Length)
    modifies buf
    ensures buf[..] == Padded(done + piece, buf.Length)
  {
    SplicePadded(done, piece, buf.Length);
    CopyInto(buf, at, piece);
  }

  lemma FieldMiddle(a: BitString, piece: BitString, rest: BitString)
    ensures Field(a + piece + rest, |a|, |piece|) == piece
  {
  }

  /** Four consecutive fields read back, whatever follows them. */
  lemma FieldsOfFour(a: BitString, b: BitString, c: BitString, d: BitString, rest: BitString)
    ensures var s := a + b + c + d + rest;
      && Field(s, 0, |a|) == a
      && Field(s, |a|, |b|) == b
      && Field(s, |a| + |b|, |c|) == c
      && Field(s, |a| + |b| + |c|, |d|) == d
  {
    hide Field;
    var s := a + b + c + d + rest;
    assert s == [] + a + (b + c + d + rest);
    FieldMiddle([], a, b + c + d + rest);
    assert s == a + b + (c + d + rest);
    FieldMiddle(a, b, c + d + rest);
    assert s == (a + b) + c + (d + rest);
    FieldMiddle(a + b, c, d + rest);
    FieldMiddle(a + b + c, d, rest);
  }

  // ---------------------------------------------------------------- integers

  /** The `k` low bits of `v`, most significant first (two's complement for a negative `v`).
      The second component of the measure keeps the verifier from unrolling the
      function at every literal width. */
  function IntBits(v: int, k: nat): (b: BitString)
    ensures |b| == k
    decreases k, v == 0
  {
    if k == 0 then [] else IntBits(v / 2, k - 1) + [v % 2 == 1]
  }

  /** The number a bit string denotes. */
  function BinVal(b: BitString): (v: nat)
    ensures v < Pow2(|b|)
  {
    if b == [] then 0
    else 2 * BinVal(b[..|b| - 1]) + (if b[|b| - 1] then 1 else 0)
  }

  /** The low 32 bits of a non-negative number: what is left after taking off multiples of
      2 to the 32. Written by subtraction, so that the verifier meets no division wherever
      a field is read as a number. */
  function Low32(x: nat): (low: nat)
    ensures low < 0x1_0000_0000
  {
    if x < 0x1_0000_0000 then x else Low32(x - 0x1_0000_0000)
  }

  lemma {:induction false} Low32Is(x: nat)
    ensures Low32(x) == x % 0x1_0000_0000
    decreases x
  {
    if x >= 0x1_0000_0000 {
      Low32Is(x - 0x1_0000_0000);
    }
  }

  /** Conversion of a non-negative long to a 32-bit int. */
  function ToInt32(x: nat): int {
    var low := Low32(x);
    if low < 0x8000_0000 then low else low - 0x1_0000_0000
  }

  /** bin_to_int: strtol saturates at LONG_MAX, and the result is cut to an int. */
  function BinToInt(b: BitString): (v: int)
    ensures |b| <= 31 ==> v == BinVal(b)
  {
    assert |b| <= 31 ==> BinVal(b) < 0x8000_0000 by {
      Pow2Values();
      if |b| <= 31 { Pow2Monotone(|b|, 31); }
    }
    if BinVal(b) < 0x8000_0000 then BinVal(b)
    else ToInt32(if BinVal(b) > LONG_MAX then LONG_MAX else BinVal(b))
  }

  lemma DivMulDiv(v: int, p: int)
    requires p >= 1
    ensures (v / 2) / p == v / (2 * p)
  {
    var q := v / (2 * p);
    var r := v % (2 * p);
    assert v == 2 * (p * q) + r;
    assert v / 2 == p * q + r / 2;
    assert 0 <= r / 2 < p;
    QuotientIs(v / 2, p, q, r / 2);
  }

  /** Division with remainder is unique. */
  lemma QuotientIs(v: int, p: int, q: int, r: int)
    requires p >= 1 && 0 <= r < p && v == p * q + r
    ensures v / p == q && v % p == r
  {
    var d := v / p - q;
    assert p * d == r - v % p by {
      assert v == p * (v / p) + v % p;
    }
    assert d >= 1 ==> p * d >= p;
    assert d <= -1 ==> p * d <= -p;
  }

  lemma {:induction false} IntBitsAt(v: int, k: nat, shift: nat)
    requires shift < k
    ensures IntBits(v, k)[k - 1 - shift] == ((v / Pow2(shift)) % 2 == 1)
    decreases k
  {
    if shift > 0 {
      IntBitsAt(v / 2, k - 1, shift - 1);
      DivMulDiv(v, Pow2(shift - 1));
    }
  }

  /** A conversion to fewer bits keeps the low ones: the suffix of the full 32-bit image. */
  lemma {:induction false} IntBitsSuffix(v: int, k: nat, j: nat)
    requires k <= j
    ensures IntBits(v, j)[j - k..] == IntBits(v, k)
    decreases k
  {
    if k > 0 {
      IntBitsSuffix(v / 2, k - 1, j - 1);
      assert IntBits(v, j)[j - k..] == IntBits(v / 2, j - 1)[j - k..] + [v % 2 == 1];
    }
  }

  /** int_to_bin: fill a 32-character image by shifting, then keep its last `size` characters. */
  method IntToBin(src: int, size: nat) returns (dest: BitString)
    requires size <= INT_BITS
    ensures dest == IntBits(src, size)
  {
    var res := new bool[INT_BITS];
    var i := 0;
    var shift := INT_BITS - 1;
    while shift >= 0
      invariant -1 <= shift && i + shift == INT_BITS - 1
      invariant forall j | 0 <= j < i :: res[j] == IntBits(src, INT_BITS)[j]
    {
      var k := src / Pow2(shift);
      res[i] := k % 2 == 1;
      IntBitsAt(src, INT_BITS, shift);
      i := i + 1;
      shift := shift - 1;
    }
    assert res[..] == IntBits(src, INT_BITS);
    IntBitsSuffix(src, size, INT_BITS);
    dest := res[INT_BITS - size..];
  }

  lemma ModDouble(v: int, p: int)
    requires p >= 1
    ensures v % (2 * p) == 2 * ((v / 2) % p) + v % 2
  {
    var q := (v / 2) / p;
    var r := (v / 2) % p;
    assert v / 2 == p * q + r;
    assert v == (2 * p) * q + (2 * r + v % 2) by {
      assert 2 * (p * q) == (2 * p) * q;
    }
    QuotientIs(v, 2 * p, q, 2 * r + v % 2);
  }

  /** Reading back what int_to_bin wrote gives the number modulo 2^k. */
  lemma {:induction false} ValOfIntBits(v: int, k: nat)
    ensures BinVal(IntBits(v, k)) == v % Pow2(k)
    decreases k
  {
    if k > 0 {
      ValOfIntBits(v / 2, k - 1);
      ModDouble(v, Pow2(k - 1));
      assert IntBits(v, k)[..k - 1] == IntBits(v / 2, k - 1);
    }
  }

  /** Writing what bin_to_int read gives the string back. */
  lemma {:induction false} IntBitsOfVal(b: BitString)
    ensures IntBits(BinVal(b), |b|) == b
  {
    if b != [] {
      var front := b[..|b| - 1];
      IntBitsOfVal(front);
      assert BinVal(b) / 2 == BinVal(front);
      assert b == front + [b[|b| - 1]];
    }
  }

  lemma SmallRoundTrip(v: int, k: nat)
    requires 0 <= v < Pow2(k) && k <= 31
    ensures BinToInt(IntBits(v, k)) == v
  {
    ValOfIntBits(v, k);
    QuotientIs(v, Pow2(k), 0, v);
  }

  /** The bit codec on integers: bin_to_int after int_to_bin is reduction modulo 2^k,
      for every width an int can carry. */
  lemma IntCodec(v: int, k: nat)
    requires 1 <= k <= 31
    ensures BinToInt(IntBits(v, k)) == v % Pow2(k)
    ensures 0 <= v < Pow2(k) ==> BinToInt(IntBits(v, k)) == v
  {
    ValOfIntBits(v, k);
    if 0 <= v < Pow2(k) {
      SmallRoundTrip(v, k);
    }
  }

  lemma {:induction false} ValOfRepeat(c: bool, k: nat)
    ensures BinVal(Repeat(c, k)) == if c then Pow2(k) - 1 else 0
  {
    if k > 0 {
      ValOfRepeat(c, k - 1);
      assert Repeat(c, k)[..k - 1] == Repeat(c, k - 1);
    }
  }

  /** A fixed-width image is all '1' (all '0') exactly for the greatest (least) number. */
  lemma ConstantImages(v: int, k: nat)
    requires 0 <= v < Pow2(k) && 1 <= k <= 31
    ensures Monochar(IntBits(v, k), false) <==> v == 0
    ensures Monochar(IntBits(v, k), true) <==> v == Pow2(k) - 1
    ensures IntBits(v, k) == Repeat(false, k) <==> v == 0
  {
    hide IntBits, BinToInt, BinVal;
    ConstantImage(v, k, true);
    ConstantImage(v, k, false);
    MonocharIs(IntBits(v, k), true);
    MonocharIs(IntBits(v, k), false);
  }

  lemma ConstantImage(v: int, k: nat, c: bool)
    requires 0 <= v < Pow2(k) && k <= 31
    ensures IntBits(v, k) == Repeat(c, k) <==> v == if c then Pow2(k) - 1 else 0
  {
    ValOfIntBits(v, k);
    ValOfRepeat(c, k);
    IntBitsOfVal(Repeat(c, k));
    hide IntBits, BinVal;
    QuotientIs(v, Pow2(k), 0, v);
  }

  lemma MonocharIs(b: BitString, c: bool)
    ensures Monochar(b, c) <==> b != [] && b == Repeat(c, |b|)
  {
  }

  // ---------------------------------------------------------------- bytes

  function SignedChar(b: Byte): int {
    if b < 128 then b else b - 256
  }

  function BytesToBits(bs: seq<Byte>): (b: BitString)
    ensures |b| == 8 * |bs|
  {
    if bs == [] then [] else IntBits(SignedChar(bs[0]), 8) + BytesToBits(bs[1..])
  }

  /** The char an octet converts to. */
  function OctetByte(o: BitString): Byte {
    BinToInt(o) % 256
  }

  function BitsToBytes(b: BitString): (bs: seq<Byte>)
    requires |b| % 8 == 0
    ensures 8 * |bs| == |b|
  {
    if b == [] then [] else [OctetByte(b[..8])] + BitsToBytes(b[8..])
  }

  lemma {:induction false} OctetAt(bs: seq<Byte>, i: nat, j: nat)
    requires i < |bs| && j < 8
    ensures BytesToBits(bs)[8 * i + j] == IntBits(SignedChar(bs[i]), 8)[j]
  {
    if i > 0 {
      OctetAt(bs[1..], i - 1, j);
    }
  }

  /** bytes_to_bin: one octet at a time, read as a signed char. */
  method BytesToBin(src: seq<Byte>) returns (dest: array<bool>)
    ensures fresh(dest)
    ensures dest[..] == BytesToBits(src)
  {
    dest := new bool[8 * |src|];
    var p := 0;
    for i := 0 to |src|
      invariant p == 8 * i
      invariant forall k | 0 <= k < p :: dest[k] == BytesToBits(src)[k]
    {
      var asBin := IntToBin(SignedChar(src[i]), 8);
      for j := 0 to 8
        invariant p == 8 * i + j
        invariant forall k | 0 <= k < p :: dest[k] == BytesToBits(src)[k]
      {
        OctetAt(src, i, j);
        dest[p] := asBin[j];
        p := p + 1;
      }
    }
  }

  lemma {:induction false} ByteAt(b: BitString, i: nat)
    requires |b| % 8 == 0 && 8 * i < |b|
    ensures BitsToBytes(b)[i] == OctetByte(b[8 * i..8 * i + 8])
  {
    if i > 0 {
      ByteAt(b[8..], i - 1);
      assert b[8..][8 * (i - 1)..8 * (i - 1) + 8] == b[8 * i..8 * i + 8];
    }
  }

  /** bin_to_bytes: one octet at a time until the end of the string. */
  method BinToBytes(src: BitString) returns (dest: array<Byte>)
    requires |src| % 8 == 0
    ensures fresh(dest)
    ensures dest[..] == BitsToBytes(src)
  {
    dest := new Byte[|src| / 8];
    var p, i := 0, 0;
    while p != |src|
      invariant p == 8 * i && 0 <= p <= |src|
      invariant forall k | 0 <= k < i :: dest[k] == BitsToBytes(src)[k]
      decreases |src| - p
    {
      var oct := src[p..p + 8];
      ByteAt(src, i);
      dest[i] := OctetByte(oct);
      i := i + 1;
      p := p + 8;
    }
  }

  lemma OctetRoundTrip(b: Byte)
    ensures OctetByte(IntBits(SignedChar(b), 8)) == b
  {
    IntCodec(SignedChar(b), 8);
    Pow2Values();
  }

  lemma OctetBack(o: BitString)
    requires |o| == 8
    ensures IntBits(SignedChar(OctetByte(o)), 8) == o
  {
    hide BinVal, IntBits, Pow2;
    Pow2Values();
    IntBitsOfVal(o);
    var v := BinVal(o);
    var s := SignedChar(v);
    ValOfIntBits(s, 8);
    ValOfIntBits(v, 8);
    assert s % 256 == v % 256;
    IntBitsOfVal(IntBits(s, 8));
    IntBitsOfVal(IntBits(v, 8));
  }

  lemma BytesToBitsCons(b: Byte, rest: seq<Byte>)
    ensures BytesToBits([b] + rest) == IntBits(SignedChar(b), 8) + BytesToBits(rest)
  {
    assert ([b] + rest)[1..] == rest;
  }

  lemma BitsToBytesCons(o: BitString, rest: BitString)
    requires |o| == 8 && |rest| % 8 == 0
    ensures BitsToBytes(o + rest) == [OctetByte(o)] + BitsToBytes(rest)
  {
    assert (o + rest)[..8] == o;
    assert (o + rest)[8..] == rest;
  }

  /** bin_to_bytes undoes bytes_to_bin on byte sequences of any length. */
  lemma {:induction false} BytesRoundTrip(bs: seq<Byte>)
    ensures BitsToBytes(BytesToBits(bs)) == bs
  {
    if bs != [] {
      var x, t := bs[0], bs[1..];
      var o := IntBits(SignedChar(x), 8);
      calc {
        BitsToBytes(BytesToBits(bs));
        { assert bs == [x] + t; BytesToBitsCons(x, t); }
        BitsToBytes(o + BytesToBits(t));
        { BitsToBytesCons(o, BytesToBits(t)); }
        [OctetByte(o)] + BitsToBytes(BytesToBits(t));
        { OctetRoundTrip(x); BytesRoundTrip(t); }
        [x] + t;
      }
    }
  }

  /** bytes_to_bin undoes bin_to_bytes on bit strings of any number of octets. */
  lemma {:induction false} BitsRoundTrip(b: BitString)
    requires |b| % 8 == 0
    ensures BytesToBits(BitsToBytes(b)) == b
  {
    if b != [] {
      var o, rest := b[..8], b[8..];
      assert b == o + rest;
      BitsRoundTrip(rest);
      OctetBack(o);
      BitsToBytesCons(o, rest);
      BytesToBitsCons(OctetByte(o), BitsToBytes(rest));
    }
  }

  function Min(a: nat, b: nat): nat { if a < b then a else b }

  lemma AppendAssociative<T>(a: seq<T>, b: seq<T>, c: seq<T>)
    ensures (a + b) + c == a + (b + c)
  {
  }

  lemma {:induction false} BytesToBitsAppend(a: seq<Byte>, b: seq<Byte>)
    ensures BytesToBits(a + b) == BytesToBits(a) + BytesToBits(b)
  {
    if a == [] {
      assert a + b == b;
    } else {
      var x, t := a[0], a[1..];
      var o := IntBits(SignedChar(x), 8);
      calc {
        BytesToBits(a + b);
        { assert a + b == [x] + (t + b); BytesToBitsCons(x, t + b); }
        o + BytesToBits(t + b);
        { BytesToBitsAppend(t, b); }
        o + (BytesToBits(t) + BytesToBits(b));
        { AppendAssociative(o, BytesToBits(t), BytesToBits(b)); }
        (o + BytesToBits(t)) + BytesToBits(b);
        { assert a == [x] + t; BytesToBitsCons(x, t); }
        BytesToBits(a) + BytesToBits(b);
      }
    }
  }
}
