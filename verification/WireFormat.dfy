/**
  Messages as the network carries them: every byte of what is generated, as a number, and what
  any bytes that arrive are taken for.
 */
module WireFormat {
  import opened Bits
  import opened Rules
  import opened Fragments
  import opened FrProcedure
  import opened Acks

  // ---------------------------------------------------------------- bytes and bits

  lemma Doubled(x: int, p: int, y: int)
    ensures 2 * (x * p + y) == x * (2 * p) + 2 * y
  {
  }

  /** The value of two strings, one behind the other. */
  lemma {:induction false} ValAppend(a: BitString, b: BitString)
    ensures BinVal(a + b) == BinVal(a) * Pow2(|b|) + BinVal(b)
    decreases |b|
  {
    hide BinVal;
    if b == [] {
      assert a + b == a;
      NoValue(0);
      assert b == Repeat(false, 0);
    } else {
      var front, last := b[..|b| - 1], b[|b| - 1];
      assert b == front + [last] && a + b == (a + front) + [last];
      ValAppend(a, front);
      ValSnoc(a + front, last);
      ValSnoc(front, last);
      Doubled(BinVal(a), Pow2(|front|), BinVal(front));
    }
  }

  lemma SmallVal(v: int, k: nat)
    requires 0 <= v < Pow2(k)
    ensures BinVal(IntBits(v, k)) == v
  {
    ValOfIntBits(v, k);
    QuotientIs(v, Pow2(k), 0, v);
  }

  lemma OctetValue(o: BitString)
    requires |o| == 8
    ensures BinVal(o) < 256 && OctetByte(o) == BinVal(o)
  {
    Pow2Values();
    hide BinVal, Pow2;
  }

  /** Eight characters make the byte whose value they write. */
  lemma FirstByte(o: BitString, rest: BitString)
    requires |o| == 8 && |rest| % 8 == 0
    ensures BinVal(o) < 256 && BitsToBytes(o + rest) == [BinVal(o)] + BitsToBytes(rest)
  {
    OctetValue(o);
    hide BinVal, OctetByte;
    assert (o + rest)[..8] == o && (o + rest)[8..] == rest;
  }

  lemma OneByte(o: BitString)
    requires |o| == 8
    ensures BinVal(o) < 256 && BitsToBytes(o) == [BinVal(o)]
  {
    FirstByte(o, []);
    hide BinVal;
    assert o + [] == o && [BinVal(o)] + [] == [BinVal(o)];
  }

  /** Three fields, by their values and widths. */
  lemma ThreeFields(a: BitString, b: BitString, c: BitString)
    ensures BinVal(a + b + c) == (BinVal(a) * Pow2(|b|) + BinVal(b)) * Pow2(|c|) + BinVal(c)
  {
    hide BinVal, Pow2;
    ValAppend(a + b, c);
    ValAppend(a, b);
  }

  lemma NoValue(k: nat)
    ensures BinVal(Repeat(false, k)) == 0
  {
    ValOfRepeat(false, k);
  }

  /** An octet is written for the value of its char, whatever its sign. */
  lemma UnsignedBits(x: Byte)
    ensures IntBits(SignedChar(x), 8) == IntBits(x, 8)
  {
    Pow2Values();
    hide IntBits, BinVal, Pow2;
    SameBits(SignedChar(x), x, 8);
  }

  lemma SameBits(v: int, w: int, k: nat)
    requires v % Pow2(k) == w % Pow2(k)
    ensures IntBits(v, k) == IntBits(w, k)
  {
    hide IntBits, BinVal, Pow2;
    ValOfIntBits(v, k);
    ValOfIntBits(w, k);
    IntBitsOfVal(IntBits(v, k));
    IntBitsOfVal(IntBits(w, k));
  }

  lemma BitsSplit(v: int, j: nat, k: nat)
    ensures IntBits(v, j + k) == IntBits(v / Pow2(k), j) + IntBits(v, k)
    decreases k
  {
    if k == 0 {
      assert IntBits(v, j) + [] == IntBits(v, j);
    } else {
      BitsSplit(v / 2, j, k - 1);
      DivMulDiv(v, Pow2(k - 1));
    }
  }

  /** The characters of a field inside one byte: the middle digits of its value. */
  lemma FieldOfByte(bs: seq<Byte>, i: nat, j: nat, len: nat)
    requires i < |bs| && j + len <= 8
    ensures Field(BytesToBits(bs), 8 * i + j, len) == IntBits(bs[i] / Pow2(8 - j - len), len)
  {
    hide *;
    ByteBits(bs, i);
    UnsignedBits(bs[i]);
    MiddleBits(bs[i], j, len, 8 - j - len);
    FieldInside(BytesToBits(bs), IntBits(bs[i], 8), 8 * i, j, len);
  }

  lemma FieldInside(all: BitString, o: BitString, at: nat, j: nat, len: nat)
    requires at + 8 <= |all| && all[at..at + 8] == o && j + len <= 8
    ensures |o| == 8 && Field(all, at + j, len) == o[j..j + len]
  {
    var inner, outer := o[j..j + len], all[at + j..at + j + len];
    forall k | 0 <= k < len
      ensures inner[k] == outer[k]
    {
      assert inner[k] == o[j + k] && o[j + k] == all[at + (j + k)];
    }
    assert inner == outer;
  }

  lemma MiddleBits(x: int, j: nat, len: nat, k: nat)
    ensures IntBits(x, j + len + k)[j..j + len] == IntBits(x / Pow2(k), len)
  {
    hide IntBits, Pow2;
    BitsSplit(x, j + len, k);
    BitsSplit(x / Pow2(k), j, len);
    var a, b, c := IntBits(x / Pow2(k) / Pow2(len), j), IntBits(x / Pow2(k), len), IntBits(x, k);
    assert (a + b + c)[j..j + len] == b;
  }

  lemma ByteBits(bs: seq<Byte>, i: nat)
    requires i < |bs|
    ensures BytesToBits(bs)[8 * i..8 * i + 8] == IntBits(SignedChar(bs[i]), 8)
  {
    hide *;
    forall j | 0 <= j < 8
      ensures BytesToBits(bs)[8 * i + j] == IntBits(SignedChar(bs[i]), 8)[j]
    {
      OctetAt(bs, i, j);
    }
  }

  /** bytes_to_bin, bit by bit: the most significant bit of a byte comes first. */
  lemma BitOfByte(bs: seq<Byte>, i: nat, j: nat)
    requires i < |bs| && j < 8
    ensures BytesToBits(bs)[8 * i + j] <==> bs[i] / Pow2(7 - j) % 2 == 1
  {
    FieldOfByte(bs, i, j, 1);
    var b := IntBits(bs[i] / Pow2(7 - j), 1);
    assert Field(BytesToBits(bs), 8 * i + j, 1)[0] == BytesToBits(bs)[8 * i + j];
    assert b == IntBits(bs[i] / Pow2(7 - j) / 2, 0) + [bs[i] / Pow2(7 - j) % 2 == 1];
  }

  /** The value of byte `i`. */
  function At(bs: seq<Byte>, i: nat): (x: int)
    ensures 0 <= x < 256
    ensures i < |bs| ==> x == bs[i]
  {
    if i < |bs| then bs[i] else 0
  }

  /** A field inside one byte, as a number; `d` and `p` are the powers of 2 to divide by. */
  lemma FieldValue(bs: seq<Byte>, at: nat, i: nat, len: nat, d: int, p: int)
    requires i < |bs| && 1 <= len <= 8 && 8 * i <= at && at + len <= 8 * i + 8
    requires d == Pow2(8 * i + 8 - at - len) && p == Pow2(len)
    ensures d >= 1 && p >= 1
    ensures var b, v := Field(BytesToBits(bs), at, len), At(bs, i) / d % p;
      && BinToInt(b) == v
      && (Monochar(b, false) <==> v == 0)
      && (Monochar(b, true) <==> v == p - 1)
  {
    hide *;
    FieldOfByte(bs, i, at - 8 * i, len);
    FieldNumber(At(bs, i) / d, len);
  }

  /** The first field of a byte. */
  lemma FirstField(bs: seq<Byte>, i: nat, len: nat, d: int, p: int)
    requires i < |bs| && 1 <= len <= 8 && d == Pow2(8 - len) && p == Pow2(len) && d * p == 256
    ensures d >= 1
    ensures var b, v := Field(BytesToBits(bs), 8 * i, len), At(bs, i) / d;
      && BinToInt(b) == v
      && (Monochar(b, false) <==> v == 0)
      && (Monochar(b, true) <==> v == p - 1)
  {
    hide *;
    FieldValue(bs, 8 * i, i, len, d, p);
    QuotientBelow(At(bs, i), d, p);
  }

  lemma QuotientBelow(x: nat, d: int, p: int)
    requires d >= 1 && p >= 1 && x < d * p
    ensures 0 <= x / d && x / d % p == x / d
  {
    var q := x / d;
    assert x == d * q + x % d;
    assert q >= p ==> d * q >= d * p;
    QuotientIs(q, p, 0, q);
  }

  lemma FieldNumber(x: int, len: nat)
    requires 1 <= len <= 31
    ensures var b, v := IntBits(x, len), x % Pow2(len);
      && BinToInt(b) == v
      && (Monochar(b, false) <==> v == 0)
      && (Monochar(b, true) <==> v == Pow2(len) - 1)
  {
    hide *;
    IntCodec(x, len);
    TwiceReduced(x, Pow2(len));
    SameBits(x, x % Pow2(len), len);
    ConstantImages(x % Pow2(len), len);
  }

  lemma TwiceReduced(x: int, p: int)
    requires p >= 1
    ensures 0 <= x % p < p && x % p % p == x % p
  {
    QuotientIs(x % p, p, 0, x % p);
  }

  lemma SmallPowers()
    ensures Pow2(0) == 1 && Pow2(1) == 2 && Pow2(2) == 4 && Pow2(3) == 8 && Pow2(4) == 16 && Pow2(5) == 32
    ensures Pow2(6) == 64 && Pow2(7) == 128
  {
  }

  // ---------------------------------------------------------------- fragments that are generated

  lemma SmallNumbers(nb: nat, ws: nat, windows: nat)
    requires ws > 0 && nb < windows * ws
    ensures 0 <= nb / ws < windows && 0 <= nb % ws < ws
  {
    WindowInRange(nb, ws, windows);
  }

  /** A number that fits its field, as characters. */
  ghost predicate FitsIn(v: int, k: nat) { 0 <= v < Pow2(k) }

  /** Three numbers in the fields of one byte. */
  lemma Octet(x: int, i: nat, y: int, j: nat, z: int, k: nat)
    requires i + j + k == 8 && FitsIn(x, i) && FitsIn(y, j) && FitsIn(z, k)
    ensures var o := IntBits(x, i) + IntBits(y, j) + IntBits(z, k);
      |o| == 8 && BinVal(o) == (x * Pow2(j) + y) * Pow2(k) + z
  {
    hide IntBits, BinVal, Pow2;
    SmallVal(x, i);
    SmallVal(y, j);
    SmallVal(z, k);
    ThreeFields(IntBits(x, i), IntBits(y, j), IntBits(z, k));
  }

  /** Runs of one character are the greatest and the least number. */
  lemma Runs(k: nat)
    ensures Repeat(true, k) == IntBits(Pow2(k) - 1, k) && Repeat(false, k) == IntBits(0, k)
    ensures FitsIn(Pow2(k) - 1, k) && FitsIn(0, k)
  {
    hide IntBits, BinVal, Pow2;
    ValOfRepeat(true, k);
    ValOfRepeat(false, k);
    IntBitsOfVal(Repeat(true, k));
    IntBitsOfVal(Repeat(false, k));
  }

  /** A byte of three fields of three, two and three characters. */
  lemma Octet323(x: int, y: int, z: int)
    requires 0 <= x < 8 && 0 <= y < 4 && 0 <= z < 8
    ensures var o := IntBits(x, 3) + IntBits(y, 2) + IntBits(z, 3); |o| == 8 && BinVal(o) == 32 * x + 8 * y + z
  {
    Pow2Values();
    hide IntBits, BinVal, Pow2;
    Octet(x, 3, y, 2, z, 3);
  }

  /** A byte of two fields. */
  lemma OctetOfTwo(x: int, i: nat, y: int, j: nat)
    requires i + j == 8 && FitsIn(x, i) && FitsIn(y, j)
    ensures var o := IntBits(x, i) + IntBits(y, j); |o| == 8 && BinVal(o) == x * Pow2(j) + y
  {
    hide IntBits, BinVal, Pow2;
    SmallVal(x, i);
    SmallVal(y, j);
    ValAppend(IntBits(x, i), IntBits(y, j));
  }

  lemma Octet35(x: int, y: int)
    requires 0 <= x < 8 && 0 <= y < 32
    ensures var o := IntBits(x, 3) + IntBits(y, 5); |o| == 8 && BinVal(o) == 32 * x + y
  {
    Pow2Values();
    hide IntBits, BinVal, Pow2;
    OctetOfTwo(x, 3, y, 5);
  }

  lemma Octet53(x: int, y: int)
    requires 0 <= x < 32 && 0 <= y < 8
    ensures var o := IntBits(x, 5) + IntBits(y, 3); |o| == 8 && BinVal(o) == 8 * x + y
  {
    Pow2Values();
    hide IntBits, BinVal, Pow2;
    OctetOfTwo(x, 5, y, 3);
  }

  lemma Octet62(x: int, y: int)
    requires 0 <= x < 64 && 0 <= y < 4
    ensures var o := IntBits(x, 6) + IntBits(y, 2); |o| == 8 && BinVal(o) == 4 * x + y
  {
    Pow2Values();
    hide IntBits, BinVal, Pow2;
    OctetOfTwo(x, 6, y, 2);
  }

  lemma Octet44(x: int, y: int)
    requires 0 <= x < 16 && 0 <= y < 16
    ensures var o := IntBits(x, 4) + IntBits(y, 4); |o| == 8 && BinVal(o) == 16 * x + y
  {
    Pow2Values();
    hide IntBits, BinVal, Pow2;
    OctetOfTwo(x, 4, y, 4);
  }

  lemma Octet8(x: int)
    requires 0 <= x < 256
    ensures |IntBits(x, 8)| == 8 && BinVal(IntBits(x, 8)) == x
  {
    Pow2Values();
    hide IntBits, BinVal, Pow2;
    SmallVal(x, 8);
  }

  lemma TwoBytes(o: BitString, o': BitString)
    requires |o| == 8 && |o'| == 8
    ensures BinVal(o) < 256 && BinVal(o') < 256 && BitsToBytes(o + o') == [BinVal(o), BinVal(o')]
  {
    hide BinVal, BitsToBytes;
    FirstByte(o, o');
    OneByte(o');
  }

  lemma ThreeBytes(o: BitString, o': BitString, o'': BitString)
    requires |o| == 8 && |o'| == 8 && |o''| == 8
    ensures BinVal(o) < 256 && BinVal(o') < 256 && BinVal(o'') < 256
    ensures BitsToBytes(o + (o' + o'')) == [BinVal(o), BinVal(o'), BinVal(o'')]
  {
    hide BinVal, BitsToBytes;
    FirstByte(o, o' + o'');
    TwoBytes(o', o'');
  }

  /** A fragment is generated exactly when it has at most twelve bytes, header included. */
  lemma FitsExactly(r: Rule, payload: seq<Byte>, nb: nat, all1: bool)
    requires r.t == 0 && r.windowSize > 0
    ensures Fits(r, payload, all1) <==> |FragmentOf(r, payload, nb, all1).bytes| <= 12
  {
    hide HeaderBits, HeaderLenOf;
  }

  lemma FragmentIs(r: Rule, payload: seq<Byte>, nb: nat, all1: bool, header: BitString)
    requires r.t == 0 && r.windowSize > 0 && HeaderBits(r, nb, all1) == header
    ensures |header| % 8 == 0 && FragmentOf(r, payload, nb, all1) == Fragment(BitsToBytes(header) + payload)
  {
    hide BitsToBytes;
  }

  // ---------------------------------------------------------------- headers as fields

  lemma SingleByteLengths(id: int)
    ensures var r := SingleByte(id);
      && r.HeaderLen() == 8 && r.All1HeaderLen() == 16 && r.AckHeaderLen() == 6 && r.PayloadBytes() == 11
      && RuleIdBits(r) == IntBits(id, 3)
  {
    hide IntBits;
  }

  lemma Option1Lengths(id: int)
    requires 6 <= id < 13
    ensures var r := TwoByteOption1(id);
      && r.HeaderLen() == 16 && r.All1HeaderLen() == 16 && r.AckHeaderLen() == 9 && r.PayloadBytes() == 10
      && RuleIdBits(r) == IntBits(id + 50, 6)
  {
    Option1FullId(TwoByteOption1(id));
    hide IntBits, FullId;
  }

  lemma Option2Lengths(id: int)
    requires 15 <= id < 19
    ensures var r := TwoByteOption2(id);
      && r.HeaderLen() == 16 && r.All1HeaderLen() == 24 && r.AckHeaderLen() == 12 && r.PayloadBytes() == 10
      && RuleIdBits(r) == IntBits(id + 237, 8)
  {
    Option2FullId(TwoByteOption2(id));
    hide IntBits, FullId;
  }

  /** The header as its fields and what is left of the last byte. */
  lemma HeaderIs(r: Rule, nb: nat, all1: bool, zeros: nat)
    requires r.t == 0 && r.windowSize > 0
    requires r.ruleIdSize + r.m + r.n + (if all1 then r.u else 0) + zeros == HeaderLenOf(r, all1)
    ensures HeaderBits(r, nb, all1)
         == RuleIdBits(r) + IntBits(nb / r.windowSize, r.m) + FcnBits(r, nb, all1) + RcsBits(r, nb, all1)
            + Repeat(false, zeros)
  {
    hide IntBits, RuleIdBits, FcnBits, RcsBits, HeaderLenOf;
  }

  lemma FieldsAre(r: Rule, nb: nat, all1: bool)
    requires r.windowSize > 0
    ensures FcnBits(r, nb, all1)
         == if all1 then Repeat(true, r.n) else IntBits(r.windowSize - nb % r.windowSize - 1, r.n)
    ensures RcsBits(r, nb, all1) == if all1 then IntBits(nb % r.windowSize + 1, r.u) else []
  {
    hide IntBits;
  }

  lemma LenOf(r: Rule, all1: bool)
    ensures HeaderLenOf(r, all1) == if all1 then r.All1HeaderLen() else r.HeaderLen()
  {
    hide Rule.All1HeaderLen, Rule.HeaderLen;
  }

  lemma GroupFive(a: BitString, b: BitString, c: BitString, d: BitString, z: BitString)
    ensures a + b + c + d + z == (a + b + c) + (d + z)
    ensures a + b + c + d + z == (a + b) + (c + (d + z)) && a + b + c + d + z == a + ((b + c) + (d + z))
  {
  }

  lemma NoneBehind(a: BitString)
    ensures a + [] == a && [] + a == a && Repeat(false, 0) == []
  {
  }

  lemma SingleByteHeader(id: int, nb: nat, all1: bool)
    ensures var r := SingleByte(id);
      HeaderBits(r, nb, all1) ==
        if all1 then (IntBits(id, 3) + IntBits(nb / 7, 2) + IntBits(7, 3)) + (IntBits(nb % 7 + 1, 3) + IntBits(0, 5))
        else IntBits(id, 3) + IntBits(nb / 7, 2) + IntBits(6 - nb % 7, 3)
    {
    hide *;
    var r := SingleByte(id);
    SingleByteShape(id);
    SingleByteLengths(id);
    Pow2Values();
    Runs(3);
    Runs(5);
    LenOf(r, all1);
    FieldsAre(r, nb, all1);
    HeaderIs(r, nb, all1, if all1 then 5 else 0);
    var a, b, c, d := RuleIdBits(r), IntBits(nb / 7, 2), FcnBits(r, nb, all1), RcsBits(r, nb, all1);
    NoneBehind([]);
    GroupFive(a, b, c, d, if all1 then IntBits(0, 5) else []);
    NoneBehind(a + b + c);
  }

  /** Single byte: one byte of header, two for an All-1. */
  lemma SingleByteFragment(id: int, payload: seq<Byte>, nb: nat, all1: bool)
    requires 0 <= id < 7 && nb < 28
    ensures FragmentOf(SingleByte(id), payload, nb, all1)
         == Fragment((if all1 then [32 * id + 8 * (nb / 7) + 7, 32 * (nb % 7 + 1)]
                      else [32 * id + 8 * (nb / 7) + 6 - nb % 7]) + payload)
  {
    hide *;
    SmallNumbers(nb, 7, 4);
    SingleByteHeader(id, nb, all1);
    SingleByteShape(id);
    if all1 {
      FragmentIs(SingleByte(id), payload, nb, all1,
        (IntBits(id, 3) + IntBits(nb / 7, 2) + IntBits(7, 3)) + (IntBits(nb % 7 + 1, 3) + IntBits(0, 5)));
      Octet323(id, nb / 7, 7);
      Octet35(nb % 7 + 1, 0);
      TwoBytes(IntBits(id, 3) + IntBits(nb / 7, 2) + IntBits(7, 3), IntBits(nb % 7 + 1, 3) + IntBits(0, 5));
    } else {
      FragmentIs(SingleByte(id), payload, nb, all1, IntBits(id, 3) + IntBits(nb / 7, 2) + IntBits(6 - nb % 7, 3));
      Octet323(id, nb / 7, 6 - nb % 7);
      OneByte(IntBits(id, 3) + IntBits(nb / 7, 2) + IntBits(6 - nb % 7, 3));
    }
  }

  lemma SingleByteShape(id: int)
    ensures var r := SingleByte(id);
      r.ruleIdSize == 3 && r.t == 0 && r.m == 2 && r.n == 3 && r.u == 3 && r.windowSize == 7
  {
  }

  lemma Option1Fields(id: int, nb: nat, all1: bool)
    requires 6 <= id < 13
    ensures var r, a, b := TwoByteOption1(id), IntBits(id + 50, 6), IntBits(nb / 12, 2);
      HeaderBits(r, nb, all1) ==
        if all1 then a + b + IntBits(15, 4) + IntBits(nb % 12 + 1, 4) + []
        else a + b + IntBits(11 - nb % 12, 4) + [] + IntBits(0, 4)
  {
    hide *;
    var r := TwoByteOption1(id);
    Option1Shape(id);
    Option1Lengths(id);
    Pow2Values();
    Runs(4);
    LenOf(r, all1);
    FieldsAre(r, nb, all1);
    HeaderIs(r, nb, all1, if all1 then 0 else 4);
    NoneBehind([]);
  }

  lemma Option1Header(id: int, nb: nat, all1: bool)
    requires 6 <= id < 13
    ensures var r := TwoByteOption1(id);
      HeaderBits(r, nb, all1) == (IntBits(id + 50, 6) + IntBits(nb / 12, 2)) +
        if all1 then IntBits(15, 4) + IntBits(nb % 12 + 1, 4) else IntBits(11 - nb % 12, 4) + IntBits(0, 4)
  {
    hide *;
    Option1Fields(id, nb, all1);
    var a, b := IntBits(id + 50, 6), IntBits(nb / 12, 2);
    LastGroup(a, b, IntBits(15, 4), IntBits(nb % 12 + 1, 4));
    LastGroup(a, b, IntBits(11 - nb % 12, 4), IntBits(0, 4));
  }

  lemma LastGroup(a: BitString, b: BitString, c: BitString, d: BitString)
    ensures a + b + c + d + [] == (a + b) + (c + d) && a + b + c + [] + d == (a + b) + (c + d)
  {
  }

  lemma Option1Shape(id: int)
    ensures var r := TwoByteOption1(id);
      r.ruleIdSize == 6 && r.t == 0 && r.m == 2 && r.n == 4 && r.u == 4 && r.windowSize == 12
  {
  }

  /** Option 1: two bytes of header, for an All-1 as well. */
  lemma Option1Fragment(id: int, payload: seq<Byte>, nb: nat, all1: bool)
    requires 6 <= id < 13 && nb < 48
    ensures FragmentOf(TwoByteOption1(id), payload, nb, all1)
         == Fragment([4 * (id + 50) + nb / 12, if all1 then 240 + nb % 12 + 1 else 16 * (11 - nb % 12)] + payload)
  {
    hide *;
    SmallNumbers(nb, 12, 4);
    Option1Header(id, nb, all1);
    Option1Shape(id);
    var o := IntBits(id + 50, 6) + IntBits(nb / 12, 2);
    Octet62(id + 50, nb / 12);
    if all1 {
      FragmentIs(TwoByteOption1(id), payload, nb, all1, o + (IntBits(15, 4) + IntBits(nb % 12 + 1, 4)));
      Octet44(15, nb % 12 + 1);
      TwoBytes(o, IntBits(15, 4) + IntBits(nb % 12 + 1, 4));
    } else {
      FragmentIs(TwoByteOption1(id), payload, nb, all1, o + (IntBits(11 - nb % 12, 4) + IntBits(0, 4)));
      Octet44(11 - nb % 12, 0);
      TwoBytes(o, IntBits(11 - nb % 12, 4) + IntBits(0, 4));
    }
  }

  lemma Option2Header(id: int, nb: nat, all1: bool)
    requires 15 <= id < 19
    ensures var r := TwoByteOption2(id);
      HeaderBits(r, nb, all1) == IntBits(id + 237, 8) +
        if all1 then (IntBits(nb / 31, 3) + IntBits(31, 5)) + (IntBits(nb % 31 + 1, 5) + IntBits(0, 3))
        else IntBits(nb / 31, 3) + IntBits(30 - nb % 31, 5)
    {
    hide *;
    var r := TwoByteOption2(id);
    Option2Shape(id);
    Option2Lengths(id);
    Pow2Values();
    Runs(5);
    Runs(3);
    LenOf(r, all1);
    FieldsAre(r, nb, all1);
    HeaderIs(r, nb, all1, if all1 then 3 else 0);
    var a, b, c, d := RuleIdBits(r), IntBits(nb / 31, 3), FcnBits(r, nb, all1), RcsBits(r, nb, all1);
    NoneBehind([]);
    GroupFive(a, b, c, d, if all1 then IntBits(0, 3) else []);
    NoneBehind(b + c);
  }

  lemma Option2Shape(id: int)
    ensures var r := TwoByteOption2(id);
      r.ruleIdSize == 8 && r.t == 0 && r.m == 3 && r.n == 5 && r.u == 5 && r.windowSize == 31
  {
  }

  /** Option 2: two bytes of header, three for an All-1. */
  lemma Option2Fragment(id: int, payload: seq<Byte>, nb: nat, all1: bool)
    requires 15 <= id < 19 && nb < 248
    ensures FragmentOf(TwoByteOption2(id), payload, nb, all1)
         == Fragment((if all1 then [id + 237, 32 * (nb / 31) + 31, 8 * (nb % 31 + 1)]
                      else [id + 237, 32 * (nb / 31) + 30 - nb % 31]) + payload)
  {
    hide *;
    SmallNumbers(nb, 31, 8);
    Option2Header(id, nb, all1);
    Option2Shape(id);
    Octet8(id + 237);
    if all1 {
      FragmentIs(TwoByteOption2(id), payload, nb, all1, IntBits(id + 237, 8)
        + ((IntBits(nb / 31, 3) + IntBits(31, 5)) + (IntBits(nb % 31 + 1, 5) + IntBits(0, 3))));
      Octet35(nb / 31, 31);
      Octet53(nb % 31 + 1, 0);
      ThreeBytes(IntBits(id + 237, 8), IntBits(nb / 31, 3) + IntBits(31, 5), IntBits(nb % 31 + 1, 5) + IntBits(0, 3));
    } else {
      FragmentIs(TwoByteOption2(id), payload, nb, all1,
        IntBits(id + 237, 8) + (IntBits(nb / 31, 3) + IntBits(30 - nb % 31, 5)));
      Octet35(nb / 31, 30 - nb % 31);
      TwoBytes(IntBits(id + 237, 8), IntBits(nb / 31, 3) + IntBits(30 - nb % 31, 5));
    }
  }

  // ---------------------------------------------------------------- packets

  lemma PieceIs(r: Rule, packet: seq<Byte>, i: nat, p: nat, n: nat)
    requires r.PayloadBytes() == p > 0 && |packet| > 0 && i < n == NbFragments(r, |packet|)
    ensures 0 <= p * i <= |packet| && (i < n - 1 ==> p * i + p <= |packet|)
    ensures Piece(r, packet, i) == packet[p * i..if i == n - 1 then |packet| else p * i + p]
  {
    OffsetStep(r, |packet|, i);
    hide NbFragments, Rule.PayloadBytes, PieceSize;
    PieceCuts(r, packet, i, p, n);
  }

  lemma PieceCuts(r: Rule, packet: seq<Byte>, i: nat, p: nat, n: nat)
    requires r.PayloadBytes() == p > 0 && |packet| > 0 && i < n == NbFragments(r, |packet|)
    ensures Offset(r, |packet|, i) == p * i
    ensures Offset(r, |packet|, i + 1) == if i == n - 1 then |packet| else p * i + p
  {
    hide NbFragments, Rule.PayloadBytes;
    assert (i + 1) * p == p * i + p && i * p == p * i;
  }

  /** Fragment `i` of a packet, by the place of its payload. */
  lemma FragmentAtIs(r: Rule, packet: seq<Byte>, i: nat, p: nat, n: nat)
    requires r.PayloadBytes() == p > 0 && r.t == 0 && r.windowSize > 0
    requires |packet| > 0 && i < n == NbFragments(r, |packet|)
    ensures 0 <= p * i <= |packet| && (i < n - 1 ==> p * i + p <= |packet|)
    ensures FragmentsOf(r, packet)[i]
         == FragmentOf(r, packet[p * i..if i == n - 1 then |packet| else p * i + p], i, i == n - 1)
  {
    hide FragmentOf, NbFragments, Piece, Rule.PayloadBytes;
    PieceIs(r, packet, i, p, n);
  }

  /** How many fragments there are: one for every `p` bytes begun, and one without payload
      where an All-1 has no room for a full one. */
  lemma CountIs(r: Rule, size: nat, p: nat)
    requires r.PayloadBytes() == p > 0
    ensures NbFragments(r, size) == if r.HeaderLen() < r.All1HeaderLen() then size / p + 1 else (size + p - 1) / p
  {
    hide Rule.PayloadBytes, Rule.HeaderLen, Rule.All1HeaderLen, CeilDiv;
    CeilOrOneMore(size, p);
  }

  lemma CeilOrOneMore(size: nat, p: nat)
    requires p > 0
    ensures CeilDiv(size, p) == (size + p - 1) / p
    ensures CeilDiv(size, p) + (if size % p == 0 then 1 else 0) == size / p + 1
  {
    var q, rem := size / p, size % p;
    assert size == p * q + rem;
    CeilDivSplit(q, p, rem);
    hide CeilDiv;
  }

  /** A packet under a single byte rule, fragment by fragment: eleven bytes each. The
      fragment at position `j` of window `w`: */
  lemma SingleBytePacket(id: int, packet: seq<Byte>, n: nat, w: nat, j: nat)
    requires 0 <= id < 7 && 1 <= |packet| <= 300 && 11 * n - 11 <= |packet| < 11 * n
    requires j < 7 && 7 * w + j < n
    ensures var r, i := SingleByte(id), 7 * w + j;
      && r.PayloadBytes() > 0 && r.t == 0 && r.windowSize > 0
      && |FragmentsOf(r, packet)| == n
      && FragmentsOf(r, packet)[i]
           == Fragment((if i == n - 1 then [32 * id + 8 * w + 7, 32 * (j + 1)] else [32 * id + 8 * w + 6 - j])
                       + packet[11 * i..if i == n - 1 then |packet| else 11 * i + 11])
  {
    hide *;
    var i := 7 * w + j;
    SingleByteShape(id);
    SingleByteLengths(id);
    QuotientIs(|packet|, 11, n - 1, |packet| - 11 * (n - 1));
    QuotientIs(i, 7, w, j);
    CountIs(SingleByte(id), |packet|, 11);
    FragmentAtIs(SingleByte(id), packet, i, 11, n);
    SingleByteFragment(id, packet[11 * i..if i == n - 1 then |packet| else 11 * i + 11], i, i == n - 1);
  }

  /** A packet under an option 1 rule: ten bytes a fragment, and no empty one. */
  lemma Option1Packet(id: int, packet: seq<Byte>, n: nat, w: nat, j: nat)
    requires 6 <= id < 13 && 1 <= |packet| <= 480 && 10 * n - 10 < |packet| <= 10 * n
    requires j < 12 && 12 * w + j < n
    ensures var r, i := TwoByteOption1(id), 12 * w + j;
      && r.PayloadBytes() > 0 && r.t == 0 && r.windowSize > 0
      && |FragmentsOf(r, packet)| == n
      && FragmentsOf(r, packet)[i]
           == Fragment([4 * (id + 50) + w, if i == n - 1 then 240 + j + 1 else 16 * (11 - j)]
                       + packet[10 * i..if i == n - 1 then |packet| else 10 * i + 10])
  {
    hide *;
    var i := 12 * w + j;
    Option1Shape(id);
    Option1Lengths(id);
    QuotientIs(|packet| + 9, 10, n, |packet| - 10 * (n - 1) - 1);
    QuotientIs(i, 12, w, j);
    CountIs(TwoByteOption1(id), |packet|, 10);
    FragmentAtIs(TwoByteOption1(id), packet, i, 10, n);
    Option1Fragment(id, packet[10 * i..if i == n - 1 then |packet| else 10 * i + 10], i, i == n - 1);
  }

  /** A packet under an option 2 rule: ten bytes a fragment. */
  lemma Option2Packet(id: int, packet: seq<Byte>, n: nat, w: nat, j: nat)
    requires 15 <= id < 19 && 1 <= |packet| <= 2400 && 10 * n - 10 <= |packet| < 10 * n
    requires j < 31 && 31 * w + j < n
    ensures var r, i := TwoByteOption2(id), 31 * w + j;
      && r.PayloadBytes() > 0 && r.t == 0 && r.windowSize > 0
      && |FragmentsOf(r, packet)| == n
      && FragmentsOf(r, packet)[i]
           == Fragment((if i == n - 1 then [id + 237, 32 * w + 31, 8 * (j + 1)] else [id + 237, 32 * w + 30 - j])
                       + packet[10 * i..if i == n - 1 then |packet| else 10 * i + 10])
  {
    hide *;
    var i := 31 * w + j;
    Option2Shape(id);
    Option2Lengths(id);
    QuotientIs(|packet|, 10, n - 1, |packet| - 10 * (n - 1));
    QuotientIs(i, 31, w, j);
    CountIs(TwoByteOption2(id), |packet|, 10);
    FragmentAtIs(TwoByteOption2(id), packet, i, 10, n);
    Option2Fragment(id, packet[10 * i..if i == n - 1 then |packet| else 10 * i + 10], i, i == n - 1);
  }

  // ---------------------------------------------------------------- rules

  /** How many windows, and how many fragments, each rule can number. */
  lemma Numbers(id: int)
    ensures SingleByte(id).MaxWindowNb() == 4 && SingleByte(id).MaxFragmentNb() == 28
    ensures TwoByteOption1(id).MaxWindowNb() == 4 && TwoByteOption1(id).MaxFragmentNb() == 48
    ensures TwoByteOption2(id).MaxWindowNb() == 8 && TwoByteOption2(id).MaxFragmentNb() == 248
  {
    SmallPowers();
    hide Pow2;
  }

  /** The rule of any bytes, by the first of them. */
  lemma RuleOfBytes(bs: seq<Byte>)
    requires bs != []
    ensures var x, b := At(bs, 0), BytesToBits(bs);
      && |b| >= 8
      && (x < 224 ==> InitRule(b) == SingleByte(x / 32))
      && (224 <= x < 252 ==> InitRule(b) == TwoByteOption1(x / 4 % 8 + 6))
      && (252 <= x ==> 15 <= InitRule(b).id < 19 && InitRule(b) == TwoByteOption2(InitRule(b).id))
  {
    hide *;
    var b, x := BytesToBits(bs), At(bs, 0);
    SmallPowers();
    FirstField(bs, 0, 3, 32, 8);
    FirstField(bs, 0, 6, 4, 64);
    StartIs(b, 3);
    StartIs(b, 6);
    InitRuleIs(b);
    Leading(x);
  }

  lemma StartIs(b: BitString, k: nat)
    requires 1 <= k <= |b|
    ensures Field(b, 0, k) == b[..k]
    ensures Monochar(b[..k], true) <==> b[..k] == Repeat(true, k)
  {
    MonocharIs(b[..k], true);
  }

  lemma Leading(x: int)
    requires 0 <= x < 256
    ensures x / 32 == 7 <==> x >= 224
    ensures x / 4 == 63 <==> x >= 252
  {
  }

  lemma InitRuleIs(b: BitString)
    requires |b| >= 6
    ensures b[..3] != Repeat(true, 3) ==> InitRule(b) == SingleByte(BinToInt(b[..3]))
    ensures b[..3] == Repeat(true, 3) && b[..6] != Repeat(true, 6)
         ==> InitRule(b) == TwoByteOption1(BinToInt(b[..6]) % 8 + 6)
    ensures b[..3] == Repeat(true, 3) && b[..6] == Repeat(true, 6)
         ==> 15 <= InitRule(b).id < 19 && InitRule(b) == TwoByteOption2(InitRule(b).id)
  {
    hide BinToInt, Repeat;
  }

  /** Which packets the rule of a first byte accepts. */
  lemma AcceptedSizes(bs: seq<Byte>, packet: seq<Byte>)
    requires bs != []
    ensures var x, b := At(bs, 0), BytesToBits(bs);
      && |b| >= 8
      && (Accepted(InitRule(b), packet) <==>
            1 <= |packet| <= if x < 224 then 300 else if x < 252 then 480 else 2400)
  {
    RuleOfBytes(bs);
    hide InitRule, BytesToBits, At;
  }

  // ---------------------------------------------------------------- Sender-Aborts

  /** The bits of a Sender-Abort: the identifier it was made from, '1's for window and FCN, and
      behind the FCN nothing but '0', up to the end of its last byte. */
  lemma AbortLayout(r: Rule, src: Fragment)
    requires r.t == 0 && |RuleIdField(r, src)| == r.ruleIdSize
    ensures var b := ToBits(AbortFrom(r, src));
      && |b| == r.HeaderLen() && r.RcsIdx() <= |b|
      && b[..r.ruleIdSize] == RuleIdField(r, src)
      && (forall k | r.WIdx() <= k < r.RcsIdx() :: b[k])
      && (forall k | r.RcsIdx() <= k < |b| :: !b[k])
  {
    hide *;
    var id := RuleIdField(r, src);
    AbortIndices(r);
    AbortImage(r, src);
    ThreeRuns(id, r.m + r.n, r.HeaderLen() - r.RcsIdx());
  }

  lemma AbortIndices(r: Rule)
    requires r.t == 0
    ensures r.WIdx() == r.ruleIdSize && r.RcsIdx() == r.ruleIdSize + r.m + r.n <= r.HeaderLen()
  {
  }

  lemma AbortImage(r: Rule, src: Fragment)
    requires r.t == 0 && |RuleIdField(r, src)| == r.ruleIdSize && r.RcsIdx() <= r.HeaderLen()
    ensures ToBits(AbortFrom(r, src))
         == RuleIdField(r, src) + Repeat(true, r.m + r.n) + Repeat(false, r.HeaderLen() - r.RcsIdx())
  {
    var id := RuleIdField(r, src);
    BitsRoundTrip(AbortBits(r, id));
    hide RuleIdField, BitsToBytes, BytesToBits, Rule.HeaderLen;
    RunsSplit(true, r.m, r.n);
    AppendAssociative(id, Repeat(true, r.m), Repeat(true, r.n));
  }

  lemma ThreeRuns(id: BitString, ones: nat, zeros: nat)
    ensures var b := id + Repeat(true, ones) + Repeat(false, zeros);
      && |b| == |id| + ones + zeros && b[..|id|] == id
      && (forall k | |id| <= k < |id| + ones :: b[k])
      && (forall k | |id| + ones <= k < |b| :: !b[k])
  {
  }

  lemma AbortBitsAre(r: Rule, zeros: nat)
    requires r.t == 0 && r.ruleIdSize + r.m + r.n + zeros == r.HeaderLen()
    ensures AbortBits(r, RuleIdBits(r))
         == RuleIdBits(r) + Repeat(true, r.m) + Repeat(true, r.n) + Repeat(false, zeros)
  {
    hide RuleIdBits, Rule.HeaderLen;
  }

  lemma AbortIs(r: Rule, bits: BitString)
    requires AbortBits(r, RuleIdBits(r)) == bits
    ensures |bits| % 8 == 0 && SenderAbort(r) == Fragment(BitsToBytes(bits))
  {
    hide RuleIdBits, BitsToBytes, AbortBits;
  }

  /** The Sender-Abort of each rule, in bytes. */
  lemma SenderAbortBytes(id: int)
    ensures 0 <= id < 7 ==> SenderAbort(SingleByte(id)) == Fragment([32 * id + 31])
    ensures 6 <= id < 13 ==> SenderAbort(TwoByteOption1(id)) == Fragment([4 * (id + 50) + 3, 240])
    ensures 15 <= id < 19 ==> SenderAbort(TwoByteOption2(id)) == Fragment([id + 237, 255])
  {
    hide *;
    if 0 <= id < 7 {
      SingleByteAbort(id);
    }
    if 6 <= id < 13 {
      Option1Abort(id);
    }
    if 15 <= id < 19 {
      Option2Abort(id);
    }
  }

  lemma SingleByteAbort(id: int)
    requires 0 <= id < 7
    ensures SenderAbort(SingleByte(id)) == Fragment([32 * id + 31])
  {
    hide *;
    var r, o := SingleByte(id), IntBits(id, 3) + IntBits(3, 2) + IntBits(7, 3);
    SingleByteShape(id);
    SingleByteLengths(id);
    Pow2Values();
    Runs(2);
    Runs(3);
    AbortBitsAre(r, 0);
    NoneBehind(o);
    AbortIs(r, o);
    Octet323(id, 3, 7);
    OneByte(o);
  }

  lemma Option1Abort(id: int)
    requires 6 <= id < 13
    ensures SenderAbort(TwoByteOption1(id)) == Fragment([4 * (id + 50) + 3, 240])
  {
    hide *;
    var r, a, b, c, z := TwoByteOption1(id), IntBits(id + 50, 6), IntBits(3, 2), IntBits(15, 4), IntBits(0, 4);
    Option1Shape(id);
    Option1Lengths(id);
    Pow2Values();
    Runs(2);
    Runs(4);
    AbortBitsAre(r, 4);
    GroupFour(a, b, c, z);
    AbortIs(r, (a + b) + (c + z));
    Octet62(id + 50, 3);
    Octet44(15, 0);
    TwoBytes(a + b, c + z);
  }

  lemma Option2Abort(id: int)
    requires 15 <= id < 19
    ensures SenderAbort(TwoByteOption2(id)) == Fragment([id + 237, 255])
  {
    hide *;
    var r, a, b, c := TwoByteOption2(id), IntBits(id + 237, 8), IntBits(7, 3), IntBits(31, 5);
    Option2Shape(id);
    Option2Lengths(id);
    Pow2Values();
    Runs(3);
    Runs(5);
    AbortBitsAre(r, 0);
    NoneBehind(a + b + c);
    AppendAssociative(a, b, c);
    AbortIs(r, a + (b + c));
    Octet8(id + 237);
    Octet35(7, 31);
    TwoBytes(a, b + c);
  }

  lemma GroupFour(a: BitString, b: BitString, c: BitString, d: BitString)
    ensures a + b + c + d == (a + b) + (c + d) && a + b + c + d == a + (b + (c + d))
  {
  }

  // ---------------------------------------------------------------- fragments that arrive

  lemma PastTheEnd(bs: seq<Byte>, at: nat, len: nat, c: bool)
    requires at >= 8 * |bs|
    ensures Field(BytesToBits(bs), at, len) == [] && !Monochar([], c)
  {
  }

  /** The classes of a fragment by its fields and its number of bytes. */
  lemma ClassIs(r: Rule, bs: seq<Byte>)
    ensures var f, b := Fragment(bs), BytesToBits(bs);
      var w, fcn := Field(b, r.WIdx(), r.m), Field(b, r.FcnIdx(), r.n);
      && (IsAll0(r, f) <==> Monochar(fcn, false))
      && (IsAll1(r, f) <==> Monochar(fcn, true) && 8 * |bs| >= r.All1HeaderLen())
      && (IsSenderAbort(r, f) <==> Monochar(fcn, true) && Monochar(w, true) && 8 * |bs| < r.All1HeaderLen())
      && Window(r, f) == BinToInt(w)
  {
    hide BytesToBits, Monochar, BinToInt, Field, Rule.All1HeaderLen;
  }

  lemma PositionIs(r: Rule, bs: seq<Byte>)
    ensures var f, b := Fragment(bs), BytesToBits(bs);
      && (IsAll1(r, f) ==> Rcs(r, f) == Field(b, r.RcsIdx(), r.u))
      && FragmentNb(r, f) == r.windowSize * Window(r, f)
           + (if IsAll1(r, f) then BinToInt(Field(b, r.RcsIdx(), r.u)) - 1
              else r.windowSize - BinToInt(Field(b, r.FcnIdx(), r.n)) - 1)
      && HeaderBytes(r, f) == (if IsAll1(r, f) then r.All1HeaderLen() else r.HeaderLen()) / 8
  {
    hide BytesToBits, BinToInt, Field, IsAll1, Window, Rule.All1HeaderLen, Rule.HeaderLen;
  }

  /** What any bytes are taken for under a single byte rule. */
  lemma ReadSingleByte(id: int, bs: seq<Byte>)
    ensures var r, f := SingleByte(id), Fragment(bs);
      && (IsAll0(r, f) <==> |bs| >= 1 && At(bs, 0) % 8 == 0)
      && (IsAll1(r, f) <==> |bs| >= 2 && At(bs, 0) % 8 == 7)
      && (IsSenderAbort(r, f) <==> |bs| == 1 && At(bs, 0) % 32 == 31)
      && HeaderBytes(r, f) == (if IsAll1(r, f) then 2 else 1)
      && (|bs| >= 1 ==>
           && Window(r, f) == At(bs, 0) / 8 % 4
           && (IsAll1(r, f) ==> FragmentNb(r, f) == 7 * (At(bs, 0) / 8 % 4) + At(bs, 1) / 32 - 1)
           && (!IsAll1(r, f) ==> FragmentNb(r, f) == 7 * (At(bs, 0) / 8 % 4) + 6 - At(bs, 0) % 8))
  {
    hide *;
    SingleByteShape(id);
    SingleByteLengths(id);
    SmallPowers();
    ClassIs(SingleByte(id), bs);
    PositionIs(SingleByte(id), bs);
    SingleByteOffsets(id);
    if bs == [] {
      PastTheEnd(bs, 5, 3, false);
      PastTheEnd(bs, 5, 3, true);
    } else {
      FieldValue(bs, 3, 0, 2, 8, 4);
      FieldValue(bs, 5, 0, 3, 1, 8);
      LowFive(At(bs, 0));
      if |bs| >= 2 {
        FirstField(bs, 1, 3, 32, 8);
      }
    }
  }

  lemma LowFive(x: int)
    ensures x % 32 == 31 <==> x / 8 % 4 == 3 && x % 8 == 7
  {
  }

  lemma SingleByteOffsets(id: int)
    ensures var r := SingleByte(id); r.WIdx() == 3 && r.FcnIdx() == 5 && r.RcsIdx() == 8
  {
  }

  lemma Option1Offsets(id: int)
    ensures var r := TwoByteOption1(id); r.WIdx() == 6 && r.FcnIdx() == 8 && r.RcsIdx() == 12
  {
  }

  lemma Option2Offsets(id: int)
    ensures var r := TwoByteOption2(id); r.WIdx() == 8 && r.FcnIdx() == 11 && r.RcsIdx() == 16
  {
  }

  /** What any bytes are taken for under an option 1 rule; never for a Sender-Abort. */
  lemma ReadOption1(id: int, bs: seq<Byte>)
    requires 6 <= id < 13
    ensures var r, f := TwoByteOption1(id), Fragment(bs);
      && (IsAll0(r, f) <==> |bs| >= 2 && At(bs, 1) / 16 == 0)
      && (IsAll1(r, f) <==> |bs| >= 2 && At(bs, 1) / 16 == 15)
      && !IsSenderAbort(r, f)
      && HeaderBytes(r, f) == 2
      && (|bs| >= 2 ==>
           && Window(r, f) == At(bs, 0) % 4
           && (IsAll1(r, f) ==> FragmentNb(r, f) == 12 * (At(bs, 0) % 4) + At(bs, 1) % 16 - 1)
           && (!IsAll1(r, f) ==> FragmentNb(r, f) == 12 * (At(bs, 0) % 4) + 11 - At(bs, 1) / 16))
  {
    hide *;
    Option1Shape(id);
    Option1Lengths(id);
    SmallPowers();
    ClassIs(TwoByteOption1(id), bs);
    PositionIs(TwoByteOption1(id), bs);
    Option1Offsets(id);
    if |bs| < 2 {
      PastTheEnd(bs, 8, 4, false);
      PastTheEnd(bs, 8, 4, true);
    } else {
      FieldValue(bs, 6, 0, 2, 1, 4);
      FirstField(bs, 1, 4, 16, 16);
      FieldValue(bs, 12, 1, 4, 1, 16);
    }
  }

  /** What any bytes are taken for under an option 2 rule. */
  lemma ReadOption2(id: int, bs: seq<Byte>)
    requires 15 <= id < 19
    ensures var r, f := TwoByteOption2(id), Fragment(bs);
      && (IsAll0(r, f) <==> |bs| >= 2 && At(bs, 1) % 32 == 0)
      && (IsAll1(r, f) <==> |bs| >= 3 && At(bs, 1) % 32 == 31)
      && (IsSenderAbort(r, f) <==> |bs| == 2 && At(bs, 1) == 255)
      && HeaderBytes(r, f) == (if IsAll1(r, f) then 3 else 2)
      && (|bs| >= 2 ==>
           && Window(r, f) == At(bs, 1) / 32
           && (IsAll1(r, f) ==> FragmentNb(r, f) == 31 * (At(bs, 1) / 32) + At(bs, 2) / 8 - 1)
           && (!IsAll1(r, f) ==> FragmentNb(r, f) == 31 * (At(bs, 1) / 32) + 30 - At(bs, 1) % 32))
  {
    hide *;
    Option2Shape(id);
    Option2Lengths(id);
    SmallPowers();
    ClassIs(TwoByteOption2(id), bs);
    PositionIs(TwoByteOption2(id), bs);
    Option2Offsets(id);
    if |bs| < 2 {
      PastTheEnd(bs, 11, 5, false);
      PastTheEnd(bs, 11, 5, true);
    } else {
      Option2Fields(bs);
      AllEight(At(bs, 1));
    }
  }

  lemma Option2Fields(bs: seq<Byte>)
    requires |bs| >= 2
    ensures var b, x := BytesToBits(bs), At(bs, 1);
      && BinToInt(Field(b, 8, 3)) == x / 32
      && (Monochar(Field(b, 8, 3), true) <==> x / 32 == 7)
      && BinToInt(Field(b, 11, 5)) == x % 32
      && (Monochar(Field(b, 11, 5), true) <==> x % 32 == 31)
      && (Monochar(Field(b, 11, 5), false) <==> x % 32 == 0)
      && (|bs| >= 3 ==> BinToInt(Field(b, 16, 5)) == At(bs, 2) / 8)
  {
    hide *;
    SmallPowers();
    FirstField(bs, 1, 3, 32, 8);
    FieldValue(bs, 11, 1, 5, 1, 32);
    if |bs| >= 3 {
      FirstField(bs, 2, 5, 8, 32);
    }
  }

  lemma AllEight(x: int)
    requires 0 <= x < 256
    ensures x == 255 <==> x / 32 == 7 && x % 32 == 31
  {
  }

  /** The Sender-Abort of an option 1 rule reads as an All-1 without fragments in its window,
      whose number is the last of the window before. */
  lemma Option1AbortReads(id: int)
    requires 6 <= id < 13
    ensures var r, f := TwoByteOption1(id), SenderAbort(TwoByteOption1(id));
      IsAll1(r, f) && BinToInt(Rcs(r, f)) == 0 && FragmentNb(r, f) == 35
  {
    hide *;
    Option1Abort(id);
    var bs := [4 * (id + 50) + 3, 240];
    ReadOption1(id, bs);
    Option1Shape(id);
    Option1Offsets(id);
    PositionIs(TwoByteOption1(id), bs);
    SmallPowers();
    FieldValue(bs, 12, 1, 4, 1, 16);
  }

  // ---------------------------------------------------------------- ACKs that are generated

  function Zeros(k: nat): (bs: seq<Byte>)
    ensures |bs| == k
  {
    seq(k, _ => 0)
  }

  lemma {:induction false} ZeroOctets(k: nat)
    ensures BitsToBytes(Repeat(false, 8 * k)) == Zeros(k)
    decreases k
  {
    hide *;
    MoreZeros(k);
    if k > 0 {
      ZeroOctets(k - 1);
      NoValue(8);
      FirstByte(Repeat(false, 8), Repeat(false, 8 * (k - 1)));
    }
  }

  lemma MoreZeros(k: nat)
    ensures if k == 0 then BitsToBytes(Repeat(false, 8 * k)) == Zeros(k)
            else Repeat(false, 8 * k) == Repeat(false, 8) + Repeat(false, 8 * (k - 1)) && Zeros(k) == [0] + Zeros(k - 1)
  {
    if k > 0 {
      hide BitsToBytes;
      RunsSplit(false, 8, 8 * (k - 1));
    }
  }

  lemma RunsSplit(c: bool, j: nat, k: nat)
    ensures Repeat(c, j + k) == Repeat(c, j) + Repeat(c, k)
  {
  }

  lemma WrittenAckIs(b: BitString, len: nat)
    requires |b| == 8 * len && len <= 8
    ensures AckOf(b) == Ack(BitsToBytes(b) + Zeros(8 - len))
  {
    hide *;
    ZeroOctets(8 - len);
    BytesAppend(b, Repeat(false, 8 * (8 - len)));
    DownlinkIs(b, 64 - |b|);
  }

  /** An ACK is what is written and '0's up to 64 bits. */
  lemma DownlinkIs(b: BitString, zeros: nat)
    requires |b| + zeros == 64
    ensures AckOf(b) == Ack(BitsToBytes(b + Repeat(false, zeros)))
  {
    hide BitsToBytes;
    assert ToDownlink(b) == b + Repeat(false, zeros);
  }

  lemma {:induction false} BytesAppend(a: BitString, b: BitString)
    requires |a| % 8 == 0 && |b| % 8 == 0
    ensures BitsToBytes(a + b) == BitsToBytes(a) + BitsToBytes(b)
    decreases |a|
  {
    hide *;
    if a == [] {
      NoBytes();
      NoneBehind(b);
    } else {
      BytesAppend(a[8..], b);
      BitsToBytesCons(a[..8], a[8..]);
      BitsToBytesCons(a[..8], a[8..] + b);
      assert a == a[..8] + a[8..];
      AppendAssociative(a[..8], a[8..], b);
    }
  }

  lemma NoBytes()
    ensures BitsToBytes([]) == []
  {
  }

  /** '0's written at the end of an ACK are as good as none. */
  lemma AckPadded(b: BitString, zeros: nat)
    requires |b| + zeros <= 64
    ensures AckOf(b) == AckOf(b + Repeat(false, zeros))
  {
    hide BitsToBytes;
    assert ToDownlink(b + Repeat(false, zeros)) == ToDownlink(b);
  }

  lemma CompleteAckIs(r: Rule, w: nat)
    ensures CompleteAck(r, w) == AckOf(RuleIdBits(r) + IntBits(w, r.m) + [true])
  {
    hide RuleIdBits, IntBits, AckOf;
  }

  lemma OneBit()
    ensures BinVal([true]) == 1
  {
    ValSnoc([], true);
    assert [] + [true] == [true];
  }

  /** C and the padding behind it, as a number. */
  lemma LastField(k: nat)
    ensures [true] + Repeat(false, k) == IntBits(Pow2(k), 1 + k) && FitsIn(Pow2(k), 1 + k)
  {
    hide *;
    LastValue(k);
    IntBitsOfVal([true] + Repeat(false, k));
  }

  lemma LastValue(k: nat)
    ensures var s := [true] + Repeat(false, k); |s| == 1 + k && BinVal(s) == Pow2(k)
    ensures FitsIn(Pow2(k), 1 + k)
  {
    hide *;
    ValAppend([true], Repeat(false, k));
    NoValue(k);
    OneBit();
    PowerFits(k);
  }

  lemma PowerFits(k: nat)
    ensures FitsIn(Pow2(k), 1 + k)
  {
  }

  /** A complete ACK of each rule, in bytes. */
  lemma CompleteAckBytes(id: int, w: nat)
    ensures 0 <= id < 7 && w < 4 ==> CompleteAck(SingleByte(id), w) == Ack([32 * id + 8 * w + 4] + Zeros(7))
    ensures 6 <= id < 13 && w < 4 ==> CompleteAck(TwoByteOption1(id), w) == Ack([4 * (id + 50) + w, 128] + Zeros(6))
    ensures 15 <= id < 19 && w < 8 ==> CompleteAck(TwoByteOption2(id), w) == Ack([id + 237, 32 * w + 16] + Zeros(6))
  {
    hide *;
    if 0 <= id < 7 && w < 4 {
      SingleByteComplete(id, w);
    }
    if 6 <= id < 13 && w < 4 {
      Option1Complete(id, w);
    }
    if 15 <= id < 19 && w < 8 {
      Option2Complete(id, w);
    }
  }

  lemma SingleByteComplete(id: int, w: nat)
    requires 0 <= id < 7 && w < 4
    ensures CompleteAck(SingleByte(id), w) == Ack([32 * id + 8 * w + 4] + Zeros(7))
  {
    hide *;
    var a, b, c := IntBits(id, 3), IntBits(w, 2), IntBits(4, 3);
    SingleByteShape(id);
    SingleByteLengths(id);
    Pow2Values();
    CompleteAckIs(SingleByte(id), w);
    Octet323(id, w, 4);
    LastField(2);
    AppendAssociative(a + b, [true], Repeat(false, 2));
    AckPadded(a + b + [true], 2);
    WrittenAckIs(a + b + c, 1);
    OneByte(a + b + c);
  }

  lemma Option1Complete(id: int, w: nat)
    requires 6 <= id < 13 && w < 4
    ensures CompleteAck(TwoByteOption1(id), w) == Ack([4 * (id + 50) + w, 128] + Zeros(6))
  {
    hide *;
    var a, b, c := IntBits(id + 50, 6), IntBits(w, 2), IntBits(128, 8);
    Option1Shape(id);
    Option1Lengths(id);
    PowSeven();
    CompleteAckIs(TwoByteOption1(id), w);
    Octet62(id + 50, w);
    Octet8(128);
    LastField(7);
    AppendAssociative(a + b, [true], Repeat(false, 7));
    AckPadded(a + b + [true], 7);
    WrittenAckIs((a + b) + c, 2);
    TwoBytes(a + b, c);
  }

  lemma PowSeven()
    ensures Pow2(7) == 128
  {
    Pow2Values();
  }

  lemma Option2Complete(id: int, w: nat)
    requires 15 <= id < 19 && w < 8
    ensures CompleteAck(TwoByteOption2(id), w) == Ack([id + 237, 32 * w + 16] + Zeros(6))
  {
    hide *;
    var a, b, c := IntBits(id + 237, 8), IntBits(w, 3), IntBits(16, 5);
    Option2Shape(id);
    Option2Lengths(id);
    Pow2Values();
    CompleteAckIs(TwoByteOption2(id), w);
    Octet8(id + 237);
    Octet35(w, 16);
    LastField(4);
    AppendAssociative(a + b, [true], Repeat(false, 4));
    AppendAssociative(a, b, c);
    AckPadded(a + b + [true], 4);
    WrittenAckIs(a + (b + c), 2);
    TwoBytes(a, b + c);
  }

  lemma AbortAckIs(r: Rule, padding: nat)
    requires AbortPadding(r) == padding
    ensures ReceiverAbort(r) == AckOf(RuleIdBits(r) + Repeat(true, r.m + 1 + padding))
  {
    hide RuleIdBits, AckOf, AbortPadding;
    assert RuleIdBits(r) + Repeat(true, r.m) + [true] + Repeat(true, padding)
        == RuleIdBits(r) + Repeat(true, r.m + 1 + padding);
  }

  lemma PaddingOf(r: Rule)
    ensures AbortPadding(r) == if r.AckHeaderLen() % 8 == 0 then 8 else 16 - r.AckHeaderLen() % 8
  {
    hide Rule.AckHeaderLen;
  }

  /** The Receiver-Abort of each rule, in bytes. */
  lemma ReceiverAbortBytes(id: int)
    ensures 0 <= id < 7 ==> ReceiverAbort(SingleByte(id)) == Ack([32 * id + 31, 255] + Zeros(6))
    ensures 6 <= id < 13 ==> ReceiverAbort(TwoByteOption1(id)) == Ack([4 * (id + 50) + 3, 255, 255] + Zeros(5))
    ensures 15 <= id < 19 ==> ReceiverAbort(TwoByteOption2(id)) == Ack([id + 237, 255, 255] + Zeros(5))
  {
    hide *;
    if 0 <= id < 7 {
      SingleByteReceiverAbort(id);
    }
    if 6 <= id < 13 {
      Option1ReceiverAbort(id);
    }
    if 15 <= id < 19 {
      Option2ReceiverAbort(id);
    }
  }

  lemma Ones()
    ensures Repeat(true, 2) == IntBits(3, 2) && Repeat(true, 5) == IntBits(31, 5) && Repeat(true, 8) == IntBits(255, 8)
  {
    hide IntBits, Repeat;
    Pow2Values();
    Runs(2);
    Runs(5);
    Runs(8);
  }

  lemma SingleByteReceiverAbort(id: int)
    requires 0 <= id < 7
    ensures ReceiverAbort(SingleByte(id)) == Ack([32 * id + 31, 255] + Zeros(6))
  {
    hide *;
    var r, a, b, o := SingleByte(id), IntBits(id, 3), IntBits(31, 5), IntBits(255, 8);
    SingleByteShape(id);
    SingleByteLengths(id);
    PaddingOf(r);
    AbortAckIs(r, 10);
    Ones();
    RunsSplit(true, 5, 8);
    AppendAssociative(a, b, o);
    Octet35(id, 31);
    Octet8(255);
    WrittenAckIs((a + b) + o, 2);
    TwoBytes(a + b, o);
  }

  lemma Option1ReceiverAbort(id: int)
    requires 6 <= id < 13
    ensures ReceiverAbort(TwoByteOption1(id)) == Ack([4 * (id + 50) + 3, 255, 255] + Zeros(5))
  {
    hide *;
    var r, a, b, o := TwoByteOption1(id), IntBits(id + 50, 6), IntBits(3, 2), IntBits(255, 8);
    Option1Shape(id);
    Option1Lengths(id);
    PaddingOf(r);
    AbortAckIs(r, 15);
    Ones();
    RunsSplit(true, 2, 16);
    RunsSplit(true, 8, 8);
    AppendAssociative(a, b, o + o);
    Octet62(id + 50, 3);
    Octet8(255);
    WrittenAckIs((a + b) + (o + o), 3);
    ThreeBytes(a + b, o, o);
  }

  lemma Option2ReceiverAbort(id: int)
    requires 15 <= id < 19
    ensures ReceiverAbort(TwoByteOption2(id)) == Ack([id + 237, 255, 255] + Zeros(5))
  {
    hide *;
    var r, a, o := TwoByteOption2(id), IntBits(id + 237, 8), IntBits(255, 8);
    Option2Shape(id);
    Option2Lengths(id);
    PaddingOf(r);
    AbortAckIs(r, 12);
    Ones();
    RunsSplit(true, 8, 8);
    Octet8(id + 237);
    Octet8(255);
    WrittenAckIs(a + (o + o), 3);
    ThreeBytes(a, o, o);
  }
}
