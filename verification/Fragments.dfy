/**
  Fragments and their classification: messages/fragment.c.

  The null fragment (byte_size -1) is a constructor of its own; any other fragment
  is the `byte_size` bytes of its message.
 */
module Fragments {
  import opened Options
  import opened Bits
  import opened Rules

  datatype Fragment = NullFragment | Fragment(bytes: seq<Byte>)

  /** frg_to_bin. */
  function ToBits(f: Fragment): BitString {
    if f.NullFragment? then [] else BytesToBits(f.bytes)
  }

  function RuleIdField(r: Rule, f: Fragment): BitString { Field(ToBits(f), 0, r.ruleIdSize) }
  function W(r: Rule, f: Fragment): BitString { Field(ToBits(f), r.WIdx(), r.m) }
  function Fcn(r: Rule, f: Fragment): BitString { Field(ToBits(f), r.FcnIdx(), r.n) }
  function Window(r: Rule, f: Fragment): int { BinToInt(W(r, f)) }

  predicate IsAll0(r: Rule, f: Fragment) {
    !f.NullFragment? && Monochar(Fcn(r, f), false)
  }

  /** An All-1 has bits after its header, or is exactly its header. */
  predicate IsAll1(r: Rule, f: Fragment) {
    && !f.NullFragment?
    && Monochar(Fcn(r, f), true)
    && |ToBits(f)| >= r.All1HeaderLen()
  }

  predicate ExpectsAck(r: Rule, f: Fragment) {
    !f.NullFragment? && (IsAll0(r, f) || IsAll1(r, f))
  }

  predicate IsSenderAbort(r: Rule, f: Fragment) {
    && !f.NullFragment?
    && Monochar(W(r, f), true)
    && Monochar(Fcn(r, f), true)
    && |ToBits(f)| < r.All1HeaderLen()
  }

  function Rcs(r: Rule, f: Fragment): BitString {
    if IsAll1(r, f) then Field(ToBits(f), r.RcsIdx(), r.u) else []
  }

  function HeaderBytes(r: Rule, f: Fragment): nat {
    if IsAll1(r, f) then r.All1HeaderLen() / 8 else r.HeaderLen() / 8
  }

  function PayloadSize(r: Rule, f: Fragment): int
    requires !f.NullFragment?
  {
    |f.bytes| - HeaderBytes(r, f)
  }

  /** get_frg_payload: the bytes after the header. */
  function Payload(r: Rule, f: Fragment): seq<Byte>
    requires !f.NullFragment? && PayloadSize(r, f) >= 0
  {
    f.bytes[HeaderBytes(r, f)..]
  }

  /** get_frg_idx: position in the window, from the RCS of an All-1 and from the FCN otherwise. */
  function Idx(r: Rule, f: Fragment): int {
    if IsAll1(r, f) then BinToInt(Rcs(r, f)) - 1
    else r.windowSize - BinToInt(Fcn(r, f)) - 1
  }

  /** get_frg_nb. */
  function FragmentNb(r: Rule, f: Fragment): int {
    r.windowSize * Window(r, f) + Idx(r, f)
  }

  // ---------------------------------------------------------------- generation

  function HeaderLenOf(r: Rule, all1: bool): nat {
    if all1 then r.All1HeaderLen() else r.HeaderLen()
  }

  function FcnBits(r: Rule, nb: nat, all1: bool): (b: BitString)
    requires r.windowSize > 0
    ensures |b| == r.n
  {
    if all1 then Repeat(true, r.n) else IntBits(r.windowSize - nb % r.windowSize - 1, r.n)
  }

  /** The number of fragments in the last window; only an All-1 carries it. */
  function RcsBits(r: Rule, nb: nat, all1: bool): (b: BitString)
    requires r.windowSize > 0
    ensures |b| == if all1 then r.u else 0
  {
    if all1 then IntBits(nb % r.windowSize + 1, r.u) else []
  }

  function HeaderBits(r: Rule, nb: nat, all1: bool): (b: BitString)
    requires r.t == 0 && r.windowSize > 0
    ensures |b| == HeaderLenOf(r, all1)
  {
    Padded(RuleIdBits(r) + IntBits(nb / r.windowSize, r.m) + FcnBits(r, nb, all1) + RcsBits(r, nb, all1),
           HeaderLenOf(r, all1))
  }

  /** A fragment is its header, byte-aligned, followed by its payload. */
  function FragmentOf(r: Rule, payload: seq<Byte>, nb: nat, all1: bool): (f: Fragment)
    requires r.t == 0 && r.windowSize > 0
  {
    Fragment(BitsToBytes(HeaderBits(r, nb, all1)) + payload)
  }

  predicate Fits(r: Rule, payload: seq<Byte>, all1: bool) {
    8 * |payload| <= UPLINK_MTU_BITS - HeaderLenOf(r, all1)
  }

  /** generate_frg: write each field over a header of '0' characters, then convert. */
  method GenerateFrg(r: Rule, payload: seq<Byte>, nb: nat, all1: bool) returns (dest: Option<Fragment>)
    requires r.t == 0 && r.windowSize > 0
    requires r.ruleIdSize <= INT_BITS && r.m <= INT_BITS && r.n <= INT_BITS && r.u <= INT_BITS
    ensures dest == if Fits(r, payload, all1) then Some(FragmentOf(r, payload, nb, all1)) else None
  {
    var headerLength := if all1 then r.All1HeaderLen() else r.HeaderLen();
    var payloadMaxLength := UPLINK_MTU_BITS - headerLength;
    if |payload| * 8 > payloadMaxLength {
      return None;
    }
    var ruleId := GetRuleIdBin(r);
    var w := IntToBin(nb / r.windowSize, r.m);
    var fcn, rcs := [], [];
    if all1 {
      fcn := Repeat(true, r.n);
      rcs := IntToBin(nb % r.windowSize + 1, r.u);
    } else {
      fcn := IntToBin(r.windowSize - nb % r.windowSize - 1, r.n);
    }
    var header := WriteFields(headerLength, ruleId, w, fcn, rcs);
    var headerAsBytes := BinToBytes(header[..]);
    return Some(Fragment(headerAsBytes[..] + payload));
  }

  /** The fields, written one after the other over a buffer of '0' characters. */
  method WriteFields(len: nat, ruleId: BitString, w: BitString, fcn: BitString, rcs: BitString)
    returns (header: array<bool>)
    requires |ruleId| + |w| + |fcn| + |rcs| <= len
    ensures fresh(header)
    ensures header[..] == Padded(ruleId + w + fcn + rcs, len)
  {
    header := new bool[len](_ => false);
    assert header[..] == Padded([], len);
    AppendField(header, 0, ruleId, []);
    assert [] + ruleId == ruleId;
    AppendField(header, |ruleId|, w, ruleId);
    AppendField(header, |ruleId| + |w|, fcn, ruleId + w);
    if rcs != [] {
      AppendField(header, |ruleId| + |w| + |fcn|, rcs, ruleId + w + fcn);
    } else {
      assert ruleId + w + fcn + rcs == ruleId + w + fcn;
    }
  }

  /** A Sender-Abort that carries the identifier `id`. */
  function AbortBits(r: Rule, id: BitString): (b: BitString)
    requires |id| <= r.ruleIdSize
    ensures |b| == r.HeaderLen()
  {
    Padded(id + Repeat(true, r.m) + Repeat(true, r.n), r.HeaderLen())
  }

  /** The identifier of a Sender-Abort is copied from the fragment given as reference. */
  function AbortFrom(r: Rule, src: Fragment): Fragment {
    Fragment(BitsToBytes(AbortBits(r, RuleIdField(r, src))))
  }

  /** The Sender-Abort of a rule. */
  function SenderAbort(r: Rule): Fragment {
    Fragment(BitsToBytes(AbortBits(r, RuleIdBits(r))))
  }

  /** generate_sender_abort. */
  method GenerateSenderAbort(r: Rule, src: Fragment) returns (dest: Fragment)
    requires r.t == 0 && |RuleIdField(r, src)| == r.ruleIdSize
    ensures dest == AbortFrom(r, src)
  {
    var ruleId := RuleIdField(r, src);
    var saSize := RoundUp(r.RcsIdx());
    var saBin := WriteFields(saSize, ruleId, Repeat(true, r.m), Repeat(true, r.n), []);
    assert ruleId + Repeat(true, r.m) + Repeat(true, r.n) + [] == ruleId + Repeat(true, r.m) + Repeat(true, r.n);
    var bytes := BinToBytes(saBin[..]);
    dest := Fragment(bytes[..]);
  }

  // ---------------------------------------------------------------- reading back

  lemma FragmentBits(r: Rule, payload: seq<Byte>, nb: nat, all1: bool)
    requires r.t == 0 && r.windowSize > 0
    ensures ToBits(FragmentOf(r, payload, nb, all1)) == HeaderBits(r, nb, all1) + BytesToBits(payload)
  {
    var h := HeaderBits(r, nb, all1);
    BytesToBitsAppend(BitsToBytes(h), payload);
    BitsRoundTrip(h);
  }

  /** Every field of a generated fragment reads back as written, whatever the payload. */
  lemma GeneratedFields(r: Rule, payload: seq<Byte>, nb: nat, all1: bool)
    requires r.t == 0 && r.windowSize > 0
    ensures var f := FragmentOf(r, payload, nb, all1);
      && RuleIdField(r, f) == RuleIdBits(r)
      && W(r, f) == IntBits(nb / r.windowSize, r.m)
      && Fcn(r, f) == FcnBits(r, nb, all1)
      && (all1 ==> Field(ToBits(f), r.RcsIdx(), r.u) == RcsBits(r, nb, all1))
  {
    var f := FragmentOf(r, payload, nb, all1);
    FragmentBits(r, payload, nb, all1);
    hide FragmentOf, Field, RuleIdBits, IntBits, FcnBits, RcsBits, ToBits, BytesToBits;
    var a, b, c, d := RuleIdBits(r), IntBits(nb / r.windowSize, r.m), FcnBits(r, nb, all1), RcsBits(r, nb, all1);
    var pad := Repeat(false, HeaderLenOf(r, all1) - |a + b + c + d|);
    PaddedAppend(a + b + c + d, HeaderLenOf(r, all1), BytesToBits(payload));
    FieldsOfFour(a, b, c, d, pad + BytesToBits(payload));
  }

  /** A fragment number below the maximum has a window number that fits its field. */
  lemma WindowInRange(nb: nat, ws: nat, windows: nat)
    requires ws > 0 && nb < windows * ws
    ensures 0 <= nb / ws < windows && 0 <= nb % ws < ws && nb == ws * (nb / ws) + nb % ws
  {
    var q := nb / ws;
    assert q >= windows ==> ws * q >= ws * windows;
  }

  lemma RegularFcn(r: Rule, nb: nat)
    requires r.WellFormed()
    ensures var b := FcnBits(r, nb, false);
      && BinToInt(b) == r.windowSize - nb % r.windowSize - 1
      && !Monochar(b, true)
      && (Monochar(b, false) <==> nb % r.windowSize == r.windowSize - 1)
  {
    hide BinToInt, IntBits, Monochar;
    RegularFcnFrom(r, nb % r.windowSize);
  }

  lemma RegularFcnFrom(r: Rule, j: nat)
    requires r.WellFormed() && j < r.windowSize
    ensures var b := IntBits(r.windowSize - j - 1, r.n);
      && BinToInt(b) == r.windowSize - j - 1
      && !Monochar(b, true)
      && (Monochar(b, false) <==> j == r.windowSize - 1)
  {
    SmallRoundTrip(r.windowSize - j - 1, r.n);
    ConstantImages(r.windowSize - j - 1, r.n);
  }

  lemma All1Fcn(r: Rule, nb: nat)
    requires r.WellFormed()
    ensures var b := FcnBits(r, nb, true);
      Monochar(b, true) && !Monochar(b, false)
  {
    assert FcnBits(r, nb, true)[0];
  }

  /** A fragment belongs to exactly the class it was generated for. */
  lemma GeneratedClass(r: Rule, payload: seq<Byte>, nb: nat, all1: bool)
    requires r.WellFormed()
    ensures var f := FragmentOf(r, payload, nb, all1);
      && (IsAll1(r, f) <==> all1)
      && (IsAll0(r, f) <==> !all1 && nb % r.windowSize == r.windowSize - 1)
      && !IsSenderAbort(r, f)
  {
    GeneratedFields(r, payload, nb, all1);
    FragmentBits(r, payload, nb, all1);
    if all1 {
      All1Fcn(r, nb);
    } else {
      RegularFcn(r, nb);
    }
  }

  lemma GeneratedWindow(r: Rule, payload: seq<Byte>, nb: nat, all1: bool)
    requires r.WellFormed() && nb < r.MaxFragmentNb()
    ensures Window(r, FragmentOf(r, payload, nb, all1)) == nb / r.windowSize
  {
    GeneratedFields(r, payload, nb, all1);
    WindowInRange(nb, r.windowSize, Pow2(r.m));
    SmallRoundTrip(nb / r.windowSize, r.m);
  }

  lemma RcsValue(r: Rule, nb: nat)
    requires r.WellFormed()
    ensures BinToInt(RcsBits(r, nb, true)) == nb % r.windowSize + 1
  {
    var v := nb % r.windowSize + 1;
    SmallRoundTrip(v, r.u);
  }

  lemma GeneratedPosition(r: Rule, payload: seq<Byte>, nb: nat, all1: bool)
    requires r.WellFormed()
    ensures var f := FragmentOf(r, payload, nb, all1);
      && Idx(r, f) == nb % r.windowSize
      && (all1 ==> BinToInt(Rcs(r, f)) == nb % r.windowSize + 1)
  {
    var f := FragmentOf(r, payload, nb, all1);
    GeneratedFields(r, payload, nb, all1);
    GeneratedClass(r, payload, nb, all1);
    if all1 {
      RcsValue(r, nb);
      assert Rcs(r, f) == RcsBits(r, nb, all1);
    } else {
      RegularFcn(r, nb);
      assert Fcn(r, f) == FcnBits(r, nb, false);
    }
  }

  /** get_frg_nb recovers the number a fragment was generated with, in the regular
      (window, FCN) encoding and in the All-1 (window, RCS) encoding. */
  lemma GeneratedNumber(r: Rule, payload: seq<Byte>, nb: nat, all1: bool)
    requires r.WellFormed() && nb < r.MaxFragmentNb()
    ensures var f := FragmentOf(r, payload, nb, all1);
      && FragmentNb(r, f) == nb
      && Window(r, f) == nb / r.windowSize
      && (all1 ==> BinToInt(Rcs(r, f)) == nb % r.windowSize + 1)
  {
    GeneratedWindow(r, payload, nb, all1);
    GeneratedPosition(r, payload, nb, all1);
    WindowInRange(nb, r.windowSize, Pow2(r.m));
  }

  /** The payload, too, is recovered. */
  lemma GeneratedPayload(r: Rule, payload: seq<Byte>, nb: nat, all1: bool)
    requires r.WellFormed()
    ensures var f := FragmentOf(r, payload, nb, all1);
      PayloadSize(r, f) == |payload| && Payload(r, f) == payload
  {
    GeneratedClass(r, payload, nb, all1);
  }

  lemma AbortFields(r: Rule)
    requires r.t == 0
    ensures var f := SenderAbort(r);
      && ToBits(f) == AbortBits(r, RuleIdBits(r))
      && RuleIdField(r, f) == RuleIdBits(r)
      && W(r, f) == Repeat(true, r.m)
      && Fcn(r, f) == Repeat(true, r.n)
  {
    var id, w, fcn := RuleIdBits(r), Repeat(true, r.m), Repeat(true, r.n);
    var pad := Repeat(false, r.HeaderLen() - |id + w + fcn|);
    BitsRoundTrip(AbortBits(r, id));
    assert AbortBits(r, id) == id + w + fcn + [] + pad;
    FieldsOfFour(id, w, fcn, [], pad);
  }

  /** A generated Sender-Abort reads as an abort, and not as a fragment that expects an
      ACK, exactly when it is shorter than the All-1 header; otherwise it reads as an
      All-1 of the last window a rule can number. */
  lemma AbortClass(r: Rule)
    requires r.WellFormed()
    ensures var f := SenderAbort(r);
      && !f.NullFragment?
      && (IsSenderAbort(r, f) <==> r.AbortDistinct())
      && (ExpectsAck(r, f) <==> !r.AbortDistinct())
      && (IsAll1(r, f) <==> !r.AbortDistinct())
      && !IsAll0(r, f)
      && Window(r, f) == r.MaxWindowNb() - 1
  {
    AbortFields(r);
    ValOfRepeat(true, r.m);
    assert Fcn(r, SenderAbort(r))[0];
  }

  /** init_rule_from_frg on a generated fragment: exact for single-byte and option 1
      whatever the payload, and for option 2 when the fragment is shorter than 64 bits and
      ends as its identifier does, or is longer and its identifier ends in "11". */
  lemma RuleOfFragment(r: Rule, payload: seq<Byte>, nb: nat, all1: bool)
    requires Profile(r)
    ensures var b := ToBits(FragmentOf(r, payload, nb, all1));
      && |b| >= 8
      && (InitRule(b) == r <==> (r.ruleIdSize == 8 ==> TrailingPair(b) == r.id - 15))
      && (|b| >= 64 ==> (InitRule(b) == r <==> (r.ruleIdSize == 8 ==> r.id == 18)))
  {
    var rest := HeaderBits(r, nb, all1)[r.ruleIdSize..] + BytesToBits(payload);
    FragmentStart(r, payload, nb, all1);
    assert (RuleIdBits(r) + rest)[..r.ruleIdSize] == RuleIdBits(r);
    if r.ruleIdSize == 3 {
      RecoverSingleByte(r, rest);
    } else if r.ruleIdSize == 6 {
      RecoverOption1(r, rest);
    } else {
      RecoverOption2(r, rest);
    }
  }

  lemma FragmentStart(r: Rule, payload: seq<Byte>, nb: nat, all1: bool)
    requires r.t == 0 && r.windowSize > 0
    ensures ToBits(FragmentOf(r, payload, nb, all1))
         == RuleIdBits(r) + (HeaderBits(r, nb, all1)[r.ruleIdSize..] + BytesToBits(payload))
  {
    FragmentBits(r, payload, nb, all1);
    var h := HeaderBits(r, nb, all1);
    assert h[..r.ruleIdSize] == RuleIdBits(r);
    SplitAppend(h, r.ruleIdSize, BytesToBits(payload));
  }

  lemma SplitAppend(h: BitString, k: nat, p: BitString)
    requires k <= |h|
    ensures h + p == h[..k] + (h[k..] + p)
  {
  }
}
