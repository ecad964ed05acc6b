/**
  SCHC/Sigfox rules: entities/rule.c.

  A rule carries the parameters init_rule chooses; the lengths and offsets init_rule
  derives from them are functions of the rule.
 */
module Rules {
  import opened Bits

  const L2_WORD_SIZE: nat := 8
  const UPLINK_MTU_BYTES: nat := 12
  const UPLINK_MTU_BITS: nat := 96
  const DOWNLINK_MTU_BYTES: nat := 8
  const DOWNLINK_MTU_BITS: nat := 64

  /** round_to_next_multiple with factor L2_WORD_SIZE. */
  function RoundUp(n: nat): (r: nat)
    ensures n <= r < n + L2_WORD_SIZE && r % L2_WORD_SIZE == 0
  {
    (n + L2_WORD_SIZE - 1) / L2_WORD_SIZE * L2_WORD_SIZE
  }

  datatype Rule = Rule(
    id: int,
    ruleIdSize: nat,
    t: nat,
    m: nat,
    n: nat,
    u: nat,
    windowSize: nat,
    maxPacketSize: nat)
  {
    function HeaderLen(): nat { RoundUp(ruleIdSize + t + m + n) }
    function All1HeaderLen(): nat { RoundUp(ruleIdSize + t + m + n + u) }
    function AckHeaderLen(): nat { ruleIdSize + t + m + 1 }
    function MaxWindowNb(): nat { Pow2(m) }
    function MaxFragmentNb(): nat { Pow2(m) * windowSize }
    function RegularPayloadLen(): int { UPLINK_MTU_BITS - HeaderLen() }
    function PayloadBytes(): int { RegularPayloadLen() / 8 }

    // Offsets inside a fragment.
    function WIdx(): nat { ruleIdSize + t }
    function FcnIdx(): nat { ruleIdSize + t + m }
    function RcsIdx(): nat { ruleIdSize + t + m + n }

    // Offsets inside an ACK; the window field is at WIdx() too.
    function CIdx(): nat { ruleIdSize + t + m }
    function BitmapIdx(): nat { ruleIdSize + t + m + 1 }
    function TupleIdx(): nat { ruleIdSize + t + m + 1 + windowSize }
    function TupleSize(): nat { m + windowSize }

    /** Whether a Sender-Abort is shorter than an All-1 header, so that the two can be told apart. */
    predicate AbortDistinct() { HeaderLen() < All1HeaderLen() }

    /** What every other module needs of a rule. */
    ghost predicate WellFormed() {
      && 1 <= ruleIdSize <= 31 && t == 0
      && 1 <= m <= 31 && 1 <= n <= 31 && 1 <= u <= 31
      && 2 <= windowSize <= Pow2(n) - 1 && windowSize < Pow2(u)
      && (All1HeaderLen() == HeaderLen() || All1HeaderLen() == HeaderLen() + 8)
      && All1HeaderLen() + 8 <= UPLINK_MTU_BITS
      && TupleIdx() <= DOWNLINK_MTU_BITS && AckHeaderLen() + 16 <= DOWNLINK_MTU_BITS
      && maxPacketSize + (if AbortDistinct() then 1 else 0) <= MaxFragmentNb() * PayloadBytes()
    }
  }

  // The three profiles of the Sigfox network.
  function SingleByte(id: int): Rule { Rule(id, 3, 0, 2, 3, 3, 7, 300) }
  function TwoByteOption1(id: int): Rule { Rule(id, 6, 0, 2, 4, 4, 12, 480) }
  function TwoByteOption2(id: int): Rule { Rule(id, 8, 0, 3, 5, 5, 31, 2400) }

  /** init_rule. Masking an int with 7 or 3 keeps its residue, also for a negative one. */
  function InitRule(b: BitString): Rule
    requires |b| >= 3
    requires b[..3] == Repeat(true, 3) ==> |b| >= 6
  {
    if b[..3] != Repeat(true, 3) then
      SingleByte(BinToInt(b[..3]))
    else if b[..6] != Repeat(true, 6) then
      TwoByteOption1(BinToInt(b[..6]) % 8 + 6)
    else
      TwoByteOption2(BinToInt(b) % 4 + 15)
  }

  /** The rules that exist on the network. */
  predicate Profile(r: Rule) {
    || (0 <= r.id < 7 && r == SingleByte(r.id))
    || (6 <= r.id < 13 && r == TwoByteOption1(r.id))
    || (15 <= r.id < 19 && r == TwoByteOption2(r.id))
  }

  /** get_rule_id_bin: `x | 56` (binary 111000) and `x | 252` (binary 11111100) written out. */
  function FullId(r: Rule): int {
    if r.ruleIdSize == 3 then r.id
    else if r.ruleIdSize == 6 then
      var x := r.id - 6; x - x % 64 + 56 + x % 8
    else
      var x := r.id - 3; x - x % 256 + 252 + x % 4
  }

  function RuleIdBits(r: Rule): (b: BitString)
    ensures |b| == r.ruleIdSize
  {
    IntBits(FullId(r), r.ruleIdSize)
  }

  method GetRuleIdBin(r: Rule) returns (dest: BitString)
    requires r.ruleIdSize <= INT_BITS
    ensures dest == RuleIdBits(r)
  {
    dest := IntToBin(FullId(r), r.ruleIdSize);
  }

  lemma ProfileWellFormed(r: Rule)
    requires Profile(r)
    ensures r.WellFormed()
    ensures r.AbortDistinct() <==> r.ruleIdSize != 6
  {
    hide *;
    if r.ruleIdSize == 3 {
      SingleByteWellFormed(r);
    } else if r.ruleIdSize == 6 {
      Option1WellFormed(r);
    } else {
      Option2WellFormed(r);
    }
  }

  lemma SingleByteWellFormed(r: Rule)
    requires Profile(r) && r.ruleIdSize == 3
    ensures r.WellFormed() && r.AbortDistinct()
  {
    Pow2Values();
    hide Pow2, InitRule, FullId;
    assert r.HeaderLen() == 8 && r.All1HeaderLen() == 16 && r.TupleIdx() == 13;
    assert r.MaxFragmentNb() * r.PayloadBytes() == 308;
  }

  lemma Option1WellFormed(r: Rule)
    requires Profile(r) && r.ruleIdSize == 6
    ensures r.WellFormed() && !r.AbortDistinct()
  {
    Pow2Values();
    assert r.HeaderLen() == 16 && r.All1HeaderLen() == 16 && r.TupleIdx() == 21;
    assert r.MaxFragmentNb() * r.PayloadBytes() == 480;
  }

  lemma Option2WellFormed(r: Rule)
    requires Profile(r) && r.ruleIdSize != 3 && r.ruleIdSize != 6
    ensures r.WellFormed() && r.AbortDistinct()
  {
    Pow2Values();
    assert r.HeaderLen() == 16 && r.All1HeaderLen() == 24 && r.TupleIdx() == 43;
    assert r.MaxFragmentNb() * r.PayloadBytes() == 2480;
  }

  lemma NotAllOnes(b: BitString, k: nat)
    requires |b| == k && b != Repeat(true, k)
    ensures 0 <= BinVal(b) < Pow2(k) - 1
  {
    ValOfRepeat(true, k);
    IntBitsOfVal(b);
    IntBitsOfVal(Repeat(true, k));
  }

  /** Every branch of init_rule yields one of the profiles, and a well-formed rule. */
  lemma InitRuleIsProfile(b: BitString)
    requires |b| >= 3
    requires b[..3] == Repeat(true, 3) ==> |b| >= 6
    ensures Profile(InitRule(b))
    ensures InitRule(b).WellFormed()
  {
    Pow2Values();
    if b[..3] != Repeat(true, 3) {
      NotAllOnes(b[..3], 3);
    } else if b[..6] != Repeat(true, 6) {
      Option1Prefix(b);
    }
    ProfileWellFormed(InitRule(b));
  }

  /** "111" followed by three bits that are not all '1' is 56 plus a number below 7. */
  lemma Option1Prefix(b: BitString)
    requires |b| >= 6 && b[..3] == Repeat(true, 3) && b[..6] != Repeat(true, 6)
    ensures 56 <= BinVal(b[..6]) < 63
  {
    Pow2Values();
    NotAllOnes(b[..6], 6);
    ValOfRepeat(true, 3);
    hide IntBits, BinVal, Pow2;
    OneBitLonger(b, 3);
    OneBitLonger(b, 4);
    OneBitLonger(b, 5);
  }

  lemma OneBitLonger(b: BitString, k: nat)
    requires k < |b|
    ensures BinVal(b[..k + 1]) >= 2 * BinVal(b[..k])
  {
    assert b[..k + 1][..k] == b[..k];
  }

  /** The rule identifier of the single-byte class is recovered from any message that
      starts with it, whatever follows. */
  lemma RecoverSingleByte(r: Rule, rest: BitString)
    requires Profile(r) && r.ruleIdSize == 3
    ensures (RuleIdBits(r) + rest)[..3] != Repeat(true, 3)
    ensures InitRule(RuleIdBits(r) + rest) == r
  {
    Pow2Values();
    assert (RuleIdBits(r) + rest)[..3] == RuleIdBits(r);
    IntCodec(r.id, 3);
    ConstantImages(r.id, 3);
  }

  lemma Option1FullId(r: Rule)
    requires Profile(r) && r.ruleIdSize == 6
    ensures FullId(r) == 56 + (r.id - 6)
    ensures 56 <= FullId(r) < 63 && FullId(r) % 8 == r.id - 6
  {
    assert (r.id - 6) % 64 == r.id - 6 && (r.id - 6) % 8 == r.id - 6;
  }

  lemma Option1Id(v: int)
    requires 56 <= v < 63
    ensures BinToInt(IntBits(v, 6)) == v && IntBits(v, 6) != Repeat(true, 6)
  {
    assert Pow2(6) == 64 by { Pow2Values(); }
    SmallRoundTrip(v, 6);
    ConstantImages(v, 6);
  }

  lemma RecoverOption1Prefix(r: Rule, rest: BitString)
    requires Profile(r) && r.ruleIdSize == 6
    ensures (RuleIdBits(r) + rest)[..3] == Repeat(true, 3)
    ensures (RuleIdBits(r) + rest)[..6] == IntBits(FullId(r), 6)
  {
    var b := RuleIdBits(r) + rest;
    var v := FullId(r);
    Option1FullId(r);
    assert v / 8 == 7;
    assert b[..6] == RuleIdBits(r);
    assert v / Pow2(3) == Pow2(3) - 1 by { Pow2Values(); }
    LeadingOnes(b, v, 6, 3);
  }

  /** So is that of two-byte option 1. */
  lemma RecoverOption1(r: Rule, rest: BitString)
    requires Profile(r) && r.ruleIdSize == 6
    ensures InitRule(RuleIdBits(r) + rest) == r
  {
    Option1FullId(r);
    RecoverOption1Prefix(r, rest);
    Option1Id(FullId(r));
  }

  /** The first characters of an image are the image of the quotient. */
  lemma {:induction false} IntBitsPrefix(v: int, k: nat, j: nat)
    requires j <= k
    ensures IntBits(v, k)[..j] == IntBits(v / Pow2(k - j), j)
    decreases k
  {
    if j < k {
      IntBitsPrefix(v / 2, k - 1, j);
      DivMulDiv(v, Pow2(k - 1 - j));
      assert IntBits(v, k)[..j] == IntBits(v / 2, k - 1)[..j];
    }
  }

  lemma LeadingOnes(b: BitString, v: int, k: nat, j: nat)
    requires 1 <= j <= k <= 31 && k <= |b| && b[..k] == IntBits(v, k)
    requires v / Pow2(k - j) == Pow2(j) - 1
    ensures b[..j] == Repeat(true, j)
  {
    IntBitsPrefix(v, k, j);
    assert b[..j] == b[..k][..j];
    ConstantImages(Pow2(j) - 1, j);
  }

  /** What init_rule sees of a message when it converts the whole of it for option 2:
      the last two characters, or "11" once the conversion saturates. */
  function TrailingPair(b: BitString): int
    requires |b| >= 2
  {
    if |b| < 64 then (if b[|b| - 2] then 2 else 0) + (if b[|b| - 1] then 1 else 0) else 3
  }

  lemma ValSnoc(b: BitString, x: bool)
    ensures BinVal(b + [x]) == 2 * BinVal(b) + (if x then 1 else 0)
  {
    assert (b + [x])[..|b|] == b;
  }

  lemma ValPair(head: BitString, x: bool, y: bool)
    ensures BinVal(head + [x, y]) == 4 * BinVal(head) + (if x then 2 else 0) + (if y then 1 else 0)
  {
    ValSnoc(head, x);
    ValSnoc(head + [x], y);
    assert head + [x, y] == head + [x] + [y];
  }

  lemma ValModFour(b: BitString)
    requires |b| >= 2
    ensures BinVal(b) % 4 == (if b[|b| - 2] then 2 else 0) + (if b[|b| - 1] then 1 else 0)
  {
    hide BinVal;
    var head, x, y := b[..|b| - 2], b[|b| - 2], b[|b| - 1];
    assert b == head + [x, y];
    ValPair(head, x, y);
  }

  lemma {:induction false} LeadingOneIsLarge(b: BitString)
    requires b != [] && b[0]
    ensures BinVal(b) >= Pow2(|b| - 1)
  {
    if |b| > 1 {
      LeadingOneIsLarge(b[..|b| - 1]);
    }
  }

  lemma ShiftModFour(x: int, k: int)
    ensures (x - 4 * k) % 4 == x % 4
  {
    QuotientIs(x - 4 * k, 4, x / 4 - k, x % 4);
  }

  lemma ToInt32ModFour(x: nat)
    ensures ToInt32(x) % 4 == x % 4
  {
    Low32Is(x);
    var q := x / 0x1_0000_0000;
    ShiftModFour(x, 0x4000_0000 * q);
    ShiftModFour(x, 0x4000_0000 * (q + 1));
    assert ToInt32(x) == x - 4 * (0x4000_0000 * q) || ToInt32(x) == x - 4 * (0x4000_0000 * (q + 1));
  }

  lemma WholeStringModFour(b: BitString)
    requires |b| >= 2 && b[0]
    ensures BinToInt(b) % 4 == TrailingPair(b)
  {
    assert Pow2(63) == LONG_MAX + 1 by { Pow2Values(); }
    ToInt32ModFour(BinVal(b));
    ToInt32ModFour(LONG_MAX);
    if |b| < 64 {
      Pow2Monotone(|b|, 63);
      ValModFour(b);
    } else {
      LeadingOneIsLarge(b);
      Pow2Monotone(63, |b| - 1);
    }
  }

  lemma InitRuleOption2(r: Rule, rest: BitString)
    requires Profile(r) && r.ruleIdSize == 8
    ensures InitRule(RuleIdBits(r) + rest) == TwoByteOption2(TrailingPair(RuleIdBits(r) + rest) + 15)
  {
    RecoverOption2Prefix(r, rest);
    assert (RuleIdBits(r) + rest)[..3][0];
    WholeStringModFour(RuleIdBits(r) + rest);
  }

  lemma Option2LowBits(r: Rule)
    requires Profile(r) && r.ruleIdSize == 8
    ensures TrailingPair(RuleIdBits(r)) == r.id - 15
  {
    var v := FullId(r);
    Option2FullId(r);
    assert Pow2(8) == 256 by { Pow2Values(); }
    SmallRoundTrip(v, 8);
    ValModFour(RuleIdBits(r));
    QuotientIs(v, 4, 63, r.id - 15);
  }

  /** For option 2 recovery is exact precisely when what the conversion leaves of the message
      repeats the two low bits of the identifier: its last two characters if it is shorter than
      64, and "11" from 64 characters on. The identifier alone always does. */
  lemma RecoverOption2(r: Rule, rest: BitString)
    requires Profile(r) && r.ruleIdSize == 8
    ensures InitRule(RuleIdBits(r) + rest) == r <==> TrailingPair(RuleIdBits(r) + rest) == r.id - 15
    ensures InitRule(RuleIdBits(r)) == r
  {
    InitRuleOption2(r, rest);
    InitRuleOption2(r, []);
    assert RuleIdBits(r) + [] == RuleIdBits(r);
    Option2LowBits(r);
  }

  /** From 64 characters on, as in every ACK, the conversion saturates: of the four option 2
      rules only the one whose identifier ends in "11" is recovered, whatever follows. */
  lemma RecoverLong(r: Rule, b: BitString)
    requires Profile(r) && |b| >= 64 && b[..r.ruleIdSize] == RuleIdBits(r)
    ensures InitRule(b) == r <==> (r.ruleIdSize == 8 ==> r.id == 18)
  {
    var rest := b[r.ruleIdSize..];
    assert b == RuleIdBits(r) + rest;
    hide RuleIdBits, InitRule;
    if r.ruleIdSize == 3 {
      RecoverSingleByte(r, rest);
    } else if r.ruleIdSize == 6 {
      RecoverOption1(r, rest);
    } else {
      RecoverOption2(r, rest);
    }
  }

  lemma Option2FullId(r: Rule)
    requires Profile(r) && r.ruleIdSize == 8
    ensures FullId(r) == 252 + (r.id - 15)
    ensures 252 <= FullId(r) < 256
  {
    assert r.id - 3 == 12 + (r.id - 15);
  }

  lemma RecoverOption2Prefix(r: Rule, rest: BitString)
    requires Profile(r) && r.ruleIdSize == 8
    ensures var b := RuleIdBits(r) + rest;
      b[..3] == Repeat(true, 3) && b[..6] == Repeat(true, 6)
  {
    var b := RuleIdBits(r) + rest;
    var v := FullId(r);
    Option2FullId(r);
    assert v / 4 == 63;
    assert b[..8] == RuleIdBits(r);
    assert v / Pow2(2) == Pow2(6) - 1 by { Pow2Values(); }
    LeadingOnes(b, v, 8, 6);
    assert b[..3] == b[..6][..3];
  }
}
