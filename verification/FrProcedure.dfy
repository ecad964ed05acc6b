/**
  The fragmentation and reassembly procedure: entities/fr_procedure.c.
 */
module FrProcedure {
  import opened Bits
  import opened Rules
  import opened Fragments

  function CeilDiv(a: nat, b: nat): nat
    requires b > 0
  {
    (a + b - 1) / b
  }

  /** get_nb_fragments: one more when the All-1 header is longer and the last payload is full. */
  function NbFragments(r: Rule, size: nat): nat
    requires r.PayloadBytes() > 0
  {
    CeilDiv(size, r.PayloadBytes()) +
    (if r.HeaderLen() < r.All1HeaderLen() && size % r.PayloadBytes() == 0 then 1 else 0)
  }

  function NbWindows(r: Rule, size: nat): nat
    requires r.PayloadBytes() > 0 && r.windowSize > 0
  {
    CeilDiv(NbFragments(r, size), r.windowSize)
  }

  predicate Accepted(r: Rule, packet: seq<Byte>) {
    1 <= |packet| <= r.maxPacketSize
  }

  /** The payload size the loop of `fragment` computes for fragment `i`. */
  function PieceSize(r: Rule, size: nat, i: nat): nat
    requires r.PayloadBytes() > 0 && size > 0
  {
    if i == NbFragments(r, size) - 1 then
      if r.All1HeaderLen() > r.HeaderLen() && size % r.PayloadBytes() == 0 then 0
      else (size - 1) % r.PayloadBytes() + 1
    else r.PayloadBytes()
  }

  /** Where fragment `i` starts in a packet of `n` fragments. */
  function Offset(r: Rule, size: nat, i: nat): int
    requires r.PayloadBytes() > 0
  {
    if i >= NbFragments(r, size) then size else i * r.PayloadBytes()
  }

  lemma CeilDivSplit(q: nat, p: nat, rem: nat)
    requires p > 0 && rem < p
    ensures CeilDiv(p * q + rem, p) == if rem == 0 then q else q + 1
    ensures rem > 0 ==> (p * q + rem - 1) % p == rem - 1
    ensures rem == 0 && q > 0 ==> (p * q - 1) % p == p - 1
  {
    if rem == 0 {
      QuotientIs(p * q + p - 1, p, q, p - 1);
      if q > 0 {
        assert p * q - 1 == p * (q - 1) + (p - 1);
        QuotientIs(p * q - 1, p, q - 1, p - 1);
      }
    } else {
      assert p * q + rem + p - 1 == p * (q + 1) + (rem - 1);
      QuotientIs(p * q + rem + p - 1, p, q + 1, rem - 1);
      QuotientIs(p * q + rem - 1, p, q, rem - 1);
    }
  }

  lemma Counts(r: Rule, size: nat, q: nat, rem: nat)
    requires r.PayloadBytes() > 0 && size > 0 && rem < r.PayloadBytes()
    requires size == r.PayloadBytes() * q + rem
    ensures rem == 0 ==> q > 0
    ensures size % r.PayloadBytes() == rem
    ensures NbFragments(r, size) == if rem == 0 && !r.AbortDistinct() then q else q + 1
    ensures PieceSize(r, size, NbFragments(r, size) - 1)
         == if rem > 0 then rem else if r.AbortDistinct() then 0 else r.PayloadBytes()
  {
    var p := r.PayloadBytes();
    QuotientIs(size, p, q, rem);
    assert q == 0 ==> p * q == 0;
    CeilDivSplit(q, p, rem);
  }

  /** The pieces tile the packet: all but the last are full, and the last ends it. */
  lemma Tiling(r: Rule, size: nat)
    requires r.PayloadBytes() > 0 && size > 0
    ensures NbFragments(r, size) >= 1
    ensures var n := NbFragments(r, size);
      && 0 <= (n - 1) * r.PayloadBytes() <= size
      && (n - 1) * r.PayloadBytes() + PieceSize(r, size, n - 1) == size
      && PieceSize(r, size, n - 1) <= r.PayloadBytes() - (if r.AbortDistinct() then 1 else 0)
  {
    var p := r.PayloadBytes();
    var q, rem := size / p, size % p;
    assert size == p * q + rem;
    Counts(r, size, q, rem);
    TilingSum(size, p, q, rem, NbFragments(r, size), PieceSize(r, size, NbFragments(r, size) - 1));
  }

  lemma TilingSum(size: nat, p: nat, q: nat, rem: nat, n: nat, last: nat)
    requires size == p * q + rem && rem < p
    requires (n == q && rem == 0 && last == p && q > 0) || (n == q + 1 && last == rem)
    ensures 0 <= (n - 1) * p <= size && (n - 1) * p + last == size
  {
    assert (q - 1) * p == p * q - p;
    assert q * p == p * q;
  }

  lemma OffsetStep(r: Rule, size: nat, i: nat)
    requires r.PayloadBytes() > 0 && size > 0 && i < NbFragments(r, size)
    ensures 0 <= Offset(r, size, i) <= Offset(r, size, i + 1) <= size
    ensures Offset(r, size, i + 1) == Offset(r, size, i) + PieceSize(r, size, i)
    ensures Offset(r, size, i) == i * r.PayloadBytes()
  {
    var n, p := NbFragments(r, size), r.PayloadBytes();
    Tiling(r, size);
    assert (i + 1) * p == i * p + p;
    assert 0 <= i * p;
    if i < n - 1 {
      MulMonotone(i + 1, n - 1, p);
    }
  }

  lemma MulMonotone(a: int, b: int, p: nat)
    requires a <= b
    ensures a * p <= b * p
  {
    assert b * p == a * p + (b - a) * p;
  }

  /** No packet a rule accepts needs more fragments than the rule can number. */
  lemma EnoughNumbers(r: Rule, size: nat)
    requires r.WellFormed() && 1 <= size <= r.maxPacketSize
    ensures NbFragments(r, size) <= r.MaxFragmentNb()
  {
    var n, p, most := NbFragments(r, size), r.PayloadBytes(), r.MaxFragmentNb();
    Tiling(r, size);
    if n > most {
      MulMonotone(most, n - 1, p);
    }
  }

  function Piece(r: Rule, packet: seq<Byte>, i: nat): (p: seq<Byte>)
    requires r.PayloadBytes() > 0 && |packet| > 0 && i < NbFragments(r, |packet|)
    ensures |p| == PieceSize(r, |packet|, i)
  {
    OffsetStep(r, |packet|, i);
    packet[Offset(r, |packet|, i)..Offset(r, |packet|, i + 1)]
  }

  function FragmentAt(r: Rule, packet: seq<Byte>, i: nat): Fragment
    requires r.PayloadBytes() > 0 && r.t == 0 && r.windowSize > 0
    requires |packet| > 0 && i < NbFragments(r, |packet|)
  {
    FragmentOf(r, Piece(r, packet, i), i, i == NbFragments(r, |packet|) - 1)
  }

  /** The fragments of a packet. */
  function FragmentsOf(r: Rule, packet: seq<Byte>): (frs: seq<Fragment>)
    requires r.PayloadBytes() > 0 && r.t == 0 && r.windowSize > 0 && |packet| > 0
    ensures |frs| == NbFragments(r, |packet|)
  {
    seq(NbFragments(r, |packet|),
        i requires 0 <= i < NbFragments(r, |packet|) => FragmentAt(r, packet, i))
  }

  /** Every payload fits its fragment, the possibly empty one of the All-1 included. */
  lemma PieceFits(r: Rule, packet: seq<Byte>, i: nat)
    requires r.WellFormed() && |packet| > 0 && i < NbFragments(r, |packet|)
    ensures Fits(r, Piece(r, packet, i), i == NbFragments(r, |packet|) - 1)
  {
    Tiling(r, |packet|);
  }

  /** `fragment`: -1 for an oversized or an empty packet, otherwise the fragments in order. */
  method FragmentPacket(r: Rule, dest: array<Fragment>, packet: seq<Byte>) returns (ret: int)
    requires r.WellFormed()
    requires Accepted(r, packet) ==> NbFragments(r, |packet|) <= dest.Length
    modifies dest
    ensures ret == if Accepted(r, packet) then 0 else -1
    ensures Accepted(r, packet) ==>
      var n := NbFragments(r, |packet|);
      dest[..n] == FragmentsOf(r, packet) && dest[n..] == old(dest[n..])
    ensures !Accepted(r, packet) ==> dest[..] == old(dest[..])
  {
    if |packet| > r.maxPacketSize {
      return -1;
    }
    if |packet| == 0 {
      return -1;
    }
    var n := NbFragments(r, |packet|);
    hide Rule.WellFormed, NbFragments, FragmentAt, FragmentsOf;
    for i := 0 to n
      invariant forall j | 0 <= j < i :: dest[j] == FragmentAt(r, packet, j)
      invariant dest[n..] == old(dest[n..])
    {
      var frg := BuildFragment(r, packet, i, n);
      dest[i] := frg;
    }
    FragmentsOfIs(r, packet, dest[..n]);
    return 0;
  }

  /** The body of the loop of `fragment`: cut the payload out and generate the fragment. */
  method BuildFragment(r: Rule, packet: seq<Byte>, i: nat, n: nat) returns (frg: Fragment)
    requires r.WellFormed() && Accepted(r, packet) && i < n == NbFragments(r, |packet|)
    ensures frg == FragmentAt(r, packet, i)
  {
    var payloadBytes := r.PayloadBytes();
    var all1 := i == n - 1;
    var payloadSize := payloadBytes;
    if all1 {
      payloadSize := if r.All1HeaderLen() > r.HeaderLen() && |packet| % payloadBytes == 0 then 0
                     else (|packet| - 1) % payloadBytes + 1;
    }
    PieceIsSlice(r, packet, i);
    var payload := packet[i * payloadBytes..i * payloadBytes + payloadSize];
    var generated := GenerateFrg(r, payload, i, all1);
    frg := generated.value;
  }

  lemma FragmentsOfIs(r: Rule, packet: seq<Byte>, frs: seq<Fragment>)
    requires r.WellFormed() && |packet| > 0
    requires |frs| == NbFragments(r, |packet|)
    requires forall j | 0 <= j < |frs| :: frs[j] == FragmentAt(r, packet, j)
    ensures frs == FragmentsOf(r, packet)
  {
  }

  lemma PieceIsSlice(r: Rule, packet: seq<Byte>, i: nat)
    requires r.WellFormed() && |packet| > 0 && i < NbFragments(r, |packet|)
    ensures var a := i * r.PayloadBytes();
      && 0 <= a <= a + PieceSize(r, |packet|, i) <= |packet|
      && packet[a..a + PieceSize(r, |packet|, i)] == Piece(r, packet, i)
    ensures Fits(r, Piece(r, packet, i), i == NbFragments(r, |packet|) - 1)
  {
    OffsetStep(r, |packet|, i);
    PieceFits(r, packet, i);
  }

  // ---------------------------------------------------------------- reassembly

  /** The scan from `i` meets an All-1 (or the size limit) before a null fragment. */
  predicate MeetsAll1(r: Rule, frs: seq<Fragment>, i: nat)
    decreases |frs| - i
  {
    && i < |frs| && !frs[i].NullFragment?
    && (i == r.MaxFragmentNb() || IsAll1(r, frs[i]) || MeetsAll1(r, frs, i + 1))
  }

  function PacketLength(r: Rule, frs: seq<Fragment>, i: nat): int
    requires MeetsAll1(r, frs, i)
    decreases |frs| - i
  {
    if i == r.MaxFragmentNb() then -1
    else if IsAll1(r, frs[i]) then r.PayloadBytes() * i + PayloadSize(r, frs[i])
    else PacketLength(r, frs, i + 1)
  }

  method GetPacketLength(r: Rule, frs: array<Fragment>) returns (len: int)
    requires MeetsAll1(r, frs[..], 0)
    ensures len == PacketLength(r, frs[..], 0)
  {
    var i := 0;
    while !frs[i].NullFragment?
      invariant 0 <= i < frs.Length
      invariant MeetsAll1(r, frs[..], i)
      invariant PacketLength(r, frs[..], i) == PacketLength(r, frs[..], 0)
      decreases frs.Length - i
    {
      if i == r.MaxFragmentNb() {
        return -1;
      }
      if IsAll1(r, frs[i]) {
        return r.PayloadBytes() * i + PayloadSize(r, frs[i]);
      }
      i := i + 1;
    }
    assert false;
  }

  /** Every payload up to the null fragment lands inside a buffer of `len` bytes. */
  predicate Lands(r: Rule, frs: seq<Fragment>, i: nat, len: nat)
    decreases |frs| - i
  {
    && i < |frs|
    && (frs[i].NullFragment? || i == r.MaxFragmentNb() ||
        (&& PayloadSize(r, frs[i]) >= 0
         && 0 <= i * r.PayloadBytes() <= len - PayloadSize(r, frs[i])
         && Lands(r, frs, i + 1, len)))
  }

  /** Result code and buffer after pasting the payloads from fragment `i` on. */
  function Reassembled(r: Rule, frs: seq<Fragment>, i: nat, dest: seq<Byte>): (int, seq<Byte>)
    requires Lands(r, frs, i, |dest|)
    decreases |frs| - i
  {
    if frs[i].NullFragment? then (0, dest)
    else if i == r.MaxFragmentNb() then (-1, dest)
    else Reassembled(r, frs, i + 1, Splice(dest, i * r.PayloadBytes(), Payload(r, frs[i])))
  }

  lemma LandsParts(r: Rule, frs: seq<Fragment>, i: nat, len: nat)
    requires Lands(r, frs, i, len)
    ensures i < |frs|
    ensures !frs[i].NullFragment? && i != r.MaxFragmentNb() ==>
      && |Payload(r, frs[i])| == PayloadSize(r, frs[i])
      && 0 <= i * r.PayloadBytes() <= len - PayloadSize(r, frs[i])
      && Lands(r, frs, i + 1, len)
  {
    hide ToBits, IsAll1, BitsToBytes;
  }

  lemma ReassembledStep(r: Rule, frs: seq<Fragment>, i: nat, dest: seq<Byte>)
    requires Lands(r, frs, i, |dest|)
    ensures i < |frs|
    ensures frs[i].NullFragment? ==> Reassembled(r, frs, i, dest) == (0, dest)
    ensures !frs[i].NullFragment? && i == r.MaxFragmentNb() ==> Reassembled(r, frs, i, dest) == (-1, dest)
    ensures !frs[i].NullFragment? && i != r.MaxFragmentNb() ==>
      && PayloadSize(r, frs[i]) >= 0 && |Payload(r, frs[i])| == PayloadSize(r, frs[i])
      && 0 <= i * r.PayloadBytes() && i * r.PayloadBytes() + |Payload(r, frs[i])| <= |dest|
      && Lands(r, frs, i + 1, |dest|)
      && Reassembled(r, frs, i, dest)
         == Reassembled(r, frs, i + 1, Splice(dest, i * r.PayloadBytes(), Payload(r, frs[i])))
  {
    LandsParts(r, frs, i, |dest|);
    hide Payload, ToBits, IsAll1, Splice;
  }

  method Reassemble(r: Rule, dest: array<Byte>, frs: array<Fragment>) returns (ret: int)
    requires Lands(r, frs[..], 0, dest.Length)
    modifies dest
    ensures (ret, dest[..]) == Reassembled(r, old(frs[..]), 0, old(dest[..]))
  {
    ghost var all := frs[..];
    var i := 0;
    LandsParts(r, all, 0, dest.Length);
    hide Lands, Reassembled, Payload, Splice, Rule.WellFormed;
    while !frs[i].NullFragment?
      invariant 0 <= i < frs.Length && frs[..] == all && frs.Length == |all|
      invariant Lands(r, all, i, dest.Length)
      invariant Reassembled(r, all, i, dest[..]) == Reassembled(r, all, 0, old(dest[..]))
      decreases frs.Length - i
    {
      LandsParts(r, all, i, dest.Length);
      ReassembledStep(r, all, i, dest[..]);
      if i == r.MaxFragmentNb() {
        return -1;
      }
      CopyInto(dest, i * r.PayloadBytes(), Payload(r, frs[i]));
      i := i + 1;
      LandsParts(r, all, i, dest.Length);
    }
    ReassembledStep(r, all, i, dest[..]);
    return 0;
  }

  /** `reassemble` succeeds exactly when the array has a null fragment among its first
      MaxFragmentNb() + 1 positions. */
  lemma {:induction false} ReassembledCode(r: Rule, frs: seq<Fragment>, i: nat, dest: seq<Byte>)
    requires Lands(r, frs, i, |dest|) && i <= r.MaxFragmentNb()
    ensures Reassembled(r, frs, i, dest).0
         == if exists k | i <= k <= r.MaxFragmentNb() && k < |frs| :: frs[k].NullFragment? then 0 else -1
    decreases |frs| - i
  {
    hide Lands, Reassembled, Rule.MaxFragmentNb, Payload, PayloadSize, Splice;
    ReassembledStep(r, frs, i, dest);
    if !frs[i].NullFragment? && i != r.MaxFragmentNb() {
      ReassembledCode(r, frs, i + 1, Splice(dest, i * r.PayloadBytes(), Payload(r, frs[i])));
    }
  }

  lemma All1HasPayload(r: Rule, f: Fragment)
    requires r.WellFormed() && IsAll1(r, f)
    ensures !f.NullFragment? && PayloadSize(r, f) >= 0 && r.PayloadBytes() > 0
  {
    hide BytesToBits, Fcn, Monochar;
  }

  lemma All1NotNull(r: Rule, f: Fragment)
    requires IsAll1(r, f)
    ensures !f.NullFragment?
  {
  }

  /** The length is the one the first All-1 gives, whatever the array holds before and after it. */
  lemma {:induction false} LengthAtAll1(r: Rule, frs: seq<Fragment>, i: nat, k: nat)
    requires i <= k < |frs| && k < r.MaxFragmentNb() && IsAll1(r, frs[k])
    requires forall j | i <= j < k :: !frs[j].NullFragment? && !IsAll1(r, frs[j])
    ensures !frs[k].NullFragment? && MeetsAll1(r, frs, i)
    ensures PacketLength(r, frs, i) == r.PayloadBytes() * k + PayloadSize(r, frs[k])
    decreases k - i
  {
    All1NotNull(r, frs[k]);
    hide IsAll1, PayloadSize, Rule.MaxFragmentNb, Rule.PayloadBytes;
    if i < k {
      LengthAtAll1(r, frs, i + 1, k);
    }
  }

  /** And -1 exactly when there is none among the first MaxFragmentNb() positions. */
  lemma {:induction false} NoLength(r: Rule, frs: seq<Fragment>, i: nat)
    requires r.WellFormed() && MeetsAll1(r, frs, i) && i <= r.MaxFragmentNb()
    ensures PacketLength(r, frs, i) == -1
        <==> forall k | i <= k < r.MaxFragmentNb() && k < |frs| :: !IsAll1(r, frs[k])
    decreases |frs| - i
  {
    hide IsAll1, PayloadSize, Rule.MaxFragmentNb, Rule.PayloadBytes, Rule.WellFormed;
    if i != r.MaxFragmentNb() {
      if IsAll1(r, frs[i]) {
        All1HasPayload(r, frs[i]);
        assert r.PayloadBytes() * i >= 0;
      } else {
        NoLength(r, frs, i + 1);
      }
    }
  }

  // ---------------------------------------------------------------- round trip

  /** What fragment number `i` of `n` looks like to the receiver and to the sender itself. */
  ghost predicate FaithfulAt(r: Rule, f: Fragment, i: nat, n: nat)
    requires r.windowSize > 0
  {
    && !f.NullFragment?
    && RuleIdField(r, f) == RuleIdBits(r)
    && FragmentNb(r, f) == i
    && Window(r, f) == i / r.windowSize
    && (IsAll1(r, f) <==> i == n - 1)
    && (IsAll0(r, f) <==> i != n - 1 && i % r.windowSize == r.windowSize - 1)
    && !IsSenderAbort(r, f)
    && (i == n - 1 ==> BinToInt(Rcs(r, f)) == i % r.windowSize + 1)
  }

  ghost predicate Faithful(r: Rule, frs: seq<Fragment>) {
    && r.WellFormed()
    && 1 <= |frs| <= r.MaxFragmentNb()
    && forall i {:trigger FaithfulAt(r, frs[i], i, |frs|)} | 0 <= i < |frs| :: FaithfulAt(r, frs[i], i, |frs|)
  }

  lemma FaithfulSizes(r: Rule, frs: seq<Fragment>)
    requires Faithful(r, frs)
    ensures r.WellFormed() && 0 < |frs| <= r.MaxFragmentNb() && 2 <= r.windowSize
  {
  }

  lemma FragmentsAreFaithful(r: Rule, packet: seq<Byte>)
    requires r.WellFormed() && Accepted(r, packet)
    ensures Faithful(r, FragmentsOf(r, packet))
  {
    var frs := FragmentsOf(r, packet);
    EnoughNumbers(r, |packet|);
    Tiling(r, |packet|);
    forall i | 0 <= i < |frs|
      ensures FaithfulAt(r, frs[i], i, |frs|)
    {
      var piece, all1 := Piece(r, packet, i), i == |frs| - 1;
      GeneratedFields(r, piece, i, all1);
      GeneratedClass(r, piece, i, all1);
      GeneratedNumber(r, piece, i, all1);
    }
  }

  /** `frs` starts with the fragments of the packet and a null fragment. */
  ghost predicate Holds(r: Rule, packet: seq<Byte>, frs: seq<Fragment>)
    requires r.WellFormed() && Accepted(r, packet)
  {
    var n := NbFragments(r, |packet|);
    && n < |frs|
    && frs[..n] == FragmentsOf(r, packet)
    && frs[n].NullFragment?
  }

  /** What the array holds at a position of the packet. */
  lemma Held(r: Rule, packet: seq<Byte>, frs: seq<Fragment>, i: nat)
    requires r.WellFormed() && Accepted(r, packet) && Holds(r, packet, frs)
    requires i < NbFragments(r, |packet|)
    ensures i < r.MaxFragmentNb()
    ensures !frs[i].NullFragment? && |frs[i].bytes| <= UPLINK_MTU_BYTES
    ensures IsAll1(r, frs[i]) <==> i == NbFragments(r, |packet|) - 1
    ensures PayloadSize(r, frs[i]) == PieceSize(r, |packet|, i)
    ensures Payload(r, frs[i]) == Piece(r, packet, i)
  {
    var n := NbFragments(r, |packet|);
    var piece := Piece(r, packet, i);
    EnoughNumbers(r, |packet|);
    assert frs[i] == frs[..n][i] == FragmentAt(r, packet, i);
    GeneratedClass(r, piece, i, i == n - 1);
    GeneratedPayload(r, piece, i, i == n - 1);
    PieceFits(r, packet, i);
  }

  lemma {:induction false} LengthFrom(r: Rule, packet: seq<Byte>, frs: seq<Fragment>, i: nat)
    requires r.WellFormed() && Accepted(r, packet) && Holds(r, packet, frs)
    requires i < NbFragments(r, |packet|)
    ensures MeetsAll1(r, frs, i)
    ensures PacketLength(r, frs, i) == |packet|
    decreases |frs| - i
  {
    Held(r, packet, frs, i);
    if i == NbFragments(r, |packet|) - 1 {
      Tiling(r, |packet|);
    } else {
      LengthFrom(r, packet, frs, i + 1);
    }
  }

  lemma PasteNext(packet: seq<Byte>, dest: seq<Byte>, a: nat, b: nat)
    requires a <= b <= |packet| == |dest| && dest[..a] == packet[..a]
    ensures Splice(dest, a, packet[a..b])[..b] == packet[..b]
  {
    var s := Splice(dest, a, packet[a..b]);
    assert s[..b] == dest[..a] + packet[a..b];
  }

  lemma HeldInRange(r: Rule, packet: seq<Byte>, frs: seq<Fragment>, i: nat)
    requires r.WellFormed() && Accepted(r, packet) && Holds(r, packet, frs)
    ensures r.PayloadBytes() > 0 && |packet| > 0 && NbFragments(r, |packet|) < |frs|
    ensures Offset(r, |packet|, NbFragments(r, |packet|)) == |packet|
  {
    hide FragmentsOf;
  }

  lemma {:induction false} ReassembleFrom(r: Rule, packet: seq<Byte>, frs: seq<Fragment>, i: nat, dest: seq<Byte>)
    requires r.WellFormed() && Accepted(r, packet) && Holds(r, packet, frs)
    requires i <= NbFragments(r, |packet|) && |dest| == |packet|
    requires 0 <= Offset(r, |packet|, i) <= |packet|
    requires dest[..Offset(r, |packet|, i)] == packet[..Offset(r, |packet|, i)]
    ensures Lands(r, frs, i, |dest|)
    ensures Reassembled(r, frs, i, dest) == (0, packet)
    decreases |frs| - i
  {
    hide IsAll1, Payload, PayloadSize, FragmentAt, Accepted, Splice, PieceSize, NbFragments, FragmentsOf;
    if i < NbFragments(r, |packet|) {
      var a, b := Offset(r, |packet|, i), Offset(r, |packet|, i + 1);
      HeldInRange(r, packet, frs, i);
      OffsetStep(r, |packet|, i);
      Held(r, packet, frs, i);
      PasteNext(packet, dest, a, b);
      ReassembleFrom(r, packet, frs, i + 1, Splice(dest, a, packet[a..b]));
    } else {
      assert dest == dest[..|packet|] == packet[..|packet|] == packet;
    }
  }

  /** Fragmentation followed by reassembly is the identity, for every packet a rule
      accepts: fragmentation succeeds within the numbering space, only the last fragment
      is an All-1, every payload fits, and any array that starts with the fragments and a
      null fragment gives back the packet's length and its bytes. */
  lemma FragmentThenReassemble(r: Rule, packet: seq<Byte>, frs: seq<Fragment>, dest: seq<Byte>)
    requires r.WellFormed() && Accepted(r, packet) && Holds(r, packet, frs)
    requires |dest| == |packet|
    ensures 1 <= NbFragments(r, |packet|) <= r.MaxFragmentNb()
    ensures forall i | 0 <= i < NbFragments(r, |packet|) ::
      && IsAll1(r, frs[i]) == (i == NbFragments(r, |packet|) - 1)
      && |frs[i].bytes| <= UPLINK_MTU_BYTES
    ensures MeetsAll1(r, frs, 0) && PacketLength(r, frs, 0) == |packet|
    ensures Lands(r, frs, 0, |dest|) && Reassembled(r, frs, 0, dest) == (0, packet)
  {
    hide MeetsAll1, PacketLength, Lands, Reassembled, IsAll1, FragmentsOf, NbFragments, Rule.PayloadBytes,
         Rule.MaxFragmentNb;
    var n := NbFragments(r, |packet|);
    EnoughNumbers(r, |packet|);
    Tiling(r, |packet|);
    forall i | 0 <= i < n
      ensures !frs[i].NullFragment? && IsAll1(r, frs[i]) == (i == n - 1) && |frs[i].bytes| <= UPLINK_MTU_BYTES
    {
      Held(r, packet, frs, i);
    }
    LengthFrom(r, packet, frs, 0);
    OffsetStep(r, |packet|, 0);
    ReassembleFrom(r, packet, frs, 0, dest);
  }
}
