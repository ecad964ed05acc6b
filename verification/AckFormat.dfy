/**
  ACKs bit by bit: where the fields of a loss report stand, what a reader takes any eight bytes
  for, and which tuples it reads out of them.
 */
module AckFormat {
  import opened Bits
  import opened Rules
  import opened Acks
  import opened AckProofs

  /** Characters `from` up to `to` are all '1' (all '0'). */
  ghost predicate AllOf(b: BitString, c: bool, from: nat, to: nat)
    requires to <= |b|
  {
    forall k | from <= k < to :: b[k] == c
  }

  // ---------------------------------------------------------------- what any ACK is taken for

  /** An ACK as it is read: eight bytes. */
  ghost predicate Eight(a: CompoundAck) { a.Ack? && |a.message| == 8 }

  lemma AckSizes(r: Rule)
    requires r.WellFormed()
    ensures r.m > 0 && r.WIdx() + r.m == r.CIdx() && r.CIdx() + 1 == r.AckHeaderLen() <= 48
    ensures r.AckHeaderLen() + r.windowSize == r.TupleIdx() <= 64 && r.TupleSize() == r.m + r.windowSize > 0
    ensures r.ruleIdSize == r.WIdx() && r.windowSize > 0
  {
  }

  lemma EightBits(a: CompoundAck)
    requires Eight(a)
    ensures a.Ack? && |AckToBits(a)| == 64
  {
  }

  lemma FieldAll(b: BitString, at: nat, len: nat, c: bool)
    requires len > 0 && at + len <= |b|
    ensures Monochar(Field(b, at, len), c) <==> AllOf(b, c, at, at + len)
  {
    var f := Field(b, at, len);
    assert f == b[at..at + len];
    if AllOf(b, c, at, at + len) {
      assert forall k | 0 <= k < len :: f[k] == b[at + k];
    }
    if Monochar(f, c) {
      forall k | at <= k < at + len
        ensures b[k] == c
      {
        assert f[k - at] == b[k];
      }
    }
  }

  lemma FieldOne(b: BitString, at: nat)
    requires at < |b|
    ensures Field(b, at, 1) == [b[at]]
  {
  }

  lemma PaddingAll(b: BitString, at: nat, c: bool)
    requires at < |b| <= DOWNLINK_MTU_BITS
    ensures Monochar(Field(b, at, DOWNLINK_MTU_BITS), c) <==> AllOf(b, c, at, |b|)
  {
    assert Field(b, at, DOWNLINK_MTU_BITS) == Field(b, at, |b| - at);
    FieldAll(b, at, |b| - at, c);
  }

  /** The fields of an ACK as runs of characters. */
  lemma AckReads(r: Rule, a: CompoundAck)
    requires r.WellFormed() && Eight(a)
    ensures a.Ack?
    ensures var b := AckToBits(a);
      && |b| == 64 && r.AckHeaderLen() <= 48
      && (Monochar(AckW(r, a), true) <==> AllOf(b, true, r.WIdx(), r.CIdx()))
      && (AckC(r, a) == [true] <==> b[r.CIdx()])
      && (Monochar(AckPadding(r, a), false) <==> AllOf(b, false, r.AckHeaderLen(), 64))
  {
    hide *;
    AckSizes(r);
    EightBits(a);
    AckFields(r, a);
    FieldAll(AckToBits(a), r.WIdx(), r.m, true);
    FieldOne(AckToBits(a), r.CIdx());
    DownlinkBits();
    PaddingAll(AckToBits(a), r.AckHeaderLen(), false);
  }

  lemma DownlinkBits()
    ensures DOWNLINK_MTU_BITS == 64
  {
  }

  lemma AckFields(r: Rule, a: CompoundAck)
    ensures AckW(r, a) == Field(AckToBits(a), r.WIdx(), r.m) && AckC(r, a) == Field(AckToBits(a), r.CIdx(), 1)
    ensures AckPadding(r, a) == Field(AckToBits(a), r.AckHeaderLen(), DOWNLINK_MTU_BITS)
    ensures AckBitmap(r, a) == Field(AckToBits(a), r.AckHeaderLen(), r.windowSize)
  {
    hide Field, AckToBits;
  }

  /** Behind the header there are '1's up to `to`, at least eight of them, and '0's from there. */
  ghost predicate AbortUpTo(r: Rule, b: BitString, to: nat) {
    && r.AckHeaderLen() + 8 <= to <= |b| && AllOf(b, false, to, |b|)
    && if r.AckHeaderLen() % 8 == 0 then AllOf(b, true, to - 8, to)
       else to % 8 == 0 && AllOf(b, true, r.AckHeaderLen(), to)
  }

  /** Which ACKs are taken for a Receiver-Abort, exactly: window and C are all '1', and behind the
      header there are '1's up to the end of some byte but the header's own, and '0's from there.
      Where the header ends with a byte only the last eight '1's are looked at. */
  lemma ReceiverAbortExactly(r: Rule, a: CompoundAck)
    requires r.WellFormed() && Eight(a)
    ensures var b := AckToBits(a);
      && |b| == 64 && r.AckHeaderLen() <= 48
      && (IsReceiverAbort(r, a) <==> AllOf(b, true, r.WIdx(), r.AckHeaderLen()) && exists to :: AbortUpTo(r, b, to))
  {
    hide *;
    var b, to := AckToBits(a), LastOne(AckToBits(a)) + 1;
    AckSizes(r);
    AckReads(r, a);
    Decision(r, a);
    HeaderOnes(b, r.WIdx(), r.CIdx());
    forall t | AbortUpTo(r, b, t)
      ensures t == to
    {
      LastOfAbort(r, b, t);
    }
  }

  lemma HeaderOnes(b: BitString, w: nat, c: nat)
    requires w <= c < |b|
    ensures AllOf(b, true, w, c + 1) <==> AllOf(b, true, w, c) && b[c]
  {
  }

  lemma LastOfAbort(r: Rule, b: BitString, to: nat)
    requires AbortUpTo(r, b, to)
    ensures LastOne(b) + 1 == to
  {
    assert b[to - 1];
    LastOneIs(b, to - 1);
  }

  /** What is_ack_receiver_abort decides, at the last '1'. */
  lemma Decision(r: Rule, a: CompoundAck)
    requires r.WellFormed() && Eight(a) && r.AckHeaderLen() <= 48
    ensures var b := AckToBits(a);
      IsReceiverAbort(r, a) <==>
        && Monochar(AckW(r, a), true) && AckC(r, a) == [true]
        && AbortUpTo(r, b, LastOne(b) + 1)
  {
    hide AckW, AckC, Monochar, Rule.WellFormed, AckToBits, LastOne;
    var b, from, to := AckToBits(a), r.AckHeaderLen(), LastOne(AckToBits(a)) + 1;
    EightBits(a);
    assert AllOf(b, false, to, |b|);
    if from + 8 <= to {
      SliceAll(b, to - 8, to, true);
      SliceAll(b, from, to - 8, true);
      OnesSplit(b, from, to);
      Aligned(from, to);
    }
  }

  lemma SliceAll(b: BitString, from: nat, to: nat, c: bool)
    requires from <= to <= |b|
    ensures Monochar(b[from..to], c) <==> from < to && AllOf(b, c, from, to)
    ensures b[from..to] == [] <==> from == to
  {
    var s := b[from..to];
    assert forall k | from <= k < to :: s[k - from] == b[k];
    assert forall k | 0 <= k < |s| :: s[k] == b[from + k];
  }

  lemma OnesSplit(b: BitString, from: nat, to: nat)
    requires from + 8 <= to <= |b|
    ensures AllOf(b, true, from, to) <==> AllOf(b, true, from, to - 8) && AllOf(b, true, to - 8, to)
  {
  }

  lemma Aligned(from: nat, to: nat)
    requires from + 8 <= to
    ensures (from + (to - 8 - from)) % 8 == 0 <==> to % 8 == 0
    ensures to == from + 8 && to % 8 == 0 ==> from % 8 == 0
  {
  }

  /** Which ACKs are complete, exactly: C is '1' and nothing stands behind it. */
  lemma CompleteAckExactly(r: Rule, a: CompoundAck)
    requires r.WellFormed() && Eight(a)
    ensures var b := AckToBits(a);
      && |b| == 64 && r.AckHeaderLen() <= 48
      && (IsComplete(r, a) <==> b[r.CIdx()] && AllOf(b, false, r.AckHeaderLen(), 64))
  {
    hide *;
    AckSizes(r);
    AckReads(r, a);
    ReceiverAbortExactly(r, a);
    ClassesAre(r, a);
    if AllOf(AckToBits(a), false, r.AckHeaderLen(), 64) && IsReceiverAbort(r, a) {
      var to :| AbortUpTo(r, AckToBits(a), to);
      AbortEnds(r, AckToBits(a), to);
    }
  }

  lemma AbortEnds(r: Rule, b: BitString, to: nat)
    requires |b| == 64 && AbortUpTo(r, b, to)
    ensures !AllOf(b, false, r.AckHeaderLen(), 64)
  {
    assert b[to - 1];
  }

  lemma ClassesAre(r: Rule, a: CompoundAck)
    ensures IsComplete(r, a) <==>
      a.Ack? && !IsReceiverAbort(r, a) && AckC(r, a) == [true] && Monochar(AckPadding(r, a), false)
    ensures IsCompound(r, a) <==> a.Ack? && !IsReceiverAbort(r, a) && !Monochar(AckPadding(r, a), false)
  {
    hide IsReceiverAbort, AckC, AckPadding;
  }

  /** Which ACKs are compound: no Receiver-Aborts, and something stands behind the header. */
  lemma CompoundAckExactly(r: Rule, a: CompoundAck)
    requires r.WellFormed() && Eight(a)
    ensures var b := AckToBits(a);
      && |b| == 64
      && (IsCompound(r, a) <==> !IsReceiverAbort(r, a) && !AllOf(b, false, r.AckHeaderLen(), 64))
  {
    hide *;
    AckReads(r, a);
    ClassesAre(r, a);
  }

  // ---------------------------------------------------------------- which tuples are read

  /** Where tuple `k` after the first one starts. */
  function Place(r: Rule, k: nat): nat
  {
    r.TupleIdx() + k * r.TupleSize()
  }

  lemma PlaceNext(r: Rule, k: nat)
    ensures Place(r, 0) == r.TupleIdx() && Place(r, k + 1) == Place(r, k) + r.TupleSize()
  {
    assert (k + 1) * r.TupleSize() == k * r.TupleSize() + r.TupleSize();
  }

  /** The tuple at a place, and whether the reader takes it. */
  function TupleAt(r: Rule, b: BitString, p: nat): Tuple { Tuple(Field(b, p, r.m), Field(b, p + r.m, r.windowSize)) }

  ghost predicate TakenAt(r: Rule, b: BitString, p: nat) {
    p < 64 - r.TupleIdx() && Field(b, p, r.m) != Repeat(false, r.m)
  }

  /** The reader takes `t` at a place. */
  ghost predicate Takes(r: Rule, b: BitString, p: nat, t: Tuple) { TakenAt(r, b, p) && t == TupleAt(r, b, p) }

  /** `ts` is what the reader takes from tuple `k` on. */
  ghost predicate TakenFrom(r: Rule, b: BitString, k: nat, ts: seq<Tuple>) {
    && (forall j | 0 <= j < |ts| :: Takes(r, b, Place(r, k + j), ts[j]))
    && !TakenAt(r, b, Place(r, k + |ts|))
  }

  lemma TakenCons(r: Rule, b: BitString, k: nat, rest: seq<Tuple>)
    requires TakenFrom(r, b, k + 1, rest) && TakenAt(r, b, Place(r, k))
    ensures TakenFrom(r, b, k, [TupleAt(r, b, Place(r, k))] + rest)
  {
    hide TakenAt, Place;
    var ts := [TupleAt(r, b, Place(r, k))] + rest;
    assert k + |ts| == k + 1 + |rest|;
    forall j | 0 <= j < |ts|
      ensures Takes(r, b, Place(r, k + j), ts[j])
    {
      if j > 0 {
        assert ts[j] == rest[j - 1] && k + 1 + (j - 1) == k + j;
      }
    }
  }

  lemma TakenNone(r: Rule, b: BitString, k: nat)
    requires !TakenAt(r, b, Place(r, k))
    ensures TakenFrom(r, b, k, [])
  {
    assert k + 0 == k;
  }

  lemma {:induction false} ReadPlaces(r: Rule, b: BitString, k: nat)
    requires r.TupleSize() > 0
    ensures TakenFrom(r, b, k, ReadFrom(r, b, Place(r, k)))
    decreases 64 - Place(r, k)
  {
    hide *;
    PlaceNext(r, k);
    ReadsNext(r, b, Place(r, k));
    if TakenAt(r, b, Place(r, k)) {
      TakenInside(r, b, Place(r, k));
      ReadPlaces(r, b, k + 1);
      TakenCons(r, b, k, ReadFrom(r, b, Place(r, k + 1)));
    } else {
      TakenNone(r, b, k);
    }
  }

  lemma TakenInside(r: Rule, b: BitString, p: nat)
    requires TakenAt(r, b, p)
    ensures p < 64
  {
  }

  lemma ReadsNext(r: Rule, b: BitString, p: nat)
    requires r.TupleSize() > 0
    ensures ReadFrom(r, b, p) ==
      if TakenAt(r, b, p) then [TupleAt(r, b, p)] + ReadFrom(r, b, p + r.TupleSize()) else []
  {
    hide Field, Rule.TupleIdx;
  }

  /** What a reader makes of any eight bytes: the first tuple from the fixed part, and one more at
      every place that follows as long as its window is not 0 and it starts early enough. */
  lemma TuplesExactly(r: Rule, a: CompoundAck)
    requires r.TupleSize() > 0
    ensures var b, ts := AckToBits(a), Tuples(r, a);
      && ts[0] == Tuple(Field(b, r.WIdx(), r.m), Field(b, r.AckHeaderLen(), r.windowSize))
      && (forall k | 1 <= k < |ts| :: Takes(r, b, Place(r, k - 1), ts[k]))
      && !TakenAt(r, b, Place(r, |ts| - 1))
  {
    PlaceNext(r, 0);
    AckFields(r, a);
    TuplesRead(r, a, AckW(r, a), AckBitmap(r, a));
    ReadPlaces(r, AckToBits(a), 0);
    hide Place, Takes, TakenAt, ReadFrom, Tuples, AckW, AckBitmap, AckToBits, Field;
    var ts, rest := Tuples(r, a), ReadFrom(r, AckToBits(a), Place(r, 0));
    assert ts[1..] == rest;
    forall k | 1 <= k < |ts|
      ensures Takes(r, AckToBits(a), Place(r, k - 1), ts[k])
    {
      assert ts[k] == rest[k - 1] && 0 + (k - 1) == k - 1;
    }
  }

  // ---------------------------------------------------------------- where a report is written

  /** The tuples of a body, one after the other. */
  lemma {:induction false} BodyAt(r: Rule, bitmaps: seq<BitString>, ws: seq<nat>, k: nat)
    requires Below(ws, |bitmaps|) && Readable(r, bitmaps, ws) && k < |ws|
    ensures 0 <= k * r.TupleSize() && k * r.TupleSize() + r.TupleSize() <= |Body(r, bitmaps, ws)|
    ensures var p := k * r.TupleSize();
      Body(r, bitmaps, ws)[p..p + r.TupleSize()] == TupleBits(r, bitmaps, ws[k])
    decreases k
  {
    hide TupleBits;
    TupleLength(r, bitmaps, ws[0]);
    var first, rest := TupleBits(r, bitmaps, ws[0]), Body(r, bitmaps, ws[1..]);
    assert Body(r, bitmaps, ws) == first + rest;
    if k > 0 {
      BodyAt(r, bitmaps, ws[1..], k - 1);
      assert k * r.TupleSize() == (k - 1) * r.TupleSize() + r.TupleSize();
      var p := (k - 1) * r.TupleSize();
      assert (first + rest)[|first| + p..|first| + p + r.TupleSize()] == rest[p..p + r.TupleSize()];
    }
  }

  lemma TupleLength(r: Rule, bitmaps: seq<BitString>, w: nat)
    requires w < |bitmaps| && |bitmaps[w]| == r.windowSize
    ensures |TupleBits(r, bitmaps, w)| == r.TupleSize()
  {
    hide IntBits;
  }

  lemma {:induction false} BodyLength(r: Rule, bitmaps: seq<BitString>, ws: seq<nat>)
    requires Below(ws, |bitmaps|) && Readable(r, bitmaps, ws)
    ensures |Body(r, bitmaps, ws)| == |ws| * r.TupleSize()
  {
    hide TupleBits;
    if ws != [] {
      TupleLength(r, bitmaps, ws[0]);
      BodyLength(r, bitmaps, ws[1..]);
      assert |ws| * r.TupleSize() == (|ws| - 1) * r.TupleSize() + r.TupleSize();
    }
  }

  /** The bits of a loss report: identifier, first window, a '0' for C, its bitmap, then the
      further windows with their bitmaps, and '0's up to 64 bits. */
  lemma ReportLayout(r: Rule, bitmaps: seq<BitString>, ws: seq<nat>)
    requires r.WellFormed() && Reportable(r, bitmaps, ws)
    ensures ws != [] && Below(ws, |bitmaps|)
    ensures var b := AckToBits(LossReport(r, bitmaps, ws));
      && |b| == 64 && r.CIdx() < 64 && Place(r, |ws| - 1) <= 64
      && b[..r.ruleIdSize] == RuleIdBits(r)
      && Field(b, r.WIdx(), r.m) == IntBits(ws[0], r.m) && !b[r.CIdx()]
      && Field(b, r.AckHeaderLen(), r.windowSize) == bitmaps[ws[0]]
      && (forall k | 1 <= k < |ws| ::
            TupleAt(r, b, Place(r, k - 1)) == Tuple(IntBits(ws[k], r.m), bitmaps[ws[k]]))
      && AllOf(b, false, Place(r, |ws| - 1), 64)
  {
    hide *;
    ReportParts(r, bitmaps, ws);
    AckSizes(r);
    BelowIs(ws, |bitmaps|);
    var b, zeros := ReportBits(r, bitmaps, ws);
    HeadOfReport(RuleIdBits(r), IntBits(ws[0], r.m), bitmaps[ws[0]], Body(r, bitmaps, ws[1..]) + Repeat(false, zeros));
    forall k | 1 <= k < |ws|
      ensures TupleAt(r, b, Place(r, k - 1)) == Tuple(IntBits(ws[k], r.m), bitmaps[ws[k]])
    {
      FurtherTuple(r, bitmaps, ws, k, zeros);
    }
    ReportEnds(r, bitmaps, ws, zeros);
  }

  lemma FurtherTuple(r: Rule, bitmaps: seq<BitString>, ws: seq<nat>, k: nat, zeros: nat)
    requires ws != [] && Below(ws, |bitmaps|) && Below(ws[1..], |bitmaps|) && Readable(r, bitmaps, ws[1..])
    requires |FixedPart(r, bitmaps, ws[0])| == r.TupleIdx() && 1 <= k < |ws|
    ensures ws[k] < |bitmaps|
    ensures var b := FixedPart(r, bitmaps, ws[0]) + Body(r, bitmaps, ws[1..]) + Repeat(false, zeros);
      TupleAt(r, b, Place(r, k - 1)) == Tuple(IntBits(ws[k], r.m), bitmaps[ws[k]])
  {
    hide *;
    BelowIs(ws, |bitmaps|);
    PlaceIs(r, k - 1);
    BodyAt(r, bitmaps, ws[1..], k - 1);
    ReadableAt(r, bitmaps, ws[1..], k - 1);
    BodyTuple(r, bitmaps, ws[k], FixedPart(r, bitmaps, ws[0]), Body(r, bitmaps, ws[1..]), Repeat(false, zeros),
              (k - 1) * r.TupleSize());
  }

  lemma ReportEnds(r: Rule, bitmaps: seq<BitString>, ws: seq<nat>, zeros: nat)
    requires ws != [] && Below(ws, |bitmaps|) && Below(ws[1..], |bitmaps|) && Readable(r, bitmaps, ws[1..])
    requires |FixedPart(r, bitmaps, ws[0])| == r.TupleIdx()
    ensures var start := FixedPart(r, bitmaps, ws[0]) + Body(r, bitmaps, ws[1..]);
      |start| == Place(r, |ws| - 1) && AllOf(start + Repeat(false, zeros), false, |start|, |start| + zeros)
  {
    hide *;
    BelowIs(ws, |bitmaps|);
    BodyLength(r, bitmaps, ws[1..]);
    PlaceIs(r, |ws| - 1);
    ZerosBehind(FixedPart(r, bitmaps, ws[0]) + Body(r, bitmaps, ws[1..]), zeros);
  }

  lemma BelowIs(ws: seq<nat>, n: nat)
    requires Below(ws, n)
    ensures forall k | 0 <= k < |ws| :: ws[k] < n
  {
  }

  lemma ReadableAt(r: Rule, bitmaps: seq<BitString>, ws: seq<nat>, k: nat)
    requires Readable(r, bitmaps, ws) && k < |ws|
    ensures ws[k] < |bitmaps| && |bitmaps[ws[k]]| == r.windowSize
  {
  }

  /** The bits of a report and how many '0's end it. */
  lemma ReportBits(r: Rule, bitmaps: seq<BitString>, ws: seq<nat>) returns (b: BitString, zeros: nat)
    requires r.WellFormed() && Reportable(r, bitmaps, ws)
    ensures ws != [] && Below(ws, |bitmaps|) && Below(ws[1..], |bitmaps|)
    ensures b == AckToBits(LossReport(r, bitmaps, ws)) && |b| == 64
    ensures var fixed, body := FixedPart(r, bitmaps, ws[0]), Body(r, bitmaps, ws[1..]);
      && |fixed| == r.TupleIdx() && |fixed| + |body| + zeros == 64
      && b == fixed + body + Repeat(false, zeros)
      && b == RuleIdBits(r) + IntBits(ws[0], r.m) + [false] + bitmaps[ws[0]] + (body + Repeat(false, zeros))
  {
    hide *;
    ReportParts(r, bitmaps, ws);
    ReportImage(r, bitmaps, ws);
    DownlinkBits();
    var fixed, body := FixedPart(r, bitmaps, ws[0]), Body(r, bitmaps, ws[1..]);
    zeros := 64 - |fixed + body|;
    b := fixed + body + Repeat(false, zeros);
    AppendAssociative(fixed, body, Repeat(false, zeros));
  }

  lemma PlaceIs(r: Rule, k: nat)
    ensures Place(r, k) == r.TupleIdx() + k * r.TupleSize()
  {
  }

  lemma HeadOfReport(id: BitString, w: BitString, bm: BitString, rest: BitString)
    ensures var b := id + w + [false] + bm + rest;
      && b[..|id|] == id && Field(b, |id|, |w|) == w && !b[|id| + |w|] && Field(b, |id| + |w| + 1, |bm|) == bm
  {
    FieldsOfFour(id, w, [false], bm, rest);
    hide Field;
  }

  lemma BodyTuple(r: Rule, bitmaps: seq<BitString>, w: nat, fixed: BitString, body: BitString, zeros: BitString, p: nat)
    requires w < |bitmaps| && |bitmaps[w]| == r.windowSize && p + r.TupleSize() <= |body|
    requires body[p..p + r.TupleSize()] == TupleBits(r, bitmaps, w)
    ensures TupleAt(r, fixed + body + zeros, |fixed| + p) == Tuple(IntBits(w, r.m), bitmaps[w])
  {
    hide *;
    TupleParts(r, bitmaps, w);
    var iw, bm, before, after := IntBits(w, r.m), bitmaps[w], body[..p], body[p + r.TupleSize()..];
    assert body == before + (iw + bm) + after;
    assert fixed + body + zeros == (fixed + before) + iw + (bm + after + zeros);
    assert fixed + body + zeros == (fixed + before + iw) + bm + (after + zeros);
    FieldMiddle(fixed + before, iw, bm + after + zeros);
    FieldMiddle(fixed + before + iw, bm, after + zeros);
  }

  lemma TupleParts(r: Rule, bitmaps: seq<BitString>, w: nat)
    requires w < |bitmaps|
    ensures TupleBits(r, bitmaps, w) == IntBits(w, r.m) + bitmaps[w] && |IntBits(w, r.m)| == r.m
    ensures r.TupleSize() == r.m + r.windowSize
    ensures forall b, p: nat :: TupleAt(r, b, p) == Tuple(Field(b, p, r.m), Field(b, p + r.m, r.windowSize))
  {
    hide IntBits, Field;
  }

  lemma ZerosBehind(start: BitString, zeros: nat)
    ensures AllOf(start + Repeat(false, zeros), false, |start|, |start| + zeros)
  {
  }
}
