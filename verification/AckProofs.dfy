/**
  The Compound ACK round trip, and the classes of generated ACKs.
 */
module AckProofs {
  import opened Options
  import opened Bits
  import opened Rules
  import opened Acks

  ghost predicate Increasing(ws: seq<nat>) {
    forall i, j | 0 <= i < j < |ws| :: ws[i] < ws[j]
  }

  // ---------------------------------------------------------------- the writer

  /** The reported windows are exactly the lossy ones, in strictly increasing order. */
  lemma {:induction false} LossyExact(bitmaps: seq<BitString>, i: nat, wdw: nat)
    requires wdw < |bitmaps|
    ensures var ws := LossyFrom(bitmaps, i, wdw);
      && Increasing(ws)
      && Below(ws, |bitmaps|)
      && i + |ws| <= (if i > wdw then i else wdw + 1)
      && forall w: nat :: w in ws <==> i <= w <= wdw && Lossy(bitmaps[w])
    decreases wdw + 1 - i
  {
    hide Lossy;
    if i <= wdw {
      LossyExact(bitmaps, i + 1, wdw);
      IncreasingCons(i, LossyFrom(bitmaps, i + 1, wdw));
    }
  }

  lemma IncreasingCons(w: nat, ws: seq<nat>)
    requires Increasing(ws) && forall x: nat :: x in ws ==> w < x
    ensures Increasing([w] + ws)
  {
    assert forall k | 0 <= k < |ws| :: ws[k] in ws;
  }

  /** How many tuples generate_ack still has room for after `len` bits. */
  function Room(r: Rule, len: nat): nat
    requires r.TupleSize() > 0
    decreases DOWNLINK_MTU_BITS + 1 - len
  {
    if len + r.TupleSize() > DOWNLINK_MTU_BITS then 0 else 1 + Room(r, NextLen(r, len))
  }

  /** The writer reports the first lossy windows, as many as fit. */
  lemma {:induction false} WrittenIsPrefix(r: Rule, bitmaps: seq<BitString>, i: nat, wdw: nat, len: nat)
    requires r.TupleSize() > 0 && wdw < |bitmaps|
    ensures var ws := LossyFrom(bitmaps, i, wdw);
      Written(r, bitmaps, i, wdw, len) == ws[..Min(|ws|, Room(r, len))]
    decreases wdw + 1 - i
  {
    if i <= wdw && len + r.TupleSize() <= DOWNLINK_MTU_BITS {
      if Lossy(bitmaps[i]) {
        WrittenIsPrefix(r, bitmaps, i + 1, wdw, NextLen(r, len));
      } else {
        WrittenIsPrefix(r, bitmaps, i + 1, wdw, len);
      }
    }
  }

  // ---------------------------------------------------------------- the reader

  /** How many tuple positions from `p` on lie before the reader's bound. */
  function Slots(r: Rule, p: nat): nat
    requires r.TupleSize() > 0
    decreases DOWNLINK_MTU_BITS - p
  {
    if p >= DOWNLINK_MTU_BITS - r.TupleIdx() then 0 else 1 + Slots(r, p + r.TupleSize())
  }

  /** The number of tuples the reader can return. */
  function ReaderCapacity(r: Rule): nat
    requires r.TupleSize() > 0
  {
    1 + Slots(r, r.TupleIdx())
  }

  function WriterCapacity(r: Rule): nat
    requires r.TupleSize() > 0
  {
    Room(r, 0)
  }

  /** The reader never looks for a tuple the writer could not have placed. */
  lemma {:induction false} SlotsWithinRoom(r: Rule, p: nat)
    requires r.TupleSize() > 0 && p > 0
    ensures Slots(r, p) <= Room(r, p)
    decreases DOWNLINK_MTU_BITS - p
  {
    if p < DOWNLINK_MTU_BITS - r.TupleIdx() {
      SlotsWithinRoom(r, p + r.TupleSize());
    }
  }

  /** The writer packs 6, 4 and 1 tuples, the reader returns 6, 3 and 1. */
  lemma Capacities(r: Rule)
    requires Profile(r)
    ensures WriterCapacity(r) == if r.ruleIdSize == 3 then 6 else if r.ruleIdSize == 6 then 4 else 1
    ensures ReaderCapacity(r) == if r.ruleIdSize == 3 then 6 else if r.ruleIdSize == 6 then 3 else 1
  {
    if r.ruleIdSize == 3 {
      assert Room(r, 49) == 1;
      assert Room(r, 31) == 3;
      assert Room(r, 13) == 5;
      assert Slots(r, 49) == 1;
      assert Slots(r, 31) == 3;
    } else if r.ruleIdSize == 6 {
      assert Room(r, 49) == 1;
      assert Room(r, 21) == 3;
      assert Slots(r, 35) == 1;
    }
  }

  /** The tuples that describe the windows `ws`. */
  function TuplesOf(r: Rule, bitmaps: seq<BitString>, ws: seq<nat>): (ts: seq<Tuple>)
    requires Below(ws, |bitmaps|)
    ensures |ts| == |ws|
  {
    seq(|ws|, i requires 0 <= i < |ws| => Tuple(IntBits(ws[i], r.m), bitmaps[ws[i]]))
  }

  /** The windows `ws` can be numbered, are not window 0, and have full bitmaps. */
  ghost predicate Readable(r: Rule, bitmaps: seq<BitString>, ws: seq<nat>) {
    forall k | 0 <= k < |ws| ::
      0 < ws[k] < Pow2(r.m) && ws[k] < |bitmaps| && |bitmaps[ws[k]]| == r.windowSize
  }

  /** What the writer had room for fits. */
  lemma {:induction false} BodyFits(r: Rule, bitmaps: seq<BitString>, ws: seq<nat>, len: nat)
    requires r.TupleSize() > 0 && Readable(r, bitmaps, ws) && Below(ws, |bitmaps|)
    requires 0 < len <= DOWNLINK_MTU_BITS && |ws| <= Room(r, len)
    ensures len + |Body(r, bitmaps, ws)| <= DOWNLINK_MTU_BITS
    decreases |ws|
  {
    if ws != [] {
      BodyFits(r, bitmaps, ws[1..], len + r.TupleSize());
    }
  }

  lemma ZerosStop(r: Rule, pre: BitString, z: nat)
    requires |pre| + z == DOWNLINK_MTU_BITS && r.TupleIdx() >= r.m
    ensures !MoreAt(r, pre + Repeat(false, z), |pre|)
  {
    var b := pre + Repeat(false, z);
    if |pre| < DOWNLINK_MTU_BITS - r.TupleIdx() {
      assert Field(b, |pre|, r.m) == Repeat(false, r.m);
    }
  }

  lemma TupleReads(r: Rule, pre: BitString, window: BitString, bitmap: BitString, rest: BitString)
    requires |window| == r.m && |bitmap| == r.windowSize
    ensures var b := pre + (window + bitmap + rest);
      Field(b, |pre|, r.m) == window && Field(b, |pre| + r.m, r.windowSize) == bitmap
  {
    var b := pre + (window + bitmap + rest);
    assert b == pre + window + (bitmap + rest);
    FieldMiddle(pre, window, bitmap + rest);
    assert b == (pre + window) + bitmap + rest;
    FieldMiddle(pre + window, bitmap, rest);
  }

  /** Reading from a position where the tuples of `ws` start returns as many of them as
      lie before the reader's bound. */
  lemma {:induction false} ReadBody(r: Rule, bitmaps: seq<BitString>, pre: BitString, ws: seq<nat>, z: nat)
    requires r.WellFormed() && Readable(r, bitmaps, ws) && Below(ws, |bitmaps|)
    requires |pre| + |Body(r, bitmaps, ws)| + z == DOWNLINK_MTU_BITS
    ensures ReadFrom(r, pre + Body(r, bitmaps, ws) + Repeat(false, z), |pre|)
         == TuplesOf(r, bitmaps, ws[..Min(|ws|, Slots(r, |pre|))])
    decreases |ws|
  {
    hide IntBits, Field, TuplesOf, BinToInt, ReadFrom;
    var b := pre + Body(r, bitmaps, ws) + Repeat(false, z);
    if |pre| >= DOWNLINK_MTU_BITS - r.TupleIdx() {
      NoSlot(r, bitmaps, b, ws, |pre|);
    } else if ws == [] {
      assert b == pre + Repeat(false, z);
      ZerosRead(r, pre, z);
      TuplesOfNothing(r, bitmaps);
    } else {
      ReadBody(r, bitmaps, pre + (IntBits(ws[0], r.m) + bitmaps[ws[0]]), ws[1..], z);
      ReadFirst(r, bitmaps, pre, ws, z);
    }
  }

  /** The first tuple of a body, given how the rest reads. */
  lemma ReadFirst(r: Rule, bitmaps: seq<BitString>, pre: BitString, ws: seq<nat>, z: nat)
    requires r.WellFormed() && Readable(r, bitmaps, ws) && Below(ws, |bitmaps|) && ws != []
    requires |pre| + |Body(r, bitmaps, ws)| + z == DOWNLINK_MTU_BITS && |pre| < DOWNLINK_MTU_BITS - r.TupleIdx()
    requires var next, p := pre + (IntBits(ws[0], r.m) + bitmaps[ws[0]]), |pre| + r.TupleSize();
      ReadFrom(r, next + Body(r, bitmaps, ws[1..]) + Repeat(false, z), p)
        == TuplesOf(r, bitmaps, ws[1..][..Min(|ws[1..]|, Slots(r, p))])
    ensures ReadFrom(r, pre + Body(r, bitmaps, ws) + Repeat(false, z), |pre|)
         == TuplesOf(r, bitmaps, ws[..Min(|ws|, Slots(r, |pre|))])
  {
    hide *;
    FirstReadable(r, bitmaps, ws);
    SlotsStep(r, |pre|);
    var window, bitmap, rest := IntBits(ws[0], r.m), bitmaps[ws[0]], Body(r, bitmaps, ws[1..]);
    var zeros := Repeat(false, z);
    JoinBody(r, bitmaps, pre, ws, zeros);
    ReadStep(r, pre, window, bitmap, rest + zeros);
    AppendAssociative(pre + (window + bitmap), rest, zeros);
    TuplesOfCons(r, bitmaps, ws, Slots(r, |pre| + r.TupleSize()));
  }

  lemma FirstReadable(r: Rule, bitmaps: seq<BitString>, ws: seq<nat>)
    requires r.WellFormed() && Readable(r, bitmaps, ws) && Below(ws, |bitmaps|) && ws != []
    ensures r.TupleSize() > 0 && ws[0] < |bitmaps| && Below(ws[1..], |bitmaps|)
    ensures |IntBits(ws[0], r.m)| == r.m && |bitmaps[ws[0]]| == r.windowSize
    ensures IntBits(ws[0], r.m) != Repeat(false, r.m)
  {
    ConstantImages(ws[0], r.m);
    hide IntBits, Pow2;
  }

  lemma SlotsStep(r: Rule, p: nat)
    requires r.TupleSize() > 0
    ensures p < DOWNLINK_MTU_BITS - r.TupleIdx() ==> Slots(r, p) == 1 + Slots(r, p + r.TupleSize())
  {
  }

  lemma ZerosRead(r: Rule, pre: BitString, z: nat)
    requires |pre| + z == DOWNLINK_MTU_BITS && r.TupleIdx() >= r.m && r.TupleSize() > 0
    ensures ReadFrom(r, pre + Repeat(false, z), |pre|) == []
  {
    ZerosStop(r, pre, z);
    hide Field;
  }

  lemma JoinBody(r: Rule, bitmaps: seq<BitString>, pre: BitString, ws: seq<nat>, zeros: BitString)
    requires ws != [] && Below(ws, |bitmaps|)
    ensures pre + Body(r, bitmaps, ws) + zeros
         == pre + (IntBits(ws[0], r.m) + bitmaps[ws[0]] + (Body(r, bitmaps, ws[1..]) + zeros))
  {
    hide IntBits;
  }

  lemma NoSlot(r: Rule, bitmaps: seq<BitString>, b: BitString, ws: seq<nat>, p: nat)
    requires r.TupleSize() > 0 && Below(ws, |bitmaps|) && p >= DOWNLINK_MTU_BITS - r.TupleIdx()
    ensures ReadFrom(r, b, p) == TuplesOf(r, bitmaps, ws[..Min(|ws|, Slots(r, p))])
  {
  }

  lemma TuplesOfNothing(r: Rule, bitmaps: seq<BitString>)
    ensures Below([], |bitmaps|) && TuplesOf(r, bitmaps, []) == []
  {
  }

  lemma ReadStep(r: Rule, pre: BitString, window: BitString, bitmap: BitString, rest: BitString)
    requires r.WellFormed() && |window| == r.m && |bitmap| == r.windowSize
    requires window != Repeat(false, r.m) && |pre| < DOWNLINK_MTU_BITS - r.TupleIdx()
    ensures ReadFrom(r, pre + (window + bitmap + rest), |pre|)
         == [Tuple(window, bitmap)] + ReadFrom(r, (pre + (window + bitmap)) + rest, |pre| + r.TupleSize())
  {
    hide Field;
    TupleReads(r, pre, window, bitmap, rest);
    assert pre + (window + bitmap + rest) == (pre + (window + bitmap)) + rest;
  }

  lemma TuplesOfCons(r: Rule, bitmaps: seq<BitString>, ws: seq<nat>, k: nat)
    requires ws != [] && Below(ws, |bitmaps|)
    ensures TuplesOf(r, bitmaps, ws[..Min(|ws|, 1 + k)])
         == [Tuple(IntBits(ws[0], r.m), bitmaps[ws[0]])] + TuplesOf(r, bitmaps, ws[1..][..Min(|ws[1..]|, k)])
  {
    var rest := ws[1..][..Min(|ws[1..]|, k)];
    assert ws[..Min(|ws|, 1 + k)] == [ws[0]] + rest;
  }

  lemma AckOfBits(b: BitString)
    ensures AckToBits(AckOf(b)) == ToDownlink(b)
  {
    BitsRoundTrip(ToDownlink(b));
  }

  /** The fixed part of a loss report. */
  function FixedPart(r: Rule, bitmaps: seq<BitString>, w: nat): BitString
    requires w < |bitmaps|
  {
    RuleIdBits(r) + IntBits(w, r.m) + [false] + bitmaps[w]
  }

  /** The windows of a report: bitmaps present, room for all of them, only the first may be 0. */
  ghost predicate Reportable(r: Rule, bitmaps: seq<BitString>, ws: seq<nat>)
    requires r.TupleSize() > 0
  {
    && ws != [] && Below(ws, |bitmaps|)
    && |bitmaps[ws[0]]| == r.windowSize
    && Readable(r, bitmaps, ws[1..])
    && |ws| <= WriterCapacity(r)
  }

  lemma ReportImage(r: Rule, bitmaps: seq<BitString>, ws: seq<nat>)
    requires r.WellFormed() && Reportable(r, bitmaps, ws)
    ensures var start := FixedPart(r, bitmaps, ws[0]) + Body(r, bitmaps, ws[1..]);
      && |FixedPart(r, bitmaps, ws[0])| == r.TupleIdx()
      && |start| <= DOWNLINK_MTU_BITS
      && AckToBits(LossReport(r, bitmaps, ws)) == start + Repeat(false, DOWNLINK_MTU_BITS - |start|)
  {
    assert Room(r, 0) <= 1 + Room(r, r.TupleIdx());
    BodyFits(r, bitmaps, ws[1..], r.TupleIdx());
    AckOfBits(ReportStart(r, bitmaps, ws));
  }

  /** The fields of an ACK that starts with an identifier. */
  lemma HeaderFields(r: Rule, a: CompoundAck, id: BitString, w: BitString, c: BitString, d: BitString, rest: BitString)
    requires a.Ack? && AckToBits(a) == id + w + c + d + rest && |id| == r.WIdx() && |w| == r.m && |c| == 1
    ensures AckW(r, a) == w && AckC(r, a) == c && (|d| == r.windowSize ==> AckBitmap(r, a) == d)
  {
    FieldsOfFour(id, w, c, d, rest);
    hide AckToBits, Field;
  }

  /** A loss report reads back as the tuples of its windows, up to the reader's bound. */
  lemma ReportReads(r: Rule, bitmaps: seq<BitString>, ws: seq<nat>)
    requires r.WellFormed() && Reportable(r, bitmaps, ws)
    ensures Tuples(r, LossReport(r, bitmaps, ws)) == TuplesOf(r, bitmaps, ws[..Min(|ws|, ReaderCapacity(r))])
    ensures AckC(r, LossReport(r, bitmaps, ws)) == [false]
  {
    hide *;
    ReportParts(r, bitmaps, ws);
    var a, id, w, bm := LossReport(r, bitmaps, ws), RuleIdBits(r), IntBits(ws[0], r.m), bitmaps[ws[0]];
    var fixed, body := FixedPart(r, bitmaps, ws[0]), Body(r, bitmaps, ws[1..]);
    var z := DOWNLINK_MTU_BITS - |fixed + body|;
    ReportImage(r, bitmaps, ws);
    ReadBody(r, bitmaps, fixed, ws[1..], z);
    assert AckToBits(a) == id + w + [false] + bm + (body + Repeat(false, z));
    HeaderFields(r, a, id, w, [false], bm, body + Repeat(false, z));
    TuplesRead(r, a, w, bm);
    TuplesOfCons(r, bitmaps, ws, Slots(r, r.TupleIdx()));
    CapacityIs(r);
  }

  lemma ReportParts(r: Rule, bitmaps: seq<BitString>, ws: seq<nat>)
    requires r.WellFormed() && Reportable(r, bitmaps, ws)
    ensures ws != [] && Below(ws, |bitmaps|) && ws[0] < |bitmaps|
    ensures Below(ws[1..], |bitmaps|) && Readable(r, bitmaps, ws[1..])
    ensures r.TupleSize() > 0 && 1 <= r.m <= 31 && LossReport(r, bitmaps, ws).Ack?
    ensures FixedPart(r, bitmaps, ws[0]) == RuleIdBits(r) + IntBits(ws[0], r.m) + [false] + bitmaps[ws[0]]
    ensures |RuleIdBits(r)| == r.WIdx() && |IntBits(ws[0], r.m)| == r.m && |bitmaps[ws[0]]| == r.windowSize
  {
    hide RuleIdBits, Room, Body, IntBits;
  }

  lemma TuplesRead(r: Rule, a: CompoundAck, w: BitString, bm: BitString)
    requires r.TupleSize() > 0 && AckW(r, a) == w && AckBitmap(r, a) == bm
    ensures Tuples(r, a) == [Tuple(w, bm)] + ReadFrom(r, AckToBits(a), r.TupleIdx())
  {
    hide AckW, AckBitmap, AckToBits, ReadFrom;
  }

  lemma CapacityIs(r: Rule)
    requires r.TupleSize() > 0
    ensures ReaderCapacity(r) == 1 + Slots(r, r.TupleIdx())
  {
    hide Slots;
  }

  /** The windows a reader sees of the lossy ones. */
  function Seen(r: Rule, bitmaps: seq<BitString>, wdw: nat): seq<nat>
    requires r.TupleSize() > 0 && wdw < |bitmaps|
  {
    var ws := LossyFrom(bitmaps, 0, wdw);
    ws[..Min(|ws|, ReaderCapacity(r))]
  }

  lemma WrittenReportable(r: Rule, bitmaps: seq<BitString>, wdw: nat)
    requires r.WellFormed() && BitmapTable(r, bitmaps) && wdw < |bitmaps|
    requires LossyFrom(bitmaps, 0, wdw) != []
    ensures Reportable(r, bitmaps, Written(r, bitmaps, 0, wdw, 0))
    ensures var ws := LossyFrom(bitmaps, 0, wdw);
      Written(r, bitmaps, 0, wdw, 0) == ws[..Min(|ws|, WriterCapacity(r))]
    ensures 1 <= ReaderCapacity(r) <= WriterCapacity(r)
  {
    var ws := LossyFrom(bitmaps, 0, wdw);
    LossyExact(bitmaps, 0, wdw);
    WrittenIsPrefix(r, bitmaps, 0, wdw, 0);
    SlotsWithinRoom(r, r.TupleIdx());
    forall k | 0 <= k < |ws|
      ensures ws[k] < |bitmaps| && |bitmaps[ws[k]]| == r.windowSize && (k > 0 ==> 0 < ws[k])
    {
      assert ws[k] in ws;
      assert k > 0 ==> ws[0] < ws[k];
    }
  }

  /** Compound ACK round trip: reading the ACK generated for a set of bitmaps with some loss
      yields the lossy (window, bitmap) pairs in strictly increasing window order, all of
      them up to the reader's capacity. */
  lemma CompoundAckRoundTrip(r: Rule, bitmaps: seq<BitString>, wdw: nat)
    requires r.WellFormed() && BitmapTable(r, bitmaps) && wdw < |bitmaps|
    requires LossyFrom(bitmaps, 0, wdw) != []
    ensures GeneratedAck(r, wdw, false, bitmaps).Some?
    ensures Increasing(Seen(r, bitmaps, wdw)) && Below(Seen(r, bitmaps, wdw), |bitmaps|)
    ensures Tuples(r, GeneratedAck(r, wdw, false, bitmaps).value) == TuplesOf(r, bitmaps, Seen(r, bitmaps, wdw))
  {
    var ws := LossyFrom(bitmaps, 0, wdw);
    var written := Written(r, bitmaps, 0, wdw, 0);
    LossyExact(bitmaps, 0, wdw);
    WrittenReportable(r, bitmaps, wdw);
    ReportReads(r, bitmaps, written);
    assert written[..Min(|written|, ReaderCapacity(r))] == Seen(r, bitmaps, wdw);
  }

  /** On the network: single byte loses nothing, option 1 is read up to three windows even
      where four were packed, and option 2 carries one. */
  lemma SeenOnTheNetwork(r: Rule, bitmaps: seq<BitString>, wdw: nat)
    requires Profile(r) && BitmapTable(r, bitmaps) && wdw < |bitmaps|
    ensures var ws := LossyFrom(bitmaps, 0, wdw);
      Seen(r, bitmaps, wdw) ==
        if r.ruleIdSize == 3 then ws
        else if r.ruleIdSize == 6 then ws[..Min(|ws|, 3)]
        else ws[..Min(|ws|, 1)]
  {
    Capacities(r);
    LossyExact(bitmaps, 0, wdw);
    Pow2Values();
  }

  // ---------------------------------------------------------------- classes

  /** No loss report is taken for a complete ACK or a Receiver-Abort; and it is compound
      unless it reports a single window of which nothing has arrived. */
  lemma LossReportClass(r: Rule, bitmaps: seq<BitString>, wdw: nat)
    requires r.WellFormed() && BitmapTable(r, bitmaps) && wdw < |bitmaps|
    requires LossyFrom(bitmaps, 0, wdw) != []
    ensures Below(LossyFrom(bitmaps, 0, wdw), |bitmaps|)
    ensures var a, ws := GeneratedAck(r, wdw, false, bitmaps).value, LossyFrom(bitmaps, 0, wdw);
      && !IsReceiverAbort(r, a) && !IsComplete(r, a)
      && (IsCompound(r, a) <==> Min(|ws|, WriterCapacity(r)) > 1 || true in bitmaps[ws[0]])
  {
    hide *;
    var ws, written := LossyFrom(bitmaps, 0, wdw), Written(r, bitmaps, 0, wdw, 0);
    LossyExact(bitmaps, 0, wdw);
    WrittenReportable(r, bitmaps, wdw);
    ReportParts(r, bitmaps, written);
    ReportReads(r, bitmaps, written);
    ReportPadding(r, bitmaps, written);
    ReportClasses(r, LossReport(r, bitmaps, written));
    MinParts(|ws|, WriterCapacity(r));
    GeneratedReport(r, bitmaps, wdw);
  }

  lemma MinParts(a: nat, b: nat)
    ensures Min(a, b) == if a < b then a else b
  {
  }

  lemma GeneratedReport(r: Rule, bitmaps: seq<BitString>, wdw: nat)
    requires wdw < |bitmaps|
    ensures Below(Written(r, bitmaps, 0, wdw, 0), |bitmaps|)
    ensures GeneratedAck(r, wdw, false, bitmaps) == Some(LossReport(r, bitmaps, Written(r, bitmaps, 0, wdw, 0)))
  {
    WrittenBounds(r, bitmaps, 0, wdw, 0);
    hide LossReport;
  }

  lemma ReportClasses(r: Rule, a: CompoundAck)
    requires a.Ack? && AckC(r, a) == [false]
    ensures !IsReceiverAbort(r, a) && !IsComplete(r, a)
    ensures IsCompound(r, a) <==> !Monochar(AckPadding(r, a), false)
  {
    hide AckC, AckPadding, AckW, Monochar;
  }

  /** What follows the header of a loss report has a '1' exactly when something of the first
      window has arrived or another one is reported. */
  lemma ReportPadding(r: Rule, bitmaps: seq<BitString>, ws: seq<nat>)
    requires r.WellFormed() && Reportable(r, bitmaps, ws)
    ensures !Monochar(AckPadding(r, LossReport(r, bitmaps, ws)), false) <==> |ws| > 1 || true in bitmaps[ws[0]]
  {
    hide *;
    ReportParts(r, bitmaps, ws);
    var a, body := LossReport(r, bitmaps, ws), Body(r, bitmaps, ws[1..]);
    ReportImage(r, bitmaps, ws);
    ReportSizes(r);
    if |ws| > 1 {
      BodyMarked(r, bitmaps, ws[1..]);
    } else {
      EmptyBody(r, bitmaps, ws);
    }
    assert AckToBits(a) == (RuleIdBits(r) + IntBits(ws[0], r.m) + [false])
      + (bitmaps[ws[0]] + body + Repeat(false, DOWNLINK_MTU_BITS - |FixedPart(r, bitmaps, ws[0]) + body|));
    PaddingIs(r, a);
    SomeOne(bitmaps[ws[0]], body, DOWNLINK_MTU_BITS - |FixedPart(r, bitmaps, ws[0]) + body|);
  }

  lemma ReportSizes(r: Rule)
    requires r.WellFormed()
    ensures r.WIdx() + r.m + 1 == r.AckHeaderLen() <= DOWNLINK_MTU_BITS && r.windowSize > 0
  {
  }

  lemma EmptyBody(r: Rule, bitmaps: seq<BitString>, ws: seq<nat>)
    requires |ws| == 1 && Below(ws[1..], |bitmaps|)
    ensures Body(r, bitmaps, ws[1..]) == []
  {
  }

  lemma SomeOne(first: BitString, body: BitString, zeros: nat)
    requires first != []
    ensures !Monochar(first + body + Repeat(false, zeros), false) <==> true in first || true in body
  {
    var all := first + body + Repeat(false, zeros);
    assert true in all <==> true in first || true in body;
    assert Monochar(all, false) <==> true !in all;
  }

  /** A window number other than 0 has a '1'. */
  lemma BodyMarked(r: Rule, bitmaps: seq<BitString>, ws: seq<nat>)
    requires 1 <= r.m <= 31 && ws != [] && Below(ws, |bitmaps|) && Readable(r, bitmaps, ws)
    ensures true in Body(r, bitmaps, ws)
  {
    ConstantImages(ws[0], r.m);
    hide IntBits;
    var w := IntBits(ws[0], r.m);
    assert true in w;
    assert Body(r, bitmaps, ws) == w + (bitmaps[ws[0]] + Body(r, bitmaps, ws[1..]));
  }

  lemma LastOneIs(b: BitString, k: nat)
    requires k < |b| && b[k] && forall i | k < i < |b| :: !b[i]
    ensures LastOne(b) == k
  {
  }

  lemma CompleteAckBits(r: Rule, wdw: nat)
    requires r.WellFormed()
    ensures AckToBits(CompleteAck(r, wdw))
         == RuleIdBits(r) + IntBits(wdw, r.m) + [true] + Repeat(false, DOWNLINK_MTU_BITS - r.AckHeaderLen()) + []
  {
    AckOfBits(RuleIdBits(r) + IntBits(wdw, r.m) + [true]);
  }

  lemma HeaderSizes(r: Rule)
    requires r.WellFormed()
    ensures |RuleIdBits(r)| == r.WIdx() && r.WIdx() + r.m == r.CIdx() && r.CIdx() + 1 == r.AckHeaderLen()
    ensures r.AckHeaderLen() + AbortPadding(r) <= DOWNLINK_MTU_BITS && AbortPadding(r) > 0
  {
    hide RuleIdBits;
  }

  lemma CompleteFields(r: Rule, wdw: nat)
    requires r.WellFormed()
    ensures var a := CompleteAck(r, wdw);
      && AckW(r, a) == IntBits(wdw, r.m) && AckC(r, a) == [true]
      && AckPadding(r, a) == Repeat(false, DOWNLINK_MTU_BITS - r.AckHeaderLen())
      && LastOne(AckToBits(a)) == r.CIdx()
  {
    hide *;
    var a, id, w, zeros := CompleteAck(r, wdw), RuleIdBits(r), IntBits(wdw, r.m), DOWNLINK_MTU_BITS - r.AckHeaderLen();
    HeaderSizes(r);
    CompleteAckBits(r, wdw);
    CompleteIsAck(r, wdw);
    HeaderFields(r, a, id, w, [true], Repeat(false, zeros), []);
    assert AckToBits(a) == (id + w) + [true] + Repeat(false, zeros);
    OneThenZeros(id + w, zeros);
    PaddingIs(r, a);
  }

  lemma CompleteIsAck(r: Rule, wdw: nat)
    ensures CompleteAck(r, wdw).Ack?
  {
    hide RuleIdBits;
  }

  lemma PaddingIs(r: Rule, a: CompoundAck)
    requires a.Ack? && r.AckHeaderLen() <= |AckToBits(a)| == DOWNLINK_MTU_BITS
    ensures AckPadding(r, a) == AckToBits(a)[r.AckHeaderLen()..]
  {
    hide AckToBits;
  }

  lemma OneThenZeros(start: BitString, zeros: nat)
    ensures var b := start + [true] + Repeat(false, zeros);
      LastOne(b) == |start| && b[|start| + 1..] == Repeat(false, zeros)
  {
    LastOneIs(start + [true] + Repeat(false, zeros), |start|);
  }

  /** A complete ACK is complete, reports the window it was generated for, and is neither
      a loss report nor a Receiver-Abort. */
  lemma CompleteAckClass(r: Rule, wdw: nat)
    requires r.WellFormed() && wdw < r.MaxWindowNb()
    ensures var a := CompleteAck(r, wdw);
      && IsComplete(r, a) && !IsReceiverAbort(r, a) && !IsCompound(r, a)
      && BinToInt(AckW(r, a)) == wdw
  {
    CompleteFields(r, wdw);
    SmallRoundTrip(wdw, r.m);
  }

  /** One '0', or one blank, in any window up to its own refuses a complete ACK. */
  lemma CompleteRefused(r: Rule, wdw: nat, bitmaps: seq<BitString>)
    requires wdw < |bitmaps|
    ensures GeneratedAck(r, wdw, true, bitmaps) == None
        <==> exists i | 0 <= i <= wdw :: bitmaps[i] == [] || false in bitmaps[i]
    ensures GeneratedAck(r, wdw, true, bitmaps).Some? ==>
      GeneratedAck(r, wdw, true, bitmaps) == Some(CompleteAck(r, wdw))
  {
    hide Monochar, CompleteAck;
    forall i | 0 <= i < |bitmaps|
      ensures !Monochar(bitmaps[i], true) <==> bitmaps[i] == [] || false in bitmaps[i]
    {
      NotMonochar(bitmaps[i]);
    }
  }

  lemma NotMonochar(b: BitString)
    ensures !Monochar(b, true) <==> b == [] || false in b
  {
  }

  lemma ReceiverAbortFields(r: Rule)
    requires r.WellFormed()
    ensures var a := ReceiverAbort(r);
      var b, from, size := AckToBits(a), r.AckHeaderLen(), AbortPadding(r);
      && AckW(r, a) == Repeat(true, r.m) && AckC(r, a) == [true]
      && from + size <= |b|
      && LastOne(b) + 1 == from + size
      && (forall i | from <= i < from + size :: b[i])
  {
    hide *;
    var a, id, w, p := ReceiverAbort(r), RuleIdBits(r), Repeat(true, r.m), AbortPadding(r);
    var zeros := DOWNLINK_MTU_BITS - r.AckHeaderLen() - p;
    HeaderSizes(r);
    ReceiverAbortImage(r);
    HeaderFields(r, a, id, w, [true], Repeat(true, p), Repeat(false, zeros));
    OnesThenZeros(id + w + [true], p, zeros);
  }

  lemma ReceiverAbortImage(r: Rule)
    requires r.WellFormed()
    ensures r.AckHeaderLen() + AbortPadding(r) <= DOWNLINK_MTU_BITS && ReceiverAbort(r).Ack?
    ensures AckToBits(ReceiverAbort(r))
         == RuleIdBits(r) + Repeat(true, r.m) + [true] + Repeat(true, AbortPadding(r))
            + Repeat(false, DOWNLINK_MTU_BITS - r.AckHeaderLen() - AbortPadding(r))
  {
    HeaderSizes(r);
    AckOfBits(RuleIdBits(r) + Repeat(true, r.m) + [true] + Repeat(true, AbortPadding(r)));
    hide RuleIdBits, AckToBits, BitsToBytes;
  }

  /** The last '1' of a run of them. */
  lemma OnesThenZeros(start: BitString, ones: nat, zeros: nat)
    requires ones > 0
    ensures var b := start + Repeat(true, ones) + Repeat(false, zeros);
      && LastOne(b) + 1 == |start| + ones
      && forall i | |start| <= i < |start| + ones :: b[i]
  {
    LastOneIs(start + Repeat(true, ones) + Repeat(false, zeros), |start| + ones - 1);
  }

  /** The decision of is_ack_receiver_abort once the last '1' is located. */
  lemma RecognisedAbort(r: Rule, a: CompoundAck, size: nat)
    requires a.Ack? && Monochar(AckW(r, a), true) && AckC(r, a) == [true]
    requires 8 <= size && r.AckHeaderLen() + size <= |AckToBits(a)|
    requires LastOne(AckToBits(a)) + 1 == r.AckHeaderLen() + size
    requires forall i | r.AckHeaderLen() <= i < r.AckHeaderLen() + size :: AckToBits(a)[i]
    requires size == 8 <==> r.AckHeaderLen() % 8 == 0
    requires (r.AckHeaderLen() + (size - 8)) % 8 == 0
    ensures IsReceiverAbort(r, a)
  {
    hide LastOne, AckToBits, AckW, AckC;
    var b, from, to := AckToBits(a), r.AckHeaderLen(), r.AckHeaderLen() + size;
    assert Monochar(b[to - 8..to], true);
    assert size > 8 ==> Monochar(b[from..to - 8], true);
  }

  /** Every generated Receiver-Abort is recognised, and is not taken for a complete ACK or
      a loss report. */
  lemma ReceiverAbortClass(r: Rule)
    requires r.WellFormed()
    ensures var a := ReceiverAbort(r);
      IsReceiverAbort(r, a) && !IsComplete(r, a) && !IsCompound(r, a)
  {
    ReceiverAbortFields(r);
    AbortPaddingAligned(r);
    assert Monochar(Repeat(true, r.m), true);
    RecognisedAbort(r, ReceiverAbort(r), AbortPadding(r));
    hide IsReceiverAbort;
  }

  lemma AbortPaddingAligned(r: Rule)
    ensures (r.AckHeaderLen() + AbortPadding(r)) % 8 == 0
    ensures AbortPadding(r) == 8 <==> r.AckHeaderLen() % 8 == 0
    ensures 8 <= AbortPadding(r) <= 15
    ensures (r.AckHeaderLen() + (AbortPadding(r) - 8)) % 8 == 0
  {
  }

  // ---------------------------------------------------------------- the rule of an ACK

  lemma RuleOfStart(r: Rule, start: BitString)
    requires Profile(r) && r.ruleIdSize <= |start| && start[..r.ruleIdSize] == RuleIdBits(r)
    ensures |AckToBits(AckOf(start))| == DOWNLINK_MTU_BITS
    ensures InitRule(AckToBits(AckOf(start))) == r <==> (r.ruleIdSize == 8 ==> r.id == 18)
  {
    hide RuleIdBits, InitRule, AckToBits, AckOf;
    AckOfBits(start);
    assert ToDownlink(start)[..r.ruleIdSize] == start[..r.ruleIdSize];
    RecoverLong(r, ToDownlink(start));
  }

  /** init_rule_from_ack on what generate_ack and generate_receiver_abort build: exact for
      single byte and option 1, and for option 2 only for the rule whose identifier ends in
      "11", because the conversion of 64 characters saturates. */
  lemma RuleOfAck(r: Rule, wdw: nat, c: bool, bitmaps: seq<BitString>)
    requires Profile(r) && wdw < |bitmaps|
    ensures var a := GeneratedAck(r, wdw, c, bitmaps);
      a.Some? ==> |AckToBits(a.value)| == DOWNLINK_MTU_BITS
                  && (InitRule(AckToBits(a.value)) == r <==> (r.ruleIdSize == 8 ==> r.id == 18))
    ensures |AckToBits(ReceiverAbort(r))| == DOWNLINK_MTU_BITS
    ensures InitRule(AckToBits(ReceiverAbort(r))) == r <==> (r.ruleIdSize == 8 ==> r.id == 18)
  {
    hide InitRule, AckToBits, AckOf, Body, IntBits, Written;
    RuleOfStart(r, RuleIdBits(r) + Repeat(true, r.m) + [true] + Repeat(true, AbortPadding(r)));
    if c {
      RuleOfStart(r, RuleIdBits(r) + IntBits(wdw, r.m) + [true]);
    } else {
      WrittenBounds(r, bitmaps, 0, wdw, 0);
      RuleOfStart(r, ReportStart(r, bitmaps, Written(r, bitmaps, 0, wdw, 0)));
    }
  }
}
