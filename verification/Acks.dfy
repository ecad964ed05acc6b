/**
  The Compound ACK codec: messages/ack.c.

  An ACK is always eight bytes: a header, the bitmap of a first window, then further
  (window, bitmap) tuples.
 */
module Acks {
  import opened Options
  import opened Bits
  import opened Rules

  datatype CompoundAck = NullAck | Ack(message: seq<Byte>)

  /** ack_to_bin; the null ACK is an all-zero message. */
  function AckToBits(a: CompoundAck): BitString {
    if a.NullAck? then Repeat(false, DOWNLINK_MTU_BITS) else BytesToBits(a.message)
  }

  function AckW(r: Rule, a: CompoundAck): BitString { Field(AckToBits(a), r.WIdx(), r.m) }
  function AckC(r: Rule, a: CompoundAck): BitString { Field(AckToBits(a), r.CIdx(), 1) }
  function AckBitmap(r: Rule, a: CompoundAck): BitString { Field(AckToBits(a), r.BitmapIdx(), r.windowSize) }
  function AckPadding(r: Rule, a: CompoundAck): BitString {
    Field(AckToBits(a), r.AckHeaderLen(), DOWNLINK_MTU_BITS)
  }

  // ---------------------------------------------------------------- classification

  /** strrchr(s, '1'), or -1. */
  function LastOne(b: BitString): (k: int)
    ensures -1 <= k < |b|
    ensures k >= 0 ==> b[k]
    ensures forall i | k < i < |b| :: !b[i]
  {
    if b == [] then -1
    else if b[|b| - 1] then |b| - 1
    else LastOne(b[..|b| - 1])
  }

  /** is_ack_receiver_abort. With fewer than eight bits between the header and the last
      '1' the source computes a negative size; the model answers no. */
  predicate IsReceiverAbort(r: Rule, a: CompoundAck) {
    if a.NullAck? then false
    else if !(Monochar(AckW(r, a), true) && AckC(r, a) == [true]) then false
    else
      var b := AckToBits(a);
      var from, to := r.AckHeaderLen(), LastOne(b) + 1;
      if to <= from || to - from < L2_WORD_SIZE then false
      else
        var start, end := b[from..to - L2_WORD_SIZE], b[to - L2_WORD_SIZE..to];
        if !Monochar(end, true) then false
        else if start != [] && from % L2_WORD_SIZE != 0 then
          Monochar(start, true) && (from + |start|) % L2_WORD_SIZE == 0
        else from % L2_WORD_SIZE == 0
  }

  predicate IsComplete(r: Rule, a: CompoundAck) {
    && !a.NullAck?
    && !IsReceiverAbort(r, a)
    && AckC(r, a) == [true]
    && Monochar(AckPadding(r, a), false)
  }

  predicate IsCompound(r: Rule, a: CompoundAck) {
    !a.NullAck? && !IsReceiverAbort(r, a) && !Monochar(AckPadding(r, a), false)
  }

  // ---------------------------------------------------------------- reading tuples

  datatype Tuple = Tuple(window: BitString, bitmap: BitString)

  /** The loop condition of get_ack_nb_tuples at position `p`. */
  predicate MoreAt(r: Rule, b: BitString, p: nat) {
    Field(b, p, r.m) != Repeat(false, r.m) && p < DOWNLINK_MTU_BITS - r.TupleIdx()
  }

  function ReadFrom(r: Rule, b: BitString, p: nat): seq<Tuple>
    requires r.TupleSize() > 0
    decreases DOWNLINK_MTU_BITS - p
  {
    if MoreAt(r, b, p) then
      [Tuple(Field(b, p, r.m), Field(b, p + r.m, r.windowSize))] + ReadFrom(r, b, p + r.TupleSize())
    else []
  }

  /** All the tuples of an ACK: the one in its fixed part, then the following ones. */
  function Tuples(r: Rule, a: CompoundAck): (ts: seq<Tuple>)
    requires r.TupleSize() > 0
    ensures |ts| >= 1
  {
    [Tuple(AckW(r, a), AckBitmap(r, a))] + ReadFrom(r, AckToBits(a), r.TupleIdx())
  }

  method GetAckNbTuples(r: Rule, a: CompoundAck) returns (nb: nat)
    requires r.TupleSize() > 0
    ensures nb == |Tuples(r, a)|
  {
    var asBin := AckToBits(a);
    var firstWindow := Repeat(false, r.m);
    var p := r.TupleIdx();
    nb := 1;
    var window := Field(asBin, p, r.m);
    hide Field;
    while window != firstWindow && p < DOWNLINK_MTU_BITS - r.TupleIdx()
      invariant window == Field(asBin, p, r.m)
      invariant nb + |ReadFrom(r, asBin, p)| == |Tuples(r, a)|
      decreases DOWNLINK_MTU_BITS - p
    {
      nb := nb + 1;
      p := p + r.TupleSize();
      window := Field(asBin, p, r.m);
    }
  }

  method GetAckTuples(r: Rule, a: CompoundAck, nb: nat, windows: array<BitString>, bitmaps: array<BitString>)
    requires r.TupleSize() > 0 && nb == |Tuples(r, a)|
    requires windows != bitmaps && windows.Length == nb && bitmaps.Length == nb
    modifies windows, bitmaps
    ensures forall i | 0 <= i < nb :: Tuple(windows[i], bitmaps[i]) == Tuples(r, a)[i]
  {
    hide Field, ReadFrom, AckToBits, MoreAt;
    var asBin := AckToBits(a);
    ghost var all := Tuples(r, a);
    windows[0] := AckW(r, a);
    bitmaps[0] := AckBitmap(r, a);
    var p := r.TupleIdx();
    for i := 1 to nb
      invariant p >= 0
      invariant forall k | 0 <= k < i :: Tuple(windows[k], bitmaps[k]) == all[k]
      invariant ReadFrom(r, asBin, p) == all[i..]
    {
      NextTuple(r, asBin, p, all, i);
      windows[i] := Field(asBin, p, r.m);
      bitmaps[i] := Field(asBin, p + r.m, r.windowSize);
      p := p + r.TupleSize();
    }
  }

  /** The two calls together, as both ends make them. */
  method ReadTuples(r: Rule, a: CompoundAck) returns (windows: array<BitString>, bitmaps: array<BitString>)
    requires r.TupleSize() > 0
    ensures fresh(windows) && fresh(bitmaps) && windows.Length == bitmaps.Length == |Tuples(r, a)|
    ensures forall i | 0 <= i < windows.Length :: Tuple(windows[i], bitmaps[i]) == Tuples(r, a)[i]
  {
    var nbTuples := GetAckNbTuples(r, a);
    windows := new BitString[nbTuples](_ => []);
    bitmaps := new BitString[nbTuples](_ => []);
    GetAckTuples(r, a, nbTuples, windows, bitmaps);
  }

  lemma NextTuple(r: Rule, b: BitString, p: nat, all: seq<Tuple>, i: nat)
    requires r.TupleSize() > 0 && i < |all| && ReadFrom(r, b, p) == all[i..]
    ensures all[i] == Tuple(Field(b, p, r.m), Field(b, p + r.m, r.windowSize))
    ensures ReadFrom(r, b, p + r.TupleSize()) == all[i + 1..]
  {
    var head := Tuple(Field(b, p, r.m), Field(b, p + r.m, r.windowSize));
    var tail := ReadFrom(r, b, p + r.TupleSize());
    assert all[i..] == [head] + tail;
    assert all[i + 1..] == all[i..][1..];
  }

  // ---------------------------------------------------------------- writing

  /** A window is reported when its bitmap is present and not all '1'. */
  predicate Lossy(bitmap: BitString) {
    bitmap != [] && !Monochar(bitmap, true)
  }

  /** The reported windows from `i` up to `wdw`. */
  function LossyFrom(bitmaps: seq<BitString>, i: nat, wdw: nat): (ws: seq<nat>)
    requires wdw < |bitmaps|
    decreases wdw + 1 - i
  {
    if i > wdw then []
    else if Lossy(bitmaps[i]) then [i] + LossyFrom(bitmaps, i + 1, wdw)
    else LossyFrom(bitmaps, i + 1, wdw)
  }

  /** curr_len after one more tuple. */
  function NextLen(r: Rule, len: nat): nat {
    if len == 0 then r.TupleIdx() else len + r.TupleSize()
  }

  /** The windows the loop of generate_ack writes from `i` on, having used `len` bits. */
  function Written(r: Rule, bitmaps: seq<BitString>, i: nat, wdw: nat, len: nat): seq<nat>
    requires wdw < |bitmaps|
    decreases wdw + 1 - i
  {
    if i > wdw || len + r.TupleSize() > DOWNLINK_MTU_BITS then []
    else if Lossy(bitmaps[i]) then [i] + Written(r, bitmaps, i + 1, wdw, NextLen(r, len))
    else Written(r, bitmaps, i + 1, wdw, len)
  }

  ghost predicate Below(ws: seq<nat>, n: nat) {
    forall k | 0 <= k < |ws| :: ws[k] < n
  }

  function TupleBits(r: Rule, bitmaps: seq<BitString>, w: nat): BitString
    requires w < |bitmaps|
  {
    IntBits(w, r.m) + bitmaps[w]
  }

  function Body(r: Rule, bitmaps: seq<BitString>, ws: seq<nat>): BitString
    requires Below(ws, |bitmaps|)
  {
    if ws == [] then [] else TupleBits(r, bitmaps, ws[0]) + Body(r, bitmaps, ws[1..])
  }

  /** The characters of a loss report on the windows `ws`, before the trailing '0's. */
  function ReportStart(r: Rule, bitmaps: seq<BitString>, ws: seq<nat>): BitString
    requires Below(ws, |bitmaps|)
  {
    if ws == [] then RuleIdBits(r)
    else RuleIdBits(r) + IntBits(ws[0], r.m) + [false] + bitmaps[ws[0]] + Body(r, bitmaps, ws[1..])
  }

  /** Right-pad with '0' (or cut) to the downlink size. */
  function ToDownlink(b: BitString): (d: BitString)
    ensures |d| == DOWNLINK_MTU_BITS
  {
    if |b| <= DOWNLINK_MTU_BITS then Padded(b, DOWNLINK_MTU_BITS) else b[..DOWNLINK_MTU_BITS]
  }

  function AckOf(b: BitString): CompoundAck {
    Ack(BitsToBytes(ToDownlink(b)))
  }

  function LossReport(r: Rule, bitmaps: seq<BitString>, ws: seq<nat>): CompoundAck
    requires Below(ws, |bitmaps|)
  {
    AckOf(ReportStart(r, bitmaps, ws))
  }

  function CompleteAck(r: Rule, wdw: nat): CompoundAck {
    AckOf(RuleIdBits(r) + IntBits(wdw, r.m) + [true])
  }

  function AbortPadding(r: Rule): nat {
    if r.AckHeaderLen() % L2_WORD_SIZE == 0 then L2_WORD_SIZE
    else 2 * L2_WORD_SIZE - r.AckHeaderLen() % L2_WORD_SIZE
  }

  function ReceiverAbort(r: Rule): CompoundAck {
    AckOf(RuleIdBits(r) + Repeat(true, r.m) + [true] + Repeat(true, AbortPadding(r)))
  }

  /** One bitmap per window number: empty, or one bit per fragment of the window. */
  ghost predicate BitmapTable(r: Rule, bitmaps: seq<BitString>) {
    && |bitmaps| == r.MaxWindowNb()
    && forall i | 0 <= i < |bitmaps| :: bitmaps[i] == [] || |bitmaps[i]| == r.windowSize
  }

  /** What generate_ack leaves in `dest`, or nothing when it returns -1. */
  function GeneratedAck(r: Rule, wdw: nat, c: bool, bitmaps: seq<BitString>): (a: Option<CompoundAck>)
    requires wdw < |bitmaps|
  {
    if c then
      if forall i | 0 <= i <= wdw :: Monochar(bitmaps[i], true) then Some(CompleteAck(r, wdw)) else None
    else
      WrittenBounds(r, bitmaps, 0, wdw, 0);
      Some(LossReport(r, bitmaps, Written(r, bitmaps, 0, wdw, 0)))
  }

  lemma {:induction false} WrittenBounds(r: Rule, bitmaps: seq<BitString>, i: nat, wdw: nat, len: nat)
    requires wdw < |bitmaps|
    ensures Below(Written(r, bitmaps, i, wdw, len), |bitmaps|)
    decreases wdw + 1 - i
  {
    if i <= wdw {
      WrittenBounds(r, bitmaps, i + 1, wdw, NextLen(r, len));
      WrittenBounds(r, bitmaps, i + 1, wdw, len);
    }
  }

  lemma {:induction false} BodyAppend(r: Rule, bitmaps: seq<BitString>, ws: seq<nat>, w: nat)
    requires Below(ws, |bitmaps|) && w < |bitmaps|
    ensures Body(r, bitmaps, ws + [w]) == Body(r, bitmaps, ws) + TupleBits(r, bitmaps, w)
  {
    if ws == [] {
      assert ws + [w] == [w];
    } else {
      BodyAppend(r, bitmaps, ws[1..], w);
      assert (ws + [w])[1..] == ws[1..] + [w];
    }
  }

  lemma ReportAppend(r: Rule, bitmaps: seq<BitString>, ws: seq<nat>, w: nat)
    requires ws != [] && Below(ws, |bitmaps|) && w < |bitmaps|
    ensures ReportStart(r, bitmaps, ws + [w]) == ReportStart(r, bitmaps, ws) + IntBits(w, r.m) + bitmaps[w]
  {
    BodyAppend(r, bitmaps, ws[1..], w);
    assert (ws + [w])[1..] == ws[1..] + [w];
    hide IntBits, RuleIdBits, Body;
  }

  /** generate_ack, the branch for C = '1': -1 unless every bitmap up to `wdw` is all '1'. */
  method WriteComplete(r: Rule, asBin: array<bool>, wdw: nat, bitmaps: seq<BitString>) returns (ok: bool)
    requires r.WellFormed() && wdw < |bitmaps|
    requires asBin.Length == DOWNLINK_MTU_BITS && asBin[..] == Padded(RuleIdBits(r), DOWNLINK_MTU_BITS)
    modifies asBin
    ensures ok <==> forall i | 0 <= i <= wdw :: Monochar(bitmaps[i], true)
    ensures ok ==> asBin[..] == ToDownlink(RuleIdBits(r) + IntBits(wdw, r.m) + [true])
  {
    asBin[r.CIdx()] := true;
    ghost var before := asBin[..];
    for i := 0 to wdw + 1
      invariant forall j | 0 <= j < i :: Monochar(bitmaps[j], true)
    {
      if !Monochar(bitmaps[i], true) {
        return false;
      }
    }
    var window := IntToBin(wdw, r.m);
    CopyInto(asBin, r.WIdx(), window);
    CopyInto(asBin, r.BitmapIdx(), Repeat(false, r.windowSize));
    CompleteImage(RuleIdBits(r), window, r.windowSize, before);
    return true;
  }

  /** The first tuple goes around the C bit, which stays '0'. */
  method WriteFirstTuple(r: Rule, asBin: array<bool>, w: nat, bitmaps: seq<BitString>)
    requires r.WellFormed() && w < |bitmaps| && |bitmaps[w]| == r.windowSize
    requires asBin.Length == DOWNLINK_MTU_BITS && asBin[..] == Padded(RuleIdBits(r), DOWNLINK_MTU_BITS)
    modifies asBin
    ensures asBin[..] == ToDownlink(ReportStart(r, bitmaps, [w]))
    ensures |ReportStart(r, bitmaps, [w])| == r.TupleIdx()
  {
    var ruleId := RuleIdBits(r);
    var window := IntToBin(w, r.m);
    AppendField(asBin, r.WIdx(), window, ruleId);
    PaddedSnoc(ruleId + window, DOWNLINK_MTU_BITS);
    AppendField(asBin, r.BitmapIdx(), bitmaps[w], ruleId + window + [false]);
    assert Body(r, bitmaps, [w][1..]) == [];
    assert ReportStart(r, bitmaps, [w]) == ruleId + window + [false] + bitmaps[w];
  }

  /** Further tuples follow the first one. */
  method WriteNextTuple(r: Rule, asBin: array<bool>, at: nat, w: nat, bitmaps: seq<BitString>, ghost done: seq<nat>)
    requires r.WellFormed() && w < |bitmaps| && |bitmaps[w]| == r.windowSize
    requires done != [] && Below(done, |bitmaps|)
    requires at == |ReportStart(r, bitmaps, done)| && at + r.TupleSize() <= DOWNLINK_MTU_BITS
    requires asBin.Length == DOWNLINK_MTU_BITS && asBin[..] == ToDownlink(ReportStart(r, bitmaps, done))
    modifies asBin
    ensures asBin[..] == ToDownlink(ReportStart(r, bitmaps, done + [w]))
    ensures |ReportStart(r, bitmaps, done + [w])| == at + r.TupleSize()
  {
    var window := IntToBin(w, r.m);
    ReportAppend(r, bitmaps, done, w);
    AppendField(asBin, at, window, ReportStart(r, bitmaps, done));
    AppendField(asBin, at + r.m, bitmaps[w], ReportStart(r, bitmaps, done) + window);
  }

  /** Where the `nb`-th tuple ends. */
  function TuplesLen(r: Rule, nb: nat): int {
    if nb == 0 then 0 else r.TupleIdx() + (nb - 1) * r.TupleSize()
  }

  lemma TuplesLenStep(r: Rule, nb: nat)
    ensures TuplesLen(r, 0) == 0 && TuplesLen(r, 1) == r.TupleIdx()
    ensures nb > 0 ==> TuplesLen(r, nb + 1) == TuplesLen(r, nb) + r.TupleSize()
    ensures nb > 0 ==> TuplesLen(r, nb) >= r.TupleIdx() > 0
  {
    assert nb > 0 ==> nb * r.TupleSize() == (nb - 1) * r.TupleSize() + r.TupleSize();
  }

  /** The buffer holds the report on the windows `done`, whose tuples use `len` bits. */
  ghost predicate Reporting(r: Rule, bitmaps: seq<BitString>, done: seq<nat>, nb: nat, len: nat, image: BitString) {
    && |done| == nb && Below(done, |bitmaps|)
    && image == ToDownlink(ReportStart(r, bitmaps, done))
    && len == TuplesLen(r, nb)
    && (nb > 0 ==> len == |ReportStart(r, bitmaps, done)|)
  }

  lemma NothingYet(r: Rule, bitmaps: seq<BitString>, done: seq<nat>, len: nat, image: BitString)
    requires r.WellFormed() && Reporting(r, bitmaps, done, 0, len, image)
    ensures done == [] && image == Padded(RuleIdBits(r), DOWNLINK_MTU_BITS)
  {
  }

  method WriteTuple(r: Rule, asBin: array<bool>, nb: nat, len: nat, w: nat, bitmaps: seq<BitString>,
                    ghost done: seq<nat>)
    returns (newLen: nat)
    requires r.WellFormed() && w < |bitmaps| && |bitmaps[w]| == r.windowSize
    requires asBin.Length == DOWNLINK_MTU_BITS && len + r.TupleSize() <= DOWNLINK_MTU_BITS
    requires Reporting(r, bitmaps, done, nb, len, asBin[..])
    modifies asBin
    ensures newLen == NextLen(r, len)
    ensures Reporting(r, bitmaps, done + [w], nb + 1, newLen, asBin[..])
  {
    hide ReportStart, ToDownlink, Padded, TuplesLen;
    TuplesLenStep(r, nb);
    if nb == 0 {
      NothingYet(r, bitmaps, done, len, asBin[..]);
      WriteFirstTuple(r, asBin, w, bitmaps);
      assert done + [w] == [w];
      newLen := r.TupleIdx();
    } else {
      var tupleIdx := TuplesLen(r, nb);
      WriteNextTuple(r, asBin, tupleIdx, w, bitmaps, done);
      newLen := len + r.TupleSize();
    }
  }

  /** generate_ack, the branch for C = '0': as many lossy windows as fit, in order. */
  method WriteTuples(r: Rule, asBin: array<bool>, wdw: nat, bitmaps: seq<BitString>)
    requires r.WellFormed() && BitmapTable(r, bitmaps) && wdw < |bitmaps|
    requires asBin.Length == DOWNLINK_MTU_BITS && asBin[..] == Padded(RuleIdBits(r), DOWNLINK_MTU_BITS)
    modifies asBin
    ensures Below(Written(r, bitmaps, 0, wdw, 0), |bitmaps|)
    ensures asBin[..] == ToDownlink(ReportStart(r, bitmaps, Written(r, bitmaps, 0, wdw, 0)))
  {
    var tupleNb, currLen, i := 0, 0, 0;
    ghost var done: seq<nat> := [];
    NothingReportedYet(r, bitmaps, asBin[..]);
    assert [] + Written(r, bitmaps, 0, wdw, 0) == Written(r, bitmaps, 0, wdw, 0);
    hide *;
    while i <= wdw && currLen + r.TupleSize() <= DOWNLINK_MTU_BITS
      invariant 0 <= i <= wdw + 1 && currLen >= 0 && tupleNb >= 0
      invariant Reporting(r, bitmaps, done, tupleNb, currLen, asBin[..])
      invariant done + Written(r, bitmaps, i, wdw, currLen) == Written(r, bitmaps, 0, wdw, 0)
      decreases wdw + 1 - i
    {
      WrittenSkips(r, bitmaps, i, wdw, currLen);
      if bitmaps[i] != [] && !Monochar(bitmaps[i], true) {
        WrittenLossy(r, bitmaps, i, wdw, currLen, done);
        currLen := WriteTuple(r, asBin, tupleNb, currLen, i, bitmaps, done);
        done := done + [i];
        tupleNb := tupleNb + 1;
      }
      i := i + 1;
    }
    WrittenOver(r, bitmaps, i, wdw, currLen);
    assert done + [] == done;
    ReportingFits(r, bitmaps, done, tupleNb, currLen, asBin[..]);
  }

  lemma NothingReportedYet(r: Rule, bitmaps: seq<BitString>, buf: BitString)
    requires r.WellFormed() && buf == Padded(RuleIdBits(r), DOWNLINK_MTU_BITS)
    ensures Reporting(r, bitmaps, [], 0, 0, buf)
  {
    hide RuleIdBits;
  }

  lemma WrittenSkips(r: Rule, bitmaps: seq<BitString>, i: nat, wdw: nat, len: nat)
    requires i <= wdw < |bitmaps| && len + r.TupleSize() <= DOWNLINK_MTU_BITS
    ensures !Lossy(bitmaps[i]) ==> Written(r, bitmaps, i, wdw, len) == Written(r, bitmaps, i + 1, wdw, len)
    ensures Lossy(bitmaps[i]) <==> bitmaps[i] != [] && !Monochar(bitmaps[i], true)
  {
  }

  lemma WrittenOver(r: Rule, bitmaps: seq<BitString>, i: nat, wdw: nat, len: nat)
    requires wdw < |bitmaps| && (i > wdw || len + r.TupleSize() > DOWNLINK_MTU_BITS)
    ensures Written(r, bitmaps, i, wdw, len) == []
  {
  }

  lemma ReportingFits(r: Rule, bitmaps: seq<BitString>, done: seq<nat>, nb: nat, len: nat, buf: BitString)
    requires Reporting(r, bitmaps, done, nb, len, buf)
    ensures Below(done, |bitmaps|) && buf == ToDownlink(ReportStart(r, bitmaps, done))
  {
    hide ReportStart;
  }

  lemma WrittenLossy(r: Rule, bitmaps: seq<BitString>, i: nat, wdw: nat, len: nat, done: seq<nat>)
    requires i <= wdw < |bitmaps| && Lossy(bitmaps[i]) && len + r.TupleSize() <= DOWNLINK_MTU_BITS
    ensures done + Written(r, bitmaps, i, wdw, len)
         == (done + [i]) + Written(r, bitmaps, i + 1, wdw, NextLen(r, len))
  {
  }

  /** generate_ack. */
  method GenerateAck(r: Rule, wdw: nat, c: bool, bitmaps: seq<BitString>) returns (dest: Option<CompoundAck>)
    requires r.WellFormed() && BitmapTable(r, bitmaps) && wdw < |bitmaps|
    ensures dest == GeneratedAck(r, wdw, c, bitmaps)
  {
    var ruleId := GetRuleIdBin(r);
    var asBin := new bool[DOWNLINK_MTU_BITS](_ => false);
    assert asBin[..] == Padded([], DOWNLINK_MTU_BITS);
    AppendField(asBin, 0, ruleId, []);
    assert [] + ruleId == ruleId;
    if c {
      var ok := WriteComplete(r, asBin, wdw, bitmaps);
      if !ok {
        return None;
      }
    } else {
      WriteTuples(r, asBin, wdw, bitmaps);
    }
    var asBytes := BinToBytes(asBin[..]);
    return Some(Ack(asBytes[..]));
  }

  /** A '0' after what is written is already in the padding. */
  lemma PaddedSnoc(done: BitString, len: nat)
    requires |done| < len
    ensures Padded(done, len) == Padded(done + [false], len)
  {
  }

  /** The complete ACK is written out of order: the C bit first, then the window. */
  lemma CompleteImage(id: BitString, window: BitString, blank: nat, before: BitString)
    requires |id| + |window| + 1 + blank <= DOWNLINK_MTU_BITS
    requires before == Padded(id, DOWNLINK_MTU_BITS)[|id| + |window| := true]
    ensures Splice(Splice(before, |id|, window), |id| + |window| + 1, Repeat(false, blank))
         == ToDownlink(id + window + [true])
  {
  }

  /** generate_receiver_abort. */
  method GenerateReceiverAbort(r: Rule) returns (dest: CompoundAck)
    requires r.WellFormed()
    ensures dest == ReceiverAbort(r)
  {
    AbortSizes(r);
    var headerRemainder := r.AckHeaderLen() % L2_WORD_SIZE;
    var paddingSize := if headerRemainder == 0 then L2_WORD_SIZE else 2 * L2_WORD_SIZE - headerRemainder;
    assert paddingSize == AbortPadding(r);
    hide *;
    var ruleId := GetRuleIdBin(r);
    var raBin := new bool[DOWNLINK_MTU_BITS](_ => false);
    NothingPadded(raBin[..]);
    AppendField(raBin, 0, ruleId, []);
    assert [] + ruleId == ruleId;
    AppendField(raBin, r.WIdx(), Repeat(true, r.m), ruleId);
    AppendField(raBin, r.CIdx(), [true], ruleId + Repeat(true, r.m));
    AppendField(raBin, r.AckHeaderLen(), Repeat(true, paddingSize), ruleId + Repeat(true, r.m) + [true]);
    ReceiverAbortIs(r, raBin[..]);
    var bytes := BinToBytes(raBin[..]);
    return Ack(bytes[..]);
  }

  lemma ReceiverAbortIs(r: Rule, b: BitString)
    requires |RuleIdBits(r)| + r.m + 1 + AbortPadding(r) <= DOWNLINK_MTU_BITS
    requires b == Padded(RuleIdBits(r) + Repeat(true, r.m) + [true] + Repeat(true, AbortPadding(r)), DOWNLINK_MTU_BITS)
    ensures |b| % 8 == 0 && ReceiverAbort(r) == Ack(BitsToBytes(b))
  {
    hide RuleIdBits, AbortPadding, BitsToBytes, Padded;
  }

  lemma AbortSizes(r: Rule)
    requires r.WellFormed()
    ensures r.ruleIdSize <= INT_BITS && |RuleIdBits(r)| == r.WIdx() && r.WIdx() + r.m == r.CIdx()
    ensures r.CIdx() + 1 == r.AckHeaderLen() && r.AckHeaderLen() + AbortPadding(r) <= DOWNLINK_MTU_BITS
  {
    hide RuleIdBits;
  }

  lemma NothingPadded(b: BitString)
    requires forall i | 0 <= i < |b| :: !b[i]
    ensures b == Padded([], |b|)
  {
  }
}
