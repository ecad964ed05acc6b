/**
  Which generated ACKs reach the sender: the socket takes eight zero bytes for no answer.
 */
module Delivery {
  import opened Bits
  import opened Rules
  import opened Fragments
  import opened Acks
  import opened AckProofs
  import opened SenderModel
  import SenderInvariant
  import opened SessionModel
  import SessionProofs
  import opened Repair

  lemma {:induction false} ZeroBytes(k: nat)
    ensures BytesToBits(seq(k, _ => 0)) == Repeat(false, 8 * k)
    decreases k
  {
    if k > 0 {
      var rest: seq<Byte> := seq(k - 1, _ => 0);
      ZeroBytes(k - 1);
      assert seq(k, _ => 0) == [0] + rest;
      BytesToBitsCons(0, rest);
      ConstantImages(0, 8);
      assert Repeat(false, 8 * k) == Repeat(false, 8) + Repeat(false, 8 * (k - 1));
    }
  }

  lemma EmptyBufferBits(m: seq<Byte>)
    requires |m| == DOWNLINK_MTU_BYTES
    ensures m == EMPTY_BUFFER <==> BytesToBits(m) == Repeat(false, DOWNLINK_MTU_BITS)
  {
    ZeroBytes(8);
    assert EMPTY_BUFFER == seq(8, _ => 0);
    BytesRoundTrip(m);
    BytesRoundTrip(EMPTY_BUFFER);
  }

  /** The datagram that carries a complete ACK for window `last`. */
  function Completion(r: Rule, last: nat): Event {
    Datagram(CompleteAck(r, last).message)
  }

  lemma CompleteAckShape(r: Rule, last: nat)
    ensures CompleteAck(r, last).Ack? && |CompleteAck(r, last).message| == DOWNLINK_MTU_BYTES
  {
    hide RuleIdBits;
  }

  lemma CompletionSeen(r: Rule, last: nat)
    requires r.WellFormed()
    ensures var e := Completion(r, last);
      Delivers(e) && SenderInvariant.AckOfEvent(e) == CompleteAck(r, last) && |e.message| == DOWNLINK_MTU_BYTES
  {
    hide CompleteAck, LastOne, EMPTY_BUFFER, RuleIdBits, BytesToBits, IntBits, AckPadding, AckW;
    var a := CompleteAck(r, last);
    CompleteFields(r, last);
    CompleteAckShape(r, last);
    NotEmpty(r, a);
    assert a.message[..DOWNLINK_MTU_BYTES] == a.message;
  }

  lemma NotEmpty(r: Rule, a: CompoundAck)
    requires a.Ack? && |a.message| == DOWNLINK_MTU_BYTES && AckC(r, a) == [true]
    ensures a.message != EMPTY_BUFFER
  {
    EmptyBufferBits(a.message);
    hide BytesToBits, EMPTY_BUFFER;
    assert AckC(r, a)[0];
  }

  // ---------------------------------------------------------------- Receiver-Abort

  function ReceiverAbortEvent(r: Rule): Event {
    Datagram(ReceiverAbort(r).message)
  }

  /** A generated Receiver-Abort reaches the sender as it is. */
  lemma ReceiverAbortSeen(r: Rule)
    requires r.WellFormed()
    ensures var e := ReceiverAbortEvent(r); Delivers(e) && SenderInvariant.AckOfEvent(e) == ReceiverAbort(r)
  {
    ReceiverAbortFields(r);
    ReceiverAbortShape(r);
    hide ReceiverAbort, LastOne, EMPTY_BUFFER, RuleIdBits, BytesToBits, AckPadding, AckW, AckToBits, Pow2;
    var a := ReceiverAbort(r);
    NotEmpty(r, a);
    assert a.message[..DOWNLINK_MTU_BYTES] == a.message;
  }

  lemma ReceiverAbortShape(r: Rule)
    ensures ReceiverAbort(r).Ack? && |ReceiverAbort(r).message| == DOWNLINK_MTU_BYTES
  {
    hide RuleIdBits;
  }

  // ---------------------------------------------------------------- loss reports

  /** The loss report reaches the sender: its eight bytes are not all zero. */
  predicate Visible(r: Rule, b: BitString, f: Fragment)
    requires |b| == r.MaxFragmentNb() && Trigger(r, f)
  {
    var a := SessionAck(r, b, f);
    a.Some? && a.value.Ack? && a.value.message != EMPTY_BUFFER
  }

  /** The windows the loss report carries. */
  function Reported(r: Rule, b: BitString, f: Fragment): seq<nat>
    requires r.TupleSize() > 0 && |b| == r.MaxFragmentNb() && Trigger(r, f)
  {
    var ws := Incomplete(r, b, f);
    ws[..Min(|ws|, WriterCapacity(r))]
  }

  lemma ZeroConcat(a: BitString, b: BitString)
    ensures a + b == Repeat(false, |a| + |b|) <==> a == Repeat(false, |a|) && b == Repeat(false, |b|)
  {
    var z := Repeat(false, |a| + |b|);
    if a + b == z {
      assert forall i | 0 <= i < |a| :: a[i] == (a + b)[i];
      assert forall i | 0 <= i < |b| :: b[i] == (a + b)[|a| + i];
      assert a == Repeat(false, |a|) && b == Repeat(false, |b|);
    }
    assert Repeat(false, |a|) + Repeat(false, |b|) == z;
  }

  lemma ZeroBody(r: Rule, t: seq<BitString>, ws: seq<nat>)
    requires Below(ws, |t|) && Readable(r, t, ws) && 1 <= r.m <= 31
    ensures Body(r, t, ws) == Repeat(false, |Body(r, t, ws)|) <==> ws == []
  {
    if ws != [] {
      ConstantImages(ws[0], r.m);
      ZeroConcat(IntBits(ws[0], r.m), t[ws[0]]);
      ZeroConcat(TupleBits(r, t, ws[0]), Body(r, t, ws[1..]));
    }
  }

  lemma ZeroReport(r: Rule, t: seq<BitString>, ws: seq<nat>)
    requires r.WellFormed() && Reportable(r, t, ws) && ws[0] < Pow2(r.m)
    ensures AckToBits(LossReport(r, t, ws)) == Repeat(false, DOWNLINK_MTU_BITS) <==>
      && RuleIdBits(r) == Repeat(false, r.ruleIdSize)
      && |ws| == 1 && ws[0] == 0 && t[0] == Repeat(false, r.windowSize)
  {
    hide *;
    ReportParts(r, t, ws);
    ReportImage(r, t, ws);
    var fixed, body := FixedPart(r, t, ws[0]), Body(r, t, ws[1..]);
    var z := Repeat(false, DOWNLINK_MTU_BITS - |fixed + body|);
    ZeroBody(r, t, ws[1..]);
    ZeroFixed(r, t, ws[0]);
    NothingElse(r, t, ws[1..]);
    ZeroConcat(fixed + body, z);
    ZeroConcat(fixed, body);
  }

  lemma NothingElse(r: Rule, t: seq<BitString>, ws: seq<nat>)
    requires Below(ws, |t|)
    ensures ws == [] ==> Body(r, t, ws) == []
  {
  }

  lemma ZeroFixed(r: Rule, t: seq<BitString>, w: nat)
    requires w < |t| && w < Pow2(r.m) && 1 <= r.m <= 31
    ensures FixedPart(r, t, w) == Repeat(false, |FixedPart(r, t, w)|) <==>
      && RuleIdBits(r) == Repeat(false, |RuleIdBits(r)|)
      && w == 0 && t[w] == Repeat(false, |t[w]|)
  {
    hide RuleIdBits, IntBits;
    ConstantImages(w, r.m);
    ZeroFour(RuleIdBits(r), IntBits(w, r.m), t[w]);
  }

  lemma ZeroFour(id: BitString, w: BitString, bm: BitString)
    ensures var all := id + w + [false] + bm;
      all == Repeat(false, |all|) <==>
        id == Repeat(false, |id|) && w == Repeat(false, |w|) && bm == Repeat(false, |bm|)
  {
    ZeroConcat(id + w + [false], bm);
    ZeroConcat(id + w, [false]);
    ZeroConcat(id, w);
    assert [false] == Repeat(false, 1);
  }

  /** A loss report fails to reach the sender in exactly one situation: the identifier is
      all '0', only window 0 is reported, and nothing of window 0 has arrived. The report is
      then eight zero bytes, which the socket layer takes for no answer at all. */
  lemma VisibleExactly(r: Rule, b: BitString, f: Fragment)
    requires r.WellFormed() && |b| == r.MaxFragmentNb() && Trigger(r, f) && Incomplete(r, b, f) != []
    ensures Visible(r, b, f) <==>
      !(&& RuleIdBits(r) == Repeat(false, r.ruleIdSize)
        && Reported(r, b, f) == [0]
        && WindowBits(r, b, 0) == Repeat(false, r.windowSize))
  {
    var t, ws := LossTable(r, b, f), Reported(r, b, f);
    SessionTuples(r, b, f);
    SeenExact(r, b, f);
    IncompleteExact(r, b, f);
    SessionProofs.TableExact(r, b, f);
    WrittenReportable(r, t, Window(r, f));
    assert ws == Written(r, t, 0, Window(r, f), 0);
    assert ws[0] == Incomplete(r, b, f)[0] && ws[0] in Incomplete(r, b, f);
    assert t[ws[0]] == WindowBits(r, b, ws[0]);
    hide WindowLost, WindowBits, Trigger, LossTable, Incomplete, Reportable, SeenWindows, Written, Monochar, TuplesAre,
         Tuples, AnyLost, Window, Lossy;
    ZeroReport(r, t, ws);
    EmptyBufferBits(LossReport(r, t, ws).message);
  }
}
