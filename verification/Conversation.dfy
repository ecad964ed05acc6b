/**
  The two ends together: one check of the receiver's session and what the sender makes of it.
 */
module Conversation {
  import opened Options
  import opened Bits
  import opened Rules
  import opened Fragments
  import opened FrProcedure
  import opened Acks
  import opened AckProofs
  import opened SenderModel
  import opened SenderQueues
  import opened SenderInvariant
  import opened SenderRuns
  import opened SenderTrace
  import opened SessionModel
  import opened SessionProofs
  import opened Delivery
  import opened Repair
  import opened Progress

  // ---------------------------------------------------------------- a report is heard

  /** The sender is about to transmit a fragment that makes a session with bitmap `b` find
      something missing, an All-0 or the All-1. */
  ghost predicate Checked(r: Rule, orig: seq<Fragment>, s: Sender, k: nat, b: BitString) {
    && Faithful(r, orig) && r.WellFormed() && Inv(r, orig, s, k) && Active(s) && Ready(s) && !s.rt
    && 0 < |orig| <= |b| && |b| == r.MaxFragmentNb() && InRange(s, Head(s))
    && Concerns(r, Deref(s, Head(s)), |orig|) && Trigger(r, Deref(s, Head(s)))
    && Incomplete(r, b, Deref(s, Head(s))) != []
  }

  /** The event carries the session's report. */
  ghost predicate ReportArrives(r: Rule, b: BitString, f: Fragment, e: Event)
    requires |b| == r.MaxFragmentNb() && Trigger(r, f)
  {
    var a := SessionAck(r, b, f);
    a.Some? && a.value.Ack? && e.Datagram? && e.message == a.value.message
  }

  lemma ReportShape(r: Rule, b: BitString, f: Fragment)
    requires r.WellFormed() && |b| == r.MaxFragmentNb() && Trigger(r, f) && Incomplete(r, b, f) != []
    ensures var a := SessionAck(r, b, f);
      && a.Some? && a.value.Ack? && |a.value.message| == DOWNLINK_MTU_BYTES
      && !IsReceiverAbort(r, a.value) && !IsComplete(r, a.value)
  {
    hide *;
    SessionTuples(r, b, f);
    SessionReportClass(r, b, f);
  }

  /** A session's report is a loss report, neither complete nor a Receiver-Abort. */
  lemma SessionReportClass(r: Rule, b: BitString, f: Fragment)
    requires r.WellFormed() && |b| == r.MaxFragmentNb() && Trigger(r, f)
    requires Incomplete(r, b, f) != [] && SessionAck(r, b, f).Some?
    ensures !IsReceiverAbort(r, SessionAck(r, b, f).value) && !IsComplete(r, SessionAck(r, b, f).value)
  {
    TableExact(r, b, f);
    SeenExact(r, b, f);
    LossReportClass(r, LossTable(r, b, f), Window(r, f));
    hide IsReceiverAbort, IsComplete, LossTable, Trigger, SeenWindows, WindowLost, GeneratedAck;
  }

  /** A visible report is delivered as it is. */
  lemma ReportDelivered(r: Rule, b: BitString, f: Fragment, e: Event)
    requires |b| == r.MaxFragmentNb() && Trigger(r, f) && Visible(r, b, f) && ReportArrives(r, b, f, e)
    requires |SessionAck(r, b, f).value.message| == DOWNLINK_MTU_BYTES
    ensures Delivers(e) && AckOfEvent(e) == SessionAck(r, b, f).value
  {
    hide SessionAck, EMPTY_BUFFER, Trigger;
    assert e.message[..DOWNLINK_MTU_BYTES] == e.message;
  }

  /** The state in which an ACK to the fragment at the head is heard. */
  lemma HeardIs(r: Rule, s: Sender, e: Event)
    requires Ready(s) && Answered(r, s, e)
    ensures Heard(r, s, e) == s.(tq := s.tq[1..], attempts := 0,
      log := s.log + [Sent(Head(s), Deref(s, Head(s)), false, Some(AckOfEvent(e)))])
  {
    hide IsAll1, ExpectsAck, Delivers, Buffer;
  }

  lemma CheckedParts(r: Rule, orig: seq<Fragment>, s: Sender, k: nat, b: BitString)
    requires Checked(r, orig, s, k, b)
    ensures Faithful(r, orig) && r.WellFormed() && Inv(r, orig, s, k) && Active(s) && Ready(s) && !s.rt
    ensures 0 < |orig| <= |b| && |b| == r.MaxFragmentNb() && InRange(s, Head(s)) && |s.frs| == |orig|
    ensures s.rq == [] && s.frs != [] && Grounded(r, s) && k <= |orig| && 0 < r.windowSize
    ensures s.lastWindow == (|orig| - 1) / r.windowSize
    ensures var f := Deref(s, Head(s));
      && Concerns(r, f, |orig|) && Trigger(r, f) && Incomplete(r, b, f) != [] && ExpectsAck(r, f)
      && Window(r, f) <= s.lastWindow
  {
    hide Faithful, Incomplete, ExpectsAck, Window, FragmentsOk, TransmissionOk;
    FrsLength(r, orig, s, k);
  }

  lemma FrsLength(r: Rule, orig: seq<Fragment>, s: Sender, k: nat)
    requires Inv(r, orig, s, k)
    ensures |s.frs| == |orig| > 0 && k <= |orig|
  {
  }

  lemma HeardAsks(r: Rule, orig: seq<Fragment>, s: Sender, k: nat, b: BitString, e: Event)
    requires Checked(r, orig, s, k, b) && Ready(s) && InRange(s, Head(s))
    ensures InRange(Heard(r, s, e), Head(s)) && Asking(r, Heard(r, s, e), Head(s), b, Deref(s, Head(s)))
  {
    hide Checked, Heard, Grounded, Concerns, Trigger, Window, Incomplete, ExpectsAck, Inv, Faithful;
    CheckedParts(r, orig, s, k, b);
    HeardSame(r, s, e);
  }

  /** A queue with the elements of an exact repair in their order is that repair. */
  lemma RepairUnique(r: Rule, n: nat, b: BitString, seen: seq<nat>, p: seq<Ref>, q: seq<Ref>)
    requires 0 < r.windowSize && n <= |b| && RepairQueue(r, n, b, seen, p) && RepairQueue(r, n, b, seen, q)
    ensures p == q
  {
    QueueIndices(r, n, b, seen, p);
    QueueIndices(r, n, b, seen, q);
    SameMembers(r, n, b, seen, p, q);
    assert Increasing(Idxs(p)) && Increasing(Idxs(q));
    hide RepairQueue;
    IncreasingUnique(Idxs(p), Idxs(q));
    assert |p| == |q|;
    forall k | 0 <= k < |p|
      ensures p[k] == q[k]
    {
      assert Idxs(p)[k] == Idxs(q)[k];
    }
  }

  lemma SameMembers(r: Rule, n: nat, b: BitString, seen: seq<nat>, p: seq<Ref>, q: seq<Ref>)
    requires 0 < r.windowSize && n <= |b| && RepairQueue(r, n, b, seen, p) && RepairQueue(r, n, b, seen, q)
    ensures forall i: nat :: Frg(i) in p <==> Frg(i) in q
  {
  }

  // ---------------------------------------------------------------- the sender after a report

  /** The retransmission queue the report leads to. */
  ghost function WantedBy(r: Rule, orig: seq<Fragment>, s: Sender, k: nat, b: BitString): seq<Ref>
    requires Checked(r, orig, s, k, b)
  {
    AskedFor(r, |orig|, b, Deref(s, Head(s)))
  }

  /** The sender gives up on the report it hears in this state. */
  ghost predicate GivesUpThere(r: Rule, orig: seq<Fragment>, s: Sender, k: nat, b: BitString)
    requires Checked(r, orig, s, k, b)
  {
    var seen := SeenWindows(r, b, Deref(s, Head(s)));
    seen != [] && seen[|seen| - 1] < r.MaxWindowNb() && GivesUpSeeing(r, |orig|, b, seen)
  }

  /** The fragment goes out and the report comes back. */
  ghost function AskedBy(r: Rule, orig: seq<Fragment>, s: Sender, k: nat, b: BitString): Sent
    requires Checked(r, orig, s, k, b)
  {
    var f := Deref(s, Head(s));
    ReportShape(r, b, f);
    Sent(Head(s), f, false, Some(SessionAck(r, b, f).value))
  }

  /** What goes to the end of the transmission queue: the All-1 again, or a Sender-Abort. */
  ghost function PutBack(r: Rule, orig: seq<Fragment>, s: Sender, k: nat, b: BitString): seq<Ref>
    requires Checked(r, orig, s, k, b)
  {
    if GivesUpThere(r, orig, s, k, b) then [AbortSlot]
    else if IsAll1(r, Deref(s, Head(s))) then [Head(s)]
    else []
  }

  ghost function AfterReport(r: Rule, orig: seq<Fragment>, s: Sender, k: nat, b: BitString): Sender
    requires Checked(r, orig, s, k, b)
  {
    var q := WantedBy(r, orig, s, k, b);
    s.(tq := s.tq[1..] + PutBack(r, orig, s, k, b), rq := q, rt := q != [], attempts := 0,
       senderAbort := if GivesUpThere(r, orig, s, k, b) then SenderAbort(r) else s.senderAbort,
       log := s.log + [AskedBy(r, orig, s, k, b)])
  }

  lemma WantedExact(r: Rule, orig: seq<Fragment>, s: Sender, k: nat, b: BitString)
    requires Checked(r, orig, s, k, b) && 0 < r.windowSize && |orig| <= |b|
    requires r.TupleSize() > 0 && |b| == r.MaxFragmentNb() && Trigger(r, Deref(s, Head(s)))
    ensures RepairQueue(r, |orig|, b, SeenWindows(r, b, Deref(s, Head(s))), WantedBy(r, orig, s, k, b))
  {
    CheckedParts(r, orig, s, k, b);
    hide Checked, RepairQueue, SeenWindows, Incomplete, Concerns, Trigger;
    AskedForIsRepair(r, |orig|, b, Deref(s, Head(s)));
    WantedIs(r, orig, s, k, b);
  }

  lemma WantedIs(r: Rule, orig: seq<Fragment>, s: Sender, k: nat, b: BitString)
    requires Checked(r, orig, s, k, b) && r.WellFormed() && Concerns(r, Deref(s, Head(s)), |orig|)
    requires |b| == r.MaxFragmentNb() && Trigger(r, Deref(s, Head(s))) && Incomplete(r, b, Deref(s, Head(s))) != []
    ensures WantedBy(r, orig, s, k, b) == AskedFor(r, |orig|, b, Deref(s, Head(s)))
  {
    hide Checked, AskedFor;
  }

  /** update_queues on the report leaves exactly what is wanted, and one element at the end of
      the transmission queue. */
  lemma ReportQueued(r: Rule, orig: seq<Fragment>, s: Sender, k: nat, b: BitString, e: Event)
    requires Checked(r, orig, s, k, b) && Answered(r, s, e)
    requires AskedBy(r, orig, s, k, b).reply == Some(AckOfEvent(e))
    ensures r.WellFormed() && Heard(r, s, e).frs != [] && InRange(Heard(r, s, e), Head(s))
    ensures UpdateRt(UpdateQueues(r, Heard(r, s, e), Head(s), AckOfEvent(e))) == AfterReport(r, orig, s, k, b)
  {
    hide *;
    CheckedParts(r, orig, s, k, b);
    var f, s0, n := Deref(s, Head(s)), Heard(r, s, e), |orig|;
    HeardSame(r, s, e);
    HeardAsks(r, orig, s, k, b, e);
    ReplyIs(r, orig, s, k, b, e);
    RepairExact(r, s0, Head(s), b, f);
    TupleSizeIs(r);
    RepairedParts(r, s0, Head(s), b, f, UpdateQueues(r, s0, Head(s), AckOfEvent(e)));
    WantedExact(r, orig, s, k, b);
    var s' := UpdateQueues(r, s0, Head(s), AckOfEvent(e));
    RepairUnique(r, n, b, SeenWindows(r, b, f), s'.rq, WantedBy(r, orig, s, k, b));
    HeardIs(r, s, e);
    HeardRoom(r, orig, s, k, e);
    HeadAbort(r, orig, s, k);
    QueuedIs(r, orig, s, k, b, e, s');
    ReportLeaves(r, orig, s, k, b, e, s');
  }

  lemma ReplyIs(r: Rule, orig: seq<Fragment>, s: Sender, k: nat, b: BitString, e: Event)
    requires Checked(r, orig, s, k, b) && AskedBy(r, orig, s, k, b).reply == Some(AckOfEvent(e))
    requires |b| == r.MaxFragmentNb() && Ready(s) && InRange(s, Head(s)) && Trigger(r, Deref(s, Head(s)))
    ensures SessionAck(r, b, Deref(s, Head(s))) == Some(AckOfEvent(e))
    ensures AskedBy(r, orig, s, k, b) == Sent(Head(s), Deref(s, Head(s)), false, Some(AckOfEvent(e)))
  {
    CheckedParts(r, orig, s, k, b);
    ReportShape(r, b, Deref(s, Head(s)));
    hide Checked, SessionAck, IsReceiverAbort, IsComplete, Trigger, Incomplete;
  }

  lemma RepairedParts(r: Rule, s: Sender, ref: Ref, b: BitString, f: Fragment, s': Sender)
    requires r.TupleSize() > 0 && Asking(r, s, ref, b, f) && Repaired(r, s, ref, b, f, s')
    requires |b| == r.MaxFragmentNb() && 0 < |s.frs| <= |b| && 0 < r.windowSize && InRange(s, ref) && Trigger(r, f)
    ensures var seen := SeenWindows(r, b, f);
      && seen != [] && seen[|seen| - 1] < r.MaxWindowNb()
      && RepairQueue(r, |s.frs|, b, seen, s'.rq)
      && s' == AfterLosses(r, s.(rq := s'.rq), ref, GivesUpSeeing(r, |s.frs|, b, seen))
  {
    hide Asking, SeenWindows, RepairQueue, AfterLosses, GivesUpSeeing, Trigger;
  }

  /** The Sender-Abort made from the fragment at the head is the rule's. */
  lemma HeadAbort(r: Rule, orig: seq<Fragment>, s: Sender, k: nat)
    requires Faithful(r, orig) && Inv(r, orig, s, k) && Active(s) && !s.rt
    ensures Ready(s) && AbortFrom(r, Deref(s, Head(s))) == SenderAbort(r)
  {
    HeadClass(r, orig, s, k);
    hide Faithful, Inv, IsAll0, IsAll1, ExpectsAck, IsSenderAbort, SenderAbort, Window, AbortFrom;
  }

  /** `s'` is what update_queues leaves of the state in which the report was heard. */
  ghost predicate Queued(r: Rule, orig: seq<Fragment>, s: Sender, k: nat, b: BitString, e: Event, s': Sender)
    requires Checked(r, orig, s, k, b)
  {
    hide Checked, SeenWindows, GivesUpSeeing, AfterLosses, WantedBy, Heard, Trigger, Incomplete, Concerns, ExpectsAck,
         Window;
    CheckedParts(r, orig, s, k, b);
    HeardSame(r, s, e);
    var seen, s0 := SeenWindows(r, b, Deref(s, Head(s))), Heard(r, s, e);
    && seen != [] && seen[|seen| - 1] < r.MaxWindowNb()
    && s'.rq == WantedBy(r, orig, s, k, b)
    && s' == AfterLosses(r, s0.(rq := s'.rq), Head(s), GivesUpSeeing(r, |orig|, b, seen))
  }

  lemma QueuedIs(r: Rule, orig: seq<Fragment>, s: Sender, k: nat, b: BitString, e: Event, s': Sender)
    requires Checked(r, orig, s, k, b) && Ready(s) && InRange(s, Head(s)) && |orig| > 0 && 0 < r.windowSize
    requires |orig| <= |b| && |b| == r.MaxFragmentNb() && Trigger(r, Deref(s, Head(s))) && r.TupleSize() > 0
    requires InRange(Heard(r, s, e), Head(s))
    requires var seen := SeenWindows(r, b, Deref(s, Head(s)));
      && seen != [] && seen[|seen| - 1] < r.MaxWindowNb()
      && s'.rq == WantedBy(r, orig, s, k, b)
      && s' == AfterLosses(r, Heard(r, s, e).(rq := s'.rq), Head(s), GivesUpSeeing(r, |orig|, b, seen))
    ensures Queued(r, orig, s, k, b, e, s')
  {
    hide Checked, SeenWindows, GivesUpSeeing, Trigger, AfterLosses, WantedBy, Heard;
  }

  lemma ReportLeaves(r: Rule, orig: seq<Fragment>, s: Sender, k: nat, b: BitString, e: Event, s': Sender)
    requires Checked(r, orig, s, k, b) && Ready(s) && InRange(s, Head(s)) && !s.rt
    requires |Heard(r, s, e).tq| < |orig| <= Heard(r, s, e).capacity
    requires AbortFrom(r, Deref(s, Head(s))) == SenderAbort(r)
    requires InRange(Heard(r, s, e), Head(s)) && Deref(Heard(r, s, e), Head(s)) == Deref(s, Head(s))
    requires Heard(r, s, e) == s.(tq := s.tq[1..], attempts := 0,
      log := s.log + [Sent(Head(s), Deref(s, Head(s)), false, Some(AckOfEvent(e)))])
    requires AskedBy(r, orig, s, k, b) == Sent(Head(s), Deref(s, Head(s)), false, Some(AckOfEvent(e)))
    requires Queued(r, orig, s, k, b, e, s')
    ensures UpdateRt(s') == AfterReport(r, orig, s, k, b)
  {
    hide Checked, SeenWindows, GivesUpSeeing, Trigger, IsAll1, AbortFrom, SenderAbort, WantedBy, AskedBy, Heard;
  }

  // ---------------------------------------------------------------- the report is read and worked off

  /** The report on the bitmap reaches the sender as the answer to the fragment at the head. */
  ghost predicate Told(r: Rule, orig: seq<Fragment>, s: Sender, k: nat, b: BitString, e: Event) {
    && Checked(r, orig, s, k, b)
    && Visible(r, b, Deref(s, Head(s))) && ReportArrives(r, b, Deref(s, Head(s)), e)
  }

  lemma ToldHeard(r: Rule, orig: seq<Fragment>, s: Sender, k: nat, b: BitString, e: Event)
    requires Told(r, orig, s, k, b, e)
    ensures Checked(r, orig, s, k, b) && Ready(s) && InRange(s, Head(s)) && !s.rt && s.frs != [] && r.WellFormed()
    ensures |b| == r.MaxFragmentNb() && Trigger(r, Deref(s, Head(s)))
    ensures Delivers(e) && Answered(r, s, e) && SessionAck(r, b, Deref(s, Head(s))) == Some(AckOfEvent(e))
    ensures AskedBy(r, orig, s, k, b).reply == Some(AckOfEvent(e))
    ensures !IsReceiverAbort(r, AckOfEvent(e)) && !IsComplete(r, AckOfEvent(e))
  {
    hide *;
    ToldParts(r, orig, s, k, b, e);
    CheckedParts(r, orig, s, k, b);
    ReportShape(r, b, Deref(s, Head(s)));
    ReportDelivered(r, b, Deref(s, Head(s)), e);
    AnsweredIs(r, s, e);
    AskedIs(r, orig, s, k, b, e);
  }

  lemma ToldParts(r: Rule, orig: seq<Fragment>, s: Sender, k: nat, b: BitString, e: Event)
    requires Told(r, orig, s, k, b, e)
    ensures Checked(r, orig, s, k, b) && Ready(s) && InRange(s, Head(s))
    ensures |b| == r.MaxFragmentNb() && Trigger(r, Deref(s, Head(s)))
    ensures Visible(r, b, Deref(s, Head(s))) && ReportArrives(r, b, Deref(s, Head(s)), e)
  {
    hide Faithful, Inv, Visible, ReportArrives, Incomplete, Concerns, Trigger;
  }

  lemma AskedIs(r: Rule, orig: seq<Fragment>, s: Sender, k: nat, b: BitString, e: Event)
    requires Checked(r, orig, s, k, b) && Ready(s) && InRange(s, Head(s))
    requires |b| == r.MaxFragmentNb() && Trigger(r, Deref(s, Head(s)))
    requires SessionAck(r, b, Deref(s, Head(s))).Some? && AckOfEvent(e) == SessionAck(r, b, Deref(s, Head(s))).value
    ensures AskedBy(r, orig, s, k, b).reply == Some(AckOfEvent(e))
  {
    hide Checked, SessionAck, Trigger, Buffer;
  }

  /** The report's windows increase and none is after the packet's last. */
  lemma ReportSafe(r: Rule, orig: seq<Fragment>, s: Sender, k: nat, b: BitString, e: Event)
    requires Told(r, orig, s, k, b, e)
    ensures r.TupleSize() > 0 && AckSafe(r, s, e)
  {
    hide *;
    ToldHeard(r, orig, s, k, b, e);
    CheckedParts(r, orig, s, k, b);
    HeardAsks(r, orig, s, k, b, e);
    var f := Deref(s, Head(s));
    AckForAsking(r, Heard(r, s, e), Head(s), b, f);
    TupleSizeIs(r);
    AnswersSafe(r, Heard(r, s, e), Head(s), b, f, AckOfEvent(e));
    SafeFrom(r, s, e);
  }

  lemma AnswersSafe(r: Rule, s: Sender, ref: Ref, b: BitString, f: Fragment, a: CompoundAck)
    requires Asking(r, s, ref, b, f) && r.m <= 31 && Answers(r, s, ref, b, f, a) && r.TupleSize() > 0
    ensures IncreasingAck(r, a) && Greatest(r, a) <= Window(r, f) <= s.lastWindow
  {
    hide Incomplete, SeenWindows, TuplesAre, GivesUpAt, GivesUpSeeing, Tuples, Greatest, IncreasingAck, Window, Trigger;
  }

  lemma SafeFrom(r: Rule, s: Sender, e: Event)
    requires r.TupleSize() > 0
    requires IncreasingAck(r, AckOfEvent(e)) && Greatest(r, AckOfEvent(e)) <= s.lastWindow
    ensures AckSafe(r, s, e)
  {
  }

  /** One step: the fragment goes out, the report comes back and is queued. */
  lemma ReportStep(c: Config, r: Rule, orig: seq<Fragment>, s: Sender, k: nat, b: BitString, e: Event)
    requires Told(r, orig, s, k, b, e)
    ensures Checked(r, orig, s, k, b) && r.WellFormed() && s.frs != [] && Ready(s)
    ensures Step(c, r, s, e) == (AfterReport(r, orig, s, k, b), Continue)
    ensures Inv(r, orig, AfterReport(r, orig, s, k, b), NextK(s, |orig|, k))
  {
    hide *;
    ToldHeard(r, orig, s, k, b, e);
    CheckedParts(r, orig, s, k, b);
    AnsweredIs(r, s, e);
    HeadClass(r, orig, s, k);
    StepListens(c, r, orig, s, k, e);
    HandledIs(r, s, e);
    ReportQueued(r, orig, s, k, b, e);
    ReportSafe(r, orig, s, k, b, e);
    StepKeeps(c, r, orig, s, k, e);
    KeptIs(r, orig, Step(c, r, s, e), NextK(s, |orig|, k));
  }

  lemma KeptIs(r: Rule, orig: seq<Fragment>, res: (Sender, Outcome), k: nat)
    requires Kept(r, orig, res, k) && res.1 == Continue
    ensures Inv(r, orig, res.0, k)
  {
  }

  lemma WantedRefs(r: Rule, orig: seq<Fragment>, s: Sender, k: nat, b: BitString)
    requires Checked(r, orig, s, k, b)
    ensures var q := WantedBy(r, orig, s, k, b);
      && (forall i | 0 <= i < |q| :: q[i].Frg? && q[i].idx < |orig|)
      && Indices(Idxs(q), |orig|)
  {
    hide *;
    CheckedParts(r, orig, s, k, b);
    TupleSizeIs(r);
    WantedExact(r, orig, s, k, b);
    QueueIndices(r, |orig|, b, SeenWindows(r, b, Deref(s, Head(s))), WantedBy(r, orig, s, k, b));
    IndicesBelow(Idxs(WantedBy(r, orig, s, k, b)), |orig|);
    IdxsBelow(WantedBy(r, orig, s, k, b), |orig|);
  }

  lemma IndicesBelow(order: seq<nat>, n: nat)
    requires Indices(order, n)
    ensures forall k | 0 <= k < |order| :: order[k] < n
  {
  }

  lemma IdxsBelow(q: seq<Ref>, n: nat)
    requires (forall i | 0 <= i < |q| :: q[i].Frg?) && forall i | 0 <= i < |q| :: Idxs(q)[i] < n
    ensures forall i | 0 <= i < |q| :: q[i].Frg? && q[i].idx < n
  {
    assert forall i | 0 <= i < |q| :: Idxs(q)[i] == q[i].idx;
  }

  /** What the sender sends in a round: the fragment, then everything wanted, in order. */
  ghost function RoundLog(r: Rule, orig: seq<Fragment>, s: Sender, k: nat, b: BitString): seq<Sent>
    requires Checked(r, orig, s, k, b)
  {
    WantedRefs(r, orig, s, k, b);
    [AskedBy(r, orig, s, k, b)] + Resends(orig, WantedBy(r, orig, s, k, b))
  }

  /** The sender after a round. */
  ghost function AfterRound(r: Rule, orig: seq<Fragment>, s: Sender, k: nat, b: BitString): Sender
    requires Checked(r, orig, s, k, b)
  {
    s.(tq := s.tq[1..] + PutBack(r, orig, s, k, b), attempts := 0,
       senderAbort := if GivesUpThere(r, orig, s, k, b) then SenderAbort(r) else s.senderAbort,
       log := s.log + RoundLog(r, orig, s, k, b))
  }

  lemma RoundResent(r: Rule, orig: seq<Fragment>, s: Sender, k: nat, b: BitString)
    requires Checked(r, orig, s, k, b) && s.rq == [] && !s.rt
    requires var q := WantedBy(r, orig, s, k, b); forall i | 0 <= i < |q| :: q[i].Frg? && q[i].idx < |orig|
    ensures var s' := AfterReport(r, orig, s, k, b);
      && s'.rq == WantedBy(r, orig, s, k, b)
      && Resent(orig, s') == AfterRound(r, orig, s, k, b)
  {
    hide Checked, WantedBy, AskedBy, Resends, GivesUpThere, PutBack, SenderAbort;
    AppendAssociative(s.log, [AskedBy(r, orig, s, k, b)], Resends(orig, WantedBy(r, orig, s, k, b)));
  }

  /** A round seen from the sender, whichever fragment made the session check: the fragment
      is answered by the session's report, and then the sender sends exactly what is wanted,
      in order. */
  lemma RoundOnTheWire(c: Config, r: Rule, orig: seq<Fragment>, s: Sender, k: nat, b: BitString, es: seq<Event>)
    requires es != [] && Told(r, orig, s, k, b, es[0])
    requires Checked(r, orig, s, k, b) && |es| >= 1 + |WantedBy(r, orig, s, k, b)|
    ensures r.WellFormed() && s.frs != [] && AfterRound(r, orig, s, k, b).frs != []
    ensures Inv(r, orig, AfterRound(r, orig, s, k, b), NextK(s, |orig|, k))
    ensures Run(c, r, s, es) == Run(c, r, AfterRound(r, orig, s, k, b), es[1 + |WantedBy(r, orig, s, k, b)|..])
  {
    hide *;
    CheckedParts(r, orig, s, k, b);
    ReportStep(c, r, orig, s, k, b, es[0]);
    RunUnfolds(c, r, s, es);
    WantedRefs(r, orig, s, k, b);
    RoundResent(r, orig, s, k, b);
    RetransmissionsFirst(c, r, orig, AfterReport(r, orig, s, k, b), NextK(s, |orig|, k), es[1..]);
    Bounds(r, orig, AfterRound(r, orig, s, k, b), NextK(s, |orig|, k));
    assert es[1..][|WantedBy(r, orig, s, k, b)|..] == es[1 + |WantedBy(r, orig, s, k, b)|..];
  }
}
