/**
  Answers the sender cannot hear: a session whose report is eight zero bytes.
 */
module Unheard {
  import opened Options
  import opened Bits
  import opened Rules
  import opened Fragments
  import opened FrProcedure
  import opened Acks
  import opened SenderModel
  import opened SenderInvariant
  import SenderRuns
  import opened SenderTermination
  import opened SenderSilence
  import opened SessionModel
  import opened SessionProofs
  import opened Delivery
  import Repair
  import Progress
  import opened Conversation
  import opened FirstPasses
  import opened Transfers
  import opened Failures
  import opened Endings

  // ---------------------------------------------------------------- one step

  /** What a session answers is eight bytes. */
  lemma AnswerSize(r: Rule, b: BitString, f: Fragment)
    requires |b| == r.MaxFragmentNb() && Trigger(r, f)
    ensures SessionAck(r, b, f).Some? ==> SessionAck(r, b, f).value.Ack? && |SessionAck(r, b, f).value.message| == 8
  {
    hide ToDownlink, ReportStart, Written, RuleIdBits, BitsToBytes, AnyLost, LossTable, Window;
  }

  /** The report is invisible exactly when its bytes are all zero, and then the read that
      receives it delivers nothing. */
  lemma InvisibleExactly(r: Rule, b: BitString, f: Fragment, e: Event)
    requires |b| == r.MaxFragmentNb() && Trigger(r, f) && ReportArrives(r, b, f, e)
    ensures e.Datagram? && |e.message| == 8
    ensures !Visible(r, b, f) <==> forall i | 0 <= i < 8 :: e.message[i] == 0
    ensures !Visible(r, b, f) <==> !Delivers(e)
  {
    AnswerSize(r, b, f);
    DeliversExactly(e);
    hide SessionAck, Trigger, Buffer;
    EmptyExactly(e.message);
  }

  lemma EmptyExactly(m: seq<Byte>)
    requires |m| == 8
    ensures m == EMPTY_BUFFER <==> forall i | 0 <= i < 8 :: m[i] == 0
  {
    assert forall i | 0 <= i < 8 :: EMPTY_BUFFER[i] == 0;
  }

  /** The whole state after an All-1 that nobody answers: one attempt more, and out of patience
      the All-1 is overwritten by a Sender-Abort. */
  function AfterUnanswered(c: Config, r: Rule, orig: seq<Fragment>, s: Sender): Sender
    requires orig != [] && |s.frs| == |orig|
  {
    s.(attempts := s.attempts + 1,
       frs := if c.disableMax || s.attempts + 1 < c.maxAckRequests then s.frs
              else s.frs[|orig| - 1 := SenderAbort(r)],
       log := s.log + [Sent(Frg(|orig| - 1), All1Of(orig), false, None)])
  }

  lemma UnansweredStep(c: Config, r: Rule, orig: seq<Fragment>, s: Sender, e: Event)
    requires Faithful(r, orig) && Waiting(r, orig, s) && !Delivers(e)
    ensures r.WellFormed() && s.frs != [] && Ready(s) && orig != [] && |s.frs| == |orig|
    ensures Step(c, r, s, e) == (AfterUnanswered(c, r, orig, s), Continue)
  {
    hide *;
    WaitingParts(r, orig, s);
    All1Class(r, orig);
    HeadClass(r, orig, s, |orig|);
    StepSilent(c, r, orig, s, |orig|, e);
    SenderRuns.HeardRoom(r, orig, s, |orig|, e);
    HeardQueue(r, s, e);
    SilentAll1(c, r, orig, s, e);
  }

  lemma SilentAll1(c: Config, r: Rule, orig: seq<Fragment>, s: Sender, e: Event)
    requires 0 < |orig| == |s.frs| && Ready(s) && !s.rt && s.tq == [Frg(|orig| - 1)] && Head(s) == Frg(|orig| - 1)
    requires InRange(s, Head(s)) && Deref(s, Head(s)) == All1Of(orig) && IsAll1(r, All1Of(orig))
    requires !IsSenderAbort(r, All1Of(orig)) && !Delivers(e) && |s.tq[1..]| < s.capacity
    ensures AfterSilence(c, r, s, e) == (AfterUnanswered(c, r, orig, s), Continue)
  {
    hide IsAll1, IsSenderAbort, SenderAbort, ExpectsAck, Delivers, Buffer;
    assert s.tq[1..] == [] && [] + [Frg(|orig| - 1)] == s.tq;
  }

  /** A waiting sender to which the session's report is invisible: its step is the one of a
      sender whose All-1 nobody answers. */
  lemma InvisibleReportStep(c: Config, r: Rule, orig: seq<Fragment>, s: Sender, b: BitString, e: Event)
    requires Faithful(r, orig) && Waiting(r, orig, s) && orig != []
    requires |b| == r.MaxFragmentNb() && Trigger(r, All1Of(orig)) && ReportArrives(r, b, All1Of(orig), e)
    requires !Visible(r, b, All1Of(orig))
    ensures r.WellFormed() && s.frs != [] && Ready(s) && |s.frs| == |orig|
    ensures Step(c, r, s, e) == Step(c, r, s, ReadTimeout) == (AfterUnanswered(c, r, orig, s), Continue)
  {
    hide *;
    InvisibleExactly(r, b, All1Of(orig), e);
    DeliversExactly(ReadTimeout);
    UnansweredStep(c, r, orig, s, e);
    UnansweredStep(c, r, orig, s, ReadTimeout);
  }

  // ---------------------------------------------------------------- a run

  /** A waiting sender whose All-1 is answered by an invisible report again and again: it sends
      it as often as it has patience left, then one Sender-Abort. */
  lemma InvisibleReportRun(c: Config, r: Rule, orig: seq<Fragment>, s: Sender, b: BitString, es: seq<Event>)
    requires Faithful(r, orig) && Waiting(r, orig, s) && orig != []
    requires |b| == r.MaxFragmentNb() && Trigger(r, All1Of(orig)) && !Visible(r, b, All1Of(orig))
    requires forall i | 0 <= i < |es| :: ReportArrives(r, b, All1Of(orig), es[i])
    ensures r.WellFormed() && s.frs != []
    ensures var (s', status) := Run(c, r, s, es);
      if r.AbortDistinct() && !c.disableMax then
        |es| > PatienceLeft(c, s.attempts) ==>
          status == Ended(SenderAborted) && s'.log == s.log + LastSends(c, r, orig, s.attempts)
      else status == Running
  {
    hide *;
    forall i | 0 <= i < |es|
      ensures !Delivers(es[i])
    {
      InvisibleExactly(r, b, All1Of(orig), es[i]);
    }
    SilentIs(es);
    WaitingUnheard(c, r, orig, s, es);
  }

  lemma SilentIs(es: seq<Event>)
    requires forall i | 0 <= i < |es| :: !Delivers(es[i])
    ensures Silent(es)
  {
    hide Delivers;
  }

  /** Nothing, or a datagram of eight zero bytes. */
  ghost predicate ZerosOrNothing(e: Event) {
    e == ReadTimeout || e == Datagram([0, 0, 0, 0, 0, 0, 0, 0])
  }

  lemma ZerosSilent(es: seq<Event>)
    requires forall i | 0 <= i < |es| :: ZerosOrNothing(es[i])
    ensures Silent(es)
  {
    forall i | 0 <= i < |es|
      ensures !Delivers(es[i])
    {
      assert ZerosOrNothing(es[i]);
    }
  }

  lemma All1Number(r: Rule, orig: seq<Fragment>, st: Session)
    requires Progress.Receiving(r, orig, st) && orig != [] && |orig| <= |st.bitmap|
    ensures FragmentNb(r, All1Of(orig)) == |orig| - 1 && Sized(r, st) && Numbered(r, All1Of(orig))
  {
    hide FragmentNb, IsAll1, Trigger;
    assert FragmentNb(r, orig[|orig| - 1]) == |orig| - 1;
  }

  /** An All-1 that arrives again changes nothing. */
  lemma All1ArrivesAgain(r: Rule, orig: seq<Fragment>, st: Session)
    requires Progress.Receiving(r, orig, st) && orig != [] && |orig| <= |st.bitmap| && st.bitmap[|orig| - 1]
    ensures Sized(r, st) && Numbered(r, All1Of(orig)) && Receive(r, st, All1Of(orig)) == st
  {
    hide *;
    All1Number(r, orig, st);
    ReceiveMarked(r, st, All1Of(orig));
  }

  /** A packet of fourteen fragments for the single-byte rule 0. */
  ghost function Fourteen(): (orig: seq<Fragment>)
    ensures Faithful(SingleByte(0), orig) && |orig| == 14
  {
    hide *;
    FirstSingleByte();
    FourteenFragments(SingleByte(0));
    FragmentsAreFaithful(SingleByte(0), seq(144, _ => 7));
    FragmentsOf(SingleByte(0), seq(144, _ => 7))
  }

  /** The session that has received the last seven of them. */
  ghost function HalfReceived(): (st: Session)
    ensures FirstWindowLost(SingleByte(0), Fourteen(), st) && Sized(SingleByte(0), st)
  {
    hide *;
    FirstSingleByte();
    UptoBelow(7, 14);
    ArrivalOrder(SingleByte(0), Fourteen(), Upto(7, 14));
    var st := ReceiveAll(SingleByte(0), NewSession(SingleByte(0)), Fourteen(), Upto(7, 14));
    FirstLostFrom(SingleByte(0), Fourteen(), st);
    HalfSized(st);
    st
  }

  lemma HalfSized(st: Session)
    requires FirstWindowLost(SingleByte(0), Fourteen(), st)
    ensures Sized(SingleByte(0), st)
  {
    hide Faithful, RuleIdBits;
  }

  lemma FourteenSizes()
    ensures var r := SingleByte(0);
      && r.windowSize > 0 && |HalfReceived().bitmap| == r.MaxFragmentNb() && Trigger(r, Fourteen()[13])
      && Numbered(r, Fourteen()[13])
    ensures All1Of(Fourteen()) == Fourteen()[13]
  {
    hide *;
    var r, orig, st := SingleByte(0), Fourteen(), HalfReceived();
    FirstLostBits(r, orig, st);
    FirstWindowInvisible(r, orig, st, 0);
    Progress.ReceivingParts(r, orig, st);
    All1ArrivesAgain(r, orig, st);
    All1Last(orig);
  }

  /** For the single-byte rule 0, a packet of fourteen fragments of which the first seven are lost:
      the session answers every All-1 with eight zero bytes, and stays as it is. */
  lemma FourteenFragmentsAnswer()
    ensures var r, orig, st := SingleByte(0), Fourteen(), HalfReceived();
      && |st.bitmap| == r.MaxFragmentNb() && Trigger(r, orig[13]) && Numbered(r, orig[13])
      && SessionAck(r, st.bitmap, orig[13]) == Some(Ack([0, 0, 0, 0, 0, 0, 0, 0]))
      && Receive(r, st, orig[13]) == st
  {
    hide *;
    var r, orig, st := SingleByte(0), Fourteen(), HalfReceived();
    FirstSingleByte();
    FourteenSizes();
    FirstLostBits(r, orig, st);
    FirstWindowInvisible(r, orig, st, 0);
    All1ArrivesAgain(r, orig, st);
    InvisibleAnswer(r, st.bitmap, All1Of(orig));
  }

  /** The sender takes none of these answers for one: it sends the fragments once each, the All-1
      as often as it has patience, then one Sender-Abort. */
  lemma FourteenFragmentsUnheard(c: Config, es: seq<Event>)
    requires !c.disableMax && |es| >= 14 + Patience(c)
    requires forall i | 0 <= i < |es| :: ZerosOrNothing(es[i])
    ensures var orig, (s, status) := Fourteen(), RunFromStart(c, SingleByte(0), Fourteen(), es);
      && status == Ended(SenderAborted) && |s.log| == 14 + Patience(c)
      && (forall i | 0 <= i < 13 :: s.log[i].frg == orig[i])
      && (forall i | 13 <= i < 13 + Patience(c) :: s.log[i].frg == orig[13])
      && s.log[13 + Patience(c)].frg == SenderAbort(SingleByte(0))
  {
    hide *;
    FirstSingleByte();
    ZerosSilent(es);
    SilentRun(c, SingleByte(0), Fourteen(), es);
    GaveUpIs(c, SingleByte(0), Fourteen(), RunFromStart(c, SingleByte(0), Fourteen(), es).0.log);
  }

  lemma All1Last(orig: seq<Fragment>)
    requires |orig| == 14
    ensures All1Of(orig) == orig[13]
  {
  }

  lemma GaveUpIs(c: Config, r: Rule, orig: seq<Fragment>, log: seq<Sent>)
    requires |orig| == 14 && GaveUp(c, r, orig, log)
    ensures |log| == 14 + Patience(c) && (forall i | 0 <= i < 13 :: log[i].frg == orig[i])
    ensures forall i | 13 <= i < 13 + Patience(c) :: log[i].frg == orig[13]
    ensures log[13 + Patience(c)].frg == SenderAbort(r)
  {
    hide SenderAbort;
  }

  /** What an invisible report reads, byte for byte. */
  lemma InvisibleAnswer(r: Rule, b: BitString, f: Fragment)
    requires r.WellFormed() && |b| == r.MaxFragmentNb() && Trigger(r, f) && Repair.Incomplete(r, b, f) != []
    requires !Visible(r, b, f)
    ensures SessionAck(r, b, f) == Some(Ack([0, 0, 0, 0, 0, 0, 0, 0]))
  {
    ReportShape(r, b, f);
    hide SessionAck, Trigger, Repair.Incomplete;
  }
}
