/**
  The endings the two ends come to by themselves: nothing more is answered, a packet given up
  under a rule whose Sender-Abort reads as an All-1, and an exchange without end.
 */
module Endings {
  import opened Options
  import opened Bits
  import opened Rules
  import opened Fragments
  import opened FrProcedure
  import opened Acks
  import opened AckProofs
  import opened SenderModel
  import SenderQueues
  import opened SenderInvariant
  import opened SenderRuns
  import opened AnyAcks
  import opened Exits
  import opened SenderTermination
  import opened SenderSilence
  import opened SenderTrace
  import opened SessionModel
  import opened SessionProofs
  import opened Progress
  import opened Stored
  import opened LiveSessions
  import Conversation
  import FirstPasses
  import opened Transfers
  import opened Outcomes
  import opened Failures
  import StuckRuns
  import opened LossyRounds

  // ---------------------------------------------------------------- no session completes a transfer

  /** If the event delivers an ACK, it is one some session makes, for some bitmap and fragment,
      or a Receiver-Abort. */
  ghost predicate FromSession(r: Rule, e: Event) {
    Delivers(e) ==>
      || AckOfEvent(e) == ReceiverAbort(r)
      || exists b, f | |b| == r.MaxFragmentNb() && Trigger(r, f) :: SessionAck(r, b, f) == Some(AckOfEvent(e))
  }

  lemma SessionNeverCompletes(r: Rule, e: Event)
    requires r.WellFormed() && FromSession(r, e) && Delivers(e)
    ensures !IsComplete(r, AckOfEvent(e))
  {
    hide Delivers, Buffer, SessionAck, Trigger, IsComplete, ReceiverAbort;
    if AckOfEvent(e) == ReceiverAbort(r) {
      ReceiverAbortClass(r);
    } else {
      var b, f :| |b| == r.MaxFragmentNb() && Trigger(r, f) && SessionAck(r, b, f) == Some(AckOfEvent(e));
      AckOnlyOnLoss(r, b, f);
    }
  }

  /** A step ends in COMPLETED only on a complete ACK, from any state at all. */
  lemma CompletedNeedsAck(c: Config, r: Rule, s: Sender, e: Event)
    requires r.WellFormed() && s.frs != [] && Ready(s) && Step(c, r, s, e).1 == Completed
    ensures Delivers(e) && IsComplete(r, AckOfEvent(e))
  {
    hide IsAll1, IsAll0, IsSenderAbort, SenderAbort, ExpectsAck, AbortFrom, UpdateQueues, IsReceiverAbort, IsComplete,
         AckW;
  }

  /** A run whose ACKs all come from sessions never ends with COMPLETED: whatever the state it
      starts from, and whatever the bitmaps the sessions check. */
  lemma {:induction false} NeverCompleted(c: Config, r: Rule, s: Sender, es: seq<Event>)
    requires r.WellFormed() && s.frs != [] && forall i | 0 <= i < |es| :: FromSession(r, es[i])
    ensures Run(c, r, s, es).1 != Ended(Completed)
    decreases |es|
  {
    hide FromSession, Step;
    if es != [] && Active(s) && Ready(s) {
      RunUnfolds(c, r, s, es);
      var (s1, o) := Step(c, r, s, es[0]);
      if o == Continue {
        NeverCompleted(c, r, s1, es[1..]);
      } else if o == Completed {
        CompletedNeedsAck(c, r, s, es[0]);
        SessionNeverCompletes(r, es[0]);
      }
    }
  }

  // ---------------------------------------------------------------- nothing more is answered

  /** How often a sender that has sent `attempts` All-1s in vain still sends one. */
  function PatienceLeft(c: Config, attempts: nat): (k: nat)
    ensures k >= 1 && (attempts == 0 ==> k == Patience(c))
  {
    if attempts + 1 >= c.maxAckRequests then 1 else c.maxAckRequests - attempts
  }

  /** The All-1 as often as there is patience left, and one Sender-Abort. */
  function LastSends(c: Config, r: Rule, orig: seq<Fragment>, attempts: nat): seq<Sent>
    requires orig != []
  {
    var ref := Frg(|orig| - 1);
    seq(PatienceLeft(c, attempts), _ => Sent(ref, All1Of(orig), false, None)) + [Sent(ref, SenderAbort(r), false, None)]
  }

  lemma LastSendsNext(c: Config, r: Rule, orig: seq<Fragment>, attempts: nat)
    requires orig != [] && !c.disableMax
    ensures var all1, abort := Sent(Frg(|orig| - 1), All1Of(orig), false, None),
                               Sent(Frg(|orig| - 1), SenderAbort(r), false, None);
      if Patient(c, attempts) then
        LastSends(c, r, orig, attempts) == [all1] + LastSends(c, r, orig, attempts + 1)
        && PatienceLeft(c, attempts) == PatienceLeft(c, attempts + 1) + 1
      else LastSends(c, r, orig, attempts) == [all1] + [abort] && PatienceLeft(c, attempts) == 1
  {
    hide SenderAbort;
  }

  /** The All-1 has been overwritten in place by a Sender-Abort, which alone is queued. */
  ghost predicate Overwritten(r: Rule, orig: seq<Fragment>, s: Sender) {
    && 0 < |orig| && Inv(r, orig, s, |orig|) && s.rq == [] && s.tq == [Frg(|orig| - 1)]
    && s.frs[|orig| - 1] == SenderAbort(r)
  }

  lemma OverwrittenParts(r: Rule, orig: seq<Fragment>, s: Sender)
    requires Overwritten(r, orig, s)
    ensures 0 < |orig| && Inv(r, orig, s, |orig|) && s.frs != [] && !s.rt && Active(s) && Ready(s) && s.rq == []
    ensures s.tq == [Frg(|orig| - 1)] && Head(s) == Frg(|orig| - 1) && InRange(s, Head(s))
    ensures Deref(s, Head(s)) == SenderAbort(r)
  {
    hide SenderAbort;
  }

  /** The last unanswered All-1 makes the sender overwrite it. */
  lemma PatienceEnds(c: Config, r: Rule, orig: seq<Fragment>, s: Sender, e: Event)
    requires Faithful(r, orig) && FirstPasses.Waiting(r, orig, s) && !Delivers(e) && !Patient(c, s.attempts)
    ensures r.WellFormed() && s.frs != [] && Ready(s) && orig != []
    ensures var (s', o) := Step(c, r, s, e);
      && o == Continue && Overwritten(r, orig, s')
      && s'.log == s.log + [Sent(Frg(|orig| - 1), All1Of(orig), false, None)]
  {
    hide *;
    WaitingParts(r, orig, s);
    All1Class(r, orig);
    HeadClass(r, orig, s, |orig|);
    StepSilent(c, r, orig, s, |orig|, e);
    SilentKeeps(c, r, orig, s, |orig|, e);
    AtEnd(s, |orig|);
    HeardRoom(r, orig, s, |orig|, e);
    HeardQueue(r, s, e);
    All1Overwritten(c, r, orig, s, e);
    OverwrittenKept(r, orig, Step(c, r, s, e));
  }

  lemma All1Overwritten(c: Config, r: Rule, orig: seq<Fragment>, s: Sender, e: Event)
    requires 0 < |orig| == |s.frs| && Ready(s) && !s.rt && s.tq == [Frg(|orig| - 1)] && Head(s) == Frg(|orig| - 1)
    requires InRange(s, Head(s)) && Deref(s, Head(s)) == All1Of(orig) && IsAll1(r, All1Of(orig)) && s.rq == []
    requires !IsSenderAbort(r, All1Of(orig)) && !Delivers(e) && !Patient(c, s.attempts) && |s.tq[1..]| < s.capacity
    ensures var (s', o) := AfterSilence(c, r, s, e);
      && o == Continue && s'.tq == [Frg(|orig| - 1)] && s'.rq == [] && |s'.frs| == |orig|
      && s'.frs[|orig| - 1] == SenderAbort(r)
      && s'.log == s.log + [Sent(Frg(|orig| - 1), All1Of(orig), false, None)]
  {
    hide IsAll1, IsSenderAbort, SenderAbort, ExpectsAck, Delivers, Buffer;
    assert s.tq[1..] == [] && [] + [Frg(|orig| - 1)] == s.tq;
  }

  lemma OverwrittenKept(r: Rule, orig: seq<Fragment>, res: (Sender, Outcome))
    requires 0 < |orig| && Kept(r, orig, res, |orig|) && res.1 == Continue && |res.0.frs| == |orig|
    requires res.0.tq == [Frg(|orig| - 1)] && res.0.rq == [] && res.0.frs[|orig| - 1] == SenderAbort(r)
    ensures Overwritten(r, orig, res.0)
  {
    hide Inv, SenderAbort;
  }

  /** It goes out; it ends the run if it can be told from an All-1, and otherwise goes back. */
  lemma OverwrittenStep(c: Config, r: Rule, orig: seq<Fragment>, s: Sender, e: Event)
    requires Faithful(r, orig) && Overwritten(r, orig, s) && !Delivers(e)
    ensures r.WellFormed() && s.frs != [] && Ready(s) && orig != []
    ensures var (s', o) := Step(c, r, s, e);
      && s'.log == s.log + [Sent(Frg(|orig| - 1), SenderAbort(r), false, None)]
      && if r.AbortDistinct() then o == SenderAborted else o == Continue && Overwritten(r, orig, s')
  {
    hide *;
    OverwrittenParts(r, orig, s);
    HeadClass(r, orig, s, |orig|);
    ClassOfAbort(r);
    StepSilent(c, r, orig, s, |orig|, e);
    SilentKeeps(c, r, orig, s, |orig|, e);
    AtEnd(s, |orig|);
    HeardRoom(r, orig, s, |orig|, e);
    HeardQueue(r, s, e);
    Conversation.FrsLength(r, orig, s, |orig|);
    AbortSent(c, r, orig, s, e);
    if !r.AbortDistinct() {
      OverwrittenKept(r, orig, Step(c, r, s, e));
    }
  }

  lemma AbortSent(c: Config, r: Rule, orig: seq<Fragment>, s: Sender, e: Event)
    requires 0 < |orig| == |s.frs| && Ready(s) && !s.rt && s.tq == [Frg(|orig| - 1)] && Head(s) == Frg(|orig| - 1)
    requires InRange(s, Head(s)) && Deref(s, Head(s)) == SenderAbort(r) && s.rq == []
    requires IsSenderAbort(r, SenderAbort(r)) <==> !IsAll1(r, SenderAbort(r))
    requires !Delivers(e) && |s.tq[1..]| < s.capacity
    ensures var (s', o) := AfterSilence(c, r, s, e);
      && s'.log == s.log + [Sent(Frg(|orig| - 1), SenderAbort(r), false, None)]
      && if IsSenderAbort(r, SenderAbort(r)) then o == SenderAborted
         else o == Continue && s'.tq == [Frg(|orig| - 1)] && s'.rq == [] && |s'.frs| == |orig|
              && s'.frs[|orig| - 1] == SenderAbort(r)
  {
    hide IsAll1, IsSenderAbort, SenderAbort, ExpectsAck, Delivers, Buffer;
    assert s.tq[1..] == [] && [] + [Frg(|orig| - 1)] == s.tq;
  }

  lemma {:induction false} OverwrittenUnheard(c: Config, r: Rule, orig: seq<Fragment>, s: Sender, es: seq<Event>)
    requires Faithful(r, orig) && Overwritten(r, orig, s) && Silent(es)
    ensures r.WellFormed() && s.frs != [] && orig != []
    ensures var (s', status) := Run(c, r, s, es);
      if r.AbortDistinct() then
        es != [] ==> status == Ended(SenderAborted)
                     && s'.log == s.log + [Sent(Frg(|orig| - 1), SenderAbort(r), false, None)]
      else status == Running
    decreases |es|
  {
    hide *;
    FaithfulSizes(r, orig);
    OverwrittenParts(r, orig, s);
    if es == [] {
      RunWaits(c, r, s);
    } else {
      SilentFirst(es);
      OverwrittenStep(c, r, orig, s, es[0]);
      RunUnfolds(c, r, s, es);
      if !r.AbortDistinct() {
        OverwrittenUnheard(c, r, orig, Step(c, r, s, es[0]).0, es[1..]);
      }
    }
  }

  /** A waiting sender that hears nothing more, whatever it has sent in vain before. */
  lemma {:induction false} WaitingUnheard(c: Config, r: Rule, orig: seq<Fragment>, s: Sender, es: seq<Event>)
    requires Faithful(r, orig) && FirstPasses.Waiting(r, orig, s) && Silent(es)
    ensures r.WellFormed() && s.frs != [] && orig != []
    ensures var (s', status) := Run(c, r, s, es);
      if r.AbortDistinct() && !c.disableMax then
        |es| > PatienceLeft(c, s.attempts) ==>
          status == Ended(SenderAborted) && s'.log == s.log + LastSends(c, r, orig, s.attempts)
      else status == Running
    decreases |es|
  {
    hide *;
    FaithfulSizes(r, orig);
    WaitingParts(r, orig, s);
    if es == [] {
      RunWaits(c, r, s);
      SomePatience(c, s.attempts);
    } else {
      SilentFirst(es);
      var all1 := Sent(Frg(|orig| - 1), All1Of(orig), false, None);
      if !c.disableMax {
        LastSendsNext(c, r, orig, s.attempts);
      }
      if Patient(c, s.attempts) {
        UnansweredAll1(c, r, orig, s, es[0]);
        RunUnfolds(c, r, s, es);
        WaitingUnheard(c, r, orig, Step(c, r, s, es[0]).0, es[1..]);
        AppendAssociative(s.log, [all1], LastSends(c, r, orig, s.attempts + 1));
      } else {
        NotDisabled(c, s.attempts);
        PatienceEnds(c, r, orig, s, es[0]);
        RunUnfolds(c, r, s, es);
        OverwrittenUnheard(c, r, orig, Step(c, r, s, es[0]).0, es[1..]);
        AppendAssociative(s.log, [all1], [Sent(Frg(|orig| - 1), SenderAbort(r), false, None)]);
      }
    }
  }

  lemma SomePatience(c: Config, attempts: nat)
    ensures PatienceLeft(c, attempts) >= 1
  {
  }

  lemma NotDisabled(c: Config, attempts: nat)
    requires !Patient(c, attempts)
    ensures !c.disableMax
  {
  }

  // ---------------------------------------------------------------- a packet that fills its last window

  /** Once everything of a packet that fills its last window has arrived, the session refuses to
      answer the All-1. */
  lemma FilledRefuses(r: Rule, orig: seq<Fragment>, st: Session)
    requires Faithful(r, orig) && Live(r, orig, st) && Receiving(r, orig, st) && Lacks(r, orig, st) == []
    requires 0 < r.windowSize && |orig| % r.windowSize == 0
    ensures |st.bitmap| == r.MaxFragmentNb() && orig != [] && Trigger(r, All1Of(orig))
    ensures SessionAck(r, st.bitmap, All1Of(orig)) == None
  {
    hide *;
    ReceivingParts(r, orig, st);
    LiveParts(r, orig, st);
    HasAllIs(r, orig, st);
    LiveAllMarked(r, orig, st);
    FullyReceivedCheck(r, orig, st.bitmap);
    AckOnlyOnLoss(r, st.bitmap, All1Of(orig));
  }

  lemma LiveAllMarked(r: Rule, orig: seq<Fragment>, st: Session)
    requires 0 < |orig| <= |st.bitmap| && |st.bitmap| == r.MaxFragmentNb() && st.bitmap[|orig| - 1]
    requires HasAll(orig, st) && forall i | |orig| <= i < |st.bitmap| :: !st.bitmap[i]
    ensures AllMarked(r, st.bitmap, |orig|)
  {
  }

  /** A whole transfer of a packet that fills its last window. After any first pass and enough
      rounds the receiver's array gives back the packet, and the session refuses to answer the
      All-1; so nothing more is heard, and the sender sends the All-1 as often as it has patience,
      then one Sender-Abort, and returns SENDER_ABORTED. Where its Sender-Abort reads as an All-1,
      or the limit is disabled, it goes on for ever. */
  lemma TransferUnanswered(c: Config, r: Rule, packet: seq<Byte>, orig: seq<Fragment>, st: Session, got: set<nat>,
                           k: nat, answers: seq<Option<BitString>>, first: seq<Event>, es: seq<Event>,
                           tail: seq<Event>)
    requires Carries(r, packet, orig) && Stores(r, orig, st, got)
    requires Course(r, orig, st, k, answers, first, es) && Repairing(r, orig, st)
    requires Receiving(r, orig, st) && r.TupleSize() > 0
    requires 0 < r.windowSize && |orig| % r.windowSize == 0
    requires k >= CeilDiv(|Lacks(r, orig, st)|, ReaderCapacity(r)) && Silent(tail)
    ensures Faithful(r, orig) && orig != []
    ensures var st' := Talked(r, orig, st, k);
      && |st'.bitmap| == r.MaxFragmentNb() && Trigger(r, All1Of(orig))
      && SessionAck(r, st'.bitmap, All1Of(orig)) == None && Delivered(r, packet, st')
    ensures var (s, status) := RunFromStart(c, r, orig, first + es + tail);
      if r.AbortDistinct() && !c.disableMax then
        |tail| > Patience(c) ==>
          && status == Ended(SenderAborted)
          && s.log == CourseLog(r, orig, st, k, answers, first, es) + LastSends(c, r, orig, 0)
      else status == Running
  {
    hide *;
    var st' := Talked(r, orig, st, k);
    CarriesFaithful(r, packet, orig);
    StoresTracks(r, orig, st, got);
    TracksLive(r, orig, st, got);
    NeverGivesUp(r, orig, st, k);
    DialogueEnds(r, orig, st, k);
    TalkedLive(r, orig, st, k);
    NothingLacks(r, orig, st');
    LiveParts(r, orig, st');
    HasAllIs(r, orig, st');
    FilledRefuses(r, orig, st');
    var got' := TalkedStores(r, orig, st, got, k);
    DeliveredExactly(r, packet, orig, st', got');
    var s := CourseRuns(c, r, orig, st, k, answers, first, es, tail);
    WaitingUnheard(c, r, orig, s, tail);
    AllPatience(c);
  }

  lemma AllPatience(c: Config)
    ensures PatienceLeft(c, 0) == Patience(c)
  {
  }

  /** Any transfer with losses that is then met by silence, after the sender has sent some All-1s
      in vain already: it sends the All-1 as often as there is patience left, one Sender-Abort, and
      returns SENDER_ABORTED, or goes on for ever; and the receiver's array gives back the packet
      exactly when everything that was missing has arrived before. */
  lemma LossyTransferUnanswered(c: Config, r: Rule, packet: seq<Byte>, orig: seq<Fragment>, st: Session,
                                got: set<nat>, turns: seq<Turn>, answers: seq<Option<BitString>>,
                                first: seq<Event>, es: seq<Event>, tail: seq<Event>)
    requires Carries(r, packet, orig) && Stores(r, orig, st, got)
    requires LossyCourse(c, r, orig, st, turns, answers, first, es) && Silent(tail)
    ensures Faithful(r, orig) && orig != [] && AllPossible(r, orig, st, turns)
    ensures Delivered(r, packet, AllTurned(r, orig, st, turns)) <==> Missing(|orig|, st.bitmap) <= AllArrivals(turns)
    ensures var (s, status) := RunFromStart(c, r, orig, first + es + tail);
      var attempts := Attempts(0, turns);
      if r.AbortDistinct() && !c.disableMax then
        |tail| > PatienceLeft(c, attempts) ==>
          && status == Ended(SenderAborted)
          && s.log == LossyCourseLog(c, r, orig, st, turns, answers, first, es) + LastSends(c, r, orig, attempts)
      else status == Running
  {
    hide *;
    CarriesFaithful(r, packet, orig);
    LossyCourseParts(c, r, orig, st, turns, answers, first, es);
    LossyDelivers(r, packet, orig, st, got, turns);
    var s := LossyCourseRuns(c, r, orig, st, turns, answers, first, es, tail);
    WaitingUnheard(c, r, orig, s, tail);
  }

  // ---------------------------------------------------------------- after giving up under option 1

  /** The sender has given up: of all transmissions only its Sender-Abort is left. */
  ghost predicate Persists(r: Rule, orig: seq<Fragment>, s: Sender) {
    Sound(r, orig, s, |orig|) && s.tq == [AbortSlot] && s.senderAbort == SenderAbort(r)
  }

  lemma AbortingPersists(r: Rule, orig: seq<Fragment>, s: Sender)
    requires Aborting(r, orig, s)
    ensures Persists(r, orig, s) && orig != []
  {
    InvIsSound(r, orig, s, |orig|);
    hide Inv, Sound, SenderAbort;
  }

  lemma PersistsParts(r: Rule, orig: seq<Fragment>, s: Sender)
    requires Persists(r, orig, s)
    ensures Sound(r, orig, s, |orig|) && s.tq == [AbortSlot] && s.senderAbort == SenderAbort(r)
    ensures Active(s) && Ready(s) && s.frs != [] && orig != [] && |s.frs| == |orig| && 0 < r.windowSize
    ensures !s.rt ==> Head(s) == AbortSlot && InRange(s, Head(s)) && Deref(s, Head(s)) == SenderAbort(r) && s.rq == []
  {
    SoundBounds(r, orig, s, |orig|);
    SoundReady(r, orig, s, |orig|);
    if !s.rt {
      SoundIsInv(r, orig, s, |orig|);
      InvQueue(r, orig, s);
    }
    hide Sound, Inv, SenderAbort;
  }

  lemma InvQueue(r: Rule, orig: seq<Fragment>, s: Sender)
    requires Inv(r, orig, s, |orig|) && !s.rt
    ensures s.rq == []
  {
  }

  /** What every transmission then is. */
  ghost predicate OnlyAborts(r: Rule, log: seq<Sent>) {
    forall i | 0 <= i < |log| && !log[i].retransmission :: log[i].ref == AbortSlot && log[i].frg == SenderAbort(r)
  }

  /** What has been sent since `before` are retransmissions and Sender-Aborts. */
  ghost predicate OnlyAbortsSince(r: Rule, before: seq<Sent>, log: seq<Sent>) {
    |before| <= |log| && log[..|before|] == before && OnlyAborts(r, log[|before|..])
  }

  lemma EntryIs(r: Rule, s: Sender, e: Event)
    requires Ready(s)
    ensures Entry(r, s, e).retransmission == s.rt && Entry(r, s, e).ref == Head(s)
    ensures Entry(r, s, e).frg == Deref(s, Head(s))
  {
    hide IsAll1, ExpectsAck, Delivers;
  }

  lemma OneSince(r: Rule, before: seq<Sent>, x: Sent)
    requires !x.retransmission ==> x.ref == AbortSlot && x.frg == SenderAbort(r)
    ensures OnlyAbortsSince(r, before, before + [x]) && |before + [x]| == |before| + 1
  {
    hide SenderAbort;
    assert (before + [x])[..|before|] == before && (before + [x])[|before|..] == [x];
  }

  lemma SinceJoin(r: Rule, a: seq<Sent>, b: seq<Sent>, log: seq<Sent>)
    requires OnlyAbortsSince(r, a, b) && OnlyAbortsSince(r, b, log)
    ensures OnlyAbortsSince(r, a, log)
  {
    hide SenderAbort;
    assert log[|a|..] == b[|a|..] + log[|b|..];
  }

  lemma NothingSent(r: Rule, log: seq<Sent>)
    ensures OnlyAbortsSince(r, log, log)
  {
  }

  /** A step of such a sender, whatever it hears: it ends only by a Receiver-Abort or a complete
      ACK, what it transmits is its Sender-Abort, and that alone is queued again. */
  lemma PersistingStep(c: Config, r: Rule, orig: seq<Fragment>, s: Sender, e: Event)
    requires Faithful(r, orig) && Persists(r, orig, s) && !r.AbortDistinct()
    ensures r.WellFormed() && s.frs != [] && Ready(s)
    ensures var (s', o) := Step(c, r, s, e);
      && (o == Continue || o == ReceiverAborted || o == Completed)
      && (o == Continue ==> s'.tq == [AbortSlot] && s'.senderAbort == SenderAbort(r))
      && OnlyAbortsSince(r, s.log, s'.log) && |s'.log| == |s.log| + 1
  {
    hide *;
    FaithfulSizes(r, orig);
    PersistsParts(r, orig, s);
    StepLog(c, r, s, e);
    EntryIs(r, s, e);
    OneSince(r, s.log, Entry(r, s, e));
    SoundOutcome(c, r, orig, s, |orig|, e);
    SoundNeedsDistinct(c, r, orig, s, |orig|, e);
    SomeOutcome(Step(c, r, s, e).1);
    if Step(c, r, s, e).1 == Continue {
      PersistingQueue(c, r, orig, s, e);
    }
  }

  lemma SomeOutcome(o: Outcome)
    requires o != NetworkError && o != SenderAborted
    ensures o == Continue || o == ReceiverAborted || o == Completed
  {
  }

  lemma PersistsIs(r: Rule, orig: seq<Fragment>, s: Sender)
    requires Sound(r, orig, s, |orig|) && s.tq == [AbortSlot] && s.senderAbort == SenderAbort(r)
    ensures Persists(r, orig, s)
  {
    hide Sound, SenderAbort;
  }

  lemma PersistingQueue(c: Config, r: Rule, orig: seq<Fragment>, s: Sender, e: Event)
    requires Faithful(r, orig) && Persists(r, orig, s) && !r.AbortDistinct()
    requires r.WellFormed() && s.frs != [] && Ready(s) && Step(c, r, s, e).1 == Continue
    ensures var s' := Step(c, r, s, e).0; s'.tq == [AbortSlot] && s'.senderAbort == SenderAbort(r)
  {
    hide *;
    PersistsParts(r, orig, s);
    if s.rt {
      SoundIntact(r, orig, s, |orig|);
      Retransmits(c, r, orig, s, e);
      RetransmissionIs(r, s, e);
    } else {
      SoundIsInv(r, orig, s, |orig|);
      HeadClass(r, orig, s, |orig|);
      ClassOfAbort(r);
      if Delivers(e) {
        PersistingAnswered(c, r, orig, s, e);
      } else {
        StepSilent(c, r, orig, s, |orig|, e);
        PersistingSilence(c, r, orig, s, e);
      }
    }
  }

  lemma PersistingSilence(c: Config, r: Rule, orig: seq<Fragment>, s: Sender, e: Event)
    requires Ready(s) && !s.rt && s.tq == [AbortSlot] && Head(s) == AbortSlot && s.senderAbort == SenderAbort(r)
    requires IsAll1(r, SenderAbort(r)) && !IsSenderAbort(r, SenderAbort(r)) && Inv(r, orig, s, |orig|)
    ensures var s' := AfterSilence(c, r, s, e).0; s'.tq == [AbortSlot] && s'.senderAbort == SenderAbort(r)
  {
    HeardRoom(r, orig, s, |orig|, e);
    hide Inv, IsAll1, IsSenderAbort, SenderAbort, ExpectsAck, Delivers, Buffer;
    assert s.tq[1..] == [] && [] + [AbortSlot] == [AbortSlot];
  }

  lemma PersistingAnswered(c: Config, r: Rule, orig: seq<Fragment>, s: Sender, e: Event)
    requires Faithful(r, orig) && Persists(r, orig, s) && !r.AbortDistinct() && Inv(r, orig, s, |orig|)
    requires r.WellFormed() && s.frs != [] && Ready(s) && !s.rt && InRange(s, Head(s)) && HeadIs(r, orig, s, |orig|)
    requires Delivers(e) && ExpectsAck(r, SenderAbort(r)) && Step(c, r, s, e).1 == Continue
    requires IsAll1(r, SenderAbort(r)) && AbortFrom(r, SenderAbort(r)) == SenderAbort(r)
    ensures var s' := Step(c, r, s, e).0; s'.tq == [AbortSlot] && s'.senderAbort == SenderAbort(r)
  {
    hide *;
    PersistsParts(r, orig, s);
    FaithfulTuples(r, orig);
    var a, s0 := AckOfEvent(e), Heard(r, s, e);
    AckShape(e);
    StepListens(c, r, orig, s, |orig|, e);
    HandledIs(r, s, e);
    HeardSame(r, s, e);
    AnsweredIs(r, s, e);
    Conversation.HeardIs(r, s, e);
    HeardRoom(r, orig, s, |orig|, e);
    AbortClass(r);
    GreatestBound(r, e);
    StuckRuns.EffectIs(r, s0, Head(s), a);
    InvParts(r, orig, s, |orig|);
    Worked(r, s0, Head(s), a);
    AbortAgain(r, s0, Taken(r, s0, a), SenderQueues.GivesUpOn(r, |s0.frs|, s0.lastWindow, Tuples(r, a)));
  }

  lemma AbortAgain(r: Rule, s0: Sender, q: seq<Ref>, stopped: bool)
    requires s0.tq == [] && s0.capacity > 0 && s0.senderAbort == SenderAbort(r)
    requires IsAll1(r, SenderAbort(r)) && AbortFrom(r, SenderAbort(r)) == SenderAbort(r)
    ensures var s' := UpdateRt(SenderQueues.AfterLosses(r, s0.(rq := q), AbortSlot, stopped));
      s'.tq == [AbortSlot] && s'.senderAbort == SenderAbort(r)
  {
    hide IsAll1, AbortFrom, SenderAbort;
  }

  /** Once a pointer lies outside the array, only retransmissions go out. */
  lemma {:induction false} OutsideSends(c: Config, r: Rule, orig: seq<Fragment>, s: Sender, p: nat, es: seq<Event>)
    requires Faithful(r, orig) && Outside(orig, s, p)
    ensures r.WellFormed() && s.frs != [] && OnlyAbortsSince(r, s.log, Run(c, r, s, es).0.log)
    decreases p
  {
    hide *;
    FaithfulSizes(r, orig);
    OutsideHead(orig, s, p);
    NothingSent(r, s.log);
    if p > 0 && es != [] {
      Retransmits(c, r, orig, s, es[0]);
      OutsideNext(r, orig, s, p, es[0]);
      RunUnfolds(c, r, s, es);
      StepLog(c, r, s, es[0]);
      EntryIs(r, s, es[0]);
      OneSince(r, s.log, Entry(r, s, es[0]));
      OutsideSends(c, r, orig, Step(c, r, s, es[0]).0, p - 1, es[1..]);
      SinceJoin(r, s.log, Step(c, r, s, es[0]).0.log, Run(c, r, s, es).0.log);
    } else {
      StaysPut(c, r, s, es);
    }
  }

  lemma StaysPut(c: Config, r: Rule, s: Sender, es: seq<Event>)
    requires r.WellFormed() && s.frs != [] && (es == [] || !Ready(s))
    ensures Run(c, r, s, es).0 == s
  {
  }

  /** A sender that has given up under such a rule goes on transmitting its Sender-Abort, and
      nothing else, whatever ACKs it hears: it never returns SENDER_ABORTED, never drains its
      queues, and ends only by a Receiver-Abort or a complete ACK, unless an ACK sends it past the
      end of its array. */
  lemma {:induction false} GoesOn(c: Config, r: Rule, orig: seq<Fragment>, s: Sender, es: seq<Event>)
    requires Faithful(r, orig) && Persists(r, orig, s) && !r.AbortDistinct() && r.WellFormed() && s.frs != []
    ensures var (s', status) := Run(c, r, s, es);
      && (status == Running || status == Stuck || status == Ended(ReceiverAborted) || status == Ended(Completed))
      && (AcksInside(c, r, s, es) ==> status != Stuck)
      && OnlyAbortsSince(r, s.log, s'.log)
      && (AcksInside(c, r, s, es) && status == Running ==> Persists(r, orig, s') && |s'.log| == |s.log| + |es|)
    decreases |es|
  {
    hide *;
    PersistsParts(r, orig, s);
    NothingSent(r, s.log);
    if es == [] {
      RunWaits(c, r, s);
    } else {
      PersistingStep(c, r, orig, s, es[0]);
      RunUnfolds(c, r, s, es);
      InsideFirst(c, r, s, es);
      var (s1, o) := Step(c, r, s, es[0]);
      if !AckInside(r, s, es[0]) {
        var p := OutsideStep(c, r, orig, s, |orig|, es[0]);
        OutsideRuns(c, r, orig, s1, p, es[1..]);
        OutsideSends(c, r, orig, s1, p, es[1..]);
        SinceJoin(r, s.log, s1.log, Run(c, r, s1, es[1..]).0.log);
      } else if o == Continue {
        SoundStep(c, r, orig, s, |orig|, es[0]);
        AtEnd(s, |orig|);
        SoundAfterParts(r, orig, s, (s1, o), |orig|);
        PersistsIs(r, orig, s1);
        GoesOn(c, r, orig, s1, es[1..]);
        SinceJoin(r, s.log, s1.log, Run(c, r, s1, es[1..]).0.log);
      }
    }
  }

  lemma InsideFirst(c: Config, r: Rule, s: Sender, es: seq<Event>)
    requires r.WellFormed() && s.frs != [] && es != [] && Ready(s)
    ensures AcksInside(c, r, s, es) ==>
      && AckInside(r, s, es[0])
      && (Step(c, r, s, es[0]).1 == Continue ==>
            Step(c, r, s, es[0]).0.frs != [] && AcksInside(c, r, Step(c, r, s, es[0]).0, es[1..]))
  {
    hide AckInside, Step;
  }

  /** A transfer that is given up under such a rule, and then hears nothing more: it goes on, one
      Sender-Abort after the other, although the receiver's array gives back the packet. */
  lemma TransferGoesOn(c: Config, r: Rule, packet: seq<Byte>, orig: seq<Fragment>, st: Session, got: set<nat>,
                       k: nat, answers: seq<Option<BitString>>, first: seq<Event>, es: seq<Event>,
                       report: seq<Event>, tail: seq<Event>)
    requires Carries(r, packet, orig) && Stores(r, orig, st, got)
    requires Course(r, orig, st, k, answers, first, es) && Repairing(r, orig, st)
    requires Receiving(r, orig, st) && r.TupleSize() > 0 && !r.AbortDistinct()
    requires 0 < r.windowSize && |orig| % r.windowSize != 0 && (|orig| - 1) % r.windowSize != 0
    requires k >= CeilDiv(|Lacks(r, orig, st)|, ReaderCapacity(r))
    requires Answering(r, orig, Talked(r, orig, st, k), report) && Silent(tail)
    ensures Faithful(r, orig) && Asks(r, orig, Talked(r, orig, st, k))
    ensures var before := CourseLog(r, orig, st, k, answers, first, es) + SessionLog(r, orig, Talked(r, orig, st, k));
      var (s, status) := RunFromStart(c, r, orig, first + es + (report + tail));
      && status == Running && |s.log| == |before| + |tail| && OnlyAbortsSince(r, before, s.log)
    ensures var sent := Exchange(r, orig, st, k) + SessionLog(r, orig, Talked(r, orig, st, k));
      Sized(r, st) && Resendable(r, sent) && Delivered(r, packet, Deliver(r, st, sent))
  {
    hide *;
    var st' := Talked(r, orig, st, k);
    CarriesFaithful(r, packet, orig);
    StoresTracks(r, orig, st, got);
    TracksLive(r, orig, st, got);
    LiveEnds(r, orig, st, k);
    AnsweringParts(r, orig, st', report);
    var s := CourseRuns(c, r, orig, st, k, answers, first, es, report + tail);
    assert (report + tail)[0] == report[0] && (report + tail)[|report|..] == tail;
    SessionOnTheWire(c, r, orig, s, st', report + tail);
    var s' := AfterSession(r, orig, s, st');
    AfterSessionLog(r, orig, s, st');
    AbortingPersists(r, orig, s');
    SilentAcksInside(c, r, s', tail);
    GoesOn(c, r, orig, s', tail);
    SilentStillRuns(c, r, orig, s', tail);
    ExchangeDelivers(r, orig, st, k);
    DeliverRound(r, orig, st');
    DeliverAppend(r, st, Exchange(r, orig, st, k), SessionLog(r, orig, st'));
    var got' := TalkedStores(r, orig, st, got, k);
    got' := RoundStores(r, orig, st', got');
    GivesUpRepairs(r, orig, st');
    DeliveredExactly(r, packet, orig, Round(r, orig, st'), got');
  }

  /** Exactly the events of one round. */
  ghost predicate Answering(r: Rule, orig: seq<Fragment>, st: Session, es: seq<Event>) {
    Asks(r, orig, st) && |es| == 1 + |Wanted(r, orig, st)| && Tells(r, orig, st, es[0])
  }

  lemma AnsweringParts(r: Rule, orig: seq<Fragment>, st: Session, es: seq<Event>)
    requires Answering(r, orig, st, es)
    ensures Asks(r, orig, st) && |es| == 1 + |Wanted(r, orig, st)| && Tells(r, orig, st, es[0])
  {
    hide Asks, Wanted, Tells;
  }

  lemma {:induction false} SilentAcksInside(c: Config, r: Rule, s: Sender, es: seq<Event>)
    requires r.WellFormed() && s.frs != [] && Silent(es)
    ensures AcksInside(c, r, s, es)
    decreases |es|
  {
    hide *;
    NoEvents(c, r, s);
    if es != [] && Ready(s) {
      SilentFirst(es);
      TupleSizeOf(r);
      NotAnswered(r, s, es[0]);
      UnansweredNoWork(r, s, es[0]);
      NoWork(r, s, es[0]);
      if Step(c, r, s, es[0]).1 == Continue {
        SilentAcksInside(c, r, Step(c, r, s, es[0]).0, es[1..]);
      }
    }
    InsideFrom(c, r, s, es);
  }

  lemma NoEvents(c: Config, r: Rule, s: Sender)
    requires r.WellFormed() && s.frs != []
    ensures AcksInside(c, r, s, [])
  {
  }

  lemma InsideFrom(c: Config, r: Rule, s: Sender, es: seq<Event>)
    requires r.WellFormed() && s.frs != []
    requires es != [] && Ready(s) ==>
      && AckInside(r, s, es[0])
      && (Step(c, r, s, es[0]).1 == Continue ==>
            Step(c, r, s, es[0]).0.frs != [] && AcksInside(c, r, Step(c, r, s, es[0]).0, es[1..]))
    ensures AcksInside(c, r, s, es)
  {
    hide AckInside, Step;
  }

  lemma {:induction false} SilentStillRuns(c: Config, r: Rule, orig: seq<Fragment>, s: Sender, es: seq<Event>)
    requires Faithful(r, orig) && Persists(r, orig, s) && !r.AbortDistinct() && Silent(es)
    requires r.WellFormed() && s.frs != []
    ensures Run(c, r, s, es).1 == Running
    decreases |es|
  {
    hide *;
    PersistsParts(r, orig, s);
    if es == [] {
      RunWaits(c, r, s);
    } else {
      SilentFirst(es);
      TupleSizeOf(r);
      NotAnswered(r, s, es[0]);
      UnansweredNoWork(r, s, es[0]);
      NoWork(r, s, es[0]);
      SoundOutcome(c, r, orig, s, |orig|, es[0]);
      PersistingStep(c, r, orig, s, es[0]);
      SoundStep(c, r, orig, s, |orig|, es[0]);
      AtEnd(s, |orig|);
      SoundAfterParts(r, orig, s, Step(c, r, s, es[0]), |orig|);
      PersistsIs(r, orig, Step(c, r, s, es[0]).0);
      RunUnfolds(c, r, s, es);
      SilentStillRuns(c, r, orig, Step(c, r, s, es[0]).0, es[1..]);
    }
  }

  // ---------------------------------------------------------------- an exchange without end

  lemma ReportRepeated(r: Rule, orig: seq<Fragment>, st: Session, m: nat) returns (es: seq<Event>)
    requires Asks(r, orig, st)
    ensures |es| == m && AllTell(r, orig, st, es)
  {
    hide *;
    var one := RoundEvents(r, orig, st, 0);
    es := seq(m, _ => one[0]);
    AllTellIs(r, orig, st, es, one[0]);
  }

  lemma AllTellIs(r: Rule, orig: seq<Fragment>, st: Session, es: seq<Event>, e: Event)
    requires Asks(r, orig, st) && Tells(r, orig, st, e) && forall i | 0 <= i < |es| :: es[i] == e
    ensures AllTell(r, orig, st, es)
  {
    hide Asks, Tells;
  }

  /** A packet that has arrived completely and whose All-1 is alone in its window: from the start
      of the transfer, an exchange that goes on for any number of reports, all of them heard. */
  lemma Endless(c: Config, r: Rule, orig: seq<Fragment>, st: Session, m: nat) returns (es: seq<Event>)
    requires Faithful(r, orig) && LoneAll1(r, orig, st)
    ensures Asks(r, orig, st) && |es| == m && AllTell(r, orig, st, es) && orig != []
    ensures RunFromStart(c, r, orig, Timeouts(|orig| - 1) + es).1 == Running
  {
    hide *;
    LoneAsks(r, orig, st);
    es := ReportRepeated(r, orig, st, m);
    var s := SilentlyPassed(c, r, orig);
    NeverAcknowledged(c, r, orig, s, st, es);
  }

  /** The packet is there, its All-1 is alone in its window, every one of the `m` reports is heard
      after a silent first pass, and the sender still waits. */
  ghost predicate StillWaiting(c: Config, r: Rule, packet: seq<Byte>, orig: seq<Fragment>, st: Session, m: nat,
                               es: seq<Event>)
    requires Faithful(r, orig) && orig != []
  {
    && Delivered(r, packet, st) && LoneAll1(r, orig, st) && Asks(r, orig, st)
    && |es| == m && AllTell(r, orig, st, es)
    && RunFromStart(c, r, orig, Timeouts(|orig| - 1) + es).1 == Running
  }

  lemma StillWaitingIs(c: Config, r: Rule, packet: seq<Byte>, orig: seq<Fragment>, st: Session, m: nat, es: seq<Event>)
    requires Faithful(r, orig) && orig != []
    requires Delivered(r, packet, st) && LoneAll1(r, orig, st) && Asks(r, orig, st)
    requires |es| == m && AllTell(r, orig, st, es)
    requires RunFromStart(c, r, orig, Timeouts(|orig| - 1) + es).1 == Running
    ensures StillWaiting(c, r, packet, orig, st, m, es)
  {
    hide Delivered, LoneAll1, Asks, AllTell, RunFromStart, Faithful;
  }

  /** Such an exchange exists: single-byte rule 1 and a packet of eight fragments, all of them
      arrived and the packet there, and yet after any number of reports the sender still waits. */
  lemma EightFragmentsEndless(c: Config, m: nat) returns (es: seq<Event>)
    ensures var r := SingleByte(1); r.WellFormed() && 0 < r.windowSize && r.PayloadBytes() > 0 && r.t == 0
    ensures var r, packet := SingleByte(1), seq(80, _ => 7);
      var orig := FragmentsOf(r, packet);
      && Faithful(r, orig) && |orig| == 8 && Sized(r, NewSession(r))
      && (forall k | 0 <= k < 8 :: Upto(0, 8)[k] < |orig| && Numbered(r, orig[Upto(0, 8)[k]]))
      && StillWaiting(c, r, packet, orig, ReceiveAll(r, NewSession(r), orig, Upto(0, 8)), m, es)
  {
    hide *;
    SecondSingleByte();
    var r, packet := SingleByte(1), seq(80, _ => 7);
    StuckRuns.EightFragments(r);
    FragmentsAreFaithful(r, packet);
    var orig := FragmentsOf(r, packet);
    UptoBelow(0, 8);
    ArrivalOrder(r, orig, Upto(0, 8));
    var st, got := ReceiveAll(r, NewSession(r), orig, Upto(0, 8)), Arrived(Upto(0, 8));
    LastArrived(0, 8);
    TracksLive(r, orig, st, got);
    LiveParts(r, orig, st);
    CarriesIs(r, packet);
    StoresIs(r, orig, st, got);
    AllArrived(8);
    StoresMarks(r, orig, st, got);
    DeliveredExactly(r, packet, orig, st, got);
    HasAllIs(r, orig, st);
    LoneIs(r, orig, st);
    es := Endless(c, r, orig, st, m);
    StillWaitingIs(c, r, packet, orig, st, m, es);
  }

  lemma AllArrived(n: nat)
    ensures forall i | 0 <= i < n :: i in Arrived(Upto(0, n))
  {
    forall i | 0 <= i < n
      ensures i in Arrived(Upto(0, n))
    {
      assert Upto(0, n)[i] == i;
    }
  }

  lemma LoneIs(r: Rule, orig: seq<Fragment>, st: Session)
    requires Live(r, orig, st) && Receiving(r, orig, st) && Lacks(r, orig, st) == []
    requires 0 < r.windowSize && (|orig| - 1) % r.windowSize == 0
    ensures LoneAll1(r, orig, st)
  {
    hide Live, Receiving, Lacks;
  }
}
