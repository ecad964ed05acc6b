/**
  How whole transfers end: completed, given up although everything has arrived, or never.
 */
module Outcomes {
  import opened Options
  import opened Bits
  import opened Rules
  import opened Fragments
  import opened FrProcedure
  import opened Acks
  import opened AckProofs
  import opened SenderModel
  import opened SenderInvariant
  import opened SenderRuns
  import opened SenderSilence
  import opened SenderTrace
  import opened SessionModel
  import opened SessionProofs
  import opened Delivery
  import opened Repair
  import opened Progress
  import opened Stored
  import opened LiveSessions
  import Agreement
  import Conversation
  import opened FirstPasses
  import opened Transfers

  // ---------------------------------------------------------------- what the receiver gets

  ghost predicate Resendable(r: Rule, log: seq<Sent>) {
    forall i | 0 <= i < |log| && log[i].retransmission :: Numbered(r, log[i].frg)
  }

  /** The session after every retransmission of the log has been stored and marked. */
  ghost function Deliver(r: Rule, st: Session, log: seq<Sent>): (st': Session)
    requires Sized(r, st) && Resendable(r, log)
    ensures Sized(r, st')
    decreases |log|
  {
    if log == [] then st
    else
      var x := log[0];
      Deliver(r, if x.retransmission then Receive(r, st, x.frg) else st, log[1..])
  }

  lemma {:induction false} DeliverAppend(r: Rule, st: Session, a: seq<Sent>, b: seq<Sent>)
    requires Sized(r, st) && Resendable(r, a) && Resendable(r, b)
    ensures Resendable(r, a + b) && Deliver(r, st, a + b) == Deliver(r, Deliver(r, st, a), b)
    decreases |a|
  {
    hide Numbered, Receive, Sized;
    if a == [] {
      assert a + b == b;
    } else {
      var x := a[0];
      assert (a + b)[0] == x && (a + b)[1..] == a[1..] + b;
      DeliverAppend(r, if x.retransmission then Receive(r, st, x.frg) else st, a[1..], b);
    }
  }

  lemma ResendsNumbered(r: Rule, orig: seq<Fragment>, q: seq<Ref>)
    requires Indexed(r, orig)
    requires forall i | 0 <= i < |q| :: q[i].Frg? && q[i].idx < |orig|
    ensures Resendable(r, Resends(orig, q)) && Indices(Idxs(q), |orig|)
    ensures forall k | 0 <= k < |q| :: Idxs(q)[k] < |orig| && Numbered(r, orig[Idxs(q)[k]])
  {
    IndexedNumbered(r, orig);
    hide Numbered, Indexed;
  }

  lemma {:induction false} DeliverResends(r: Rule, orig: seq<Fragment>, st: Session, q: seq<Ref>)
    requires Sized(r, st) && Indexed(r, orig)
    requires forall i | 0 <= i < |q| :: q[i].Frg? && q[i].idx < |orig|
    ensures Resendable(r, Resends(orig, q))
    ensures forall k | 0 <= k < |q| :: Idxs(q)[k] < |orig| && Numbered(r, orig[Idxs(q)[k]])
    ensures Deliver(r, st, Resends(orig, q)) == ReceiveAll(r, st, orig, Idxs(q))
    decreases |q|
  {
    hide Sized, AlreadyReceived, UpdateBitmap, StoreFragment, Receive, Numbered, Indexed, Resendable, Indices;
    ResendsNumbered(r, orig, q);
    if q != [] {
      var f := orig[q[0].idx];
      assert Idxs(q)[0] == q[0].idx;
      assert Resends(orig, q)[1..] == Resends(orig, q[1..]) && Idxs(q)[1..] == Idxs(q[1..]);
      DeliverResends(r, orig, Receive(r, st, f), q[1..]);
    }
  }

  lemma IndexedNumbered(r: Rule, orig: seq<Fragment>)
    requires Indexed(r, orig)
    ensures forall i | 0 <= i < |orig| :: Numbered(r, orig[i])
  {
  }

  /** Working off what a report asks for is the receiver's round. */
  lemma RoundIs(r: Rule, orig: seq<Fragment>, st: Session)
    requires Asks(r, orig, st) && Receiving(r, orig, st) && Sized(r, st)
    requires var q := Wanted(r, orig, st);
      && (forall k | 0 <= k < |q| :: q[k].Frg?)
      && forall k | 0 <= k < |q| :: Idxs(q)[k] < |orig| && Numbered(r, orig[Idxs(q)[k]])
    ensures Round(r, orig, st) == ReceiveAll(r, st, orig, Idxs(Wanted(r, orig, st)))
  {
    AsksParts(r, orig, st);
    hide Numbered, Visible, AskedFor, Incomplete, ReceiveAll, Trigger, Indexed, Receiving, Idxs, Concerns;
  }

  lemma DeliverRound(r: Rule, orig: seq<Fragment>, st: Session)
    requires Asks(r, orig, st)
    ensures Receiving(r, orig, st) && Sized(r, st) && Resendable(r, SessionLog(r, orig, st))
    ensures Deliver(r, st, SessionLog(r, orig, st)) == Round(r, orig, st)
  {
    hide *;
    AsksParts(r, orig, st);
    ReceivingParts(r, orig, st);
    AskedRefs(r, |orig|, All1Of(orig), st.bitmap);
    WantedOf(r, orig, st);
    var q := Wanted(r, orig, st);
    SessionLogIs(r, orig, st);
    var asked := SessionLog(r, orig, st)[0];
    DeliverResends(r, orig, st, q);
    RoundIs(r, orig, st);
    UnsentDelivers(r, st, asked);
    DeliverAppend(r, st, [asked], Resends(orig, q));
  }

  lemma SessionLogIs(r: Rule, orig: seq<Fragment>, st: Session)
    requires Asks(r, orig, st)
    ensures var q := Wanted(r, orig, st); forall i | 0 <= i < |q| :: q[i].Frg? && q[i].idx < |orig|
    ensures var log := SessionLog(r, orig, st);
      log != [] && !log[0].retransmission && log == [log[0]] + Resends(orig, Wanted(r, orig, st))
  {
    AsksParts(r, orig, st);
    AskedRefs(r, |orig|, All1Of(orig), st.bitmap);
    hide Asks, Reports, AskedFor, Resends, SessionAck, Indices, Incomplete, Concerns, Trigger, RepairQueue, Visible;
  }

  lemma UnsentDelivers(r: Rule, st: Session, x: Sent)
    requires Sized(r, st) && !x.retransmission
    ensures Resendable(r, [x]) && Deliver(r, st, [x]) == st
  {
    hide Sized, Numbered;
    assert [x][1..] == [];
  }

  lemma NothingDelivered(r: Rule, st: Session)
    requires Sized(r, st)
    ensures Resendable(r, []) && Deliver(r, st, []) == st
  {
    hide Sized, Numbered;
  }

  /** A dialogue seen from the receiver: the retransmissions of the sender's log, delivered in
      the order they were sent, take the session through its rounds. */
  lemma {:induction false} ExchangeDelivers(r: Rule, orig: seq<Fragment>, st: Session, k: nat)
    requires Repairing(r, orig, st)
    ensures Sized(r, st) && Resendable(r, Exchange(r, orig, st, k))
    ensures Deliver(r, st, Exchange(r, orig, st, k)) == Talked(r, orig, st, k)
    decreases k
  {
    hide *;
    RepairingParts(r, orig, st);
    ReceivingParts(r, orig, st);
    TalkedIs(r, orig, st, k);
    ExchangeIs(r, orig, st, k);
    if k == 0 || !Going(r, orig, st) {
      NothingDelivered(r, st);
    } else {
      GoingAsks(r, orig, st);
      RoundRepairs(r, orig, st);
      DeliverRound(r, orig, st);
      ExchangeDelivers(r, orig, Round(r, orig, st), k - 1);
      DeliverAppend(r, st, SessionLog(r, orig, st), Exchange(r, orig, Round(r, orig, st), k - 1));
    }
  }

  lemma ExchangeIs(r: Rule, orig: seq<Fragment>, st: Session, k: nat)
    requires Repairing(r, orig, st) && Receiving(r, orig, st)
    ensures k == 0 || !Going(r, orig, st) ==> Exchange(r, orig, st, k) == []
    ensures k > 0 && Going(r, orig, st) ==>
      && Asks(r, orig, st) && Repairing(r, orig, Round(r, orig, st))
      && Exchange(r, orig, st, k) == SessionLog(r, orig, st) + Exchange(r, orig, Round(r, orig, st), k - 1)
  {
    hide Repairing, Receiving, Going, Round, SessionLog, Asks;
    RoundRepairs(r, orig, st);
    if Going(r, orig, st) {
      GoingAsks(r, orig, st);
    }
  }

  // ---------------------------------------------------------------- the sender's way to the dialogue's end

  /** The events of a first pass and of a dialogue of at most `k` rounds with session `st`. */
  ghost predicate Course(r: Rule, orig: seq<Fragment>, st: Session, k: nat, answers: seq<Option<BitString>>,
                         first: seq<Event>, es: seq<Event>) {
    && Faithful(r, orig) && |orig| == |answers| + 1 && PassEvents(r, orig, 0, answers, first)
    && Repairing(r, orig, st) && Dialogue(r, orig, st, k, es)
  }

  lemma CourseParts(r: Rule, orig: seq<Fragment>, st: Session, k: nat, answers: seq<Option<BitString>>,
                    first: seq<Event>, es: seq<Event>)
    requires Course(r, orig, st, k, answers, first, es)
    ensures Faithful(r, orig) && |orig| == |answers| + 1 && PassEvents(r, orig, 0, answers, first)
    ensures Repairing(r, orig, st) && Dialogue(r, orig, st, k, es)
  {
    hide Faithful, PassEvents, Repairing, Dialogue;
  }

  /** What the sender has sent by then. */
  ghost function CourseLog(r: Rule, orig: seq<Fragment>, st: Session, k: nat, answers: seq<Option<BitString>>,
                           first: seq<Event>, es: seq<Event>): seq<Sent>
    requires Course(r, orig, st, k, answers, first, es)
  {
    PassLog(r, orig, 0, answers, first) + Exchange(r, orig, st, k)
  }

  /** It is then waiting. */
  lemma CourseRuns(c: Config, r: Rule, orig: seq<Fragment>, st: Session, k: nat, answers: seq<Option<BitString>>,
                   first: seq<Event>, es: seq<Event>, more: seq<Event>) returns (s: Sender)
    requires Course(r, orig, st, k, answers, first, es)
    ensures Faithful(r, orig) && r.WellFormed() && s.frs != [] && Waiting(r, orig, s)
    ensures s.log == CourseLog(r, orig, st, k, answers, first, es) && s.attempts == 0 && s.capacity == |orig|
    ensures RunFromStart(c, r, orig, first + es + more) == Run(c, r, s, more)
  {
    hide *;
    CourseParts(r, orig, st, k, answers, first, es);
    StartPasses(r, orig);
    var s0 := Start(orig, (|orig| - 1) / r.windowSize);
    FirstPass(c, r, orig, s0, 0, answers, first, es + more);
    assert first + es + more == first + (es + more);
    var s1 := Passed(r, orig, s0, 0, answers, first);
    DialogueRuns(c, r, orig, s1, st, k, es, more);
    s := Spoken(r, orig, s1, st, k);
    CourseLogged(r, orig, st, k, answers, first, es);
    FromStartIs(c, r, orig, first + es + more);
  }

  lemma CourseLogged(r: Rule, orig: seq<Fragment>, st: Session, k: nat, answers: seq<Option<BitString>>,
                     first: seq<Event>, es: seq<Event>)
    requires Course(r, orig, st, k, answers, first, es)
    requires |orig| == |answers| + 1 && PassEvents(r, orig, 0, answers, first) && r.windowSize > 0
    requires Repairing(r, orig, st)
    ensures var s1 := Passed(r, orig, Start(orig, (|orig| - 1) / r.windowSize), 0, answers, first);
      var s := Spoken(r, orig, s1, st, k);
      s.log == CourseLog(r, orig, st, k, answers, first, es) && s.attempts == 0 && s.capacity == |orig|
  {
    hide Course, PassEvents, PassLog, Exchange, Repairing;
    var pass := PassLog(r, orig, 0, answers, first);
    assert [] + pass == pass && pass + [] == pass;
  }

  lemma FromStartIs(c: Config, r: Rule, orig: seq<Fragment>, es: seq<Event>)
    requires Faithful(r, orig) && orig != [] && r.windowSize > 0 && r.WellFormed()
    ensures RunFromStart(c, r, orig, es) == Run(c, r, Start(orig, (|orig| - 1) / r.windowSize), es)
  {
    hide Faithful, Run;
  }

  // ---------------------------------------------------------------- completion

  lemma LastIsWindow(r: Rule, orig: seq<Fragment>, last: nat)
    requires Faithful(r, orig) && |orig| > 0 && 0 < r.windowSize && last == (|orig| - 1) / r.windowSize
    ensures last < r.MaxWindowNb()
  {
    All1Trigger(r, orig);
    hide Faithful, Trigger, IsAll1;
  }

  /** The complete ACK ends the wait. */
  lemma CompletionEnds(c: Config, r: Rule, orig: seq<Fragment>, s: Sender, last: nat)
    requires Faithful(r, orig) && Waiting(r, orig, s) && last == s.lastWindow
    ensures r.WellFormed() && s.frs != [] && orig != []
    ensures var (s', status) := Run(c, r, s, [Completion(r, last)]);
      && status == Ended(Completed)
      && s'.log == s.log + [Sent(Frg(|orig| - 1), All1Of(orig), false, Some(CompleteAck(r, last)))]
  {
    hide *;
    var e := Completion(r, last);
    WaitingParts(r, orig, s);
    LastIsWindow(r, orig, last);
    FaithfulSizes(r, orig);
    All1Class(r, orig);
    CompletionSeen(r, last);
    CompleteAckClass(r, last);
    AnsweredIs(r, s, e);
    StepOutcome(c, r, orig, s, |orig|, e);
    HeadClass(r, orig, s, |orig|);
    StepListens(c, r, orig, s, |orig|, e);
    HandledIs(r, s, e);
    Conversation.HeardIs(r, s, e);
    RunUnfolds(c, r, s, [e]);
  }

  /** The sender's side of a transfer that completes, and the marks it leaves at the receiver. */
  lemma RunCompletes(c: Config, r: Rule, orig: seq<Fragment>, st: Session, k: nat,
                          answers: seq<Option<BitString>>, first: seq<Event>, es: seq<Event>)
    requires Course(r, orig, st, k, answers, first, es) && Repairing(r, orig, st)
    requires Receiving(r, orig, st) && r.TupleSize() > 0
    requires k >= CeilDiv(|Lacks(r, orig, st)|, ReaderCapacity(r))
    requires !GivesUp(r, orig, Talked(r, orig, st, k))
    ensures Faithful(r, orig) && orig != [] && r.windowSize > 0
    ensures var last := (|orig| - 1) / r.windowSize;
      var (s, status) := RunFromStart(c, r, orig, first + es + [Completion(r, last)]);
      && status == Ended(Completed)
      && s.log == CourseLog(r, orig, st, k, answers, first, es)
                  + [Sent(Frg(|orig| - 1), All1Of(orig), false, Some(CompleteAck(r, last)))]
    ensures Sized(r, st) && Resendable(r, Exchange(r, orig, st, k))
    ensures HasAll(orig, Deliver(r, st, Exchange(r, orig, st, k)))
  {
    hide *;
    ReceivingParts(r, orig, st);
    var last: nat := (|orig| - 1) / r.windowSize;
    var s := CourseRuns(c, r, orig, st, k, answers, first, es, [Completion(r, last)]);
    WaitingParts(r, orig, s);
    CompletionEnds(c, r, orig, s, last);
    ExchangeDelivers(r, orig, st, k);
    DialogueEnds(r, orig, st, k);
    NothingLacks(r, orig, Talked(r, orig, st, k));
  }

  /** A dialogue stores what it marks. */
  lemma {:induction false} TalkedStores(r: Rule, orig: seq<Fragment>, st: Session, got: set<nat>, k: nat)
    returns (got': set<nat>)
    requires Faithful(r, orig) && Repairing(r, orig, st) && Stores(r, orig, st, got)
    ensures got <= got' && Stores(r, orig, Talked(r, orig, st, k), got')
    decreases k
  {
    hide *;
    got' := got;
    RepairingParts(r, orig, st);
    TalkedIs(r, orig, st, k);
    if k > 0 && Going(r, orig, st) {
      got' := RoundStores(r, orig, st, got);
      got' := TalkedStores(r, orig, Round(r, orig, st), got', k - 1);
    }
  }

  /** A whole transfer that completes. In the first pass any All-0 may be answered by a report
      and any fragment may be lost; `st` is what the receiver has when the All-1 has arrived,
      any session that stores the fragments `got` of the packet, whose report, if data is
      missing, is visible. After at least ceil(L / c) rounds on its L windows that miss data,
      unless the sender has given up, and a complete ACK, sender_start returns COMPLETED, has
      sent exactly the first pass, the rounds and one more All-1, and what the rounds deliver
      makes the receiver's array give back the packet, length and bytes. */
  lemma TransferCompletes(c: Config, r: Rule, packet: seq<Byte>, orig: seq<Fragment>, st: Session, got: set<nat>,
                          k: nat, answers: seq<Option<BitString>>, first: seq<Event>, es: seq<Event>)
    requires Carries(r, packet, orig) && Stores(r, orig, st, got)
    requires Course(r, orig, st, k, answers, first, es) && Repairing(r, orig, st)
    requires Receiving(r, orig, st) && r.TupleSize() > 0
    requires k >= CeilDiv(|Lacks(r, orig, st)|, ReaderCapacity(r))
    requires !GivesUp(r, orig, Talked(r, orig, st, k))
    ensures Faithful(r, orig) && orig != [] && r.windowSize > 0
    ensures var last := (|orig| - 1) / r.windowSize;
      var (s, status) := RunFromStart(c, r, orig, first + es + [Completion(r, last)]);
      && status == Ended(Completed)
      && s.log == CourseLog(r, orig, st, k, answers, first, es)
                  + [Sent(Frg(|orig| - 1), All1Of(orig), false, Some(CompleteAck(r, last)))]
    ensures Sized(r, st) && Resendable(r, Exchange(r, orig, st, k))
    ensures Delivered(r, packet, Deliver(r, st, Exchange(r, orig, st, k)))
  {
    hide *;
    RunCompletes(c, r, orig, st, k, answers, first, es);
    ExchangeDelivers(r, orig, st, k);
    var got' := TalkedStores(r, orig, st, got, k);
    DeliveredExactly(r, packet, orig, Talked(r, orig, st, k), got');
  }

  /** A dialogue that is over without the sender giving up has brought everything. */
  lemma NothingLacks(r: Rule, orig: seq<Fragment>, st: Session)
    requires Repairing(r, orig, st) && !Going(r, orig, st) && !GivesUp(r, orig, st)
    ensures HasAll(orig, st)
  {
    hide GivesUp, Lacks, HasAll;
    RepairingParts(r, orig, st);
    HasAllIs(r, orig, st);
    hide Repairing, Receiving;
  }

  /** A live session of a packet that fills its last window, or whose All-1 is alone in it,
      never makes the sender give up. */
  lemma NeverGivesUp(r: Rule, orig: seq<Fragment>, st: Session, k: nat)
    requires Repairing(r, orig, st) && Live(r, orig, st) && 0 < r.windowSize && orig != []
    requires |orig| % r.windowSize == 0 || (|orig| - 1) % r.windowSize == 0
    ensures !GivesUp(r, orig, Talked(r, orig, st, k))
  {
    hide *;
    TalkedLive(r, orig, st, k);
    GivesUpExactly(r, orig, Talked(r, orig, st, k));
  }

  // ---------------------------------------------------------------- cancellation

  /** A Receiver-Abort, as generate_receiver_abort makes it, ends the run at any step that
      listens for an ACK. */
  lemma ReceiverAbortAnswers(c: Config, r: Rule, orig: seq<Fragment>, s: Sender, k: nat, es: seq<Event>)
    requires Faithful(r, orig) && Inv(r, orig, s, k) && Active(s)
    requires Ready(s) && !s.rt && ExpectsAck(r, Deref(s, Head(s)))
    requires es != [] && es[0] == ReceiverAbortEvent(r)
    ensures r.WellFormed() && s.frs != []
    ensures Run(c, r, s, es) == (Heard(r, s, es[0]), Ended(ReceiverAborted))
  {
    hide *;
    FaithfulSizes(r, orig);
    ReceiverAbortSeen(r);
    ReceiverAbortClass(r);
    AnsweredIs(r, s, es[0]);
    ReceiverAbortEnds(c, r, orig, s, k, es);
  }

  /** After any first pass and any dialogue, a Receiver-Abort that answers the All-1 makes
      sender_start return RECEIVER_ABORTED. */
  lemma TransferCancelled(c: Config, r: Rule, orig: seq<Fragment>, st: Session, k: nat,
                          answers: seq<Option<BitString>>, first: seq<Event>, es: seq<Event>, tail: seq<Event>)
    requires Course(r, orig, st, k, answers, first, es) && tail != [] && tail[0] == ReceiverAbortEvent(r)
    ensures Faithful(r, orig) && orig != []
    ensures var (s, status) := RunFromStart(c, r, orig, first + es + tail);
      && status == Ended(ReceiverAborted)
      && s.log == CourseLog(r, orig, st, k, answers, first, es)
                  + [Sent(Frg(|orig| - 1), All1Of(orig), false, Some(ReceiverAbort(r)))]
  {
    hide *;
    var s := CourseRuns(c, r, orig, st, k, answers, first, es, tail);
    WaitingParts(r, orig, s);
    All1Class(r, orig);
    ReceiverAbortSeen(r);
    AnsweredIs(r, s, tail[0]);
    Conversation.HeardIs(r, s, tail[0]);
    ReceiverAbortAnswers(c, r, orig, s, |orig|, tail);
  }

  // ---------------------------------------------------------------- giving up

  /** The sender gives up at the end of the dialogue. */
  lemma LiveEnds(r: Rule, orig: seq<Fragment>, st: Session, k: nat)
    requires Repairing(r, orig, st) && Live(r, orig, st) && Receiving(r, orig, st) && r.TupleSize() > 0
    requires 0 < r.windowSize && |orig| % r.windowSize != 0 && (|orig| - 1) % r.windowSize != 0
    requires k >= CeilDiv(|Lacks(r, orig, st)|, ReaderCapacity(r))
    ensures var st' := Talked(r, orig, st, k); Live(r, orig, st') && GivesUp(r, orig, st') && Asks(r, orig, st')
  {
    hide *;
    var st' := Talked(r, orig, st, k);
    TalkedLive(r, orig, st, k);
    DialogueEnds(r, orig, st, k);
    LiveParts(r, orig, st');
    if Lacks(r, orig, st') == [] {
      CompleteGivesUp(r, orig, st');
    } else {
      NotGoing(r, orig, st');
    }
    GivesUpReports(r, orig, st');
    GivesUpVisible(r, orig, st');
    AsksFrom(r, orig, st');
  }

  lemma NotGoing(r: Rule, orig: seq<Fragment>, st: Session)
    requires Receiving(r, orig, st) && Lacks(r, orig, st) != [] && !Going(r, orig, st)
    ensures GivesUp(r, orig, st)
  {
    hide Receiving, Lacks, GivesUp;
  }

  /** The events of one more round and at least one more send. */
  ghost predicate LastRound(r: Rule, orig: seq<Fragment>, st: Session, es: seq<Event>) {
    Asks(r, orig, st) && |es| >= 2 + |Wanted(r, orig, st)| && Tells(r, orig, st, es[0])
  }

  lemma LastRoundParts(r: Rule, orig: seq<Fragment>, st: Session, es: seq<Event>)
    requires LastRound(r, orig, st, es)
    ensures Asks(r, orig, st) && |es| >= 2 + |Wanted(r, orig, st)| && Tells(r, orig, st, es[0])
  {
    hide Asks, Wanted, Tells;
  }

  /** The sender's side of a transfer that is given up, and the marks it leaves at the receiver. */
  lemma RunAborts(c: Config, r: Rule, orig: seq<Fragment>, st: Session, k: nat,
                       answers: seq<Option<BitString>>, first: seq<Event>, es: seq<Event>, tail: seq<Event>)
    requires Course(r, orig, st, k, answers, first, es) && Repairing(r, orig, st) && Live(r, orig, st)
    requires Receiving(r, orig, st) && r.TupleSize() > 0 && r.AbortDistinct()
    requires 0 < r.windowSize && |orig| % r.windowSize != 0 && (|orig| - 1) % r.windowSize != 0
    requires k >= CeilDiv(|Lacks(r, orig, st)|, ReaderCapacity(r))
    requires LastRound(r, orig, Talked(r, orig, st, k), tail)
    ensures Faithful(r, orig) && Asks(r, orig, Talked(r, orig, st, k))
    ensures var (s, status) := RunFromStart(c, r, orig, first + es + tail);
      && status == Ended(SenderAborted)
      && s.log == CourseLog(r, orig, st, k, answers, first, es) + SessionLog(r, orig, Talked(r, orig, st, k))
                  + [Sent(AbortSlot, SenderAbort(r), false, None)]
    ensures var sent := Exchange(r, orig, st, k) + SessionLog(r, orig, Talked(r, orig, st, k));
      Sized(r, st) && Resendable(r, sent) && HasAll(orig, Deliver(r, st, sent))
  {
    hide *;
    var st' := Talked(r, orig, st, k);
    LiveEnds(r, orig, st, k);
    LastRoundParts(r, orig, st', tail);
    var s := CourseRuns(c, r, orig, st, k, answers, first, es, tail);
    SessionOnTheWire(c, r, orig, s, st', tail);
    var s' := AfterSession(r, orig, s, st');
    AfterSessionLog(r, orig, s, st');
    AbortGoesOut(c, r, orig, s', tail[1 + |Wanted(r, orig, st')|..]);
    ExchangeDelivers(r, orig, st, k);
    DeliverRound(r, orig, st');
    DeliverAppend(r, st, Exchange(r, orig, st, k), SessionLog(r, orig, st'));
    GivesUpRepairs(r, orig, st');
  }

  /** A whole transfer that is given up. The packet neither fills its last window nor leaves
      the All-1 alone in it, `st` is any session that stores the fragments `got` of the packet,
      the All-1 among them, whose report, if data is missing, is visible, and every report and
      retransmission arrives. After at least ceil(L / c) rounds the next report makes the sender
      queue a Sender-Abort; it still sends everything that report asks for, so that the
      receiver's array gives back the packet, and then ends the transfer with SENDER_ABORTED. */
  lemma TransferAborts(c: Config, r: Rule, packet: seq<Byte>, orig: seq<Fragment>, st: Session, got: set<nat>,
                       k: nat, answers: seq<Option<BitString>>, first: seq<Event>, es: seq<Event>, tail: seq<Event>)
    requires Carries(r, packet, orig) && Stores(r, orig, st, got)
    requires Course(r, orig, st, k, answers, first, es) && Repairing(r, orig, st)
    requires Receiving(r, orig, st) && r.TupleSize() > 0 && r.AbortDistinct()
    requires 0 < r.windowSize && |orig| % r.windowSize != 0 && (|orig| - 1) % r.windowSize != 0
    requires k >= CeilDiv(|Lacks(r, orig, st)|, ReaderCapacity(r))
    requires LastRound(r, orig, Talked(r, orig, st, k), tail)
    ensures Faithful(r, orig) && Asks(r, orig, Talked(r, orig, st, k))
    ensures var (s, status) := RunFromStart(c, r, orig, first + es + tail);
      && status == Ended(SenderAborted)
      && s.log == CourseLog(r, orig, st, k, answers, first, es) + SessionLog(r, orig, Talked(r, orig, st, k))
                  + [Sent(AbortSlot, SenderAbort(r), false, None)]
    ensures var sent := Exchange(r, orig, st, k) + SessionLog(r, orig, Talked(r, orig, st, k));
      Sized(r, st) && Resendable(r, sent) && Delivered(r, packet, Deliver(r, st, sent))
  {
    hide *;
    var st' := Talked(r, orig, st, k);
    CarriesFaithful(r, packet, orig);
    StoresTracks(r, orig, st, got);
    TracksLive(r, orig, st, got);
    RunAborts(c, r, orig, st, k, answers, first, es, tail);
    ExchangeDelivers(r, orig, st, k);
    DeliverRound(r, orig, st');
    DeliverAppend(r, st, Exchange(r, orig, st, k), SessionLog(r, orig, st'));
    var got' := TalkedStores(r, orig, st, got, k);
    got' := RoundStores(r, orig, st', got');
    DeliveredExactly(r, packet, orig, Round(r, orig, st'), got');
  }

  lemma AfterSessionLog(r: Rule, orig: seq<Fragment>, s: Sender, st: Session)
    requires Asks(r, orig, st)
    ensures AfterSession(r, orig, s, st).log == s.log + SessionLog(r, orig, st)
  {
    hide Asks, SessionLog, GivesUp, SenderAbort;
  }

  // ---------------------------------------------------------------- an endless exchange

  /** Everything has arrived, and the All-1 is alone in its window. */
  ghost predicate LoneAll1(r: Rule, orig: seq<Fragment>, st: Session) {
    && Live(r, orig, st) && Receiving(r, orig, st) && Lacks(r, orig, st) == []
    && 0 < r.windowSize && (|orig| - 1) % r.windowSize == 0
  }

  lemma LoneParts(r: Rule, orig: seq<Fragment>, st: Session)
    requires LoneAll1(r, orig, st)
    ensures Live(r, orig, st) && Receiving(r, orig, st) && Lacks(r, orig, st) == []
    ensures 0 < r.windowSize && (|orig| - 1) % r.windowSize == 0
  {
    hide Live, Receiving, Lacks;
  }

  lemma LoneIncomplete(r: Rule, orig: seq<Fragment>, st: Session)
    requires LoneAll1(r, orig, st)
    ensures Receiving(r, orig, st) && 0 < |orig| <= |st.bitmap| && |st.bitmap| == r.MaxFragmentNb()
    ensures 2 <= r.windowSize && |orig| % r.windowSize != 0 && Trigger(r, All1Of(orig))
    ensures Incomplete(r, st.bitmap, All1Of(orig)) == [(|orig| - 1) / r.windowSize]
  {
    hide *;
    LoneParts(r, orig, st);
    LiveParts(r, orig, st);
    ReceivingParts(r, orig, st);
    LacksIs(r, orig, st);
    var n, b, f := |orig|, st.bitmap, All1Of(orig);
    FullIffMultiple(n, r.windowSize);
    LiveMarked(r, orig, st);
    EndIsZero(r, n, b);
    EndNeverExpected(r, f, n, b);
    ReportedIncomplete(r, f, n, b);
    IncompleteIs(r, f, n, b);
  }

  /** The session then reports, asks for nothing, and the sender does not give up. */
  lemma LoneAsks(r: Rule, orig: seq<Fragment>, st: Session)
    requires LoneAll1(r, orig, st)
    ensures Asks(r, orig, st) && Wanted(r, orig, st) == [] && !GivesUp(r, orig, st)
  {
    hide *;
    LoneParts(r, orig, st);
    LoneIncomplete(r, orig, st);
    ReceivingParts(r, orig, st);
    LiveParts(r, orig, st);
    LiveBits(r, |orig|, st.bitmap);
    var n := |orig|;
    LoneReportVisible(r, All1Of(orig), st.bitmap, (n - 1) / r.windowSize, 0);
    AsksFrom(r, orig, st);
    GivesUpExactly(r, orig, st);
    AskedForIsRepair(r, n, st.bitmap, All1Of(orig));
    HasAllIs(r, orig, st);
    WantedOf(r, orig, st);
    NothingToRepair(r, orig, st, SeenWindows(r, st.bitmap, All1Of(orig)), Wanted(r, orig, st));
  }

  lemma NothingToRepair(r: Rule, orig: seq<Fragment>, st: Session, seen: seq<nat>, q: seq<Ref>)
    requires HasAll(orig, st) && 0 < r.windowSize && 0 < |orig| <= |st.bitmap|
    requires RepairQueue(r, |orig|, st.bitmap, seen, q)
    ensures q == []
  {
    hide RepairQueue;
    if q != [] {
      var i := Agreement.QueuedIsMissing(r, |orig|, st.bitmap, seen, q);
    }
  }

  ghost predicate AllTell(r: Rule, orig: seq<Fragment>, st: Session, es: seq<Event>)
    requires Asks(r, orig, st)
  {
    forall i | 0 <= i < |es| :: Tells(r, orig, st, es[i])
  }

  lemma OneTells(r: Rule, orig: seq<Fragment>, st: Session, es: seq<Event>)
    requires Asks(r, orig, st) && AllTell(r, orig, st, es) && es != []
    ensures Tells(r, orig, st, es[0]) && AllTell(r, orig, st, es[1..])
  {
    hide Asks, Tells;
  }

  /** A packet that has arrived completely, with its All-1 alone in its window: every report
      makes the sender send the All-1 again and forget its attempts, so that however long both
      ends go on, and every report arrives, the transfer neither completes nor is given up. */
  lemma {:induction false} NeverAcknowledged(c: Config, r: Rule, orig: seq<Fragment>, s: Sender, st: Session,
                                             es: seq<Event>)
    requires Faithful(r, orig) && Waiting(r, orig, s) && LoneAll1(r, orig, st)
    requires Asks(r, orig, st) && AllTell(r, orig, st, es)
    ensures r.WellFormed() && s.frs != []
    ensures var (s', status) := Run(c, r, s, es);
      status == Running && |s'.log| == |s.log| + |es| && Waiting(r, orig, s')
    decreases |es|
  {
    hide *;
    LoneAsks(r, orig, st);
    WaitingParts(r, orig, s);
    FaithfulSizes(r, orig);
    if es == [] {
      RunWaits(c, r, s);
    } else {
      OneTells(r, orig, st, es);
      SessionOnTheWire(c, r, orig, s, st, es);
      var s' := AfterSession(r, orig, s, st);
      AfterSessionLog(r, orig, s, st);
      SessionLogIs(r, orig, st);
      NoResends(orig);
      NeverAcknowledged(c, r, orig, s', st, es[1..]);
    }
  }

  lemma NoResends(orig: seq<Fragment>)
    ensures Resends(orig, []) == []
  {
  }

  lemma RunWaits(c: Config, r: Rule, s: Sender)
    requires r.WellFormed() && s.frs != [] && Active(s)
    ensures Run(c, r, s, []) == (s, Running)
  {
  }
}
