/**
  Whole transfers: rounds of All-1, report and retransmissions, seen from both ends, until the
  sender is told that nothing is missing, or gives up.
 */
module Transfers {
  import opened Options
  import opened Bits
  import opened Rules
  import opened Fragments
  import opened FrProcedure
  import opened AckProofs
  import opened SenderModel
  import opened SenderQueues
  import opened SenderInvariant
  import opened SenderRuns
  import SenderTrace
  import opened SessionModel
  import opened SessionProofs
  import opened Delivery
  import opened Repair
  import opened Progress
  import opened LiveSessions
  import opened Conversation
  import opened FirstPasses

  // ---------------------------------------------------------------- one round

  /** A session whose check, made by the All-1, leads to a visible report. */
  ghost predicate Asks(r: Rule, orig: seq<Fragment>, st: Session) {
    && Receiving(r, orig, st)
    && Incomplete(r, st.bitmap, All1Of(orig)) != [] && Visible(r, st.bitmap, All1Of(orig))
  }

  lemma AsksParts(r: Rule, orig: seq<Fragment>, st: Session)
    requires Asks(r, orig, st)
    ensures Receiving(r, orig, st) && r.WellFormed() && 0 < |orig| <= |st.bitmap| && |st.bitmap| == r.MaxFragmentNb()
    ensures Trigger(r, All1Of(orig)) && Concerns(r, All1Of(orig), |orig|)
    ensures Incomplete(r, st.bitmap, All1Of(orig)) != [] && Visible(r, st.bitmap, All1Of(orig))
    ensures Reports(r, |orig|, All1Of(orig), st.bitmap) && All1Of(orig) == orig[|orig| - 1]
  {
    hide Receiving, Incomplete, Visible, Concerns, Trigger;
    ReceivingParts(r, orig, st);
  }

  lemma AsksFrom(r: Rule, orig: seq<Fragment>, st: Session)
    requires Receiving(r, orig, st) && orig != [] && |st.bitmap| == r.MaxFragmentNb() && Trigger(r, All1Of(orig))
    requires Incomplete(r, st.bitmap, All1Of(orig)) != [] && Visible(r, st.bitmap, All1Of(orig))
    ensures Asks(r, orig, st)
  {
    hide Receiving, Incomplete, Visible, Trigger;
  }

  /** What the report asks for. */
  ghost function Wanted(r: Rule, orig: seq<Fragment>, st: Session): seq<Ref>
    requires Asks(r, orig, st)
  {
    AsksParts(r, orig, st);
    AskedFor(r, |orig|, st.bitmap, All1Of(orig))
  }

  /** The report arrives. */
  ghost predicate Tells(r: Rule, orig: seq<Fragment>, st: Session, e: Event)
    requires Asks(r, orig, st)
  {
    AsksParts(r, orig, st);
    ReportArrives(r, st.bitmap, All1Of(orig), e)
  }

  /** The All-1 with the report, and then everything wanted. */
  ghost function SessionLog(r: Rule, orig: seq<Fragment>, st: Session): seq<Sent>
    requires Asks(r, orig, st)
  {
    hide *;
    AsksParts(r, orig, st);
    ReportLog(r, orig, |orig| - 1, st.bitmap)
  }

  /** The sender has put a Sender-Abort into its queue, and nothing else is left in it. */
  ghost predicate Aborting(r: Rule, orig: seq<Fragment>, s: Sender) {
    && 0 < |orig| && Inv(r, orig, s, |orig|)
    && s.rq == [] && s.tq == [AbortSlot] && s.senderAbort == SenderAbort(r)
  }

  lemma WaitingParts(r: Rule, orig: seq<Fragment>, s: Sender)
    requires Waiting(r, orig, s)
    ensures 0 < |orig| && Inv(r, orig, s, |orig|) && s.rq == [] && s.tq == [Frg(|orig| - 1)] && s.frs == orig
    ensures s.frs != [] && !s.rt && Active(s) && Ready(s) && Head(s) == Frg(|orig| - 1) && InRange(s, Head(s))
    ensures 0 < r.windowSize && s.lastWindow == (|orig| - 1) / r.windowSize && Deref(s, Head(s)) == All1Of(orig)
  {
  }

  lemma WaitingChecked(r: Rule, orig: seq<Fragment>, s: Sender, st: Session)
    requires Faithful(r, orig) && Waiting(r, orig, s) && Asks(r, orig, st)
    ensures Checked(r, orig, s, |orig|, st.bitmap)
  {
    hide Faithful, Inv, Waiting, Asks, Incomplete, Concerns, Trigger;
    AsksParts(r, orig, st);
    WaitingParts(r, orig, s);
  }

  /** The sender after a round: waiting again, or about to send its Sender-Abort. */
  ghost function AfterSession(r: Rule, orig: seq<Fragment>, s: Sender, st: Session): Sender
    requires Asks(r, orig, st)
  {
    var s' := s.(attempts := 0, log := s.log + SessionLog(r, orig, st));
    if GivesUp(r, orig, st) then s'.(tq := [AbortSlot], senderAbort := SenderAbort(r)) else s'
  }

  lemma All1Class(r: Rule, orig: seq<Fragment>)
    requires Faithful(r, orig)
    ensures orig != [] && IsAll1(r, All1Of(orig)) && ExpectsAck(r, All1Of(orig)) && !IsSenderAbort(r, All1Of(orig))
  {
    hide IsAll1, ExpectsAck, IsSenderAbort, Window, RuleIdField, AbortFrom, SenderAbort, IsAll0;
    FaithfulSizes(r, orig);
    ClassOfOriginal(r, orig, |orig| - 1);
  }

  lemma SessionRound(r: Rule, orig: seq<Fragment>, s: Sender, st: Session)
    requires Faithful(r, orig) && Waiting(r, orig, s) && Asks(r, orig, st)
    ensures Checked(r, orig, s, |orig|, st.bitmap)
    ensures WantedBy(r, orig, s, |orig|, st.bitmap) == Wanted(r, orig, st)
    ensures AfterRound(r, orig, s, |orig|, st.bitmap) == AfterSession(r, orig, s, st)
  {
    hide *;
    AsksParts(r, orig, st);
    WaitingParts(r, orig, s);
    WaitingChecked(r, orig, s, st);
    WantedIs(r, orig, s, |orig|, st.bitmap);
    All1Class(r, orig);
    WantedOf(r, orig, st);
    GivesUpThereIs(r, orig, s, st);
    SessionRoundIs(r, orig, s, st);
  }

  lemma WantedOf(r: Rule, orig: seq<Fragment>, st: Session)
    requires Asks(r, orig, st)
    requires orig != [] && r.WellFormed() && |st.bitmap| == r.MaxFragmentNb() && Concerns(r, All1Of(orig), |orig|)
    requires Incomplete(r, st.bitmap, All1Of(orig)) != []
    ensures Wanted(r, orig, st) == AskedFor(r, |orig|, st.bitmap, All1Of(orig))
  {
    hide Asks, Concerns, Incomplete, AskedFor;
  }

  lemma GivesUpThereIs(r: Rule, orig: seq<Fragment>, s: Sender, st: Session)
    requires Checked(r, orig, s, |orig|, st.bitmap) && Asks(r, orig, st)
    requires orig != [] && Ready(s) && InRange(s, Head(s)) && Deref(s, Head(s)) == All1Of(orig)
    ensures GivesUpThere(r, orig, s, |orig|, st.bitmap) <==> GivesUp(r, orig, st)
  {
    hide Checked, Receiving, Visible, Incomplete, SeenWindows, GivesUpSeeing;
  }

  lemma SessionRoundIs(r: Rule, orig: seq<Fragment>, s: Sender, st: Session)
    requires Checked(r, orig, s, |orig|, st.bitmap) && Asks(r, orig, st) && orig != []
    requires Ready(s) && InRange(s, Head(s)) && Head(s) == Frg(|orig| - 1) && Deref(s, Head(s)) == All1Of(orig)
    requires s.tq == [Frg(|orig| - 1)] && IsAll1(r, All1Of(orig)) && !s.rt
    requires r.WellFormed() && |st.bitmap| == r.MaxFragmentNb() && Concerns(r, All1Of(orig), |orig|)
    requires Trigger(r, All1Of(orig)) && Incomplete(r, st.bitmap, All1Of(orig)) != []
    requires Reports(r, |orig|, All1Of(orig), st.bitmap)
    requires WantedBy(r, orig, s, |orig|, st.bitmap) == AskedFor(r, |orig|, st.bitmap, All1Of(orig))
    requires GivesUpThere(r, orig, s, |orig|, st.bitmap) <==> GivesUp(r, orig, st)
    ensures AfterRound(r, orig, s, |orig|, st.bitmap) == AfterSession(r, orig, s, st)
  {
    hide Checked, Asks, Reports, Concerns, Trigger, Incomplete, WantedBy, AskedFor, SenderTrace.Resends,
         GivesUpThere, GivesUp,
         SessionAck, SenderAbort, IsAll1;
    assert s.tq[1..] == [];
    assert [] + [Frg(|orig| - 1)] == [Frg(|orig| - 1)] && [] + [AbortSlot] == [AbortSlot];
  }

  lemma AfterWaits(r: Rule, orig: seq<Fragment>, s: Sender, st: Session)
    requires Asks(r, orig, st) && Waiting(r, orig, s) && Inv(r, orig, AfterSession(r, orig, s, st), |orig|)
    ensures if GivesUp(r, orig, st) then Aborting(r, orig, AfterSession(r, orig, s, st))
            else Waiting(r, orig, AfterSession(r, orig, s, st))
  {
    hide Asks, Inv, GivesUp, SessionLog, SenderAbort;
  }

  lemma AtEnd(s: Sender, n: nat)
    ensures NextK(s, n, n) == n
  {
  }

  /** A round of a waiting sender with a session: the All-1 is answered by the report, and
      then the sender sends exactly what is wanted, in order; afterwards it waits again or
      holds a Sender-Abort. */
  lemma SessionOnTheWire(c: Config, r: Rule, orig: seq<Fragment>, s: Sender, st: Session, es: seq<Event>)
    requires Faithful(r, orig) && Waiting(r, orig, s) && Asks(r, orig, st)
    requires |es| >= 1 + |Wanted(r, orig, st)| && Tells(r, orig, st, es[0])
    ensures r.WellFormed() && s.frs != [] && AfterSession(r, orig, s, st).frs != []
    ensures if GivesUp(r, orig, st) then Aborting(r, orig, AfterSession(r, orig, s, st))
            else Waiting(r, orig, AfterSession(r, orig, s, st))
    ensures Run(c, r, s, es) == Run(c, r, AfterSession(r, orig, s, st), es[1 + |Wanted(r, orig, st)|..])
  {
    hide *;
    AsksParts(r, orig, st);
    WaitingParts(r, orig, s);
    SessionRound(r, orig, s, st);
    TellsIs(r, orig, st, es[0]);
    ToldFrom(r, orig, s, |orig|, st.bitmap, es[0]);
    RoundOnTheWire(c, r, orig, s, |orig|, st.bitmap, es);
    AtEnd(s, |orig|);
    AfterWaits(r, orig, s, st);
  }

  lemma TellsIs(r: Rule, orig: seq<Fragment>, st: Session, e: Event)
    requires Asks(r, orig, st) && Tells(r, orig, st, e)
    requires orig != [] && |st.bitmap| == r.MaxFragmentNb() && Trigger(r, All1Of(orig))
    ensures ReportArrives(r, st.bitmap, All1Of(orig), e)
  {
    hide Asks, Trigger, ReportArrives;
  }

  // ---------------------------------------------------------------- an unanswered All-1

  /** One more unanswered All-1 does not exhaust the sender's patience. */
  predicate Patient(c: Config, attempts: nat) {
    c.disableMax || attempts + 1 < c.maxAckRequests
  }

  /** An All-1 that nobody answers, while there is patience left: the sender waits again. */
  lemma UnansweredAll1(c: Config, r: Rule, orig: seq<Fragment>, s: Sender, e: Event)
    requires Faithful(r, orig) && Waiting(r, orig, s) && !Delivers(e) && Patient(c, s.attempts)
    ensures r.WellFormed() && s.frs != [] && Ready(s) && orig != []
    ensures var s' := s.(attempts := s.attempts + 1,
                         log := s.log + [Sent(Frg(|orig| - 1), All1Of(orig), false, None)]);
      Step(c, r, s, e) == (s', Continue) && Waiting(r, orig, s')
  {
    hide *;
    WaitingParts(r, orig, s);
    All1Class(r, orig);
    HeadClass(r, orig, s, |orig|);
    StepSilent(c, r, orig, s, |orig|, e);
    HeardRoom(r, orig, s, |orig|, e);
    HeardQueue(r, s, e);
    All1Again(c, r, orig, s, e);
    StillWaits(r, orig, s, s.attempts + 1, s.log + [Sent(Frg(|orig| - 1), All1Of(orig), false, None)]);
  }

  lemma HeardQueue(r: Rule, s: Sender, e: Event)
    requires Ready(s) && !s.rt
    ensures Heard(r, s, e).tq == s.tq[1..] && Heard(r, s, e).capacity == s.capacity
  {
    hide IsAll1, ExpectsAck, Delivers, Buffer;
  }

  lemma All1Again(c: Config, r: Rule, orig: seq<Fragment>, s: Sender, e: Event)
    requires orig != [] && Ready(s) && !s.rt && s.tq == [Frg(|orig| - 1)] && Head(s) == Frg(|orig| - 1)
    requires InRange(s, Head(s)) && Deref(s, Head(s)) == All1Of(orig) && IsAll1(r, All1Of(orig))
    requires !IsSenderAbort(r, All1Of(orig)) && !Delivers(e) && Patient(c, s.attempts) && |s.tq[1..]| < s.capacity
    ensures AfterSilence(c, r, s, e) == (s.(attempts := s.attempts + 1,
      log := s.log + [Sent(Frg(|orig| - 1), All1Of(orig), false, None)]), Continue)
  {
    hide IsAll1, IsSenderAbort, SenderAbort, ExpectsAck, Delivers, Buffer;
    assert s.tq[1..] == [] && [] + [Frg(|orig| - 1)] == s.tq;
  }

  lemma StillWaits(r: Rule, orig: seq<Fragment>, s: Sender, attempts: nat, log: seq<Sent>)
    requires Waiting(r, orig, s)
    ensures Waiting(r, orig, s.(attempts := attempts, log := log))
  {
  }

  // ---------------------------------------------------------------- the Sender-Abort

  lemma AbortingParts(r: Rule, orig: seq<Fragment>, s: Sender)
    requires Aborting(r, orig, s)
    ensures 0 < |orig| && Inv(r, orig, s, |orig|) && s.frs != [] && !s.rt && Active(s) && Ready(s)
    ensures Head(s) == AbortSlot && InRange(s, Head(s)) && Deref(s, Head(s)) == SenderAbort(r) && s.tq == [AbortSlot]
  {
    hide SenderAbort;
  }

  /** The Sender-Abort goes out and ends the run, whatever the socket yields. */
  lemma AbortGoesOut(c: Config, r: Rule, orig: seq<Fragment>, s: Sender, es: seq<Event>)
    requires Faithful(r, orig) && Aborting(r, orig, s) && r.AbortDistinct() && es != []
    ensures r.WellFormed() && s.frs != []
    ensures var (s', status) := Run(c, r, s, es);
      status == Ended(SenderAborted) && s'.log == s.log + [Sent(AbortSlot, SenderAbort(r), false, None)]
  {
    hide *;
    AbortingParts(r, orig, s);
    HeadClass(r, orig, s, |orig|);
    ClassOfAbort(r);
    StepSilent(c, r, orig, s, |orig|, es[0]);
    AbortLogged(c, r, s, es[0]);
    RunUnfolds(c, r, s, es);
  }

  lemma AbortLogged(c: Config, r: Rule, s: Sender, e: Event)
    requires Ready(s) && !s.rt && Head(s) == AbortSlot && Deref(s, Head(s)) == SenderAbort(r)
    requires IsSenderAbort(r, SenderAbort(r)) && !ExpectsAck(r, SenderAbort(r))
    ensures var (s', o) := AfterSilence(c, r, s, e);
      o == SenderAborted && s'.log == s.log + [Sent(AbortSlot, SenderAbort(r), false, None)]
  {
    hide SenderAbort, IsSenderAbort, ExpectsAck, IsAll1, Delivers, Buffer;
  }

  /** A live session whose report arrives, and one more send: the run has ended with a
      Sender-Abort exactly when the rule's Sender-Abort can be told from an All-1 and the
      packet's last window, neither filled by the packet nor holding the All-1 alone, is among
      those the sender sees and misses no data. */
  lemma LiveRoundAborts(c: Config, r: Rule, orig: seq<Fragment>, s: Sender, st: Session, es: seq<Event>)
    requires Faithful(r, orig) && Waiting(r, orig, s) && Live(r, orig, st) && Asks(r, orig, st)
    requires |es| == 2 + |Wanted(r, orig, st)| && Tells(r, orig, st, es[0])
    ensures r.WellFormed() && s.frs != [] && r.TupleSize() > 0 && 0 < r.windowSize
    ensures |st.bitmap| == r.MaxFragmentNb() && 0 < |orig| <= |st.bitmap| && Trigger(r, All1Of(orig))
    ensures (|orig| - 1) / r.windowSize < r.MaxWindowNb()
    ensures Run(c, r, s, es).1 == Ended(SenderAborted) <==>
      && r.AbortDistinct()
      && |orig| % r.windowSize != 0 && (|orig| - 1) % r.windowSize != 0
      && (|orig| - 1) / r.windowSize in SeenWindows(r, st.bitmap, All1Of(orig))
      && DataFull(r, |orig|, st.bitmap)
  {
    hide *;
    WaitingParts(r, orig, s);
    GivesUpExactly(r, orig, st);
    SessionOnTheWire(c, r, orig, s, st, es);
    var s', rest := AfterSession(r, orig, s, st), es[1 + |Wanted(r, orig, st)|..];
    if !GivesUp(r, orig, st) {
      All1NoAbort(c, r, orig, s', rest);
    } else if r.AbortDistinct() {
      AbortGoesOut(c, r, orig, s', rest);
    } else {
      AbortingParts(r, orig, s');
      AbortNeedsDistinct(c, r, orig, s', |orig|, rest[0]);
      RunUnfolds(c, r, s', rest);
      assert rest[1..] == [];
      NothingMore(c, r, Step(c, r, s', rest[0]).0);
    }
  }

  /** Otherwise the round progresses: the sender waits again, the session is live still, and
      the windows the report let the sender see miss no data any more. */
  lemma LiveRoundProgresses(c: Config, r: Rule, orig: seq<Fragment>, s: Sender, st: Session, es: seq<Event>)
    requires Faithful(r, orig) && Waiting(r, orig, s) && Live(r, orig, st) && Asks(r, orig, st)
    requires |es| >= 1 + |Wanted(r, orig, st)| && Tells(r, orig, st, es[0])
    requires !GivesUp(r, orig, st)
    ensures r.WellFormed() && s.frs != [] && AfterSession(r, orig, s, st).frs != []
    ensures Run(c, r, s, es) == Run(c, r, AfterSession(r, orig, s, st), es[1 + |Wanted(r, orig, st)|..])
    ensures Waiting(r, orig, AfterSession(r, orig, s, st))
    ensures Receiving(r, orig, st) && Live(r, orig, Round(r, orig, st)) && r.TupleSize() > 0
    ensures Lacks(r, orig, Round(r, orig, st))
         == Lacks(r, orig, st)[Min(|Lacks(r, orig, st)|, ReaderCapacity(r))..]
  {
    hide *;
    AsksParts(r, orig, st);
    ReceivingParts(r, orig, st);
    SessionOnTheWire(c, r, orig, s, st, es);
    RoundLive(r, orig, st);
    SeenRound(r, orig, st);
  }

  /** Sending the All-1 is no Sender-Abort. */
  lemma All1NoAbort(c: Config, r: Rule, orig: seq<Fragment>, s: Sender, es: seq<Event>)
    requires Faithful(r, orig) && Waiting(r, orig, s) && |es| == 1
    ensures r.WellFormed() && s.frs != [] && Run(c, r, s, es).1 != Ended(SenderAborted)
  {
    hide *;
    WaitingParts(r, orig, s);
    StepOutcome(c, r, orig, s, |orig|, es[0]);
    All1Class(r, orig);
    RunUnfolds(c, r, s, es);
    assert es[1..] == [];
    NothingMore(c, r, Step(c, r, s, es[0]).0);
  }

  lemma NothingMore(c: Config, r: Rule, s: Sender)
    requires r.WellFormed() && s.frs != []
    ensures Run(c, r, s, []).1 == Drained || Run(c, r, s, []).1 == Running
  {
  }

  // ---------------------------------------------------------------- dialogues

  /** There is something to bring, and the sender does not give up. */
  ghost predicate Going(r: Rule, orig: seq<Fragment>, st: Session) {
    Receiving(r, orig, st) && Lacks(r, orig, st) != [] && !GivesUp(r, orig, st)
  }

  lemma GoingAsks(r: Rule, orig: seq<Fragment>, st: Session)
    requires Repairing(r, orig, st) && Going(r, orig, st)
    ensures Asks(r, orig, st)
  {
    hide *;
    RepairingParts(r, orig, st);
    GoingLacks(r, orig, st);
    LacksReported(r, orig, st);
    AsksFrom(r, orig, st);
  }

  lemma GoingLacks(r: Rule, orig: seq<Fragment>, st: Session)
    requires Going(r, orig, st)
    ensures Receiving(r, orig, st) && Lacks(r, orig, st) != [] && !GivesUp(r, orig, st)
  {
    hide Receiving, Lacks, GivesUp;
  }

  /** The receiver's answers in at most `k` rounds: as long as the dialogue is going, each
      All-1 is answered by the report of the session as it then stands; what the socket
      yields during retransmissions is arbitrary. */
  ghost predicate Dialogue(r: Rule, orig: seq<Fragment>, st: Session, k: nat, es: seq<Event>)
    requires Repairing(r, orig, st)
    decreases k
  {
    if k == 0 || !Going(r, orig, st) then es == []
    else
      GoingAsks(r, orig, st);
      RoundRepairs(r, orig, st);
      var m := 1 + |Wanted(r, orig, st)|;
      |es| >= m && Tells(r, orig, st, es[0]) && Dialogue(r, orig, Round(r, orig, st), k - 1, es[m..])
  }

  /** What the sender sends in them. */
  ghost function Exchange(r: Rule, orig: seq<Fragment>, st: Session, k: nat): (log: seq<Sent>)
    requires Repairing(r, orig, st)
    decreases k
  {
    if k == 0 || !Going(r, orig, st) then []
    else
      GoingAsks(r, orig, st);
      RoundRepairs(r, orig, st);
      SessionLog(r, orig, st) + Exchange(r, orig, Round(r, orig, st), k - 1)
  }

  /** The session after them. */
  ghost function Talked(r: Rule, orig: seq<Fragment>, st: Session, k: nat): (st': Session)
    requires Repairing(r, orig, st)
    ensures Repairing(r, orig, st')
    decreases k
  {
    if k == 0 || !Going(r, orig, st) then st
    else
      RoundRepairs(r, orig, st);
      Talked(r, orig, Round(r, orig, st), k - 1)
  }

  /** The sender after them. */
  ghost function Spoken(r: Rule, orig: seq<Fragment>, s: Sender, st: Session, k: nat): Sender
    requires Repairing(r, orig, st)
  {
    var log := Exchange(r, orig, st, k);
    if log == [] then s else s.(attempts := 0, log := s.log + log)
  }

  lemma DialogueStep(r: Rule, orig: seq<Fragment>, st: Session, k: nat, es: seq<Event>)
    requires Repairing(r, orig, st) && Going(r, orig, st) && k > 0 && Dialogue(r, orig, st, k, es)
    ensures Asks(r, orig, st) && Receiving(r, orig, st) && Repairing(r, orig, Round(r, orig, st))
    ensures var m := 1 + |Wanted(r, orig, st)|;
      |es| >= m && Tells(r, orig, st, es[0]) && Dialogue(r, orig, Round(r, orig, st), k - 1, es[m..])
    ensures Exchange(r, orig, st, k) == SessionLog(r, orig, st) + Exchange(r, orig, Round(r, orig, st), k - 1)
    ensures Exchange(r, orig, st, k) != []
  {
    hide Repairing, Going, Asks, Tells, Wanted, Round, Receiving, ReportLog;
    GoingAsks(r, orig, st);
    RoundRepairs(r, orig, st);
    LogNotEmpty(r, orig, st);
  }

  lemma LogNotEmpty(r: Rule, orig: seq<Fragment>, st: Session)
    requires Asks(r, orig, st)
    ensures SessionLog(r, orig, st) != []
  {
    AsksParts(r, orig, st);
    hide Asks, Reports, AskedFor, SenderTrace.Resends, SessionAck;
  }

  lemma DialogueOver(r: Rule, orig: seq<Fragment>, s: Sender, st: Session, k: nat, es: seq<Event>)
    requires Repairing(r, orig, st) && (k == 0 || !Going(r, orig, st)) && Dialogue(r, orig, st, k, es)
    ensures es == [] && Spoken(r, orig, s, st, k) == s && Exchange(r, orig, st, k) == []
  {
    hide Repairing, Going;
  }

  lemma SpokenStep(r: Rule, orig: seq<Fragment>, s: Sender, st: Session, k: nat)
    requires Repairing(r, orig, st) && Asks(r, orig, st) && k > 0 && Receiving(r, orig, st) && !GivesUp(r, orig, st)
    requires Repairing(r, orig, Round(r, orig, st))
    requires Exchange(r, orig, st, k) == SessionLog(r, orig, st) + Exchange(r, orig, Round(r, orig, st), k - 1)
    requires Exchange(r, orig, st, k) != []
    ensures Spoken(r, orig, s, st, k) == Spoken(r, orig, AfterSession(r, orig, s, st), Round(r, orig, st), k - 1)
  {
    hide Repairing, Asks, Round, Exchange, SessionLog, GivesUp;
    var rest := Exchange(r, orig, Round(r, orig, st), k - 1);
    AppendAssociative(s.log, SessionLog(r, orig, st), rest);
    assert s.log + SessionLog(r, orig, st) + [] == s.log + SessionLog(r, orig, st);
  }

  /** A dialogue of any number of rounds, seen from the sender. */
  lemma {:induction false} DialogueRuns(c: Config, r: Rule, orig: seq<Fragment>, s: Sender, st: Session, k: nat,
                                        es: seq<Event>, more: seq<Event>)
    requires Faithful(r, orig) && Waiting(r, orig, s) && Repairing(r, orig, st) && Dialogue(r, orig, st, k, es)
    ensures r.WellFormed() && s.frs != [] && Waiting(r, orig, Spoken(r, orig, s, st, k))
    ensures Spoken(r, orig, s, st, k).frs != []
    ensures Run(c, r, s, es + more) == Run(c, r, Spoken(r, orig, s, st, k), more)
    decreases k
  {
    hide *;
    FaithfulSizes(r, orig);
    WaitingParts(r, orig, s);
    if k == 0 || !Going(r, orig, st) {
      DialogueOver(r, orig, s, st, k, es);
      assert es + more == more;
    } else {
      DialogueStep(r, orig, st, k, es);
      GoingLacks(r, orig, st);
      var m, s', st' := 1 + |Wanted(r, orig, st)|, AfterSession(r, orig, s, st), Round(r, orig, st);
      assert (es + more)[0] == es[0] && (es + more)[m..] == es[m..] + more;
      SessionOnTheWire(c, r, orig, s, st, es + more);
      DialogueRuns(c, r, orig, s', st', k - 1, es[m..], more);
      SpokenStep(r, orig, s, st, k);
    }
  }

  /** After at least ceil(L / c) rounds on the L windows that miss data the dialogue is over:
      nothing is missing, or the sender gives up. */
  lemma {:induction false} DialogueEnds(r: Rule, orig: seq<Fragment>, st: Session, k: nat)
    requires Repairing(r, orig, st) && Receiving(r, orig, st) && r.TupleSize() > 0
    requires k >= CeilDiv(|Lacks(r, orig, st)|, ReaderCapacity(r))
    ensures !Going(r, orig, Talked(r, orig, st, k))
    decreases k
  {
    hide *;
    CapacityPositive(r);
    TalkedIs(r, orig, st, k);
    if Going(r, orig, st) {
      GoingLacks(r, orig, st);
      RoundRepairs(r, orig, st);
      OneRoundLess(|Lacks(r, orig, st)|, ReaderCapacity(r), k);
      DropLength(Lacks(r, orig, st), ReaderCapacity(r));
      DialogueEnds(r, orig, Round(r, orig, st), k - 1);
    }
  }

  lemma TalkedIs(r: Rule, orig: seq<Fragment>, st: Session, k: nat)
    requires Repairing(r, orig, st) && Receiving(r, orig, st)
    ensures k == 0 || !Going(r, orig, st) ==> Talked(r, orig, st, k) == st
    ensures k > 0 && Going(r, orig, st) ==>
      Repairing(r, orig, Round(r, orig, st)) && Talked(r, orig, st, k) == Talked(r, orig, Round(r, orig, st), k - 1)
  {
    hide Repairing, Receiving, Going, Round;
    RoundRepairs(r, orig, st);
  }

  lemma OneRoundLess(len: nat, cap: nat, k: nat)
    requires cap > 0 && len > 0 && k >= CeilDiv(len, cap)
    ensures k > 0 && k - 1 >= CeilDiv(len - Min(len, cap), cap)
  {
    var q := (len + cap - 1) / cap;
    assert len + cap - 1 == cap * q + (len + cap - 1) % cap;
    if len > cap {
      DivIs(len + cap - 1, cap, q);
      TimesOneLess(cap, q);
      DivIs(len - 1, cap, q - 1);
    } else {
      DivIs(cap - 1, cap, 0);
    }
  }

  lemma TimesOneLess(a: nat, q: int)
    ensures a * (q - 1) == a * q - a
  {
  }

  lemma DropLength(ws: seq<nat>, c: nat)
    ensures |ws[Min(|ws|, c)..]| == |ws| - Min(|ws|, c)
  {
  }

  /** Being live outlasts a dialogue. */
  lemma {:induction false} TalkedLive(r: Rule, orig: seq<Fragment>, st: Session, k: nat)
    requires Repairing(r, orig, st) && Live(r, orig, st)
    ensures Live(r, orig, Talked(r, orig, st, k))
    decreases k
  {
    hide *;
    RepairingParts(r, orig, st);
    TalkedIs(r, orig, st, k);
    if k > 0 && Going(r, orig, st) {
      RoundLive(r, orig, st);
      TalkedLive(r, orig, Round(r, orig, st), k - 1);
    }
  }
}
