/**
  The first pass: every fragment below the All-1 goes out once, whatever becomes of it; at
  each All-0 the receiver may report what it misses so far, and that is sent again.
 */
module FirstPasses {
  import opened Options
  import opened Bits
  import opened Rules
  import opened Fragments
  import opened FrProcedure
  import opened SenderModel
  import opened SenderInvariant
  import opened SenderSilence
  import SenderTrace
  import opened SessionModel
  import SessionProofs
  import opened Delivery
  import opened Repair
  import opened Progress
  import opened Conversation

  // ---------------------------------------------------------------- the sender during the pass

  /** Fragments `k` and later wait for their turn, and nothing else does. */
  ghost predicate Passing(r: Rule, orig: seq<Fragment>, s: Sender, k: nat) {
    && k < |orig| && Inv(r, orig, s, k) && s.frs == orig
    && s.rq == [] && s.tq == RefsFrom(k, |orig|) && s.attempts == 0
  }

  /** Every fragment has been sent, save perhaps the All-1, and only that is queued. */
  ghost predicate Waiting(r: Rule, orig: seq<Fragment>, s: Sender) {
    && 0 < |orig| && Inv(r, orig, s, |orig|)
    && s.rq == [] && s.tq == [Frg(|orig| - 1)] && s.frs == orig
  }

  lemma StartPasses(r: Rule, orig: seq<Fragment>)
    requires Faithful(r, orig)
    ensures orig != [] && r.windowSize > 0 && r.WellFormed()
    ensures Passing(r, orig, Start(orig, (|orig| - 1) / r.windowSize), 0)
  {
    SilentGround(Config(0, false), r, orig, 0);
    StartInv(r, orig);
    hide Faithful, Inv;
  }

  lemma PassedWaits(r: Rule, orig: seq<Fragment>, s: Sender)
    requires orig != [] && Passing(r, orig, s, |orig| - 1)
    ensures Waiting(r, orig, s)
  {
  }

  lemma PassingParts(r: Rule, orig: seq<Fragment>, s: Sender, k: nat)
    requires Faithful(r, orig) && Passing(r, orig, s, k)
    ensures k < |orig| && Inv(r, orig, s, k) && s.frs == orig && s.frs != [] && s.rq == [] && s.attempts == 0
    ensures s.tq == RefsFrom(k, |orig|) && r.WellFormed() && 0 < r.windowSize
    ensures Active(s) && !s.rt && Ready(s) && Head(s) == Frg(k) && InRange(s, Head(s)) && Deref(s, Head(s)) == orig[k]
    ensures s.lastWindow == (|orig| - 1) / r.windowSize
  {
    FaithfulSizes(r, orig);
    hide Faithful;
  }

  // ---------------------------------------------------------------- what may happen to a fragment

  /** The fragment makes the session check bitmap `b`, something is missing, and the report is
      visible. */
  ghost predicate Reports(r: Rule, n: nat, f: Fragment, b: BitString) {
    && r.WellFormed() && Concerns(r, f, n) && n <= |b| && |b| == r.MaxFragmentNb()
    && Incomplete(r, b, f) != [] && Visible(r, b, f)
  }

  /** What is heard at fragment `k`: nothing, or a report on the given bitmap. */
  ghost predicate TurnOk(r: Rule, orig: seq<Fragment>, k: nat, answer: Option<BitString>) {
    k < |orig| && (answer.Some? ==> Reports(r, |orig|, orig[k], answer.value))
  }

  /** How many fragments go out in the turn of fragment `k`. */
  ghost function TurnSteps(r: Rule, orig: seq<Fragment>, k: nat, answer: Option<BitString>): (m: nat)
    requires TurnOk(r, orig, k, answer)
    ensures m > 0
  {
    match answer
    case None => 1
    case Some(b) => 1 + |AskedFor(r, |orig|, b, orig[k])|
  }

  /** The events of one turn. What the socket yields where the sender does not listen is
      arbitrary. */
  ghost predicate TurnEvents(r: Rule, orig: seq<Fragment>, k: nat, answer: Option<BitString>, es: seq<Event>) {
    && TurnOk(r, orig, k, answer) && |es| >= TurnSteps(r, orig, k, answer)
    && match answer
       case None => !(ExpectsAck(r, orig[k]) && Delivers(es[0]))
       case Some(b) => ReportArrives(r, b, orig[k], es[0])
  }

  lemma TurnIsOk(r: Rule, orig: seq<Fragment>, k: nat, answer: Option<BitString>, es: seq<Event>)
    requires TurnEvents(r, orig, k, answer, es)
    ensures TurnOk(r, orig, k, answer) && es != [] && |es| >= TurnSteps(r, orig, k, answer)
  {
    hide TurnOk, TurnSteps, ExpectsAck, Delivers, ReportArrives;
  }

  /** The events of the pass from fragment `k` on. For each fragment `answers` says whether
      nothing is heard, or which bitmap the report that arrives is about. */
  ghost predicate PassEvents(r: Rule, orig: seq<Fragment>, k: nat, answers: seq<Option<BitString>>, es: seq<Event>)
    requires k < |orig| == |answers| + 1
    decreases |orig| - k
  {
    if k == |orig| - 1 then es == []
    else
      && TurnEvents(r, orig, k, answers[k], es)
      && (TurnIsOk(r, orig, k, answers[k], es);
          PassEvents(r, orig, k + 1, answers, es[TurnSteps(r, orig, k, answers[k])..]))
  }

  /** What the sender sends for fragment `k`: the fragment and, if a report arrives, all it
      asks for. */
  ghost function TurnLog(r: Rule, orig: seq<Fragment>, k: nat, answer: Option<BitString>): seq<Sent>
    requires TurnOk(r, orig, k, answer)
  {
    match answer
    case None => [Sent(Frg(k), orig[k], false, None)]
    case Some(b) => ReportLog(r, orig, k, b)
  }

  /** The answered fragment, with the report, and then what the report asks for. */
  ghost function ReportLog(r: Rule, orig: seq<Fragment>, k: nat, b: BitString): seq<Sent>
    requires k < |orig| && Reports(r, |orig|, orig[k], b)
  {
    AskedRefs(r, |orig|, orig[k], b);
    ReportShape(r, b, orig[k]);
    [Sent(Frg(k), orig[k], false, Some(SessionAck(r, b, orig[k]).value))]
      + SenderTrace.Resends(orig, AskedFor(r, |orig|, b, orig[k]))
  }

  lemma AskedRefs(r: Rule, n: nat, f: Fragment, b: BitString)
    requires Reports(r, n, f, b)
    ensures 0 < r.windowSize && n <= |b| && |b| == r.MaxFragmentNb() && Trigger(r, f) && r.TupleSize() > 0
    ensures var q := AskedFor(r, n, b, f);
      && RepairQueue(r, n, b, SeenWindows(r, b, f), q)
      && (forall i | 0 <= i < |q| :: q[i].Frg? && q[i].idx < n) && SessionProofs.Indices(Idxs(q), n)
  {
    hide Incomplete, Visible, AskedFor, SeenWindows, RepairQueue, Window, Trigger;
    var q := AskedFor(r, n, b, f);
    AskedForIsRepair(r, n, b, f);
    QueueIndices(r, n, b, SeenWindows(r, b, f), q);
    IndicesBelow(Idxs(q), n);
    IdxsBelow(q, n);
  }

  /** What the sender sends from fragment `k` to the last before the All-1. */
  ghost function PassLog(r: Rule, orig: seq<Fragment>, k: nat, answers: seq<Option<BitString>>,
                         es: seq<Event>): seq<Sent>
    requires k < |orig| == |answers| + 1 && PassEvents(r, orig, k, answers, es)
    decreases |orig| - k
  {
    if k == |orig| - 1 then []
    else
      hide TurnOk, TurnEvents, TurnSteps;
      TurnIsOk(r, orig, k, answers[k], es);
      TurnLog(r, orig, k, answers[k])
        + PassLog(r, orig, k + 1, answers, es[TurnSteps(r, orig, k, answers[k])..])
  }

  // ---------------------------------------------------------------- one turn

  /** The sender after fragment `k` and what was asked for at it. */
  function AfterTurn(orig: seq<Fragment>, s: Sender, k: nat, log: seq<Sent>): Sender
    requires k < |orig| - 1
  {
    s.(tq := RefsFrom(k + 1, |orig|), log := s.log + log)
  }

  lemma BelowAll1Class(r: Rule, orig: seq<Fragment>, k: nat)
    requires Faithful(r, orig) && k < |orig| - 1
    ensures 0 < r.windowSize && !IsAll1(r, orig[k]) && !IsSenderAbort(r, orig[k])
    ensures Window(r, orig[k]) == k / r.windowSize <= (|orig| - 1) / r.windowSize
    ensures ExpectsAck(r, orig[k]) ==> Window(r, orig[k]) < (|orig| - 1) / r.windowSize
  {
    hide *;
    FaithfulSizes(r, orig);
    ClassOfOriginal(r, orig, k);
    TriggerWindow(r.windowSize, |orig|, k);
  }

  /** A fragment nobody answers just leaves the queue. */
  lemma UnansweredTurn(c: Config, r: Rule, orig: seq<Fragment>, s: Sender, k: nat, e: Event)
    requires Faithful(r, orig) && Passing(r, orig, s, k) && k < |orig| - 1
    requires !(ExpectsAck(r, orig[k]) && Delivers(e))
    ensures r.WellFormed() && s.frs != [] && Ready(s)
    ensures var s' := AfterTurn(orig, s, k, [Sent(Frg(k), orig[k], false, None)]);
      Step(c, r, s, e) == (s', Continue) && Passing(r, orig, s', k + 1)
  {
    hide *;
    PassingParts(r, orig, s, k);
    HeadClass(r, orig, s, k);
    StepSilent(c, r, orig, s, k, e);
    BelowAll1Class(r, orig, k);
    UnansweredIs(c, r, orig, s, k, e);
    SilentKeeps(c, r, orig, s, k, e);
    KeptIs(r, orig, Step(c, r, s, e), NextK(s, |orig|, k));
    TurnPasses(r, orig, s, k, [Sent(Frg(k), orig[k], false, None)]);
  }

  lemma UnansweredIs(c: Config, r: Rule, orig: seq<Fragment>, s: Sender, k: nat, e: Event)
    requires k < |orig| - 1 && s.frs == orig && s.tq == RefsFrom(k, |orig|) && !s.rt && Ready(s) && InRange(s, Head(s))
    requires !(ExpectsAck(r, orig[k]) && Delivers(e)) && !IsAll1(r, orig[k]) && !IsSenderAbort(r, orig[k])
    requires Head(s) == Frg(k)
    ensures AfterSilence(c, r, s, e) == (AfterTurn(orig, s, k, [Sent(Frg(k), orig[k], false, None)]), Continue)
  {
    RefsShift(k, |orig|);
    hide IsAll1, IsSenderAbort, ExpectsAck, Delivers, Buffer, SenderAbort, RefsFrom;
  }

  lemma TurnPasses(r: Rule, orig: seq<Fragment>, s: Sender, k: nat, log: seq<Sent>)
    requires Passing(r, orig, s, k) && k < |orig| - 1 && Inv(r, orig, AfterTurn(orig, s, k, log), NextK(s, |orig|, k))
    ensures Passing(r, orig, AfterTurn(orig, s, k, log), k + 1)
  {
    assert !s.rt;
    hide Inv;
  }

  lemma PassingChecked(r: Rule, orig: seq<Fragment>, s: Sender, k: nat, b: BitString)
    requires Faithful(r, orig) && Passing(r, orig, s, k) && Reports(r, |orig|, orig[k], b)
    ensures Checked(r, orig, s, k, b) && Ready(s) && Head(s) == Frg(k) && Deref(s, Head(s)) == orig[k]
  {
    hide Faithful, Inv, Incomplete, Visible, Concerns, RefsFrom, Passing, Trigger;
    PassingParts(r, orig, s, k);
    ReportsParts(r, |orig|, orig[k], b);
  }

  lemma ReportsParts(r: Rule, n: nat, f: Fragment, b: BitString)
    requires Reports(r, n, f, b)
    ensures r.WellFormed() && r.TupleSize() > 0 && Concerns(r, f, n) && 0 < n <= |b| && |b| == r.MaxFragmentNb()
    ensures 0 < r.windowSize && Trigger(r, f) && ExpectsAck(r, f) && Window(r, f) <= (n - 1) / r.windowSize
    ensures Incomplete(r, b, f) != [] && Visible(r, b, f)
  {
    hide Incomplete, Visible, Window, ExpectsAck, IsAll1;
  }

  /** An All-0 never makes the sender give up: its window is before the packet's last. */
  lemma All0NeverGivesUp(r: Rule, orig: seq<Fragment>, s: Sender, k: nat, b: BitString)
    requires Faithful(r, orig) && k < |orig| - 1 && Reports(r, |orig|, orig[k], b)
    requires Checked(r, orig, s, k, b) && Ready(s) && InRange(s, Head(s)) && Deref(s, Head(s)) == orig[k]
    ensures !GivesUpThere(r, orig, s, k, b)
  {
    hide *;
    ReportsParts(r, |orig|, orig[k], b);
    SeenExact(r, b, orig[k]);
    BelowAll1Class(r, orig, k);
    CheckedParts(r, orig, s, k, b);
    GivesUpThereNeedsLast(r, orig, s, k, b);
  }

  lemma GivesUpThereNeedsLast(r: Rule, orig: seq<Fragment>, s: Sender, k: nat, b: BitString)
    requires Checked(r, orig, s, k, b) && Ready(s) && InRange(s, Head(s)) && 0 < r.windowSize && orig != []
    requires |b| == r.MaxFragmentNb() && Trigger(r, Deref(s, Head(s))) && r.TupleSize() > 0
    ensures GivesUpThere(r, orig, s, k, b) ==>
      var seen := SeenWindows(r, b, Deref(s, Head(s)));
      seen != [] && seen[|seen| - 1] == (|orig| - 1) / r.windowSize
  {
    hide Checked, SeenWindows, Trigger, WindowBits, Monochar;
  }

  lemma TurnRound(r: Rule, orig: seq<Fragment>, s: Sender, k: nat, b: BitString)
    requires Faithful(r, orig) && Passing(r, orig, s, k) && k < |orig| - 1 && Reports(r, |orig|, orig[k], b)
    ensures Checked(r, orig, s, k, b)
    ensures WantedBy(r, orig, s, k, b) == AskedFor(r, |orig|, b, orig[k])
    ensures AfterRound(r, orig, s, k, b) == AfterTurn(orig, s, k, ReportLog(r, orig, k, b))
  {
    hide *;
    PassingParts(r, orig, s, k);
    PassingChecked(r, orig, s, k, b);
    ReportsParts(r, |orig|, orig[k], b);
    WantedIs(r, orig, s, k, b);
    All0NeverGivesUp(r, orig, s, k, b);
    BelowAll1Class(r, orig, k);
    RefsShift(k, |orig|);
    TurnRoundIs(r, orig, s, k, b);
  }

  lemma TurnRoundIs(r: Rule, orig: seq<Fragment>, s: Sender, k: nat, b: BitString)
    requires Checked(r, orig, s, k, b) && !GivesUpThere(r, orig, s, k, b)
    requires k < |orig| - 1 && Reports(r, |orig|, orig[k], b)
    requires Ready(s) && InRange(s, Head(s)) && !IsAll1(r, orig[k]) && s.attempts == 0 && !s.rt
    requires Head(s) == Frg(k) && Deref(s, Head(s)) == orig[k] && s.tq[1..] == RefsFrom(k + 1, |orig|)
    requires r.WellFormed() && |b| == r.MaxFragmentNb() && Concerns(r, orig[k], |orig|) && Trigger(r, orig[k])
    requires Incomplete(r, b, orig[k]) != []
    requires WantedBy(r, orig, s, k, b) == AskedFor(r, |orig|, b, orig[k])
    ensures AfterRound(r, orig, s, k, b) == AfterTurn(orig, s, k, ReportLog(r, orig, k, b))
  {
    hide Checked, Reports, Concerns, Trigger, Incomplete, WantedBy, AskedFor, SenderTrace.Resends, RefsFrom,
         GivesUpThere, SessionAck;
    assert RefsFrom(k + 1, |orig|) + [] == RefsFrom(k + 1, |orig|);
  }

  /** An answered fragment: all the report asks for goes out before the next fragment. */
  lemma AnsweredTurn(c: Config, r: Rule, orig: seq<Fragment>, s: Sender, k: nat, b: BitString, es: seq<Event>)
    requires Faithful(r, orig) && Passing(r, orig, s, k) && k < |orig| - 1 && Reports(r, |orig|, orig[k], b)
    requires |es| >= 1 + |AskedFor(r, |orig|, b, orig[k])| && ReportArrives(r, b, orig[k], es[0])
    ensures r.WellFormed() && s.frs != []
    ensures var s' := AfterTurn(orig, s, k, ReportLog(r, orig, k, b));
      && s'.frs != [] && Passing(r, orig, s', k + 1)
      && Run(c, r, s, es) == Run(c, r, s', es[1 + |AskedFor(r, |orig|, b, orig[k])|..])
  {
    hide *;
    PassingParts(r, orig, s, k);
    PassingChecked(r, orig, s, k, b);
    ReportsParts(r, |orig|, orig[k], b);
    ToldFrom(r, orig, s, k, b, es[0]);
    TurnRound(r, orig, s, k, b);
    RoundOnTheWire(c, r, orig, s, k, b, es);
    TurnPasses(r, orig, s, k, ReportLog(r, orig, k, b));
  }

  lemma ToldFrom(r: Rule, orig: seq<Fragment>, s: Sender, k: nat, b: BitString, e: Event)
    requires Checked(r, orig, s, k, b) && Ready(s) && InRange(s, Head(s))
    requires |b| == r.MaxFragmentNb() && Trigger(r, Deref(s, Head(s)))
    requires Visible(r, b, Deref(s, Head(s))) && ReportArrives(r, b, Deref(s, Head(s)), e)
    ensures Told(r, orig, s, k, b, e)
  {
    hide Checked, Visible, ReportArrives, Trigger;
  }

  // ---------------------------------------------------------------- the whole pass

  /** The sender at the end of the pass. */
  ghost function Passed(r: Rule, orig: seq<Fragment>, s: Sender, k: nat, answers: seq<Option<BitString>>,
                        es: seq<Event>): Sender
    requires k < |orig| == |answers| + 1 && PassEvents(r, orig, k, answers, es)
  {
    s.(tq := RefsFrom(|orig| - 1, |orig|), log := s.log + PassLog(r, orig, k, answers, es))
  }

  /** One turn of the pass, and the rest of it. */
  lemma NextTurn(r: Rule, orig: seq<Fragment>, k: nat, answers: seq<Option<BitString>>, es: seq<Event>)
    requires k < |orig| - 1 == |answers| && PassEvents(r, orig, k, answers, es)
    ensures TurnEvents(r, orig, k, answers[k], es)
    ensures TurnOk(r, orig, k, answers[k]) && |es| >= TurnSteps(r, orig, k, answers[k])
    ensures var rest := es[TurnSteps(r, orig, k, answers[k])..];
      PassEvents(r, orig, k + 1, answers, rest)
  {
    hide TurnOk, TurnEvents, TurnSteps;
    TurnIsOk(r, orig, k, answers[k], es);
  }

  lemma PassedNext(r: Rule, orig: seq<Fragment>, s: Sender, k: nat, answers: seq<Option<BitString>>, es: seq<Event>,
                   rest: seq<Event>)
    requires k < |orig| - 1 == |answers| && PassEvents(r, orig, k, answers, es)
    requires TurnOk(r, orig, k, answers[k]) && PassEvents(r, orig, k + 1, answers, rest)
    requires |es| >= TurnSteps(r, orig, k, answers[k]) && rest == es[TurnSteps(r, orig, k, answers[k])..]
    ensures Passed(r, orig, s, k, answers, es)
         == Passed(r, orig, AfterTurn(orig, s, k, TurnLog(r, orig, k, answers[k])), k + 1, answers, rest)
  {
    hide TurnOk, TurnEvents, TurnSteps, TurnLog, RefsFrom;
    TurnIsOk(r, orig, k, answers[k], es);
    AppendAssociative(s.log, TurnLog(r, orig, k, answers[k]), PassLog(r, orig, k + 1, answers, rest));
  }

  lemma PassOver(r: Rule, orig: seq<Fragment>, s: Sender, answers: seq<Option<BitString>>, es: seq<Event>)
    requires |orig| == |answers| + 1 && PassEvents(r, orig, |orig| - 1, answers, es)
    requires Passing(r, orig, s, |orig| - 1)
    ensures es == [] && Passed(r, orig, s, |orig| - 1, answers, es) == s && Waiting(r, orig, s)
  {
    PassedWaits(r, orig, s);
    hide Inv;
    assert s.log + [] == s.log;
  }

  /** The first pass, with any of its fragments answered by reports on any bitmaps: every
      fragment below the All-1 goes out once and in order, each report is followed by exactly
      what it asks for, and in the end only the All-1 is queued. */
  lemma {:induction false} FirstPass(c: Config, r: Rule, orig: seq<Fragment>, s: Sender, k: nat,
                                     answers: seq<Option<BitString>>, es: seq<Event>, more: seq<Event>)
    requires Faithful(r, orig) && Passing(r, orig, s, k)
    requires k < |orig| == |answers| + 1 && PassEvents(r, orig, k, answers, es)
    ensures r.WellFormed() && s.frs != [] && Waiting(r, orig, Passed(r, orig, s, k, answers, es))
    ensures Passed(r, orig, s, k, answers, es).frs != []
    ensures Run(c, r, s, es + more) == Run(c, r, Passed(r, orig, s, k, answers, es), more)
    decreases |orig| - k
  {
    hide *;
    PassingParts(r, orig, s, k);
    if k == |orig| - 1 {
      PassOver(r, orig, s, answers, es);
      assert es + more == more;
    } else {
      NextTurn(r, orig, k, answers, es);
      PassedNext(r, orig, s, k, answers, es, es[TurnSteps(r, orig, k, answers[k])..]);
      TurnIs(r, orig, k, answers[k], es);
      var m := TurnSteps(r, orig, k, answers[k]);
      assert (es + more)[0] == es[0] && (es + more)[m..] == es[m..] + more;
      if answers[k].None? {
        UnansweredTurn(c, r, orig, s, k, es[0]);
        RunUnfolds(c, r, s, es + more);
      } else {
        AnsweredTurn(c, r, orig, s, k, answers[k].value, es + more);
      }
      FirstPass(c, r, orig, AfterTurn(orig, s, k, TurnLog(r, orig, k, answers[k])), k + 1, answers, es[m..], more);
    }
  }

  lemma TurnIs(r: Rule, orig: seq<Fragment>, k: nat, answer: Option<BitString>, es: seq<Event>)
    requires TurnEvents(r, orig, k, answer, es)
    ensures TurnOk(r, orig, k, answer) && k < |orig| && es != []
    ensures answer.None? ==>
      && TurnLog(r, orig, k, answer) == [Sent(Frg(k), orig[k], false, None)]
      && TurnSteps(r, orig, k, answer) == 1 && !(ExpectsAck(r, orig[k]) && Delivers(es[0]))
    ensures answer.Some? ==>
      && Reports(r, |orig|, orig[k], answer.value)
      && r.WellFormed() && Concerns(r, orig[k], |orig|) && |answer.value| == r.MaxFragmentNb()
      && Incomplete(r, answer.value, orig[k]) != []
      && TurnLog(r, orig, k, answer) == ReportLog(r, orig, k, answer.value)
      && TurnSteps(r, orig, k, answer) == 1 + |AskedFor(r, |orig|, answer.value, orig[k])|
      && ReportArrives(r, answer.value, orig[k], es[0])
  {
    hide Incomplete, ReportLog, AskedFor, ReportArrives, ExpectsAck, Delivers;
  }
}
