/**
  Whole runs of the sender: safety, capacity and outcomes.
 */
module SenderRuns {
  import Bits
  import opened Rules
  import opened Fragments
  import opened FrProcedure
  import opened Acks
  import opened SenderModel
  import opened SenderQueues
  import opened SenderInvariant

  // ---------------------------------------------------------------- safety

  /** Every ACK that update_queues goes through in the run is safe. */
  ghost predicate AcksSafe(c: Config, r: Rule, s: Sender, es: seq<Event>)
    requires r.WellFormed() && s.frs != []
    decreases |es|
  {
    es != [] && Ready(s) ==>
      && AckSafe(r, s, es[0])
      && var (s', o) := Step(c, r, s, es[0]); o == Continue ==> AcksSafe(c, r, s', es[1..])
  }

  /** One step of a safe run, and the rest of it. */
  lemma SafeStep(c: Config, r: Rule, orig: seq<Fragment>, s: Sender, k: nat, es: seq<Event>)
    requires Faithful(r, orig) && Inv(r, orig, s, k) && Active(s)
    requires r.WellFormed() && s.frs != [] && es != [] && AcksSafe(c, r, s, es)
    ensures Ready(s) && AckSafe(r, s, es[0])
    ensures var (s', o) := Step(c, r, s, es[0]);
      && Kept(r, orig, (s', o), NextK(s, |orig|, k))
      && k <= NextK(s, |orig|, k) <= |orig|
      && (o == Continue ==> s'.frs != [] && AcksSafe(c, r, s', es[1..]) && s'.lastWindow == s.lastWindow)
  {
    hide Faithful, Inv, Step, AckSafe, Active;
    HeadExists(r, orig, s, k);
    StepKeeps(c, r, orig, s, k, es[0]);
    Bounds(r, orig, s, k);
    if Step(c, r, s, es[0]).1 == Continue {
      SameLastWindow(r, orig, s, k, Step(c, r, s, es[0]).0, NextK(s, |orig|, k));
    }
  }

  lemma Bounds(r: Rule, orig: seq<Fragment>, s: Sender, k: nat)
    requires Inv(r, orig, s, k)
    ensures s.frs != [] && k <= |orig| && k <= NextK(s, |orig|, k) <= |orig| && |s.frs| == |orig|
  {
  }

  /** No run gets stuck: whatever the environment delivers, as long as the ACKs update_queues
      goes through are safe, fq_get never returns NULL, no pointer leaves the array, no send
      fails, and a run that is still going satisfies the invariant. */
  lemma {:induction false} SafeRun(c: Config, r: Rule, orig: seq<Fragment>, s: Sender, k: nat, es: seq<Event>)
    returns (k': nat)
    requires Faithful(r, orig) && r.WellFormed() && s.frs != [] && Inv(r, orig, s, k)
    requires AcksSafe(c, r, s, es)
    ensures var (s', status) := Run(c, r, s, es);
      && status != Stuck && status != Ended(NetworkError) && status != Ended(Continue)
      && (status == Running || status == Drained ==> k <= k' <= |orig| && Inv(r, orig, s', k'))
    decreases |es|
  {
    hide Faithful, Inv, Step, AcksSafe;
    k' := k;
    Bounds(r, orig, s, k);
    if Active(s) && es != [] {
      SafeStep(c, r, orig, s, k, es);
      RunUnfolds(c, r, s, es);
      var (s1, o) := Step(c, r, s, es[0]);
      if o == Continue {
        k' := SafeRun(c, r, orig, s1, NextK(s, |orig|, k), es[1..]);
      }
    }
  }

  lemma SameLastWindow(r: Rule, orig: seq<Fragment>, s: Sender, k: nat, s1: Sender, k1: nat)
    requires Inv(r, orig, s, k) && Inv(r, orig, s1, k1)
    ensures s1.lastWindow == s.lastWindow && s1.frs != [] && k <= |orig|
  {
  }

  // ---------------------------------------------------------------- plain assumptions

  /** A sufficient condition on ACKs that does not look at the run: increasing windows, and,
      for a rule whose Sender-Abort reads as an All-1 of the last window number, none after
      the packet's last. A Receiver-Abort may be anything. */
  ghost predicate PlainAck(r: Rule, lastWindow: int, e: Event)
    requires r.TupleSize() > 0
  {
    var a := AckOfEvent(e);
    Delivers(e) && !IsReceiverAbort(r, a) ==>
      IncreasingAck(r, a) && (r.AbortDistinct() || Greatest(r, a) <= lastWindow)
  }

  /** For such a rule a listening step is about a window of the packet. */
  lemma ListensWithin(r: Rule, orig: seq<Fragment>, s: Sender, k: nat)
    requires Faithful(r, orig) && Inv(r, orig, s, k) && Active(s) && r.AbortDistinct() && !s.rt
    ensures Ready(s)
    ensures ExpectsAck(r, Deref(s, Head(s))) ==> Window(r, Deref(s, Head(s))) <= s.lastWindow
  {
    hide Faithful, Inv, ExpectsAck, Window, IsAll1, IsAll0, IsSenderAbort, SenderAbort;
    HeadClass(r, orig, s, k);
    LastWindowOf(r, orig, s, k);
    if k < |orig| {
      TriggerWindow(r.windowSize, |orig|, k);
    }
  }

  lemma LastWindowOf(r: Rule, orig: seq<Fragment>, s: Sender, k: nat)
    requires Inv(r, orig, s, k)
    ensures 0 < r.windowSize && orig != [] && s.lastWindow == (|orig| - 1) / r.windowSize
  {
  }

  lemma PlainIsSafe(r: Rule, orig: seq<Fragment>, s: Sender, k: nat, e: Event)
    requires Faithful(r, orig) && Inv(r, orig, s, k) && Active(s) && r.TupleSize() > 0
    requires PlainAck(r, s.lastWindow, e)
    ensures AckSafe(r, s, e)
  {
    hide Faithful, Inv, ExpectsAck, Window, Greatest, IncreasingAck, IsReceiverAbort, Delivers, Buffer;
    if !s.rt && r.AbortDistinct() {
      ListensWithin(r, orig, s, k);
    }
  }

  lemma {:induction false} PlainAcksSafe(c: Config, r: Rule, orig: seq<Fragment>, s: Sender, k: nat, es: seq<Event>)
    requires Faithful(r, orig) && Inv(r, orig, s, k) && r.WellFormed() && s.frs != []
    requires forall i | 0 <= i < |es| :: PlainAck(r, s.lastWindow, es[i])
    ensures AcksSafe(c, r, s, es)
    decreases |es|
  {
    hide Faithful, Inv, PlainAck, Step, AckSafe;
    if es != [] && Ready(s) {
      ReadyIsActive(s);
      PlainIsSafe(r, orig, s, k, es[0]);
      StepKeeps(c, r, orig, s, k, es[0]);
      var (s1, o) := Step(c, r, s, es[0]);
      if o == Continue {
        SameLastWindow(r, orig, s, k, s1, NextK(s, |orig|, k));
        Bounds(r, orig, s1, NextK(s, |orig|, k));
        PlainAcksSafe(c, r, orig, s1, NextK(s, |orig|, k), es[1..]);
      }
    }
  }

  lemma ReadyIsActive(s: Sender)
    requires Ready(s)
    ensures Active(s)
  {
  }

  // ---------------------------------------------------------------- capacity

  /** A step of a sender whose queues are larger. */
  lemma StepCapacity(c: Config, r: Rule, orig: seq<Fragment>, s: Sender, k: nat, e: Event, cap: nat)
    requires Faithful(r, orig) && Inv(r, orig, s, k) && Active(s) && AckSafe(r, s, e) && |orig| <= cap
    ensures r.WellFormed() && s.frs != [] && Ready(s) && Ready(s.(capacity := cap))
    ensures var (s', o) := Step(c, r, s, e); Step(c, r, s.(capacity := cap), e) == (s'.(capacity := cap), o)
  {
    hide *;
    var big := s.(capacity := cap);
    BigInv(r, orig, s, k, e, cap);
    if s.rt {
      StepRetransmits(c, r, orig, s, k, e);
      StepRetransmits(c, r, orig, big, k, e);
      BigRetransmission(r, s, e, cap);
    } else {
      HeadClass(r, orig, s, k);
      HeadClass(r, orig, big, k);
      BigHead(r, s, e, cap);
      if Delivers(e) && ExpectsAck(r, Deref(s, Head(s))) {
        if IsReceiverAbort(r, AckOfEvent(e)) {
          AbortedByReceiver(c, r, orig, s, k, e);
          AbortedByReceiver(c, r, orig, big, k, e);
        } else {
          StepListens(c, r, orig, s, k, e);
          StepListens(c, r, orig, big, k, e);
          HeardAck(r, orig, s, k, e);
          HeardAck(r, orig, big, k, e);
          BigListening(r, orig, s, k, e, cap);
        }
      } else {
        StepSilent(c, r, orig, s, k, e);
        StepSilent(c, r, orig, big, k, e);
        BigSilence(c, r, orig, s, k, e, cap);
      }
    }
  }

  lemma BigInv(r: Rule, orig: seq<Fragment>, s: Sender, k: nat, e: Event, cap: nat)
    requires Faithful(r, orig) && Inv(r, orig, s, k) && Active(s) && AckSafe(r, s, e) && |orig| <= cap
    ensures Inv(r, orig, s.(capacity := cap), k) && Active(s.(capacity := cap)) && AckSafe(r, s.(capacity := cap), e)
    ensures r.WellFormed() && s.frs != [] && Ready(s) && Ready(s.(capacity := cap))
  {
    HeadExists(r, orig, s, k);
    hide Faithful, ExpectsAck, IsReceiverAbort, Delivers, Buffer, Greatest, Window, IncreasingAck, FragmentsOk,
         TransmissionOk;
    FaithfulSizes(r, orig);
  }

  lemma BigHead(r: Rule, s: Sender, e: Event, cap: nat)
    requires Ready(s) && InRange(s, Head(s))
    ensures var big := s.(capacity := cap);
      && Ready(big) && Head(big) == Head(s) && InRange(big, Head(big)) && Deref(big, Head(big)) == Deref(s, Head(s))
      && Popped(r, big, e) == Popped(r, s, e).(capacity := cap)
      && Heard(r, big, e) == Heard(r, s, e).(capacity := cap)
  {
    hide IsAll1, ExpectsAck, Delivers, Buffer;
  }

  lemma BigRetransmission(r: Rule, s: Sender, e: Event, cap: nat)
    requires Ready(s)
    ensures Ready(s.(capacity := cap))
    ensures AfterRetransmission(r, s.(capacity := cap), e) == AfterRetransmission(r, s, e).(capacity := cap)
  {
    hide IsAll1, ExpectsAck, Delivers, Buffer;
  }

  lemma BigSilence(c: Config, r: Rule, orig: seq<Fragment>, s: Sender, k: nat, e: Event, cap: nat)
    requires Inv(r, orig, s, k) && Ready(s) && !s.rt && InRange(s, Head(s)) && |orig| <= cap
    ensures Ready(s.(capacity := cap))
    ensures var (s', o) := AfterSilence(c, r, s, e);
      AfterSilence(c, r, s.(capacity := cap), e) == (s'.(capacity := cap), o)
  {
    hide IsAll1, IsSenderAbort, SenderAbort, Listens, Delivers, Buffer;
    BigHead(r, s, e, cap);
    PopKeeps(s.tq, |orig|, k);
  }

  /** Handling an ACK: neither a put of a loss nor that of the All-1 or a Sender-Abort is refused. */
  lemma BigListening(r: Rule, orig: seq<Fragment>, s: Sender, k: nat, e: Event, cap: nat)
    requires r.WellFormed() && Hears(r, orig, s, k, e) && |orig| <= cap
    requires Ready(s.(capacity := cap)) && Hears(r, orig, s.(capacity := cap), k, e)
    ensures Ready(s) && InRange(Popped(r, s, e), Head(s)) && Popped(r, s, e).frs != []
    ensures var big, a := s.(capacity := cap), AckOfEvent(e);
      && InRange(Popped(r, big, e), Head(big)) && Popped(r, big, e).frs != []
      && var (s', o) := HandleAck(r, Popped(r, s, e), Head(s), a);
         HandleAck(r, Popped(r, big, e), Head(big), a) == (s'.(capacity := cap), o)
  {
    var big, a := s.(capacity := cap), AckOfEvent(e);
    HearsParts(r, orig, s, k, e);
    hide Inv, AfterAck, UpdateQueues, IsReceiverAbort, IsComplete, IsAll1, AckW, Popped, Heard, Hears, HeadIs,
         ExpectsAck, Shaped, Delivers, Buffer;
    BigHead(r, s, e, cap);
    PoppedFrs(r, s, e);
    AckIs(r, orig, s, k, e);
    AckIs(r, orig, big, k, e);
    HeardRoom(r, orig, s, k, e);
    BigAfterAck(r, Heard(r, s, e), Head(s), a, cap);
    HandledIs(r, s, e);
    HandledIs(r, big, e);
  }

  lemma PoppedFrs(r: Rule, s: Sender, e: Event)
    requires Ready(s) && InRange(s, Head(s))
    ensures Popped(r, s, e).frs == s.frs && Popped(r, s, e).lastWindow == s.lastWindow
    ensures InRange(Popped(r, s, e), Head(s)) && Deref(Popped(r, s, e), Head(s)) == Deref(s, Head(s))
  {
    hide IsAll1, ExpectsAck, Delivers, Buffer;
  }

  /** HandleAck in terms of the state in which the ACK is heard. */
  lemma HandledIs(r: Rule, s: Sender, e: Event)
    requires r.WellFormed() && Ready(s) && s.frs != [] && InRange(s, Head(s))
    ensures InRange(Popped(r, s, e), Head(s)) && Popped(r, s, e).frs != [] && InRange(Heard(r, s, e), Head(s))
    ensures var a := AckOfEvent(e);
      HandleAck(r, Popped(r, s, e), Head(s), a) ==
        if IsReceiverAbort(r, a) then (Heard(r, s, e), ReceiverAborted)
        else if IsAll1(r, Deref(s, Head(s))) && Bits.BinToInt(AckW(r, a)) == s.lastWindow && IsComplete(r, a) then
          (Heard(r, s, e), Completed)
        else (UpdateRt(UpdateQueues(r, Heard(r, s, e), Head(s), a)), Continue)
  {
    PoppedFrs(r, s, e);
    hide IsReceiverAbort, IsComplete, IsAll1, AckW, UpdateQueues, Popped;
  }

  lemma HeardRoom(r: Rule, orig: seq<Fragment>, s: Sender, k: nat, e: Event)
    requires Inv(r, orig, s, k) && Ready(s) && !s.rt
    ensures |Heard(r, s, e).tq| < |orig| <= Heard(r, s, e).capacity
  {
    hide IsAll1, ExpectsAck, Delivers, Buffer;
    PopKeeps(s.tq, |orig|, k);
  }

  lemma BigAfterAck(r: Rule, s0: Sender, ref: Ref, a: CompoundAck, cap: nat)
    requires 0 < r.windowSize && r.m <= 31 && s0.frs != [] && InRange(s0, ref) && Shaped(r, Tuples(r, a))
    requires |s0.tq| < s0.capacity && |s0.tq| < cap
    ensures AfterAck(r, s0.(capacity := cap), ref, a) == AfterAck(r, s0, ref, a).(capacity := cap)
  {
    hide LossRefs, GivesUpOn, Tuples, Shaped, TakesEffect, AfterLosses;
    assert Deref(s0.(capacity := cap), ref) == Deref(s0, ref);
    if TakesEffect(r, Deref(s0, ref), a) {
      var ts := Tuples(r, a);
      var q := LossRefs(r, |s0.frs|, s0.lastWindow, ts);
      BigAfterLosses(r, s0.(rq := q), ref, GivesUpOn(r, |s0.frs|, s0.lastWindow, ts), cap);
    }
  }

  lemma BigAfterLosses(r: Rule, s: Sender, ref: Ref, stopped: bool, cap: nat)
    requires InRange(s, ref) && |s.tq| < s.capacity && |s.tq| < cap
    ensures AfterLosses(r, s.(capacity := cap), ref, stopped) == AfterLosses(r, s, ref, stopped).(capacity := cap)
  {
    hide IsAll1, AbortFrom;
    assert Deref(s.(capacity := cap), ref) == Deref(s, ref);
  }

  /** No put is ever refused: a run from a state of the invariant is the run of a sender with
      queues of any larger capacity. */
  lemma {:induction false} NoPutRefused(c: Config, r: Rule, orig: seq<Fragment>, s: Sender, k: nat, es: seq<Event>,
                                        cap: nat)
    requires Faithful(r, orig) && r.WellFormed() && s.frs != [] && Inv(r, orig, s, k)
    requires AcksSafe(c, r, s, es) && |orig| <= cap
    ensures var (s', status) := Run(c, r, s, es);
      Run(c, r, s.(capacity := cap), es) == (s'.(capacity := cap), status)
    decreases |es|
  {
    hide Faithful, Inv, Step, AcksSafe;
    Bounds(r, orig, s, k);
    if Active(s) && es != [] {
      SafeStep(c, r, orig, s, k, es);
      StepCapacity(c, r, orig, s, k, es[0], cap);
      RunUnfolds(c, r, s, es);
      RunUnfolds(c, r, s.(capacity := cap), es);
      var (s1, o) := Step(c, r, s, es[0]);
      if o == Continue {
        NoPutRefused(c, r, orig, s1, NextK(s, |orig|, k), es[1..], cap);
      }
    }
  }

  // ---------------------------------------------------------------- outcomes

  /** Which step ends a run, and how, whatever ACKs arrive: a Sender-Abort that is sent, a
      Receiver-Abort a listening step hears, a complete ACK for the last window that answers
      an All-1; and nothing else. */
  lemma StepOutcome(c: Config, r: Rule, orig: seq<Fragment>, s: Sender, k: nat, e: Event)
    requires Faithful(r, orig) && Inv(r, orig, s, k) && Active(s)
    ensures r.WellFormed() && s.frs != [] && Ready(s) && InRange(s, Head(s))
    ensures var f, a, o := Deref(s, Head(s)), AckOfEvent(e), Step(c, r, s, e).1;
      && (o == SenderAborted <==> !s.rt && IsSenderAbort(r, f))
      && (o == ReceiverAborted <==> Answered(r, s, e) && IsReceiverAbort(r, a))
      && (o == Completed <==> Answered(r, s, e) && !IsReceiverAbort(r, a)
                              && IsAll1(r, f) && Bits.BinToInt(AckW(r, a)) == s.lastWindow && IsComplete(r, a))
      && o != NetworkError
  {
    hide *;
    Bounds(r, orig, s, k);
    FaithfulSizes(r, orig);
    HeadInRange(r, orig, s, k);
    if s.rt {
      StepRetransmits(c, r, orig, s, k, e);
      NotAnswered(r, s, e);
    } else {
      HeadClass(r, orig, s, k);
      if Delivers(e) && ExpectsAck(r, Deref(s, Head(s))) {
        StepListens(c, r, orig, s, k, e);
        HandledIs(r, s, e);
        AnsweredIs(r, s, e);
        NoAbortExpects(r, orig, s, k);
      } else {
        StepSilent(c, r, orig, s, k, e);
        NotAnswered(r, s, e);
        SilentOutcomeIs(c, r, s, e);
      }
    }
  }

  /** A rule whose Sender-Abort reads as an All-1 never ends a run by sending one. */
  lemma AbortNeedsDistinct(c: Config, r: Rule, orig: seq<Fragment>, s: Sender, k: nat, e: Event)
    requires Faithful(r, orig) && Inv(r, orig, s, k) && Active(s) && !r.AbortDistinct()
    ensures r.WellFormed() && s.frs != [] && Ready(s) && Step(c, r, s, e).1 != SenderAborted
  {
    hide *;
    StepOutcome(c, r, orig, s, k, e);
    FaithfulSizes(r, orig);
    if !s.rt {
      HeadClass(r, orig, s, k);
      NoAbortAtHead(r, orig, s, k);
    }
  }

  lemma NoAbortAtHead(r: Rule, orig: seq<Fragment>, s: Sender, k: nat)
    requires Ready(s) && 0 < r.windowSize && orig != [] && HeadIs(r, orig, s, k) && !r.AbortDistinct()
    ensures !IsSenderAbort(r, Deref(s, Head(s)))
  {
    hide IsAll1, IsAll0, IsSenderAbort, SenderAbort, Window, AbortFrom, ExpectsAck, Rule.AbortDistinct;
  }

  lemma HeadInRange(r: Rule, orig: seq<Fragment>, s: Sender, k: nat)
    requires Inv(r, orig, s, k) && Active(s)
    ensures Ready(s) && InRange(s, Head(s))
  {
    HeadExists(r, orig, s, k);
  }

  lemma AnsweredIs(r: Rule, s: Sender, e: Event)
    requires Ready(s)
    ensures Answered(r, s, e) <==> !s.rt && ExpectsAck(r, Deref(s, Head(s))) && Delivers(e)
  {
  }

  lemma NotAnswered(r: Rule, s: Sender, e: Event)
    requires Ready(s) && (s.rt || !ExpectsAck(r, Deref(s, Head(s))) || !Delivers(e))
    ensures !Answered(r, s, e)
  {
  }

  /** A message that expects an ACK is no Sender-Abort. */
  lemma NoAbortExpects(r: Rule, orig: seq<Fragment>, s: Sender, k: nat)
    requires Ready(s) && 0 < r.windowSize && orig != [] && HeadIs(r, orig, s, k)
    requires ExpectsAck(r, Deref(s, Head(s)))
    ensures !IsSenderAbort(r, Deref(s, Head(s)))
  {
    hide IsAll1, IsAll0, IsSenderAbort, SenderAbort, Window, AbortFrom, ExpectsAck;
  }

  lemma SilentOutcomeIs(c: Config, r: Rule, s: Sender, e: Event)
    requires Ready(s) && !s.rt
    ensures AfterSilence(c, r, s, e).1 == if IsSenderAbort(r, Deref(s, Head(s))) then SenderAborted else Continue
  {
    hide IsAll1, IsSenderAbort, SenderAbort, Popped;
  }

  /** A Receiver-Abort delivered to a listening step ends the run as the source announces. */
  lemma ReceiverAbortEnds(c: Config, r: Rule, orig: seq<Fragment>, s: Sender, k: nat, es: seq<Event>)
    requires Faithful(r, orig) && Inv(r, orig, s, k) && Active(s) && es != [] && Ready(s)
    requires Answered(r, s, es[0]) && IsReceiverAbort(r, AckOfEvent(es[0]))
    ensures r.WellFormed() && s.frs != []
    ensures Run(c, r, s, es) == (Heard(r, s, es[0]), Ended(ReceiverAborted))
  {
    hide *;
    Bounds(r, orig, s, k);
    FaithfulSizes(r, orig);
    AnsweredIs(r, s, es[0]);
    HeadClass(r, orig, s, k);
    AbortedByReceiver(c, r, orig, s, k, es[0]);
    RunUnfolds(c, r, s, es);
  }

  lemma FaithfulTuples(r: Rule, orig: seq<Fragment>)
    requires Faithful(r, orig)
    ensures r.WellFormed() && r.TupleSize() > 0
  {
    FaithfulSizes(r, orig);
  }
}
