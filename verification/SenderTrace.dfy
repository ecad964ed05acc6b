/**
  The order in which the sender sends.
 */
module SenderTrace {
  import opened Options
  import Bits
  import opened Rules
  import opened Fragments
  import opened FrProcedure
  import opened Acks
  import opened SenderModel
  import opened SenderQueues
  import opened SenderInvariant
  import opened SenderRuns
  import SenderSilence

  /** The fragment numbers of a log in the order of their first appearance. */
  function FirstSends(log: seq<Sent>): seq<nat> {
    if log == [] then []
    else
      var before, ref := FirstSends(log[..|log| - 1]), log[|log| - 1].ref;
      if ref.Frg? && ref.idx !in before then before + [ref.idx] else before
  }

  function Iota(k: nat): (s: seq<nat>)
    ensures |s| == k && forall i | 0 <= i < k :: s[i] == i
  {
    seq(k, i => i)
  }

  /** The ACK reports fragment `i` lost. */
  ghost predicate ReportsLoss(r: Rule, a: CompoundAck, i: nat)
    requires r.TupleSize() > 0 && 0 < r.windowSize
  {
    Shaped(r, Tuples(r, a)) && ReportedLost(r, Tuples(r, a), i)
  }

  /** Some ACK read so far reports fragment `i` lost. */
  ghost predicate Justified(r: Rule, log: seq<Sent>, i: nat)
    requires r.TupleSize() > 0 && 0 < r.windowSize
  {
    exists q | 0 <= q < |log| :: log[q].reply.Some? && ReportsLoss(r, log[q].reply.value, i)
  }

  ghost predicate RefJustified(r: Rule, log: seq<Sent>, ref: Ref)
    requires r.TupleSize() > 0 && 0 < r.windowSize
  {
    ref.Frg? && Justified(r, log, ref.idx)
  }

  /** Every retransmission in the log is of a fragment an earlier ACK reported lost. */
  ghost predicate RetransmissionsJustified(r: Rule, log: seq<Sent>)
    requires r.TupleSize() > 0 && 0 < r.windowSize
  {
    forall p | 0 <= p < |log| && log[p].retransmission :: RefJustified(r, log[..p], log[p].ref)
  }

  ghost predicate QueueJustified(r: Rule, log: seq<Sent>, q: seq<Ref>)
    requires r.TupleSize() > 0 && 0 < r.windowSize
  {
    forall i | 0 <= i < |q| :: RefJustified(r, log, q[i])
  }

  /** The first sends so far are fragments 0, 1, ..., k - 1 in that order. */
  ghost predicate TraceOk(r: Rule, log: seq<Sent>, rq: seq<Ref>, k: nat)
    requires r.TupleSize() > 0 && 0 < r.windowSize
  {
    && FirstSends(log) == Iota(k)
    && RetransmissionsJustified(r, log)
    && QueueJustified(r, log, rq)
  }

  lemma JustifiedStays(r: Rule, log: seq<Sent>, ref: Ref, x: Sent)
    requires r.TupleSize() > 0 && 0 < r.windowSize
    ensures RefJustified(r, log, ref) ==> RefJustified(r, log + [x], ref)
    ensures ref.Frg? && x.reply.Some? && ReportsLoss(r, x.reply.value, ref.idx) ==> RefJustified(r, log + [x], ref)
  {
    hide ReportsLoss;
    if RefJustified(r, log, ref) {
      var q :| 0 <= q < |log| && log[q].reply.Some? && ReportsLoss(r, log[q].reply.value, ref.idx);
      assert (log + [x])[q] == log[q];
    }
    assert (log + [x])[|log|] == x;
  }

  lemma FirstSendsAppend(log: seq<Sent>, x: Sent, k: nat)
    requires FirstSends(log) == Iota(k)
    ensures x.ref == Frg(k) ==> FirstSends(log + [x]) == Iota(k + 1)
    ensures x.ref == AbortSlot || (x.ref.Frg? && x.ref.idx < k) ==> FirstSends(log + [x]) == Iota(k)
  {
    assert (log + [x])[..|log|] == log;
    assert x.ref.Frg? && x.ref.idx < k ==> Iota(k)[x.ref.idx] == x.ref.idx;
  }

  lemma LogAppend(r: Rule, log: seq<Sent>, x: Sent)
    requires r.TupleSize() > 0 && 0 < r.windowSize && RetransmissionsJustified(r, log)
    requires x.retransmission ==> RefJustified(r, log, x.ref)
    ensures RetransmissionsJustified(r, log + [x])
  {
    hide RefJustified;
    forall p | 0 <= p < |log + [x]| && (log + [x])[p].retransmission
      ensures RefJustified(r, (log + [x])[..p], (log + [x])[p].ref)
    {
      assert (log + [x])[..p] == log[..p];
      assert p == |log| ==> log[..p] == log;
    }
  }

  // ---------------------------------------------------------------- one step

  /** What a step appends to the log. */
  function Entry(r: Rule, s: Sender, e: Event): Sent
    requires Ready(s)
  {
    Sent(Head(s), Deref(s, Head(s)), s.rt, Reply(r, Pop(s), Head(s), e))
  }

  lemma PoppedLog(r: Rule, s: Sender, e: Event)
    requires Ready(s)
    ensures Popped(r, s, e).log == s.log + [Entry(r, s, e)]
    ensures Popped(r, s, e).rq == if s.rt then s.rq[1..] else s.rq
  {
  }

  /** Every step appends exactly its own entry, in any state. */
  lemma StepLog(c: Config, r: Rule, s: Sender, e: Event)
    requires r.WellFormed() && s.frs != [] && Ready(s)
    ensures Step(c, r, s, e).0.log == s.log + [Entry(r, s, e)]
  {
    hide Schc, IsAll1, ExpectsAck, Delivers, Buffer;
  }

  lemma SilentLogAndQueue(c: Config, r: Rule, s: Sender, e: Event)
    requires Ready(s) && !s.rt && s.rq == []
    ensures var (s', o) := AfterSilence(c, r, s, e);
      s'.log == s.log + [Entry(r, s, e)] && s'.rq == [] && o != Completed
  {
    hide IsAll1, IsSenderAbort, SenderAbort;
  }

  lemma AckLogAndQueue(r: Rule, s0: Sender, ref: Ref, a: CompoundAck)
    requires 0 < r.windowSize && r.m <= 31 && s0.frs != [] && InRange(s0, ref) && Shaped(r, Tuples(r, a))
    requires s0.rq == []
    ensures var s' := AfterAck(r, s0, ref, a);
      s'.log == s0.log && s'.rq == if TakesEffect(r, Deref(s0, ref), a)
                                   then LossRefs(r, |s0.frs|, s0.lastWindow, Tuples(r, a)) else []
  {
    hide IsAll1, TakesEffect, LossRefs, GivesUpOn, Tuples, Shaped, AbortFrom;
  }

  /** The log and the retransmission queue after a step: the step's own entry is appended,
      and every queued pointer is one queued before or one the step's ACK reports lost. */
  ghost predicate StepTrace(r: Rule, s: Sender, e: Event, res: (Sender, Outcome))
    requires Ready(s) && r.TupleSize() > 0 && 0 < r.windowSize
  {
    && res.0.log == s.log + [Entry(r, s, e)]
    && (s.rt ==> res == (res.0, Continue) && res.0.rq == s.rq[1..])
    && (!s.rt && res.1 == Continue ==>
          forall i | 0 <= i < |res.0.rq| :: res.0.rq[i].Frg? && Entry(r, s, e).reply.Some?
            && ReportsLoss(r, Entry(r, s, e).reply.value, res.0.rq[i].idx))
    && (res.1 == Completed ==> IsAll1(r, Deref(s, Head(s))))
  }

  lemma LossesReported(r: Rule, n: nat, lastWindow: int, a: CompoundAck)
    requires 0 < r.windowSize && r.m <= 31 && n > 0 && Shaped(r, Tuples(r, a))
    requires lastWindow == (n - 1) / r.windowSize && IncreasingAck(r, a) && Greatest(r, a) <= lastWindow
    ensures var q := LossRefs(r, n, lastWindow, Tuples(r, a));
      forall i | 0 <= i < |q| :: q[i].Frg? && ReportsLoss(r, a, q[i].idx)
  {
    var q := LossRefs(r, n, lastWindow, Tuples(r, a));
    LossRefsSound(r, n, lastWindow, Tuples(r, a), 0);
    LossRefsOrdered(r, n, lastWindow, Tuples(r, a), 0);
    forall i | 0 <= i < |q|
      ensures q[i].Frg? && ReportsLoss(r, a, q[i].idx)
    {
      assert Frg(q[i].idx) in q;
    }
  }

  lemma HeardLosses(r: Rule, orig: seq<Fragment>, s: Sender, k: nat, e: Event)
    requires Hears(r, orig, s, k, e)
    ensures var s' := AfterAck(r, Heard(r, s, e), Head(s), AckOfEvent(e));
      && s'.log == s.log + [Entry(r, s, e)]
      && Entry(r, s, e).reply == Some(AckOfEvent(e))
      && forall i | 0 <= i < |s'.rq| :: s'.rq[i].Frg? && ReportsLoss(r, AckOfEvent(e), s'.rq[i].idx)
  {
    hide Hears, IsAll1, ExpectsAck, IncreasingAck, ReportsLoss, LossRefs, Tuples, HeadIs, Inv, Entry, AfterAck, Popped,
         TakesEffect, Shaped, Grounded, Heard;
    var a := AckOfEvent(e);
    HearsParts(r, orig, s, k, e);
    HeardSame(r, s, e);
    HeardEntry(r, orig, s, k, e);
    AckLogAndQueue(r, Heard(r, s, e), Head(s), a);
    if TakesEffect(r, Deref(s, Head(s)), a) {
      EffectiveWindow(r, orig, s, k, e);
      LossesReported(r, |orig|, s.lastWindow, a);
    }
  }

  lemma HeardEntry(r: Rule, orig: seq<Fragment>, s: Sender, k: nat, e: Event)
    requires Hears(r, orig, s, k, e)
    ensures Heard(r, s, e).log == s.log + [Entry(r, s, e)] && Entry(r, s, e).reply == Some(AckOfEvent(e))
  {
    hide Inv, HeadIs, ExpectsAck, AckSafe, Tuples, IsReceiverAbort, Delivers, Buffer;
    PoppedLog(r, s, e);
  }

  lemma ListeningBasics(r: Rule, orig: seq<Fragment>, s: Sender, k: nat, e: Event)
    requires Hears(r, orig, s, k, e)
    ensures !s.rt && Ready(s) && InRange(s, Head(s)) && 0 < r.windowSize && r.TupleSize() > 0
    ensures InRange(Popped(r, s, e), Head(s)) && Popped(r, s, e).frs != []
    ensures Deref(Popped(r, s, e), Head(s)) == Deref(s, Head(s))
    ensures Heard(r, s, e) == Popped(r, s, e).(attempts := 0) && InRange(Heard(r, s, e), Head(s))
    ensures Deref(Heard(r, s, e), Head(s)) == Deref(s, Head(s))
    ensures Popped(r, s, e).log == s.log + [Entry(r, s, e)]
  {
    hide Inv, AckSafe, HeadIs, ExpectsAck, IsAll1, Delivers, Tuples;
    PoppedLog(r, s, e);
  }

  lemma ListeningTrace(r: Rule, orig: seq<Fragment>, s: Sender, k: nat, e: Event)
    requires r.WellFormed() && Hears(r, orig, s, k, e)
    ensures StepTrace(r, s, e, HandleAck(r, Popped(r, s, e), Head(s), AckOfEvent(e)))
  {
    ListeningBasics(r, orig, s, k, e);
    hide Inv, Popped, AfterAck, UpdateQueues, IsReceiverAbort, IsComplete, AckSafe, HeadIs, ExpectsAck, Hears,
         ReportsLoss, Entry, IsAll1, AckW;
    AckIs(r, orig, s, k, e);
    HeardLosses(r, orig, s, k, e);
  }

  lemma RetransmissionTrace(r: Rule, s: Sender, e: Event)
    requires Ready(s) && r.TupleSize() > 0 && 0 < r.windowSize && s.rt
    ensures StepTrace(r, s, e, (AfterRetransmission(r, s, e), Continue))
  {
    hide ReportsLoss;
    PoppedLog(r, s, e);
  }

  lemma SilentTrace(c: Config, r: Rule, s: Sender, e: Event)
    requires Ready(s) && r.TupleSize() > 0 && 0 < r.windowSize && !s.rt && s.rq == []
    ensures StepTrace(r, s, e, AfterSilence(c, r, s, e))
  {
    hide ReportsLoss, AfterSilence, Entry, IsAll1;
    SilentLogAndQueue(c, r, s, e);
  }

  lemma AbortTrace(r: Rule, s: Sender, e: Event)
    requires Ready(s) && r.TupleSize() > 0 && 0 < r.windowSize && !s.rt
    ensures StepTrace(r, s, e, (Heard(r, s, e), ReceiverAborted))
  {
    hide ReportsLoss, Entry, Popped;
    PoppedLog(r, s, e);
  }

  lemma StepTraces(c: Config, r: Rule, orig: seq<Fragment>, s: Sender, k: nat, e: Event)
    requires Faithful(r, orig) && Inv(r, orig, s, k) && Active(s) && AckSafe(r, s, e)
    ensures Ready(s) && r.WellFormed() && s.frs != []
    ensures StepTrace(r, s, e, Step(c, r, s, e))
  {
    assert s.frs != [] && 0 < r.windowSize && (!s.rt ==> s.rq == []);
    hide *;
    if s.rt {
      StepRetransmits(c, r, orig, s, k, e);
      RetransmissionTrace(r, s, e);
    } else {
      HeadClass(r, orig, s, k);
      if Delivers(e) && ExpectsAck(r, Deref(s, Head(s))) {
        if IsReceiverAbort(r, AckOfEvent(e)) {
          AbortedByReceiver(c, r, orig, s, k, e);
          AbortTrace(r, s, e);
        } else {
          StepListens(c, r, orig, s, k, e);
          HeardAck(r, orig, s, k, e);
          ListeningTrace(r, orig, s, k, e);
        }
      } else {
        StepSilent(c, r, orig, s, k, e);
        SilentTrace(c, r, s, e);
      }
    }
  }

  /** The entry a step appends continues the order of first sends, and a retransmission is justified. */
  lemma EntryFits(r: Rule, orig: seq<Fragment>, s: Sender, k: nat, e: Event)
    requires r.TupleSize() > 0 && 0 < r.windowSize && |orig| > 0
    requires Inv(r, orig, s, k) && Active(s) && Ready(s) && k <= |orig|
    requires TraceOk(r, s.log, s.rq, k)
    ensures FirstSends(s.log + [Entry(r, s, e)]) == Iota(NextK(s, |orig|, k))
    ensures RetransmissionsJustified(r, s.log + [Entry(r, s, e)])
  {
    hide ReportsLoss, Iota, FirstSends, RefJustified, RetransmissionsJustified, FragmentsOk;
    assert s.tq != [] || s.rt;
    FirstSendsAppend(s.log, Entry(r, s, e), k);
    LogAppend(r, s.log, Entry(r, s, e));
  }

  lemma QueueFits(r: Rule, s: Sender, e: Event, res: (Sender, Outcome))
    requires r.TupleSize() > 0 && 0 < r.windowSize && Ready(s)
    requires QueueJustified(r, s.log, s.rq) && StepTrace(r, s, e, res) && res.1 == Continue
    ensures QueueJustified(r, res.0.log, res.0.rq)
  {
    hide ReportsLoss, RefJustified, Entry;
    forall i | 0 <= i < |res.0.rq|
      ensures RefJustified(r, res.0.log, res.0.rq[i])
    {
      JustifiedStays(r, s.log, res.0.rq[i], Entry(r, s, e));
    }
  }

  /** The trace is kept by every step; and when the run completes every fragment has been sent. */
  lemma TraceKeeps(c: Config, r: Rule, orig: seq<Fragment>, s: Sender, k: nat, e: Event)
    requires Faithful(r, orig) && Inv(r, orig, s, k) && Active(s) && AckSafe(r, s, e)
    requires 0 < r.windowSize && k <= |orig| && TraceOk(r, s.log, s.rq, k)
    ensures Ready(s) && r.WellFormed() && s.frs != []
    ensures var (s', o) := Step(c, r, s, e);
      && FirstSends(s'.log) == Iota(NextK(s, |orig|, k))
      && RetransmissionsJustified(r, s'.log)
      && (o == Continue ==> TraceOk(r, s'.log, s'.rq, NextK(s, |orig|, k)))
      && (o == Completed ==> NextK(s, |orig|, k) == |orig|)
  {
    assert s.frs != [] && |orig| > 0;
    hide Inv, Faithful, Step, FirstSends, Iota, RetransmissionsJustified, QueueJustified, Entry, Active, AckSafe,
         IsAll1;
    StepTraces(c, r, orig, s, k, e);
    EntryFits(r, orig, s, k, e);
    if Step(c, r, s, e).1 == Continue {
      QueueFits(r, s, e, Step(c, r, s, e));
    }
    if Step(c, r, s, e).1 == Completed {
      CompletesLast(r, orig, s, k);
    }
  }

  lemma CompletesLast(r: Rule, orig: seq<Fragment>, s: Sender, k: nat)
    requires Faithful(r, orig) && Inv(r, orig, s, k) && Active(s) && Ready(s)
    requires IsAll1(r, Deref(s, Head(s))) && !s.rt && k <= |orig|
    ensures NextK(s, |orig|, k) == |orig|
  {
    HeadClass(r, orig, s, k);
    hide Inv, Faithful, IsAll1, IsAll0, IsSenderAbort, ExpectsAck;
  }

  /** Trace order over whole runs: the first sends of the fragments are 0, 1, 2, ... in that
      order, every retransmission is of a fragment an earlier ACK reported lost, and a run
      that completes has sent every fragment at least once. */
  lemma {:induction false} TraceOfRun(c: Config, r: Rule, orig: seq<Fragment>, s: Sender, k: nat, es: seq<Event>)
    returns (k': nat)
    requires Faithful(r, orig) && Inv(r, orig, s, k) && r.WellFormed() && s.frs != []
    requires AcksSafe(c, r, s, es)
    requires 0 < r.windowSize && k <= |orig| && TraceOk(r, s.log, s.rq, k)
    ensures var (s', status) := Run(c, r, s, es);
      && FirstSends(s'.log) == Iota(k')
      && RetransmissionsJustified(r, s'.log)
      && (status == Ended(Completed) ==> k' == |orig|)
    decreases |es|
  {
    k' := k;
    hide Faithful, Step, Inv, FirstSends, Iota, RetransmissionsJustified, AcksSafe, QueueJustified, NextK;
    if Active(s) && es != [] {
      SafeStep(c, r, orig, s, k, es);
      TraceKeeps(c, r, orig, s, k, es[0]);
      RunUnfolds(c, r, s, es);
      var (s1, o) := Step(c, r, s, es[0]);
      k' := NextK(s, |orig|, k);
      if o == Continue {
        k' := TraceOfRun(c, r, orig, s1, k', es[1..]);
      }
    }
  }

  lemma StartTrace(r: Rule, orig: seq<Fragment>)
    requires r.TupleSize() > 0 && 0 < r.windowSize
    ensures var s := Start(orig, (|orig| - 1) / r.windowSize); TraceOk(r, s.log, s.rq, 0)
  {
  }

  /** The same for a run from the start. */
  lemma TraceFromStart(c: Config, r: Rule, orig: seq<Fragment>, es: seq<Event>) returns (k: nat)
    requires Faithful(r, orig) && r.WellFormed() && orig != []
    requires AcksSafe(c, r, Start(orig, (|orig| - 1) / r.windowSize), es)
    ensures var (s, status) := SenderSilence.RunFromStart(c, r, orig, es);
      && FirstSends(s.log) == Iota(k)
      && RetransmissionsJustified(r, s.log)
      && (status == Ended(Completed) ==> k == |orig|)
  {
    hide Faithful, Inv, FirstSends, Iota, RetransmissionsJustified, AcksSafe, Run, TraceOk;
    var s := Start(orig, (|orig| - 1) / r.windowSize);
    StartInv(r, orig);
    StartTrace(r, orig);
    k := TraceOfRun(c, r, orig, s, 0, es);
  }

  // ---------------------------------------------------------------- retransmissions first

  function Resends(orig: seq<Fragment>, q: seq<Ref>): seq<Sent>
    requires forall i | 0 <= i < |q| :: q[i].Frg? && q[i].idx < |orig|
  {
    seq(|q|, i requires 0 <= i < |q| => Sent(q[i], orig[q[i].idx], true, None))
  }

  /** The state once the retransmission queue has been worked off. */
  function Resent(orig: seq<Fragment>, s: Sender): Sender
    requires forall i | 0 <= i < |s.rq| :: s.rq[i].Frg? && s.rq[i].idx < |orig|
  {
    s.(rq := [], rt := false, log := s.log + Resends(orig, s.rq))
  }

  lemma ResendsCons(orig: seq<Fragment>, q: seq<Ref>)
    requires q != [] && forall i | 0 <= i < |q| :: q[i].Frg? && q[i].idx < |orig|
    ensures Resends(orig, q) == [Sent(q[0], orig[q[0].idx], true, None)] + Resends(orig, q[1..])
  {
  }

  lemma ResentStep(c: Config, r: Rule, orig: seq<Fragment>, s: Sender, k: nat, e: Event)
    requires Faithful(r, orig) && Inv(r, orig, s, k) && s.rq != []
    ensures s.rt && Ready(s) && r.WellFormed() && s.frs != []
    ensures RefsBetween(s.rq, 0, |orig| - 1)
    ensures var (s', o) := Step(c, r, s, e);
      && o == Continue && Inv(r, orig, s', k) && s'.rq == s.rq[1..] && s'.lastWindow == s.lastWindow
      && RefsBetween(s'.rq, 0, |orig| - 1)
      && Resent(orig, s') == Resent(orig, s)
  {
    assert s.rt && s.frs != [];
    StepRetransmits(c, r, orig, s, k, e);
    RetransmissionKeeps(r, orig, s, k, e);
    var s' := AfterRetransmission(r, s, e);
    ResendsCons(orig, s.rq);
    Bits.AppendAssociative(s.log, [Sent(s.rq[0], orig[s.rq[0].idx], true, None)], Resends(orig, s.rq[1..]));
    hide Step, Faithful, FragmentsOk, TransmissionOk, Popped, Resends;
  }

  /** Queued retransmissions go out first, all of them and in order, whatever the channel
      does meanwhile; the transmission queue waits unchanged. */
  lemma {:induction false} RetransmissionsFirst(c: Config, r: Rule, orig: seq<Fragment>, s: Sender, k: nat,
                                                es: seq<Event>)
    requires Faithful(r, orig) && Inv(r, orig, s, k) && |es| >= |s.rq|
    ensures r.WellFormed() && s.frs != [] && RefsBetween(s.rq, 0, |orig| - 1)
    ensures Inv(r, orig, Resent(orig, s), k)
    ensures Run(c, r, s, es) == Run(c, r, Resent(orig, s), es[|s.rq|..])
    decreases |s.rq|
  {
    hide Faithful, Inv, Resent, Resends, Run, Step;
    if s.rq == [] {
      ResentNothing(r, orig, s, k);
      assert es[0..] == es;
    } else {
      ResentStep(c, r, orig, s, k, es[0]);
      RunUnfolds(c, r, s, es);
      var s' := Step(c, r, s, es[0]).0;
      RetransmissionsFirst(c, r, orig, s', k, es[1..]);
      assert es[1..][|s.rq| - 1..] == es[|s.rq|..];
    }
  }

  lemma ResentNothing(r: Rule, orig: seq<Fragment>, s: Sender, k: nat)
    requires Faithful(r, orig) && Inv(r, orig, s, k) && s.rq == []
    ensures r.WellFormed() && s.frs != [] && RefsBetween(s.rq, 0, |orig| - 1)
    ensures Resent(orig, s) == s
  {
    assert s.log + [] == s.log;
  }
}
