/**
  Termination of the sender.
 */
module SenderTermination {
  import opened Rules
  import opened Fragments
  import opened FrProcedure
  import Acks
  import opened SenderModel
  import opened SenderInvariant
  import SenderRuns
  import opened AnyAcks

  // ---------------------------------------------------------------- termination

  /** How often the All-1 is sent before the sender gives up on an unanswered one. */
  function Patience(c: Config): nat {
    if c.maxAckRequests == 0 then 1 else c.maxAckRequests
  }

  /** How many of the events deliver an ACK. */
  function AckCount(es: seq<Event>): nat
    decreases |es|
  {
    if es == [] then 0 else (if Delivers(es[0]) then 1 else 0) + AckCount(es[1..])
  }

  /** The All-1 waits in the transmission queue and has not become a Sender-Abort. */
  predicate All1Pending(orig: seq<Fragment>, s: Sender)
    requires 0 < |orig| == |s.frs|
  {
    Frg(|orig| - 1) in s.tq && s.frs[|orig| - 1] == orig[|orig| - 1]
  }

  ghost predicate AttemptsOk(c: Config, orig: seq<Fragment>, s: Sender)
    requires 0 < |orig| == |s.frs|
  {
    All1Pending(orig, s) ==> s.attempts < Patience(c)
  }

  /** Steps left if nothing more is delivered. */
  function QuietSteps(c: Config, orig: seq<Fragment>, s: Sender): int
    requires 0 < |orig| == |s.frs|
  {
    |s.rq| + |s.tq| + (if All1Pending(orig, s) then Patience(c) - s.attempts else 0)
  }

  /** A bound on the steps of a run to which at most `acks` ACKs are still delivered. */
  function Rank(c: Config, orig: seq<Fragment>, s: Sender, acks: nat): int
    requires 0 < |orig| == |s.frs|
  {
    acks * (s.capacity + Patience(c) + 1) + QuietSteps(c, orig, s)
  }

  /** A step without an ACK uses up one of the quiet steps. */
  lemma SilenceDecreases(c: Config, r: Rule, orig: seq<Fragment>, s: Sender, k: nat, e: Event)
    requires r.AbortDistinct() && !c.disableMax
    requires |s.frs| == |orig| > 0 && Inv(r, orig, s, k) && Ready(s) && !s.rt && HeadIs(r, orig, s, k)
    requires AttemptsOk(c, orig, s)
    requires !IsAll1(r, SenderAbort(r)) && SenderAbort(r) != orig[|orig| - 1]
    ensures var (s', o) := AfterSilence(c, r, s, e);
      o == Continue ==> |s'.frs| == |orig| && AttemptsOk(c, orig, s')
                        && QuietSteps(c, orig, s') < QuietSteps(c, orig, s)
                        && s'.capacity == s.capacity
  {
    hide ExpectsAck, IsAll0, IsAll1, IsSenderAbort, SenderAbort, Window, AbortFrom;
    var n, ref := |orig|, Head(s);
    PopKeeps(s.tq, n, k);
    assert s.tq == [ref] + s.tq[1..];
    if IsAll1(r, Deref(s, ref)) {
      AppendKeeps(r, orig, s, k, e, ref);
      assert Frg(n - 1) in s.tq;
    }
  }

  /** An ACK adds at most as many quiet steps as one ACK is worth. */
  lemma AckDecreases(c: Config, orig: seq<Fragment>, s: Sender, s': Sender, acks: nat)
    requires 0 < |orig| == |s.frs| == |s'.frs| && acks > 0 && AttemptsOk(c, orig, s)
    requires s'.attempts == 0 && s'.capacity == s.capacity && |s'.rq| <= s.capacity && |s'.tq| <= |s.tq|
    ensures AttemptsOk(c, orig, s') && Rank(c, orig, s', acks - 1) < Rank(c, orig, s, acks)
  {
    var worth := s.capacity + Patience(c) + 1;
    assert (acks - 1) * worth == acks * worth - worth;
  }

  lemma RetransmissionDecreases(c: Config, r: Rule, orig: seq<Fragment>, s: Sender, e: Event)
    requires |s.frs| == |orig| > 0 && Ready(s) && s.rt && AttemptsOk(c, orig, s)
    requires !IsAll1(r, Deref(s, Head(s)))
    ensures var s' := AfterRetransmission(r, s, e);
      && |s'.frs| == |orig| && AttemptsOk(c, orig, s') && s'.capacity == s.capacity
      && QuietSteps(c, orig, s') < QuietSteps(c, orig, s)
  {
    hide IsAll1;
  }

  /** Steps left after a step, counting the ACK it may have used. */
  ghost predicate Descends(c: Config, orig: seq<Fragment>, s: Sender, acks: nat, e: Event, res: (Sender, Outcome))
    requires 0 < |orig| == |s.frs|
    requires Delivers(e) ==> acks > 0
  {
    res.1 == Continue ==>
      && |res.0.frs| == |orig| && AttemptsOk(c, orig, res.0)
      && Rank(c, orig, res.0, if Delivers(e) then acks - 1 else acks) < Rank(c, orig, s, acks)
  }

  lemma QuietDescends(c: Config, orig: seq<Fragment>, s: Sender, acks: nat, e: Event, res: (Sender, Outcome))
    requires 0 < |orig| == |s.frs| && (Delivers(e) ==> acks > 0)
    requires res.1 == Continue ==> |res.0.frs| == |orig| && AttemptsOk(c, orig, res.0)
                                   && QuietSteps(c, orig, res.0) < QuietSteps(c, orig, s)
                                   && res.0.capacity == s.capacity
    ensures Descends(c, orig, s, acks, e, res)
  {
    var worth := s.capacity + Patience(c) + 1;
    if Delivers(e) {
      assert (acks - 1) * worth == acks * worth - worth;
    }
  }

  lemma ListeningDescends(c: Config, r: Rule, orig: seq<Fragment>, s: Sender, k: nat, acks: nat, e: Event)
    requires Faithful(r, orig) && Inv(r, orig, s, k) && Ready(s) && !s.rt && HeadIs(r, orig, s, k)
    requires r.WellFormed() && s.frs != [] && InRange(s, Head(s)) && ExpectsAck(r, Deref(s, Head(s)))
    requires 0 < |orig| == |s.frs| && AttemptsOk(c, orig, s) && AckInside(r, s, e) && Delivers(e) && acks > 0
    ensures Descends(c, orig, s, acks, e, Step(c, r, s, e))
  {
    hide *;
    StepListens(c, r, orig, s, k, e);
    SenderRuns.HandledIs(r, s, e);
    CompletesIs(r, s, e);
    if !Acks.IsReceiverAbort(r, AckOfEvent(e)) && !Completes(r, s, e) {
      var s' := Step(c, r, s, e).0;
      SoundListening(r, orig, s, k, e);
      SoundBounds(r, orig, s', NextK(s, |orig|, k));
      AckDecreases(c, orig, s, s', acks);
      AckDescends(c, orig, s, acks, e, Step(c, r, s, e));
    } else {
      EndedDescends(c, orig, s, acks, e, Step(c, r, s, e));
    }
  }

  lemma AckDescends(c: Config, orig: seq<Fragment>, s: Sender, acks: nat, e: Event, res: (Sender, Outcome))
    requires 0 < |orig| == |s.frs| == |res.0.frs| && Delivers(e) && acks > 0 && AttemptsOk(c, orig, res.0)
    requires Rank(c, orig, res.0, acks - 1) < Rank(c, orig, s, acks)
    ensures Descends(c, orig, s, acks, e, res)
  {
    hide Delivers, AttemptsOk, Rank;
  }

  lemma All1IsNoAbort(r: Rule, orig: seq<Fragment>)
    requires Faithful(r, orig) && r.AbortDistinct() && orig != []
    ensures !IsAll1(r, SenderAbort(r)) && SenderAbort(r) != orig[|orig| - 1]
  {
    hide *;
    FaithfulSizes(r, orig);
    AbortClass(r);
    ClassOfOriginal(r, orig, |orig| - 1);
  }

  lemma StepDescends(c: Config, r: Rule, orig: seq<Fragment>, s: Sender, k: nat, acks: nat, e: Event)
    requires Faithful(r, orig) && r.AbortDistinct() && !c.disableMax && r.WellFormed() && s.frs != []
    requires |s.frs| == |orig| > 0 && Sound(r, orig, s, k) && Active(s) && AckInside(r, s, e)
    requires AttemptsOk(c, orig, s) && (Delivers(e) ==> acks > 0)
    ensures Ready(s)
    ensures Descends(c, orig, s, acks, e, Step(c, r, s, e))
  {
    hide *;
    SoundIntact(r, orig, s, k);
    if s.rt {
      Retransmits(c, r, orig, s, e);
      RetransmissionDecreases(c, r, orig, s, e);
      QuietDescends(c, orig, s, acks, e, Step(c, r, s, e));
    } else {
      SoundIsInv(r, orig, s, k);
      HeadClass(r, orig, s, k);
      if Delivers(e) && ExpectsAck(r, Deref(s, Head(s))) {
        ListeningDescends(c, r, orig, s, k, acks, e);
      } else {
        StepSilent(c, r, orig, s, k, e);
        All1IsNoAbort(r, orig);
        SilenceDecreases(c, r, orig, s, k, e);
        QuietDescends(c, orig, s, acks, e, AfterSilence(c, r, s, e));
      }
    }
  }

  lemma EndedDescends(c: Config, orig: seq<Fragment>, s: Sender, acks: nat, e: Event, res: (Sender, Outcome))
    requires 0 < |orig| == |s.frs| && (Delivers(e) ==> acks > 0) && res.1 != Continue
    ensures Descends(c, orig, s, acks, e, res)
  {
  }

  /** A state of a run that can still go on for at most `steps` steps and `acks` ACKs. */
  ghost predicate Bounded(c: Config, r: Rule, orig: seq<Fragment>, s: Sender, k: nat, acks: nat, steps: nat) {
    && |s.frs| == |orig| > 0 && k <= |orig| && Sound(r, orig, s, k) && AttemptsOk(c, orig, s)
    && Rank(c, orig, s, acks) <= steps
  }

  lemma NextRank(c: Config, r: Rule, orig: seq<Fragment>, s: Sender, s1: Sender, k1: nat, es: seq<Event>, o: Outcome)
    requires es != [] && 0 < |orig| == |s.frs| && Rank(c, orig, s, AckCount(es)) <= |es|
    requires o == Continue && (Delivers(es[0]) ==> AckCount(es) > 0)
    requires Sound(r, orig, s1, k1) && k1 <= |orig|
    requires Descends(c, orig, s, AckCount(es), es[0], (s1, o))
    ensures Bounded(c, r, orig, s1, k1, AckCount(es[1..]), |es[1..]|)
  {
    hide Delivers, AttemptsOk, Rank, Sound;
    assert AckCount(es[1..]) == if Delivers(es[0]) then AckCount(es) - 1 else AckCount(es);
  }

  lemma NextBounded(c: Config, r: Rule, orig: seq<Fragment>, s: Sender, k: nat, es: seq<Event>)
    requires Faithful(r, orig) && r.AbortDistinct() && !c.disableMax && r.WellFormed() && s.frs != []
    requires Bounded(c, r, orig, s, k, AckCount(es), |es|) && Active(s)
    requires es != [] && AcksInside(c, r, s, es)
    ensures Ready(s)
    ensures var (s', o) := Step(c, r, s, es[0]);
      o == Continue ==>
        && s'.frs != [] && Bounded(c, r, orig, s', NextK(s, |orig|, k), AckCount(es[1..]), |es[1..]|)
        && AcksInside(c, r, s', es[1..])
  {
    hide *;
    BoundedParts(c, r, orig, s, k, AckCount(es), |es|);
    CountedFirst(es);
    InsideStep(c, r, orig, s, k, es);
    StepDescends(c, r, orig, s, k, AckCount(es), es[0]);
    var (s1, o) := Step(c, r, s, es[0]);
    if o == Continue {
      NextRank(c, r, orig, s, s1, NextK(s, |orig|, k), es, o);
    }
  }

  lemma BoundedParts(c: Config, r: Rule, orig: seq<Fragment>, s: Sender, k: nat, acks: nat, steps: nat)
    requires Bounded(c, r, orig, s, k, acks, steps)
    ensures |s.frs| == |orig| > 0 && k <= |orig| && Sound(r, orig, s, k) && AttemptsOk(c, orig, s)
    ensures Rank(c, orig, s, acks) <= steps
  {
    hide Sound, AttemptsOk, Rank;
  }

  lemma CountedFirst(es: seq<Event>)
    requires es != []
    ensures Delivers(es[0]) ==> AckCount(es) > 0
  {
    hide Delivers;
  }

  lemma StepsLeft(c: Config, r: Rule, orig: seq<Fragment>, s: Sender, k: nat, acks: nat, steps: nat)
    requires Bounded(c, r, orig, s, k, acks, steps) && Active(s)
    ensures steps > 0
  {
    hide Sound;
    assert acks * (s.capacity + Patience(c) + 1) >= 0;
  }

  /** Termination: for a rule whose Sender-Abort can be told from an All-1, and with the
      limit on ACK requests enabled, a run is over after at most Rank steps, however many of
      its events deliver an ACK and whatever windows these name, in whatever order. */
  lemma {:induction false} Terminates(c: Config, r: Rule, orig: seq<Fragment>, s: Sender, k: nat, es: seq<Event>)
    requires Faithful(r, orig) && r.AbortDistinct() && !c.disableMax && r.WellFormed() && s.frs != []
    requires Bounded(c, r, orig, s, k, AckCount(es), |es|) && AcksInside(c, r, s, es)
    ensures Run(c, r, s, es).1 != Running
    decreases |es|
  {
    hide Step, Faithful, AcksInside, Bounded, NextK, AckCount;
    if Active(s) {
      StepsLeft(c, r, orig, s, k, AckCount(es), |es|);
      NextBounded(c, r, orig, s, k, es);
      RunUnfolds(c, r, s, es);
      var (s1, o) := Step(c, r, s, es[0]);
      if o == Continue {
        Terminates(c, r, orig, s1, NextK(s, |orig|, k), es[1..]);
      }
    }
  }

  lemma RankIs(c: Config, orig: seq<Fragment>, s: Sender, acks: nat)
    requires 0 < |orig| == |s.frs|
    ensures Rank(c, orig, s, acks) == acks * (s.capacity + Patience(c) + 1) + QuietSteps(c, orig, s)
  {
  }

  lemma StartQuiet(c: Config, orig: seq<Fragment>, lastWindow: int)
    requires orig != []
    ensures var s := Start(orig, lastWindow);
      AttemptsOk(c, orig, s) && QuietSteps(c, orig, s) == |orig| + Patience(c)
  {
    assert Start(orig, lastWindow).tq[|orig| - 1] == Frg(|orig| - 1);
  }

  /** The bound from the start: a packet of n fragments and K delivered ACKs take at most
      K * (n + Patience + 1) + n + Patience steps. */
  lemma TerminatesFromStart(c: Config, r: Rule, orig: seq<Fragment>, es: seq<Event>)
    requires Faithful(r, orig) && r.AbortDistinct() && !c.disableMax && r.WellFormed() && orig != []
    requires AcksInside(c, r, Start(orig, (|orig| - 1) / r.windowSize), es)
    requires |es| >= AckCount(es) * (|orig| + Patience(c) + 1) + |orig| + Patience(c)
    ensures Run(c, r, Start(orig, (|orig| - 1) / r.windowSize), es).1 != Running
  {
    hide QuietSteps, Patience, Inv, Sound, AttemptsOk, AckCount, Faithful, Run, Rank, AcksInside;
    var s := Start(orig, (|orig| - 1) / r.windowSize);
    StartInv(r, orig);
    InvIsSound(r, orig, s, 0);
    StartQuiet(c, orig, (|orig| - 1) / r.windowSize);
    RankIs(c, orig, s, AckCount(es));
    Terminates(c, r, orig, s, 0, es);
  }
}
