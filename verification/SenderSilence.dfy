/**
  The exact behaviour of the sender when nothing is ever delivered.
 */
module SenderSilence {
  import opened Options
  import opened Rules
  import opened Fragments
  import opened FrProcedure
  import opened SenderModel
  import opened SenderInvariant
  import opened SenderTermination

  ghost predicate Silent(es: seq<Event>) {
    forall k | 0 <= k < |es| :: !Delivers(es[k])
  }

  /** The All-1 has been overwritten by a Sender-Abort before send number `i`. */
  predicate PatienceOver(c: Config, n: nat, i: nat) {
    !c.disableMax && i >= n - 1 + Patience(c)
  }

  function SilentFrs(c: Config, r: Rule, orig: seq<Fragment>, i: nat): (frs: seq<Fragment>)
    requires orig != []
    ensures |frs| == |orig|
  {
    if PatienceOver(c, |orig|, i) then orig[|orig| - 1 := SenderAbort(r)] else orig
  }

  /** Which fragment goes out in send number `i`: each in turn, then the last one again and again. */
  function Turn(n: nat, i: nat): nat
    requires n > 0
  {
    if i < n then i else n - 1
  }

  function SilentSend(c: Config, r: Rule, orig: seq<Fragment>, i: nat): Sent
    requires orig != []
  {
    Sent(Frg(Turn(|orig|, i)), SilentFrs(c, r, orig, i)[Turn(|orig|, i)], false, None)
  }

  function SilentLog(c: Config, r: Rule, orig: seq<Fragment>, j: nat): (log: seq<Sent>)
    requires orig != []
    ensures |log| == j
  {
    seq(j, i requires 0 <= i < j => SilentSend(c, r, orig, i))
  }

  function RefsFrom(k: nat, n: nat): (q: seq<Ref>)
    requires k <= n
    ensures |q| == n - k
  {
    seq(n - k, i requires 0 <= i < n - k => Frg(k + i))
  }

  /** The state after `j` steps without an ACK. */
  function SilentState(c: Config, r: Rule, orig: seq<Fragment>, j: nat): Sender
    requires orig != [] && r.windowSize > 0
  {
    Sender(SilentFrs(c, r, orig, j), NullFragment, RefsFrom(Turn(|orig|, j), |orig|), [], |orig|,
           if j < |orig| then 0 else j - (|orig| - 1), false, (|orig| - 1) / r.windowSize,
           SilentLog(c, r, orig, j))
  }

  lemma SilentInv(c: Config, r: Rule, orig: seq<Fragment>, j: nat)
    requires orig != [] && r.windowSize > 0
    ensures Inv(r, orig, SilentState(c, r, orig, j), if j < |orig| then j else |orig|)
    ensures Active(SilentState(c, r, orig, j))
  {
  }

  lemma LogGrows(c: Config, r: Rule, orig: seq<Fragment>, j: nat)
    requires orig != []
    ensures SilentLog(c, r, orig, j + 1) == SilentLog(c, r, orig, j) + [SilentSend(c, r, orig, j)]
  {
  }

  lemma SilentGround(c: Config, r: Rule, orig: seq<Fragment>, j: nat)
    requires Faithful(r, orig)
    ensures orig != [] && r.windowSize > 0 && r.WellFormed()
    ensures SilentState(c, r, orig, j).frs != [] && Active(SilentState(c, r, orig, j))
  {
    SilentInv(c, r, orig, j);
  }

  lemma RefsShift(k: nat, n: nat)
    requires k < n
    ensures RefsFrom(k, n)[0] == Frg(k)
    ensures k + 1 < n ==> RefsFrom(k, n)[1..] == RefsFrom(k + 1, n)
    ensures k + 1 == n ==> RefsFrom(k, n)[1..] == [] && [] + [Frg(k)] == RefsFrom(k, n)
  {
  }

  /** The silent run ends here: the Sender-Abort that replaced the All-1 is about to be sent. */
  predicate LastSend(c: Config, r: Rule, n: nat, j: nat) {
    r.AbortDistinct() && PatienceOver(c, n, j)
  }

  /** What the code makes of the fragment of turn `j`. */
  lemma SilentClass(c: Config, r: Rule, orig: seq<Fragment>, j: nat)
    requires Faithful(r, orig)
    ensures var f := SilentFrs(c, r, orig, j)[Turn(|orig|, j)];
      && (IsAll1(r, f) <==> j >= |orig| - 1 && !LastSend(c, r, |orig|, j))
      && (IsSenderAbort(r, f) <==> LastSend(c, r, |orig|, j))
  {
    ClassOfOriginal(r, orig, Turn(|orig|, j));
    ClassOfAbort(r);
  }

  lemma PoppedSilently(c: Config, r: Rule, orig: seq<Fragment>, j: nat, e: Event)
    requires Faithful(r, orig) && !Delivers(e)
    ensures var s := SilentState(c, r, orig, j);
      && Ready(s) && Head(s) == Frg(Turn(|orig|, j)) && InRange(s, Head(s))
      && Deref(s, Head(s)) == SilentFrs(c, r, orig, j)[Turn(|orig|, j)]
      && Popped(r, s, e) == s.(tq := s.tq[1..], log := SilentLog(c, r, orig, j + 1),
           attempts := if j >= |orig| - 1 && !LastSend(c, r, |orig|, j) then s.attempts + 1 else s.attempts)
  {
    RefsShift(Turn(|orig|, j), |orig|);
    LogGrows(c, r, orig, j);
    SilentClass(c, r, orig, j);
    hide IsAll1, IsAll0, IsSenderAbort, SilentLog, LastSend, Faithful;
  }

  /** What a step without an ACK makes of the state, by turn. */
  lemma SilentAfter(c: Config, r: Rule, orig: seq<Fragment>, j: nat, e: Event)
    requires Faithful(r, orig) && !Delivers(e)
    ensures Ready(SilentState(c, r, orig, j))
    ensures var (s', o) := AfterSilence(c, r, SilentState(c, r, orig, j), e);
      if LastSend(c, r, |orig|, j) then o == SenderAborted && s'.log == SilentLog(c, r, orig, j + 1)
      else s' == SilentState(c, r, orig, j + 1) && o == Continue
  {
    hide IsAll1, IsAll0, IsSenderAbort, SilentLog, Faithful, SenderAbort, Popped, RefsFrom, Delivers, Turn;
    SilentGround(c, r, orig, j);
    PoppedSilently(c, r, orig, j, e);
    SilentClass(c, r, orig, j);
    FrsNext(c, r, orig, j);
    RefsShift(Turn(|orig|, j), |orig|);
  }

  lemma FrsNext(c: Config, r: Rule, orig: seq<Fragment>, j: nat)
    requires orig != []
    ensures Turn(|orig|, j) < |orig|
    ensures SilentFrs(c, r, orig, j + 1) == if PatienceOver(c, |orig|, j + 1)
        then SilentFrs(c, r, orig, j)[|orig| - 1 := SenderAbort(r)] else SilentFrs(c, r, orig, j)
    ensures Turn(|orig|, j + 1) == if j + 1 < |orig| then Turn(|orig|, j) + 1 else Turn(|orig|, j)
    ensures Turn(|orig|, j) == |orig| - 1 <==> j >= |orig| - 1
  {
    hide SenderAbort;
  }

  lemma SilentStep(c: Config, r: Rule, orig: seq<Fragment>, j: nat, e: Event)
    requires Faithful(r, orig) && !Delivers(e)
    ensures r.WellFormed() && Ready(SilentState(c, r, orig, j))
    ensures SilentState(c, r, orig, j).frs != [] && Active(SilentState(c, r, orig, j))
    ensures var (s', o) := Step(c, r, SilentState(c, r, orig, j), e);
      if LastSend(c, r, |orig|, j) then o == SenderAborted && s'.log == SilentLog(c, r, orig, j + 1)
      else s' == SilentState(c, r, orig, j + 1) && o == Continue
  {
    var s := SilentState(c, r, orig, j);
    assert orig != [] && r.windowSize > 0 && s.frs != [] && !s.rt;
    hide *;
    SilentInv(c, r, orig, j);
    HeadClass(r, orig, s, if j < |orig| then j else |orig|);
    StepSilent(c, r, orig, s, if j < |orig| then j else |orig|, e);
    SilentAfter(c, r, orig, j, e);
  }

  /** Where a silent run stands after `steps` steps: ended, with a Sender-Abort, exactly when
      the rule's Sender-Abort can be told from an All-1 and the limit on ACK requests is
      enabled, after n + Patience sends; otherwise still going. */
  ghost predicate SilentOutcome(c: Config, r: Rule, orig: seq<Fragment>, steps: nat, res: (Sender, Status))
    requires orig != [] && r.windowSize > 0
  {
    if r.AbortDistinct() && !c.disableMax && steps >= |orig| + Patience(c) then
      res.1 == Ended(SenderAborted) && res.0.log == SilentLog(c, r, orig, |orig| + Patience(c))
    else
      res == (SilentState(c, r, orig, steps), Running)
  }

  lemma SilentEnd(c: Config, r: Rule, orig: seq<Fragment>, j: nat, es: seq<Event>)
    requires Faithful(r, orig) && Silent(es) && es != []
    requires LastSend(c, r, |orig|, j) && j < |orig| + Patience(c)
    ensures r.WellFormed() && SilentState(c, r, orig, j).frs != []
    ensures SilentOutcome(c, r, orig, j + |es|, Run(c, r, SilentState(c, r, orig, j), es))
  {
    hide Step, SilentState, SilentLog, Faithful, Run, Silent, Delivers;
    SilentGround(c, r, orig, j);
    SilentFirst(es);
    SilentStep(c, r, orig, j, es[0]);
    RunUnfolds(c, r, SilentState(c, r, orig, j), es);
  }

  lemma SilentFirst(es: seq<Event>)
    requires Silent(es) && es != []
    ensures !Delivers(es[0]) && Silent(es[1..])
  {
    hide Delivers;
  }

  lemma SilentNow(c: Config, r: Rule, orig: seq<Fragment>, j: nat)
    requires orig != [] && r.windowSize > 0 && r.WellFormed() && Active(SilentState(c, r, orig, j))
    requires r.AbortDistinct() && !c.disableMax ==> j < |orig| + Patience(c)
    ensures SilentState(c, r, orig, j).frs != []
    ensures SilentOutcome(c, r, orig, j, Run(c, r, SilentState(c, r, orig, j), []))
  {
    assert SilentState(c, r, orig, j).frs != [];
    hide SilentState, SilentLog;
  }

  lemma SilentNext(c: Config, r: Rule, orig: seq<Fragment>, j: nat, es: seq<Event>)
    requires Faithful(r, orig) && Silent(es) && es != [] && !LastSend(c, r, |orig|, j)
    requires r.AbortDistinct() && !c.disableMax ==> j < |orig| + Patience(c)
    ensures r.WellFormed() && SilentState(c, r, orig, j).frs != [] && SilentState(c, r, orig, j + 1).frs != []
    ensures Run(c, r, SilentState(c, r, orig, j), es) == Run(c, r, SilentState(c, r, orig, j + 1), es[1..])
    ensures Silent(es[1..]) && j + 1 + |es[1..]| == j + |es|
    ensures r.AbortDistinct() && !c.disableMax ==> j + 1 < |orig| + Patience(c)
  {
    SilentStep(c, r, orig, j, es[0]);
    RunUnfolds(c, r, SilentState(c, r, orig, j), es);
    SilentInv(c, r, orig, j + 1);
    hide Step, SilentLog, Run;
  }

  /** On a silent channel the run is determined send by send. */
  lemma {:induction false} SilentRunFrom(c: Config, r: Rule, orig: seq<Fragment>, j: nat, es: seq<Event>)
    requires Faithful(r, orig) && Silent(es)
    requires r.AbortDistinct() && !c.disableMax ==> j < |orig| + Patience(c)
    ensures r.WellFormed() && SilentState(c, r, orig, j).frs != []
    ensures SilentOutcome(c, r, orig, j + |es|, Run(c, r, SilentState(c, r, orig, j), es))
    decreases |es|
  {
    hide *;
    SilentGround(c, r, orig, j);
    if es == [] {
      SilentNow(c, r, orig, j);
      assert j + |es| == j;
    } else if LastSend(c, r, |orig|, j) {
      SilentLastTurn(c, r, orig, j);
      SilentEnd(c, r, orig, j, es);
    } else {
      SilentNext(c, r, orig, j, es);
      SilentRunFrom(c, r, orig, j + 1, es[1..]);
    }
  }

  lemma SilentLastTurn(c: Config, r: Rule, orig: seq<Fragment>, j: nat)
    requires LastSend(c, r, |orig|, j)
    requires r.AbortDistinct() && !c.disableMax ==> j < |orig| + Patience(c)
    ensures j < |orig| + Patience(c)
  {
  }

  lemma StartIsSilent(c: Config, r: Rule, orig: seq<Fragment>)
    requires orig != [] && r.windowSize > 0
    ensures Start(orig, (|orig| - 1) / r.windowSize) == SilentState(c, r, orig, 0)
  {
  }

  /** A whole run, from the state sender_start enters its loop in. */
  ghost function RunFromStart(c: Config, r: Rule, orig: seq<Fragment>, es: seq<Event>): (Sender, Status)
    requires Faithful(r, orig)
  {
    Run(c, r, Start(orig, (|orig| - 1) / r.windowSize), es)
  }

  /** n - 1 fragments once each, the All-1 as often as the sender has patience, then one Sender-Abort. */
  ghost predicate GaveUp(c: Config, r: Rule, orig: seq<Fragment>, log: seq<Sent>)
    requires orig != []
  {
    var n := |orig|;
    && |log| == n + Patience(c)
    && (forall i | 0 <= i < n - 1 :: log[i].frg == orig[i])
    && (forall i | n - 1 <= i < n - 1 + Patience(c) :: log[i].frg == orig[n - 1])
    && log[n - 1 + Patience(c)].frg == SenderAbort(r)
  }

  lemma SilentLogGivesUp(c: Config, r: Rule, orig: seq<Fragment>)
    requires orig != [] && !c.disableMax
    ensures GaveUp(c, r, orig, SilentLog(c, r, orig, |orig| + Patience(c)))
  {
    hide SenderAbort;
  }

  lemma FromStartIsSilent(c: Config, r: Rule, orig: seq<Fragment>, es: seq<Event>)
    requires Faithful(r, orig) && Silent(es)
    ensures orig != [] && r.windowSize > 0
    ensures SilentOutcome(c, r, orig, |es|, RunFromStart(c, r, orig, es))
  {
    hide Run, Faithful, Silent, Start, SilentState, SilentOutcome;
    SilentGround(c, r, orig, 0);
    StartIsSilent(c, r, orig);
    SilentRunFrom(c, r, orig, 0, es);
  }

  lemma OutcomeEnds(c: Config, r: Rule, orig: seq<Fragment>, steps: nat, res: (Sender, Status))
    requires orig != [] && r.windowSize > 0 && SilentOutcome(c, r, orig, steps, res)
    requires r.AbortDistinct() && !c.disableMax && steps >= |orig| + Patience(c)
    ensures res.1 == Ended(SenderAborted) && GaveUp(c, r, orig, res.0.log)
  {
    SilentLogGivesUp(c, r, orig);
    hide SilentState, SilentLog, GaveUp;
  }

  lemma OutcomeRuns(c: Config, r: Rule, orig: seq<Fragment>, steps: nat, res: (Sender, Status))
    requires orig != [] && r.windowSize > 0 && SilentOutcome(c, r, orig, steps, res)
    requires !r.AbortDistinct() || c.disableMax
    ensures res.1 == Running && |res.0.log| == steps && res.0.tq != []
  {
    hide SenderAbort, SilentSend;
  }

  /** From the start: exactly n + Patience sends, the All-1 exactly Patience times, and the
      run returns SCHC_SENDER_ABORTED. */
  lemma SilentRun(c: Config, r: Rule, orig: seq<Fragment>, es: seq<Event>)
    requires Faithful(r, orig) && Silent(es)
    requires r.AbortDistinct() && !c.disableMax && |es| >= |orig| + Patience(c)
    ensures orig != []
    ensures RunFromStart(c, r, orig, es).1 == Ended(SenderAborted)
    ensures GaveUp(c, r, orig, RunFromStart(c, r, orig, es).0.log)
  {
    hide *;
    FromStartIsSilent(c, r, orig, es);
    OutcomeEnds(c, r, orig, |es|, RunFromStart(c, r, orig, es));
  }

  /** For two-byte option 1 the Sender-Abort reads back as an All-1, so a silent run never
      ends: the queue is not empty after any number of steps. */
  lemma SilentRunNeverEnds(c: Config, r: Rule, orig: seq<Fragment>, es: seq<Event>)
    requires Faithful(r, orig) && Silent(es)
    requires !r.AbortDistinct() || c.disableMax
    ensures RunFromStart(c, r, orig, es).1 == Running
    ensures |RunFromStart(c, r, orig, es).0.log| == |es| && RunFromStart(c, r, orig, es).0.tq != []
  {
    hide *;
    FromStartIsSilent(c, r, orig, es);
    OutcomeRuns(c, r, orig, |es|, RunFromStart(c, r, orig, es));
  }
}
