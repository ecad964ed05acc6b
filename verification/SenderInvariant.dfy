/**
  What every reachable state of the sender satisfies at the head of its loop.
 */
module SenderInvariant {
  import opened Options
  import opened Rules
  import opened Fragments
  import opened FrProcedure
  import opened Acks
  import opened SenderModel
  import opened SenderQueues

  // ---------------------------------------------------------------- assumptions on ACKs

  function AckOfEvent(e: Event): CompoundAck { Ack(Buffer(e)) }

  /** The windows of the tuples are strictly increasing, as generate_ack makes them. */
  ghost predicate IncreasingAck(r: Rule, a: CompoundAck)
    requires r.TupleSize() > 0
  {
    WindowsWithin(Tuples(r, a), 0, Greatest(r, a))
  }

  /** update_queues goes through an ACK only when its last window is not after the fragment's. */
  predicate TakesEffect(r: Rule, f: Fragment, a: CompoundAck)
    requires r.TupleSize() > 0
  {
    Greatest(r, a) <= Window(r, f)
  }

  /** The event delivers an ACK to a step that listens. */
  predicate Answered(r: Rule, s: Sender, e: Event)
    requires Ready(s)
  {
    !s.rt && ExpectsAck(r, Deref(s, Head(s))) && Delivers(e)
  }

  /** What is assumed of an ACK that update_queues goes through: its windows increase, as
      generate_ack makes them, and none is after the packet's last. Nothing is assumed of a
      Receiver-Abort, of an ACK update_queues ignores, and of one nobody listens for. */
  ghost predicate AckSafe(r: Rule, s: Sender, e: Event)
    requires r.TupleSize() > 0
  {
    var a := AckOfEvent(e);
    Ready(s) && Answered(r, s, e) && !IsReceiverAbort(r, a) && TakesEffect(r, Deref(s, Head(s)), a) ==>
      IncreasingAck(r, a) && Greatest(r, a) <= s.lastWindow
  }

  // ---------------------------------------------------------------- the invariant

  /** The array holds the packet's fragments; only the All-1 may have become a Sender-Abort. */
  ghost predicate FragmentsOk(r: Rule, orig: seq<Fragment>, s: Sender, k: nat) {
    var n := |orig|;
    && 0 < n == |s.frs| && k <= n
    && (forall i | 0 <= i < n - 1 :: s.frs[i] == orig[i])
    && (s.frs[n - 1] == orig[n - 1] || (k == n && s.frs[n - 1] == SenderAbort(r)))
    && (AbortSlot in s.tq ==> s.senderAbort == SenderAbort(r))
  }

  /** Fragments `k` and later wait for their first transmission, in order; behind them come
      Sender-Aborts and, once it has been sent, the All-1. */
  ghost predicate TransmissionOk(tq: seq<Ref>, n: nat, k: nat)
    requires k <= n
  {
    && n - k <= |tq| <= n
    && (forall i | 0 <= i < n - k :: tq[i] == Frg(k + i))
    && forall i | n - k <= i < |tq| :: tq[i] == AbortSlot || (k == n && tq[i] == Frg(n - 1))
  }

  ghost predicate QueuesOk(s: Sender, n: nat, k: nat)
    requires k <= n
  {
    && TransmissionOk(s.tq, n, k)
    && (s.rt <==> s.rq != [])
    && RefsIncreasing(s.rq) && RefsBetween(s.rq, 0, n - 1) && RefsBetween(s.rq, 0, k)
    && (s.tq == [] ==> s.rq == [])
  }

  /** `k` is the number of fragments sent at least once. */
  ghost predicate Inv(r: Rule, orig: seq<Fragment>, s: Sender, k: nat) {
    && 0 < r.windowSize
    && FragmentsOk(r, orig, s, k)
    && QueuesOk(s, |orig|, k)
    && |orig| <= s.capacity
    && s.lastWindow == (|orig| - 1) / r.windowSize
  }

  lemma StartInv(r: Rule, orig: seq<Fragment>)
    requires Faithful(r, orig)
    ensures Inv(r, orig, Start(orig, (|orig| - 1) / r.windowSize), 0)
  {
  }

  // ---------------------------------------------------------------- the fragment about to go

  /** The loop guard holds. */
  predicate Active(s: Sender) { !(s.tq == [] && s.rq == []) }

  ghost predicate IsAbortMessage(r: Rule, f: Fragment) { f == SenderAbort(r) }

  /** fq_get never returns NULL, and its result points to a fragment. */
  lemma HeadExists(r: Rule, orig: seq<Fragment>, s: Sender, k: nat)
    requires Inv(r, orig, s, k) && Active(s)
    ensures Ready(s)
    ensures s.rt ==> Head(s).Frg? && Head(s).idx < |orig| - 1 && Head(s).idx < k
    ensures !s.rt ==> s.rq == []
    ensures !s.rt && k < |orig| ==> Head(s) == Frg(k)
    ensures !s.rt && k == |orig| ==> Head(s) == AbortSlot || Head(s) == Frg(|orig| - 1)
    ensures var f := Deref(s, Head(s));
      (Head(s).Frg? && f == orig[Head(s).idx]) || (!s.rt && k == |orig| && IsAbortMessage(r, f))
  {
    if !s.rt {
      assert s.tq[0] in s.tq;
    }
  }

  /** How the code classifies the two kinds of message the sender holds. */
  lemma ClassOfOriginal(r: Rule, orig: seq<Fragment>, i: nat)
    requires Faithful(r, orig) && i < |orig|
    ensures var f, ws := orig[i], r.windowSize;
      && (IsAll1(r, f) <==> i == |orig| - 1)
      && (IsAll0(r, f) <==> i != |orig| - 1 && i % ws == ws - 1)
      && (ExpectsAck(r, f) <==> i == |orig| - 1 || i % ws == ws - 1)
      && !IsSenderAbort(r, f)
      && Window(r, f) == i / ws
      && RuleIdField(r, f) == RuleIdBits(r)
      && AbortFrom(r, f) == SenderAbort(r)
  {
    assert FaithfulAt(r, orig[i], i, |orig|);
  }

  lemma ClassOfAbort(r: Rule)
    requires r.WellFormed()
    ensures var f := SenderAbort(r);
      && (IsAll1(r, f) <==> !r.AbortDistinct())
      && !IsAll0(r, f)
      && (ExpectsAck(r, f) <==> !r.AbortDistinct())
      && (IsSenderAbort(r, f) <==> r.AbortDistinct())
      && RuleIdField(r, f) == RuleIdBits(r)
      && AbortFrom(r, f) == SenderAbort(r)
  {
    AbortClass(r);
    AbortFields(r);
  }

  /** What a transmission is about to send, and how the code classifies it. */
  ghost predicate HeadIs(r: Rule, orig: seq<Fragment>, s: Sender, k: nat)
    requires Ready(s) && 0 < r.windowSize && orig != []
  {
    var n, ref, f := |orig|, Head(s), Deref(s, Head(s));
    && AbortFrom(r, f) == SenderAbort(r)
    && (k < n ==>
        && ref == Frg(k) && f == orig[k] && !IsSenderAbort(r, f)
        && (IsAll1(r, f) <==> k == n - 1)
        && (ExpectsAck(r, f) <==> IsAll1(r, f) || IsAll0(r, f))
        && (IsAll0(r, f) <==> k != n - 1 && k % r.windowSize == r.windowSize - 1)
        && Window(r, f) == k / r.windowSize)
    && (k >= n ==>
        && (ref == AbortSlot || ref == Frg(n - 1))
        && (ExpectsAck(r, f) <==> IsAll1(r, f))
        && !IsAll0(r, f)
        && (IsSenderAbort(r, f) <==> !IsAll1(r, f))
        && (IsSenderAbort(r, f) ==> f == SenderAbort(r) && r.AbortDistinct())
        && (r.AbortDistinct() && f == SenderAbort(r) ==> IsSenderAbort(r, f))
        && (r.AbortDistinct() && IsAll1(r, f) ==>
              ref == Frg(n - 1) && f == orig[n - 1] && Window(r, f) == (n - 1) / r.windowSize))
  }

  lemma HeadClass(r: Rule, orig: seq<Fragment>, s: Sender, k: nat)
    requires Faithful(r, orig) && Inv(r, orig, s, k) && Active(s) && !s.rt
    ensures r.WellFormed() && Ready(s) && InRange(s, Head(s)) && HeadIs(r, orig, s, k)
  {
    HeadExists(r, orig, s, k);
    if IsAbortMessage(r, Deref(s, Head(s))) {
      ClassOfAbort(r);
    }
    if Head(s).Frg? && Deref(s, Head(s)) == orig[Head(s).idx] {
      ClassOfOriginal(r, orig, Head(s).idx);
    }
  }

  // ---------------------------------------------------------------- what a step does

  /** The state after a pop and a send, before anything is read. */
  function Popped(r: Rule, s: Sender, e: Event): Sender
    requires Ready(s)
  {
    Sending(r, Pop(s), Head(s), e)
  }

  /** A retransmission listens for nothing: it only shortens its queue. */
  function AfterRetransmission(r: Rule, s: Sender, e: Event): Sender
    requires Ready(s)
  {
    UpdateRt(Popped(r, s, e))
  }

  lemma StepRetransmits(c: Config, r: Rule, orig: seq<Fragment>, s: Sender, k: nat, e: Event)
    requires Faithful(r, orig) && Inv(r, orig, s, k) && s.rt
    ensures Ready(s) && r.WellFormed()
    ensures Step(c, r, s, e) == (AfterRetransmission(r, s, e), Continue)
    ensures Popped(r, s, e) == s.(rq := s.rq[1..],
                                  log := s.log + [Sent(s.rq[0], orig[s.rq[0].idx], true, None)])
  {
    HeadExists(r, orig, s, k);
    ClassOfOriginal(r, orig, Head(s).idx);
  }

  /** A transmission without an ACK: a regular fragment or an All-0 just leaves the queue, an
      All-1 goes back to its end, as it is or as a Sender-Abort, and a Sender-Abort ends the run. */
  function AfterSilence(c: Config, r: Rule, s: Sender, e: Event): (Sender, Outcome)
    requires Ready(s) && !s.rt
  {
    var f, ref, s1 := Deref(s, Head(s)), Head(s), Popped(r, s, e);
    if IsSenderAbort(r, f) then (s1, SenderAborted)
    else if !IsAll1(r, f) then (s1, Continue)
    else if s1.attempts >= c.maxAckRequests && !c.disableMax then
      (PutT(Store(s1, ref, SenderAbort(r)), ref), Continue)
    else (PutT(s1, ref), Continue)
  }

  lemma StepSilent(c: Config, r: Rule, orig: seq<Fragment>, s: Sender, k: nat, e: Event)
    requires r.WellFormed() && Inv(r, orig, s, k) && Ready(s) && !s.rt && HeadIs(r, orig, s, k)
    requires !Delivers(e) || !ExpectsAck(r, Deref(s, Head(s)))
    ensures Step(c, r, s, e) == AfterSilence(c, r, s, e)
  {
    assert s.rq == [] && s.frs != [] && InRange(s, Head(s));
    hide Inv, IsAll0, IsAll1, IsSenderAbort, SenderAbort, Window, AbortFrom, ExpectsAck, Buffer;
    assert Deref(Popped(r, s, e), Head(s)) == Deref(s, Head(s));
    assert UpdateRt(Popped(r, s, e)) == Popped(r, s, e);
  }

  lemma StepListens(c: Config, r: Rule, orig: seq<Fragment>, s: Sender, k: nat, e: Event)
    requires r.WellFormed() && Inv(r, orig, s, k) && Ready(s) && !s.rt && HeadIs(r, orig, s, k)
    requires Delivers(e) && ExpectsAck(r, Deref(s, Head(s)))
    ensures Step(c, r, s, e) == HandleAck(r, Popped(r, s, e), Head(s), AckOfEvent(e))
  {
    assert UpdateRt(Popped(r, s, e)) == Popped(r, s, e);
  }

  // ---------------------------------------------------------------- an ACK

  /** What an ACK that does not end the run leads to. */
  function AfterAck(r: Rule, s0: Sender, ref: Ref, a: CompoundAck): Sender
    requires 0 < r.windowSize && r.m <= 31 && s0.frs != [] && InRange(s0, ref)
    requires Shaped(r, Tuples(r, a))
  {
    if !TakesEffect(r, Deref(s0, ref), a) then UpdateRt(s0)
    else
      var ts := Tuples(r, a);
      UpdateRt(AfterLosses(r, s0.(rq := LossRefs(r, |s0.frs|, s0.lastWindow, ts)), ref,
                           GivesUpOn(r, |s0.frs|, s0.lastWindow, ts)))
  }

  /** Sizes as sender_construct leaves them. */
  predicate Grounded(r: Rule, s: Sender) {
    && 0 < r.windowSize && r.m <= 31 && 0 < |s.frs| <= s.capacity
    && s.lastWindow == (|s.frs| - 1) / r.windowSize
  }

  lemma UpdateQueuesIs(r: Rule, s0: Sender, ref: Ref, a: CompoundAck)
    requires r.WellFormed() && Grounded(r, s0) && InRange(s0, ref) && s0.rq == []
    requires a.Ack? && |a.message| == DOWNLINK_MTU_BYTES
    requires TakesEffect(r, Deref(s0, ref), a) ==> IncreasingAck(r, a) && Greatest(r, a) <= s0.lastWindow
    ensures Shaped(r, Tuples(r, a))
    ensures UpdateRt(UpdateQueues(r, s0, ref, a)) == AfterAck(r, s0, ref, a)
  {
    TuplesShape(r, a);
    if TakesEffect(r, Deref(s0, ref), a) {
      QueueLossesIs(r, s0, ref, Tuples(r, a), 0);
      var q := LossRefs(r, |s0.frs|, s0.lastWindow, Tuples(r, a));
      assert s0.rq + q == q;
    }
  }

  /** One past the last fragment number of window `w`. */
  function WindowEnd(r: Rule, w: int): int {
    r.windowSize * (w + 1)
  }

  /** The retransmission queue an ACK fills is increasing, below the All-1, and holds only
      fragments of windows up to the last one the ACK names. */
  lemma LossesWithin(r: Rule, n: nat, lastWindow: int, ts: seq<Tuple>, greatest: int)
    requires 0 < r.windowSize && r.m <= 31 && n > 0 && Shaped(r, ts)
    requires lastWindow == (n - 1) / r.windowSize && 0 <= greatest <= lastWindow
    requires WindowsWithin(ts, 0, greatest)
    ensures var q := LossRefs(r, n, lastWindow, ts);
      && RefsIncreasing(q) && RefsBetween(q, 0, n - 1)
      && RefsBetween(q, 0, WindowEnd(r, greatest))
  {
    var q := LossRefs(r, n, lastWindow, ts);
    LossRefsOrdered(r, n, lastWindow, ts, 0);
    LossRefsSound(r, n, lastWindow, ts, 0);
    forall k | 0 <= k < |q|
      ensures q[k].idx < r.windowSize * (greatest + 1)
    {
      var i := q[k].idx;
      assert Frg(i) in q;
      var t :| 0 <= t < |ts| && WindowNb(ts[t]) == i / r.windowSize && !ts[t].bitmap[i % r.windowSize];
      DivIs(i, r.windowSize, WindowNb(ts[t]));
      WindowStarts(r.windowSize, WindowNb(ts[t]), greatest);
      WindowStarts(r.windowSize, greatest, greatest);
    }
  }

  // ---------------------------------------------------------------- preservation

  /** The outcome of a step is not a failure, and if the run goes on the invariant holds. */
  ghost predicate Kept(r: Rule, orig: seq<Fragment>, res: (Sender, Outcome), k: nat) {
    && res.1 != NetworkError
    && (res.1 == Continue ==> Inv(r, orig, res.0, k))
  }

  /** How many fragments have been sent once the step is done. */
  function NextK(s: Sender, n: nat, k: nat): nat {
    if !s.rt && k < n then k + 1 else k
  }

  lemma PutKeeps(tq: seq<Ref>, n: nat, k: nat, ref: Ref)
    requires 0 < n && k <= n && TransmissionOk(tq, n, k) && |tq| < n
    requires ref == AbortSlot || (k == n && ref == Frg(n - 1))
    ensures TransmissionOk(tq + [ref], n, k)
  {
  }

  lemma PopKeeps(tq: seq<Ref>, n: nat, k: nat)
    requires 0 < n && k <= n && TransmissionOk(tq, n, k) && tq != []
    ensures TransmissionOk(tq[1..], n, if k < n then k + 1 else k) && |tq[1..]| < n
  {
  }

  lemma PoppedFragments(r: Rule, orig: seq<Fragment>, s: Sender, k: nat, e: Event)
    requires Inv(r, orig, s, k) && Ready(s)
    ensures FragmentsOk(r, orig, Popped(r, s, e), NextK(s, |orig|, k))
  {
    if !s.rt {
      assert AbortSlot in s.tq[1..] ==> AbortSlot in s.tq;
    }
  }

  lemma RetransmissionKeeps(r: Rule, orig: seq<Fragment>, s: Sender, k: nat, e: Event)
    requires Inv(r, orig, s, k) && Ready(s) && s.rt
    ensures Kept(r, orig, (AfterRetransmission(r, s, e), Continue), NextK(s, |orig|, k))
  {
    PoppedFragments(r, orig, s, k, e);
  }

  /** Putting back what was just sent from the end of the transmission queue, or a
      Sender-Abort, keeps both the array and the queue in order. */
  lemma AppendKeeps(r: Rule, orig: seq<Fragment>, s: Sender, k: nat, e: Event, ref: Ref)
    requires Inv(r, orig, s, k) && Ready(s) && !s.rt
    requires ref == AbortSlot || (NextK(s, |orig|, k) == |orig| && ref == Frg(|orig| - 1))
    requires ref == AbortSlot ==> AbortSlot in s.tq || s.senderAbort == SenderAbort(r)
    ensures var s1 := PutT(Popped(r, s, e), ref);
      && s1.tq == s.tq[1..] + [ref]
      && TransmissionOk(s1.tq, |orig|, NextK(s, |orig|, k))
      && FragmentsOk(r, orig, s1, NextK(s, |orig|, k))
  {
    PopKeeps(s.tq, |orig|, k);
    PutKeeps(s.tq[1..], |orig|, NextK(s, |orig|, k), ref);
    assert AbortSlot in s.tq[1..] + [ref] ==> AbortSlot in s.tq || ref == AbortSlot;
  }

  lemma SilentKeeps(c: Config, r: Rule, orig: seq<Fragment>, s: Sender, k: nat, e: Event)
    requires Inv(r, orig, s, k) && Ready(s) && !s.rt && HeadIs(r, orig, s, k)
    ensures Kept(r, orig, AfterSilence(c, r, s, e), NextK(s, |orig|, k))
  {
    hide ExpectsAck, IsAll0, IsAll1, IsSenderAbort, SenderAbort, Window, AbortFrom;
    var ref := Head(s);
    PopKeeps(s.tq, |orig|, k);
    PoppedFragments(r, orig, s, k, e);
    if IsAll1(r, Deref(s, ref)) {
      AppendKeeps(r, orig, s, k, e, ref);
    }
  }

  /** An All-0 ends its window, which is not the last one. */
  lemma TriggerWindow(ws: nat, n: nat, i: nat)
    requires ws > 0 && i < n
    ensures i / ws <= (n - 1) / ws
    ensures i % ws == ws - 1 ==> ws * (i / ws + 1) == i + 1
    ensures i % ws == ws - 1 && i < n - 1 ==> i / ws < (n - 1) / ws
  {
    var a, b := i / ws, (n - 1) / ws;
    assert i == ws * a + i % ws;
    assert n - 1 == ws * b + (n - 1) % ws;
    WindowStarts(ws, a, a);
    if b < a {
      TimesMonotone(ws, b + 1, a);
      WindowStarts(ws, b, b);
    }
  }

  lemma LossesKeep(r: Rule, orig: seq<Fragment>, s: Sender, k: nat, e: Event, stopped: bool)
    requires Inv(r, orig, s, k) && Ready(s) && !s.rt && HeadIs(r, orig, s, k)
    requires ExpectsAck(r, Deref(s, Head(s)))
    ensures var s1 := AfterLosses(r, Popped(r, s, e), Head(s), stopped);
      && s1.tq != []
      && TransmissionOk(s1.tq, |orig|, NextK(s, |orig|, k))
      && FragmentsOk(r, orig, s1, NextK(s, |orig|, k))
  {
    hide ExpectsAck, IsAll0, IsAll1, IsSenderAbort, SenderAbort, Window, AbortFrom;
    PopKeeps(s.tq, |orig|, k);
    PoppedFragments(r, orig, s, k, e);
    if stopped {
      AppendKeeps(r, orig, s.(senderAbort := SenderAbort(r)), k, e, AbortSlot);
    } else if IsAll1(r, Deref(s, Head(s))) {
      AppendKeeps(r, orig, s, k, e, Head(s));
    }
  }

  lemma WindowBound(r: Rule, n: nat, k: nat, greatest: int)
    requires 0 < r.windowSize && k < n && greatest <= k / r.windowSize
    requires k == n - 1 || k % r.windowSize == r.windowSize - 1
    ensures greatest <= (n - 1) / r.windowSize
    ensures k + 1 == n || WindowEnd(r, greatest) <= k + 1
  {
    TriggerWindow(r.windowSize, n, k);
    TimesMonotone(r.windowSize, greatest + 1, k / r.windowSize + 1);
  }

  lemma GreatestIsNumber(r: Rule, a: CompoundAck)
    requires r.TupleSize() > 0 && IncreasingAck(r, a)
    ensures 0 <= Greatest(r, a)
  {
  }

  /** A transmission that listens and hears a safe ACK, not a Receiver-Abort. */
  ghost predicate Hears(r: Rule, orig: seq<Fragment>, s: Sender, k: nat, e: Event) {
    && 0 < r.windowSize && r.m <= 31 && |s.frs| == |orig| > 0
    && Inv(r, orig, s, k) && Ready(s) && !s.rt && HeadIs(r, orig, s, k)
    && InRange(s, Head(s)) && ExpectsAck(r, Deref(s, Head(s)))
    && AckSafe(r, s, e) && Delivers(e) && !IsReceiverAbort(r, AckOfEvent(e))
    && Shaped(r, Tuples(r, AckOfEvent(e)))
  }

  lemma HearsParts(r: Rule, orig: seq<Fragment>, s: Sender, k: nat, e: Event)
    requires Hears(r, orig, s, k, e)
    ensures 0 < r.windowSize && r.m <= 31 && |s.frs| == |orig| > 0 && k <= |orig| <= s.capacity
    ensures Inv(r, orig, s, k) && Ready(s) && !s.rt && HeadIs(r, orig, s, k) && InRange(s, Head(s))
    ensures ExpectsAck(r, Deref(s, Head(s))) && Shaped(r, Tuples(r, AckOfEvent(e)))
    ensures s.lastWindow == (|orig| - 1) / r.windowSize && s.rq == [] && s.tq != [] && Grounded(r, s)
  {
    hide HeadIs, ExpectsAck, AckSafe, Tuples, IsReceiverAbort, Delivers, Buffer, TransmissionOk;
  }

  lemma HeardSafe(r: Rule, orig: seq<Fragment>, s: Sender, k: nat, e: Event)
    requires Hears(r, orig, s, k, e)
    requires Ready(s) && TakesEffect(r, Deref(s, Head(s)), AckOfEvent(e))
    ensures IncreasingAck(r, AckOfEvent(e)) && Greatest(r, AckOfEvent(e)) <= s.lastWindow
    ensures Greatest(r, AckOfEvent(e)) <= Window(r, Deref(s, Head(s)))
  {
    hide Inv, HeadIs, ExpectsAck, Tuples, IsReceiverAbort, Delivers, Buffer, Greatest, Window, IncreasingAck, Shaped;
  }

  /** A transmission that listens before the packet is through ends its window or the packet. */
  lemma HeadEndsWindow(r: Rule, orig: seq<Fragment>, s: Sender, k: nat)
    requires 0 < r.windowSize && orig != [] && Ready(s) && HeadIs(r, orig, s, k) && k < |orig|
    requires ExpectsAck(r, Deref(s, Head(s)))
    ensures Window(r, Deref(s, Head(s))) == k / r.windowSize
    ensures k == |orig| - 1 || k % r.windowSize == r.windowSize - 1
  {
    hide IsAll0, IsAll1, IsSenderAbort, SenderAbort, Window, AbortFrom, ExpectsAck;
  }

  /** The last window an effective ACK names is one whose fragments have all been sent. */
  lemma EffectiveWindow(r: Rule, orig: seq<Fragment>, s: Sender, k: nat, e: Event)
    requires Hears(r, orig, s, k, e)
    requires Ready(s) && TakesEffect(r, Deref(s, Head(s)), AckOfEvent(e))
    ensures IncreasingAck(r, AckOfEvent(e)) && 0 <= Greatest(r, AckOfEvent(e)) <= s.lastWindow
    ensures NextK(s, |orig|, k) == |orig|
         || WindowEnd(r, Greatest(r, AckOfEvent(e))) <= NextK(s, |orig|, k)
  {
    hide Hears, TakesEffect, ExpectsAck, Window, Greatest, IncreasingAck, HeadIs, Inv, Shaped, WindowEnd;
    HearsParts(r, orig, s, k, e);
    HeardSafe(r, orig, s, k, e);
    GreatestIsNumber(r, AckOfEvent(e));
    if k < |orig| {
      HeadEndsWindow(r, orig, s, k);
      WindowBound(r, |orig|, k, Greatest(r, AckOfEvent(e)));
    }
  }

  lemma EffectKeeps(r: Rule, orig: seq<Fragment>, s: Sender, k: nat, e: Event, q: seq<Ref>, stopped: bool)
    requires Inv(r, orig, s, k) && Ready(s) && !s.rt && HeadIs(r, orig, s, k)
    requires ExpectsAck(r, Deref(s, Head(s)))
    requires RefsIncreasing(q) && RefsBetween(q, 0, |orig| - 1) && RefsBetween(q, 0, NextK(s, |orig|, k))
    ensures Inv(r, orig, UpdateRt(AfterLosses(r, Popped(r, s, e).(attempts := 0, rq := q), Head(s), stopped)),
                NextK(s, |orig|, k))
  {
    LossesKeep(r, orig, s, k, e, stopped);
    hide ExpectsAck, IsAll0, IsSenderAbort, SenderAbort, Window, AbortFrom, HeadIs;
  }

  lemma EffectiveKeeps(r: Rule, orig: seq<Fragment>, s: Sender, k: nat, e: Event)
    requires Hears(r, orig, s, k, e) && 0 < r.windowSize && r.m <= 31 && orig != []
    requires Ready(s) && TakesEffect(r, Deref(s, Head(s)), AckOfEvent(e)) && Shaped(r, Tuples(r, AckOfEvent(e)))
    ensures var ts := Tuples(r, AckOfEvent(e));
      Inv(r, orig, UpdateRt(AfterLosses(r, Heard(r, s, e).(rq := LossRefs(r, |orig|, s.lastWindow, ts)), Head(s),
                                        GivesUpOn(r, |orig|, s.lastWindow, ts))), NextK(s, |orig|, k))
  {
    hide Hears, TakesEffect, ExpectsAck, Window, HeadIs, Inv, Shaped, AfterLosses, Popped, GivesUpOn, LossRefs, Tuples,
         WindowEnd;
    var ts, greatest := Tuples(r, AckOfEvent(e)), Greatest(r, AckOfEvent(e));
    HearsParts(r, orig, s, k, e);
    EffectiveWindow(r, orig, s, k, e);
    LossesWithin(r, |orig|, s.lastWindow, ts, greatest);
    EffectKeeps(r, orig, s, k, e, LossRefs(r, |orig|, s.lastWindow, ts), GivesUpOn(r, |orig|, s.lastWindow, ts));
  }

  lemma IgnoredKeeps(r: Rule, orig: seq<Fragment>, s: Sender, k: nat, e: Event)
    requires Inv(r, orig, s, k) && Ready(s) && !s.rt && HeadIs(r, orig, s, k)
    ensures Inv(r, orig, UpdateRt(Heard(r, s, e)), NextK(s, |orig|, k))
  {
    hide IsAll0, IsAll1, IsSenderAbort, SenderAbort, Window, AbortFrom, ExpectsAck, HeadIs, Delivers;
    PopKeeps(s.tq, |orig|, k);
    PoppedFragments(r, orig, s, k, e);
  }

  lemma AfterAckKeeps(r: Rule, orig: seq<Fragment>, s: Sender, k: nat, e: Event)
    requires Hears(r, orig, s, k, e)
    ensures Inv(r, orig, AfterAck(r, Heard(r, s, e), Head(s), AckOfEvent(e)), NextK(s, |orig|, k))
  {
    HearsParts(r, orig, s, k, e);
    HeardSame(r, s, e);
    hide Hears, ExpectsAck, HeadIs, Inv, Shaped, AfterLosses, Popped, GivesUpOn, LossRefs, Tuples, TakesEffect, Heard;
    if TakesEffect(r, Deref(s, Head(s)), AckOfEvent(e)) {
      EffectiveKeeps(r, orig, s, k, e);
    } else {
      IgnoredKeeps(r, orig, s, k, e);
    }
  }

  /** Popping and sending change neither the fragments nor the sizes. */
  lemma HeardSame(r: Rule, s: Sender, e: Event)
    requires Ready(s) && InRange(s, Head(s))
    ensures InRange(Heard(r, s, e), Head(s)) && Deref(Heard(r, s, e), Head(s)) == Deref(s, Head(s))
    ensures Heard(r, s, e).lastWindow == s.lastWindow && (Grounded(r, s) ==> Grounded(r, Heard(r, s, e)))
    ensures Heard(r, s, e).frs == s.frs && (!s.rt ==> Heard(r, s, e).rq == s.rq)
  {
    hide Listens, IsAll1, Delivers;
  }

  /** The state in which an ACK is handled: the attempts start again. */
  function Heard(r: Rule, s: Sender, e: Event): (s0: Sender)
    requires Ready(s)
    ensures |s0.frs| == |s.frs|
  {
    Popped(r, s, e).(attempts := 0)
  }

  lemma AckIs(r: Rule, orig: seq<Fragment>, s: Sender, k: nat, e: Event)
    requires r.WellFormed() && Hears(r, orig, s, k, e)
    ensures UpdateRt(UpdateQueues(r, Heard(r, s, e), Head(s), AckOfEvent(e)))
         == AfterAck(r, Heard(r, s, e), Head(s), AckOfEvent(e))
  {
    hide Hears, ExpectsAck, HeadIs, Inv, Shaped, IncreasingAck, AfterAck, UpdateQueues, Heard, Greatest, TakesEffect,
         Grounded;
    HearsParts(r, orig, s, k, e);
    HeardSame(r, s, e);
    if TakesEffect(r, Deref(s, Head(s)), AckOfEvent(e)) {
      EffectiveWindow(r, orig, s, k, e);
    }
    UpdateQueuesIs(r, Heard(r, s, e), Head(s), AckOfEvent(e));
  }

  lemma HeardAck(r: Rule, orig: seq<Fragment>, s: Sender, k: nat, e: Event)
    requires r.WellFormed() && Inv(r, orig, s, k) && Ready(s) && !s.rt && HeadIs(r, orig, s, k)
    requires InRange(s, Head(s)) && ExpectsAck(r, Deref(s, Head(s)))
    requires AckSafe(r, s, e) && Delivers(e) && !IsReceiverAbort(r, AckOfEvent(e))
    ensures Hears(r, orig, s, k, e)
  {
    TuplesShape(r, AckOfEvent(e));
    hide Inv, AckSafe, HeadIs, ExpectsAck, IsReceiverAbort, Delivers, Buffer;
  }

  lemma ListeningKeeps(r: Rule, orig: seq<Fragment>, s: Sender, k: nat, e: Event)
    requires r.WellFormed() && Hears(r, orig, s, k, e)
    ensures Kept(r, orig, HandleAck(r, Popped(r, s, e), Head(s), AckOfEvent(e)), NextK(s, |orig|, k))
  {
    AckIs(r, orig, s, k, e);
    AfterAckKeeps(r, orig, s, k, e);
    hide Inv, AfterAck, UpdateQueues, IsReceiverAbort, IsComplete, Sending, AckSafe, HeadIs, ExpectsAck;
  }

  /** A Receiver-Abort ends the run whatever else its bytes say. */
  lemma AbortedByReceiver(c: Config, r: Rule, orig: seq<Fragment>, s: Sender, k: nat, e: Event)
    requires r.WellFormed() && Inv(r, orig, s, k) && Ready(s) && !s.rt && HeadIs(r, orig, s, k)
    requires Delivers(e) && ExpectsAck(r, Deref(s, Head(s))) && IsReceiverAbort(r, AckOfEvent(e))
    ensures s.frs != [] && Step(c, r, s, e) == (Heard(r, s, e), ReceiverAborted)
  {
    hide IsReceiverAbort, Delivers, Buffer, Popped;
    assert s.frs != [];
    hide Inv;
    StepListens(c, r, orig, s, k, e);
  }

  /** Queue safety: from a state that satisfies the invariant every step finds the element it
      wants, stays in range, and keeps the invariant; and no step fails on the network side. */
  lemma StepKeeps(c: Config, r: Rule, orig: seq<Fragment>, s: Sender, k: nat, e: Event)
    requires Faithful(r, orig) && Inv(r, orig, s, k) && Active(s)
    requires AckSafe(r, s, e)
    ensures Ready(s)
    ensures Kept(r, orig, Step(c, r, s, e), NextK(s, |orig|, k))
  {
    hide *;
    if s.rt {
      StepRetransmits(c, r, orig, s, k, e);
      RetransmissionKeeps(r, orig, s, k, e);
    } else {
      HeadClass(r, orig, s, k);
      if Delivers(e) && ExpectsAck(r, Deref(s, Head(s))) {
        if IsReceiverAbort(r, AckOfEvent(e)) {
          AbortedByReceiver(c, r, orig, s, k, e);
          EndedIsKept(r, orig, Heard(r, s, e), ReceiverAborted, NextK(s, |orig|, k));
        } else {
          StepListens(c, r, orig, s, k, e);
          HeardAck(r, orig, s, k, e);
          ListeningKeeps(r, orig, s, k, e);
        }
      } else {
        StepSilent(c, r, orig, s, k, e);
        SilentKeeps(c, r, orig, s, k, e);
      }
    }
  }

  lemma EndedIsKept(r: Rule, orig: seq<Fragment>, s: Sender, o: Outcome, k: nat)
    requires o != NetworkError && o != Continue
    ensures Kept(r, orig, (s, o), k)
  {
  }
}
