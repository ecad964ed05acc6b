/**
  What the two ends make of the same ACK, and of a packet that has arrived completely.
 */
module Agreement {
  import opened Options
  import opened Bits
  import opened Rules
  import opened Fragments
  import opened FrProcedure
  import opened Acks
  import AckProofs
  import opened SenderModel
  import opened SenderQueues
  import opened SenderInvariant
  import opened SessionModel
  import opened SessionProofs
  import opened Repair
  import Progress

  // ---------------------------------------------------------------- one ACK, two readers

  /** An ACK that update_queues works through to its last tuple. */
  ghost predicate WorkedThrough(r: Rule, s: Sender, ref: Ref, a: CompoundAck) {
    && r.WellFormed() && Grounded(r, s) && InRange(s, ref) && s.rq == []
    && a.Ack? && |a.message| == DOWNLINK_MTU_BYTES
    && IncreasingAck(r, a) && Greatest(r, a) <= s.lastWindow && Greatest(r, a) <= Window(r, Deref(s, ref))
    && Shaped(r, Tuples(r, a))
    && forall k | 0 <= k < |Tuples(r, a)| - 1 :: !GivesUpAt(r, |s.frs|, s.lastWindow, Tuples(r, a)[k])
  }

  lemma QueuedLosses(r: Rule, n: nat, lastWindow: int, ts: seq<Tuple>)
    requires 0 < r.windowSize && r.m <= 31 && n > 0 && Shaped(r, ts)
    requires lastWindow == (n - 1) / r.windowSize && WindowsWithin(ts, 0, lastWindow)
    requires forall k | 0 <= k < |ts| - 1 :: !GivesUpAt(r, n, lastWindow, ts[k])
    ensures forall i: nat :: Frg(i) in LossRefs(r, n, lastWindow, ts) <==> i < n - 1 && ReportedLost(r, ts, i)
  {
    hide LossRefs, GivesUpAt, ReportedLost;
    LossRefsOrdered(r, n, lastWindow, ts, 0);
    LossRefsSound(r, n, lastWindow, ts, 0);
    LossRefsComplete(r, n, lastWindow, ts, 0);
  }

  lemma QueuedAre(r: Rule, s: Sender, ref: Ref, a: CompoundAck)
    requires WorkedThrough(r, s, ref, a)
    ensures r.WellFormed() && 0 < r.windowSize && s.frs != [] && InRange(s, ref) && Shaped(r, Tuples(r, a))
    ensures a.Ack? && |a.message| == DOWNLINK_MTU_BYTES
    ensures UpdateQueues(r, s, ref, a).rq == LossRefs(r, |s.frs|, s.lastWindow, Tuples(r, a))
    ensures forall i: nat :: Frg(i) in LossRefs(r, |s.frs|, s.lastWindow, Tuples(r, a))
              <==> i < |s.frs| - 1 && ReportedLost(r, Tuples(r, a), i)
  {
    hide *;
    WorkedParts(r, s, ref, a);
    UpdateQueuesIs(r, s, ref, a);
    WithinLast(Tuples(r, a), Greatest(r, a), s.lastWindow);
    QueuedLosses(r, |s.frs|, s.lastWindow, Tuples(r, a));
    QueuedFrom(r, s, ref, a);
  }

  lemma WorkedParts(r: Rule, s: Sender, ref: Ref, a: CompoundAck)
    requires WorkedThrough(r, s, ref, a)
    ensures r.WellFormed() && Grounded(r, s) && InRange(s, ref) && s.rq == [] && s.frs != []
    ensures 0 < r.windowSize && r.m <= 31 && s.lastWindow == (|s.frs| - 1) / r.windowSize
    ensures a.Ack? && |a.message| == DOWNLINK_MTU_BYTES && r.TupleSize() > 0
    ensures IncreasingAck(r, a) && Greatest(r, a) <= s.lastWindow && TakesEffect(r, Deref(s, ref), a)
    ensures Shaped(r, Tuples(r, a)) && WindowsWithin(Tuples(r, a), 0, Greatest(r, a))
    ensures forall k | 0 <= k < |Tuples(r, a)| - 1 :: !GivesUpAt(r, |s.frs|, s.lastWindow, Tuples(r, a)[k])
  {
    hide Tuples, GivesUpAt, Window, WindowsWithin;
  }

  /** The queue read off the state after update_queues. */
  lemma QueuedFrom(r: Rule, s: Sender, ref: Ref, a: CompoundAck)
    requires r.WellFormed() && s.frs != [] && InRange(s, ref) && 0 < r.windowSize && r.m <= 31
    requires a.Ack? && |a.message| == DOWNLINK_MTU_BYTES && Shaped(r, Tuples(r, a))
    requires TakesEffect(r, Deref(s, ref), a)
    requires UpdateRt(UpdateQueues(r, s, ref, a)) == AfterAck(r, s, ref, a)
    ensures UpdateQueues(r, s, ref, a).rq == LossRefs(r, |s.frs|, s.lastWindow, Tuples(r, a))
  {
    hide UpdateQueues, LossRefs, GivesUpOn, Tuples, IsAll1, AbortFrom, TakesEffect, Shaped;
  }

  lemma WithinLast(ts: seq<Tuple>, greatest: int, last: int)
    requires WindowsWithin(ts, 0, greatest) && greatest <= last
    ensures WindowsWithin(ts, 0, last)
  {
  }

  /** Both ends agree on one ACK: what update_queues enqueues is exactly what
      session_update_requested newly asks for below the All-1, and no request is withdrawn. */
  lemma BothEndsAgree(r: Rule, s: Sender, ref: Ref, a: CompoundAck, requested: BitString)
    requires WorkedThrough(r, s, ref, a) && |s.frs| <= |requested| == r.MaxFragmentNb()
    ensures r.WellFormed() && 0 < r.windowSize && s.frs != [] && InRange(s, ref) && Shaped(r, Tuples(r, a))
    ensures a.Ack? && |a.message| == DOWNLINK_MTU_BYTES
    ensures var q, after := UpdateQueues(r, s, ref, a).rq, Requested(r, requested, Tuples(r, a));
      && (forall i: nat | i < |s.frs| - 1 :: after[i] <==> requested[i] || Frg(i) in q)
      && (forall i: nat | Frg(i) in q :: i < |s.frs| - 1)
      && (forall i | 0 <= i < |requested| :: requested[i] ==> after[i])
  {
    hide Tuples, LossRefs, GivesUpAt, ReportedLost, UpdateQueues, WorkedThrough, Shaped;
    QueuedAre(r, s, ref, a);
  }

  // ---------------------------------------------------------------- a packet received completely

  /** Every fragment of the packet has arrived and is marked. */
  ghost predicate Full(r: Rule, frs: seq<Fragment>, b: BitString) {
    && r.WellFormed() && 2 <= r.windowSize
    && Faithful(r, frs) && AllMarked(r, b, |frs|)
    && 0 < |frs| <= |b| == r.MaxFragmentNb()
    && Trigger(r, All1Of(frs)) && (|frs| - 1) / r.windowSize == Window(r, All1Of(frs)) < r.MaxWindowNb()
  }

  lemma FullIs(r: Rule, frs: seq<Fragment>, b: BitString)
    requires Faithful(r, frs) && AllMarked(r, b, |frs|)
    ensures Full(r, frs, b)
  {
    All1Trigger(r, frs);
    FaithfulSizes(r, frs);
    hide Faithful, Trigger, IsAll1, Rcs, Window;
  }

  /** The bits of the last window are then '1' up to the All-1's, and the packet fills the
      window or not. */
  lemma FullLastWindow(r: Rule, frs: seq<Fragment>, b: BitString)
    requires Full(r, frs, b)
    ensures var bits, data := WindowBits(r, b, (|frs| - 1) / r.windowSize), (|frs| - 1) % r.windowSize;
      && bits[..data] == Repeat(true, data)
      && (|frs| % r.windowSize != 0 ==> !bits[r.windowSize - 1])
  {
    var last, data := (|frs| - 1) / r.windowSize, (|frs| - 1) % r.windowSize;
    LastPosition(|frs|, r.windowSize, r.MaxWindowNb());
    hide Faithful, Trigger, IsAll1, Rcs, Window, WindowBits, AllMarked;
    LastWindowBits(r, b, last, data + 1);
    FullIffMultiple(|frs|, r.windowSize);
    var bits := WindowBits(r, b, last);
    assert forall j | 0 <= j < data :: bits[..data][j] == bits[j];
  }

  /** Only the last window can be incomplete, and it is unless the packet fills it. */
  lemma FullIncompleteAt(r: Rule, frs: seq<Fragment>, b: BitString, w: nat)
    requires Full(r, frs, b)
    ensures w in Incomplete(r, b, All1Of(frs)) <==>
      |frs| % r.windowSize != 0 && w == (|frs| - 1) / r.windowSize
  {
    assert |b| == r.MaxFragmentNb() && (|frs| - 1) / r.windowSize == Window(r, All1Of(frs)) < r.MaxWindowNb();
    assert Faithful(r, frs) && AllMarked(r, b, |frs|) && Trigger(r, All1Of(frs)) && r.WellFormed();
    hide Faithful, Trigger, IsAll1, AllMarked, Rcs, Window, WindowBits, WindowLost, Incomplete, Full, All1Of;
    FullyReceivedCheck(r, frs, b);
    FullLastWindow(r, frs, b);
    IncompleteExact(r, b, All1Of(frs));
  }

  lemma FullIncomplete(r: Rule, frs: seq<Fragment>, b: BitString)
    requires Full(r, frs, b)
    ensures Incomplete(r, b, All1Of(frs))
         == if |frs| % r.windowSize == 0 then [] else [(|frs| - 1) / r.windowSize]
  {
    IncompleteExact(r, b, All1Of(frs));
    hide Faithful, Trigger, IsAll1, AllMarked, Rcs, Window, WindowBits, WindowLost, Incomplete, Monochar;
    var last: nat := (|frs| - 1) / r.windowSize;
    var ws: seq<nat> := if |frs| % r.windowSize == 0 then [] else [last];
    forall w: nat
      ensures w in Incomplete(r, b, All1Of(frs)) <==> w in ws
    {
      FullIncompleteAt(r, frs, b, w);
    }
    Progress.IncreasingUnique(Incomplete(r, b, All1Of(frs)), ws);
  }

  lemma FullSeen(r: Rule, frs: seq<Fragment>, b: BitString)
    requires Full(r, frs, b) && |frs| % r.windowSize != 0
    ensures SeenWindows(r, b, All1Of(frs)) == [(|frs| - 1) / r.windowSize]
  {
    hide Full, Faithful, Trigger, IsAll1, Rcs, Window, WindowBits, Incomplete, All1Of, AckProofs.Slots;
    FullIncomplete(r, frs, b);
  }

  /** What the sender is told then: nothing missing, and it stops unless the All-1 is alone. */
  lemma FullGivesUp(r: Rule, frs: seq<Fragment>, b: BitString, seen: seq<nat>)
    requires Full(r, frs, b) && |frs| % r.windowSize != 0 && seen == [(|frs| - 1) / r.windowSize]
    ensures GivesUpSeeing(r, |frs|, b, seen) <==> (|frs| - 1) % r.windowSize != 0
  {
    FullLastWindow(r, frs, b);
    hide *;
    GivesUpFull(r, |frs|, b, seen);
  }

  /** With all its data there, the last window is deemed loss-free unless the All-1 is alone in
      it and not at its end. */
  lemma GivesUpFull(r: Rule, n: nat, b: BitString, seen: seq<nat>)
    requires 0 < r.windowSize && 0 < n <= |b| == r.MaxFragmentNb() && (n - 1) / r.windowSize < r.MaxWindowNb()
    requires seen == [(n - 1) / r.windowSize]
    requires var bits, data := WindowBits(r, b, (n - 1) / r.windowSize), (n - 1) % r.windowSize;
      0 <= data < |bits| && bits[..data] == Repeat(true, data) && !bits[r.windowSize - 1]
    ensures GivesUpSeeing(r, n, b, seen) <==> (n - 1) % r.windowSize != 0
  {
    hide WindowBits;
  }

  /** Whatever is queued is missing. */
  lemma QueuedIsMissing(r: Rule, n: nat, b: BitString, seen: seq<nat>, q: seq<Ref>) returns (i: nat)
    requires 0 < r.windowSize && n <= |b| && RepairQueue(r, n, b, seen, q) && q != []
    ensures i < n - 1 && !b[i]
  {
    i := q[0].idx;
    assert Frg(i) in q;
  }

  lemma MarkedBelow(r: Rule, b: BitString, n: nat, i: nat)
    requires AllMarked(r, b, n) && i < n <= |b|
    ensures b[i]
  {
  }

  /** A sender that has sent every fragment and has just sent the All-1. */
  ghost predicate SentAll(r: Rule, orig: seq<Fragment>, s: Sender) {
    s.frs == orig && s.rq == [] && Grounded(r, s)
  }

  lemma FullAsks(r: Rule, orig: seq<Fragment>, s: Sender, b: BitString)
    requires Full(r, orig, b) && SentAll(r, orig, s) && |orig| % r.windowSize != 0
    ensures Asking(r, s, Frg(|orig| - 1), b, All1Of(orig))
  {
    hide Faithful, Trigger, IsAll1, AllMarked, Window, Incomplete;
    FullIncomplete(r, orig, b);
  }

  /** The sender's reaction to the report on a packet received completely. */
  lemma FullReaction(r: Rule, orig: seq<Fragment>, s: Sender, b: BitString)
    requires Full(r, orig, b) && SentAll(r, orig, s) && |orig| % r.windowSize != 0
    ensures SessionAck(r, b, All1Of(orig)).Some?
    ensures var ack, ref := SessionAck(r, b, All1Of(orig)).value, Frg(|orig| - 1);
      && ack.Ack? && |ack.message| == DOWNLINK_MTU_BYTES
      && UpdateQueues(r, s, ref, ack) == AfterLosses(r, s, ref, (|orig| - 1) % r.windowSize != 0)
  {
    var n, f, ref := |orig|, All1Of(orig), Frg(|orig| - 1);
    assert |b| == r.MaxFragmentNb() && r.WellFormed() && AllMarked(r, b, n) && Trigger(r, f);
    hide Full, Faithful, Trigger, IsAll1, AllMarked, Rcs, Window, WindowBits, WindowLost, Incomplete, SessionAck,
         UpdateQueues, GivesUpSeeing, RepairQueue, SeenWindows, AfterLosses, Asking;
    FullAsks(r, orig, s, b);
    FullSeen(r, orig, b);
    FullGivesUp(r, orig, b, SeenWindows(r, b, f));
    RepairExact(r, s, ref, b, f);
    var s' := UpdateQueues(r, s, ref, SessionAck(r, b, f).value);
    if s'.rq != [] {
      var i := QueuedIsMissing(r, n, b, SeenWindows(r, b, f), s'.rq);
      MarkedBelow(r, b, n, i);
    }
    assert s.(rq := s'.rq) == s;
  }

  lemma FullFacts(r: Rule, orig: seq<Fragment>, b: BitString)
    requires Full(r, orig, b)
    ensures r.WellFormed() && orig != [] && |b| == r.MaxFragmentNb() && Trigger(r, All1Of(orig))
  {
    hide Faithful, Trigger, AllMarked, Window;
  }

  /** A packet received completely, every fragment marked where session_update_bitmap marks
      it, never completes: if its fragments fill the last window session_generate_ack refuses
      to answer the All-1, and otherwise it answers with a loss report of that window, to
      which the sender replies with the All-1 again when the All-1 is alone in its window and
      with a Sender-Abort when it is not. Nothing is retransmitted either way. */
  lemma FullReception(r: Rule, orig: seq<Fragment>, s: Sender, b: BitString)
    requires Faithful(r, orig) && AllMarked(r, b, |orig|) && SentAll(r, orig, s)
    ensures r.WellFormed() && |b| == r.MaxFragmentNb() && Trigger(r, All1Of(orig))
    ensures var ack, ref := SessionAck(r, b, All1Of(orig)), Frg(|orig| - 1);
      if |orig| % r.windowSize == 0 then ack == None
      else
        && ack.Some? && ack.value.Ack? && |ack.value.message| == DOWNLINK_MTU_BYTES
        && !IsComplete(r, ack.value)
        && UpdateQueues(r, s, ref, ack.value)
           == if (|orig| - 1) % r.windowSize == 0 then PutT(s, ref)
              else PutT(s.(senderAbort := SenderAbort(r)), AbortSlot)
  {
    hide Full, Faithful, Trigger, IsAll1, AllMarked, Window, WindowLost, Incomplete, IsComplete, SessionAck,
         UpdateQueues, SenderAbort, AbortFrom;
    FullIs(r, orig, b);
    FullFacts(r, orig, b);
    var f, ref := All1Of(orig), Frg(|orig| - 1);
    FullyReceivedCheck(r, orig, b);
    AckOnlyOnLoss(r, b, f);
    ClassOfOriginal(r, orig, |orig| - 1);
    if |orig| % r.windowSize != 0 {
      FullReaction(r, orig, s, b);
    }
  }
}
