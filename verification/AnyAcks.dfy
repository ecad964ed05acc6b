/**
  Runs under any ACKs at all, in whatever order their windows come and however often: what the
  code needs of them, and how a run sticks without it.
 */
module AnyAcks {
  import opened Bits
  import opened Rules
  import opened Fragments
  import opened FrProcedure
  import opened Acks
  import opened SenderModel
  import opened SenderQueues
  import opened SenderInvariant
  import opened SenderRuns

  // ---------------------------------------------------------------- what an ACK puts into the queue

  /** What the retransmission queue takes of the pointers the ACK hands over. */
  function Taken(r: Rule, s: Sender, a: CompoundAck): seq<Ref>
    requires r.WellFormed() && s.frs != [] && a.Ack? && |a.message| == DOWNLINK_MTU_BYTES
  {
    TuplesShape(r, a);
    PutAll(s.capacity, [], LossRefs(r, |s.frs|, s.lastWindow, Tuples(r, a)))
  }

  /** A complete ACK for the last window that answers an All-1. */
  predicate Completes(r: Rule, s: Sender, e: Event)
    requires Ready(s)
  {
    var a := AckOfEvent(e);
    IsAll1(r, Deref(s, Head(s))) && BinToInt(AckW(r, a)) == s.lastWindow && IsComplete(r, a)
  }

  /** update_queues works through the ACK. */
  predicate WorksThrough(r: Rule, s: Sender, e: Event)
    requires r.TupleSize() > 0 && Ready(s)
  {
    && Answered(r, s, e) && !IsReceiverAbort(r, AckOfEvent(e)) && !Completes(r, s, e)
    && TakesEffect(r, Deref(s, Head(s)), AckOfEvent(e))
  }

  /** All that is needed of an ACK: what the queue takes of it points into the array. */
  ghost predicate AckInside(r: Rule, s: Sender, e: Event)
    requires r.WellFormed() && s.frs != []
  {
    Ready(s) && WorksThrough(r, s, e) ==> RefsBetween(Taken(r, s, AckOfEvent(e)), 0, |s.frs|)
  }

  lemma {:induction false} PutAllTakes(capacity: nat, q: seq<Ref>, xs: seq<Ref>)
    requires |q| <= capacity
    ensures PutAll(capacity, q, xs) == q + xs[..Min(|xs|, capacity - |q|)]
    decreases |xs|
  {
    if xs != [] && |q| < capacity {
      PutAllTakes(capacity, q + [xs[0]], xs[1..]);
      assert xs[..Min(|xs|, capacity - |q|)] == [xs[0]] + xs[1..][..Min(|xs[1..]|, capacity - |q| - 1)];
    } else if xs != [] {
      PutAllTakes(capacity, q, xs[1..]);
    }
  }

  /** Every pointer an ACK hands over is one to a fragment, and none is to the All-1. */
  ghost predicate NotLast(q: seq<Ref>, n: int) {
    forall k | 0 <= k < |q| :: q[k].Frg? && q[k].idx != n - 1
  }

  lemma TupleNotLast(r: Rule, n: nat, lastWindow: int, t: Tuple)
    requires 0 < r.windowSize && r.m <= 31 && n > 0 && TupleShape(r, t)
    requires lastWindow == (n - 1) / r.windowSize && !GivesUpAt(r, n, lastWindow, t)
    ensures NotLast(TupleLosses(r, n, lastWindow, t), n)
  {
    hide TupleLosses, GivesUpAt;
    if WindowNb(t) > lastWindow {
      LaterPointers(r, n, lastWindow, t);
    } else {
      TupleLossesBounds(r, n, lastWindow, t);
    }
  }

  /** The pointers of a window after the packet's last all lie past the end of the array. */
  lemma LaterPointers(r: Rule, n: nat, lastWindow: int, t: Tuple)
    requires 0 < r.windowSize && r.m <= 31 && n > 0 && TupleShape(r, t)
    requires lastWindow == (n - 1) / r.windowSize < WindowNb(t) && !GivesUpAt(r, n, lastWindow, t)
    ensures var q := TupleLosses(r, n, lastWindow, t);
      forall k | 0 <= k < |q| :: q[k].Frg? && q[k].idx >= n
  {
    ZeroRefsExact(t.bitmap, FirstOf(r, t), 0);
    WindowStarts(r.windowSize, lastWindow + 1, WindowNb(t));
    WindowStarts(r.windowSize, lastWindow, lastWindow);
    DivIs(n - 1, r.windowSize, lastWindow);
  }

  lemma {:induction false} LossesNotLast(r: Rule, n: nat, lastWindow: int, ts: seq<Tuple>)
    requires 0 < r.windowSize && r.m <= 31 && n > 0 && Shaped(r, ts) && lastWindow == (n - 1) / r.windowSize
    ensures NotLast(LossRefs(r, n, lastWindow, ts), n)
    decreases |ts|
  {
    hide TupleLosses, GivesUpAt;
    if ts != [] && !GivesUpAt(r, n, lastWindow, ts[0]) {
      TupleNotLast(r, n, lastWindow, ts[0]);
      LossesNotLast(r, n, lastWindow, ts[1..]);
    }
  }

  /** What the queue takes fits it, and what points into the array points below the All-1. */
  lemma TakenIs(r: Rule, s: Sender, a: CompoundAck)
    requires r.WellFormed() && Grounded(r, s) && s.frs != [] && a.Ack? && |a.message| == DOWNLINK_MTU_BYTES
    ensures var q := Taken(r, s, a);
      |q| <= s.capacity && NotLast(q, |s.frs|) && (RefsBetween(q, 0, |s.frs|) ==> RefsBetween(q, 0, |s.frs| - 1))
  {
    hide Tuples, LossRefs;
    TuplesShape(r, a);
    var xs := LossRefs(r, |s.frs|, s.lastWindow, Tuples(r, a));
    LossesNotLast(r, |s.frs|, s.lastWindow, Tuples(r, a));
    PutAllTakes(s.capacity, [], xs);
  }

  /** An ACK whose tuples, as far as update_queues gets, name windows of the packet, in any
      order and any number of times, is such an ACK. */
  lemma PacketWindowsInside(r: Rule, s: Sender, e: Event)
    requires r.WellFormed() && Grounded(r, s) && s.frs != [] && Shaped(r, Tuples(r, AckOfEvent(e)))
    requires PacketWindows(Reached(r, |s.frs|, s.lastWindow, Tuples(r, AckOfEvent(e))), s.lastWindow)
    ensures AckInside(r, s, e)
  {
    hide Tuples, LossRefs, Reached, PacketWindows, WorksThrough, Buffer;
    var xs := LossRefs(r, |s.frs|, s.lastWindow, Tuples(r, AckOfEvent(e)));
    PointersInside(r, |s.frs|, s.lastWindow, Tuples(r, AckOfEvent(e)));
    PutAllTakes(s.capacity, [], xs);
  }

  /** And where the queue takes everything, there is no other. */
  lemma InsideExactly(r: Rule, s: Sender, e: Event)
    requires r.WellFormed() && Grounded(r, s) && s.frs != [] && Ready(s) && WorksThrough(r, s, e)
    requires Shaped(r, Tuples(r, AckOfEvent(e)))
    requires |LossRefs(r, |s.frs|, s.lastWindow, Tuples(r, AckOfEvent(e)))| <= s.capacity
    ensures AckInside(r, s, e)
       <==> PacketWindows(Reached(r, |s.frs|, s.lastWindow, Tuples(r, AckOfEvent(e))), s.lastWindow)
  {
    hide Tuples, LossRefs, Reached, PacketWindows, WorksThrough, Buffer;
    var xs := LossRefs(r, |s.frs|, s.lastWindow, Tuples(r, AckOfEvent(e)));
    PointersInside(r, |s.frs|, s.lastWindow, Tuples(r, AckOfEvent(e)));
    PutAllTakes(s.capacity, [], xs);
    assert [] + xs[..|xs|] == xs;
    assert Taken(r, s, AckOfEvent(e)) == xs;
  }

  // ---------------------------------------------------------------- the invariant under any ACKs

  /** As `Inv`, but the retransmissions may repeat, come in any order, and include fragments
      that have not been sent yet. */
  ghost predicate Sound(r: Rule, orig: seq<Fragment>, s: Sender, k: nat) {
    && 0 < r.windowSize && FragmentsOk(r, orig, s, k) && TransmissionOk(s.tq, |orig|, k)
    && (s.rt <==> s.rq != []) && RefsBetween(s.rq, 0, |orig| - 1) && |s.rq| <= s.capacity
    && (s.tq == [] ==> s.rq == [])
    && |orig| <= s.capacity && s.lastWindow == (|orig| - 1) / r.windowSize
  }

  lemma InvIsSound(r: Rule, orig: seq<Fragment>, s: Sender, k: nat)
    requires Inv(r, orig, s, k)
    ensures Sound(r, orig, s, k)
  {
    hide FragmentsOk, TransmissionOk;
    FrsAre(r, orig, s, k);
    IncreasingLength(s.rq, 0, |orig| - 1);
  }

  lemma FrsAre(r: Rule, orig: seq<Fragment>, s: Sender, k: nat)
    requires FragmentsOk(r, orig, s, k)
    ensures |s.frs| == |orig| > 0 && k <= |orig|
  {
  }

  /** Without retransmissions there is no difference. */
  lemma SoundIsInv(r: Rule, orig: seq<Fragment>, s: Sender, k: nat)
    requires Sound(r, orig, s, k) && !s.rt
    ensures Inv(r, orig, s, k)
  {
    hide FragmentsOk, TransmissionOk;
  }

  lemma SoundBounds(r: Rule, orig: seq<Fragment>, s: Sender, k: nat)
    requires Sound(r, orig, s, k)
    ensures s.frs != [] && |s.frs| == |orig| && k <= NextK(s, |orig|, k) <= |orig| && 0 < r.windowSize
    ensures s.lastWindow == (|orig| - 1) / r.windowSize && |s.rq| <= s.capacity && |orig| <= s.capacity
  {
    hide TransmissionOk;
  }

  /** The fragments below the All-1 are the packet's. */
  ghost predicate Intact(orig: seq<Fragment>, s: Sender) {
    0 < |orig| == |s.frs| && forall i | 0 <= i < |orig| - 1 :: s.frs[i] == orig[i]
  }

  /** A retransmission just leaves its queue. */
  lemma Retransmits(c: Config, r: Rule, orig: seq<Fragment>, s: Sender, e: Event)
    requires Faithful(r, orig) && Intact(orig, s) && s.rt && s.rq != []
    requires s.rq[0].Frg? && s.rq[0].idx < |orig| - 1
    ensures Ready(s) && r.WellFormed() && InRange(s, Head(s)) && !IsAll1(r, Deref(s, Head(s)))
    ensures Step(c, r, s, e) == (AfterRetransmission(r, s, e), Continue)
  {
    ClassOfOriginal(r, orig, s.rq[0].idx);
    hide Faithful, IsAll1, IsAll0, IsSenderAbort, ExpectsAck, Window, RuleIdField, AbortFrom, SenderAbort, Delivers,
         Buffer;
  }

  lemma RetransmissionIs(r: Rule, s: Sender, e: Event)
    requires Ready(s) && s.rt
    ensures var s' := AfterRetransmission(r, s, e);
      && s'.rq == s.rq[1..] && s'.tq == s.tq && s'.frs == s.frs && s'.rt == (s.rq[1..] != [])
      && s'.senderAbort == s.senderAbort && s'.capacity == s.capacity && s'.lastWindow == s.lastWindow
  {
    hide IsAll1, ExpectsAck, Delivers, Buffer;
  }

  lemma SoundIntact(r: Rule, orig: seq<Fragment>, s: Sender, k: nat)
    requires Sound(r, orig, s, k)
    ensures Intact(orig, s) && (s.rt ==> s.rq != [] && s.rq[0].Frg? && s.rq[0].idx < |orig| - 1)
  {
    hide TransmissionOk;
  }

  lemma RetransmissionSound(r: Rule, orig: seq<Fragment>, s: Sender, k: nat, e: Event)
    requires Sound(r, orig, s, k) && Ready(s) && s.rt
    ensures Sound(r, orig, AfterRetransmission(r, s, e), NextK(s, |orig|, k))
  {
    RetransmissionIs(r, s, e);
    hide AfterRetransmission, TransmissionOk;
  }

  /** What update_queues makes of the state in which the ACK is heard. */
  lemma Worked(r: Rule, s0: Sender, ref: Ref, a: CompoundAck)
    requires r.WellFormed() && Grounded(r, s0) && s0.frs != [] && InRange(s0, ref) && s0.rq == []
    requires a.Ack? && |a.message| == DOWNLINK_MTU_BYTES && TakesEffect(r, Deref(s0, ref), a)
    ensures Shaped(r, Tuples(r, a))
    ensures UpdateQueues(r, s0, ref, a)
         == AfterLosses(r, s0.(rq := Taken(r, s0, a)), ref, GivesUpOn(r, |s0.frs|, s0.lastWindow, Tuples(r, a)))
  {
    TuplesShape(r, a);
    HandedOver(r, s0, ref, Tuples(r, a));
    hide Tuples, LossRefs, AfterLosses, GivesUpOn, QueueLosses, PutAll;
  }

  lemma EffectSound(r: Rule, orig: seq<Fragment>, s: Sender, k: nat, e: Event, q: seq<Ref>, stopped: bool)
    requires Inv(r, orig, s, k) && Ready(s) && !s.rt && HeadIs(r, orig, s, k)
    requires ExpectsAck(r, Deref(s, Head(s))) && RefsBetween(q, 0, |orig| - 1) && |q| <= s.capacity
    ensures var s' := UpdateRt(AfterLosses(r, Heard(r, s, e).(rq := q), Head(s), stopped));
      Sound(r, orig, s', NextK(s, |orig|, k)) && |s'.tq| <= |s.tq| && s'.rq == q && s'.attempts == 0
  {
    LossesKeep(r, orig, s, k, e, stopped);
    hide ExpectsAck, IsAll0, IsSenderAbort, SenderAbort, Window, AbortFrom, HeadIs;
  }

  /** A step that listens and hears an ACK that does not end the run. */
  lemma SoundListening(r: Rule, orig: seq<Fragment>, s: Sender, k: nat, e: Event)
    requires r.WellFormed() && Inv(r, orig, s, k) && Ready(s) && !s.rt && HeadIs(r, orig, s, k)
    requires s.frs != [] && InRange(s, Head(s)) && ExpectsAck(r, Deref(s, Head(s))) && Delivers(e)
    requires !IsReceiverAbort(r, AckOfEvent(e)) && !Completes(r, s, e) && AckInside(r, s, e)
    ensures InRange(Heard(r, s, e), Head(s))
    ensures var s' := UpdateRt(UpdateQueues(r, Heard(r, s, e), Head(s), AckOfEvent(e)));
      Sound(r, orig, s', NextK(s, |orig|, k)) && |s'.tq| <= |s.tq| && s'.attempts == 0
  {
    var a := AckOfEvent(e);
    hide *;
    InvParts(r, orig, s, k);
    AckShape(e);
    HeardSame(r, s, e);
    HeardCapacity(r, s, e);
    if TakesEffect(r, Deref(s, Head(s)), a) {
      WorksIs(r, s, e);
      InsideIs(r, s, e);
      Worked(r, Heard(r, s, e), Head(s), a);
      TakenSame(r, s, Heard(r, s, e), a);
      TakenIs(r, s, a);
      EffectSound(r, orig, s, k, e, Taken(r, s, a), GivesUpOn(r, |s.frs|, s.lastWindow, Tuples(r, a)));
    } else {
      Ignored(r, Heard(r, s, e), Head(s), a);
      IgnoredKeeps(r, orig, s, k, e);
      InvIsSound(r, orig, UpdateRt(Heard(r, s, e)), NextK(s, |orig|, k));
    }
  }

  lemma InvParts(r: Rule, orig: seq<Fragment>, s: Sender, k: nat)
    requires r.WellFormed() && Inv(r, orig, s, k) && Ready(s) && !s.rt
    ensures Grounded(r, s) && |s.frs| == |orig| > 0 && s.rq == [] && s.tq != [] && k <= |orig|
    ensures r.TupleSize() > 0 && 0 < r.windowSize
  {
    hide TransmissionOk;
  }

  lemma HeardCapacity(r: Rule, s: Sender, e: Event)
    requires Ready(s)
    ensures Heard(r, s, e).capacity == s.capacity && Heard(r, s, e).attempts == 0
    ensures UpdateRt(Heard(r, s, e)).attempts == 0
    ensures |UpdateRt(Heard(r, s, e)).tq| <= |s.tq|
  {
    hide IsAll1, ExpectsAck, Delivers, Buffer;
  }

  lemma AckShape(e: Event)
    ensures AckOfEvent(e).Ack? && |AckOfEvent(e).message| == DOWNLINK_MTU_BYTES
  {
  }

  lemma WorksIs(r: Rule, s: Sender, e: Event)
    requires r.TupleSize() > 0 && Ready(s) && !s.rt && ExpectsAck(r, Deref(s, Head(s))) && Delivers(e)
    requires !IsReceiverAbort(r, AckOfEvent(e)) && !Completes(r, s, e)
    requires TakesEffect(r, Deref(s, Head(s)), AckOfEvent(e))
    ensures WorksThrough(r, s, e)
  {
  }

  lemma InsideIs(r: Rule, s: Sender, e: Event)
    requires r.WellFormed() && s.frs != [] && Ready(s) && r.TupleSize() > 0 && WorksThrough(r, s, e)
    ensures AckOfEvent(e).Ack? && |AckOfEvent(e).message| == DOWNLINK_MTU_BYTES
    ensures AckInside(r, s, e) <==> RefsBetween(Taken(r, s, AckOfEvent(e)), 0, |s.frs|)
  {
    hide WorksThrough, Taken;
  }

  lemma TakenSame(r: Rule, s: Sender, s0: Sender, a: CompoundAck)
    requires r.WellFormed() && s.frs != [] && a.Ack? && |a.message| == DOWNLINK_MTU_BYTES
    requires s0.frs == s.frs && s0.lastWindow == s.lastWindow && s0.capacity == s.capacity
    ensures Taken(r, s0, a) == Taken(r, s, a)
  {
    hide Tuples, LossRefs;
  }

  lemma Ignored(r: Rule, s0: Sender, ref: Ref, a: CompoundAck)
    requires r.WellFormed() && s0.frs != [] && InRange(s0, ref) && a.Ack? && |a.message| == DOWNLINK_MTU_BYTES
    requires r.TupleSize() > 0 && !TakesEffect(r, Deref(s0, ref), a)
    ensures UpdateQueues(r, s0, ref, a) == s0
  {
    hide Tuples, Window;
  }

  // ---------------------------------------------------------------- steps and runs

  /** The step does not fail, and if the run goes on its state is sound again. */
  ghost predicate SoundAfter(r: Rule, orig: seq<Fragment>, s: Sender, res: (Sender, Outcome), k: nat) {
    && res.1 != NetworkError
    && (res.1 == Continue ==> Sound(r, orig, res.0, k) && res.0.capacity == s.capacity)
  }

  lemma SoundFrom(r: Rule, orig: seq<Fragment>, s: Sender, res: (Sender, Outcome), k: nat)
    requires res.1 != NetworkError && res.0.capacity == s.capacity && (res.1 == Continue ==> Sound(r, orig, res.0, k))
    ensures SoundAfter(r, orig, s, res, k)
  {
    hide Sound;
  }

  lemma KeptIsSound(r: Rule, orig: seq<Fragment>, s: Sender, res: (Sender, Outcome), k: nat)
    requires Kept(r, orig, res, k) && res.0.capacity == s.capacity
    ensures SoundAfter(r, orig, s, res, k)
  {
    hide Sound, Inv;
    if res.1 == Continue {
      InvIsSound(r, orig, res.0, k);
    }
  }

  /** From any sound state a step finds its element, stays in the array and leaves a sound state,
      whatever ACK arrives, as long as what the queue takes of it points into the array. */
  lemma SoundStep(c: Config, r: Rule, orig: seq<Fragment>, s: Sender, k: nat, e: Event)
    requires Faithful(r, orig) && Sound(r, orig, s, k) && Active(s)
    requires r.WellFormed() && s.frs != [] && AckInside(r, s, e)
    ensures Ready(s) && InRange(s, Head(s))
    ensures SoundAfter(r, orig, s, Step(c, r, s, e), NextK(s, |orig|, k))
  {
    hide *;
    SoundBounds(r, orig, s, k);
    SoundIntact(r, orig, s, k);
    if s.rt {
      Retransmits(c, r, orig, s, e);
      RetransmissionSound(r, orig, s, k, e);
      SoundFrom(r, orig, s, Step(c, r, s, e), NextK(s, |orig|, k));
    } else {
      SoundIsInv(r, orig, s, k);
      HeadClass(r, orig, s, k);
      if Delivers(e) && ExpectsAck(r, Deref(s, Head(s))) {
        SoundAnswered(c, r, orig, s, k, e);
      } else {
        StepSilent(c, r, orig, s, k, e);
        SilentKeeps(c, r, orig, s, k, e);
        KeptIsSound(r, orig, s, Step(c, r, s, e), NextK(s, |orig|, k));
      }
    }
  }

  lemma SoundAnswered(c: Config, r: Rule, orig: seq<Fragment>, s: Sender, k: nat, e: Event)
    requires Faithful(r, orig) && Inv(r, orig, s, k) && Ready(s) && !s.rt && HeadIs(r, orig, s, k)
    requires r.WellFormed() && s.frs != [] && AckInside(r, s, e) && InRange(s, Head(s))
    requires Delivers(e) && ExpectsAck(r, Deref(s, Head(s)))
    ensures SoundAfter(r, orig, s, Step(c, r, s, e), NextK(s, |orig|, k))
  {
    hide *;
    StepListens(c, r, orig, s, k, e);
    HandledIs(r, s, e);
    CompletesIs(r, s, e);
    if !IsReceiverAbort(r, AckOfEvent(e)) && !Completes(r, s, e) {
      SoundListening(r, orig, s, k, e);
    }
    SoundFrom(r, orig, s, Step(c, r, s, e), NextK(s, |orig|, k));
  }

  lemma CompletesIs(r: Rule, s: Sender, e: Event)
    requires Ready(s) && InRange(s, Head(s))
    ensures Completes(r, s, e) <==>
      IsAll1(r, Deref(s, Head(s))) && BinToInt(AckW(r, AckOfEvent(e))) == s.lastWindow && IsComplete(r, AckOfEvent(e))
  {
  }

  /** Every ACK that update_queues works through in the run keeps inside the array. */
  ghost predicate AcksInside(c: Config, r: Rule, s: Sender, es: seq<Event>)
    requires r.WellFormed() && s.frs != []
    decreases |es|
  {
    es != [] && Ready(s) ==>
      && AckInside(r, s, es[0])
      && var (s', o) := Step(c, r, s, es[0]); o == Continue ==> AcksInside(c, r, s', es[1..])
  }

  lemma InsideStep(c: Config, r: Rule, orig: seq<Fragment>, s: Sender, k: nat, es: seq<Event>)
    requires Faithful(r, orig) && Sound(r, orig, s, k) && Active(s)
    requires r.WellFormed() && s.frs != [] && es != [] && AcksInside(c, r, s, es)
    ensures Ready(s) && InRange(s, Head(s)) && AckInside(r, s, es[0]) && k <= NextK(s, |orig|, k) <= |orig|
    ensures var (s', o) := Step(c, r, s, es[0]);
      && SoundAfter(r, orig, s, (s', o), NextK(s, |orig|, k))
      && (o == Continue ==> s'.frs != [] && |s'.frs| == |orig| && Sound(r, orig, s', NextK(s, |orig|, k))
                            && AcksInside(c, r, s', es[1..]) && s'.capacity == s.capacity)
  {
    hide Faithful, Sound, Step, AckInside, Active;
    SoundReady(r, orig, s, k);
    SoundStep(c, r, orig, s, k, es[0]);
    SoundBounds(r, orig, s, k);
  }

  lemma SoundReady(r: Rule, orig: seq<Fragment>, s: Sender, k: nat)
    requires Sound(r, orig, s, k) && Active(s)
    ensures Ready(s)
  {
    if !s.rt {
      SoundIsInv(r, orig, s, k);
      HeadExists(r, orig, s, k);
    }
    hide FragmentsOk, TransmissionOk;
  }

  /** No run gets stuck, leaves the array or fails on the network, whatever ACKs arrive, with
      their windows in any order and repeated, as long as what the queue takes of those that
      update_queues works through points into the array. */
  lemma {:induction false} SoundRun(c: Config, r: Rule, orig: seq<Fragment>, s: Sender, k: nat, es: seq<Event>)
    returns (k': nat)
    requires Faithful(r, orig) && r.WellFormed() && s.frs != [] && Sound(r, orig, s, k)
    requires AcksInside(c, r, s, es)
    ensures var (s', status) := Run(c, r, s, es);
      && status != Stuck && status != Ended(NetworkError) && status != Ended(Continue)
      && (status == Running || status == Drained ==> k <= k' <= |orig| && Sound(r, orig, s', k'))
    decreases |es|
  {
    hide Faithful, Sound, Step, AcksInside;
    k' := k;
    SoundBounds(r, orig, s, k);
    if Active(s) && es != [] {
      InsideStep(c, r, orig, s, k, es);
      RunUnfolds(c, r, s, es);
      var (s1, o) := Step(c, r, s, es[0]);
      if o == Continue {
        k' := SoundRun(c, r, orig, s1, NextK(s, |orig|, k), es[1..]);
      }
    }
  }

  /** What is assumed of ACKs elsewhere is more than that. */
  lemma SafeIsInside(r: Rule, orig: seq<Fragment>, s: Sender, k: nat, e: Event)
    requires r.WellFormed() && s.frs != [] && Inv(r, orig, s, k) && Ready(s) && r.TupleSize() > 0 && AckSafe(r, s, e)
    ensures AckInside(r, s, e)
  {
    hide *;
    if !s.rt {
      InvParts(r, orig, s, k);
      AckShape(e);
      if WorksThrough(r, s, e) {
        SafeParts(r, s, e);
        TuplesShape(r, AckOfEvent(e));
        ShapedIs(r, Tuples(r, AckOfEvent(e)));
        AllPacketWindows(r, s, AckOfEvent(e));
        PacketWindowsInside(r, s, e);
      } else {
        NoWork(r, s, e);
      }
    } else {
      NotAnswered(r, s, e);
      UnansweredNoWork(r, s, e);
      NoWork(r, s, e);
    }
  }

  lemma ShapedIs(r: Rule, ts: seq<Tuple>)
    requires forall k | 0 <= k < |ts| :: TupleShape(r, ts[k])
    ensures Shaped(r, ts)
  {
    hide TupleShape;
  }

  lemma SafeParts(r: Rule, s: Sender, e: Event)
    requires r.TupleSize() > 0 && Ready(s) && AckSafe(r, s, e) && WorksThrough(r, s, e)
    ensures IncreasingAck(r, AckOfEvent(e)) && Greatest(r, AckOfEvent(e)) <= s.lastWindow
  {
    hide IncreasingAck, Greatest, Completes;
  }

  lemma NoWork(r: Rule, s: Sender, e: Event)
    requires r.WellFormed() && s.frs != [] && Ready(s) && r.TupleSize() > 0 && !WorksThrough(r, s, e)
    ensures AckInside(r, s, e)
  {
    hide WorksThrough;
  }

  lemma UnansweredNoWork(r: Rule, s: Sender, e: Event)
    requires r.TupleSize() > 0 && Ready(s) && !Answered(r, s, e)
    ensures !WorksThrough(r, s, e)
  {
    hide Answered, Completes;
  }

  lemma AllPacketWindows(r: Rule, s: Sender, a: CompoundAck)
    requires r.TupleSize() > 0 && Grounded(r, s) && Shaped(r, Tuples(r, a))
    requires IncreasingAck(r, a) && Greatest(r, a) <= s.lastWindow
    ensures PacketWindows(Reached(r, |s.frs|, s.lastWindow, Tuples(r, a)), s.lastWindow)
  {
    hide Tuples;
    ReachedIsPrefix(r, |s.frs|, s.lastWindow, Tuples(r, a));
  }

  lemma {:induction false} ReachedIsPrefix(r: Rule, n: nat, lastWindow: int, ts: seq<Tuple>)
    requires r.windowSize > 0 && n > 0 && Shaped(r, ts)
    ensures var reached := Reached(r, n, lastWindow, ts);
      |reached| <= |ts| && forall k | 0 <= k < |reached| :: reached[k] == ts[k]
    decreases |ts|
  {
    hide GivesUpAt;
    if ts != [] && !GivesUpAt(r, n, lastWindow, ts[0]) {
      ReachedIsPrefix(r, n, lastWindow, ts[1..]);
    }
  }

  lemma {:induction false} SafeAcksInside(c: Config, r: Rule, orig: seq<Fragment>, s: Sender, k: nat, es: seq<Event>)
    requires Faithful(r, orig) && r.WellFormed() && s.frs != [] && Inv(r, orig, s, k)
    requires AcksSafe(c, r, s, es)
    ensures AcksInside(c, r, s, es)
    decreases |es|
  {
    hide Faithful, Inv, Step, AckSafe, AckInside;
    if es != [] && Ready(s) {
      ReadyIsActive(s);
      FaithfulTuples(r, orig);
      SafeIsInside(r, orig, s, k, es[0]);
      SafeStep(c, r, orig, s, k, es);
      var (s1, o) := Step(c, r, s, es[0]);
      if o == Continue {
        SafeAcksInside(c, r, orig, s1, NextK(s, |orig|, k), es[1..]);
      }
    }
  }

  // ---------------------------------------------------------------- how a run sticks

  /** Position `p` of the retransmission queue points past the end of the array, those before it
      point below the All-1. */
  ghost predicate Outside(orig: seq<Fragment>, s: Sender, p: nat) {
    && Intact(orig, s) && s.rt && p < |s.rq|
    && s.rq[p].Frg? && s.rq[p].idx >= |orig|
    && forall i | 0 <= i < p :: s.rq[i].Frg? && s.rq[i].idx < |orig| - 1
  }

  lemma OutsideNext(r: Rule, orig: seq<Fragment>, s: Sender, p: nat, e: Event)
    requires Outside(orig, s, p) && p > 0 && Ready(s)
    ensures Outside(orig, AfterRetransmission(r, s, e), p - 1)
  {
    RetransmissionIs(r, s, e);
    hide AfterRetransmission;
  }

  lemma OutsideHead(orig: seq<Fragment>, s: Sender, p: nat)
    requires Outside(orig, s, p)
    ensures Intact(orig, s) && s.rt && s.rq != [] && s.frs != []
    ensures p > 0 ==> s.rq[0].Frg? && s.rq[0].idx < |orig| - 1
    ensures p == 0 ==> !Ready(s)
  {
  }

  /** Such a run sticks when it comes to that position. */
  lemma {:induction false} Sticks(c: Config, r: Rule, orig: seq<Fragment>, s: Sender, p: nat, es: seq<Event>)
    requires Faithful(r, orig) && Outside(orig, s, p) && |es| > p
    ensures r.WellFormed() && s.frs != [] && Run(c, r, s, es).1 == Stuck
    decreases p
  {
    hide Faithful, Outside, Step, Intact, Ready;
    FaithfulSizes(r, orig);
    OutsideHead(orig, s, p);
    if p > 0 {
      Retransmits(c, r, orig, s, es[0]);
      OutsideNext(r, orig, s, p, es[0]);
      RunUnfolds(c, r, s, es);
      Sticks(c, r, orig, Step(c, r, s, es[0]).0, p - 1, es[1..]);
    }
  }

  lemma FirstOutside(q: seq<Ref>, n: nat) returns (p: nat)
    requires NotLast(q, n) && !RefsBetween(q, 0, n)
    ensures p < |q| && q[p].Frg? && q[p].idx >= n
    ensures forall i | 0 <= i < p :: q[i].Frg? && q[i].idx < n - 1
  {
    p := 0;
    while q[p].idx < n
      invariant p < |q| && exists i | p <= i < |q| :: q[i].idx >= n
      invariant forall i | 0 <= i < p :: q[i].Frg? && q[i].idx < n - 1
      decreases |q| - p
    {
      p := p + 1;
    }
  }

  /** The ACK that puts a pointer outside is worked through, and the run goes on to that pointer. */
  lemma OutsideStep(c: Config, r: Rule, orig: seq<Fragment>, s: Sender, k: nat, e: Event) returns (p: nat)
    requires Faithful(r, orig) && Sound(r, orig, s, k) && Active(s) && r.WellFormed() && s.frs != []
    requires !AckInside(r, s, e)
    ensures Ready(s) && Step(c, r, s, e).1 == Continue && p < s.capacity && Outside(orig, Step(c, r, s, e).0, p)
  {
    hide *;
    SoundBounds(r, orig, s, k);
    TupleSizeOf(r);
    SoundReady(r, orig, s, k);
    AckShape(e);
    var a := AckOfEvent(e);
    NoInside(r, s, e);
    WorkParts(r, s, e);
    SoundIsInv(r, orig, s, k);
    InvParts(r, orig, s, k);
    HeadClass(r, orig, s, k);
    StepListens(c, r, orig, s, k, e);
    HandledIs(r, s, e);
    CompletesIs(r, s, e);
    HeardSame(r, s, e);
    HeardCapacity(r, s, e);
    Worked(r, Heard(r, s, e), Head(s), a);
    TakenSame(r, s, Heard(r, s, e), a);
    TakenIs(r, s, a);
    p := FirstOutside(Taken(r, s, a), |s.frs|);
    SoundIntact(r, orig, s, k);
    IntactSame(orig, s, Heard(r, s, e));
    QueuedOutside(r, orig, Heard(r, s, e), Head(s), Taken(r, s, a),
                  GivesUpOn(r, |s.frs|, s.lastWindow, Tuples(r, a)), p);
  }

  lemma TupleSizeOf(r: Rule)
    requires r.WellFormed()
    ensures r.TupleSize() > 0 && 0 < r.windowSize
  {
  }

  lemma NoInside(r: Rule, s: Sender, e: Event)
    requires r.WellFormed() && s.frs != [] && Ready(s) && r.TupleSize() > 0 && !AckInside(r, s, e)
    ensures WorksThrough(r, s, e) && AckOfEvent(e).Ack? && |AckOfEvent(e).message| == DOWNLINK_MTU_BYTES
    ensures !RefsBetween(Taken(r, s, AckOfEvent(e)), 0, |s.frs|)
  {
    hide WorksThrough, Taken;
  }

  lemma WorkParts(r: Rule, s: Sender, e: Event)
    requires r.TupleSize() > 0 && Ready(s) && WorksThrough(r, s, e)
    ensures !s.rt && ExpectsAck(r, Deref(s, Head(s))) && Delivers(e) && !IsReceiverAbort(r, AckOfEvent(e))
    ensures !Completes(r, s, e) && TakesEffect(r, Deref(s, Head(s)), AckOfEvent(e))
  {
    hide ExpectsAck, Delivers, IsReceiverAbort, Completes, TakesEffect;
  }

  lemma IntactSame(orig: seq<Fragment>, s: Sender, s0: Sender)
    requires Intact(orig, s) && s0.frs == s.frs
    ensures Intact(orig, s0)
  {
  }

  lemma QueuedOutside(r: Rule, orig: seq<Fragment>, s0: Sender, ref: Ref, q: seq<Ref>, stopped: bool, p: nat)
    requires Intact(orig, s0) && InRange(s0, ref) && p < |q| && q[p].Frg? && q[p].idx >= |orig|
    requires forall i | 0 <= i < p :: q[i].Frg? && q[i].idx < |orig| - 1
    ensures Outside(orig, UpdateRt(AfterLosses(r, s0.(rq := q), ref, stopped)), p)
  {
    hide IsAll1, AbortFrom;
  }

  /** Any run in which some ACK puts a pointer outside the array, and enough events for the
      sender to come to it: the run is stuck. */
  lemma {:induction false} OutsideSticks(c: Config, r: Rule, orig: seq<Fragment>, s: Sender, k: nat,
                                         es: seq<Event>, more: seq<Event>)
    requires Faithful(r, orig) && Sound(r, orig, s, k) && r.WellFormed() && s.frs != []
    requires !AcksInside(c, r, s, es) && |more| >= s.capacity
    ensures Run(c, r, s, es + more).1 == Stuck
    decreases |es|
  {
    hide *;
    NotInside(c, r, s, es);
    ReadyIsActive(s);
    assert (es + more)[0] == es[0] && (es + more)[1..] == es[1..] + more;
    RunUnfolds(c, r, s, es + more);
    var (s1, o) := Step(c, r, s, es[0]);
    if !AckInside(r, s, es[0]) {
      var p := OutsideStep(c, r, orig, s, k, es[0]);
      Sticks(c, r, orig, s1, p, es[1..] + more);
    } else {
      SoundStep(c, r, orig, s, k, es[0]);
      SoundAfterParts(r, orig, s, (s1, o), NextK(s, |orig|, k));
      OutsideSticks(c, r, orig, s1, NextK(s, |orig|, k), es[1..], more);
    }
  }

  lemma NotInside(c: Config, r: Rule, s: Sender, es: seq<Event>)
    requires r.WellFormed() && s.frs != [] && !AcksInside(c, r, s, es)
    ensures es != [] && Ready(s)
    ensures AckInside(r, s, es[0]) ==>
      && Step(c, r, s, es[0]).1 == Continue && Step(c, r, s, es[0]).0.frs != []
      && !AcksInside(c, r, Step(c, r, s, es[0]).0, es[1..])
  {
    hide AckInside, Step;
  }

  lemma SoundAfterParts(r: Rule, orig: seq<Fragment>, s: Sender, res: (Sender, Outcome), k: nat)
    requires SoundAfter(r, orig, s, res, k) && res.1 == Continue
    ensures Sound(r, orig, res.0, k) && res.0.capacity == s.capacity
  {
    hide Sound;
  }
}
