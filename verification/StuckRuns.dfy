/**
  When an ACK can make update_queues leave the fragment array, with the ACKs that do.
 */
module StuckRuns {
  import opened Bits
  import opened Rules
  import opened Fragments
  import opened FrProcedure
  import opened Acks
  import opened AckProofs
  import opened SenderModel
  import opened SenderQueues
  import opened SenderInvariant
  import opened SenderRuns
  import opened AnyAcks
  import opened SenderSilence
  import Delivery
  import opened Progress
  import opened Conversation
  import opened FirstPasses
  import opened Transfers
  import Outcomes
  import opened Failures

  // ---------------------------------------------------------------- ACKs that name given windows

  /** The same bitmap for every window. */
  function Uniform(r: Rule, bit: bool): (t: seq<BitString>)
    ensures |t| == r.MaxWindowNb()
  {
    seq(r.MaxWindowNb(), _ => Repeat(bit, r.windowSize))
  }

  /** An ACK whose tuples name the windows `ws`, in that order. */
  function Naming(r: Rule, ws: seq<nat>, bit: bool): CompoundAck
    requires Below(ws, r.MaxWindowNb())
  {
    LossReport(r, Uniform(r, bit), ws)
  }

  function NamingEvent(r: Rule, ws: seq<nat>, bit: bool): Event
    requires Below(ws, r.MaxWindowNb())
  {
    NamingShape(r, ws, bit);
    Datagram(Naming(r, ws, bit).message)
  }

  lemma NamingShape(r: Rule, ws: seq<nat>, bit: bool)
    requires Below(ws, r.MaxWindowNb())
    ensures Naming(r, ws, bit).Ack? && |Naming(r, ws, bit).message| == DOWNLINK_MTU_BYTES
  {
    hide ReportStart, Uniform;
  }

  /** Windows an ACK can name: only the first may be 0, there is room to read them all, and the
      eight bytes are not all zero. */
  ghost predicate Nameable(r: Rule, ws: seq<nat>, bit: bool)
    requires r.TupleSize() > 0
  {
    && ws != [] && Below(ws, r.MaxWindowNb()) && |ws| <= ReaderCapacity(r)
    && (forall k | 0 < k < |ws| :: 0 < ws[k])
    && (|ws| > 1 || ws[0] > 0 || bit)
  }

  lemma NamingReportable(r: Rule, ws: seq<nat>, bit: bool)
    requires r.WellFormed() && r.TupleSize() > 0 && Nameable(r, ws, bit)
    ensures Reportable(r, Uniform(r, bit), ws) && ws[0] < Pow2(r.m)
    ensures ws[..Min(|ws|, ReaderCapacity(r))] == ws
  {
    CapacitiesOrdered(r);
    hide Slots, Room;
  }

  lemma CapacitiesOrdered(r: Rule)
    requires r.WellFormed()
    ensures r.TupleSize() > 0 && 1 <= ReaderCapacity(r) <= WriterCapacity(r)
  {
    SlotsWithinRoom(r, r.TupleIdx());
  }

  /** What the sender makes of such an ACK: it arrives, its tuples name those windows, and it is
      neither complete nor a Receiver-Abort. */
  lemma NamingIs(r: Rule, ws: seq<nat>, bit: bool)
    requires r.WellFormed() && r.TupleSize() > 0 && Nameable(r, ws, bit)
    ensures Below(ws, r.MaxWindowNb()) && Below(ws, |Uniform(r, bit)|)
    ensures Tuples(r, Naming(r, ws, bit)) == TuplesOf(r, Uniform(r, bit), ws)
    ensures !IsReceiverAbort(r, Naming(r, ws, bit)) && !IsComplete(r, Naming(r, ws, bit))
    ensures Delivers(NamingEvent(r, ws, bit)) && AckOfEvent(NamingEvent(r, ws, bit)) == Naming(r, ws, bit)
  {
    hide *;
    NamingBelow(r, ws, bit);
    NamingReportable(r, ws, bit);
    ReportReads(r, Uniform(r, bit), ws);
    NamingShape(r, ws, bit);
    NamingUnfolds(r, ws, bit);
    PendingClass(r, Naming(r, ws, bit));
    Delivery.ZeroReport(r, Uniform(r, bit), ws);
    NamingNotZero(r, ws, bit);
    Delivery.EmptyBufferBits(Naming(r, ws, bit).message);
    AckBits(Naming(r, ws, bit));
    NamingArrives(r, ws, bit);
  }

  lemma NamingBelow(r: Rule, ws: seq<nat>, bit: bool)
    requires r.TupleSize() > 0 && Nameable(r, ws, bit)
    ensures ws != [] && Below(ws, r.MaxWindowNb()) && Below(ws, |Uniform(r, bit)|)
  {
    hide ReaderCapacity;
  }

  lemma NamingUnfolds(r: Rule, ws: seq<nat>, bit: bool)
    requires Below(ws, r.MaxWindowNb())
    ensures Naming(r, ws, bit) == LossReport(r, Uniform(r, bit), ws)
  {
    hide LossReport, Uniform;
  }

  lemma PendingClass(r: Rule, a: CompoundAck)
    requires AckC(r, a) == [false]
    ensures !IsReceiverAbort(r, a) && !IsComplete(r, a)
  {
  }

  lemma NamingNotZero(r: Rule, ws: seq<nat>, bit: bool)
    requires r.WellFormed() && r.TupleSize() > 0 && Nameable(r, ws, bit)
    ensures !(|ws| == 1 && ws[0] == 0 && Uniform(r, bit)[0] == Repeat(false, r.windowSize))
  {
    hide ReaderCapacity;
    if bit {
      assert Uniform(r, bit)[0][0] != Repeat(false, r.windowSize)[0];
    }
  }

  lemma NamingArrives(r: Rule, ws: seq<nat>, bit: bool)
    requires Below(ws, r.MaxWindowNb()) && Naming(r, ws, bit).Ack?
    requires |Naming(r, ws, bit).message| == DOWNLINK_MTU_BYTES && Naming(r, ws, bit).message != EMPTY_BUFFER
    ensures Delivers(NamingEvent(r, ws, bit)) && AckOfEvent(NamingEvent(r, ws, bit)) == Naming(r, ws, bit)
  {
    hide Naming, EMPTY_BUFFER;
    assert Naming(r, ws, bit).message[..DOWNLINK_MTU_BYTES] == Naming(r, ws, bit).message;
  }

  /** Its tuples, one by one. */
  lemma NamedTuple(r: Rule, ws: seq<nat>, bit: bool, k: nat)
    requires r.WellFormed() && r.TupleSize() > 0 && Nameable(r, ws, bit) && k < |ws|
    requires Below(ws, r.MaxWindowNb()) && Below(ws, |Uniform(r, bit)|)
    requires Tuples(r, Naming(r, ws, bit)) == TuplesOf(r, Uniform(r, bit), ws)
    ensures var t := Tuples(r, Naming(r, ws, bit))[k];
      TupleShape(r, t) && WindowNb(t) == ws[k] && t.bitmap == Repeat(bit, r.windowSize)
    ensures Greatest(r, Naming(r, ws, bit)) == ws[|ws| - 1]
  {
    hide Tuples, Naming, IntBits, BinToInt, ReaderCapacity;
    SmallRoundTrip(ws[k], r.m);
    SmallRoundTrip(ws[|ws| - 1], r.m);
  }

  // ---------------------------------------------------------------- the first tuple leaves the array

  /** The ACK is worked through, and its first tuple names a window after the packet's last. */
  lemma FirstTupleOutside(r: Rule, s: Sender, e: Event)
    requires r.WellFormed() && Grounded(r, s) && s.frs != [] && Ready(s) && r.TupleSize() > 0 && WorksThrough(r, s, e)
    requires var t := Tuples(r, AckOfEvent(e))[0];
      TupleShape(r, t) && WindowNb(t) > s.lastWindow && t.bitmap == Repeat(false, r.windowSize)
    ensures !AckInside(r, s, e)
  {
    hide *;
    var a := AckOfEvent(e);
    AckShape(e);
    InsideIs(r, s, e);
    GroundedSizes(r, s);
    ReadOne(r, a);
    TuplesShape(r, a);
    ShapedIs(r, Tuples(r, a));
    FirstTaken(r, s, a);
    FirstIsOutside(Taken(r, s, a), |s.frs|);
  }

  lemma GroundedSizes(r: Rule, s: Sender)
    requires r.WellFormed() && Grounded(r, s)
    ensures 2 <= r.windowSize && r.m <= 31 && 0 < |s.frs| <= s.capacity && s.lastWindow == (|s.frs| - 1) / r.windowSize
  {
  }

  lemma FirstTaken(r: Rule, s: Sender, a: CompoundAck)
    requires r.WellFormed() && 2 <= r.windowSize && r.m <= 31 && 0 < |s.frs| <= s.capacity
    requires a.Ack? && |a.message| == DOWNLINK_MTU_BYTES && s.lastWindow == (|s.frs| - 1) / r.windowSize
    requires Shaped(r, Tuples(r, a)) && Tuples(r, a) != [] && WindowNb(Tuples(r, a)[0]) > s.lastWindow
    requires Tuples(r, a)[0].bitmap == Repeat(false, r.windowSize)
    ensures var q := Taken(r, s, a); q != [] && q[0].Frg? && q[0].idx >= |s.frs|
  {
    hide Tuples, TupleLosses, WindowNb, Rule.WellFormed;
    var n, ts := |s.frs|, Tuples(r, a);
    var t := ts[0];
    LossyGoesOn(r, n, s.lastWindow, t);
    TuplePointersOutside(r, n, s.lastWindow, t);
    hide GivesUpAt;
    PutAllTakes(s.capacity, [], LossRefs(r, n, s.lastWindow, ts));
    assert LossRefs(r, n, s.lastWindow, ts)[0] == TupleLosses(r, n, s.lastWindow, t)[0];
  }

  /** A tuple of another window with nothing but '0's does not stop update_queues. */
  lemma LossyGoesOn(r: Rule, n: nat, lastWindow: int, t: Tuple)
    requires 2 <= r.windowSize && n > 0 && TupleShape(r, t) && WindowNb(t) > lastWindow
    requires t.bitmap == Repeat(false, r.windowSize)
    ensures !GivesUpAt(r, n, lastWindow, t)
  {
    hide WindowNb;
    assert !t.bitmap[0];
  }

  lemma FirstIsOutside(q: seq<Ref>, n: nat)
    requires q != [] && q[0].Frg? && q[0].idx >= n
    ensures !RefsBetween(q, 0, n)
  {
  }

  /** A waiting sender, and an ACK that names such a window and then the packet's last. */
  lemma TwoWindows(r: Rule, orig: seq<Fragment>, s: Sender, w: nat, v: nat)
    requires Faithful(r, orig) && Waiting(r, orig, s) && r.WellFormed() && r.TupleSize() > 0 && s.frs != []
    requires s.lastWindow == v && 0 < v < w < r.MaxWindowNb() && ReaderCapacity(r) >= 2
    ensures Below([w, v], r.MaxWindowNb()) && !AckInside(r, s, NamingEvent(r, [w, v], false))
  {
    hide *;
    TwoNameable(r, w, v);
    NamingIs(r, [w, v], false);
    NamedTuple(r, [w, v], false, 0);
    WaitingParts(r, orig, s);
    WaitingGrounded(r, orig, s);
    All1Class(r, orig);
    All1At(r, orig);
    WorksFrom(r, s, NamingEvent(r, [w, v], false));
    FirstTupleOutside(r, s, NamingEvent(r, [w, v], false));
  }

  lemma TwoNameable(r: Rule, w: nat, v: nat)
    requires r.TupleSize() > 0 && 0 < v < w < r.MaxWindowNb() && ReaderCapacity(r) >= 2
    ensures Nameable(r, [w, v], false) && Below([w, v], r.MaxWindowNb())
  {
    hide ReaderCapacity;
  }

  lemma WaitingGrounded(r: Rule, orig: seq<Fragment>, s: Sender)
    requires Waiting(r, orig, s) && r.WellFormed()
    ensures Grounded(r, s)
  {
    hide *;
    WaitingParts(r, orig, s);
    InvParts(r, orig, s, |orig|);
  }

  lemma WorksFrom(r: Rule, s: Sender, e: Event)
    requires r.TupleSize() > 0 && Ready(s) && !s.rt && ExpectsAck(r, Deref(s, Head(s))) && Delivers(e)
    requires !IsReceiverAbort(r, AckOfEvent(e)) && !IsComplete(r, AckOfEvent(e))
    requires Greatest(r, AckOfEvent(e)) <= Window(r, Deref(s, Head(s)))
    ensures WorksThrough(r, s, e)
  {
    hide IsAll1, ExpectsAck, Delivers, IsReceiverAbort, IsComplete, Greatest, Window, Buffer;
  }

  // ---------------------------------------------------------------- rules whose Sender-Abort reads as an All-1

  /** The report of a loss-free last window makes a waiting sender put a Sender-Abort into its
      queue. */
  lemma LossFreeAborts(c: Config, r: Rule, orig: seq<Fragment>, s: Sender, v: nat) returns (s': Sender)
    requires Faithful(r, orig) && Waiting(r, orig, s) && r.WellFormed() && s.frs != []
    requires s.lastWindow == v < r.MaxWindowNb()
    ensures Below([v], r.MaxWindowNb()) && Ready(s)
    ensures Step(c, r, s, NamingEvent(r, [v], true)) == (s', Continue) && Aborting(r, orig, s')
  {
    hide *;
    TupleSizeIs(r);
    OneNameable(r, v);
    var e, a := NamingEvent(r, [v], true), Naming(r, [v], true);
    NamingIs(r, [v], true);
    NamedTuple(r, [v], true, 0);
    WaitingParts(r, orig, s);
    WaitingGrounded(r, orig, s);
    All1Class(r, orig);
    All1At(r, orig);
    HeadClass(r, orig, s, |orig|);
    HeadAbort(r, orig, s, |orig|);
    StepListens(c, r, orig, s, |orig|, e);
    HandledIs(r, s, e);
    HeardSame(r, s, e);
    AnsweredIs(r, s, e);
    HeardIs(r, s, e);
    ReadOne(r, a);
    AckShape(e);
    EffectIs(r, Heard(r, s, e), Head(s), a);
    Worked(r, Heard(r, s, e), Head(s), a);
    LossFreeStops(r, |s.frs|, s.lastWindow, Tuples(r, a));
    NoneTaken(r, Heard(r, s, e), a);
    s' := Step(c, r, s, e).0;
    HeardRoom(r, orig, s, |orig|, e);
    QueuesAbort(r, s, Heard(r, s, e), Head(s));
    StepIsInv(c, r, orig, s, v, e);
    AbortingFrom(r, orig, s, s');
  }

  lemma OneNameable(r: Rule, v: nat)
    requires r.TupleSize() > 0 && v < r.MaxWindowNb()
    ensures Nameable(r, [v], true) && Below([v], r.MaxWindowNb())
  {
    CapacityPositive(r);
    hide ReaderCapacity;
  }

  lemma ReadOne(r: Rule, a: CompoundAck)
    requires r.TupleSize() > 0
    ensures Tuples(r, a) != []
  {
  }

  lemma EffectIs(r: Rule, s0: Sender, ref: Ref, a: CompoundAck)
    requires r.TupleSize() > 0 && InRange(s0, ref) && Greatest(r, a) <= Window(r, Deref(s0, ref))
    ensures TakesEffect(r, Deref(s0, ref), a)
  {
  }

  /** A tuple with nothing but '1's for the packet's last window stops update_queues at once. */
  lemma LossFreeStops(r: Rule, n: nat, lastWindow: int, ts: seq<Tuple>)
    requires 0 < r.windowSize && r.m <= 31 && n > 0 && Shaped(r, ts) && ts != []
    requires WindowNb(ts[0]) == lastWindow && ts[0].bitmap == Repeat(true, r.windowSize)
    ensures GivesUpOn(r, n, lastWindow, ts) && LossRefs(r, n, lastWindow, ts) == []
  {
    assert ts[0].bitmap[..(n - 1) % r.windowSize] == Repeat(true, (n - 1) % r.windowSize);
  }

  lemma NoneTaken(r: Rule, s0: Sender, a: CompoundAck)
    requires r.WellFormed() && s0.frs != [] && a.Ack? && |a.message| == DOWNLINK_MTU_BYTES && Shaped(r, Tuples(r, a))
    requires LossRefs(r, |s0.frs|, s0.lastWindow, Tuples(r, a)) == []
    ensures Taken(r, s0, a) == []
  {
    hide Tuples, LossRefs;
  }

  lemma QueuesAbort(r: Rule, s: Sender, s0: Sender, ref: Ref)
    requires InRange(s0, ref) && |s0.tq| < s0.capacity && s0.rq == [] && AbortFrom(r, Deref(s0, ref)) == SenderAbort(r)
    ensures var s' := UpdateRt(AfterLosses(r, s0.(rq := []), ref, true));
      && s'.tq == s0.tq + [AbortSlot] && s'.rq == [] && s'.senderAbort == SenderAbort(r)
  {
    hide IsAll1, AbortFrom, SenderAbort;
  }

  lemma StepIsInv(c: Config, r: Rule, orig: seq<Fragment>, s: Sender, v: nat, e: Event)
    requires Faithful(r, orig) && Waiting(r, orig, s) && r.WellFormed() && s.frs != [] && Ready(s) && v == s.lastWindow
    requires v < r.MaxWindowNb() && r.TupleSize() > 0 && Nameable(r, [v], true) && Below([v], r.MaxWindowNb())
    requires Step(c, r, s, e).1 == Continue && AckOfEvent(e) == Naming(r, [v], true)
    requires Below([v], |Uniform(r, true)|) && Tuples(r, Naming(r, [v], true)) == TuplesOf(r, Uniform(r, true), [v])
    ensures Inv(r, orig, Step(c, r, s, e).0, |orig|)
  {
    hide *;
    NamedTuple(r, [v], true, 0);
    OneWindow(r, Naming(r, [v], true), [v], Uniform(r, true));
    SafeFrom(r, s, e);
    WaitingParts(r, orig, s);
    StepKeeps(c, r, orig, s, |orig|, e);
    AtEnd(s, |orig|);
    KeptIs(r, orig, Step(c, r, s, e), |orig|);
  }

  lemma OneWindow(r: Rule, a: CompoundAck, ws: seq<nat>, t: seq<BitString>)
    requires r.TupleSize() > 0 && |ws| == 1 && Below(ws, |t|) && Tuples(r, a) == TuplesOf(r, t, ws)
    requires Greatest(r, a) == ws[0]
    ensures IncreasingAck(r, a)
  {
    hide Tuples;
  }

  lemma AbortingFrom(r: Rule, orig: seq<Fragment>, s: Sender, s': Sender)
    requires Waiting(r, orig, s) && Inv(r, orig, s', |orig|)
    requires s'.tq == s.tq[1..] + [AbortSlot] && s'.rq == [] && s'.senderAbort == SenderAbort(r)
    ensures Aborting(r, orig, s')
  {
    hide Inv, SenderAbort;
  }

  /** The Sender-Abort that such a sender then transmits is an All-1 of the last window number,
      so that an ACK for any window is worked through. */
  lemma AbortAnswered(r: Rule, orig: seq<Fragment>, s: Sender, w: nat)
    requires Faithful(r, orig) && Aborting(r, orig, s) && r.WellFormed() && s.frs != [] && !r.AbortDistinct()
    requires s.lastWindow < w < r.MaxWindowNb()
    ensures Below([w], r.MaxWindowNb()) && !AckInside(r, s, NamingEvent(r, [w], false))
  {
    hide *;
    TupleSizeIs(r);
    AbortingParts(r, orig, s);
    AbortingGrounded(r, orig, s);
    LaterNameable(r, w, s.lastWindow);
    NamingIs(r, [w], false);
    NamedTuple(r, [w], false, 0);
    ClassOfAbort(r);
    AbortClass(r);
    WorksFrom(r, s, NamingEvent(r, [w], false));
    FirstTupleOutside(r, s, NamingEvent(r, [w], false));
  }

  lemma LaterNameable(r: Rule, w: nat, last: int)
    requires r.TupleSize() > 0 && last < w < r.MaxWindowNb() && 0 <= last
    ensures Nameable(r, [w], false) && Below([w], r.MaxWindowNb())
  {
    CapacityPositive(r);
    hide ReaderCapacity;
  }

  lemma AbortingGrounded(r: Rule, orig: seq<Fragment>, s: Sender)
    requires Aborting(r, orig, s) && r.WellFormed()
    ensures Grounded(r, s) && 0 <= s.lastWindow
  {
    hide *;
    AbortingParts(r, orig, s);
    InvParts(r, orig, s, |orig|);
    LastWindowOf(r, orig, s, |orig|);
    NotNegative(|orig|, r.windowSize);
  }

  // ---------------------------------------------------------------- exactly when

  /** The numbering has a window after the packet's last, and the sender can be made to work
      through an ACK that names it: because an ACK can name the packet's last window behind it,
      or because the rule's Sender-Abort reads as an All-1 of the last window number. */
  predicate Outsideable(r: Rule, n: nat)
    requires 0 < r.windowSize && n > 0 && r.TupleSize() > 0
  {
    && (n - 1) / r.windowSize + 1 < r.MaxWindowNb()
    && (!r.AbortDistinct() || (0 < (n - 1) / r.windowSize && ReaderCapacity(r) >= 2))
  }

  lemma OutsideableIs(r: Rule, n: nat)
    requires 0 < r.windowSize && n > 0 && r.TupleSize() > 0
    ensures 0 <= (n - 1) / r.windowSize
    ensures Outsideable(r, n) <==>
      && (n - 1) / r.windowSize + 1 < r.MaxWindowNb()
      && (!r.AbortDistinct() || (0 < (n - 1) / r.windowSize && ReaderCapacity(r) >= 2))
  {
    hide ReaderCapacity, Rule.AbortDistinct;
  }

  lemma NowOutside(c: Config, r: Rule, orig: seq<Fragment>, s: Sender, k: nat, e: Event, more: seq<Event>)
    requires Faithful(r, orig) && Inv(r, orig, s, k) && Active(s) && r.WellFormed() && s.frs != []
    requires !AckInside(r, s, e) && |more| >= s.capacity
    ensures Run(c, r, s, [e] + more).1 == Stuck
  {
    hide *;
    InvIsSound(r, orig, s, k);
    SoundReady(r, orig, s, k);
    OneInside(c, r, s, e);
    OutsideSticks(c, r, orig, s, k, [e], more);
  }

  lemma OneInside(c: Config, r: Rule, s: Sender, e: Event)
    requires r.WellFormed() && s.frs != [] && Ready(s) && !AckInside(r, s, e)
    ensures !AcksInside(c, r, s, [e])
  {
    hide AckInside, Step;
  }

  /** The failing runs. */
  lemma SomeRunSticks(c: Config, r: Rule, orig: seq<Fragment>) returns (es: seq<Event>)
    requires Faithful(r, orig) && 0 < r.windowSize && orig != [] && r.TupleSize() > 0 && Outsideable(r, |orig|)
    ensures RunFromStart(c, r, orig, es).1 == Stuck
  {
    hide *;
    OutsideableIs(r, |orig|);
    var n := |orig|;
    var last: nat := (n - 1) / r.windowSize;
    var s := SilentlyPassed(c, r, orig);
    WaitingParts(r, orig, s);
    if r.AbortDistinct() {
      TwoWindows(r, orig, s, last + 1, last);
      var e := NamingEvent(r, [last + 1, last], false);
      NowOutside(c, r, orig, s, n, e, Timeouts(s.capacity));
      es := Timeouts(n - 1) + ([e] + Timeouts(s.capacity));
    } else {
      var s' := LossFreeAborts(c, r, orig, s, last);
      AbortingParts(r, orig, s');
      SameWindow(r, orig, s, s');
      AbortAnswered(r, orig, s', last + 1);
      var e, e' := NamingEvent(r, [last], true), NamingEvent(r, [last + 1], false);
      NowOutside(c, r, orig, s', n, e', Timeouts(s'.capacity));
      var more := [e'] + Timeouts(s'.capacity);
      assert ([e] + more)[0] == e && ([e] + more)[1..] == more;
      RunUnfolds(c, r, s, [e] + more);
      es := Timeouts(n - 1) + ([e] + more);
    }
  }

  lemma SameWindow(r: Rule, orig: seq<Fragment>, s: Sender, s': Sender)
    requires Waiting(r, orig, s) && Aborting(r, orig, s')
    ensures s'.lastWindow == s.lastWindow
  {
    hide TransmissionOk, SenderAbort;
  }

  lemma {:induction false} ReadsWithin(r: Rule, b: BitString, p: nat)
    requires r.TupleSize() > 0
    ensures |ReadFrom(r, b, p)| <= Slots(r, p)
    decreases DOWNLINK_MTU_BITS - p
  {
    hide Field;
    if MoreAt(r, b, p) {
      ReadsWithin(r, b, p + r.TupleSize());
    }
  }

  /** Only the first tuple of an ACK can name window 0. */
  lemma {:induction false} ReadsLater(r: Rule, b: BitString, p: nat)
    requires r.WellFormed() && |b| == DOWNLINK_MTU_BITS
    ensures forall k | 0 <= k < |ReadFrom(r, b, p)| :: WindowNb(ReadFrom(r, b, p)[k]) > 0
    decreases DOWNLINK_MTU_BITS - p
  {
    hide BinToInt, Field;
    if MoreAt(r, b, p) {
      ReadsLater(r, b, p + r.TupleSize());
      FieldLength(b, p, r.m);
      NotZero(Field(b, p, r.m));
    }
  }

  lemma FieldLength(b: BitString, p: nat, len: nat)
    requires p + len <= |b|
    ensures |Field(b, p, len)| == len
  {
  }

  lemma NotZero(b: BitString)
    requires 1 <= |b| <= 31 && b != Repeat(false, |b|)
    ensures BinToInt(b) > 0
  {
    IntBitsOfVal(b);
    ConstantImages(BinVal(b), |b|);
    hide IntBits, BinVal;
  }

  lemma TuplesBounds(r: Rule, a: CompoundAck)
    requires r.WellFormed() && r.TupleSize() > 0 && a.Ack? && |a.message| == DOWNLINK_MTU_BYTES
    ensures |Tuples(r, a)| <= ReaderCapacity(r)
    ensures forall k | 0 < k < |Tuples(r, a)| :: WindowNb(Tuples(r, a)[k]) > 0
    ensures forall k | 0 <= k < |Tuples(r, a)| :: 0 <= WindowNb(Tuples(r, a)[k]) < r.MaxWindowNb()
  {
    TuplesShape(r, a);
    var ts := Tuples(r, a);
    ReadsWithin(r, AckToBits(a), r.TupleIdx());
    ReadsLater(r, AckToBits(a), r.TupleIdx());
    hide ReadFrom, Slots, AckToBits, BinToInt, AckW, AckBitmap;
    forall k | 0 <= k < |ts|
      ensures 0 <= WindowNb(ts[k]) < r.MaxWindowNb()
    {
      assert TupleShape(r, ts[k]);
      WindowNumber(r, ts[k]);
    }
  }

  lemma WindowNumber(r: Rule, t: Tuple)
    requires r.WellFormed() && TupleShape(r, t)
    ensures 0 <= WindowNb(t) < r.MaxWindowNb()
  {
    assert BinToInt(t.window) == BinVal(t.window) < Pow2(|t.window|);
    hide BinToInt, BinVal;
  }

  /** Otherwise no ACK that is worked through names a window after the packet's last. */
  lemma OnlyPacketWindows(r: Rule, n: nat, last: int, f: Fragment, a: CompoundAck)
    requires r.WellFormed() && r.TupleSize() > 0 && n > 0 && !Outsideable(r, n) && last == (n - 1) / r.windowSize
    requires a.Ack? && |a.message| == DOWNLINK_MTU_BYTES && TakesEffect(r, f, a)
    requires r.AbortDistinct() ==> Window(r, f) <= last
    ensures Shaped(r, Tuples(r, a)) && PacketWindows(Reached(r, n, last, Tuples(r, a)), last)
  {
    TuplesShape(r, a);
    TuplesBounds(r, a);
    OutsideableIs(r, n);
    hide Tuples, WindowNb, ReaderCapacity, Window, Rule.AbortDistinct, Outsideable, Reached;
    ReachedIsPrefix(r, n, last, Tuples(r, a));
  }

  lemma NeverOutside(r: Rule, orig: seq<Fragment>, s: Sender, k: nat, e: Event)
    requires Faithful(r, orig) && Sound(r, orig, s, k) && Active(s) && r.WellFormed() && s.frs != []
    requires 0 < r.windowSize && orig != [] && r.TupleSize() > 0 && !Outsideable(r, |orig|)
    ensures AckInside(r, s, e)
  {
    hide *;
    SoundBounds(r, orig, s, k);
    SoundReady(r, orig, s, k);
    AckShape(e);
    if WorksThrough(r, s, e) {
      WorkParts(r, s, e);
      SoundIsInv(r, orig, s, k);
      InvParts(r, orig, s, k);
      HeadInRange(r, orig, s, k);
      if r.AbortDistinct() {
        ListensWithin(r, orig, s, k);
      }
      OnlyPacketWindows(r, |orig|, s.lastWindow, Deref(s, Head(s)), AckOfEvent(e));
      PacketWindowsInside(r, s, e);
    } else {
      NoWork(r, s, e);
    }
  }

  lemma {:induction false} AlwaysInside(c: Config, r: Rule, orig: seq<Fragment>, s: Sender, k: nat, es: seq<Event>)
    requires Faithful(r, orig) && Sound(r, orig, s, k) && r.WellFormed() && s.frs != []
    requires 0 < r.windowSize && orig != [] && r.TupleSize() > 0 && !Outsideable(r, |orig|)
    ensures AcksInside(c, r, s, es)
    decreases |es|
  {
    hide Faithful, Sound, Step, AckInside, Outsideable, Rule.WellFormed;
    if es != [] && Ready(s) {
      ReadyIsActive(s);
      NeverOutside(r, orig, s, k, es[0]);
      SoundStep(c, r, orig, s, k, es[0]);
      var (s1, o) := Step(c, r, s, es[0]);
      if o == Continue {
        SoundAfterParts(r, orig, s, (s1, o), NextK(s, |orig|, k));
        AlwaysInside(c, r, orig, s1, NextK(s, |orig|, k), es[1..]);
      }
    }
  }

  /** When some ACK can make the sender follow a pointer past the end of its fragment array:
      for a rule whose Sender-Abort can be told from an All-1, exactly when the packet has a
      window before its last one, the numbering has one after it, and an ACK holds two tuples;
      for the others, exactly when the numbering has a window after the packet's last. */
  lemma OutsidePossible(c: Config, r: Rule, orig: seq<Fragment>)
    requires Faithful(r, orig)
    ensures orig != [] && 0 < r.windowSize && r.TupleSize() > 0
    ensures (exists es :: RunFromStart(c, r, orig, es).1 == Stuck) <==> Outsideable(r, |orig|)
  {
    hide *;
    StartPasses(r, orig);
    FaithfulTuples(r, orig);
    if Outsideable(r, |orig|) {
      var es := SomeRunSticks(c, r, orig);
      assert RunFromStart(c, r, orig, es).1 == Stuck;
    } else if es :| RunFromStart(c, r, orig, es).1 == Stuck {
      NeverSticks(c, r, orig, es);
    }
  }

  lemma NeverSticks(c: Config, r: Rule, orig: seq<Fragment>, es: seq<Event>)
    requires Faithful(r, orig) && 0 < r.windowSize && orig != [] && r.TupleSize() > 0 && !Outsideable(r, |orig|)
    ensures RunFromStart(c, r, orig, es).1 != Stuck
  {
    hide *;
    StartPasses(r, orig);
    var s := Start(orig, (|orig| - 1) / r.windowSize);
    PassingParts(r, orig, s, 0);
    InvIsSound(r, orig, s, 0);
    AlwaysInside(c, r, orig, s, 0, es);
    var k := SoundRun(c, r, orig, s, 0, es);
    Outcomes.FromStartIs(c, r, orig, es);
  }

  // ---------------------------------------------------------------- on the network

  /** For the single-byte rule 1 and a packet of eight fragments, an ACK that names window 3 and
      then window 1 is worked through, and leaves the array. */
  lemma EightFragmentsStick(c: Config) returns (es: seq<Event>)
    ensures var r := SingleByte(1); r.WellFormed() && 0 < r.windowSize && r.PayloadBytes() > 0 && r.t == 0
    ensures var r, orig := SingleByte(1), FragmentsOf(SingleByte(1), seq(80, _ => 7));
      && Faithful(r, orig) && |orig| == 8 && Below([3, 1], r.MaxWindowNb())
      && es == Timeouts(7) + [NamingEvent(r, [3, 1], false)] + Timeouts(8)
      && RunFromStart(c, r, orig, es).1 == Stuck
  {
    hide *;
    SecondSingleByte();
    var r := SingleByte(1);
    EightFragments(r);
    FragmentsAreFaithful(r, seq(80, _ => 7));
    var orig := FragmentsOf(r, seq(80, _ => 7));
    var s := SilentlyPassed(c, r, orig);
    WaitingParts(r, orig, s);
    TwoWindows(r, orig, s, 3, 1);
    var e := NamingEvent(r, [3, 1], false);
    NowOutside(c, r, orig, s, 8, e, Timeouts(8));
    assert Timeouts(7) + [e] + Timeouts(8) == Timeouts(7) + ([e] + Timeouts(8));
    es := Timeouts(7) + [e] + Timeouts(8);
  }

  lemma EightFragments(r: Rule)
    requires r == SingleByte(1) && r.PayloadBytes() == 11 && r.maxPacketSize == 300
    ensures r.t == 0 && r.PayloadBytes() > 0 && Accepted(r, seq(80, _ => 7)) && NbFragments(r, 80) == 8
    ensures r.MaxWindowNb() == 4 && r.windowSize == 7 && r.TupleSize() > 0 && ReaderCapacity(r) == 6 && 7 / 7 == 1
  {
    Capacities(r);
    Pow2Values();
    hide Rule.PayloadBytes, ReaderCapacity, WriterCapacity, Pow2;
  }
}
