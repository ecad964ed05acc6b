/**
  Where the sender's promises fail, with the inputs: runs that leave the loop without a result
  code, a report that never arrives, a packet given up though all of it arrives.
 */
module Failures {
  import opened Options
  import opened Bits
  import opened Rules
  import opened Fragments
  import opened FrProcedure
  import opened Acks
  import opened AckProofs
  import opened SenderModel
  import SenderQueues
  import opened SenderInvariant
  import opened SenderRuns
  import opened AnyAcks
  import opened Exits
  import opened SenderSilence
  import opened SessionModel
  import opened SessionProofs
  import opened Delivery
  import opened Repair
  import opened Progress
  import opened Stored
  import opened LiveSessions
  import opened Conversation
  import opened FirstPasses
  import opened Transfers
  import opened Outcomes

  // ---------------------------------------------------------------- an ACK for a later window

  /** Loss bitmaps in which only window `w` has losses: nothing of it has arrived. */
  function OnlyLost(r: Rule, w: nat): (t: seq<BitString>)
    ensures |t| == r.MaxWindowNb()
  {
    seq(r.MaxWindowNb(), i requires 0 <= i < r.MaxWindowNb() => if i == w then Repeat(false, r.windowSize) else [])
  }

  lemma OnlyLostIs(r: Rule, w: nat)
    requires r.WellFormed() && 0 < r.windowSize && w < r.MaxWindowNb()
    ensures var t := OnlyLost(r, w);
      && BitmapTable(r, t) && w < |t| && t[w] == Repeat(false, r.windowSize) && LossyFrom(t, 0, w) == [w]
  {
    var t := OnlyLost(r, w);
    LossyExact(t, 0, w);
    hide LossyFrom;
    assert t[w] == Repeat(false, r.windowSize) && !t[w][0];
    assert Lossy(t[w]);
    forall x: nat
      ensures x in LossyFrom(t, 0, w) <==> x in [w]
    {
    }
    IncreasingUnique(LossyFrom(t, 0, w), [w]);
  }

  /** The ACK generate_ack makes for them. */
  function ReportOf(r: Rule, w: nat): CompoundAck {
    if w < |OnlyLost(r, w)| && GeneratedAck(r, w, false, OnlyLost(r, w)).Some? then
      GeneratedAck(r, w, false, OnlyLost(r, w)).value
    else NullAck
  }

  function ReportEvent(r: Rule, w: nat): Event {
    if ReportOf(r, w).Ack? then Datagram(ReportOf(r, w).message) else ReadTimeout
  }

  lemma ReportOfShape(r: Rule, w: nat)
    requires r.WellFormed() && BitmapTable(r, OnlyLost(r, w)) && w < |OnlyLost(r, w)|
    requires LossyFrom(OnlyLost(r, w), 0, w) == [w]
    ensures Below([w], |OnlyLost(r, w)|) && Reportable(r, OnlyLost(r, w), [w])
    ensures GeneratedAck(r, w, false, OnlyLost(r, w)) == Some(ReportOf(r, w))
    ensures ReportOf(r, w) == LossReport(r, OnlyLost(r, w), [w])
    ensures ReportOf(r, w).Ack? && |ReportOf(r, w).message| == DOWNLINK_MTU_BYTES
  {
    hide OnlyLost, LossyFrom, Room, Slots, RuleIdBits, Body, BytesToBits, Written;
    WrittenReportable(r, OnlyLost(r, w), w);
    assert [w][..1] == [w];
  }

  /** It names window `w`, is no Receiver-Abort, is not complete, and reaches the sender. */
  lemma ReportOfNames(r: Rule, w: nat)
    requires r.WellFormed() && 0 < r.windowSize && 0 < w < r.MaxWindowNb()
    ensures r.TupleSize() > 0 && Greatest(r, ReportOf(r, w)) == w
    ensures !IsReceiverAbort(r, ReportOf(r, w)) && !IsComplete(r, ReportOf(r, w))
    ensures Delivers(ReportEvent(r, w)) && AckOfEvent(ReportEvent(r, w)) == ReportOf(r, w)
  {
    hide *;
    TupleSizeIs(r);
    var t := OnlyLost(r, w);
    OnlyLostIs(r, w);
    ReportOfShape(r, w);
    LossReportClass(r, t, w);
    CompoundAckRoundTrip(r, t, w);
    SeenOne(r, t, w);
    NamesOne(r, t, w);
    ZeroReport(r, t, [w]);
    EmptyBufferBits(ReportOf(r, w).message);
    AckBits(ReportOf(r, w));
    Arrives(r, w);
  }

  lemma SeenOne(r: Rule, t: seq<BitString>, w: nat)
    requires r.TupleSize() > 0 && w < |t| && LossyFrom(t, 0, w) == [w]
    ensures Seen(r, t, w) == [w]
  {
    CapacityPositive(r);
    hide LossyFrom, Slots, ReaderCapacity;
    assert [w][..1] == [w];
  }

  lemma NamesOne(r: Rule, t: seq<BitString>, w: nat)
    requires r.WellFormed() && r.TupleSize() > 0 && w < |t| && w < r.MaxWindowNb() && Below([w], |t|)
    requires Tuples(r, ReportOf(r, w)) == TuplesOf(r, t, [w])
    ensures Greatest(r, ReportOf(r, w)) == w && w < Pow2(r.m)
  {
    SmallRoundTrip(w, r.m);
    hide Tuples, ReportOf, IntBits, BinToInt;
  }

  lemma AckBits(a: CompoundAck)
    requires a.Ack?
    ensures AckToBits(a) == BytesToBits(a.message)
  {
  }

  lemma Arrives(r: Rule, w: nat)
    requires ReportOf(r, w).Ack? && |ReportOf(r, w).message| == DOWNLINK_MTU_BYTES
    requires ReportOf(r, w).message != EMPTY_BUFFER
    ensures Delivers(ReportEvent(r, w)) && AckOfEvent(ReportEvent(r, w)) == ReportOf(r, w)
  {
    hide ReportOf, EMPTY_BUFFER;
    assert ReportOf(r, w).message[..DOWNLINK_MTU_BYTES] == ReportOf(r, w).message;
  }

  // ---------------------------------------------------------------- a first pass in silence

  function NoAnswers(k: nat): (answers: seq<Option<BitString>>)
    ensures |answers| == k
  {
    seq(k, _ => None)
  }

  function Timeouts(k: nat): (es: seq<Event>)
    ensures |es| == k
  {
    seq(k, _ => ReadTimeout)
  }

  lemma {:induction false} SilentPass(r: Rule, orig: seq<Fragment>, k: nat)
    requires k < |orig|
    ensures PassEvents(r, orig, k, NoAnswers(|orig| - 1), Timeouts(|orig| - 1 - k))
    decreases |orig| - k
  {
    hide ExpectsAck;
    if k < |orig| - 1 {
      SilentPass(r, orig, k + 1);
      assert Timeouts(|orig| - 1 - k)[1..] == Timeouts(|orig| - 1 - (k + 1));
    }
  }

  /** No event of a silent pass delivers an ACK, so nothing is assumed of it. */
  lemma {:induction false} SilentSafe(c: Config, r: Rule, s: Sender, k: nat)
    requires r.WellFormed() && s.frs != []
    ensures AcksSafe(c, r, s, Timeouts(k))
    decreases k
  {
    hide Step, ExpectsAck, IsReceiverAbort;
    if k > 0 && Ready(s) {
      assert Timeouts(k)[1..] == Timeouts(k - 1);
      var (s', o) := Step(c, r, s, ReadTimeout);
      if o == Continue {
        SilentSafe(c, r, s', k - 1);
      }
    }
  }

  /** A safe run that goes on, and one safe event. */
  lemma {:induction false} OneMoreSafe(c: Config, r: Rule, s: Sender, es: seq<Event>, e: Event, s': Sender)
    requires r.WellFormed() && s.frs != [] && AcksSafe(c, r, s, es)
    requires Run(c, r, s, es) == (s', Running) && AckSafe(r, s', e)
    ensures AcksSafe(c, r, s, es + [e])
    decreases |es|
  {
    hide Step, AckSafe;
    if es == [] {
      assert es + [e] == [e] && [e][1..] == [];
    } else {
      assert (es + [e])[0] == es[0] && (es + [e])[1..] == es[1..] + [e];
      if Ready(s) && Step(c, r, s, es[0]).1 == Continue {
        OneMoreSafe(c, r, Step(c, r, s, es[0]).0, es[1..], e, s');
      }
    }
  }

  // ---------------------------------------------------------------- the silent exit

  /** Nothing is heard in the first pass, and the All-1 is answered by an ACK for window `w`. */
  function LaterWindow(r: Rule, n: nat, w: nat): seq<Event>
    requires n > 0
  {
    Timeouts(n - 1) + [ReportEvent(r, w)]
  }

  /** The sender after the silent pass. */
  lemma SilentlyPassed(c: Config, r: Rule, orig: seq<Fragment>) returns (s: Sender)
    requires Faithful(r, orig)
    ensures orig != [] && r.windowSize > 0 && r.WellFormed() && s.frs != [] && Waiting(r, orig, s)
    ensures s.capacity == |orig| && s.attempts == 0
    ensures forall more :: RunFromStart(c, r, orig, Timeouts(|orig| - 1) + more) == Run(c, r, s, more)
  {
    hide *;
    StartPasses(r, orig);
    PassingParts(r, orig, Start(orig, (|orig| - 1) / r.windowSize), 0);
    var s0, n := Start(orig, (|orig| - 1) / r.windowSize), |orig|;
    SilentPass(r, orig, 0);
    s := Passed(r, orig, s0, 0, NoAnswers(n - 1), Timeouts(n - 1));
    StartSizes(orig, (n - 1) / r.windowSize);
    PassedCapacity(r, orig, s0, NoAnswers(n - 1), Timeouts(n - 1));
    FirstPass(c, r, orig, s0, 0, NoAnswers(n - 1), Timeouts(n - 1), []);
    forall more
      ensures RunFromStart(c, r, orig, Timeouts(|orig| - 1) + more) == Run(c, r, s, more)
    {
      FirstPass(c, r, orig, s0, 0, NoAnswers(n - 1), Timeouts(n - 1), more);
      FromStartIs(c, r, orig, Timeouts(n - 1) + more);
    }
  }

  lemma StartSizes(orig: seq<Fragment>, lastWindow: int)
    ensures Start(orig, lastWindow).capacity == |orig| && Start(orig, lastWindow).attempts == 0
  {
  }

  lemma PassedCapacity(r: Rule, orig: seq<Fragment>, s: Sender, answers: seq<Option<BitString>>, es: seq<Event>)
    requires 0 < |orig| == |answers| + 1 && PassEvents(r, orig, 0, answers, es)
    requires s.capacity == |orig| && s.attempts == 0
    ensures var s' := Passed(r, orig, s, 0, answers, es); s'.capacity == |orig| && s'.attempts == 0
  {
    hide PassEvents, PassLog;
  }

  lemma LaterOverreaches(r: Rule, orig: seq<Fragment>, s: Sender, w: nat)
    requires Faithful(r, orig) && Waiting(r, orig, s) && s.lastWindow < w < r.MaxWindowNb() && 0 <= s.lastWindow
    ensures r.TupleSize() > 0 && Ready(s)
    ensures Overreach(r, s, ReportEvent(r, w)) && AckSafe(r, s, ReportEvent(r, w))
  {
    hide *;
    FaithfulSizes(r, orig);
    WaitingParts(r, orig, s);
    ReportOfNames(r, w);
    All1Class(r, orig);
    All1At(r, orig);
    OverreachFrom(r, s, ReportEvent(r, w));
  }

  lemma All1At(r: Rule, orig: seq<Fragment>)
    requires Faithful(r, orig)
    ensures orig != [] && r.windowSize > 0 && Window(r, All1Of(orig)) == (|orig| - 1) / r.windowSize
  {
    All1Trigger(r, orig);
    FaithfulSizes(r, orig);
    hide Faithful, Trigger, IsAll1, Rcs, Window;
  }

  lemma OverreachFrom(r: Rule, s: Sender, e: Event)
    requires r.TupleSize() > 0 && Ready(s) && !s.rt && |s.tq| == 1 && IsAll1(r, Deref(s, Head(s)))
    requires Delivers(e) && !IsReceiverAbort(r, AckOfEvent(e)) && !IsComplete(r, AckOfEvent(e))
    requires Greatest(r, AckOfEvent(e)) > Window(r, Deref(s, Head(s)))
    ensures Overreach(r, s, e) && AckSafe(r, s, e)
  {
    hide IsAll1, Delivers, IsReceiverAbort, IsComplete, Greatest, Window, Buffer;
  }

  /** The failing input: an ACK that names any window after the packet's last makes the sender
      forget its All-1, so that it leaves the loop without a result code. Nothing that is
      assumed of ACKs excludes it. */
  lemma LaterWindowDrains(c: Config, r: Rule, orig: seq<Fragment>, w: nat)
    requires Faithful(r, orig) && 0 < r.windowSize && (|orig| - 1) / r.windowSize < w < r.MaxWindowNb()
    ensures orig != [] && r.WellFormed() && RunFromStart(c, r, orig, LaterWindow(r, |orig|, w)).1 == Drained
    ensures var s0 := Start(orig, (|orig| - 1) / r.windowSize);
      s0.frs != [] && AcksSafe(c, r, s0, LaterWindow(r, |orig|, w))
  {
    hide *;
    var e, n := ReportEvent(r, w), |orig|;
    var s := SilentlyPassed(c, r, orig);
    var s0 := Start(orig, (n - 1) / r.windowSize);
    StartPasses(r, orig);
    PassingParts(r, orig, s0, 0);
    WaitingParts(r, orig, s);
    NotNegative(n, r.windowSize);
    LaterOverreaches(r, orig, s, w);
    InvIsSound(r, orig, s, n);
    DrainsExactly(c, r, orig, s, n, e);
    StepKeeps(c, r, orig, s, n, e);
    KeptIs(r, orig, Step(c, r, s, e), NextK(s, n, n));
    RunUnfolds(c, r, s, [e]);
    Bounds(r, orig, Step(c, r, s, e).0, NextK(s, n, n));
    InvIsSound(r, orig, Step(c, r, s, e).0, NextK(s, n, n));
    EmptyMeansDrained(c, r, orig, Step(c, r, s, e).0, NextK(s, n, n), [e][1..]);
    LaterIs(r, n, w);
    SilentSafe(c, r, s0, n - 1);
    assert Timeouts(n - 1) + [] == Timeouts(n - 1);
    FromStartIs(c, r, orig, Timeouts(n - 1));
    RunWaits(c, r, s);
    OneMoreSafe(c, r, s0, Timeouts(n - 1), e, s);
  }

  lemma NotNegative(n: nat, ws: nat)
    requires n > 0 && ws > 0
    ensures 0 <= (n - 1) / ws
  {
  }

  lemma LaterIs(r: Rule, n: nat, w: nat)
    requires n > 0
    ensures LaterWindow(r, n, w) == Timeouts(n - 1) + [ReportEvent(r, w)]
  {
  }

  /** Every window an ACK names can be numbered. */
  lemma GreatestBound(r: Rule, e: Event)
    requires r.WellFormed() && r.TupleSize() > 0
    ensures Greatest(r, AckOfEvent(e)) < r.MaxWindowNb()
  {
    hide Tuples, Buffer;
    var a := AckOfEvent(e);
    TuplesShape(r, a);
    var t := Tuples(r, a)[|Tuples(r, a)| - 1];
    assert TupleShape(r, t);
    assert BinToInt(t.window) == BinVal(t.window) < Pow2(|t.window|);
  }

  /** A packet that reaches the last window that can be numbered never meets such an ACK, so that
      no ACKs whatever make the sender leave its loop in that way. */
  lemma LastWindowNeverDrains(c: Config, r: Rule, orig: seq<Fragment>, es: seq<Event>)
    requires Faithful(r, orig) && 0 < r.windowSize && (|orig| - 1) / r.windowSize + 1 >= r.MaxWindowNb()
    requires r.WellFormed() && orig != []
    ensures RunFromStart(c, r, orig, es).1 != Drained
  {
    hide *;
    StartPasses(r, orig);
    var s0 := Start(orig, (|orig| - 1) / r.windowSize);
    PassingParts(r, orig, s0, 0);
    TupleSizeIs(r);
    forall i | 0 <= i < |es|
      ensures WithinPacket(r, s0.lastWindow, es[i])
    {
      GreatestBound(r, es[i]);
      WithinFrom(r, s0.lastWindow, es[i]);
    }
    InvIsSound(r, orig, s0, 0);
    NoSilentExit(c, r, orig, s0, 0, es);
    FromStartIs(c, r, orig, es);
  }

  lemma WithinFrom(r: Rule, last: int, e: Event)
    requires r.TupleSize() > 0 && Greatest(r, AckOfEvent(e)) <= last
    ensures WithinPacket(r, last, e)
  {
  }

  /** When any ACKs at all can make the sender leave a packet without a result code: exactly when
      the numbering has a window after its last. */
  lemma SilentExitPossible(c: Config, r: Rule, orig: seq<Fragment>)
    requires Faithful(r, orig)
    ensures orig != [] && 0 < r.windowSize && r.WellFormed()
    ensures (exists es :: RunFromStart(c, r, orig, es).1 == Drained)
       <==> (|orig| - 1) / r.windowSize + 1 < r.MaxWindowNb()
  {
    hide *;
    StartPasses(r, orig);
    NotNegative(|orig|, r.windowSize);
    var last: nat := (|orig| - 1) / r.windowSize;
    if last + 1 < r.MaxWindowNb() {
      LaterWindowDrains(c, r, orig, last + 1);
      assert RunFromStart(c, r, orig, LaterWindow(r, |orig|, last + 1)).1 == Drained;
    } else if es :| RunFromStart(c, r, orig, es).1 == Drained {
      LastWindowNeverDrains(c, r, orig, es);
    }
  }

  // ---------------------------------------------------------------- an invisible report

  function Upto(lo: nat, hi: nat): (order: seq<nat>)
    requires lo <= hi
    ensures |order| == hi - lo
  {
    seq(hi - lo, i requires 0 <= i < hi - lo => lo + i)
  }

  /** Everything but window 0 has arrived, of a packet of more than one window that fills its
      last one, and the identifier is all '0'. */
  ghost predicate FirstWindowLost(r: Rule, orig: seq<Fragment>, st: Session) {
    && Faithful(r, orig) && RuleIdBits(r) == Repeat(false, r.ruleIdSize)
    && 0 < r.windowSize < |orig| && |orig| % r.windowSize == 0
    && Tracks(r, orig, st, Arrived(Upto(r.windowSize, |orig|)))
  }

  lemma FirstLostBits(r: Rule, orig: seq<Fragment>, st: Session)
    requires FirstWindowLost(r, orig, st)
    ensures Faithful(r, orig) && 0 < r.windowSize < |orig| && |orig| % r.windowSize == 0
    ensures RuleIdBits(r) == Repeat(false, r.ruleIdSize)
    ensures |orig| - 1 in Arrived(Upto(r.windowSize, |orig|)) && |st.bitmap| == r.MaxFragmentNb()
    ensures |orig| <= |st.bitmap|
    ensures forall i | 0 <= i < |orig| :: st.bitmap[i] <==> i >= r.windowSize
  {
    hide Faithful, RuleIdBits;
    forall i: nat
      ensures i in Arrived(Upto(r.windowSize, |orig|)) <==> r.windowSize <= i < |orig|
    {
      if r.windowSize <= i < |orig| {
        assert Upto(r.windowSize, |orig|)[i - r.windowSize] == i;
      }
    }
  }

  /** Window 0 alone misses data. */
  lemma OnlyFirstShort(r: Rule, n: nat, b: BitString)
    requires 0 < r.windowSize < n <= |b| && forall i | 0 <= i < n :: b[i] <==> i >= r.windowSize
    ensures ShortWindows(r, n, b) == [0]
  {
    hide ShortWindows;
    ShortExact(r, n, b);
    forall w: nat
      ensures w in ShortWindows(r, n, b) <==> w in [0]
    {
      FirstShort(r, n, b, w);
    }
    IncreasingUnique(ShortWindows(r, n, b), [0]);
  }

  lemma FirstShort(r: Rule, n: nat, b: BitString, w: nat)
    requires 0 < r.windowSize < n <= |b| && forall i | 0 <= i < n :: b[i] <==> i >= r.windowSize
    ensures Short(r, n, b, w) <==> w == 0
  {
    if Short(r, n, b, w) {
      var i := MissingIn(r, n, b, w);
      SenderQueues.DivIs(i, r.windowSize, 0);
    }
    if w == 0 {
      SenderQueues.DivIs(0, r.windowSize, 0);
      assert 0 / r.windowSize == 0 && !b[0];
    }
  }

  lemma FirstWindowZero(r: Rule, n: nat, b: BitString)
    requires 0 < r.windowSize < n <= |b| == r.MaxFragmentNb() && 0 < r.MaxWindowNb()
    requires forall i | 0 <= i < n :: b[i] <==> i >= r.windowSize
    ensures WindowBits(r, b, 0) == Repeat(false, r.windowSize)
  {
    assert 0 * r.windowSize == 0;
  }

  /** The failing input for visibility: window 0 of such a packet is lost. The report then is
      eight zero bytes, the sender hears nothing, and no number of rounds brings anything. */
  lemma FirstWindowInvisible(r: Rule, orig: seq<Fragment>, st: Session, k: nat)
    requires FirstWindowLost(r, orig, st)
    ensures Live(r, orig, st) && Receiving(r, orig, st) && orig != [] && |st.bitmap| == r.MaxFragmentNb()
    ensures Trigger(r, All1Of(orig)) && Incomplete(r, st.bitmap, All1Of(orig)) == [0]
    ensures !Visible(r, st.bitmap, All1Of(orig))
    ensures Rounds(r, orig, st, k) == st && !HasAll(orig, st)
  {
    hide *;
    FirstLostBits(r, orig, st);
    var n, b, f := |orig|, st.bitmap, All1Of(orig);
    TracksOf(r, orig, st);
    TracksLive(r, orig, st, Arrived(Upto(r.windowSize, n)));
    LiveParts(r, orig, st);
    ReceivingParts(r, orig, st);
    LiveMarked(r, orig, st);
    MarkedCanonical(r, n, b);
    CanonicalShort(r, f, n, b);
    OnlyFirstShort(r, n, b);
    LacksIs(r, orig, st);
    HasAllIs(r, orig, st);
    FirstWindowZero(r, n, b);
    VisibleExactly(r, b, f);
    WriterPositive(r);
    ReportedOne(r, b, f);
    InvisibleStuck(r, orig, st, k);
  }

  lemma TracksOf(r: Rule, orig: seq<Fragment>, st: Session)
    requires FirstWindowLost(r, orig, st)
    ensures Tracks(r, orig, st, Arrived(Upto(r.windowSize, |orig|)))
  {
    hide Faithful, Tracks, RuleIdBits;
  }

  lemma ReportedOne(r: Rule, b: BitString, f: Fragment)
    requires r.TupleSize() > 0 && |b| == r.MaxFragmentNb() && Trigger(r, f) && Incomplete(r, b, f) == [0]
    requires WriterCapacity(r) >= 1
    ensures Reported(r, b, f) == [0]
  {
    hide Incomplete, Trigger, WriterCapacity;
    assert [0][..1] == [0];
  }

  lemma WriterPositive(r: Rule)
    requires r.WellFormed()
    ensures r.TupleSize() > 0 && WriterCapacity(r) >= 1
  {
  }

  // ---------------------------------------------------------------- given up, though everything is there

  /** The events of a round: the report, and nothing while its fragments are sent again. */
  lemma RoundEvents(r: Rule, orig: seq<Fragment>, st: Session, extra: nat) returns (es: seq<Event>)
    requires Asks(r, orig, st)
    ensures |es| == 1 + |Wanted(r, orig, st)| + extra && Tells(r, orig, st, es[0])
  {
    hide *;
    AsksParts(r, orig, st);
    ReportShape(r, st.bitmap, All1Of(orig));
    var e := Datagram(SessionAck(r, st.bitmap, All1Of(orig)).value.message);
    es := [e] + Timeouts(|Wanted(r, orig, st)| + extra);
    ArrivesIs(r, st.bitmap, All1Of(orig), e);
    TellsFrom(r, orig, st, e);
  }

  lemma ArrivesIs(r: Rule, b: BitString, f: Fragment, e: Event)
    requires |b| == r.MaxFragmentNb() && Trigger(r, f) && SessionAck(r, b, f).Some? && SessionAck(r, b, f).value.Ack?
    requires e == Datagram(SessionAck(r, b, f).value.message)
    ensures ReportArrives(r, b, f, e)
  {
    hide SessionAck, Trigger;
  }

  lemma TellsFrom(r: Rule, orig: seq<Fragment>, st: Session, e: Event)
    requires Asks(r, orig, st) && orig != [] && |st.bitmap| == r.MaxFragmentNb() && Trigger(r, All1Of(orig))
    requires ReportArrives(r, st.bitmap, All1Of(orig), e)
    ensures Tells(r, orig, st, e)
  {
    hide Asks, Trigger, ReportArrives;
  }

  /** Every session whose report is visible has a dialogue. */
  lemma {:induction false} SomeDialogue(r: Rule, orig: seq<Fragment>, st: Session, k: nat) returns (es: seq<Event>)
    requires Repairing(r, orig, st)
    ensures Dialogue(r, orig, st, k, es)
    decreases k
  {
    hide *;
    es := [];
    if k == 0 || !Going(r, orig, st) {
      OverIs(r, orig, st, k);
    } else {
      GoingAsks(r, orig, st);
      RepairingParts(r, orig, st);
      RoundRepairs(r, orig, st);
      var first := RoundEvents(r, orig, st, 0);
      var rest := SomeDialogue(r, orig, Round(r, orig, st), k - 1);
      es := first + rest;
      assert es[|first|..] == rest && es[0] == first[0];
      DialogueFrom(r, orig, st, k, es);
    }
  }

  lemma OverIs(r: Rule, orig: seq<Fragment>, st: Session, k: nat)
    requires Repairing(r, orig, st) && (k == 0 || !Going(r, orig, st))
    ensures Dialogue(r, orig, st, k, [])
  {
    hide Repairing, Going;
  }

  lemma DialogueFrom(r: Rule, orig: seq<Fragment>, st: Session, k: nat, es: seq<Event>)
    requires Repairing(r, orig, st) && k > 0 && Going(r, orig, st) && Asks(r, orig, st) && Receiving(r, orig, st)
    requires Repairing(r, orig, Round(r, orig, st)) && |es| >= 1 + |Wanted(r, orig, st)| && Tells(r, orig, st, es[0])
    requires Dialogue(r, orig, Round(r, orig, st), k - 1, es[1 + |Wanted(r, orig, st)|..])
    ensures Dialogue(r, orig, st, k, es)
  {
    hide Repairing, Going, Asks, Receiving, Round, Wanted, Tells;
  }

  /** A silent pass retransmits nothing. */
  lemma {:induction false} SilentPassDelivers(r: Rule, orig: seq<Fragment>, st: Session, k: nat)
    requires k < |orig| && Sized(r, st)
    ensures PassEvents(r, orig, k, NoAnswers(|orig| - 1), Timeouts(|orig| - 1 - k))
    ensures var log := PassLog(r, orig, k, NoAnswers(|orig| - 1), Timeouts(|orig| - 1 - k));
      Resendable(r, log) && Deliver(r, st, log) == st
    decreases |orig| - k
  {
    hide ExpectsAck, Sized, Resendable, Deliver, AskedFor, Delivers;
    SilentPass(r, orig, k);
    if k < |orig| - 1 {
      assert Timeouts(|orig| - 1 - k)[1..] == Timeouts(|orig| - 1 - (k + 1));
      SilentPassDelivers(r, orig, st, k + 1);
      UnsentDelivers(r, st, Sent(Frg(k), orig[k], false, None));
      DeliverAppend(r, st, [Sent(Frg(k), orig[k], false, None)],
                    PassLog(r, orig, k + 1, NoAnswers(|orig| - 1), Timeouts(|orig| - 1 - (k + 1))));
    } else {
      NothingDelivered(r, st);
    }
  }

  /** All that the sender of a given-up transfer has sent again, as the receiver gets it. */
  lemma AbortedDelivers(r: Rule, st: Session, pass: seq<Sent>, exchange: seq<Sent>, last: seq<Sent>, x: Sent)
    requires Sized(r, st) && Resendable(r, pass) && Deliver(r, st, pass) == st && !x.retransmission
    requires Resendable(r, exchange + last)
    ensures var log := (pass + exchange) + last + [x];
      Resendable(r, log) && Deliver(r, st, log) == Deliver(r, st, exchange + last)
  {
    hide *;
    var sent := exchange + last;
    UnsentDelivers(r, Deliver(r, st, sent), x);
    DeliverAppend(r, st, sent, [x]);
    DeliverAppend(r, st, pass, sent + [x]);
    AppendAssociative(pass, exchange, last);
    AppendAssociative(pass, sent, [x]);
  }

  /** The run ends with a Sender-Abort, although what it retransmits makes the receiver's array
      give back the packet. */
  ghost predicate AbortsDelivered(c: Config, r: Rule, packet: seq<Byte>, orig: seq<Fragment>, st: Session,
                                  es: seq<Event>)
    requires Faithful(r, orig)
  {
    var (s, status) := RunFromStart(c, r, orig, es);
    && status == Ended(SenderAborted)
    && Sized(r, st) && Resendable(r, s.log) && Delivered(r, packet, Deliver(r, st, s.log))
  }

  /** A packet that neither fills its last window nor leaves the All-1 alone in it, and any
      session that stores some of its fragments, the All-1 among them, and whose report, if data
      is missing, is visible: some run ends that way. */
  lemma SomeRunAborts(c: Config, r: Rule, packet: seq<Byte>, orig: seq<Fragment>, st: Session, got: set<nat>)
    returns (es: seq<Event>)
    requires Carries(r, packet, orig) && Stores(r, orig, st, got)
    requires Faithful(r, orig) && Repairing(r, orig, st) && r.AbortDistinct()
    requires 0 < r.windowSize && |orig| % r.windowSize != 0 && (|orig| - 1) % r.windowSize != 0
    ensures AbortsDelivered(c, r, packet, orig, st, es)
  {
    hide *;
    StartPasses(r, orig);
    StoresTracks(r, orig, st, got);
    TracksLive(r, orig, st, got);
    LiveParts(r, orig, st);
    TupleSizeIs(r);
    CapacityPositive(r);
    var k, n := CeilDiv(|Lacks(r, orig, st)|, ReaderCapacity(r)), |orig|;
    var dialogue := SomeDialogue(r, orig, st, k);
    LiveEnds(r, orig, st, k);
    var tail := RoundEvents(r, orig, Talked(r, orig, st, k), 1);
    ReceivingParts(r, orig, st);
    SilentPassDelivers(r, orig, st, 0);
    CourseFrom(r, orig, st, k, NoAnswers(n - 1), Timeouts(n - 1), dialogue);
    LastRoundFrom(r, orig, Talked(r, orig, st, k), tail);
    TransferAborts(c, r, packet, orig, st, got, k, NoAnswers(n - 1), Timeouts(n - 1), dialogue, tail);
    es := Timeouts(n - 1) + dialogue + tail;
    CourseLogIs(r, orig, st, k, NoAnswers(n - 1), Timeouts(n - 1), dialogue);
    AbortedDelivers(r, st, PassLog(r, orig, 0, NoAnswers(n - 1), Timeouts(n - 1)), Exchange(r, orig, st, k),
                    SessionLog(r, orig, Talked(r, orig, st, k)), Sent(AbortSlot, SenderAbort(r), false, None));
    AbortsIs(c, r, packet, orig, st, es);
  }

  lemma CourseLogIs(r: Rule, orig: seq<Fragment>, st: Session, k: nat, answers: seq<Option<BitString>>,
                    first: seq<Event>, es: seq<Event>)
    requires Course(r, orig, st, k, answers, first, es) && Repairing(r, orig, st)
    requires |orig| == |answers| + 1 && PassEvents(r, orig, 0, answers, first)
    ensures CourseLog(r, orig, st, k, answers, first, es)
         == PassLog(r, orig, 0, answers, first) + Exchange(r, orig, st, k)
  {
    hide Course, PassEvents, PassLog, Exchange, Repairing;
  }

  lemma AbortsIs(c: Config, r: Rule, packet: seq<Byte>, orig: seq<Fragment>, st: Session, es: seq<Event>)
    requires Faithful(r, orig)
    requires var (s, status) := RunFromStart(c, r, orig, es);
      && status == Ended(SenderAborted)
      && Sized(r, st) && Resendable(r, s.log) && Delivered(r, packet, Deliver(r, st, s.log))
    ensures AbortsDelivered(c, r, packet, orig, st, es)
  {
    hide Faithful, RunFromStart, Sized, Resendable, Delivered, Deliver;
  }

  lemma CourseFrom(r: Rule, orig: seq<Fragment>, st: Session, k: nat, answers: seq<Option<BitString>>,
                   first: seq<Event>, es: seq<Event>)
    requires Faithful(r, orig) && |orig| == |answers| + 1 && PassEvents(r, orig, 0, answers, first)
    requires Repairing(r, orig, st) && Dialogue(r, orig, st, k, es)
    ensures Course(r, orig, st, k, answers, first, es)
  {
    hide Faithful, PassEvents, Repairing, Dialogue;
  }

  lemma LastRoundFrom(r: Rule, orig: seq<Fragment>, st: Session, es: seq<Event>)
    requires Asks(r, orig, st) && |es| >= 2 + |Wanted(r, orig, st)| && Tells(r, orig, st, es[0])
    ensures LastRound(r, orig, st, es)
  {
    hide Asks, Wanted, Tells;
  }

  // ---------------------------------------------------------------- on the network

  lemma SingleByteSizes(id: int)
    requires 0 <= id < 7
    ensures var r := SingleByte(id);
      && Profile(r) && r.WellFormed() && r.AbortDistinct() && r.PayloadBytes() == 11 && r.MaxWindowNb() == 4
      && r.windowSize == 7 && r.maxPacketSize == 300 && r.ruleIdSize == 3
  {
    SingleByteWellFormed(SingleByte(id));
    Pow2Values();
    hide Rule.WellFormed, Rule.AbortDistinct, Pow2;
    assert SingleByte(id).HeaderLen() == 8;
  }

  /** Its identifier is the number written with three bits. */
  lemma SingleByteId(id: int)
    requires 0 <= id < 7
    ensures RuleIdBits(SingleByte(id)) == Repeat(false, SingleByte(id).ruleIdSize) <==> id == 0
  {
    Pow2Values();
    ConstantImages(id, 3);
    hide IntBits, Pow2;
  }

  lemma FirstSingleByte()
    ensures var r := SingleByte(0);
      && Profile(r) && r.WellFormed() && r.PayloadBytes() == 11 && r.AbortDistinct()
      && r.windowSize == 7 && r.MaxWindowNb() == 4 && r.maxPacketSize == 300
      && RuleIdBits(r) == Repeat(false, r.ruleIdSize)
  {
    hide *;
    SingleByteSizes(0);
    SingleByteId(0);
  }

  /** For the single-byte rule 0, a packet of one byte, one fragment, and an ACK that names
      window 3: the sender leaves its loop without a result code. */
  lemma OneFragmentDrains(c: Config)
    ensures var r := SingleByte(0); r.WellFormed() && 0 < r.windowSize && r.PayloadBytes() > 0 && r.t == 0
    ensures var r, orig := SingleByte(0), FragmentsOf(SingleByte(0), [7]);
      && Faithful(r, orig) && |orig| == 1
      && RunFromStart(c, r, orig, [ReportEvent(r, 3)]).1 == Drained
  {
    hide *;
    FirstSingleByte();
    var r := SingleByte(0);
    OneFragment(r);
    FragmentsAreFaithful(r, [7]);
    var orig := FragmentsOf(r, [7]);
    LaterWindowDrains(c, r, orig, 3);
    LaterIs(r, 1, 3);
    assert Timeouts(0) + [ReportEvent(r, 3)] == [ReportEvent(r, 3)];
  }

  lemma OneFragment(r: Rule)
    requires r == SingleByte(0) && r.PayloadBytes() == 11 && r.maxPacketSize == 300
    ensures r.t == 0 && r.PayloadBytes() > 0 && Accepted(r, [7]) && NbFragments(r, 1) == 1
  {
    hide Rule.PayloadBytes;
  }

  /** For the single-byte rule 0, a packet of fourteen fragments of which the first seven are
      lost: no number of rounds brings any of them. */
  lemma FourteenFragmentsInvisible(k: nat)
    ensures var r := SingleByte(0); r.WellFormed() && 0 < r.windowSize && r.PayloadBytes() > 0 && r.t == 0
    ensures var r, orig := SingleByte(0), FragmentsOf(SingleByte(0), seq(144, _ => 7));
      && Faithful(r, orig) && |orig| == 14 && Sized(r, NewSession(r))
      && (forall k | 0 <= k < 7 :: Upto(7, 14)[k] < |orig| && Numbered(r, orig[Upto(7, 14)[k]]))
      && var st := ReceiveAll(r, NewSession(r), orig, Upto(7, 14));
         Receiving(r, orig, st) && Rounds(r, orig, st, k) == st && !HasAll(orig, st)
  {
    hide *;
    FirstSingleByte();
    var r := SingleByte(0);
    FourteenFragments(r);
    FragmentsAreFaithful(r, seq(144, _ => 7));
    var orig := FragmentsOf(r, seq(144, _ => 7));
    UptoBelow(7, 14);
    ArrivalOrder(r, orig, Upto(7, 14));
    var st := ReceiveAll(r, NewSession(r), orig, Upto(7, 14));
    FirstLostFrom(r, orig, st);
    FirstWindowInvisible(r, orig, st, k);
  }

  lemma FourteenFragments(r: Rule)
    requires r == SingleByte(0) && r.PayloadBytes() == 11 && r.maxPacketSize == 300
    ensures r.t == 0 && r.PayloadBytes() > 0 && Accepted(r, seq(144, _ => 7)) && NbFragments(r, 144) == 14
  {
    hide Rule.PayloadBytes;
  }

  lemma UptoBelow(lo: nat, hi: nat)
    requires lo <= hi
    ensures Indices(Upto(lo, hi), hi)
  {
  }

  lemma FirstLostFrom(r: Rule, orig: seq<Fragment>, st: Session)
    requires Faithful(r, orig) && RuleIdBits(r) == Repeat(false, r.ruleIdSize) && r.windowSize == 7 && |orig| == 14
    requires Tracks(r, orig, st, Arrived(Upto(7, 14)))
    ensures FirstWindowLost(r, orig, st)
  {
    hide Faithful, Tracks, RuleIdBits;
  }

  /** A report whose identifier is not all '0' is visible. */
  lemma NonZeroVisible(r: Rule, orig: seq<Fragment>, st: Session)
    requires Receiving(r, orig, st) && RuleIdBits(r) != Repeat(false, r.ruleIdSize)
    ensures Repairing(r, orig, st)
  {
    hide *;
    ReceivingParts(r, orig, st);
    if Lacks(r, orig, st) != [] {
      LacksReported(r, orig, st);
      VisibleExactly(r, st.bitmap, All1Of(orig));
    }
    RepairingFrom(r, orig, st);
  }

  lemma SecondSingleByte()
    ensures var r := SingleByte(1);
      && Profile(r) && r.WellFormed() && r.PayloadBytes() == 11 && r.AbortDistinct()
      && r.windowSize == 7 && r.maxPacketSize == 300
      && RuleIdBits(r) != Repeat(false, r.ruleIdSize)
  {
    hide *;
    SingleByteSizes(1);
    SingleByteId(1);
  }

  /** For the single-byte rule 1, a packet of ten fragments of which only the first is lost
      before the All-1 arrives: some run of the sender ends with SENDER_ABORTED although what
      it retransmits makes the receiver's array give back the packet. */
  lemma TenFragmentsAborted(c: Config) returns (es: seq<Event>)
    ensures var r := SingleByte(1); r.WellFormed() && 0 < r.windowSize && r.PayloadBytes() > 0 && r.t == 0
    ensures var r, orig := SingleByte(1), FragmentsOf(SingleByte(1), seq(100, _ => 7));
      && Faithful(r, orig) && |orig| == 10 && Sized(r, NewSession(r))
      && (forall k | 0 <= k < 9 :: Upto(1, 10)[k] < |orig| && Numbered(r, orig[Upto(1, 10)[k]]))
      && AbortsDelivered(c, r, seq(100, _ => 7), orig, ReceiveAll(r, NewSession(r), orig, Upto(1, 10)), es)
  {
    hide *;
    SecondSingleByte();
    var r := SingleByte(1);
    TenFragments(r);
    FragmentsAreFaithful(r, seq(100, _ => 7));
    var orig := FragmentsOf(r, seq(100, _ => 7));
    UptoBelow(1, 10);
    ArrivalOrder(r, orig, Upto(1, 10));
    var st := ReceiveAll(r, NewSession(r), orig, Upto(1, 10));
    LastArrived(1, 10);
    TracksLive(r, orig, st, Arrived(Upto(1, 10)));
    LiveParts(r, orig, st);
    NonZeroVisible(r, orig, st);
    CarriesIs(r, seq(100, _ => 7));
    StoresIs(r, orig, st, Arrived(Upto(1, 10)));
    es := SomeRunAborts(c, r, seq(100, _ => 7), orig, st, Arrived(Upto(1, 10)));
  }

  lemma CarriesIs(r: Rule, packet: seq<Byte>)
    requires r.WellFormed() && Accepted(r, packet) && r.PayloadBytes() > 0 && r.t == 0 && 0 < r.windowSize
    ensures |packet| > 0 && Carries(r, packet, FragmentsOf(r, packet))
  {
    hide FragmentsOf;
  }

  lemma StoresIs(r: Rule, orig: seq<Fragment>, st: Session, got: set<nat>)
    requires Tracks(r, orig, st, got) && orig != [] && |orig| - 1 in got
    ensures Stores(r, orig, st, got)
  {
    hide Tracks;
  }

  lemma TenFragments(r: Rule)
    requires r == SingleByte(1) && r.PayloadBytes() == 11 && r.maxPacketSize == 300
    ensures r.t == 0 && r.PayloadBytes() > 0 && Accepted(r, seq(100, _ => 7)) && NbFragments(r, 100) == 10
  {
    hide Rule.PayloadBytes;
  }

  lemma LastArrived(lo: nat, hi: nat)
    requires lo < hi
    ensures hi - 1 in Arrived(Upto(lo, hi))
  {
    assert Upto(lo, hi)[hi - 1 - lo] == hi - 1;
  }
}
