/**
  The repair loop end to end: what the receiver misses, its ACK, and the queue the sender
  builds from that ACK.
 */
module Repair {
  import opened Bits
  import opened Rules
  import opened Fragments
  import FrProcedure
  import opened Acks
  import opened AckProofs
  import opened SenderModel
  import opened SenderQueues
  import opened SenderInvariant
  import opened SessionModel
  import opened SessionProofs

  // ---------------------------------------------------------------- the receiver's side

  /** The windows up to the trigger's that the check finds lossy and the ACK can report. */
  function Incomplete(r: Rule, b: BitString, f: Fragment): seq<nat>
    requires |b| == r.MaxFragmentNb() && Trigger(r, f)
  {
    LossyFrom(LossTable(r, b, f), 0, Window(r, f))
  }

  /** Those of them the sender gets to see: the first few. */
  function SeenWindows(r: Rule, b: BitString, f: Fragment): seq<nat>
    requires r.TupleSize() > 0 && |b| == r.MaxFragmentNb() && Trigger(r, f)
  {
    var ws := Incomplete(r, b, f);
    ws[..Min(|ws|, ReaderCapacity(r))]
  }

  lemma IncompleteExact(r: Rule, b: BitString, f: Fragment)
    requires r.WellFormed() && |b| == r.MaxFragmentNb() && Trigger(r, f)
    ensures var ws := Incomplete(r, b, f);
      && Increasing(ws)
      && (forall k | 0 <= k < |ws| :: ws[k] <= Window(r, f) && ws[k] < r.MaxWindowNb())
      && forall w: nat :: w in ws <==>
           w <= Window(r, f) && w < r.MaxWindowNb()
           && WindowLost(r, b, f, w) && !Monochar(WindowBits(r, b, w), true)
  {
    hide WindowLost, WindowBits, Monochar, LossyFrom;
    var ws := Incomplete(r, b, f);
    assert 0 <= Window(r, f) < r.MaxWindowNb();
    TableExact(r, b, f);
    LossyExact(LossTable(r, b, f), 0, Window(r, f));
    forall k | 0 <= k < |ws|
      ensures ws[k] <= Window(r, f) && ws[k] < r.MaxWindowNb()
    {
      assert ws[k] in ws;
    }
  }

  /** The marks an All-1 with this RCS expects of position `j` of its own window: one for every
      fragment before it, and one in the last position. */
  predicate Expected(r: Rule, f: Fragment, j: nat) {
    j + 1 < BinToInt(Rcs(r, f)) || j == r.windowSize - 1
  }

  /** The mark of the fragment at position `j` of window `w`. */
  predicate MarkAt(ws: nat, b: BitString, w: nat, j: nat) {
    var i := w * ws + j;
    i < |b| && b[i]
  }

  lemma MarkIs(r: Rule, b: BitString, w: nat, j: nat)
    requires |b| == r.MaxFragmentNb() && w < r.MaxWindowNb() && j < r.windowSize
    ensures WindowBits(r, b, w)[j] == MarkAt(r.windowSize, b, w, j)
  {
    hide WindowBits;
    WindowBitAt(r, b, w, j);
  }

  /** The check's verdict on a window, mark by mark: some fragment is not marked; but in its own
      window an All-1 wants the expected marks, and no others. */
  lemma WindowLostMarks(r: Rule, b: BitString, f: Fragment, w: nat)
    requires r.WellFormed() && |b| == r.MaxFragmentNb() && Trigger(r, f) && w < r.MaxWindowNb()
    ensures WindowLost(r, b, f, w) <==>
      if IsAll1(r, f) && w == Window(r, f) then
        exists j | 0 <= j < r.windowSize :: MarkAt(r.windowSize, b, w, j) != Expected(r, f, j)
      else exists j | 0 <= j < r.windowSize :: !MarkAt(r.windowSize, b, w, j)
    ensures Monochar(WindowBits(r, b, w), true) <==> forall j | 0 <= j < r.windowSize :: MarkAt(r.windowSize, b, w, j)
  {
    hide *;
    LostMarks(r, b, f, w);
    forall j | 0 <= j < r.windowSize
      ensures WindowBits(r, b, w)[j] == MarkAt(r.windowSize, b, w, j)
    {
      MarkIs(r, b, w, j);
    }
  }

  /** The windows an ACK can report, mark by mark: up to the trigger's, with a fragment that is
      not marked; and under an All-1 its own window only if its marks are not the expected ones. */
  lemma IncompleteMarks(r: Rule, b: BitString, f: Fragment, w: nat)
    requires r.WellFormed() && |b| == r.MaxFragmentNb() && Trigger(r, f) && w < r.MaxWindowNb()
    ensures w in Incomplete(r, b, f) <==>
      && w <= Window(r, f)
      && (exists j | 0 <= j < r.windowSize :: !MarkAt(r.windowSize, b, w, j))
      && (IsAll1(r, f) && w == Window(r, f) ==>
            exists j | 0 <= j < r.windowSize :: MarkAt(r.windowSize, b, w, j) != Expected(r, f, j))
  {
    hide *;
    IncompleteExact(r, b, f);
    WindowLostMarks(r, b, f, w);
  }

  lemma LostMarks(r: Rule, b: BitString, f: Fragment, w: nat)
    requires r.WellFormed() && |b| == r.MaxFragmentNb() && Trigger(r, f) && w < r.MaxWindowNb()
    ensures var bits := WindowBits(r, b, w);
      && (Monochar(bits, true) <==> forall j | 0 <= j < r.windowSize :: bits[j])
      && (WindowLost(r, b, f, w) <==>
            if IsAll1(r, f) && w == Window(r, f) then exists j | 0 <= j < r.windowSize :: bits[j] != Expected(r, f, j)
            else exists j | 0 <= j < r.windowSize :: !bits[j])
  {
    hide WindowBits, IsAll1, Window, Rcs, Rule.MaxFragmentNb, Rule.MaxWindowNb;
    var bits := WindowBits(r, b, w);
    if IsAll1(r, f) && w == Window(r, f) {
      var e := ExpectedBits(r.windowSize, BinToInt(Rcs(r, f)));
      assert forall j | 0 <= j < r.windowSize :: e[j] == Expected(r, f, j);
      assert bits == e <==> forall j | 0 <= j < r.windowSize :: bits[j] == e[j];
    }
  }

  /** The tuples the sender reads are the seen windows with the session's own bitmaps. */
  ghost predicate TuplesAre(r: Rule, b: BitString, seen: seq<nat>, ts: seq<Tuple>)
    requires |b| == r.MaxFragmentNb()
  {
    && |ts| == |seen|
    && (forall k | 0 <= k < |seen| :: seen[k] < r.MaxWindowNb())
    && (forall k | 0 <= k < |ts| :: TupleShape(r, ts[k]) && WindowNb(ts[k]) == seen[k]
                                    && ts[k].bitmap == WindowBits(r, b, seen[k]))
  }

  lemma TuplesOfAre(r: Rule, b: BitString, f: Fragment, seen: seq<nat>)
    requires r.WellFormed() && |b| == r.MaxFragmentNb() && Trigger(r, f)
    requires forall k | 0 <= k < |seen| ::
      seen[k] <= Window(r, f) && seen[k] < r.MaxWindowNb() && WindowLost(r, b, f, seen[k])
    ensures Below(seen, |LossTable(r, b, f)|)
    ensures TuplesAre(r, b, seen, TuplesOf(r, LossTable(r, b, f), seen))
  {
    assert forall k | 0 <= k < |seen| :: LossTable(r, b, f)[seen[k]] == WindowBits(r, b, seen[k]);
    hide WindowLost, WindowBits, Trigger, LossTable;
    forall k | 0 <= k < |seen|
      ensures BinToInt(IntBits(seen[k], r.m)) == seen[k]
    {
      SmallRoundTrip(seen[k], r.m);
    }
  }

  lemma SeenExact(r: Rule, b: BitString, f: Fragment)
    requires r.WellFormed() && |b| == r.MaxFragmentNb() && Trigger(r, f) && Incomplete(r, b, f) != []
    ensures AnyLost(r, b, f)
    ensures var seen := SeenWindows(r, b, f);
      && seen != [] && Increasing(seen)
      && forall k | 0 <= k < |seen| ::
           seen[k] <= Window(r, f) && seen[k] < r.MaxWindowNb() && WindowLost(r, b, f, seen[k])
  {
    hide WindowLost, WindowBits, Trigger, LossTable, Monochar, LossyFrom, Incomplete, Slots;
    var ws, seen := Incomplete(r, b, f), SeenWindows(r, b, f);
    IncompleteExact(r, b, f);
    assert forall k | 0 <= k < |seen| :: seen[k] == ws[k] && ws[k] in ws;
    assert WindowLost(r, b, f, seen[0]);
  }

  /** Tuples of increasing windows make an increasing ACK, and its last window is the greatest. */
  lemma IncreasingTuples(r: Rule, b: BitString, seen: seq<nat>, a: CompoundAck)
    requires r.TupleSize() > 0 && |b| == r.MaxFragmentNb() && seen != [] && Increasing(seen)
    requires TuplesAre(r, b, seen, Tuples(r, a))
    ensures Shaped(r, Tuples(r, a)) && IncreasingAck(r, a) && Greatest(r, a) == seen[|seen| - 1]
  {
    hide Tuples, WindowBits, WindowNb;
    var ts := Tuples(r, a);
    assert forall k | 0 <= k < |ts| :: WindowNb(ts[k]) == seen[k];
  }

  lemma SessionTuples(r: Rule, b: BitString, f: Fragment)
    requires r.WellFormed() && |b| == r.MaxFragmentNb() && Trigger(r, f) && Incomplete(r, b, f) != []
    ensures SessionAck(r, b, f).Some?
    ensures var a := SessionAck(r, b, f).value;
      && a.Ack? && |a.message| == DOWNLINK_MTU_BYTES
      && TuplesAre(r, b, SeenWindows(r, b, f), Tuples(r, a))
  {
    SeenExact(r, b, f);
    TableExact(r, b, f);
    CompoundAckRoundTrip(r, LossTable(r, b, f), Window(r, f));
    TuplesOfAre(r, b, f, SeenWindows(r, b, f));
    hide WindowLost, WindowBits, Trigger, LossTable, Monochar, Tuples, TuplesOf, LossyFrom, TuplesAre;
  }

  /** On the network: every incomplete window for single byte, the first three for option 1,
      the first one for option 2. */
  lemma SeenCounts(r: Rule, b: BitString, f: Fragment)
    requires Profile(r) && |b| == r.MaxFragmentNb() && Trigger(r, f)
    ensures r.WellFormed()
    ensures var ws := Incomplete(r, b, f);
      SeenWindows(r, b, f) == ws[..Min(|ws|, if r.ruleIdSize == 3 then 4 else if r.ruleIdSize == 6 then 3 else 1)]
  {
    ProfileWellFormed(r);
    IncompleteExact(r, b, f);
    TableExact(r, b, f);
    hide Trigger, LossyFrom, LossTable, WindowLost, Window, WindowBits, Slots;
    SeenOnTheNetwork(r, LossTable(r, b, f), Window(r, f));
    Pow2Values();
    FewWindows(Incomplete(r, b, f), r.MaxWindowNb());
  }

  lemma {:induction false} FewWindows(ws: seq<nat>, bound: nat)
    requires Increasing(ws) && forall k | 0 <= k < |ws| :: ws[k] < bound
    ensures |ws| <= bound
  {
    if ws != [] {
      FewWindows(ws[..|ws| - 1], ws[|ws| - 1]);
    }
  }

  lemma BitOf(r: Rule, b: BitString, i: nat)
    requires 0 < r.windowSize && i < |b| == r.MaxFragmentNb()
    ensures i / r.windowSize < r.MaxWindowNb()
    ensures WindowBits(r, b, i / r.windowSize)[i % r.windowSize] == b[i]
  {
    WindowInRange(i, r.windowSize, r.MaxWindowNb());
    WindowBitAt(r, b, i / r.windowSize, i % r.windowSize);
    hide WindowBits;
    assert i / r.windowSize * r.windowSize == r.windowSize * (i / r.windowSize);
  }

  /** Fragment `i` is missing from the bitmap and its window is one the sender sees. */
  lemma ReportedIs(r: Rule, b: BitString, seen: seq<nat>, ts: seq<Tuple>, i: nat)
    requires 0 < r.windowSize && |b| == r.MaxFragmentNb() && TuplesAre(r, b, seen, ts) && i < |b|
    ensures ReportedLost(r, ts, i) <==> i / r.windowSize in seen && !b[i]
  {
    hide WindowBits;
    BitOf(r, b, i);
    if i / r.windowSize in seen {
      var k :| 0 <= k < |seen| && seen[k] == i / r.windowSize;
      assert WindowNb(ts[k]) == seen[k];
    }
  }

  // ---------------------------------------------------------------- the sender's side

  /** The retransmission queue an exact repair asks for: the increasing list of the fragments
      below the All-1 that are missing in the windows seen. */
  ghost predicate RepairQueue(r: Rule, n: nat, b: BitString, seen: seq<nat>, q: seq<Ref>)
    requires 0 < r.windowSize && n <= |b|
  {
    && RefsIncreasing(q)
    && forall i: nat :: Frg(i) in q <==> i < n - 1 && !b[i] && i / r.windowSize in seen
  }

  /** The sender gives up seeing these windows of `b`: it deems the packet's last one loss-free,
      because the positions before the All-1 are all '1' or, when there are none, the last
      position of the window is. */
  predicate GivesUpSeeing(r: Rule, n: nat, b: BitString, seen: seq<nat>)
    requires 0 < r.windowSize && 0 < n <= |b| == r.MaxFragmentNb()
    requires seen != [] && seen[|seen| - 1] < r.MaxWindowNb()
  {
    var last, data := (n - 1) / r.windowSize, (n - 1) % r.windowSize;
    && seen[|seen| - 1] == last
    && var bits := WindowBits(r, b, last);
       if data == 0 then bits[r.windowSize - 1] else Monochar(bits[..data], true)
  }

  /** No window seen has an all-'1' bitmap. */
  lemma SeenHaveLosses(r: Rule, b: BitString, f: Fragment, ts: seq<Tuple>)
    requires r.WellFormed() && |b| == r.MaxFragmentNb() && Trigger(r, f)
    requires TuplesAre(r, b, SeenWindows(r, b, f), ts) && ts != []
    ensures var seen := SeenWindows(r, b, f);
      && seen != [] && Increasing(seen)
      && (forall k | 0 <= k < |seen| :: seen[k] <= Window(r, f) && seen[k] < r.MaxWindowNb())
      && forall k | 0 <= k < |ts| :: WindowNb(ts[k]) == seen[k] && !Monochar(ts[k].bitmap, true)
  {
    var seen := SeenWindows(r, b, f);
    IncompleteExact(r, b, f);
    hide Trigger, WindowLost, Window, IsAll1, LossTable, Monochar, Incomplete, WindowBits, Slots;
    forall k | 0 <= k < |seen|
      ensures seen[k] in Incomplete(r, b, f) && seen[k] <= Window(r, f) && seen[k] < r.MaxWindowNb()
      ensures !Monochar(ts[k].bitmap, true)
    {
      assert seen[k] == Incomplete(r, b, f)[k];
    }
  }

  /** A tuple of an earlier window with losses does not stop update_queues. */
  lemma EarlierGoesOn(r: Rule, n: nat, last: int, t: Tuple)
    requires r.windowSize > 0 && n > 0 && TupleShape(r, t) && WindowNb(t) != last && !Monochar(t.bitmap, true)
    ensures !GivesUpAt(r, n, last, t)
  {
    hide Monochar, WindowNb;
  }

  /** A tuple of the last window stops it exactly when the sender deems that window loss-free. */
  lemma GivesUpAtLast(r: Rule, n: nat, b: BitString, seen: seq<nat>, t: Tuple)
    requires 0 < r.windowSize && 0 < n <= |b| == r.MaxFragmentNb() && seen != []
    requires seen[|seen| - 1] < r.MaxWindowNb() && TupleShape(r, t)
    requires WindowNb(t) == seen[|seen| - 1] && t.bitmap == WindowBits(r, b, seen[|seen| - 1])
    requires !Monochar(t.bitmap, true)
    ensures GivesUpAt(r, n, (n - 1) / r.windowSize, t) <==> GivesUpSeeing(r, n, b, seen)
  {
    hide WindowBits, WindowNb;
    if seen[|seen| - 1] != (n - 1) / r.windowSize {
      EarlierGoesOn(r, n, (n - 1) / r.windowSize, t);
    }
  }

  lemma OnlyLastMayStop(r: Rule, b: BitString, f: Fragment, n: nat, ts: seq<Tuple>)
    requires r.WellFormed() && 0 < n <= |b| == r.MaxFragmentNb() && Trigger(r, f)
    requires Window(r, f) <= (n - 1) / r.windowSize
    requires TuplesAre(r, b, SeenWindows(r, b, f), ts) && Shaped(r, ts) && ts != []
    ensures var last, seen := (n - 1) / r.windowSize, SeenWindows(r, b, f);
      && (forall k | 0 <= k < |ts| - 1 :: !GivesUpAt(r, n, last, ts[k]))
      && seen != [] && seen[|seen| - 1] < r.MaxWindowNb()
      && (GivesUpAt(r, n, last, ts[|ts| - 1]) <==> GivesUpSeeing(r, n, b, seen))
  {
    hide Trigger, Window, GivesUpAt, GivesUpSeeing, SeenWindows, Monochar, WindowBits, WindowNb;
    var last, seen := (n - 1) / r.windowSize, SeenWindows(r, b, f);
    SeenHaveLosses(r, b, f, ts);
    forall k | 0 <= k < |ts| - 1
      ensures !GivesUpAt(r, n, last, ts[k])
    {
      assert seen[k] < seen[|seen| - 1];
      EarlierGoesOn(r, n, last, ts[k]);
    }
    GivesUpAtLast(r, n, b, seen, ts[|ts| - 1]);
  }

  lemma LossesAreRepair(r: Rule, n: nat, b: BitString, seen: seq<nat>, ts: seq<Tuple>)
    requires 0 < r.windowSize && r.m <= 31 && 0 < n <= |b| == r.MaxFragmentNb()
    requires TuplesAre(r, b, seen, ts) && Shaped(r, ts)
    requires WindowsWithin(ts, 0, (n - 1) / r.windowSize)
    requires forall k | 0 <= k < |ts| - 1 :: !GivesUpAt(r, n, (n - 1) / r.windowSize, ts[k])
    ensures RepairQueue(r, n, b, seen, LossRefs(r, n, (n - 1) / r.windowSize, ts))
  {
    hide WindowBits, TuplesAre, ReportedLost, GivesUpAt, LossRefs;
    var last := (n - 1) / r.windowSize;
    var q := LossRefs(r, n, last, ts);
    LossRefsOrdered(r, n, last, ts, 0);
    LossRefsSound(r, n, last, ts, 0);
    LossRefsComplete(r, n, last, ts, 0);
    forall i: nat
      ensures Frg(i) in q <==> i < n - 1 && !b[i] && i / r.windowSize in seen
    {
      if i < n - 1 {
        ReportedIs(r, b, seen, ts, i);
      }
    }
  }

  lemma GivesUpOnIs(r: Rule, n: nat, last: int, ts: seq<Tuple>)
    requires 0 < r.windowSize && n > 0 && Shaped(r, ts) && ts != []
    requires forall k | 0 <= k < |ts| - 1 :: !GivesUpAt(r, n, last, ts[k])
    ensures GivesUpOn(r, n, last, ts) <==> GivesUpAt(r, n, last, ts[|ts| - 1])
  {
    hide GivesUpAt;
    GivesUpOnWhen(r, n, last, ts);
  }

  /** A sender that has just sent `ref`, the fragment `f` that made the session check bitmap `b`. */
  ghost predicate Asking(r: Rule, s: Sender, ref: Ref, b: BitString, f: Fragment) {
    && Grounded(r, s) && InRange(s, ref) && Deref(s, ref) == f && s.rq == []
    && |s.frs| <= |b| == r.MaxFragmentNb()
    && Trigger(r, f) && Window(r, f) <= s.lastWindow
    && Incomplete(r, b, f) != []
  }

  /** What an exact repair leaves behind: in the retransmission queue exactly the fragments
      missing from the windows seen, in increasing order, and otherwise only the All-1 again
      in the transmission queue, or a Sender-Abort if the sender deems the last window
      loss-free. */
  ghost predicate Repaired(r: Rule, s: Sender, ref: Ref, b: BitString, f: Fragment, s': Sender)
    requires r.TupleSize() > 0 && Asking(r, s, ref, b, f)
  {
    var seen := SeenWindows(r, b, f);
    && seen != [] && seen[|seen| - 1] < r.MaxWindowNb()
    && RepairQueue(r, |s.frs|, b, seen, s'.rq)
    && s' == AfterLosses(r, s.(rq := s'.rq), ref, GivesUpSeeing(r, |s.frs|, b, seen))
  }

  /** End-to-end repair is exact, through the bitmap check, the ACK it generates, its eight
      bytes, the tuples read from them and update_queues. */
  lemma RepairExact(r: Rule, s: Sender, ref: Ref, b: BitString, f: Fragment)
    requires r.WellFormed() && Asking(r, s, ref, b, f)
    ensures |b| == r.MaxFragmentNb() && Trigger(r, f) && s.frs != [] && InRange(s, ref)
    ensures SessionAck(r, b, f).Some?
    ensures var a := SessionAck(r, b, f).value;
      && a.Ack? && |a.message| == DOWNLINK_MTU_BYTES
      && Repaired(r, s, ref, b, f, UpdateQueues(r, s, ref, a))
  {
    hide *;
    AckForAsking(r, s, ref, b, f);
    RepairFrom(r, s, ref, b, f, SessionAck(r, b, f).value);
  }

  /** What the session's ACK tells a sender that is asking. */
  ghost predicate Answers(r: Rule, s: Sender, ref: Ref, b: BitString, f: Fragment, a: CompoundAck)
    requires Asking(r, s, ref, b, f) && r.m <= 31
  {
    var n, seen := |s.frs|, SeenWindows(r, b, f);
    && a.Ack? && |a.message| == DOWNLINK_MTU_BYTES
    && Shaped(r, Tuples(r, a)) && TuplesAre(r, b, seen, Tuples(r, a))
    && IncreasingAck(r, a) && Greatest(r, a) <= Window(r, f)
    && (forall k | 0 <= k < |Tuples(r, a)| - 1 :: !GivesUpAt(r, n, s.lastWindow, Tuples(r, a)[k]))
    && seen != [] && seen[|seen| - 1] < r.MaxWindowNb()
    && (GivesUpAt(r, n, s.lastWindow, Tuples(r, a)[|Tuples(r, a)| - 1]) <==> GivesUpSeeing(r, n, b, seen))
  }

  lemma AckForAsking(r: Rule, s: Sender, ref: Ref, b: BitString, f: Fragment)
    requires r.WellFormed() && Asking(r, s, ref, b, f)
    ensures s.frs != [] && InRange(s, ref) && r.m <= 31 && 0 < r.windowSize && |b| == r.MaxFragmentNb() && Trigger(r, f)
    ensures SessionAck(r, b, f).Some? && Answers(r, s, ref, b, f, SessionAck(r, b, f).value)
  {
    hide Trigger, SessionAck, Incomplete, SeenWindows, WindowLost, Tuples, TuplesAre, GivesUpAt, GivesUpSeeing, IsAll1,
         Window;
    SessionTuples(r, b, f);
    SeenExact(r, b, f);
    IncreasingTuples(r, b, SeenWindows(r, b, f), SessionAck(r, b, f).value);
    OnlyLastMayStop(r, b, f, |s.frs|, Tuples(r, SessionAck(r, b, f).value));
  }

  lemma RepairFrom(r: Rule, s: Sender, ref: Ref, b: BitString, f: Fragment, a: CompoundAck)
    requires r.WellFormed() && Asking(r, s, ref, b, f) && Answers(r, s, ref, b, f, a)
    ensures a.Ack? && |a.message| == DOWNLINK_MTU_BYTES && s.frs != [] && InRange(s, ref)
    ensures Repaired(r, s, ref, b, f, UpdateQueues(r, s, ref, a))
  {
    hide *;
    AnswersParts(r, s, ref, b, f, a);
    var n, ts := |s.frs|, Tuples(r, a);
    LossesAreRepair(r, n, b, SeenWindows(r, b, f), ts);
    GivesUpOnIs(r, n, s.lastWindow, ts);
    QueueLossesIs(r, s, ref, ts, 0);
    assert [] + LossRefs(r, n, s.lastWindow, ts) == LossRefs(r, n, s.lastWindow, ts);
    RepairedIs(r, s, ref, b, f, a);
  }

  lemma AnswersParts(r: Rule, s: Sender, ref: Ref, b: BitString, f: Fragment, a: CompoundAck)
    requires r.WellFormed() && Asking(r, s, ref, b, f) && Answers(r, s, ref, b, f, a)
    ensures a.Ack? && |a.message| == DOWNLINK_MTU_BYTES && s.frs != [] && InRange(s, ref) && s.rq == []
    ensures 0 < r.windowSize && r.m <= 31 && 0 < |s.frs| <= |b| == r.MaxFragmentNb() && Trigger(r, f)
    ensures s.lastWindow == (|s.frs| - 1) / r.windowSize && r.TupleSize() > 0
    ensures var ts, n, seen := Tuples(r, a), |s.frs|, SeenWindows(r, b, f);
      && TuplesAre(r, b, seen, ts) && Shaped(r, ts) && ts != []
      && WindowsWithin(ts, 0, s.lastWindow) && Collecting(r, s, ref, ts, 0)
      && (forall k | 0 <= k < |ts| - 1 :: !GivesUpAt(r, n, s.lastWindow, ts[k]))
  {
    hide Trigger, Incomplete, SeenWindows, TuplesAre, GivesUpAt, GivesUpSeeing, IsAll1, Window, Tuples;
  }

  /** update_queues on such an ACK, put together. */
  lemma RepairedIs(r: Rule, s: Sender, ref: Ref, b: BitString, f: Fragment, a: CompoundAck)
    requires r.WellFormed() && Asking(r, s, ref, b, f) && Answers(r, s, ref, b, f, a)
    requires s.frs != [] && InRange(s, ref) && Shaped(r, Tuples(r, a)) && 0 < r.windowSize && r.m <= 31
    requires var n, ts := |s.frs|, Tuples(r, a);
      && RepairQueue(r, n, b, SeenWindows(r, b, f), LossRefs(r, n, s.lastWindow, ts))
      && (GivesUpOn(r, n, s.lastWindow, ts) <==> GivesUpAt(r, n, s.lastWindow, ts[|ts| - 1]))
      && QueueLosses(r, s, ref, ts)
         == AfterLosses(r, s.(rq := LossRefs(r, n, s.lastWindow, ts)), ref, GivesUpOn(r, n, s.lastWindow, ts))
    ensures a.Ack? && |a.message| == DOWNLINK_MTU_BYTES
    ensures Repaired(r, s, ref, b, f, UpdateQueues(r, s, ref, a))
  {
    hide Trigger, Incomplete, SeenWindows, TuplesAre, GivesUpAt, GivesUpSeeing, IsAll1, Window, Tuples, RepairQueue,
         LossRefs, GivesUpOn, QueueLosses, Greatest, IncreasingAck, AbortFrom;
  }

  // ---------------------------------------------------------------- canonical last windows

  /** In the last window the All-1's bit is at the end and the unused positions before it are '0'. */
  predicate Canonical(r: Rule, n: nat, b: BitString)
    requires 0 < r.windowSize && 0 < n <= |b| == r.MaxFragmentNb()
    requires (n - 1) / r.windowSize < r.MaxWindowNb()
  {
    var bits, data := WindowBits(r, b, (n - 1) / r.windowSize), (n - 1) % r.windowSize;
    bits[r.windowSize - 1] && forall j | data <= j < r.windowSize - 1 :: !bits[j]
  }

  lemma CanonicalComplete(ws: nat, data: nat, bits: BitString)
    requires 2 <= ws == |bits| && data < ws
    requires bits[ws - 1] && forall j | data <= j < ws - 1 :: !bits[j]
    ensures bits == ExpectedBits(ws, data + 1) <==> data == 0 || Monochar(bits[..data], true)
  {
    var e := ExpectedBits(ws, data + 1);
    if data == 0 || Monochar(bits[..data], true) {
      assert forall j | 0 <= j < data :: bits[..data][j];
      assert bits == e;
    }
    if bits == e && data > 0 {
      assert forall j | 0 <= j < data :: bits[..data][j] == e[j];
    }
  }

  /** `f` is the All-1 of a packet of `n` fragments. */
  ghost predicate IsLastOf(r: Rule, f: Fragment, n: nat) {
    && 2 <= r.windowSize && 1 <= n <= r.MaxFragmentNb()
    && Trigger(r, f) && IsAll1(r, f)
    && 0 <= (n - 1) / r.windowSize == Window(r, f) < r.MaxWindowNb()
    && BinToInt(Rcs(r, f)) == (n - 1) % r.windowSize + 1
  }

  lemma All1IsLast(r: Rule, frs: seq<Fragment>)
    requires FrProcedure.Faithful(r, frs)
    ensures frs != [] && IsLastOf(r, All1Of(frs), |frs|)
  {
    All1Trigger(r, frs);
    assert 1 <= |frs| <= r.MaxFragmentNb();
    hide FrProcedure.Faithful, Trigger, IsAll1, Window, Rcs, All1Of;
  }

  /** With a canonical last window the sender never gives the packet up, so after an All-1
      the transmission queue gets the All-1 again. */
  lemma CanonicalNeverGivesUp(r: Rule, f: Fragment, n: nat, b: BitString)
    requires r.WellFormed() && IsLastOf(r, f, n) && |b| == r.MaxFragmentNb()
    requires Canonical(r, n, b) && Incomplete(r, b, f) != []
    ensures var seen := SeenWindows(r, b, f);
      seen != [] && seen[|seen| - 1] < r.MaxWindowNb() && !GivesUpSeeing(r, n, b, seen)
  {
    hide Incomplete, SeenWindows, Rcs, IsAll1, Trigger, Window;
    SeenExact(r, b, f);
    var seen, last := SeenWindows(r, b, f), (n - 1) / r.windowSize;
    CanonicalComplete(r.windowSize, (n - 1) % r.windowSize, WindowBits(r, b, last));
    assert seen[|seen| - 1] == last ==> WindowLost(r, b, f, last);
  }
}
