/**
  Live receiver sessions: what they report of the packet's last window, and when the sender
  answers with a Sender-Abort.
 */
module LiveSessions {
  import opened Bits
  import opened Rules
  import opened Fragments
  import FrProcedure
  import opened AckProofs
  import opened SessionModel
  import opened SessionProofs
  import opened Delivery
  import opened Repair
  import opened Progress

  // ---------------------------------------------------------------- live sessions

  /** A session in which the All-1 has arrived and been marked, and nothing behind it. */
  ghost predicate Live(r: Rule, frs: seq<Fragment>, st: Session) {
    && Receiving(r, frs, st) && 0 < |frs| <= |st.bitmap|
    && st.bitmap[|frs| - 1] && forall i | |frs| <= i < |st.bitmap| :: !st.bitmap[i]
  }

  /** Whatever has arrived besides the All-1, in whatever order, the session is live. */
  lemma TracksLive(r: Rule, frs: seq<Fragment>, st: Session, got: set<nat>)
    requires FrProcedure.Faithful(r, frs) && Tracks(r, frs, st, got) && |frs| - 1 in got
    ensures Live(r, frs, st)
  {
    hide *;
    FrProcedure.FaithfulSizes(r, frs);
    FaithfulIndexed(r, frs);
    All1IsLast(r, frs);
    IsLastSizes(r, All1Of(frs), |frs|);
    TrackedBitmap(r, frs, st, got);
    TrackedReceives(r, frs, st);
    LiveFrom(r, frs, st);
  }

  lemma TrackedBitmap(r: Rule, frs: seq<Fragment>, st: Session, got: set<nat>)
    requires Tracks(r, frs, st, got) && frs != [] && |frs| - 1 in got
    ensures Sized(r, st) && |st.bitmap| == r.MaxFragmentNb() && |frs| <= |st.bitmap| && st.bitmap[|frs| - 1]
    ensures forall i | |frs| <= i < |st.bitmap| :: !st.bitmap[i]
  {
  }

  lemma TrackedReceives(r: Rule, frs: seq<Fragment>, st: Session)
    requires r.WellFormed() && Indexed(r, frs) && frs != [] && IsLastOf(r, All1Of(frs), |frs|) && Sized(r, st)
    ensures Receiving(r, frs, st)
  {
    hide Indexed, Trigger, IsAll1, Rcs;
  }

  lemma LiveFrom(r: Rule, frs: seq<Fragment>, st: Session)
    requires Receiving(r, frs, st) && 0 < |frs| <= |st.bitmap| && st.bitmap[|frs| - 1]
    requires forall i | |frs| <= i < |st.bitmap| :: !st.bitmap[i]
    ensures Live(r, frs, st)
  {
    hide Receiving;
  }

  lemma LiveParts(r: Rule, frs: seq<Fragment>, st: Session)
    requires Live(r, frs, st)
    ensures Receiving(r, frs, st) && 2 <= r.windowSize && 0 < |frs| <= |st.bitmap|
    ensures |st.bitmap| == r.MaxFragmentNb() && (|frs| - 1) / r.windowSize < r.MaxWindowNb()
    ensures st.bitmap[|frs| - 1] && forall i | |frs| <= i < |st.bitmap| :: !st.bitmap[i]
  {
    ReceivingParts(r, frs, st);
    hide Receiving;
  }

  /** A round marks only fragments below the All-1. */
  lemma RoundMarksBelow(r: Rule, frs: seq<Fragment>, st: Session)
    requires Receiving(r, frs, st)
    ensures |Round(r, frs, st).bitmap| == |st.bitmap|
    ensures forall i | |frs| - 1 <= i < |st.bitmap| :: Round(r, frs, st).bitmap[i] == st.bitmap[i]
  {
    ReceivingParts(r, frs, st);
    hide Incomplete, Visible, AskedFor, IsLastOf, Indexed, Round, Receiving, Concerns, Trigger, SeenWindows;
    var f, b := All1Of(frs), st.bitmap;
    if Incomplete(r, b, f) != [] && Visible(r, b, f) {
      RoundMarks(r, frs, st);
      AskedForIsRepair(r, |frs|, b, f);
    } else {
      UnseenRound(r, frs, st);
    }
  }

  lemma RoundLive(r: Rule, frs: seq<Fragment>, st: Session)
    requires Live(r, frs, st)
    ensures Receiving(r, frs, st) && Live(r, frs, Round(r, frs, st))
  {
    hide Live, Receiving, Round;
    LiveParts(r, frs, st);
    RoundMarksBelow(r, frs, st);
    LiveFrom(r, frs, Round(r, frs, st));
  }

  /** The last window of a live session: '1' for the All-1, '0' behind it. */
  lemma LiveBits(r: Rule, n: nat, b: BitString)
    requires 2 <= r.windowSize && 0 < n <= |b| == r.MaxFragmentNb() && (n - 1) / r.windowSize < r.MaxWindowNb()
    requires b[n - 1] && forall i | n <= i < |b| :: !b[i]
    ensures var bits, data := WindowBits(r, b, (n - 1) / r.windowSize), (n - 1) % r.windowSize;
      bits[data] && forall j | data < j < r.windowSize :: !bits[j]
  {
    hide WindowBits;
    var last, data := (n - 1) / r.windowSize, (n - 1) % r.windowSize;
    LastPosition(n, r.windowSize, r.MaxWindowNb());
    forall j | data <= j < r.windowSize
      ensures WindowBits(r, b, last)[j] == (j == data)
    {
      WindowBitAt(r, b, last, j);
    }
  }

  /** A bitmap of a packet of `n` fragments with the All-1 marked and nothing behind it. */
  ghost predicate All1Marked(r: Rule, n: nat, b: BitString) {
    && 2 <= r.windowSize && 0 < n <= |b| && |b| == r.MaxFragmentNb() && (n - 1) / r.windowSize < r.MaxWindowNb()
    && b[n - 1] && forall i | n <= i < |b| :: !b[i]
  }

  /** The last window is then canonical exactly when the packet fills it. */
  lemma MarkedCanonical(r: Rule, n: nat, b: BitString)
    requires All1Marked(r, n, b)
    ensures 0 < r.windowSize && 0 < n <= |b| && |b| == r.MaxFragmentNb() && (n - 1) / r.windowSize < r.MaxWindowNb()
    ensures Canonical(r, n, b) <==> n % r.windowSize == 0
  {
    hide WindowBits;
    LiveBits(r, n, b);
    LastPosition(n, r.windowSize, r.MaxWindowNb());
    FullIffMultiple(n, r.windowSize);
    All1AtEnd(r.windowSize, (n - 1) % r.windowSize, WindowBits(r, b, (n - 1) / r.windowSize));
  }

  /** The session reports the windows that miss data, and last the packet's last one even if it
      misses none, unless the packet fills it. */
  lemma MarkedReports(r: Rule, f: Fragment, n: nat, b: BitString)
    requires r.WellFormed() && IsLastOf(r, f, n) && All1Marked(r, n, b) && Trigger(r, f)
    ensures 0 < r.windowSize && 0 < n <= |b| && |b| == r.MaxFragmentNb() && (n - 1) / r.windowSize < r.MaxWindowNb()
    ensures var ws, short, last := Incomplete(r, b, f), ShortWindows(r, n, b), (n - 1) / r.windowSize;
      ws == if n % r.windowSize != 0 && last !in short then short + [last] else short
  {
    hide *;
    MarkedCanonical(r, n, b);
    MarkedParts(r, n, b);
    if n % r.windowSize == 0 {
      CanonicalShort(r, f, n, b);
    } else {
      IncompleteIs(r, f, n, b);
      LastReported(r, f, n, b);
    }
  }

  lemma LastReported(r: Rule, f: Fragment, n: nat, b: BitString)
    requires r.WellFormed() && IsLastOf(r, f, n) && All1Marked(r, n, b) && Trigger(r, f)
    requires r.windowSize > 0 && n % r.windowSize != 0
    ensures |b| == r.MaxFragmentNb() && (n - 1) / r.windowSize in Incomplete(r, b, f)
  {
    hide *;
    MarkedParts(r, n, b);
    LastOfIs(r, f, n);
    TotalFragments(r);
    LastPosition(n, r.windowSize, r.MaxWindowNb());
    FullIffMultiple(n, r.windowSize);
    var last: nat, data: nat := (n - 1) / r.windowSize, (n - 1) % r.windowSize;
    assert last == Window(r, f) && data + 1 < r.windowSize && n == last * r.windowSize + data + 1;
    WindowReported(r, f, n, b, last, data);
  }

  lemma WindowReported(r: Rule, f: Fragment, n: nat, b: BitString, last: nat, data: nat)
    requires r.WellFormed() && |b| == r.MaxFragmentNb() && Trigger(r, f) && last < r.MaxWindowNb()
    requires last == Window(r, f) && data + 1 < r.windowSize && n == last * r.windowSize + data + 1
    requires forall i | n <= i < |b| :: !b[i]
    ensures last in Incomplete(r, b, f)
  {
    hide *;
    IncompleteMarks(r, b, f, last);
    BehindLast(r.windowSize, n, last, data, b);
    LastExpected(r, f);
  }

  /** Behind the All-1 of a window it does not fill, the last position is not marked. */
  lemma BehindLast(ws: nat, n: nat, last: nat, data: nat, b: BitString)
    requires n == last * ws + data + 1 && data + 1 < ws && forall i | n <= i < |b| :: !b[i]
    ensures !MarkAt(ws, b, last, ws - 1)
  {
  }

  lemma MarkedParts(r: Rule, n: nat, b: BitString)
    requires All1Marked(r, n, b)
    ensures 2 <= r.windowSize && 0 < n <= |b| && |b| == r.MaxFragmentNb() && (n - 1) / r.windowSize < r.MaxWindowNb()
    ensures b[n - 1] && forall i | n <= i < |b| :: !b[i]
  {
  }

  lemma LastOfIs(r: Rule, f: Fragment, n: nat)
    requires IsLastOf(r, f, n)
    ensures 2 <= r.windowSize && 1 <= n && (n - 1) / r.windowSize == Window(r, f)
  {
    hide Trigger, IsAll1, Window, Rcs;
  }

  lemma LastExpected(r: Rule, f: Fragment)
    requires r.windowSize >= 1
    ensures Expected(r, f, r.windowSize - 1)
  {
  }

  lemma LiveMarked(r: Rule, frs: seq<Fragment>, st: Session)
    requires Live(r, frs, st)
    ensures All1Marked(r, |frs|, st.bitmap)
  {
    hide Live;
    LiveParts(r, frs, st);
  }

  lemma All1AtEnd(ws: nat, data: nat, bits: BitString)
    requires data < ws == |bits| && bits[data] && forall j | data < j < ws :: !bits[j]
    ensures (bits[ws - 1] && forall j | data <= j < ws - 1 :: !bits[j]) <==> data + 1 == ws
  {
  }

  /** The data bits of the last window are all '1'. */
  predicate DataFull(r: Rule, n: nat, b: BitString)
    requires 0 < r.windowSize && 0 < n <= |b| == r.MaxFragmentNb() && (n - 1) / r.windowSize < r.MaxWindowNb()
  {
    var bits := WindowBits(r, b, (n - 1) / r.windowSize);
    forall j | 0 <= j < (n - 1) % r.windowSize :: bits[j]
  }

  /** They are exactly when the last window misses no data. */
  lemma DataFullIs(r: Rule, n: nat, b: BitString)
    requires 2 <= r.windowSize && 0 < n <= |b| == r.MaxFragmentNb() && (n - 1) / r.windowSize < r.MaxWindowNb()
    ensures DataFull(r, n, b) <==> !Short(r, n, b, (n - 1) / r.windowSize)
  {
    hide WindowBits, Short;
    var last := (n - 1) / r.windowSize;
    if !DataFull(r, n, b) {
      var j :| 0 <= j < (n - 1) % r.windowSize && !WindowBits(r, b, last)[j];
      LastIsShort(r, n, b, j);
    }
    if Short(r, n, b, last) {
      var i := MissingIn(r, n, b, last);
      var w, j := BitPosition(r, n, b, i);
      BelowAll1(r.windowSize, n, w, j);
      assert !WindowBits(r, b, last)[j];
    }
  }

  /** The sender gives up on the session: it answers the report with a Sender-Abort. */
  ghost predicate GivesUp(r: Rule, frs: seq<Fragment>, st: Session) {
    && Receiving(r, frs, st) && Incomplete(r, st.bitmap, All1Of(frs)) != []
    && SeenWindows(r, st.bitmap, All1Of(frs)) != []
    && SeenWindows(r, st.bitmap, All1Of(frs))[|SeenWindows(r, st.bitmap, All1Of(frs))| - 1] < r.MaxWindowNb()
    && GivesUpSeeing(r, |frs|, st.bitmap, SeenWindows(r, st.bitmap, All1Of(frs)))
  }

  /** An ACK that ends with the packet's last window, in terms of what the sender sees. */
  lemma SeenLast(r: Rule, f: Fragment, n: nat, b: BitString)
    requires r.WellFormed() && IsLastOf(r, f, n) && |b| == r.MaxFragmentNb() && 0 < r.windowSize && 0 < n <= |b|
    requires Trigger(r, f) && Incomplete(r, b, f) != []
    ensures var seen, short, last := SeenWindows(r, b, f), ShortWindows(r, n, b), (n - 1) / r.windowSize;
      && seen != [] && seen[|seen| - 1] < r.MaxWindowNb()
      && (last !in short ==>
            (seen[|seen| - 1] == last <==> last in Incomplete(r, b, f) && |short| < ReaderCapacity(r)))
  {
    hide *;
    TupleSizeIs(r);
    CapacityPositive(r);
    IncompleteIs(r, f, n, b);
    ReportedIncomplete(r, f, n, b);
    ShortExact(r, n, b);
    SeenIs(r, b, f);
    SeenExact(r, b, f);
    var last: nat := (n - 1) / r.windowSize;
    LastOfPrefix(Incomplete(r, b, f), ShortWindows(r, n, b), last, ReaderCapacity(r));
  }

  lemma LastOfPrefix(ws: seq<nat>, short: seq<nat>, last: nat, c: nat)
    requires c >= 1 && ws != []
    requires ws == if last in ws && last !in short then short + [last] else short
    ensures var seen := ws[..Min(|ws|, c)];
      && seen != []
      && (last !in short ==> (seen[|seen| - 1] == last <==> last in ws && |short| < c))
  {
    var seen := ws[..Min(|ws|, c)];
    if last !in short {
      assert forall k | 0 <= k < |short| :: short[k] in short && short[k] != last;
    }
  }

  /** When the sender answers the report of a live session with a Sender-Abort: exactly when
      the packet's last window is among those the ACK lets it see and has all its data, while
      the All-1 is neither alone in it nor at its end. */
  lemma GivesUpExactly(r: Rule, frs: seq<Fragment>, st: Session)
    requires Live(r, frs, st)
    ensures Receiving(r, frs, st) && 0 < r.windowSize && r.TupleSize() > 0
    ensures |st.bitmap| == r.MaxFragmentNb() && 0 < |frs| <= |st.bitmap| && Trigger(r, All1Of(frs))
    ensures (|frs| - 1) / r.windowSize < r.MaxWindowNb()
    ensures GivesUp(r, frs, st) <==>
      && |frs| % r.windowSize != 0 && (|frs| - 1) % r.windowSize != 0
      && (|frs| - 1) / r.windowSize in SeenWindows(r, st.bitmap, All1Of(frs))
      && DataFull(r, |frs|, st.bitmap)
  {
    hide *;
    LiveParts(r, frs, st);
    ReceivingParts(r, frs, st);
    var n, b, f := |frs|, st.bitmap, All1Of(frs);
    if Incomplete(r, b, f) == [] {
      NothingSeen(r, b, f);
      NoReportNoAbort(r, frs, st);
    } else {
      SeenLast(r, f, n, b);
      SeenExact(r, b, f);
      LastSeen(SeenWindows(r, b, f), (n - 1) / r.windowSize);
      SeenWithin(r, b, f, n);
      LiveMarked(r, frs, st);
      GivesUpMarked(r, f, n, b, SeenWindows(r, b, f));
      GivesUpIs(r, frs, st);
    }
  }

  lemma NothingSeen(r: Rule, b: BitString, f: Fragment)
    requires r.TupleSize() > 0 && |b| == r.MaxFragmentNb() && Trigger(r, f) && Incomplete(r, b, f) == []
    ensures SeenWindows(r, b, f) == []
  {
    hide Incomplete, Trigger;
  }

  lemma NoReportNoAbort(r: Rule, frs: seq<Fragment>, st: Session)
    requires Receiving(r, frs, st) && |st.bitmap| == r.MaxFragmentNb() && frs != [] && Trigger(r, All1Of(frs))
    requires Incomplete(r, st.bitmap, All1Of(frs)) == []
    ensures !GivesUp(r, frs, st)
  {
    hide Incomplete, Receiving, Trigger, GivesUpSeeing, SeenWindows;
  }

  lemma GivesUpIs(r: Rule, frs: seq<Fragment>, st: Session)
    requires Receiving(r, frs, st) && |st.bitmap| == r.MaxFragmentNb() && 0 < |frs| <= |st.bitmap| && 0 < r.windowSize
    requires Trigger(r, All1Of(frs)) && r.TupleSize() > 0 && Incomplete(r, st.bitmap, All1Of(frs)) != []
    requires var seen := SeenWindows(r, st.bitmap, All1Of(frs)); seen != [] && seen[|seen| - 1] < r.MaxWindowNb()
    ensures GivesUp(r, frs, st) <==> GivesUpSeeing(r, |frs|, st.bitmap, SeenWindows(r, st.bitmap, All1Of(frs)))
  {
    hide Incomplete, Receiving, Trigger, GivesUpSeeing, SeenWindows;
  }

  /** In an increasing list of windows up to `last`, `last` can only come last. */
  lemma LastSeen(seen: seq<nat>, last: nat)
    requires Increasing(seen) && seen != []
    ensures (forall k | 0 <= k < |seen| :: seen[k] <= last) ==> (last in seen <==> seen[|seen| - 1] == last)
  {
    assert seen[|seen| - 1] in seen;
  }

  lemma SeenWithin(r: Rule, b: BitString, f: Fragment, n: nat)
    requires r.WellFormed() && Concerns(r, f, n) && |b| == r.MaxFragmentNb() && Trigger(r, f)
    requires Incomplete(r, b, f) != []
    ensures forall k | 0 <= k < |SeenWindows(r, b, f)| :: SeenWindows(r, b, f)[k] <= (n - 1) / r.windowSize
  {
    SeenExact(r, b, f);
    hide Incomplete, SeenWindows, Trigger, WindowLost;
  }

  /** The sender's view of such a last window, by the position of the All-1. */
  lemma GivesUpMarked(r: Rule, f: Fragment, n: nat, b: BitString, seen: seq<nat>)
    requires r.WellFormed() && IsLastOf(r, f, n) && Trigger(r, f) && All1Marked(r, n, b) && r.TupleSize() > 0
    requires |b| == r.MaxFragmentNb() && 0 < n <= |b| && (n - 1) / r.windowSize < r.MaxWindowNb()
    requires Incomplete(r, b, f) != [] && seen == SeenWindows(r, b, f) != [] && seen[|seen| - 1] < r.MaxWindowNb()
    ensures GivesUpSeeing(r, n, b, seen) <==>
      n % r.windowSize != 0 && (n - 1) % r.windowSize != 0
      && seen[|seen| - 1] == (n - 1) / r.windowSize && DataFull(r, n, b)
  {
    hide *;
    MarkedCanonical(r, n, b);
    if n % r.windowSize == 0 {
      CanonicalNeverGivesUp(r, f, n, b);
    } else {
      EndIsZero(r, n, b);
      GivesUpWhen(r, n, b, seen);
    }
  }

  lemma EndIsZero(r: Rule, n: nat, b: BitString)
    requires All1Marked(r, n, b) && 0 < r.windowSize && n % r.windowSize != 0
    ensures 2 <= r.windowSize && (n - 1) % r.windowSize + 1 < r.windowSize
    ensures (n - 1) / r.windowSize < r.MaxWindowNb() && 0 < n <= |b| && |b| == r.MaxFragmentNb()
    ensures !WindowBits(r, b, (n - 1) / r.windowSize)[r.windowSize - 1]
  {
    hide WindowBits;
    LiveBits(r, n, b);
    LastPosition(n, r.windowSize, r.MaxWindowNb());
    FullIffMultiple(n, r.windowSize);
  }

  lemma GivesUpWhen(r: Rule, n: nat, b: BitString, seen: seq<nat>)
    requires 2 <= r.windowSize && 0 < n <= |b| == r.MaxFragmentNb() && (n - 1) / r.windowSize < r.MaxWindowNb()
    requires seen != [] && seen[|seen| - 1] < r.MaxWindowNb() && (n - 1) % r.windowSize + 1 < r.windowSize
    requires !WindowBits(r, b, (n - 1) / r.windowSize)[r.windowSize - 1]
    ensures GivesUpSeeing(r, n, b, seen) <==>
      (n - 1) % r.windowSize != 0 && seen[|seen| - 1] == (n - 1) / r.windowSize && DataFull(r, n, b)
  {
    hide WindowBits;
    var bits, data := WindowBits(r, b, (n - 1) / r.windowSize), (n - 1) % r.windowSize;
    assert forall j | 0 <= j < data :: bits[..data][j] == bits[j];
  }

  // ---------------------------------------------------------------- the last round

  /** What giving up means in a live session: fewer windows miss data than the sender sees. */
  lemma GivesUpFew(r: Rule, frs: seq<Fragment>, st: Session)
    requires Live(r, frs, st) && GivesUp(r, frs, st)
    ensures Receiving(r, frs, st) && r.TupleSize() > 0 && |Lacks(r, frs, st)| < ReaderCapacity(r)
    ensures |st.bitmap| == r.MaxFragmentNb() && frs != [] && Trigger(r, All1Of(frs))
    ensures Incomplete(r, st.bitmap, All1Of(frs)) != []
    ensures (|frs| - 1) / r.windowSize !in Lacks(r, frs, st)
    ensures (|frs| - 1) / r.windowSize in Incomplete(r, st.bitmap, All1Of(frs))
  {
    GivesUpReports(r, frs, st);
    hide *;
    LiveParts(r, frs, st);
    ReceivingParts(r, frs, st);
    GivesUpExactly(r, frs, st);
    LacksIs(r, frs, st);
    var n, b, f := |frs|, st.bitmap, All1Of(frs);
    DataFullIs(r, n, b);
    ShortExact(r, n, b);
    SeenLast(r, f, n, b);
    SeenExact(r, b, f);
    SeenWithin(r, b, f, n);
    LastSeen(SeenWindows(r, b, f), (n - 1) / r.windowSize);
  }

  lemma GivesUpReports(r: Rule, frs: seq<Fragment>, st: Session)
    requires GivesUp(r, frs, st)
    ensures Receiving(r, frs, st) && |st.bitmap| == r.MaxFragmentNb() && frs != [] && Trigger(r, All1Of(frs))
    ensures Incomplete(r, st.bitmap, All1Of(frs)) != []
  {
    hide Incomplete, Trigger, GivesUpSeeing, SeenWindows, Indexed, IsLastOf;
  }

  /** The report to which the sender gives up is seen: the All-1's own bit is set. */
  lemma GivesUpVisible(r: Rule, frs: seq<Fragment>, st: Session)
    requires Live(r, frs, st) && Repairing(r, frs, st) && GivesUp(r, frs, st)
    ensures |st.bitmap| == r.MaxFragmentNb() && frs != [] && Trigger(r, All1Of(frs))
    ensures Visible(r, st.bitmap, All1Of(frs))
  {
    hide *;
    GivesUpFew(r, frs, st);
    RepairingParts(r, frs, st);
    if Lacks(r, frs, st) == [] {
      LiveParts(r, frs, st);
      ReceivingParts(r, frs, st);
      LacksIs(r, frs, st);
      IncompleteIs(r, All1Of(frs), |frs|, st.bitmap);
      LiveBits(r, |frs|, st.bitmap);
      var n := |frs|;
      LoneReportVisible(r, All1Of(frs), st.bitmap, (n - 1) / r.windowSize, (n - 1) % r.windowSize);
    }
  }

  lemma LoneReportVisible(r: Rule, f: Fragment, b: BitString, last: nat, data: nat)
    requires r.WellFormed() && |b| == r.MaxFragmentNb() && Trigger(r, f)
    requires last < r.MaxWindowNb() && data < r.windowSize
    requires Incomplete(r, b, f) == [last] && WindowBits(r, b, last)[data]
    ensures Visible(r, b, f)
  {
    hide WindowBits, Incomplete, Trigger, Visible, Room, RuleIdBits;
    VisibleExactly(r, b, f);
    ReportedFirst(r, b, f);
  }

  /** Its queue holds everything that is missing, so once that has arrived nothing is. */
  lemma GivesUpRepairs(r: Rule, frs: seq<Fragment>, st: Session)
    requires Live(r, frs, st) && Repairing(r, frs, st) && GivesUp(r, frs, st)
    ensures Receiving(r, frs, st) && HasAll(frs, Round(r, frs, st))
  {
    hide *;
    GivesUpFew(r, frs, st);
    GivesUpVisible(r, frs, st);
    SeenRound(r, frs, st);
    HasAllIs(r, frs, Round(r, frs, st));
    NoneLeft(Lacks(r, frs, st), ReaderCapacity(r));
  }

  lemma NoneLeft(ws: seq<nat>, c: nat)
    requires |ws| < c
    ensures ws[Min(|ws|, c)..] == []
  {
  }

  /** Once nothing is missing, the sender gives up unless the packet fills its last window or
      the All-1 is alone in it. */
  lemma CompleteGivesUp(r: Rule, frs: seq<Fragment>, st: Session)
    requires Live(r, frs, st) && Receiving(r, frs, st) && Lacks(r, frs, st) == []
    requires 0 < r.windowSize && |frs| % r.windowSize != 0 && (|frs| - 1) % r.windowSize != 0
    ensures GivesUp(r, frs, st)
  {
    hide *;
    LiveParts(r, frs, st);
    ReceivingParts(r, frs, st);
    LacksIs(r, frs, st);
    var n, b, f := |frs|, st.bitmap, All1Of(frs);
    ShortExact(r, n, b);
    DataFullIs(r, n, b);
    LiveMarked(r, frs, st);
    EndIsZero(r, n, b);
    EndNeverExpected(r, f, n, b);
    ReportedIncomplete(r, f, n, b);
    IncompleteIs(r, f, n, b);
    SeenIs(r, b, f);
    CapacityPositive(r);
    MinBounds(1, ReaderCapacity(r));
    OneSeen((n - 1) / r.windowSize, ReaderCapacity(r));
    GivesUpExactly(r, frs, st);
  }

  lemma OneSeen(last: nat, c: nat)
    requires c >= 1
    ensures last in [last][..Min(1, c)]
  {
    assert [last][..1] == [last];
  }

  /** A last window without a mark at its end is reported. */
  lemma EndNeverExpected(r: Rule, f: Fragment, n: nat, b: BitString)
    requires IsLastOf(r, f, n) && |b| == r.MaxFragmentNb() && Trigger(r, f) && 2 <= r.windowSize && 0 < n
    requires (n - 1) / r.windowSize < r.MaxWindowNb()
    requires !WindowBits(r, b, (n - 1) / r.windowSize)[r.windowSize - 1]
    ensures IsIncomplete(r, b, f, (n - 1) / r.windowSize)
  {
    hide WindowBits, Trigger, IsAll1, Rcs, Window;
    LastIsTrigger(r, f, n);
    assert ExpectedBits(r.windowSize, (n - 1) % r.windowSize + 1)[r.windowSize - 1];
  }

  lemma LastIsTrigger(r: Rule, f: Fragment, n: nat)
    requires IsLastOf(r, f, n)
    ensures IsAll1(r, f) && Window(r, f) == (n - 1) / r.windowSize
    ensures BinToInt(Rcs(r, f)) == (n - 1) % r.windowSize + 1 && 0 < r.windowSize
    ensures 1 <= (n - 1) % r.windowSize + 1 <= r.windowSize
  {
    hide Trigger;
  }
}
