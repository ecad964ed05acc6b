/**
  Selective-repeat progress: every round of loss report and retransmissions brings missing
  fragments, and enough rounds leave nothing missing.
 */
module Progress {
  import opened Options
  import opened Bits
  import opened Rules
  import opened Fragments
  import opened FrProcedure
  import opened Acks
  import opened AckProofs
  import opened SenderModel
  import opened SenderQueues
  import opened SenderInvariant
  import opened SessionModel
  import opened SessionProofs
  import opened Delivery
  import opened Repair

  // ---------------------------------------------------------------- windows that miss data

  /** Some fragment of window `w` below the All-1 is missing. */
  ghost predicate Short(r: Rule, n: nat, b: BitString, w: nat)
    requires 0 < r.windowSize && n <= |b|
  {
    exists i | 0 <= i < n - 1 && i / r.windowSize == w :: !b[i]
  }

  /** The windows from `w` on that miss data, in order. */
  ghost function ShortFrom(r: Rule, n: nat, b: BitString, w: nat): seq<nat>
    requires 0 < r.windowSize && 0 < n <= |b|
    decreases (n - 1) / r.windowSize + 1 - w
  {
    if w > (n - 1) / r.windowSize then []
    else if Short(r, n, b, w) then [w] + ShortFrom(r, n, b, w + 1)
    else ShortFrom(r, n, b, w + 1)
  }

  ghost function ShortWindows(r: Rule, n: nat, b: BitString): seq<nat>
    requires 0 < r.windowSize && 0 < n <= |b|
  {
    ShortFrom(r, n, b, 0)
  }

  lemma {:induction false} ShortFromExact(r: Rule, n: nat, b: BitString, w: nat)
    requires 0 < r.windowSize && 0 < n <= |b|
    ensures var ws := ShortFrom(r, n, b, w);
      && Increasing(ws) && (forall k | 0 <= k < |ws| :: w <= ws[k])
      && forall x: nat :: x in ws <==> w <= x <= (n - 1) / r.windowSize && Short(r, n, b, x)
    decreases (n - 1) / r.windowSize + 1 - w
  {
    hide Short;
    if w <= (n - 1) / r.windowSize {
      ShortFromExact(r, n, b, w + 1);
    }
  }

  /** A window that misses data is one of the packet's. */
  lemma ShortInPacket(r: Rule, n: nat, b: BitString, w: nat)
    requires 0 < r.windowSize && 0 < n <= |b| && Short(r, n, b, w)
    ensures w <= (n - 1) / r.windowSize
  {
    var i :| 0 <= i < n - 1 && i / r.windowSize == w && !b[i];
    TriggerWindow(r.windowSize, n, i);
  }

  /** The windows that miss data: increasing, and exactly those. */
  lemma ShortExact(r: Rule, n: nat, b: BitString)
    requires 0 < r.windowSize && 0 < n <= |b|
    ensures Increasing(ShortWindows(r, n, b))
    ensures forall w: nat :: w in ShortWindows(r, n, b) <==> Short(r, n, b, w)
    ensures forall w: nat :: w in ShortWindows(r, n, b) ==> w <= (n - 1) / r.windowSize
  {
    hide Short, ShortFrom;
    ShortFromExact(r, n, b, 0);
    forall w: nat | Short(r, n, b, w)
      ensures w <= (n - 1) / r.windowSize
    {
      ShortInPacket(r, n, b, w);
    }
  }

  /** No window misses data exactly when every fragment below the All-1 is there. */
  lemma NothingShort(r: Rule, n: nat, b: BitString)
    requires 0 < r.windowSize && 0 < n <= |b|
    ensures ShortWindows(r, n, b) == [] <==> forall i | 0 <= i < n - 1 :: b[i]
  {
    ShortExact(r, n, b);
    hide ShortWindows;
    if ShortWindows(r, n, b) != [] {
      var w := ShortWindows(r, n, b)[0];
      assert w in ShortWindows(r, n, b);
    }
    if i :| 0 <= i < n - 1 && !b[i] {
      assert Short(r, n, b, i / r.windowSize);
    }
  }

  /** Where fragment number `i` of a packet of `n` has its bit. */
  lemma BitPosition(r: Rule, n: nat, b: BitString, i: nat) returns (w: nat, j: nat)
    requires 0 < r.windowSize && i < n <= |b| == r.MaxFragmentNb()
    ensures w < r.MaxWindowNb() && j < r.windowSize && w <= (n - 1) / r.windowSize
    ensures w * r.windowSize + j == i && WindowBits(r, b, w)[j] == b[i] && w == i / r.windowSize
  {
    w, j := i / r.windowSize, i % r.windowSize;
    BitOf(r, b, i);
    PositionOf(i, r.windowSize, n);
  }

  lemma PositionOf(i: nat, ws: nat, n: nat)
    requires ws > 0 && i < n
    ensures i / ws * ws + i % ws == i
    ensures i / ws <= (n - 1) / ws
  {
    assert i / ws * ws == ws * (i / ws);
    TriggerWindow(ws, n, i);
  }

  lemma BelowAll1(ws: nat, n: nat, w: nat, j: nat)
    requires ws > 0 && n > 0 && w == (n - 1) / ws && w * ws + j < n - 1
    ensures j < (n - 1) % ws
  {
    DivIs(n - 1, ws, w);
    assert ws * w == w * ws;
  }

  /** Whether the check and the ACK treat window `w` as lossy. */
  ghost predicate IsIncomplete(r: Rule, b: BitString, f: Fragment, w: nat)
    requires |b| == r.MaxFragmentNb() && Trigger(r, f)
  {
    w <= Window(r, f) && w < r.MaxWindowNb() && WindowLost(r, b, f, w) && !Monochar(WindowBits(r, b, w), true)
  }

  /** A window that misses data is one the session reports. */
  lemma ShortIsIncomplete(r: Rule, f: Fragment, n: nat, b: BitString, w: nat)
    requires IsLastOf(r, f, n) && |b| == r.MaxFragmentNb() && 0 < r.windowSize && n <= |b|
    requires Trigger(r, f) && Short(r, n, b, w)
    ensures IsIncomplete(r, b, f, w)
  {
    hide IsAll1, Rcs, Window, Trigger, WindowBits, Short;
    var i := MissingIn(r, n, b, w);
    var w', j := BitPosition(r, n, b, i);
    assert !WindowBits(r, b, w)[j];
    if w == (n - 1) / r.windowSize {
      BelowAll1(r.windowSize, n, w, j);
      assert ExpectedBits(r.windowSize, (n - 1) % r.windowSize + 1)[j];
    }
  }

  lemma MissingIn(r: Rule, n: nat, b: BitString, w: nat) returns (i: nat)
    requires 0 < r.windowSize && n <= |b| && Short(r, n, b, w)
    ensures i < n - 1 && i / r.windowSize == w && !b[i]
  {
    i :| 0 <= i < n - 1 && i / r.windowSize == w && !b[i];
  }

  /** Conversely an earlier window is reported only if it misses data. */
  lemma EarlierIncompleteIsShort(r: Rule, f: Fragment, n: nat, b: BitString, w: nat)
    requires IsLastOf(r, f, n) && |b| == r.MaxFragmentNb() && 0 < r.windowSize && n <= |b|
    requires Trigger(r, f) && IsIncomplete(r, b, f, w) && w < (n - 1) / r.windowSize
    ensures Short(r, n, b, w)
  {
    hide IsAll1, Rcs, Window, Trigger, WindowLost;
    var bits := WindowBits(r, b, w);
    var j :| 0 <= j < |bits| && !bits[j];
    hide WindowBits, Monochar;
    WindowBitAt(r, b, w, j);
    EarlierPosition(r.windowSize, n, w, j);
  }

  lemma EarlierPosition(ws: nat, n: nat, w: nat, j: nat)
    requires ws > 0 && n > 0 && j < ws && w < (n - 1) / ws
    ensures 0 <= w * ws + j < n - 1 && (w * ws + j) / ws == w
  {
    MulMonotone(w + 1, (n - 1) / ws, ws);
    assert (w + 1) * ws == w * ws + ws && (n - 1) / ws * ws == ws * ((n - 1) / ws) && w * ws == ws * w;
    DivIs(w * ws + j, ws, w);
  }

  /** Strictly increasing sequences with the same elements are equal. */
  lemma {:induction false} IncreasingUnique(a: seq<nat>, b: seq<nat>)
    requires Increasing(a) && Increasing(b) && forall w: nat :: w in a <==> w in b
    ensures a == b
    decreases |a|
  {
    assert b != [] ==> b[0] in b;
    if a != [] {
      assert a[0] in b;
      assert b[0] in a;
      assert a[0] == b[0];
      var a', b' := a[1..], b[1..];
      assert a == [a[0]] + a' && b == [b[0]] + b';
      forall w: nat
        ensures w in a' <==> w in b'
      {
        assert w in a' ==> w in a && w != a[0];
        assert w in b' ==> w in b && w != b[0];
      }
      IncreasingUnique(a', b');
    }
  }

  lemma SuffixMembers(ws: seq<nat>, k: nat)
    requires Increasing(ws) && k <= |ws|
    ensures Increasing(ws[k..])
    ensures forall w: nat :: w in ws[k..] <==> w in ws && w !in ws[..k]
  {
    assert ws == ws[..k] + ws[k..];
  }

  lemma OneMore(ws: seq<nat>, short: seq<nat>, last: nat)
    requires Increasing(ws) && Increasing(short)
    requires forall w: nat :: w in short ==> w in ws && w <= last
    requires forall w: nat :: w in ws && w != last ==> w in short
    ensures ws == if last in ws && last !in short then short + [last] else short
  {
    if last in ws && last !in short {
      forall k | 0 <= k < |short|
        ensures short[k] < last
      {
        assert short[k] in short;
      }
      IncreasingUnique(ws, short + [last]);
    } else {
      IncreasingUnique(ws, short);
    }
  }

  /** The windows the session reports are those that miss data and, last, possibly the
      packet's last window although it misses none: its unused positions may be marked in a
      way the check does not expect. */
  lemma IncompleteIs(r: Rule, f: Fragment, n: nat, b: BitString)
    requires r.WellFormed() && IsLastOf(r, f, n) && |b| == r.MaxFragmentNb() && 0 < r.windowSize && 0 < n <= |b|
    requires Trigger(r, f)
    ensures var ws, short, last := Incomplete(r, b, f), ShortWindows(r, n, b), (n - 1) / r.windowSize;
      ws == if last in ws && last !in short then short + [last] else short
  {
    hide *;
    ReportedIncomplete(r, f, n, b);
    ShortExact(r, n, b);
    forall w: nat | w in ShortWindows(r, n, b)
      ensures w in Incomplete(r, b, f)
    {
      ShortIsIncomplete(r, f, n, b, w);
    }
    forall w: nat | w in Incomplete(r, b, f) && w != (n - 1) / r.windowSize
      ensures w in ShortWindows(r, n, b)
    {
      EarlierIncompleteIsShort(r, f, n, b, w);
    }
    OneMore(Incomplete(r, b, f), ShortWindows(r, n, b), (n - 1) / r.windowSize);
  }

  lemma ReportedIncomplete(r: Rule, f: Fragment, n: nat, b: BitString)
    requires r.WellFormed() && IsLastOf(r, f, n) && |b| == r.MaxFragmentNb() && Trigger(r, f)
    ensures Increasing(Incomplete(r, b, f))
    ensures forall w: nat :: w in Incomplete(r, b, f) <==> IsIncomplete(r, b, f, w)
    ensures forall w: nat :: w in Incomplete(r, b, f) ==> w <= (n - 1) / r.windowSize
  {
    IncompleteExact(r, b, f);
    hide IsAll1, Rcs, Trigger, Incomplete, WindowLost, Monochar, WindowBits;
  }

  // ---------------------------------------------------------------- one round on the bitmap

  /** The bitmap once every queued fragment has been marked. */
  function MarkAll(b: BitString, q: seq<Ref>): (b': BitString)
    ensures |b'| == |b|
  {
    seq(|b|, i requires 0 <= i < |b| => b[i] || Frg(i) in q)
  }

  /** Of the windows seen nothing is missing any more, the others are as they were. */
  lemma RoundOnWindow(r: Rule, n: nat, b: BitString, seen: seq<nat>, q: seq<Ref>, w: nat)
    requires 0 < r.windowSize && n <= |b| && RepairQueue(r, n, b, seen, q)
    ensures Short(r, n, MarkAll(b, q), w) <==> Short(r, n, b, w) && w !in seen
  {
    if Short(r, n, MarkAll(b, q), w) {
      var i := MissingIn(r, n, MarkAll(b, q), w);
      assert !b[i] && Frg(i) !in q;
    }
    if Short(r, n, b, w) && w !in seen {
      var i := MissingIn(r, n, b, w);
      assert Frg(i) !in q;
      assert !MarkAll(b, q)[i];
    }
  }

  /** The sender sees the first windows that miss data, up to the reader's capacity. */
  lemma SeenShort(r: Rule, f: Fragment, n: nat, b: BitString)
    requires r.WellFormed() && IsLastOf(r, f, n) && |b| == r.MaxFragmentNb() && 0 < r.windowSize && 0 < n <= |b|
    requires Trigger(r, f)
    ensures var short := ShortWindows(r, n, b);
      forall w: nat | w in short :: w in SeenWindows(r, b, f) <==> w in short[..Min(|short|, ReaderCapacity(r))]
  {
    hide *;
    TupleSizeIs(r);
    IncompleteIs(r, f, n, b);
    SeenIs(r, b, f);
    var last: nat := (n - 1) / r.windowSize;
    ShortPrefix(ShortWindows(r, n, b), last, ReaderCapacity(r));
  }

  lemma TupleSizeIs(r: Rule)
    requires r.WellFormed()
    ensures r.TupleSize() > 0
  {
  }

  lemma SeenIs(r: Rule, b: BitString, f: Fragment)
    requires r.TupleSize() > 0 && |b| == r.MaxFragmentNb() && Trigger(r, f)
    ensures SeenWindows(r, b, f) == Incomplete(r, b, f)[..Min(|Incomplete(r, b, f)|, ReaderCapacity(r))]
  {
  }

  lemma ShortPrefix(short: seq<nat>, last: nat, c: nat)
    ensures last !in short ==> forall w: nat | w in short ::
      w in (short + [last])[..Min(|short| + 1, c)] <==> w in short[..Min(|short|, c)]
  {
    var more := short + [last];
    if c <= |short| {
      assert more[..Min(|short| + 1, c)] == short[..c];
    } else {
      assert more[..Min(|short| + 1, c)] == more && short[..Min(|short|, c)] == short;
    }
  }

  /** One round: the first windows that miss data, as many as the sender sees, miss none
      afterwards, and no other window changes in that respect. */
  lemma RoundDropsShort(r: Rule, f: Fragment, n: nat, b: BitString, q: seq<Ref>)
    requires r.WellFormed() && IsLastOf(r, f, n) && |b| == r.MaxFragmentNb() && 0 < r.windowSize && 0 < n <= |b|
    requires Trigger(r, f) && RepairQueue(r, n, b, SeenWindows(r, b, f), q)
    ensures var short := ShortWindows(r, n, b);
      ShortWindows(r, n, MarkAll(b, q)) == short[Min(|short|, ReaderCapacity(r))..]
  {
    hide *;
    TupleSizeIs(r);
    var short, k := ShortWindows(r, n, b), Min(|ShortWindows(r, n, b)|, ReaderCapacity(r));
    MinBounds(|short|, ReaderCapacity(r));
    ShortExact(r, n, b);
    ShortExact(r, n, MarkAll(b, q));
    SeenShort(r, f, n, b);
    SuffixMembers(short, k);
    forall w: nat
      ensures w in ShortWindows(r, n, MarkAll(b, q)) <==> w in short[k..]
    {
      RoundOnWindow(r, n, b, SeenWindows(r, b, f), q, w);
    }
    IncreasingUnique(ShortWindows(r, n, MarkAll(b, q)), short[k..]);
  }

  lemma MinBounds(a: nat, c: nat)
    ensures Min(a, c) <= a && Min(a, c) <= c
  {
  }

  // ---------------------------------------------------------------- one round on the session

  /** The fragment triggers a check, and its window is one of a packet of `n` fragments. */
  ghost predicate Concerns(r: Rule, f: Fragment, n: nat) {
    && 0 < r.windowSize && 0 < n <= r.MaxFragmentNb()
    && Trigger(r, f) && Window(r, f) <= (n - 1) / r.windowSize
  }

  /** The queue update_queues builds from the session's loss report. */
  function AskedFor(r: Rule, n: nat, b: BitString, f: Fragment): seq<Ref>
    requires r.WellFormed() && Concerns(r, f, n) && |b| == r.MaxFragmentNb() && Incomplete(r, b, f) != []
  {
    SessionTuples(r, b, f);
    LossRefs(r, n, (n - 1) / r.windowSize, Tuples(r, SessionAck(r, b, f).value))
  }

  lemma AskedForIsRepair(r: Rule, n: nat, b: BitString, f: Fragment)
    requires r.WellFormed() && Concerns(r, f, n) && |b| == r.MaxFragmentNb() && Incomplete(r, b, f) != []
    ensures RepairQueue(r, n, b, SeenWindows(r, b, f), AskedFor(r, n, b, f))
  {
    hide *;
    TupleSizeIs(r);
    ConcernsParts(r, f, n);
    SessionTuples(r, b, f);
    SeenExact(r, b, f);
    var a, seen := SessionAck(r, b, f).value, SeenWindows(r, b, f);
    IncreasingTuples(r, b, seen, a);
    TuplesWithin(r, a, (n - 1) / r.windowSize);
    SameLength(r, b, seen, Tuples(r, a));
    OnlyLastMayStop(r, b, f, n, Tuples(r, a));
    AskedForIs(r, n, b, f, a);
    LossesAreRepair(r, n, b, seen, Tuples(r, a));
  }

  lemma ConcernsParts(r: Rule, f: Fragment, n: nat)
    requires Concerns(r, f, n)
    ensures 0 < r.windowSize && 0 < n <= r.MaxFragmentNb() && Trigger(r, f) && Window(r, f) <= (n - 1) / r.windowSize
  {
    hide Trigger, Window;
  }

  lemma TuplesWithin(r: Rule, a: CompoundAck, last: int)
    requires r.TupleSize() > 0 && IncreasingAck(r, a) && Greatest(r, a) <= last
    ensures WindowsWithin(Tuples(r, a), 0, last)
  {
    hide Tuples;
  }

  lemma SameLength(r: Rule, b: BitString, seen: seq<nat>, ts: seq<Tuple>)
    requires |b| == r.MaxFragmentNb() && TuplesAre(r, b, seen, ts) && seen != []
    ensures ts != []
  {
    hide WindowBits;
  }

  lemma AskedForIs(r: Rule, n: nat, b: BitString, f: Fragment, a: CompoundAck)
    requires r.WellFormed() && Concerns(r, f, n) && |b| == r.MaxFragmentNb() && Incomplete(r, b, f) != []
    requires SessionAck(r, b, f) == Some(a)
    ensures r.m <= 31 && Shaped(r, Tuples(r, a)) && 0 < r.windowSize
    ensures AskedFor(r, n, b, f) == LossRefs(r, n, (n - 1) / r.windowSize, Tuples(r, a))
  {
    SessionTuples(r, b, f);
    hide Trigger, Window, SessionAck, Incomplete, SeenWindows, LossRefs, Tuples, WindowBits;
  }

  function Idxs(q: seq<Ref>): (order: seq<nat>)
    requires forall k | 0 <= k < |q| :: q[k].Frg?
    ensures |order| == |q|
  {
    seq(|q|, k requires 0 <= k < |q| => q[k].idx)
  }

  lemma {:induction false} ReceiveAllBitmap(r: Rule, st: Session, frs: seq<Fragment>, order: seq<nat>)
    requires Sized(r, st) && Indexed(r, frs) && Indices(order, |frs|)
    ensures forall k | 0 <= k < |order| :: order[k] < |frs| && Numbered(r, frs[order[k]])
    ensures var st' := ReceiveAll(r, st, frs, order);
      Sized(r, st') && forall i | 0 <= i < |st.bitmap| :: st'.bitmap[i] == (st.bitmap[i] || i in order)
    decreases |order|
  {
    hide FragmentNb, AlreadyReceived;
    OrderNumbered(r, frs, order);
    if order != [] {
      assert FragmentNb(r, frs[order[0]]) == order[0];
      ReceiveAllBitmap(r, Receive(r, st, frs[order[0]]), frs, order[1..]);
      assert order == [order[0]] + order[1..];
    }
  }

  /** A session that receives the fragments `frs` of a packet. */
  ghost predicate Receiving(r: Rule, frs: seq<Fragment>, st: Session) {
    && r.WellFormed() && Indexed(r, frs) && frs != [] && IsLastOf(r, All1Of(frs), |frs|)
    && Sized(r, st) && |st.bitmap| == r.MaxFragmentNb() && Trigger(r, All1Of(frs))
  }

  /** A round at the receiver: the All-1 arrives and is answered by a loss report; if the
      report reaches the sender, everything it asks for arrives, is stored and marked. */
  function Round(r: Rule, frs: seq<Fragment>, st: Session): (st': Session)
    requires Receiving(r, frs, st)
    ensures Receiving(r, frs, st')
  {
    var f, n := All1Of(frs), |frs|;
    if Incomplete(r, st.bitmap, f) == [] || !Visible(r, st.bitmap, f) then st
    else
      IsLastSizes(r, f, n);
      var q := AskedFor(r, n, st.bitmap, f);
      AskedForIsRepair(r, n, st.bitmap, f);
      QueueIndices(r, n, st.bitmap, SeenWindows(r, st.bitmap, f), q);
      ReceiveAllBitmap(r, st, frs, Idxs(q));
      ReceiveAll(r, st, frs, Idxs(q))
  }

  lemma QueueIndices(r: Rule, n: nat, b: BitString, seen: seq<nat>, q: seq<Ref>)
    requires 0 < r.windowSize && n <= |b| && RepairQueue(r, n, b, seen, q)
    ensures forall k | 0 <= k < |q| :: q[k].Frg?
    ensures Indices(Idxs(q), n)
    ensures forall i: nat :: i in Idxs(q) <==> Frg(i) in q
  {
    forall k | 0 <= k < |q|
      ensures q[k].Frg? && q[k].idx < n
    {
      assert Frg(q[k].idx) in q;
    }
    forall i: nat
      ensures i in Idxs(q) <==> Frg(i) in q
    {
      if Frg(i) in q {
        var k :| 0 <= k < |q| && q[k] == Frg(i);
        assert Idxs(q)[k] == i;
      }
    }
  }

  lemma RoundMarks(r: Rule, frs: seq<Fragment>, st: Session)
    requires Receiving(r, frs, st)
    requires Incomplete(r, st.bitmap, All1Of(frs)) != [] && Visible(r, st.bitmap, All1Of(frs))
    ensures Concerns(r, All1Of(frs), |frs|)
    ensures Round(r, frs, st).bitmap == MarkAll(st.bitmap, AskedFor(r, |frs|, st.bitmap, All1Of(frs)))
  {
    hide AskedFor, IsLastOf, Incomplete, Visible, RepairQueue, SeenWindows, Numbered, Receive, Indexed, Concerns;
    var f, n := All1Of(frs), |frs|;
    IsLastSizes(r, f, n);
    var q := AskedFor(r, n, st.bitmap, f);
    AskedForIsRepair(r, n, st.bitmap, f);
    QueueIndices(r, n, st.bitmap, SeenWindows(r, st.bitmap, f), q);
    ReceiveAllBitmap(r, st, frs, Idxs(q));
  }

  lemma IsLastSizes(r: Rule, f: Fragment, n: nat)
    requires IsLastOf(r, f, n)
    ensures 0 < r.windowSize && 1 <= n <= r.MaxFragmentNb() && (n - 1) / r.windowSize < r.MaxWindowNb()
    ensures Trigger(r, f) && Concerns(r, f, n) && 2 <= r.windowSize && Window(r, f) == (n - 1) / r.windowSize
  {
  }

  // ---------------------------------------------------------------- rounds

  function Rounds(r: Rule, frs: seq<Fragment>, st: Session, k: nat): (st': Session)
    requires Receiving(r, frs, st)
    ensures Receiving(r, frs, st')
    decreases k
  {
    if k == 0 then st else Rounds(r, frs, Round(r, frs, st), k - 1)
  }

  /** No round un-marks a fragment. */
  lemma NoUnmark(r: Rule, frs: seq<Fragment>, st: Session)
    requires Receiving(r, frs, st)
    ensures forall i | 0 <= i < |st.bitmap| :: st.bitmap[i] ==> Round(r, frs, st).bitmap[i]
  {
    hide Incomplete, Visible, AskedFor, IsLastOf, Indexed;
    if Incomplete(r, st.bitmap, All1Of(frs)) != [] && Visible(r, st.bitmap, All1Of(frs)) {
      RoundMarks(r, frs, st);
    }
  }

  /** The windows that miss data in the session. */
  ghost function Lacks(r: Rule, frs: seq<Fragment>, st: Session): seq<nat>
    requires Receiving(r, frs, st)
  {
    ShortWindows(r, |frs|, st.bitmap)
  }

  /** A session whose report, if data is missing, is visible. */
  ghost predicate Repairing(r: Rule, frs: seq<Fragment>, st: Session) {
    Receiving(r, frs, st) && (Lacks(r, frs, st) != [] ==> Visible(r, st.bitmap, All1Of(frs)))
  }

  lemma ReceivingParts(r: Rule, frs: seq<Fragment>, st: Session)
    requires Receiving(r, frs, st)
    ensures r.WellFormed() && r.TupleSize() > 0 && Indexed(r, frs) && Sized(r, st)
    ensures 2 <= r.windowSize && 0 < |frs| <= |st.bitmap| && |st.bitmap| == r.MaxFragmentNb()
    ensures (|frs| - 1) / r.windowSize < r.MaxWindowNb()
    ensures var f := All1Of(frs); IsLastOf(r, f, |frs|) && Trigger(r, f) && Concerns(r, f, |frs|)
  {
    hide Indexed, Sized, IsLastOf, Trigger;
    IsLastSizes(r, All1Of(frs), |frs|);
  }

  /** A session that misses data reports something. */
  lemma LacksReported(r: Rule, frs: seq<Fragment>, st: Session)
    requires Receiving(r, frs, st) && |st.bitmap| == r.MaxFragmentNb() && frs != [] && Trigger(r, All1Of(frs))
    requires Lacks(r, frs, st) != []
    ensures Incomplete(r, st.bitmap, All1Of(frs)) != []
    ensures Incomplete(r, st.bitmap, All1Of(frs))[0] == Lacks(r, frs, st)[0]
  {
    LacksIs(r, frs, st);
    hide *;
    ReceivingParts(r, frs, st);
    IncompleteIs(r, All1Of(frs), |frs|, st.bitmap);
  }

  lemma LacksIs(r: Rule, frs: seq<Fragment>, st: Session)
    requires Receiving(r, frs, st)
    ensures 0 < r.windowSize && 0 < |frs| <= |st.bitmap| && Lacks(r, frs, st) == ShortWindows(r, |frs|, st.bitmap)
  {
    hide ShortWindows, Indexed, Trigger, IsAll1, Rcs;
  }

  /** What a round does to what is lacking, when the report is seen. */
  lemma SeenRound(r: Rule, frs: seq<Fragment>, st: Session)
    requires Receiving(r, frs, st) && |st.bitmap| == r.MaxFragmentNb() && frs != [] && Trigger(r, All1Of(frs))
    requires Incomplete(r, st.bitmap, All1Of(frs)) != [] && Visible(r, st.bitmap, All1Of(frs)) && r.TupleSize() > 0
    ensures Receiving(r, frs, Round(r, frs, st))
    ensures Lacks(r, frs, Round(r, frs, st))
         == Lacks(r, frs, st)[Min(|Lacks(r, frs, st)|, ReaderCapacity(r))..]
  {
    hide *;
    var f, n, b := All1Of(frs), |frs|, st.bitmap;
    ReceivingParts(r, frs, st);
    RoundMarks(r, frs, st);
    AskedForIsRepair(r, n, b, f);
    RoundDropsShort(r, f, n, b, AskedFor(r, n, b, f));
    LacksIs(r, frs, st);
    LacksIs(r, frs, Round(r, frs, st));
  }

  /** A round in which no report is seen changes nothing. */
  lemma UnseenRound(r: Rule, frs: seq<Fragment>, st: Session)
    requires Receiving(r, frs, st) && |st.bitmap| == r.MaxFragmentNb() && frs != [] && Trigger(r, All1Of(frs))
    requires Incomplete(r, st.bitmap, All1Of(frs)) == [] || !Visible(r, st.bitmap, All1Of(frs))
    ensures Round(r, frs, st) == st
  {
    hide Receiving, Incomplete, Visible, AskedFor, ReceiveAll, Trigger;
  }

  /** What is left after a round that brought something does not start at window 0, so its
      report is visible. */
  lemma LaterVisible(r: Rule, frs: seq<Fragment>, st: Session)
    requires Receiving(r, frs, st) && |st.bitmap| == r.MaxFragmentNb() && frs != [] && Trigger(r, All1Of(frs))
    requires Lacks(r, frs, st) != [] && Lacks(r, frs, st)[0] > 0
    ensures Visible(r, st.bitmap, All1Of(frs))
  {
    hide Receiving, Incomplete, Visible, Lacks, Trigger, Slots, Room, WindowBits, RuleIdBits;
    ReceivingParts(r, frs, st);
    LacksReported(r, frs, st);
    VisibleExactly(r, st.bitmap, All1Of(frs));
    ReportedFirst(r, st.bitmap, All1Of(frs));
  }

  lemma ReportedFirst(r: Rule, b: BitString, f: Fragment)
    requires r.TupleSize() > 0 && |b| == r.MaxFragmentNb() && Trigger(r, f) && Incomplete(r, b, f) != []
    ensures Reported(r, b, f) == [0] ==> Incomplete(r, b, f)[0] == 0
  {
    hide Incomplete, Room;
    assert Reported(r, b, f) != [] ==> Reported(r, b, f)[0] == Incomplete(r, b, f)[0];
  }

  /** A round drops the first windows that miss data, as many as the sender sees. */
  lemma RoundRepairs(r: Rule, frs: seq<Fragment>, st: Session)
    requires Repairing(r, frs, st)
    ensures r.TupleSize() > 0 && Receiving(r, frs, st)
    ensures Repairing(r, frs, Round(r, frs, st)) && Receiving(r, frs, Round(r, frs, st))
    ensures Lacks(r, frs, Round(r, frs, st))
         == Lacks(r, frs, st)[Min(|Lacks(r, frs, st)|, ReaderCapacity(r))..]
  {
    hide *;
    RepairingParts(r, frs, st);
    ReceivingParts(r, frs, st);
    if Incomplete(r, st.bitmap, All1Of(frs)) == [] || !Visible(r, st.bitmap, All1Of(frs)) {
      UnseenRepairs(r, frs, st);
    } else {
      SeenRepairs(r, frs, st);
    }
  }

  lemma UnseenRepairs(r: Rule, frs: seq<Fragment>, st: Session)
    requires Repairing(r, frs, st) && Receiving(r, frs, st) && r.TupleSize() > 0
    requires |st.bitmap| == r.MaxFragmentNb() && frs != [] && Trigger(r, All1Of(frs))
    requires Incomplete(r, st.bitmap, All1Of(frs)) == [] || !Visible(r, st.bitmap, All1Of(frs))
    ensures Round(r, frs, st) == st && Lacks(r, frs, st) == []
    ensures Lacks(r, frs, st) == Lacks(r, frs, st)[Min(|Lacks(r, frs, st)|, ReaderCapacity(r))..]
  {
    hide *;
    UnseenRound(r, frs, st);
    RepairingParts(r, frs, st);
    MinBounds(|Lacks(r, frs, st)|, ReaderCapacity(r));
    if Lacks(r, frs, st) != [] {
      LacksReported(r, frs, st);
    }
  }

  lemma SeenRepairs(r: Rule, frs: seq<Fragment>, st: Session)
    requires Repairing(r, frs, st) && Receiving(r, frs, st) && r.TupleSize() > 0
    requires |st.bitmap| == r.MaxFragmentNb() && frs != [] && Trigger(r, All1Of(frs))
    requires Incomplete(r, st.bitmap, All1Of(frs)) != [] && Visible(r, st.bitmap, All1Of(frs))
    ensures Receiving(r, frs, Round(r, frs, st)) && Repairing(r, frs, Round(r, frs, st))
    ensures Lacks(r, frs, Round(r, frs, st))
         == Lacks(r, frs, st)[Min(|Lacks(r, frs, st)|, ReaderCapacity(r))..]
  {
    hide *;
    SeenRound(r, frs, st);
    CapacityPositive(r);
    LacksOrdered(r, frs, st);
    StartsLater(Lacks(r, frs, st), ReaderCapacity(r));
    var st' := Round(r, frs, st);
    ReceivingParts(r, frs, st');
    if Lacks(r, frs, st') != [] {
      LaterVisible(r, frs, st');
    }
    RepairingFrom(r, frs, st');
  }

  lemma StartsLater(ws: seq<nat>, c: nat)
    requires Increasing(ws) && c >= 1
    ensures var rest := ws[Min(|ws|, c)..]; rest != [] ==> rest[0] > 0
  {
    assert c < |ws| ==> ws[0] < ws[c];
  }

  lemma RepairingParts(r: Rule, frs: seq<Fragment>, st: Session)
    requires Repairing(r, frs, st)
    ensures Receiving(r, frs, st) && |st.bitmap| == r.MaxFragmentNb() && frs != [] && Trigger(r, All1Of(frs))
    ensures Lacks(r, frs, st) != [] ==> Visible(r, st.bitmap, All1Of(frs))
  {
    hide Lacks, Visible, Indexed, Sized, IsLastOf, Trigger;
  }

  lemma RepairingFrom(r: Rule, frs: seq<Fragment>, st: Session)
    requires Receiving(r, frs, st) && |st.bitmap| == r.MaxFragmentNb() && frs != [] && Trigger(r, All1Of(frs))
    requires Lacks(r, frs, st) != [] ==> Visible(r, st.bitmap, All1Of(frs))
    ensures Repairing(r, frs, st)
  {
    hide Lacks, Visible, Receiving;
  }

  lemma LacksOrdered(r: Rule, frs: seq<Fragment>, st: Session)
    requires Receiving(r, frs, st)
    ensures Increasing(Lacks(r, frs, st))
  {
    LacksIs(r, frs, st);
    ShortExact(r, |frs|, st.bitmap);
    hide *;
  }

  lemma CapacityPositive(r: Rule)
    requires r.TupleSize() > 0
    ensures ReaderCapacity(r) >= 1
  {
  }

  /** How many windows `k` rounds of a capacity `c` reach. */
  function Reach(k: nat, c: nat): nat {
    k * c
  }

  /** From `st` to `st'`, the first `done` windows that missed data have been brought, the
      others miss data still, and no mark is lost. */
  ghost predicate Progressed(r: Rule, frs: seq<Fragment>, st: Session, st': Session, done: nat)
    requires Receiving(r, frs, st) && Receiving(r, frs, st')
  {
    && Repairing(r, frs, st')
    && Lacks(r, frs, st') == Lacks(r, frs, st)[Min(|Lacks(r, frs, st)|, done)..]
    && |st.bitmap| == |st'.bitmap|
    && forall i | 0 <= i < |st.bitmap| :: st.bitmap[i] ==> st'.bitmap[i]
  }

  lemma RoundProgressed(r: Rule, frs: seq<Fragment>, st: Session)
    requires Repairing(r, frs, st)
    ensures r.TupleSize() > 0 && Receiving(r, frs, st)
    ensures Receiving(r, frs, Round(r, frs, st)) && Repairing(r, frs, Round(r, frs, st))
    ensures Progressed(r, frs, st, Round(r, frs, st), ReaderCapacity(r))
  {
    RepairingParts(r, frs, st);
    hide Repairing, Lacks, ReaderCapacity, Round, Receiving;
    RoundRepairs(r, frs, st);
    ReceivingParts(r, frs, st);
    ReceivingParts(r, frs, Round(r, frs, st));
    NoUnmark(r, frs, st);
  }

  lemma ProgressedTwice(r: Rule, frs: seq<Fragment>, st: Session, st1: Session, st2: Session, cap: nat, k: nat)
    requires Receiving(r, frs, st) && Receiving(r, frs, st1) && Receiving(r, frs, st2) && k > 0
    requires Progressed(r, frs, st, st1, cap) && Progressed(r, frs, st1, st2, Reach(k - 1, cap))
    ensures Progressed(r, frs, st, st2, Reach(k, cap))
  {
    hide Repairing, Lacks, Receiving, Reach;
    SuffixOfSuffix(Lacks(r, frs, st), cap, k);
  }

  lemma SuffixOfSuffix(ws: seq<nat>, cap: nat, k: nat)
    requires k > 0
    ensures var rest := ws[Min(|ws|, cap)..];
      rest[Min(|rest|, Reach(k - 1, cap))..] == ws[Min(|ws|, Reach(k, cap))..]
  {
    assert k * cap == cap + (k - 1) * cap;
  }

  lemma NoRounds(r: Rule, frs: seq<Fragment>, st: Session)
    requires Repairing(r, frs, st)
    ensures r.TupleSize() > 0 && Receiving(r, frs, st)
    ensures Progressed(r, frs, st, st, Reach(0, ReaderCapacity(r)))
  {
    RepairingParts(r, frs, st);
    ReceivingParts(r, frs, st);
    hide Repairing, Lacks, ReaderCapacity, Receiving;
  }

  /** Selective-repeat progress over rounds, whatever the bitmap: with a first report that is
      visible, k rounds bring all data of the first k times capacity windows that miss some,
      leave the others missing some, and un-mark nothing. */
  lemma {:induction false} RoundsProgress(r: Rule, frs: seq<Fragment>, st: Session, k: nat)
    requires Repairing(r, frs, st)
    ensures r.TupleSize() > 0 && Receiving(r, frs, st)
    ensures Progressed(r, frs, st, Rounds(r, frs, st, k), Reach(k, ReaderCapacity(r)))
    decreases k
  {
    hide Progressed, Receiving, ReaderCapacity, Reach, Repairing, Lacks, Round;
    RepairingParts(r, frs, st);
    ReceivingParts(r, frs, st);
    if k == 0 {
      NoRounds(r, frs, st);
    } else {
      RoundProgressed(r, frs, st);
      RoundsProgress(r, frs, Round(r, frs, st), k - 1);
      ProgressedTwice(r, frs, st, Round(r, frs, st), Rounds(r, frs, st, k), ReaderCapacity(r), k);
    }
  }

  lemma EnoughIsAll(len: nat, cap: nat, k: nat)
    requires cap > 0 && k >= CeilDiv(len, cap)
    ensures Reach(k, cap) >= len
  {
    var q := (len + cap - 1) / cap;
    assert len + cap - 1 == cap * q + (len + cap - 1) % cap;
    MulMonotone(q, k, cap);
    assert q * cap == cap * q;
  }

  /** A first report that is invisible is invisible for ever: no round changes anything. */
  lemma {:induction false} InvisibleStuck(r: Rule, frs: seq<Fragment>, st: Session, k: nat)
    requires Receiving(r, frs, st) && |st.bitmap| == r.MaxFragmentNb() && frs != [] && Trigger(r, All1Of(frs))
    requires !Visible(r, st.bitmap, All1Of(frs))
    ensures Rounds(r, frs, st, k) == st
    decreases k
  {
    hide Receiving, Visible, Round, Trigger;
    if k > 0 {
      UnseenRound(r, frs, st);
      InvisibleStuck(r, frs, st, k - 1);
    }
  }

  /** Every fragment below the All-1 is there. */
  ghost predicate HasAll(frs: seq<Fragment>, st: Session) {
    forall i | 0 <= i < |frs| - 1 :: i < |st.bitmap| && st.bitmap[i]
  }

  lemma HasAllIs(r: Rule, frs: seq<Fragment>, st: Session)
    requires Receiving(r, frs, st)
    ensures HasAll(frs, st) <==> Lacks(r, frs, st) == []
  {
    LacksIs(r, frs, st);
    NothingShort(r, |frs|, st.bitmap);
    hide Receiving, Lacks, ShortWindows;
  }

  /** Selective repeat brings everything exactly when nothing is missing or the first report
      is visible: then at least ceil(L / c) rounds on the L windows that miss data suffice,
      and otherwise no number of rounds does. */
  lemma ProgressExactly(r: Rule, frs: seq<Fragment>, st: Session, k: nat)
    requires Receiving(r, frs, st) && r.TupleSize() > 0
    requires k >= CeilDiv(|Lacks(r, frs, st)|, ReaderCapacity(r))
    ensures |st.bitmap| == r.MaxFragmentNb() && frs != [] && Trigger(r, All1Of(frs))
    ensures HasAll(frs, Rounds(r, frs, st, k)) <==> Lacks(r, frs, st) == [] || Visible(r, st.bitmap, All1Of(frs))
  {
    hide *;
    ReceivingParts(r, frs, st);
    HasAllIs(r, frs, st);
    HasAllIs(r, frs, Rounds(r, frs, st, k));
    CapacityPositive(r);
    if Lacks(r, frs, st) == [] || Visible(r, st.bitmap, All1Of(frs)) {
      RepairingFrom(r, frs, st);
      RoundsProgress(r, frs, st, k);
      EnoughIsAll(|Lacks(r, frs, st)|, ReaderCapacity(r), k);
      AllProgressed(r, frs, st, Rounds(r, frs, st, k), Reach(k, ReaderCapacity(r)));
    } else {
      InvisibleStuck(r, frs, st, k);
    }
  }

  lemma AllProgressed(r: Rule, frs: seq<Fragment>, st: Session, st': Session, done: nat)
    requires Receiving(r, frs, st) && Receiving(r, frs, st') && Progressed(r, frs, st, st', done)
    requires done >= |Lacks(r, frs, st)|
    ensures Lacks(r, frs, st') == []
  {
    hide Receiving, Lacks, Repairing;
  }

  // ---------------------------------------------------------------- canonical last windows

  /** With a canonical last window the windows that miss data are the incomplete ones. */
  lemma CanonicalShort(r: Rule, f: Fragment, n: nat, b: BitString)
    requires r.WellFormed() && IsLastOf(r, f, n) && |b| == r.MaxFragmentNb() && 2 <= r.windowSize && 0 < n <= |b|
    requires Trigger(r, f) && (n - 1) / r.windowSize < r.MaxWindowNb() && Canonical(r, n, b)
    ensures ShortWindows(r, n, b) == Incomplete(r, b, f)
  {
    hide *;
    var last: nat := (n - 1) / r.windowSize;
    IncompleteIs(r, f, n, b);
    ShortExact(r, n, b);
    ReportedIncomplete(r, f, n, b);
    if last in Incomplete(r, b, f) {
      CanonicalLastIsShort(r, f, n, b);
    }
  }

  lemma CanonicalLastIsShort(r: Rule, f: Fragment, n: nat, b: BitString)
    requires IsLastOf(r, f, n) && |b| == r.MaxFragmentNb() && 2 <= r.windowSize && 0 < n <= |b|
    requires Trigger(r, f) && (n - 1) / r.windowSize < r.MaxWindowNb() && Canonical(r, n, b)
    requires IsIncomplete(r, b, f, (n - 1) / r.windowSize)
    ensures Short(r, n, b, (n - 1) / r.windowSize)
  {
    hide IsAll1, Rcs, Trigger, Window, WindowBits, Short;
    var last, data := (n - 1) / r.windowSize, (n - 1) % r.windowSize;
    var bits := WindowBits(r, b, last);
    LastPosition(n, r.windowSize, r.MaxWindowNb());
    CanonicalComplete(r.windowSize, data, bits);
    var j :| 0 <= j < data && !bits[..data][j];
    LastIsShort(r, n, b, j);
  }

  /** A data bit of the last window that is '0' makes it miss data. */
  lemma LastIsShort(r: Rule, n: nat, b: BitString, j: nat)
    requires 0 < r.windowSize && 0 < n <= |b| == r.MaxFragmentNb() && (n - 1) / r.windowSize < r.MaxWindowNb()
    requires j < (n - 1) % r.windowSize && !WindowBits(r, b, (n - 1) / r.windowSize)[j]
    ensures Short(r, n, b, (n - 1) / r.windowSize)
  {
    hide WindowBits;
    var last := (n - 1) / r.windowSize;
    WindowBitAt(r, b, last, j);
    LastOffset(r.windowSize, n, j);
  }

  lemma LastOffset(ws: nat, n: nat, j: nat)
    requires ws > 0 && n > 0 && j < (n - 1) % ws
    ensures var i := (n - 1) / ws * ws + j; 0 <= i < n - 1 && i / ws == (n - 1) / ws
  {
    var q := (n - 1) / ws;
    assert n - 1 == ws * q + (n - 1) % ws && q * ws == ws * q;
    DivIs(q * ws + j, ws, q);
  }
}
