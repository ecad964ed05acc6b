/**
  What update_queues puts in the retransmission queue.
 */
module SenderQueues {
  import opened Bits
  import opened Rules
  import opened Fragments
  import opened Acks
  import Queues
  import opened SenderModel

  // ---------------------------------------------------------------- lists of pointers

  ghost predicate RefsBetween(q: seq<Ref>, lo: int, hi: int) {
    forall k | 0 <= k < |q| :: q[k].Frg? && lo <= q[k].idx < hi
  }

  ghost predicate RefsIncreasing(q: seq<Ref>) {
    && (forall k | 0 <= k < |q| :: q[k].Frg?)
    && forall j, k | 0 <= j < k < |q| :: q[j].idx < q[k].idx
  }

  lemma {:induction false} IncreasingLength(q: seq<Ref>, lo: int, hi: int)
    requires RefsBetween(q, lo, hi) && RefsIncreasing(q) && lo <= hi
    ensures |q| <= hi - lo
  {
    if q != [] {
      var k := |q| - 1;
      IncreasingLength(q[..k], lo, q[k].idx);
    }
  }

  lemma IncreasingAppend(a: seq<Ref>, b: seq<Ref>, lo: int, mid: int, hi: int)
    requires RefsBetween(a, lo, mid) && RefsIncreasing(a)
    requires RefsBetween(b, mid, hi) && RefsIncreasing(b)
    requires lo <= mid <= hi
    ensures RefsBetween(a + b, lo, hi) && RefsIncreasing(a + b)
  {
  }

  lemma {:induction false} PutAllFits(capacity: nat, q: seq<Ref>, xs: seq<Ref>)
    requires |q| + |xs| <= capacity
    ensures PutAll(capacity, q, xs) == q + xs
    decreases |xs|
  {
    if xs != [] {
      PutAllFits(capacity, q + [xs[0]], xs[1..]);
      assert q + xs == (q + [xs[0]]) + xs[1..];
    }
  }

  lemma {:induction false} ZeroRefsExact(bits: BitString, base: nat, j: nat)
    requires j <= |bits|
    ensures var q := ZeroRefs(bits, base, j);
      && RefsBetween(q, base + j, base + |bits|) && RefsIncreasing(q)
      && forall i: nat :: Frg(i) in q <==> base + j <= i < base + |bits| && !bits[i - base]
    decreases |bits| - j
  {
    if j < |bits| {
      ZeroRefsExact(bits, base, j + 1);
      var rest := ZeroRefs(bits, base, j + 1);
      if !bits[j] {
        IncreasingAppend([Frg(base + j)], rest, base + j, base + j + 1, base + |bits|);
        assert forall i: nat :: Frg(i) in [Frg(base + j)] + rest <==> i == base + j || Frg(i) in rest;
      }
    }
  }

  // ---------------------------------------------------------------- losses of an ACK

  ghost predicate Shaped(r: Rule, ts: seq<Tuple>) {
    forall k | 0 <= k < |ts| :: TupleShape(r, ts[k])
  }

  /** Strictly increasing windows between `lo` and `hi`. */
  ghost predicate WindowsWithin(ts: seq<Tuple>, lo: int, hi: int) {
    && (forall k | 0 <= k < |ts| :: lo <= WindowNb(ts[k]) <= hi)
    && forall j, k | 0 <= j < k < |ts| :: WindowNb(ts[j]) < WindowNb(ts[k])
  }

  /** The sender gives up at this tuple: it deems nothing missing in it. */
  predicate GivesUpAt(r: Rule, n: nat, lastWindow: int, t: Tuple)
    requires r.windowSize > 0 && n > 0 && TupleShape(r, t)
  {
    BitmapToRetransmit(r, n, lastWindow, t).None?
  }

  /** The sender gives up on this ACK: some tuple makes update_queues stop with a Sender-Abort. */
  predicate GivesUpOn(r: Rule, n: nat, lastWindow: int, ts: seq<Tuple>)
    requires r.windowSize > 0 && n > 0 && Shaped(r, ts)
    decreases |ts|
  {
    ts != [] && (GivesUpAt(r, n, lastWindow, ts[0]) || GivesUpOn(r, n, lastWindow, ts[1..]))
  }

  function TupleLosses(r: Rule, n: nat, lastWindow: int, t: Tuple): seq<Ref>
    requires 0 < r.windowSize && r.m <= 31 && n > 0 && TupleShape(r, t)
  {
    var b := BitmapToRetransmit(r, n, lastWindow, t);
    if b.None? then [] else ZeroRefs(b.value, FirstOf(r, t), 0)
  }

  /** The pointers queued before the loop over the tuples ends. */
  function LossRefs(r: Rule, n: nat, lastWindow: int, ts: seq<Tuple>): seq<Ref>
    requires 0 < r.windowSize && r.m <= 31 && n > 0 && Shaped(r, ts)
    decreases |ts|
  {
    if ts == [] || GivesUpAt(r, n, lastWindow, ts[0]) then []
    else TupleLosses(r, n, lastWindow, ts[0]) + LossRefs(r, n, lastWindow, ts[1..])
  }

  /** Fragment `i` is reported lost by one of the tuples. */
  ghost predicate ReportedLost(r: Rule, ts: seq<Tuple>, i: nat)
    requires r.windowSize > 0 && Shaped(r, ts)
  {
    exists k | 0 <= k < |ts| :: WindowNb(ts[k]) == i / r.windowSize && !ts[k].bitmap[i % r.windowSize]
  }

  lemma DivIs(i: nat, ws: nat, w: int)
    requires ws > 0
    ensures i / ws == w <==> ws * w <= i < ws * w + ws
    ensures i / ws == w ==> i % ws == i - ws * w
  {
    if ws * w <= i < ws * w + ws {
      QuotientIs(i, ws, w, i - ws * w);
    }
    assert i == ws * (i / ws) + i % ws;
  }

  lemma TimesMonotone(ws: nat, a: int, b: int)
    requires a <= b
    ensures ws * a <= ws * b
  {
    var d: nat := b - a;
    assert ws * b == ws * a + ws * d;
  }

  /** Where windows start. */
  lemma WindowStarts(ws: nat, lo: int, w: int)
    requires lo <= w
    ensures ws * lo <= ws * w
    ensures ws * (w + 1) == ws * w + ws
  {
    TimesMonotone(ws, lo, w);
  }

  /** The pointers of one tuple: exactly its fragments whose bit is '0', below the All-1. */
  lemma TupleLossesExact(r: Rule, n: nat, lastWindow: int, t: Tuple)
    requires 0 < r.windowSize && r.m <= 31 && n > 0 && TupleShape(r, t)
    requires lastWindow == (n - 1) / r.windowSize && 0 <= WindowNb(t) <= lastWindow
    ensures var q := TupleLosses(r, n, lastWindow, t);
      var first := r.windowSize * WindowNb(t);
      && RefsBetween(q, first, first + r.windowSize) && RefsBetween(q, first, n - 1)
      && RefsIncreasing(q)
      && forall i: nat :: Frg(i) in q <==>
           i < n - 1 && i / r.windowSize == WindowNb(t) && !t.bitmap[i % r.windowSize]
  {
    var q := TupleLosses(r, n, lastWindow, t);
    var ws, w := r.windowSize, WindowNb(t);
    var b := BitmapToRetransmit(r, n, lastWindow, t);
    var len := if w != lastWindow then ws else (n - 1) % ws;
    DivIs(n - 1, ws, lastWindow);
    WindowStarts(ws, w, w);
    if w < lastWindow {
      TimesMonotone(ws, w + 1, lastWindow);
    }
    assert ws * w + len <= n - 1;
    if b.Some? {
      ZeroRefsExact(b.value, ws * w, 0);
    }
    forall i: nat
      ensures Frg(i) in q <==> i < n - 1 && i / ws == w && !t.bitmap[i % ws]
    {
      DivIs(i, ws, w);
    }
  }

  lemma TupleLossesBounds(r: Rule, n: nat, lastWindow: int, t: Tuple)
    requires 0 < r.windowSize && r.m <= 31 && n > 0 && TupleShape(r, t)
    requires lastWindow == (n - 1) / r.windowSize && 0 <= WindowNb(t) <= lastWindow
    ensures var q := TupleLosses(r, n, lastWindow, t);
      var first := r.windowSize * WindowNb(t);
      RefsIncreasing(q) && RefsBetween(q, first, first + r.windowSize) && RefsBetween(q, first, n - 1)
  {
    TupleLossesExact(r, n, lastWindow, t);
    hide *;
  }

  lemma ReportedLostCons(r: Rule, ts: seq<Tuple>, i: nat)
    requires r.windowSize > 0 && Shaped(r, ts) && ts != []
    ensures ReportedLost(r, ts, i) <==>
      (WindowNb(ts[0]) == i / r.windowSize && !ts[0].bitmap[i % r.windowSize]) || ReportedLost(r, ts[1..], i)
  {
    var rest := ts[1..];
    if ReportedLost(r, rest, i) {
      var k :| 0 <= k < |rest| && WindowNb(rest[k]) == i / r.windowSize && !rest[k].bitmap[i % r.windowSize];
      assert ts[k + 1] == rest[k];
    }
    if ReportedLost(r, ts, i) {
      var k :| 0 <= k < |ts| && WindowNb(ts[k]) == i / r.windowSize && !ts[k].bitmap[i % r.windowSize];
      assert k > 0 ==> rest[k - 1] == ts[k];
    }
  }

  /** Joining the pointers of a window to those of later windows keeps the order and the bounds. */
  lemma JoinLosses(ws: nat, lo: int, w: int, hi: int, head: seq<Ref>, tail: seq<Ref>)
    requires lo <= w
    requires RefsIncreasing(head) && RefsBetween(head, ws * w, ws * w + ws) && RefsBetween(head, ws * w, hi)
    requires RefsIncreasing(tail) && RefsBetween(tail, ws * (w + 1), hi)
    ensures RefsIncreasing(head + tail) && RefsBetween(head + tail, ws * lo, hi)
  {
    WindowStarts(ws, lo, w);
  }

  lemma WithinTail(r: Rule, ts: seq<Tuple>, lo: int, hi: int)
    requires ts != [] && WindowsWithin(ts, lo, hi) && Shaped(r, ts)
    ensures WindowsWithin(ts[1..], WindowNb(ts[0]) + 1, hi) && Shaped(r, ts[1..])
    ensures lo <= WindowNb(ts[0]) <= hi
  {
  }

  /** The queue of losses of an ACK with increasing windows is increasing and below the
      All-1, however the loop over the tuples ends. */
  lemma {:induction false} LossRefsOrdered(r: Rule, n: nat, lastWindow: int, ts: seq<Tuple>, lo: nat)
    requires 0 < r.windowSize && r.m <= 31 && n > 0 && Shaped(r, ts)
    requires lastWindow == (n - 1) / r.windowSize && WindowsWithin(ts, lo, lastWindow)
    ensures var q := LossRefs(r, n, lastWindow, ts);
      RefsIncreasing(q) && RefsBetween(q, r.windowSize * lo, n - 1)
    decreases |ts|
  {
    hide TupleLosses, GivesUpAt;
    if ts != [] && !GivesUpAt(r, n, lastWindow, ts[0]) {
      var head, rest := TupleLosses(r, n, lastWindow, ts[0]), ts[1..];
      WithinTail(r, ts, lo, lastWindow);
      LossRefsOrdered(r, n, lastWindow, rest, WindowNb(ts[0]) + 1);
      TupleLossesBounds(r, n, lastWindow, ts[0]);
      JoinLosses(r.windowSize, lo, WindowNb(ts[0]), n - 1, head, LossRefs(r, n, lastWindow, rest));
    }
  }

  /** It holds only fragments the ACK reports lost. */
  lemma {:induction false} LossRefsSound(r: Rule, n: nat, lastWindow: int, ts: seq<Tuple>, lo: nat)
    requires 0 < r.windowSize && r.m <= 31 && n > 0 && Shaped(r, ts)
    requires lastWindow == (n - 1) / r.windowSize && WindowsWithin(ts, lo, lastWindow)
    ensures forall i: nat :: Frg(i) in LossRefs(r, n, lastWindow, ts) ==> ReportedLost(r, ts, i)
    decreases |ts|
  {
    if ts != [] && !GivesUpAt(r, n, lastWindow, ts[0]) {
      var head, rest := TupleLosses(r, n, lastWindow, ts[0]), ts[1..];
      WithinTail(r, ts, lo, lastWindow);
      LossRefsSound(r, n, lastWindow, rest, WindowNb(ts[0]) + 1);
      TupleLossesExact(r, n, lastWindow, ts[0]);
      forall i: nat | Frg(i) in head + LossRefs(r, n, lastWindow, rest)
        ensures ReportedLost(r, ts, i)
      {
        ReportedLostCons(r, ts, i);
      }
    }
  }

  /** It is complete, too, when only its last tuple may be one the sender deems loss-free. */
  lemma {:induction false} LossRefsComplete(r: Rule, n: nat, lastWindow: int, ts: seq<Tuple>, lo: nat)
    requires 0 < r.windowSize && r.m <= 31 && n > 0 && Shaped(r, ts)
    requires lastWindow == (n - 1) / r.windowSize && WindowsWithin(ts, lo, lastWindow)
    requires forall k | 0 <= k < |ts| - 1 :: !GivesUpAt(r, n, lastWindow, ts[k])
    ensures forall i: nat :: i < n - 1 && ReportedLost(r, ts, i) ==> Frg(i) in LossRefs(r, n, lastWindow, ts)
    decreases |ts|
  {
    if ts != [] {
      var head, rest := TupleLosses(r, n, lastWindow, ts[0]), ts[1..];
      WithinTail(r, ts, lo, lastWindow);
      LossRefsComplete(r, n, lastWindow, rest, WindowNb(ts[0]) + 1);
      TupleLossesExact(r, n, lastWindow, ts[0]);
      var tail := LossRefs(r, n, lastWindow, rest);
      forall i: nat | i < n - 1 && ReportedLost(r, ts, i)
        ensures Frg(i) in LossRefs(r, n, lastWindow, ts)
      {
        ReportedLostCons(r, ts, i);
        assert Frg(i) in head || Frg(i) in tail;
      }
    }
  }

  // ---------------------------------------------------------------- update_queues

  /** The end of update_queues: a Sender-Abort if some tuple showed no loss, otherwise the
      All-1 again if that is what was just sent. */
  function AfterLosses(r: Rule, s: Sender, ref: Ref, stopped: bool): Sender
    requires InRange(s, ref)
  {
    if stopped then PutT(s.(senderAbort := AbortFrom(r, Deref(s, ref))), AbortSlot)
    else if IsAll1(r, Deref(s, ref)) then PutT(s, ref)
    else s
  }

  lemma {:induction false} GivesUpOnWhen(r: Rule, n: nat, lastWindow: int, ts: seq<Tuple>)
    requires r.windowSize > 0 && n > 0 && Shaped(r, ts)
    ensures GivesUpOn(r, n, lastWindow, ts) <==> exists k | 0 <= k < |ts| :: GivesUpAt(r, n, lastWindow, ts[k])
    decreases |ts|
  {
    if ts != [] {
      var rest := ts[1..];
      GivesUpOnWhen(r, n, lastWindow, rest);
      assert forall k | 0 <= k < |rest| :: rest[k] == ts[k + 1];
      assert forall k | 0 < k < |ts| :: ts[k] == rest[k - 1];
    }
  }

  lemma QueueLossesStep(r: Rule, s: Sender, ref: Ref, ts: seq<Tuple>)
    requires 0 < r.windowSize && r.m <= 31 && s.frs != [] && InRange(s, ref) && Shaped(r, ts) && ts != []
    requires !GivesUpAt(r, |s.frs|, s.lastWindow, ts[0])
    ensures var zeros := TupleLosses(r, |s.frs|, s.lastWindow, ts[0]);
      QueueLosses(r, s, ref, ts) == QueueLosses(r, s.(rq := PutAll(s.capacity, s.rq, zeros)), ref, ts[1..])
  {
  }

  /** The loop of update_queues is about to handle `ts`, whose windows start at `lo`. */
  ghost predicate Collecting(r: Rule, s: Sender, ref: Ref, ts: seq<Tuple>, lo: nat) {
    && 0 < r.windowSize && r.m <= 31 && 0 < |s.frs| <= s.capacity && InRange(s, ref) && Shaped(r, ts)
    && s.lastWindow == (|s.frs| - 1) / r.windowSize && WindowsWithin(ts, lo, s.lastWindow)
    && RefsIncreasing(s.rq) && RefsBetween(s.rq, 0, r.windowSize * lo) && RefsBetween(s.rq, 0, |s.frs| - 1)
  }

  lemma CollectNext(r: Rule, s: Sender, ref: Ref, ts: seq<Tuple>, lo: nat)
    requires Collecting(r, s, ref, ts, lo) && ts != []
    requires !GivesUpAt(r, |s.frs|, s.lastWindow, ts[0])
    ensures var zeros := TupleLosses(r, |s.frs|, s.lastWindow, ts[0]);
      && Collecting(r, s.(rq := s.rq + zeros), ref, ts[1..], WindowNb(ts[0]) + 1)
      && QueueLosses(r, s, ref, ts) == QueueLosses(r, s.(rq := s.rq + zeros), ref, ts[1..])
  {
    hide QueueLosses, GivesUpAt, TupleLosses, PutAll, RefsBetween, RefsIncreasing;
    var n := |s.frs|;
    var zeros := TupleLosses(r, n, s.lastWindow, ts[0]);
    WithinTail(r, ts, lo, s.lastWindow);
    TupleLossesBounds(r, n, s.lastWindow, ts[0]);
    JoinedQueue(r, s, zeros, lo, WindowNb(ts[0]));
    QueueLossesStep(r, s, ref, ts);
  }

  /** No put of the loop is refused: the retransmission queue grows by exactly the losses. */
  lemma {:induction false} QueueLossesIs(r: Rule, s: Sender, ref: Ref, ts: seq<Tuple>, lo: nat)
    requires Collecting(r, s, ref, ts, lo)
    ensures QueueLosses(r, s, ref, ts)
         == AfterLosses(r, s.(rq := s.rq + LossRefs(r, |s.frs|, s.lastWindow, ts)), ref,
                        GivesUpOn(r, |s.frs|, s.lastWindow, ts))
    decreases |ts|
  {
    var n := |s.frs|;
    if ts == [] || GivesUpAt(r, n, s.lastWindow, ts[0]) {
      assert s.rq + [] == s.rq;
    } else {
      var zeros, rest := TupleLosses(r, n, s.lastWindow, ts[0]), ts[1..];
      CollectNext(r, s, ref, ts, lo);
      QueueLossesIs(r, s.(rq := s.rq + zeros), ref, rest, WindowNb(ts[0]) + 1);
      AppendAssociative(s.rq, zeros, LossRefs(r, n, s.lastWindow, rest));
    }
  }

  lemma JoinedQueue(r: Rule, s: Sender, zeros: seq<Ref>, lo: nat, w: nat)
    requires 0 < r.windowSize && r.m <= 31 && 0 < |s.frs| <= s.capacity && lo <= w
    requires RefsIncreasing(s.rq) && RefsBetween(s.rq, 0, r.windowSize * lo) && RefsBetween(s.rq, 0, |s.frs| - 1)
    requires RefsIncreasing(zeros) && RefsBetween(zeros, r.windowSize * w, r.windowSize * w + r.windowSize)
    requires RefsBetween(zeros, r.windowSize * w, |s.frs| - 1)
    ensures var q := s.rq + zeros;
      && RefsIncreasing(q) && RefsBetween(q, 0, r.windowSize * (w + 1)) && RefsBetween(q, 0, |s.frs| - 1)
      && PutAll(s.capacity, s.rq, zeros) == q
  {
    WindowStarts(r.windowSize, lo, w);
    IncreasingAppend(s.rq, zeros, 0, r.windowSize * w, r.windowSize * (w + 1));
    IncreasingLength(s.rq + zeros, 0, |s.frs| - 1);
    PutAllFits(s.capacity, s.rq, zeros);
  }

  // ---------------------------------------------------------------- any ACK at all

  lemma {:induction false} PutAllAppend(capacity: nat, q: seq<Ref>, a: seq<Ref>, b: seq<Ref>)
    ensures PutAll(capacity, PutAll(capacity, q, a), b) == PutAll(capacity, q, a + b)
    decreases |a|
  {
    if a == [] {
      assert a + b == b;
    } else {
      assert (a + b)[0] == a[0] && (a + b)[1..] == a[1..] + b;
      PutAllAppend(capacity, Queues.Put(capacity, q, a[0]), a[1..], b);
    }
  }

  /** What update_queues hands to fq_put, for any ACK whatever: the losses of the tuples it
      gets to, in their order, of which the ring buffer takes what it has room for. */
  lemma {:induction false} HandedOver(r: Rule, s: Sender, ref: Ref, ts: seq<Tuple>)
    requires 0 < r.windowSize && r.m <= 31 && s.frs != [] && InRange(s, ref) && Shaped(r, ts)
    ensures QueueLosses(r, s, ref, ts)
         == AfterLosses(r, s.(rq := PutAll(s.capacity, s.rq, LossRefs(r, |s.frs|, s.lastWindow, ts))), ref,
                        GivesUpOn(r, |s.frs|, s.lastWindow, ts))
    decreases |ts|
  {
    hide IsAll1, AbortFrom, TupleLosses;
    var n := |s.frs|;
    if ts != [] && !GivesUpAt(r, n, s.lastWindow, ts[0]) {
      var zeros, rest := TupleLosses(r, n, s.lastWindow, ts[0]), ts[1..];
      QueueLossesStep(r, s, ref, ts);
      HandedOver(r, s.(rq := PutAll(s.capacity, s.rq, zeros)), ref, rest);
      PutAllAppend(s.capacity, s.rq, zeros, LossRefs(r, n, s.lastWindow, rest));
    }
  }

  /** The tuples update_queues gets to before one it deems loss-free. */
  function Reached(r: Rule, n: nat, lastWindow: int, ts: seq<Tuple>): (reached: seq<Tuple>)
    requires r.windowSize > 0 && n > 0 && Shaped(r, ts)
    ensures |reached| <= |ts| && Shaped(r, reached)
    decreases |ts|
  {
    if ts == [] || GivesUpAt(r, n, lastWindow, ts[0]) then []
    else [ts[0]] + Reached(r, n, lastWindow, ts[1..])
  }

  /** The pointers of a tuple about a window after the packet's last: there are some, and they
      lie past the end of the array. */
  lemma TuplePointersOutside(r: Rule, n: nat, lastWindow: int, t: Tuple)
    requires 0 < r.windowSize && r.m <= 31 && n > 0 && TupleShape(r, t)
    requires lastWindow == (n - 1) / r.windowSize < WindowNb(t) && !GivesUpAt(r, n, lastWindow, t)
    ensures var q := TupleLosses(r, n, lastWindow, t);
      q != [] && q[0].Frg? && q[0].idx >= n
  {
    var q, ws, w := TupleLosses(r, n, lastWindow, t), r.windowSize, WindowNb(t);
    ZeroRefsExact(t.bitmap, FirstOf(r, t), 0);
    var j :| 0 <= j < |t.bitmap| && !t.bitmap[j];
    assert Frg(FirstOf(r, t) + j) in q;
    WindowStarts(ws, lastWindow + 1, w);
    WindowStarts(ws, lastWindow, lastWindow);
    DivIs(n - 1, ws, lastWindow);
  }

  /** All windows are the packet's. */
  ghost predicate PacketWindows(ts: seq<Tuple>, lastWindow: int) {
    forall k | 0 <= k < |ts| :: WindowNb(ts[k]) <= lastWindow
  }

  lemma PacketWindowsCons(t: Tuple, rest: seq<Tuple>, lastWindow: int)
    ensures PacketWindows([t] + rest, lastWindow) <==> WindowNb(t) <= lastWindow && PacketWindows(rest, lastWindow)
  {
    var ts := [t] + rest;
    assert forall k | 0 <= k < |rest| :: ts[k + 1] == rest[k];
    assert ts[0] == t;
    if WindowNb(t) <= lastWindow && PacketWindows(rest, lastWindow) {
      assert forall k | 0 < k < |ts| :: ts[k] == rest[k - 1];
    }
  }

  lemma TuplePointers(r: Rule, n: nat, lastWindow: int, t: Tuple)
    requires 0 < r.windowSize && r.m <= 31 && n > 0 && TupleShape(r, t)
    requires lastWindow == (n - 1) / r.windowSize && !GivesUpAt(r, n, lastWindow, t)
    ensures var q := TupleLosses(r, n, lastWindow, t);
      && (RefsBetween(q, 0, n) <==> WindowNb(t) <= lastWindow)
      && (RefsBetween(q, 0, n) ==> RefsBetween(q, 0, n - 1))
  {
    hide TupleLosses, GivesUpAt;
    if WindowNb(t) > lastWindow {
      TuplePointersOutside(r, n, lastWindow, t);
    } else {
      TupleLossesBounds(r, n, lastWindow, t);
      FromZero(TupleLosses(r, n, lastWindow, t), r.windowSize, WindowNb(t), n - 1);
    }
  }

  /** Exactly when a pointer leaves the array: no pointer handed to fq_put lies past the end
      of the fragment array if and only if no tuple reached names a window after the packet's
      last; and then every pointer is below the All-1. */
  lemma {:induction false} PointersInside(r: Rule, n: nat, lastWindow: int, ts: seq<Tuple>)
    requires 0 < r.windowSize && r.m <= 31 && n > 0 && Shaped(r, ts) && lastWindow == (n - 1) / r.windowSize
    ensures var q := LossRefs(r, n, lastWindow, ts);
      && (RefsBetween(q, 0, n) <==> PacketWindows(Reached(r, n, lastWindow, ts), lastWindow))
      && (RefsBetween(q, 0, n) ==> RefsBetween(q, 0, n - 1))
    decreases |ts|
  {
    hide TupleLosses, GivesUpAt, RefsBetween, PacketWindows;
    if ts == [] || GivesUpAt(r, n, lastWindow, ts[0]) {
      NoPointers(n, lastWindow);
    } else {
      var t, rest := ts[0], ts[1..];
      var head, tail := TupleLosses(r, n, lastWindow, t), LossRefs(r, n, lastWindow, rest);
      PointersInside(r, n, lastWindow, rest);
      TuplePointers(r, n, lastWindow, t);
      SplitBetween(head, tail, 0, n);
      SplitBetween(head, tail, 0, n - 1);
      PacketWindowsCons(t, Reached(r, n, lastWindow, rest), lastWindow);
    }
  }

  lemma NoPointers(n: nat, lastWindow: int)
    ensures RefsBetween([], 0, n) && RefsBetween([], 0, n - 1) && PacketWindows([], lastWindow)
  {
  }

  lemma SplitBetween(a: seq<Ref>, b: seq<Ref>, lo: int, hi: int)
    ensures RefsBetween(a + b, lo, hi) <==> RefsBetween(a, lo, hi) && RefsBetween(b, lo, hi)
  {
    var q := a + b;
    if RefsBetween(q, lo, hi) {
      assert forall k | 0 <= k < |a| :: a[k] == q[k];
      assert forall k | 0 <= k < |b| :: b[k] == q[|a| + k];
    }
  }

  lemma FromZero(q: seq<Ref>, ws: nat, w: nat, hi: int)
    requires RefsBetween(q, ws * w, hi)
    ensures RefsBetween(q, 0, hi) && RefsBetween(q, 0, hi + 1)
  {
  }
}
