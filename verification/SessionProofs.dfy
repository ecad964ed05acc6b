/**
  Properties of the receiver session.
 */
module SessionProofs {
  import opened Options
  import opened Bits
  import opened Rules
  import opened Fragments
  import opened FrProcedure
  import opened Acks
  import opened AckProofs
  import opened SessionModel

  // ---------------------------------------------------------------- arrival order

  /** The session has seen exactly the fragments in `got`. */
  ghost predicate Tracks(r: Rule, frs: seq<Fragment>, st: Session, got: set<nat>) {
    && Sized(r, st) && |frs| <= r.MaxFragmentNb()
    && st.lastAck.NullAck?
    && (forall i | 0 <= i < r.MaxFragmentNb() :: st.bitmap[i] <==> i in got)
    && (forall i | i in got :: i < |frs| && st.fragments[i] == frs[i])
    && (forall i | 0 <= i <= r.MaxFragmentNb() && i !in got :: st.fragments[i] == NullFragment)
  }

  /** Fragments arrive one after the other. */
  function ReceiveAll(r: Rule, st: Session, frs: seq<Fragment>, order: seq<nat>): Session
    requires Sized(r, st)
    requires forall k | 0 <= k < |order| :: order[k] < |frs| && Numbered(r, frs[order[k]])
    decreases |order|
  {
    if order == [] then st else ReceiveAll(r, Receive(r, st, frs[order[0]]), frs, order[1..])
  }

  /** The numbers that have arrived. */
  function Arrived(order: seq<nat>): set<nat> { set i | i in order }

  /** Each fragment carries its own position as its number. */
  ghost predicate Indexed(r: Rule, frs: seq<Fragment>) {
    |frs| <= r.MaxFragmentNb() && forall i | 0 <= i < |frs| :: FragmentNb(r, frs[i]) == i
  }

  ghost predicate Indices(order: seq<nat>, n: nat) {
    forall k | 0 <= k < |order| :: order[k] < n
  }

  lemma ReceiveTracks(r: Rule, frs: seq<Fragment>, st: Session, got: set<nat>, i: nat)
    requires Tracks(r, frs, st, got) && i < |frs| && FragmentNb(r, frs[i]) == i
    ensures Numbered(r, frs[i])
    ensures Tracks(r, frs, Receive(r, st, frs[i]), got + {i})
  {
    assert !IsComplete(r, st.lastAck);
    hide FragmentNb, IsAll1, IsComplete, StoreFragment, Tracks;
    StoreTracks(r, frs, st, got, i);
    OneMoreTracked(r, frs, st, got, i);
  }

  lemma OneMoreTracked(r: Rule, frs: seq<Fragment>, st: Session, got: set<nat>, i: nat)
    requires Tracks(r, frs, st, got) && i < |frs| && |st.bitmap| == r.MaxFragmentNb() < |st.fragments|
    ensures i < |st.bitmap|
    ensures Tracks(r, frs, st.(fragments := st.fragments[i := frs[i]], bitmap := st.bitmap[i := true]), got + {i})
  {
  }

  /** What the session holds once fragment `i` is stored, before it is marked. */
  lemma StoreTracks(r: Rule, frs: seq<Fragment>, st: Session, got: set<nat>, i: nat)
    requires Tracks(r, frs, st, got) && i < |frs| && FragmentNb(r, frs[i]) == i && !IsComplete(r, st.lastAck)
    ensures Numbered(r, frs[i])
    ensures StoreFragment(r, st, frs[i]) == st.(fragments := st.fragments[i := frs[i]])
  {
    hide FragmentNb, IsAll1, IsComplete;
    assert st.bitmap[i] ==> st.fragments[i := frs[i]] == st.fragments;
  }

  lemma OrderNumbered(r: Rule, frs: seq<Fragment>, order: seq<nat>)
    requires Indexed(r, frs) && Indices(order, |frs|)
    ensures forall k | 0 <= k < |order| :: order[k] < |frs| && Numbered(r, frs[order[k]])
  {
    hide FragmentNb;
  }

  lemma ArrivedCons(got: set<nat>, order: seq<nat>)
    requires order != []
    ensures got + {order[0]} + Arrived(order[1..]) == got + Arrived(order)
  {
    assert order == [order[0]] + order[1..];
  }

  lemma {:induction false} ReceiveAllTracks(r: Rule, frs: seq<Fragment>, st: Session, got: set<nat>, order: seq<nat>)
    requires Tracks(r, frs, st, got) && Indexed(r, frs) && Indices(order, |frs|)
    ensures forall k | 0 <= k < |order| :: order[k] < |frs| && Numbered(r, frs[order[k]])
    ensures Sized(r, st)
    ensures Tracks(r, frs, ReceiveAll(r, st, frs, order), got + Arrived(order))
    decreases |order|
  {
    hide FragmentNb, Receive;
    OrderNumbered(r, frs, order);
    if order == [] {
      assert got + Arrived(order) == got;
    } else {
      ReceiveTracks(r, frs, st, got, order[0]);
      ReceiveAllTracks(r, frs, Receive(r, st, frs[order[0]]), got + {order[0]}, order[1..]);
      ArrivedCons(got, order);
    }
  }

  lemma FaithfulIndexed(r: Rule, frs: seq<Fragment>)
    requires Faithful(r, frs)
    ensures Indexed(r, frs)
  {
    forall i | 0 <= i < |frs|
      ensures FragmentNb(r, frs[i]) == i
    {
      assert FaithfulAt(r, frs[i], i, |frs|);
    }
  }

  lemma NothingArrived(r: Rule, frs: seq<Fragment>)
    requires |frs| <= r.MaxFragmentNb()
    ensures Tracks(r, frs, NewSession(r), {})
  {
  }

  /** Whatever the order and however many duplicates, a fresh session marks and stores
      exactly the fragments that have arrived. */
  lemma ArrivalOrder(r: Rule, frs: seq<Fragment>, order: seq<nat>)
    requires Faithful(r, frs) && Indices(order, |frs|)
    ensures Sized(r, NewSession(r))
    ensures forall k | 0 <= k < |order| :: order[k] < |frs| && Numbered(r, frs[order[k]])
    ensures Tracks(r, frs, ReceiveAll(r, NewSession(r), frs, order), Arrived(order))
  {
    hide Faithful, FragmentNb, Tracks, NewSession, ReceiveAll;
    FaithfulIndexed(r, frs);
    NothingArrived(r, frs);
    ReceiveAllTracks(r, frs, NewSession(r), {}, order);
    assert {} + Arrived(order) == Arrived(order);
  }

  // ---------------------------------------------------------------- the first one stays

  /** Every fragment that arrives has a number the session can index with. */
  ghost predicate AllNumbered(r: Rule, frs: seq<Fragment>, order: seq<nat>) {
    forall k | 0 <= k < |order| :: order[k] < |frs| && Numbered(r, frs[order[k]])
  }

  /** Arrival `k` carries the number `i`. */
  ghost predicate HasNumber(r: Rule, frs: seq<Fragment>, order: seq<nat>, k: nat, i: nat) {
    k < |order| && order[k] < |frs| && FragmentNb(r, frs[order[k]]) == i
  }

  lemma ReceiveOne(r: Rule, st: Session, f: Fragment, i: nat)
    requires Sized(r, st) && Numbered(r, f) && st.lastAck.NullAck? && i <= r.MaxFragmentNb()
    ensures var st', nb := Receive(r, st, f), FragmentNb(r, f);
      && Sized(r, st') && st'.lastAck.NullAck?
      && (i < r.MaxFragmentNb() ==> st'.bitmap[i] == (st.bitmap[i] || i == nb))
      && st'.fragments[i] == if i == nb && !st.bitmap[i] then f else st.fragments[i]
  {
    hide FragmentNb, IsAll1;
  }

  /** A fragment whose number is marked changes nothing. */
  lemma ReceiveMarked(r: Rule, st: Session, f: Fragment)
    requires Sized(r, st) && Numbered(r, f) && st.bitmap[FragmentNb(r, f)]
    ensures Receive(r, st, f) == st
  {
    hide FragmentNb, IsAll1;
    assert st.bitmap[FragmentNb(r, f) := true] == st.bitmap;
  }

  lemma ReceiveAllStep(r: Rule, frs: seq<Fragment>, st: Session, order: seq<nat>)
    requires Sized(r, st) && AllNumbered(r, frs, order)
    ensures if order == [] then ReceiveAll(r, st, frs, order) == st
            else
              && AllNumbered(r, frs, order[1..]) && order[0] < |frs| && Numbered(r, frs[order[0]])
              && ReceiveAll(r, st, frs, order) == ReceiveAll(r, Receive(r, st, frs[order[0]]), frs, order[1..])
  {
    hide Numbered, Receive;
  }

  lemma NumberNext(r: Rule, frs: seq<Fragment>, order: seq<nat>, k: nat, i: nat)
    requires order != []
    ensures HasNumber(r, frs, order[1..], k, i) <==> HasNumber(r, frs, order, k + 1, i)
    ensures order[0] < |frs| ==> (HasNumber(r, frs, order, 0, i) <==> FragmentNb(r, frs[order[0]]) == i)
  {
    hide FragmentNb;
  }

  /** A number that is marked keeps its mark and its fragment. */
  lemma {:induction false} MarkedStays(r: Rule, frs: seq<Fragment>, st: Session, order: seq<nat>, i: nat)
    requires Sized(r, st) && AllNumbered(r, frs, order) && st.lastAck.NullAck?
    requires i < r.MaxFragmentNb() && st.bitmap[i]
    ensures var last := ReceiveAll(r, st, frs, order);
      Sized(r, last) && last.bitmap[i] && last.fragments[i] == st.fragments[i]
    decreases |order|
  {
    hide AllNumbered, ReceiveAll, Receive, Numbered, FragmentNb;
    ReceiveAllStep(r, frs, st, order);
    if order != [] {
      ReceiveOne(r, st, frs[order[0]], i);
      MarkedStays(r, frs, Receive(r, st, frs[order[0]]), order[1..], i);
    }
  }

  /** A number no arrival carries stays as it was. */
  lemma {:induction false} NeverCarried(r: Rule, frs: seq<Fragment>, st: Session, order: seq<nat>, i: nat)
    requires Sized(r, st) && AllNumbered(r, frs, order) && st.lastAck.NullAck? && i <= r.MaxFragmentNb()
    requires forall k | 0 <= k < |order| :: !HasNumber(r, frs, order, k, i)
    ensures var last := ReceiveAll(r, st, frs, order);
      && Sized(r, last) && last.fragments[i] == st.fragments[i]
      && (i < r.MaxFragmentNb() ==> last.bitmap[i] == st.bitmap[i])
    decreases |order|
  {
    hide AllNumbered, ReceiveAll, Receive, Numbered, FragmentNb, HasNumber;
    ReceiveAllStep(r, frs, st, order);
    if order != [] {
      ReceiveOne(r, st, frs[order[0]], i);
      forall k | 0 <= k < |order| - 1
        ensures !HasNumber(r, frs, order[1..], k, i)
      {
        NumberNext(r, frs, order, k, i);
      }
      NumberNext(r, frs, order, 0, i);
      assert !HasNumber(r, frs, order, 0, i);
      NeverCarried(r, frs, Receive(r, st, frs[order[0]]), order[1..], i);
    }
  }

  /** The first arrival with a number not marked yet is the one that is kept. */
  lemma {:induction false} FirstKept(r: Rule, frs: seq<Fragment>, st: Session, order: seq<nat>, k: nat, i: nat)
    requires Sized(r, st) && AllNumbered(r, frs, order) && st.lastAck.NullAck?
    requires i < r.MaxFragmentNb() && !st.bitmap[i] && HasNumber(r, frs, order, k, i)
    requires forall j | 0 <= j < k :: !HasNumber(r, frs, order, j, i)
    ensures k < |order| && order[k] < |frs|
    ensures var last := ReceiveAll(r, st, frs, order);
      Sized(r, last) && last.bitmap[i] && last.fragments[i] == frs[order[k]]
    decreases |order|
  {
    hide *;
    NumberInside(r, frs, order, k, i);
    ReceiveAllStep(r, frs, st, order);
    ReceiveOne(r, st, frs[order[0]], i);
    NumberNext(r, frs, order, 0, i);
    var next := Receive(r, st, frs[order[0]]);
    if k == 0 {
      MarkedStays(r, frs, next, order[1..], i);
    } else {
      NumberNext(r, frs, order, k - 1, i);
      assert !HasNumber(r, frs, order, 0, i);
      forall j | 0 <= j < k - 1
        ensures !HasNumber(r, frs, order[1..], j, i)
      {
        NumberNext(r, frs, order, j, i);
      }
      FirstKept(r, frs, next, order[1..], k - 1, i);
    }
  }

  lemma NumberInside(r: Rule, frs: seq<Fragment>, order: seq<nat>, k: nat, i: nat)
    requires HasNumber(r, frs, order, k, i)
    ensures k < |order| && order[k] < |frs|
  {
    hide FragmentNb;
  }

  /** Whatever fragments arrive, of one packet or not, as long as they are numbered: a fresh
      session marks the numbers that arrived, and keeps of each number the fragment that
      arrived with it first. */
  lemma FirstArrivalKept(r: Rule, frs: seq<Fragment>, order: seq<nat>, i: nat)
    requires AllNumbered(r, frs, order) && i <= r.MaxFragmentNb()
    ensures Sized(r, NewSession(r))
    ensures forall k | 0 <= k < |order| && HasNumber(r, frs, order, k, i) :: order[k] < |frs|
    ensures var st := ReceiveAll(r, NewSession(r), frs, order);
      && Sized(r, st)
      && (i < r.MaxFragmentNb() ==>
            (st.bitmap[i] <==> exists k | 0 <= k < |order| :: HasNumber(r, frs, order, k, i)))
      && (forall k | 0 <= k < |order| && HasNumber(r, frs, order, k, i) ::
            (forall j | 0 <= j < k :: !HasNumber(r, frs, order, j, i)) ==> st.fragments[i] == frs[order[k]])
      && ((forall k | 0 <= k < |order| :: !HasNumber(r, frs, order, k, i)) ==> st.fragments[i] == NullFragment)
  {
    hide *;
    Fresh(r, i);
    NumbersInside(r, frs, order, i);
    var st := NewSession(r);
    if k :| 0 <= k < |order| && HasNumber(r, frs, order, k, i) {
      var first := FirstWith(r, frs, order, k, i);
      FirstKept(r, frs, st, order, first, i);
      forall k | 0 <= k < |order| && HasNumber(r, frs, order, k, i) && k != first
        ensures exists j | 0 <= j < k :: HasNumber(r, frs, order, j, i)
      {
        assert first < k && HasNumber(r, frs, order, first, i);
      }
    } else {
      NeverCarried(r, frs, st, order, i);
    }
  }

  lemma Fresh(r: Rule, i: nat)
    requires i <= r.MaxFragmentNb()
    ensures var st := NewSession(r);
      && Sized(r, st) && st.fragments[i] == NullFragment && st.lastAck.NullAck?
      && (i < r.MaxFragmentNb() ==> !st.bitmap[i])
  {
  }

  lemma NumbersInside(r: Rule, frs: seq<Fragment>, order: seq<nat>, i: nat)
    requires AllNumbered(r, frs, order)
    ensures forall k | 0 <= k < |order| && HasNumber(r, frs, order, k, i) ::
      order[k] < |frs| && i < r.MaxFragmentNb()
  {
    hide FragmentNb;
  }

  /** The first arrival that carries the number of arrival `k`. */
  lemma FirstWith(r: Rule, frs: seq<Fragment>, order: seq<nat>, k: nat, i: nat) returns (first: nat)
    requires HasNumber(r, frs, order, k, i)
    ensures first <= k && HasNumber(r, frs, order, first, i)
    ensures forall j | 0 <= j < first :: !HasNumber(r, frs, order, j, i)
  {
    hide HasNumber;
    first := 0;
    while !HasNumber(r, frs, order, first, i)
      invariant first <= k && forall j | 0 <= j < first :: !HasNumber(r, frs, order, j, i)
      decreases k - first
    {
      first := first + 1;
    }
  }

  /** One more fragment is stored exactly when none with its number has arrived before. */
  lemma StoredOnce(r: Rule, frs: seq<Fragment>, order: seq<nat>, f: Fragment)
    requires AllNumbered(r, frs, order) && Numbered(r, f)
    ensures Sized(r, NewSession(r)) && Sized(r, ReceiveAll(r, NewSession(r), frs, order))
    ensures var st, nb := ReceiveAll(r, NewSession(r), frs, order), FragmentNb(r, f);
      StoreFragment(r, st, f) ==
        if exists k | 0 <= k < |order| :: HasNumber(r, frs, order, k, nb) then st
        else st.(fragments := st.fragments[nb := f])
  {
    var st, nb := ReceiveAll(r, NewSession(r), frs, order), FragmentNb(r, f);
    FirstArrivalKept(r, frs, order, nb);
    LastAckStays(r, frs, NewSession(r), order);
    hide ReceiveAll, AllNumbered, FragmentNb, IsAll1, HasNumber;
  }

  lemma {:induction false} LastAckStays(r: Rule, frs: seq<Fragment>, st: Session, order: seq<nat>)
    requires Sized(r, st) && AllNumbered(r, frs, order) && st.lastAck.NullAck?
    ensures ReceiveAll(r, st, frs, order).lastAck.NullAck?
    decreases |order|
  {
    hide AllNumbered, ReceiveAll, Receive, Numbered, FragmentNb;
    ReceiveAllStep(r, frs, st, order);
    if order != [] {
      ReceiveOne(r, st, frs[order[0]], 0);
      LastAckStays(r, frs, Receive(r, st, frs[order[0]]), order[1..]);
    }
  }

  lemma TrackedHolds(r: Rule, packet: seq<Byte>, st: Session, got: set<nat>)
    requires r.WellFormed() && Accepted(r, packet)
    requires Tracks(r, FragmentsOf(r, packet), st, got)
    requires forall i | 0 <= i < NbFragments(r, |packet|) :: i in got
    ensures Holds(r, packet, st.fragments)
  {
    hide NbFragments, FragmentsOf;
    var frs, n := FragmentsOf(r, packet), NbFragments(r, |packet|);
    assert st.fragments[..n] == frs;
    assert n !in got;
  }

  /** Once all fragments of a packet have arrived, the session's own array gives back the
      length and the bytes of the packet. */
  lemma SessionReassembles(r: Rule, packet: seq<Byte>, order: seq<nat>, dest: seq<Byte>)
    requires r.WellFormed() && Accepted(r, packet) && |dest| == |packet|
    requires Indices(order, NbFragments(r, |packet|))
    requires forall i | 0 <= i < NbFragments(r, |packet|) :: i in Arrived(order)
    ensures Sized(r, NewSession(r))
    ensures forall k | 0 <= k < |order| ::
      order[k] < |FragmentsOf(r, packet)| && Numbered(r, FragmentsOf(r, packet)[order[k]])
    ensures var st := ReceiveAll(r, NewSession(r), FragmentsOf(r, packet), order);
      && MeetsAll1(r, st.fragments, 0) && PacketLength(r, st.fragments, 0) == |packet|
      && Lands(r, st.fragments, 0, |dest|) && Reassembled(r, st.fragments, 0, dest) == (0, packet)
  {
    hide Faithful, MeetsAll1, PacketLength, Lands, Reassembled, NbFragments, FragmentsOf, NewSession, Tracks, Numbered,
         ReceiveAll;
    FragmentsAreFaithful(r, packet);
    ArrivalOrder(r, FragmentsOf(r, packet), order);
    var st := ReceiveAll(r, NewSession(r), FragmentsOf(r, packet), order);
    TrackedHolds(r, packet, st, Arrived(order));
    FragmentThenReassemble(r, packet, st.fragments, dest);
  }

  // ---------------------------------------------------------------- bitmap check

  lemma WindowBitAt(r: Rule, b: BitString, w: nat, j: nat)
    requires |b| == r.MaxFragmentNb() && w < r.MaxWindowNb() && j < r.windowSize
    ensures 0 <= w * r.windowSize + j < |b|
    ensures WindowBits(r, b, w)[j] == b[w * r.windowSize + j]
  {
    WindowSlice(r.windowSize, r.MaxWindowNb(), w);
  }

  /** The table is one bitmap per window, and generate_ack reports from it exactly the
      windows up to the trigger's that the check found lossy and that are not all '1'. */
  lemma TableExact(r: Rule, b: BitString, f: Fragment)
    requires r.WellFormed() && |b| == r.MaxFragmentNb() && Trigger(r, f)
    ensures BitmapTable(r, LossTable(r, b, f))
    ensures forall w | 0 <= w < r.MaxWindowNb() ::
      Lossy(LossTable(r, b, f)[w]) <==>
        w <= Window(r, f) && WindowLost(r, b, f, w) && !Monochar(WindowBits(r, b, w), true)
  {
    hide WindowLost, Trigger;
  }

  lemma NoTupleNoC(r: Rule)
    requires r.WellFormed()
    ensures AckC(r, AckOf(RuleIdBits(r))) == [false]
  {
    AckOfBits(RuleIdBits(r));
  }

  /** session_generate_ack produces an ACK exactly when some window is lossy, and what it
      produces is never a complete ACK: with nothing lost the blanked table makes
      generate_ack fail its own check. */
  lemma AckOnlyOnLoss(r: Rule, b: BitString, f: Fragment)
    requires r.WellFormed() && |b| == r.MaxFragmentNb() && Trigger(r, f)
    ensures SessionAck(r, b, f).Some? <==> AnyLost(r, b, f)
    ensures SessionAck(r, b, f).Some? ==> !IsComplete(r, SessionAck(r, b, f).value)
  {
    var t := LossTable(r, b, f);
    TableExact(r, b, f);
    hide IsComplete, IsReceiverAbort;
    if AnyLost(r, b, f) {
      ReportNotComplete(r, t, Window(r, f));
    } else {
      assert t[0] == [];
    }
  }

  lemma ReportNotComplete(r: Rule, t: seq<BitString>, wdw: nat)
    requires r.WellFormed() && BitmapTable(r, t) && wdw < |t|
    ensures GeneratedAck(r, wdw, false, t).Some? && !IsComplete(r, GeneratedAck(r, wdw, false, t).value)
  {
    if LossyFrom(t, 0, wdw) != [] {
      LossReportClass(r, t, wdw);
    } else {
      WrittenIsPrefix(r, t, 0, wdw, 0);
      NoTupleNoC(r);
      assert GeneratedAck(r, wdw, false, t) == Some(AckOf(RuleIdBits(r)));
    }
  }

  /** The table of a bitmap: every window, none left blank. */
  ghost function AllWindows(r: Rule, b: BitString): (t: seq<BitString>)
    requires |b| == r.MaxFragmentNb()
    ensures |t| == r.MaxWindowNb() && forall w | 0 <= w < |t| :: t[w] == WindowBits(r, b, w)
  {
    seq(r.MaxWindowNb(), w requires 0 <= w < r.MaxWindowNb() => WindowBits(r, b, w))
  }

  /** A complete ACK for window `w` is generated from the windows of a bitmap exactly when
      every fragment of the windows up to `w` is marked. */
  lemma CompleteExactly(r: Rule, b: BitString, w: nat)
    requires r.windowSize > 0 && |b| == r.MaxFragmentNb() && w < r.MaxWindowNb()
    ensures (w + 1) * r.windowSize <= |b|
    ensures GeneratedAck(r, w, true, AllWindows(r, b)).Some?
        <==> forall i | 0 <= i < (w + 1) * r.windowSize :: b[i]
    ensures GeneratedAck(r, w, true, AllWindows(r, b)).Some? ==>
      GeneratedAck(r, w, true, AllWindows(r, b)) == Some(CompleteAck(r, w))
  {
    hide *;
    MulMonotone(w + 1, r.MaxWindowNb(), r.windowSize);
    TotalFragments(r);
    CompleteRefused(r, w, AllWindows(r, b));
    forall i | 0 <= i < (w + 1) * r.windowSize
      ensures 0 <= i < |b| && exists k | 0 <= k <= w :: !b[i] ==> false in AllWindows(r, b)[k]
    {
      WindowInRange(i, r.windowSize, w + 1);
      WindowBitAt(r, b, i / r.windowSize, i % r.windowSize);
      Recomposed(i, r.windowSize);
      assert AllWindows(r, b)[i / r.windowSize][i % r.windowSize] == b[i];
    }
    forall k | 0 <= k <= w && (AllWindows(r, b)[k] == [] || false in AllWindows(r, b)[k])
      ensures exists i | 0 <= i < (w + 1) * r.windowSize :: !b[i]
    {
      var j :| 0 <= j < r.windowSize && !AllWindows(r, b)[k][j];
      WindowBitAt(r, b, k, j);
      MulMonotone(k + 1, w + 1, r.windowSize);
      assert (k + 1) * r.windowSize == k * r.windowSize + r.windowSize;
      assert !b[k * r.windowSize + j];
    }
  }

  lemma TotalFragments(r: Rule)
    ensures r.MaxFragmentNb() == r.MaxWindowNb() * r.windowSize
  {
  }

  lemma Recomposed(i: nat, ws: nat)
    requires ws > 0
    ensures i / ws * ws + i % ws == i
  {
    assert i / ws * ws == ws * (i / ws);
  }

  /** Every fragment of a packet of `n` fragments is marked, and nothing else. */
  ghost predicate AllMarked(r: Rule, b: BitString, n: nat) {
    |b| == r.MaxFragmentNb() && forall i | 0 <= i < |b| :: b[i] <==> i < n
  }

  lemma FullWindow(r: Rule, b: BitString, n: nat, w: nat)
    requires r.windowSize > 0 && AllMarked(r, b, n) && w < r.MaxWindowNb()
    requires (w + 1) * r.windowSize <= n
    ensures Monochar(WindowBits(r, b, w), true)
  {
    assert (w + 1) * r.windowSize == w * r.windowSize + r.windowSize;
    forall j | 0 <= j < r.windowSize
      ensures WindowBits(r, b, w)[j]
    {
      WindowBitAt(r, b, w, j);
    }
  }

  lemma LastWindowBits(r: Rule, b: BitString, w: nat, rcs: nat)
    requires 1 <= rcs <= r.windowSize && w < r.MaxWindowNb() && AllMarked(r, b, w * r.windowSize + rcs)
    ensures WindowBits(r, b, w) == Repeat(true, rcs) + Repeat(false, r.windowSize - rcs)
  {
    var bits := WindowBits(r, b, w);
    forall j | 0 <= j < r.windowSize
      ensures bits[j] == (j < rcs)
    {
      WindowBitAt(r, b, w, j);
    }
  }

  lemma ExpectedDiffers(ws: nat, rcs: nat)
    requires 1 <= rcs <= ws && ws >= 2
    ensures Repeat(true, rcs) + Repeat(false, ws - rcs) == ExpectedBits(ws, rcs) <==> rcs == ws
  {
    var a, e := Repeat(true, rcs) + Repeat(false, ws - rcs), ExpectedBits(ws, rcs);
    assert rcs < ws ==> a[rcs - 1] && !e[rcs - 1];
    if rcs == ws {
      assert a == e;
    }
  }

  lemma FullIffMultiple(n: nat, ws: nat)
    requires ws > 0 && n >= 1
    ensures (n - 1) % ws + 1 == ws <==> n % ws == 0
  {
    var q, m := (n - 1) / ws, (n - 1) % ws;
    assert n == ws * q + m + 1;
    if m + 1 == ws {
      assert ws * (q + 1) == ws * q + ws;
      QuotientIs(n, ws, q + 1, 0);
    } else {
      QuotientIs(n, ws, q, m + 1);
    }
  }

  /** The All-1 of a packet. */
  function All1Of(frs: seq<Fragment>): Fragment
    requires frs != []
  {
    frs[|frs| - 1]
  }

  lemma LastPosition(n: nat, ws: nat, windows: nat)
    requires ws > 0 && 1 <= n <= windows * ws
    ensures 0 <= (n - 1) / ws < windows && 0 <= (n - 1) % ws < ws
    ensures n == (n - 1) / ws * ws + ((n - 1) % ws + 1)
  {
    WindowInRange(n - 1, ws, windows);
    assert (n - 1) / ws * ws == ws * ((n - 1) / ws);
  }

  lemma All1Trigger(r: Rule, frs: seq<Fragment>)
    requires Faithful(r, frs)
    ensures frs != [] && r.windowSize >= 2
    ensures var n, f := |frs|, All1Of(frs);
      && Trigger(r, f) && IsAll1(r, f)
      && (n - 1) / r.windowSize == Window(r, f)
      && 0 <= Window(r, f) < r.MaxWindowNb()
      && BinToInt(Rcs(r, f)) == (n - 1) % r.windowSize + 1
      && n == Window(r, f) * r.windowSize + BinToInt(Rcs(r, f))
  {
    hide Faithful, IsAll1, Rcs, Window, ExpectsAck, All1Of;
    All1Fields(r, frs);
    LastPosition(|frs|, r.windowSize, r.MaxWindowNb());
  }

  lemma All1Fields(r: Rule, frs: seq<Fragment>)
    requires Faithful(r, frs)
    ensures 1 <= |frs| <= r.MaxFragmentNb() && r.windowSize >= 2
    ensures var n, f := |frs|, All1Of(frs);
      && ExpectsAck(r, f) && IsAll1(r, f) && Window(r, f) == (n - 1) / r.windowSize
      && BinToInt(Rcs(r, f)) == (n - 1) % r.windowSize + 1
  {
    assert FaithfulAt(r, frs[|frs| - 1], |frs| - 1, |frs|);
    hide IsAll1, IsAll0, Rcs, Window, RuleIdBits, FragmentNb, IsSenderAbort, RuleIdField;
  }

  lemma EarlierWindowsFull(r: Rule, b: BitString, f: Fragment, n: nat)
    requires r.windowSize > 0 && AllMarked(r, b, n) && Trigger(r, f) && Window(r, f) * r.windowSize <= n
    ensures forall w | 0 <= w < Window(r, f) :: !WindowLost(r, b, f, w)
  {
    hide *;
    TriggerWindowIs(r, f);
    AllMarkedSize(r, b, n);
    forall w | 0 <= w < Window(r, f)
      ensures !WindowLost(r, b, f, w)
    {
      MulMonotone(w + 1, Window(r, f), r.windowSize);
      FullWindow(r, b, n, w);
      FullNotLost(r, b, f, w);
    }
  }

  lemma TriggerWindowIs(r: Rule, f: Fragment)
    requires Trigger(r, f)
    ensures 0 <= Window(r, f) < r.MaxWindowNb()
  {
    hide IsAll1, ExpectsAck, Rcs, Window;
  }

  lemma AllMarkedSize(r: Rule, b: BitString, n: nat)
    requires AllMarked(r, b, n)
    ensures |b| == r.MaxFragmentNb()
  {
  }

  lemma FullNotLost(r: Rule, b: BitString, f: Fragment, w: nat)
    requires |b| == r.MaxFragmentNb() && w < r.MaxWindowNb() && Trigger(r, f) && w < Window(r, f)
    requires Monochar(WindowBits(r, b, w), true)
    ensures !WindowLost(r, b, f, w)
  {
    hide IsAll1, Rcs, Trigger, Window, Monochar, WindowBits;
  }

  lemma LastWindowLost(r: Rule, frs: seq<Fragment>, b: BitString)
    requires Faithful(r, frs) && AllMarked(r, b, |frs|) && |b| == r.MaxFragmentNb() && frs != []
    requires r.windowSize > 0 && Trigger(r, All1Of(frs)) && 0 <= Window(r, All1Of(frs)) < r.MaxWindowNb()
    ensures WindowLost(r, b, All1Of(frs), Window(r, All1Of(frs))) <==> |frs| % r.windowSize != 0
  {
    hide Faithful, IsAll1, ExpectsAck, Rcs, Trigger, Window, AllMarked, Monochar, All1Of, WindowBits, ExpectedBits;
    All1Trigger(r, frs);
    var f := All1Of(frs);
    var rcs := BinToInt(Rcs(r, f));
    LastWindowBits(r, b, Window(r, f), rcs);
    ExpectedDiffers(r.windowSize, rcs);
    FullIffMultiple(|frs|, r.windowSize);
  }

  /** When every fragment of a packet is marked, the check an All-1 triggers reports no loss
      exactly if the number of fragments is a multiple of the window size: the All-1 marks
      the position after the last data fragment, the check expects the end of the window. */
  lemma FullyReceivedCheck(r: Rule, frs: seq<Fragment>, b: BitString)
    requires Faithful(r, frs) && AllMarked(r, b, |frs|)
    ensures frs != [] && r.windowSize > 0 && Trigger(r, All1Of(frs))
    ensures AnyLost(r, b, All1Of(frs)) <==> |frs| % r.windowSize != 0
    ensures forall w | 0 <= w < Window(r, All1Of(frs)) :: !WindowLost(r, b, All1Of(frs), w)
    ensures WindowLost(r, b, All1Of(frs), Window(r, All1Of(frs))) <==> |frs| % r.windowSize != 0
  {
    assert |b| == r.MaxFragmentNb();
    hide Faithful, IsAll1, ExpectsAck, Rcs, Trigger, Window, AllMarked, Monochar, All1Of, WindowLost;
    All1Trigger(r, frs);
    EarlierWindowsFull(r, b, All1Of(frs), |frs|);
    LastWindowLost(r, frs, b);
  }
}
