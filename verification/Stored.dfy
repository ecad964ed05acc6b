/**
  What the marks of a session are worth: the fragments it stores, and the packet they give back.
 */
module Stored {
  import opened Bits
  import opened Rules
  import opened Fragments
  import opened FrProcedure
  import AckProofs
  import opened SessionModel
  import opened SessionProofs
  import opened Delivery
  import opened Repair
  import opened Progress

  // ---------------------------------------------------------------- the packet

  /** `orig` are the fragments of an accepted packet. */
  ghost predicate Carries(r: Rule, packet: seq<Byte>, orig: seq<Fragment>) {
    r.WellFormed() && Accepted(r, packet) && orig == FragmentsOf(r, packet)
  }

  lemma CarriesFaithful(r: Rule, packet: seq<Byte>, orig: seq<Fragment>)
    requires Carries(r, packet, orig)
    ensures Faithful(r, orig) && orig != [] && r.WellFormed() && 0 < r.windowSize
  {
    FragmentsAreFaithful(r, packet);
    FaithfulSizes(r, orig);
    hide Faithful, FragmentsOf;
  }

  /** The session's own array gives back the packet: its length, and all its bytes whatever the
      destination held. */
  ghost predicate Delivered(r: Rule, packet: seq<Byte>, st: Session) {
    && MeetsAll1(r, st.fragments, 0) && PacketLength(r, st.fragments, 0) == |packet|
    && Lands(r, st.fragments, 0, |packet|)
    && forall dest: seq<Byte> | |dest| == |packet| :: Reassembled(r, st.fragments, 0, dest) == (0, packet)
  }

  /** A session in which exactly the fragments `got` have arrived and are stored, the All-1
      among them. */
  ghost predicate Stores(r: Rule, orig: seq<Fragment>, st: Session, got: set<nat>) {
    Tracks(r, orig, st, got) && orig != [] && |orig| - 1 in got
  }

  lemma StoresTracks(r: Rule, orig: seq<Fragment>, st: Session, got: set<nat>)
    requires Stores(r, orig, st, got)
    ensures Tracks(r, orig, st, got) && orig != [] && |orig| - 1 in got
  {
    hide Tracks;
  }

  lemma StoresMarks(r: Rule, orig: seq<Fragment>, st: Session, got: set<nat>)
    requires Stores(r, orig, st, got)
    ensures HasAll(orig, st) <==> forall i | 0 <= i < |orig| :: i in got
  {
  }

  lemma StoresHold(r: Rule, packet: seq<Byte>, orig: seq<Fragment>, st: Session, got: set<nat>)
    requires Carries(r, packet, orig) && Stores(r, orig, st, got) && HasAll(orig, st)
    ensures r.WellFormed() && Accepted(r, packet) && Holds(r, packet, st.fragments)
  {
    StoresMarks(r, orig, st, got);
    hide HasAll, Holds;
    TrackedHolds(r, packet, st, got);
  }

  /** From a fragment below the All-1 on, the scan for the packet's length meets a missing one
      before the All-1. */
  lemma {:induction false} NullFirst(r: Rule, orig: seq<Fragment>, st: Session, got: set<nat>, i: nat, j: nat)
    requires Faithful(r, orig) && Stores(r, orig, st, got) && j <= i < |orig| - 1 && i !in got
    ensures !MeetsAll1(r, st.fragments, j)
    decreases i - j
  {
    hide IsAll1, Faithful;
    FaithfulSizes(r, orig);
    if j < i {
      NullFirst(r, orig, st, got, i, j + 1);
      FaithfulNotLast(r, orig, j);
    }
  }

  lemma FaithfulNotLast(r: Rule, orig: seq<Fragment>, j: nat)
    requires Faithful(r, orig) && j < |orig| - 1
    ensures !IsAll1(r, orig[j])
  {
    assert FaithfulAt(r, orig[j], j, |orig|);
    hide IsAll1, FaithfulAt;
  }

  /** The session gives back the packet exactly when every fragment below the All-1 is marked. */
  lemma DeliveredExactly(r: Rule, packet: seq<Byte>, orig: seq<Fragment>, st: Session, got: set<nat>)
    requires Carries(r, packet, orig) && Stores(r, orig, st, got)
    ensures Delivered(r, packet, st) <==> HasAll(orig, st)
  {
    hide *;
    CarriesFaithful(r, packet, orig);
    StoresMarks(r, orig, st, got);
    if HasAll(orig, st) {
      StoresHold(r, packet, orig, st, got);
      HeldIsDelivered(r, packet, st);
    } else {
      var i :| 0 <= i < |orig| && i !in got;
      MissingNotLast(r, orig, st, got, i);
      NullFirst(r, orig, st, got, i, 0);
      NotDelivered(r, packet, st);
    }
  }

  lemma MissingNotLast(r: Rule, orig: seq<Fragment>, st: Session, got: set<nat>, i: nat)
    requires Stores(r, orig, st, got) && i < |orig| && i !in got
    ensures i < |orig| - 1
  {
    hide Tracks;
  }

  lemma NotDelivered(r: Rule, packet: seq<Byte>, st: Session)
    requires !MeetsAll1(r, st.fragments, 0)
    ensures !Delivered(r, packet, st)
  {
    hide MeetsAll1, Reassembled, Lands;
  }

  lemma HeldIsDelivered(r: Rule, packet: seq<Byte>, st: Session)
    requires r.WellFormed() && Accepted(r, packet) && Holds(r, packet, st.fragments)
    ensures Delivered(r, packet, st)
  {
    hide Holds, Reassembled, PacketLength, Lands, MeetsAll1, IsAll1, NbFragments, Rule.WellFormed, Accepted;
    FragmentThenReassemble(r, packet, st.fragments, packet);
    forall dest: seq<Byte> | |dest| == |packet|
      ensures Reassembled(r, st.fragments, 0, dest) == (0, packet)
    {
      FragmentThenReassemble(r, packet, st.fragments, dest);
    }
  }

  // ---------------------------------------------------------------- rounds

  /** Whatever arrives is stored as well as marked. */
  lemma ArrivalsStored(r: Rule, orig: seq<Fragment>, st: Session, got: set<nat>, order: seq<nat>)
    requires Faithful(r, orig) && Stores(r, orig, st, got) && Indices(order, |orig|) && Sized(r, st)
    ensures forall k | 0 <= k < |order| :: order[k] < |orig| && Numbered(r, orig[order[k]])
    ensures Stores(r, orig, ReceiveAll(r, st, orig, order), got + Arrived(order))
  {
    hide Faithful, Tracks, Numbered, ReceiveAll, Indices;
    FaithfulIndexed(r, orig);
    ReceiveAllTracks(r, orig, st, got, order);
  }

  /** A round stores what it marks. */
  lemma RoundStores(r: Rule, orig: seq<Fragment>, st: Session, got: set<nat>) returns (got': set<nat>)
    requires Faithful(r, orig) && Receiving(r, orig, st) && Stores(r, orig, st, got)
    ensures got <= got' && Stores(r, orig, Round(r, orig, st), got')
  {
    ReceivingParts(r, orig, st);
    hide Faithful, Tracks, Numbered, ReceiveAll, Incomplete, Visible, AskedFor, Indexed, Receiving, Stores, Trigger,
         Concerns, IsLastOf, RepairQueue;
    var f, b, n := All1Of(orig), st.bitmap, |orig|;
    got' := got;
    if Incomplete(r, b, f) != [] && Visible(r, b, f) {
      var q := AskedFor(r, n, b, f);
      AskedForIsRepair(r, n, b, f);
      QueueIndices(r, n, b, SeenWindows(r, b, f), q);
      ArrivalsStored(r, orig, st, got, Idxs(q));
      got' := got + Arrived(Idxs(q));
    } else {
      UnseenRound(r, orig, st);
    }
  }

  lemma {:induction false} RoundsStore(r: Rule, orig: seq<Fragment>, st: Session, got: set<nat>, k: nat)
    returns (got': set<nat>)
    requires Faithful(r, orig) && Receiving(r, orig, st) && Stores(r, orig, st, got)
    ensures got <= got' && Stores(r, orig, Rounds(r, orig, st, k), got')
    decreases k
  {
    hide Faithful, Receiving, Stores, Round;
    got' := got;
    if k > 0 {
      got' := RoundStores(r, orig, st, got);
      got' := RoundsStore(r, orig, Round(r, orig, st), got', k - 1);
    }
  }

  /** Selective repeat delivers the packet, its bytes, exactly when nothing is missing or the
      first report is visible: then at least ceil(L / c) rounds suffice, and otherwise no
      number of rounds does. */
  lemma ProgressDelivers(r: Rule, packet: seq<Byte>, orig: seq<Fragment>, st: Session, got: set<nat>, k: nat)
    requires Carries(r, packet, orig) && Stores(r, orig, st, got) && Receiving(r, orig, st) && r.TupleSize() > 0
    requires k >= CeilDiv(|Lacks(r, orig, st)|, AckProofs.ReaderCapacity(r))
    ensures |st.bitmap| == r.MaxFragmentNb() && orig != [] && Trigger(r, All1Of(orig))
    ensures Delivered(r, packet, Rounds(r, orig, st, k)) <==>
      Lacks(r, orig, st) == [] || Visible(r, st.bitmap, All1Of(orig))
  {
    hide *;
    CarriesFaithful(r, packet, orig);
    ProgressExactly(r, orig, st, k);
    var got' := RoundsStore(r, orig, st, got, k);
    DeliveredExactly(r, packet, orig, Rounds(r, orig, st, k), got');
  }
}
