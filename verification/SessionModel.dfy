/**
  The receiver session over values: the live functions of entities/schc_session.c.
 */
module SessionModel {
  import opened Options
  import opened Bits
  import opened Rules
  import opened Fragments
  import FrProcedure
  import opened Acks
  import SenderQueues

  datatype Session = Session(
    fragments: seq<Fragment>,
    bitmap: BitString,
    requested: BitString,
    ack: CompoundAck,
    lastFragment: Fragment,
    lastAck: CompoundAck)

  /** session_construct and state_construct: one slot more than fragments, all null. */
  function NewSession(r: Rule): Session {
    Session(seq(r.MaxFragmentNb() + 1, _ => NullFragment),
            Repeat(false, r.MaxFragmentNb()), Repeat(false, r.MaxFragmentNb()),
            NullAck, NullFragment, NullAck)
  }

  predicate Sized(r: Rule, st: Session) {
    && |st.fragments| == r.MaxFragmentNb() + 1
    && |st.bitmap| == r.MaxFragmentNb() && |st.requested| == r.MaxFragmentNb()
  }

  /** The fragment has a number the session can index with. */
  predicate Numbered(r: Rule, f: Fragment) {
    0 <= FragmentNb(r, f) < r.MaxFragmentNb()
  }

  /** session_already_received; only an All-1 is compared with the last fragment. */
  predicate AlreadyReceived(r: Rule, st: Session, f: Fragment)
    requires Sized(r, st) && Numbered(r, f)
  {
    if st.bitmap[FragmentNb(r, f)] then true
    else IsAll1(r, f) && IsComplete(r, st.lastAck) && st.lastFragment == f
  }

  /** session_store_frg. */
  function StoreFragment(r: Rule, st: Session, f: Fragment): Session
    requires Sized(r, st) && Numbered(r, f)
  {
    if AlreadyReceived(r, st, f) then st
    else st.(fragments := st.fragments[FragmentNb(r, f) := f])
  }

  /** session_update_bitmap. */
  function UpdateBitmap(r: Rule, st: Session, f: Fragment): Session
    requires Sized(r, st) && Numbered(r, f)
  {
    st.(bitmap := st.bitmap[FragmentNb(r, f) := true])
  }

  /** A fragment arrives: it is stored, then marked. */
  function Receive(r: Rule, st: Session, f: Fragment): (st': Session)
    requires Sized(r, st) && Numbered(r, f)
    ensures Sized(r, st')
  {
    UpdateBitmap(r, StoreFragment(r, st, f), f)
  }

  // ---------------------------------------------------------------- bitmap check

  lemma WindowSlice(ws: nat, windows: nat, w: nat)
    requires w < windows
    ensures 0 <= w * ws && w * ws + ws <= windows * ws
  {
    FrProcedure.MulMonotone(w + 1, windows, ws);
    assert (w + 1) * ws == w * ws + ws;
  }

  /** session_get_bitmap. */
  function WindowBits(r: Rule, b: BitString, w: nat): (bits: BitString)
    requires |b| == r.MaxFragmentNb() && w < r.MaxWindowNb()
    ensures |bits| == r.windowSize
  {
    WindowSlice(r.windowSize, r.MaxWindowNb(), w);
    b[w * r.windowSize..w * r.windowSize + r.windowSize]
  }

  /** The bitmap an All-1 expects of its window: '1' for the fragments before it, and '1'
      in the last position of the window for itself. */
  function ExpectedBits(ws: nat, inLastWindow: nat): (bits: BitString)
    requires 1 <= inLastWindow <= ws
    ensures |bits| == ws
  {
    (Repeat(true, inLastWindow - 1) + Repeat(false, ws - inLastWindow + 1))[ws - 1 := true]
  }

  /** The trigger of a check: it expects an ACK, and if it is an All-1 it counts between one
      fragment and a full window. */
  predicate Trigger(r: Rule, f: Fragment) {
    && ExpectsAck(r, f)
    && 0 <= Window(r, f) < r.MaxWindowNb()
    && (IsAll1(r, f) ==> 1 <= BinToInt(Rcs(r, f)) <= r.windowSize)
  }

  /** The check's verdict on window `w`. */
  predicate WindowLost(r: Rule, b: BitString, f: Fragment, w: nat)
    requires |b| == r.MaxFragmentNb() && w < r.MaxWindowNb() && Trigger(r, f)
  {
    if IsAll1(r, f) && w == Window(r, f) then
      WindowBits(r, b, w) != ExpectedBits(r.windowSize, BinToInt(Rcs(r, f)))
    else !Monochar(WindowBits(r, b, w), true)
  }

  /** The table session_check_bitmaps fills: the bitmaps of lossy windows, blank otherwise. */
  function LossTable(r: Rule, b: BitString, f: Fragment): (t: seq<BitString>)
    requires |b| == r.MaxFragmentNb() && Trigger(r, f)
    ensures |t| == r.MaxWindowNb()
  {
    seq(r.MaxWindowNb(), w requires 0 <= w < r.MaxWindowNb() =>
      if w <= Window(r, f) && WindowLost(r, b, f, w) then WindowBits(r, b, w) else [])
  }

  predicate AnyLost(r: Rule, b: BitString, f: Fragment)
    requires |b| == r.MaxFragmentNb() && Trigger(r, f)
  {
    exists w | 0 <= w <= Window(r, f) :: WindowLost(r, b, f, w)
  }

  /** session_generate_ack: what it leaves in session.ack, or nothing when it returns -1. */
  function SessionAck(r: Rule, b: BitString, f: Fragment): Option<CompoundAck>
    requires |b| == r.MaxFragmentNb() && Trigger(r, f)
  {
    GeneratedAck(r, Window(r, f), !AnyLost(r, b, f), LossTable(r, b, f))
  }

  // ---------------------------------------------------------------- requested fragments

  /** session_update_requested on the tuples of an ACK: what is reported lost becomes
      requested, and nothing stops being requested. */
  ghost function Requested(r: Rule, requested: BitString, ts: seq<Tuple>): (req: BitString)
    requires r.windowSize > 0 && SenderQueues.Shaped(r, ts)
    ensures |req| == |requested|
  {
    seq(|requested|, i requires 0 <= i < |requested| => requested[i] || SenderQueues.ReportedLost(r, ts, i))
  }
}
