/**
  The receiver session as the source keeps it: buffers updated in place.
 */
module SessionImpl {
  import opened Bits
  import opened Rules
  import opened Fragments
  import opened Acks
  import opened SenderModel
  import opened SenderQueues
  import opened SessionModel

  class SCHCSession {
    const rule: Rule
    const fragments: array<Fragment>
    const bitmap: array<bool>
    const requested: array<bool>
    var ack: CompoundAck
    var lastFragment: Fragment
    var lastAck: CompoundAck

    ghost predicate Valid()
      reads this, fragments, bitmap, requested
    {
      && rule.WellFormed()
      && bitmap != requested
      && Sized(rule, Model())
    }

    /** The session as a value. */
    ghost function Model(): Session
      reads this, fragments, bitmap, requested
    {
      Session(fragments[..], bitmap[..], requested[..], ack, lastFragment, lastAck)
    }

    constructor (rule: Rule)
      requires rule.WellFormed()
      ensures Valid() && this.rule == rule
      ensures fresh(fragments) && fresh(bitmap) && fresh(requested)
      ensures Model() == NewSession(rule)
    {
      this.rule := rule;
      var max := rule.MaxFragmentNb();
      fragments := new Fragment[max + 1](_ => NullFragment);
      bitmap := new bool[max](_ => false);
      requested := new bool[max](_ => false);
      ack, lastFragment, lastAck := NullAck, NullFragment, NullAck;
      new;
      assert fragments[..] == seq(max + 1, _ => NullFragment);
      assert bitmap[..] == Repeat(false, max);
      assert requested[..] == Repeat(false, max);
    }

    /** session_store_frg: 0, and nothing stored, when the number is marked or the fragment is
        the All-1 answered last by a complete ACK; otherwise 1, and it is stored at its number. */
    method StoreFrg(f: Fragment) returns (ret: int)
      requires Valid() && Numbered(rule, f)
      modifies fragments
      ensures Valid() && (ret == 0 || ret == 1)
      ensures ret == 0 <==>
        || old(bitmap[FragmentNb(rule, f)])
        || (IsAll1(rule, f) && IsComplete(rule, old(lastAck)) && old(lastFragment) == f)
      ensures ret == 0 ==> fragments[..] == old(fragments[..])
      ensures ret == 1 ==> fragments[..] == old(fragments[..])[FragmentNb(rule, f) := f]
      ensures Model() == StoreFragment(rule, old(Model()), f)
    {
      var idx := FragmentNb(rule, f);
      var received := bitmap[idx];
      if !received && IsAll1(rule, f) {
        received := IsComplete(rule, lastAck) && lastFragment == f;
      }
      if received {
        return 0;
      }
      fragments[idx] := f;
      return 1;
    }

    /** session_update_bitmap. */
    method MarkReceived(f: Fragment)
      requires Valid() && Numbered(rule, f)
      modifies bitmap
      ensures Valid()
      ensures Model() == UpdateBitmap(rule, old(Model()), f)
    {
      bitmap[FragmentNb(rule, f)] := true;
    }

    /** session_check_bitmaps: -1 unless the fragment expects an ACK, otherwise whether some
        window up to its own is lossy; `bitmaps` receives those windows and blanks. */
    method CheckBitmaps(f: Fragment, bitmaps: array<BitString>) returns (ret: int)
      requires Valid() && bitmaps.Length == rule.MaxWindowNb()
      requires ExpectsAck(rule, f) ==> Trigger(rule, f)
      modifies bitmaps
      ensures Valid() && Model() == old(Model())
      ensures !ExpectsAck(rule, f) ==> ret == -1 && bitmaps[..] == old(bitmaps[..])
      ensures ExpectsAck(rule, f) ==>
        && bitmaps[..] == LossTable(rule, Model().bitmap, f)
        && ret == if AnyLost(rule, Model().bitmap, f) then 1 else 0
    {
      if !ExpectsAck(rule, f) {
        return -1;
      }
      ClearTable(bitmaps);
      var nbTuples := FillTable(f, bitmaps);
      return if nbTuples > 0 then 1 else 0;
    }

    /** The second loop of session_check_bitmaps. */
    method FillTable(f: Fragment, bitmaps: array<BitString>) returns (nbTuples: nat)
      requires Valid() && Trigger(rule, f) && bitmaps.Length == rule.MaxWindowNb()
      requires forall j | 0 <= j < bitmaps.Length :: bitmaps[j] == []
      modifies bitmaps
      ensures Valid() && Model() == old(Model())
      ensures bitmaps[..] == LossTable(rule, bitmap[..], f)
      ensures nbTuples > 0 <==> AnyLost(rule, bitmap[..], f)
    {
      var currWindow := Window(rule, f);
      nbTuples := 0;
      ghost var b := bitmap[..];
      assert 0 <= currWindow < rule.MaxWindowNb() && |b| == rule.MaxFragmentNb();
      hide WindowLost, Trigger, Sized, ExpectsAck, WindowBits, TableUpTo;
      NothingFilled(rule, b, f, bitmaps[..]);
      for i := 0 to currWindow + 1
        modifies bitmaps
        invariant TableUpTo(rule, b, f, i, bitmaps[..], nbTuples)
      {
        var lost, bits := CheckWindow(f, i);
        FillNext(rule, b, f, i, bitmaps[..], nbTuples);
        if lost {
          nbTuples := nbTuples + 1;
          bitmaps[i] := bits;
        }
      }
      TableFilled(rule, b, f, bitmaps[..], nbTuples);
    }

    /** The first loop of session_check_bitmaps. */
    static method ClearTable(bitmaps: array<BitString>)
      modifies bitmaps
      ensures forall j | 0 <= j < bitmaps.Length :: bitmaps[j] == []
    {
      for i := 0 to bitmaps.Length
        invariant forall j | 0 <= j < i :: bitmaps[j] == []
      {
        bitmaps[i] := [];
      }
    }

    /** The body of the second loop of session_check_bitmaps. */
    method CheckWindow(f: Fragment, i: nat) returns (lost: bool, bits: BitString)
      requires Valid() && Trigger(rule, f) && i < rule.MaxWindowNb()
      ensures bits == WindowBits(rule, bitmap[..], i)
      ensures lost == WindowLost(rule, bitmap[..], f, i)
    {
      WindowSlice(rule.windowSize, rule.MaxWindowNb(), i);
      bits := bitmap[i * rule.windowSize..i * rule.windowSize + rule.windowSize];
      assert bits == WindowBits(rule, bitmap[..], i);
      lost := false;
      if IsAll1(rule, f) && i == Window(rule, f) {
        var inLastWindow := BinToInt(Rcs(rule, f));
        var expected := new bool[rule.windowSize](j => j < inLastWindow - 1);
        expected[rule.windowSize - 1] := true;
        assert expected[..] == ExpectedBits(rule.windowSize, inLastWindow);
        if bits != expected[..] {
          lost := true;
        }
      } else if !Monochar(bits, true) {
        lost := true;
      }
    }

    /** session_generate_ack: -1, and the ACK unchanged, when generate_ack refuses. */
    method GenerateSessionAck(f: Fragment) returns (ret: int)
      requires Valid() && Trigger(rule, f)
      modifies this
      ensures Valid()
      ensures var a := SessionAck(rule, old(Model()).bitmap, f);
        && ret == (if a.Some? then 0 else -1)
        && Model() == old(Model()).(ack := if a.Some? then a.value else old(ack))
    {
      var bitmaps := new BitString[rule.MaxWindowNb()](_ => []);
      var lost := CheckBitmaps(f, bitmaps);
      var wdw := Window(rule, f);
      assert BitmapTable(rule, bitmaps[..]);
      var generated := GenerateAck(rule, wdw, lost == 0, bitmaps[..]);
      if generated.None? {
        return -1;
      }
      ack := generated.value;
      return 0;
    }

    /** session_update_requested: -1 for a complete ACK. */
    method UpdateRequested(a: CompoundAck) returns (ret: int)
      requires Valid() && a.Ack? && |a.message| == DOWNLINK_MTU_BYTES
      modifies requested
      ensures Valid() && Shaped(rule, Tuples(rule, a))
      ensures ret == if IsComplete(rule, a) then -1 else 0
      ensures IsComplete(rule, a) ==> Model() == old(Model())
      ensures !IsComplete(rule, a) ==>
        Model() == old(Model()).(requested := Requested(rule, old(requested[..]), Tuples(rule, a)))
    {
      TuplesShape(rule, a);
      if IsComplete(rule, a) {
        return -1;
      }
      ghost var ts := Tuples(rule, a);
      var windows, bitmaps := ReadTuples(rule, a);
      var nbTuples := windows.Length;
      ghost var before := requested[..];
      assert Shaped(rule, ts) && |ts| == nbTuples && before == old(requested[..]);
      assert forall k | 0 <= k < nbTuples :: Tuple(windows[k], bitmaps[k]) == ts[k];
      hide Tuples, IsComplete, Marked;
      MarkTuples(windows, bitmaps, ts);
      RequestedIs(rule, before, requested[..], ts);
      return 0;
    }

    /** The outer loop of session_update_requested. */
    method MarkTuples(windows: array<BitString>, bitmaps: array<BitString>, ghost ts: seq<Tuple>)
      requires Valid() && Shaped(rule, ts) && windows.Length == bitmaps.Length == |ts|
      requires forall k | 0 <= k < |ts| :: Tuple(windows[k], bitmaps[k]) == ts[k]
      modifies requested
      ensures Valid() && Marked(rule, old(requested[..]), requested[..], ts)
    {
      hide Marked;
      NothingReported(rule, requested[..]);
      assert ts[..0] == [];
      for i := 0 to windows.Length
        modifies requested
        invariant Valid() && Marked(rule, old(requested[..]), requested[..], ts[..i])
      {
        assert TupleShape(rule, ts[i]) && ts[i] == Tuple(windows[i], bitmaps[i]);
        MarkTuple(windows[i], bitmaps[i], old(requested[..]), ts, i);
      }
      assert ts[..windows.Length] == ts;
    }

    /** One pass of the outer loop of session_update_requested. */
    method MarkTuple(window: BitString, bits: BitString, ghost before: BitString, ghost ts: seq<Tuple>, ghost i: nat)
      requires Valid() && |before| == requested.Length
      requires Shaped(rule, ts) && i < |ts| && ts[i] == Tuple(window, bits) && TupleShape(rule, ts[i])
      requires Marked(rule, before, requested[..], ts[..i])
      modifies requested
      ensures Valid()
      ensures Marked(rule, before, requested[..], ts[..i + 1])
    {
      hide ReportedLost, LostIn;
      MarkWindow(window, bits);
      forall k | 0 <= k < requested.Length
        ensures ReportedLost(rule, ts[..i + 1], k) <==>
          ReportedLost(rule, ts[..i], k) || LostIn(rule, ts[i], k)
      {
        ReportedLostSnoc(rule, ts, i, k);
      }
    }

    /** The inner loop of session_update_requested. */
    method MarkWindow(window: BitString, bits: BitString)
      requires Valid() && |window| == rule.m && |bits| == rule.windowSize
      modifies requested
      ensures Valid()
      ensures forall k | 0 <= k < requested.Length ::
        requested[k] == (old(requested[k]) || LostIn(rule, Tuple(window, bits), k))
    {
      var windowNb := BinToInt(window);
      var first := windowNb * rule.windowSize;
      WindowSlice(rule.windowSize, rule.MaxWindowNb(), windowNb);
      for j := 0 to rule.windowSize
        invariant Valid()
        invariant forall k | 0 <= k < requested.Length ::
          requested[k] == (old(requested[k]) || (first <= k < first + j && !bits[k - first]))
      {
        if !bits[j] {
          requested[first + j] := true;
        }
      }
      forall k | 0 <= k < requested.Length
        ensures LostIn(rule, Tuple(window, bits), k) <==> first <= k < first + rule.windowSize && !bits[k - first]
      {
        LostInIs(rule, Tuple(window, bits), k);
      }
    }
  }

  /** The table after the windows below `i` have been checked. */
  ghost predicate TableUpTo(r: Rule, b: BitString, f: Fragment, i: nat, t: seq<BitString>, nb: nat) {
    && |b| == r.MaxFragmentNb() && Trigger(r, f) && i <= |t| == r.MaxWindowNb()
    && (nb > 0 <==> exists w | 0 <= w < i :: WindowLost(r, b, f, w))
    && (forall w | 0 <= w < i :: t[w] == if WindowLost(r, b, f, w) then WindowBits(r, b, w) else [])
    && forall w | i <= w < |t| :: t[w] == []
  }

  lemma NothingFilled(r: Rule, b: BitString, f: Fragment, t: seq<BitString>)
    requires |b| == r.MaxFragmentNb() && Trigger(r, f) && |t| == r.MaxWindowNb()
    requires forall w | 0 <= w < |t| :: t[w] == []
    ensures TableUpTo(r, b, f, 0, t, 0)
  {
  }

  lemma FillNext(r: Rule, b: BitString, f: Fragment, i: nat, t: seq<BitString>, nb: nat)
    requires TableUpTo(r, b, f, i, t, nb) && i < |t|
    ensures |b| == r.MaxFragmentNb() && Trigger(r, f) && i < r.MaxWindowNb()
    ensures if WindowLost(r, b, f, i) then TableUpTo(r, b, f, i + 1, t[i := WindowBits(r, b, i)], nb + 1)
            else TableUpTo(r, b, f, i + 1, t, nb)
  {
    hide WindowLost, WindowBits, Trigger;
  }

  lemma TableFilled(r: Rule, b: BitString, f: Fragment, t: seq<BitString>, nb: nat)
    requires |b| == r.MaxFragmentNb() && Trigger(r, f)
    requires TableUpTo(r, b, f, Window(r, f) + 1, t, nb)
    ensures t == LossTable(r, b, f)
    ensures nb > 0 <==> AnyLost(r, b, f)
  {
    hide WindowLost, WindowBits;
  }

  /** Fragment `k` is in this tuple's window and its bit is '0'. */
  ghost predicate LostIn(r: Rule, t: Tuple, k: nat)
    requires r.windowSize > 0 && TupleShape(r, t)
  {
    WindowNb(t) == k / r.windowSize && !t.bitmap[k % r.windowSize]
  }

  lemma LostInIs(r: Rule, t: Tuple, k: nat)
    requires r.windowSize > 0 && TupleShape(r, t)
    ensures var first := WindowNb(t) * r.windowSize;
      LostIn(r, t, k) <==> first <= k < first + r.windowSize && !t.bitmap[k - first]
  {
    DivIs(k, r.windowSize, WindowNb(t));
    assert WindowNb(t) * r.windowSize == r.windowSize * WindowNb(t);
  }

  /** What the tuples report lost is marked besides what was marked before. */
  ghost predicate Marked(r: Rule, before: BitString, after: BitString, ts: seq<Tuple>) {
    && r.windowSize > 0 && Shaped(r, ts) && |after| == |before|
    && forall k | 0 <= k < |before| :: after[k] == (before[k] || ReportedLost(r, ts, k))
  }

  lemma NothingReported(r: Rule, before: BitString)
    requires r.windowSize > 0
    ensures Marked(r, before, before, [])
  {
  }

  lemma RequestedIs(r: Rule, before: BitString, after: BitString, ts: seq<Tuple>)
    requires Marked(r, before, after, ts)
    ensures r.windowSize > 0 && Shaped(r, ts) && after == Requested(r, before, ts)
  {
    hide ReportedLost;
  }

  lemma ReportedLostSnoc(r: Rule, ts: seq<Tuple>, i: nat, k: nat)
    requires r.windowSize > 0 && Shaped(r, ts) && i < |ts|
    ensures ReportedLost(r, ts[..i + 1], k) <==> ReportedLost(r, ts[..i], k) || LostIn(r, ts[i], k)
  {
    var a, b := ts[..i], ts[..i + 1];
    if ReportedLost(r, a, k) {
      var q :| 0 <= q < |a| && WindowNb(a[q]) == k / r.windowSize && !a[q].bitmap[k % r.windowSize];
      assert b[q] == a[q];
    }
    if LostIn(r, ts[i], k) {
      assert b[i] == ts[i];
    }
  }
}
