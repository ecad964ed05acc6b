/**
  The sender as the source keeps it: a record whose queues, flags and fragments are updated
  in place.
 */
module SenderImpl {
  import opened Options
  import opened Bits
  import opened Rules
  import opened Fragments
  import opened FrProcedure
  import opened Acks
  import opened Queues
  import opened SenderModel
  import opened SenderInvariant
  import opened AnyAcks

  class SCHCSender {
    const rule: Rule
    const fragments: array<Fragment>
    const lastWindow: int
    const transmissionQ: FIFOQueue<Ref>
    const retransmissionQ: FIFOQueue<Ref>
    var attempts: nat
    var rt: bool
    var senderAbort: Fragment

    /** Every send so far. */
    ghost var Log: seq<Sent>

    ghost function Repr(): set<object>
      reads this, transmissionQ, retransmissionQ
    {
      {this, fragments, transmissionQ, transmissionQ.objs, retransmissionQ, retransmissionQ.objs}
    }

    ghost predicate Valid()
      reads Repr()
    {
      && rule.WellFormed()
      && transmissionQ != retransmissionQ && transmissionQ.objs != retransmissionQ.objs
      && transmissionQ.Valid() && retransmissionQ.Valid()
      && transmissionQ.size == retransmissionQ.size == fragments.Length + 1
    }

    /** The sender as a value. */
    ghost function Model(): (s: Sender)
      reads Repr()
      ensures |s.frs| == fragments.Length
    {
      Sender(fragments[..], senderAbort, transmissionQ.Contents, retransmissionQ.Contents, fragments.Length,
             attempts, rt, lastWindow, Log)
    }

    constructor (rule: Rule, nbFragments: nat, lastWindow: int)
      requires rule.WellFormed()
      ensures Valid() && fresh(Repr())
      ensures this.rule == rule && fragments.Length == nbFragments
      ensures Model() == Sender(Nulls(nbFragments), NullFragment, [], [], nbFragments, 0, false, lastWindow, [])
    {
      this.rule, this.lastWindow := rule, lastWindow;
      fragments := new Fragment[nbFragments](_ => NullFragment);
      transmissionQ := new FIFOQueue(nbFragments + 1);
      retransmissionQ := new FIFOQueue(nbFragments + 1);
      attempts, rt, senderAbort, Log := 0, false, NullFragment, [];
      new;
      assert fragments[..] == Nulls(nbFragments);
    }

    /** The fragment a pointer leads to. */
    function Fetch(ref: Ref): (f: Fragment)
      requires ref.Frg? ==> ref.idx < fragments.Length
      reads this, fragments, transmissionQ, retransmissionQ
      ensures f == Deref(Model(), ref)
    {
      if ref.Frg? then fragments[ref.idx] else senderAbort
    }

    /** update_rt. */
    method UpdateFlag()
      requires Valid()
      modifies this`rt
      ensures Valid() && Model() == UpdateRt(old(Model()))
    {
      retransmissionQ.EmptyWhenNoContents();
      rt := !retransmissionQ.IsEmpty();
    }

    method PutTransmission(ref: Ref)
      requires Valid()
      modifies transmissionQ, transmissionQ.objs
      ensures Valid() && Repr() == old(Repr()) && Model() == PutT(old(Model()), ref)
    {
      var _ := transmissionQ.Enqueue(ref);
    }

    /** get_bitmap_to_retransmit. The bits that count are all of the tuple's, or in the packet's
        last window those before the All-1. -1 when all of them are '1', and, when there are
        none, exactly when the last bit of the window is '1'; otherwise they are copied out. */
    method GetBitmapToRetransmit(t: Tuple) returns (size: int, dest: BitString)
      requires Valid() && fragments.Length > 0 && TupleShape(rule, t)
      ensures var count := if WindowNb(t) == lastWindow then (fragments.Length - 1) % rule.windowSize
                           else rule.windowSize;
        && (size == -1 <==> (forall j | 0 <= j < count :: t.bitmap[j])
                            && (count == 0 ==> t.bitmap[rule.windowSize - 1]))
        && (size != -1 ==> size == count && dest == t.bitmap[..count])
      ensures size == -1 <==> BitmapToRetransmit(rule, fragments.Length, lastWindow, t).None?
      ensures size != -1 ==> BitmapToRetransmit(rule, fragments.Length, lastWindow, t) == Some(dest)
    {
      var frgsArentMissing: bool;
      if BinToInt(t.window) != lastWindow {
        frgsArentMissing := Monochar(t.bitmap, true);
        dest := t.bitmap;
      } else {
        dest := t.bitmap[..(fragments.Length - 1) % rule.windowSize];
        var onlyHasAll1 := dest == [] && t.bitmap[rule.windowSize - 1];
        frgsArentMissing := onlyHasAll1 || Monochar(dest, true);
        assert forall j | 0 <= j < |dest| :: dest[j] == t.bitmap[j];
      }
      size := if frgsArentMissing then -1 else |dest|;
    }

    /** The inner loop of update_queues. */
    method PutZeros(bits: BitString, first: nat)
      requires Valid()
      modifies retransmissionQ, retransmissionQ.objs
      ensures Valid() && Repr() == old(Repr())
      ensures var s := old(Model());
        Model() == s.(rq := PutAll(fragments.Length, s.rq, ZeroRefs(bits, first, 0)))
    {
      ghost var whole := PutAll(fragments.Length, retransmissionQ.Contents, ZeroRefs(bits, first, 0));
      for j := 0 to |bits|
        invariant Valid() && Repr() == old(Repr())
        invariant PutAll(fragments.Length, retransmissionQ.Contents, ZeroRefs(bits, first, j)) == whole
      {
        if !bits[j] {
          var _ := retransmissionQ.Enqueue(Frg(first + j));
        }
      }
    }

    /** The fragment can be turned into a Sender-Abort: it is as long as its rule identifier. */
    predicate HasRuleId(ref: Ref)
      requires ref.Frg? ==> ref.idx < fragments.Length
      reads this, fragments, transmissionQ, retransmissionQ
    {
      |RuleIdField(rule, Fetch(ref))| == rule.ruleIdSize
    }

    /** What schc and the procedures it calls expect of the fragment they are given. */
    ghost predicate Given(ref: Ref)
      reads Repr()
    {
      && Valid() && fragments.Length > 0
      && InRange(Model(), ref) && HasRuleId(ref)
    }

    /** The branch of update_queues that gives the packet up. */
    method PutAbort(ref: Ref)
      requires Given(ref)
      modifies this`senderAbort, transmissionQ, transmissionQ.objs
      ensures Valid() && Repr() == old(Repr())
      ensures Model() == PutT(old(Model()).(senderAbort := AbortFrom(rule, old(Fetch(ref)))), AbortSlot)
    {
      senderAbort := GenerateSenderAbort(rule, Fetch(ref));
      PutTransmission(AbortSlot);
    }

    /** update_queues: -1 when the ACK names a window after the fragment's. */
    method UpdateQueues(ref: Ref, a: CompoundAck) returns (ret: int)
      requires Given(ref) && a.Ack? && |a.message| == DOWNLINK_MTU_BYTES
      modifies Repr()
      ensures Valid() && Repr() == old(Repr())
      ensures Model() == SenderModel.UpdateQueues(rule, old(Model()), ref, a)
      ensures ret == if Greatest(rule, a) > Window(rule, old(Fetch(ref))) then -1 else 0
    {
      hide Tuples, QueueLosses, Window, RuleIdField, BinToInt, Greatest, HasRuleId, TupleShape;
      TuplesShape(rule, a);
      var windows, bitmaps, greatest := ReadAck(a);
      if greatest > Window(rule, Fetch(ref)) {
        return -1;
      }
      QueueTuples(ref, windows, bitmaps, Tuples(rule, a));
      return 0;
    }

    /** The start of update_queues: the tuples, and the window of the last one. */
    method ReadAck(a: CompoundAck) returns (windows: array<BitString>, bitmaps: array<BitString>, greatest: int)
      requires rule.WellFormed() && a.Ack? && |a.message| == DOWNLINK_MTU_BYTES
      ensures fresh(windows) && fresh(bitmaps) && windows.Length == bitmaps.Length == |Tuples(rule, a)|
      ensures forall i | 0 <= i < windows.Length ::
        Tuple(windows[i], bitmaps[i]) == Tuples(rule, a)[i] && TupleShape(rule, Tuples(rule, a)[i])
      ensures greatest == Greatest(rule, a)
    {
      hide Tuples, TupleShape, BinToInt;
      TuplesShape(rule, a);
      windows, bitmaps := ReadTuples(rule, a);
      var last := windows.Length - 1;
      assert Tuple(windows[last], bitmaps[last]) == Tuples(rule, a)[last];
      greatest := BinToInt(windows[last]);
    }

    /** The body of the loop of update_queues: give up, or queue what the tuple reports lost. */
    method QueueTuple(ref: Ref, t: Tuple) returns (stop: bool)
      requires Given(ref) && TupleShape(rule, t)
      modifies Repr()
      ensures Valid() && Repr() == old(Repr()) && (!stop ==> Given(ref))
      ensures var s := old(Model());
        var b := BitmapToRetransmit(rule, |s.frs|, s.lastWindow, t);
        && (stop <==> b.None?)
        && Model() == if stop then PutT(s.(senderAbort := AbortFrom(rule, Deref(s, ref))), AbortSlot)
                      else s.(rq := PutAll(s.capacity, s.rq, ZeroRefs(b.value, FirstOf(rule, t), 0)))
    {
      hide BitmapToRetransmit, PutAll, AbortFrom, RuleIdField, ZeroRefs, BinToInt, BinVal;
      var first := FirstOf(rule, t);
      hide FirstOf;
      var size, bits := GetBitmapToRetransmit(t);
      stop := size == -1;
      if stop {
        PutAbort(ref);
      } else {
        PutZeros(bits, first);
      }
    }

    /** The loop of update_queues over the tuples, and what follows it. */
    method QueueTuples(ref: Ref, windows: array<BitString>, bitmaps: array<BitString>, ghost ts: seq<Tuple>)
      requires Given(ref) && windows.Length == bitmaps.Length == |ts|
      requires forall i | 0 <= i < |ts| :: Tuple(windows[i], bitmaps[i]) == ts[i] && TupleShape(rule, ts[i])
      requires windows !in Repr() && bitmaps !in Repr()
      modifies Repr()
      ensures Valid() && Repr() == old(Repr())
      ensures Model() == QueueLosses(rule, old(Model()), ref, ts)
    {
      hide QueueLosses, BitmapToRetransmit, PutAll, ZeroRefs, IsAll1, AbortFrom, RuleIdField, FirstOf;
      assert ts[0..] == ts;
      for i := 0 to windows.Length
        invariant Given(ref) && Repr() == old(Repr())
        invariant QueueLosses(rule, Model(), ref, ts[i..]) == QueueLosses(rule, old(Model()), ref, ts)
      {
        QueueOne(rule, Model(), ref, ts[i..]);
        assert ts[i..][0] == ts[i] && ts[i..][1..] == ts[i + 1..];
        var stop := QueueTuple(ref, Tuple(windows[i], bitmaps[i]));
        if stop {
          return;
        }
      }
      QueueNone(rule, Model(), ref, ts[windows.Length..]);
      if IsAll1(rule, Fetch(ref)) {
        PutTransmission(ref);
      }
    }

    /** timeout_procedure: an unanswered All-1 goes out again, as itself or, after too many
        attempts, overwritten by a Sender-Abort. */
    method TimeoutProcedure(c: Config, ref: Ref) returns (o: Outcome)
      requires Given(ref)
      modifies Repr()
      ensures Valid() && Repr() == old(Repr())
      ensures (Model(), o) == Timeout(c, rule, old(Model()), ref)
    {
      hide IsAll1, IsAll0, AbortFrom, RuleIdField;
      o := Continue;
      if IsAll1(rule, Fetch(ref)) {
        if attempts >= c.maxAckRequests && !c.disableMax {
          var sa := GenerateSenderAbort(rule, Fetch(ref));
          Overwrite(ref, sa);
        }
        PutTransmission(ref);
      } else if !IsAll0(rule, Fetch(ref)) {
        o := NetworkError;
      }
    }

    method Overwrite(ref: Ref, f: Fragment)
      requires Valid() && InRange(Model(), ref)
      modifies this`senderAbort, fragments
      ensures Valid() && Repr() == old(Repr())
      ensures Model() == Store(old(Model()), ref, f)
    {
      if ref.Frg? {
        fragments[ref.idx] := f;
        assert fragments[..] == old(fragments[..])[ref.idx := f];
      } else {
        senderAbort := f;
      }
    }

    /** The part of schc that follows the reception of an ACK. */
    method ReceiveAck(ref: Ref, a: CompoundAck) returns (o: Outcome)
      requires Given(ref) && a.Ack? && |a.message| == DOWNLINK_MTU_BYTES
      modifies Repr()
      ensures Valid() && Repr() == old(Repr())
      ensures (Model(), o) == HandleAck(rule, old(Model()), ref, a)
    {
      hide IsAll1, IsReceiverAbort, IsComplete, AckW, RuleIdField, SenderModel.UpdateQueues;
      attempts := 0;
      if IsReceiverAbort(rule, a) {
        return ReceiverAborted;
      }
      if IsAll1(rule, Fetch(ref)) && BinToInt(AckW(rule, a)) == lastWindow && IsComplete(rule, a) {
        return Completed;
      }
      var _ := UpdateQueues(ref, a);
      UpdateFlag();
      return Continue;
    }

    /** The start of schc: an All-1 counts as an attempt, and the fragment leaves. */
    method Leave(ref: Ref, ghost e: Event)
      requires Given(ref)
      modifies this`attempts, this`Log
      ensures Given(ref) && Repr() == old(Repr())
      ensures Model() == Sending(rule, old(Model()), ref, e)
    {
      hide IsAll1, RuleIdField, Reply;
      Log := Log + [Sent(ref, Fetch(ref), rt, Reply(rule, Model(), ref, e))];
      if IsAll1(rule, Fetch(ref)) {
        attempts := attempts + 1;
      }
    }

    /** schc. */
    method Send(c: Config, ref: Ref, e: Event) returns (o: Outcome)
      requires Given(ref)
      modifies Repr()
      ensures Valid() && Repr() == old(Repr())
      ensures (Model(), o) == Schc(c, rule, old(Model()), ref, e)
    {
      hide IsAll1, ExpectsAck, IsSenderAbort, HandleAck, Timeout, Delivers, Buffer, RuleIdField;
      var listens := ExpectsAck(rule, Fetch(ref)) && !rt;
      Leave(ref, e);
      if listens && e.ReadTimeout? {
        o := TimeoutProcedure(c, ref);
        return;
      }
      UpdateFlag();
      if IsSenderAbort(rule, Fetch(ref)) {
        return SenderAborted;
      }
      if !listens {
        return Continue;
      }
      DeliversExactly(e);
      o := Listen(c, ref, e);
    }

    /** The end of schc: read, and handle what was read or the lack of it. Eight zero bytes
        count as none. */
    method Listen(c: Config, ref: Ref, e: Event) returns (o: Outcome)
      requires Given(ref)
      modifies Repr()
      ensures Valid() && Repr() == old(Repr())
      ensures (Model(), o) ==
        if e.Datagram? && exists i | 0 <= i < |e.message| && i < 8 :: e.message[i] != 0 then
          HandleAck(rule, old(Model()), ref, Ack(Buffer(e)))
        else Timeout(c, rule, old(Model()), ref)
    {
      DeliversExactly(e);
      hide HandleAck, Timeout, Delivers, Buffer, RuleIdField;
      if !Delivers(e) {
        o := TimeoutProcedure(c, ref);
      } else {
        o := ReceiveAck(ref, Ack(Buffer(e)));
      }
    }

    /** The for loop of sender_start: every fragment is queued, in order. */
    method QueueAll()
      requires Valid() && transmissionQ.Contents == []
      modifies transmissionQ, transmissionQ.objs
      ensures Valid() && Repr() == old(Repr())
      ensures Model() == old(Model()).(tq := AllRefs(fragments.Length))
    {
      for i := 0 to fragments.Length
        invariant Valid() && Repr() == old(Repr())
        invariant transmissionQ.Contents == AllRefs(i)
      {
        var _ := transmissionQ.Enqueue(Frg(i));
        assert AllRefs(i) + [Frg(i)] == AllRefs(i + 1);
      }
    }

    /** fq_get on the queue the flag selects. */
    method NextFragment() returns (ref: Ref)
      requires Valid() && Ready(Model())
      modifies Repr()
      ensures Valid() && Repr() == old(Repr())
      ensures ref == Head(old(Model())) && Model() == Pop(old(Model()))
    {
      var obj: Option<Ref>;
      if rt {
        obj := retransmissionQ.Dequeue();
      } else {
        obj := transmissionQ.Dequeue();
      }
      ref := obj.value;
    }

    /** At the head of the loop of sender_start, with the events still to come. */
    ghost predicate AtHead(c: Config, orig: seq<Fragment>, k: nat, es: seq<Event>)
      reads Repr()
    {
      && Valid() && Faithful(rule, orig) && Sound(rule, orig, Model(), k) && Model().frs != []
      && AcksInside(c, rule, Model(), es)
    }

    /** One iteration of the loop of sender_start. */
    method Iterate(c: Config, es: seq<Event>, ghost orig: seq<Fragment>, ghost k: nat)
      returns (o: Outcome, ghost k': nat)
      requires AtHead(c, orig, k, es) && Active(Model()) && es != []
      modifies Repr()
      ensures Valid() && Repr() == old(Repr()) && old(Model()).frs != []
      ensures o == Continue ==>
        && AtHead(c, orig, k', es[1..])
        && Run(c, rule, old(Model()), es) == Run(c, rule, Model(), es[1..])
      ensures o != Continue ==> Run(c, rule, old(Model()), es) == (Model(), Ended(o))
    {
      hide Faithful, Sound, RuleIdField, Schc, Active, Head, Pop, Run, NextK, AcksInside, AckInside;
      ghost var s := Model();
      HeadWhole(rule, orig, s, k);
      InsideStep(c, rule, orig, s, k, es);
      RunUnfolds(c, rule, s, es);
      k' := NextK(s, |orig|, k);
      var ref := NextFragment();
      o := Send(c, ref, es[0]);
    }

    /** Both queues are empty. */
    method Drained() returns (b: bool)
      requires Valid()
      ensures b <==> !Active(Model())
    {
      transmissionQ.EmptyWhenNoContents();
      retransmissionQ.EmptyWhenNoContents();
      b := transmissionQ.IsEmpty() && retransmissionQ.IsEmpty();
    }

    /** sender_start on a constructed sender, as long as there are events: what the sender
        becomes and how the run stands are what the state machine says. */
    method SenderStart(c: Config, es: seq<Event>, ghost orig: seq<Fragment>) returns (status: Status)
      requires Valid() && Faithful(rule, orig) && Model() == Constructed(rule, orig)
      requires orig != [] && rule.windowSize > 0
      requires AcksInside(c, rule, Start(orig, (|orig| - 1) / rule.windowSize), es)
      modifies Repr()
      ensures Valid()
      ensures (Model(), status) == Run(c, rule, Start(orig, (|orig| - 1) / rule.windowSize), es)
    {
      hide Faithful, Inv, Sound, AcksInside, AllRefs, Run, Active;
      StartInv(rule, orig);
      InvIsSound(rule, orig, Start(orig, (|orig| - 1) / rule.windowSize), 0);
      QueueAll();
      ConstructedStarts(rule, orig);
      status := Loop(c, es, orig);
    }

    /** The while loop of sender_start. */
    method Loop(c: Config, es: seq<Event>, ghost orig: seq<Fragment>) returns (status: Status)
      requires Valid() && AtHead(c, orig, 0, es) && Model().frs != []
      modifies Repr()
      ensures Valid() && old(Model()).frs != []
      ensures (Model(), status) == Run(c, rule, old(Model()), es)
    {
      hide AtHead, Active, Run, Sound;
      ghost var k := 0;
      var i := 0;
      var drained := Drained();
      assert es[0..] == es;
      while !drained && i < |es|
        invariant 0 <= i <= |es| && Valid() && Repr() == old(Repr()) && (drained <==> !Active(Model()))
        invariant AtHead(c, orig, k, es[i..]) && Model().frs != []
        invariant Run(c, rule, Model(), es[i..]) == Run(c, rule, old(Model()), es)
      {
        var o;
        o, k := Iterate(c, es[i..], orig, k);
        if o != Continue {
          return Ended(o);
        }
        assert es[i..][1..] == es[i + 1..];
        i := i + 1;
        drained := Drained();
      }
      RunStands(c, rule, Model(), es[i..]);
      return if drained then Status.Drained else Running;
    }
  }

  lemma LastWindowIs(n: nat, ws: nat)
    requires ws > 0 && n > 0
    ensures CeilDiv(n, ws) - 1 == (n - 1) / ws
  {
    var q, m := (n - 1) / ws, (n - 1) % ws;
    assert n - 1 == ws * q + m;
    assert ws * (q + 1) == ws * q + ws;
    QuotientIs(n + ws - 1, ws, q + 1, m);
  }

  /** sender_construct: -1 for a packet that cannot be fragmented. */
  method SenderConstruct(r: Rule, packet: seq<Byte>) returns (s: SCHCSender, ret: int)
    requires r.WellFormed()
    ensures s.Valid() && fresh(s.Repr()) && s.rule == r
    ensures ret == if Accepted(r, packet) then 0 else -1
    ensures Accepted(r, packet) ==> s.Model() == Constructed(r, FragmentsOf(r, packet))
  {
    var n := NbFragments(r, |packet|);
    s := new SCHCSender(r, n, NbWindows(r, |packet|) - 1);
    ret := FragmentPacket(r, s.fragments, packet);
    if Accepted(r, packet) {
      Tiling(r, |packet|);
      LastWindowIs(n, r.windowSize);
      assert s.fragments[..n] == s.fragments[..];
    }
  }

  /** The state a run for this packet starts in, if it can be fragmented. */
  ghost function StartOf(r: Rule, packet: seq<Byte>): (s: Sender)
    requires r.WellFormed() && Accepted(r, packet)
    ensures s.frs != []
  {
    Tiling(r, |packet|);
    Start(FragmentsOf(r, packet), (|FragmentsOf(r, packet)| - 1) / r.windowSize)
  }

  /** A packet sent from beginning to end: construct, then start. */
  method SendPacket(c: Config, r: Rule, packet: seq<Byte>, es: seq<Event>)
    returns (s: SCHCSender, status: Option<Status>)
    requires r.WellFormed()
    requires Accepted(r, packet) ==> AcksInside(c, r, StartOf(r, packet), es)
    ensures status == None <==> !Accepted(r, packet)
    ensures Accepted(r, packet) ==> (s.Model(), status.value) == Run(c, r, StartOf(r, packet), es)
  {
    hide Faithful, Run, AcksInside, FragmentsOf, NbFragments, Start;
    var ret;
    s, ret := SenderConstruct(r, packet);
    if ret < 0 {
      return s, None;
    }
    FragmentsAreFaithful(r, packet);
    FaithfulSizes(r, FragmentsOf(r, packet));
    var st := s.SenderStart(c, es, FragmentsOf(r, packet));
    status := Some(st);
  }

  lemma QueueOne(r: Rule, s: Sender, ref: Ref, ts: seq<Tuple>)
    requires 0 < r.windowSize && r.m <= 31 && s.frs != [] && InRange(s, ref) && ts != []
    requires forall k | 0 <= k < |ts| :: TupleShape(r, ts[k])
    ensures TupleShape(r, ts[0])
    ensures var b := BitmapToRetransmit(r, |s.frs|, s.lastWindow, ts[0]);
      QueueLosses(r, s, ref, ts) ==
        if b.None? then PutT(s.(senderAbort := AbortFrom(r, Deref(s, ref))), AbortSlot)
        else QueueLosses(r, s.(rq := PutAll(s.capacity, s.rq, ZeroRefs(b.value, FirstOf(r, ts[0]), 0))), ref, ts[1..])
  {
    hide BitmapToRetransmit, PutAll, AbortFrom;
  }

  lemma QueueNone(r: Rule, s: Sender, ref: Ref, ts: seq<Tuple>)
    requires 0 < r.windowSize && r.m <= 31 && s.frs != [] && InRange(s, ref) && ts == []
    ensures QueueLosses(r, s, ref, ts) == if IsAll1(r, Deref(s, ref)) then PutT(s, ref) else s
  {
    hide IsAll1;
  }

  /** Pointers to the first `n` fragments. */
  function AllRefs(n: nat): seq<Ref> {
    seq(n, i requires 0 <= i < n => Frg(i))
  }

  /** What sender_construct leaves: the packet's fragments and two empty queues. */
  function Constructed(r: Rule, orig: seq<Fragment>): Sender
    requires r.windowSize > 0
  {
    Sender(orig, NullFragment, [], [], |orig|, 0, false, (|orig| - 1) / r.windowSize, [])
  }

  lemma ConstructedStarts(r: Rule, orig: seq<Fragment>)
    requires r.windowSize > 0 && orig != []
    ensures Constructed(r, orig).(tq := AllRefs(|orig|)) == Start(orig, (|orig| - 1) / r.windowSize)
  {
  }

  lemma RunStands(c: Config, r: Rule, s: Sender, es: seq<Event>)
    requires r.WellFormed() && s.frs != [] && (!Active(s) || es == [])
    ensures Run(c, r, s, es) == (s, if Active(s) then Running else Status.Drained)
  {
  }

  /** At the head of the loop there is a fragment to send, and it carries its rule identifier. */
  lemma HeadWhole(r: Rule, orig: seq<Fragment>, s: Sender, k: nat)
    requires Faithful(r, orig) && Sound(r, orig, s, k) && Active(s)
    ensures s.frs != [] && Ready(s) && InRange(s, Head(s)) && InRange(Pop(s), Head(s))
    ensures |RuleIdField(r, Deref(Pop(s), Head(s)))| == r.ruleIdSize
  {
    SoundHead(r, orig, s, k);
    if Head(s).Frg? && Deref(s, Head(s)) == orig[Head(s).idx] {
      ClassOfOriginal(r, orig, Head(s).idx);
    } else {
      ClassOfAbort(r);
    }
  }

  lemma SoundHead(r: Rule, orig: seq<Fragment>, s: Sender, k: nat)
    requires Sound(r, orig, s, k) && Active(s)
    ensures s.frs != [] && Ready(s) && InRange(s, Head(s)) && InRange(Pop(s), Head(s))
    ensures var f := Deref(Pop(s), Head(s));
      || (Head(s).Frg? && Head(s).idx < |orig| && f == orig[Head(s).idx])
      || IsAbortMessage(r, f)
  {
    if !s.rt {
      SoundIsInv(r, orig, s, k);
      HeadExists(r, orig, s, k);
    } else {
      SoundIntact(r, orig, s, k);
    }
  }

  function Nulls(n: nat): seq<Fragment> {
    seq(n, _ => NullFragment)
  }
}
