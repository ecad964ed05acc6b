/**
  The sender as a state machine over values: entities/schc_sender.c.

  One step is one iteration of the loop of sender_start. The environment chooses, for
  every step, what the socket's read returns; it matters only when the step listens.
 */
module SenderModel {
  import opened Options
  import opened Bits
  import opened Rules
  import opened Fragments
  import opened Acks
  import Queues

  /** A pointer a queue can hold: into the fragment array, or to the sender_abort field. */
  datatype Ref = Frg(idx: nat) | AbortSlot

  /** MAX_ACK_REQUESTS and DISABLE_MAX_ACK_REQUESTS. */
  datatype Config = Config(maxAckRequests: nat, disableMax: bool)

  /** What the read after a send returns: nothing in time, or a datagram. A datagram lost
      on the way, up or down, is an empty one. */
  datatype Event = ReadTimeout | Datagram(message: seq<Byte>)

  /** One send: which fragment, its content, whether it came from the retransmission queue,
      and the ACK that was read for it. */
  datatype Sent = Sent(ref: Ref, frg: Fragment, retransmission: bool, reply: Option<CompoundAck>)

  /** The sender; `capacity` is how many elements either queue can hold. */
  datatype Sender = Sender(
    frs: seq<Fragment>,
    senderAbort: Fragment,
    tq: seq<Ref>,
    rq: seq<Ref>,
    capacity: nat,
    attempts: nat,
    rt: bool,
    lastWindow: int,
    log: seq<Sent>)

  datatype Outcome = Continue | NetworkError | SenderAborted | ReceiverAborted | Completed

  // ---------------------------------------------------------------- socket

  const EMPTY_BUFFER: seq<Byte> := [0, 0, 0, 0, 0, 0, 0, 0]

  /** The read buffer after a datagram: eight bytes, zero where the datagram is short. */
  function Buffer(e: Event): (b: seq<Byte>)
    ensures |b| == DOWNLINK_MTU_BYTES
  {
    if e.ReadTimeout? then EMPTY_BUFFER
    else if |e.message| >= DOWNLINK_MTU_BYTES then e.message[..DOWNLINK_MTU_BYTES]
    else e.message + EMPTY_BUFFER[|e.message|..]
  }

  /** An all-zero buffer counts as nothing received. */
  predicate Delivers(e: Event) {
    Buffer(e) != EMPTY_BUFFER
  }

  /** What is read counts exactly when one of the first eight bytes is not zero, and it is those
      bytes, with zeros where the datagram ends. */
  lemma DeliversExactly(e: Event)
    ensures Delivers(e) <==> e.Datagram? && exists i | 0 <= i < |e.message| && i < 8 :: e.message[i] != 0
    ensures forall i | 0 <= i < 8 ::
      Buffer(e)[i] == if e.Datagram? && i < |e.message| then e.message[i] else 0
  {
    var b := Buffer(e);
    assert forall i | 0 <= i < 8 :: EMPTY_BUFFER[i] == 0;
    assert b == EMPTY_BUFFER <==> forall i | 0 <= i < 8 :: b[i] == 0;
    if e.Datagram? {
      forall i | 0 <= i < |e.message| && i < 8
        ensures b[i] == e.message[i]
      {
      }
      forall i | |e.message| <= i < 8
        ensures b[i] == 0
      {
        assert EMPTY_BUFFER[|e.message|..][i - |e.message|] == EMPTY_BUFFER[i];
      }
    }
  }

  // ---------------------------------------------------------------- state

  predicate InRange(s: Sender, ref: Ref) {
    ref.Frg? ==> ref.idx < |s.frs|
  }

  function Deref(s: Sender, ref: Ref): Fragment
    requires InRange(s, ref)
  {
    if ref.Frg? then s.frs[ref.idx] else s.senderAbort
  }

  function Store(s: Sender, ref: Ref, f: Fragment): Sender
    requires InRange(s, ref)
  {
    if ref.Frg? then s.(frs := s.frs[ref.idx := f]) else s.(senderAbort := f)
  }

  function PutT(s: Sender, ref: Ref): Sender {
    s.(tq := Queues.Put(s.capacity, s.tq, ref))
  }

  function UpdateRt(s: Sender): Sender {
    s.(rt := s.rq != [])
  }

  /** The state sender_start enters its loop in: every fragment queued for transmission. */
  function Start(frs: seq<Fragment>, lastWindow: int): Sender {
    Sender(frs, NullFragment, seq(|frs|, i requires 0 <= i < |frs| => Frg(i)), [], |frs|, 0, false, lastWindow, [])
  }

  // ---------------------------------------------------------------- update_queues

  function WindowNb(t: Tuple): int { BinToInt(t.window) }

  /** get_bitmap_to_retransmit: nothing when no fragment is reported missing. In the last
      window only the positions before the All-1 count. */
  function BitmapToRetransmit(r: Rule, n: nat, lastWindow: int, t: Tuple): Option<BitString>
    requires r.windowSize > 0 && n > 0 && |t.bitmap| == r.windowSize
  {
    if WindowNb(t) != lastWindow then
      if Monochar(t.bitmap, true) then None else Some(t.bitmap)
    else
      var last := t.bitmap[..(n - 1) % r.windowSize];
      var onlyHasAll1 := last == [] && t.bitmap[r.windowSize - 1];
      if onlyHasAll1 || Monochar(last, true) then None else Some(last)
  }

  /** Pointers to the fragments whose bit, from position `j` on, is '0'. */
  function ZeroRefs(bits: BitString, base: nat, j: nat): seq<Ref>
    decreases |bits| - j
  {
    if j >= |bits| then []
    else if !bits[j] then [Frg(base + j)] + ZeroRefs(bits, base, j + 1)
    else ZeroRefs(bits, base, j + 1)
  }

  function PutAll(capacity: nat, q: seq<Ref>, xs: seq<Ref>): seq<Ref>
    decreases |xs|
  {
    if xs == [] then q else PutAll(capacity, Queues.Put(capacity, q, xs[0]), xs[1..])
  }

  predicate TupleShape(r: Rule, t: Tuple) {
    |t.window| == r.m && |t.bitmap| == r.windowSize
  }

  /** The fragment number a tuple's bitmap starts at. */
  function FirstOf(r: Rule, t: Tuple): nat
    requires r.m <= 31 && TupleShape(r, t)
  {
    var w: nat := WindowNb(t);
    r.windowSize * w
  }

  /** The loop of update_queues over the tuples, and what follows it. */
  function QueueLosses(r: Rule, s: Sender, ref: Ref, ts: seq<Tuple>): (s': Sender)
    requires 0 < r.windowSize && r.m <= 31 && s.frs != [] && InRange(s, ref)
    requires forall k | 0 <= k < |ts| :: TupleShape(r, ts[k])
    ensures |s'.frs| == |s.frs| && s'.capacity == s.capacity && s'.log == s.log
    decreases |ts|
  {
    if ts == [] then
      if IsAll1(r, Deref(s, ref)) then PutT(s, ref) else s
    else
      assert TupleShape(r, ts[0]);
      match BitmapToRetransmit(r, |s.frs|, s.lastWindow, ts[0])
      case None =>
        PutT(s.(senderAbort := AbortFrom(r, Deref(s, ref))), AbortSlot)
      case Some(bits) =>
        var zeros := ZeroRefs(bits, FirstOf(r, ts[0]), 0);
        QueueLosses(r, s.(rq := PutAll(s.capacity, s.rq, zeros)), ref, ts[1..])
  }

  /** Every tuple read from an eight-byte ACK is complete. */
  lemma {:induction false} ReadShape(r: Rule, b: BitString, p: nat)
    requires r.WellFormed() && |b| == DOWNLINK_MTU_BITS
    ensures forall k | 0 <= k < |ReadFrom(r, b, p)| :: TupleShape(r, ReadFrom(r, b, p)[k])
    decreases DOWNLINK_MTU_BITS - p
  {
    if MoreAt(r, b, p) {
      ReadShape(r, b, p + r.TupleSize());
    }
  }

  lemma TuplesShape(r: Rule, a: CompoundAck)
    requires r.WellFormed() && a.Ack? && |a.message| == DOWNLINK_MTU_BYTES
    ensures forall k | 0 <= k < |Tuples(r, a)| :: TupleShape(r, Tuples(r, a)[k])
  {
    ReadShape(r, AckToBits(a), r.TupleIdx());
  }

  function Greatest(r: Rule, a: CompoundAck): int
    requires r.TupleSize() > 0
  {
    WindowNb(Tuples(r, a)[|Tuples(r, a)| - 1])
  }

  /** update_queues: an ACK whose last tuple is for a later window than the fragment's is ignored. */
  function UpdateQueues(r: Rule, s: Sender, ref: Ref, a: CompoundAck): (s': Sender)
    requires r.WellFormed() && s.frs != [] && InRange(s, ref)
    requires a.Ack? && |a.message| == DOWNLINK_MTU_BYTES
    ensures |s'.frs| == |s.frs| && s'.capacity == s.capacity && s'.log == s.log
  {
    TuplesShape(r, a);
    if Greatest(r, a) > Window(r, Deref(s, ref)) then s else QueueLosses(r, s, ref, Tuples(r, a))
  }

  // ---------------------------------------------------------------- one step

  /** timeout_procedure. */
  function Timeout(c: Config, r: Rule, s: Sender, ref: Ref): (res: (Sender, Outcome))
    requires InRange(s, ref)
    ensures |res.0.frs| == |s.frs| && res.0.capacity == s.capacity && res.0.log == s.log
  {
    var f := Deref(s, ref);
    if IsAll1(r, f) then
      if s.attempts >= c.maxAckRequests && !c.disableMax then
        (PutT(Store(s, ref, AbortFrom(r, f)), ref), Continue)
      else (PutT(s, ref), Continue)
    else if IsAll0(r, f) then (s, Continue)
    else (s, NetworkError)
  }

  /** The part of schc that follows the reception of an ACK. */
  function HandleAck(r: Rule, s: Sender, ref: Ref, a: CompoundAck): (res: (Sender, Outcome))
    requires r.WellFormed() && s.frs != [] && InRange(s, ref)
    requires a.Ack? && |a.message| == DOWNLINK_MTU_BYTES
    ensures |res.0.frs| == |s.frs| && res.0.capacity == s.capacity && res.0.log == s.log
  {
    var s0 := s.(attempts := 0);
    if IsReceiverAbort(r, a) then (s0, ReceiverAborted)
    else if IsAll1(r, Deref(s0, ref)) && BinToInt(AckW(r, a)) == s0.lastWindow && IsComplete(r, a) then
      (s0, Completed)
    else (UpdateRt(UpdateQueues(r, s0, ref, a)), Continue)
  }

  /** Whether schc listens for an ACK after sending. */
  predicate Listens(r: Rule, s: Sender, ref: Ref)
    requires InRange(s, ref)
  {
    ExpectsAck(r, Deref(s, ref)) && !s.rt
  }

  function Reply(r: Rule, s: Sender, ref: Ref, e: Event): Option<CompoundAck>
    requires InRange(s, ref)
  {
    if Listens(r, s, ref) && Delivers(e) then Some(Ack(Buffer(e))) else None
  }

  /** The state right after the fragment has left. */
  function Sending(r: Rule, s: Sender, ref: Ref, e: Event): Sender
    requires InRange(s, ref)
  {
    s.(attempts := if IsAll1(r, Deref(s, ref)) then s.attempts + 1 else s.attempts,
       log := s.log + [Sent(ref, Deref(s, ref), s.rt, Reply(r, s, ref, e))])
  }

  /** schc. The read can time out only when the step listens; then update_rt is skipped. */
  function Schc(c: Config, r: Rule, s: Sender, ref: Ref, e: Event): (res: (Sender, Outcome))
    requires r.WellFormed() && s.frs != [] && InRange(s, ref)
    ensures |res.0.frs| == |s.frs| && res.0.capacity == s.capacity
    ensures res.0.log == Sending(r, s, ref, e).log
  {
    var f := Deref(s, ref);
    var listens := Listens(r, s, ref);
    var s1 := Sending(r, s, ref, e);
    if listens && e.ReadTimeout? then Timeout(c, r, s1, ref)
    else
      var s2 := UpdateRt(s1);
      if IsSenderAbort(r, f) then (s2, SenderAborted)
      else if !listens then (s2, Continue)
      else if !Delivers(e) then Timeout(c, r, s2, ref)
      else HandleAck(r, s2, ref, Ack(Buffer(e)))
  }

  /** The queue the flag selects is not empty, and its head points somewhere. */
  predicate Ready(s: Sender) {
    if s.rt then s.rq != [] && InRange(s, s.rq[0]) else s.tq != [] && InRange(s, s.tq[0])
  }

  function Head(s: Sender): Ref
    requires Ready(s)
  {
    if s.rt then s.rq[0] else s.tq[0]
  }

  function Pop(s: Sender): Sender
    requires Ready(s)
  {
    if s.rt then s.(rq := s.rq[1..]) else s.(tq := s.tq[1..])
  }

  function Step(c: Config, r: Rule, s: Sender, e: Event): (res: (Sender, Outcome))
    requires r.WellFormed() && s.frs != [] && Ready(s)
    ensures |res.0.frs| == |s.frs| && res.0.capacity == s.capacity
  {
    Schc(c, r, Pop(s), Head(s), e)
  }

  /** Eight zero bytes, or fewer, are no answer: whatever the state, a step that reads them ends
      as one whose read times out. */
  lemma ZerosAreSilence(c: Config, r: Rule, s: Sender, e: Event)
    requires r.WellFormed() && s.frs != [] && Ready(s) && (!s.rt ==> s.rq == [])
    requires e.Datagram? && forall i | 0 <= i < |e.message| && i < 8 :: e.message[i] == 0
    ensures Step(c, r, s, e) == Step(c, r, s, ReadTimeout)
  {
    DeliversExactly(e);
    DeliversExactly(ReadTimeout);
    hide Delivers, Buffer, ExpectsAck, IsSenderAbort, Timeout, HandleAck, IsAll1;
    AbortAsksNothing(r, Deref(s, Head(s)));
    var s1 := Pop(s);
    assert InRange(s1, Head(s)) && s1.rt == s.rt;
    if !s.rt {
      assert UpdateRt(Sending(r, s1, Head(s), e)) == Sending(r, s1, Head(s), e);
    }
  }

  lemma AbortAsksNothing(r: Rule, f: Fragment)
    ensures !(IsSenderAbort(r, f) && ExpectsAck(r, f))
  {
    hide Fcn, W, ToBits;
    var fcn := Fcn(r, f);
    assert fcn != [] ==> fcn[0] || !fcn[0];
  }

  // ---------------------------------------------------------------- runs

  /** How a run stands: still going after all its events, stuck on a queue that should not
      be empty or a pointer out of range, ended by draining both queues, or ended by schc. */
  datatype Status = Running | Stuck | Drained | Ended(outcome: Outcome)

  /** sender_start, observed for at most one iteration per event. */
  function Run(c: Config, r: Rule, s: Sender, es: seq<Event>): (Sender, Status)
    requires r.WellFormed() && s.frs != []
    decreases |es|
  {
    if s.tq == [] && s.rq == [] then (s, Drained)
    else if es == [] then (s, Running)
    else if !Ready(s) then (s, Stuck)
    else
      var (s', o) := Step(c, r, s, es[0]);
      if o != Continue then (s', Ended(o))
      else Run(c, r, s', es[1..])
  }

  /** One iteration of the loop, then the rest of the run. */
  lemma RunUnfolds(c: Config, r: Rule, s: Sender, es: seq<Event>)
    requires r.WellFormed() && s.frs != [] && Ready(s) && es != []
    ensures var (s', o) := Step(c, r, s, es[0]);
      Run(c, r, s, es) == if o != Continue then (s', Ended(o)) else Run(c, r, s', es[1..])
  {
    hide Step;
  }
}
