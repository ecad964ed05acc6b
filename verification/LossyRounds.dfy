/**
  Rounds on a channel that loses reports and retransmissions: progress by exactly what arrives.
 */
module LossyRounds {
  import opened Options
  import opened Bits
  import opened Rules
  import opened Fragments
  import opened FrProcedure
  import Acks
  import opened AckProofs
  import opened SenderModel
  import opened SenderSilence
  import opened SessionModel
  import opened SessionProofs
  import opened Delivery
  import opened Repair
  import opened Progress
  import opened Stored
  import opened LiveSessions
  import opened FirstPasses
  import opened Transfers
  import opened Outcomes
  import opened Failures
  import StuckRuns

  // ---------------------------------------------------------------- turns

  /** One All-1: it or its report is lost, or the report is heard and then of the fragments sent
      again the ones numbered `arrived` arrive, in that order. */
  datatype Turn = Lost | Arriving(arrived: seq<nat>)

  /** An answered turn needs a visible report, and only what is wanted can arrive. */
  ghost predicate Possible(r: Rule, orig: seq<Fragment>, st: Session, t: Turn) {
    t.Arriving? ==>
      && Asks(r, orig, st)
      && forall k | 0 <= k < |t.arrived| :: Frg(t.arrived[k]) in Wanted(r, orig, st)
  }

  lemma PossibleParts(r: Rule, orig: seq<Fragment>, st: Session, t: Turn)
    requires Possible(r, orig, st, t) && t.Arriving?
    ensures Asks(r, orig, st) && Receiving(r, orig, st) && Sized(r, st) && Indexed(r, orig)
    ensures forall k | 0 <= k < |t.arrived| :: Frg(t.arrived[k]) in Wanted(r, orig, st)
    ensures Indices(t.arrived, |orig|)
    ensures forall k | 0 <= k < |t.arrived| :: t.arrived[k] < |orig| && Numbered(r, orig[t.arrived[k]])
  {
    hide *;
    PossibleIs(r, orig, st, t);
    AsksParts(r, orig, st);
    ReceivingParts(r, orig, st);
    WantedMissing(r, orig, st);
    ArrivedBelow(r, orig, st, t.arrived);
    OrderNumbered(r, orig, t.arrived);
  }

  lemma PossibleIs(r: Rule, orig: seq<Fragment>, st: Session, t: Turn)
    requires Possible(r, orig, st, t) && t.Arriving?
    ensures Asks(r, orig, st)
    ensures forall k | 0 <= k < |t.arrived| :: Frg(t.arrived[k]) in Wanted(r, orig, st)
  {
    hide Asks, Wanted;
  }

  lemma ArrivedBelow(r: Rule, orig: seq<Fragment>, st: Session, arrived: seq<nat>)
    requires Asks(r, orig, st) && forall k | 0 <= k < |arrived| :: Frg(arrived[k]) in Wanted(r, orig, st)
    requires forall i: nat :: Frg(i) in Wanted(r, orig, st) ==> i < |orig| - 1
    ensures Indices(arrived, |orig|)
  {
    hide Asks, Wanted;
  }

  /** What is wanted: fragments below the All-1 that are missing, of the windows seen. */
  lemma WantedMissing(r: Rule, orig: seq<Fragment>, st: Session)
    requires Asks(r, orig, st)
    ensures 0 < r.windowSize && 0 < |orig| <= |st.bitmap| && |st.bitmap| == r.MaxFragmentNb() && r.TupleSize() > 0
    ensures Trigger(r, All1Of(orig))
    ensures RepairQueue(r, |orig|, st.bitmap, SeenWindows(r, st.bitmap, All1Of(orig)), Wanted(r, orig, st))
    ensures forall i: nat :: Frg(i) in Wanted(r, orig, st) ==> i < |orig| - 1
    ensures forall i: nat :: Frg(i) in Wanted(r, orig, st) <==>
      i < |orig| - 1 && !st.bitmap[i] && i / r.windowSize in SeenWindows(r, st.bitmap, All1Of(orig))
  {
    hide *;
    AsksParts(r, orig, st);
    WantedOf(r, orig, st);
    AskedRefs(r, |orig|, All1Of(orig), st.bitmap);
    RepairMembers(r, |orig|, st.bitmap, SeenWindows(r, st.bitmap, All1Of(orig)), Wanted(r, orig, st));
  }

  lemma RepairMembers(r: Rule, n: nat, b: BitString, seen: seq<nat>, q: seq<Ref>)
    requires 0 < r.windowSize && n <= |b| && RepairQueue(r, n, b, seen, q)
    ensures forall i: nat :: Frg(i) in q <==> i < n - 1 && !b[i] && i / r.windowSize in seen
  {
  }

  /** The session after a turn. */
  ghost function Turned(r: Rule, orig: seq<Fragment>, st: Session, t: Turn): Session
    requires Possible(r, orig, st, t)
  {
    match t
    case Lost => st
    case Arriving(arrived) =>
      hide *;
      PossibleParts(r, orig, st, t);
      ReceiveAll(r, st, orig, arrived)
  }

  function ArrivedIn(t: Turn): set<nat> {
    if t.Lost? then {} else Arrived(t.arrived)
  }

  /** A turn marks exactly what arrives. */
  lemma TurnMarks(r: Rule, orig: seq<Fragment>, st: Session, t: Turn)
    requires Possible(r, orig, st, t)
    ensures var st' := Turned(r, orig, st, t);
      && |st'.bitmap| == |st.bitmap|
      && forall i | 0 <= i < |st.bitmap| :: st'.bitmap[i] <==> st.bitmap[i] || i in ArrivedIn(t)
  {
    if t.Arriving? {
      PossibleParts(r, orig, st, t);
      hide Possible, Indexed, Numbered, ReceiveAll, Indices;
      ReceiveAllBitmap(r, st, orig, t.arrived);
    }
  }

  /** And stores it. */
  lemma TurnStores(r: Rule, orig: seq<Fragment>, st: Session, got: set<nat>, t: Turn)
    requires Faithful(r, orig) && Possible(r, orig, st, t) && Stores(r, orig, st, got)
    ensures Stores(r, orig, Turned(r, orig, st, t), got + ArrivedIn(t))
  {
    if t.Arriving? {
      PossibleParts(r, orig, st, t);
      hide Faithful, Possible, Stores, Numbered, ReceiveAll, Indices, Indexed;
      ArrivalsStored(r, orig, st, got, t.arrived);
    } else {
      assert got + {} == got;
    }
  }

  /** A turn in which everything wanted arrives is a round without losses. */
  lemma FullTurn(r: Rule, orig: seq<Fragment>, st: Session)
    requires Asks(r, orig, st)
    ensures forall k | 0 <= k < |Wanted(r, orig, st)| :: Wanted(r, orig, st)[k].Frg?
    ensures Receiving(r, orig, st) && Possible(r, orig, st, Arriving(Idxs(Wanted(r, orig, st))))
    ensures Turned(r, orig, st, Arriving(Idxs(Wanted(r, orig, st)))) == Round(r, orig, st)
  {
    hide *;
    WantedMissing(r, orig, st);
    AsksParts(r, orig, st);
    QueueIndices(r, |orig|, st.bitmap, SeenWindows(r, st.bitmap, All1Of(orig)), Wanted(r, orig, st));
    var t := Arriving(Idxs(Wanted(r, orig, st)));
    AllPossibleNow(r, orig, st, t.arrived);
    PossibleParts(r, orig, st, t);
    RoundIs(r, orig, st);
    TurnedIs(r, orig, st, t);
  }

  lemma AllPossibleNow(r: Rule, orig: seq<Fragment>, st: Session, arrived: seq<nat>)
    requires Asks(r, orig, st) && forall i: nat :: i in arrived ==> Frg(i) in Wanted(r, orig, st)
    ensures Possible(r, orig, st, Arriving(arrived))
  {
    hide Asks, Wanted;
  }

  lemma TurnedIs(r: Rule, orig: seq<Fragment>, st: Session, t: Turn)
    requires Possible(r, orig, st, t) && t.Arriving? && Sized(r, st)
    requires forall k | 0 <= k < |t.arrived| :: t.arrived[k] < |orig| && Numbered(r, orig[t.arrived[k]])
    ensures Turned(r, orig, st, t) == ReceiveAll(r, st, orig, t.arrived)
  {
    hide Possible, Sized, Numbered, ReceiveAll;
  }

  // ---------------------------------------------------------------- the next report

  /** In a list of windows a sublist's members only move forward. */
  lemma {:induction false} Forward(short: seq<nat>, less: seq<nat>, c: nat, w: nat)
    requires Increasing(short) && Increasing(less) && (forall x: nat :: x in less ==> x in short)
    requires w in less && w in short[..Min(|short|, c)]
    ensures w in less[..Min(|less|, c)]
    decreases |less|
  {
    if |less| > c {
      var j :| 0 <= j < |less| && less[j] == w;
      if j >= c {
        PrefixBelow(short, less[..j], c, w);
      } else {
        assert less[..c][j] == w;
      }
    }
  }

  /** Too many members of an increasing list below one of its first ones. */
  lemma PrefixBelow(short: seq<nat>, below: seq<nat>, c: nat, w: nat)
    requires Increasing(short) && Increasing(below) && (forall x: nat :: x in below ==> x in short && x < w)
    requires w in short[..Min(|short|, c)]
    ensures |below| < c
  {
    var k :| 0 <= k < Min(|short|, c) && short[k] == w;
    assert short[..Min(|short|, c)][k] == w;
    forall x: nat | x in below
      ensures x in short[..k]
    {
      var i :| 0 <= i < |short| && short[i] == x;
      assert short[..k][i] == x;
    }
    Pigeonhole(below, short[..k]);
  }

  lemma {:induction false} Pigeonhole(a: seq<nat>, b: seq<nat>)
    requires Increasing(a) && Increasing(b) && forall x: nat :: x in a ==> x in b
    ensures |a| <= |b|
    decreases |b|
  {
    if a != [] {
      var w := a[|a| - 1];
      assert w in b;
      var i :| 0 <= i < |b| && b[i] == w;
      forall x: nat | x in a[..|a| - 1]
        ensures x in b[..i]
      {
        var j :| 0 <= j < |a| - 1 && a[j] == x;
        assert x < w;
        assert x in b;
        var k :| 0 <= k < |b| && b[k] == x;
        assert b[..i][k] == x;
      }
      Pigeonhole(a[..|a| - 1], b[..i]);
    }
  }

  /** The windows that miss data after more has arrived are among those that missed some. */
  lemma FewerShort(r: Rule, n: nat, b: BitString, b': BitString, w: nat)
    requires 0 < r.windowSize && 0 < n <= |b| && |b| == |b'| && (forall i | 0 <= i < |b| :: b[i] ==> b'[i])
    requires w in ShortWindows(r, n, b')
    ensures w in ShortWindows(r, n, b)
  {
    ShortExact(r, n, b);
    ShortExact(r, n, b');
    hide ShortWindows;
    var i := MissingIn(r, n, b', w);
    assert Short(r, n, b, w);
  }

  /** The next report asks again for the rest: whatever was asked for in a turn and did not
      arrive is asked for again at the next report, however that is heard; what arrived is not. */
  lemma AsksAgain(r: Rule, orig: seq<Fragment>, st: Session, t: Turn, i: nat)
    requires t.Arriving? && Possible(r, orig, st, t) && Asks(r, orig, st)
    requires Frg(i) in Wanted(r, orig, st) && Asks(r, orig, Turned(r, orig, st, t))
    ensures Frg(i) in Wanted(r, orig, Turned(r, orig, st, t)) <==> i !in ArrivedIn(t)
  {
    hide *;
    var st' := Turned(r, orig, st, t);
    TurnMarks(r, orig, st, t);
    WantedMissing(r, orig, st);
    WantedMissing(r, orig, st');
    if i !in ArrivedIn(t) {
      SeenAgain(r, orig, st, st', i);
    }
  }

  lemma SeenAgain(r: Rule, orig: seq<Fragment>, st: Session, st': Session, i: nat)
    requires Asks(r, orig, st) && Asks(r, orig, st') && 0 < r.windowSize && r.TupleSize() > 0 && |orig| <= |st.bitmap|
    requires |st'.bitmap| == |st.bitmap| == r.MaxFragmentNb() && Trigger(r, All1Of(orig))
    requires (forall j | 0 <= j < |st.bitmap| :: st.bitmap[j] ==> st'.bitmap[j])
    requires i < |orig| - 1 && !st'.bitmap[i] && i / r.windowSize in SeenWindows(r, st.bitmap, All1Of(orig))
    ensures i / r.windowSize in SeenWindows(r, st'.bitmap, All1Of(orig))
  {
    hide *;
    AsksParts(r, orig, st);
    AsksParts(r, orig, st');
    ReceivingParts(r, orig, st);
    var n, f, c, w: nat := |orig|, All1Of(orig), ReaderCapacity(r), i / r.windowSize;
    var short, less := ShortWindows(r, n, st.bitmap), ShortWindows(r, n, st'.bitmap);
    ShortExact(r, n, st.bitmap);
    ShortExact(r, n, st'.bitmap);
    ShortAt(r, n, st.bitmap, i);
    ShortAt(r, n, st'.bitmap, i);
    SeenShort(r, f, n, st.bitmap);
    SeenShort(r, f, n, st'.bitmap);
    forall x: nat | x in less
      ensures x in short
    {
      FewerShort(r, n, st.bitmap, st'.bitmap, x);
    }
    Forward(short, less, c, w);
  }

  lemma ShortAt(r: Rule, n: nat, b: BitString, i: nat)
    requires 0 < r.windowSize && n <= |b| && i < n - 1 && !b[i]
    ensures Short(r, n, b, i / r.windowSize)
  {
  }

  // ---------------------------------------------------------------- dialogues

  /** The events of the turns, for a sender that has made `attempts` of them in vain. The report
      of an answered turn is one the sender does not give up on; what the socket yields during
      retransmissions is arbitrary. */
  ghost predicate LossyDialogue(c: Config, r: Rule, orig: seq<Fragment>, st: Session, attempts: nat,
                                turns: seq<Turn>, es: seq<Event>)
    decreases |turns|
  {
    if turns == [] then es == []
    else
      && Possible(r, orig, st, turns[0])
      && match turns[0]
         case Lost =>
           && Patient(c, attempts) && es != [] && !Delivers(es[0])
           && LossyDialogue(c, r, orig, st, attempts + 1, turns[1..], es[1..])
         case Arriving(_) =>
           var m := 1 + |Wanted(r, orig, st)|;
           && !GivesUp(r, orig, st) && |es| >= m && Tells(r, orig, st, es[0])
           && LossyDialogue(c, r, orig, Turned(r, orig, st, turns[0]), 0, turns[1..], es[m..])
  }

  /** The turns are possible one after the other. */
  ghost predicate AllPossible(r: Rule, orig: seq<Fragment>, st: Session, turns: seq<Turn>)
    decreases |turns|
  {
    turns != [] ==>
      Possible(r, orig, st, turns[0]) && AllPossible(r, orig, Turned(r, orig, st, turns[0]), turns[1..])
  }

  /** The session after them. */
  ghost function AllTurned(r: Rule, orig: seq<Fragment>, st: Session, turns: seq<Turn>): Session
    requires AllPossible(r, orig, st, turns)
    decreases |turns|
  {
    if turns == [] then st else AllTurned(r, orig, Turned(r, orig, st, turns[0]), turns[1..])
  }

  /** All that arrives in them. */
  function AllArrivals(turns: seq<Turn>): set<nat>
    decreases |turns|
  {
    if turns == [] then {} else ArrivedIn(turns[0]) + AllArrivals(turns[1..])
  }

  /** What the sender sends in them. */
  ghost function LossyLog(r: Rule, orig: seq<Fragment>, st: Session, turns: seq<Turn>): seq<Sent>
    requires orig != [] && AllPossible(r, orig, st, turns)
    decreases |turns|
  {
    if turns == [] then []
    else TurnSends(r, orig, st, turns[0]) + LossyLog(r, orig, Turned(r, orig, st, turns[0]), turns[1..])
  }

  ghost function TurnSends(r: Rule, orig: seq<Fragment>, st: Session, t: Turn): seq<Sent>
    requires orig != [] && Possible(r, orig, st, t)
  {
    match t
    case Lost => [Sent(Frg(|orig| - 1), All1Of(orig), false, None)]
    case Arriving(_) => SessionLog(r, orig, st)
  }

  /** How many of the last All-1s were in vain. */
  function Attempts(attempts: nat, turns: seq<Turn>): nat
    decreases |turns|
  {
    if turns == [] then attempts
    else Attempts(if turns[0].Lost? then attempts + 1 else 0, turns[1..])
  }

  /** The sender after the turns. */
  ghost function LossySpoken(r: Rule, orig: seq<Fragment>, s: Sender, st: Session, turns: seq<Turn>): Sender
    requires orig != [] && AllPossible(r, orig, st, turns)
  {
    s.(attempts := Attempts(s.attempts, turns), log := s.log + LossyLog(r, orig, st, turns))
  }

  lemma {:induction false} DialoguePossible(c: Config, r: Rule, orig: seq<Fragment>, st: Session, attempts: nat,
                                            turns: seq<Turn>, es: seq<Event>)
    requires LossyDialogue(c, r, orig, st, attempts, turns, es)
    ensures AllPossible(r, orig, st, turns)
    decreases |turns|
  {
    hide Possible, Patient, Delivers, GivesUp, Tells, Wanted, Turned, Asks;
    if turns != [] {
      LossyFirst(c, r, orig, st, attempts, turns, es);
      match turns[0]
      case Lost => DialoguePossible(c, r, orig, st, attempts + 1, turns[1..], es[1..]);
      case Arriving(_) =>
        DialoguePossible(c, r, orig, Turned(r, orig, st, turns[0]), 0, turns[1..], es[1 + |Wanted(r, orig, st)|..]);
    }
  }

  /** The first turn of a dialogue, and the rest of it. */
  lemma LossyFirst(c: Config, r: Rule, orig: seq<Fragment>, st: Session, attempts: nat, turns: seq<Turn>,
                   es: seq<Event>)
    requires LossyDialogue(c, r, orig, st, attempts, turns, es) && turns != []
    ensures Possible(r, orig, st, turns[0]) && es != []
    ensures turns[0].Lost? ==>
      && Turned(r, orig, st, turns[0]) == st && Patient(c, attempts) && !Delivers(es[0])
      && LossyDialogue(c, r, orig, st, attempts + 1, turns[1..], es[1..])
    ensures turns[0].Arriving? ==>
      && Asks(r, orig, st) && !GivesUp(r, orig, st)
      && |es| >= 1 + |Wanted(r, orig, st)| && Tells(r, orig, st, es[0])
      && LossyDialogue(c, r, orig, Turned(r, orig, st, turns[0]), 0, turns[1..], es[1 + |Wanted(r, orig, st)|..])
  {
    hide Patient, Delivers, GivesUp, Tells, Wanted, Asks;
  }

  lemma SpokenFirst(r: Rule, orig: seq<Fragment>, s: Sender, st: Session, turns: seq<Turn>)
    requires orig != [] && AllPossible(r, orig, st, turns) && turns != []
    ensures var s' := s.(attempts := if turns[0].Lost? then s.attempts + 1 else 0,
                         log := s.log + TurnSends(r, orig, st, turns[0]));
      LossySpoken(r, orig, s, st, turns) == LossySpoken(r, orig, s', Turned(r, orig, st, turns[0]), turns[1..])
  {
    hide Possible, Turned, TurnSends;
    AppendAssociative(s.log, TurnSends(r, orig, st, turns[0]),
                      LossyLog(r, orig, Turned(r, orig, st, turns[0]), turns[1..]));
  }

  lemma SpokenNone(r: Rule, orig: seq<Fragment>, s: Sender, st: Session)
    requires orig != []
    ensures LossySpoken(r, orig, s, st, []) == s
  {
    assert s.log + [] == s.log;
  }

  lemma PossibleFirst(r: Rule, orig: seq<Fragment>, st: Session, turns: seq<Turn>)
    requires AllPossible(r, orig, st, turns) && turns != []
    ensures Possible(r, orig, st, turns[0]) && AllPossible(r, orig, Turned(r, orig, st, turns[0]), turns[1..])
    ensures AllTurned(r, orig, st, turns) == AllTurned(r, orig, Turned(r, orig, st, turns[0]), turns[1..])
    ensures AllArrivals(turns) == ArrivedIn(turns[0]) + AllArrivals(turns[1..])
  {
    hide Possible, Turned;
  }

  lemma SendsAre(r: Rule, orig: seq<Fragment>, s: Sender, st: Session, t: Turn)
    requires orig != [] && Possible(r, orig, st, t)
    ensures t.Lost? ==> TurnSends(r, orig, st, t) == [Sent(Frg(|orig| - 1), All1Of(orig), false, None)]
    ensures t.Arriving? ==> Asks(r, orig, st) && TurnSends(r, orig, st, t) == SessionLog(r, orig, st)
    ensures t.Arriving? && Receiving(r, orig, st) && !GivesUp(r, orig, st) ==>
      AfterSession(r, orig, s, st) == s.(attempts := 0, log := s.log + TurnSends(r, orig, st, t))
  {
    hide Asks, SessionLog, GivesUp, SenderAbort, Wanted, Receiving;
  }

  /** A dialogue with any losses, seen from the sender. */
  lemma {:induction false} LossyRuns(c: Config, r: Rule, orig: seq<Fragment>, s: Sender, st: Session,
                                     turns: seq<Turn>, es: seq<Event>, more: seq<Event>)
    requires Faithful(r, orig) && Waiting(r, orig, s) && LossyDialogue(c, r, orig, st, s.attempts, turns, es)
    ensures r.WellFormed() && s.frs != [] && orig != [] && AllPossible(r, orig, st, turns)
    ensures Waiting(r, orig, LossySpoken(r, orig, s, st, turns))
    ensures LossySpoken(r, orig, s, st, turns).frs != []
    ensures Run(c, r, s, es + more) == Run(c, r, LossySpoken(r, orig, s, st, turns), more)
    decreases |turns|
  {
    hide *;
    FaithfulSizes(r, orig);
    WaitingParts(r, orig, s);
    DialoguePossible(c, r, orig, st, s.attempts, turns, es);
    if turns == [] {
      SpokenNone(r, orig, s, st);
      NothingHeard(c, r, orig, st, s.attempts, es);
      assert es + more == more;
    } else {
      LossyFirst(c, r, orig, st, s.attempts, turns, es);
      SpokenFirst(r, orig, s, st, turns);
      SendsAre(r, orig, s, st, turns[0]);
      if turns[0].Lost? {
        UnansweredAll1(c, r, orig, s, es[0]);
        assert (es + more)[0] == es[0] && (es + more)[1..] == es[1..] + more;
        RunUnfolds(c, r, s, es + more);
        LossyRuns(c, r, orig, Step(c, r, s, es[0]).0, st, turns[1..], es[1..], more);
      } else {
        var m := 1 + |Wanted(r, orig, st)|;
        AsksParts(r, orig, st);
        assert (es + more)[0] == es[0] && (es + more)[m..] == es[m..] + more;
        SessionOnTheWire(c, r, orig, s, st, es + more);
        LossyRuns(c, r, orig, AfterSession(r, orig, s, st), Turned(r, orig, st, turns[0]), turns[1..], es[m..], more);
      }
    }
  }

  lemma NothingHeard(c: Config, r: Rule, orig: seq<Fragment>, st: Session, attempts: nat, es: seq<Event>)
    requires LossyDialogue(c, r, orig, st, attempts, [], es)
    ensures es == []
  {
  }

  // ---------------------------------------------------------------- what the receiver has then

  /** Any turns mark exactly what arrives in them. */
  lemma {:induction false} LossyMarks(r: Rule, orig: seq<Fragment>, st: Session, turns: seq<Turn>)
    requires AllPossible(r, orig, st, turns)
    ensures var st' := AllTurned(r, orig, st, turns);
      |st'.bitmap| == |st.bitmap|
      && forall i | 0 <= i < |st.bitmap| :: st'.bitmap[i] <==> st.bitmap[i] || i in AllArrivals(turns)
    decreases |turns|
  {
    hide Possible, Turned;
    if turns != [] {
      PossibleFirst(r, orig, st, turns);
      TurnMarks(r, orig, st, turns[0]);
      LossyMarks(r, orig, Turned(r, orig, st, turns[0]), turns[1..]);
    }
  }

  /** And store it. */
  lemma {:induction false} LossyStores(r: Rule, orig: seq<Fragment>, st: Session, got: set<nat>, turns: seq<Turn>)
    requires Faithful(r, orig) && AllPossible(r, orig, st, turns) && Stores(r, orig, st, got)
    ensures Stores(r, orig, AllTurned(r, orig, st, turns), got + AllArrivals(turns))
    decreases |turns|
  {
    hide Faithful, Possible, Turned, Stores;
    if turns == [] {
      assert got + {} == got;
    } else {
      PossibleFirst(r, orig, st, turns);
      TurnStores(r, orig, st, got, turns[0]);
      LossyStores(r, orig, Turned(r, orig, st, turns[0]), got + ArrivedIn(turns[0]), turns[1..]);
      assert got + ArrivedIn(turns[0]) + AllArrivals(turns[1..]) == got + AllArrivals(turns);
    }
  }

  // ---------------------------------------------------------------- progress

  /** The fragments below the All-1 that are missing. */
  function Missing(n: nat, b: BitString): set<nat> {
    set i: nat | i < n && i < n - 1 && i < |b| && !b[i] :: i
  }

  /** How many turns bring something. */
  function Productive(turns: seq<Turn>): nat
    decreases |turns|
  {
    if turns == [] then 0 else (if ArrivedIn(turns[0]) != {} then 1 else 0) + Productive(turns[1..])
  }

  /** A turn takes from what is missing exactly what arrives. */
  lemma TurnMissing(r: Rule, orig: seq<Fragment>, st: Session, t: Turn)
    requires Possible(r, orig, st, t)
    ensures var st' := Turned(r, orig, st, t);
      && Missing(|orig|, st'.bitmap) == Missing(|orig|, st.bitmap) - ArrivedIn(t)
      && ArrivedIn(t) <= Missing(|orig|, st.bitmap)
  {
    TurnMarks(r, orig, st, t);
    if t.Arriving? {
      PossibleIs(r, orig, st, t);
      WantedMissing(r, orig, st);
    }
    hide Possible, Turned, Wanted, RepairQueue, SeenWindows, Asks;
  }

  lemma SmallerBy(a: set<nat>, b: set<nat>)
    requires b <= a
    ensures |a - b| == |a| - |b| && (b != {} ==> |b| >= 1)
  {
    assert a == (a - b) + b;
  }

  /** Progress whatever is lost: the turns take from what is missing exactly what arrives in them,
      and no fragment arrives in two of them; so no more of them bring anything than fragments
      are missing. */
  lemma {:induction false} LossyProgress(r: Rule, orig: seq<Fragment>, st: Session, turns: seq<Turn>)
    requires AllPossible(r, orig, st, turns)
    ensures var missing, missing' := Missing(|orig|, st.bitmap), Missing(|orig|, AllTurned(r, orig, st, turns).bitmap);
      && AllArrivals(turns) <= missing && missing' == missing - AllArrivals(turns)
      && |missing'| == |missing| - |AllArrivals(turns)|
      && |AllArrivals(turns)| == ArrivalCount(turns) >= Productive(turns)
    decreases |turns|
  {
    hide Possible, Turned, Missing, ArrivedIn;
    if turns != [] {
      PossibleFirst(r, orig, st, turns);
      TurnMissing(r, orig, st, turns[0]);
      LossyProgress(r, orig, Turned(r, orig, st, turns[0]), turns[1..]);
      TwoSteps(Missing(|orig|, st.bitmap), ArrivedIn(turns[0]), AllArrivals(turns[1..]));
    }
  }

  /** How many arrivals there are, turn by turn. */
  function ArrivalCount(turns: seq<Turn>): nat
    decreases |turns|
  {
    if turns == [] then 0 else |ArrivedIn(turns[0])| + ArrivalCount(turns[1..])
  }

  lemma TwoSteps(missing: set<nat>, now: set<nat>, later: set<nat>)
    requires now <= missing && later <= missing - now
    ensures now + later <= missing && missing - now - later == missing - (now + later)
    ensures |now + later| == |now| + |later| && |missing - (now + later)| == |missing| - |now + later|
    ensures now != {} ==> |now| >= 1
  {
    SmallerBy(now + later, now);
    assert now + later - now == later;
    SmallerBy(missing, now + later);
  }

  lemma NothingMissing(orig: seq<Fragment>, st: Session)
    requires |orig| <= |st.bitmap|
    ensures |Missing(|orig|, st.bitmap)| == 0 <==> HasAll(orig, st)
  {
    if !HasAll(orig, st) {
      var i :| 0 <= i < |orig| - 1 && !st.bitmap[i];
      assert i in Missing(|orig|, st.bitmap);
    } else {
      assert Missing(|orig|, st.bitmap) == {};
    }
  }

  // ---------------------------------------------------------------- transfers

  /** The events of a first pass and of a dialogue with losses. */
  ghost predicate LossyCourse(c: Config, r: Rule, orig: seq<Fragment>, st: Session, turns: seq<Turn>,
                              answers: seq<Option<BitString>>, first: seq<Event>, es: seq<Event>) {
    && Faithful(r, orig) && |orig| == |answers| + 1 && PassEvents(r, orig, 0, answers, first)
    && LossyDialogue(c, r, orig, st, 0, turns, es)
  }

  lemma LossyCourseParts(c: Config, r: Rule, orig: seq<Fragment>, st: Session, turns: seq<Turn>,
                         answers: seq<Option<BitString>>, first: seq<Event>, es: seq<Event>)
    requires LossyCourse(c, r, orig, st, turns, answers, first, es)
    ensures Faithful(r, orig) && |orig| == |answers| + 1 && PassEvents(r, orig, 0, answers, first)
    ensures LossyDialogue(c, r, orig, st, 0, turns, es) && AllPossible(r, orig, st, turns) && orig != []
  {
    DialoguePossible(c, r, orig, st, 0, turns, es);
    hide Faithful, PassEvents, LossyDialogue, AllPossible;
  }

  ghost function LossyCourseLog(c: Config, r: Rule, orig: seq<Fragment>, st: Session, turns: seq<Turn>,
                                answers: seq<Option<BitString>>, first: seq<Event>, es: seq<Event>): seq<Sent>
    requires LossyCourse(c, r, orig, st, turns, answers, first, es)
  {
    hide *;
    LossyCourseParts(c, r, orig, st, turns, answers, first, es);
    PassLog(r, orig, 0, answers, first) + LossyLog(r, orig, st, turns)
  }

  lemma LossyCourseRuns(c: Config, r: Rule, orig: seq<Fragment>, st: Session, turns: seq<Turn>,
                        answers: seq<Option<BitString>>, first: seq<Event>, es: seq<Event>, more: seq<Event>)
    returns (s: Sender)
    requires LossyCourse(c, r, orig, st, turns, answers, first, es)
    ensures Faithful(r, orig) && r.WellFormed() && s.frs != [] && Waiting(r, orig, s)
    ensures s.log == LossyCourseLog(c, r, orig, st, turns, answers, first, es) && s.attempts == Attempts(0, turns)
    ensures RunFromStart(c, r, orig, first + es + more) == Run(c, r, s, more)
  {
    hide *;
    LossyCourseParts(c, r, orig, st, turns, answers, first, es);
    StartPasses(r, orig);
    var s0 := Start(orig, (|orig| - 1) / r.windowSize);
    StartSizes(orig, (|orig| - 1) / r.windowSize);
    FirstPass(c, r, orig, s0, 0, answers, first, es + more);
    assert first + es + more == first + (es + more);
    var s1 := Passed(r, orig, s0, 0, answers, first);
    PassedCapacity(r, orig, s0, answers, first);
    LossyRuns(c, r, orig, s1, st, turns, es, more);
    s := LossySpoken(r, orig, s1, st, turns);
    LossyLogged(c, r, orig, st, turns, answers, first, es);
    FromStartIs(c, r, orig, first + es + more);
  }

  lemma LossyLogged(c: Config, r: Rule, orig: seq<Fragment>, st: Session, turns: seq<Turn>,
                    answers: seq<Option<BitString>>, first: seq<Event>, es: seq<Event>)
    requires LossyCourse(c, r, orig, st, turns, answers, first, es) && AllPossible(r, orig, st, turns)
    requires 0 < |orig| == |answers| + 1 && PassEvents(r, orig, 0, answers, first) && r.windowSize > 0
    ensures var s1 := Passed(r, orig, Start(orig, (|orig| - 1) / r.windowSize), 0, answers, first);
      && LossySpoken(r, orig, s1, st, turns).log == LossyCourseLog(c, r, orig, st, turns, answers, first, es)
      && LossySpoken(r, orig, s1, st, turns).attempts == Attempts(0, turns)
  {
    hide LossyCourse, PassEvents, PassLog, LossyLog, AllPossible;
    assert [] + PassLog(r, orig, 0, answers, first) == PassLog(r, orig, 0, answers, first);
  }

  /** The window of the All-1. */
  function LastWindow(ws: nat, n: nat): (w: nat)
    requires ws > 0 && n > 0
    ensures w == (n - 1) / ws
  {
    (n - 1) / ws
  }

  /** A whole transfer with losses everywhere: in the first pass any fragment and any answer may
      be lost, in every turn after it the All-1, its report, or any of the fragments sent again,
      as long as the sender's patience lasts and it does not give up. A complete ACK then ends the
      transfer with COMPLETED and an exact log; and the receiver's array gives back the packet
      exactly when every fragment missing from `st` has arrived, in whatever turns. */
  lemma LossyTransferCompletes(c: Config, r: Rule, packet: seq<Byte>, orig: seq<Fragment>, st: Session, got: set<nat>,
                               turns: seq<Turn>, answers: seq<Option<BitString>>, first: seq<Event>, es: seq<Event>)
    requires Carries(r, packet, orig) && Stores(r, orig, st, got)
    requires LossyCourse(c, r, orig, st, turns, answers, first, es)
    ensures Faithful(r, orig) && orig != [] && r.windowSize > 0 && AllPossible(r, orig, st, turns)
    ensures Delivered(r, packet, AllTurned(r, orig, st, turns)) <==> Missing(|orig|, st.bitmap) <= AllArrivals(turns)
    ensures var last := LastWindow(r.windowSize, |orig|);
      var (s, status) := RunFromStart(c, r, orig, first + es + [Completion(r, last)]);
      && status == Ended(Completed)
      && s.log == LossyCourseLog(c, r, orig, st, turns, answers, first, es)
                  + [Sent(Frg(|orig| - 1), All1Of(orig), false, Some(Acks.CompleteAck(r, last)))]
  {
    hide *;
    CarriesFaithful(r, packet, orig);
    LossyCourseParts(c, r, orig, st, turns, answers, first, es);
    LossyDelivers(r, packet, orig, st, got, turns);
    var last := LastWindow(r.windowSize, |orig|);
    var s := LossyCourseRuns(c, r, orig, st, turns, answers, first, es, [Completion(r, last)]);
    WaitingParts(r, orig, s);
    CompletionEnds(c, r, orig, s, last);
  }

  /** The receiver's half, and that nothing less does: the packet is there after the turns exactly
      when everything that was missing has arrived in them. */
  lemma LossyDelivers(r: Rule, packet: seq<Byte>, orig: seq<Fragment>, st: Session, got: set<nat>, turns: seq<Turn>)
    requires Carries(r, packet, orig) && Stores(r, orig, st, got) && AllPossible(r, orig, st, turns)
    ensures Delivered(r, packet, AllTurned(r, orig, st, turns)) <==> Missing(|orig|, st.bitmap) <= AllArrivals(turns)
    ensures Productive(turns) >= |Missing(|orig|, st.bitmap)| ==> Delivered(r, packet, AllTurned(r, orig, st, turns))
  {
    hide *;
    CarriesFaithful(r, packet, orig);
    LossyMarks(r, orig, st, turns);
    LossyStores(r, orig, st, got, turns);
    LossyProgress(r, orig, st, turns);
    NoneMissingLeft(Missing(|orig|, st.bitmap), AllArrivals(turns));
    StoredSizes(r, orig, st, got);
    NothingMissing(orig, AllTurned(r, orig, st, turns));
    MissingArrived(orig, st, AllTurned(r, orig, st, turns), AllArrivals(turns));
    DeliveredExactly(r, packet, orig, AllTurned(r, orig, st, turns), got + AllArrivals(turns));
  }

  /** As many arrivals as fragments were missing are all of them. */
  lemma NoneMissingLeft(missing: set<nat>, arrived: set<nat>)
    requires arrived <= missing
    ensures |arrived| >= |missing| ==> missing <= arrived
  {
    SmallerBy(missing, arrived);
    if |arrived| >= |missing| {
      assert missing - arrived == {};
    }
  }

  lemma StoredSizes(r: Rule, orig: seq<Fragment>, st: Session, got: set<nat>)
    requires Stores(r, orig, st, got)
    ensures |orig| <= |st.bitmap|
  {
  }

  lemma MissingArrived(orig: seq<Fragment>, st: Session, st': Session, arrived: set<nat>)
    requires |orig| <= |st.bitmap| == |st'.bitmap|
    requires forall i | 0 <= i < |st.bitmap| :: st'.bitmap[i] <==> st.bitmap[i] || i in arrived
    ensures HasAll(orig, st') <==> Missing(|orig|, st.bitmap) <= arrived
  {
    if HasAll(orig, st') {
      assert forall i | i in Missing(|orig|, st.bitmap) :: st'.bitmap[i];
    } else {
      var i :| 0 <= i < |orig| - 1 && !st'.bitmap[i];
      assert i in Missing(|orig|, st.bitmap);
    }
  }

  /** A transfer with losses that is given up: the sender hears a report it gives up on, sends
      what that asks for, and returns SENDER_ABORTED, whatever of it arrives; and the receiver's
      array gives back the packet exactly when everything missing then arrives. */
  lemma LossyTransferAborts(c: Config, r: Rule, packet: seq<Byte>, orig: seq<Fragment>, st: Session, got: set<nat>,
                            turns: seq<Turn>, answers: seq<Option<BitString>>, first: seq<Event>, es: seq<Event>,
                            last: Turn, tail: seq<Event>)
    requires Carries(r, packet, orig) && Stores(r, orig, st, got) && r.AbortDistinct()
    requires LossyCourse(c, r, orig, st, turns, answers, first, es) && AllPossible(r, orig, st, turns)
    requires var st1 := AllTurned(r, orig, st, turns);
      GivesUp(r, orig, st1) && last.Arriving? && Possible(r, orig, st1, last) && LastRound(r, orig, st1, tail)
    ensures Faithful(r, orig)
    ensures var st1 := AllTurned(r, orig, st, turns);
      && Asks(r, orig, st1)
      && (Delivered(r, packet, Turned(r, orig, st1, last)) <==> Missing(|orig|, st1.bitmap) <= ArrivedIn(last))
      && var (s, status) := RunFromStart(c, r, orig, first + es + tail);
         && status == Ended(SenderAborted)
         && s.log == LossyCourseLog(c, r, orig, st, turns, answers, first, es) + SessionLog(r, orig, st1)
                     + [Sent(AbortSlot, SenderAbort(r), false, None)]
  {
    hide *;
    var st1 := AllTurned(r, orig, st, turns);
    CarriesFaithful(r, packet, orig);
    LastRoundParts(r, orig, st1, tail);
    var s := LossyCourseRuns(c, r, orig, st, turns, answers, first, es, tail);
    SessionOnTheWire(c, r, orig, s, st1, tail);
    AfterSessionLog(r, orig, s, st1);
    AbortGoesOut(c, r, orig, AfterSession(r, orig, s, st1), tail[1 + |Wanted(r, orig, st1)|..]);
    LossyStores(r, orig, st, got, turns);
    OnePossible(r, orig, st1, last);
    LossyDelivers(r, packet, orig, st1, got + AllArrivals(turns), [last]);
  }

  lemma OnePossible(r: Rule, orig: seq<Fragment>, st: Session, t: Turn)
    requires Possible(r, orig, st, t)
    ensures AllPossible(r, orig, st, [t]) && AllTurned(r, orig, st, [t]) == Turned(r, orig, st, t)
    ensures AllArrivals([t]) == ArrivedIn(t)
  {
    hide Possible, Turned;
    assert [t][1..] == [];
  }

  // ---------------------------------------------------------------- a loss that silences the receiver

  /** All but the first window and one more fragment has arrived, of a packet of more than one
      window that fills its last one, and the identifier is all '0'. */
  ghost predicate OneMoreLost(r: Rule, orig: seq<Fragment>, st: Session) {
    && Faithful(r, orig) && RuleIdBits(r) == Repeat(false, r.ruleIdSize)
    && r.TupleSize() > 0 && ReaderCapacity(r) >= 2
    && 2 <= r.windowSize < |orig| - 1 && |orig| % r.windowSize == 0
    && Stores(r, orig, st, Arrived(Upto(r.windowSize + 1, |orig|)))
  }

  lemma OneMoreBits(r: Rule, orig: seq<Fragment>, st: Session)
    requires OneMoreLost(r, orig, st)
    ensures Faithful(r, orig) && 2 <= r.windowSize < |orig| - 1 && |orig| % r.windowSize == 0
    ensures RuleIdBits(r) == Repeat(false, r.ruleIdSize) && r.TupleSize() > 0 && ReaderCapacity(r) >= 2
    ensures Stores(r, orig, st, Arrived(Upto(r.windowSize + 1, |orig|)))
    ensures |st.bitmap| == r.MaxFragmentNb() && |orig| <= |st.bitmap|
    ensures forall i | 0 <= i < |orig| :: st.bitmap[i] <==> i >= r.windowSize + 1
    ensures Arrived(Upto(r.windowSize + 1, |orig|)) + {r.windowSize} == Arrived(Upto(r.windowSize, |orig|))
  {
    hide *;
    OneMoreParts(r, orig, st);
    var got := Arrived(Upto(r.windowSize + 1, |orig|));
    UptoMembers(r.windowSize + 1, |orig|);
    UptoMembers(r.windowSize, |orig|);
    MarksOf(r, orig, st, got);
  }

  lemma OneMoreParts(r: Rule, orig: seq<Fragment>, st: Session)
    requires OneMoreLost(r, orig, st)
    ensures Faithful(r, orig) && 2 <= r.windowSize < |orig| - 1 && |orig| % r.windowSize == 0
    ensures RuleIdBits(r) == Repeat(false, r.ruleIdSize) && r.TupleSize() > 0 && ReaderCapacity(r) >= 2
    ensures Stores(r, orig, st, Arrived(Upto(r.windowSize + 1, |orig|)))
  {
    hide Faithful, RuleIdBits, ReaderCapacity, Stores;
  }

  /** A session marks what it stores. */
  lemma MarksOf(r: Rule, orig: seq<Fragment>, st: Session, got: set<nat>)
    requires Stores(r, orig, st, got)
    ensures |st.bitmap| == r.MaxFragmentNb() && |orig| <= |st.bitmap|
    ensures forall i | 0 <= i < |st.bitmap| :: st.bitmap[i] <==> i in got
  {
  }

  lemma UptoMembers(lo: nat, hi: nat)
    requires lo <= hi
    ensures forall i: nat :: i in Arrived(Upto(lo, hi)) <==> lo <= i < hi
  {
    forall i: nat
      ensures i in Arrived(Upto(lo, hi)) <==> lo <= i < hi
    {
      if lo <= i < hi {
        assert Upto(lo, hi)[i - lo] == i;
      }
    }
  }

  lemma TwoShort(r: Rule, n: nat, b: BitString)
    requires 2 <= r.windowSize < n - 1 && n <= |b| && forall i | 0 <= i < n :: b[i] <==> i >= r.windowSize + 1
    ensures ShortWindows(r, n, b) == [0, 1]
  {
    hide ShortWindows;
    ShortExact(r, n, b);
    forall w: nat
      ensures w in ShortWindows(r, n, b) <==> w in [0, 1]
    {
      ShortTwo(r, n, b, w);
    }
    IncreasingUnique(ShortWindows(r, n, b), [0, 1]);
  }

  lemma ShortTwo(r: Rule, n: nat, b: BitString, w: nat)
    requires 2 <= r.windowSize < n - 1 && n <= |b| && forall i | 0 <= i < n :: b[i] <==> i >= r.windowSize + 1
    ensures Short(r, n, b, w) <==> w == 0 || w == 1
  {
    FirstTwo(r.windowSize);
    if Short(r, n, b, w) {
      var i := MissingIn(r, n, b, w);
      InFirstTwo(r.windowSize, i);
    }
    if w == 0 {
      assert 0 / r.windowSize == 0 && !b[0];
    }
    if w == 1 {
      assert r.windowSize / r.windowSize == 1 && !b[r.windowSize];
    }
  }

  lemma FirstTwo(ws: nat)
    requires ws > 0
    ensures 0 / ws == 0 && ws / ws == 1
  {
  }

  lemma InFirstTwo(ws: nat, i: nat)
    requires ws > 0 && i <= ws
    ensures i / ws == 0 || i / ws == 1
  {
    if i < ws {
      assert i / ws == 0;
    }
  }

  /** The report is heard and asks for fragment `i` among others, and once only that has arrived
      no report is heard any more, and no number of rounds brings the rest. */
  ghost predicate Silences(r: Rule, orig: seq<Fragment>, st: Session, i: nat, k: nat) {
    && Asks(r, orig, st) && !GivesUp(r, orig, st) && Possible(r, orig, st, Arriving([i]))
    && var st' := Turned(r, orig, st, Arriving([i]));
       !Asks(r, orig, st') && Receiving(r, orig, st') && Rounds(r, orig, st', k) == st' && !HasAll(orig, st')
  }

  lemma SilencesIs(r: Rule, orig: seq<Fragment>, st: Session, i: nat, k: nat)
    requires Asks(r, orig, st) && !GivesUp(r, orig, st) && Possible(r, orig, st, Arriving([i]))
    requires var st' := Turned(r, orig, st, Arriving([i]));
      !Asks(r, orig, st') && Receiving(r, orig, st') && Rounds(r, orig, st', k) == st' && !HasAll(orig, st')
    ensures Silences(r, orig, st, i, k)
  {
    hide Asks, GivesUp, Possible, Turned, Receiving, Rounds, HasAll;
  }

  /** Losing retransmissions can silence a receiver whose report was visible: here the report asks
      for window 0 and one fragment of window 1, and only that fragment arrives. From then on the
      report is eight zero bytes. */
  lemma LossSilences(r: Rule, orig: seq<Fragment>, st: Session, k: nat)
    requires OneMoreLost(r, orig, st)
    ensures Silences(r, orig, st, r.windowSize, k)
  {
    hide *;
    OneMoreBits(r, orig, st);
    var n, b, f, ws := |orig|, st.bitmap, All1Of(orig), r.windowSize;
    var got := Arrived(Upto(ws + 1, n));
    StoresTracks(r, orig, st, got);
    TracksLive(r, orig, st, got);
    LiveParts(r, orig, st);
    ReceivingParts(r, orig, st);
    LiveMarked(r, orig, st);
    MarkedCanonical(r, n, b);
    CanonicalShort(r, f, n, b);
    TwoShort(r, n, b);
    VisibleExactly(r, b, f);
    TwoReported(r, b, f);
    AsksFrom(r, orig, st);
    GivesUpExactly(r, orig, st);
    WantedMissing(r, orig, st);
    SeenIs(r, b, f);
    FirstTwo(ws);
    TwoSeen(ReaderCapacity(r));
    PossibleOne(r, orig, st, ws);
    TurnStores(r, orig, st, got, Arriving([ws]));
    ArrivedOne(ws);
    var st' := Turned(r, orig, st, Arriving([ws]));
    FirstLostNow(r, orig, st');
    FirstWindowInvisible(r, orig, st', k);
    NotAsking(r, orig, st');
    SilencesIs(r, orig, st, ws, k);
  }

  lemma TwoReported(r: Rule, b: BitString, f: Fragment)
    requires r.WellFormed() && r.TupleSize() > 0 && |b| == r.MaxFragmentNb() && Trigger(r, f)
    requires Incomplete(r, b, f) == [0, 1] && ReaderCapacity(r) >= 2
    ensures Reported(r, b, f) != [0]
  {
    StuckRuns.CapacitiesOrdered(r);
    hide Incomplete, Trigger, WriterCapacity, ReaderCapacity;
    assert [0, 1][..2] == [0, 1];
  }

  lemma TwoSeen(c: nat)
    requires c >= 2
    ensures 1 in [0, 1][..Min(2, c)]
  {
    assert [0, 1][..2] == [0, 1];
  }

  lemma PossibleOne(r: Rule, orig: seq<Fragment>, st: Session, i: nat)
    requires Asks(r, orig, st) && Frg(i) in Wanted(r, orig, st)
    ensures Possible(r, orig, st, Arriving([i]))
  {
    hide Asks, Wanted;
  }

  lemma ArrivedOne(i: nat)
    ensures ArrivedIn(Arriving([i])) == {i}
  {
    assert [i][0] == i;
  }

  lemma FirstLostNow(r: Rule, orig: seq<Fragment>, st: Session)
    requires Faithful(r, orig) && RuleIdBits(r) == Repeat(false, r.ruleIdSize)
    requires 2 <= r.windowSize < |orig| - 1 && |orig| % r.windowSize == 0
    requires Stores(r, orig, st, Arrived(Upto(r.windowSize, |orig|)))
    ensures FirstWindowLost(r, orig, st)
  {
    hide Faithful, RuleIdBits, Tracks;
  }

  lemma NotAsking(r: Rule, orig: seq<Fragment>, st: Session)
    requires Receiving(r, orig, st) && orig != [] && |st.bitmap| == r.MaxFragmentNb() && Trigger(r, All1Of(orig))
    requires !Visible(r, st.bitmap, All1Of(orig))
    ensures !Asks(r, orig, st)
  {
    hide Receiving, Visible, Incomplete, Trigger;
  }

  /** For the single-byte rule 0, a packet of fourteen fragments of which the first eight are lost:
      such a loss, and nothing helps any more. */
  lemma FourteenFragmentsSilenced(k: nat)
    ensures var r := SingleByte(0); r.WellFormed() && 0 < r.windowSize && r.PayloadBytes() > 0 && r.t == 0
    ensures var r, orig := SingleByte(0), FragmentsOf(SingleByte(0), seq(144, _ => 7));
      && Faithful(r, orig) && |orig| == 14 && Sized(r, NewSession(r))
      && (forall k | 0 <= k < 6 :: Upto(8, 14)[k] < |orig| && Numbered(r, orig[Upto(8, 14)[k]]))
      && Silences(r, orig, ReceiveAll(r, NewSession(r), orig, Upto(8, 14)), 7, k)
  {
    hide *;
    FirstSingleByte();
    var r := SingleByte(0);
    FourteenFragments(r);
    FragmentsAreFaithful(r, seq(144, _ => 7));
    var orig := FragmentsOf(r, seq(144, _ => 7));
    UptoBelow(8, 14);
    ArrivalOrder(r, orig, Upto(8, 14));
    var st := ReceiveAll(r, NewSession(r), orig, Upto(8, 14));
    LastArrived(8, 14);
    StoresIs(r, orig, st, Arrived(Upto(8, 14)));
    SingleByteReads();
    OneMoreIs(r, orig, st);
    LossSilences(r, orig, st, k);
  }

  lemma SingleByteReads()
    ensures var r := SingleByte(0); r.TupleSize() > 0 && ReaderCapacity(r) == 6
  {
    Capacities(SingleByte(0));
    hide ReaderCapacity, WriterCapacity;
  }

  lemma OneMoreIs(r: Rule, orig: seq<Fragment>, st: Session)
    requires Faithful(r, orig) && RuleIdBits(r) == Repeat(false, r.ruleIdSize) && r.windowSize == 7 && |orig| == 14
    requires r.TupleSize() > 0 && ReaderCapacity(r) == 6 && Stores(r, orig, st, Arrived(Upto(8, 14)))
    ensures OneMoreLost(r, orig, st)
  {
    hide Faithful, Stores, RuleIdBits, ReaderCapacity;
  }
}
