/**
  How runs end, whatever ACKs arrive: the result codes, and the exit without one.
 */
module Exits {
  import opened Bits
  import opened Rules
  import opened Fragments
  import opened FrProcedure
  import opened Acks
  import opened SenderModel
  import SenderQueues
  import opened SenderInvariant
  import opened SenderRuns
  import opened AnyAcks

  // ---------------------------------------------------------------- steps from sound states

  /** Which step ends a run, and how, from any sound state and whatever ACKs arrive: a
      Sender-Abort that is sent, a Receiver-Abort a listening step hears, a complete ACK for the
      last window that answers an All-1; and nothing else. */
  lemma SoundOutcome(c: Config, r: Rule, orig: seq<Fragment>, s: Sender, k: nat, e: Event)
    requires Faithful(r, orig) && Sound(r, orig, s, k) && Active(s)
    ensures r.WellFormed() && s.frs != [] && Ready(s) && InRange(s, Head(s))
    ensures var f, a, o := Deref(s, Head(s)), AckOfEvent(e), Step(c, r, s, e).1;
      && (o == SenderAborted <==> !s.rt && IsSenderAbort(r, f))
      && (o == ReceiverAborted <==> Answered(r, s, e) && IsReceiverAbort(r, a))
      && (o == Completed <==> Answered(r, s, e) && !IsReceiverAbort(r, a)
                              && IsAll1(r, f) && BinToInt(AckW(r, a)) == s.lastWindow && IsComplete(r, a))
      && o != NetworkError
  {
    hide *;
    FaithfulSizes(r, orig);
    SoundBounds(r, orig, s, k);
    SoundReady(r, orig, s, k);
    if s.rt {
      SoundIntact(r, orig, s, k);
      Retransmits(c, r, orig, s, e);
      NotAnswered(r, s, e);
    } else {
      SoundIsInv(r, orig, s, k);
      StepOutcome(c, r, orig, s, k, e);
    }
  }

  /** What any step does that goes on: it leaves a sound state, or one with a pointer past the
      end of the array in its retransmission queue. */
  ghost predicate GoesOnTo(r: Rule, orig: seq<Fragment>, s': Sender, k: nat) {
    Sound(r, orig, s', k) || exists p :: Outside(orig, s', p)
  }

  lemma AnyStep(c: Config, r: Rule, orig: seq<Fragment>, s: Sender, k: nat, e: Event)
    requires Faithful(r, orig) && Sound(r, orig, s, k) && Active(s) && r.WellFormed() && s.frs != []
    ensures Ready(s)
    ensures var (s', o) := Step(c, r, s, e); o == Continue ==> GoesOnTo(r, orig, s', NextK(s, |orig|, k))
  {
    hide *;
    SoundReady(r, orig, s, k);
    if AckInside(r, s, e) {
      SoundStep(c, r, orig, s, k, e);
      if Step(c, r, s, e).1 == Continue {
        SoundAfterParts(r, orig, s, Step(c, r, s, e), NextK(s, |orig|, k));
        OnToSound(r, orig, Step(c, r, s, e).0, NextK(s, |orig|, k));
      }
    } else {
      var p := OutsideStep(c, r, orig, s, k, e);
      OnToOutside(r, orig, Step(c, r, s, e).0, NextK(s, |orig|, k), p);
    }
  }

  lemma OnToSound(r: Rule, orig: seq<Fragment>, s: Sender, k: nat)
    requires Sound(r, orig, s, k)
    ensures GoesOnTo(r, orig, s, k)
  {
    hide Sound, Outside;
  }

  lemma OnToOutside(r: Rule, orig: seq<Fragment>, s: Sender, k: nat, p: nat)
    requires Outside(orig, s, p)
    ensures GoesOnTo(r, orig, s, k)
  {
    hide Sound, Outside;
  }

  lemma OnTo(r: Rule, orig: seq<Fragment>, s: Sender, k: nat) returns (p: nat)
    requires GoesOnTo(r, orig, s, k)
    ensures Sound(r, orig, s, k) || Outside(orig, s, p)
  {
    hide Sound, Outside;
    p := 0;
    if !Sound(r, orig, s, k) {
      p :| Outside(orig, s, p);
    }
  }

  /** A run with such a pointer in its queue does not end with a result code, and drains nothing:
      it comes to the pointer, or to the end of its events. */
  lemma {:induction false} OutsideRuns(c: Config, r: Rule, orig: seq<Fragment>, s: Sender, p: nat, es: seq<Event>)
    requires Faithful(r, orig) && Outside(orig, s, p)
    ensures r.WellFormed() && s.frs != [] && r.TupleSize() > 0
    ensures Run(c, r, s, es).1 == Running || Run(c, r, s, es).1 == Stuck
    ensures !EverOverreaches(c, r, s, es)
    decreases p
  {
    hide Faithful, Outside, Step, Intact, Ready, Overreach;
    FaithfulTuples(r, orig);
    OutsideHead(orig, s, p);
    if p > 0 && es != [] {
      Retransmits(c, r, orig, s, es[0]);
      OutsideNext(r, orig, s, p, es[0]);
      RunUnfolds(c, r, s, es);
      RetransmissionIsNoOverreach(r, s, es[0]);
      OutsideRuns(c, r, orig, Step(c, r, s, es[0]).0, p - 1, es[1..]);
    }
  }

  // ---------------------------------------------------------------- SENDER_ABORTED

  /** A rule whose Sender-Abort reads as an All-1 never ends a run by sending one. */
  lemma SoundNeedsDistinct(c: Config, r: Rule, orig: seq<Fragment>, s: Sender, k: nat, e: Event)
    requires Faithful(r, orig) && Sound(r, orig, s, k) && Active(s) && !r.AbortDistinct()
    ensures r.WellFormed() && s.frs != [] && Ready(s) && Step(c, r, s, e).1 != SenderAborted
  {
    hide *;
    SoundOutcome(c, r, orig, s, k, e);
    if !s.rt {
      SoundIsInv(r, orig, s, k);
      AbortNeedsDistinct(c, r, orig, s, k, e);
    }
  }

  /** So SENDER_ABORTED is never returned under such a rule, whatever ACKs arrive. */
  lemma {:induction false} NeverSenderAborted(c: Config, r: Rule, orig: seq<Fragment>, s: Sender, k: nat,
                                              es: seq<Event>)
    requires Faithful(r, orig) && r.WellFormed() && s.frs != [] && Sound(r, orig, s, k) && !r.AbortDistinct()
    ensures Run(c, r, s, es).1 != Ended(SenderAborted)
    decreases |es|
  {
    hide Faithful, Sound, Step, Rule.AbortDistinct, Outside, GoesOnTo;
    if Active(s) && es != [] {
      AnyStep(c, r, orig, s, k, es[0]);
      SoundNeedsDistinct(c, r, orig, s, k, es[0]);
      RunUnfolds(c, r, s, es);
      var (s1, o) := Step(c, r, s, es[0]);
      if o == Continue {
        var p := OnTo(r, orig, s1, NextK(s, |orig|, k));
        if Sound(r, orig, s1, NextK(s, |orig|, k)) {
          NeverSenderAborted(c, r, orig, s1, NextK(s, |orig|, k), es[1..]);
        } else {
          OutsideRuns(c, r, orig, s1, p, es[1..]);
        }
      }
    }
  }

  // ---------------------------------------------------------------- the silent exit

  /** The ACK for the last queued All-1 names a window after the All-1's own: the source
      ignores such an ACK altogether, and forgets to queue the All-1 again. */
  predicate Overreach(r: Rule, s: Sender, e: Event)
    requires r.TupleSize() > 0 && Ready(s)
  {
    var f, a := Deref(s, Head(s)), AckOfEvent(e);
    && !s.rt && |s.tq| == 1 && IsAll1(r, f) && Delivers(e)
    && !IsReceiverAbort(r, a)
    && !(BinToInt(AckW(r, a)) == s.lastWindow && IsComplete(r, a))
    && !TakesEffect(r, f, a)
  }

  lemma SilenceKeepsPending(c: Config, r: Rule, orig: seq<Fragment>, s: Sender, k: nat, e: Event)
    requires Inv(r, orig, s, k) && Ready(s) && !s.rt && HeadIs(r, orig, s, k)
    ensures var (s', o) := AfterSilence(c, r, s, e);
      o == Continue ==> s'.tq != []
  {
    hide ExpectsAck, IsAll0, IsAll1, IsSenderAbort, SenderAbort, Window, AbortFrom;
    PopKeeps(s.tq, |orig|, k);
    if IsAll1(r, Deref(s, Head(s))) {
      AppendKeeps(r, orig, s, k, e, Head(s));
    }
  }

  /** Hearing takes the head off the queue; if nothing is left, the head is an All-1. */
  lemma HeardPending(r: Rule, orig: seq<Fragment>, s: Sender, k: nat, e: Event)
    requires Inv(r, orig, s, k) && Ready(s) && !s.rt && HeadIs(r, orig, s, k) && ExpectsAck(r, Deref(s, Head(s)))
    ensures UpdateRt(Heard(r, s, e)).tq == [] <==> |s.tq| == 1
    ensures |s.tq| == 1 ==> IsAll1(r, Deref(s, Head(s)))
  {
    hide ExpectsAck, IsAll0, IsAll1, IsSenderAbort, SenderAbort, Window, AbortFrom, Delivers, Buffer;
  }

  lemma EffectPending(r: Rule, orig: seq<Fragment>, s: Sender, k: nat, e: Event, q: seq<Ref>, stopped: bool)
    requires Inv(r, orig, s, k) && Ready(s) && !s.rt && HeadIs(r, orig, s, k) && InRange(Heard(r, s, e), Head(s))
    requires ExpectsAck(r, Deref(s, Head(s)))
    ensures UpdateRt(SenderQueues.AfterLosses(r, Heard(r, s, e).(rq := q), Head(s), stopped)).tq != []
  {
    LossesKeep(r, orig, s, k, e, stopped);
    hide ExpectsAck, IsAll0, IsSenderAbort, SenderAbort, Window, AbortFrom, HeadIs, Inv;
  }

  /** What is left to transmit after any ACK update_queues sees. */
  lemma QueuedPending(r: Rule, orig: seq<Fragment>, s: Sender, k: nat, e: Event)
    requires r.WellFormed() && Inv(r, orig, s, k) && Ready(s) && !s.rt && HeadIs(r, orig, s, k)
    requires s.frs != [] && InRange(s, Head(s)) && ExpectsAck(r, Deref(s, Head(s))) && r.TupleSize() > 0
    ensures InRange(Heard(r, s, e), Head(s))
    ensures UpdateRt(UpdateQueues(r, Heard(r, s, e), Head(s), AckOfEvent(e))).tq == []
       <==> |s.tq| == 1 && !TakesEffect(r, Deref(s, Head(s)), AckOfEvent(e))
    ensures |s.tq| == 1 ==> IsAll1(r, Deref(s, Head(s)))
  {
    hide *;
    var a, s0 := AckOfEvent(e), Heard(r, s, e);
    AckShape(e);
    InvParts(r, orig, s, k);
    HeardSame(r, s, e);
    HeardPending(r, orig, s, k, e);
    if TakesEffect(r, Deref(s, Head(s)), a) {
      Worked(r, s0, Head(s), a);
      EffectPending(r, orig, s, k, e, Taken(r, s0, a),
                    SenderQueues.GivesUpOn(r, |s0.frs|, s0.lastWindow, Tuples(r, a)));
    } else {
      Ignored(r, s0, Head(s), a);
    }
  }

  lemma OverreachIs(r: Rule, s: Sender, e: Event)
    requires r.TupleSize() > 0 && Ready(s) && !s.rt && Delivers(e) && !IsReceiverAbort(r, AckOfEvent(e))
    ensures Overreach(r, s, e) <==>
      |s.tq| == 1 && IsAll1(r, Deref(s, Head(s))) && !Completes(r, s, e)
      && !TakesEffect(r, Deref(s, Head(s)), AckOfEvent(e))
  {
    hide IsAll1, IsReceiverAbort, IsComplete, TakesEffect, AckW, Delivers, Buffer;
  }

  lemma CompletesAll1(r: Rule, s: Sender, e: Event)
    requires r.TupleSize() > 0 && Ready(s) && Completes(r, s, e)
    ensures !Overreach(r, s, e)
  {
    hide IsAll1, IsReceiverAbort, IsComplete, TakesEffect, AckW, Delivers, Buffer;
  }

  lemma AnsweredDrains(c: Config, r: Rule, orig: seq<Fragment>, s: Sender, k: nat, e: Event)
    requires Faithful(r, orig) && Inv(r, orig, s, k) && Ready(s) && !s.rt && HeadIs(r, orig, s, k)
    requires r.WellFormed() && s.frs != [] && InRange(s, Head(s)) && r.TupleSize() > 0
    requires Delivers(e) && ExpectsAck(r, Deref(s, Head(s)))
    ensures var (s', o) := Step(c, r, s, e);
      && (o == Continue ==> (s'.tq == [] <==> Overreach(r, s, e)))
      && (Overreach(r, s, e) ==> o == Continue)
  {
    hide *;
    StepListens(c, r, orig, s, k, e);
    HandledIs(r, s, e);
    CompletesIs(r, s, e);
    if IsReceiverAbort(r, AckOfEvent(e)) {
      AbortIsNoOverreach(r, s, e);
    } else if Completes(r, s, e) {
      CompletesAll1(r, s, e);
    } else {
      QueuedPending(r, orig, s, k, e);
      OverreachIs(r, s, e);
    }
  }

  /** From any sound state, whatever ACK arrives, a step that goes on leaves the transmission
      queue empty exactly when it overreaches. */
  lemma DrainsExactly(c: Config, r: Rule, orig: seq<Fragment>, s: Sender, k: nat, e: Event)
    requires Faithful(r, orig) && Sound(r, orig, s, k) && Active(s)
    ensures Ready(s) && r.WellFormed() && s.frs != [] && r.TupleSize() > 0
    ensures var (s', o) := Step(c, r, s, e);
      && (o == Continue ==> (s'.tq == [] <==> Overreach(r, s, e)))
      && (Overreach(r, s, e) ==> o == Continue)
  {
    hide *;
    SoundBounds(r, orig, s, k);
    SoundReady(r, orig, s, k);
    FaithfulTuples(r, orig);
    if s.rt {
      SoundIntact(r, orig, s, k);
      Retransmits(c, r, orig, s, e);
      RetransmissionIs(r, s, e);
      RetransmissionIsNoOverreach(r, s, e);
      PendingWhile(r, orig, s, k);
    } else {
      SoundIsInv(r, orig, s, k);
      HeadClass(r, orig, s, k);
      if Delivers(e) && ExpectsAck(r, Deref(s, Head(s))) {
        AnsweredDrains(c, r, orig, s, k, e);
      } else {
        StepSilent(c, r, orig, s, k, e);
        SilenceKeepsPending(c, r, orig, s, k, e);
        SilenceIsNoOverreach(r, s, e);
      }
    }
  }

  /** While there are retransmissions there is something to transmit behind them. */
  lemma PendingWhile(r: Rule, orig: seq<Fragment>, s: Sender, k: nat)
    requires Sound(r, orig, s, k) && s.rt
    ensures s.tq != []
  {
    hide FragmentsOk, TransmissionOk;
  }

  lemma RetransmissionIsNoOverreach(r: Rule, s: Sender, e: Event)
    requires Ready(s) && s.rt && r.TupleSize() > 0
    ensures !Overreach(r, s, e)
  {
  }

  lemma AbortIsNoOverreach(r: Rule, s: Sender, e: Event)
    requires r.TupleSize() > 0 && Ready(s) && IsReceiverAbort(r, AckOfEvent(e))
    ensures !Overreach(r, s, e)
  {
  }

  lemma SilenceIsNoOverreach(r: Rule, s: Sender, e: Event)
    requires r.TupleSize() > 0 && Ready(s)
    requires !Delivers(e) || !ExpectsAck(r, Deref(s, Head(s)))
    ensures !Overreach(r, s, e)
  {
  }

  /** Whether a run overreaches at some point. */
  predicate EverOverreaches(c: Config, r: Rule, s: Sender, es: seq<Event>)
    requires r.WellFormed() && s.frs != []
    decreases |es|
  {
    && es != [] && Ready(s)
    && (Overreach(r, s, es[0]) ||
        var (s', o) := Step(c, r, s, es[0]); o == Continue && EverOverreaches(c, r, s', es[1..]))
  }

  /** The sender leaves its loop by draining both queues exactly when it overreaches, whatever
      ACKs arrive; every other run that ends, ends with a result code or is stuck. */
  lemma {:induction false} SilentExitExactly(c: Config, r: Rule, orig: seq<Fragment>, s: Sender, k: nat, es: seq<Event>)
    requires Faithful(r, orig) && r.WellFormed() && s.frs != [] && Sound(r, orig, s, k) && Active(s)
    ensures Run(c, r, s, es).1 == Drained <==> EverOverreaches(c, r, s, es)
    decreases |es|
  {
    hide Faithful, Sound, Step, Overreach, Outside, GoesOnTo;
    if es != [] {
      AnyStep(c, r, orig, s, k, es[0]);
      DrainsExactly(c, r, orig, s, k, es[0]);
      RunUnfolds(c, r, s, es);
      var (s1, o) := Step(c, r, s, es[0]);
      if o == Continue {
        var p := OnTo(r, orig, s1, NextK(s, |orig|, k));
        if !Sound(r, orig, s1, NextK(s, |orig|, k)) {
          OutsideRuns(c, r, orig, s1, p, es[1..]);
          OutsidePending(c, r, orig, s, k, es[0], p);
        } else if s1.tq != [] {
          SilentExitExactly(c, r, orig, s1, NextK(s, |orig|, k), es[1..]);
        } else {
          EmptyMeansDrained(c, r, orig, s1, NextK(s, |orig|, k), es[1..]);
        }
      }
    }
  }

  /** An ACK that puts a pointer outside does not overreach. */
  lemma OutsidePending(c: Config, r: Rule, orig: seq<Fragment>, s: Sender, k: nat, e: Event, p: nat)
    requires Faithful(r, orig) && Sound(r, orig, s, k) && Active(s) && r.WellFormed() && s.frs != []
    requires r.TupleSize() > 0 && Ready(s) && Step(c, r, s, e).1 == Continue && Outside(orig, Step(c, r, s, e).0, p)
    ensures !Overreach(r, s, e)
  {
    hide *;
    SoundBounds(r, orig, s, k);
    if Overreach(r, s, e) {
      OverreachIgnored(r, s, e);
      NoWork(r, s, e);
      SoundStep(c, r, orig, s, k, e);
      SoundAfterParts(r, orig, s, Step(c, r, s, e), NextK(s, |orig|, k));
      SoundNotOutside(r, orig, Step(c, r, s, e).0, NextK(s, |orig|, k), p);
    }
  }

  lemma OverreachIgnored(r: Rule, s: Sender, e: Event)
    requires r.TupleSize() > 0 && Ready(s) && Overreach(r, s, e)
    ensures !WorksThrough(r, s, e)
  {
    hide IsAll1, IsReceiverAbort, IsComplete, TakesEffect, AckW, Delivers, Buffer, ExpectsAck;
  }

  lemma SoundNotOutside(r: Rule, orig: seq<Fragment>, s: Sender, k: nat, p: nat)
    requires Sound(r, orig, s, k)
    ensures !Outside(orig, s, p)
  {
    hide FragmentsOk, TransmissionOk, Intact;
  }

  lemma EmptyMeansDrained(c: Config, r: Rule, orig: seq<Fragment>, s: Sender, k: nat, es: seq<Event>)
    requires r.WellFormed() && s.frs != [] && Sound(r, orig, s, k) && s.tq == []
    ensures Run(c, r, s, es) == (s, Drained)
  {
  }

  /** The ACK, unless it is a Receiver-Abort, names only windows of the packet. */
  ghost predicate WithinPacket(r: Rule, lastWindow: int, e: Event)
    requires r.TupleSize() > 0
  {
    Delivers(e) && !IsReceiverAbort(r, AckOfEvent(e)) ==> Greatest(r, AckOfEvent(e)) <= lastWindow
  }

  /** An All-1 at the head is of the packet's last window, or of a later one. */
  lemma All1IsLate(r: Rule, orig: seq<Fragment>, s: Sender, k: nat)
    requires Faithful(r, orig) && Inv(r, orig, s, k) && Active(s) && Ready(s) && InRange(s, Head(s))
    requires !s.rt && IsAll1(r, Deref(s, Head(s)))
    ensures s.lastWindow <= Window(r, Deref(s, Head(s)))
  {
    hide Faithful, Inv, IsAll1, Window, SenderAbort, Head, Active;
    LastWindowOf(r, orig, s, k);
    Bounds(r, orig, s, k);
    FaithfulSizes(r, orig);
    HeadExists(r, orig, s, k);
    LastWindowInRange(r, |orig|);
    if IsAbortMessage(r, Deref(s, Head(s))) {
      AbortClass(r);
    } else {
      ClassOfOriginal(r, orig, Head(s).idx);
    }
  }

  lemma WithinPacketIsEffective(r: Rule, orig: seq<Fragment>, s: Sender, k: nat, e: Event)
    requires Faithful(r, orig) && Sound(r, orig, s, k) && Active(s) && Ready(s)
    requires r.TupleSize() > 0 && WithinPacket(r, s.lastWindow, e)
    ensures !Overreach(r, s, e)
  {
    hide Faithful, Sound, Inv, IsAll1, Window, SenderAbort, Greatest, Delivers, IsReceiverAbort;
    if !s.rt && IsAll1(r, Deref(s, Head(s))) {
      SoundIsInv(r, orig, s, k);
      All1IsLate(r, orig, s, k);
    }
  }

  lemma LastWindowInRange(r: Rule, n: nat)
    requires r.WellFormed() && 1 <= n <= r.MaxFragmentNb()
    ensures (n - 1) / r.windowSize <= r.MaxWindowNb() - 1
  {
    WindowInRange(n - 1, r.windowSize, Pow2(r.m));
  }

  /** No silent exit: with ACKs whose last window is one of the packet's, whatever else they name,
      the queues are never drained. */
  lemma {:induction false} NoSilentExit(c: Config, r: Rule, orig: seq<Fragment>, s: Sender, k: nat, es: seq<Event>)
    requires Faithful(r, orig) && r.WellFormed() && s.frs != [] && Sound(r, orig, s, k) && Active(s)
    requires forall i | 0 <= i < |es| :: WithinPacket(r, s.lastWindow, es[i])
    ensures Run(c, r, s, es).1 != Drained
    decreases |es|
  {
    hide Faithful, Sound, Step, Overreach, WithinPacket, Outside, GoesOnTo;
    if es != [] {
      AnyStep(c, r, orig, s, k, es[0]);
      DrainsExactly(c, r, orig, s, k, es[0]);
      WithinPacketIsEffective(r, orig, s, k, es[0]);
      RunUnfolds(c, r, s, es);
      var (s1, o) := Step(c, r, s, es[0]);
      if o == Continue {
        var p := OnTo(r, orig, s1, NextK(s, |orig|, k));
        if Sound(r, orig, s1, NextK(s, |orig|, k)) {
          SoundLastWindow(r, orig, s, k, s1, NextK(s, |orig|, k));
          NoSilentExit(c, r, orig, s1, NextK(s, |orig|, k), es[1..]);
        } else {
          OutsideRuns(c, r, orig, s1, p, es[1..]);
        }
      }
    }
  }

  lemma SoundLastWindow(r: Rule, orig: seq<Fragment>, s: Sender, k: nat, s1: Sender, k1: nat)
    requires Sound(r, orig, s, k) && Sound(r, orig, s1, k1)
    ensures s1.lastWindow == s.lastWindow && s1.frs != []
  {
    hide TransmissionOk;
  }
}
