// What a call that sleeps or returns has moved, in every run of readers and
// writers: when a read may return, when a write may return short, and how many
// calls an interrupt can cut short.

module RingReturns {
  import opened Rings
  import opened RingProtocol

  // ----- sleeping calls -----

  /** At the head of the loop or in its sleep a read has nothing and a write is not done; and a write into a buffer
      that discards does not sleep. */
  ghost predicate HandsOk(c: Call, discard: bool) {
    match c
    case Read(want, got, phase) => phase == Ready || phase == Asleep || phase.Woken? ==> got == []
    case Write(src, written, phase) =>
      && written <= |src| && (phase == Ready || phase == Asleep || phase.Woken? ==> written < |src|)
      && (discard ==> phase != Asleep && !phase.Woken?)
  }

  ghost predicate AllHandsOk(s: Sys) {
    forall id :: id in s.calls ==> HandsOk(s.calls[id], s.discard)
  }

  lemma StepHands(s: Sys, e: Event)
    requires Valid(s.ring) && Enabled(s, e) && AllHandsOk(s)
    ensures AllHandsOk(Apply(s, e))
  {
    hide Put, Take, Unread, Available;
  }

  /** A call goes to sleep, and stays asleep, only while it must: a read without a byte, a write with bytes
      left. */
  lemma {:induction false} AlwaysHands(ss: seq<Sys>, es: seq<Event>, i: nat)
    requires IsRun(ss, es) && i <= |es|
    ensures AllHandsOk(ss[i])
  {
    hide Enabled, Apply, HandsOk;
    if i > 0 {
      AlwaysHands(ss, es, i - 1);
      StepHands(ss[i - 1], es[i - 1]);
    }
  }

  // ----- calls that return -----

  predicate Leaving(c: Call) {
    c.phase == Exiting || c.phase == Finished
  }

  /** A read is complete with its first bytes, a write with all of them. */
  predicate Complete(c: Call) {
    match c
    case Read(_, got, _) => got != []
    case Write(src, written, _) => written == |src|
  }

  /** Calls that return incomplete although nothing is discarded. */
  ghost function CutShort(s: Sys): set<nat> {
    set id | id in s.calls && Leaving(s.calls[id]) && !Complete(s.calls[id]) && !(s.calls[id].Write? && s.discard)
  }

  function Interrupts(es: seq<Event>): nat {
    if es == [] then 0 else Interrupts(es[..|es| - 1]) + if es[|es| - 1] == Interrupt then 1 else 0
  }

  /** One call: it leaves complete, discarding, or by taking a stop request. */
  lemma LeavesBy(s: Sys, e: Event, id: nat)
    requires Valid(s.ring) && Enabled(s, e) && AllHandsOk(s) && id in Apply(s, e).calls
    requires Leaving(Apply(s, e).calls[id]) && !(id in s.calls && Leaving(s.calls[id]))
    ensures var s' := Apply(s, e);
            || Complete(s'.calls[id]) || (s'.calls[id].Write? && s'.discard)
            || (e == Resume(id) && s.stop && !s'.stop)
  {
    hide Put, Take, Unread, Available, CanMove, WakeSide, WakeAll, MoveByte;
    if !(e.StartWrite? || e == Decide(id) || e == Resume(id)) {
      OtherwiseStays(s, e, id);
    }
  }

  lemma OtherwiseStays(s: Sys, e: Event, id: nat)
    requires Valid(s.ring) && Enabled(s, e) && id in Apply(s, e).calls
    requires !(e.StartWrite? || e == Decide(id) || e == Resume(id))
    ensures Leaving(Apply(s, e).calls[id]) ==> id in s.calls && Leaving(s.calls[id])
  {
    hide Put, Take, Unread, Available, CanMove, Short;
  }

  /** A call that leaves moves nothing more. */
  lemma StillLeaving(s: Sys, e: Event, id: nat)
    requires Valid(s.ring) && Enabled(s, e) && id in s.calls && Leaving(s.calls[id])
    ensures id in Apply(s, e).calls && Complete(Apply(s, e).calls[id]) == Complete(s.calls[id])
              && Apply(s, e).calls[id].Write? == s.calls[id].Write?
  {
    hide Put, Take, Unread, Available, CanMove;
  }

  lemma StepStop(s: Sys, e: Event)
    requires Valid(s.ring) && Enabled(s, e)
    ensures var s' := Apply(s, e);
            && s'.pipe == s.pipe && s'.discard == s.discard && (s'.stop ==> s.stop || e == Interrupt)
            && (s.stop && !s'.stop ==> e.Resume?)
  {
    hide Put, Take, Unread, Available, CanMove, WakeSide, WakeAll;
  }

  /** Only a call that wakes up to a stop request returns incomplete, and it takes the request away. */
  lemma StepCutShort(s: Sys, e: Event)
    requires Valid(s.ring) && Enabled(s, e) && AllHandsOk(s)
    ensures var s' := Apply(s, e);
            && s'.pipe == s.pipe && s'.discard == s.discard
            && if e.Resume? && s.stop && !s'.stop then CutShort(s') <= CutShort(s) + {e.id}
               else CutShort(s') <= CutShort(s) && (s'.stop ==> s.stop || e == Interrupt)
  {
    hide Enabled, Apply, AllHandsOk, Leaving, Complete;
    StepStop(s, e);
    forall id | id in CutShort(Apply(s, e))
      ensures id in CutShort(s) || (e == Resume(id) && s.stop && !Apply(s, e).stop)
    {
      if id in s.calls && Leaving(s.calls[id]) {
        StillLeaving(s, e, id);
      } else {
        LeavesBy(s, e, id);
      }
    }
  }

  lemma {:induction false} AlwaysCutShort(ss: seq<Sys>, es: seq<Event>, i: nat)
    requires IsRun(ss, es) && i <= |es|
    ensures |CutShort(ss[i])| + (if ss[i].stop then 1 else 0) <= Interrupts(es[..i])
    ensures ss[i].pipe == ss[0].pipe && ss[i].discard == ss[0].discard
  {
    hide Enabled, Apply, AllHandsOk;
    if i == 0 {
      assert CutShort(ss[0]) == {};
    } else {
      AlwaysCutShort(ss, es, i - 1);
      AlwaysHands(ss, es, i - 1);
      StepCutShort(ss[i - 1], es[i - 1]);
      assert es[..i][..i - 1] == es[..i - 1];
      Sizes(CutShort(ss[i]), CutShort(ss[i - 1]), if es[i - 1].Resume? then es[i - 1].id else 0);
    }
  }

  lemma Sizes(a: set<nat>, b: set<nat>, x: nat)
    ensures a <= b ==> |a| <= |b|
    ensures a <= b + {x} ==> |a| <= |b| + 1
  {
    if a <= b {
      assert |b| == |a| + |b - a| by { assert b == a + (b - a); }
    }
    if a <= b + {x} {
      assert |b + {x}| == |a| + |(b + {x}) - a| by { assert b + {x} == a + ((b + {x}) - a); }
    }
  }

  /** In every run: there are no more calls cut short than interrupts, so without one a read returns with bytes and a
      write returns done or discards. A pipe knows no interrupts and never discards. */
  lemma Returns(ss: seq<Sys>, es: seq<Event>, i: nat)
    requires IsRun(ss, es) && i <= |es|
    ensures |CutShort(ss[i])| <= Interrupts(es[..i])
    ensures Interrupt !in es[..i] ==>
              forall id :: id in ss[i].calls && ss[i].calls[id].phase == Finished ==>
                match ss[i].calls[id]
                case Read(_, got, _) => got != []
                case Write(src, written, _) => written == |src| || ss[i].discard
    ensures ss[i].pipe ==> !ss[i].discard && Interrupt !in es[..i]
    ensures forall id :: id in ss[i].calls && ss[i].calls[id].phase == Asleep ==>
              match ss[i].calls[id]
              case Read(_, got, _) => got == []
              case Write(src, written, _) => written < |src| && !ss[i].discard
  {
    hide Enabled, Apply;
    AlwaysHands(ss, es, i);
    AlwaysCutShort(ss, es, i);
    if ss[0].pipe {
      NoInterrupts(ss, es, i);
    }
    if Interrupt !in es[..i] {
      CountNone(es[..i]);
      forall id | id in ss[i].calls && ss[i].calls[id].phase == Finished
        ensures Complete(ss[i].calls[id]) || (ss[i].calls[id].Write? && ss[i].discard)
      {
        assert id !in CutShort(ss[i]);
      }
    }
  }

  lemma {:induction false} CountNone(es: seq<Event>)
    requires Interrupt !in es
    ensures Interrupts(es) == 0
  {
    if es != [] {
      CountNone(es[..|es| - 1]);
    }
  }

  lemma {:induction false} NoInterrupts(ss: seq<Sys>, es: seq<Event>, i: nat)
    requires IsRun(ss, es) && i <= |es| && ss[0].pipe
    ensures Interrupt !in es[..i]
  {
    hide Apply;
    if i > 0 {
      NoInterrupts(ss, es, i - 1);
      AlwaysCutShort(ss, es, i - 1);
      assert es[..i] == es[..i - 1] + [es[i - 1]];
    }
  }

  // ----- how much a call moves -----

  /** The call is behind its transfer loop. */
  predicate Passed(c: Call) {
    c.phase != Ready && c.phase != Moving && !(c.Write? && c.src == [])
  }

  /** Step j ended the last transfer loop of the call, which found no more to do. */
  ghost predicate LastPass(ss: seq<Sys>, es: seq<Event>, j: nat, id: nat, c: Call) {
    && j < |es| && j < |ss| && es[j] == EndMove(id) && id in ss[j].calls && SameData(ss[j].calls[id], c)
    && match c
       case Read(want, got, _) => |got| >= want || Unread(ss[j].ring) == 0
       case Write(src, written, _) => written >= |src| || Available(ss[j].ring) == 0
  }

  /** A call that is behind its transfer loop keeps what it has moved. */
  lemma StepPassed(s: Sys, e: Event, id: nat)
    requires Valid(s.ring) && Enabled(s, e) && id in Apply(s, e).calls && Passed(Apply(s, e).calls[id])
    ensures id in s.calls && SameData(s.calls[id], Apply(s, e).calls[id])
    ensures if e == EndMove(id) then !CanMove(s.ring, s.calls[id]) else Passed(s.calls[id])
  {
    if e.Move? {
      hide Put, Take, CanMove;
    } else {
      StepNoTransfer(s, e);
      PhasePassed(s, e, id);
    }
  }

  lemma PhasePassed(s: Sys, e: Event, id: nat)
    requires Valid(s.ring) && Enabled(s, e) && id in Apply(s, e).calls && Passed(Apply(s, e).calls[id]) && !e.Move?
    ensures id in s.calls
    ensures if e == EndMove(id) then !CanMove(s.ring, s.calls[id]) else Passed(s.calls[id])
  {
    hide Put, Take, Unread, Available, CanMove, MoveByte, Short;
  }

  /** A read that returns less than it was asked for has seen the buffer empty, and a write that returns short has seen
      it full, at the end of its last transfer loop. */
  lemma {:induction false} ReturnsAll(ss: seq<Sys>, es: seq<Event>, i: nat, id: nat)
    requires IsRun(ss, es) && i <= |es| && id in ss[i].calls && Passed(ss[i].calls[id])
    ensures exists j :: 0 <= j < i && LastPass(ss, es, j, id, ss[i].calls[id])
  {
    hide Enabled, Apply, Passed;
    if i > 0 {
      StepPassed(ss[i - 1], es[i - 1], id);
      if es[i - 1] == EndMove(id) {
        assert LastPass(ss, es, i - 1, id, ss[i].calls[id]);
      } else {
        ReturnsAll(ss, es, i - 1, id);
        var j :| 0 <= j < i - 1 && LastPass(ss, es, j, id, ss[i - 1].calls[id]);
        assert LastPass(ss, es, j, id, ss[i].calls[id]);
      }
    }
  }

  // ----- waking up -----

  /** The wake-up calls reach every sleeper of the other side and nobody else. */
  lemma WakesOtherSide(ss: seq<Sys>, es: seq<Event>, i: nat, id: nat, j: nat)
    requires IsRun(ss, es) && i < |es| && (es[i] == Wake(id) || (es[i] == Exit(id) && !ss[i].pipe))
    requires j in ss[i].calls && j != id
    ensures id in ss[i].calls && j in ss[i + 1].calls
    ensures var c, c' := ss[i].calls[j], ss[i + 1].calls[j];
            if c.phase == Asleep && c.Read? == ss[i].calls[id].Write? then c' == c.(phase := Woken(false)) else c' == c
  {
  }

  /** An interrupt wakes every sleeper, and the first of them to go on takes the request and leaves its loop; the others
      go round again. */
  lemma InterruptStopsOne(ss: seq<Sys>, es: seq<Event>, i: nat, id: nat)
    requires IsRun(ss, es) && i < |es| && id in ss[i].calls && (es[i] == Interrupt || es[i] == Resume(id))
    ensures id in ss[i + 1].calls
    ensures es[i] == Interrupt ==>
              ss[i + 1].stop && ss[i + 1].calls[id].phase ==
                if ss[i].calls[id].phase == Asleep then Woken(true) else ss[i].calls[id].phase
    ensures es[i] == Resume(id) ==>
              && (ss[i + 1].calls[id].phase == Exiting <==> ss[i].calls[id].phase == Woken(true) && ss[i].stop)
              && (ss[i + 1].calls[id].phase != Exiting ==> ss[i + 1].calls[id].phase == Ready)
              && (ss[i + 1].stop <==> ss[i].stop && ss[i].calls[id].phase != Woken(true))
  {
    hide Put, Take, Unread, Available, CanMove, MoveByte, WakeSide;
  }
}
