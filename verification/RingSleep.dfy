// When readers and writers of one buffer can all be asleep.

module RingSleep {
  import opened Bytes
  import opened Rings
  import opened RingProtocol

  /** Between the head of the outer loop and its last statement. */
  predicate MidPass(c: Call) {
    c.phase == Moving || c.phase == Waking || c.phase == Deciding
  }

  /** Each pass of an outer loop runs alone. */
  ghost predicate Atomic(s: Sys) {
    forall i, j :: i in s.calls && j in s.calls && MidPass(s.calls[i]) && MidPass(s.calls[j]) ==> i == j
  }

  ghost predicate SomeAsleep(s: Sys, readers: bool) {
    exists id :: id in s.calls && s.calls[id].Read? == readers && s.calls[id].phase == Asleep
  }

  /** A pass that may have moved bytes has not yet woken the other side. */
  ghost predicate Unannounced(s: Sys, readers: bool) {
    exists id :: id in s.calls && s.calls[id].Read? == readers
        && (s.calls[id].phase == Moving || s.calls[id].phase == Waking)
  }

  /** Nothing for this call to do: no bytes for a reader that wants some, no room for a writer. */
  predicate Stuck(ring: Ring, c: Call) {
    match c
    case Read(want, _, _) => want > 0 ==> Unread(ring) == 0
    case Write(_, _, _) => Available(ring) == 0
  }

  ghost predicate CallSleepOk(s: Sys, id: nat)
    requires id in s.calls
  {
    var c := s.calls[id];
    && (c.phase == Waking || c.phase == Deciding ==> Short(c) ==> Stuck(s.ring, c))
    && (c.phase == Deciding ==> !SomeAsleep(s, c.Write?))
    && (c.phase == Asleep ==> Stuck(s.ring, c) || Unannounced(s, c.Write?))
  }

  ghost predicate SleepInv(s: Sys) {
    && Valid(s.ring)
    && !(SomeAsleep(s, true) && SomeAsleep(s, false))
    && forall id :: id in s.calls ==> CallSleepOk(s, id)
  }

  /** Nobody new sleeps. */
  lemma Sleepers(s: Sys, s': Sys)
    requires forall j :: j in s'.calls && s'.calls[j].phase == Asleep ==>
               j in s.calls && s.calls[j].phase == Asleep && s'.calls[j].Read? == s.calls[j].Read?
    ensures SomeAsleep(s', true) ==> SomeAsleep(s, true)
    ensures SomeAsleep(s', false) ==> SomeAsleep(s, false)
  {
  }

  lemma StillUnannounced(s: Sys, s': Sys, readers: bool)
    requires Unannounced(s, readers)
    requires forall j :: j in s.calls && (s.calls[j].phase == Moving || s.calls[j].phase == Waking) ==>
               j in s'.calls && (s'.calls[j].phase == Moving || s'.calls[j].phase == Waking)
                   && s'.calls[j].Read? == s.calls[j].Read?
    ensures Unannounced(s', readers)
  {
  }

  /** While a pass of one side runs alone, no pass of the other side is under way. */
  lemma Alone(s: Sys, id: nat)
    requires Atomic(s) && id in s.calls && MidPass(s.calls[id])
    ensures !Unannounced(s, s.calls[id].Write?)
    ensures forall j :: j in s.calls && j != id ==> !MidPass(s.calls[j])
  {
  }

  /** Past the transfer loop of a pass, or asleep. */
  predicate PastTransfer(c: Call) {
    c.phase == Asleep || c.phase == Waking || c.phase == Deciding
  }

  /** No byte moves, nobody falls asleep, and no pass gets past its transfer loop. */
  ghost predicate Quiet(s: Sys, s': Sys) {
    && s'.ring == s.ring
    && (forall j :: j in s'.calls && PastTransfer(s'.calls[j]) ==> j in s.calls && s'.calls[j] == s.calls[j])
    && (forall j :: j in s.calls && (s.calls[j].phase == Moving || s.calls[j].phase == Waking) ==>
          j in s'.calls && (s'.calls[j].phase == Moving || s'.calls[j].phase == Waking)
              && s'.calls[j].Read? == s.calls[j].Read?)
  }

  lemma QuietSleep(s: Sys, s': Sys)
    requires SleepInv(s) && Quiet(s, s')
    ensures SleepInv(s')
  {
    hide Unread, Available, Valid;
    Sleepers(s, s');
    forall j | j in s'.calls
      ensures CallSleepOk(s', j)
    {
      if j in s.calls {
        assert CallSleepOk(s, j);
        if Unannounced(s, s.calls[j].Write?) {
          StillUnannounced(s, s', s.calls[j].Write?);
        }
      }
    }
  }

  lemma QuietEnds(s: Sys, e: Event)
    requires Valid(s.ring) && Enabled(s, e) && (e.Exit? || e.Interrupt?)
    ensures Quiet(s, Apply(s, e))
  {
    hide Unread, Available, CanMove;
  }

  lemma QuietSteps(s: Sys, e: Event)
    requires Valid(s.ring) && Enabled(s, e) && !e.Move? && !e.EndMove? && !e.Wake? && !e.Decide? && !e.Exit?
             && !e.Interrupt?
    ensures Quiet(s, Apply(s, e))
  {
    hide Unread, Available, CanMove;
  }

  lemma EndMoveSleep(s: Sys, id: nat)
    requires SleepInv(s) && Enabled(s, EndMove(id))
    ensures SleepInv(Apply(s, EndMove(id)))
  {
    CountsAgree(s.ring);
    var s' := Apply(s, EndMove(id));
    Sleepers(s, s');
    hide Unread, Available, Valid;
    forall j | j in s'.calls
      ensures CallSleepOk(s', j)
    {
      assert CallSleepOk(s, j);
      if j != id && Unannounced(s, s.calls[j].Write?) {
        StillUnannounced(s, s', s.calls[j].Write?);
      }
    }
  }

  /** What a wake-up call does: every sleeper of the other side wakes, and the call goes on to decide. */
  lemma WakeShape(s: Sys, id: nat)
    requires Valid(s.ring) && Enabled(s, Wake(id))
    ensures id in s.calls
    ensures var s' := Apply(s, Wake(id)); var side := s.calls[id].Write?;
            && s'.ring == s.ring && s'.calls.Keys == s.calls.Keys && s'.calls[id] == s.calls[id].(phase := Deciding)
            && s.calls[id].phase == Waking
            && forall j :: j in s.calls && j != id ==>
                 s'.calls[j] == if s.calls[j].Read? == side then Woke(s.calls[j], false) else s.calls[j]
  {
  }

  lemma WakeSleep(s: Sys, id: nat)
    requires SleepInv(s) && Atomic(s) && Enabled(s, Wake(id))
    ensures SleepInv(Apply(s, Wake(id)))
  {
    hide Unread, Available, Valid, Apply, Enabled, Stuck, Short;
    WakeShape(s, id);
    var s' := Apply(s, Wake(id));
    var side := s.calls[id].Write?;
    Sleepers(s, s');
    Alone(s, id);
    assert !SomeAsleep(s', side);
    forall j | j in s'.calls
      ensures CallSleepOk(s', j)
    {
      assert CallSleepOk(s, j);
      if j == id {
        SameWants(s.ring, s.calls[j], s'.calls[j]);
      }
    }
  }

  /** Whether a call is stuck or short does not depend on its phase. */
  lemma SameWants(ring: Ring, c: Call, c': Call)
    requires SameData(c, c')
    ensures Stuck(ring, c') == Stuck(ring, c) && Short(c') == Short(c)
  {
  }

  lemma DecideSleep(s: Sys, id: nat)
    requires SleepInv(s) && Atomic(s) && Enabled(s, Decide(id))
    ensures SleepInv(Apply(s, Decide(id)))
  {
    hide Unread, Available, Valid;
    var s' := Apply(s, Decide(id));
    assert CallSleepOk(s, id);
    assert MidPass(s.calls[id]);
    forall j | j in s'.calls
      ensures CallSleepOk(s', j)
    {
      assert CallSleepOk(s, j);
      if j != id && Unannounced(s, s.calls[j].Write?) {
        StillUnannounced(s, s', s.calls[j].Write?);
      }
    }
  }

  /** A moved byte changes the buffer and the call that moved it, but nobody's phase. */
  lemma MoveShape(s: Sys, id: nat)
    requires Valid(s.ring) && Enabled(s, Move(id))
    ensures id in s.calls
    ensures var s' := Apply(s, Move(id));
            && Valid(s'.ring) && s'.calls.Keys == s.calls.Keys && s.calls[id].phase == s'.calls[id].phase == Moving
            && s'.calls[id].Read? == s.calls[id].Read? && CanMove(s.ring, s.calls[id])
            && forall j :: j in s.calls && j != id ==> s'.calls[j] == s.calls[j]
  {
    ApplyValid(s, Move(id));
    hide Unread, Available;
  }

  lemma MoveSleep(s: Sys, id: nat)
    requires SleepInv(s) && Atomic(s) && Enabled(s, Move(id))
    ensures SleepInv(Apply(s, Move(id)))
  {
    hide Valid, Apply, Enabled, Unread, Available;
    MoveShape(s, id);
    var s' := Apply(s, Move(id));
    Sleepers(s, s');
    Alone(s, id);
    assert Unannounced(s', s.calls[id].Read?) by { assert s'.calls[id].phase == Moving; }
    forall j | j in s'.calls
      ensures CallSleepOk(s', j)
    {
      assert CallSleepOk(s, j);
    }
  }

  lemma StepSleep(s: Sys, e: Event)
    requires SleepInv(s) && Atomic(s) && Enabled(s, e)
    ensures SleepInv(Apply(s, e))
  {
    match e
    case Move(id) => MoveSleep(s, id);
    case EndMove(id) => EndMoveSleep(s, id);
    case Wake(id) => WakeSleep(s, id);
    case Decide(id) => DecideSleep(s, id);
    case _ =>
      if e.Exit? || e.Interrupt? {
        QuietEnds(s, e);
      } else {
        QuietSteps(s, e);
      }
      QuietSleep(s, Apply(s, e));
  }

  /** While passes run alone: never both sides asleep; a sleeping reader that wants bytes faces an empty buffer and a
      sleeping writer a full one, unless a pass of the other side is about to wake it. */
  lemma {:induction false} NeverBothAsleep(ss: seq<Sys>, es: seq<Event>, i: nat)
    requires IsRun(ss, es) && i <= |es| && forall k :: 0 <= k < |ss| ==> Atomic(ss[k])
    ensures SleepInv(ss[i]) && !(SomeAsleep(ss[i], true) && SomeAsleep(ss[i], false))
  {
    hide Enabled, Apply, Atomic, CallSleepOk;
    if i > 0 {
      NeverBothAsleep(ss, es, i - 1);
      StepSleep(ss[i - 1], es[i - 1]);
    }
  }

  /** A run that ends in state s. */
  ghost predicate Reaches(ss: seq<Sys>, es: seq<Event>, s: Sys) {
    IsRun(ss, es) && ss[|es|] == s
  }

  ghost predicate Leads(s: Sys, e: Event, s': Sys) {
    Valid(s.ring) && Enabled(s, e) && s' == Apply(s, e)
  }

  lemma Then(ss: seq<Sys>, es: seq<Event>, s: Sys, e: Event, s': Sys) returns (ss': seq<Sys>, es': seq<Event>)
    requires Reaches(ss, es, s) && Leads(s, e, s')
    ensures Reaches(ss', es', s') && ss' == ss + [s'] && |ss'| > 0
  {
    hide Enabled, Apply, Initial;
    ss', es' := ss + [s'], es + [e];
  }

  /** The reader of one byte has found the buffer empty and has made its wake-up call; the writer of two bytes stands
      here. */
  function Race(q: bool, ring: Ring, log: seq<(nat, byte)>, written: nat, p: Phase): Sys {
    Sys(ring, q, map[0 := Read(1, [], Deciding), 1 := Write([7, 8], written, p)], false, false, log, [])
  }

  function Lone(q: bool, p: Phase): Sys {
    Sys(Ring([0, 0], 0, 0), q, map[0 := Read(1, [], p)], false, false, [], [])
  }

  lemma LoneStart(q: bool, s0: Sys)
    requires s0 == Sys(Ring([0, 0], 0, 0), q, map[], false, false, [], [])
    ensures Reaches([s0], [], s0) && Leads(s0, StartRead(0, 1), Lone(q, Ready))
  {
  }

  lemma LoneSteps(q: bool)
    ensures Leads(Lone(q, Ready), Begin(0), Lone(q, Moving)) && Leads(Lone(q, Moving), EndMove(0), Lone(q, Waking))
  {
  }

  lemma LoneWakes(q: bool)
    ensures Leads(Lone(q, Waking), Wake(0), Lone(q, Deciding))
    ensures Leads(Lone(q, Deciding), StartWrite(1, [7, 8]), Race(q, Ring([0, 0], 0, 0), [], 0, Ready))
  {
  }

  lemma RaceMoves(q: bool, r0: Ring, r1: Ring)
    requires r0 == Ring([0, 0], 0, 0) && r1 == Ring([7, 0], 0, 1)
    ensures Leads(Race(q, r0, [], 0, Ready), Begin(1), Race(q, r0, [], 0, Moving))
    ensures Leads(Race(q, r0, [], 0, Moving), Move(1), Race(q, r1, [(1, 7)], 1, Moving))
    ensures Leads(Race(q, r1, [(1, 7)], 1, Moving), EndMove(1), Race(q, r1, [(1, 7)], 1, Waking))
  {
  }

  lemma RaceSleeps(q: bool, r1: Ring)
    requires r1 == Ring([7, 0], 0, 1)
    ensures Leads(Race(q, r1, [(1, 7)], 1, Waking), Wake(1), Race(q, r1, [(1, 7)], 1, Deciding))
    ensures Leads(Race(q, r1, [(1, 7)], 1, Deciding), Decide(1), Race(q, r1, [(1, 7)], 1, Asleep))
  {
  }

  /** No two calls are in their transfer loops, which is all that the locks would have been around. */
  ghost predicate OneMoves(s: Sys) {
    forall i, j :: i in s.calls && j in s.calls && s.calls[i].phase == Moving && s.calls[j].phase == Moving ==> i == j
  }

  lemma LoneMoves(q: bool)
    ensures OneMoves(Sys(Ring([0, 0], 0, 0), q, map[], false, false, [], [])) && forall p :: OneMoves(Lone(q, p))
  {
  }

  lemma RaceMovesAlone(q: bool)
    ensures forall ring, log, written, p :: OneMoves(Race(q, ring, log, written, p))
  {
  }

  lemma WriterRuns(q: bool) returns (ss: seq<Sys>, es: seq<Event>, k: nat)
    ensures Reaches(ss, es, Race(q, Ring([7, 0], 0, 1), [(1, 7)], 1, Asleep))
    ensures forall i :: 0 <= i < |ss| ==> OneMoves(ss[i])
    ensures k < |ss| && ss[k] == Race(q, Ring([0, 0], 0, 0), [], 0, Moving)
  {
    hide Reaches, Leads, Race, Lone, OneMoves;
    LoneMoves(q);
    RaceMovesAlone(q);
    var r0, r1 := Ring([0, 0], 0, 0), Ring([7, 0], 0, 1);
    var s0 := Sys(r0, q, map[], false, false, [], []);
    LoneStart(q, s0);
    LoneSteps(q);
    LoneWakes(q);
    RaceMoves(q, r0, r1);
    RaceSleeps(q, r1);
    ss, es := Then([s0], [], s0, StartRead(0, 1), Lone(q, Ready));
    ss, es := Then(ss, es, Lone(q, Ready), Begin(0), Lone(q, Moving));
    ss, es := Then(ss, es, Lone(q, Moving), EndMove(0), Lone(q, Waking));
    ss, es := Then(ss, es, Lone(q, Waking), Wake(0), Lone(q, Deciding));
    ss, es := Then(ss, es, Lone(q, Deciding), StartWrite(1, [7, 8]), Race(q, r0, [], 0, Ready));
    ss, es := Then(ss, es, Race(q, r0, [], 0, Ready), Begin(1), Race(q, r0, [], 0, Moving));
    k := |ss| - 1;
    ss, es := Then(ss, es, Race(q, r0, [], 0, Moving), Move(1), Race(q, r1, [(1, 7)], 1, Moving));
    ss, es := Then(ss, es, Race(q, r1, [(1, 7)], 1, Moving), EndMove(1), Race(q, r1, [(1, 7)], 1, Waking));
    ss, es := Then(ss, es, Race(q, r1, [(1, 7)], 1, Waking), Wake(1), Race(q, r1, [(1, 7)], 1, Deciding));
    ss, es := Then(ss, es, Race(q, r1, [(1, 7)], 1, Deciding), Decide(1), Race(q, r1, [(1, 7)], 1, Asleep));
  }

  /** When passes may interleave, a reader that saw an empty buffer can go to sleep after a writer has filled it and
      gone to sleep too: between its wake-up call and its sleep nothing protects the reader. So it is for ring buffers
      and pipes, and although no two calls are ever in their transfer loops. */
  lemma LostWakeup(q: bool) returns (ss: seq<Sys>, es: seq<Event>)
    ensures IsRun(ss, es) && ss[|es|].pipe == q
    ensures SomeAsleep(ss[|es|], true) && SomeAsleep(ss[|es|], false) && Unread(ss[|es|].ring) > 0
    ensures exists k :: 0 <= k < |ss| && !Atomic(ss[k])
    ensures forall k :: 0 <= k < |ss| ==> OneMoves(ss[k])
  {
    hide Reaches, Leads, OneMoves, Race, Atomic;
    var k;
    ss, es, k := WriterRuns(q);
    var s := Race(q, Ring([7, 0], 0, 1), [(1, 7)], 1, Asleep);
    var s' := s.(calls := s.calls[0 := Read(1, [], Asleep)]);
    LastDecision(q, s, s');
    RaceOverlaps(q);
    ss, es := Then(ss, es, s, Decide(0), s');
    Ends(ss, es, s');
    assert !Atomic(ss[k]);
  }

  lemma LastDecision(q: bool, s: Sys, s': Sys)
    requires s == Race(q, Ring([7, 0], 0, 1), [(1, 7)], 1, Asleep)
    requires s' == s.(calls := s.calls[0 := Read(1, [], Asleep)])
    ensures Leads(s, Decide(0), s') && OneMoves(s') && s'.pipe == q
    ensures SomeAsleep(s', true) && SomeAsleep(s', false) && Unread(s'.ring) > 0
  {
    assert s'.calls[0].phase == Asleep && s'.calls[1].phase == Asleep;
  }

  lemma RaceOverlaps(q: bool)
    ensures !Atomic(Race(q, Ring([0, 0], 0, 0), [], 0, Moving))
  {
    var m := Race(q, Ring([0, 0], 0, 0), [], 0, Moving);
    assert MidPass(m.calls[0]) && MidPass(m.calls[1]);
  }

  lemma Ends(ss: seq<Sys>, es: seq<Event>, s: Sys)
    requires Reaches(ss, es, s)
    ensures IsRun(ss, es) && ss[|es|] == s
  {
    hide IsRun;
  }
}
