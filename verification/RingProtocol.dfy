// Readers and writers of one buffer as interleaved steps: each byte transfer,
// each wake-up and each decision to sleep is a step of its own. A pipe runs the
// same loops as a ring buffer, without interrupts, without discarding and
// without the last wake-up call behind the loop.

module RingProtocol {
  import opened Bytes
  import opened Rings

  /** Where a call stands in the loop of a read or a write. */
  datatype Phase =
    | Ready                    // at the head of the outer loop
    | Moving                   // in the transfer loop
    | Waking                   // before wakeup_queue
    | Deciding                 // before the test that may sleep
    | Asleep                   // in sleep_on
    | Woken(interrupted: bool) // sleep_on has returned
    | Exiting                  // behind the outer loop
    | Finished

  datatype Call =
    | Read(want: nat, got: Block, phase: Phase)
    | Write(src: Block, written: nat, phase: Phase)

  /** The logs record which call moved which byte. */
  datatype Sys = Sys(
    ring: Ring,
    pipe: bool,
    calls: map<nat, Call>,
    stop: bool,
    discard: bool,
    accepted: seq<(nat, byte)>,
    delivered: seq<(nat, byte)>)

  datatype Event =
    | StartRead(id: nat, want: nat)
    | StartWrite(id: nat, src: Block)
    | Begin(id: nat)
    | Move(id: nat)
    | EndMove(id: nat)
    | Wake(id: nat)
    | Decide(id: nat)
    | Resume(id: nat)
    | Exit(id: nat)
    | Interrupt

  // ----- steps -----

  function Woke(c: Call, interrupted: bool): Call {
    if c.phase == Asleep then c.(phase := Woken(interrupted)) else c
  }

  /** wakeup_queue on the readers or on the writers. */
  function WakeSide(calls: map<nat, Call>, readers: bool): map<nat, Call> {
    map id | id in calls :: if calls[id].Read? == readers then Woke(calls[id], false) else calls[id]
  }

  function WakeAll(calls: map<nat, Call>): map<nat, Call> {
    map id | id in calls :: Woke(calls[id], true)
  }

  predicate CanMove(ring: Ring, c: Call) {
    match c
    case Read(want, got, _) => Unread(ring) > 0 && |got| < want
    case Write(src, written, _) => Available(ring) > 0 && written < |src|
  }

  /** The call must go round the loop again, or sleep. */
  predicate Short(c: Call) {
    match c
    case Read(want, got, _) => got == []
    case Write(src, written, _) => written < |src|
  }

  predicate Enabled(s: Sys, e: Event) {
    match e
    case StartRead(id, want) => id !in s.calls
    case StartWrite(id, src) => id !in s.calls
    case Begin(id) => id in s.calls && s.calls[id].phase == Ready
    case Move(id) => id in s.calls && s.calls[id].phase == Moving && CanMove(s.ring, s.calls[id])
    case EndMove(id) => id in s.calls && s.calls[id].phase == Moving && !CanMove(s.ring, s.calls[id])
    case Wake(id) => id in s.calls && s.calls[id].phase == Waking
    case Decide(id) => id in s.calls && s.calls[id].phase == Deciding
    case Resume(id) => id in s.calls && s.calls[id].phase.Woken?
    case Exit(id) => id in s.calls && s.calls[id].phase == Exiting
    case Interrupt => !s.pipe
  }

  function SetPhase(s: Sys, id: nat, p: Phase): Sys
    requires id in s.calls
  {
    s.(calls := s.calls[id := s.calls[id].(phase := p)])
  }

  function MoveByte(s: Sys, id: nat): Sys
    requires Valid(s.ring) && id in s.calls && CanMove(s.ring, s.calls[id])
  {
    match s.calls[id]
    case Read(want, got, p) =>
      var x := s.ring.data[s.ring.readPtr];
      s.(ring := Take(s.ring), calls := s.calls[id := Read(want, got + [x], p)], delivered := s.delivered + [(id, x)])
    case Write(src, written, p) =>
      s.(ring := Put(s.ring, src[written]), calls := s.calls[id := Write(src, written + 1, p)],
         accepted := s.accepted + [(id, src[written])])
  }

  function Apply(s: Sys, e: Event): Sys
    requires Valid(s.ring) && Enabled(s, e)
  {
    match e
    case StartRead(id, want) => s.(calls := s.calls[id := Read(want, [], Ready)])
    case StartWrite(id, src) => s.(calls := s.calls[id := Write(src, 0, if src == [] then Exiting else Ready)])
    case Begin(id) => SetPhase(s, id, Moving)
    case Move(id) => MoveByte(s, id)
    case EndMove(id) => SetPhase(s, id, Waking)
    case Wake(id) => SetPhase(s.(calls := WakeSide(s.calls, s.calls[id].Write?)), id, Deciding)
    case Decide(id) =>
      var c := s.calls[id];
      SetPhase(s, id, if !Short(c) then Exiting else if c.Write? && s.discard then Exiting else Asleep)
    case Resume(id) =>
      if s.calls[id].phase.interrupted && s.stop then SetPhase(s.(stop := false), id, Exiting)
          else SetPhase(s, id, Ready)
    case Exit(id) =>
      if s.pipe then SetPhase(s, id, Finished)
      else SetPhase(s.(calls := WakeSide(s.calls, s.calls[id].Write?)), id, Finished)
    case Interrupt => s.(stop := true, calls := WakeAll(s.calls))
  }

  // ----- runs -----

  ghost predicate Initial(s: Sys) {
    && Valid(s.ring) && s.ring.readPtr == s.ring.writePtr == 0
    && s.calls == map[] && s.accepted == [] && s.delivered == [] && !s.stop
    && (s.pipe ==> !s.discard)
  }

  lemma ApplyValid(s: Sys, e: Event)
    requires Valid(s.ring) && Enabled(s, e)
    ensures Valid(Apply(s, e).ring) && |Apply(s, e).ring.data| == |s.ring.data|
  {
  }

  ghost predicate IsRun(ss: seq<Sys>, es: seq<Event>) {
    && |ss| == |es| + 1 && Initial(ss[0])
    && forall i :: 0 <= i < |es| ==> Valid(ss[i].ring) && Enabled(ss[i], es[i]) && ss[i + 1] == Apply(ss[i], es[i])
  }

  // ----- first in, first out -----

  function Payload(log: seq<(nat, byte)>): Block {
    seq<byte>(|log|, i requires 0 <= i < |log| => log[i].1)
  }

  /** The bytes that call id moved. */
  function Of(log: seq<(nat, byte)>, id: nat): Block {
    if log == [] then []
    else
      var rest := Of(log[..|log| - 1], id);
      if log[|log| - 1].0 == id then rest + [log[|log| - 1].1] else rest
  }

  lemma OfAppend(log: seq<(nat, byte)>, i: nat, x: byte, id: nat)
    ensures Of(log + [(i, x)], id) == if i == id then Of(log, id) + [x] else Of(log, id)
  {
    assert (log + [(i, x)])[..|log|] == log;
  }

  /** What call id has in its hands is what the logs say it moved: a write has contributed a prefix of its bytes. */
  ghost predicate CallOk(s: Sys, id: nat)
    requires id in s.calls
  {
    match s.calls[id]
    case Read(want, got, _) => Of(s.delivered, id) == got && |got| <= want && Of(s.accepted, id) == []
    case Write(src, written, _) => written <= |src| && Of(s.accepted, id) == src[..written] && Of(s.delivered, id) == []
  }

  ghost predicate Fifo(s: Sys) {
    && Valid(s.ring)
    && Payload(s.delivered) + Pending(s.ring) == Payload(s.accepted)
    && (forall id :: id in s.calls ==> CallOk(s, id))
    && (forall id :: id !in s.calls ==> Of(s.accepted, id) == [] && Of(s.delivered, id) == [])
  }

  lemma TakeFifo(s: Sys, id: nat)
    requires Fifo(s) && id in s.calls && s.calls[id].Read? && CanMove(s.ring, s.calls[id])
    ensures Fifo(MoveByte(s, id))
  {
    hide Pending, Unread, Available, Of;
    var s', x := MoveByte(s, id), s.ring.data[s.ring.readPtr];
    TakeRemoves(s.ring);
    assert Payload(s'.delivered) == Payload(s.delivered) + [x];
    forall j
      ensures Of(s'.delivered, j) == if j == id then Of(s.delivered, j) + [x] else Of(s.delivered, j)
    {
      OfAppend(s.delivered, id, x, j);
    }
  }

  lemma PutFifo(s: Sys, id: nat)
    requires Fifo(s) && id in s.calls && s.calls[id].Write? && CanMove(s.ring, s.calls[id])
    ensures Fifo(MoveByte(s, id))
  {
    hide Pending, Unread, Available, Of;
    var s', src, written := MoveByte(s, id), s.calls[id].src, s.calls[id].written;
    PutAppends(s.ring, src[written]);
    assert Payload(s'.accepted) == Payload(s.accepted) + [src[written]];
    assert src[..written + 1] == src[..written] + [src[written]];
    forall j
      ensures Of(s'.accepted, j) == if j == id then Of(s.accepted, j) + [src[written]] else Of(s.accepted, j)
    {
      OfAppend(s.accepted, id, src[written], j);
    }
  }

  predicate SameData(c: Call, c': Call) {
    c' == c.(phase := c'.phase)
  }

  /** No byte moved; calls may have changed phase, and new calls have moved nothing. */
  ghost predicate NoTransfer(s: Sys, s': Sys) {
    && s'.ring == s.ring && s'.accepted == s.accepted && s'.delivered == s.delivered
    && (forall id :: id in s.calls ==> id in s'.calls && SameData(s.calls[id], s'.calls[id]))
    && (forall id :: id in s'.calls && id !in s.calls ==>
          match s'.calls[id]
          case Read(_, got, _) => got == []
          case Write(_, written, _) => written == 0)
  }

  lemma StepNoTransfer(s: Sys, e: Event)
    requires Valid(s.ring) && Enabled(s, e) && !e.Move?
    ensures NoTransfer(s, Apply(s, e))
  {
    hide Pending, Unread, Available, CanMove;
  }

  lemma NoTransferFifo(s: Sys, s': Sys)
    requires Fifo(s) && NoTransfer(s, s')
    ensures Fifo(s')
  {
    hide Pending, Of, Payload;
    forall id | id in s'.calls
      ensures CallOk(s', id)
    {
      if id in s.calls {
        assert CallOk(s, id);
      }
    }
  }

  lemma StepFifo(s: Sys, e: Event)
    requires Fifo(s) && Enabled(s, e)
    ensures Fifo(Apply(s, e))
  {
    if e.Move? {
      if s.calls[e.id].Read? {
        TakeFifo(s, e.id);
      } else {
        PutFifo(s, e.id);
      }
    } else {
      StepNoTransfer(s, e);
      NoTransferFifo(s, Apply(s, e));
    }
  }

  /** In every interleaving: delivered bytes, then buffered bytes, are the accepted bytes in order; an unfinished or
      cut-short write lost only a suffix. */
  lemma {:induction false} AlwaysFifo(ss: seq<Sys>, es: seq<Event>, i: nat)
    requires IsRun(ss, es) && i <= |es|
    ensures Fifo(ss[i]) && Unread(ss[i].ring) + Available(ss[i].ring) == |ss[0].ring.data| - 1
  {
    hide Fifo, Enabled, Apply, Unread, Available;
    if i == 0 {
      InitialFifo(ss[0]);
      CountsAgree(ss[0].ring);
    } else {
      AlwaysFifo(ss, es, i - 1);
      StepFifo(ss[i - 1], es[i - 1]);
      SameSize(ss, es, i);
      FifoValid(ss[i]);
      CountsAgree(ss[i].ring);
    }
  }

  lemma FifoValid(s: Sys)
    requires Fifo(s)
    ensures Valid(s.ring)
  {
  }

  lemma InitialFifo(s: Sys)
    requires Initial(s)
    ensures Fifo(s)
  {
  }

  lemma {:induction false} SameSize(ss: seq<Sys>, es: seq<Event>, i: nat)
    requires IsRun(ss, es) && i <= |es|
    ensures |ss[i].ring.data| == |ss[0].ring.data|
  {
    hide Enabled, Apply;
    if i > 0 {
      SameSize(ss, es, i - 1);
      ApplyValid(ss[i - 1], es[i - 1]);
    }
  }
}
