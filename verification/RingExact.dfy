// Exactly which runs let both sides fall asleep, or leave a sleeper behind that
// has something to do.

module RingExact {
  import opened Rings
  import opened RingProtocol
  import opened RingSleep

  /** The call has made its wake-up call and is going to sleep. */
  predicate AboutToSleep(s: Sys, c: Call) {
    c.phase == Deciding && Short(c) && !(c.Write? && s.discard)
  }

  ghost predicate SomeAboutToSleep(s: Sys, readers: bool) {
    exists id :: id in s.calls && s.calls[id].Read? == readers && AboutToSleep(s, s.calls[id])
  }

  /** A reader and a writer are both between their wake-up call and their sleep. */
  ghost predicate BothAboutToSleep(s: Sys) {
    SomeAboutToSleep(s, true) && SomeAboutToSleep(s, false)
  }

  ghost predicate BothAsleep(s: Sys) {
    SomeAsleep(s, true) && SomeAsleep(s, false)
  }

  /** A call is going to sleep although it has something to do and no pass of the other side is about to wake it. */
  ghost predicate Stale(s: Sys) {
    exists id :: id in s.calls && AboutToSleep(s, s.calls[id]) && !Served(s, s.calls[id])
  }

  /** A call sleeps although it has something to do and no pass of the other side is about to wake it. */
  ghost predicate Forgotten(s: Sys) {
    exists id :: id in s.calls && s.calls[id].phase == Asleep && !Served(s, s.calls[id])
  }

  ghost predicate Served(s: Sys, c: Call) {
    Stuck(s.ring, c) || Unannounced(s, c.Write?)
  }

  // ----- never both asleep -----

  /** Not both asleep, and a call that is going to sleep has no sleeper on the other side. */
  ghost predicate NoFacing(s: Sys) {
    !BothAsleep(s) && forall id :: id in s.calls && AboutToSleep(s, s.calls[id]) ==> !SomeAsleep(s, s.calls[id].Write?)
  }

  /** What a decision does to the calls. */
  lemma DecideShape(s: Sys, id: nat)
    requires Valid(s.ring) && Enabled(s, Decide(id))
    ensures id in s.calls && s.calls[id].phase == Deciding
    ensures var s' := Apply(s, Decide(id));
            && s'.ring == s.ring && s'.discard == s.discard && s'.calls.Keys == s.calls.Keys
            && SameData(s.calls[id], s'.calls[id])
            && s'.calls[id].phase == (if AboutToSleep(s, s.calls[id]) then Asleep else Exiting)
            && forall j :: j in s.calls && j != id ==> s'.calls[j] == s.calls[j]
  {
  }

  lemma DecideFacing(s: Sys, id: nat)
    requires Valid(s.ring) && Enabled(s, Decide(id)) && NoFacing(s) && !BothAboutToSleep(s)
    ensures NoFacing(Apply(s, Decide(id)))
  {
    hide Apply, Enabled, Short;
    DecideShape(s, id);
  }

  lemma WakeFacing(s: Sys, id: nat)
    requires Valid(s.ring) && Enabled(s, Wake(id)) && NoFacing(s)
    ensures NoFacing(Apply(s, Wake(id)))
  {
    hide Apply, Enabled, Short;
    WakeShape(s, id);
    WakeKeepsDiscard(s, id);
    var s' := Apply(s, Wake(id));
    Sleepers(s, s');
    assert !SomeAsleep(s', s.calls[id].Write?);
  }

  lemma WakeKeepsDiscard(s: Sys, id: nat)
    requires Valid(s.ring) && Enabled(s, Wake(id))
    ensures Apply(s, Wake(id)).discard == s.discard
  {
  }

  /** Any other step puts nobody to sleep and nobody before the test. */
  ghost predicate Wakeful(s: Sys, s': Sys) {
    && s'.discard == s.discard
    && forall j :: j in s'.calls && (s'.calls[j].phase == Asleep || s'.calls[j].phase == Deciding) ==>
         j in s.calls && s'.calls[j] == s.calls[j]
  }

  lemma WakefulSteps(s: Sys, e: Event)
    requires Valid(s.ring) && Enabled(s, e) && !e.Wake? && !e.Decide?
    ensures Wakeful(s, Apply(s, e))
  {
    hide Unread, Available, CanMove;
    if e.Move? {
      MoveShape(s, e.id);
    }
  }

  lemma WakefulFacing(s: Sys, s': Sys)
    requires NoFacing(s) && Wakeful(s, s')
    ensures NoFacing(s')
  {
    hide Short;
    Sleepers(s, s');
  }

  lemma StepFacing(s: Sys, e: Event)
    requires Valid(s.ring) && Enabled(s, e) && NoFacing(s) && !BothAboutToSleep(s)
    ensures NoFacing(Apply(s, e))
  {
    hide Apply, Enabled, NoFacing, BothAboutToSleep;
    match e
    case Wake(id) => WakeFacing(s, id);
    case Decide(id) => DecideFacing(s, id);
    case _ =>
      WakefulSteps(s, e);
      WakefulFacing(s, Apply(s, e));
  }

  /** While no reader and writer are about to sleep at once, they never sleep at once. */
  lemma {:induction false} NeverFacing(ss: seq<Sys>, es: seq<Event>, i: nat)
    requires IsRun(ss, es) && i <= |es| && forall k :: 0 <= k < i ==> !BothAboutToSleep(ss[k])
    ensures NoFacing(ss[i]) && !BothAsleep(ss[i])
  {
    hide Enabled, Apply, BothAboutToSleep;
    if i > 0 {
      NeverFacing(ss, es, i - 1);
      StepFacing(ss[i - 1], es[i - 1]);
    }
  }

  // ----- never forgotten -----

  lemma DecideServed(s: Sys, id: nat)
    requires Valid(s.ring) && Enabled(s, Decide(id)) && !Forgotten(s) && !Stale(s)
    ensures !Forgotten(Apply(s, Decide(id)))
  {
    hide Apply, Enabled, Short, Unread, Available;
    DecideShape(s, id);
    var s' := Apply(s, Decide(id));
    forall j | j in s'.calls && s'.calls[j].phase == Asleep
      ensures Served(s', s'.calls[j])
    {
      SameWants(s.ring, s.calls[j], s'.calls[j]);
      if Unannounced(s, s.calls[j].Write?) {
        StillUnannounced(s, s', s.calls[j].Write?);
      }
    }
  }

  lemma WakeServed(s: Sys, id: nat)
    requires Valid(s.ring) && Enabled(s, Wake(id)) && !Forgotten(s)
    ensures !Forgotten(Apply(s, Wake(id)))
  {
    hide Apply, Enabled, Stuck;
    WakeShape(s, id);
    var s' := Apply(s, Wake(id));
    forall j | j in s'.calls && s'.calls[j].phase == Asleep
      ensures Served(s', s'.calls[j])
    {
      assert s'.calls[j] == s.calls[j] && Served(s, s.calls[j]);
    }
  }

  lemma EndMoveServed(s: Sys, id: nat)
    requires Valid(s.ring) && Enabled(s, EndMove(id)) && !Forgotten(s)
    ensures !Forgotten(Apply(s, EndMove(id)))
  {
    hide Stuck, CanMove;
    var s' := Apply(s, EndMove(id));
    forall j | j in s'.calls && s'.calls[j].phase == Asleep
      ensures Served(s', s'.calls[j])
    {
      assert Served(s, s.calls[j]);
      if Unannounced(s, s.calls[j].Write?) {
        StillUnannounced(s, s', s.calls[j].Write?);
      }
    }
  }

  lemma MoveServed(s: Sys, id: nat)
    requires Valid(s.ring) && Enabled(s, Move(id)) && !Forgotten(s)
    ensures !Forgotten(Apply(s, Move(id)))
  {
    hide Apply, Enabled, Unread, Available, Valid;
    MoveShape(s, id);
    var s' := Apply(s, Move(id));
    assert Unannounced(s', s.calls[id].Read?) by { assert s'.calls[id].phase == Moving; }
    forall j | j in s'.calls && s'.calls[j].phase == Asleep
      ensures Served(s', s'.calls[j])
    {
      assert Served(s, s.calls[j]);
      if Unannounced(s, s.calls[j].Write?) {
        StillUnannounced(s, s', s.calls[j].Write?);
      }
    }
  }

  lemma QuietServed(s: Sys, s': Sys)
    requires Quiet(s, s') && !Forgotten(s)
    ensures !Forgotten(s')
  {
    hide Stuck;
    forall j | j in s'.calls && s'.calls[j].phase == Asleep
      ensures Served(s', s'.calls[j])
    {
      assert PastTransfer(s'.calls[j]) && Served(s, s.calls[j]);
      if Unannounced(s, s.calls[j].Write?) {
        StillUnannounced(s, s', s.calls[j].Write?);
      }
    }
  }

  lemma StepServed(s: Sys, e: Event)
    requires Valid(s.ring) && Enabled(s, e) && !Forgotten(s) && !Stale(s)
    ensures !Forgotten(Apply(s, e))
  {
    hide Apply, Enabled, Forgotten, Stale, Quiet;
    match e
    case Move(id) => MoveServed(s, id);
    case EndMove(id) => EndMoveServed(s, id);
    case Wake(id) => WakeServed(s, id);
    case Decide(id) => DecideServed(s, id);
    case _ =>
      if e.Exit? || e.Interrupt? {
        QuietEnds(s, e);
      } else {
        QuietSteps(s, e);
      }
      QuietServed(s, Apply(s, e));
  }

  /** While nobody is going to sleep over something to do, nobody sleeps over it. */
  lemma {:induction false} NeverForgotten(ss: seq<Sys>, es: seq<Event>, i: nat)
    requires IsRun(ss, es) && i <= |es| && forall k :: 0 <= k < i ==> !Stale(ss[k])
    ensures !Forgotten(ss[i])
  {
    hide Enabled, Apply, Stale, Served;
    if i > 0 {
      NeverForgotten(ss, es, i - 1);
      StepServed(ss[i - 1], es[i - 1]);
    }
  }

  // ----- the conditions are exact -----

  /** The first k steps of a run, followed by decisions only: nobody begins a pass, moves a byte or wakes anybody. */
  ghost predicate DecidesOn(ss: seq<Sys>, es: seq<Event>, k: nat, tt: seq<Sys>, cs: seq<Event>) {
    && k <= |es| && |ss| == |es| + 1 && |tt| == |cs| && (forall i :: 0 <= i < |cs| ==> cs[i].Decide?)
    && IsRun(ss[..k + 1] + tt, es[..k] + cs)
  }

  lemma DecideBack(s: Sys, id: nat)
    requires Valid(s.ring) && Enabled(s, Decide(id))
    ensures BothAboutToSleep(Apply(s, Decide(id))) ==> BothAboutToSleep(s)
    ensures Stale(Apply(s, Decide(id))) ==> Stale(s)
  {
    hide Apply, Enabled, Short, Stuck;
    DecideShape(s, id);
    var s' := Apply(s, Decide(id));
    forall j | j in s'.calls && AboutToSleep(s', s'.calls[j]) && !Served(s', s'.calls[j])
      ensures Stale(s)
    {
      assert s'.calls[j] == s.calls[j];
      if Unannounced(s, s.calls[j].Write?) {
        StillUnannounced(s, s', s.calls[j].Write?);
      }
    }
  }

  /** Decisions bring no call before its own. */
  lemma {:induction false} DecisionsBack(rs: seq<Sys>, xs: seq<Event>, k: nat, m: nat)
    requires IsRun(rs, xs) && k <= m <= |xs| && forall i :: k <= i < m ==> xs[i].Decide?
    ensures BothAboutToSleep(rs[m]) ==> BothAboutToSleep(rs[k])
    ensures Stale(rs[m]) ==> Stale(rs[k])
    decreases m - k
  {
    hide Apply, Enabled, BothAboutToSleep, Stale;
    if k < m {
      DecisionsBack(rs, xs, k, m - 1);
      DecideBack(rs[m - 1], xs[m - 1].id);
    }
  }

  /** Two that are about to sleep can: two decisions later both are asleep. */
  lemma BothSleep(s: Sys)
    requires Valid(s.ring) && BothAboutToSleep(s)
    ensures exists r, w :: BothDecide(s, r, w)
  {
    hide Short;
    var r :| r in s.calls && s.calls[r].Read? && AboutToSleep(s, s.calls[r]);
    var w :| w in s.calls && !s.calls[w].Read? && AboutToSleep(s, s.calls[w]);
    DecideShape(s, r);
    var s1 := Apply(s, Decide(r));
    assert s1.calls[w] == s.calls[w] && Enabled(s1, Decide(w));
    DecideShape(s1, w);
    var s2 := Apply(s1, Decide(w));
    assert s2.calls[r].phase == Asleep && s2.calls[w].phase == Asleep;
    assert BothDecide(s, r, w);
  }

  ghost predicate BothDecide(s: Sys, r: nat, w: nat) {
    && Valid(s.ring) && Enabled(s, Decide(r))
    && var s1 := Apply(s, Decide(r));
       Valid(s1.ring) && Enabled(s1, Decide(w)) && BothAsleep(Apply(s1, Decide(w)))
  }

  /** One more decision at the end of such a run. */
  lemma DecideMore(ss: seq<Sys>, es: seq<Event>, k: nat, tt: seq<Sys>, cs: seq<Event>, id: nat)
    requires DecidesOn(ss, es, k, tt, cs)
    requires var s := (ss[..k + 1] + tt)[k + |cs|]; Valid(s.ring) && Enabled(s, Decide(id))
    ensures var s := (ss[..k + 1] + tt)[k + |cs|];
            DecidesOn(ss, es, k, tt + [Apply(s, Decide(id))], cs + [Decide(id)])
  {
    hide Apply, Enabled, Initial;
    var rs, xs := ss[..k + 1] + tt, es[..k] + cs;
    var s := rs[k + |cs|];
    var s' := Apply(s, Decide(id));
    assert ss[..k + 1] + (tt + [s']) == rs + [s'] && es[..k] + (cs + [Decide(id)]) == xs + [Decide(id)];
    assert IsRun(rs + [s'], xs + [Decide(id)]);
  }

  lemma Begun(ss: seq<Sys>, es: seq<Event>, k: nat)
    requires IsRun(ss, es) && k <= |es|
    ensures DecidesOn(ss, es, k, [], []) && (ss[..k + 1] + [])[k] == ss[k]
  {
    hide Apply, Enabled, Initial;
    assert ss[..k + 1] + [] == ss[..k + 1] && es[..k] + [] == es[..k];
  }

  ghost predicate FacesAfter(ss: seq<Sys>, es: seq<Event>, k: nat, tt: seq<Sys>, cs: seq<Event>) {
    DecidesOn(ss, es, k, tt, cs) && BothAsleep((ss[..k + 1] + tt)[k + |cs|])
  }

  ghost predicate ForgetsAfter(ss: seq<Sys>, es: seq<Event>, k: nat, tt: seq<Sys>, cs: seq<Event>) {
    DecidesOn(ss, es, k, tt, cs) && Forgotten((ss[..k + 1] + tt)[k + |cs|])
  }

  /** Decisions alone take a run, from some point on, to where both sides sleep exactly when the run has a point at
      which a reader and a writer are both about to sleep. */
  lemma MutualSleepExact(ss: seq<Sys>, es: seq<Event>)
    requires IsRun(ss, es)
    ensures (exists k, tt, cs :: FacesAfter(ss, es, k, tt, cs)) <==>
            (exists k :: 0 <= k <= |es| && BothAboutToSleep(ss[k]))
  {
    hide IsRun, Apply, Enabled, BothAboutToSleep, BothAsleep, DecidesOn;
    RunValid(ss, es, 0);
    forall k, tt, cs | FacesAfter(ss, es, k, tt, cs)
      ensures exists j :: 0 <= j <= |es| && BothAboutToSleep(ss[j])
    {
      FacingComesFrom(ss, es, k, tt, cs);
    }
    forall k | 0 <= k <= |es| && BothAboutToSleep(ss[k])
      ensures exists tt, cs :: FacesAfter(ss, es, k, tt, cs)
    {
      FacingFollows(ss, es, k);
    }
  }

  lemma FacingComesFrom(ss: seq<Sys>, es: seq<Event>, k: nat, tt: seq<Sys>, cs: seq<Event>)
    requires IsRun(ss, es) && FacesAfter(ss, es, k, tt, cs)
    ensures |ss| == |es| + 1 && exists j :: 0 <= j <= |es| && BothAboutToSleep(ss[j])
  {
    hide Apply, Enabled, BothAboutToSleep, BothAsleep, Initial;
    var rs, xs := ss[..k + 1] + tt, es[..k] + cs;
    if forall j :: 0 <= j < |xs| ==> !BothAboutToSleep(rs[j]) {
      NeverFacing(rs, xs, |xs|);
    }
    var m :| 0 <= m < |xs| && BothAboutToSleep(rs[m]);
    if m > k {
      DecisionsBack(rs, xs, k, m);
      assert rs[k] == ss[k];
    } else {
      assert rs[m] == ss[m];
    }
  }

  lemma FacingFollows(ss: seq<Sys>, es: seq<Event>, k: nat)
    requires IsRun(ss, es) && k <= |es| && BothAboutToSleep(ss[k])
    ensures exists tt, cs :: FacesAfter(ss, es, k, tt, cs)
  {
    hide Apply, Enabled, BothAsleep, IsRun, DecidesOn;
    RunValid(ss, es, k);
    Begun(ss, es, k);
    BothSleep(ss[k]);
    var r, w :| BothDecide(ss[k], r, w);
    DecideMore(ss, es, k, [], [], r);
    var s1 := Apply(ss[k], Decide(r));
    var s2 := Apply(s1, Decide(w));
    var t1, c1 := [] + [s1], [] + [Decide(r)];
    assert (ss[..k + 1] + t1)[k + |c1|] == s1;
    DecideMore(ss, es, k, t1, c1, w);
    var t2, c2 := t1 + [s2], c1 + [Decide(w)];
    assert (ss[..k + 1] + t2)[k + |c2|] == s2;
    assert FacesAfter(ss, es, k, t2, c2);
  }

  lemma RunValid(ss: seq<Sys>, es: seq<Event>, k: nat)
    requires IsRun(ss, es) && k <= |es|
    ensures Valid(ss[k].ring) && |ss| == |es| + 1
  {
    hide Enabled, Apply, Valid;
    if k > 0 {
      ApplyValid(ss[k - 1], es[k - 1]);
    }
  }

  /** Decisions alone take a run, from some point on, to where a sleeper is forgotten exactly when the run has a point
      at which a call is going to sleep over something to do. */
  lemma ForgottenExact(ss: seq<Sys>, es: seq<Event>)
    requires IsRun(ss, es)
    ensures (exists k, tt, cs :: ForgetsAfter(ss, es, k, tt, cs)) <==> (exists k :: 0 <= k <= |es| && Stale(ss[k]))
  {
    hide IsRun, Apply, Enabled, Stale, Forgotten, DecidesOn;
    RunValid(ss, es, 0);
    forall k, tt, cs | ForgetsAfter(ss, es, k, tt, cs)
      ensures exists j :: 0 <= j <= |es| && Stale(ss[j])
    {
      ForgottenComesFrom(ss, es, k, tt, cs);
    }
    forall k | 0 <= k <= |es| && Stale(ss[k])
      ensures exists tt, cs :: ForgetsAfter(ss, es, k, tt, cs)
    {
      ForgottenFollows(ss, es, k);
    }
  }

  lemma ForgottenComesFrom(ss: seq<Sys>, es: seq<Event>, k: nat, tt: seq<Sys>, cs: seq<Event>)
    requires IsRun(ss, es) && ForgetsAfter(ss, es, k, tt, cs)
    ensures |ss| == |es| + 1 && exists j :: 0 <= j <= |es| && Stale(ss[j])
  {
    hide Apply, Enabled, Stale, Forgotten, Initial;
    var rs, xs := ss[..k + 1] + tt, es[..k] + cs;
    if forall j :: 0 <= j < |xs| ==> !Stale(rs[j]) {
      NeverForgotten(rs, xs, |xs|);
    }
    var m :| 0 <= m < |xs| && Stale(rs[m]);
    if m > k {
      DecisionsBack(rs, xs, k, m);
      assert rs[k] == ss[k];
    } else {
      assert rs[m] == ss[m];
    }
  }

  lemma ForgottenFollows(ss: seq<Sys>, es: seq<Event>, k: nat)
    requires IsRun(ss, es) && k <= |es| && Stale(ss[k])
    ensures exists tt, cs :: ForgetsAfter(ss, es, k, tt, cs)
  {
    hide Apply, IsRun, DecidesOn, Short, Stuck;
    RunValid(ss, es, k);
    Begun(ss, es, k);
    var s := ss[k];
    var c :| c in s.calls && AboutToSleep(s, s.calls[c]) && !Served(s, s.calls[c]);
    DecideMore(ss, es, k, [], [], c);
    DecideShape(s, c);
    var s' := Apply(s, Decide(c));
    var t1, c1 := [] + [s'], [] + [Decide(c)];
    assert (ss[..k + 1] + t1)[k + |c1|] == s';
    SameWants(s.ring, s.calls[c], s'.calls[c]);
    if Unannounced(s', s.calls[c].Write?) {
      StillUnannounced(s', s, s.calls[c].Write?);
    }
    assert ForgetsAfter(ss, es, k, t1, c1);
  }

  /** Passes that run alone never put two calls before their sleep at once. */
  lemma AtomicNotBoth(s: Sys)
    requires Atomic(s)
    ensures !BothAboutToSleep(s)
  {
    hide Short;
  }
}
