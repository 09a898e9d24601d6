// Which blocks the cache keeps: least-recently-used replacement over runs.

module CacheLru {
  import opened CacheSpec

  /** Every use time is in the past, and used entries have distinct times. */
  ghost predicate ClockOk(c: Cache) {
    && (forall i :: 0 <= i < |c.entries| ==>
          var e := c.entries[i];
          (e.lastUse == 0 || e.lastUse < c.time) && (c.time == 0 ==> e.blockNo == 0))
    && (forall i, j :: 0 <= i < j < |c.entries| && c.entries[i].lastUse > 0 ==>
          c.entries[i].lastUse != c.entries[j].lastUse)
  }

  ghost predicate Cached(c: Cache, b: nat) {
    exists i :: 0 <= i < |c.entries| && c.entries[i].blockNo == b
  }

  /** Block b sits in some entry that was last used at time t. */
  ghost predicate CachedAt(c: Cache, b: nat, t: nat) {
    exists i :: 0 <= i < |c.entries| && c.entries[i].blockNo == b && c.entries[i].lastUse == t
  }

  /** The block an operation moves to the front, if any. */
  function Touched(op: Op): set<nat> {
    match op
    case Read(n) => if n == 0 then {} else {n}
    case Write(n, _) => if n == 0 then {} else {n}
    case _ => {}
  }

  function TouchedBy(ops: seq<Op>): set<nat> {
    if ops == [] then {} else Touched(ops[0]) + TouchedBy(ops[1..])
  }

  ghost function After(c: Cache, op: Op): (c': Cache)
    requires Valid(c) && OpOk(c, op)
    ensures Valid(c') && |c'.device| == |c.device| && c'.blockSize == c.blockSize
  {
    StepRefines(c, op);
    Step(c, op).0
  }

  // ----- the shape of one access -----

  /** An access to n puts n, stamped with the clock, in one entry and changes no other entry's block or stamp. */
  ghost predicate AccessAt(c: Cache, c': Cache, n: nat, v: nat) {
    && |c'.entries| == |c.entries| && v < |c.entries|
    && c'.time == c.time + 1
    && c'.entries[v].blockNo == n && c'.entries[v].lastUse == c.time
    && forall k :: 0 <= k < |c.entries| && k != v ==>
         c'.entries[k].blockNo == c.entries[k].blockNo && c'.entries[k].lastUse == c.entries[k].lastUse
  }

  function Slot(c: Cache, n: nat): (v: nat)
    requires |c.entries| > 0
    ensures v < |c.entries|
  {
    var i := Find(c.entries, n);
    if i < |c.entries| then i else Victim(c.entries)
  }

  lemma StepShape(c: Cache, op: Op)
    requires Valid(c) && OpOk(c, op) && |c.entries| > 0
    ensures var c' := Step(c, op).0;
            if Touched(op) == {} then
              |c'.entries| == |c.entries| && c'.time == c.time
              && forall k :: 0 <= k < |c.entries| ==>
                   c'.entries[k].blockNo == c.entries[k].blockNo && c'.entries[k].lastUse == c.entries[k].lastUse
            else AccessAt(c, c', op.n, Slot(c, op.n))
  {
    match op
    case Sync => SyncStamps(c, 0);
    case Super(_) =>
    case Read(n) => if n != 0 { assert n in Touched(op); }
    case Write(n, _) => if n != 0 { assert n in Touched(op); }
  }

  lemma {:induction false} SyncStamps(c: Cache, i: nat)
    requires i <= |c.entries|
    ensures var c' := SyncFrom(c, i);
            |c'.entries| == |c.entries| && c'.time == c.time
            && forall k :: 0 <= k < |c.entries| ==>
                 c'.entries[k].blockNo == c.entries[k].blockNo && c'.entries[k].lastUse == c.entries[k].lastUse
    decreases |c.entries| - i
  {
    if i < |c.entries| {
      SyncStamps(Flush(c, i), i + 1);
    }
  }

  lemma StepKeepsClock(c: Cache, op: Op)
    requires Valid(c) && OpOk(c, op) && |c.entries| > 0 && ClockOk(c)
    ensures ClockOk(Step(c, op).0)
  {
    StepShape(c, op);
  }

  // ----- retention -----

  /** The entries used after time t hold only blocks from s. */
  ghost predicate YoungerIn(c: Cache, t: nat, s: set<nat>) {
    forall k :: 0 <= k < |c.entries| && c.entries[k].lastUse > t ==> c.entries[k].blockNo in s
  }

  /** The blocks in the entries before k other than v. */
  ghost function OtherBlocks(es: seq<Entry>, v: nat, k: nat): set<nat>
    requires k <= |es|
  {
    if k == 0 then {}
    else if k - 1 == v then OtherBlocks(es, v, k - 1)
    else OtherBlocks(es, v, k - 1) + {es[k - 1].blockNo}
  }

  lemma {:induction false} OtherBlocksFrom(es: seq<Entry>, v: nat, k: nat, b: nat)
    requires k <= |es| && b in OtherBlocks(es, v, k)
    ensures exists i :: 0 <= i < k && i != v && es[i].blockNo == b
  {
    if b in OtherBlocks(es, v, k - 1) {
      OtherBlocksFrom(es, v, k - 1, b);
    }
  }

  lemma {:induction false} OtherBlocksCount(es: seq<Entry>, v: nat, k: nat)
    requires k <= |es| && DistinctBlocks(es)
    requires forall i :: 0 <= i < |es| && i != v ==> es[i].blockNo != 0
    ensures |OtherBlocks(es, v, k)| == if v < k then k - 1 else k
  {
    if k > 0 {
      OtherBlocksCount(es, v, k - 1);
      if k - 1 != v && es[k - 1].blockNo in OtherBlocks(es, v, k - 1) {
        OtherBlocksFrom(es, v, k - 1, es[k - 1].blockNo);
      }
    }
  }

  lemma SubsetSize(a: set<nat>, b: set<nat>)
    requires a <= b
    ensures |a| <= |b|
  {
    if a != b {
      assert b == a + (b - a);
    }
  }

  /** When the victim is b, the other entries and the missing block n are |entries| distinct blocks younger than b. */
  lemma EvictionNeedsManyBlocks(c: Cache, n: nat, b: nat, t: nat, s: set<nat>)
    requires Valid(c) && |c.entries| > 0 && ClockOk(c) && t > 0 && b != 0 && 0 !in s
    requires YoungerIn(c, t, s) && n in s && n != 0 && b !in s
    requires Find(c.entries, n) == |c.entries|
    requires c.entries[Victim(c.entries)].blockNo == b && c.entries[Victim(c.entries)].lastUse == t
    ensures |s| >= |c.entries|
  {
    var v := Victim(c.entries);
    forall k | 0 <= k < |c.entries| && k != v
      ensures c.entries[k].blockNo in s
    {
      assert c.entries[k].lastUse >= t;
      assert c.entries[k].lastUse != t;
    }
    var others := OtherBlocks(c.entries, v, |c.entries|);
    OtherBlocksCount(c.entries, v, |c.entries|);
    forall b | b in others
      ensures b in s && b != n
    {
      OtherBlocksFrom(c.entries, v, |c.entries|, b);
    }
    SubsetSize(others + {n}, s);
  }

  lemma StepRetains(c: Cache, op: Op, b: nat, t: nat, s: set<nat>)
    requires Valid(c) && OpOk(c, op) && |c.entries| > 0 && ClockOk(c)
    requires t > 0 && b != 0 && CachedAt(c, b, t) && YoungerIn(c, t, s) && 0 !in s
    requires b !in Touched(op) && b !in s
    requires |s + Touched(op)| < |c.entries|
    ensures CachedAt(Step(c, op).0, b, t) && YoungerIn(Step(c, op).0, t, s + Touched(op))
  {
    StepShape(c, op);
    var c' := Step(c, op).0;
    var i :| 0 <= i < |c.entries| && c.entries[i].blockNo == b && c.entries[i].lastUse == t;
    if Touched(op) != {} {
      var n := op.n;
      assert Touched(op) == {n};
      assert YoungerIn(c, t, s + {n});
      if Slot(c, n) == i {
        EvictionNeedsManyBlocks(c, n, b, t, s + {n});
      }
    }
    assert c'.entries[i].blockNo == b && c'.entries[i].lastUse == t;
  }

  lemma {:induction false} RunRetains(c: Cache, ops: seq<Op>, b: nat, t: nat, s: set<nat>)
    requires Valid(c) && OpsOk(c, ops) && |c.entries| > 0 && ClockOk(c)
    requires t > 0 && b != 0 && CachedAt(c, b, t) && YoungerIn(c, t, s) && 0 !in s && b !in s
    requires b !in TouchedBy(ops) && |s + TouchedBy(ops)| < |c.entries|
    ensures CachedAt(Run(c, ops).0, b, t)
    decreases |ops|
  {
    if ops != [] {
      var s' := s + Touched(ops[0]);
      assert s + TouchedBy(ops) == s' + TouchedBy(ops[1..]);
      SubsetSize(s', s + TouchedBy(ops));
      StepRefines(c, ops[0]);
      StepShape(c, ops[0]);
      StepKeepsClock(c, ops[0]);
      StepRetains(c, ops[0], b, t, s);
      RunRetains(Step(c, ops[0]).0, ops[1..], b, t, s');
    }
  }

  /** A block accessed at clock 1 or later outlives every run that touches fewer than |entries| other blocks. */
  lemma Retention(c: Cache, access: Op, ops: seq<Op>)
    requires Valid(c) && OpOk(c, access) && OpsOk(c, ops) && |c.entries| > 0 && ClockOk(c)
    requires c.time >= 1 && Touched(access) != {}
    requires access.n !in TouchedBy(ops) && |TouchedBy(ops)| < |c.entries|
    ensures Cached(Run(After(c, access), ops).0, access.n)
  {
    StepRefines(c, access);
    StepShape(c, access);
    StepKeepsClock(c, access);
    var c1 := Step(c, access).0;
    var i := Slot(c, access.n);
    assert c1.entries[i].blockNo == access.n && c1.entries[i].lastUse == c.time;
    assert access.n in Touched(access);
    assert {} + TouchedBy(ops) == TouchedBy(ops);
    RunRetains(c1, ops, access.n, c.time, {});
  }

  /** The entry filled at clock 0 still looks unused, so the next miss takes it. */
  lemma FirstBlockIsEvicted(c: Cache, access: Op, miss: Op)
    requires Valid(c) && OpOk(c, access) && OpOk(c, miss) && |c.entries| >= 2 && ClockOk(c)
    requires Touched(access) != {} && Touched(miss) != {} && access.n != miss.n && c.time == 0
    ensures !Cached(After(After(c, access), miss), access.n)
  {
    StepShape(c, access);
    var c1 := After(c, access);
    assert Slot(c, access.n) == 0;
    assert AccessAt(c, c1, access.n, 0);
    FirstSlotTwice(c, c1, access.n, miss.n);
    StepShape(c1, miss);
  }

  lemma FirstSlotTwice(c: Cache, c1: Cache, n: nat, m: nat)
    requires ClockOk(c) && c.time == 0 && |c.entries| >= 2 && n != m && n != 0 && m != 0
    requires AccessAt(c, c1, n, 0)
    ensures Slot(c1, m) == 0
    ensures forall k :: 0 < k < |c1.entries| ==> c1.entries[k].blockNo == 0
  {
    assert Find(c1.entries, m) == |c1.entries|;
  }

  /** Right after an access, one miss on another block keeps the accessed block exactly when the clock had left 0. */
  lemma SurvivesNextMiss(c: Cache, access: Op, miss: Op)
    requires Valid(c) && OpOk(c, access) && OpOk(c, miss) && |c.entries| >= 2 && ClockOk(c)
    requires Touched(access) != {} && Touched(miss) != {} && access.n != miss.n && !Cached(c, miss.n)
    ensures Cached(After(After(c, access), miss), access.n) <==> c.time >= 1
  {
    if c.time >= 1 {
      assert TouchedBy([miss]) == Touched(miss) == {miss.n};
      Retention(c, access, [miss]);
      RunOfOne(After(c, access), miss);
    } else {
      FirstBlockIsEvicted(c, access, miss);
    }
  }

  lemma RunOfOne(c: Cache, op: Op)
    requires Valid(c) && OpOk(c, op)
    ensures Run(c, [op]).0 == After(c, op)
  {
    var c1 := After(c, op);
    assert [op][1..] == [];
    assert Run(c1, []).0 == c1;
  }
}
