// The write-back block cache as a state machine on values: the device, the
// cache entries and the usage clock. A cache without entries is the driver
// mounted with "nocache".

module CacheSpec {
  import opened Bytes

  datatype Entry = Entry(blockNo: nat, lastUse: nat, dirty: bool, block: Block)

  datatype Cache = Cache(device: seq<Block>, entries: seq<Entry>, time: nat, blockSize: nat)

  datatype Op =
    | Read(n: nat)
    | Write(n: nat, buf: Block)
    | Sync
    | Super(sb: Block)

  datatype Reply = Success | BadBlock | Contents(block: Block)

  // ----- searching the entries -----

  function FindFrom(es: seq<Entry>, n: nat, i: nat): (r: nat)
    requires i <= |es|
    ensures i <= r <= |es|
    ensures r < |es| ==> es[r].blockNo == n
    ensures forall k :: i <= k < r ==> es[k].blockNo != n
    decreases |es| - i
  {
    if i == |es| || es[i].blockNo == n then i else FindFrom(es, n, i + 1)
  }

  /** The first entry that holds block n, or |es|. */
  function Find(es: seq<Entry>, n: nat): (r: nat)
    ensures r <= |es|
    ensures r < |es| ==> es[r].blockNo == n
    ensures forall k :: 0 <= k < r ==> es[k].blockNo != n
  {
    FindFrom(es, n, 0)
  }

  /** The first entry with the least last use among the first k. */
  function Oldest(es: seq<Entry>, k: nat): (r: nat)
    requires 0 < k <= |es|
    ensures r < k
    ensures forall j :: 0 <= j < k ==> es[r].lastUse <= es[j].lastUse
    ensures forall j :: 0 <= j < r ==> es[r].lastUse < es[j].lastUse
  {
    if k == 1 then 0
    else
      var o := Oldest(es, k - 1);
      if es[k - 1].lastUse < es[o].lastUse then k - 1 else o
  }

  function Victim(es: seq<Entry>): (r: nat)
    requires |es| > 0
    ensures r < |es|
    ensures forall j :: 0 <= j < |es| ==> es[r].lastUse <= es[j].lastUse
  {
    Oldest(es, |es|)
  }

  // ----- invariant and logical view -----

  ghost predicate EntryOk(c: Cache, e: Entry) {
    && e.blockNo < |c.device|
    && (e.blockNo == 0 ==> !e.dirty)
    && |e.block| == c.blockSize
    && (e.blockNo != 0 && !e.dirty ==> e.block == c.device[e.blockNo])
  }

  ghost predicate DistinctBlocks(es: seq<Entry>) {
    forall i, j :: 0 <= i < j < |es| && es[i].blockNo != 0 ==> es[i].blockNo != es[j].blockNo
  }

  ghost predicate Valid(c: Cache) {
    && c.blockSize > 1024
    && c.blockSize % 1024 == 0
    && |c.device| > 0
    && (forall n :: 0 <= n < |c.device| ==> |c.device[n]| == c.blockSize)
    && (forall i :: 0 <= i < |c.entries| ==> EntryOk(c, c.entries[i]))
    && DistinctBlocks(c.entries)
  }

  function Lookup(c: Cache, n: nat): (b: Block)
    requires n < |c.device|
  {
    var i := Find(c.entries, n);
    if n == 0 || i == |c.entries| then c.device[n] else c.entries[i].block
  }

  /** What the file system above the cache sees as the disk. */
  function View(c: Cache): (v: seq<Block>)
    ensures |v| == |c.device|
    ensures forall n :: 0 <= n < |v| ==> v[n] == Lookup(c, n)
  {
    seq(|c.device|, n requires 0 <= n < |c.device| => Lookup(c, n))
  }

  // ----- steps -----

  ghost predicate OpOk(c: Cache, op: Op) {
    match op
    case Read(n) => n < |c.device|
    case Write(n, buf) => n < |c.device| && |buf| == c.blockSize
    case Sync => true
    case Super(sb) => |sb| == 1024
  }

  /** cache_flush_dirty guarded by the dirty test its callers make. */
  function Flush(c: Cache, i: nat): Cache
    requires i < |c.entries|
  {
    var e := c.entries[i];
    if e.dirty && e.blockNo < |c.device|
    then c.(device := c.device[e.blockNo := e.block], entries := c.entries[i := e.(dirty := false)])
    else c
  }

  function Install(c: Cache, i: nat, n: nat, dirty: bool, block: Block): Cache
    requires i < |c.entries|
  {
    c.(entries := c.entries[i := Entry(n, c.time, dirty, block)], time := c.time + 1)
  }

  function ReadStep(c: Cache, n: nat): (Cache, Reply)
    requires n < |c.device|
  {
    if n == 0 then (c, BadBlock)
    else if |c.entries| == 0 then (c, Contents(c.device[n]))
    else
      var i := Find(c.entries, n);
      if i < |c.entries| then
        var e := c.entries[i];
        (Install(c, i, n, e.dirty, e.block), Contents(e.block))
      else
        var c1 := Flush(c, Victim(c.entries));
        (Install(c1, Victim(c.entries), n, false, c1.device[n]), Contents(c1.device[n]))
  }

  function WriteStep(c: Cache, n: nat, buf: Block): (Cache, Reply)
    requires n < |c.device|
  {
    if n == 0 then (c, BadBlock)
    else if |c.entries| == 0 then (c.(device := c.device[n := buf]), Success)
    else
      var i := Find(c.entries, n);
      if i < |c.entries| then (Install(c, i, n, true, buf), Success)
      else (Install(Flush(c, Victim(c.entries)), Victim(c.entries), n, true, buf), Success)
  }

  /** ext2_sync from entry i on. */
  function SyncFrom(c: Cache, i: nat): Cache
    requires i <= |c.entries|
    decreases |c.entries| - i
  {
    if i == |c.entries| then c else SyncFrom(Flush(c, i), i + 1)
  }

  function PutSuper(block: Block, sb: Block): Block
    requires |block| >= 2048 && |sb| == 1024
  {
    Splice(block, 1024, sb)
  }

  ghost function Step(c: Cache, op: Op): (Cache, Reply)
    requires Valid(c) && OpOk(c, op)
  {
    match op
    case Read(n) => ReadStep(c, n)
    case Write(n, buf) => WriteStep(c, n, buf)
    case Sync => (SyncFrom(c, 0), Success)
    case Super(sb) => (c.(device := c.device[0 := PutSuper(c.device[0], sb)]), Success)
  }

  /** The same operation on a plain disk: the reference for every run. */
  ghost function PlainStep(d: seq<Block>, op: Op): (seq<Block>, Reply)
    requires |d| > 0 && |d[0]| >= 2048
    requires match op
             case Read(n) => n < |d|
             case Write(n, buf) => n < |d|
             case Sync => true
             case Super(sb) => |sb| == 1024
  {
    match op
    case Read(n) => (d, if n == 0 then BadBlock else Contents(d[n]))
    case Write(n, buf) => if n == 0 then (d, BadBlock) else (d[n := buf], Success)
    case Sync => (d, Success)
    case Super(sb) => (d[0 := PutSuper(d[0], sb)], Success)
  }

  // ----- one step keeps the invariant and the view -----

  lemma FindUnique(es: seq<Entry>, n: nat, i: nat)
    requires DistinctBlocks(es) && n != 0 && i < |es| && es[i].blockNo == n
    ensures Find(es, n) == i
  {
  }

  lemma VictimInRange(c: Cache)
    requires Valid(c) && |c.entries| > 0
    ensures c.entries[Victim(c.entries)].blockNo < |c.device|
  {
    assert EntryOk(c, c.entries[Victim(c.entries)]);
  }

  lemma FlushKeepsView(c: Cache, i: nat)
    requires Valid(c) && i < |c.entries|
    ensures Valid(Flush(c, i)) && View(Flush(c, i)) == View(c)
    ensures !Flush(c, i).entries[i].dirty
  {
    var c' := Flush(c, i);
    var e := c.entries[i];
    if e.dirty {
      forall n | 0 <= n < |c.device|
        ensures Lookup(c', n) == Lookup(c, n)
      {
        var k, k' := Find(c.entries, n), Find(c'.entries, n);
        if n != 0 && k < |c.entries| {
          FindUnique(c'.entries, n, k);
        }
        if n == e.blockNo {
          FindUnique(c.entries, n, i);
        }
      }
    }
  }

  /** Overwriting a clean entry with block n leaves every other block alone. */
  lemma InstallView(c: Cache, i: nat, n: nat, dirty: bool, block: Block)
    requires Valid(c) && i < |c.entries| && 0 < n < |c.device| && |block| == c.blockSize
    requires c.entries[i].blockNo == n || (!c.entries[i].dirty && Find(c.entries, n) == |c.entries|)
    requires dirty || block == c.device[n]
    ensures Valid(Install(c, i, n, dirty, block))
    ensures View(Install(c, i, n, dirty, block)) == View(c)[n := block]
  {
    var c' := Install(c, i, n, dirty, block);
    assert DistinctBlocks(c'.entries) by {
      if c.entries[i].blockNo == n {
        FindUnique(c.entries, n, i);
      }
    }
    FindUnique(c'.entries, n, i);
    forall m | 0 <= m < |c.device| && m != n
      ensures Lookup(c', m) == Lookup(c, m)
    {
      if m != 0 {
        var k, k' := Find(c.entries, m), Find(c'.entries, m);
        if k' < |c.entries| {
          FindUnique(c.entries, m, k');
        } else if k < |c.entries| {
          assert c'.entries[k].blockNo == m || k == i;
        }
      }
    }
  }

  lemma ReadRefines(c: Cache, n: nat)
    requires Valid(c) && n < |c.device|
    ensures Valid(ReadStep(c, n).0) && View(ReadStep(c, n).0) == View(c)
    ensures ReadStep(c, n).1 == if n == 0 then BadBlock else Contents(View(c)[n])
  {
    if n != 0 && |c.entries| > 0 {
      var i := Find(c.entries, n);
      if i < |c.entries| {
        InstallView(c, i, n, c.entries[i].dirty, c.entries[i].block);
      } else {
        var v := Victim(c.entries);
        FlushKeepsView(c, v);
        var c1 := Flush(c, v);
        assert forall k :: 0 <= k < |c.entries| ==> c1.entries[k].blockNo == c.entries[k].blockNo;
        assert View(c1)[n] == Lookup(c1, n) == c1.device[n];
        InstallView(c1, v, n, false, c1.device[n]);
      }
    }
  }

  lemma WriteRefines(c: Cache, n: nat, buf: Block)
    requires Valid(c) && n < |c.device| && |buf| == c.blockSize
    ensures Valid(WriteStep(c, n, buf).0)
    ensures View(WriteStep(c, n, buf).0) == if n == 0 then View(c) else View(c)[n := buf]
    ensures WriteStep(c, n, buf).1 == if n == 0 then BadBlock else Success
  {
    if n != 0 && |c.entries| > 0 {
      var i := Find(c.entries, n);
      if i < |c.entries| {
        InstallView(c, i, n, true, buf);
      } else {
        var v := Victim(c.entries);
        FlushKeepsView(c, v);
        var c1 := Flush(c, v);
        assert forall k :: 0 <= k < |c.entries| ==> c1.entries[k].blockNo == c.entries[k].blockNo;
        InstallView(c1, v, n, true, buf);
      }
    }
  }

  /** After a flush of every entry the device itself is the view. */
  lemma {:induction false} SyncRefines(c: Cache, i: nat)
    requires Valid(c) && i <= |c.entries|
    requires forall k :: 0 <= k < i ==> !c.entries[k].dirty
    ensures var c' := SyncFrom(c, i);
            Valid(c') && View(c') == View(c) && c'.device == View(c) && |c'.entries| == |c.entries|
            && forall k :: 0 <= k < |c'.entries| ==> !c'.entries[k].dirty
    decreases |c.entries| - i
  {
    if i < |c.entries| {
      FlushKeepsView(c, i);
      SyncRefines(Flush(c, i), i + 1);
    }
  }

  lemma SuperRefines(c: Cache, sb: Block)
    requires Valid(c) && |sb| == 1024
    ensures var c' := Step(c, Super(sb)).0;
            Valid(c') && View(c') == View(c)[0 := PutSuper(View(c)[0], sb)]
  {
    var c' := Step(c, Super(sb)).0;
    forall i | 0 <= i < |c'.entries|
      ensures EntryOk(c', c'.entries[i])
    {
      assert EntryOk(c, c.entries[i]);
    }
    assert forall n :: 0 < n < |c.device| ==> Lookup(c', n) == Lookup(c, n);
  }

  lemma StepRefines(c: Cache, op: Op)
    requires Valid(c) && OpOk(c, op)
    ensures var (c', r) := Step(c, op);
            Valid(c') && |c'.device| == |c.device| && c'.blockSize == c.blockSize
            && (View(c'), r) == PlainStep(View(c), op)
            && (op.Sync? ==> c'.device == View(c))
  {
    match op
    case Read(n) => ReadRefines(c, n);
    case Write(n, buf) => WriteRefines(c, n, buf);
    case Sync => SyncRefines(c, 0); SyncShape(c, 0);
    case Super(sb) => SuperRefines(c, sb);
  }

  lemma {:induction false} SyncShape(c: Cache, i: nat)
    requires i <= |c.entries|
    ensures SyncFrom(c, i).blockSize == c.blockSize && |SyncFrom(c, i).device| == |c.device|
    decreases |c.entries| - i
  {
    if i < |c.entries| {
      SyncShape(Flush(c, i), i + 1);
    }
  }

  // ----- whole runs -----

  ghost predicate OpsOk(c: Cache, ops: seq<Op>) {
    forall i :: 0 <= i < |ops| ==> OpOk(c, ops[i])
  }

  ghost function Run(c: Cache, ops: seq<Op>): (Cache, seq<Reply>)
    requires Valid(c) && OpsOk(c, ops)
    decreases |ops|
  {
    if ops == [] then (c, [])
    else
      StepRefines(c, ops[0]);
      var (c1, r) := Step(c, ops[0]);
      var (c2, rs) := Run(c1, ops[1..]);
      (c2, [r] + rs)
  }

  ghost function PlainRun(d: seq<Block>, ops: seq<Op>): (seq<Block>, seq<Reply>)
    requires |d| > 0 && |d[0]| >= 2048
    requires forall i :: 0 <= i < |ops| ==>
               match ops[i]
               case Read(n) => n < |d|
               case Write(n, buf) => n < |d| && |buf| >= 2048
               case Sync => true
               case Super(sb) => |sb| == 1024
    decreases |ops|
  {
    if ops == [] then (d, [])
    else
      var (d1, r) := PlainStep(d, ops[0]);
      var (d2, rs) := PlainRun(d1, ops[1..]);
      (d2, [r] + rs)
  }

  /** Every run over the cache gives the replies of the plain disk and ends in its contents. */
  lemma {:induction false} RunRefines(c: Cache, ops: seq<Op>)
    requires Valid(c) && OpsOk(c, ops)
    ensures Valid(Run(c, ops).0)
    ensures (View(Run(c, ops).0), Run(c, ops).1) == PlainRun(View(c), ops)
    ensures ops != [] && ops[|ops| - 1].Sync? ==> Run(c, ops).0.device == PlainRun(View(c), ops).0
    decreases |ops|
  {
    if ops != [] {
      StepRefines(c, ops[0]);
      RunRefines(Step(c, ops[0]).0, ops[1..]);
      if |ops| > 1 {
        assert ops[1..][|ops[1..]| - 1] == ops[|ops| - 1];
      }
    }
  }
}
