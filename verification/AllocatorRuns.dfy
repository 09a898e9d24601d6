// Whole runs of the allocators, interleaved with any other writes.

module AllocatorRuns {
  import opened Bytes
  import opened Volumes
  import opened Allocation

  /** What one step of the driver did to the accounting: bit k of group g was taken, or nothing was. */
  datatype Event =
    | GotBlock(g: nat, k: nat, role: Role)
    | GotInode(g: nat, k: nat)
    | NoSpace
    | Wrote

  /** The steps of allocate_block and allocate_inode, and writes to anything that is not accounting. */
  ghost predicate Next(s: State, e: Event, s': State) {
    match e
    case GotBlock(g, k, role) =>
      && FreeBit(s.v, s.owner, g, k)
      && s' == State(TakeBlock(s.v, s.owner, g, k), s.owner[BlockNo(s.v.geo, g, k) := role])
    case GotInode(g, k) => FreeInodeBit(s.v, s.owner, g, k) && s' == State(TakeInode(s.v, s.owner, g, k), s.owner)
    case NoSpace => s' == s
    case Wrote => SameAccounting(s.v, s'.v, s.owner) && s'.owner == s.owner
  }

  /** The number that the event hands out. */
  function Number(geo: Geometry, e: Event): nat {
    match e
    case GotBlock(g, k, _) => BlockNo(geo, g, k)
    case GotInode(g, k) => InodeNo(geo, g, k)
    case _ => 0
  }

  /** A call of allocate_block that returned r. */
  ghost predicate BlockStep(s: State, r: nat, role: Role, s': State) {
    if r == 0 then Next(s, NoSpace, s')
    else exists g, k :: Next(s, GotBlock(g, k, role), s') && Number(s.v.geo, GotBlock(g, k, role)) == r
  }

  /** A call of allocate_inode that returned n. */
  ghost predicate InodeStep(s: State, n: nat, s': State) {
    if n == 0 then Next(s, NoSpace, s')
    else exists g, k :: Next(s, GotInode(g, k), s') && Number(s.v.geo, GotInode(g, k)) == n
  }

  lemma NoStep(s: State, role: Role)
    ensures BlockStep(s, 0, role, s) && InodeStep(s, 0, s)
  {
  }

  lemma BlockStepBy(s: State, g: nat, k: nat, role: Role, s': State)
    requires Next(s, GotBlock(g, k, role), s') && BlockNo(s.v.geo, g, k) > 0
    ensures BlockStep(s, BlockNo(s.v.geo, g, k), role, s')
  {
    hide Next, BlockNo;
    assert Number(s.v.geo, GotBlock(g, k, role)) == BlockNo(s.v.geo, g, k);
  }

  lemma InodeStepBy(s: State, g: nat, k: nat, s': State)
    requires Next(s, GotInode(g, k), s')
    ensures InodeStep(s, InodeNo(s.v.geo, g, k), s')
  {
    hide Next;
    assert Number(s.v.geo, GotInode(g, k)) == InodeNo(s.v.geo, g, k);
  }

  /** Every step keeps the volume consistent. */
  lemma NextKeeps(s: State, e: Event, s': State)
    requires WellFormed(s.v, s.owner) && Next(s, e, s')
    ensures WellFormed(s'.v, s'.owner)
  {
    hide WellFormed, TakeBlock, TakeInode, BlockNo;
    match e
    case GotBlock(g, k, role) => TakeBlockKeeps(s.v, s.owner, g, k, role);
    case GotInode(g, k) => TakeInodeKeeps(s.v, s.owner, g, k);
    case NoSpace =>
    case Wrote => WellFormedFrame(s.v, s'.v, s.owner);
  }

  ghost predicate IsRun(ss: seq<State>, es: seq<Event>) {
    && |ss| == |es| + 1
    && WellFormed(ss[0].v, ss[0].owner)
    && forall i :: 0 <= i < |es| ==> Next(ss[i], es[i], ss[i + 1])
  }

  function Blocks(es: seq<Event>): nat {
    if es == [] then 0 else Blocks(es[..|es| - 1]) + if es[|es| - 1].GotBlock? then 1 else 0
  }

  function Inodes(es: seq<Event>): nat {
    if es == [] then 0 else Inodes(es[..|es| - 1]) + if es[|es| - 1].GotInode? then 1 else 0
  }

  /** Same size, and what is in use stays in use. */
  ghost predicate Monotone(s: State, s': State) {
    && s'.v.geo == s.v.geo && |s'.v.disk| == |s.v.disk|
    && (forall b :: 0 <= b < |s.v.disk| && Used(s.v, b) ==> Used(s'.v, b))
    && (forall n :: 0 < n <= InodesCount(s.v.geo) && InodeUsed(s.v, n) ==> InodeUsed(s'.v, n))
  }

  lemma InodesKept(v: Volume, v': Volume, owner: Owner, n: nat)
    requires WellFormed(v, owner) && 0 < n <= InodesCount(v.geo) && v'.geo == v.geo && |v'.disk| == |v.disk|
             && SamePointers(v.bgd, v'.bgd)
    requires forall b :: b in owner && b < |v.disk| && owner[b].InodeBitmapRole? ==> v'.disk[b] == v.disk[b]
    ensures InodeUsed(v', n) == InodeUsed(v, n)
  {
    hide Layout, Accounted, Counts, Mirrored, InodesCount;
    InodeGroup(v.geo, n);
    var g := (n - 1) / v.geo.inodesPerGroup;
    InodeBitmapsDiffer(v, owner, g, g);
    assert 32 * g + 32 <= |v.bgd|;
  }

  lemma InodesMonotone(v: Volume, v': Volume, owner: Owner)
    requires WellFormed(v, owner) && v'.geo == v.geo && |v'.disk| == |v.disk| && SamePointers(v.bgd, v'.bgd)
    requires forall b :: b in owner && b < |v.disk| && owner[b].InodeBitmapRole? ==> v'.disk[b] == v.disk[b]
    ensures forall n :: 0 < n <= InodesCount(v.geo) ==> InodeUsed(v', n) == InodeUsed(v, n)
  {
    hide WellFormed, InodeUsed, InodesCount, SamePointers;
    forall n | 0 < n <= InodesCount(v.geo)
      ensures InodeUsed(v', n) == InodeUsed(v, n)
    {
      InodesKept(v, v', owner, n);
    }
  }

  lemma NextMonotone(s: State, e: Event, s': State)
    requires WellFormed(s.v, s.owner) && Next(s, e, s')
    ensures Monotone(s, s')
  {
    hide WellFormed, Used, InodeUsed, InodesCount, SamePointers, FreeBit, FreeInodeBit, TakeBlock, TakeInode, BlockNo,
         InodeNo;
    match e
    case GotBlock(g, k, _) =>
      TakeBlockEffect(s.v, s.owner, g, k);
      InodesMonotone(s.v, s'.v, s.owner);
    case GotInode(g, k) => TakeInodeEffect(s.v, s.owner, g, k);
    case NoSpace =>
    case Wrote =>
      WellFormedFrame(s.v, s'.v, s.owner);
      PointersRefl(s.v.bgd);
      InodesMonotone(s.v, s'.v, s.owner);
  }

  lemma {:induction false} RunMonotone(ss: seq<State>, es: seq<Event>, i: nat, j: nat)
    requires IsRun(ss, es) && i <= j <= |es|
    ensures Monotone(ss[i], ss[j]) && WellFormed(ss[i].v, ss[i].owner)
    decreases j - i, i
  {
    hide WellFormed, Next, Used, InodeUsed, InodesCount;
    RunWellFormed(ss, es, i);
    if i < j {
      NextMonotone(ss[i], es[i], ss[i + 1]);
      RunMonotone(ss, es, i + 1, j);
    }
  }

  lemma {:induction false} RunWellFormed(ss: seq<State>, es: seq<Event>, i: nat)
    requires IsRun(ss, es) && i <= |es|
    ensures WellFormed(ss[i].v, ss[i].owner)
  {
    hide WellFormed, Next;
    if i > 0 {
      RunWellFormed(ss, es, i - 1);
      NextKeeps(ss[i - 1], es[i - 1], ss[i]);
    }
  }

  /** What event e took is free before it and in use after it; a new block reads as zeros. */
  lemma TakesFree(s: State, e: Event, s': State)
    requires Next(s, e, s')
    ensures var n := Number(s.v.geo, e);
            && (e.GotBlock? ==> 0 < n < |s.v.disk| == |s'.v.disk| && !Used(s.v, n) && Used(s'.v, n) && n !in s.owner
                                && s'.v.disk[n] == Zeros(s.v.geo.blockSize))
            && (e.GotInode? ==> 0 < n <= InodesCount(s.v.geo) && !InodeUsed(s.v, n) && InodeUsed(s'.v, n))
  {
    hide Used, InodeUsed, InodesCount, SamePointers, Zeros, FreeBit, FreeInodeBit, TakeBlock, TakeInode, BlockNo,
         InodeNo;
    match e
    case GotBlock(g, k, _) => TakeBlockEffect(s.v, s.owner, g, k);
    case GotInode(g, k) => TakeInodeEffect(s.v, s.owner, g, k);
    case _ =>
  }

  /** No run ever hands out a block or an inode twice. */
  lemma NeverTwice(ss: seq<State>, es: seq<Event>, i: nat, j: nat)
    requires IsRun(ss, es) && i < j < |es|
    requires (es[i].GotBlock? && es[j].GotBlock?) || (es[i].GotInode? && es[j].GotInode?)
    ensures Number(ss[0].v.geo, es[i]) != Number(ss[0].v.geo, es[j])
  {
    hide WellFormed, Next, Used, InodeUsed, InodesCount, Number;
    TakesFree(ss[i], es[i], ss[i + 1]);
    TakesFree(ss[j], es[j], ss[j + 1]);
    RunMonotone(ss, es, 0, i);
    RunMonotone(ss, es, i, i + 1);
    RunMonotone(ss, es, i + 1, j);
  }

  lemma NextCounts(s: State, e: Event, s': State)
    requires WellFormed(s.v, s.owner) && Next(s, e, s')
    ensures |s.v.sb| == |s'.v.sb| == 1024
    ensures SbFreeBlocks(s.v.sb) == SbFreeBlocks(s'.v.sb) + if e.GotBlock? then 1 else 0
    ensures SbFreeInodes(s.v.sb) == SbFreeInodes(s'.v.sb) + if e.GotInode? then 1 else 0
  {
    hide Layout, Accounted, Counts, Mirrored, Used, InodeUsed, SamePointers, FreeBit, FreeInodeBit, TakeBlock,
         TakeInode;
    match e
    case GotBlock(g, k, _) => TakeBlockEffect(s.v, s.owner, g, k);
    case GotInode(g, k) => TakeInodeEffect(s.v, s.owner, g, k);
    case _ =>
  }

  /** At every point of every run the bitmaps, the group counts and the superblock agree, and what has been handed out
      is what is missing. */
  lemma {:induction false} Conservation(ss: seq<State>, es: seq<Event>)
    requires IsRun(ss, es)
    ensures var (a, b) := (ss[0].v, ss[|es|].v);
            && WellFormed(b, ss[|es|].owner) && Shape(b) && Counts(b) && |a.sb| == |b.sb| == 1024
            && SbFreeBlocks(a.sb) == SbFreeBlocks(b.sb) + Blocks(es)
            && SbFreeInodes(a.sb) == SbFreeInodes(b.sb) + Inodes(es)
    decreases |es|
  {
    hide Next, Layout, Accounted, Mirrored, Geometry.Ok, Counts;
    RunWellFormed(ss, es, |es|);
    if es != [] {
      var n := |es| - 1;
      Conservation(ss[..|ss| - 1], es[..n]);
      RunWellFormed(ss, es, n);
      NextCounts(ss[n], es[n], ss[n + 1]);
    }
  }
}
