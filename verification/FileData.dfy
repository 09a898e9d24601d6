// The contents of one file as an endless array of blocks: the blocks that are
// mapped, and zeros after them.

module FileData {
  import opened Arith
  import opened Bytes
  import opened Volumes
  import opened Allocation
  import opened InodeTables
  import opened BlockMaps
  import opened Files

  /** Sectors of 512 bytes in one block. */
  function Units(geo: Geometry): nat {
    geo.blockSize / 512
  }

  lemma UnitsPositive(geo: Geometry)
    requires geo.Ok()
    ensures Units(geo) >= 2
  {
    DivBelow(geo.blockSize, 2, 512);
  }

  /** The first n blocks of file ino are mapped, each to a data block of its own. */
  ghost predicate Mapped(v: Volume, owner: Owner, ino: nat, inode: Block, n: nat) {
    && Ready(v, owner, ino, inode) && v.geo.P() > 0
    && n <= Limit(v.geo.P())
    && forall i :: 0 <= i < n ==> Owns(owner, Addr(v.disk, v.geo.P(), inode, i), DataRole(ino, i))
  }

  function Count(geo: Geometry, inode: Block): nat
    requires IsRecord(inode)
  {
    if Units(geo) > 0 then IBlocks(inode) / Units(geo) else 0
  }

  /** A file grown by this driver: its length field counts exactly its mapped blocks. */
  ghost predicate FileOk(v: Volume, owner: Owner, ino: nat, inode: Block) {
    && IsRecord(inode)
    && Mapped(v, owner, ino, inode, Count(v.geo, inode))
    && IBlocks(inode) == Count(v.geo, inode) * Units(v.geo)
  }

  /** Block i of the file as it reads. */
  ghost function FileBlock(v: Volume, inode: Block, i: nat): Block
    requires IsRecord(inode) && v.geo.P() > 0
  {
    var a := Addr(v.disk, v.geo.P(), inode, i);
    if i < Count(v.geo, inode) && a < |v.disk| then v.disk[a] else Zeros(v.geo.blockSize)
  }

  /** The file reads the same, except possibly in block x. */
  ghost predicate SameBlocks(v: Volume, inode: Block, v': Volume, inode': Block, x: int)
    requires IsRecord(inode) && IsRecord(inode') && v.geo.P() > 0 && v'.geo == v.geo
  {
    forall i: nat :: i != x ==> FileBlock(v', inode', i) == FileBlock(v, inode, i)
  }

  lemma CountOf(geo: Geometry, inode: Block, n: nat)
    requires IsRecord(inode) && Units(geo) > 0 && IBlocks(inode) == n * Units(geo)
    ensures Count(geo, inode) == n
  {
    DivModUnique(IBlocks(inode), n, Units(geo), 0);
  }

  // ----- frames -----

  /** The map depends on a record only through its block numbers. */
  lemma EntriesDecide(disk: seq<Block>, p: nat, owner: Owner, ino: nat, a: Block, b: Block)
    requires IsRecord(a) && IsRecord(b) && p > 0 && SameEntries(a, b, -1)
    ensures SameMap(disk, a, disk, b, p)
    ensures IndOk(disk, p, owner, ino, a) ==> IndOk(disk, p, owner, ino, b)
    ensures SameLeaves(disk, a, disk, b, p, -1)
  {
    hide Limit, Cell, IBlock;
  }

  lemma MappedFrame(v: Volume, owner: Owner, v': Volume, owner': Owner, ino: nat, inode: Block, inode': Block, n: nat)
    requires Mapped(v, owner, ino, inode, n) && v'.geo == v.geo && Ready(v', owner', ino, inode')
    requires SameMap(v.disk, inode, v'.disk, inode', v.geo.P()) && Extends(owner, owner')
    ensures Mapped(v', owner', ino, inode', n)
  {
    hide Ready, Addr;
  }

  lemma MappedAdd(v: Volume, owner: Owner, v': Volume, owner': Owner, ino: nat, inode: Block, inode': Block, n: nat,
      r: nat)
    requires Mapped(v, owner, ino, inode, n) && v'.geo == v.geo && Ready(v', owner', ino, inode')
             && n < Limit(v.geo.P())
    requires MapUpdated(v.disk, inode, v'.disk, inode', v.geo.P(), n, r) && Extends(owner, owner')
    requires Owns(owner, r, DataRole(ino, n))
    ensures Mapped(v', owner', ino, inode', n + 1)
  {
    hide Ready, Addr;
  }

  /** Data blocks that stay put and keep their contents leave the file as it reads. */
  lemma BlocksKept(v: Volume, owner: Owner, v': Volume, ino: nat, inode: Block, inode': Block)
    requires IsRecord(inode') && FileOk(v, owner, ino, inode) && v'.geo == v.geo && DataKept(v, owner, v')
    requires forall b :: b in owner ==> b < |v.disk|
    requires forall i :: 0 <= i < Count(v.geo, inode) ==>
               Addr(v'.disk, v.geo.P(), inode', i) == Addr(v.disk, v.geo.P(), inode, i)
    requires Count(v.geo, inode') >= Count(v.geo, inode)
    ensures forall i: nat :: i < Count(v.geo, inode) ==> FileBlock(v', inode', i) == FileBlock(v, inode, i)
  {
    hide Ready, Addr, Zeros;
    forall i: nat | i < Count(v.geo, inode)
      ensures FileBlock(v', inode', i) == FileBlock(v, inode, i)
    {
      assert Owns(owner, Addr(v.disk, v.geo.P(), inode, i), DataRole(ino, i));
    }
  }

  // ----- growing by one block -----

  /** allocate_block has returned r and set_block_number has stored it at index n. */
  ghost predicate Grown(v: Volume, o: Owner, a: Block, v1: Volume, o1: Owner, r: nat, v2: Volume, o2: Owner, b: Block,
      ino: nat, n: nat) {
    && FileOk(v, o, ino, a) && n == Count(v.geo, a) && n < Limit(v.geo.P())
    && BlockTaken(v, o, v1, r) && o1 == o[r := DataRole(ino, n)] && WellFormed(v1, o1)
    && Ready(v2, o2, ino, b) && MetaStep(v1, o1, v2, o2, ino) && SameRecord(a, b)
    && MapUpdated(v1.disk, a, v2.disk, b, v.geo.P(), n, r)
  }

  lemma AllocKeepsMap(v: Volume, o: Owner, v1: Volume, r: nat, ino: nat, a: Block, n: nat)
    requires Mapped(v, o, ino, a, n) && BlockTaken(v, o, v1, r) && WellFormed(v1, o[r := DataRole(ino, n)])
    ensures Mapped(v1, o[r := DataRole(ino, n)], ino, a, n)
    ensures MetaStep(v, o, v1, o[r := DataRole(ino, n)], ino)
    ensures SameIndex(v, a, v1, a)
  {
    hide WellFormed, IndOk, SameMap, SameLeaves, SamePtrs, OnlyFile, DataKept, IsInode, TableOk, Used, Limit, Addr,
         DiskOk;
    var o1 := o[r := DataRole(ino, n)];
    ReadyDisk(v, o);
    AllocStep(v, o, v1, r, DataRole(ino, n), ino);
    assert Extends(o, o1);
    MapFrame(v.disk, v1.disk, v.geo.P(), o, o1, ino, a);
    MappedFrame(v, o, v1, o1, ino, a, a, n);
  }

  lemma GrownMaps(v: Volume, o: Owner, a: Block, v1: Volume, o1: Owner, r: nat, v2: Volume, o2: Owner, b: Block,
      ino: nat, n: nat)
    requires Grown(v, o, a, v1, o1, r, v2, o2, b, ino, n)
    ensures Mapped(v2, o2, ino, b, n + 1) && MetaStep(v, o, v2, o2, ino)
    ensures MapUpdated(v.disk, a, v2.disk, b, v.geo.P(), n, r)
    ensures r < |v2.disk| && v2.disk[r] == Zeros(v.geo.blockSize)
  {
    hide WellFormed, Ready, SameMap, SameLeaves, MapUpdated, Addr, Zeros, Used, Limit, IsInode, TableOk;
    AllocKeepsMap(v, o, v1, r, ino, a, n);
    MappedAdd(v1, o1, v2, o2, ino, a, b, n, r);
    MetaTrans(v, o, v1, o1, v2, o2, ino);
    UpdateAfterSame(v.disk, a, v1.disk, a, v2.disk, b, v.geo.P(), n, r);
  }

  lemma UpdateAfterSame(d: seq<Block>, a: Block, d1: seq<Block>, b: Block, d2: seq<Block>, c: Block, p: nat, i: nat,
      r: nat)
    requires IsRecord(a) && IsRecord(b) && IsRecord(c) && p > 0
    requires SameMap(d, a, d1, b, p) && MapUpdated(d1, b, d2, c, p, i, r)
    ensures MapUpdated(d, a, d2, c, p, i, r)
  {
    hide Addr;
  }

  ghost predicate CanPut(v: Volume, ino: nat, c: Block) {
    TableOk(v) && IsInode(v.geo, ino) && |c| == v.geo.inodeSize
  }

  /** c is record b with length t. */
  ghost predicate Relength(b: Block, c: Block, t: nat) {
    && IsRecord(b) && IsRecord(c) && |c| == |b|
    && IBlocks(c) == t && ISize(c) == ISize(b) && SameMode(b, c) && SameEntries(b, c, -1)
  }

  /** t sectors are n whole blocks. */
  ghost predicate Sectors(geo: Geometry, n: nat, t: nat) {
    t == n * Units(geo)
  }

  /** What growing file ino from record a to record c did: one more block, which reads as zeros, and no other change. */
  ghost predicate GrewOne(v: Volume, o: Owner, a: Block, v': Volume, o': Owner, c: Block, ino: nat) {
    && FileOk(v', o', ino, c) && IsRecord(a) && v'.geo == v.geo && v.geo.P() > 0
    && Count(v.geo, c) == Count(v.geo, a) + 1 && ISize(c) == ISize(a) && SameMode(a, c)
    && MetaStep(v, o, v', o', ino)
    && SameBlocks(v, a, v', c, -1)
  }

  ghost predicate PutKeepsMap(v: Volume, o: Owner, v2: Volume, o2: Owner, b: Block, ino: nat, m: nat, c: Block) {
    && CanPut(v2, ino, c) && IsRecord(b) && IsRecord(c) && v2.geo.P() > 0
    && Mapped(PutInode(v2, ino, c), o2, ino, c, m) && MetaStep(v, o, PutInode(v2, ino, c), o2, ino)
    && SameMap(v2.disk, b, PutInode(v2, ino, c).disk, c, v2.geo.P()) && MetaStep(v2, o2, PutInode(v2, ino, c), o2, ino)
  }

  lemma PutRecord(v: Volume, o: Owner, v2: Volume, o2: Owner, b: Block, ino: nat, m: nat, c: Block, t: nat)
    requires MetaStep(v, o, v2, o2, ino) && Mapped(v2, o2, ino, b, m) && Relength(b, c, t)
    ensures PutKeepsMap(v, o, v2, o2, b, ino, m, c)
  {
    hide WellFormed, IndOk, SameMap, SameLeaves, Addr, Limit, IsInode, TableOk, PutInode, OnlyFile, DataKept, Extends,
         IBlock, DiskOk, Geometry.Ok;
    ReadyDisk(v2, o2);
    var v3 := PutInode(v2, ino, c);
    EntriesDecide(v2.disk, v2.geo.P(), o2, ino, b, c);
    RecordIndex(v2, o2, ino, c, c);
    MetaTrans(v, o, v2, o2, v3, o2, ino);
    SameMapTrans(v2.disk, b, v2.disk, c, v3.disk, c, v2.geo.P());
    ExtendsRefl(o2);
    MappedFrame(v2, o2, v3, o2, ino, b, c, m);
  }

  /** The record is written with the new length: the file is one zero block longer and reads the same. */
  lemma GrownFile(v: Volume, o: Owner, a: Block, v1: Volume, o1: Owner, r: nat, v2: Volume, o2: Owner, b: Block,
      ino: nat, n: nat, c: Block, t: nat)
    requires Grown(v, o, a, v1, o1, r, v2, o2, b, ino, n) && Relength(b, c, t) && Sectors(v.geo, n + 1, t)
    ensures CanPut(v2, ino, c) && GrewOne(v, o, a, PutInode(v2, ino, c), o2, c, ino)
  {
    hide WellFormed, IndOk, SameMap, SameLeaves, MapUpdated, Addr, Zeros, Used, Limit, IsInode, TableOk, PutInode,
         OnlyFile, Extends, DataKept, IBlock, Sectors, Units, Mapped, BlockTaken, SameBlocks;
    GrownMaps(v, o, a, v1, o1, r, v2, o2, b, ino, n);
    PutRecord(v, o, v2, o2, b, ino, n + 1, c, t);
    GrownOwner(v, o, a, v1, o1, r, v2, o2, b, ino, n);
    GrownReads(v, o, a, v2, o2, PutInode(v2, ino, c), b, c, ino, n, r, t);
  }

  lemma GrownOwner(v: Volume, o: Owner, a: Block, v1: Volume, o1: Owner, r: nat, v2: Volume, o2: Owner, b: Block,
      ino: nat, n: nat)
    requires Grown(v, o, a, v1, o1, r, v2, o2, b, ino, n)
    ensures Owns(o2, r, DataRole(ino, n)) && v2.geo == v.geo
  {
    hide WellFormed, Ready, FileOk, MapUpdated, TableOk, Used, Zeros;
  }

  lemma SameMapTrans(d: seq<Block>, a: Block, d1: seq<Block>, b: Block, d2: seq<Block>, c: Block, p: nat)
    requires IsRecord(a) && IsRecord(b) && IsRecord(c) && p > 0 && SameMap(d, a, d1, b, p) && SameMap(d1, b, d2, c, p)
    ensures SameMap(d, a, d2, c, p)
  {
    hide Addr;
  }

  lemma GrownReads(v: Volume, o: Owner, a: Block, v2: Volume, o2: Owner, v3: Volume, b: Block, c: Block, ino: nat,
      n: nat, r: nat, t: nat)
    requires FileOk(v, o, ino, a) && n == Count(v.geo, a) && IsRecord(b) && IsRecord(c) && v3.geo == v2.geo == v.geo
             && v.geo.P() > 0
    requires MapUpdated(v.disk, a, v2.disk, b, v.geo.P(), n, r) && SameMap(v2.disk, b, v3.disk, c, v.geo.P())
    requires MetaStep(v, o, v3, o2, ino) && MetaStep(v2, o2, v3, o2, ino)
    requires r < |v2.disk| && v2.disk[r] == Zeros(v.geo.blockSize) && Owns(o2, r, DataRole(ino, n))
    requires IBlocks(c) == t && Sectors(v.geo, n + 1, t)
    ensures SameBlocks(v, a, v3, c, -1) && Count(v.geo, c) == n + 1 && IBlocks(c) == Count(v.geo, c) * Units(v.geo)
  {
    hide WellFormed, Addr, Zeros, Limit, OnlyFile, TableOk, Units, Count, IndOk, IsInode;
    OwnedInRange(v, o);
    SectorCount(v, o, c, n + 1, t);
    BlocksKept(v, o, v3, ino, a, c);
  }

  lemma SectorCount(v: Volume, o: Owner, c: Block, n: nat, t: nat)
    requires WellFormed(v, o) && IsRecord(c) && IBlocks(c) == t && Sectors(v.geo, n, t)
    ensures Count(v.geo, c) == n && IBlocks(c) == Count(v.geo, c) * Units(v.geo)
  {
    UnitsPositive(v.geo);
    CountOf(v.geo, c, n);
    hide WellFormed, Units, Count;
  }

  // ----- when the space runs out -----

  lemma MissingMeansUnmapped(disk: seq<Block>, p: nat, inode: Block, i: nat)
    requires IsRecord(inode) && p > 0 && i < Limit(p) && Missing(disk, p, inode, i) > 0
    ensures Addr(disk, p, inode, i) == 0
  {
  }

  /** set_block_number ran out of space after the data block was taken. */
  ghost predicate Lost(v: Volume, o: Owner, a: Block, v1: Volume, o1: Owner, r: nat, v2: Volume, o2: Owner, b: Block,
      ino: nat, n: nat) {
    && FileOk(v, o, ino, a) && n == Count(v.geo, a) && n < Limit(v.geo.P())
    && BlockTaken(v, o, v1, r) && o1 == o[r := DataRole(ino, n)] && WellFormed(v1, o1)
    && Ready(v2, o2, ino, b) && MetaStep(v1, o1, v2, o2, ino) && SameRecord(a, b)
    && SameMap(v1.disk, a, v2.disk, b, v.geo.P()) && Missing(v.disk, v.geo.P(), a, n) > 0
  }

  /** The record counts a block that its map does not have. */
  ghost predicate HoleAtEnd(v: Volume, inode: Block) {
    && IsRecord(inode) && v.geo.P() > 0 && Count(v.geo, inode) > 0
    && Addr(v.disk, v.geo.P(), inode, Count(v.geo, inode) - 1) == 0
  }

  lemma NoHole(v: Volume, owner: Owner, ino: nat, inode: Block)
    ensures FileOk(v, owner, ino, inode) ==> !HoleAtEnd(v, inode)
  {
    hide Addr, Count, WellFormed, IndOk;
    if FileOk(v, owner, ino, inode) && Count(v.geo, inode) > 0 {
      assert Owns(owner, Addr(v.disk, v.geo.P(), inode, Count(v.geo, inode) - 1),
             DataRole(ino, Count(v.geo, inode) - 1));
    }
  }

  lemma LostBlock(v: Volume, o: Owner, a: Block, v1: Volume, o1: Owner, r: nat, v2: Volume, o2: Owner, b: Block,
      ino: nat, n: nat, c: Block, t: nat)
    requires Lost(v, o, a, v1, o1, r, v2, o2, b, ino, n) && Relength(b, c, t) && Sectors(v.geo, n + 1, t)
    ensures CanPut(v2, ino, c) && HoleAtEnd(PutInode(v2, ino, c), c) && Count(v.geo, c) == n + 1
    ensures MetaStep(v, o, PutInode(v2, ino, c), o2, ino)
  {
    hide WellFormed, IndOk, SameLeaves, Addr, Zeros, Used, Limit, IsInode, TableOk, PutInode, OnlyFile, Extends,
         DataKept, IBlock, Sectors, Units, BlockTaken, Missing, Count, Cell;
    MetaGeo(v1, o1, v2, o2, ino);
    AllocKeepsMap(v, o, v1, r, ino, a, n);
    MetaGeo(v, o, v1, o1, ino);
    MetaTrans(v, o, v1, o1, v2, o2, ino);
    MissingMeansUnmapped(v.disk, v.geo.P(), a, n);
    SectorCount(v2, o2, c, n + 1, t);
    ZeroMapped(v2, o2, ino, b);
    PutRecord(v, o, v2, o2, b, ino, 0, c, t);
  }

  lemma ZeroMapped(v: Volume, owner: Owner, ino: nat, inode: Block)
    requires Ready(v, owner, ino, inode)
    ensures Mapped(v, owner, ino, inode, 0)
  {
    ReadyDisk(v, owner);
    hide WellFormed, Ready, TableOk, Geometry.Ok;
  }

  // ----- how many blocks growth takes -----

  /** Blocks taken when index i is the next to be mapped: the data block and the indirect blocks it is the first to
      use. */
  function Charge(disk: seq<Block>, p: nat, inode: Block, i: nat): nat
    requires IsRecord(inode) && p > 0
  {
    1 + (if i == DIRECT_BLOCKS && IBlock(inode, 12) == 0 then 1 else 0)
      + (if i == DIRECT_BLOCKS + p && IBlock(inode, 13) == 0 then 1 else 0)
      + (if i >= DIRECT_BLOCKS + p && (i - DIRECT_BLOCKS - p) % p == 0
         && Cell(disk, IBlock(inode, 13), LeafOf(p, i)) == 0
         then 1 else 0)
  }

  /** Blocks taken by growing the file from n to m blocks. */
  function Need(disk: seq<Block>, p: nat, inode: Block, n: nat, m: nat): nat
    requires IsRecord(inode) && p > 0
    decreases m - n
  {
    if n >= m then 0 else Charge(disk, p, inode, n) + Need(disk, p, inode, n + 1, m)
  }

  lemma ChargeIsMissing(v: Volume, owner: Owner, ino: nat, inode: Block, n: nat)
    requires Mapped(v, owner, ino, inode, n) && n < Limit(v.geo.P())
    ensures Charge(v.disk, v.geo.P(), inode, n) == 1 + Missing(v.disk, v.geo.P(), inode, n)
  {
    hide WellFormed, IndOk, Geometry.P, IsInode;
    var p := v.geo.P();
    if DIRECT_BLOCKS < n < DIRECT_BLOCKS + p {
      assert Owns(owner, Addr(v.disk, p, inode, DIRECT_BLOCKS), DataRole(ino, DIRECT_BLOCKS));
    } else if DIRECT_BLOCKS + p < n {
      var i := DIRECT_BLOCKS + p;
      assert Owns(owner, Addr(v.disk, p, inode, i), DataRole(ino, i));
      if (n - i) % p != 0 {
        assert Owns(owner, Addr(v.disk, p, inode, n - 1), DataRole(ino, n - 1));
        SameLeafBefore(p, n - i);
      }
    } else if n == DIRECT_BLOCKS + p {
      ZeroModP(p);
    }
  }

  lemma ZeroModP(p: nat)
    requires p > 0
    ensures 0 % p == 0
  {
    DivModUnique(0, 0, p, 0);
  }

  lemma SameLeafBefore(p: nat, b: nat)
    requires p > 0 && b > 0 && b % p != 0
    ensures (b - 1) / p == b / p
  {
    DivModParts(b, p);
    DivModUnique(b - 1, b / p, p, b % p - 1);
  }

  lemma LaterLeaf(p: nat, a: nat, b: nat)
    requires p > 0 && a < b && b % p == 0
    ensures a / p != b / p
  {
    DivModParts(a, p);
    DivModParts(b, p);
  }

  lemma ChargeKept(v: Volume, a: Block, v': Volume, b: Block, n: nat, i: nat)
    requires IsRecord(a) && IsRecord(b) && v'.geo == v.geo && v.geo.P() > 0 && OnlyPath(v, a, v', b, n)
    requires n < i < Limit(v.geo.P())
    ensures Charge(v'.disk, v.geo.P(), b, i) == Charge(v.disk, v.geo.P(), a, i)
  {
    hide Cell, IBlock, Geometry.P;
    var p := v.geo.P();
    if i >= DIRECT_BLOCKS + p {
      DoubleIndex(p, i);
      if (i - DIRECT_BLOCKS - p) % p == 0 && n >= DIRECT_BLOCKS + p {
        LaterLeaf(p, n - DIRECT_BLOCKS - p, i - DIRECT_BLOCKS - p);
      }
    }
  }

  lemma {:induction false} NeedKept(v: Volume, a: Block, v': Volume, b: Block, n: nat, k: nat, m: nat)
    requires IsRecord(a) && IsRecord(b) && v'.geo == v.geo && v.geo.P() > 0 && OnlyPath(v, a, v', b, n)
    requires n < k && m <= Limit(v.geo.P())
    ensures Need(v'.disk, v.geo.P(), b, k, m) == Need(v.disk, v.geo.P(), a, k, m)
    decreases m - k
  {
    if k < m {
      ChargeKept(v, a, v', b, n, k);
      NeedKept(v, a, v', b, n, k + 1, m);
    }
  }

  lemma PathTrans(v: Volume, a: Block, v1: Volume, b: Block, v2: Volume, c: Block, i: nat)
    requires IsRecord(a) && IsRecord(b) && IsRecord(c) && v1.geo == v.geo && v.geo.P() > 0
    requires SameEntries(a, b, -1) && SameIndex(v, a, v1, b) && OnlyPath(v1, b, v2, c, i)
    ensures OnlyPath(v, a, v2, c, i)
  {
    hide Addr, Cell, IBlock;
  }

  lemma PathTransSame(v: Volume, a: Block, v1: Volume, b: Block, v2: Volume, c: Block, i: nat)
    requires IsRecord(a) && IsRecord(b) && IsRecord(c) && v1.geo == v.geo && v.geo.P() > 0
    requires OnlyPath(v, a, v1, b, i) && SameEntries(b, c, -1) && SameLeaves(v1.disk, b, v2.disk, c, v.geo.P(), -1)
    ensures OnlyPath(v, a, v2, c, i)
  {
    hide Addr, Cell, IBlock;
  }

  // ----- small facts for the driver's methods -----

  lemma TakenFacts(v: Volume, o: Owner, v1: Volume, r: nat)
    requires BlockTaken(v, o, v1, r)
    ensures SbFreeBlocks(v1.sb) == SbFreeBlocks(v.sb) - 1 && v1.geo == v.geo && r < |v.disk|
  {
  }

  lemma MissingKept(v: Volume, v1: Volume, a: Block, i: nat)
    requires IsRecord(a) && v.geo.P() > 0 && v1.geo == v.geo && SameIndex(v, a, v1, a) && i < Limit(v.geo.P())
    ensures Missing(v1.disk, v.geo.P(), a, i) == Missing(v.disk, v.geo.P(), a, i)
  {
    hide Addr, Cell, Geometry.P, IBlock;
    if i >= DIRECT_BLOCKS + v.geo.P() {
      DoubleIndex(v.geo.P(), i);
    }
  }

  lemma LengthGrows(geo: Geometry, n: nat)
    requires geo.Ok()
    ensures n * Units(geo) < (n + 1) * Units(geo) && Sectors(geo, n + 1, (n + 1) * Units(geo))
  {
    UnitsPositive(geo);
    hide Geometry.Ok, Units;
  }

  /** The length field is in units of 512 bytes, at byte 28 of the record. */
  lemma LengthField(geo: Geometry, n: nat, inode: Block)
    requires IsRecord(inode) && IBlocks(inode) == n * Units(geo)
    ensures GetU32(inode, 28) == n * (geo.blockSize / 512)
  {
  }

  lemma RecordWritten(v: Volume, o: Owner, ino: nat, c: Block)
    requires WellFormed(v, o) && CanPut(v, ino, c)
    ensures WellFormed(PutInode(v, ino, c), o) && CanPut(PutInode(v, ino, c), ino, c)
              && InodeAt(PutInode(v, ino, c), ino) == c
  {
    hide WellFormed, TableOk, IsInode, InodeAt;
    PutInodeEffect(v, o, ino, c);
  }

  lemma GrowPath(v: Volume, a: Block, v1: Volume, v2: Volume, o2: Owner, b: Block, ino: nat, c: Block, n: nat)
    requires IsRecord(a) && v1.geo == v.geo && v2.geo == v.geo && v.geo.P() > 0 && SameIndex(v, a, v1, a)
    requires Ready(v2, o2, ino, b) && CanPut(v2, ino, c) && OnlyPath(v1, a, v2, b, n)
    requires IsRecord(c) && SameEntries(b, c, -1)
    ensures OnlyPath(v, a, PutInode(v2, ino, c), c, n)
  {
    hide WellFormed, TableOk, IsInode, IndOk, OnlyPath, SameMap, SameLeaves, PutInode, IBlock, MetaStep, DiskOk;
    assert SameEntries(a, a, -1);
    PathTrans(v, a, v1, a, v2, b, n);
    var v3 := PutInode(v2, ino, c);
    ReadyDisk(v2, o2);
    EntriesDecide(v2.disk, v2.geo.P(), o2, ino, b, c);
    RecordIndex(v2, o2, ino, c, c);
    LeavesTrans(v2, b, v2, c, v3, c);
    PathTransSame(v, a, v2, b, v3, c, n);
  }

  lemma LeavesTrans(v: Volume, a: Block, v1: Volume, b: Block, v2: Volume, c: Block)
    requires IsRecord(a) && IsRecord(b) && IsRecord(c)
    requires SameLeaves(v.disk, a, v1.disk, b, v.geo.P(), -1) && SameLeaves(v1.disk, b, v2.disk, c, v.geo.P(), -1)
    ensures SameLeaves(v.disk, a, v2.disk, c, v.geo.P(), -1)
  {
    hide Cell, IBlock;
  }

  /** allocate_block returned r; set_block_number then stored it at index n, or (when !ok) ran out of space. */
  ghost predicate Stored(v: Volume, o: Owner, a: Block, v1: Volume, o1: Owner, r: nat, v2: Volume, o2: Owner, b: Block,
      ino: nat, n: nat, ok: bool) {
    && FileOk(v, o, ino, a) && n == Count(v.geo, a) && n < Limit(v.geo.P())
    && BlockTaken(v, o, v1, r) && o1 == o[r := DataRole(ino, n)] && WellFormed(v1, o1)
    && Ready(v2, o2, ino, b) && MetaStep(v1, o1, v2, o2, ino) && SameRecord(a, b) && OnlyPath(v1, a, v2, b, n)
    && (if ok then MapUpdated(v1.disk, a, v2.disk, b, v.geo.P(), n, r)
        else SameMap(v1.disk, a, v2.disk, b, v.geo.P()) && Missing(v.disk, v.geo.P(), a, n) > 0)
  }

  /** allocate_inode_block after it wrote record c: the file grew by one block, or (when !ok) its record counts a
      hole. */
  ghost predicate Outcome(v: Volume, o: Owner, a: Block, v': Volume, o': Owner, c: Block, ino: nat, n: nat, ok: bool) {
    && WellFormed(v', o') && CanPut(v', ino, c) && InodeAt(v', ino) == c && IsRecord(a) && IsRecord(c)
    && (if ok then GrewOne(v, o, a, v', o', c, ino) && OnlyPath(v, a, v', c, n)
        else HoleAtEnd(v', c) && !FileOk(v', o', ino, c) && Count(v.geo, c) == n + 1 && MetaStep(v, o, v', o', ino))
  }

  lemma StoredOutcome(v: Volume, o: Owner, a: Block, v1: Volume, o1: Owner, r: nat, v2: Volume, o2: Owner, b: Block,
      ino: nat, n: nat, ok: bool, c: Block, t: nat)
    requires Stored(v, o, a, v1, o1, r, v2, o2, b, ino, n, ok) && Relength(b, c, t) && Sectors(v.geo, n + 1, t)
    ensures CanPut(v2, ino, c) && Outcome(v, o, a, PutInode(v2, ino, c), o2, c, ino, n, ok)
  {
    hide WellFormed, IndOk, MetaStep, MapUpdated, SameMap, SameLeaves, IsInode, Limit, Missing, Addr, BlockTaken,
         OnlyPath, SameIndex, TableOk, PutInode, InodeAt, GrewOne, HoleAtEnd, Sectors, Units, Count, IBlock;
    if ok {
      GrownFile(v, o, a, v1, o1, r, v2, o2, b, ino, n, c, t);
    } else {
      LostBlock(v, o, a, v1, o1, r, v2, o2, b, ino, n, c, t);
      NoHole(PutInode(v2, ino, c), o2, ino, c);
    }
    RecordWritten(v2, o2, ino, c);
    TakenFacts(v, o, v1, r);
    AllocKeepsMap(v, o, v1, r, ino, a, n);
    MetaGeo(v1, o1, v2, o2, ino);
    GrowPath(v, a, v1, v2, o2, b, ino, c, n);
  }

  // ----- growing by any number of blocks -----

  /** A consistent file whose record on disk is the one in hand. */
  ghost predicate AtRest(v: Volume, owner: Owner, ino: nat, inode: Block) {
    FileOk(v, owner, ino, inode) && CanPut(v, ino, inode) && InodeAt(v, ino) == inode && v.geo.P() > 0 && |v.sb| == 1024
  }

  /** Free blocks left once the file has m blocks. */
  ghost function Slack(v: Volume, inode: Block, m: nat): int
    requires IsRecord(inode) && v.geo.P() > 0 && |v.sb| == 1024
  {
    SbFreeBlocks(v.sb) - Need(v.disk, v.geo.P(), inode, Count(v.geo, inode), m)
  }

  /** The file got longer, by zero blocks, and nothing else that can be read changed. */
  ghost predicate Extended(v: Volume, o: Owner, a: Block, v': Volume, o': Owner, b: Block, ino: nat) {
    && AtRest(v', o', ino, b) && IsRecord(a) && v'.geo == v.geo && v.geo.P() > 0 && |v.sb| == 1024
    && ISize(b) == ISize(a) && SameMode(a, b) && Count(v.geo, b) >= Count(v.geo, a)
    && MetaStep(v, o, v', o', ino) && SameBlocks(v, a, v', b, -1)
    && (forall m: nat :: Count(v.geo, b) <= m <= Limit(v.geo.P()) ==> Slack(v', b, m) == Slack(v, a, m))
  }

  lemma ExtendedRefl(v: Volume, o: Owner, a: Block, ino: nat)
    requires AtRest(v, o, ino, a)
    ensures Extended(v, o, a, v, o, a, ino)
  {
    hide FileBlock, Need, Count, IndOk, WellFormed, IsInode, TableOk, Addr, Limit;
    MetaRefl(v, o, ino);
  }

  lemma ExtendedTrans(v: Volume, o: Owner, a: Block, v1: Volume, o1: Owner, b: Block, v2: Volume, o2: Owner, c: Block,
      ino: nat)
    requires Extended(v, o, a, v1, o1, b, ino) && Extended(v1, o1, b, v2, o2, c, ino)
    ensures Extended(v, o, a, v2, o2, c, ino)
  {
    hide FileBlock, Slack, Count, AtRest, MetaStep, Limit, Geometry.P;
    MetaTrans(v, o, v1, o1, v2, o2, ino);
  }

  /** Growing by one block takes exactly its charge. */
  lemma GrewOneExtends(v: Volume, o: Owner, a: Block, v': Volume, o': Owner, b: Block, ino: nat)
    requires AtRest(v, o, ino, a) && Count(v.geo, a) < Limit(v.geo.P())
    requires GrewOne(v, o, a, v', o', b, ino) && OnlyPath(v, a, v', b, Count(v.geo, a))
    requires CanPut(v', ino, b) && InodeAt(v', ino) == b && |v'.sb| == 1024
    requires SbFreeBlocks(v'.sb) == SbFreeBlocks(v.sb) - 1 - Missing(v.disk, v.geo.P(), a, Count(v.geo, a))
    ensures Extended(v, o, a, v', o', b, ino)
  {
    hide FileBlock, Count, WellFormed, IndOk, Addr, OnlyPath, MetaStep, Limit, IsInode, TableOk, InodeAt, Charge,
         Missing, Geometry.P;
    var n := Count(v.geo, a);
    ChargeIsMissing(v, o, ino, a, n);
    forall m: nat | n + 1 <= m <= Limit(v.geo.P())
      ensures Slack(v', b, m) == Slack(v, a, m)
    {
      NeedKept(v, a, v', b, n, n + 1, m);
    }
  }

  /** Enough slack for the whole growth covers its first block. */
  lemma SlackCovers(v: Volume, o: Owner, a: Block, ino: nat, block: nat)
    requires AtRest(v, o, ino, a) && Count(v.geo, a) <= block < Limit(v.geo.P()) && Slack(v, a, block + 1) >= 0
    ensures SbFreeBlocks(v.sb) > Missing(v.disk, v.geo.P(), a, Count(v.geo, a))
  {
    hide FileBlock, WellFormed, IndOk, Addr, Limit, IsInode, TableOk, InodeAt, Charge, Missing, Geometry.P, Count;
    ChargeIsMissing(v, o, ino, a, Count(v.geo, a));
  }

  /** The pass that could not map block n took the last free blocks and left a hole; no other file changed. */
  ghost predicate Holed(v: Volume, o: Owner, v': Volume, o': Owner, c: Block, ino: nat, n: nat) {
    && MetaStep(v, o, v', o', ino) && CanPut(v', ino, c) && InodeAt(v', ino) == c
    && HoleAtEnd(v', c) && Count(v'.geo, c) == n + 1 && v'.geo == v.geo
    && |v'.sb| == 1024 && SbFreeBlocks(v'.sb) == 0
  }

  /** There is no room for the next block of the file and the indirect blocks on its way. */
  ghost predicate NoRoom(v: Volume, b: Block) {
    && IsRecord(b) && v.geo.P() > 0 && |v.sb| == 1024
    && SbFreeBlocks(v.sb) <= Missing(v.disk, v.geo.P(), b, Count(v.geo, b))
  }

  /** Growth of file ino from record a went well up to record b, in volume v1, where there was no room for the next
      block. The next pass changed nothing when no block at all was free, and left a hole otherwise. */
  ghost predicate RanOut(v: Volume, o: Owner, a: Block, v1: Volume, o1: Owner, b: Block, v2: Volume, o2: Owner,
      c: Block, ino: nat, block: nat) {
    && Extended(v, o, a, v1, o1, b, ino) && Count(v1.geo, b) <= block && NoRoom(v1, b)
    && if SbFreeBlocks(v1.sb) == 0 then v2 == v1 && o2 == o1 && c == b
       else Holed(v1, o1, v2, o2, c, ino, Count(v1.geo, b))
  }

  /** A file that there is no room to grow by one block falls short of every longer length. */
  lemma NoRoomShort(v: Volume, o: Owner, a: Block, v1: Volume, o1: Owner, b: Block, ino: nat, block: nat)
    requires Extended(v, o, a, v1, o1, b, ino) && Count(v1.geo, b) <= block < Limit(v1.geo.P()) && NoRoom(v1, b)
    ensures IsRecord(a) && v.geo.P() > 0 && |v.sb| == 1024 && Slack(v, a, block + 1) < 0
  {
    hide FileBlock, WellFormed, IndOk, Addr, Limit, IsInode, TableOk, InodeAt, Missing, Geometry.P, Count, MetaStep,
         SameBlocks, Slack;
    if Slack(v1, b, block + 1) >= 0 {
      SlackCovers(v1, o1, b, ino, block);
    }
  }

  /** A file that reached the length had the room for it. */
  lemma ReachedRoom(v: Volume, o: Owner, a: Block, v1: Volume, o1: Owner, b: Block, ino: nat, block: nat)
    requires Extended(v, o, a, v1, o1, b, ino) && block < Limit(v1.geo.P())
    requires Count(v1.geo, b) == block + 1 || (Count(v1.geo, b) > block && v1 == v && b == a)
    ensures IsRecord(a) && v.geo.P() > 0 && |v.sb| == 1024 && Slack(v, a, block + 1) >= 0
  {
    hide FileBlock, WellFormed, IndOk, Addr, Limit, IsInode, TableOk, InodeAt, Missing, Geometry.P, Count, MetaStep,
         SameBlocks, Charge;
    assert Slack(v1, b, block + 1) == SbFreeBlocks(v1.sb);
  }

  lemma SectorsBelow(geo: Geometry, n: nat, block: nat)
    requires n <= block && (block + 1) * Units(geo) < U32
    ensures (n + 1) * Units(geo) < U32
  {
    hide Units;
    MulLe(n + 1, block + 1, Units(geo));
  }

  // ----- reading and writing one block -----

  lemma MappedReachable(v: Volume, owner: Owner, ino: nat, inode: Block, i: nat)
    requires FileOk(v, owner, ino, inode) && i < Count(v.geo, inode)
    ensures Reachable(v.disk, v.geo.P(), inode, i)
    ensures var a := Addr(v.disk, v.geo.P(), inode, i);
            0 < a < |v.disk| && a in owner && owner[a] == DataRole(ino, i) && FileBlock(v, inode, i) == v.disk[a]
    ensures |v.disk| == v.geo.blocksCount
  {
    hide WellFormed, IsInode, Geometry.P, Count, TableOk, Zeros;
    assert Owns(owner, Addr(v.disk, v.geo.P(), inode, i), DataRole(ino, i));
    ReadyDisk(v, owner);
    if DIRECT_BLOCKS + v.geo.P() <= i {
      DoubleIndex(v.geo.P(), i);
      assert NoneOrOwned(owner, Cell(v.disk, IBlock(inode, 13), LeafOf(v.geo.P(), i)),
             LeafRole(ino, LeafOf(v.geo.P(), i)));
    }
  }

  /** Block x of file ino now reads buf; the file may have grown by zero blocks; nothing else that can be read
      changed. */
  ghost predicate Wrote(v: Volume, o: Owner, a: Block, v': Volume, o': Owner, b: Block, ino: nat, x: nat, buf: Block) {
    && AtRest(v', o', ino, b) && IsRecord(a) && v'.geo == v.geo && v.geo.P() > 0 && |v.sb| == 1024
    && ISize(b) == ISize(a) && SameMode(a, b) && Count(v.geo, b) >= Count(v.geo, a)
    && OnlyFile(v, o, v', o', ino) && SameBlocks(v, a, v', b, x) && FileBlock(v', b, x) == buf
    && (forall m: nat :: Count(v.geo, b) <= m <= Limit(v.geo.P()) ==> Slack(v', b, m) == Slack(v, a, m))
  }

  ghost function PutData(v: Volume, inode: Block, x: nat, buf: Block): Volume
    requires IsRecord(inode) && v.geo.P() > 0 && Addr(v.disk, v.geo.P(), inode, x) < |v.disk|
  {
    v.(disk := v.disk[Addr(v.disk, v.geo.P(), inode, x) := buf])
  }

  lemma PutDataMap(v: Volume, o: Owner, a: Block, ino: nat, x: nat, buf: Block)
    requires AtRest(v, o, ino, a) && x < Count(v.geo, a) && |buf| == v.geo.blockSize
    ensures Addr(v.disk, v.geo.P(), a, x) < |v.disk|
    ensures var v' := PutData(v, a, x, buf);
            && WellFormed(v', o) && OnlyFile(v, o, v', o, ino) && SameIndex(v, a, v', a)
            && AtRest(v', o, ino, a)
  {
    hide WellFormed, IsInode, Geometry.P, Count, TableOk, Zeros, Addr, SameMap, SameLeaves, InodeAt, DiskOk, IndOk,
         Reachable, Limit;
    MappedReachable(v, o, ino, a, x);
    var r := Addr(v.disk, v.geo.P(), a, x);
    var v' := PutData(v, a, x, buf);
    WriteStep(v, o, r, buf, ino);
    ReadyDisk(v, o);
    ExtendsRefl(o);
    assert SamePtrs(v.disk, v'.disk, o, ino);
    MapFrame(v.disk, v'.disk, v.geo.P(), o, o, ino, a);
    MappedFrame(v, o, v', o, ino, a, a, Count(v.geo, a));
    DataKeepsRecord(v, o, v', r, ino);
  }

  lemma DataKeepsRecord(v: Volume, o: Owner, v': Volume, r: nat, ino: nat)
    requires WellFormed(v, o) && TableOk(v) && IsInode(v.geo, ino) && r in o && o[r].DataRole? && r < |v.disk|
    requires exists buf :: |buf| == v.geo.blockSize && v' == v.(disk := v.disk[r := buf])
    ensures TableOk(v') && InodeAt(v', ino) == InodeAt(v, ino)
  {
    PointersRefl(v.bgd);
    assert TableOk(v');
    hide WellFormed, TableOk, IsInode, InodeAt, SamePointers;
    RecordsKept(v, o, v', ino);
  }

  lemma PutDataReads(v: Volume, o: Owner, a: Block, ino: nat, x: nat, buf: Block, i: nat)
    requires AtRest(v, o, ino, a) && x < Count(v.geo, a) && Addr(v.disk, v.geo.P(), a, x) < |v.disk|
    requires SameMap(v.disk, a, PutData(v, a, x, buf).disk, a, v.geo.P())
    ensures FileBlock(PutData(v, a, x, buf), a, i) == if i == x then buf else FileBlock(v, a, i)
  {
    hide WellFormed, IsInode, Geometry.P, Count, TableOk, Zeros, Addr, InodeAt, IndOk, Reachable, Limit;
    MappedReachable(v, o, ino, a, x);
    if i < Count(v.geo, a) {
      MappedReachable(v, o, ino, a, i);
    }
  }

  lemma {:induction false} NeedSame(v: Volume, a: Block, v': Volume, n: nat, m: nat)
    requires IsRecord(a) && v'.geo == v.geo && v.geo.P() > 0 && SameLeaves(v.disk, a, v'.disk, a, v.geo.P(), -1)
             && m <= Limit(v.geo.P())
    ensures Need(v'.disk, v.geo.P(), a, n, m) == Need(v.disk, v.geo.P(), a, n, m)
    decreases m - n
  {
    hide Cell, Geometry.P;
    if n < m {
      NeedSame(v, a, v', n + 1, m);
      if n >= DIRECT_BLOCKS + v.geo.P() {
        DoubleIndex(v.geo.P(), n);
      }
    }
  }

  lemma PutDataWrote(v: Volume, o: Owner, a: Block, ino: nat, x: nat, buf: Block)
    requires AtRest(v, o, ino, a) && x < Count(v.geo, a) && |buf| == v.geo.blockSize
    ensures Addr(v.disk, v.geo.P(), a, x) < |v.disk| && Wrote(v, o, a, PutData(v, a, x, buf), o, a, ino, x, buf)
  {
    hide WellFormed, IsInode, Geometry.P, Count, TableOk, Addr, SameMap, SameLeaves, InodeAt, FileBlock, Need, FileOk,
         OnlyFile, Limit;
    PutDataMap(v, o, a, ino, x, buf);
    var v' := PutData(v, a, x, buf);
    forall i: nat
      ensures FileBlock(v', a, i) == if i == x then buf else FileBlock(v, a, i)
    {
      PutDataReads(v, o, a, ino, x, buf, i);
    }
    forall m: nat | m <= Limit(v.geo.P())
      ensures Slack(v', a, m) == Slack(v, a, m)
    {
      NeedSame(v, a, v', Count(v.geo, a), m);
    }
  }

  lemma ExtendedThenWrote(v: Volume, o: Owner, a: Block, v1: Volume, o1: Owner, b: Block, v2: Volume, o2: Owner,
      c: Block, ino: nat, x: nat, buf: Block)
    requires Extended(v, o, a, v1, o1, b, ino) && Wrote(v1, o1, b, v2, o2, c, ino, x, buf)
    ensures Wrote(v, o, a, v2, o2, c, ino, x, buf)
  {
    hide FileBlock, Slack, Count, AtRest, WellFormed, OnlyFile, DataKept, Limit, Geometry.P;
    OnlyFileTrans(v, o, v1, o1, v2, o2, ino);
  }

  lemma PutDataAddr(v: Volume, o: Owner, a: Block, ino: nat, x: nat, buf: Block)
    requires AtRest(v, o, ino, a) && x < Count(v.geo, a) && |buf| == v.geo.blockSize
             && Addr(v.disk, v.geo.P(), a, x) < |v.disk|
    ensures Addr(PutData(v, a, x, buf).disk, v.geo.P(), a, x) == Addr(v.disk, v.geo.P(), a, x)
  {
    hide WellFormed, Addr, Count, FileOk, OnlyFile;
    PutDataMap(v, o, a, ino, x, buf);
  }
}
