// What the driver does on fresh volumes: it makes the root directory and an
// entry in it, and it runs out of room while a file grows.

module FreshRuns {
  import opened Options
  import opened Bytes
  import opened Volumes
  import opened Allocation
  import AllocatorRuns
  import opened InodeTables
  import opened BlockMaps
  import opened Files
  import opened FileData
  import opened FileBytes
  import opened FileSystem
  import opened Directories
  import opened BlockCaching
  import opened Ext2
  import Mounting
  import opened FreshVolume

  // ----- room -----

  lemma {:induction false} DirectNeed(disk: seq<Block>, p: nat, inode: Block, k: nat, m: nat)
    requires IsRecord(inode) && p > 0 && k <= m <= DIRECT_BLOCKS
    ensures Need(disk, p, inode, k, m) == m - k
    decreases m - k
  {
    if k < m {
      DirectNeed(disk, p, inode, k + 1, m);
    }
  }

  lemma {:induction false} NeedSplit(disk: seq<Block>, p: nat, inode: Block, k: nat, m: nat)
    requires IsRecord(inode) && p > 0 && k <= m
    ensures Need(disk, p, inode, k, m + 1) == Need(disk, p, inode, k, m) + Charge(disk, p, inode, m)
    decreases m - k
  {
    hide Charge;
    if k < m {
      NeedSplit(disk, p, inode, k + 1, m);
    }
  }

  /** What is left of a fresh volume once an empty file has m blocks: each of the first twelve takes one, the next takes
      two. */
  lemma FreshSlack(n: nat, ino: nat, m: nat)
    requires Sized(n) && m <= DIRECT_BLOCKS + 1
    ensures IsRecord(FreshRecord(ino)) && Geo(n).P() > 0 && |Fresh(n).sb| == 1024
              && Count(Geo(n), FreshRecord(ino)) == 0
    ensures Slack(Fresh(n), FreshRecord(ino), m) == n - IN_USE - if m <= DIRECT_BLOCKS then m else m + 1
  {
    hide FreshBgd, FreshSb, FreshBlock, FreshRecord, Geometry.Ok, GetU32, IBlock, IBlocks, ISize, Need;
    var v, z := Fresh(n), FreshRecord(ino);
    Fields(n);
    EmptyFields(ino);
    assert Count(v.geo, z) == 0;
    if m <= DIRECT_BLOCKS {
      DirectNeed(v.disk, v.geo.P(), z, 0, m);
    } else {
      DirectNeed(v.disk, v.geo.P(), z, 0, DIRECT_BLOCKS);
      NeedSplit(v.disk, v.geo.P(), z, 0, DIRECT_BLOCKS);
    }
  }

  lemma FreshRest(n: nat, ino: nat)
    requires Sized(n) && IsInode(Geo(n), ino)
    ensures TableOk(Fresh(n)) && InodeAt(Fresh(n), ino) == FreshRecord(ino)
    ensures FileAt(Fresh(n), FreshOwner(), ino) && AtRest(Fresh(n), FreshOwner(), ino, FreshRecord(ino))
  {
    hide FreshRecord, Fresh, FreshOwner, AtRest, TableOk, InodeAt, ZeroTail;
    EmptyFile(n, ino);
    EmptyRecord(n, ino);
  }

  /** Where growth from a fresh volume stops for want of room. */
  lemma StopsAt(n: nat, ino: nat, v1: Volume, o1: Owner, b: Block)
    requires Sized(n) && Extended(Fresh(n), FreshOwner(), FreshRecord(ino), v1, o1, b, ino)
    requires NoRoom(v1, b) && Count(v1.geo, b) <= DIRECT_BLOCKS && n <= DIRECT_BLOCKS + IN_USE + 1
    ensures Count(v1.geo, b) + SbFreeBlocks(v1.sb) == n - IN_USE
    ensures SbFreeBlocks(v1.sb) == if n == DIRECT_BLOCKS + IN_USE + 1 then 1 else 0
  {
    hide Fresh, FreshOwner, FreshRecord, AtRest, MetaStep, SameBlocks, Count, Cell, IBlock, Geometry.P;
    var k := Count(v1.geo, b);
    FreshSlack(n, ino, k);
    Fields(n);
    assert Slack(v1, b, k) == SbFreeBlocks(v1.sb);
    assert k <= Limit(v1.geo.P());
    assert Slack(v1, b, k) == Slack(Fresh(n), FreshRecord(ino), k);
  }

  lemma SmallGrowth(n: nat)
    requires Sized(n)
    ensures Geo(n).P() > 0 && DIRECT_BLOCKS < Limit(Geo(n).P()) && (DIRECT_BLOCKS + 1) * Units(Geo(n)) < U32
    ensures Geo(n).blockSize == SIZE && IsInode(Geo(n), 1) && IsInode(Geo(n), ROOT) && 1 * Units(Geo(n)) < U32
  {
  }

  /** Growing a file of a fresh volume to thirteen blocks without the fourteen that takes. With thirteen free blocks the
      loop ends and leaves a hole; with fewer it never ends: the file gets all of them and then a pass changes
      nothing. */
  method GrowWithoutRoom(ghost n: nat, dev: array<Block>, nocache: bool)
      returns (fs: Ext2Fs, done: bool, inode: Block)
    requires Sized(n) && n <= DIRECT_BLOCKS + IN_USE + 1 && dev[..] == Fresh(n).disk
    modifies dev
    ensures fs.Mounted() && WellFormed(fs.Vol(), fs.owner) && SbFreeBlocks(fs.sb) == 0
    ensures done <==> n == DIRECT_BLOCKS + IN_USE + 1
    ensures done ==> HoleAtEnd(fs.Vol(), inode) && Count(fs.geo, inode) == DIRECT_BLOCKS + 1
    ensures !done ==> AtRest(fs.Vol(), fs.owner, 1, inode) && Count(fs.geo, inode) == n - IN_USE
  {
    hide Fresh, FreshOwner, FreshRecord, AtRest, Count, HoleAtEnd, WellFormed, Geo, Limit, Slack, BlockCache.Ok,
         BlockCache.Disk, BlockCache.State, Geometry.Ok, Geometry.P, Units, Holds, IsInode, TableOk, InodeAt, NoRoom,
         MetaStep;
    fs := MountFresh(n, dev, nocache);
    SmallGrowth(n);
    FreshDisk(n);
    FreshRest(n, 1);
    FreshSlack(n, 1, DIRECT_BLOCKS + 1);
    var inode0 := fs.ReadInode(1);
    ghost var v1, o1, b;
    done, inode, v1, o1, b := fs.GrowTo(inode0, 1, DIRECT_BLOCKS);
    StopsAt(n, 1, v1, o1, b);
  }

  /** allocate_inode_block reports success and leaves a hole: a file of twelve blocks and one free block. */
  method AllocateHole(dev: array<Block>, nocache: bool, buf: Block)
      returns (fs: Ext2Fs, status: Status, inode: Block)
    requires dev[..] == Fresh(DIRECT_BLOCKS + IN_USE + 1).disk && |buf| == SIZE
    modifies dev
    ensures status == E_SUCCESS && HoleAtEnd(fs.Vol(), inode) && !FileOk(fs.Vol(), fs.owner, 1, inode)
  {
    hide Fresh, FreshOwner, FreshRecord, Count, HoleAtEnd, WellFormed, Geo, Limit, BlockCache.Ok, BlockCache.Disk,
         BlockCache.State, Geometry.Ok, Geometry.P, Units, Holds, IsInode, TableOk, InodeAt, MetaStep, FileOk,
         SameBlocks, OnlyFile, Slack;
    ghost var n := DIRECT_BLOCKS + IN_USE + 1;
    fs := MountFresh(n, dev, nocache);
    SmallGrowth(n);
    FreshDisk(n);
    FreshRest(n, 1);
    FreshSlack(n, 1, DIRECT_BLOCKS);
    FreshSlack(n, 1, DIRECT_BLOCKS + 1);
    var inode0 := fs.ReadInode(1);
    FileData.SectorsBelow(fs.geo, DIRECT_BLOCKS - 1, DIRECT_BLOCKS);
    var _, b := fs.InodeWriteBlock(inode0, 1, DIRECT_BLOCKS - 1, buf);
    LastOne(n, fs.Vol(), fs.owner, b, buf);
    status, inode := fs.AllocateInodeBlock(b, 1, DIRECT_BLOCKS);
  }

  /** Twelve blocks of the thirteen are taken, and the next needs an indirect block besides. */
  lemma LastOne(n: nat, v: Volume, o: Owner, b: Block, buf: Block)
    requires n == DIRECT_BLOCKS + IN_USE + 1 && Sized(n)
    requires Wrote(Fresh(n), FreshOwner(), FreshRecord(1), v, o, b, 1, DIRECT_BLOCKS - 1, buf)
             && Count(Geo(n), b) == DIRECT_BLOCKS
    ensures FileOk(v, o, 1, b) && WellFormed(v, o) && IsRecord(b) && v.geo == Geo(n) && v.geo.P() > 0 && |v.sb| == 1024
    ensures SbFreeBlocks(v.sb) == 1 == Missing(v.disk, v.geo.P(), b, DIRECT_BLOCKS)
  {
    hide Fresh, FreshOwner, FreshRecord, WellFormed, Count, Charge, Missing, OnlyFile, SameBlocks, FileBlock, IndOk,
         CanPut, InodeAt, Geo, Limit, Geometry.P, IsInode, Addr;
    SmallGrowth(n);
    FreshDisk(n);
    FreshSlack(n, 1, DIRECT_BLOCKS);
    FreshSlack(n, 1, DIRECT_BLOCKS + 1);
    assert Slack(v, b, DIRECT_BLOCKS) == SbFreeBlocks(v.sb);
    assert Slack(v, b, DIRECT_BLOCKS) == Slack(Fresh(n), FreshRecord(1), DIRECT_BLOCKS);
    assert Slack(v, b, DIRECT_BLOCKS + 1) == Slack(Fresh(n), FreshRecord(1), DIRECT_BLOCKS + 1);
    assert Need(v.disk, v.geo.P(), b, DIRECT_BLOCKS, DIRECT_BLOCKS + 1) == Charge(v.disk, v.geo.P(), b, DIRECT_BLOCKS);
    ChargeIsMissing(v, o, 1, b, DIRECT_BLOCKS);
  }

  // ----- inodes -----

  lemma NoInodeUsed(n: nat, m: nat)
    requires Sized(n) && 0 < m <= INODES
    ensures !InodeUsed(Fresh(n), m)
  {
    hide FreshBgd, FreshSb, GetU32;
    Fields(n);
    assert (m - 1) / INODES == 0 && (m - 1) % INODES == m - 1;
    NoBits((m - 1) % 8);
  }

  /** The inodes up to i and no others are in use, and the superblock counts the rest. */
  ghost predicate InodesUpTo(v: Volume, n: nat, i: nat) {
    && v.geo == Geo(n) && |v.sb| == 1024 && i <= INODES && SbFreeInodes(v.sb) == INODES - i
    && forall m :: 0 < m <= INODES ==> (InodeUsed(v, m) <==> m <= i)
  }

  lemma NextInode(v: Volume, o: Owner, n: nat, i: nat, v': Volume, r: nat)
    requires InodesUpTo(v, n, i) && InodeTaken(v, o, v', r) && forall m :: 0 < m < r ==> InodeUsed(v, m)
    ensures r == i + 1 && InodesUpTo(v', n, i + 1)
  {
    hide InodeUsed, Used, SamePointers, Geo;
    assert InodesCount(Geo(n)) == INODES by { GeoInodes(n); }
    var next: nat := i + 1;
    assert next <= INODES ==> !InodeUsed(v, next);
  }

  lemma GeoInodes(n: nat)
    ensures InodesCount(Geo(n)) == INODES
  {
  }

  method TakeNextInode(fs: Ext2Fs, ghost n: nat, ghost i: nat) returns (r: nat)
    requires fs.Mounted() && WellFormed(fs.Vol(), fs.owner) && InodesUpTo(fs.Vol(), n, i) && i < INODES
    modifies fs, fs.cache, fs.cache.device, fs.cache.entries
    ensures fs.Mounted() && WellFormed(fs.Vol(), fs.owner)
    ensures r == i + 1 && InodesUpTo(fs.Vol(), n, i + 1) && (InTable(fs.geo, r) <==> r % fs.geo.inodesPerGroup != 0)
  {
    hide WellFormed, Geo, BlockCache.Ok, BlockCache.Disk, BlockCache.State, InodesUpTo, InodeUsed, InodeTaken, InTable,
         AllocatorRuns.InodeStep, Geometry.Ok;
    ghost var v, o := fs.Vol(), fs.owner;
    StillFree(v, n, i);
    r := fs.AllocateInode();
    NextInode(v, o, n, i, fs.Vol(), r);
  }

  /** allocate_inode hands out the numbers of a fresh volume in order, up to the last, which cannot be looked up. */
  method TakeEveryInode(ghost n: nat, dev: array<Block>, nocache: bool) returns (fs: Ext2Fs, last: nat)
    requires Sized(n) && dev[..] == Fresh(n).disk
    modifies dev
    ensures fs.Mounted() && fs.geo == Geo(n) && last == INODES && InodesUpTo(fs.Vol(), n, INODES)
              && !InTable(fs.geo, last)
  {
    hide Fresh, FreshOwner, WellFormed, Holds, Geo, BlockCache.Ok, BlockCache.Disk, BlockCache.State, InodesUpTo,
         InTable, Geometry.Ok, Mounting.Described;
    fs := MountFresh(n, dev, nocache);
    FreshDisk(n);
    FreshInodes(n);
    GeoSizes(n);
    last := 0;
    for i := 0 to INODES
      invariant fs.Mounted() && WellFormed(fs.Vol(), fs.owner) && fs.geo == Geo(n)
      invariant InodesUpTo(fs.Vol(), n, i) && last == i
                && (last > 0 ==> (InTable(fs.geo, last) <==> last % INODES != 0))
    {
      last := TakeNextInode(fs, n, i);
    }
  }

  lemma FreshInodes(n: nat)
    requires Sized(n)
    ensures InodesUpTo(Fresh(n), n, 0)
  {
    hide InodeUsed, FreshBgd, FreshSb, FreshBlock;
    Fields(n);
    forall m | 0 < m <= INODES
      ensures !InodeUsed(Fresh(n), m)
    {
      NoInodeUsed(n, m);
    }
  }

  lemma StillFree(v: Volume, n: nat, i: nat)
    requires InodesUpTo(v, n, i) && i < INODES
    ensures |v.sb| == 1024 && SbFreeInodes(v.sb) > 0
  {
    hide InodeUsed;
  }

  lemma GeoSizes(n: nat)
    ensures Geo(n).inodesPerGroup == INODES && Geo(n).blockSize == SIZE
  {
  }

  // ----- the root directory -----

  const DOT := 46

  /** The block of a directory with the records "." and "..", as mkdir_ext2 writes it, for the root. */
  function DotBlock(): Block {
    Zeros(SIZE)[0 := ROOT][4 := 12][6 := 1][8 := DOT][12 := ROOT][16 := 244][17 := 7][18 := 2][20 := DOT][21 := DOT]
  }

  const DOTS := [Dirent(ROOT, [DOT]), Dirent(ROOT, [DOT, DOT])]

  lemma DotRecords()
    ensures RecordOk(DotBlock(), 0) && RecLen(DotBlock(), 0) == 12 && Entry(DotBlock(), 0) == Dirent(ROOT, [DOT])
    ensures RecordOk(DotBlock(), 12) && RecLen(DotBlock(), 12) == SIZE - 12
              && Entry(DotBlock(), 12) == Dirent(ROOT, [DOT, DOT])
    ensures Tight(DotBlock(), 12) == 12
  {
  }

  lemma DotTiles()
    ensures Tiles(DotBlock(), 0) && Entries(DotBlock(), 0) == DOTS && LastRecord(DotBlock(), 0) == 12
  {
    hide RecordOk, RecLen, Entry;
    DotRecords();
    var d := DotBlock();
    assert Tiles(d, SIZE) && Entries(d, SIZE) == [];
    assert Tiles(d, 12) && Entries(d, 12) == [Entry(d, 12)] && LastRecord(d, 12) == 12;
  }

  /** A one-block directory that holds them is tiled, lists them, and has slack for every name. */
  lemma DotDirectory(v: Volume, inode: Block, name: Block)
    requires IsRecord(inode) && v.geo.P() > 0 && v.geo.blockSize == SIZE && ISize(inode) == SIZE
             && Count(v.geo, inode) >= 1
    requires FileBlock(v, inode, 0) == DotBlock() && |name| < 256
    ensures DirOk(v, inode) && Listing(v, inode) == DOTS && HasSlack(v, inode) && Fits(v, inode, name)
  {
    hide FileBlock, Count, ISize, DotBlock, Tiles, Entries, LastRecord, RecordOk, RecLen, Tight;
    DotTiles();
    DotRecords();
    assert |DotBlock()| == SIZE by { DotSize(); }
    assert DirLen(v.geo, inode) == 1;
    assert ListFrom(v, inode, 1) == [];
    assert Listing(v, inode) == DOTS + [];
  }

  lemma DotSize()
    ensures |DotBlock()| == SIZE
  {
  }

  lemma NotADot(name: Block)
    requires name != [DOT] && name != [DOT, DOT]
    ensures FindLive(DOTS, name) == None
  {
    FindStep(DOTS, name);
    FindStep(DOTS[1..], name);
  }

  lemma RoomForOne(n: nat, v: Volume, o: Owner, b: Block)
    requires Sized(n) && WroteBytes(Fresh(n), FreshOwner(), FreshRecord(ROOT), v, o, b, ROOT, 0, [])
    ensures AtRest(v, o, ROOT, b) && IsRecord(b) && v.geo == Geo(n) && v.geo.P() > 0 && |v.sb| == 1024
              && Slack(v, b, 1) >= 0
  {
    hide Fresh, FreshOwner, FreshRecord, Count, FileByte, OnlyFile, FileOk, CanPut, InodeAt, Geo, Geometry.P, SameMode,
         Slack;
    FreshSlack(n, ROOT, 1);
    FreshDisk(n);
    SmallGrowth(n);
    WroteFacts(Fresh(n), FreshOwner(), FreshRecord(ROOT), v, o, b, ROOT, 0, []);
    RestSlot(v, o, ROOT, b);
    if Count(v.geo, b) <= 1 {
      assert Slack(v, b, 1) == Slack(Fresh(n), FreshRecord(ROOT), 1);
    } else {
      NoNeed(v, b);
    }
  }

  lemma NoNeed(v: Volume, b: Block)
    requires IsRecord(b) && v.geo.P() > 0 && |v.sb| == 1024 && Count(v.geo, b) > 1
    ensures Slack(v, b, 1) >= 0
  {
  }

  lemma StillDir(n: nat, v: Volume, o: Owner, b: Block)
    requires Sized(n) && WroteBytes(Fresh(n), FreshOwner(), FreshRecord(ROOT), v, o, b, ROOT, 0, []) && IsRecord(b)
    ensures IsDir(b)
  {
    hide Fresh, FreshOwner, FreshRecord, Count, FileByte, OnlyFile, AtRest, Slack, Geo, Geometry.P;
    EmptyFields(ROOT);
  }

  lemma SameDir(v: Volume, o: Owner, a: Block, v': Volume, o': Owner, b: Block, buf: Block)
    requires Wrote(v, o, a, v', o', b, ROOT, 0, buf) && IsRecord(a) && IsDir(a)
    ensures IsRecord(b) && IsDir(b) && ISize(b) == ISize(a) && FileAt(v', o', ROOT) && InodeAt(v', ROOT) == b
    ensures v'.geo == v.geo && FileBlock(v', b, 0) == buf
  {
    hide FileOk, OnlyFile, SameBlocks, FileBlock, Slack, Count, TableOk, InodeAt;
  }

  /** The root directory is made as mkdir_ext2 makes one: its size is set and its block is written. */
  method MakeRoot(ghost n: nat, dev: array<Block>, nocache: bool) returns (fs: Ext2Fs)
    requires Sized(n) && dev[..] == Fresh(n).disk
    modifies dev
    ensures fresh(fs) && fresh(fs.cache) && fresh(fs.cache.entries) && fs.cache.device == dev
    ensures fs.Mounted() && FileAt(fs.Vol(), fs.owner, ROOT) && IsDir(InodeAt(fs.Vol(), ROOT))
    ensures DirOk(fs.Vol(), InodeAt(fs.Vol(), ROOT)) && Listing(fs.Vol(), InodeAt(fs.Vol(), ROOT)) == DOTS
    ensures HasSlack(fs.Vol(), InodeAt(fs.Vol(), ROOT))
    ensures forall name: Block :: |name| < 256 ==> Fits(fs.Vol(), InodeAt(fs.Vol(), ROOT), name)
  {
    hide Fresh, FreshOwner, FreshRecord, Count, WellFormed, Geo, Limit, BlockCache.Ok, BlockCache.Disk,
         BlockCache.State, Geometry.Ok, Geometry.P, Units, Holds, IsInode, TableOk, InodeAt, SameBlocks, OnlyFile,
         Slack, DirOk, HasSlack, Fits, Listing, DotBlock, IsDir, AtRest, WroteBytes, Wrote, FileBlock;
    fs := MountFresh(n, dev, nocache);
    SmallGrowth(n);
    FreshDisk(n);
    FreshRest(n, ROOT);
    EmptyFields(ROOT);
    DotSize();
    var inode := fs.ReadInode(ROOT);
    inode := fs.Resize(inode, ROOT, 0, SIZE);
    RoomForOne(n, fs.Vol(), fs.owner, inode);
    StillDir(n, fs.Vol(), fs.owner, inode);
    ghost var v, o := fs.Vol(), fs.owner;
    var _, b := fs.InodeWriteBlock(inode, ROOT, 0, DotBlock());
    SameDir(v, o, inode, fs.Vol(), fs.owner, b, DotBlock());
    DotDirectory(fs.Vol(), b, []);
    forall name: Block | |name| < 256
      ensures Fits(fs.Vol(), b, name)
    {
      DotDirectory(fs.Vol(), b, name);
    }
  }

  /** On a fresh volume: the root directory is made, an entry is added to it, and the entry is found. create_entry
      reports a failure all the same. */
  method AddAndFind(ghost n: nat, dev: array<Block>, nocache: bool, name: Block, ino: nat)
    returns (status: Status, found: Option<Dirent>)
    requires Sized(n) && dev[..] == Fresh(n).disk && 0 < ino < U32
    requires |name| < 256 && name != [DOT] && name != [DOT, DOT]
    modifies dev
    ensures status == E_NOSPACE && found == Some(Dirent(ino, name))
  {
    hide Fresh, FreshOwner, FreshRecord, Count, WellFormed, Geo, Limit, BlockCache.Ok, BlockCache.Disk,
         BlockCache.State, Geometry.Ok, Geometry.P, Units, Holds, IsInode, TableOk, InodeAt, SameBlocks, OnlyFile,
         Slack, DirOk, HasSlack, Fits, Listing, DotBlock, IsDir, FileContents, FindLive, AtRest, WroteBytes, Wrote;
    var fs := MakeRoot(n, dev, nocache);
    status := fs.CreateEntry(ROOT, Text(name), ino);
    found := fs.FindDir(ROOT, name);
    NotADot(name);
    FindAfterAppend(DOTS, Dirent(ino, name), name);
  }
}
