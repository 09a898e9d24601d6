// The ext2 driver object: the block cache, the group descriptors and the
// superblock kept in memory, and the operations that change them in place.

module Ext2 {
  import opened Options
  import opened Bytes
  import opened Bitmap
  import opened Volumes
  import opened Allocation
  import AllocatorRuns
  import opened InodeTables
  import opened BlockMaps
  import opened Files
  import opened FileData
  import opened FileBytes
  import opened FileSystem
  import opened Directories
  import opened BlockCaching

  /** malloc: a buffer of the given length with unspecified contents. */
  method Malloc(n: nat) returns (buf: Block)
    ensures |buf| == n
  {
    buf := Zeros(n);
  }

  class Ext2Fs {
    const geo: Geometry
    const cache: BlockCache
    var bgd: Block
    var sb: Block
    ghost var owner: Owner  // what every block in use is used for

    ghost predicate Mounted()
      reads this, cache, cache.device, cache.entries
    {
      && geo.Ok() && cache.Ok()
      && cache.blockSize == geo.blockSize && cache.device.Length == geo.blocksCount
      && |bgd| == geo.blockSize * geo.bgdSpan && |sb| == 1024
    }

    ghost function Vol(): Volume
      reads this, cache, cache.device, cache.entries
    {
      Volume(geo, cache.Disk(), bgd, sb)
    }

    /** mount_ext2 after the geometry is known: load the superblock and the descriptor table. A disk that holds a
        consistent volume is mounted as that volume. */
    constructor (c: BlockCache, g: Geometry, ghost o: Owner)
      requires g.Ok() && c.Ok() && c.blockSize == g.blockSize && c.device.Length == g.blocksCount
      requires |c.device[0]| >= 2048
      modifies c, c.device, c.entries
      ensures Mounted() && geo == g && cache == c && fresh(this)
      ensures Vol().disk == old(c.Disk()) && owner == o
      ensures sb == old(c.device[0])[1024..2048]
      ensures forall i :: 0 <= i < geo.bgdSpan ==> BgdBlock(geo, bgd, i) == Vol().disk[BGD_OFFSET + i]
      ensures forall v :: WellFormed(v, o) && v.geo == g && v.disk == old(c.Disk()) ==> Vol() == v
    {
      geo := g;
      cache := c;
      bgd := Zeros(g.blockSize * g.bgdSpan);
      sb := c.device[0][1024..2048];
      owner := o;
      new;
      LoadDescriptors();
      MountedShape();
      assert Vol().disk[0] == old(c.device[0]);
      OnlyVolume(Vol(), o);
    }

    method LoadDescriptors()
      requires Mounted()
      modifies this`bgd, cache, cache.device, cache.entries
      ensures Mounted() && Vol().disk == old(Vol()).disk
      ensures forall i :: 0 <= i < geo.bgdSpan ==> BgdBlock(geo, bgd, i) == Vol().disk[BGD_OFFSET + i]
    {
      hide BlockCache.Ok, BlockCache.Disk, BlockCache.State, BgdBlock;
      MountedShape();
      for i := 0 to geo.bgdSpan
        invariant Mounted() && Vol().disk == old(Vol()).disk
        invariant forall j :: 0 <= j < i ==> BgdBlock(geo, bgd, j) == Vol().disk[BGD_OFFSET + j]
      {
        LoadBgd(i);
      }
    }

    method LoadBgd(i: nat)
      requires Mounted() && i < geo.bgdSpan
      modifies this`bgd, cache, cache.device, cache.entries
      ensures Mounted() && Vol().disk == old(Vol()).disk
      ensures BgdBlock(geo, bgd, i) == Vol().disk[BGD_OFFSET + i]
      ensures forall j :: 0 <= j < i ==> BgdBlock(geo, bgd, j) == BgdBlock(geo, old(bgd), j)
    {
      MountedShape();
      hide BlockCache.Ok, BlockCache.Disk, BlockCache.State, PutBgdBlock, BgdBlock;
      var buf := Malloc(geo.blockSize);
      var _, b := ReadBlock(BGD_OFFSET + i, buf);
      bgd := PutBgdBlock(geo, bgd, i, b);
    }

    lemma MountedShape()
      requires Mounted()
      ensures Shape(Vol())
    {
      var c := cache.State();
      assert forall i :: 0 <= i < |c.entries| ==> CacheSpec.EntryOk(c, c.entries[i]);
    }

    lemma MountedSize()
      requires Mounted()
      ensures geo.blockSize > 0 && Vol().geo == geo
    {
    }

    lemma MountedOk()
      requires Mounted()
      ensures geo.Ok() && Vol().geo == geo
    {
    }

    lemma MountedRange(offset: nat, end: nat, x: nat)
      requires Mounted() && geo.blockSize > 0
      requires offset <= end < U32 && x <= LastBlock(geo, offset, end) < Limit(geo.P())
      ensures Addressable(geo, x) && Vol().geo == geo
    {
      RangeAddressable(geo, offset, end, x);
      hide Geometry.Ok, LastBlock, Limit, Addressable;
    }

    method ReadBlock(n: nat, dst: Block) returns (status: Status, buf: Block)
      requires Mounted() && n < geo.blocksCount
      modifies cache, cache.device, cache.entries
      ensures Mounted() && Vol() == old(Vol())
      ensures if n == 0 then status == E_BADBLOCK && buf == dst
              else status == E_SUCCESS && buf == Vol().disk[n]
    {
      hide BlockCache.Ok, BlockCache.Disk, BlockCache.State, Geometry.Ok;
      status, buf := cache.ReadBlock(n, dst);
    }

    method WriteBlock(n: nat, buf: Block) returns (status: Status)
      requires Mounted() && n < geo.blocksCount && |buf| == geo.blockSize
      modifies cache, cache.device, cache.entries
      ensures Mounted() && n < |old(Vol()).disk|
      ensures if n == 0 then status == E_BADBLOCK && Vol() == old(Vol())
              else status == E_SUCCESS && Vol() == old(Vol()).(disk := old(Vol()).disk[n := buf])
    {
      MountedShape();
      hide BlockCache.Ok, BlockCache.State, Geometry.Ok;
      status := cache.WriteBlock(n, buf);
    }

    /** Writes the in-memory descriptor table back to its blocks. */
    method WriteDescriptors()
      requires Mounted()
      modifies cache, cache.device, cache.entries
      ensures Mounted() && Vol() == old(Vol()).(disk := StoreBgd(old(Vol()).disk, geo, bgd))
    {
      hide BlockCache.Ok, BlockCache.Disk, BlockCache.State, BgdBlock, StoreBgd;
      MountedShape();
      ghost var d := Vol().disk;
      for i := 0 to geo.bgdSpan
        invariant Mounted() && Vol().geo == geo && Vol().bgd == bgd && Vol().sb == sb && |Vol().disk| == |d|
        invariant forall b :: 0 <= b < |d| ==>
                    Vol().disk[b] ==
                      if BGD_OFFSET <= b < BGD_OFFSET + i then BgdBlock(geo, bgd, b - BGD_OFFSET) else d[b]
      {
        var _ := WriteBlock(BGD_OFFSET + i, BgdBlock(geo, bgd, i));
      }
      assert Vol().disk == StoreBgd(d, geo, bgd);
    }

    method RewriteSuperblock()
      requires Mounted()
      modifies cache.device
      ensures Mounted() && |old(Vol()).disk| > 0 && |old(Vol()).disk[0]| >= 2048
      ensures Vol() == old(Vol()).(disk := old(Vol()).disk[0 := Splice(old(Vol()).disk[0], 1024, sb)])
    {
      MountedShape();
      hide BlockCache.Ok, BlockCache.State, Splice;
      cache.RewriteSuperblock(sb);
    }

    /** ext2_sync: afterwards the device holds what the driver sees. */
    method Sync()
      requires Mounted()
      modifies cache.device, cache.entries
      ensures Mounted() && Vol() == old(Vol()) && cache.device[..] == Vol().disk
    {
      hide BlockCache.Ok, BlockCache.Disk, BlockCache.State, Geometry.Ok;
      cache.Sync();
    }

    /** The search of allocate_block: the first group with a free block and its first clear bit. */
    method FindFreeBlock() returns (found: bool, g: nat, k: nat, bitmap: Block)
      requires Mounted() && WellFormed(Vol(), owner)
      modifies cache, cache.device, cache.entries
      ensures Mounted() && Vol() == old(Vol())
      ensures found <==> SbFreeBlocks(sb) > 0
      ensures found ==> FreeBit(Vol(), owner, g, k) && bitmap == Vol().disk[BlockBitmap(bgd, g)]
      ensures found ==> forall b :: 0 <= b < BlockNo(geo, g, k) ==> Used(Vol(), b)
    {
      hide BlockCache.Ok, BlockCache.Disk, BlockCache.State, WellFormed, BlockCount, Used, Geometry.GroupBlocks;
      MountedShape();
      found, g, k := false, 0, 0;
      bitmap := Malloc(geo.blockSize);
      while g < geo.groups
        invariant 0 <= g <= geo.groups && Mounted() && Vol() == old(Vol())
        invariant forall j :: 0 <= j < g ==> FreeBlocks(bgd, j) == 0
      {
        if FreeBlocks(bgd, g) > 0 {
          k, bitmap := ScanGroup(g, bitmap);
          LeastFree(Vol(), owner, g, k);
          SumAtLeast(bgd, g, geo.groups);
          FreeTotal(Vol(), owner);
          return true, g, k, bitmap;
        }
        g := g + 1;
      }
      SumOfNone(bgd, geo.groups);
      FreeTotal(Vol(), owner);
    }

    method ScanGroup(g: nat, dst: Block) returns (k: nat, bitmap: Block)
      requires Mounted() && WellFormed(Vol(), owner) && g < geo.groups && FreeBlocks(bgd, g) > 0
      modifies cache, cache.device, cache.entries
      ensures Mounted() && Vol() == old(Vol())
      ensures FreeBit(Vol(), owner, g, k) && bitmap == Vol().disk[BlockBitmap(bgd, g)]
      ensures forall j :: 0 <= j < k ==> Bit(bitmap, j)
    {
      hide BlockCache.Ok, BlockCache.Disk, BlockCache.State, Geometry.Ok, Geometry.GroupBlocks, WellFormed, FreeBit,
           Bit, ClearBits;
      BitmapToScan(Vol(), owner, g);
      var _, b := ReadBlock(BlockBitmap(bgd, g), dst);
      bitmap := b;
      k := FirstClear(bitmap, geo.GroupBlocks(g));
    }

    /** The write-back shared by both allocators: the bitmap, the descriptors, the superblock. */
    method CommitBit(bm: nat, bitmap: Block, newBgd: Block, newSb: Block, ghost k: nat)
      requires Mounted() && Recountable(Vol(), bm, k, newBgd, newSb) && bm != 0
      requires bitmap == SetBit(Vol().disk[bm], k)
      modifies this`bgd, this`sb, cache, cache.device, cache.entries
      ensures Mounted() && Vol() == TakeBit(old(Vol()), bm, k, newBgd, newSb)
    {
      hide BlockCache.Ok, BlockCache.Disk, BlockCache.State, Geometry.Ok, SetBit, StoreBgd, Splice, SamePointers;
      MountedShape();
      assert |newBgd| == |bgd| by { SameLength(bgd, newBgd); }
      var _ := WriteBlock(bm, bitmap);
      bgd := newBgd;
      WriteDescriptors();
      sb := newSb;
      RewriteSuperblock();
    }

    method AllocateBlock(ghost role: Role) returns (blockNo: nat)
      requires Mounted() && WellFormed(Vol(), owner)
      modifies this, cache, cache.device, cache.entries
      ensures Mounted() && WellFormed(Vol(), owner)
      ensures blockNo == 0 <==> SbFreeBlocks(old(sb)) == 0
      ensures blockNo == 0 ==> Vol() == old(Vol()) && owner == old(owner)
      ensures blockNo != 0 ==> BlockTaken(old(Vol()), old(owner), Vol(), blockNo)
      ensures blockNo != 0 ==> owner == old(owner)[blockNo := role]
      ensures blockNo != 0 ==> forall b :: 0 <= b < blockNo ==> Used(old(Vol()), b)
      ensures AllocatorRuns.BlockStep(State(old(Vol()), old(owner)), blockNo, role, State(Vol(), owner))
    {
      hide BlockCache.Ok, BlockCache.Disk, BlockCache.State, Geometry.Ok, WellFormed, FreeBit, BlockTaken, Used,
           TakeBit, SetBit, Zeros, BlockNo, TakeFromGroup, SbTake, Recountable, AllocatorRuns.BlockStep;
      ghost var s := State(Vol(), owner);
      var found, group, offset, bitmap := FindFreeBlock();
      if !found {
        AllocatorRuns.NoStep(s, role);
        return 0;
      }
      ghost var v := Vol();
      TakeBlockReady(v, owner, group, offset);
      TakenIsFresh(v, owner, group, offset);
      TakeBlockEffect(v, owner, group, offset);
      TakeBlockKeeps(v, owner, group, offset, role);
      BitmapToTake(v, owner, group, offset);

      blockNo := BlockNo(geo, group, offset);
      bitmap := SetBit(bitmap, offset);
      CommitBit(BlockBitmap(bgd, group), bitmap, TakeFromGroup(bgd, group, 12), SbTake(sb, 12), offset);
      var _ := WriteBlock(blockNo, Zeros(geo.blockSize));
      assert Vol() == TakeBlock(v, owner, group, offset);
      owner := owner[blockNo := role];
      AllocatorRuns.BlockStepBy(s, group, offset, role, State(Vol(), owner));
    }

    method ScanInodes(g: nat, dst: Block) returns (k: nat, bitmap: Block)
      requires Mounted() && WellFormed(Vol(), owner) && g < geo.groups && FreeInodes(bgd, g) > 0
      modifies cache, cache.device, cache.entries
      ensures Mounted() && Vol() == old(Vol())
      ensures FreeInodeBit(Vol(), owner, g, k) && bitmap == Vol().disk[InodeBitmap(bgd, g)]
      ensures forall j :: 0 <= j < k ==> Bit(bitmap, j)
    {
      hide BlockCache.Ok, BlockCache.Disk, BlockCache.State, Geometry.Ok, WellFormed, FreeInodeBit, Bit, ClearBits;
      InodeBitmapToScan(Vol(), owner, g);
      var _, b := ReadBlock(InodeBitmap(bgd, g), dst);
      bitmap := b;
      k := FirstClear(bitmap, geo.inodesPerGroup);
    }

    /** The search of allocate_inode. */
    method FindFreeInode() returns (found: bool, g: nat, k: nat, bitmap: Block)
      requires Mounted() && WellFormed(Vol(), owner)
      modifies cache, cache.device, cache.entries
      ensures Mounted() && Vol() == old(Vol())
      ensures found <==> SbFreeInodes(sb) > 0
      ensures found ==> FreeInodeBit(Vol(), owner, g, k) && bitmap == Vol().disk[InodeBitmap(bgd, g)]
      ensures found ==> forall m :: 0 < m < InodeNo(geo, g, k) ==> InodeUsed(Vol(), m)
    {
      hide BlockCache.Ok, BlockCache.Disk, BlockCache.State, WellFormed, InodeCount, FreeInodeBit, InodeUsed, InodeNo;
      MountedShape();
      found, g, k := false, 0, 0;
      bitmap := Malloc(geo.blockSize);
      while g < geo.groups
        invariant 0 <= g <= geo.groups && Mounted() && Vol() == old(Vol())
        invariant forall j :: 0 <= j < g ==> FreeInodes(bgd, j) == 0
      {
        if FreeInodes(bgd, g) > 0 {
          k, bitmap := ScanInodes(g, bitmap);
          LeastFreeInode(Vol(), owner, g, k);
          SumAtLeast(bgd, g, geo.groups);
          FreeTotal(Vol(), owner);
          return true, g, k, bitmap;
        }
        g := g + 1;
      }
      SumOfNone(bgd, geo.groups);
      FreeTotal(Vol(), owner);
    }

    method AllocateInode() returns (nodeNo: nat)
      requires Mounted() && WellFormed(Vol(), owner)
      modifies this, cache, cache.device, cache.entries
      ensures Mounted() && WellFormed(Vol(), owner) && owner == old(owner)
      ensures nodeNo == 0 <==> SbFreeInodes(old(sb)) == 0
      ensures nodeNo == 0 ==> Vol() == old(Vol())
      ensures nodeNo != 0 ==> InodeTaken(old(Vol()), owner, Vol(), nodeNo)
      ensures nodeNo != 0 ==> forall m :: 0 < m < nodeNo ==> InodeUsed(old(Vol()), m)
      ensures AllocatorRuns.InodeStep(State(old(Vol()), owner), nodeNo, State(Vol(), owner))
      ensures nodeNo != 0 ==> (InTable(geo, nodeNo) <==> nodeNo % geo.inodesPerGroup != 0)
    {
      hide BlockCache.Ok, BlockCache.Disk, BlockCache.State, Geometry.Ok, WellFormed, FreeInodeBit, InodeTaken, TakeBit,
           SetBit, TakeFromGroup, SbTake, Recountable, AllocatorRuns.InodeStep, InTable, InodeNo, InodeUsed;
      ghost var s := State(Vol(), owner);
      var found, group, offset, bitmap := FindFreeInode();
      if !found {
        AllocatorRuns.NoStep(s, SuperRole);
        return 0;
      }
      ghost var v := Vol();
      TakeInodeReady(v, owner, group, offset);
      TakeInodeEffect(v, owner, group, offset);
      TakeInodeKeeps(v, owner, group, offset);
      InodeBitmapToTake(v, owner, group, offset);

      nodeNo := InodeNo(geo, group, offset);
      bitmap := SetBit(bitmap, offset);
      CommitBit(InodeBitmap(bgd, group), bitmap, TakeFromGroup(bgd, group, 14), SbTake(sb, 16), offset);
      assert Vol() == TakeInode(v, owner, group, offset);
      AllocatorRuns.InodeStepBy(s, group, offset, State(Vol(), owner));
      TakenAddressed(v, owner, Vol(), nodeNo);
    }

    // ----- inode records -----

    method WriteInode(inode: Block, ino: nat) returns (status: Status)
      requires Mounted() && TableOk(Vol()) && |inode| == geo.inodeSize
      requires IsInode(geo, ino) || ino / geo.inodesPerGroup > geo.groups
      modifies cache, cache.device, cache.entries
      ensures Mounted()
      ensures if ino / geo.inodesPerGroup > geo.groups then status == E_BADBLOCK && Vol() == old(Vol())
              else status == E_SUCCESS && Vol() == PutInode(old(Vol()), ino, inode)
    {
      hide BlockCache.Ok, BlockCache.Disk, BlockCache.State, BlockOffset, OffsetInBlock, SlotBlock, SlotByte, TableOk,
           Geometry.InodesPerBlock;
      var group := Group(geo, ino);
      if group > geo.groups {
        return E_BADBLOCK;
      }
      SlotAddress(Vol(), ino);
      var tableBlock := InodeTable(bgd, group);
      var blockOffset := BlockOffset(geo, ino);
      var offsetInBlock := OffsetInBlock(geo, ino);
      var buf := Malloc(geo.blockSize);
      var _, table := ReadBlock(tableBlock + blockOffset, buf);
      table := Splice(table, offsetInBlock * geo.inodeSize, inode);
      var _ := WriteBlock(tableBlock + blockOffset, table);
      return E_SUCCESS;
    }

    method RefreshInode(inodet: Block, ino: nat) returns (inode: Block)
      requires Mounted() && TableOk(Vol()) && |inodet| == geo.inodeSize
      requires IsInode(geo, ino) || ino / geo.inodesPerGroup > geo.groups
      modifies cache, cache.device, cache.entries
      ensures Mounted() && Vol() == old(Vol())
      ensures inode == if ino / geo.inodesPerGroup > geo.groups then inodet else InodeAt(Vol(), ino)
    {
      hide BlockCache.Ok, BlockCache.Disk, BlockCache.State, BlockOffset, OffsetInBlock, SlotBlock, SlotByte, TableOk,
           Geometry.InodesPerBlock;
      var group := Group(geo, ino);
      if group > geo.groups {
        return inodet;
      }
      SlotAddress(Vol(), ino);
      var tableBlock := InodeTable(bgd, group);
      var blockOffset := BlockOffset(geo, ino);
      var offsetInBlock := OffsetInBlock(geo, ino);
      var buf := Malloc(geo.blockSize);
      var _, table := ReadBlock(tableBlock + blockOffset, buf);
      inode := table[offsetInBlock * geo.inodeSize..offsetInBlock * geo.inodeSize + geo.inodeSize];
    }

    // ----- the block map -----

    /** Returns 0 past the last index that the driver maps, and the stored pointer where the path to it exists. */
    method GetBlockNumber(inode: Block, iblock: nat) returns (r: nat)
      requires Mounted() && IsRecord(inode) && geo.P() > 0
      requires Reachable(Vol().disk, geo.P(), inode, iblock) || iblock >= Limit(geo.P()) + geo.P()
      modifies cache, cache.device, cache.entries
      ensures Mounted() && Vol() == old(Vol())
      ensures r == Addr(Vol().disk, geo.P(), inode, iblock)
      ensures if iblock < Limit(geo.P()) then Leads(Vol().disk, geo.P(), inode, iblock, r) else r == 0
    {
      hide BlockCache.Ok, BlockCache.Disk, BlockCache.State, Ptr, Leads;
      MountedShape();
      SmallVolume(geo);
      var p := geo.P();
      if iblock < Limit(p) {
        MapBytes(Vol().disk, p, inode, iblock);
      }
      if iblock < DIRECT_BLOCKS {
        return IBlock(inode, iblock);
      } else if iblock < DIRECT_BLOCKS + p {
        var tmp := Malloc(geo.blockSize);
        var _, t := ReadBlock(IBlock(inode, 12), tmp);
        return Ptr(t, iblock - DIRECT_BLOCKS);
      } else if iblock < DIRECT_BLOCKS + p + p * p {
        DoubleIndex(p, iblock);
        var b := iblock - DIRECT_BLOCKS - p;
        var c := b / p;
        var d := b - c * p;
        var tmp := Malloc(geo.blockSize);
        var _, t := ReadBlock(IBlock(inode, 13), tmp);
        var nblock := Ptr(t, c);
        var _, u := ReadBlock(nblock, t);
        return Ptr(u, d);
      }
      return 0;
    }

    /** The test that set_block_number makes before it uses an indirect block of the record. */
    method EnsureRoot(inode0: Block, ino: nat, slot: nat) returns (status: Status, inode: Block)
      requires Mounted() && Ready(Vol(), owner, ino, inode0) && (slot == 12 || slot == 13) && geo.P() > 0
      modifies this, cache, cache.device, cache.entries
      ensures Mounted() && Ready(Vol(), owner, ino, inode) && MetaStep(old(Vol()), old(owner), Vol(), owner, ino)
      ensures status == if IBlock(inode0, slot) == 0 && SbFreeBlocks(old(sb)) == 0 then E_NOSPACE else E_SUCCESS
      ensures status == E_NOSPACE ==> inode == inode0 && Vol() == old(Vol()) && owner == old(owner)
      ensures status == E_SUCCESS ==> IBlock(inode, slot) != 0
      ensures status == E_SUCCESS ==>
                SbFreeBlocks(sb) == SbFreeBlocks(old(sb)) - if IBlock(inode0, slot) == 0 then 1 else 0
      ensures SameIndex(old(Vol()), inode0, Vol(), inode)
      ensures SameRecord(inode0, inode) && SameEntries(inode0, inode, slot)
      ensures IBlock(inode0, slot) != 0 ==> inode == inode0 && Vol() == old(Vol())
    {
      hide BlockCache.Ok, BlockCache.Disk, BlockCache.State, Geometry.Ok, WellFormed, IndOk, MetaStep, SameMap,
           SameLeaves, SetIBlock, PutInode, IsInode, TableOk, Used, AllocatorRuns.BlockStep, SameIndex, SameFields;
      status, inode := E_SUCCESS, inode0;
      ReadyDisk(Vol(), owner);
      if IBlock(inode, slot) == 0 {
        ghost var v, o := Vol(), owner;
        var blockNo := AllocateBlock(RootRole(ino, slot));
        if blockNo == 0 {
          MetaRefl(v, o, ino);
          SameIndexRefl(v, inode);
          return E_NOSPACE, inode;
        }
        ghost var v1 := Vol();
        WellFormedTable(v1, owner);
        RootStep(v, o, v1, blockNo, ino, inode, slot);
        inode := SetIBlock(inode, slot, blockNo);
        GroupKnown(geo, ino);
        var _ := WriteInode(inode, ino);
      } else {
        MetaRefl(Vol(), owner, ino);
        SameIndexRefl(Vol(), inode);
      }
    }

    method SetInSingleBlock(inode0: Block, ino: nat, iblock: nat, rblock: nat) returns (status: Status, inode: Block)
      requires Mounted() && Ready(Vol(), owner, ino, inode0) && rblock < U32 && geo.P() > 0
      requires DIRECT_BLOCKS <= iblock < DIRECT_BLOCKS + geo.P()
      modifies this, cache, cache.device, cache.entries
      ensures Mounted() && Ready(Vol(), owner, ino, inode) && MetaStep(old(Vol()), old(owner), Vol(), owner, ino)
      ensures status == if SbFreeBlocks(old(sb)) >= Missing(old(Vol()).disk, geo.P(), inode0, iblock)
                        then E_SUCCESS else E_NOSPACE
      ensures status == E_SUCCESS ==> MapUpdated(old(Vol()).disk, inode0, Vol().disk, inode, geo.P(), iblock, rblock)
      ensures status == E_SUCCESS ==> Leads(Vol().disk, geo.P(), inode, iblock, rblock)
      ensures status == E_NOSPACE ==> SameMap(old(Vol()).disk, inode0, Vol().disk, inode, geo.P())
      ensures SbFreeBlocks(sb) ==
                if status == E_SUCCESS
                then SbFreeBlocks(old(sb)) - Missing(old(Vol()).disk, geo.P(), inode0, iblock) else 0
      ensures SameRecord(inode0, inode) && OnlyPath(old(Vol()), inode0, Vol(), inode, iblock)
    {
      hide BlockCache.Ok, BlockCache.Disk, BlockCache.State, Geometry.Ok, WellFormed, IndOk, MetaStep, MapUpdated,
           SameMap, SameLeaves, SetPtr, IsInode, SameRecord, Leads;
      ghost var v, o := Vol(), owner;
      status, inode := EnsureRoot(inode0, ino, 12);
      if status != E_SUCCESS {
        return;
      }
      ghost var v1 := Vol();
      ReadyDisk(v1, owner);
      SinglePtrStep(v1, owner, ino, inode, iblock, rblock);
      var tmp := Malloc(geo.blockSize);
      var _, t := ReadBlock(IBlock(inode, 12), tmp);
      t := SetPtr(t, iblock - DIRECT_BLOCKS, rblock);
      var _ := WriteBlock(IBlock(inode, 12), t);
      assert Vol() == PutPtr(v1, IBlock(inode, 12), iblock - DIRECT_BLOCKS, rblock);
      MetaTrans(v, o, v1, owner, Vol(), owner, ino);
      MapTrans(v, inode0, v1, inode, Vol(), inode, iblock, rblock);
    }

    /** The second level: leaf c of the double-indirect block, allocated when it is missing. */
    method EnsureLeaf(inode: Block, ino: nat, c: nat) returns (status: Status, nblock: nat, tmp: Block)
      requires Mounted() && Ready(Vol(), owner, ino, inode) && geo.P() > 0 && c < geo.P() && IBlock(inode, 13) != 0
      modifies this, cache, cache.device, cache.entries
      ensures Mounted() && Ready(Vol(), owner, ino, inode) && MetaStep(old(Vol()), old(owner), Vol(), owner, ino)
      ensures status == if Cell(old(Vol()).disk, IBlock(inode, 13), c) == 0 && SbFreeBlocks(old(sb)) == 0
                        then E_NOSPACE else E_SUCCESS
      ensures status == E_SUCCESS ==> nblock == Cell(Vol().disk, IBlock(inode, 13), c) != 0
      ensures status == E_NOSPACE ==> Vol() == old(Vol()) && owner == old(owner)
      ensures SbFreeBlocks(sb) == if status == E_SUCCESS && Cell(old(Vol()).disk, IBlock(inode, 13), c) == 0
                                  then SbFreeBlocks(old(sb)) - 1 else SbFreeBlocks(old(sb))
      ensures SameMap(old(Vol()).disk, inode, Vol().disk, inode, geo.P())
      ensures SameLeaves(old(Vol()).disk, inode, Vol().disk, inode, geo.P(), c)
      ensures |tmp| == geo.blockSize
    {
      hide BlockCache.Ok, BlockCache.Disk, BlockCache.State, Geometry.Ok, WellFormed, IndOk, MetaStep, SameMap,
           SameLeaves, SetPtr, IsInode, Ptr, Used;
      ghost var v, o := Vol(), owner;
      ReadyDisk(v, o);
      RootInRange(v, o, ino, inode);
      MetaRefl(v, o, ino);
      IndexRefl(v, inode, c);
      var buf := Malloc(geo.blockSize);
      var _, t := ReadBlock(IBlock(inode, 13), buf);
      tmp := t;
      if Ptr(tmp, c) == 0 {
        var blockNo := AllocateBlock(LeafRole(ino, c));
        if blockNo == 0 {
          return E_NOSPACE, 0, tmp;
        }
        LeafStep(v, o, Vol(), blockNo, ino, inode, c);
        tmp := SetPtr(tmp, c, blockNo);
        var _ := WriteBlock(IBlock(inode, 13), tmp);
      }
      return E_SUCCESS, Ptr(tmp, c), tmp;
    }

    method SetInDoubleBlock(inode0: Block, ino: nat, iblock: nat, rblock: nat) returns (status: Status, inode: Block)
      requires Mounted() && Ready(Vol(), owner, ino, inode0) && rblock < U32 && geo.P() > 0
      requires DIRECT_BLOCKS + geo.P() <= iblock < Limit(geo.P())
      modifies this, cache, cache.device, cache.entries
      ensures Mounted() && Ready(Vol(), owner, ino, inode) && MetaStep(old(Vol()), old(owner), Vol(), owner, ino)
      ensures status == if SbFreeBlocks(old(sb)) >= Missing(old(Vol()).disk, geo.P(), inode0, iblock)
                        then E_SUCCESS else E_NOSPACE
      ensures status == E_SUCCESS ==> MapUpdated(old(Vol()).disk, inode0, Vol().disk, inode, geo.P(), iblock, rblock)
      ensures status == E_SUCCESS ==> Leads(Vol().disk, geo.P(), inode, iblock, rblock)
      ensures status == E_NOSPACE ==> SameMap(old(Vol()).disk, inode0, Vol().disk, inode, geo.P())
      ensures SbFreeBlocks(sb) ==
                if status == E_SUCCESS
                then SbFreeBlocks(old(sb)) - Missing(old(Vol()).disk, geo.P(), inode0, iblock) else 0
      ensures SameRecord(inode0, inode) && OnlyPath(old(Vol()), inode0, Vol(), inode, iblock)
    {
      hide BlockCache.Ok, BlockCache.Disk, BlockCache.State, Geometry.Ok, WellFormed, IndOk, MetaStep, MapUpdated,
           SameMap, SameLeaves, SetPtr, IsInode, SameRecord, Limit, Cell, Geometry.P, Leads;
      ghost var v, o := Vol(), owner;
      var p := geo.P();
      DoubleIndex(p, iblock);
      var b := iblock - DIRECT_BLOCKS - p;
      var c := b / p;
      var d := b - c * p;
      status, inode := EnsureRoot(inode0, ino, 13);
      if status != E_SUCCESS {
        LeavesWeaken(v, inode0, Vol(), inode, c);
        return;
      }
      ghost var v1, o1 := Vol(), owner;
      LeafSame(v, inode0, v1, inode, c);
      var nblock, tmp;
      status, nblock, tmp := EnsureLeaf(inode, ino, c);
      ghost var v2, o2 := Vol(), owner;
      MetaTrans(v, o, v1, o1, v2, o2, ino);
      LeafTrans(v, inode0, v1, inode, v2, c);
      if status != E_SUCCESS {
        return;
      }
      ReadyDisk(v2, owner);
      LeafPtrStep(v2, owner, ino, inode, iblock, rblock);
      var _, t := ReadBlock(nblock, tmp);
      t := SetPtr(t, d, rblock);
      var _ := WriteBlock(nblock, t);
      assert Vol() == PutPtr(v2, nblock, d, rblock);
      MetaTrans(v, o, v2, o2, Vol(), owner, ino);
      LeafMapTrans(v, inode0, v2, inode, Vol(), inode, iblock, rblock, c);
    }

    method SetBlockNumber(inode0: Block, ino: nat, iblock: nat, rblock: nat) returns (status: Status, inode: Block)
      requires Mounted() && Ready(Vol(), owner, ino, inode0) && rblock < U32 && geo.P() > 0
      requires !(Limit(geo.P()) <= iblock < Limit(geo.P()) + geo.P())
      modifies this, cache, cache.device, cache.entries
      ensures Mounted() && Ready(Vol(), owner, ino, inode) && MetaStep(old(Vol()), old(owner), Vol(), owner, ino)
      ensures status == if iblock >= Limit(geo.P()) then E_BADBLOCK
                        else if SbFreeBlocks(old(sb)) >= Missing(old(Vol()).disk, geo.P(), inode0, iblock)
                        then E_SUCCESS else E_NOSPACE
      ensures status == E_SUCCESS ==> MapUpdated(old(Vol()).disk, inode0, Vol().disk, inode, geo.P(), iblock, rblock)
      ensures status == E_SUCCESS ==> Leads(Vol().disk, geo.P(), inode, iblock, rblock)
      ensures status != E_SUCCESS ==> SameMap(old(Vol()).disk, inode0, Vol().disk, inode, geo.P())
      ensures SbFreeBlocks(sb) ==
                if status == E_SUCCESS then SbFreeBlocks(old(sb)) - Missing(old(Vol()).disk, geo.P(), inode0, iblock)
                else if status == E_NOSPACE then 0 else SbFreeBlocks(old(sb))
      ensures SameRecord(inode0, inode) && OnlyPath(old(Vol()), inode0, Vol(), inode, iblock)
    {
      hide BlockCache.Ok, BlockCache.Disk, BlockCache.State, Geometry.Ok, WellFormed, IndOk, MetaStep, MapUpdated,
           SameMap, SameLeaves, IsInode, SetIBlock;
      var p := geo.P();
      ghost var v := Vol();
      if iblock < DIRECT_BLOCKS {
        ReadyDisk(v, owner);
        SetDirect(v.disk, p, owner, ino, inode0, iblock, rblock);
        MetaRefl(v, owner, ino);
        assert IBlock(SetIBlock(inode0, iblock, rblock), iblock) == rblock;
        return E_SUCCESS, SetIBlock(inode0, iblock, rblock);
      } else if iblock < DIRECT_BLOCKS + p {
        status, inode := SetInSingleBlock(inode0, ino, iblock, rblock);
        return;
      } else if iblock < DIRECT_BLOCKS + p + p * p {
        status, inode := SetInDoubleBlock(inode0, ino, iblock, rblock);
        return;
      }
      MetaRefl(v, owner, ino);
      IndexRefl(v, inode0, LeafOf(p, iblock));
      return E_BADBLOCK, inode0;
    }

    // ----- file blocks -----

    /** Maps one more block. The code reports success even when the map could not take the block: then the record counts
        a hole. */
    method AllocateInodeBlock(inode0: Block, ino: nat, block: nat) returns (status: Status, inode: Block)
      requires Mounted() && WellFormed(Vol(), owner) && IsRecord(inode0) && geo.P() > 0
      requires SbFreeBlocks(sb) > 0 ==>
                 && FileOk(Vol(), owner, ino, inode0) && block == Count(geo, inode0)
                 && block < Limit(geo.P()) && (block + 1) * Units(geo) < U32
      modifies this, cache, cache.device, cache.entries
      ensures Mounted() && WellFormed(Vol(), owner)
      ensures status == if SbFreeBlocks(old(sb)) == 0 then E_NOSPACE else E_SUCCESS
      ensures status == E_NOSPACE ==> Vol() == old(Vol()) && owner == old(owner) && inode == inode0
      ensures SbFreeBlocks(old(sb)) > Missing(old(Vol()).disk, geo.P(), inode0, block) ==>
                && GrewOne(old(Vol()), old(owner), inode0, Vol(), owner, inode, ino)
                && OnlyPath(old(Vol()), inode0, Vol(), inode, block)
                && SbFreeBlocks(sb) == SbFreeBlocks(old(sb)) - 1 - Missing(old(Vol()).disk, geo.P(), inode0, block)
      ensures 0 < SbFreeBlocks(old(sb)) <= Missing(old(Vol()).disk, geo.P(), inode0, block) ==>
                && HoleAtEnd(Vol(), inode) && !FileOk(Vol(), owner, ino, inode) && Count(geo, inode) == block + 1
                && MetaStep(old(Vol()), old(owner), Vol(), owner, ino) && SbFreeBlocks(sb) == 0
      ensures status == E_SUCCESS ==> CanPut(Vol(), ino, inode) && InodeAt(Vol(), ino) == inode
      ensures status == E_SUCCESS ==> GetU32(inode, 28) == (block + 1) * (geo.blockSize / 512)
    {
      hide BlockCache.Ok, BlockCache.Disk, BlockCache.State, Geometry.Ok, WellFormed, IndOk, MetaStep, MapUpdated,
           SameMap, SameLeaves, IsInode, SetIBlocks, Limit, Missing, Used, Units, Addr, Zeros, BlockTaken, OnlyPath,
           SameIndex, TableOk, PutInode, GrewOne, HoleAtEnd, Sectors, Count, IBlock;
      ghost var v, o := Vol(), owner;
      ReadyDisk(v, o);
      var blockNo := AllocateBlock(DataRole(ino, block));
      if blockNo == 0 {
        return E_NOSPACE, inode0;
      }
      ghost var v1, o1 := Vol(), owner;
      TakenFacts(v, o, v1, blockNo);
      AllocKeepsMap(v, o, v1, blockNo, ino, inode0, block);
      MissingKept(v, v1, inode0, block);
      ghost var stored;
      stored, inode := SetBlockNumber(inode0, ino, block, blockNo);
      ghost var v2, o2, b := Vol(), owner, inode;
      var t := (block + 1) * Units(geo);
      LengthGrows(geo, block);
      if IBlocks(inode) < t {
        inode := SetIBlocks(inode, t);
      }
      LengthField(geo, block + 1, inode);
      StoredOutcome(v, o, inode0, v1, o1, blockNo, v2, o2, b, ino, block, stored == E_SUCCESS, inode, t);
      GroupKnown(geo, ino);
      var _ := WriteInode(inode, ino);
      return E_SUCCESS, inode;
    }

    /** The growth loop of inode_write_block. Once a pass changes nothing the source repeats it for ever; here the loop
        is left then, with done false. The file reaches the length if and only if there is room for all of the growth;
        otherwise it grows as far as there is room, to record b, and the pass at that point leaves a hole or changes
        nothing. */
    method GrowTo(inode0: Block, ino: nat, block: nat)
      returns (done: bool, inode: Block, ghost v1: Volume, ghost o1: Owner, ghost b: Block)
      requires Mounted() && AtRest(Vol(), owner, ino, inode0)
      requires block < Limit(geo.P()) && (block + 1) * Units(geo) < U32
      modifies this, cache, cache.device, cache.entries
      ensures Mounted() && WellFormed(Vol(), owner)
      ensures Slack(old(Vol()), inode0, block + 1) >= 0 ==>
                && done && Extended(old(Vol()), old(owner), inode0, Vol(), owner, inode, ino)
                && Count(geo, inode) == if block >= Count(geo, inode0) then block + 1 else Count(geo, inode0)
      ensures Slack(old(Vol()), inode0, block + 1) < 0 ==>
                && RanOut(old(Vol()), old(owner), inode0, v1, o1, b, Vol(), owner, inode, ino, block)
                && (done <==> SbFreeBlocks(v1.sb) > 0 && Count(v1.geo, b) == block)
    {
      hide BlockCache.Ok, BlockCache.Disk, BlockCache.State, Geometry.Ok, Extended, WellFormed, Limit, Units, Count,
           Slack, IndOk, Missing, OnlyPath, IsInode, TableOk, InodeAt, Addr, HoleAtEnd, Geometry.P, NoRoom, Holed;
      inode := inode0;
      v1, o1, b := Vol(), owner, inode;
      ghost var holed := false;
      ExtendedRefl(Vol(), owner, inode, ino);
      while block >= Count(geo, inode)
        invariant Mounted() && WellFormed(Vol(), owner) && CanPut(Vol(), ino, inode) && InodeAt(Vol(), ino) == inode
        invariant Extended(old(Vol()), old(owner), inode0, v1, o1, b, ino) && AtRest(v1, o1, ino, b) && v1.geo == geo
        invariant !holed ==> v1 == Vol() && o1 == owner && b == inode
        invariant holed ==> NoRoom(v1, b) && SbFreeBlocks(v1.sb) > 0
        invariant holed ==> Holed(v1, o1, Vol(), owner, inode, ino, Count(geo, b))
        invariant holed ==> Count(geo, b) <= block && SbFreeBlocks(sb) == 0 && Count(geo, inode) == Count(geo, b) + 1
        invariant Count(geo, b) <= block + 1 || (v1 == old(Vol()) && b == inode0)
        invariant Count(geo, inode0) <= Count(geo, b)
        decreases block + 1 - Count(geo, inode)
      {
        var c := Count(geo, inode);
        ghost var room := !NoRoom(Vol(), inode);
        ghost var v, o := Vol(), owner;
        inode := GrowOnce(inode, ino, block);
        if !holed && room {
          ExtendedTrans(old(Vol()), old(owner), inode0, v, o, b, Vol(), owner, inode, ino);
          v1, o1, b := Vol(), owner, inode;
        } else if !holed && SbFreeBlocks(v.sb) > 0 {
          holed := true;
        }
        if Count(geo, inode) == c {
          NoRoomShort(old(Vol()), old(owner), inode0, v1, o1, b, ino, block);
          return false, inode, v1, o1, b;
        }
      }
      if holed {
        NoRoomShort(old(Vol()), old(owner), inode0, v1, o1, b, ino, block);
      } else {
        ReachedRoom(old(Vol()), old(owner), inode0, v1, o1, b, ino, block);
      }
      return true, inode, v1, o1, b;
    }

    /** One pass: the file grows by one block, or gets a hole, or nothing changes. */
    method GrowOnce(inode1: Block, ino: nat, ghost block: nat) returns (inode: Block)
      requires Mounted() && WellFormed(Vol(), owner) && CanPut(Vol(), ino, inode1) && InodeAt(Vol(), ino) == inode1
               && geo.P() > 0
      requires IsRecord(inode1)
      requires SbFreeBlocks(sb) > 0 ==>
                 && AtRest(Vol(), owner, ino, inode1) && Count(geo, inode1) <= block < Limit(geo.P())
                 && (block + 1) * Units(geo) < U32
      modifies this, cache, cache.device, cache.entries
      ensures Mounted() && WellFormed(Vol(), owner) && CanPut(Vol(), ino, inode) && InodeAt(Vol(), ino) == inode
      ensures !NoRoom(old(Vol()), inode1) ==>
                && Extended(old(Vol()), old(owner), inode1, Vol(), owner, inode, ino)
                    && AtRest(Vol(), owner, ino, inode)
                && Count(geo, inode) == Count(geo, inode1) + 1
      ensures NoRoom(old(Vol()), inode1) && SbFreeBlocks(old(sb)) > 0 ==>
                && Holed(old(Vol()), old(owner), Vol(), owner, inode, ino, Count(geo, inode1))
                && Count(geo, inode) == Count(geo, inode1) + 1 && SbFreeBlocks(sb) == 0
      ensures SbFreeBlocks(old(sb)) == 0 ==>
                NoRoom(old(Vol()), inode1) && Vol() == old(Vol()) && owner == old(owner) && inode == inode1
    {
      hide BlockCache.Ok, BlockCache.Disk, BlockCache.State, Geometry.Ok, WellFormed, Limit, Units, Count, Slack, IndOk,
           Missing, OnlyPath, IsInode, TableOk, InodeAt, Addr, HoleAtEnd, Geometry.P, MetaStep, SameBlocks;
      ghost var v, o := Vol(), owner;
      if SbFreeBlocks(sb) > 0 {
        SectorsBelow(geo, Count(geo, inode1), block);
      }
      var _, b := AllocateInodeBlock(inode1, ino, Count(geo, inode1));
      if !NoRoom(v, inode1) {
        GrewOneExtends(v, o, inode1, Vol(), owner, b, ino);
      }
      GroupKnown(geo, ino);
      inode := RefreshInode(b, ino);
    }

    method InodeReadBlock(inode: Block, ghost ino: nat, block: nat, dst: Block) returns (realBlock: nat, buf: Block)
      requires Mounted() && FileOk(Vol(), owner, ino, inode)
      modifies cache, cache.device, cache.entries
      ensures Mounted() && Vol() == old(Vol())
      ensures buf == FileBlock(Vol(), inode, block)
      ensures realBlock == 0 <==> block >= Count(geo, inode)
    {
      hide BlockCache.Ok, BlockCache.Disk, BlockCache.State, Geometry.Ok, WellFormed, IndOk, IsInode, Addr, Reachable,
           Limit, Count, Units, Zeros;
      if block >= Count(geo, inode) {
        return 0, Zeros(geo.blockSize);
      }
      MappedReachable(Vol(), owner, ino, inode, block);
      realBlock := GetBlockNumber(inode, block);
      var _, b := ReadBlock(realBlock, dst);
      buf := b;
    }

    method InodeWriteBlock(inode0: Block, ino: nat, block: nat, buf: Block) returns (realBlock: nat, inode: Block)
      requires Mounted() && AtRest(Vol(), owner, ino, inode0) && |buf| == geo.blockSize
      requires block < Limit(geo.P()) && (block + 1) * Units(geo) < U32
      requires Slack(Vol(), inode0, block + 1) >= 0
      modifies this, cache, cache.device, cache.entries
      ensures Mounted() && Wrote(old(Vol()), old(owner), inode0, Vol(), owner, inode, ino, block, buf)
      ensures Count(geo, inode) == if block >= Count(geo, inode0) then block + 1 else Count(geo, inode0)
      ensures realBlock == Addr(Vol().disk, geo.P(), inode, block) != 0
    {
      hide BlockCache.Ok, BlockCache.Disk, BlockCache.State, Geometry.Ok, WellFormed, IndOk, IsInode, Addr, Reachable,
           Limit, Count, Units, Slack, InodeAt, TableOk, MetaStep, SameBlocks, OnlyFile, Mapped, Geometry.P, FileOk;
      var _, grown, _, _, _ := GrowTo(inode0, ino, block);
      inode := grown;
      ghost var v1 := Vol();
      MappedReachable(v1, owner, ino, inode, block);
      PutDataWrote(v1, owner, inode, ino, block, buf);
      realBlock := GetBlockNumber(inode, block);
      var _ := WriteBlock(realBlock, buf);
      assert Vol() == PutData(v1, inode, block, buf);
      ExtendedThenWrote(old(Vol()), old(owner), inode0, v1, owner, inode, Vol(), owner, inode, ino, block, buf);
      MappedReachable(Vol(), owner, ino, inode, block);
      PutDataAddr(v1, owner, inode, ino, block, buf);
    }

    // ----- byte ranges -----

    method ReadInode(ino: nat) returns (inode: Block)
      requires Mounted() && TableOk(Vol()) && IsInode(geo, ino)
      modifies cache, cache.device, cache.entries
      ensures Mounted() && Vol() == old(Vol()) && inode == InodeAt(Vol(), ino)
    {
      hide BlockCache.Ok, BlockCache.Disk, BlockCache.State, Geometry.Ok, TableOk, InodeAt, IsInode;
      GroupKnown(geo, ino);
      var buf := Malloc(geo.inodeSize);
      inode := RefreshInode(buf, ino);
    }

    /** Reads block x and copies its bytes from..to behind the at bytes already copied. */
    method CopyBlock(inode: Block, ghost ino: nat, x: nat, from: nat, to: nat, out0: Block, at: nat, ghost offset: nat,
        ghost buffer: Block)
      returns (out: Block)
      requires Mounted() && FileOk(Vol(), owner, ino, inode) && Copied(Vol(), inode, buffer, offset, at, out0)
      requires from <= to <= geo.blockSize && at + (to - from) <= |buffer| && At(geo, x, from, offset + at)
      modifies cache, cache.device, cache.entries
      ensures Mounted() && Vol() == old(Vol())
      ensures Copied(Vol(), inode, buffer, offset, at + (to - from), out)
    {
      hide BlockCache.Ok, BlockCache.Disk, BlockCache.State, Geometry.Ok, FileOk, Copied, FileBlock, At, Splice;
      MountedShape();
      CopiedMore(Vol(), inode, buffer, offset, at, out0, x, from, to);
      var dst := Malloc(geo.blockSize);
      var _, buf := InodeReadBlock(inode, ino, x, dst);
      out := Splice(out0, at, buf[from..to]);
    }

    method ReadExt2(ino: nat, offset: nat, size: nat, buffer: Block) returns (n: nat, out: Block)
      requires Mounted() && FileAt(Vol(), owner, ino)
      requires offset < U32 && size < U32 && ReadInRange(ISize(InodeAt(Vol(), ino)), offset, size)
      requires |buffer| >= size || offset + |buffer| >= GetU32(InodeAt(Vol(), ino), 4)
      modifies cache, cache.device, cache.entries
      ensures Mounted() && Vol() == old(Vol())
      ensures var c := old(FileContents(Vol(), owner, ino));
              && |c| == GetU32(old(InodeAt(Vol(), ino)), 4)
              && if c == [] then n == 0 && out == buffer
                 else
                   && n <= size && offset + n <= |c| && (n == size || offset + n == |c|) && n <= |buffer|
                   && out == c[offset..offset + n] + buffer[n..]
      ensures Copied(Vol(), InodeAt(Vol(), ino), buffer, offset, n, out)
    {
      hide BlockCache.Ok, BlockCache.Disk, BlockCache.State, FileOk, Copied, FileBlock, Splice, InodeAt, TableOk,
           IsInode, At, AtRest, FileContents, ReadLength, Geometry.Ok;
      var inode := ReadInode(ino);
      ReadStart(Vol(), owner, ino, buffer, offset);
      var isize := ISize(inode);
      ReadLengthExact(isize, offset, size);
      if isize == 0 {
        return 0, buffer;
      }
      n := ReadLength(isize, offset, size);
      out := CopyRange(inode, ino, offset, offset + n, buffer);
      CopiedContents(Vol(), owner, ino, buffer, offset, n, out);
    }

    /** The loop of read_ext2 over the blocks of offset..end. */
    method CopyRange(inode: Block, ghost ino: nat, offset: nat, end: nat, buffer: Block) returns (out: Block)
      requires Mounted() && FileOk(Vol(), owner, ino, inode) && offset <= end <= offset + |buffer|
      requires Copied(Vol(), inode, buffer, offset, 0, buffer)
      modifies cache, cache.device, cache.entries
      ensures Mounted() && Vol() == old(Vol())
      ensures Copied(Vol(), inode, buffer, offset, end - offset, out)
    {
      hide Mounted, Vol, FileOk, Copied, At, Done, BlockIndex, ByteIndex;
      MountedSize();
      RangeStart(geo, offset, end);
      var bs := geo.blockSize;
      var startBlock, endBlock := BlockIndex(geo, offset), BlockIndex(geo, end);
      var endSize := ByteIndex(geo, end);
      var r := ByteIndex(geo, offset);
      out := buffer;
      if startBlock == endBlock {
        InOneBlock(geo, offset, end);
        out := CopyBlock(inode, ino, startBlock, r, r + (end - offset), out, 0, offset, buffer);
        return;
      }
      var blocksRead := 0;
      while startBlock + blocksRead < endBlock
        invariant startBlock + blocksRead <= endBlock
        invariant Mounted() && Vol() == old(Vol())
        invariant 0 <= Done(geo, offset, blocksRead) <= |buffer|
        invariant Copied(Vol(), inode, buffer, offset, Done(geo, offset, blocksRead), out)
      {
        DoneStep(geo, offset, end, blocksRead);
        if blocksRead == 0 {
          out := CopyBlock(inode, ino, startBlock, r, bs, out, 0, offset, buffer);
        } else {
          out := CopyBlock(inode, ino, startBlock + blocksRead, 0, bs, out, Done(geo, offset, blocksRead), offset,
              buffer);
        }
        blocksRead := blocksRead + 1;
      }
      DoneEnd(geo, offset, end, blocksRead);
      if endSize != 0 {
        out := CopyBlock(inode, ino, endBlock, 0, endSize, out, Done(geo, offset, blocksRead), offset, buffer);
      }
    }

    /** Reads block x, overwrites its bytes from `from` on with chunk, and writes it back. */
    method WriteChunk(inode0: Block, ino: nat, x: nat, from: nat, chunk: Block, ghost lo: nat)
        returns (b: nat, inode: Block)
      requires Mounted() && AtRest(Vol(), owner, ino, inode0) && from + |chunk| <= geo.blockSize && At(geo, x, from, lo)
      requires Addressable(geo, x) && Slack(Vol(), inode0, x + 1) >= 0
      modifies this, cache, cache.device, cache.entries
      ensures Mounted() && WroteBytes(old(Vol()), old(owner), inode0, Vol(), owner, inode, ino, lo, chunk)
      ensures IsRecord(inode) && ISize(inode) == ISize(inode0)
    {
      hide BlockCache.Ok, BlockCache.Disk, BlockCache.State, Geometry.Ok, FileOk, FileBlock, At, Splice, Limit, Units,
           Slack, Count, Shape, CanPut, InodeAt, WroteBytes, OnlyFile, SameBlocks, Geometry.P, Addr;
      RestRecord(Vol(), owner, ino, inode0);
      MountedShape();
      BlockLength(Vol(), inode0, x);
      var dst := Malloc(geo.blockSize);
      var buf;
      b, buf := InodeReadBlock(inode0, ino, x, dst);
      ghost var v, o := Vol(), owner;
      buf := Splice(buf, from, chunk);
      var _, c := InodeWriteBlock(inode0, ino, x, buf);
      inode := c;
      MountedShape();
      RestRecord(Vol(), owner, ino, inode);
      WroteBlockBytes(v, o, inode0, Vol(), owner, inode, ino, x, from, chunk, buf, lo);
    }

    /** The size update at the start of write_inode_buffer. */
    method Resize(inode0: Block, ino: nat, offset: nat, end: nat) returns (inode: Block)
      requires Mounted() && AtRest(Vol(), owner, ino, inode0) && end < U32
      modifies cache, cache.device, cache.entries
      ensures Mounted() && WroteBytes(old(Vol()), owner, inode0, Vol(), owner, inode, ino, offset, [])
      ensures IsRecord(inode0) && IsRecord(inode) && ISize(inode) == if end > ISize(inode0) then end else ISize(inode0)
    {
      hide BlockCache.Ok, BlockCache.Disk, BlockCache.State, Geometry.Ok, FileOk, InodeAt, WroteBytes, Geometry.P,
           SetISize, PutInode, IsInode, TableOk, IBlock;
      RestRecord(Vol(), owner, ino, inode0);
      inode := inode0;
      if end > ISize(inode) {
        inode := SetISize(inode, end);
        ResizedRecord(Vol(), owner, inode0, ino, inode, offset);
        GroupKnown(geo, ino);
        var _ := WriteInode(inode, ino);
      } else {
        WroteNothing(Vol(), owner, inode0, ino, offset);
      }
    }

    method WriteInodeBuffer(inode0: Block, ino: nat, offset: nat, size: nat, buffer: Block)
        returns (n: nat, inode: Block)
      requires Mounted() && AtRest(Vol(), owner, ino, inode0) && offset + size < U32 && |buffer| >= size
               && geo.blockSize > 0
      requires 0 <= LastBlock(geo, offset, offset + size) < Limit(geo.P())
      requires Slack(Vol(), inode0, LastBlock(geo, offset, offset + size) + 1) >= 0
      modifies this, cache, cache.device, cache.entries
      ensures Mounted() && n == size
      ensures WroteBytes(old(Vol()), old(owner), inode0, Vol(), owner, inode, ino, offset, buffer[..size])
      ensures IsRecord(inode0) && IsRecord(inode)
      ensures ISize(inode) == if offset + size > ISize(inode0) then offset + size else ISize(inode0)
    {
      hide Mounted, Vol, AtRest, Limit, Slack, WroteBytes, Geometry.P, LastBlock;
      var end := offset + size;
      MountedSize();
      inode := Resize(inode0, ino, offset, end);
      ghost var last := LastBlock(geo, offset, end);
      WroteFacts(old(Vol()), owner, inode0, Vol(), owner, inode, ino, offset, []);
      SlackAfter(old(Vol()), owner, inode0, Vol(), owner, inode, ino, offset, [], last + 1);
      ProgressStart(old(Vol()), owner, inode0, Vol(), owner, inode, ino, offset, buffer[..size], last);
      inode := WriteRange(inode, ino, offset, end, buffer[..size], inode0, old(Vol()), old(owner));
      return size, inode;
    }

    /** The loop of write_inode_buffer over the blocks of offset..end. */
    method WriteRange(inode1: Block, ino: nat, offset: nat, end: nat, buffer: Block, ghost inode0: Block,
        ghost v0: Volume, ghost o0: Owner)
      returns (inode: Block)
      requires Mounted() && offset <= end < U32 && |buffer| == end - offset && geo.blockSize > 0 && v0.geo == geo
               && IsRecord(inode1)
      requires Progress(v0, o0, inode0, Vol(), owner, inode1, ino, offset, buffer, 0, LastBlock(geo, offset, end),
               ISize(inode1))
      modifies this, cache, cache.device, cache.entries
      ensures Mounted() && IsRecord(inode) && ISize(inode) == ISize(inode1)
      ensures WroteBytes(v0, o0, inode0, Vol(), owner, inode, ino, offset, buffer)
    {
      hide Mounted, Vol, AtRest, At, Limit, Slack, Progress, WroteBytes, Geometry.P, LastBlock, Done, BlockIndex,
           ByteIndex;
      inode := inode1;
      RangeStart(geo, offset, end);
      LastBlockBounds(geo, offset, end);
      var startBlock, endBlock := BlockIndex(geo, offset), BlockIndex(geo, end);
      var endSize := ByteIndex(geo, end);
      var r := ByteIndex(geo, offset);
      ghost var last := LastBlock(geo, offset, end);
      if startBlock == endBlock {
        InOneBlock(geo, offset, end);
        inode := WriteNext(inode, ino, startBlock, r, buffer, 0, |buffer|, offset, end, inode0, v0, o0);
        ProgressDone(v0, o0, inode0, Vol(), owner, inode, ino, offset, buffer, last, ISize(inode1));
        return;
      }
      var blocksRead := 0;
      while startBlock + blocksRead < endBlock
        invariant startBlock + blocksRead <= endBlock && IsRecord(inode) && ISize(inode) == ISize(inode1)
        invariant Mounted()
        invariant 0 <= Done(geo, offset, blocksRead) <= |buffer|
        invariant Progress(v0, o0, inode0, Vol(), owner, inode, ino, offset, buffer, Done(geo, offset, blocksRead),
                  last, ISize(inode1))
      {
        DoneStep(geo, offset, end, blocksRead);
        if blocksRead == 0 {
          inode := WriteNext(inode, ino, startBlock, r, buffer, 0, Done(geo, offset, 1), offset, end, inode0, v0, o0);
        } else {
          inode := WriteNext(inode, ino, startBlock + blocksRead, 0, buffer, Done(geo, offset, blocksRead),
                             Done(geo, offset, blocksRead + 1), offset, end, inode0, v0, o0);
        }
        blocksRead := blocksRead + 1;
      }
      DoneEnd(geo, offset, end, blocksRead);
      if endSize != 0 {
        inode := WriteNext(inode, ino, endBlock, 0, buffer, Done(geo, offset, blocksRead), |buffer|, offset, end,
            inode0, v0, o0);
      }
      ProgressDone(v0, o0, inode0, Vol(), owner, inode, ino, offset, buffer, last, ISize(inode1));
    }

    /** One block of the range: bytes n..m of the buffer go to block x at from. */
    method WriteNext(inode1: Block, ino: nat, x: nat, from: nat, buffer: Block, n: nat, m: nat, ghost offset: nat,
        ghost end: nat, ghost inode0: Block, ghost v0: Volume, ghost o0: Owner) returns (inode: Block)
      requires Mounted() && offset <= end < U32 && geo.blockSize > 0 && v0.geo == geo && IsRecord(inode1)
      requires n <= m <= |buffer| && from + (m - n) <= geo.blockSize && At(geo, x, from, offset + n)
      requires x <= LastBlock(geo, offset, end)
      requires Progress(v0, o0, inode0, Vol(), owner, inode1, ino, offset, buffer, n, LastBlock(geo, offset, end),
               ISize(inode1))
      modifies this, cache, cache.device, cache.entries
      ensures Mounted() && IsRecord(inode) && ISize(inode) == ISize(inode1)
      ensures Progress(v0, o0, inode0, Vol(), owner, inode, ino, offset, buffer, m, LastBlock(geo, offset, end),
                ISize(inode1))
    {
      hide Mounted, Vol, AtRest, At, Limit, Slack, Progress, WroteBytes, Geometry.P, LastBlock, Addressable, IsInode,
           TableOk, InodeAt;
      ghost var v, o := Vol(), owner;
      ghost var last := LastBlock(geo, offset, end);
      ProgressRest(v0, o0, inode0, v, o, inode1, ino, offset, buffer, n, last, ISize(inode1), x);
      MountedRange(offset, end, x);
      var b, c := WriteChunk(inode1, ino, x, from, buffer[n..m], offset + n);
      ProgressMore(v0, o0, inode0, v, o, inode1, Vol(), owner, c, ino, offset, buffer, n, m, last, ISize(inode1));
      inode := c;
      if b == 0 {
        ProgressRest(v0, o0, inode0, Vol(), owner, c, ino, offset, buffer, m, last, ISize(inode1), x);
        RestSlot(Vol(), owner, ino, c);
        inode := RefreshInode(inode, ino);
      }
    }

    /** write_ext2: the whole effect of a write on the file system. Where the write begins behind the end of the file,
        the gap reads as zeros if there were only zeros behind the end. */
    method WriteExt2(ino: nat, offset: nat, size: nat, buffer: Block) returns (n: nat)
      requires Mounted() && FileAt(Vol(), owner, ino)
      requires offset + size < U32 && |buffer| >= size && geo.blockSize > 0
      requires 0 <= LastBlock(geo, offset, offset + size) < Limit(geo.P())
      requires Slack(Vol(), InodeAt(Vol(), ino), LastBlock(geo, offset, offset + size) + 1) >= 0
      modifies this, cache, cache.device, cache.entries
      ensures Mounted() && n == size
      ensures FileAt(Vol(), owner, ino)
      ensures ZeroTail(old(Vol()), InodeAt(old(Vol()), ino)) ==> ZeroTail(Vol(), InodeAt(Vol(), ino))
      ensures FileSystem.WriteStep(State(old(Vol()), old(owner)), Write(ino, offset, buffer[..size]),
                State(Vol(), owner))
      ensures offset <= ISize(InodeAt(old(Vol()), ino)) || ZeroTail(old(Vol()), InodeAt(old(Vol()), ino)) ==>
                FileContents(Vol(), owner, ino) ==
                    Overwrite(FileContents(old(Vol()), old(owner), ino), offset, buffer[..size])
      ensures forall j :: j != ino && FileAt(old(Vol()), old(owner), j) ==>
                FileAt(Vol(), owner, j) && FileContents(Vol(), owner, j) == FileContents(old(Vol()), old(owner), j)
    {
      hide Mounted, Vol, AtRest, Limit, Slack, WroteBytes, Geometry.P, LastBlock, ZeroTail, Overwrite, InodeAt, TableOk,
           IsInode, FileContents, OnlyFile, WellFormed;
      MountedSize();
      ghost var v, o := Vol(), owner;
      var inode := ReadInode(ino);
      var b;
      n, b := WriteInodeBuffer(inode, ino, offset, size, buffer);
      WroteFacts(v, o, inode, Vol(), owner, b, ino, offset, buffer[..size]);
      RestSlot(Vol(), owner, ino, b);
      ghost var s, w, s' := State(v, o), Write(ino, offset, buffer[..size]), State(Vol(), owner);
      WrittenFile(s, w, s');
      WroteOnly(v, o, inode, Vol(), owner, b, ino, offset, buffer[..size]);
      forall j | j != ino && FileAt(v, o, j)
        ensures FileAt(Vol(), owner, j) && FileContents(Vol(), owner, j) == FileContents(v, o, j)
      {
        OtherFileKept(v, o, Vol(), owner, ino, j);
      }
    }

    /** write_ext2 and then read_ext2 of the same range: the data comes back. */
    method WriteThenRead(ino: nat, offset: nat, data: Block, buffer: Block) returns (out: Block)
      requires Mounted() && FileAt(Vol(), owner, ino)
      requires offset + |data| < U32 && |buffer| >= |data| && geo.blockSize > 0
      requires 0 <= LastBlock(geo, offset, offset + |data|) < Limit(geo.P())
      requires Slack(Vol(), InodeAt(Vol(), ino), LastBlock(geo, offset, offset + |data|) + 1) >= 0
      modifies this, cache, cache.device, cache.entries
      ensures |out| == |buffer| && out[..|data|] == data && out[|data|..] == buffer[|data|..]
    {
      hide AtRest, TableOk, IsInode, ZeroTail, InodeAt, Slack, LastBlock, Limit, BlockCache.Ok, BlockCache.Disk,
           BlockCache.State, Geometry.Ok, Overwrite, WroteBytes, Copied;
      var n := WriteExt2(ino, offset, |data|, data);
      assert data[..|data|] == data;
      ghost var v := Vol();
      n, out := ReadExt2(ino, offset, |data|, buffer);
      CopiedParts(v, InodeAt(v, ino), buffer, offset, |data|, out);
      ReadAfterWrite(old(Vol()), old(owner), InodeAt(old(Vol()), ino), v, owner, InodeAt(v, ino), ino, offset, data,
          buffer, out);
    }

    // ----- directories -----

    /** Moves to the next block when the current one is used up. */
    method NextDirBlock(inode: Block, ghost ino: nat, blockNr0: nat, dirOffset0: nat, totalOffset: nat, block0: Block)
      returns (blockNr: nat, dirOffset: nat, block: Block)
      requires Mounted() && FileOk(Vol(), owner, ino, inode)
               && Cursor(Vol(), inode, blockNr0, dirOffset0, totalOffset, block0)
      requires IsRecord(inode) && totalOffset < ISize(inode)
      modifies cache, cache.device, cache.entries
      ensures Mounted() && Vol() == old(Vol())
      ensures Cursor(Vol(), inode, blockNr, dirOffset, totalOffset, block) && dirOffset < geo.blockSize
      ensures Rest(Vol(), inode, blockNr, dirOffset, totalOffset, block) ==
                Rest(Vol(), inode, blockNr0, dirOffset0, totalOffset, block0)
      ensures (blockNr, dirOffset) == if dirOffset0 >= geo.blockSize then (blockNr0 + 1, 0) else (blockNr0, dirOffset0)
    {
      hide BlockCache.Ok, BlockCache.Disk, BlockCache.State, Geometry.Ok, FileOk, FileBlock, Cursor, Rest, DirLen,
           Count;
      CursorEnd(Vol(), inode, blockNr0, dirOffset0, totalOffset, block0);
      CursorRange(Vol(), inode, blockNr0, dirOffset0, totalOffset, block0);
      blockNr, dirOffset, block := blockNr0, dirOffset0, block0;
      if dirOffset >= geo.blockSize {
        CursorNextBlock(Vol(), inode, blockNr, totalOffset, block);
        blockNr := (blockNr + 1) % 256;
        dirOffset := dirOffset - geo.blockSize;
        var _, b := InodeReadBlock(inode, ino, blockNr, block);
        block := b;
      }
    }

    /** The walk of finddir_ext2, up to the record it returns. */
    method FindDir(ino: nat, name: Block) returns (found: Option<Dirent>)
      requires Mounted() && FileAt(Vol(), owner, ino) && DirOk(Vol(), InodeAt(Vol(), ino))
      modifies cache, cache.device, cache.entries
      ensures Mounted() && Vol() == old(Vol())
      ensures var es := Listing(Vol(), InodeAt(Vol(), ino)); found == FindLive(es, name) && Finds(es, name, found)
    {
      hide BlockCache.Ok, BlockCache.Disk, BlockCache.State, Geometry.Ok, FileOk, FileBlock, InodeAt, TableOk, IsInode,
           Cursor, Rest, Tiles, DirLen, Count, DirOk, FindLive, RecordOk, Listing, Finds;
      var inode := ReadInode(ino);
      FindLiveFirst(Listing(Vol(), inode), name);
      DirRecord(Vol(), inode);
      var block := Malloc(geo.blockSize);
      var blockNr: nat := 0;
      var _, b := InodeReadBlock(inode, ino, blockNr, block);
      block := b;
      var dirOffset: nat, totalOffset: nat := 0, 0;
      EmptyDir(Vol(), inode);
      if ISize(inode) == 0 {
        FindNone(name);
        return None;
      }
      CursorStart(Vol(), inode);
      while totalOffset < ISize(inode)
        invariant Mounted() && Vol() == old(Vol())
        invariant Cursor(Vol(), inode, blockNr, dirOffset, totalOffset, block)
        invariant FindLive(Rest(Vol(), inode, blockNr, dirOffset, totalOffset, block), name) ==
                  FindLive(Listing(Vol(), inode), name)
        decreases ISize(inode) - totalOffset
      {
        blockNr, dirOffset, block := NextDirBlock(inode, ino, blockNr, dirOffset, totalOffset, block);
        CursorStep(Vol(), inode, blockNr, dirOffset, totalOffset, block);
        RecordFits(block, dirOffset);
        RestHead(Vol(), inode, blockNr, dirOffset, totalOffset, block);
        FindStep(Rest(Vol(), inode, blockNr, dirOffset, totalOffset, block), name);
        if RecIno(block, dirOffset) != 0 && |name| == NameLen(block, dirOffset)
           && block[dirOffset + HEADER..dirOffset + HEADER + |name|] == name {
          return Some(Dirent(RecIno(block, dirOffset), name));
        }
        var recLen := RecLen(block, dirOffset);
        dirOffset := dirOffset + recLen;
        totalOffset := totalOffset + recLen;
      }
      CursorEnd(Vol(), inode, blockNr, dirOffset, totalOffset, block);
      FindNone(name);
      return None;
    }

    /** Passes one record, and reads the next block when that was the last one of its block. */
    method PassRecord(inode: Block, ghost ino: nat, blockNr0: nat, dirOffset0: nat, totalOffset0: nat, block0: Block,
        ghost left: seq<Dirent>)
      returns (blockNr: nat, dirOffset: nat, totalOffset: nat, block: Block)
      requires Mounted() && FileOk(Vol(), owner, ino, inode) && IsRecord(inode) && totalOffset0 < ISize(inode)
      requires Walk(Vol(), inode, blockNr0, dirOffset0, totalOffset0, block0, left)
      modifies cache, cache.device, cache.entries
      ensures Mounted() && Vol() == old(Vol())
      ensures |left| > 0 && totalOffset0 < totalOffset
                && Walk(Vol(), inode, blockNr, dirOffset, totalOffset, block, left[1..])
    {
      hide BlockCache.Ok, BlockCache.Disk, BlockCache.State, Geometry.Ok, FileOk, FileBlock, Cursor, Rest, DirLen,
           Count, RecordOk, DirOk;
      WalkHead(Vol(), inode, blockNr0, dirOffset0, totalOffset0, block0, left);
      RecordFits(block0, dirOffset0);
      var recLen := RecLen(block0, dirOffset0);
      blockNr, block := blockNr0, block0;
      dirOffset := dirOffset0 + recLen;
      totalOffset := totalOffset0 + recLen;
      CursorEnd(Vol(), inode, blockNr, dirOffset, totalOffset, block);
      CursorRange(Vol(), inode, blockNr, dirOffset, totalOffset, block);
      if dirOffset >= geo.blockSize {
        CursorNextBlock(Vol(), inode, blockNr, totalOffset, block);
        blockNr := (blockNr + 1) % 256;
        dirOffset := dirOffset - geo.blockSize;
        var _, b := InodeReadBlock(inode, ino, blockNr, block);
        block := b;
      }
    }

    /** direntry_ext2: the index-th live record. */
    method DirEntry(inode: Block, ghost ino: nat, index: nat) returns (found: Option<Dirent>)
      requires Mounted() && FileOk(Vol(), owner, ino, inode) && DirOk(Vol(), inode)
      modifies cache, cache.device, cache.entries
      ensures Mounted() && Vol() == old(Vol())
      ensures found == LiveAt(Listing(Vol(), inode), index) && Lists(Listing(Vol(), inode), index, found)
    {
      hide BlockCache.Ok, BlockCache.Disk, BlockCache.State, Geometry.Ok, FileOk, FileBlock, Cursor, Rest, Tiles,
           DirLen, Count, DirOk, RecordOk, LiveAt, Listing, Walk, Lists;
      DirRecord(Vol(), inode);
      LiveAtExact(Listing(Vol(), inode), index);
      var block := Malloc(geo.blockSize);
      var blockNr: nat := 0;
      var _, b := InodeReadBlock(inode, ino, blockNr, block);
      block := b;
      var dirOffset: nat, totalOffset: nat, dirIndex: nat := 0, 0, 0;
      ghost var left := Listing(Vol(), inode);
      WalkStart(Vol(), inode);
      while totalOffset < ISize(inode) && dirIndex <= index
        invariant Mounted() && Vol() == old(Vol())
        invariant Walk(Vol(), inode, blockNr, dirOffset, totalOffset, block, left) && dirIndex <= index
        invariant LiveAt(Listing(Vol(), inode), index) == LiveAt(left, index - dirIndex)
        decreases ISize(inode) - totalOffset
      {
        WalkHead(Vol(), inode, blockNr, dirOffset, totalOffset, block, left);
        RecordFits(block, dirOffset);
        LiveStep(left, index - dirIndex);
        var dIno := RecIno(block, dirOffset);
        if dIno != 0 && dirIndex == index {
          return Some(Dirent(dIno, block[dirOffset + HEADER..dirOffset + HEADER + NameLen(block, dirOffset)]));
        }
        blockNr, dirOffset, totalOffset, block := PassRecord(inode, ino, blockNr, dirOffset, totalOffset, block, left);
        left := left[1..];
        if dIno != 0 {
          dirIndex := dirIndex + 1;
        }
      }
      WalkEnd(Vol(), inode, blockNr, dirOffset, totalOffset, block, left);
      LiveNone(index - dirIndex);
      return None;
    }

    /** The walk of create_entry to the record it will shrink. */
    method FindSlack(inode: Block, ghost ino: nat) returns (blockNr: nat, dirOffset: nat, block: Block)
      requires Mounted() && FileOk(Vol(), owner, ino, inode) && HasSlack(Vol(), inode)
      modifies cache, cache.device, cache.entries
      ensures Mounted() && Vol() == old(Vol())
      ensures blockNr == DirLen(geo, inode) - 1 && block == FileBlock(Vol(), inode, blockNr)
                && dirOffset == Tail(Vol(), inode)
    {
      hide BlockCache.Ok, BlockCache.Disk, BlockCache.State, Geometry.Ok, FileOk, FileBlock, Cursor, Rest, DirLen,
           Count, RecordOk, DirOk, Ahead, HasSlack, Tight, Tail;
      SlackFacts(Vol(), inode);
      var buf := Malloc(geo.blockSize);
      blockNr := 0;
      var _, b := InodeReadBlock(inode, ino, blockNr, buf);
      block := b;
      dirOffset := 0;
      var totalOffset: nat := 0;
      AheadStart(Vol(), inode);
      while totalOffset < ISize(inode)
        invariant Mounted() && Vol() == old(Vol())
        invariant Ahead(Vol(), inode, blockNr, dirOffset, totalOffset, block)
        decreases ISize(inode) - totalOffset
      {
        AheadCursor(Vol(), inode, blockNr, dirOffset, totalOffset, block);
        ghost var nr, off, blk := blockNr, dirOffset, block;
        blockNr, dirOffset, block := NextDirBlock(inode, ino, blockNr, dirOffset, totalOffset, block);
        AheadNext(Vol(), inode, nr, off, totalOffset, blk, blockNr, dirOffset, block);
        AheadStep(Vol(), inode, blockNr, dirOffset, totalOffset, block);
        RecordFits(block, dirOffset);
        CursorBlock(Vol(), inode, blockNr, dirOffset, totalOffset, block);
        var recLen := RecLen(block, dirOffset);
        if recLen != Tight(block, dirOffset) && totalOffset + recLen == ISize(inode) {
          return;
        }
        dirOffset := dirOffset + recLen;
        totalOffset := totalOffset + recLen;
      }
      AheadCursor(Vol(), inode, blockNr, dirOffset, totalOffset, block);
      assert false;
    }

    /** create_entry. Its last statement returns E_NOSPACE whether or not the record was added. */
    method CreateEntry(parent: nat, name: CString, ino: nat) returns (status: Status)
      requires Mounted() && FileAt(Vol(), owner, parent) && ino < U32
      requires IsDir(InodeAt(Vol(), parent)) && name.Text? ==> HasSlack(Vol(), InodeAt(Vol(), parent)) && |name.s| < 256
      modifies this, cache, cache.device, cache.entries
      ensures Mounted() && FileAt(Vol(), owner, parent)
      ensures status == if IsDir(InodeAt(old(Vol()), parent)) && name.Text? then E_NOSPACE else E_BADPARENT
      ensures if status == E_NOSPACE && Fits(old(Vol()), InodeAt(old(Vol()), parent), name.s)
              then DirOk(Vol(), InodeAt(Vol(), parent))
                && Listing(Vol(), InodeAt(Vol(), parent)) ==
                    Listing(old(Vol()), InodeAt(old(Vol()), parent)) + [Dirent(ino, name.s)]
              else Vol() == old(Vol())
      ensures forall j :: j != parent && FileAt(old(Vol()), old(owner), j) ==>
                FileAt(Vol(), owner, j) && FileContents(Vol(), owner, j) == FileContents(old(Vol()), old(owner), j)
    {
      hide Mounted, Vol, AtRest, InodeAt, TableOk, IsInode, FileContents, IsDir, DirOk, HasSlack, Fits, DirLen, Listing,
           Tail, AppendRecord, Tight, FileBlock, FileOk, Wrote;
      MountedSize();
      var pinode := ReadInode(parent);
      if !IsDir(pinode) || name.Null? {
        return E_BADPARENT;
      }
      RestFile(Vol(), owner, parent, pinode);
      SlackFacts(Vol(), pinode);
      var recLen := Rounded(HEADER + |name.s|);
      var blockNr, dirOffset, block := FindSlack(pinode, parent);
      TailFits(Vol(), pinode, name.s);
      MountedSize();
      var sreclen := Tight(block, dirOffset);
      if dirOffset + sreclen + recLen >= geo.blockSize {
        return E_NOSPACE;
      }
      AppendInPlace(parent, pinode, blockNr, dirOffset, block, name.s, ino);
      return E_NOSPACE;
    }

    method AppendInPlace(parent: nat, pinode: Block, blockNr: nat, dirOffset: nat, block: Block, name: Block, ino: nat)
      requires Mounted() && AtRest(Vol(), owner, parent, pinode) && HasSlack(Vol(), pinode) && Fits(Vol(), pinode, name)
      requires blockNr == DirLen(geo, pinode) - 1 && block == FileBlock(Vol(), pinode, blockNr)
               && dirOffset == Tail(Vol(), pinode)
      requires |name| < 256 && ino < U32
      modifies this, cache, cache.device, cache.entries
      ensures Mounted() && FileAt(Vol(), owner, parent) && DirOk(Vol(), InodeAt(Vol(), parent))
      ensures Listing(Vol(), InodeAt(Vol(), parent)) == Listing(old(Vol()), pinode) + [Dirent(ino, name)]
      ensures forall j :: j != parent && FileAt(old(Vol()), old(owner), j) ==>
                FileAt(Vol(), owner, j) && FileContents(Vol(), owner, j) == FileContents(old(Vol()), old(owner), j)
    {
      hide Mounted, Vol, Geometry.Ok, AtRest, InodeAt, TableOk, IsInode, FileContents, DirOk, HasSlack, Fits,
           SameBlocks, OnlyFile, WellFormed, DirLen, Listing, Tail, AppendRecord, CanAppend, FileBlock, FileOk, Wrote,
           Count, Limit, Units, Slack, Geometry.P, Addr;
      ghost var v, o := Vol(), owner;
      MountedOk();
      SlackFacts(v, pinode);
      FitsCanAppend(v, pinode, ino, name);
      CanAppendFacts(block, dirOffset, ino, name);
      DirBlockInFile(v, o, parent, pinode);
      var newBlock := AppendRecord(block, dirOffset, ino, name);
      var _, b := InodeWriteBlock(pinode, parent, blockNr, newBlock);
      WroteDir(v, o, pinode, Vol(), owner, b, parent, blockNr, newBlock);
      DirAppend(v, pinode, Vol(), b, ino, name);
      RestSlot(Vol(), owner, parent, b);
      forall j | j != parent && FileAt(v, o, j)
        ensures FileAt(Vol(), owner, j) && FileContents(Vol(), owner, j) == FileContents(v, o, j)
      {
        OtherFileKept(v, o, Vol(), owner, parent, j);
      }
    }
  }
}
