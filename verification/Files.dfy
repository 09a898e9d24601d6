// What an operation on one file may change, and what a consistent file is.

module Files {
  import opened Bytes
  import opened Volumes
  import opened Allocation
  import opened InodeTables
  import opened BlockMaps

  // ----- steps that belong to one file -----

  /** Nothing of any other file changed: neither its record nor its blocks; new blocks went to file ino. */
  ghost predicate OnlyFile(v: Volume, owner: Owner, v': Volume, owner': Owner, ino: nat) {
    && v'.geo == v.geo && |v'.disk| == |v.disk| && SamePointers(v.bgd, v'.bgd) && SameFields(v.sb, v'.sb)
    && TableOk(v) && TableOk(v')
    && Extends(owner, owner')
    && (forall b :: b in owner' && b !in owner ==> owner'[b].OfFile() && owner'[b].ino == ino)
    && (forall b :: b in owner && b < |v.disk| && owner[b].OfFile() && owner[b].ino != ino ==> v'.disk[b] == v.disk[b])
    && (forall j :: IsInode(v.geo, j) && j != ino ==> InodeAt(v', j) == InodeAt(v, j))
  }

  /** No data block that was in use changed. */
  ghost predicate DataKept(v: Volume, owner: Owner, v': Volume) {
    && |v'.disk| == |v.disk|
    && (forall b :: b in owner && b < |v.disk| && owner[b].DataRole? ==> v'.disk[b] == v.disk[b])
  }

  /** A consistent volume after a step that touched only metadata of file ino. */
  ghost predicate MetaStep(v: Volume, owner: Owner, v': Volume, owner': Owner, ino: nat) {
    WellFormed(v', owner') && OnlyFile(v, owner, v', owner', ino) && DataKept(v, owner, v')
  }

  lemma PointersTrans(a: Block, b: Block, c: Block)
    requires SamePointers(a, b) && SamePointers(b, c)
    ensures SamePointers(a, c)
  {
  }

  lemma OnlyFileTrans(v: Volume, o: Owner, v1: Volume, o1: Owner, v2: Volume, o2: Owner, ino: nat)
    requires OnlyFile(v, o, v1, o1, ino) && OnlyFile(v1, o1, v2, o2, ino)
    ensures OnlyFile(v, o, v2, o2, ino)
  {
    hide SamePointers, TableOk, IsInode;
    PointersTrans(v.bgd, v1.bgd, v2.bgd);
  }

  lemma DataKeptTrans(v: Volume, o: Owner, v1: Volume, o1: Owner, v2: Volume)
    requires Extends(o, o1) && DataKept(v, o, v1) && DataKept(v1, o1, v2)
    ensures DataKept(v, o, v2)
  {
  }

  lemma MetaTrans(v: Volume, o: Owner, v1: Volume, o1: Owner, v2: Volume, o2: Owner, ino: nat)
    requires MetaStep(v, o, v1, o1, ino) && MetaStep(v1, o1, v2, o2, ino)
    ensures MetaStep(v, o, v2, o2, ino)
  {
    OnlyFileTrans(v, o, v1, o1, v2, o2, ino);
    DataKeptTrans(v, o, v1, o1, v2);
    hide WellFormed, OnlyFile, DataKept;
  }

  lemma MetaGeo(v: Volume, o: Owner, v': Volume, o': Owner, ino: nat)
    requires MetaStep(v, o, v', o', ino)
    ensures v'.geo == v.geo && |v'.disk| == |v.disk|
  {
  }

  lemma MetaRefl(v: Volume, o: Owner, ino: nat)
    requires WellFormed(v, o)
    ensures MetaStep(v, o, v, o, ino)
  {
    WellFormedTable(v, o);
    hide WellFormed, TableOk;
  }

  /** Records sit in table blocks, so they survive any step that keeps those blocks. */
  lemma RecordsKept(v: Volume, owner: Owner, v': Volume, j: nat)
    requires WellFormed(v, owner) && TableOk(v) && TableOk(v') && v'.geo == v.geo && |v'.disk| == |v.disk|
    requires SamePointers(v.bgd, v'.bgd) && IsInode(v.geo, j)
    requires forall b :: b in owner && b < |v.disk| && owner[b].TableRole? ==> v'.disk[b] == v.disk[b]
    ensures InodeAt(v', j) == InodeAt(v, j)
  {
    hide WellFormed, TableOk;
    SlotAddress(v, j);
    SlotAddress(v', j);
    TableBlockOwned(v, owner, j);
  }

  lemma AllocStep(v: Volume, owner: Owner, v': Volume, r: nat, role: Role, ino: nat)
    requires WellFormed(v, owner) && WellFormed(v', owner[r := role]) && BlockTaken(v, owner, v', r)
    requires role.OfFile() && role.ino == ino
    ensures MetaStep(v, owner, v', owner[r := role], ino)
    ensures SamePtrs(v.disk, v'.disk, owner, ino)
  {
    hide WellFormed, TableOk, SamePointers, Used, IsInode;
    WellFormedTable(v, owner);
    WellFormedTable(v', owner[r := role]);
    forall j | IsInode(v.geo, j)
      ensures InodeAt(v', j) == InodeAt(v, j)
    {
      RecordsKept(v, owner, v', j);
    }
  }

  /** Writing a block of file ino. */
  lemma WriteStep(v: Volume, owner: Owner, b: nat, data: Block, ino: nat)
    requires WellFormed(v, owner) && b in owner && owner[b].OfFile() && owner[b].ino == ino && |data| == v.geo.blockSize
    ensures b < |v.disk|
    ensures var v' := v.(disk := v.disk[b := data]);
            && WellFormed(v', owner) && OnlyFile(v, owner, v', owner, ino)
            && (!owner[b].DataRole? ==> MetaStep(v, owner, v', owner, ino))
  {
    OwnedInRange(v, owner);
    hide WellFormed, TableOk, SamePointers, IsInode;
    WriteKeeps(v, owner, b, data);
    PointersRefl(v.bgd);
    var v' := v.(disk := v.disk[b := data]);
    WellFormedTable(v, owner);
    WellFormedTable(v', owner);
    forall j | IsInode(v.geo, j)
      ensures InodeAt(v', j) == InodeAt(v, j)
    {
      RecordsKept(v, owner, v', j);
    }
  }

  lemma OwnedInRange(v: Volume, owner: Owner)
    requires WellFormed(v, owner)
    ensures forall b :: b in owner ==> b < |v.disk|
  {
  }

  lemma RecordStep(v: Volume, owner: Owner, ino: nat, inode: Block)
    requires WellFormed(v, owner) && TableOk(v) && IsInode(v.geo, ino) && |inode| == v.geo.inodeSize
    ensures MetaStep(v, owner, PutInode(v, ino, inode), owner, ino)
    ensures SamePtrs(v.disk, PutInode(v, ino, inode).disk, owner, ino)
  {
    hide WellFormed, TableOk, SamePointers, IsInode, InodeAt;
    PutInodeEffect(v, owner, ino, inode);
    PointersRefl(v.bgd);
  }

  // ----- consistent files -----

  /** inode is a record for file ino whose indirect blocks are its own. */
  ghost predicate Ready(v: Volume, owner: Owner, ino: nat, inode: Block) {
    && WellFormed(v, owner) && IsInode(v.geo, ino) && |inode| == v.geo.inodeSize && IsRecord(inode)
    && IndOk(v.disk, v.geo.P(), owner, ino, inode)
  }

  /** An inode handed out by allocate_inode can be looked up exactly when the group size does not divide its number. */
  lemma TakenAddressed(v: Volume, owner: Owner, v': Volume, n: nat)
    requires InodeTaken(v, owner, v', n) && v.geo.Ok()
    ensures v.geo.inodesPerGroup > 0 && v.geo.blockSize > 0 && (InTable(v.geo, n) <==> n % v.geo.inodesPerGroup != 0)
  {
    hide InodeUsed, Used, Geometry.TableBlocks, BlockOffset, InTable;
    AddressedInTable(v.geo, n);
  }

  lemma ReadyDisk(v: Volume, owner: Owner)
    requires WellFormed(v, owner)
    ensures DiskOk(v.disk, v.geo.P(), owner) && TableOk(v) && Shape(v)
    ensures v.geo.blockSize == 4 * v.geo.P() && |v.disk| == v.geo.blocksCount < U32
  {
    hide Geometry.Ok, Used, Counts, Mirrored, Layout, TableOk;
    SmallVolume(v.geo);
    WellFormedTable(v, owner);
  }

  // ----- composing the steps of set_block_number -----

  function RootRole(ino: nat, slot: nat): Role {
    if slot == 12 then SingleRole(ino) else DoubleRole(ino)
  }

  /** Size, length and mode are the same. */
  ghost predicate SameRecord(a: Block, b: Block)
    requires IsRecord(a) && IsRecord(b)
  {
    SameMode(a, b) && ISize(b) == ISize(a) && IBlocks(b) == IBlocks(a)
  }

  /** The block numbers in the record are the same, except possibly entry x. */
  ghost predicate SameEntries(a: Block, b: Block, x: int)
    requires IsRecord(a) && IsRecord(b)
  {
    forall k :: 0 <= k < 15 && k != x ==> IBlock(b, k) == IBlock(a, k)
  }

  ghost predicate SameIndex(v: Volume, a: Block, v': Volume, b: Block)
    requires IsRecord(a) && IsRecord(b) && v.geo.P() > 0
  {
    SameMap(v.disk, a, v'.disk, b, v.geo.P()) && SameLeaves(v.disk, a, v'.disk, b, v.geo.P(), -1)
  }

  lemma RecordIndex(v: Volume, owner: Owner, ino: nat, inode: Block, record: Block)
    requires Ready(v, owner, ino, inode) && TableOk(v) && |record| == v.geo.inodeSize && v.geo.P() > 0
    ensures Ready(PutInode(v, ino, record), owner, ino, inode)
    ensures SameIndex(v, inode, PutInode(v, ino, record), inode)
    ensures MetaStep(v, owner, PutInode(v, ino, record), owner, ino)
  {
    hide WellFormed, TableOk, IndOk, SameMap, SameLeaves, PutInode, OnlyFile, DataKept, IsInode, SamePtrs, Extends;
    ReadyDisk(v, owner);
    RecordStep(v, owner, ino, record);
    ExtendsRefl(owner);
    MapFrame(v.disk, PutInode(v, ino, record).disk, v.geo.P(), owner, owner, ino, inode);
  }

  lemma ExtendsRefl(owner: Owner)
    ensures Extends(owner, owner)
  {
  }

  lemma SameIndexRefl(v: Volume, a: Block)
    requires IsRecord(a) && v.geo.P() > 0
    ensures SameIndex(v, a, v, a)
  {
  }

  lemma SameIndexTrans(v: Volume, a: Block, v1: Volume, b: Block, v2: Volume, c: Block)
    requires IsRecord(a) && IsRecord(b) && IsRecord(c) && v1.geo == v.geo && v.geo.P() > 0
    requires SameIndex(v, a, v1, b) && SameIndex(v1, b, v2, c)
    ensures SameIndex(v, a, v2, c)
  {
    hide Addr, Cell;
  }

  /** Giving the file a missing single- or double-indirect block maps nothing new. */
  lemma RootStep(v: Volume, owner: Owner, v1: Volume, nb: nat, ino: nat, inode: Block, slot: nat)
    requires Ready(v, owner, ino, inode) && (slot == 12 || slot == 13) && IBlock(inode, slot) == 0 && v.geo.P() > 0
             && nb < U32
    requires BlockTaken(v, owner, v1, nb) && WellFormed(v1, owner[nb := RootRole(ino, slot)]) && TableOk(v1)
    ensures var inode' := SetIBlock(inode, slot, nb);
            && Ready(PutInode(v1, ino, inode'), owner[nb := RootRole(ino, slot)], ino, inode')
            && SameIndex(v, inode, PutInode(v1, ino, inode'), inode')
            && MetaStep(v, owner, PutInode(v1, ino, inode'), owner[nb := RootRole(ino, slot)], ino)
  {
    hide WellFormed, TableOk, IndOk, SameMap, SameLeaves, PutInode, OnlyFile, DataKept, IsInode, SetIBlock, SamePtrs,
         Extends, Zeros, Used;
    var inode' := SetIBlock(inode, slot, nb);
    var owner' := owner[nb := RootRole(ino, slot)];
    ReadyDisk(v, owner);
    AllocStep(v, owner, v1, nb, RootRole(ino, slot), ino);
    if slot == 12 {
      SetSingleRoot(v.disk, v1.disk, v.geo.P(), owner, ino, inode, nb, v.geo.blockSize);
    } else {
      SetDoubleRoot(v.disk, v1.disk, v.geo.P(), owner, ino, inode, nb, v.geo.blockSize);
    }
    RecordIndex(v1, owner', ino, inode', inode');
    MetaTrans(v, owner, v1, owner', PutInode(v1, ino, inode'), owner', ino);
    SameIndexTrans(v, inode, v1, inode', PutInode(v1, ino, inode'), inode');
  }

  /** Storing pointer k of block b. */
  ghost function PutPtr(v: Volume, b: nat, k: nat, r: nat): Volume
    requires b < |v.disk| && 4 * k + 4 <= |v.disk[b]| && r < U32
  {
    v.(disk := PutCell(v.disk, b, k, r))
  }

  lemma PutPtrStep(v: Volume, owner: Owner, b: nat, k: nat, r: nat, ino: nat)
    requires WellFormed(v, owner) && b in owner && Indirect(owner[b], ino) && k < v.geo.P() && r < U32
    ensures b < |v.disk| && 4 * k + 4 <= |v.disk[b]| && |v.disk[b]| == v.geo.blockSize
    ensures MetaStep(v, owner, PutPtr(v, b, k, r), owner, ino)
  {
    hide WellFormed, MetaStep, SetPtr, DiskOk, TableOk;
    OwnedInRange(v, owner);
    ReadyDisk(v, owner);
    WriteStep(v, owner, b, SetPtr(v.disk[b], k, r), ino);
  }

  /** Where the way to index i was there and the map now has r, the bytes say so. */
  lemma LeadsTo(v: Volume, owner: Owner, ino: nat, inode: Block, v': Volume, i: nat, r: nat)
    requires Ready(v', owner, ino, inode) && v'.geo == v.geo && v.geo.P() > 0 && DIRECT_BLOCKS <= i < Limit(v.geo.P())
    requires i < DIRECT_BLOCKS + v.geo.P() ==> IBlock(inode, 12) != 0
    requires i >= DIRECT_BLOCKS + v.geo.P() ==> Cell(v.disk, IBlock(inode, 13), LeafOf(v.geo.P(), i)) != 0
    requires MapUpdated(v.disk, inode, v'.disk, inode, v.geo.P(), i, r)
             && SameLeaves(v.disk, inode, v'.disk, inode, v.geo.P(), -1)
    ensures Leads(v'.disk, v.geo.P(), inode, i, r)
  {
    hide WellFormed, TableOk, IsInode, Leads, Addr, Cell, Geometry.P;
    var p := v.geo.P();
    ReadyDisk(v', owner);
    RootInRange(v', owner, ino, inode);
    if i >= DIRECT_BLOCKS + p {
      DoubleIndex(p, i);
      var c := LeafOf(p, i);
      var leaf := Cell(v'.disk, IBlock(inode, 13), c);
      assert NoneOrOwned(owner, leaf, LeafRole(ino, c));
      NoCell(v'.disk, IBlock(inode, 13), c);
    }
    MapBytes(v'.disk, p, inode, i);
  }

  lemma NoCell(disk: seq<Block>, b: nat, k: nat)
    ensures Cell(disk, b, k) != 0 ==> b != 0
  {
  }

  lemma SinglePtrStep(v: Volume, owner: Owner, ino: nat, inode: Block, i: nat, r: nat)
    requires Ready(v, owner, ino, inode) && DIRECT_BLOCKS <= i < DIRECT_BLOCKS + v.geo.P() && IBlock(inode, 12) != 0
             && r < U32
    ensures IBlock(inode, 12) < |v.disk| && |v.disk[IBlock(inode, 12)]| == v.geo.blockSize == 4 * v.geo.P()
    ensures var v' := PutPtr(v, IBlock(inode, 12), i - DIRECT_BLOCKS, r);
            && Ready(v', owner, ino, inode) && MapUpdated(v.disk, inode, v'.disk, inode, v.geo.P(), i, r)
            && SameLeaves(v.disk, inode, v'.disk, inode, v.geo.P(), -1) && MetaStep(v, owner, v', owner, ino)
            && Leads(v'.disk, v.geo.P(), inode, i, r)
  {
    hide WellFormed, DiskOk, TableOk, PutCell, MapUpdated, SameLeaves, OnlyFile, DataKept, IsInode, Leads;
    ReadyDisk(v, owner);
    PutPtrStep(v, owner, IBlock(inode, 12), i - DIRECT_BLOCKS, r, ino);
    SetInSingle(v.disk, v.geo.P(), owner, ino, inode, i, r);
    LeadsTo(v, owner, ino, inode, PutPtr(v, IBlock(inode, 12), i - DIRECT_BLOCKS, r), i, r);
  }

  lemma LeafStep(v: Volume, owner: Owner, v1: Volume, nb: nat, ino: nat, inode: Block, c: nat)
    requires Ready(v, owner, ino, inode) && c < v.geo.P() && nb < U32
    requires IBlock(inode, 13) != 0 && Cell(v.disk, IBlock(inode, 13), c) == 0
    requires BlockTaken(v, owner, v1, nb) && WellFormed(v1, owner[nb := LeafRole(ino, c)])
    ensures IBlock(inode, 13) < |v1.disk| && |v1.disk[IBlock(inode, 13)]| == v.geo.blockSize == 4 * v.geo.P()
    ensures v1.disk[IBlock(inode, 13)] == v.disk[IBlock(inode, 13)]
    ensures var v' := PutPtr(v1, IBlock(inode, 13), c, nb);
            && Ready(v', owner[nb := LeafRole(ino, c)], ino, inode) && SameMap(v.disk, inode, v'.disk, inode, v.geo.P())
            && Cell(v'.disk, IBlock(inode, 13), c) == nb && SameLeaves(v.disk, inode, v'.disk, inode, v.geo.P(), c)
            && MetaStep(v, owner, v', owner[nb := LeafRole(ino, c)], ino)
  {
    hide WellFormed, TableOk, PutCell, SameMap, SameLeaves, OnlyFile, DataKept, IsInode, Cell, Zeros, Used, SamePtrs,
         DiskOk;
    var owner' := owner[nb := LeafRole(ino, c)];
    ReadyDisk(v, owner);
    ReadyDisk(v1, owner');
    AllocStep(v, owner, v1, nb, LeafRole(ino, c), ino);
    PutPtrStep(v1, owner', IBlock(inode, 13), c, nb, ino);
    PtrBlocksOk(v1, owner');
    SetLeaf(v.disk, v1.disk, v.geo.P(), owner, ino, inode, c, nb, v.geo.blockSize);
    MetaTrans(v, owner, v1, owner', PutPtr(v1, IBlock(inode, 13), c, nb), owner', ino);
    KeptBlock(v, owner, v1, nb, IBlock(inode, 13));
  }

  lemma PtrBlocksOk(v: Volume, owner: Owner)
    requires WellFormed(v, owner)
    ensures forall b :: 0 <= b < |v.disk| ==> 4 * v.geo.P() <= |v.disk[b]|
  {
    ReadyDisk(v, owner);
  }

  lemma KeptBlock(v: Volume, owner: Owner, v1: Volume, nb: nat, b: nat)
    requires BlockTaken(v, owner, v1, nb) && b in owner && b < |v.disk| && owner[b].OfFile()
    ensures v1.disk[b] == v.disk[b]
  {
  }

  lemma LeafPtrStep(v: Volume, owner: Owner, ino: nat, inode: Block, i: nat, r: nat)
    requires Ready(v, owner, ino, inode) && v.geo.P() > 0 && DIRECT_BLOCKS + v.geo.P() <= i < Limit(v.geo.P())
             && r < U32
    requires Cell(v.disk, IBlock(inode, 13), LeafOf(v.geo.P(), i)) != 0
    ensures var leaf := Cell(v.disk, IBlock(inode, 13), LeafOf(v.geo.P(), i));
            leaf < |v.disk| && |v.disk[leaf]| == v.geo.blockSize == 4 * v.geo.P()
    ensures 0 <= (i - DIRECT_BLOCKS - v.geo.P()) % v.geo.P() < v.geo.P()
    ensures var v' := PutPtr(v, Cell(v.disk, IBlock(inode, 13), LeafOf(v.geo.P(), i)),
              (i - DIRECT_BLOCKS - v.geo.P()) % v.geo.P(), r);
            && Ready(v', owner, ino, inode) && MapUpdated(v.disk, inode, v'.disk, inode, v.geo.P(), i, r)
            && SameLeaves(v.disk, inode, v'.disk, inode, v.geo.P(), -1) && MetaStep(v, owner, v', owner, ino)
            && Leads(v'.disk, v.geo.P(), inode, i, r)
  {
    hide WellFormed, DiskOk, TableOk, PutCell, MapUpdated, SameLeaves, OnlyFile, DataKept, IsInode, IndOk, Geometry.P,
         Leads;
    ReadyDisk(v, owner);
    SetInLeaf(v.disk, v.geo.P(), owner, ino, inode, i, r);
    var leaf := Cell(v.disk, IBlock(inode, 13), LeafOf(v.geo.P(), i));
    PutPtrStep(v, owner, leaf, (i - DIRECT_BLOCKS - v.geo.P()) % v.geo.P(), r, ino);
    LeadsTo(v, owner, ino, inode, PutPtr(v, leaf, (i - DIRECT_BLOCKS - v.geo.P()) % v.geo.P(), r), i, r);
  }

  /** Only the pointers on the way to index i may have changed. */
  ghost predicate OnlyPath(v: Volume, a: Block, v': Volume, b: Block, i: nat)
    requires IsRecord(a) && IsRecord(b)
  {
    var p := v.geo.P();
    && (!(DIRECT_BLOCKS <= i < DIRECT_BLOCKS + p) ==> IBlock(b, 12) == IBlock(a, 12))
    && (i < DIRECT_BLOCKS + p ==> IBlock(b, 13) == IBlock(a, 13))
    && (p > 0 ==> SameLeaves(v.disk, a, v'.disk, b, p, if i < DIRECT_BLOCKS + p then -1 else LeafOf(p, i)))
  }

  lemma MapTrans(v: Volume, a: Block, v1: Volume, b: Block, v2: Volume, c: Block, i: nat, r: nat)
    requires IsRecord(a) && IsRecord(b) && IsRecord(c) && v.geo.P() > 0
    requires SameIndex(v, a, v1, b)
    requires MapUpdated(v1.disk, b, v2.disk, c, v.geo.P(), i, r) && SameLeaves(v1.disk, b, v2.disk, c, v.geo.P(), -1)
    ensures MapUpdated(v.disk, a, v2.disk, c, v.geo.P(), i, r) && SameLeaves(v.disk, a, v2.disk, c, v.geo.P(), -1)
  {
    hide Addr, Cell;
  }

  lemma RootInRange(v: Volume, owner: Owner, ino: nat, inode: Block)
    requires Ready(v, owner, ino, inode)
    ensures IBlock(inode, 12) < |v.disk| && IBlock(inode, 13) < |v.disk|
  {
    ReadyDisk(v, owner);
    hide WellFormed, TableOk;
  }

  lemma IndexRefl(v: Volume, a: Block, c: nat)
    requires IsRecord(a) && v.geo.P() > 0
    ensures SameMap(v.disk, a, v.disk, a, v.geo.P()) && SameLeaves(v.disk, a, v.disk, a, v.geo.P(), c)
  {
  }

  lemma LeavesWeaken(v: Volume, a: Block, v1: Volume, b: Block, c: nat)
    requires IsRecord(a) && IsRecord(b) && v.geo.P() > 0 && SameIndex(v, a, v1, b)
    ensures SameMap(v.disk, a, v1.disk, b, v.geo.P()) && SameLeaves(v.disk, a, v1.disk, b, v.geo.P(), c)
  {
    hide Addr, Cell;
  }

  lemma LeafSame(v: Volume, a: Block, v1: Volume, b: Block, c: nat)
    requires IsRecord(a) && IsRecord(b) && v.geo.P() > 0 && SameIndex(v, a, v1, b) && c < v.geo.P()
    ensures Cell(v1.disk, IBlock(b, 13), c) == Cell(v.disk, IBlock(a, 13), c)
  {
    hide Addr, Cell;
  }

  lemma LeafTrans(v: Volume, a: Block, v1: Volume, b: Block, v2: Volume, c: nat)
    requires IsRecord(a) && IsRecord(b) && v.geo.P() > 0 && SameIndex(v, a, v1, b)
    requires SameMap(v1.disk, b, v2.disk, b, v.geo.P()) && SameLeaves(v1.disk, b, v2.disk, b, v.geo.P(), c)
    ensures SameMap(v.disk, a, v2.disk, b, v.geo.P()) && SameLeaves(v.disk, a, v2.disk, b, v.geo.P(), c)
  {
    hide Addr, Cell;
  }

  lemma LeafMapTrans(v: Volume, a: Block, v1: Volume, b: Block, v2: Volume, d: Block, i: nat, r: nat, c: nat)
    requires IsRecord(a) && IsRecord(b) && IsRecord(d) && v.geo.P() > 0
    requires SameMap(v.disk, a, v1.disk, b, v.geo.P()) && SameLeaves(v.disk, a, v1.disk, b, v.geo.P(), c)
    requires MapUpdated(v1.disk, b, v2.disk, d, v.geo.P(), i, r) && SameLeaves(v1.disk, b, v2.disk, d, v.geo.P(), -1)
    ensures MapUpdated(v.disk, a, v2.disk, d, v.geo.P(), i, r) && SameLeaves(v.disk, a, v2.disk, d, v.geo.P(), c)
  {
    hide Addr, Cell;
  }
}
