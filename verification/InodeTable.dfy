// Where an inode lives on disk, and the fields of one inode record.

module InodeTables {
  import opened Arith
  import opened Bytes
  import opened Volumes

  // ----- fields of an inode record -----

  const DIRECT_BLOCKS := 12

  /** A record holds 15 block numbers from byte 40 on. */
  predicate IsRecord(inode: Block) { |inode| >= 128 }

  function ISize(inode: Block): nat requires IsRecord(inode) { GetU32(inode, 4) }

  /** Length in units of 512 bytes. */
  function IBlocks(inode: Block): nat requires IsRecord(inode) { GetU32(inode, 28) }

  function IBlock(inode: Block, k: nat): nat requires IsRecord(inode) && k < 15 { GetU32(inode, 40 + 4 * k) }

  predicate IsDir(inode: Block) requires IsRecord(inode) { GetU16(inode, 0) / 0x4000 % 2 == 1 }

  /** The type bits and the other fields that growing a file leaves alone. */
  ghost predicate SameMode(a: Block, b: Block)
    requires IsRecord(a) && IsRecord(b)
  {
    |a| == |b| && a[0] == b[0] && a[1] == b[1]
  }

  function SetISize(inode: Block, n: nat): (r: Block)
    requires IsRecord(inode) && n < U32
    ensures |r| == |inode| && ISize(r) == n && IBlocks(r) == IBlocks(inode) && SameMode(inode, r)
    ensures forall k :: 0 <= k < 15 ==> IBlock(r, k) == IBlock(inode, k)
  {
    PutU32(inode, 4, n)
  }

  function SetIBlocks(inode: Block, n: nat): (r: Block)
    requires IsRecord(inode) && n < U32
    ensures |r| == |inode| && IBlocks(r) == n && ISize(r) == ISize(inode) && SameMode(inode, r)
    ensures forall k :: 0 <= k < 15 ==> IBlock(r, k) == IBlock(inode, k)
  {
    PutU32(inode, 28, n)
  }

  function SetIBlock(inode: Block, k: nat, n: nat): (r: Block)
    requires IsRecord(inode) && k < 15 && n < U32
    ensures |r| == |inode| && ISize(r) == ISize(inode) && IBlocks(r) == IBlocks(inode) && SameMode(inode, r)
    ensures forall j :: 0 <= j < 15 ==> IBlock(r, j) == if j == k then n else IBlock(inode, j)
  {
    PutU32(inode, 40 + 4 * k, n)
  }

  // ----- addressing, with the driver's 32-bit unsigned arithmetic -----

  function Group(geo: Geometry, ino: nat): nat
    requires geo.inodesPerGroup > 0
  {
    ino / geo.inodesPerGroup
  }

  /** index - 1 after the group is subtracted; wraps when the group divides the number. */
  function Slot(geo: Geometry, ino: nat): nat
    requires geo.inodesPerGroup > 0
  {
    (ino % geo.inodesPerGroup + U32 - 1) % U32
  }

  function BlockOffset(geo: Geometry, ino: nat): nat
    requires geo.inodesPerGroup > 0 && geo.blockSize > 0
  {
    (Slot(geo, ino) * geo.inodeSize) % U32 / geo.blockSize
  }

  function OffsetInBlock(geo: Geometry, ino: nat): int
    requires geo.inodesPerGroup > 0 && geo.blockSize > 0 && geo.inodeSize > 0
  {
    Slot(geo, ino) - BlockOffset(geo, ino) * geo.InodesPerBlock()
  }

  /** Inode numbers whose group the driver has a descriptor for. */
  predicate KnownGroup(geo: Geometry, ino: nat) {
    geo.inodesPerGroup > 0 && ino / geo.inodesPerGroup < geo.groups
  }

  /** Inode numbers that the driver places in a table. */
  predicate IsInode(geo: Geometry, ino: nat) {
    KnownGroup(geo, ino) && ino % geo.inodesPerGroup != 0
  }

  lemma GroupKnown(geo: Geometry, ino: nat)
    requires IsInode(geo, ino)
    ensures geo.inodesPerGroup > 0 && !(ino / geo.inodesPerGroup > geo.groups)
  {
  }

  lemma SlotArithmetic(slot: nat, isz: nat, ipb: nat, bs: nat)
    requires isz > 0 && ipb > 0 && ipb * isz == bs
    ensures slot * isz / bs == slot / ipb
    ensures 0 <= slot - (slot / ipb) * ipb < ipb
    ensures (slot - (slot / ipb) * ipb) * isz + isz <= bs
  {
    DivModParts(slot, ipb);
    SlotProduct(slot, slot / ipb, slot % ipb, isz, ipb, bs);
  }

  lemma SlotProduct(slot: nat, q: nat, r: nat, isz: nat, ipb: nat, bs: nat)
    requires isz > 0 && r < ipb && ipb * isz == bs && slot == q * ipb + r
    ensures slot * isz / bs == q && r * isz + isz <= bs
  {
    assert slot * isz == q * bs + r * isz by {
      Distribute(q * ipb, r, isz);
      Associate(q, ipb, isz);
    }
    MulLe(r + 1, ipb, isz);
    Distribute(r, 1, isz);
    DivModUnique(slot * isz, q, bs, r * isz);
  }

  lemma Distribute(a: int, b: int, c: int)
    ensures (a + b) * c == a * c + b * c
  {
  }

  lemma Associate(a: int, b: int, c: int)
    ensures (a * b) * c == a * (b * c)
  {
  }

  lemma SlotInTable(geo: Geometry, ino: nat)
    requires geo.Ok() && IsInode(geo, ino)
    ensures Slot(geo, ino) == ino % geo.inodesPerGroup - 1
    ensures BlockOffset(geo, ino) == Slot(geo, ino) / geo.InodesPerBlock()
    ensures BlockOffset(geo, ino) < geo.TableBlocks()
    ensures 0 <= OffsetInBlock(geo, ino) < geo.InodesPerBlock()
    ensures OffsetInBlock(geo, ino) * geo.inodeSize + geo.inodeSize <= geo.blockSize
    ensures Slot(geo, ino) == BlockOffset(geo, ino) * geo.InodesPerBlock() + OffsetInBlock(geo, ino)
  {
    hide Geometry.Ok;
    GeoFacts(geo);
    SlotFacts(ino % geo.inodesPerGroup - 1, geo.inodesPerGroup, geo.inodeSize, geo.InodesPerBlock(), geo.blockSize);
  }

  lemma GeoFacts(geo: Geometry)
    requires geo.Ok()
    ensures geo.inodesPerGroup > 0 && 0 < geo.inodeSize <= geo.blockSize
    ensures geo.InodesPerBlock() > 0 && geo.InodesPerBlock() * geo.inodeSize == geo.blockSize
    ensures geo.inodesPerGroup * geo.inodeSize + 2 * geo.blockSize <= U32 && geo.inodesPerGroup < U32
  {
    MulLe(1, geo.inodeSize, geo.inodesPerGroup);
  }

  lemma SlotFacts(slot: nat, ipg: nat, isz: nat, ipb: nat, bs: nat)
    requires slot < ipg && isz > 0 && ipb > 0 && ipb * isz == bs && ipg * isz < U32
    ensures (slot * isz) % U32 / bs == slot / ipb < (ipg * isz + bs - 1) / bs
    ensures 0 <= slot - (slot / ipb) * ipb < ipb
    ensures (slot - (slot / ipb) * ipb) * isz + isz <= bs
  {
    MulLe(slot + 1, ipg, isz);
    SmallMod(slot * isz);
    SlotArithmetic(slot, isz, ipb, bs);
    TableHolds(slot * isz, ipg * isz, bs);
  }

  lemma SmallMod(a: nat)
    requires a < U32
    ensures a % U32 == a
  {
  }

  lemma TableHolds(a: nat, total: nat, bs: nat)
    requires bs > 0 && a < total
    ensures a / bs < (total + bs - 1) / bs
  {
    DivModParts(a, bs);
    DivModParts(total + bs - 1, bs);
    DivBelow(a, (total + bs - 1) / bs, bs);
  }

  /** The driver looks the inode up in a block of its own group's table. */
  predicate InTable(geo: Geometry, ino: nat)
    requires geo.inodesPerGroup > 0 && geo.blockSize > 0
  {
    KnownGroup(geo, ino) && BlockOffset(geo, ino) < geo.TableBlocks()
  }

  /** An inode is looked up in its group's table exactly when IsInode holds: of the inode numbers of the volume, up to
      and including the last, exactly those that the group size does not divide. */
  lemma AddressedInTable(geo: Geometry, ino: nat)
    requires geo.Ok()
    ensures InTable(geo, ino) <==> IsInode(geo, ino)
    ensures 1 <= ino <= geo.groups * geo.inodesPerGroup ==> (InTable(geo, ino) <==> ino % geo.inodesPerGroup != 0)
  {
    hide Geometry.Ok, Geometry.TableBlocks, BlockOffset;
    GeoFacts(geo);
    if ino % geo.inodesPerGroup != 0 {
      if KnownGroup(geo, ino) {
        SlotInTable(geo, ino);
      }
      LastGroup(ino, geo.groups, geo.inodesPerGroup);
    } else {
      MultipleOutside(geo, ino);
    }
  }

  /** A number up to n * d that d does not divide has a quotient below n. */
  lemma LastGroup(a: nat, n: nat, d: nat)
    requires d > 0 && a % d != 0
    ensures a <= n * d ==> a / d < n
  {
    if a <= n * d {
      assert a != n * d by {
        if a == n * d {
          DivModUnique(a, n, d, 0);
        }
      }
      DivBelow(a, n, d);
    }
  }

  lemma MultipleOutside(geo: Geometry, ino: nat)
    requires geo.Ok() && ino % geo.inodesPerGroup == 0
    ensures BlockOffset(geo, ino) >= geo.TableBlocks()
  {
    hide Geometry.Ok, Slot;
    GeoFacts(geo);
    WrappedSlot(geo, ino);
    WrappedOutside(geo.inodesPerGroup * geo.inodeSize, geo.inodeSize, geo.blockSize, Slot(geo, ino));
  }

  lemma WrappedSlot(geo: Geometry, ino: nat)
    requires geo.inodesPerGroup > 0 && ino % geo.inodesPerGroup == 0
    ensures Slot(geo, ino) == U32 - 1
  {
    SmallMod(U32 - 1);
  }

  lemma WrappedOutside(table: nat, isz: nat, bs: nat, slot: nat)
    requires 0 < isz <= bs && table + bs + isz <= U32 && slot == U32 - 1
    ensures (slot * isz) % U32 / bs >= (table + bs - 1) / bs
  {
    WrappedProduct(isz);
    DivMonotone(table + bs - 1, U32 - isz, bs);
  }

  lemma WrappedProduct(isz: nat)
    requires 0 < isz < U32
    ensures ((U32 - 1) * isz) % U32 == U32 - isz
  {
    DivModUnique((U32 - 1) * isz, isz - 1, U32, U32 - isz);
  }

  lemma DivMonotone(a: nat, b: nat, d: nat)
    requires a <= b && d > 0
    ensures a / d <= b / d
  {
    DivModParts(a, d);
    DivModParts(b, d);
    DivBelow(a, b / d + 1, d);
  }

  // ----- records on disk -----

  ghost predicate TableOk(v: Volume) {
    && Shape(v)
    && forall g :: 0 <= g < v.geo.groups ==>
         0 < InodeTable(v.bgd, g) && InodeTable(v.bgd, g) + v.geo.TableBlocks() <= |v.disk|
  }

  lemma WellFormedTable(v: Volume, owner: Owner)
    requires WellFormed(v, owner)
    ensures TableOk(v)
  {
    hide Geometry.TableBlocks, Counts, Mirrored, Used;
    TableNonempty(v.geo);
    forall g | 0 <= g < v.geo.groups
      ensures 0 < InodeTable(v.bgd, g) && InodeTable(v.bgd, g) + v.geo.TableBlocks() <= |v.disk|
    {
      assert Owns(owner, InodeTable(v.bgd, g) + 0, TableRole(g, 0));
      var k := v.geo.TableBlocks() - 1;
      assert Owns(owner, InodeTable(v.bgd, g) + k, TableRole(g, k));
    }
  }

  lemma TableNonempty(geo: Geometry)
    requires geo.Ok()
    ensures geo.TableBlocks() > 0
  {
    hide Geometry.Ok;
    GeoFacts(geo);
    SlotFacts(0, geo.inodesPerGroup, geo.inodeSize, geo.InodesPerBlock(), geo.blockSize);
  }

  ghost function SlotBlock(v: Volume, ino: nat): (b: nat)
    requires TableOk(v) && IsInode(v.geo, ino)
    ensures b < |v.disk|
  {
    SlotInTable(v.geo, ino);
    InodeTable(v.bgd, Group(v.geo, ino)) + BlockOffset(v.geo, ino)
  }

  ghost function SlotByte(v: Volume, ino: nat): (o: nat)
    requires TableOk(v) && IsInode(v.geo, ino)
    ensures o + v.geo.inodeSize <= v.geo.blockSize
  {
    SlotInTable(v.geo, ino);
    OffsetInBlock(v.geo, ino) * v.geo.inodeSize
  }

  /** The driver's arithmetic lands on the inode's slot. */
  lemma SlotAddress(v: Volume, ino: nat)
    requires TableOk(v) && IsInode(v.geo, ino)
    ensures |v.disk| == v.geo.blocksCount && 32 * Group(v.geo, ino) + 32 <= |v.bgd| && v.geo.blockSize > 0
              && v.geo.inodeSize > 0
    ensures v.geo.inodesPerGroup > 0 && Group(v.geo, ino) < v.geo.groups
    ensures 0 < InodeTable(v.bgd, Group(v.geo, ino)) + BlockOffset(v.geo, ino) == SlotBlock(v, ino)
    ensures |v.disk[SlotBlock(v, ino)]| == v.geo.blockSize
    ensures OffsetInBlock(v.geo, ino) >= 0 && OffsetInBlock(v.geo, ino) * v.geo.inodeSize == SlotByte(v, ino)
  {
    SlotInTable(v.geo, ino);
  }

  /** By the ext2 format: the inode is record y of block x of the table of group g. */
  predicate RecordOf(geo: Geometry, ino: nat, g: nat, x: nat, y: nat) {
    && geo.inodeSize > 0 && geo.inodesPerGroup > 0 && g < geo.groups && y < geo.InodesPerBlock()
    && ino == g * geo.inodesPerGroup + (x * geo.InodesPerBlock() + y) + 1
    && x * geo.InodesPerBlock() + y + 1 < geo.inodesPerGroup
  }

  lemma RecordArithmetic(geo: Geometry, ino: nat, g: nat, x: nat, y: nat)
    requires geo.Ok() && IsInode(geo, ino) && RecordOf(geo, ino, g, x, y)
    ensures geo.blockSize > 0 && Group(geo, ino) == g && BlockOffset(geo, ino) == x && OffsetInBlock(geo, ino) == y
  {
    hide Geometry.Ok, Geometry.InodesPerBlock, BlockOffset;
    GeoFacts(geo);
    var k := x * geo.InodesPerBlock() + y;
    DivModUnique(ino, g, geo.inodesPerGroup, k + 1);
    SlotInTable(geo, ino);
    DivModUnique(k, x, geo.InodesPerBlock(), y);
  }

  /** The table begins at the block that the descriptor of the group has at byte 8. */
  lemma SlotByFormat(v: Volume, ino: nat, g: nat, x: nat, y: nat)
    requires TableOk(v) && IsInode(v.geo, ino) && RecordOf(v.geo, ino, g, x, y)
    ensures 32 * g + 32 <= |v.bgd|
    ensures SlotBlock(v, ino) == GetU32(v.bgd, 32 * g + 8) + x && SlotByte(v, ino) == y * v.geo.inodeSize
  {
    hide Geometry.Ok, Shape, TableOk, IsInode, RecordOf, Group, BlockOffset, OffsetInBlock, SlotBlock, SlotByte, GetU32;
    TableShape(v);
    RecordArithmetic(v.geo, ino, g, x, y);
    SlotAddress(v, ino);
  }

  lemma TakeApart(a: nat, d: nat, n: nat) returns (g: nat, x: nat, y: nat)
    requires d > 0 && n > 0 && a % d != 0
    ensures g == a / d && y < n && a == g * d + (x * n + y) + 1 && x * n + y + 1 == a % d < d
  {
    DivModParts(a, d);
    var k := a % d - 1;
    DivModParts(k, n);
    g, x, y := a / d, k / n, k % n;
  }

  /** Every inode number that the driver looks up is such a record, and no other number is. */
  lemma RecordExists(geo: Geometry, ino: nat)
    requires geo.Ok()
    ensures IsInode(geo, ino) <==> exists g, x, y :: RecordOf(geo, ino, g, x, y)
  {
    hide Geometry.Ok, Geometry.InodesPerBlock;
    GeoFacts(geo);
    var d, n := geo.inodesPerGroup, geo.InodesPerBlock();
    if IsInode(geo, ino) {
      var g, x, y := TakeApart(ino, d, n);
      assert RecordOf(geo, ino, g, x, y);
    }
    forall g: nat, x: nat, y: nat | RecordOf(geo, ino, g, x, y)
      ensures IsInode(geo, ino)
    {
      DivModUnique(ino, g, d, x * n + y + 1);
    }
  }

  lemma TableShape(v: Volume)
    requires TableOk(v)
    ensures v.geo.Ok()
  {
  }

  ghost function InodeAt(v: Volume, ino: nat): (inode: Block)
    requires TableOk(v) && IsInode(v.geo, ino)
    ensures |inode| == v.geo.inodeSize && IsRecord(inode)
  {
    v.disk[SlotBlock(v, ino)][SlotByte(v, ino)..SlotByte(v, ino) + v.geo.inodeSize]
  }

  ghost function PutInode(v: Volume, ino: nat, inode: Block): (v': Volume)
    requires TableOk(v) && IsInode(v.geo, ino) && |inode| == v.geo.inodeSize
    ensures TableOk(v') && v'.geo == v.geo && v'.bgd == v.bgd && v'.sb == v.sb
  {
    var b := SlotBlock(v, ino);
    v.(disk := v.disk[b := Splice(v.disk[b], SlotByte(v, ino), inode)])
  }

  /** Two inode numbers in the same table block have slots that do not overlap. */
  lemma SlotsApart(geo: Geometry, i: nat, j: nat)
    requires geo.Ok() && IsInode(geo, i) && IsInode(geo, j) && Group(geo, i) == Group(geo, j) && i != j
    requires BlockOffset(geo, i) == BlockOffset(geo, j)
    ensures OffsetInBlock(geo, i) * geo.inodeSize + geo.inodeSize <= OffsetInBlock(geo, j) * geo.inodeSize
         || OffsetInBlock(geo, j) * geo.inodeSize + geo.inodeSize <= OffsetInBlock(geo, i) * geo.inodeSize
  {
    SlotInTable(geo, i);
    SlotInTable(geo, j);
    DivModParts(i, geo.inodesPerGroup);
    DivModParts(j, geo.inodesPerGroup);
    hide Geometry.Ok, BlockOffset, OffsetInBlock, Slot;
    MultiplesApart(OffsetInBlock(geo, i), OffsetInBlock(geo, j), geo.inodeSize);
  }

  lemma MultiplesApart(a: nat, b: nat, d: nat)
    requires a != b
    ensures a * d + d <= b * d || b * d + d <= a * d
  {
    if a < b {
      MulLe(a + 1, b, d);
    } else {
      MulLe(b + 1, a, d);
    }
  }

  /** Distinct inode numbers have disjoint records, each inside one block of its group's table. */
  lemma RecordsDisjoint(v: Volume, owner: Owner, i: nat, j: nat)
    requires WellFormed(v, owner) && TableOk(v) && IsInode(v.geo, i) && IsInode(v.geo, j) && i != j
    ensures Owns(owner, SlotBlock(v, i), TableRole(Group(v.geo, i), BlockOffset(v.geo, i)))
    ensures SlotBlock(v, i) == SlotBlock(v, j) ==>
              SlotByte(v, i) + v.geo.inodeSize <= SlotByte(v, j) || SlotByte(v, j) + v.geo.inodeSize <= SlotByte(v, i)
  {
    hide WellFormed, Geometry.Ok, BlockOffset, OffsetInBlock, Group;
    TableBlockOwned(v, owner, i);
    TableBlockOwned(v, owner, j);
    if SlotBlock(v, i) == SlotBlock(v, j) {
      SlotsApart(v.geo, i, j);
    }
  }

  lemma TableBlockOwned(v: Volume, owner: Owner, i: nat)
    requires WellFormed(v, owner) && TableOk(v) && IsInode(v.geo, i)
    ensures Owns(owner, SlotBlock(v, i), TableRole(Group(v.geo, i), BlockOffset(v.geo, i)))
  {
    SlotInTable(v.geo, i);
  }

  /** Writing one record: it reads back, every other record is unchanged, the volume stays consistent. */
  lemma PutInodeEffect(v: Volume, owner: Owner, ino: nat, inode: Block)
    requires WellFormed(v, owner) && TableOk(v) && IsInode(v.geo, ino) && |inode| == v.geo.inodeSize
    ensures InodeAt(PutInode(v, ino, inode), ino) == inode
    ensures forall j :: IsInode(v.geo, j) && j != ino ==> InodeAt(PutInode(v, ino, inode), j) == InodeAt(v, j)
    ensures forall b :: b in owner && b < |v.disk| && !owner[b].TableRole? ==>
              PutInode(v, ino, inode).disk[b] == v.disk[b]
    ensures WellFormed(PutInode(v, ino, inode), owner)
  {
    hide WellFormed, IsInode;
    var v' := PutInode(v, ino, inode);
    TableBlockOwned(v, owner, ino);
    forall j | IsInode(v.geo, j) && j != ino
      ensures InodeAt(v', j) == InodeAt(v, j)
    {
      RecordsDisjoint(v, owner, ino, j);
      SpliceOutside(v.disk[SlotBlock(v, ino)], SlotByte(v, ino), inode, SlotByte(v, j));
    }
    WriteKeeps(v, owner, SlotBlock(v, ino), Splice(v.disk[SlotBlock(v, ino)], SlotByte(v, ino), inode));
  }

  lemma SpliceOutside(s: Block, o: nat, t: Block, k: nat)
    requires o + |t| <= |s| && k + |t| <= |s|
    ensures k + |t| <= o || o + |t| <= k ==> Splice(s, o, t)[k..k + |t|] == s[k..k + |t|]
  {
  }
}
