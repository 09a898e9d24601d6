// An ext2 volume as a value: the logical disk together with the group
// descriptors and the superblock that the driver keeps in memory, and what it
// means for the volume to be consistent.

module Volumes {
  import opened Arith
  import opened Bytes
  import opened Bitmap

  datatype Geometry = Geometry(
    blockSize: nat,
    inodeSize: nat,
    blocksCount: nat,
    blocksPerGroup: nat,
    inodesPerGroup: nat,
    groups: nat,
    bgdSpan: nat)
  {
    /** pointers_per_block */
    function P(): nat {
      blockSize / 4
    }

    /** Inodes in one block of an inode table. */
    function InodesPerBlock(): nat
      requires inodeSize > 0
    {
      blockSize / inodeSize
    }

    /** Blocks of one group's inode table. */
    function TableBlocks(): nat
      requires blockSize > 0
    {
      (inodesPerGroup * inodeSize + blockSize - 1) / blockSize
    }

    /** Blocks in group g; the last group may be short. */
    function GroupBlocks(g: nat): int {
      if blocksCount - g * blocksPerGroup < blocksPerGroup then blocksCount - g * blocksPerGroup else blocksPerGroup
    }

    ghost predicate Ok() {
      && 1024 < blockSize < 0x1_0000 && blockSize % 1024 == 0
      && 128 <= inodeSize <= blockSize && InodesPerBlock() * inodeSize == blockSize
      && 0 < blocksPerGroup <= 8 * blockSize
      && 0 < inodesPerGroup <= 8 * blockSize && inodesPerGroup * inodeSize + 2 * blockSize <= U32
      && groups > 0 && (groups - 1) * blocksPerGroup < blocksCount <= groups * blocksPerGroup
      && blocksCount * blockSize < U32
      && 0 < bgdSpan < 256 && 32 * groups <= blockSize * bgdSpan
      && BGD_OFFSET + bgdSpan <= blocksCount
    }
  }

  /** First block of the descriptor table when blocks are larger than 1024 bytes. */
  const BGD_OFFSET := 1

  datatype Volume = Volume(geo: Geometry, disk: seq<Block>, bgd: Block, sb: Block)

  // ----- fields of the descriptors and of the superblock -----

  function BlockBitmap(bgd: Block, g: nat): nat requires 32 * g + 32 <= |bgd| { GetU32(bgd, 32 * g) }

  function InodeBitmap(bgd: Block, g: nat): nat requires 32 * g + 32 <= |bgd| { GetU32(bgd, 32 * g + 4) }

  function InodeTable(bgd: Block, g: nat): nat requires 32 * g + 32 <= |bgd| { GetU32(bgd, 32 * g + 8) }

  function FreeBlocks(bgd: Block, g: nat): nat requires 32 * g + 32 <= |bgd| { GetU16(bgd, 32 * g + 12) }

  function FreeInodes(bgd: Block, g: nat): nat requires 32 * g + 32 <= |bgd| { GetU16(bgd, 32 * g + 14) }

  function SbFreeBlocks(sb: Block): nat requires |sb| == 1024 { GetU32(sb, 12) }

  function SbFreeInodes(sb: Block): nat requires |sb| == 1024 { GetU32(sb, 16) }

  function SumFreeBlocks(bgd: Block, n: nat): nat
    requires 32 * n <= |bgd|
  {
    if n == 0 then 0 else SumFreeBlocks(bgd, n - 1) + FreeBlocks(bgd, n - 1)
  }

  function SumFreeInodes(bgd: Block, n: nat): nat
    requires 32 * n <= |bgd|
  {
    if n == 0 then 0 else SumFreeInodes(bgd, n - 1) + FreeInodes(bgd, n - 1)
  }

  lemma SmallVolume(geo: Geometry)
    requires geo.Ok()
    ensures geo.blocksCount < U32 && geo.blockSize == 4 * geo.P() && geo.P() > 0
  {
    var bs, n := geo.blockSize, geo.blocksCount;
    assert bs > 0 && bs % 1024 == 0 && n * bs < U32;
    hide Geometry.Ok;
    FactorSmaller(n, bs, U32);
    QuarterExact(bs);
  }

  lemma FactorSmaller(a: nat, b: nat, m: nat)
    requires b > 0 && a * b < m
    ensures a < m
  {
    MulLe(1, b, a);
    assert b * a == a * b;
  }

  lemma QuarterExact(bs: nat)
    requires bs > 0 && bs % 1024 == 0
    ensures bs == 4 * (bs / 4) && bs / 4 > 0
  {
    DivModParts(bs, 1024);
    DivModUnique(bs, 256 * (bs / 1024), 4, 0);
  }

  // ----- ownership -----

  /** What a block that is in use is used for. */
  datatype Role =
    | SuperRole
    | BgdRole(i: nat)
    | BlockBitmapRole(g: nat)
    | InodeBitmapRole(g: nat)
    | TableRole(g: nat, k: nat)
    | SingleRole(ino: nat)
    | DoubleRole(ino: nat)
    | LeafRole(ino: nat, c: nat)
    | DataRole(ino: nat, i: nat)
  {
    /** Blocks that the allocators themselves rewrite. */
    predicate Accounting() {
      SuperRole? || BgdRole? || BlockBitmapRole? || InodeBitmapRole?
    }

    /** Blocks that belong to one file. */
    predicate OfFile() {
      SingleRole? || DoubleRole? || LeafRole? || DataRole?
    }
  }

  /** Each block in use and its single role; sharing a block would need two roles for it. */
  type Owner = map<nat, Role>

  ghost predicate Owns(owner: Owner, b: nat, r: Role) {
    b != 0 && b in owner && owner[b] == r
  }

  // ----- consistency -----

  ghost predicate Shape(v: Volume) {
    && v.geo.Ok()
    && |v.disk| == v.geo.blocksCount
    && (forall b :: 0 <= b < |v.disk| ==> |v.disk[b]| == v.geo.blockSize)
    && |v.bgd| == v.geo.blockSize * v.geo.bgdSpan
    && |v.sb| == 1024
  }

  ghost predicate Layout(v: Volume, owner: Owner)
    requires Shape(v)
  {
    && 0 in owner && owner[0] == SuperRole
    && (forall i :: 0 <= i < v.geo.bgdSpan ==> Owns(owner, BGD_OFFSET + i, BgdRole(i)))
    && (forall g :: 0 <= g < v.geo.groups ==> Owns(owner, BlockBitmap(v.bgd, g), BlockBitmapRole(g)))
    && (forall g :: 0 <= g < v.geo.groups ==> Owns(owner, InodeBitmap(v.bgd, g), InodeBitmapRole(g)))
    && (forall g, k {:trigger TableRole(g, k)} :: 0 <= g < v.geo.groups && 0 <= k < v.geo.TableBlocks() ==>
          Owns(owner, InodeTable(v.bgd, g) + k, TableRole(g, k)))
  }

  /** The bit of block b in its group's bitmap. */
  predicate Used(v: Volume, b: nat) {
    v.geo.blocksPerGroup > 0 &&
    var g, k := b / v.geo.blocksPerGroup, b % v.geo.blocksPerGroup;
    32 * g + 32 <= |v.bgd| && BlockBitmap(v.bgd, g) < |v.disk|
    && k < 8 * |v.disk[BlockBitmap(v.bgd, g)]|
    && Bit(v.disk[BlockBitmap(v.bgd, g)], k)
  }

  ghost predicate Accounted(v: Volume, owner: Owner) {
    forall b :: b in owner ==> b < |v.disk| && Used(v, b)
  }

  ghost predicate BlockCount(v: Volume, g: nat)
    requires Shape(v) && g < v.geo.groups
  {
    var bm := BlockBitmap(v.bgd, g);
    bm < |v.disk| && 0 <= v.geo.GroupBlocks(g)
    && FreeBlocks(v.bgd, g) == ClearBits(v.disk[bm], v.geo.GroupBlocks(g))
  }

  ghost predicate InodeCount(v: Volume, g: nat)
    requires Shape(v) && g < v.geo.groups
  {
    var bm := InodeBitmap(v.bgd, g);
    bm < |v.disk| && FreeInodes(v.bgd, g) == ClearBits(v.disk[bm], v.geo.inodesPerGroup)
  }

  /** Free counts agree with the bitmaps, and the superblock with the groups. */
  ghost predicate Counts(v: Volume)
    requires Shape(v)
  {
    && (forall g :: 0 <= g < v.geo.groups ==> BlockCount(v, g))
    && (forall g :: 0 <= g < v.geo.groups ==> InodeCount(v, g))
    && SbFreeBlocks(v.sb) == SumFreeBlocks(v.bgd, v.geo.groups)
    && SbFreeInodes(v.sb) == SumFreeInodes(v.bgd, v.geo.groups)
  }

  /** Block i of the descriptor table. */
  function BgdBlock(geo: Geometry, bgd: Block, i: nat): (r: Block)
    requires |bgd| == geo.blockSize * geo.bgdSpan && i < geo.bgdSpan
    ensures |r| == geo.blockSize
  {
    MulLe(i + 1, geo.bgdSpan, geo.blockSize);
    bgd[geo.blockSize * i..geo.blockSize * i + geo.blockSize]
  }

  /** Block i of the table read into its place in memory. */
  function PutBgdBlock(geo: Geometry, bgd: Block, i: nat, b: Block): (r: Block)
    requires |bgd| == geo.blockSize * geo.bgdSpan && i < geo.bgdSpan && |b| == geo.blockSize
    ensures |r| == |bgd| && BgdBlock(geo, r, i) == b
    ensures forall j :: 0 <= j < i ==> BgdBlock(geo, r, j) == BgdBlock(geo, bgd, j)
  {
    MulLe(i + 1, geo.bgdSpan, geo.blockSize);
    var r := Splice(bgd, geo.blockSize * i, b);
    assert forall j :: 0 <= j < i ==> BgdBlock(geo, r, j) == BgdBlock(geo, bgd, j) by {
      forall j | 0 <= j < i
        ensures BgdBlock(geo, r, j) == BgdBlock(geo, bgd, j)
      {
        MulLe(j + 1, i, geo.blockSize);
        SpliceBefore(bgd, geo.blockSize * i, b, geo.blockSize * j, geo.blockSize);
      }
    }
    r
  }

  lemma SpliceBefore(s: Block, o: nat, t: Block, k: nat, n: nat)
    requires o + |t| <= |s| && k + n <= o
    ensures Splice(s, o, t)[k..k + n] == s[k..k + n]
  {
  }

  ghost predicate BgdOnDisk(v: Volume, i: nat)
    requires Shape(v) && i < v.geo.bgdSpan
  {
    v.disk[BGD_OFFSET + i] == BgdBlock(v.geo, v.bgd, i)
  }

  /** The disk holds the descriptors and the superblock that are in memory. */
  ghost predicate Mirrored(v: Volume)
    requires Shape(v)
  {
    && (forall i :: 0 <= i < v.geo.bgdSpan ==> BgdOnDisk(v, i))
    && v.disk[0][1024..2048] == v.sb
  }

  /** The blocks from block 1 on, one behind the other, are the descriptor table. */
  lemma DescriptorBytes(v: Volume, i: nat)
    requires Shape(v) && Mirrored(v) && i < v.geo.bgdSpan
    ensures 1 + i < |v.disk| && v.geo.blockSize * i + v.geo.blockSize <= |v.bgd|
    ensures v.bgd[v.geo.blockSize * i..v.geo.blockSize * i + v.geo.blockSize] == v.disk[1 + i]
  {
    assert BgdOnDisk(v, i);
    MulLe(i + 1, v.geo.bgdSpan, v.geo.blockSize);
  }

  ghost predicate WellFormed(v: Volume, owner: Owner) {
    Shape(v) && Layout(v, owner) && Accounted(v, owner) && Counts(v) && Mirrored(v)
  }

  // ----- what writes outside the accounting blocks keep -----

  /** A volume together with what its blocks are used for. */
  datatype State = State(v: Volume, owner: Owner)

  ghost predicate SameAccounting(v: Volume, v': Volume, owner: Owner) {
    && v'.geo == v.geo && v'.bgd == v.bgd && v'.sb == v.sb
    && |v'.disk| == |v.disk|
    && (forall b :: 0 <= b < |v.disk| ==> |v'.disk[b]| == |v.disk[b]|)
    && (forall b :: b in owner && owner[b].Accounting() && b < |v.disk| ==> v'.disk[b] == v.disk[b])
  }

  lemma WellFormedFrame(v: Volume, v': Volume, owner: Owner)
    requires WellFormed(v, owner) && SameAccounting(v, v', owner)
    ensures WellFormed(v', owner)
    ensures forall b :: 0 <= b < |v.disk| ==> Used(v', b) == Used(v, b)
  {
    assert Shape(v') && Layout(v', owner);
    UsedFrame(v, v', owner);
    CountsFrame(v, v', owner);
    MirrorFrame(v, v', owner);
    hide Shape, Layout, Counts, Mirrored, Used;
  }

  lemma CountsFrame(v: Volume, v': Volume, owner: Owner)
    requires Shape(v) && Shape(v') && Layout(v, owner) && Counts(v) && SameAccounting(v, v', owner)
    ensures Counts(v')
  {
    forall g | 0 <= g < v.geo.groups
      ensures BlockCount(v', g) && InodeCount(v', g)
    {
      assert Owns(owner, BlockBitmap(v.bgd, g), BlockBitmapRole(g));
      assert Owns(owner, InodeBitmap(v.bgd, g), InodeBitmapRole(g));
      assert BlockCount(v, g) && InodeCount(v, g);
    }
  }

  lemma MirrorFrame(v: Volume, v': Volume, owner: Owner)
    requires Shape(v) && Shape(v') && Layout(v, owner) && Mirrored(v) && SameAccounting(v, v', owner)
    ensures Mirrored(v')
  {
    forall i | 0 <= i < v.geo.bgdSpan
      ensures BgdOnDisk(v', i)
    {
      assert BgdOnDisk(v, i);
      assert Owns(owner, BGD_OFFSET + i, BgdRole(i));
    }
  }

  lemma UsedFrame(v: Volume, v': Volume, owner: Owner)
    requires Shape(v) && Layout(v, owner) && SameAccounting(v, v', owner)
    requires forall b :: b in owner ==> b < |v.disk|
    ensures forall b :: 0 <= b < |v.disk| ==> Used(v', b) == Used(v, b)
  {
    forall b | 0 <= b < |v.disk|
      ensures Used(v', b) == Used(v, b)
    {
      GroupInRange(v.geo, b);
      assert Owns(owner, BlockBitmap(v.bgd, b / v.geo.blocksPerGroup), BlockBitmapRole(b / v.geo.blocksPerGroup));
    }
  }

  lemma GroupInRange(geo: Geometry, b: nat)
    requires geo.Ok() && b < geo.blocksCount
    ensures 0 <= b / geo.blocksPerGroup < geo.groups
    ensures 0 <= b % geo.blocksPerGroup < geo.GroupBlocks(b / geo.blocksPerGroup) <= geo.blocksPerGroup
  {
    var g := b / geo.blocksPerGroup;
    DivModParts(b, geo.blocksPerGroup);
    if g >= geo.groups {
      MulLe(geo.groups, g, geo.blocksPerGroup);
    }
  }

  lemma GroupBlocksPositive(geo: Geometry, g: nat)
    requires geo.Ok() && g < geo.groups
    ensures 0 < geo.GroupBlocks(g) <= geo.blocksPerGroup
  {
    MulLe(g, geo.groups - 1, geo.blocksPerGroup);
  }

  /** Writing an owned block that is not an accounting block keeps the volume consistent. */
  lemma WriteKeeps(v: Volume, owner: Owner, b: nat, data: Block)
    requires WellFormed(v, owner) && b in owner && !owner[b].Accounting() && |data| == v.geo.blockSize
    ensures WellFormed(v.(disk := v.disk[b := data]), owner)
  {
    WellFormedFrame(v, v.(disk := v.disk[b := data]), owner);
  }

  /** The disk determines what is kept in memory. */
  lemma MirrorUnique(v: Volume, w: Volume)
    requires Shape(v) && Shape(w) && v.geo == w.geo && v.disk == w.disk && Mirrored(v) && Mirrored(w)
    ensures v == w
  {
    hide BgdBlock;
    forall i | 0 <= i < v.geo.bgdSpan
      ensures BgdBlock(v.geo, v.bgd, i) == BgdBlock(v.geo, w.bgd, i)
    {
      assert BgdOnDisk(v, i) && BgdOnDisk(w, i);
    }
    SameBlocksSame(v.geo, v.bgd, w.bgd);
  }

  lemma OnlyVolume(w: Volume, o: Owner)
    requires Shape(w) && w.disk[0][1024..2048] == w.sb
    requires forall i :: 0 <= i < w.geo.bgdSpan ==> BgdBlock(w.geo, w.bgd, i) == w.disk[BGD_OFFSET + i]
    ensures forall v :: WellFormed(v, o) && v.geo == w.geo && v.disk == w.disk ==> w == v
  {
    hide BgdBlock, Layout, Accounted, Counts, Geometry.Ok;
    assert Mirrored(w);
    forall v | WellFormed(v, o) && v.geo == w.geo && v.disk == w.disk
      ensures w == v
    {
      MirrorUnique(v, w);
    }
  }

  lemma BgdByte(geo: Geometry, bgd: Block, i: nat, j: nat)
    requires |bgd| == geo.blockSize * geo.bgdSpan && i < geo.bgdSpan && j < geo.blockSize
    ensures 0 <= geo.blockSize * i + j < |bgd| && bgd[geo.blockSize * i + j] == BgdBlock(geo, bgd, i)[j]
  {
    MulLe(i + 1, geo.bgdSpan, geo.blockSize);
  }

  lemma SameBlocksSame(geo: Geometry, a: Block, b: Block)
    requires |a| == |b| == geo.blockSize * geo.bgdSpan && geo.blockSize > 0
    requires forall i :: 0 <= i < geo.bgdSpan ==> BgdBlock(geo, a, i) == BgdBlock(geo, b, i)
    ensures a == b
  {
    hide BgdBlock;
    forall k | 0 <= k < |a|
      ensures a[k] == b[k]
    {
      var i, j := k / geo.blockSize, k % geo.blockSize;
      DivModParts(k, geo.blockSize);
      DivBelow(k, geo.bgdSpan, geo.blockSize);
      BgdByte(geo, a, i, j);
      BgdByte(geo, b, i, j);
      assert BgdBlock(geo, a, i) == BgdBlock(geo, b, i);
      assert k == geo.blockSize * i + j;
    }
  }
}
