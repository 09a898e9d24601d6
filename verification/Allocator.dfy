// Taking a block or an inode from the bitmaps: the accounting that every
// allocation keeps, and what follows for whole runs.

module Allocation {
  import opened Arith
  import opened Bytes
  import opened Bitmap
  import opened Volumes

  // ----- effect on the descriptors and the superblock -----

  /** The descriptors point to the same bitmaps and tables. */
  ghost predicate SamePointers(bgd: Block, bgd': Block) {
    && |bgd'| == |bgd|
    && forall g: nat :: 32 * g + 32 <= |bgd| ==>
         BlockBitmap(bgd', g) == BlockBitmap(bgd, g) && InodeBitmap(bgd', g) == InodeBitmap(bgd, g)
         && InodeTable(bgd', g) == InodeTable(bgd, g)
  }

  /** The superblock differs at most in its two free counts. */
  ghost predicate SameFields(sb: Block, sb': Block) {
    |sb'| == |sb| && forall k :: 0 <= k < |sb| && !(12 <= k < 20) ==> sb'[k] == sb[k]
  }

  lemma PointersRefl(bgd: Block)
    ensures SamePointers(bgd, bgd)
  {
  }

  /** free_blocks_count-- (o == 12) or free_inodes_count-- (o == 14) in descriptor g. */
  function TakeFromGroup(bgd: Block, g: nat, o: nat): (r: Block)
    requires 32 * g + 32 <= |bgd| && (o == 12 || o == 14) && GetU16(bgd, 32 * g + o) > 0
    ensures |r| == |bgd|
  {
    PutU16(bgd, 32 * g + o, GetU16(bgd, 32 * g + o) - 1)
  }

  lemma TakeField(bgd: Block, g: nat, o: nat, k: nat)
    requires 32 * g + 32 <= |bgd| && (o == 12 || o == 14) && GetU16(bgd, 32 * g + o) > 0 && 32 * k + 32 <= |bgd|
    ensures var r := TakeFromGroup(bgd, g, o);
            && BlockBitmap(r, k) == BlockBitmap(bgd, k) && InodeBitmap(r, k) == InodeBitmap(bgd, k)
            && InodeTable(r, k) == InodeTable(bgd, k)
            && FreeBlocks(r, k) == FreeBlocks(bgd, k) - (if k == g && o == 12 then 1 else 0)
            && FreeInodes(r, k) == FreeInodes(bgd, k) - (if k == g && o == 14 then 1 else 0)
  {
    var r := TakeFromGroup(bgd, g, o);
    assert forall j :: 0 <= j < |bgd| && !(32 * g + o <= j < 32 * g + o + 2) ==> r[j] == bgd[j];
    assert GetU16(r, 32 * g + o) == GetU16(bgd, 32 * g + o) - 1;
    hide PutU16, TakeFromGroup;
  }

  lemma TakeKeepsPointers(bgd: Block, g: nat, o: nat)
    requires 32 * g + 32 <= |bgd| && (o == 12 || o == 14) && GetU16(bgd, 32 * g + o) > 0
    ensures SamePointers(bgd, TakeFromGroup(bgd, g, o))
  {
    forall k: nat | 32 * k + 32 <= |bgd|
      ensures var r := TakeFromGroup(bgd, g, o);
              BlockBitmap(r, k) == BlockBitmap(bgd, k) && InodeBitmap(r, k) == InodeBitmap(bgd, k)
              && InodeTable(r, k) == InodeTable(bgd, k)
    {
      TakeField(bgd, g, o, k);
    }
  }

  lemma {:induction false} SumsAfterTake(bgd: Block, g: nat, o: nat, n: nat)
    requires 32 * g + 32 <= |bgd| && 32 * n <= |bgd| && (o == 12 || o == 14) && GetU16(bgd, 32 * g + o) > 0
    ensures SumFreeBlocks(TakeFromGroup(bgd, g, o), n) == SumFreeBlocks(bgd, n) - (if g < n && o == 12 then 1 else 0)
    ensures SumFreeInodes(TakeFromGroup(bgd, g, o), n) == SumFreeInodes(bgd, n) - (if g < n && o == 14 then 1 else 0)
  {
    if n > 0 {
      SumsAfterTake(bgd, g, o, n - 1);
      TakeField(bgd, g, o, n - 1);
    }
  }

  lemma {:induction false} SumAtLeast(bgd: Block, g: nat, n: nat)
    requires 32 * n <= |bgd| && g < n
    ensures SumFreeBlocks(bgd, n) >= FreeBlocks(bgd, g) && SumFreeInodes(bgd, n) >= FreeInodes(bgd, g)
  {
    if g < n - 1 {
      SumAtLeast(bgd, g, n - 1);
    }
  }

  lemma {:induction false} SumOfNone(bgd: Block, n: nat)
    requires 32 * n <= |bgd|
    ensures (forall g :: 0 <= g < n ==> FreeBlocks(bgd, g) == 0) ==> SumFreeBlocks(bgd, n) == 0
    ensures (forall g :: 0 <= g < n ==> FreeInodes(bgd, g) == 0) ==> SumFreeInodes(bgd, n) == 0
  {
    if n > 0 {
      SumOfNone(bgd, n - 1);
    }
  }

  /** The descriptor table written back to its blocks. */
  function StoreBgd(disk: seq<Block>, geo: Geometry, bgd: Block): (d: seq<Block>)
    requires |bgd| == geo.blockSize * geo.bgdSpan
    ensures |d| == |disk|
    ensures forall b :: 0 <= b < |disk| ==>
              d[b] == if BGD_OFFSET <= b < BGD_OFFSET + geo.bgdSpan then BgdBlock(geo, bgd, b - BGD_OFFSET) else disk[b]
  {
    seq(|disk|, b requires 0 <= b < |disk| =>
      if BGD_OFFSET <= b < BGD_OFFSET + geo.bgdSpan then BgdBlock(geo, bgd, b - BGD_OFFSET) else disk[b])
  }

  // ----- the bitmaps as bytes -----

  /** Byte k / 8 of the block has the bit of weight 2 to the k % 8. */
  predicate Marked(bm: Block, k: nat) {
    k / 8 < |bm| && bm[k / 8] / Pow2(k % 8) % 2 == 1
  }

  lemma MarkedBit(bm: Block, k: nat)
    requires k < 8 * |bm|
    ensures Marked(bm, k) <==> Bit(bm, k)
  {
    BitWeight(bm[k / 8], k % 8);
  }

  /** Block k of group g is in use exactly when the bitmap at byte 0 of its group's descriptor marks it. */
  lemma UsedOnDisk(v: Volume, g: nat, k: nat)
    requires k < v.geo.blocksPerGroup && 32 * g + 32 <= |v.bgd| && GetU32(v.bgd, 32 * g) < |v.disk|
             && k < 8 * |v.disk[GetU32(v.bgd, 32 * g)]|
    ensures Used(v, g * v.geo.blocksPerGroup + k) <==> Marked(v.disk[GetU32(v.bgd, 32 * g)], k)
  {
    hide GetU32, Marked, Bit;
    DivModUnique(g * v.geo.blocksPerGroup + k, g, v.geo.blocksPerGroup, k);
    MarkedBit(v.disk[GetU32(v.bgd, 32 * g)], k);
  }

  // ----- setting one bit and writing the counts back -----

  ghost predicate Recountable(v: Volume, bm: nat, k: nat, bgd': Block, sb': Block) {
    && Shape(v) && bm < |v.disk| && k < 8 * |v.disk[bm]|
    && SamePointers(v.bgd, bgd') && |sb'| == 1024
  }

  /** Bit k of bitmap block bm is set, and the new descriptors and superblock are stored. */
  ghost function TakeBit(v: Volume, bm: nat, k: nat, bgd': Block, sb': Block): (v': Volume)
    requires Recountable(v, bm, k, bgd', sb')
  {
    var d := StoreBgd(v.disk[bm := SetBit(v.disk[bm], k)], v.geo, bgd');
    v.(disk := d[0 := Splice(d[0], 1024, sb')], bgd := bgd', sb := sb')
  }

  /** Only bitmap bm and the descriptor and superblock copies change among the owned blocks. */
  ghost predicate BitFrame(v: Volume, v': Volume, owner: Owner, bm: nat, k: nat) {
    && |v'.disk| == |v.disk| && bm < |v.disk| && k < 8 * |v.disk[bm]|
    && v'.disk[bm] == SetBit(v.disk[bm], k)
    && (forall b :: b in owner && b < |v.disk| && !owner[b].SuperRole? && !owner[b].BgdRole? && b != bm ==>
          v'.disk[b] == v.disk[b])
  }

  lemma NotBgd(v: Volume, owner: Owner, b: nat)
    requires Shape(v) && Layout(v, owner) && b in owner
    ensures BGD_OFFSET <= b < BGD_OFFSET + v.geo.bgdSpan ==> owner[b].BgdRole?
  {
    if BGD_OFFSET <= b < BGD_OFFSET + v.geo.bgdSpan {
      assert Owns(owner, BGD_OFFSET + (b - BGD_OFFSET), BgdRole(b - BGD_OFFSET));
    }
  }

  lemma TakeBitShape(v: Volume, bm: nat, k: nat, bgd': Block, sb': Block)
    requires Recountable(v, bm, k, bgd', sb') && bm != 0
    ensures Shape(TakeBit(v, bm, k, bgd', sb')) && Mirrored(TakeBit(v, bm, k, bgd', sb'))
  {
    var v' := TakeBit(v, bm, k, bgd', sb');
    assert forall b :: 0 <= b < |v'.disk| ==> |v'.disk[b]| == v.geo.blockSize;
    forall i | 0 <= i < v.geo.bgdSpan
      ensures BgdOnDisk(v', i)
    {
      assert v'.disk[BGD_OFFSET + i] == BgdBlock(v.geo, bgd', i);
    }
  }

  lemma TakeBitFrame(v: Volume, owner: Owner, bm: nat, k: nat, bgd': Block, sb': Block)
    requires Recountable(v, bm, k, bgd', sb') && Layout(v, owner)
    requires bm in owner && (owner[bm].BlockBitmapRole? || owner[bm].InodeBitmapRole?)
    ensures BitFrame(v, TakeBit(v, bm, k, bgd', sb'), owner, bm, k)
  {
    var v' := TakeBit(v, bm, k, bgd', sb');
    NotBgd(v, owner, bm);
    forall b | b in owner && b < |v.disk| && !owner[b].SuperRole? && !owner[b].BgdRole? && b != bm
      ensures v'.disk[b] == v.disk[b]
    {
      NotBgd(v, owner, b);
    }
  }

  lemma LayoutKept(v: Volume, v': Volume, owner: Owner)
    requires Shape(v) && Shape(v') && Layout(v, owner) && v'.geo == v.geo && SamePointers(v.bgd, v'.bgd)
    ensures Layout(v', owner)
  {
    assert forall g: nat :: g < v.geo.groups ==> 32 * g + 32 <= |v.bgd|;
  }

  /** A bit of the block bitmaps after bit k of bitmap bm was set. */
  lemma UsedAfter(v: Volume, v': Volume, owner: Owner, g: nat, k: nat, b: nat)
    requires Shape(v) && Shape(v') && Layout(v, owner) && v'.geo == v.geo && SamePointers(v.bgd, v'.bgd)
    requires g < v.geo.groups && BitFrame(v, v', owner, BlockBitmap(v.bgd, g), k) && b < |v.disk|
    requires forall x :: x in owner ==> x < |v.disk|
    ensures Used(v', b) <==> Used(v, b) || (b / v.geo.blocksPerGroup == g && b % v.geo.blocksPerGroup == k)
  {
    GroupInRange(v.geo, b);
    var gb := b / v.geo.blocksPerGroup;
    assert Owns(owner, BlockBitmap(v.bgd, gb), BlockBitmapRole(gb));
    assert Owns(owner, BlockBitmap(v.bgd, g), BlockBitmapRole(g));
    assert 32 * gb + 32 <= |v.bgd|;
  }

  lemma UsedKept(v: Volume, v': Volume, owner: Owner, bm: nat, k: nat, b: nat)
    requires Shape(v) && Shape(v') && Layout(v, owner) && v'.geo == v.geo && SamePointers(v.bgd, v'.bgd)
    requires bm in owner && owner[bm].InodeBitmapRole? && BitFrame(v, v', owner, bm, k) && b < |v.disk|
    requires forall x :: x in owner ==> x < |v.disk|
    ensures Used(v', b) <==> Used(v, b)
  {
    GroupInRange(v.geo, b);
    var gb := b / v.geo.blocksPerGroup;
    assert Owns(owner, BlockBitmap(v.bgd, gb), BlockBitmapRole(gb));
    assert 32 * gb + 32 <= |v.bgd|;
  }

  // ----- taking a block -----

  /** Group g has a free block, at bit k. */
  ghost predicate FreeBit(v: Volume, owner: Owner, g: nat, k: nat) {
    && WellFormed(v, owner) && g < v.geo.groups && FreeBlocks(v.bgd, g) > 0
    && k < v.geo.GroupBlocks(g) && BlockCount(v, g) && !Bit(v.disk[BlockBitmap(v.bgd, g)], k)
  }

  function SbTake(sb: Block, o: nat): (r: Block)
    requires |sb| == 1024 && (o == 12 || o == 16) && GetU32(sb, o) > 0
    ensures |r| == 1024
    ensures SbFreeBlocks(r) == SbFreeBlocks(sb) - if o == 12 then 1 else 0
    ensures SbFreeInodes(r) == SbFreeInodes(sb) - if o == 16 then 1 else 0
    ensures SameFields(sb, r)
  {
    PutU32(sb, o, GetU32(sb, o) - 1)
  }

  lemma TakeBlockReady(v: Volume, owner: Owner, g: nat, k: nat)
    requires FreeBit(v, owner, g, k)
    ensures 0 < SbFreeBlocks(v.sb)
    ensures Recountable(v, BlockBitmap(v.bgd, g), k, TakeFromGroup(v.bgd, g, 12), SbTake(v.sb, 12))
    ensures Owns(owner, BlockBitmap(v.bgd, g), BlockBitmapRole(g))
  {
    SumAtLeast(v.bgd, g, v.geo.groups);
    TakeKeepsPointers(v.bgd, g, 12);
    GroupBlocksPositive(v.geo, g);
    assert Owns(owner, BlockBitmap(v.bgd, g), BlockBitmapRole(g));
  }

  lemma FreeTotal(v: Volume, owner: Owner)
    requires WellFormed(v, owner)
    ensures SbFreeBlocks(v.sb) == SumFreeBlocks(v.bgd, v.geo.groups)
    ensures SbFreeInodes(v.sb) == SumFreeInodes(v.bgd, v.geo.groups)
  {
  }

  /** What the scan of group g may rely on. */
  lemma BitmapToScan(v: Volume, owner: Owner, g: nat)
    requires WellFormed(v, owner) && g < v.geo.groups && FreeBlocks(v.bgd, g) > 0
    ensures 32 * g + 32 <= |v.bgd|
    ensures var bm := BlockBitmap(v.bgd, g);
            && |v.disk| == v.geo.blocksCount
            && 0 < bm < |v.disk| && |v.disk[bm]| == v.geo.blockSize && 0 <= v.geo.GroupBlocks(g) <= 8 * v.geo.blockSize
            && ClearBits(v.disk[bm], v.geo.GroupBlocks(g)) > 0
            && forall k: nat :: k < v.geo.GroupBlocks(g) && !Bit(v.disk[bm], k) ==> FreeBit(v, owner, g, k)
  {
    hide Layout, Counts, Accounted, Mirrored, Bit, ClearBits, Geometry.GroupBlocks;
    CountsAt(v, owner, g);
    BitmapsDiffer(v, owner, g, g);
    BitmapNotZero(v, owner, g);
  }

  lemma InodeBitmapToScan(v: Volume, owner: Owner, g: nat)
    requires WellFormed(v, owner) && g < v.geo.groups && FreeInodes(v.bgd, g) > 0
    ensures 32 * g + 32 <= |v.bgd|
    ensures var bm := InodeBitmap(v.bgd, g);
            && |v.disk| == v.geo.blocksCount
            && 0 < bm < |v.disk| && |v.disk[bm]| == v.geo.blockSize && v.geo.inodesPerGroup <= 8 * v.geo.blockSize
            && ClearBits(v.disk[bm], v.geo.inodesPerGroup) > 0
            && forall k: nat :: k < v.geo.inodesPerGroup && !Bit(v.disk[bm], k) ==> FreeInodeBit(v, owner, g, k)
  {
    hide Layout, Counts, Accounted, Mirrored, Bit, ClearBits;
    CountsAt(v, owner, g);
    InodeBitmapsDiffer(v, owner, g, g);
    BitmapNotZero(v, owner, g);
  }

  lemma BitmapNotZero(v: Volume, owner: Owner, g: nat)
    requires WellFormed(v, owner) && g < v.geo.groups
    ensures BlockBitmap(v.bgd, g) != 0 && InodeBitmap(v.bgd, g) != 0
  {
    assert Owns(owner, BlockBitmap(v.bgd, g), BlockBitmapRole(g));
    assert Owns(owner, InodeBitmap(v.bgd, g), InodeBitmapRole(g));
  }

  /** When the earlier groups are full and the earlier bits of group g are set, the block found is the least free
      one. */
  lemma LeastFree(v: Volume, owner: Owner, g: nat, k: nat)
    requires FreeBit(v, owner, g, k)
    requires forall j :: 0 <= j < g ==> FreeBlocks(v.bgd, j) == 0
    requires forall j :: 0 <= j < k ==> Bit(v.disk[BlockBitmap(v.bgd, g)], j)
    ensures forall b :: 0 <= b < BlockNo(v.geo, g, k) ==> Used(v, b)
  {
    hide Layout, Counts, Accounted, Mirrored, Bit, ClearBits, BlockNo;
    BlockNoInRange(v, owner, g, k);
    forall b | 0 <= b < BlockNo(v.geo, g, k)
      ensures Used(v, b)
    {
      var gb, kb := b / v.geo.blocksPerGroup, b % v.geo.blocksPerGroup;
      GroupInRange(v.geo, b);
      Before(b, BlockNo(v.geo, g, k), v.geo.blocksPerGroup);
      CountsAt(v, owner, gb);
      if gb < g {
        NoClearBit(v.disk[BlockBitmap(v.bgd, gb)], v.geo.GroupBlocks(gb), kb);
      }
    }
  }

  /** The smaller number has the smaller quotient, or the same and the smaller remainder. */
  lemma Before(a: nat, b: nat, d: nat)
    requires d > 0 && a < b
    ensures a / d < b / d || (a / d == b / d && a % d < b % d)
  {
    DivModParts(a, d);
    DivModParts(b, d);
    if b / d < a / d {
      MulLe(b / d + 1, a / d, d);
    }
  }

  lemma {:induction false} NoClearBit(bm: Block, n: nat, k: nat)
    requires k < n <= 8 * |bm| && ClearBits(bm, n) == 0
    ensures Bit(bm, k)
  {
    if k < n - 1 {
      NoClearBit(bm, n - 1, k);
    }
  }

  lemma SameLength(bgd: Block, bgd': Block)
    requires SamePointers(bgd, bgd')
    ensures |bgd'| == |bgd|
  {
  }

  lemma BitmapToTake(v: Volume, owner: Owner, g: nat, k: nat)
    requires FreeBit(v, owner, g, k)
    ensures 32 * g + 32 <= |v.bgd| && FreeBlocks(v.bgd, g) > 0 && |v.disk| == v.geo.blocksCount
    ensures var bm := BlockBitmap(v.bgd, g);
            0 < bm < |v.disk| && |v.disk[bm]| == v.geo.blockSize && k < 8 * v.geo.blockSize
    ensures |v.bgd| == v.geo.blockSize * v.geo.bgdSpan && |v.sb| == 1024
  {
    BitmapToScan(v, owner, g);
  }

  function BlockNo(geo: Geometry, g: nat, k: nat): (r: nat) {
    g * geo.blocksPerGroup + k
  }

  /** The volume after allocate_block took bit k of group g. */
  ghost function TakeBlock(v: Volume, owner: Owner, g: nat, k: nat): (v': Volume)
    requires FreeBit(v, owner, g, k)
  {
    TakeBlockReady(v, owner, g, k);
    var v1 := TakeBit(v, BlockBitmap(v.bgd, g), k, TakeFromGroup(v.bgd, g, 12), SbTake(v.sb, 12));
    BlockNoInRange(v, owner, g, k);
    v1.(disk := v1.disk[BlockNo(v.geo, g, k) := Zeros(v.geo.blockSize)])
  }

  lemma BlockNoInRange(v: Volume, owner: Owner, g: nat, k: nat)
    requires FreeBit(v, owner, g, k)
    ensures var r := BlockNo(v.geo, g, k);
            && r < |v.disk| && r / v.geo.blocksPerGroup == g && r % v.geo.blocksPerGroup == k
  {
    GroupBlocksPositive(v.geo, g);
    DivModUnique(BlockNo(v.geo, g, k), g, v.geo.blocksPerGroup, k);
  }

  /** The block taken was not in use: no owned block, and in particular not block 0. */
  lemma TakenIsFresh(v: Volume, owner: Owner, g: nat, k: nat)
    requires FreeBit(v, owner, g, k)
    ensures var r := BlockNo(v.geo, g, k); 0 < r < |v.disk| && r !in owner && !Used(v, r)
  {
    BlockNoInRange(v, owner, g, k);
  }

  /** What the rest of the driver may rely on after one block was taken. */
  ghost predicate BlockTaken(v: Volume, owner: Owner, v': Volume, r: nat) {
    && v'.geo == v.geo && |v'.disk| == |v.disk| && SamePointers(v.bgd, v'.bgd) && SameFields(v.sb, v'.sb)
    && 0 < r < |v.disk| && r !in owner && !Used(v, r)
    && v'.disk[r] == Zeros(v.geo.blockSize)
    && |v.sb| == |v'.sb| == 1024 && SbFreeBlocks(v'.sb) == SbFreeBlocks(v.sb) - 1
        && SbFreeInodes(v'.sb) == SbFreeInodes(v.sb)
    && (forall b :: b in owner && b < |v.disk| && (owner[b].InodeBitmapRole? || !owner[b].Accounting()) ==>
          v'.disk[b] == v.disk[b])
    && (forall b :: 0 <= b < |v.disk| ==> (Used(v', b) <==> b == r || Used(v, b)))
  }

  /** v' has the descriptors, the superblock and the bitmap of v with bit k of group g taken. */
  ghost predicate TookBit(v: Volume, owner: Owner, v': Volume, g: nat, k: nat) {
    && Shape(v) && Shape(v') && v'.geo == v.geo && g < v.geo.groups && FreeBlocks(v.bgd, g) > 0
        && SbFreeBlocks(v.sb) > 0
    && v'.bgd == TakeFromGroup(v.bgd, g, 12) && v'.sb == SbTake(v.sb, 12)
    && SamePointers(v.bgd, v'.bgd)
    && BitFrame(v, v', owner, BlockBitmap(v.bgd, g), k)
  }

  lemma TakeBlockBits(v: Volume, owner: Owner, g: nat, k: nat)
    requires FreeBit(v, owner, g, k)
    ensures var v' := TakeBlock(v, owner, g, k);
            && Shape(v') && Mirrored(v') && Layout(v', owner) && TookBit(v, owner, v', g, k)
            && BlockNo(v.geo, g, k) < |v'.disk| && v'.disk[BlockNo(v.geo, g, k)] == Zeros(v.geo.blockSize)
  {
    hide Mirrored, Layout, SamePointers, Accounted, Counts, BlockCount, SetBit, SbTake, TakeFromGroup;
    TakeBlockReady(v, owner, g, k);
    TakenIsFresh(v, owner, g, k);
    var bm, bgd', sb' := BlockBitmap(v.bgd, g), TakeFromGroup(v.bgd, g, 12), SbTake(v.sb, 12);
    var v1 := TakeBit(v, bm, k, bgd', sb');
    TakeBitShape(v, bm, k, bgd', sb');
    TakeBitFrame(v, owner, bm, k, bgd', sb');
    LayoutKept(v, v1, owner);
    ZeroingKeeps(v1, owner, BlockNo(v.geo, g, k));
  }

  /** Zeroing a block that nobody owns disturbs neither the descriptor copies nor the layout. */
  lemma ZeroingKeeps(v: Volume, owner: Owner, r: nat)
    requires Shape(v) && Mirrored(v) && Layout(v, owner) && r < |v.disk| && r !in owner
    ensures var v' := v.(disk := v.disk[r := Zeros(v.geo.blockSize)]); Shape(v') && Mirrored(v') && Layout(v', owner)
  {
    var v' := v.(disk := v.disk[r := Zeros(v.geo.blockSize)]);
    forall i | 0 <= i < v.geo.bgdSpan
      ensures BgdOnDisk(v', i)
    {
      assert Owns(owner, BGD_OFFSET + i, BgdRole(i));
      assert BgdOnDisk(v, i);
    }
  }

  lemma CountsAt(v: Volume, owner: Owner, g: nat)
    requires WellFormed(v, owner) && g < v.geo.groups
    ensures BlockCount(v, g) && InodeCount(v, g) && 0 < v.geo.GroupBlocks(g) <= v.geo.blocksPerGroup
  {
    GroupBlocksPositive(v.geo, g);
  }

  lemma TakeBlockCount(v: Volume, owner: Owner, v': Volume, g: nat, k: nat, g2: nat)
    requires FreeBit(v, owner, g, k) && TookBit(v, owner, v', g, k) && g2 < v.geo.groups
    ensures BlockCount(v', g2) && InodeCount(v', g2)
  {
    hide Layout, SamePointers, Accounted, Counts, Mirrored, SetBit, TakeFromGroup, Bit, SbTake;
    TakeField(v.bgd, g, 12, g2);
    CountsAt(v, owner, g2);
    CountsAt(v, owner, g);
    SetBitCount(v.disk[BlockBitmap(v.bgd, g)], k, v.geo.GroupBlocks(g));
    BitmapsDiffer(v, owner, g, g2);
  }

  lemma BitmapsDiffer(v: Volume, owner: Owner, g: nat, g2: nat)
    requires WellFormed(v, owner) && g < v.geo.groups && g2 < v.geo.groups
    ensures var b, b2, i2 := BlockBitmap(v.bgd, g), BlockBitmap(v.bgd, g2), InodeBitmap(v.bgd, g2);
            && b in owner && b2 in owner && i2 in owner && b2 < |v.disk| && i2 < |v.disk|
            && owner[b2] == BlockBitmapRole(g2) && owner[i2] == InodeBitmapRole(g2)
            && b != i2 && (b == b2 ==> g == g2)
  {
    assert Owns(owner, BlockBitmap(v.bgd, g), BlockBitmapRole(g));
    assert Owns(owner, BlockBitmap(v.bgd, g2), BlockBitmapRole(g2));
    assert Owns(owner, InodeBitmap(v.bgd, g2), InodeBitmapRole(g2));
  }

  lemma TakeBlockCounts(v: Volume, owner: Owner, v': Volume, g: nat, k: nat)
    requires FreeBit(v, owner, g, k) && TookBit(v, owner, v', g, k)
    ensures Counts(v')
  {
    hide Layout, SamePointers, Accounted, Mirrored, BlockCount, InodeCount, BitFrame, TakeFromGroup, SumFreeBlocks,
         SumFreeInodes;
    forall g2 | 0 <= g2 < v.geo.groups
      ensures BlockCount(v', g2) && InodeCount(v', g2)
    {
      TakeBlockCount(v, owner, v', g, k, g2);
    }
    SumsAfterTake(v.bgd, g, 12, v.geo.groups);
  }

  lemma TakeBlockUsed(v: Volume, owner: Owner, v': Volume, g: nat, k: nat)
    requires FreeBit(v, owner, g, k) && TookBit(v, owner, v', g, k)
    ensures forall b :: 0 <= b < |v.disk| ==> (Used(v', b) <==> b == BlockNo(v.geo, g, k) || Used(v, b))
  {
    hide Layout, SamePointers, Mirrored, Counts, BlockCount, Used, BitFrame, TakeFromGroup;
    BlockNoInRange(v, owner, g, k);
    forall b | 0 <= b < |v.disk|
      ensures Used(v', b) <==> b == BlockNo(v.geo, g, k) || Used(v, b)
    {
      UsedAfter(v, v', owner, g, k, b);
      DivModParts(b, v.geo.blocksPerGroup);
    }
  }

  lemma TakeBlockEffect(v: Volume, owner: Owner, g: nat, k: nat)
    requires FreeBit(v, owner, g, k)
    ensures BlockTaken(v, owner, TakeBlock(v, owner, g, k), BlockNo(v.geo, g, k))
  {
    hide TakeBlock, Layout, SamePointers, Mirrored, Counts, BlockCount, Used, TakeFromGroup, SetBit, BlockNo, Accounted,
         SbTake;
    var v' := TakeBlock(v, owner, g, k);
    TakeBlockBits(v, owner, g, k);
    TakenIsFresh(v, owner, g, k);
    TakeBlockUsed(v, owner, v', g, k);
    BitmapsDiffer(v, owner, g, g);
  }

  /** One allocation keeps the whole volume consistent, with the new block owned by its role. */
  lemma TakeBlockKeeps(v: Volume, owner: Owner, g: nat, k: nat, role: Role)
    requires FreeBit(v, owner, g, k)
    ensures WellFormed(TakeBlock(v, owner, g, k), owner[BlockNo(v.geo, g, k) := role])
  {
    hide TakeBlock, Layout, SamePointers, Mirrored, Counts, BlockCount, Used, TookBit, BlockNo, Shape;
    var v' := TakeBlock(v, owner, g, k);
    TakeBlockBits(v, owner, g, k);
    TakeBlockCounts(v, owner, v', g, k);
    TakeBlockEffect(v, owner, g, k);
    LayoutExtends(v', owner, BlockNo(v.geo, g, k), role);
  }

  lemma LayoutExtends(v: Volume, owner: Owner, r: nat, role: Role)
    requires Shape(v) && Layout(v, owner) && r !in owner
    ensures Layout(v, owner[r := role])
  {
  }

  // ----- taking an inode -----

  /** The bit of inode number n (counted from 1) in its group's inode bitmap. */
  predicate InodeUsed(v: Volume, n: nat) {
    n > 0 && v.geo.inodesPerGroup > 0 &&
    var g, k := (n - 1) / v.geo.inodesPerGroup, (n - 1) % v.geo.inodesPerGroup;
    32 * g + 32 <= |v.bgd| && InodeBitmap(v.bgd, g) < |v.disk|
    && k < 8 * |v.disk[InodeBitmap(v.bgd, g)]|
    && Bit(v.disk[InodeBitmap(v.bgd, g)], k)
  }

  /** Inode k of group g, counted from 1, is in use exactly when the bitmap at byte 4 of the descriptor marks it. */
  lemma InodeUsedOnDisk(v: Volume, g: nat, k: nat)
    requires k < v.geo.inodesPerGroup && 32 * g + 32 <= |v.bgd| && GetU32(v.bgd, 32 * g + 4) < |v.disk|
             && k < 8 * |v.disk[GetU32(v.bgd, 32 * g + 4)]|
    ensures InodeUsed(v, g * v.geo.inodesPerGroup + k + 1) <==> Marked(v.disk[GetU32(v.bgd, 32 * g + 4)], k)
  {
    hide GetU32, Marked, Bit;
    DivModUnique(g * v.geo.inodesPerGroup + k, g, v.geo.inodesPerGroup, k);
    MarkedBit(v.disk[GetU32(v.bgd, 32 * g + 4)], k);
  }

  function InodeNo(geo: Geometry, g: nat, k: nat): (n: nat)
    ensures n > 0
  {
    k + g * geo.inodesPerGroup + 1
  }

  function InodesCount(geo: Geometry): nat {
    geo.groups * geo.inodesPerGroup
  }

  ghost predicate FreeInodeBit(v: Volume, owner: Owner, g: nat, k: nat) {
    && WellFormed(v, owner) && g < v.geo.groups && FreeInodes(v.bgd, g) > 0
    && k < v.geo.inodesPerGroup && InodeCount(v, g) && !Bit(v.disk[InodeBitmap(v.bgd, g)], k)
  }

  lemma TakeInodeReady(v: Volume, owner: Owner, g: nat, k: nat)
    requires FreeInodeBit(v, owner, g, k)
    ensures 0 < SbFreeInodes(v.sb)
    ensures Recountable(v, InodeBitmap(v.bgd, g), k, TakeFromGroup(v.bgd, g, 14), SbTake(v.sb, 16))
    ensures Owns(owner, InodeBitmap(v.bgd, g), InodeBitmapRole(g))
  {
    SumAtLeast(v.bgd, g, v.geo.groups);
    TakeKeepsPointers(v.bgd, g, 14);
    assert Owns(owner, InodeBitmap(v.bgd, g), InodeBitmapRole(g));
  }

  ghost function TakeInode(v: Volume, owner: Owner, g: nat, k: nat): (v': Volume)
    requires FreeInodeBit(v, owner, g, k)
  {
    TakeInodeReady(v, owner, g, k);
    TakeBit(v, InodeBitmap(v.bgd, g), k, TakeFromGroup(v.bgd, g, 14), SbTake(v.sb, 16))
  }

  ghost predicate TookInodeBit(v: Volume, owner: Owner, v': Volume, g: nat, k: nat) {
    && Shape(v) && Shape(v') && v'.geo == v.geo && g < v.geo.groups && FreeInodes(v.bgd, g) > 0
        && SbFreeInodes(v.sb) > 0
    && v'.bgd == TakeFromGroup(v.bgd, g, 14) && v'.sb == SbTake(v.sb, 16)
    && SamePointers(v.bgd, v'.bgd)
    && BitFrame(v, v', owner, InodeBitmap(v.bgd, g), k)
  }

  /** What the rest of the driver may rely on after inode n was taken. */
  ghost predicate InodeTaken(v: Volume, owner: Owner, v': Volume, n: nat) {
    && v'.geo == v.geo && |v'.disk| == |v.disk| && SamePointers(v.bgd, v'.bgd) && SameFields(v.sb, v'.sb)
    && 0 < n <= InodesCount(v.geo) && !InodeUsed(v, n)
    && |v.sb| == |v'.sb| == 1024 && SbFreeInodes(v'.sb) == SbFreeInodes(v.sb) - 1
        && SbFreeBlocks(v'.sb) == SbFreeBlocks(v.sb)
    && (forall b :: b in owner && b < |v.disk| && !owner[b].Accounting() ==> v'.disk[b] == v.disk[b])
    && (forall m :: 0 < m <= InodesCount(v.geo) ==> (InodeUsed(v', m) <==> m == n || InodeUsed(v, m)))
    && (forall b :: 0 <= b < |v.disk| ==> (Used(v', b) <==> Used(v, b)))
  }

  lemma TakeInodeBits(v: Volume, owner: Owner, g: nat, k: nat)
    requires FreeInodeBit(v, owner, g, k)
    ensures var v' := TakeInode(v, owner, g, k);
            Shape(v') && Mirrored(v') && Layout(v', owner) && TookInodeBit(v, owner, v', g, k)
  {
    hide Mirrored, Layout, SamePointers, Accounted, Counts, InodeCount, SetBit, SbTake, TakeFromGroup;
    TakeInodeReady(v, owner, g, k);
    var bm, bgd', sb' := InodeBitmap(v.bgd, g), TakeFromGroup(v.bgd, g, 14), SbTake(v.sb, 16);
    TakeBitShape(v, bm, k, bgd', sb');
    TakeBitFrame(v, owner, bm, k, bgd', sb');
    LayoutKept(v, TakeBit(v, bm, k, bgd', sb'), owner);
  }

  lemma InodeBitmapsDiffer(v: Volume, owner: Owner, g: nat, g2: nat)
    requires WellFormed(v, owner) && g < v.geo.groups && g2 < v.geo.groups
    ensures var i, b2, i2 := InodeBitmap(v.bgd, g), BlockBitmap(v.bgd, g2), InodeBitmap(v.bgd, g2);
            && i in owner && b2 in owner && i2 in owner && b2 < |v.disk| && i2 < |v.disk|
            && owner[i] == InodeBitmapRole(g) && owner[b2] == BlockBitmapRole(g2) && owner[i2] == InodeBitmapRole(g2)
            && i != b2 && (i == i2 ==> g == g2)
  {
    assert Owns(owner, InodeBitmap(v.bgd, g), InodeBitmapRole(g));
    assert Owns(owner, BlockBitmap(v.bgd, g2), BlockBitmapRole(g2));
    assert Owns(owner, InodeBitmap(v.bgd, g2), InodeBitmapRole(g2));
  }

  lemma TakeInodeCount(v: Volume, owner: Owner, v': Volume, g: nat, k: nat, g2: nat)
    requires FreeInodeBit(v, owner, g, k) && TookInodeBit(v, owner, v', g, k) && g2 < v.geo.groups
    ensures BlockCount(v', g2) && InodeCount(v', g2)
  {
    hide Layout, SamePointers, Accounted, Counts, Mirrored, SetBit, TakeFromGroup, Bit, SbTake;
    TakeField(v.bgd, g, 14, g2);
    CountsAt(v, owner, g2);
    CountsAt(v, owner, g);
    SetBitCount(v.disk[InodeBitmap(v.bgd, g)], k, v.geo.inodesPerGroup);
    InodeBitmapsDiffer(v, owner, g, g2);
  }

  lemma TakeInodeCounts(v: Volume, owner: Owner, v': Volume, g: nat, k: nat)
    requires FreeInodeBit(v, owner, g, k) && TookInodeBit(v, owner, v', g, k)
    ensures Counts(v')
  {
    hide Layout, SamePointers, Accounted, Mirrored, BlockCount, InodeCount, BitFrame, TakeFromGroup, SumFreeBlocks,
         SumFreeInodes;
    forall g2 | 0 <= g2 < v.geo.groups
      ensures BlockCount(v', g2) && InodeCount(v', g2)
    {
      TakeInodeCount(v, owner, v', g, k, g2);
    }
    SumsAfterTake(v.bgd, g, 14, v.geo.groups);
  }

  lemma InodeGroup(geo: Geometry, m: nat)
    requires geo.Ok() && 0 < m <= InodesCount(geo)
    ensures var g, k := (m - 1) / geo.inodesPerGroup, (m - 1) % geo.inodesPerGroup;
            0 <= g < geo.groups && 0 <= k < geo.inodesPerGroup && m == InodeNo(geo, g, k)
  {
    DivModParts(m - 1, geo.inodesPerGroup);
    DivBelow(m - 1, geo.groups, geo.inodesPerGroup);
  }

  lemma InodeNoInRange(geo: Geometry, g: nat, k: nat)
    requires geo.Ok() && g < geo.groups && k < geo.inodesPerGroup
    ensures var n := InodeNo(geo, g, k);
            0 < n <= InodesCount(geo) && (n - 1) / geo.inodesPerGroup == g && (n - 1) % geo.inodesPerGroup == k
  {
    hide Geometry.Ok;
    DivModUnique(InodeNo(geo, g, k) - 1, g, geo.inodesPerGroup, k);
    MulLe(g + 1, geo.groups, geo.inodesPerGroup);
  }

  lemma InodeUsedAfter(v: Volume, owner: Owner, v': Volume, g: nat, k: nat, m: nat)
    requires FreeInodeBit(v, owner, g, k) && TookInodeBit(v, owner, v', g, k) && 0 < m <= InodesCount(v.geo)
    ensures InodeUsed(v', m) <==> InodeUsed(v, m) || m == InodeNo(v.geo, g, k)
  {
    hide Layout, Accounted, Counts, Mirrored, TakeFromGroup, InodesCount;
    InodeGroup(v.geo, m);
    InodeNoInRange(v.geo, g, k);
    var gm := (m - 1) / v.geo.inodesPerGroup;
    InodeBitmapsDiffer(v, owner, g, gm);
    assert 32 * gm + 32 <= |v.bgd|;
  }

  /** The same for inodes: the inode found is the least free one. */
  lemma LeastFreeInode(v: Volume, owner: Owner, g: nat, k: nat)
    requires FreeInodeBit(v, owner, g, k)
    requires forall j :: 0 <= j < g ==> FreeInodes(v.bgd, j) == 0
    requires forall j :: 0 <= j < k ==> Bit(v.disk[InodeBitmap(v.bgd, g)], j)
    ensures forall m :: 0 < m < InodeNo(v.geo, g, k) ==> InodeUsed(v, m)
  {
    hide WellFormed, InodeUsed, InodeNo, InodesCount, InodeCount, Bit, FreeInodeBit;
    forall m | 0 < m < InodeNo(v.geo, g, k)
      ensures InodeUsed(v, m)
    {
      EarlierInode(v, owner, g, k, m);
    }
  }

  lemma EarlierInode(v: Volume, owner: Owner, g: nat, k: nat, m: nat)
    requires FreeInodeBit(v, owner, g, k) && 0 < m < InodeNo(v.geo, g, k)
    requires forall j :: 0 <= j < g ==> FreeInodes(v.bgd, j) == 0
    requires forall j :: 0 <= j < k ==> Bit(v.disk[InodeBitmap(v.bgd, g)], j)
    ensures InodeUsed(v, m)
  {
    hide Layout, Counts, Accounted, Mirrored, Bit, ClearBits, InodeNo, InodesCount, Geometry.GroupBlocks, BlockCount;
    var n := InodeNo(v.geo, g, k);
    InodeNoInRange(v.geo, g, k);
    assert m <= InodesCount(v.geo);
    InodeGroup(v.geo, m);
    var gm, km := (m - 1) / v.geo.inodesPerGroup, (m - 1) % v.geo.inodesPerGroup;
    Before(m - 1, n - 1, v.geo.inodesPerGroup);
    CountsAt(v, owner, gm);
    assert 32 * gm + 32 <= |v.bgd|;
    if gm < g {
      NoClearBit(v.disk[InodeBitmap(v.bgd, gm)], v.geo.inodesPerGroup, km);
    }
  }

  lemma TakeInodeEffect(v: Volume, owner: Owner, g: nat, k: nat)
    requires FreeInodeBit(v, owner, g, k)
    ensures InodeTaken(v, owner, TakeInode(v, owner, g, k), InodeNo(v.geo, g, k))
  {
    hide TakeInode, Layout, SamePointers, Mirrored, Counts, Used, TakeFromGroup, SetBit, InodeNo, InodesCount, SbTake;
    var v' := TakeInode(v, owner, g, k);
    var n := InodeNo(v.geo, g, k);
    TakeInodeBits(v, owner, g, k);
    InodeNoInRange(v.geo, g, k);
    InodeBitmapsDiffer(v, owner, g, g);
    assert !InodeUsed(v, n);
    forall m | 0 < m <= InodesCount(v.geo)
      ensures InodeUsed(v', m) <==> m == n || InodeUsed(v, m)
    {
      InodeUsedAfter(v, owner, v', g, k, m);
    }
    forall b | 0 <= b < |v.disk|
      ensures Used(v', b) <==> Used(v, b)
    {
      UsedKept(v, v', owner, InodeBitmap(v.bgd, g), k, b);
    }
  }

  lemma TakeInodeKeeps(v: Volume, owner: Owner, g: nat, k: nat)
    requires FreeInodeBit(v, owner, g, k)
    ensures WellFormed(TakeInode(v, owner, g, k), owner)
  {
    hide TakeInode, Layout, SamePointers, Mirrored, Counts, Used, TookInodeBit, InodeNo, Shape;
    var v' := TakeInode(v, owner, g, k);
    TakeInodeBits(v, owner, g, k);
    TakeInodeCounts(v, owner, v', g, k);
    TakeInodeEffect(v, owner, g, k);
  }

  lemma InodeBitmapToTake(v: Volume, owner: Owner, g: nat, k: nat)
    requires FreeInodeBit(v, owner, g, k)
    ensures 32 * g + 32 <= |v.bgd| && FreeInodes(v.bgd, g) > 0 && |v.disk| == v.geo.blocksCount
    ensures var bm := InodeBitmap(v.bgd, g);
            0 < bm < |v.disk| && |v.disk[bm]| == v.geo.blockSize && k < 8 * v.geo.blockSize
    ensures |v.bgd| == v.geo.blockSize * v.geo.bgdSpan && |v.sb| == 1024
  {
    InodeBitmapToScan(v, owner, g);
  }
}
