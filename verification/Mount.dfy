// mount_ext2: the geometry of a volume from its superblock, and the driver
// object on a device.

module Mounting {
  import opened Arith
  import opened Bytes
  import opened Bitmap
  import opened Volumes
  import opened Allocation
  import opened InodeTables
  import opened BlockMaps
  import opened FileData
  import opened FileBytes
  import opened FileSystem
  import opened BlockCaching
  import opened Ext2

  const SUPER_MAGIC := 0xef53

  // ----- fields of the superblock -----

  function Magic(sb: Block): nat requires |sb| == 1024 { GetU16(sb, 56) }

  function InodesField(sb: Block): nat requires |sb| == 1024 { GetU32(sb, 0) }

  function BlocksField(sb: Block): nat requires |sb| == 1024 { GetU32(sb, 4) }

  function LogField(sb: Block): nat requires |sb| == 1024 { GetU32(sb, 24) }

  function PerGroupField(sb: Block): nat requires |sb| == 1024 { GetU32(sb, 32) }

  function InodeSizeField(sb: Block): nat requires |sb| == 1024 { GetU16(sb, 88) }

  // ----- the geometry -----

  /** 1024 << log, in 32 bits. */
  function BlockSizeOf(sb: Block): nat
    requires |sb| == 1024
  {
    1024 * Pow2(LogField(sb)) % U32
  }

  /** Whole groups, and one more for a rest. */
  function GroupsOf(blocks: nat, perGroup: nat): nat
    requires perGroup > 0
  {
    if perGroup * (blocks / perGroup) < blocks then blocks / perGroup + 1 else blocks / perGroup
  }

  /** Blocks of the descriptor table, kept in 8 bits. */
  function SpanOf(groups: nat, blockSize: nat): (span: nat)
    requires blockSize > 0
    ensures span < 256
  {
    (32 * groups % U32 / blockSize + 1) % 256
  }

  /** Nothing that the driver divides by is zero. */
  ghost predicate Readable(sb: Block) {
    |sb| == 1024 && PerGroupField(sb) > 0 && BlockSizeOf(sb) > 0 && GroupsOf(BlocksField(sb), PerGroupField(sb)) > 0
  }

  function GeometryOf(sb: Block): Geometry
    requires Readable(sb)
  {
    GeometryWith(sb, BlockSizeOf(sb), GroupsOf(BlocksField(sb), PerGroupField(sb)))
  }

  function GeometryWith(sb: Block, size: nat, groups: nat): Geometry
    requires |sb| == 1024 && size > 0 && groups > 0
  {
    Geometry(size, if InodeSizeField(sb) == 0 then 128 else InodeSizeField(sb), BlocksField(sb), PerGroupField(sb),
             InodesField(sb) / groups, groups, SpanOf(groups, size))
  }

  /** The block size is whole kilobytes even when the shift runs over. */
  lemma WholeKilobytes(sb: Block)
    requires |sb| == 1024
    ensures BlockSizeOf(sb) % 1024 == 0
  {
    hide Pow2;
    var n := Pow2(LogField(sb));
    DivModParts(1024 * n, U32);
    var q := 1024 * n / U32;
    DivModUnique(BlockSizeOf(sb), n - q * 0x40_0000, 1024, 0);
  }

  /** The groups cover the blocks, and none is empty. */
  lemma GroupsCover(blocks: nat, perGroup: nat)
    requires perGroup > 0
    ensures var g := GroupsOf(blocks, perGroup);
            (g > 0 <==> blocks > 0) && (g > 0 ==> (g - 1) * perGroup < blocks <= g * perGroup)
  {
    DivModParts(blocks, perGroup);
    var q := blocks / perGroup;
    assert (q + 1) * perGroup == q * perGroup + perGroup;
    assert (q - 1) * perGroup == q * perGroup - perGroup;
  }

  /** The table fits into the span exactly when the span fits into its 8 bits. */
  lemma SpanExact(groups: nat, size: nat)
    requires size > 0 && 32 * groups < U32
    ensures 0 < SpanOf(groups, size) < 256 && 32 * groups <= size * SpanOf(groups, size) <==> 32 * groups / size < 255
  {
    var bytes := 32 * groups;
    var q := bytes / size;
    DivModParts(bytes, size);
    DivModUnique(bytes, 0, U32, bytes);
    var span := SpanOf(groups, size);
    assert span == (q + 1) % 256;
    if q < 255 {
      assert span == q + 1;
      assert size * span == q * size + size;
    } else if q > 255 {
      MulLe(span + 1, q, size);
      assert (span + 1) * size == size * span + size;
    }
  }

  /** What a formatter must have written for the driver to have a geometry it can work with. */
  ghost predicate Formatted(sb: Block)
    requires Readable(sb)
  {
    var g := GeometryOf(sb);
    && 1024 < g.blockSize < 0x1_0000 && 128 <= g.inodeSize <= g.blockSize
        && g.InodesPerBlock() * g.inodeSize == g.blockSize
    && g.blocksPerGroup <= 8 * g.blockSize
    && 0 < g.inodesPerGroup <= 8 * g.blockSize && g.inodesPerGroup * g.inodeSize + 2 * g.blockSize <= U32
    && g.blocksCount * g.blockSize < U32 && 32 * g.groups / g.blockSize < 255 && BGD_OFFSET + g.bgdSpan <= g.blocksCount
  }

  /** Everything else that the driver relies on about the geometry comes out of the computation. */
  lemma FormattedOk(sb: Block)
    requires Readable(sb)
    ensures GeometryOf(sb).Ok() <==> Formatted(sb)
  {
    hide BlockSizeOf, SpanOf, GroupsOf, Pow2;
    var g := GeometryOf(sb);
    WholeKilobytes(sb);
    GroupsCover(BlocksField(sb), PerGroupField(sb));
    if g.blocksCount * g.blockSize < U32 && g.blockSize > 1024 {
      FewGroups(g.blocksCount, g.blocksPerGroup, g.groups, g.blockSize);
      SpanExact(g.groups, g.blockSize);
    }
  }

  lemma FewGroups(blocks: nat, perGroup: nat, groups: nat, size: nat)
    requires size > 1024 && blocks * size < U32 && perGroup > 0 && groups > 0 && (groups - 1) * perGroup < blocks
    ensures 32 * groups < U32
  {
    MulLe(1, perGroup, groups - 1);
    MulLe(1024, size, blocks);
  }

  // ----- the geometry by the bytes of the superblock -----

  const BLOCK_SIZES := [1024, 2048, 4096, 8192, 0x4000, 0x8000]

  /** What the superblock says: each field of the geometry by what it is for. */
  ghost predicate Describes(sb: Block, g: Geometry) {
    && |sb| == 1024 && g.blocksCount == GetU32(sb, 4) && g.blocksPerGroup == GetU32(sb, 32)
    && GetU32(sb, 24) < 6 && g.blockSize == BLOCK_SIZES[GetU32(sb, 24)]
    && g.inodeSize == (if GetU16(sb, 88) == 0 then 128 else GetU16(sb, 88))
    && g.groups > 0 && (g.groups - 1) * g.blocksPerGroup < g.blocksCount <= g.groups * g.blocksPerGroup
    && g.inodesPerGroup * g.groups <= GetU32(sb, 0) < (g.inodesPerGroup + 1) * g.groups
    && (g.bgdSpan - 1) * g.blockSize <= 32 * g.groups < g.bgdSpan * g.blockSize
  }

  lemma OkFacts(g: Geometry)
    requires g.Ok()
    ensures 1024 < g.blockSize < 0x1_0000 && g.blocksPerGroup > 0 && 0 < g.bgdSpan < 256 && 32 * g.groups < U32
    ensures g.groups > 0 && (g.groups - 1) * g.blocksPerGroup < g.blocksCount <= g.groups * g.blocksPerGroup
    ensures 32 * g.groups <= g.blockSize * g.bgdSpan
  {
    FewGroups(g.blocksCount, g.blocksPerGroup, g.groups, g.blockSize);
  }

  /** The driver computes the one geometry that the superblock says. */
  lemma GeometryExact(sb: Block, g: Geometry)
    requires |sb| == 1024 && g.Ok()
    ensures Describes(sb, g) <==> Readable(sb) && g == GeometryOf(sb)
  {
    OkFacts(g);
    BlockSizeExact(sb);
    hide GetU32, GetU16, BlockSizeOf, SpanOf, GroupsOf, Geometry.Ok;
    if Readable(sb) && g == GeometryOf(sb) {
      Quotient(InodesField(sb), g.groups);
      SpanBounds(g.groups, g.blockSize);
    }
    if Describes(sb, g) {
      GroupsUnique(g.blocksCount, g.blocksPerGroup, g.groups);
      QuotientUnique(InodesField(sb), g.groups, g.inodesPerGroup);
      SpanUnique(g.groups, g.blockSize, g.bgdSpan);
    }
  }

  lemma Quotient(n: nat, d: nat)
    requires d > 0
    ensures n / d * d <= n < (n / d + 1) * d
  {
    DivModParts(n, d);
    assert (n / d + 1) * d == n / d * d + d;
  }

  lemma QuotientUnique(n: nat, d: nat, q: nat)
    requires d > 0 && q * d <= n < (q + 1) * d
    ensures n / d == q
  {
    assert (q + 1) * d == q * d + d;
    DivModUnique(n, q, d, n - q * d);
  }

  lemma SpanBounds(groups: nat, size: nat)
    requires size > 0 && 32 * groups < U32 && 0 < SpanOf(groups, size) && 32 * groups <= size * SpanOf(groups, size)
    ensures (SpanOf(groups, size) - 1) * size <= 32 * groups < SpanOf(groups, size) * size
  {
    hide SpanOf;
    Quotient(32 * groups, size);
    SpanExact(groups, size);
    SpanUnique(groups, size, 32 * groups / size + 1);
  }

  lemma GroupsUnique(blocks: nat, perGroup: nat, groups: nat)
    requires groups > 0 && perGroup > 0 && (groups - 1) * perGroup < blocks <= groups * perGroup
    ensures GroupsOf(blocks, perGroup) == groups
  {
    GroupsCover(blocks, perGroup);
    var g := GroupsOf(blocks, perGroup);
    if g < groups {
      MulLe(g, groups - 1, perGroup);
    } else if groups < g {
      MulLe(groups, g - 1, perGroup);
    }
  }

  lemma SpanUnique(groups: nat, size: nat, span: nat)
    requires size > 0 && 32 * groups < U32 && 0 < span < 256 && (span - 1) * size <= 32 * groups < span * size
    ensures SpanOf(groups, size) == span
  {
    assert span * size == (span - 1) * size + size;
    DivModUnique(32 * groups, span - 1, size, 32 * groups - (span - 1) * size);
    DivModUnique(32 * groups, 0, U32, 32 * groups);
    DivModUnique(span, 0, 256, span);
  }

  /** Shifts past bit 21 leave nothing, and those past 5 leave too much. */
  lemma BlockSizeExact(sb: Block)
    requires |sb| == 1024
    ensures 0 < BlockSizeOf(sb) < 0x1_0000 <==> LogField(sb) < 6
    ensures LogField(sb) < 6 ==> BlockSizeOf(sb) == BLOCK_SIZES[LogField(sb)]
  {
    hide GetU32;
    var log := LogField(sb);
    SmallPowers();
    if log >= 22 {
      PowerSum(22, log - 22);
      DivModUnique(1024 * Pow2(log), Pow2(log - 22), U32, 0);
    } else if log >= 6 {
      PowersGrow(6, log);
      PowersGrow(log, 21);
      DivModUnique(1024 * Pow2(log), 0, U32, 1024 * Pow2(log));
    }
  }

  lemma SmallPowers()
    ensures Pow2(0) == 1 && Pow2(1) == 2 && Pow2(2) == 4 && Pow2(3) == 8 && Pow2(4) == 16 && Pow2(5) == 32
              && Pow2(6) == 64 && Pow2(21) == 0x20_0000 && Pow2(22) == 0x40_0000
  {
    assert Pow2(3) == 8;
    assert Pow2(6) == 64;
    PowerSum(6, 6);
    PowerSum(12, 6);
    PowerSum(18, 3);
    PowerSum(18, 4);
  }

  lemma {:induction false} PowerSum(a: nat, b: nat)
    ensures Pow2(a + b) == Pow2(a) * Pow2(b)
  {
    if b > 0 {
      PowerSum(a, b - 1);
      assert Pow2(a + b) == 2 * Pow2(a + (b - 1));
    }
  }

  lemma {:induction false} PowersGrow(a: nat, b: nat)
    requires a <= b
    ensures Pow2(a) <= Pow2(b)
  {
    if a < b {
      PowersGrow(a, b - 1);
    }
  }

  // ----- mounting -----

  /** The blocks of the device are those that the superblock speaks of. */
  ghost predicate Matches(blocks: seq<Block>, g: Geometry) {
    |blocks| == g.blocksCount && forall b :: 0 <= b < |blocks| ==> |blocks[b]| == g.blockSize
  }

  /** NULL for a wrong magic number; otherwise the driver sees the device, whatever its cache. */
  method MountExt2(dev: array<Block>, nocache: bool, ghost o: Owner) returns (fs: Ext2Fs?)
    requires dev.Length > 0 && |dev[0]| >= 2048
    requires var sb := dev[0][1024..2048];
             Magic(sb) == SUPER_MAGIC ==> Readable(sb) && GeometryOf(sb).Ok() && Matches(dev[..], GeometryOf(sb))
    modifies dev
    ensures fs == null <==> Magic(old(dev[0])[1024..2048]) != SUPER_MAGIC
    ensures fs == null ==> dev[..] == old(dev[..])
    ensures fs != null ==>
              && fresh(fs) && fs.Mounted() && fs.geo == GeometryOf(old(dev[0])[1024..2048])
              && Describes(old(dev[0])[1024..2048], fs.geo)
              && fs.cache.entries.Length == (if nocache then 0 else if fs.geo.blockSize > 2048 then 2560 else 10240)
              && fs.Vol().disk == old(dev[..]) && fs.owner == o
              && fs.cache.device == dev && fresh(fs.cache) && fresh(fs.cache.entries)
              && forall v :: WellFormed(v, o) && v.geo == fs.geo && v.disk == old(dev[..]) ==> fs.Vol() == v
  {
    hide Geometry.Ok, WellFormed, GeometryOf;
    var sb := dev[0][1024..2048];
    if Magic(sb) != SUPER_MAGIC {
      return null;
    }
    var g := GeometryOf(sb);
    GeometrySize(g);
    GeometryExact(sb, g);
    forall b | 0 <= b < dev.Length
      ensures |dev[b]| == g.blockSize
    {
      assert |dev[..][b]| == g.blockSize;
    }
    var entries := if nocache then 0 else if g.blockSize > 2048 then 10240 / 4 else 10240;
    var c := new BlockCache(dev, g.blockSize, entries);
    fs := new Ext2Fs(c, g, o);
  }

  lemma GeometrySize(g: Geometry)
    requires g.Ok()
    ensures g.blockSize > 1024 && g.blockSize % 1024 == 0
  {
  }

  // ----- mounting again -----

  /** The superblock in memory describes the volume. */
  ghost predicate Described(v: Volume) {
    |v.sb| == 1024 && Magic(v.sb) == SUPER_MAGIC && Readable(v.sb) && GeometryOf(v.sb) == v.geo
  }

  /** The geometry does not depend on the free counts, so no operation changes it. */
  lemma DescribedKept(v: Volume, v': Volume)
    requires Described(v) && SameFields(v.sb, v'.sb) && v'.geo == v.geo
    ensures Described(v')
  {
    FieldsKept(v.sb, v'.sb);
    hide Magic, InodesField, BlocksField, LogField, PerGroupField, InodeSizeField, Pow2, GroupsOf, SpanOf;
  }

  lemma FieldsKept(sb: Block, sb': Block)
    requires |sb| == 1024 && SameFields(sb, sb')
    ensures Magic(sb') == Magic(sb) && InodesField(sb') == InodesField(sb) && BlocksField(sb') == BlocksField(sb)
    ensures LogField(sb') == LogField(sb) && PerGroupField(sb') == PerGroupField(sb)
    ensures InodeSizeField(sb') == InodeSizeField(sb)
  {
  }

  /** What a synced device holds can be mounted. */
  lemma SyncedMounts(v: Volume, o: Owner)
    requires WellFormed(v, o) && Described(v)
    ensures |v.disk| > 0 && |v.disk[0]| >= 2048 && v.disk[0][1024..2048] == v.sb && Matches(v.disk, v.geo) && v.geo.Ok()
  {
    hide Layout, Accounted, Counts, GeometryOf, Readable, BgdOnDisk;
  }

  /** Sync and mount the device again, with another cache: the same volume. */
  method Remount(fs: Ext2Fs, nocache: bool) returns (again: Ext2Fs)
    requires fs.Mounted() && WellFormed(fs.Vol(), fs.owner) && Described(fs.Vol())
    modifies fs.cache.device, fs.cache.entries
    ensures fresh(again) && again.Mounted() && again.cache.device == fs.cache.device
    ensures again.Vol() == old(fs.Vol()) && again.owner == fs.owner == old(fs.owner)
  {
    hide BlockCache.Ok, BlockCache.Disk, BlockCache.State, Geometry.Ok, WellFormed, GeometryOf, Readable, Magic,
         Matches;
    ghost var v := fs.Vol();
    fs.Sync();
    SyncedMounts(v, fs.owner);
    var dev := fs.cache.device;
    assert dev[0] == dev[..][0];
    again := MountExt2(dev, nocache, fs.owner);
  }

  lemma WriteDescribed(s: State, w: Write, s': State)
    requires FileSystem.WriteStep(s, w, s') && Described(s.v)
    ensures WellFormed(s'.v, s'.owner) && Described(s'.v)
  {
    hide FileSystem.WriteStep, WellFormed, Described, TableOk, SamePointers, IsInode, InodeAt;
    StepOnly(s, w, s');
    DescribedKept(s.v, s'.v);
  }

  /** After any run of writes the volume can be synced and mounted again. */
  lemma {:induction false} RunDescribed(ss: seq<State>, ws: seq<Write>)
    requires FileSystem.IsRun(ss, ws) && WellFormed(ss[0].v, ss[0].owner) && Described(ss[0].v)
    ensures WellFormed(ss[|ws|].v, ss[|ws|].owner) && Described(ss[|ws|].v)
    decreases |ws|
  {
    hide FileSystem.WriteStep, WellFormed, Described;
    if ws != [] {
      var n := |ws| - 1;
      RunDescribed(ss[..|ss| - 1], ws[..n]);
      WriteDescribed(ss[n], ws[n], ss[n + 1]);
    }
  }

  /** A write survives: after a sync and another mount the file holds the written bytes, and every other file its
      own. */
  method WriteAndRemount(fs: Ext2Fs, ino: nat, offset: nat, data: Block, nocache: bool) returns (again: Ext2Fs)
    requires fs.Mounted() && FileAt(fs.Vol(), fs.owner, ino) && Described(fs.Vol())
    requires offset + |data| < U32 && fs.geo.blockSize > 0
    requires 0 <= LastBlock(fs.geo, offset, offset + |data|) < Limit(fs.geo.P())
    requires Slack(fs.Vol(), InodeAt(fs.Vol(), ino), LastBlock(fs.geo, offset, offset + |data|) + 1) >= 0
    modifies fs, fs.cache, fs.cache.device, fs.cache.entries
    ensures fresh(again) && again.Mounted() && again.cache.device == fs.cache.device && Described(again.Vol())
    ensures FileSystem.WriteStep(State(old(fs.Vol()), old(fs.owner)), Write(ino, offset, data),
              State(again.Vol(), again.owner))
    ensures offset <= ISize(InodeAt(old(fs.Vol()), ino)) || ZeroTail(old(fs.Vol()), InodeAt(old(fs.Vol()), ino)) ==>
              FileContents(again.Vol(), again.owner, ino) ==
                Overwrite(FileContents(old(fs.Vol()), old(fs.owner), ino), offset, data)
    ensures forall j :: j != ino && FileAt(old(fs.Vol()), old(fs.owner), j) ==>
              && FileAt(again.Vol(), again.owner, j)
              && FileContents(again.Vol(), again.owner, j) == FileContents(old(fs.Vol()), old(fs.owner), j)
  {
    hide BlockCache.Ok, BlockCache.Disk, BlockCache.State, Geometry.Ok, WellFormed, Described, FileSystem.WriteStep,
         AtRest, TableOk, IsInode, InodeAt, ZeroTail, Slack, LastBlock, Limit, Overwrite, FileContents, ISize;
    ghost var s := State(fs.Vol(), fs.owner);
    var _ := fs.WriteExt2(ino, offset, |data|, data);
    assert data[..|data|] == data;
    WriteDescribed(s, Write(ino, offset, data), State(fs.Vol(), fs.owner));
    again := Remount(fs, nocache);
  }
}
