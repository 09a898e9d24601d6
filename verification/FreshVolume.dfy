// A volume as a formatter leaves it: one group of any number of blocks, five of
// them in use, every inode an empty file and inode 2 with the mode of a
// directory. It satisfies everything the driver relies on, so every run of the
// driver can start from it.

module FreshVolume {
  import opened Bytes
  import opened Bitmap
  import opened Volumes
  import opened InodeTables
  import opened BlockMaps
  import opened FileData
  import opened FileBytes
  import opened FileSystem
  import opened Ext2
  import opened Mounting

  const SIZE := 2048
  const INODES := 16
  const IN_USE := 5
  const ROOT := 2

  /** Numbers of blocks that one bitmap covers, with at least one of them free. */
  predicate Sized(n: nat) {
    IN_USE < n <= 8 * SIZE
  }

  function Geo(n: nat): Geometry {
    Geometry(SIZE, 128, n, n, INODES, 1, 1)
  }

  function FreshBgd(n: nat): (r: Block)
    requires Sized(n)
    ensures |r| == SIZE
  {
    PutU16(Zeros(SIZE)[0 := 2][4 := 3][8 := 4][14 := INODES], 12, n - IN_USE)
  }

  function FreshSb(n: nat): (r: Block)
    requires Sized(n)
    ensures |r| == 1024
  {
    var fixed := Zeros(1024)[0 := INODES][16 := INODES][24 := 1][56 := 0x53][57 := 0xef][88 := 128];
    PutU32(PutU32(PutU32(fixed, 4, n), 32, n), 12, n - IN_USE)
  }

  /** Blocks 0 to 4 are marked. */
  function FreshBitmap(): Block {
    Zeros(SIZE)[0 := 31]
  }

  /** Empty records, the one of the root with the mode of a directory. */
  function FreshTable(): Block {
    Zeros(SIZE)[129 := 0x41]
  }

  function FreshRecord(ino: nat): Block {
    if ino == ROOT then Zeros(128)[1 := 0x41] else Zeros(128)
  }

  function FreshBlock(n: nat, b: nat): (r: Block)
    requires Sized(n)
    ensures |r| == SIZE
  {
    if b == 0 then Splice(Zeros(SIZE), 1024, FreshSb(n))
    else if b == 1 then FreshBgd(n)
    else if b == 2 then FreshBitmap()
    else if b == 4 then FreshTable()
    else Zeros(SIZE)
  }

  function Fresh(n: nat): Volume
    requires Sized(n)
  {
    Volume(Geo(n), seq(n, b requires 0 <= b < n => FreshBlock(n, b)), FreshBgd(n), FreshSb(n))
  }

  function FreshOwner(): Owner {
    map[0 := SuperRole, 1 := BgdRole(0), 2 := BlockBitmapRole(0), 3 := InodeBitmapRole(0), 4 := TableRole(0, 0)]
  }

  // ----- the bitmaps -----

  lemma {:induction false} NoBits(k: nat)
    ensures !NumberBit(0, k)
  {
    if k > 0 {
      NoBits(k - 1);
    }
  }

  lemma LowBits(k: nat)
    ensures NumberBit(31, k) <==> k < IN_USE
  {
    if k > 0 {
      assert NumberBit(31, k) == NumberBit(15, k - 1);
    }
    if k > 1 {
      assert NumberBit(15, k - 1) == NumberBit(7, k - 2);
    }
    if k > 2 {
      assert NumberBit(7, k - 2) == NumberBit(3, k - 3);
    }
    if k > 3 {
      assert NumberBit(3, k - 3) == NumberBit(1, k - 4);
    }
    if k >= IN_USE {
      assert NumberBit(1, k - 4) == NumberBit(0, k - IN_USE);
      NoBits(k - IN_USE);
    }
  }

  lemma FreshBit(n: nat)
    requires n < 8 * SIZE
    ensures Bit(FreshBitmap(), n) <==> n < IN_USE
  {
    if n < 8 {
      LowBits(n);
    } else {
      NoBits(n % 8);
    }
  }

  lemma {:induction false} FreshClear(n: nat)
    requires n <= 8 * SIZE
    ensures ClearBits(FreshBitmap(), n) == if n < IN_USE then 0 else n - IN_USE
  {
    if n > 0 {
      FreshClear(n - 1);
      FreshBit(n - 1);
    }
  }

  lemma {:induction false} AllClear(n: nat)
    requires n <= 8 * SIZE
    ensures ClearBits(Zeros(SIZE), n) == n
  {
    if n > 0 {
      AllClear(n - 1);
      NoBits((n - 1) % 8);
    }
  }

  // ----- the volume -----

  lemma Fields(n: nat)
    requires Sized(n)
    ensures Geo(n).Ok() && Geo(n).P() == 512 && Geo(n).TableBlocks() == 1 && Geo(n).GroupBlocks(0) == n
    ensures BlockBitmap(FreshBgd(n), 0) == 2 && InodeBitmap(FreshBgd(n), 0) == 3 && InodeTable(FreshBgd(n), 0) == 4
    ensures FreeBlocks(FreshBgd(n), 0) == SbFreeBlocks(FreshSb(n)) == n - IN_USE
    ensures FreeInodes(FreshBgd(n), 0) == SbFreeInodes(FreshSb(n)) == INODES
  {
    hide PutU16, PutU32;
  }

  /** The superblock describes this geometry. */
  lemma FreshGeometry(n: nat)
    requires Sized(n)
    ensures var sb := FreshSb(n);
            Magic(sb) == SUPER_MAGIC && Readable(sb) && GeometryOf(sb) == Geo(n)
  {
    var sb := FreshSb(n);
    assert InodesField(sb) == INODES && BlocksField(sb) == PerGroupField(sb) == n && LogField(sb) == 1
           && InodeSizeField(sb) == 128 && Magic(sb) == SUPER_MAGIC by {
      hide PutU32;
    }
    hide FreshSb;
    assert GroupsOf(n, n) == 1;
    assert BlockSizeOf(sb) == SIZE;
  }

  lemma FreshShape(n: nat)
    requires Sized(n)
    ensures Shape(Fresh(n)) && Layout(Fresh(n), FreshOwner())
  {
    hide FreshBlock, FreshBgd, FreshSb, Geometry.Ok, Geometry.TableBlocks, GetU32;
    Fields(n);
    var v, o := Fresh(n), FreshOwner();
    assert |v.bgd| == SIZE * 1 && Shape(v);
    forall g, k | 0 <= g < v.geo.groups && 0 <= k < v.geo.TableBlocks()
      ensures Owns(o, InodeTable(v.bgd, g) + k, TableRole(g, k))
    {
      assert g == 0 && k == 0;
    }
  }

  lemma FreshAccounted(n: nat)
    requires Sized(n)
    ensures Accounted(Fresh(n), FreshOwner())
  {
    hide FreshBgd, FreshSb, Geometry.Ok, Bit, GetU32;
    Fields(n);
    forall b | b in FreshOwner()
      ensures b < n && Used(Fresh(n), b)
    {
      FreshBit(b);
      SmallQuotient(b, n);
    }
  }

  lemma SmallQuotient(b: nat, n: nat)
    requires b < n
    ensures b / n == 0 && b % n == b
  {
  }

  lemma FreshCounts(n: nat)
    requires Sized(n)
    ensures Shape(Fresh(n)) && Counts(Fresh(n))
  {
    hide FreshBgd, FreshSb, FreshBitmap, Geometry.Ok, Bit, GetU32, GetU16, ClearBits;
    FreshShape(n);
    Fields(n);
    FreshClear(n);
    AllClear(INODES);
    assert BlockCount(Fresh(n), 0) && InodeCount(Fresh(n), 0);
    assert SumFreeBlocks(FreshBgd(n), 1) == FreeBlocks(FreshBgd(n), 0);
    assert SumFreeInodes(FreshBgd(n), 1) == FreeInodes(FreshBgd(n), 0);
  }

  lemma FreshMirrored(n: nat)
    requires Sized(n)
    ensures Shape(Fresh(n)) && Mirrored(Fresh(n))
  {
    hide FreshBgd, FreshSb, Geometry.Ok;
    FreshShape(n);
    assert BgdBlock(Geo(n), FreshBgd(n), 0) == FreshBgd(n);
  }

  /** The volume is consistent. */
  lemma FreshWellFormed(n: nat)
    requires Sized(n)
    ensures WellFormed(Fresh(n), FreshOwner())
  {
    FreshShape(n);
    FreshAccounted(n);
    FreshCounts(n);
    FreshMirrored(n);
  }

  // ----- its files -----

  lemma TableSlice(ino: nat)
    requires 0 < ino < INODES
    ensures FreshTable()[(ino - 1) * 128..(ino - 1) * 128 + 128] == FreshRecord(ino)
  {
  }

  lemma EmptyRecord(n: nat, ino: nat)
    requires Sized(n) && IsInode(Geo(n), ino)
    ensures 0 < ino < INODES && TableOk(Fresh(n)) && InodeAt(Fresh(n), ino) == FreshRecord(ino)
  {
    hide FreshBgd, FreshSb, Geometry.Ok, WellFormed, TableOk, Zeros, GetU32, Geometry.TableBlocks, FreshTable,
         FreshRecord, Splice;
    FreshWellFormed(n);
    WellFormedTable(Fresh(n), FreshOwner());
    Fields(n);
    SlotInTable(Geo(n), ino);
    assert SlotBlock(Fresh(n), ino) == 4 && SlotByte(Fresh(n), ino) == (ino - 1) * 128;
    TableSlice(ino);
  }

  lemma EmptyFields(ino: nat)
    ensures var z := FreshRecord(ino);
            |z| == 128 && ISize(z) == 0 && IBlocks(z) == 0 && (IsDir(z) <==> ino == ROOT) && forall k :: 0 <= k < 15 ==>
                IBlock(z, k) == 0
  {
  }

  /** Every inode is a consistent, empty file with nothing behind its end. */
  lemma EmptyFile(n: nat, ino: nat)
    requires Sized(n) && IsInode(Geo(n), ino)
    ensures Holds(State(Fresh(n), FreshOwner()), ino, [])
  {
    hide FreshBgd, FreshSb, FreshBlock, FreshRecord, Geometry.Ok, WellFormed, TableOk, GetU32, InodeAt, IBlock, IBlocks,
         ISize;
    var v, o, z := Fresh(n), FreshOwner(), FreshRecord(ino);
    Fields(n);
    FreshWellFormed(n);
    EmptyRecord(n, ino);
    EmptyFields(ino);
    assert Count(v.geo, z) == 0;
    assert IndOk(v.disk, v.geo.P(), o, ino, z);
    assert FileOk(v, o, ino, z);
    assert AtRest(v, o, ino, z);
    assert FileAt(v, o, ino);
    assert ZeroTail(v, z);
    assert Contents(v, z) == [];
  }

  function FreshImage(n: nat): Image {
    map j | 0 < j < INODES && IsInode(Geo(n), j) :: []
  }

  /** From a fresh volume on, every file always holds what the writes so far make of the empty string. */
  lemma FromFresh(n: nat, ss: seq<State>, ws: seq<Write>)
    requires Sized(n) && FileSystem.IsRun(ss, ws) && ss[0] == State(Fresh(n), FreshOwner())
    ensures Represents(ss[|ws|], ApplyAll(FreshImage(n), ws))
  {
    hide Holds;
    forall j | j in FreshImage(n)
      ensures Holds(ss[0], j, FreshImage(n)[j])
    {
      EmptyFile(n, j);
    }
    RunRepresents(ss, ws, FreshImage(n));
  }

  /** Mounting a fresh device: the driver sees the fresh volume, with the cache or without it. */
  method MountFresh(ghost n: nat, dev: array<Block>, nocache: bool) returns (fs: Ext2Fs)
    requires Sized(n) && dev[..] == Fresh(n).disk
    modifies dev
    ensures fs.Mounted() && fs.Vol() == Fresh(n) && fs.owner == FreshOwner() && WellFormed(fs.Vol(), fs.owner)
    ensures Described(fs.Vol())
    ensures forall j :: IsInode(Geo(n), j) ==> Holds(State(fs.Vol(), fs.owner), j, [])
    ensures fresh(fs) && fresh(fs.cache) && fresh(fs.cache.entries) && fs.cache.device == dev
  {
    hide Fresh, WellFormed, Holds, Geometry.Ok, FreshOwner, GeometryOf, FreshSb, Magic, Readable, Described;
    FreshDisk(n);
    FreshGeometry(n);
    FreshDescribed(n);
    Fields(n);
    assert dev[0] == dev[..][0];
    var mounted := MountExt2(dev, nocache, FreshOwner());
    fs := mounted;
    forall j | IsInode(Geo(n), j)
      ensures Holds(State(Fresh(n), FreshOwner()), j, [])
    {
      EmptyFile(n, j);
    }
  }

  lemma FreshDescribed(n: nat)
    requires Sized(n)
    ensures Described(Fresh(n))
  {
    hide FreshSb, FreshBgd, FreshBlock, GeometryOf, Readable, Magic, Geo;
    FreshGeometry(n);
  }

  lemma FreshDisk(n: nat)
    requires Sized(n)
    ensures WellFormed(Fresh(n), FreshOwner()) && Fresh(n).geo == Geo(n) && |Fresh(n).disk| == n
    ensures forall b :: 0 <= b < n ==> |Fresh(n).disk[b]| == SIZE
    ensures Fresh(n).disk[0][1024..2048] == FreshSb(n)
  {
    FreshWellFormed(n);
  }
}
