// Whole files: what a write does to the file it names and to every other file.

module FileSystem {
  import opened Bytes
  import opened Volumes
  import opened Allocation
  import opened InodeTables
  import opened BlockMaps
  import opened Files
  import opened FileData
  import opened FileBytes

  /** The bytes of file ino. */
  ghost function FileContents(v: Volume, owner: Owner, ino: nat): Block
    requires FileAt(v, owner, ino)
  {
    Contents(v, InodeAt(v, ino))
  }

  lemma ReadStart(v: Volume, owner: Owner, ino: nat, buffer: Block, offset: nat)
    requires FileAt(v, owner, ino)
    ensures var inode := InodeAt(v, ino);
            && Copied(v, inode, buffer, offset, 0, buffer) && FileOk(v, owner, ino, inode)
            && |FileContents(v, owner, ino)| == ISize(inode) == GetU32(inode, 4)
  {
    hide TableOk, IsInode, InodeAt, Copied, FileOk;
    CopiedNone(v, owner, ino, InodeAt(v, ino), buffer, offset);
  }

  /** What read_ext2 copies is a part of the contents. */
  lemma CopiedContents(v: Volume, owner: Owner, ino: nat, buffer: Block, offset: nat, n: nat, out: Block)
    requires FileAt(v, owner, ino) && Copied(v, InodeAt(v, ino), buffer, offset, n, out)
    requires offset + n <= ISize(InodeAt(v, ino))
    ensures out == FileContents(v, owner, ino)[offset..offset + n] + buffer[n..]
  {
    hide AtRest, TableOk, IsInode, InodeAt, FileByte;
    var c := FileContents(v, owner, ino);
    assert c[offset..offset + n] == Extract(v, InodeAt(v, ino), offset, offset + n);
  }

  /** Byte j of block i of a file is byte j of the block that its map has at i. */
  lemma ByteOnDisk(v: Volume, owner: Owner, ino: nat, inode: Block, i: nat, j: nat, k: nat)
    requires AtRest(v, owner, ino, inode) && i < Count(v.geo, inode) && j < v.geo.blockSize && At(v.geo, i, j, k)
    ensures var a := Addr(v.disk, v.geo.P(), inode, i);
            && 0 < a < |v.disk| && |v.disk[a]| == v.geo.blockSize
            && (k < |Contents(v, inode)| ==> Contents(v, inode)[k] == v.disk[a][j])
  {
    hide TableOk, IsInode, InodeAt, Addr, WellFormed, FileOk, Reachable, Geometry.P, At, FileByte, FileBlock, Count;
    RestShape(v, owner, ino, inode);
    MappedReachable(v, owner, ino, inode, i);
    BlockLength(v, inode, i);
    ByteOfBlock(v, inode, i, j, k);
  }

  lemma RestShape(v: Volume, owner: Owner, ino: nat, inode: Block)
    requires AtRest(v, owner, ino, inode)
    ensures Shape(v)
  {
    hide TableOk, IsInode, InodeAt, WellFormed, Count;
    ReadyDisk(v, owner);
  }

  // ----- other files -----

  lemma OtherPtrs(v: Volume, o: Owner, v': Volume, o': Owner, ino: nat, j: nat)
    requires OnlyFile(v, o, v', o', ino) && j != ino
    ensures SamePtrs(v.disk, v'.disk, o, j) && Extends(o, o')
    ensures forall b :: b in o && b < |v.disk| && o[b].DataRole? && o[b].ino == j ==> v'.disk[b] == v.disk[b]
  {
    hide TableOk, SamePointers, InodeAt, IsInode;
  }

  lemma OtherMapped(v: Volume, o: Owner, v': Volume, o': Owner, ino: nat, j: nat, inode: Block)
    requires OnlyFile(v, o, v', o', ino) && WellFormed(v', o') && j != ino && FileOk(v, o, j, inode) && v'.geo == v.geo
    ensures FileOk(v', o', j, inode) && SameMap(v.disk, inode, v'.disk, inode, v.geo.P())
  {
    hide WellFormed, IsInode, TableOk, OnlyFile, SameMap, IndOk, SameLeaves, SamePtrs, Extends, Addr, Limit, DiskOk,
         Geometry.P, Units, Count;
    OtherPtrs(v, o, v', o', ino, j);
    ReadyDisk(v, o);
    MapFrame(v.disk, v'.disk, v.geo.P(), o, o', j, inode);
    MappedFrame(v, o, v', o', j, inode, inode, Count(v.geo, inode));
  }

  lemma OtherBlocks(v: Volume, o: Owner, v': Volume, o': Owner, ino: nat, j: nat, inode: Block, i: nat)
    requires OnlyFile(v, o, v', o', ino) && j != ino && FileOk(v, o, j, inode) && v'.geo == v.geo
    requires SameMap(v.disk, inode, v'.disk, inode, v.geo.P())
    ensures FileBlock(v', inode, i) == FileBlock(v, inode, i)
  {
    hide WellFormed, IsInode, TableOk, OnlyFile, IndOk, SamePtrs, Addr, Limit, Geometry.P, Units, Count, Reachable,
         Zeros;
    OtherPtrs(v, o, v', o', ino, j);
    OnlyFileDisk(v, o, v', o', ino);
    if i < Count(v.geo, inode) {
      MappedReachable(v, o, j, inode, i);
    }
  }

  lemma OnlyFileDisk(v: Volume, o: Owner, v': Volume, o': Owner, ino: nat)
    requires OnlyFile(v, o, v', o', ino)
    ensures |v'.disk| == |v.disk| && v'.geo == v.geo && TableOk(v) && TableOk(v')
    ensures forall j :: IsInode(v.geo, j) && j != ino ==> InodeAt(v', j) == InodeAt(v, j)
  {
  }

  /** An operation on file ino leaves every other file consistent and byte for byte the same. */
  lemma OtherFileKept(v: Volume, o: Owner, v': Volume, o': Owner, ino: nat, j: nat)
    requires OnlyFile(v, o, v', o', ino) && WellFormed(v', o') && FileAt(v, o, j) && j != ino && |v'.sb| == 1024
    ensures FileAt(v', o', j) && FileContents(v', o', j) == FileContents(v, o, j)
  {
    hide WellFormed, IsInode, TableOk, OnlyFile, FileOk, SameMap, InodeAt, FileBlock, Geometry.P;
    OnlyFileDisk(v, o, v', o', ino);
    var inode := InodeAt(v, j);
    OtherMapped(v, o, v', o', ino, j, inode);
    forall i: nat
      ensures FileBlock(v', inode, i) == FileBlock(v, inode, i)
    {
      OtherBlocks(v, o, v', o', ino, j, inode, i);
    }
    assert Contents(v', inode) == Contents(v, inode);
  }

  // ----- the file that was written -----

  /** Nothing but zeros lies past the size of the file. */
  ghost predicate ZeroTail(v: Volume, inode: Block) {
    IsRecord(inode) && v.geo.P() > 0 && forall k: nat :: k >= ISize(inode) ==> FileByte(v, inode, k) == 0
  }

  /** Writing data at lo: what was before it (zeros where it was beyond the end), the data, and what was behind it. */
  function Overwrite(was: Block, lo: nat, data: Block): (r: Block)
    ensures |r| == if lo + |data| > |was| then lo + |data| else |was|
  {
    (if lo <= |was| then was[..lo] else was + Zeros(lo - |was|))
    + data + (if lo + |data| <= |was| then was[lo + |data|..] else [])
  }

  /** The written range reads back exactly, and every other byte of the file reads as before. */
  lemma ReadsBack(v: Volume, o: Owner, a: Block, v': Volume, o': Owner, b: Block, ino: nat, lo: nat, data: Block)
    requires WroteBytes(v, o, a, v', o', b, ino, lo, data) && IsRecord(b)
    ensures v'.geo.P() > 0 && Extract(v', b, lo, lo + |data|) == data
    ensures forall x: nat, y: nat :: x <= y <= lo ==> Extract(v', b, x, y) == Extract(v, a, x, y)
    ensures forall x: nat, y: nat :: lo + |data| <= x <= y ==> Extract(v', b, x, y) == Extract(v, a, x, y)
  {
    hide FileByte, AtRest, OnlyFile, Slack, Count, Geometry.P, Limit;
  }

  /** The whole contents after a write that updated the size, as write_inode_buffer does. */
  lemma ContentsAfterWrite(v: Volume, o: Owner, a: Block, v': Volume, o': Owner, b: Block, ino: nat, lo: nat,
      data: Block)
    requires WroteBytes(v, o, a, v', o', b, ino, lo, data) && IsRecord(b)
    requires ISize(b) == if lo + |data| > ISize(a) then lo + |data| else ISize(a)
    ensures ZeroTail(v, a) ==> ZeroTail(v', b)
    ensures lo <= ISize(a) || ZeroTail(v, a) ==> Contents(v', b) == Overwrite(Contents(v, a), lo, data)
  {
    hide FileByte, AtRest, OnlyFile, Slack, Count, Geometry.P, Limit, ISize;
    var was, now, want := Contents(v, a), Contents(v', b), Overwrite(Contents(v, a), lo, data);
    if lo <= |was| || ZeroTail(v, a) {
      forall k | 0 <= k < |now|
        ensures now[k] == want[k]
      {
        assert now[k] == FileByte(v', b, k);
      }
    }
  }

  /** Reading any range after a write, through read_ext2's own result, sees the written bytes. */
  lemma ReadAfterWrite(v: Volume, o: Owner, a: Block, v': Volume, o': Owner, b: Block, ino: nat, lo: nat, data: Block,
      buffer: Block, out: Block)
    requires WroteBytes(v, o, a, v', o', b, ino, lo, data) && IsRecord(b)
    requires Copied(v', b, buffer, lo, |data|, out)
    ensures out[..|data|] == data
  {
    hide FileByte, AtRest, OnlyFile, Slack, Count, Geometry.P, Limit;
    ReadsBack(v, o, a, v', o', b, ino, lo, data);
  }

  // ----- every run of writes -----

  datatype Write = Write(ino: nat, offset: nat, data: Block)

  /** The file system as its users know it: a byte string for each file. */
  type Image = map<nat, Block>

  /** File ino is consistent and holds these bytes. */
  ghost predicate Holds(s: State, ino: nat, bytes: Block) {
    FileAt(s.v, s.owner, ino) && ZeroTail(s.v, InodeAt(s.v, ino)) && FileContents(s.v, s.owner, ino) == bytes
  }

  ghost predicate Represents(s: State, files: Image) {
    forall j :: j in files ==> Holds(s, j, files[j])
  }

  /** One call of write_ext2, as its contract describes it. */
  ghost predicate WriteStep(s: State, w: Write, s': State) {
    && FileAt(s.v, s.owner, w.ino) && FileAt(s'.v, s'.owner, w.ino)
    && WroteBytes(s.v, s.owner, InodeAt(s.v, w.ino), s'.v, s'.owner, InodeAt(s'.v, w.ino), w.ino, w.offset, w.data)
    && ISize(InodeAt(s'.v, w.ino)) ==
         if w.offset + |w.data| > ISize(InodeAt(s.v, w.ino)) then w.offset + |w.data| else ISize(InodeAt(s.v, w.ino))
  }

  function Apply(files: Image, w: Write): Image {
    if w.ino in files then files[w.ino := Overwrite(files[w.ino], w.offset, w.data)] else files
  }

  function ApplyAll(files: Image, ws: seq<Write>): Image {
    if ws == [] then files else Apply(ApplyAll(files, ws[..|ws| - 1]), ws[|ws| - 1])
  }

  lemma WroteOnly(v: Volume, o: Owner, a: Block, v': Volume, o': Owner, b: Block, ino: nat, lo: nat, data: Block)
    requires WroteBytes(v, o, a, v', o', b, ino, lo, data)
    ensures OnlyFile(v, o, v', o', ino) && WellFormed(v', o') && |v'.sb| == 1024
  {
    hide WellFormed, OnlyFile, FileByte, Slack, CanPut, InodeAt, IndOk;
  }

  lemma OtherTail(v: Volume, o: Owner, v': Volume, o': Owner, ino: nat, j: nat)
    requires OnlyFile(v, o, v', o', ino) && WellFormed(v', o') && FileAt(v, o, j) && j != ino && |v'.sb| == 1024
    requires ZeroTail(v, InodeAt(v, j))
    ensures FileAt(v', o', j) && ZeroTail(v', InodeAt(v', j))
  {
    hide WellFormed, IsInode, TableOk, OnlyFile, FileOk, SameMap, InodeAt, FileBlock, Geometry.P;
    OtherFileKept(v, o, v', o', ino, j);
    OnlyFileDisk(v, o, v', o', ino);
    var inode := InodeAt(v, j);
    OtherMapped(v, o, v', o', ino, j, inode);
    forall k: nat
      ensures FileByte(v', inode, k) == FileByte(v, inode, k)
    {
      if v.geo.blockSize > 0 {
        OtherBlocks(v, o, v', o', ino, j, inode, k / v.geo.blockSize);
      }
    }
  }

  lemma HoldsWritten(s: State, w: Write, s': State, bytes: Block)
    requires WriteStep(s, w, s') && Holds(s, w.ino, bytes)
    ensures Holds(s', w.ino, Overwrite(bytes, w.offset, w.data))
  {
    hide WroteBytes, FileAt, ZeroTail, FileContents, Overwrite, InodeAt, ISize;
    WrittenFile(s, w, s');
  }

  lemma HoldsOther(s: State, w: Write, s': State, j: nat, bytes: Block)
    requires WriteStep(s, w, s') && Holds(s, j, bytes) && j != w.ino
    ensures Holds(s', j, bytes)
  {
    hide WroteBytes, FileAt, ZeroTail, FileContents, Overwrite, InodeAt, ISize;
    StepOnly(s, w, s');
    OtherFileKept(s.v, s.owner, s'.v, s'.owner, w.ino, j);
    OtherTail(s.v, s.owner, s'.v, s'.owner, w.ino, j);
  }

  lemma StepOnly(s: State, w: Write, s': State)
    requires WriteStep(s, w, s')
    ensures OnlyFile(s.v, s.owner, s'.v, s'.owner, w.ino) && WellFormed(s'.v, s'.owner) && |s'.v.sb| == 1024
  {
    hide WroteBytes, AtRest, TableOk, IsInode, ISize, InodeAt, OnlyFile, WellFormed;
    WroteOnly(s.v, s.owner, InodeAt(s.v, w.ino), s'.v, s'.owner, InodeAt(s'.v, w.ino), w.ino, w.offset, w.data);
  }

  lemma StepRepresents(s: State, w: Write, s': State, files: Image)
    requires Represents(s, files) && WriteStep(s, w, s')
    ensures Represents(s', Apply(files, w))
  {
    hide WriteStep, Holds, Overwrite;
    forall j | j in files
      ensures Holds(s', j, Apply(files, w)[j])
    {
      if j == w.ino {
        HoldsWritten(s, w, s', files[j]);
      } else {
        HoldsOther(s, w, s', j, files[j]);
      }
    }
  }

  lemma WrittenFile(s: State, w: Write, s': State)
    requires WriteStep(s, w, s')
    ensures ZeroTail(s.v, InodeAt(s.v, w.ino)) ==> ZeroTail(s'.v, InodeAt(s'.v, w.ino))
    ensures w.offset <= ISize(InodeAt(s.v, w.ino)) || ZeroTail(s.v, InodeAt(s.v, w.ino)) ==>
              FileContents(s'.v, s'.owner, w.ino) == Overwrite(FileContents(s.v, s.owner, w.ino), w.offset, w.data)
  {
    hide WroteBytes, AtRest, ZeroTail, Overwrite, TableOk, IsInode, ISize, InodeAt, Contents;
    ContentsAfterWrite(s.v, s.owner, InodeAt(s.v, w.ino), s'.v, s'.owner, InodeAt(s'.v, w.ino), w.ino, w.offset,
        w.data);
  }

  ghost predicate IsRun(ss: seq<State>, ws: seq<Write>) {
    |ss| == |ws| + 1 && forall i :: 0 <= i < |ws| ==> WriteStep(ss[i], ws[i], ss[i + 1])
  }

  /** After any run of writes to any files, every file holds exactly what the same writes make of its byte string. */
  lemma {:induction false} RunRepresents(ss: seq<State>, ws: seq<Write>, files: Image)
    requires IsRun(ss, ws) && Represents(ss[0], files)
    ensures Represents(ss[|ws|], ApplyAll(files, ws))
    decreases |ws|
  {
    hide WriteStep, Represents, Apply;
    if ws != [] {
      var n := |ws| - 1;
      RunRepresents(ss[..|ss| - 1], ws[..n], files);
      StepRepresents(ss[n], ws[n], ss[n + 1], ApplyAll(files, ws[..n]));
    }
  }
}
