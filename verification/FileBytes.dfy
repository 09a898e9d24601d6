// Files byte by byte, on top of the endless array of blocks.

module FileBytes {
  import opened Arith
  import opened Bytes
  import opened Volumes
  import opened InodeTables
  import opened BlockMaps
  import opened Files
  import opened FileData

  /** Byte k of the file as it reads; zero past the mapped blocks. */
  ghost function FileByte(v: Volume, inode: Block, k: nat): byte
    requires IsRecord(inode) && v.geo.P() > 0
  {
    var bs := v.geo.blockSize;
    if bs == 0 then 0
    else
      var b := FileBlock(v, inode, k / bs);
      if k % bs < |b| then b[k % bs] else 0
  }

  /** Bytes lo..hi of the file. */
  ghost function Extract(v: Volume, inode: Block, lo: nat, hi: nat): (r: Block)
    requires IsRecord(inode) && v.geo.P() > 0 && lo <= hi
    ensures |r| == hi - lo
  {
    seq<byte>(hi - lo, k requires 0 <= k < hi - lo => FileByte(v, inode, lo + k))
  }

  /** What a caller can read: the bytes up to the size of the file. */
  ghost function Contents(v: Volume, inode: Block): (r: Block)
    requires IsRecord(inode) && v.geo.P() > 0
    ensures |r| == ISize(inode)
  {
    Extract(v, inode, 0, ISize(inode))
  }

  lemma BlockLength(v: Volume, inode: Block, i: nat)
    requires Shape(v) && IsRecord(inode) && v.geo.P() > 0
    ensures |FileBlock(v, inode, i)| == v.geo.blockSize
  {
    hide Addr, Count;
  }

  /** lo is byte from of block x. */
  predicate At(geo: Geometry, x: nat, from: nat, lo: nat) {
    lo == x * geo.blockSize + from
  }

  lemma ByteOfBlock(v: Volume, inode: Block, x: nat, j: nat, k: nat)
    requires IsRecord(inode) && v.geo.P() > 0 && j < v.geo.blockSize == |FileBlock(v, inode, x)| && At(v.geo, x, j, k)
    ensures FileByte(v, inode, k) == FileBlock(v, inode, x)[j]
  {
    hide FileBlock, Geometry.P;
    DivModUnique(k, x, v.geo.blockSize, j);
  }

  /** Part of one block, as bytes of the file. */
  lemma ExtractInBlock(v: Volume, inode: Block, x: nat, from: nat, to: nat, lo: nat)
    requires IsRecord(inode) && v.geo.P() > 0 && from <= to <= v.geo.blockSize == |FileBlock(v, inode, x)|
             && At(v.geo, x, from, lo)
    ensures Extract(v, inode, lo, lo + (to - from)) == FileBlock(v, inode, x)[from..to]
  {
    hide FileBlock, FileByte, Geometry.P, At;
    var e, b := Extract(v, inode, lo, lo + (to - from)), FileBlock(v, inode, x)[from..to];
    forall k | 0 <= k < |e|
      ensures e[k] == b[k]
    {
      AtNext(v.geo, x, from, lo, k);
      ByteOfBlock(v, inode, x, from + k, lo + k);
    }
  }

  lemma AtNext(geo: Geometry, x: nat, from: nat, lo: nat, k: nat)
    requires At(geo, x, from, lo)
    ensures At(geo, x, from + k, lo + k)
  {
  }

  /** Equal blocks have equal bytes. */
  lemma SameByte(v: Volume, a: Block, v': Volume, b: Block, k: nat)
    requires IsRecord(a) && IsRecord(b) && v'.geo == v.geo && v.geo.P() > 0
    requires v.geo.blockSize > 0 ==> FileBlock(v', b, k / v.geo.blockSize) == FileBlock(v, a, k / v.geo.blockSize)
    ensures FileByte(v', b, k) == FileByte(v, a, k)
  {
    hide FileBlock, Geometry.P;
  }

  lemma ExtractConcat(v: Volume, inode: Block, lo: nat, mid: nat, hi: nat)
    requires IsRecord(inode) && v.geo.P() > 0 && lo <= mid <= hi
    ensures Extract(v, inode, lo, hi) == Extract(v, inode, lo, mid) + Extract(v, inode, mid, hi)
  {
    hide FileByte;
  }

  // ----- reading: how much -----

  /** Of the n bytes from offset on, a file of the given size has r. */
  predicate InFile(size: nat, offset: nat, n: nat, r: nat) {
    if offset >= size then r == 0 else r <= n && offset + r <= size && (r == n || offset + r == size)
  }

  /** The end and the length that read_ext2 computes in 32-bit unsigned arithmetic. */
  function ReadEnd(size: nat, offset: nat, n: nat): nat {
    if (offset + n) % U32 > size then size else (offset + n) % U32
  }

  function ReadLength(size: nat, offset: nat, n: nat): nat {
    if size == 0 then 0 else (ReadEnd(size, offset, n) + U32 - offset) % U32
  }

  predicate ReadInRange(size: nat, offset: nat, n: nat) {
    size == 0 || (offset <= size && offset + n < U32)
  }

  lemma OnceAround(a: nat)
    requires a < 2 * U32
    ensures a % U32 == if a < U32 then a else a - U32
  {
    if a < U32 {
      DivModUnique(a, 0, U32, a);
    } else {
      DivModUnique(a, 1, U32, a - U32);
    }
  }

  /** The length is right exactly for reads that start inside the file and do not wrap around. */
  lemma ReadLengthExact(size: nat, offset: nat, n: nat)
    requires size < U32 && offset < U32 && n < U32
    ensures InFile(size, offset, n, ReadLength(size, offset, n)) <==> ReadInRange(size, offset, n)
  {
    OnceAround(offset + n);
    OnceAround(ReadEnd(size, offset, n) + U32 - offset);
  }

  // ----- writing -----

  /** Bytes lo.. of file ino now read data; every other byte of the file reads as before, and no other file changed. */
  ghost predicate WroteBytes(v: Volume, o: Owner, a: Block, v': Volume, o': Owner, b: Block, ino: nat, lo: nat,
      data: Block) {
    && AtRest(v', o', ino, b) && IsRecord(a) && v'.geo == v.geo && v.geo.P() > 0 && |v.sb| == 1024
    && SameMode(a, b) && Count(v.geo, b) >= Count(v.geo, a)
    && OnlyFile(v, o, v', o', ino)
    && (forall k: nat :: FileByte(v', b, k) == if lo <= k < lo + |data| then data[k - lo] else FileByte(v, a, k))
    && (forall m: nat :: Count(v.geo, b) <= m <= Limit(v.geo.P()) ==> Slack(v', b, m) == Slack(v, a, m))
  }

  lemma WroteBytesTrans(v: Volume, o: Owner, a: Block, v1: Volume, o1: Owner, b: Block, v2: Volume, o2: Owner, c: Block,
                        ino: nat, lo: nat, d1: Block, d2: Block)
    requires WroteBytes(v, o, a, v1, o1, b, ino, lo, d1) && WroteBytes(v1, o1, b, v2, o2, c, ino, lo + |d1|, d2)
    ensures WroteBytes(v, o, a, v2, o2, c, ino, lo, d1 + d2)
  {
    hide FileByte, Slack, Count, AtRest, OnlyFile, Limit, Geometry.P;
    OnlyFileTrans(v, o, v1, o1, v2, o2, ino);
  }

  lemma WroteNothing(v: Volume, o: Owner, a: Block, ino: nat, lo: nat)
    requires AtRest(v, o, ino, a)
    ensures WroteBytes(v, o, a, v, o, a, ino, lo, [])
  {
    hide FileByte, Slack, Count, OnlyFile, Limit, IndOk, InodeAt, TableOk, IsInode, WellFormed;
    MetaRefl(v, o, ino);
  }

  lemma Position(k: nat, i: nat, j: nat, x: nat, bs: nat, from: nat, len: nat, lo: nat)
    requires k == i * bs + j && j < bs && from + len <= bs && lo == x * bs + from
    ensures i == x ==> (lo <= k < lo + len <==> from <= j < from + len) && k - lo == j - from
    ensures i != x ==> !(lo <= k < lo + len)
  {
    var p, q := i * bs, x * bs;
    assert k == p + j && lo == q + from;
    if i < x {
      NextBlock(i, x, bs);
      assert p + bs <= q;
    } else if i > x {
      NextBlock(x, i, bs);
      assert q + bs <= p;
    }
  }

  lemma NextBlock(i: nat, x: nat, bs: nat)
    requires i < x
    ensures i * bs + bs <= x * bs
  {
    MulLe(i + 1, x, bs);
  }

  ghost predicate Spliced(v: Volume, a: Block, v': Volume, b: Block, x: nat, from: nat, data: Block) {
    && Shape(v) && Shape(v') && IsRecord(a) && IsRecord(b) && v'.geo == v.geo && v.geo.P() > 0
        && from + |data| <= v.geo.blockSize
    && |FileBlock(v, a, x)| == v.geo.blockSize && FileBlock(v', b, x) == Splice(FileBlock(v, a, x), from, data)
    && SameBlocks(v, a, v', b, x)
  }

  lemma SplicedByte(v: Volume, a: Block, v': Volume, b: Block, x: nat, from: nat, data: Block, k: nat, lo: nat)
    requires Spliced(v, a, v', b, x, from, data) && At(v.geo, x, from, lo)
    ensures FileByte(v', b, k) == if lo <= k < lo + |data| then data[k - lo] else FileByte(v, a, k)
  {
    hide FileByte, FileBlock, Geometry.Ok, Splice, Geometry.P, Shape;
    SizePositive(v);
    var bs := v.geo.blockSize;
    DivModParts(k, bs);
    BlockLength(v, a, k / bs);
    BlockLength(v', b, k / bs);
    ByteOfBlock(v, a, k / bs, k % bs, k);
    ByteOfBlock(v', b, k / bs, k % bs, k);
    Position(k, k / bs, k % bs, x, bs, from, |data|, lo);
  }

  lemma SizePositive(v: Volume)
    requires Shape(v)
    ensures v.geo.blockSize > 0
  {
  }

  /** Writing back block x with data spliced in at from writes exactly those bytes. */
  lemma WroteBlockBytes(v: Volume, o: Owner, a: Block, v': Volume, o': Owner, b: Block, ino: nat, x: nat, from: nat,
      data: Block, buf: Block, lo: nat)
    requires Wrote(v, o, a, v', o', b, ino, x, buf) && Spliced(v, a, v', b, x, from, data) && At(v.geo, x, from, lo)
    ensures WroteBytes(v, o, a, v', o', b, ino, lo, data) && ISize(b) == ISize(a)
  {
    hide FileByte, Slack, Count, OnlyFile, Limit, Geometry.P, FileBlock, AtRest, Spliced, At;
    forall k: nat
      ensures FileByte(v', b, k) == if lo <= k < lo + |data| then data[k - lo] else FileByte(v, a, k)
    {
      SplicedByte(v, a, v', b, x, from, data, k, lo);
    }
  }

  // ----- changing the size -----

  lemma ResizedRecord(v: Volume, o: Owner, a: Block, ino: nat, b: Block, lo: nat)
    requires AtRest(v, o, ino, a) && IsRecord(b) && |b| == |a| && SameMode(a, b) && IBlocks(b) == IBlocks(a)
             && SameEntries(a, b, -1)
    ensures CanPut(v, ino, b) && WroteBytes(v, o, a, PutInode(v, ino, b), o, b, ino, lo, [])
  {
    hide WellFormed, IndOk, SameMap, SameLeaves, Addr, Limit, IsInode, TableOk, PutInode, OnlyFile, DataKept, Extends,
         IBlock, DiskOk, FileByte, Need, InodeAt, Geometry.P, Units;
    var v' := PutInode(v, ino, b);
    EntriesDecide(v.disk, v.geo.P(), o, ino, a, b);
    RecordIndex(v, o, ino, b, b);
    SameMapTrans(v.disk, a, v.disk, b, v'.disk, b, v.geo.P());
    LeavesTrans(v, a, v, b, v', b);
    ExtendsRefl(o);
    MappedFrame(v, o, v', o, ino, a, b, Count(v.geo, a));
    RecordWritten(v, o, ino, b);
    forall k: nat
      ensures FileByte(v', b, k) == FileByte(v, a, k)
    {
      ResizedByte(v, o, a, v', b, ino, k);
    }
    forall m: nat | m <= Limit(v.geo.P())
      ensures Slack(v', b, m) == Slack(v, a, m)
    {
      NeedSameEntries(v, a, v', b, Count(v.geo, a), m);
    }
  }

  lemma ResizedByte(v: Volume, o: Owner, a: Block, v': Volume, b: Block, ino: nat, k: nat)
    requires FileOk(v, o, ino, a) && IsRecord(b) && v'.geo == v.geo && MetaStep(v, o, v', o, ino)
    requires IBlocks(b) == IBlocks(a) && SameMap(v.disk, a, v'.disk, b, v.geo.P())
    ensures FileByte(v', b, k) == FileByte(v, a, k)
  {
    hide MetaStep, SameMap, FileBlock, FileByte, Ready, Count, Units, IBlocks, Limit, Addr;
    if v.geo.blockSize > 0 {
      ResizedBlock(v, o, a, v', b, ino, k / v.geo.blockSize);
    }
    SameByte(v, a, v', b, k);
  }

  lemma ResizedBlock(v: Volume, o: Owner, a: Block, v': Volume, b: Block, ino: nat, i: nat)
    requires FileOk(v, o, ino, a) && IsRecord(b) && v'.geo == v.geo && MetaStep(v, o, v', o, ino)
    requires IBlocks(b) == IBlocks(a) && SameMap(v.disk, a, v'.disk, b, v.geo.P())
    ensures FileBlock(v', b, i) == FileBlock(v, a, i)
  {
    hide WellFormed, IndOk, Addr, Limit, IsInode, TableOk, OnlyFile, Units, FileBlock, Count;
    SameCount(v.geo, a, b);
    OwnedInRange(v, o);
    if i < Count(v.geo, a) {
      BlocksKept(v, o, v', ino, a, b);
    } else {
      PastTheEnd(v, a, v', b, i);
    }
  }

  lemma SameCount(geo: Geometry, a: Block, b: Block)
    requires IsRecord(a) && IsRecord(b) && IBlocks(b) == IBlocks(a)
    ensures Count(geo, b) == Count(geo, a)
  {
  }

  lemma PastTheEnd(v: Volume, a: Block, v': Volume, b: Block, i: nat)
    requires IsRecord(a) && IsRecord(b) && v'.geo == v.geo && v.geo.P() > 0 && IBlocks(b) == IBlocks(a)
             && i >= Count(v.geo, a)
    ensures FileBlock(v', b, i) == FileBlock(v, a, i)
  {
    hide Addr, Units;
  }

  lemma {:induction false} NeedSameEntries(v: Volume, a: Block, v': Volume, b: Block, n: nat, m: nat)
    requires IsRecord(a) && IsRecord(b) && SameEntries(a, b, -1) && v'.geo == v.geo && v.geo.P() > 0
    requires SameLeaves(v.disk, a, v'.disk, b, v.geo.P(), -1) && m <= Limit(v.geo.P())
    ensures Need(v'.disk, v.geo.P(), b, n, m) == Need(v.disk, v.geo.P(), a, n, m)
    decreases m - n
  {
    hide Cell, Geometry.P, IBlock;
    if n < m {
      NeedSameEntries(v, a, v', b, n + 1, m);
      if n >= DIRECT_BLOCKS + v.geo.P() {
        DoubleIndex(v.geo.P(), n);
      }
    }
  }

  // ----- the walk over the blocks of a byte range -----

  /** The block that byte k falls in, and its place there. */
  function BlockIndex(geo: Geometry, k: nat): nat
    requires geo.blockSize > 0
  {
    k / geo.blockSize
  }

  function ByteIndex(geo: Geometry, k: nat): nat
    requires geo.blockSize > 0
  {
    k - k / geo.blockSize * geo.blockSize
  }

  /** Bytes of a range from offset on that lie in its first k blocks. */
  function Done(geo: Geometry, offset: nat, k: nat): int
    requires geo.blockSize > 0
  {
    if k == 0 then 0 else geo.blockSize * k - ByteIndex(geo, offset)
  }

  lemma RangeStart(geo: Geometry, offset: nat, end: nat)
    requires geo.blockSize > 0 && offset <= end
    ensures BlockIndex(geo, offset) <= BlockIndex(geo, end) && Done(geo, offset, 0) == 0
    ensures 0 <= ByteIndex(geo, offset) < geo.blockSize
  {
    DivModParts(offset, geo.blockSize);
    DivMonotone(offset, end, geo.blockSize);
  }

  /** A range inside one block. */
  lemma InOneBlock(geo: Geometry, offset: nat, end: nat)
    requires geo.blockSize > 0 && offset <= end && BlockIndex(geo, offset) == BlockIndex(geo, end)
    ensures ByteIndex(geo, offset) + (end - offset) <= geo.blockSize
    ensures At(geo, BlockIndex(geo, offset), ByteIndex(geo, offset), offset)
  {
    DivModParts(offset, geo.blockSize);
    DivModParts(end, geo.blockSize);
  }

  /** The step from k to k + 1 blocks of a range that reaches past its block k. */
  lemma DoneStep(geo: Geometry, offset: nat, end: nat, k: nat)
    requires geo.blockSize > 0 && offset <= end && BlockIndex(geo, offset) + k < BlockIndex(geo, end)
    ensures 0 <= ByteIndex(geo, offset) < geo.blockSize && 0 <= Done(geo, offset, k)
              && Done(geo, offset, k + 1) <= end - offset
    ensures Done(geo, offset, k + 1) ==
              Done(geo, offset, k) + (if k == 0 then geo.blockSize - ByteIndex(geo, offset) else geo.blockSize)
    ensures At(geo, BlockIndex(geo, offset) + k, if k == 0 then ByteIndex(geo, offset) else 0,
               offset + Done(geo, offset, k))
  {
    var bs := geo.blockSize;
    DivModParts(offset, bs);
    DivModParts(end, bs);
    MulLe(offset / bs + k + 1, end / bs, bs);
    assert (offset / bs + k) * bs == (offset / bs) * bs + bs * k;
  }

  lemma DoneEnd(geo: Geometry, offset: nat, end: nat, k: nat)
    requires geo.blockSize > 0 && offset <= end && k > 0 && BlockIndex(geo, offset) + k == BlockIndex(geo, end)
    ensures 0 <= ByteIndex(geo, end) < geo.blockSize && 0 <= Done(geo, offset, k)
    ensures Done(geo, offset, k) + ByteIndex(geo, end) == end - offset
    ensures At(geo, BlockIndex(geo, end), 0, offset + Done(geo, offset, k))
  {
    var bs := geo.blockSize;
    DivModParts(offset, bs);
    DivModParts(end, bs);
    MulLe(1, k, bs);
    assert (offset / bs + k) * bs == (offset / bs) * bs + bs * k;
  }

  /** What read_ext2 has copied so far: the file's bytes from offset on, then the caller's own bytes. */
  ghost predicate Copied(v: Volume, inode: Block, buffer: Block, offset: nat, at: nat, out: Block) {
    && IsRecord(inode) && v.geo.P() > 0 && at <= |buffer|
    && out == Extract(v, inode, offset, offset + at) + buffer[at..]
  }

  lemma CopiedParts(v: Volume, inode: Block, buffer: Block, offset: nat, at: nat, out: Block)
    requires Copied(v, inode, buffer, offset, at, out)
    ensures |out| == |buffer| && at <= |buffer| && out[at..] == buffer[at..]
  {
  }

  lemma CopiedMore(v: Volume, inode: Block, buffer: Block, offset: nat, at: nat, out: Block, x: nat, from: nat, to: nat)
    requires Shape(v) && Copied(v, inode, buffer, offset, at, out) && from <= to <= v.geo.blockSize
             && at + (to - from) <= |buffer|
    requires At(v.geo, x, from, offset + at)
    ensures |FileBlock(v, inode, x)| == v.geo.blockSize && |out| == |buffer|
    ensures Copied(v, inode, buffer, offset, at + (to - from), Splice(out, at, FileBlock(v, inode, x)[from..to]))
  {
    hide FileByte, FileBlock, Shape, Geometry.P, At, Extract;
    var n := to - from;
    BlockLength(v, inode, x);
    ExtractInBlock(v, inode, x, from, to, offset + at);
    ExtractConcat(v, inode, offset, offset + at, offset + at + n);
    var part := FileBlock(v, inode, x)[from..to];
    assert Splice(out, at, part) == Extract(v, inode, offset, offset + at) + part + buffer[at + n..];
  }

  /** File ino, with its record on disk, is consistent. */
  ghost predicate FileAt(v: Volume, owner: Owner, ino: nat) {
    TableOk(v) && IsInode(v.geo, ino) && AtRest(v, owner, ino, InodeAt(v, ino))
  }

  lemma CopiedNone(v: Volume, owner: Owner, ino: nat, inode: Block, buffer: Block, offset: nat)
    requires AtRest(v, owner, ino, inode)
    ensures Copied(v, inode, buffer, offset, 0, buffer)
  {
    hide FileByte, Ready, InodeAt, CanPut, Count;
    assert buffer[0..] == buffer;
  }

  // ----- space for a byte range -----

  /** Block x is within the map, and its length in sectors fits the record. */
  ghost predicate Addressable(geo: Geometry, x: nat) {
    x < Limit(geo.P()) && (x + 1) * Units(geo) < U32
  }

  /** The last block that a write of offset..end touches. */
  function LastBlock(geo: Geometry, offset: nat, end: nat): int
    requires geo.blockSize > 0
  {
    if BlockIndex(geo, offset) == BlockIndex(geo, end) || ByteIndex(geo, end) != 0 then BlockIndex(geo, end)
    else BlockIndex(geo, end) - 1
  }

  lemma RangeAddressable(geo: Geometry, offset: nat, end: nat, x: nat)
    requires geo.Ok() && offset <= end < U32 && x <= LastBlock(geo, offset, end) < Limit(geo.P())
    ensures Addressable(geo, x)
  {
    var bs := geo.blockSize;
    assert bs > 1024 && bs < 0x1_0000;
    hide Geometry.Ok, Limit, Geometry.P, ByteIndex;
    DivModParts(end, bs);
    MulLe(x, end / bs, bs);
    SectorsFit(x, bs, end);
  }

  lemma SectorsFit(x: nat, bs: nat, end: nat)
    requires 512 <= bs < 0x1_0000 && x * bs <= end < U32
    ensures (x + 1) * (bs / 512) < U32
  {
    DivModParts(bs, 512);
    var u := bs / 512;
    MulLe(512 * u, bs, x);
    assert x * (512 * u) == 512 * (x * u);
    assert (x + 1) * u == x * u + u;
  }

  lemma {:induction false} NeedMonotone(disk: seq<Block>, p: nat, inode: Block, n: nat, x: nat, m: nat)
    requires IsRecord(inode) && p > 0 && x <= m
    ensures Need(disk, p, inode, n, x) <= Need(disk, p, inode, n, m)
    decreases m - n
  {
    hide Charge;
    if n < x {
      NeedMonotone(disk, p, inode, n + 1, x, m);
    }
  }

  lemma SlackMonotone(v: Volume, inode: Block, x: nat, m: nat)
    requires IsRecord(inode) && v.geo.P() > 0 && |v.sb| == 1024 && x <= m && Slack(v, inode, m) >= 0
    ensures Slack(v, inode, x) >= 0
  {
    hide Need, Count;
    NeedMonotone(v.disk, v.geo.P(), inode, Count(v.geo, inode), x, m);
  }

  /** A write never uses more than the slack it was given. */
  lemma SlackAfter(v: Volume, o: Owner, a: Block, v': Volume, o': Owner, b: Block, ino: nat, lo: nat, data: Block,
      m: nat)
    requires WroteBytes(v, o, a, v', o', b, ino, lo, data) && m <= Limit(v.geo.P()) && Slack(v, a, m) >= 0
    ensures IsRecord(b) && Slack(v', b, m) >= 0
  {
    hide FileByte, Count, FileOk, OnlyFile, Limit, Geometry.P, Charge, CanPut, InodeAt;
    assert IsRecord(b) by { RestRecord(v', o', ino, b); }
    if m <= Count(v.geo, b) {
      assert Need(v'.disk, v'.geo.P(), b, Count(v.geo, b), m) == 0;
    }
  }

  lemma RestRecord(v: Volume, o: Owner, ino: nat, b: Block)
    requires AtRest(v, o, ino, b)
    ensures IsRecord(b)
  {
  }

  // ----- progress of write_inode_buffer -----

  /** The first n bytes of the buffer are written; the rest still fits. */
  ghost predicate Progress(v0: Volume, o0: Owner, a: Block, v: Volume, o: Owner, b: Block, ino: nat, offset: nat,
      buffer: Block, n: int, last: int, size: nat) {
    && 0 <= n <= |buffer| && 0 <= last < Limit(v0.geo.P())
    && WroteBytes(v0, o0, a, v, o, b, ino, offset, buffer[..n])
    && IsRecord(b) && ISize(b) == size && Slack(v, b, last + 1) >= 0
  }

  lemma ProgressMore(v0: Volume, o0: Owner, a: Block, v: Volume, o: Owner, b: Block, v': Volume, o': Owner, c: Block,
                     ino: nat, offset: nat, buffer: Block, n: int, m: int, last: int, size: nat)
    requires Progress(v0, o0, a, v, o, b, ino, offset, buffer, n, last, size) && n <= m <= |buffer|
    requires WroteBytes(v, o, b, v', o', c, ino, offset + n, buffer[n..m]) && IsRecord(c) && ISize(c) == size
    ensures Progress(v0, o0, a, v', o', c, ino, offset, buffer, m, last, size)
  {
    hide FileByte, Slack, OnlyFile, Limit, AtRest, Count, Geometry.P;
    WroteBytesTrans(v0, o0, a, v, o, b, v', o', c, ino, offset, buffer[..n], buffer[n..m]);
    assert buffer[..n] + buffer[n..m] == buffer[..m];
    SlackAfter(v, o, b, v', o', c, ino, offset + n, buffer[n..m], last + 1);
  }

  lemma ProgressDone(v0: Volume, o0: Owner, a: Block, v: Volume, o: Owner, b: Block, ino: nat, offset: nat,
      buffer: Block, last: int, size: nat)
    requires Progress(v0, o0, a, v, o, b, ino, offset, buffer, |buffer|, last, size)
    ensures WroteBytes(v0, o0, a, v, o, b, ino, offset, buffer) && IsRecord(b) && ISize(b) == size
  {
    hide WroteBytes, Slack, Limit;
    assert buffer[..|buffer|] == buffer;
  }

  lemma ProgressRest(v0: Volume, o0: Owner, a: Block, v: Volume, o: Owner, b: Block, ino: nat, offset: nat,
      buffer: Block, n: int, last: int, size: nat, x: nat)
    requires Progress(v0, o0, a, v, o, b, ino, offset, buffer, n, last, size) && x <= last
    ensures AtRest(v, o, ino, b) && v.geo == v0.geo && v.geo.P() > 0 && |v.sb| == 1024
    ensures IsRecord(b) && Slack(v, b, x + 1) >= 0 && last < Limit(v0.geo.P())
  {
    hide FileOk, Slack, Limit, OnlyFile, Count, FileByte, CanPut, InodeAt, Geometry.P;
    SlackMonotone(v, b, x + 1, last + 1);
  }

  lemma RestSlot(v: Volume, o: Owner, ino: nat, b: Block)
    requires AtRest(v, o, ino, b)
    ensures TableOk(v) && IsInode(v.geo, ino) && |b| == v.geo.inodeSize && InodeAt(v, ino) == b
    ensures v.geo.inodesPerGroup > 0 && !(ino / v.geo.inodesPerGroup > v.geo.groups)
  {
    hide FileOk, TableOk;
  }

  lemma ProgressStart(v0: Volume, o0: Owner, a: Block, v: Volume, o: Owner, b: Block, ino: nat, offset: nat,
      buffer: Block, last: int)
    requires WroteBytes(v0, o0, a, v, o, b, ino, offset, []) && IsRecord(b) && 0 <= last < Limit(v0.geo.P())
    requires v.geo.P() > 0 && |v.sb| == 1024 && Slack(v, b, last + 1) >= 0
    ensures Progress(v0, o0, a, v, o, b, ino, offset, buffer, 0, last, ISize(b))
  {
    hide WroteBytes, Slack, Limit;
    assert buffer[..0] == [];
  }

  lemma WroteFacts(v: Volume, o: Owner, a: Block, v': Volume, o': Owner, b: Block, ino: nat, lo: nat, data: Block)
    requires WroteBytes(v, o, a, v', o', b, ino, lo, data)
    ensures v'.geo == v.geo && v.geo.P() > 0 && |v.sb| == |v'.sb| == 1024 && AtRest(v', o', ino, b)
  {
    hide FileOk, CanPut, InodeAt, OnlyFile, FileByte, Slack;
  }

  lemma LastBlockBounds(geo: Geometry, offset: nat, end: nat)
    requires geo.blockSize > 0
    ensures LastBlock(geo, offset, end) >= BlockIndex(geo, end) - 1
    ensures BlockIndex(geo, offset) == BlockIndex(geo, end) || ByteIndex(geo, end) != 0 ==>
              LastBlock(geo, offset, end) == BlockIndex(geo, end)
  {
  }
}
