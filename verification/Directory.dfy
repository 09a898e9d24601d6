// Directories: blocks tiled by variable-length records.

module Directories {
  import opened Options
  import opened Arith
  import opened Bytes
  import opened Volumes
  import opened InodeTables
  import opened BlockMaps
  import opened Files
  import opened FileData

  datatype Dirent = Dirent(ino: nat, name: Block)

  /** A C string argument, possibly NULL. */
  datatype CString = Null | Text(s: Block)

  // ----- one record -----

  const HEADER := 8

  function RecIno(b: Block, o: nat): nat requires o + HEADER <= |b| { GetU32(b, o) }

  function RecLen(b: Block, o: nat): nat requires o + HEADER <= |b| { GetU16(b, o + 4) }

  function NameLen(b: Block, o: nat): nat requires o + HEADER <= |b| { GetU8(b, o + 6) }

  /** Length rounded up to a multiple of 4, as the driver computes it. */
  function Rounded(n: nat): (r: nat)
    ensures n <= r < n + 4 && r % 4 == 0
  {
    n + if n % 4 != 0 then 4 - n % 4 else 0
  }

  /** The least length that holds the record's name. */
  function Tight(b: Block, o: nat): nat requires o + HEADER <= |b| { Rounded(NameLen(b, o) + HEADER) }

  ghost predicate RecordOk(b: Block, o: nat) {
    && o + HEADER <= |b|
    && Tight(b, o) <= RecLen(b, o) && RecLen(b, o) % 4 == 0
    && o + RecLen(b, o) <= |b|
  }

  ghost function Entry(b: Block, o: nat): Dirent
    requires RecordOk(b, o)
  {
    Dirent(RecIno(b, o), b[o + HEADER..o + HEADER + NameLen(b, o)])
  }

  // ----- one block -----

  /** From o on, the records fill the block exactly. */
  ghost predicate Tiles(b: Block, o: nat)
    decreases |b| - o
  {
    o == |b| || (o < |b| && RecordOk(b, o) && Tiles(b, o + RecLen(b, o)))
  }

  ghost function Entries(b: Block, o: nat): seq<Dirent>
    requires Tiles(b, o)
    decreases |b| - o
  {
    if o == |b| then [] else [Entry(b, o)] + Entries(b, o + RecLen(b, o))
  }

  /** Where the last record of the block starts. */
  ghost function LastRecord(b: Block, o: nat): (l: nat)
    requires Tiles(b, o) && o < |b|
    ensures o <= l < |b| && RecordOk(b, l) && l + RecLen(b, l) == |b|
    decreases |b| - o
  {
    if o + RecLen(b, o) == |b| then o else LastRecord(b, o + RecLen(b, o))
  }

  // ----- a whole directory -----

  /** Blocks of the directory by its size. */
  function DirLen(geo: Geometry, inode: Block): nat
    requires IsRecord(inode) && geo.blockSize > 0
  {
    ISize(inode) / geo.blockSize
  }

  /** Every block is tiled; the size is whole blocks; the block counter is 8 bits wide. */
  ghost predicate DirOk(v: Volume, inode: Block) {
    && IsRecord(inode) && v.geo.P() > 0 && v.geo.blockSize > 0
    && ISize(inode) == DirLen(v.geo, inode) * v.geo.blockSize
    && DirLen(v.geo, inode) <= Count(v.geo, inode) && DirLen(v.geo, inode) <= 256
    && forall i: nat :: i < DirLen(v.geo, inode) ==>
         |FileBlock(v, inode, i)| == v.geo.blockSize && Tiles(FileBlock(v, inode, i), 0)
  }

  /** The records of blocks i and after. */
  ghost function ListFrom(v: Volume, inode: Block, i: nat): seq<Dirent>
    requires DirOk(v, inode)
    decreases DirLen(v.geo, inode) - i
  {
    if i >= DirLen(v.geo, inode) then [] else Entries(FileBlock(v, inode, i), 0) + ListFrom(v, inode, i + 1)
  }

  /** All records of the directory, in order. */
  ghost function Listing(v: Volume, inode: Block): seq<Dirent>
    requires DirOk(v, inode)
  {
    ListFrom(v, inode, 0)
  }

  /** The first live record with the name. */
  function FindLive(es: seq<Dirent>, name: Block): Option<Dirent> {
    if es == [] then None
    else if es[0].ino != 0 && es[0].name == name then Some(es[0])
    else FindLive(es[1..], name)
  }

  function Live(es: seq<Dirent>): seq<Dirent> {
    if es == [] then [] else (if es[0].ino != 0 then [es[0]] else []) + Live(es[1..])
  }

  /** The k-th live record. */
  function LiveAt(es: seq<Dirent>, k: nat): Option<Dirent> {
    if k < |Live(es)| then Some(Live(es)[k]) else None
  }

  /** Record i is the first live one with the name. */
  ghost predicate FirstNamed(es: seq<Dirent>, name: Block, i: nat) {
    i < |es| && es[i].ino != 0 && es[i].name == name && forall j :: 0 <= j < i && es[j].ino != 0 ==> es[j].name != name
  }

  /** The answer is the first live record with the name, or there is none. */
  ghost predicate Finds(es: seq<Dirent>, name: Block, found: Option<Dirent>) {
    match found
    case None => forall j :: 0 <= j < |es| && es[j].ino != 0 ==> es[j].name != name
    case Some(d) => exists i: nat :: FirstNamed(es, name, i) && es[i] == d
  }

  lemma {:induction false} FindLiveFirst(es: seq<Dirent>, name: Block)
    ensures Finds(es, name, FindLive(es, name))
  {
    if es != [] {
      if es[0].ino != 0 && es[0].name == name {
        assert FirstNamed(es, name, 0);
      } else {
        FindLiveFirst(es[1..], name);
        assert forall j :: 0 < j < |es| ==> es[j] == es[1..][j - 1];
        if FindLive(es, name).Some? {
          var i: nat :| FirstNamed(es[1..], name, i) && es[1..][i] == FindLive(es, name).value;
          assert FirstNamed(es, name, i + 1);
        }
      }
    }
  }

  /** The positions of the live records before i. */
  ghost function LiveBefore(es: seq<Dirent>, i: nat): set<nat> {
    set j: nat | j < i && j < |es| && es[j].ino != 0
  }

  /** The answer is the live record behind exactly k others, or there are no more than k. */
  ghost predicate Lists(es: seq<Dirent>, k: nat, found: Option<Dirent>) {
    match found
    case None => |LiveBefore(es, |es|)| <= k
    case Some(d) => exists i: nat :: i < |es| && es[i] == d && d.ino != 0 && |LiveBefore(es, i)| == k
  }

  lemma LiveGrows(es: seq<Dirent>, d: Dirent, i: nat)
    requires i <= |es|
    ensures LiveBefore(es + [d], i) == LiveBefore(es, i)
    ensures |LiveBefore(es + [d], |es| + 1)| == |LiveBefore(es, |es|)| + if d.ino != 0 then 1 else 0
  {
    var n := |es|;
    assert LiveBefore(es + [d], n + 1) == if d.ino != 0 then LiveBefore(es, n) + {n} else LiveBefore(es, n);
  }

  lemma {:induction false} LiveAtExact(es: seq<Dirent>, k: nat)
    ensures |Live(es)| == |LiveBefore(es, |es|)| && Lists(es, k, LiveAt(es, k))
  {
    if es == [] {
      assert LiveBefore(es, 0) == {};
    } else {
      var n, front := |es| - 1, es[..|es| - 1];
      assert es == front + [es[n]];
      LiveAtExact(front, k);
      LiveAppend(front, es[n]);
      LiveGrows(front, es[n], n);
      hide Live, LiveBefore;
      if LiveAt(front, k).Some? {
        var i: nat :| i < n && front[i] == LiveAt(front, k).value && front[i].ino != 0 && |LiveBefore(front, i)| == k;
        LiveGrows(front, es[n], i);
        assert es[i] == front[i];
      }
    }
  }

  lemma {:induction false} LiveAppend(es: seq<Dirent>, d: Dirent)
    ensures Live(es + [d]) == Live(es) + if d.ino != 0 then [d] else []
  {
    if es != [] {
      assert (es + [d])[1..] == es[1..] + [d];
      LiveAppend(es[1..], d);
    }
  }

  // ----- walking a directory -----

  /** total_offset for a position. */
  function Total(geo: Geometry, i: nat, off: nat): nat {
    i * geo.blockSize + off
  }

  /** A walk stands at offset off of block i, which is in the buffer. */
  ghost predicate Cursor(v: Volume, inode: Block, i: nat, off: nat, total: nat, block: Block) {
    && DirOk(v, inode) && i < DirLen(v.geo, inode) && off <= v.geo.blockSize
    && block == FileBlock(v, inode, i) && |block| == v.geo.blockSize && Tiles(block, off)
        && total == Total(v.geo, i, off)
  }

  /** The records from offset off of block i on. */
  ghost function Rest(v: Volume, inode: Block, i: nat, off: nat, total: nat, block: Block): seq<Dirent>
    requires Cursor(v, inode, i, off, total, block)
  {
    Entries(block, off) + ListFrom(v, inode, i + 1)
  }

  lemma CursorEnd(v: Volume, inode: Block, i: nat, off: nat, total: nat, block: Block)
    requires Cursor(v, inode, i, off, total, block)
    ensures total <= ISize(inode)
    ensures total < ISize(inode) <==> off < v.geo.blockSize || i + 1 < DirLen(v.geo, inode)
    ensures total == ISize(inode) ==> Rest(v, inode, i, off, total, block) == []
  {
    hide FileBlock, Count, RecordOk, DirLen;
    TotalBound(i, DirLen(v.geo, inode), v.geo.blockSize, off);
  }

  lemma TotalBound(i: nat, n: nat, bs: nat, off: nat)
    requires i < n && off <= bs && bs > 0
    ensures i * bs + off <= n * bs
    ensures i * bs + off < n * bs <==> off < bs || i + 1 < n
  {
    MulLe(i + 1, n, bs);
    if i + 1 < n {
      MulLe(i + 2, n, bs);
    } else {
      assert n == i + 1;
    }
  }

  /** At the end of a block the walk moves to the next one. */
  lemma CursorNextBlock(v: Volume, inode: Block, i: nat, total: nat, block: Block)
    requires Cursor(v, inode, i, v.geo.blockSize, total, block)
    ensures i + 1 < DirLen(v.geo, inode) ==>
              Cursor(v, inode, i + 1, 0, total, FileBlock(v, inode, i + 1))
              && Rest(v, inode, i, v.geo.blockSize, total, block) ==
                  Rest(v, inode, i + 1, 0, total, FileBlock(v, inode, i + 1))
  {
    hide FileBlock, Count, DirLen, RecordOk;
  }

  /** One record: the walk passes it and it is the head of what was left. */
  lemma CursorStep(v: Volume, inode: Block, i: nat, off: nat, total: nat, block: Block)
    requires Cursor(v, inode, i, off, total, block) && off < v.geo.blockSize
    ensures RecordOk(block, off) && RecLen(block, off) > 0
    ensures Cursor(v, inode, i, off + RecLen(block, off), total + RecLen(block, off), block)
    ensures Rest(v, inode, i, off, total, block) ==
              [Entry(block, off)] + Rest(v, inode, i, off + RecLen(block, off), total + RecLen(block, off), block)
  {
    hide FileBlock, Count, DirLen;
  }

  lemma CursorStart(v: Volume, inode: Block)
    requires DirOk(v, inode) && DirLen(v.geo, inode) > 0
    ensures Cursor(v, inode, 0, 0, 0, FileBlock(v, inode, 0))
    ensures Rest(v, inode, 0, 0, 0, FileBlock(v, inode, 0)) == Listing(v, inode)
  {
    hide FileBlock, Count, DirLen;
  }

  lemma DirRecord(v: Volume, inode: Block)
    requires DirOk(v, inode)
    ensures IsRecord(inode) && v.geo.P() > 0 && v.geo.blockSize > 0
  {
  }

  lemma EmptyDir(v: Volume, inode: Block)
    requires DirOk(v, inode)
    ensures ISize(inode) == 0 <==> DirLen(v.geo, inode) == 0
    ensures ISize(inode) == 0 ==> Listing(v, inode) == []
  {
    hide FileBlock, Count, DirLen;
    if DirLen(v.geo, inode) > 0 {
      MulLe(1, DirLen(v.geo, inode), v.geo.blockSize);
    }
  }

  lemma CursorRange(v: Volume, inode: Block, i: nat, off: nat, total: nat, block: Block)
    requires Cursor(v, inode, i, off, total, block)
    ensures off <= v.geo.blockSize && v.geo.blockSize > 0 && i < DirLen(v.geo, inode) <= 256
              && |block| == v.geo.blockSize
  {
    hide FileBlock, Count, DirLen;
  }

  /** What a search or a count sees of the head record. */
  lemma RestHead(v: Volume, inode: Block, i: nat, off: nat, total: nat, block: Block)
    requires Cursor(v, inode, i, off, total, block) && off < v.geo.blockSize
    ensures RecordOk(block, off)
    ensures var es, e := Rest(v, inode, i, off, total, block), Entry(block, off);
            && |es| > 0 && es[0] == e
            && Cursor(v, inode, i, off + RecLen(block, off), total + RecLen(block, off), block)
            && es[1..] == Rest(v, inode, i, off + RecLen(block, off), total + RecLen(block, off), block)
  {
    hide FileBlock, Count, DirLen, RecordOk;
    CursorStep(v, inode, i, off, total, block);
  }

  /** A walk that stops before the end of a block, with these records left, or at the end of the directory. */
  ghost predicate Walk(v: Volume, inode: Block, i: nat, off: nat, total: nat, block: Block, left: seq<Dirent>) {
    && DirOk(v, inode) && total <= ISize(inode)
    && (total < ISize(inode) ==>
          Cursor(v, inode, i, off, total, block) && off < v.geo.blockSize
              && left == Rest(v, inode, i, off, total, block))
    && (total == ISize(inode) ==> left == [])
  }

  lemma WalkStart(v: Volume, inode: Block)
    requires DirOk(v, inode)
    ensures Walk(v, inode, 0, 0, 0, FileBlock(v, inode, 0), Listing(v, inode))
  {
    hide FileBlock, Count, DirLen, Tiles, Listing, Rest;
    EmptyDir(v, inode);
    if ISize(inode) > 0 {
      CursorStart(v, inode);
    }
  }

  lemma WalkHead(v: Volume, inode: Block, i: nat, off: nat, total: nat, block: Block, left: seq<Dirent>)
    requires Walk(v, inode, i, off, total, block, left) && total < ISize(inode)
    ensures Cursor(v, inode, i, off, total, block) && off < v.geo.blockSize
    ensures RecordOk(block, off) && RecLen(block, off) > 0 && |left| > 0 && left[0] == Entry(block, off)
    ensures Cursor(v, inode, i, off + RecLen(block, off), total + RecLen(block, off), block)
    ensures left[1..] == Rest(v, inode, i, off + RecLen(block, off), total + RecLen(block, off), block)
  {
    hide FileBlock, Count, DirLen, Tiles, Rest, RecordOk, Cursor;
    CursorStep(v, inode, i, off, total, block);
    RestHead(v, inode, i, off, total, block);
  }

  lemma LiveStep(es: seq<Dirent>, k: nat)
    requires |es| > 0
    ensures LiveAt(es, k) == if es[0].ino == 0 then LiveAt(es[1..], k)
                             else if k == 0 then Some(es[0]) else LiveAt(es[1..], k - 1)
  {
  }

  lemma FindStep(es: seq<Dirent>, name: Block)
    requires |es| > 0
    ensures FindLive(es, name) == if es[0].ino != 0 && es[0].name == name then Some(es[0]) else FindLive(es[1..], name)
  {
  }

  lemma FindNone(name: Block)
    ensures FindLive([], name) == None
  {
  }

  lemma LiveNone(k: nat)
    ensures LiveAt([], k) == None
  {
  }

  lemma RecordFits(b: Block, o: nat)
    requires RecordOk(b, o)
    ensures o + HEADER + NameLen(b, o) <= o + RecLen(b, o) <= |b|
    ensures Entry(b, o) == Dirent(RecIno(b, o), b[o + HEADER..o + HEADER + NameLen(b, o)])
  {
  }

  lemma WalkEnd(v: Volume, inode: Block, i: nat, off: nat, total: nat, block: Block, left: seq<Dirent>)
    requires Walk(v, inode, i, off, total, block, left) && total >= ISize(inode)
    ensures left == []
  {
    hide Cursor, Rest;
  }

  // ----- appending a record -----

  /** The record at l shrinks to what its name needs, and a record for name takes the rest of the block. */
  function AppendRecord(b: Block, l: nat, ino: nat, name: Block): (r: Block)
    requires l + HEADER <= |b| < 0x1_0000 && l + Tight(b, l) + HEADER + |name| <= |b| && |name| < 256 && ino < U32
    ensures |r| == |b|
  {
    var n := l + Tight(b, l);
    var b1 := PutU16(b, l + 4, Tight(b, l));
    var b2 := PutU32(b1, n, ino);
    var b3 := PutU16(b2, n + 4, |b| - n);
    Splice(b3[n + 6 := |name|][n + 7 := 0], n + HEADER, name)
  }

  /** The last record of the block can be shrunk, and the new one fits behind it. */
  ghost predicate CanAppend(b: Block, l: nat, ino: nat, name: Block) {
    && |b| < 0x1_0000 && |b| % 4 == 0 && |name| < 256 && ino < U32
    && RecordOk(b, l) && l + RecLen(b, l) == |b|
    && l + Tight(b, l) + Rounded(HEADER + |name|) <= |b|
  }

  lemma AppendBytes(b: Block, l: nat, ino: nat, name: Block)
    requires CanAppend(b, l, ino, name)
    ensures var r, n := AppendRecord(b, l, ino, name), l + Tight(b, l);
            && (forall k :: 0 <= k < n && k != l + 4 && k != l + 5 ==> r[k] == b[k])
            && RecLen(r, l) == Tight(b, l)
            && RecIno(r, n) == ino && RecLen(r, n) == |b| - n && NameLen(r, n) == |name| && r[n + 7] == 0
            && r[n + HEADER..n + HEADER + |name|] == name
  {
    hide PutU16, PutU32, Splice;
  }

  /** The new record on its own. */
  lemma NewRecord(b: Block, l: nat, ino: nat, name: Block)
    requires CanAppend(b, l, ino, name)
    ensures var r, n := AppendRecord(b, l, ino, name), l + Tight(b, l);
            Tiles(r, n) && Entries(r, n) == [Dirent(ino, name)]
  {
    hide AppendRecord, RecordOk, RecLen, RecIno, NameLen;
    var r, n := AppendRecord(b, l, ino, name), l + Tight(b, l);
    NewRecordOk(b, l, ino, name);
    assert Tiles(r, |r|);
    assert Entries(r, |r|) == [];
  }

  lemma FourApart(a: int, b: int)
    requires a % 4 == 0 && b % 4 == 0
    ensures (a - b) % 4 == 0
  {
  }

  lemma TightIs(b: Block, o: nat)
    requires o + HEADER <= |b|
    ensures Tight(b, o) == Rounded(NameLen(b, o) + HEADER)
  {
  }

  lemma NewRecordOk(b: Block, l: nat, ino: nat, name: Block)
    requires CanAppend(b, l, ino, name)
    ensures var r, n := AppendRecord(b, l, ino, name), l + Tight(b, l);
            n < |b| && RecordOk(r, n) && n + RecLen(r, n) == |r| && Entry(r, n) == Dirent(ino, name)
  {
    hide AppendRecord, RecLen, RecIno, NameLen, Rounded, Tight;
    var r, n := AppendRecord(b, l, ino, name), l + Tight(b, l);
    TightIs(b, l);
    TightIs(r, n);
    FourApart(RecLen(b, l), Tight(b, l));
    AppendBytes(b, l, ino, name);
  }

  /** The record that shrank keeps its inode and its name. */
  lemma ShrunkRecord(b: Block, l: nat, ino: nat, name: Block)
    requires CanAppend(b, l, ino, name)
    ensures var r := AppendRecord(b, l, ino, name);
            RecordOk(r, l) && RecLen(r, l) == Tight(b, l) && Entry(r, l) == Entry(b, l)
  {
    hide AppendRecord, PutU16, PutU32;
    AppendBytes(b, l, ino, name);
    var r := AppendRecord(b, l, ino, name);
    assert r[l] == b[l] && r[l + 1] == b[l + 1] && r[l + 2] == b[l + 2] && r[l + 3] == b[l + 3] && r[l + 6] == b[l + 6];
    assert forall k :: l + HEADER <= k < l + HEADER + NameLen(b, l) ==> r[k] == b[k];
  }

  lemma EarlierRecord(b: Block, l: nat, ino: nat, name: Block, o: nat)
    requires CanAppend(b, l, ino, name) && RecordOk(b, o) && o + RecLen(b, o) <= l
    ensures var r := AppendRecord(b, l, ino, name);
            RecordOk(r, o) && RecLen(r, o) == RecLen(b, o) && Entry(r, o) == Entry(b, o)
  {
    hide AppendRecord, PutU16, PutU32;
    AppendBytes(b, l, ino, name);
    var r := AppendRecord(b, l, ino, name);
    assert forall k :: o <= k < o + RecLen(b, o) ==> r[k] == b[k];
  }

  /** Appending keeps the block tiled, all its records in order, and adds the new one at the end. */
  lemma {:induction false} AppendTiles(b: Block, l: nat, ino: nat, name: Block, o: nat)
    requires CanAppend(b, l, ino, name) && Tiles(b, o) && o < |b| && LastRecord(b, o) == l
    ensures var r := AppendRecord(b, l, ino, name);
            Tiles(r, o) && Entries(r, o) == Entries(b, o) + [Dirent(ino, name)]
    decreases |b| - o
  {
    hide AppendRecord, Entry, Tight;
    var r := AppendRecord(b, l, ino, name);
    RecordNonempty(b, o);
    if o == l {
      ShrunkRecord(b, l, ino, name);
      NewRecord(b, l, ino, name);
      RecordNonempty(r, l);
      assert Entries(b, |b|) == [];
      LastIsLast(b, l);
    } else {
      var o' := o + RecLen(b, o);
      AppendTiles(b, l, ino, name, o');
      EarlierRecord(b, l, ino, name, o);
    }
  }

  lemma RecordNonempty(b: Block, o: nat)
    requires RecordOk(b, o)
    ensures RecLen(b, o) >= HEADER && o + RecLen(b, o) <= |b|
  {
  }

  lemma LastIsLast(b: Block, l: nat)
    requires RecordOk(b, l) && Tiles(b, l) && LastRecord(b, l) == l
    ensures l + RecLen(b, l) == |b|
  {
  }

  // ----- appending to a directory -----

  /** The last record of the last block. */
  ghost function Tail(v: Volume, inode: Block): nat
    requires DirOk(v, inode) && DirLen(v.geo, inode) > 0
  {
    LastRecord(FileBlock(v, inode, DirLen(v.geo, inode) - 1), 0)
  }

  /** The last record is longer than its name needs: the only place where create_entry can put a record. */
  ghost predicate HasSlack(v: Volume, inode: Block) {
    && DirOk(v, inode) && DirLen(v.geo, inode) > 0
    && var b := FileBlock(v, inode, DirLen(v.geo, inode) - 1);
       RecLen(b, Tail(v, inode)) != Tight(b, Tail(v, inode))
  }

  /** The test create_entry makes: the record must leave at least one byte of the block. */
  ghost predicate Fits(v: Volume, inode: Block, name: Block)
    requires HasSlack(v, inode)
  {
    var b := FileBlock(v, inode, DirLen(v.geo, inode) - 1);
    Tail(v, inode) + Tight(b, Tail(v, inode)) + Rounded(HEADER + |name|) < v.geo.blockSize
  }

  /** The last record, at t of block b, has more than the rounded length of the new one to give away. */
  lemma FitsExact(v: Volume, inode: Block, name: Block, b: Block, t: nat)
    requires HasSlack(v, inode) && b == FileBlock(v, inode, DirLen(v.geo, inode) - 1) && t == Tail(v, inode)
    ensures t + 8 <= |b|
    ensures Fits(v, inode, name) <==> GetU16(b, t + 4) - Rounded(GetU8(b, t + 6) + 8) > Rounded(8 + |name|)
  {
    hide FileBlock, Tiles, DirLen, Rounded, GetU16;
  }

  /** The walk has not passed the last record of the directory. */
  ghost predicate Ahead(v: Volume, inode: Block, i: nat, off: nat, total: nat, block: Block) {
    && Cursor(v, inode, i, off, total, block) && total < ISize(inode)
    && (i + 1 == DirLen(v.geo, inode) ==> off < v.geo.blockSize && LastRecord(block, off) == Tail(v, inode))
  }

  lemma AheadStart(v: Volume, inode: Block)
    requires HasSlack(v, inode)
    ensures Ahead(v, inode, 0, 0, 0, FileBlock(v, inode, 0))
  {
    hide FileBlock, Count, DirLen, RecordOk;
    CursorStart(v, inode);
    EmptyDir(v, inode);
  }

  lemma AheadNext(v: Volume, inode: Block, i: nat, off: nat, total: nat, block: Block, i': nat, off': nat,
      block': Block)
    requires Ahead(v, inode, i, off, total, block) && Cursor(v, inode, i', off', total, block')
             && off' < v.geo.blockSize
    requires (i', off') == if off >= v.geo.blockSize then (i + 1, 0) else (i, off)
    ensures Ahead(v, inode, i', off', total, block')
  {
    hide FileBlock, Count, DirLen, RecordOk;
  }

  /** A record that ends where the directory ends is its last one; any other is passed. */
  lemma AheadStep(v: Volume, inode: Block, i: nat, off: nat, total: nat, block: Block)
    requires Ahead(v, inode, i, off, total, block) && off < v.geo.blockSize && HasSlack(v, inode)
    ensures RecordOk(block, off) && RecLen(block, off) > 0
    ensures if RecLen(block, off) != Tight(block, off) && total + RecLen(block, off) == ISize(inode)
            then i + 1 == DirLen(v.geo, inode) && off == Tail(v, inode)
            else Ahead(v, inode, i, off + RecLen(block, off), total + RecLen(block, off), block)
  {
    hide FileBlock, Count, DirLen, Tight, Total;
    CursorStep(v, inode, i, off, total, block);
    CursorEnd(v, inode, i, off + RecLen(block, off), total + RecLen(block, off), block);
  }

  lemma {:induction false} ListAppend(v: Volume, a: Block, v': Volume, b: Block, i: nat, d: Dirent)
    requires DirOk(v, a) && DirOk(v', b) && v'.geo == v.geo && DirLen(v.geo, b) == DirLen(v.geo, a)
             && i < DirLen(v.geo, a)
    requires SameBlocks(v, a, v', b, DirLen(v.geo, a) - 1)
    requires Entries(FileBlock(v', b, DirLen(v.geo, a) - 1), 0) ==
             Entries(FileBlock(v, a, DirLen(v.geo, a) - 1), 0) + [d]
    ensures ListFrom(v', b, i) == ListFrom(v, a, i) + [d]
    decreases DirLen(v.geo, a) - i
  {
    hide FileBlock, Count, DirLen, Tiles, Entries;
    if i + 1 < DirLen(v.geo, a) {
      ListAppend(v, a, v', b, i + 1, d);
    } else {
      assert ListFrom(v, a, i + 1) == [] && ListFrom(v', b, i + 1) == [];
    }
  }

  /** Writing the last block with the record appended appends the entry to the directory's list. */
  lemma DirAppend(v: Volume, a: Block, v': Volume, b: Block, ino: nat, name: Block)
    requires HasSlack(v, a) && Fits(v, a, name) && |name| < 256 && ino < U32 && v.geo.Ok() && v'.geo == v.geo
    requires IsRecord(b) && ISize(b) == ISize(a) && Count(v.geo, b) >= Count(v.geo, a)
    requires SameBlocks(v, a, v', b, DirLen(v.geo, a) - 1)
    requires var l := FileBlock(v, a, DirLen(v.geo, a) - 1);
             CanAppend(l, Tail(v, a), ino, name)
                 && FileBlock(v', b, DirLen(v.geo, a) - 1) == AppendRecord(l, Tail(v, a), ino, name)
    ensures DirOk(v', b) && Listing(v', b) == Listing(v, a) + [Dirent(ino, name)]
  {
    hide FileBlock, Count, Geometry.Ok, AppendRecord, CanAppend, Tiles, Entries, LastRecord, RecordOk, Fits;
    SameDirLen(v.geo, a, b);
    hide DirLen;
    var n := DirLen(v.geo, a);
    AppendTiles(FileBlock(v, a, n - 1), Tail(v, a), ino, name, 0);
    forall i: nat | i < n
      ensures |FileBlock(v', b, i)| == v.geo.blockSize && Tiles(FileBlock(v', b, i), 0)
    {
    }
    ListAppend(v, a, v', b, 0, Dirent(ino, name));
  }

  lemma SameDirLen(geo: Geometry, a: Block, b: Block)
    requires IsRecord(a) && IsRecord(b) && geo.blockSize > 0 && ISize(b) == ISize(a)
    ensures DirLen(geo, b) == DirLen(geo, a)
  {
  }

  lemma FitsCanAppend(v: Volume, a: Block, ino: nat, name: Block)
    requires HasSlack(v, a) && Fits(v, a, name) && |name| < 256 && ino < U32 && v.geo.Ok()
    ensures CanAppend(FileBlock(v, a, DirLen(v.geo, a) - 1), Tail(v, a), ino, name)
  {
    hide FileBlock, Count, DirLen;
    assert v.geo.blockSize % 4 == 0 by { QuarterExact(v.geo.blockSize); }
  }

  /** A name found before an append is found after it; a new name is found once it is appended. */
  lemma {:induction false} FindAfterAppend(es: seq<Dirent>, d: Dirent, name: Block)
    ensures FindLive(es + [d], name) ==
              if FindLive(es, name).Some? then FindLive(es, name)
              else if d.ino != 0 && d.name == name then Some(d) else None
  {
    if es == [] {
      assert es + [d] == [d];
    } else {
      assert (es + [d])[1..] == es[1..] + [d];
      FindAfterAppend(es[1..], d, name);
    }
  }

  // ----- small facts for the driver's methods -----

  lemma SlackFacts(v: Volume, inode: Block)
    requires HasSlack(v, inode)
    ensures DirOk(v, inode) && DirLen(v.geo, inode) > 0 && IsRecord(inode) && v.geo.P() > 0 && v.geo.blockSize > 0
  {
    hide DirLen, FileBlock, Count;
  }

  lemma AheadCursor(v: Volume, inode: Block, i: nat, off: nat, total: nat, block: Block)
    requires Ahead(v, inode, i, off, total, block)
    ensures Cursor(v, inode, i, off, total, block) && IsRecord(inode) && total < ISize(inode)
  {
    hide DirLen, FileBlock, Count;
  }

  lemma CursorBlock(v: Volume, inode: Block, i: nat, off: nat, total: nat, block: Block)
    requires Cursor(v, inode, i, off, total, block)
    ensures IsRecord(inode) && v.geo.P() > 0 && block == FileBlock(v, inode, i)
  {
    hide DirLen, FileBlock, Count;
  }

  lemma TailFits(v: Volume, inode: Block, name: Block)
    requires HasSlack(v, inode)
    ensures var b := FileBlock(v, inode, DirLen(v.geo, inode) - 1);
            && Tail(v, inode) + HEADER <= |b|
            && (Fits(v, inode, name) <==>
                  Tail(v, inode) + Tight(b, Tail(v, inode)) + Rounded(HEADER + |name|) < v.geo.blockSize)
  {
    hide DirLen, FileBlock, Count, Tight, Rounded;
  }

  lemma CanAppendFacts(b: Block, l: nat, ino: nat, name: Block)
    requires CanAppend(b, l, ino, name)
    ensures l + HEADER <= |b| < 0x1_0000 && l + Tight(b, l) + HEADER + |name| <= |b|
  {
  }

  lemma RestFile(v: Volume, o: Owner, ino: nat, inode: Block)
    requires AtRest(v, o, ino, inode)
    ensures FileOk(v, o, ino, inode)
  {
  }

  /** A block of the directory is already mapped, so writing it takes no space. */
  lemma DirBlockInFile(v: Volume, o: Owner, ino: nat, inode: Block)
    requires AtRest(v, o, ino, inode) && DirOk(v, inode) && DirLen(v.geo, inode) > 0
    ensures var x := DirLen(v.geo, inode) - 1;
            && x < Limit(v.geo.P()) && (x + 1) * Units(v.geo) < U32 && Slack(v, inode, x + 1) >= 0
            && |FileBlock(v, inode, x)| == v.geo.blockSize
  {
    hide DirLen, FileBlock, Tiles, WellFormed, IndOk, Addr, Limit, Units, Count, CanPut, InodeAt, Charge, Geometry.P;
    MulLe(DirLen(v.geo, inode), Count(v.geo, inode), Units(v.geo));
  }

  lemma WroteDir(v: Volume, o: Owner, a: Block, v': Volume, o': Owner, b: Block, ino: nat, x: nat, buf: Block)
    requires Wrote(v, o, a, v', o', b, ino, x, buf)
    ensures AtRest(v', o', ino, b) && IsRecord(a) && IsRecord(b) && v'.geo == v.geo && v.geo.P() > 0
              && ISize(b) == ISize(a)
    ensures Count(v.geo, b) >= Count(v.geo, a) && SameBlocks(v, a, v', b, x) && FileBlock(v', b, x) == buf
    ensures OnlyFile(v, o, v', o', ino) && WellFormed(v', o') && |v'.sb| == 1024
  {
    hide WellFormed, OnlyFile, SameBlocks, FileBlock, Slack, Count, CanPut, InodeAt, IndOk;
  }
}
