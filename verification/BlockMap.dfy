// The block map of one file: twelve direct block numbers, a single-indirect
// block and a double-indirect block in its inode record.

module BlockMaps {
  import opened Arith
  import opened Bytes
  import opened Volumes
  import opened InodeTables

  /** Pointer k stored in block b; a missing block stores no pointers. */
  function Cell(disk: seq<Block>, b: nat, k: nat): (r: nat)
    ensures r < U32
  {
    if 0 < b < |disk| && 4 * k + 4 <= |disk[b]| then Ptr(disk[b], k) else 0
  }

  /** First block index past the double-indirect range. */
  function Limit(p: nat): nat {
    DIRECT_BLOCKS + p + p * p
  }

  /** The block number that the file maps index i to, 0 when there is none. */
  function Addr(disk: seq<Block>, p: nat, inode: Block, i: nat): (r: nat)
    requires IsRecord(inode) && p > 0
    ensures r < U32
  {
    if i < DIRECT_BLOCKS then IBlock(inode, i)
    else if i < DIRECT_BLOCKS + p then Cell(disk, IBlock(inode, 12), i - DIRECT_BLOCKS)
    else if i < Limit(p) then
      var b := i - DIRECT_BLOCKS - p;
      Cell(disk, Cell(disk, IBlock(inode, 13), b / p), b % p)
    else 0
  }

  /** Index of the leaf that holds the pointer for double-indirect index i. */
  function LeafOf(p: nat, i: nat): nat
    requires p > 0 && DIRECT_BLOCKS + p <= i
  {
    (i - DIRECT_BLOCKS - p) / p
  }

  /** The blocks between the record and the pointer for index i are there. */
  predicate Reachable(disk: seq<Block>, p: nat, inode: Block, i: nat)
    requires IsRecord(inode) && p > 0
  {
    if i < DIRECT_BLOCKS then true
    else if i < DIRECT_BLOCKS + p then 0 < IBlock(inode, 12) < |disk|
    else i < Limit(p) && 0 < IBlock(inode, 13) < |disk| && 0 < Cell(disk, IBlock(inode, 13), LeafOf(p, i)) < |disk|
  }

  /** Bytes 4 * k to 4 * k + 3 of block b hold r. */
  predicate Word(disk: seq<Block>, b: nat, k: nat, r: nat) {
    0 < b < |disk| && 4 * k + 4 <= |disk[b]| && GetU32(disk[b], 4 * k) == r
  }

  /** The bytes on the way to index i lead to r: those of the record, of its single-indirect block, or of its
      double-indirect block and a leaf under it. */
  predicate Leads(disk: seq<Block>, p: nat, inode: Block, i: nat, r: nat)
    requires IsRecord(inode) && p > 0
  {
    if i < 12 then GetU32(inode, 40 + 4 * i) == r
    else if i < 12 + p then Word(disk, GetU32(inode, 88), i - 12, r)
    else
      var c, d, root := (i - 12 - p) / p, (i - 12 - p) % p, GetU32(inode, 92);
      && 0 < root < |disk| && 4 * c + 4 <= |disk[root]|
      && 4 * d + 4 <= 4 * p && Word(disk, GetU32(disk[root], 4 * c), d, r)
  }

  /** The map is what the bytes say. */
  lemma MapBytes(disk: seq<Block>, p: nat, inode: Block, i: nat)
    requires IsRecord(inode) && p > 0 && Reachable(disk, p, inode, i)
    requires forall b :: 0 <= b < |disk| ==> 4 * p <= |disk[b]|
    ensures Leads(disk, p, inode, i, Addr(disk, p, inode, i))
  {
    hide GetU32;
    if i >= DIRECT_BLOCKS + p {
      DoubleIndex(p, i);
    }
  }

  /** How many indirect blocks must be allocated before index i can be set. */
  function Missing(disk: seq<Block>, p: nat, inode: Block, i: nat): nat
    requires IsRecord(inode) && p > 0
  {
    if i < DIRECT_BLOCKS then 0
    else if i < DIRECT_BLOCKS + p then (if IBlock(inode, 12) == 0 then 1 else 0)
    else
      (if IBlock(inode, 13) == 0 then 1 else 0)
      + (if Cell(disk, IBlock(inode, 13), LeafOf(p, i)) == 0 then 1 else 0)
  }

  /** Roles of the blocks that hold pointers for file ino. */
  predicate Indirect(r: Role, ino: nat) {
    (r.SingleRole? || r.DoubleRole? || r.LeafRole?) && r.ino == ino
  }

  ghost predicate NoneOrOwned(owner: Owner, b: nat, r: Role) {
    b == 0 || Owns(owner, b, r)
  }

  ghost predicate DiskOk(disk: seq<Block>, p: nat, owner: Owner) {
    && p > 0
    && (forall b :: 0 <= b < |disk| ==> 4 * p <= |disk[b]|)
    && (forall b :: b in owner ==> b < |disk|)
  }

  /** Every indirect block the file reaches is its own, in its own place. */
  ghost predicate IndOk(disk: seq<Block>, p: nat, owner: Owner, ino: nat, inode: Block)
    requires IsRecord(inode)
  {
    && NoneOrOwned(owner, IBlock(inode, 12), SingleRole(ino))
    && NoneOrOwned(owner, IBlock(inode, 13), DoubleRole(ino))
    && (forall c: nat :: c < p ==> NoneOrOwned(owner, Cell(disk, IBlock(inode, 13), c), LeafRole(ino, c)))
  }

  /** The pointers of file ino are the same on both disks. */
  ghost predicate SamePtrs(disk: seq<Block>, disk': seq<Block>, owner: Owner, ino: nat) {
    && |disk'| == |disk|
    && (forall b :: b in owner && b < |disk| && Indirect(owner[b], ino) ==> disk'[b] == disk[b])
  }

  ghost predicate Extends(owner: Owner, owner': Owner) {
    forall b :: b in owner ==> b in owner' && owner'[b] == owner[b]
  }

  ghost predicate SameMap(disk: seq<Block>, inode: Block, disk': seq<Block>, inode': Block, p: nat)
    requires IsRecord(inode) && IsRecord(inode') && p > 0
  {
    forall j: nat :: Addr(disk', p, inode', j) == Addr(disk, p, inode, j)
  }

  /** The map with index i sent to r and every other index as before. */
  ghost predicate MapUpdated(disk: seq<Block>, inode: Block, disk': seq<Block>, inode': Block, p: nat, i: nat, r: nat)
    requires IsRecord(inode) && IsRecord(inode') && p > 0
  {
    forall j: nat :: Addr(disk', p, inode', j) == if j == i then r else Addr(disk, p, inode, j)
  }

  /** The leaves under the double-indirect block are the same, except possibly leaf x. */
  ghost predicate SameLeaves(disk: seq<Block>, inode: Block, disk': seq<Block>, inode': Block, p: nat, x: int)
    requires IsRecord(inode) && IsRecord(inode')
  {
    forall c: nat :: c < p && c != x ==> Cell(disk', IBlock(inode', 13), c) == Cell(disk, IBlock(inode, 13), c)
  }

  // ----- index arithmetic of the double-indirect range -----

  lemma DoubleIndex(p: nat, i: nat)
    requires p > 0 && DIRECT_BLOCKS + p <= i < Limit(p)
    ensures var b := i - DIRECT_BLOCKS - p; 0 <= b / p < p && 0 <= b % p < p && b == (b / p) * p + b % p
  {
    var b := i - DIRECT_BLOCKS - p;
    DivModParts(b, p);
    DivBelow(b, p, p);
  }

  lemma DoubleIndexUnique(p: nat, i: nat, j: nat)
    requires p > 0 && DIRECT_BLOCKS + p <= i < Limit(p) && DIRECT_BLOCKS + p <= j < Limit(p)
    requires (i - DIRECT_BLOCKS - p) / p == (j - DIRECT_BLOCKS - p) / p
    requires (i - DIRECT_BLOCKS - p) % p == (j - DIRECT_BLOCKS - p) % p
    ensures i == j
  {
    DoubleIndex(p, i);
    DoubleIndex(p, j);
  }

  // ----- framing -----

  lemma MapFrame(disk: seq<Block>, disk': seq<Block>, p: nat, owner: Owner, owner': Owner, ino: nat, inode: Block)
    requires IsRecord(inode) && DiskOk(disk, p, owner) && IndOk(disk, p, owner, ino, inode)
    requires SamePtrs(disk, disk', owner, ino) && Extends(owner, owner')
    ensures IndOk(disk', p, owner', ino, inode)
    ensures SameMap(disk, inode, disk', inode, p) && SameLeaves(disk, inode, disk', inode, p, -1)
  {
    assert forall c: nat :: c < p ==> Cell(disk', IBlock(inode, 13), c) == Cell(disk, IBlock(inode, 13), c);
    forall j: nat
      ensures Addr(disk', p, inode, j) == Addr(disk, p, inode, j)
    {
      if DIRECT_BLOCKS + p <= j < Limit(p) {
        DoubleIndex(p, j);
        var c := (j - DIRECT_BLOCKS - p) / p;
        assert NoneOrOwned(owner, Cell(disk, IBlock(inode, 13), c), LeafRole(ino, c));
      }
    }
  }

  // ----- direct blocks -----

  lemma SetDirect(disk: seq<Block>, p: nat, owner: Owner, ino: nat, inode: Block, i: nat, r: nat)
    requires IsRecord(inode) && DiskOk(disk, p, owner) && IndOk(disk, p, owner, ino, inode) && i < DIRECT_BLOCKS
             && r < U32
    ensures var inode' := SetIBlock(inode, i, r);
            IndOk(disk, p, owner, ino, inode') && MapUpdated(disk, inode, disk, inode', p, i, r)
            && SameLeaves(disk, inode, disk, inode', p, -1)
  {
    hide SetIBlock, Limit;
  }

  // ----- a fresh, zeroed indirect block maps nothing -----

  lemma {:induction false} ZeroCells(disk: seq<Block>, nb: nat, n: nat)
    requires nb < |disk| && disk[nb] == Zeros(n)
    ensures forall k: nat :: Cell(disk, nb, k) == 0
  {
    forall k: nat
      ensures Cell(disk, nb, k) == 0
    {
      if 4 * k + 4 <= n {
        ZeroPtr(n, k);
      }
    }
  }

  lemma SetSingleRoot(disk: seq<Block>, disk': seq<Block>, p: nat, owner: Owner, ino: nat, inode: Block, nb: nat,
      n: nat)
    requires IsRecord(inode) && DiskOk(disk, p, owner) && IndOk(disk, p, owner, ino, inode) && IBlock(inode, 12) == 0
    requires SamePtrs(disk, disk', owner, ino) && nb !in owner && 0 < nb < |disk| && nb < U32 && disk'[nb] == Zeros(n)
    ensures var inode' := SetIBlock(inode, 12, nb);
            IndOk(disk', p, owner[nb := SingleRole(ino)], ino, inode') && SameMap(disk, inode, disk', inode', p)
            && SameLeaves(disk, inode, disk', inode', p, -1)
  {
    hide SetIBlock, Limit, Zeros;
    var owner' := owner[nb := SingleRole(ino)];
    var inode' := SetIBlock(inode, 12, nb);
    MapFrame(disk, disk', p, owner, owner', ino, inode);
    ZeroCells(disk', nb, n);
    forall j: nat
      ensures Addr(disk', p, inode', j) == Addr(disk', p, inode, j)
    {
    }
  }

  lemma SetDoubleRoot(disk: seq<Block>, disk': seq<Block>, p: nat, owner: Owner, ino: nat, inode: Block, nb: nat,
      n: nat)
    requires IsRecord(inode) && DiskOk(disk, p, owner) && IndOk(disk, p, owner, ino, inode) && IBlock(inode, 13) == 0
    requires SamePtrs(disk, disk', owner, ino) && nb !in owner && 0 < nb < |disk| && nb < U32 && disk'[nb] == Zeros(n)
    ensures var inode' := SetIBlock(inode, 13, nb);
            IndOk(disk', p, owner[nb := DoubleRole(ino)], ino, inode') && SameMap(disk, inode, disk', inode', p)
            && SameLeaves(disk, inode, disk', inode', p, -1)
  {
    hide SetIBlock, Limit, Zeros;
    var owner' := owner[nb := DoubleRole(ino)];
    var inode' := SetIBlock(inode, 13, nb);
    MapFrame(disk, disk', p, owner, owner', ino, inode);
    ZeroCells(disk', nb, n);
    forall j: nat
      ensures Addr(disk', p, inode', j) == Addr(disk', p, inode, j)
    {
    }
  }

  // ----- writing one pointer -----

  ghost function PutCell(disk: seq<Block>, b: nat, k: nat, r: nat): (d: seq<Block>)
    requires b < |disk| && 4 * k + 4 <= |disk[b]| && r < U32
    ensures |d| == |disk|
    ensures forall x :: 0 <= x < |disk| ==> |d[x]| == |disk[x]|
    ensures forall x :: 0 <= x < |disk| && x != b ==> d[x] == disk[x]
  {
    disk[b := SetPtr(disk[b], k, r)]
  }

  lemma PutCellReads(disk: seq<Block>, b: nat, k: nat, r: nat)
    requires 0 < b < |disk| && 4 * k + 4 <= |disk[b]| && r < U32
    ensures forall x: nat, j: nat ::
              Cell(PutCell(disk, b, k, r), x, j) == if x == b && j == k then r else Cell(disk, x, j)
  {
    hide SetPtr, Ptr;
  }

  lemma SetInSingle(disk: seq<Block>, p: nat, owner: Owner, ino: nat, inode: Block, i: nat, r: nat)
    requires IsRecord(inode) && DiskOk(disk, p, owner) && IndOk(disk, p, owner, ino, inode)
    requires DIRECT_BLOCKS <= i < DIRECT_BLOCKS + p && IBlock(inode, 12) != 0 && r < U32
    ensures IBlock(inode, 12) < |disk|
    ensures var disk' := PutCell(disk, IBlock(inode, 12), i - DIRECT_BLOCKS, r);
            IndOk(disk', p, owner, ino, inode) && MapUpdated(disk, inode, disk', inode, p, i, r)
            && SameLeaves(disk, inode, disk', inode, p, -1)
  {
    var b12 := IBlock(inode, 12);
    var disk' := PutCell(disk, b12, i - DIRECT_BLOCKS, r);
    PutCellReads(disk, b12, i - DIRECT_BLOCKS, r);
    hide PutCell, Cell, Limit, IBlock;
    forall j: nat
      ensures Addr(disk', p, inode, j) == if j == i then r else Addr(disk, p, inode, j)
    {
      if DIRECT_BLOCKS + p <= j < Limit(p) {
        DoubleIndex(p, j);
        var c := (j - DIRECT_BLOCKS - p) / p;
        assert NoneOrOwned(owner, Cell(disk, IBlock(inode, 13), c), LeafRole(ino, c));
      }
    }
  }

  /** Hanging a fresh, zeroed leaf under the double-indirect block. */
  lemma SetLeaf(disk: seq<Block>, disk1: seq<Block>, p: nat, owner: Owner, ino: nat, inode: Block, c: nat, nb: nat,
      n: nat)
    requires IsRecord(inode) && DiskOk(disk, p, owner) && IndOk(disk, p, owner, ino, inode) && c < p
    requires IBlock(inode, 13) != 0 && Cell(disk, IBlock(inode, 13), c) == 0
    requires SamePtrs(disk, disk1, owner, ino) && nb !in owner && 0 < nb < |disk| && nb < U32 && disk1[nb] == Zeros(n)
    requires forall b :: 0 <= b < |disk1| ==> 4 * p <= |disk1[b]|
    ensures IBlock(inode, 13) < |disk1|
    ensures var disk' := PutCell(disk1, IBlock(inode, 13), c, nb);
            IndOk(disk', p, owner[nb := LeafRole(ino, c)], ino, inode) && SameMap(disk, inode, disk', inode, p)
            && Cell(disk', IBlock(inode, 13), c) == nb && SameLeaves(disk, inode, disk', inode, p, c)
  {
    hide PutCell, Cell, Limit, IBlock, Zeros, Addr, LeafOf;
    var b13 := IBlock(inode, 13);
    var disk' := PutCell(disk1, b13, c, nb);
    MapFrame(disk, disk1, p, owner, owner, ino, inode);
    assert NoneOrOwned(owner, b13, DoubleRole(ino));
    assert Cell(disk1, b13, c) == 0;
    PutCellReads(disk1, b13, c, nb);
    ZeroCells(disk1, nb, n);
    forall j: nat
      ensures Addr(disk', p, inode, j) == Addr(disk1, p, inode, j)
    {
      LeafAddr(disk1, disk', p, owner, ino, inode, c, nb, j);
    }
  }

  lemma NoCells(disk: seq<Block>)
    ensures forall k: nat :: Cell(disk, 0, k) == 0
  {
  }

  /** A fresh leaf of zeros maps no index. */
  lemma LeafAddr(disk: seq<Block>, disk': seq<Block>, p: nat, owner: Owner, ino: nat, inode: Block, c: nat, nb: nat,
      j: nat)
    requires IsRecord(inode) && p > 0 && IndOk(disk, p, owner, ino, inode) && nb !in owner && c < p
    requires IBlock(inode, 13) != 0 && Cell(disk, IBlock(inode, 13), c) == 0 && forall k: nat :: Cell(disk, nb, k) == 0
    requires forall x: nat, k: nat ::
               Cell(disk', x, k) == if x == IBlock(inode, 13) && k == c then nb else Cell(disk, x, k)
    ensures Addr(disk', p, inode, j) == Addr(disk, p, inode, j)
  {
    hide Cell, Limit, IBlock;
    NoCells(disk);
    assert NoneOrOwned(owner, IBlock(inode, 12), SingleRole(ino));
    assert NoneOrOwned(owner, IBlock(inode, 13), DoubleRole(ino));
    if DIRECT_BLOCKS + p <= j < Limit(p) {
      DoubleIndex(p, j);
      var cj := (j - DIRECT_BLOCKS - p) / p;
      assert NoneOrOwned(owner, Cell(disk, IBlock(inode, 13), cj), LeafRole(ino, cj));
    }
  }

  lemma SetInLeaf(disk: seq<Block>, p: nat, owner: Owner, ino: nat, inode: Block, i: nat, r: nat)
    requires IsRecord(inode) && DiskOk(disk, p, owner) && IndOk(disk, p, owner, ino, inode) && r < U32
    requires DIRECT_BLOCKS + p <= i < Limit(p)
    requires Cell(disk, IBlock(inode, 13), (i - DIRECT_BLOCKS - p) / p) != 0
    ensures 0 <= (i - DIRECT_BLOCKS - p) % p < p
    ensures var leaf := Cell(disk, IBlock(inode, 13), (i - DIRECT_BLOCKS - p) / p);
            && leaf < |disk| && leaf in owner && owner[leaf] == LeafRole(ino, (i - DIRECT_BLOCKS - p) / p)
    ensures var disk' := PutCell(disk, Cell(disk, IBlock(inode, 13), (i - DIRECT_BLOCKS - p) / p),
              (i - DIRECT_BLOCKS - p) % p, r);
            IndOk(disk', p, owner, ino, inode) && MapUpdated(disk, inode, disk', inode, p, i, r)
            && SameLeaves(disk, inode, disk', inode, p, -1)
  {
    DoubleIndex(p, i);
    var c, d := (i - DIRECT_BLOCKS - p) / p, (i - DIRECT_BLOCKS - p) % p;
    var leaf := Cell(disk, IBlock(inode, 13), c);
    assert NoneOrOwned(owner, leaf, LeafRole(ino, c));
    var disk' := PutCell(disk, leaf, d, r);
    PutCellReads(disk, leaf, d, r);
    hide PutCell, Cell, Limit, IBlock;
    forall j: nat
      ensures Addr(disk', p, inode, j) == if j == i then r else Addr(disk, p, inode, j)
    {
      if DIRECT_BLOCKS + p <= j < Limit(p) {
        DoubleIndex(p, j);
        var cj := (j - DIRECT_BLOCKS - p) / p;
        assert NoneOrOwned(owner, Cell(disk, IBlock(inode, 13), cj), LeafRole(ino, cj));
        if j != i && cj == c && (j - DIRECT_BLOCKS - p) % p == d {
          DoubleIndexUnique(p, i, j);
        }
      }
    }
  }
}
