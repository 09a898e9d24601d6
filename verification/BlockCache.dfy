// The cache as the driver runs it: an array of entries searched and updated
// in place, in front of a block device.

module BlockCaching {
  import opened Bytes
  import opened CacheSpec
  import opened CacheLru

  datatype Status = E_SUCCESS | E_BADBLOCK | E_NOSPACE | E_BADPARENT

  class BlockCache {
    const blockSize: nat
    const device: array<Block>   // the block device, one cell per block
    const entries: array<Entry>  // empty when mounted with nocache
    var time: nat

    ghost function State(): Cache
      reads this, device, entries
    {
      Cache(device[..], entries[..], time, blockSize)
    }

    ghost predicate Ok()
      reads this, device, entries
    {
      && device as object != entries
      && CacheSpec.Valid(State())
      && ClockOk(State())
    }

    /** The disk as the file system code sees it. */
    ghost function Disk(): seq<Block>
      reads this, device, entries
    {
      View(State())
    }

    constructor (dev: array<Block>, size: nat, cacheEntries: nat)
      requires size > 1024 && size % 1024 == 0 && dev.Length > 0
      requires forall n :: 0 <= n < dev.Length ==> |dev[n]| == size
      ensures Ok() && device == dev && entries.Length == cacheEntries && blockSize == size
      ensures fresh(entries) && fresh(this) && time == 0 && Disk() == dev[..]
    {
      blockSize := size;
      device := dev;
      entries := new Entry[cacheEntries](i => Entry(0, 0, false, Zeros(size)));
      time := 0;
      new;
      assert forall n :: 0 <= n < |device[..]| ==> Lookup(State(), n) == device[..][n];
    }

    /** get_cache_time */
    method Tick() returns (t: nat)
      modifies this`time
      ensures t == old(time) && time == t + 1
    {
      t := time;
      time := time + 1;
    }

    /** cache_flush_dirty, guarded as at each of its calls. */
    method FlushIfDirty(i: nat)
      requires device as object != entries && i < entries.Length
      requires entries[i].dirty ==> entries[i].blockNo < device.Length
      modifies device, entries
      ensures State() == Flush(old(State()), i)
    {
      var e := entries[i];
      if e.dirty {
        device[e.blockNo] := e.block;
        entries[i] := e.(dirty := false);
      }
    }

    /** Points entry i at block n and stamps it with the clock. */
    method Fill(i: nat, n: nat, dirty: bool, block: Block)
      requires device as object != entries && i < entries.Length
      modifies this`time, entries
      ensures State() == Install(old(State()), i, n, dirty, block)
    {
      var t := Tick();
      entries[i] := Entry(n, t, dirty, block);
    }

    /** The scan shared by read_block and write_block: a hit, or the least recently used entry. */
    method Search(n: nat) returns (hit: bool, i: nat)
      requires entries.Length > 0
      ensures i < entries.Length
      ensures hit <==> Find(entries[..], n) < entries.Length
      ensures hit ==> i == Find(entries[..], n)
      ensures !hit ==> i == Victim(entries[..])
    {
      var oldest := -1;
      var k := 0;
      while k < entries.Length
        invariant 0 <= k <= entries.Length
        invariant forall j :: 0 <= j < k ==> entries[..][j].blockNo != n
        invariant k == 0 ==> oldest == -1
        invariant k > 0 ==> oldest == Oldest(entries[..], k)
      {
        if entries[k].blockNo == n {
          return true, k;
        }
        if oldest == -1 || entries[k].lastUse < entries[oldest].lastUse {
          oldest := k;
        }
        k := k + 1;
      }
      return false, oldest;
    }

    method ReadBlock(n: nat, dst: Block) returns (status: Status, buf: Block)
      requires Ok() && n < device.Length
      modifies this, device, entries
      ensures Ok()
      ensures State() == ReadStep(old(State()), n).0
      ensures Disk() == old(Disk())
      ensures if n == 0 then status == E_BADBLOCK && buf == dst
              else status == E_SUCCESS && buf == old(Disk())[n]
    {
      ghost var c := State();
      ReadRefines(c, n);
      if n == 0 {
        return E_BADBLOCK, dst;
      }
      if entries.Length == 0 {
        return E_SUCCESS, device[n];
      }
      StepKeepsClock(c, Read(n));
      VictimInRange(c);
      hide CacheSpec.Valid, ClockOk, View;
      var hit, i := Search(n);
      if hit {
        buf := entries[i].block;
        Fill(i, n, entries[i].dirty, buf);
      } else {
        FlushIfDirty(i);
        buf := device[n];
        Fill(i, n, false, buf);
      }
      return E_SUCCESS, buf;
    }

    method WriteBlock(n: nat, buf: Block) returns (status: Status)
      requires Ok() && n < device.Length && |buf| == blockSize
      modifies this, device, entries
      ensures Ok()
      ensures State() == WriteStep(old(State()), n, buf).0
      ensures if n == 0 then status == E_BADBLOCK && Disk() == old(Disk())
              else status == E_SUCCESS && Disk() == old(Disk())[n := buf]
    {
      ghost var c := State();
      WriteRefines(c, n, buf);
      if n == 0 {
        return E_BADBLOCK;
      }
      if entries.Length == 0 {
        device[n] := buf;
        return E_SUCCESS;
      }
      StepKeepsClock(c, Write(n, buf));
      VictimInRange(c);
      hide CacheSpec.Valid, ClockOk, View;
      var hit, i := Search(n);
      if !hit {
        FlushIfDirty(i);
      }
      Fill(i, n, true, buf);
      return E_SUCCESS;
    }

    method Sync()
      requires Ok()
      modifies device, entries
      ensures Ok() && State() == SyncFrom(old(State()), 0)
      ensures Disk() == old(Disk()) && device[..] == old(Disk())
      ensures forall k :: 0 <= k < entries.Length ==> !entries[k].dirty
    {
      ghost var c := State();
      SyncRefines(c, 0);
      if entries.Length > 0 {
        StepKeepsClock(c, CacheSpec.Sync);
      }
      for i := 0 to entries.Length
        invariant CacheSpec.Valid(State())
        invariant SyncFrom(State(), i) == SyncFrom(c, 0)
      {
        ghost var c1 := State();
        FlushKeepsView(c1, i);
        assert EntryOk(c1, c1.entries[i]);
        FlushIfDirty(i);
      }
    }

    /** The superblock goes straight to byte 1024 of the device, inside block 0. */
    method RewriteSuperblock(sb: Block)
      requires Ok() && |sb| == 1024
      modifies device
      ensures Ok() && Disk() == old(Disk())[0 := Splice(old(Disk())[0], 1024, sb)]
    {
      ghost var c := State();
      SuperRefines(c, sb);
      device[0] := Splice(device[0], 1024, sb);
      assert State() == Step(c, Super(sb)).0;
    }
  }
}
