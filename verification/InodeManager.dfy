/** The inode manager: index blocks, the inode cache, and the life of an inode. */
module InodeManagers {
  import opened Bytes
  import opened BlockDevices
  import opened FreeLists
  import opened SuperBlocks
  import opened SuperImages
  import opened InodeTrees
  import opened InodeWalks
  import opened InodeViews
  import opened DiskInodes
  import opened InodeCaches
  import opened InodeLives

  /** An in-memory inode; `slot` is its fixed place in the cache array. */
  class MemINode {
    const slot: nat
    var di: DInode
    var ino: uint16
    var count: uint16
    var dirty: bool

    constructor (slot: nat)
      ensures this.slot == slot
    {
      this.slot := slot;
      di := DInode(0, 0, 0, 0, 0, 0, 0, 0, seq<uint16>(NADDR, _ => 0));
      ino, count, dirty := 0, 0, false;
    }
  }

  class InodeManager {
    const dev: BlockDevice
    const sb: SuperBlock
    const cache: seq<MemINode>
    const used: array<bool>

    // The inode table as callers see it, who owns each block, and the inodes in use.
    ghost var table: Table
    ghost var owner: map<uint16, Place>
    ghost var live: set<uint16>
    // The lowest managed block, and the managed inode numbers.
    ghost var lo: nat
    ghost var base: nat
    ghost var inodes: nat

    ghost predicate Shape() {
      && sb.Shape() && sb.dev == dev
      && |cache| == CACHE_SIZE && used.Length == CACHE_SIZE
      && (forall i :: 0 <= i < CACHE_SIZE ==> cache[i].slot == i)
    }

    ghost function Now(): View
      requires Shape()
      reads `table, `owner, `lo, sb`list, dev.disk
    {
      View(dev.Contents(), table, owner, sb.list, lo)
    }

    /** The block side is consistent: a meaningful free list, and every block in exactly one place. */
    ghost predicate BlocksOk()
      reads `table, `owner, `lo, sb`nfree, sb`freeTotal, sb`chain, sb`list, sb.free, dev.disk
    {
      Shape() && sb.Valid() && Consistent(Now())
    }

    /** The cache as a value. */
    ghost function Slots(): (slots: seq<Slot>)
      requires Shape()
      reads used, cache
      ensures |slots| == CACHE_SIZE
    {
      seq(CACHE_SIZE, i requires 0 <= i < CACHE_SIZE && Shape() reads used, cache =>
        if used[i] then Held(cache[i].ino, cache[i].di, cache[i].count, cache[i].dirty) else Empty)
    }

    /** `ip` is a live slot of this cache. */
    ghost predicate Mine(ip: MemINode)
      requires Shape()
      reads used
    {
      ip.slot < CACHE_SIZE && cache[ip.slot] == ip && used[ip.slot]
    }

    /** Everything the inode layer keeps true between calls. */
    ghost predicate Valid()
      reads this, sb, sb.free, sb.inodes, dev.disk, used, cache
    {
      && Shape() && BlocksOk()
      && sb.ninode <= NICINOD && Counted(sb.inodeTotal, live, base)
      && CacheAndLife(Slots(), sb.InodeStack(), live, table, dev.Contents(), base, inodes)
    }

    lemma ValidIsConsistent()
      requires Valid()
      ensures BlocksOk() && Consistent(Now()) && sb.Valid() && sb.ninode <= NICINOD
    {
    }

    constructor (dev: BlockDevice, sb: SuperBlock)
      requires sb.Shape() && sb.dev == dev
      ensures Shape() && this.dev == dev && this.sb == sb && fresh(used) && (forall m :: m in cache ==> fresh(m))
      ensures forall i :: 0 <= i < CACHE_SIZE ==> !used[i]
    {
      this.dev := dev;
      this.sb := sb;
      var slots: seq<MemINode> := [];
      for i := 0 to CACHE_SIZE
        invariant |slots| == i && (forall j :: 0 <= j < i ==> slots[j].slot == j)
        invariant forall m :: m in slots ==> fresh(m)
      {
        var m := new MemINode(i);
        slots := slots + [m];
      }
      cache := slots;
      used := new bool[CACHE_SIZE](_ => false);
    }

    // ---------- index blocks ----------

    method ReadIndirect(p: uint16, j: nat) returns (v: uint16)
      requires Shape() && 0 < p < DATA_BLK_NUM && j < PTRS_PER_BLK
      ensures v == Entry(dev.Contents(), p, j)
    {
      var _, buf := dev.ReadBlock(DATA_START_BLK + p, ZERO_BLOCK);
      v := WordAt(buf, j);
    }

    /** Writes one data block; a block that is not free cannot carry allocator data. */
    method WriteData(b: uint16, blk: Block)
      requires Shape() && sb.Valid() && b < DATA_BLK_NUM && b !in sb.list
      modifies dev.disk
      ensures sb.Valid()
      ensures dev.Contents() == SetDataBlock(old(dev.Contents()), b, blk)
    {
      hide Represents;
      ghost var s0 := sb.State();
      sb.ListFacts();
      var _ := dev.WriteBlock(DATA_START_BLK + b, blk);
      assert dev.Contents() == SetDataBlock(s0.disk, b, blk);
      RepresentsFrame(s0, sb.chain, sb.list, dev.Contents());
    }

    method WriteIndirect(p: uint16, j: nat, v: uint16)
      requires Shape() && sb.Valid() && p < DATA_BLK_NUM && p !in sb.list && j < PTRS_PER_BLK
      modifies dev.disk
      ensures sb.Valid()
      ensures dev.Contents() == SetDataBlock(old(dev.Contents()), p, PutWord(DataBlock(old(dev.Contents()), p), j, v))
    {
      var _, buf := dev.ReadBlock(DATA_START_BLK + p, ZERO_BLOCK);
      WriteData(p, PutWord(buf, j, v));
    }

    /** Takes a block for an empty address slot; a new index block is zeroed. */
    method AllocSlot(ip: MemINode, slot: nat, ghost r: Ref) returns (b: uint16)
      requires BlocksOk() && ip.ino < INODE_TOTAL && table[ip.ino] == ip.di
      requires ValidRef(r) && !InIndexBlock(r) && slot == SlotOf(r) && ip.di.addr[slot] == 0
      modifies ip`di, ip`dirty, `table, `owner, sb`nfree, sb`freeTotal, sb`fmod, sb`chain, sb`list, sb.free, dev.disk
      ensures BlocksOk() && table[ip.ino] == ip.di
      ensures old(sb.list) == [] ==>
                && b == INVALID_BLK && Now() == old(Now()) && sb.nfree == 0 && ip.di == old(ip.di)
                && ip.dirty == old(ip.dirty)
      ensures old(sb.list) != [] ==>
                0 < b < DATA_BLK_NUM && Attached(old(Now()), Now(), ip.ino, r, b) && sb.nfree >= 1 && ip.dirty
      ensures FreeDataKept(old(Now()), Now()) && (IsLeaf(r) ==> FreshKept(old(Now()), Now(), b))
    {
      hide Represents, Trees, Accounted, Distinct, InData, OneKey;
      ghost var v0 := Now();
      sb.ListFacts();
      b := sb.BAlloc();
      if b == INVALID_BLK {
        return;
      }
      FirstFree(v0);
      ip.di := ip.di.(addr := ip.di.addr[slot := b]);
      if slot >= DIRECT_ADDR {
        WriteData(b, ZERO_BLOCK);
      }
      ip.dirty := true;
      SlotAttached(v0.d, v0.t, v0.owner, ip.ino, r, b, dev.Contents());
      table := WithAddr(table, ip.ino, slot, b);
      owner := owner[b := Place(ip.ino, r)];
      AttachedConsistent(v0, Now(), ip.ino, r, b);
    }

    /** Takes a block for an empty entry of index block p; a new index block is zeroed after it is linked. */
    method AllocEntry(p: uint16, j: nat, leaf: bool, ghost ino: nat, ghost r: Ref) returns (b: uint16)
      requires BlocksOk() && ino < INODE_TOTAL && ValidRef(r) && InIndexBlock(r)
      requires j == IndexIn(r) && leaf == IsLeaf(r)
      requires p == At(table[ino].addr, dev.Contents(), ParentRef(r)) && 0 < p < DATA_BLK_NUM
      requires At(table[ino].addr, dev.Contents(), r) == 0
      modifies `owner, sb`nfree, sb`freeTotal, sb`fmod, sb`chain, sb`list, sb.free, dev.disk
      ensures BlocksOk()
      ensures old(sb.list) == [] ==> b == INVALID_BLK && Now() == old(Now()) && sb.nfree == 0
      ensures old(sb.list) != [] ==> 0 < b < DATA_BLK_NUM && Attached(old(Now()), Now(), ino, r, b) && sb.nfree >= 1
      ensures FreeDataKept(old(Now()), Now()) && (IsLeaf(r) ==> FreshKept(old(Now()), Now(), b))
    {
      hide Represents, Trees, Accounted, Distinct, InData, OneKey;
      ghost var v0 := Now();
      sb.ListFacts();
      b := sb.BAlloc();
      if b == INVALID_BLK {
        return;
      }
      FirstFree(v0);
      ParentOwned(v0, ino, r);
      WriteIndirect(p, j, b);
      if !leaf {
        WriteData(b, ZERO_BLOCK);
      }
      EntryAttached(v0.d, v0.t, v0.owner, ino, r, b, p, dev.Contents());
      owner := owner[b := Place(ino, r)];
      AttachedConsistent(v0, Now(), ino, r, b);
    }

    // ---------- logical to physical ----------

    /** The physical block of a logical block, or 0 for a hole or an index beyond the tree. */
    method Bmap(ip: MemINode, logicalBlk: nat) returns (b: uint16)
      requires BlocksOk() && ip.ino < INODE_TOTAL && table[ip.ino] == ip.di
      ensures b == Mapped(ip.di.addr, dev.Contents(), logicalBlk)
    {
      hide Represents, Accounted, Entry;
      if logicalBlk < DIRECT_ADDR {
        return ip.di.addr[logicalBlk];
      }
      var l: nat := logicalBlk - DIRECT_ADDR;
      for i := 0 to 2
        invariant l == logicalBlk - DIRECT_ADDR - i * PTRS_PER_BLK
      {
        if l < PTRS_PER_BLK {
          var p := ip.di.addr[DIRECT_ADDR + i];
          assert LeafRef(logicalBlk) == SingleData(i, l);
          IndexInRange(Now(), ip.ino, Single(i));
          if p == 0 {
            NoEntry(dev.Contents(), l);
            return 0;
          }
          b := ReadIndirect(p, l);
          return b;
        }
        l := l - PTRS_PER_BLK;
      }
      if l < PTRS_PER_BLK * PTRS_PER_BLK {
        var dbl := ip.di.addr[8];
        var idx1, idx2 := l / PTRS_PER_BLK, l % PTRS_PER_BLK;
        assert LeafRef(logicalBlk) == DoubleData(idx1, idx2);
        IndexInRange(Now(), ip.ino, Double);
        IndexInRange(Now(), ip.ino, DoubleIndex(idx1));
        NoEntry(dev.Contents(), idx1);
        NoEntry(dev.Contents(), idx2);
        if dbl == 0 {
          return 0;
        }
        var sgl := ReadIndirect(dbl, idx1);
        if sgl == 0 {
          return 0;
        }
        b := ReadIndirect(sgl, idx2);
        return b;
      }
      return 0;
    }

    /** The last step of every allocating path: the entry in the lowest index block. */
    method ReachEntry(p: uint16, j: nat, ghost ino: nat, ghost r: Ref) returns (b: uint16)
      requires BlocksOk() && ino < INODE_TOTAL && ValidRef(r) && InIndexBlock(r) && IsLeaf(r) && j == IndexIn(r)
      requires p == At(table[ino].addr, dev.Contents(), ParentRef(r)) && 0 < p < DATA_BLK_NUM
      modifies `owner, sb`nfree, sb`freeTotal, sb`fmod, sb`chain, sb`list, sb.free, dev.disk
      ensures BlocksOk() && Reached(old(Now()), Now(), ino, r, b) && Filled(old(Now()), Now(), ino, r, b)
      ensures b == INVALID_BLK <==> old(sb.list) == [] && old(At(table[ino].addr, dev.Contents(), r)) == 0
      ensures b == INVALID_BLK ==> sb.list == []
      ensures sb.nfree >= 1 <==> old(sb.nfree) >= 1 && b != INVALID_BLK
    {
      hide Represents, Trees, Accounted, Distinct, InData, Attached, Reached, Entry, FreeDataKept, FreshKept, Filled;
      ghost var v0 := Now();
      sb.ListFacts();
      AtThroughParent(table[ino].addr, dev.Contents(), r);
      ParentThere(table[ino].addr, dev.Contents(), r);
      IndexInRange(v0, ino, r);
      b := ReadIndirect(p, j);
      if b != 0 {
        ReachedPresent(v0, ino, r, b);
        FilledPresent(v0, ino, r, b);
        return;
      }
      b := AllocEntry(p, j, true, ino, r);
      if b == INVALID_BLK {
        ReachedFailed(v0, ino, r);
        FilledFailed(v0, ino, r);
      } else {
        ReachedAttached(v0, Now(), ino, r, b);
        FilledAttached(v0, Now(), ino, r, b);
      }
    }

    method ReachSingle(ip: MemINode, k: nat, j: nat) returns (b: uint16)
      requires BlocksOk() && ip.ino < INODE_TOTAL && table[ip.ino] == ip.di && k < 2 && j < PTRS_PER_BLK
      modifies ip`di, ip`dirty, `table, `owner, sb`nfree, sb`freeTotal, sb`fmod, sb`chain, sb`list, sb.free, dev.disk
      ensures b == INVALID_BLK <==> |old(sb.list)| < old(Missing(ip.di.addr, dev.Contents(), SingleData(k, j)))
      ensures b == INVALID_BLK ==> sb.list == []
      ensures BlocksOk() && table[ip.ino] == ip.di && (ip.dirty || (ip.di == old(ip.di) && ip.dirty == old(ip.dirty)))
      ensures Reached(old(Now()), Now(), ip.ino, SingleData(k, j), b)
      ensures Filled(old(Now()), Now(), ip.ino, SingleData(k, j), b)
      ensures sb.nfree >= 1 <==> old(sb.nfree) >= 1 && b != INVALID_BLK
    {
      hide Represents, Trees, Accounted, Distinct, InData, Attached, Reached, Entry, FreeDataKept, FreshKept, Filled;
      ghost var v0, r := Now(), SingleData(k, j);
      sb.ListFacts();
      AtThroughParent(ip.di.addr, dev.Contents(), r);
      NoEntry(dev.Contents(), j);
      if ip.di.addr[DIRECT_ADDR + k] == 0 {
        var c := AllocSlot(ip, DIRECT_ADDR + k, Single(k));
        if c == INVALID_BLK {
          ReachedFailed(v0, ip.ino, r);
          FilledFailed(v0, ip.ino, r);
          return INVALID_BLK;
        }
        ghost var v1 := Now();
        IndexAdded(v0, v1, ip.ino, Single(k), c, r);
        b := ReachEntry(c, j, ip.ino, r);
        ReachedAfterIndex(v0, v1, Now(), ip.ino, Single(k), c, r, b);
        FilledAfterIndex(v0, v1, Now(), ip.ino, Single(k), c, r, b);
      } else {
        IndexInRange(v0, ip.ino, Single(k));
        b := ReachEntry(ip.di.addr[DIRECT_ADDR + k], j, ip.ino, r);
      }
    }

    /** Below an existing double-indirect block. */
    method ReachBelowDouble(dbl: uint16, i: nat, j: nat, ghost ino: nat) returns (b: uint16)
      requires BlocksOk() && ino < INODE_TOTAL && i < PTRS_PER_BLK && j < PTRS_PER_BLK
      requires dbl == table[ino].addr[8] && 0 < dbl < DATA_BLK_NUM
      modifies `owner, sb`nfree, sb`freeTotal, sb`fmod, sb`chain, sb`list, sb.free, dev.disk
      ensures b == INVALID_BLK <==> |old(sb.list)| < old(Missing(table[ino].addr, dev.Contents(), DoubleData(i, j)))
      ensures b == INVALID_BLK ==> sb.list == []
      ensures BlocksOk() && Reached(old(Now()), Now(), ino, DoubleData(i, j), b)
      ensures Filled(old(Now()), Now(), ino, DoubleData(i, j), b)
      ensures sb.nfree >= 1 <==> old(sb.nfree) >= 1 && b != INVALID_BLK
    {
      hide Represents, Trees, Accounted, Distinct, InData, Attached, Reached, Entry, FreeDataKept, FreshKept, Filled;
      ghost var v0, r := Now(), DoubleData(i, j);
      sb.ListFacts();
      AtThroughParent(table[ino].addr, dev.Contents(), r);
      NoEntry(dev.Contents(), j);
      IndexInRange(v0, ino, DoubleIndex(i));
      var sgl := ReadIndirect(dbl, i);
      if sgl == 0 {
        sgl := AllocEntry(dbl, i, false, ino, DoubleIndex(i));
        if sgl == INVALID_BLK {
          ReachedFailed(v0, ino, r);
          FilledFailed(v0, ino, r);
          return INVALID_BLK;
        }
        ghost var v1 := Now();
        IndexAdded(v0, v1, ino, DoubleIndex(i), sgl, r);
        b := ReachEntry(sgl, j, ino, r);
        ReachedAfterIndex(v0, v1, Now(), ino, DoubleIndex(i), sgl, r, b);
        FilledAfterIndex(v0, v1, Now(), ino, DoubleIndex(i), sgl, r, b);
      } else {
        b := ReachEntry(sgl, j, ino, r);
      }
    }

    method ReachDouble(ip: MemINode, i: nat, j: nat) returns (b: uint16)
      requires BlocksOk() && ip.ino < INODE_TOTAL && table[ip.ino] == ip.di && i < PTRS_PER_BLK && j < PTRS_PER_BLK
      modifies ip`di, ip`dirty, `table, `owner, sb`nfree, sb`freeTotal, sb`fmod, sb`chain, sb`list, sb.free, dev.disk
      ensures b == INVALID_BLK <==> |old(sb.list)| < old(Missing(ip.di.addr, dev.Contents(), DoubleData(i, j)))
      ensures b == INVALID_BLK ==> sb.list == []
      ensures BlocksOk() && table[ip.ino] == ip.di && (ip.dirty || (ip.di == old(ip.di) && ip.dirty == old(ip.dirty)))
      ensures Reached(old(Now()), Now(), ip.ino, DoubleData(i, j), b)
      ensures Filled(old(Now()), Now(), ip.ino, DoubleData(i, j), b)
      ensures sb.nfree >= 1 <==> old(sb.nfree) >= 1 && b != INVALID_BLK
    {
      hide Represents, Trees, Accounted, Distinct, InData, Attached, Reached, Entry, FreeDataKept, FreshKept, Filled;
      ghost var v0, r := Now(), DoubleData(i, j);
      sb.ListFacts();
      IndexInRange(v0, ip.ino, Double);
      if ip.di.addr[8] == 0 {
        var c := AllocSlot(ip, 8, Double);
        if c == INVALID_BLK {
          ReachedFailed(v0, ip.ino, r);
          FilledFailed(v0, ip.ino, r);
          return INVALID_BLK;
        }
        ghost var v1 := Now();
        DoubleAdded(v0, v1, ip.ino, c, i, j);
        b := ReachBelowDouble(c, i, j, ip.ino);
        ReachedAfterIndex(v0, v1, Now(), ip.ino, Double, c, r, b);
        FilledAfterIndex(v0, v1, Now(), ip.ino, Double, c, r, b);
      } else {
        b := ReachBelowDouble(ip.di.addr[8], i, j, ip.ino);
      }
    }

    /** Maps a logical block, adding whatever is missing on the way.  It fails exactly beyond the tree or
        when the disk has fewer free blocks than are missing. */
    method BmapAlloc(ip: MemINode, logicalBlk: nat) returns (b: uint16)
      requires BlocksOk() && ip.ino < INODE_TOTAL && table[ip.ino] == ip.di
      modifies ip`di, ip`dirty, `table, `owner, sb`nfree, sb`freeTotal, sb`fmod, sb`chain, sb`list, sb.free, dev.disk
      ensures BlocksOk() && table[ip.ino] == ip.di && (ip.dirty || (ip.di == old(ip.di) && ip.dirty == old(ip.dirty)))
      ensures Grew(old(Now()), Now(), ip.ino)
      ensures logicalBlk < MAX_BLOCKS ==> Reached(old(Now()), Now(), ip.ino, LeafRef(logicalBlk), b)
      ensures logicalBlk < MAX_BLOCKS ==> Filled(old(Now()), Now(), ip.ino, LeafRef(logicalBlk), b)
      ensures logicalBlk >= MAX_BLOCKS ==> Now() == old(Now())
      ensures b == INVALID_BLK <==>
                logicalBlk >= MAX_BLOCKS
                || |old(sb.list)| < old(Missing(ip.di.addr, dev.Contents(), LeafRef(logicalBlk)))
      ensures b == INVALID_BLK && logicalBlk < MAX_BLOCKS ==> sb.list == []
      ensures sb.nfree >= 1 <==> old(sb.nfree) >= 1 && (b != INVALID_BLK || logicalBlk >= MAX_BLOCKS)
    {
      hide Represents, Trees, Accounted, Distinct, InData, Attached, LeafSet, LeavesKept, SameHeader, LeafDataKept,
          OnlyAddrChanged, Entry, FreeDataKept, FreshKept, Filled;
      ghost var v0 := Now();
      sb.ListFacts();
      GrewReflexive(v0, ip.ino);
      if logicalBlk < DIRECT_ADDR {
        IndexInRange(v0, ip.ino, Direct(logicalBlk));
        b := ip.di.addr[logicalBlk];
        if b == 0 {
          b := AllocSlot(ip, logicalBlk, Direct(logicalBlk));
          if b == INVALID_BLK {
            ReachedFailed(v0, ip.ino, Direct(logicalBlk));
            FilledFailed(v0, ip.ino, Direct(logicalBlk));
          } else {
            ReachedAttached(v0, Now(), ip.ino, Direct(logicalBlk), b);
            FilledAttached(v0, Now(), ip.ino, Direct(logicalBlk), b);
          }
        } else {
          ReachedPresent(v0, ip.ino, Direct(logicalBlk), b);
          FilledPresent(v0, ip.ino, Direct(logicalBlk), b);
        }
        return;
      }
      var l: nat := logicalBlk - DIRECT_ADDR;
      for i := 0 to 2
        invariant l == logicalBlk - DIRECT_ADDR - i * PTRS_PER_BLK
        invariant Now() == v0 && BlocksOk() && ip.di == old(ip.di) && ip.dirty == old(ip.dirty)
        invariant sb.nfree == old(sb.nfree)
      {
        if l < PTRS_PER_BLK {
          assert LeafRef(logicalBlk) == SingleData(i, l);
          b := ReachSingle(ip, i, l);
          return;
        }
        l := l - PTRS_PER_BLK;
      }
      if l < PTRS_PER_BLK * PTRS_PER_BLK {
        assert LeafRef(logicalBlk) == DoubleData(l / PTRS_PER_BLK, l % PTRS_PER_BLK);
        b := ReachDouble(ip, l / PTRS_PER_BLK, l % PTRS_PER_BLK);
        return;
      }
      return INVALID_BLK;
    }

    // ---------- truncation ----------

    /** One step of the walk: hands back the block at position r, if there is one. */
    method FreeAt(b: uint16, ghost w: Walk, ghost r: Ref) returns (ghost w': Walk)
      requires Shape() && sb.Valid() && ValidRef(r) && Walking(w, dev.Contents(), sb.list, Rank(r))
      requires b == At(w.t[w.ino].addr, w.d, r) && (b != 0 ==> sb.nfree >= 1)
      modifies sb`nfree, sb`freeTotal, sb`fmod, sb`chain, sb`list, sb.free, dev.disk
      ensures sb.Valid() && (old(sb.nfree) >= 1 ==> sb.nfree >= 1)
      ensures w' == w.(freed := w'.freed) && Walking(w', dev.Contents(), sb.list, Rank(r) + 1)
    {
      hide Represents, Trees, Accounted, Spans, Freed;
      SpansStep(w.d, w.t, w.owner, w.ino, w.freed, r);
      if b == 0 {
        return w;
      }
      ghost var d0, list0 := dev.Contents(), sb.list;
      TurnOf(w, d0, list0, r, b);
      sb.BFree(b);
      w' := w.(freed := w.freed + [b]);
      FreedStep(w, d0, list0, dev.Contents(), b);
    }

    /** Frees everything below index block p and then p itself. */
    method FreeIndexBlock(p: uint16, ghost w: Walk, ghost r: Ref) returns (ghost w': Walk)
      requires Shape() && sb.Valid() && sb.nfree >= 1 && ValidRef(r) && (r.Single? || r.DoubleIndex?)
      requires Walking(w, dev.Contents(), sb.list, Rank(r) - PTRS_PER_BLK)
      requires p == At(w.t[w.ino].addr, w.d, r) && p != 0
      modifies sb`nfree, sb`freeTotal, sb`fmod, sb`chain, sb`list, sb.free, dev.disk
      ensures sb.Valid() && sb.nfree >= 1
      ensures w' == w.(freed := w'.freed) && Walking(w', dev.Contents(), sb.list, Rank(r) + 1)
    {
      hide Represents, Walking, Entry;
      w' := w;
      PositionOwned(w, dev.Contents(), sb.list, Rank(r) - PTRS_PER_BLK, r);
      NotYetFreed(w, dev.Contents(), sb.list, Rank(r) - PTRS_PER_BLK, p);
      var _, buf := dev.ReadBlock(DATA_START_BLK + p, ZERO_BLOCK);
      for j := 0 to PTRS_PER_BLK
        invariant sb.Valid() && sb.nfree >= 1
        invariant w' == w.(freed := w'.freed) && Walking(w', dev.Contents(), sb.list, Rank(r) - PTRS_PER_BLK + j)
      {
        ghost var leaf := if r.Single? then SingleData(r.k, j) else DoubleData(r.i, j);
        IndexEntry(w.t[w.ino].addr, w.d, p, r, leaf);
        w' := FreeAt(WordAt(buf, j), w', leaf);
      }
      w' := FreeAt(p, w', r);
    }

    /** Frees the tree under the double-indirect block, then the block itself. */
    method FreeDouble(dbl: uint16, ghost w: Walk) returns (ghost w': Walk)
      requires Shape() && sb.Valid() && sb.nfree >= 1
      requires Walking(w, dev.Contents(), sb.list, DOUBLE_BASE)
      requires dbl == At(w.t[w.ino].addr, w.d, Double) && dbl != 0
      modifies sb`nfree, sb`freeTotal, sb`fmod, sb`chain, sb`list, sb.free, dev.disk
      ensures sb.Valid() && sb.nfree >= 1
      ensures w' == w.(freed := w'.freed) && Walking(w', dev.Contents(), sb.list, LAST_RANK + 1)
    {
      hide Represents, Walking, Entry;
      w' := w;
      PositionOwned(w, dev.Contents(), sb.list, DOUBLE_BASE, Double);
      NotYetFreed(w, dev.Contents(), sb.list, DOUBLE_BASE, dbl);
      var _, lvl1 := dev.ReadBlock(DATA_START_BLK + dbl, ZERO_BLOCK);
      for i := 0 to PTRS_PER_BLK
        invariant sb.Valid() && sb.nfree >= 1
        invariant w' == w.(freed := w'.freed) && Walking(w', dev.Contents(), sb.list, DOUBLE_BASE + i * INDIRECT_SPAN)
      {
        DoubleEntry(w.t[w.ino].addr, w.d, dbl, i);
        if WordAt(lvl1, i) == 0 {
          SkipIndex(w', dev.Contents(), sb.list, DoubleIndex(i));
        } else {
          w' := FreeIndexBlock(WordAt(lvl1, i), w', DoubleIndex(i));
        }
      }
      w' := FreeAt(dbl, w', Double);
    }

    method FreeDirect(ip: MemINode, ghost w: Walk) returns (ghost w': Walk)
      requires Shape() && sb.Valid() && Walking(w, dev.Contents(), sb.list, 0) && w.ino < INODE_TOTAL
      requires ip.di.addr == w.t[w.ino].addr
      requires sb.nfree >= 1 || forall b :: b in w.owner ==> w.owner[b].ino != w.ino
      modifies ip`di, sb`nfree, sb`freeTotal, sb`fmod, sb`chain, sb`list, sb.free, dev.disk
      ensures sb.Valid() && (old(sb.nfree) >= 1 ==> sb.nfree >= 1)
      ensures w' == w.(freed := w'.freed) && Walking(w', dev.Contents(), sb.list, SINGLE_BASE)
      ensures ip.di == old(ip.di).(addr := ip.di.addr) && ClearedTo(old(ip.di.addr), ip.di.addr, DIRECT_ADDR)
    {
      hide Represents, Walking;
      w' := w;
      for i := 0 to DIRECT_ADDR
        invariant sb.Valid() && (old(sb.nfree) >= 1 ==> sb.nfree >= 1)
        invariant w' == w.(freed := w'.freed) && Walking(w', dev.Contents(), sb.list, i)
        invariant ip.di == old(ip.di).(addr := ip.di.addr) && ClearedTo(old(ip.di.addr), ip.di.addr, i)
      {
        PositionOwned(w', dev.Contents(), sb.list, i, Direct(i));
        w' := FreeAt(ip.di.addr[i], w', Direct(i));
        ip.di := ip.di.(addr := ip.di.addr[i := 0]);
      }
    }

    method FreeSingles(ip: MemINode, ghost w: Walk) returns (ghost w': Walk)
      requires Shape() && sb.Valid() && Walking(w, dev.Contents(), sb.list, SINGLE_BASE) && w.ino < INODE_TOTAL
      requires ClearedTo(w.t[w.ino].addr, ip.di.addr, DIRECT_ADDR)
      requires sb.nfree >= 1 || forall b :: b in w.owner ==> w.owner[b].ino != w.ino
      modifies ip`di, sb`nfree, sb`freeTotal, sb`fmod, sb`chain, sb`list, sb.free, dev.disk
      ensures sb.Valid() && (old(sb.nfree) >= 1 ==> sb.nfree >= 1)
      ensures w' == w.(freed := w'.freed) && Walking(w', dev.Contents(), sb.list, DOUBLE_BASE)
      ensures ip.di == old(ip.di).(addr := ip.di.addr) && ClearedTo(w.t[w.ino].addr, ip.di.addr, 8)
    {
      hide Represents, Walking;
      w' := w;
      ghost var a0 := w.t[w.ino].addr;
      for i := 0 to 2
        invariant sb.Valid() && (old(sb.nfree) >= 1 ==> sb.nfree >= 1)
        invariant w' == w.(freed := w'.freed) && Walking(w', dev.Contents(), sb.list, SINGLE_BASE + i * INDIRECT_SPAN)
        invariant ip.di == old(ip.di).(addr := ip.di.addr) && ClearedTo(a0, ip.di.addr, DIRECT_ADDR + i)
      {
        var p := ip.di.addr[DIRECT_ADDR + i];
        if p == 0 {
          SkipIndex(w', dev.Contents(), sb.list, Single(i));
        } else {
          PositionOwned(w', dev.Contents(), sb.list, SINGLE_BASE + i * INDIRECT_SPAN, Single(i));
          w' := FreeIndexBlock(p, w', Single(i));
          ip.di := ip.di.(addr := ip.di.addr[DIRECT_ADDR + i := 0]);
        }
      }
    }

    method FreeTree(ip: MemINode, ghost w: Walk) returns (ghost w': Walk)
      requires Shape() && sb.Valid() && Walking(w, dev.Contents(), sb.list, 0) && w.ino < INODE_TOTAL
      requires ip.di.addr == w.t[w.ino].addr
      requires sb.nfree >= 1 || forall b :: b in w.owner ==> w.owner[b].ino != w.ino
      modifies ip`di, sb`nfree, sb`freeTotal, sb`fmod, sb`chain, sb`list, sb.free, dev.disk
      ensures sb.Valid() && (old(sb.nfree) >= 1 ==> sb.nfree >= 1)
      ensures w' == w.(freed := w'.freed) && Walking(w', dev.Contents(), sb.list, LAST_RANK + 1)
      ensures ip.di == old(ip.di).(addr := ip.di.addr) && NoBlocks(ip.di.addr)
    {
      hide Represents, Walking;
      w' := FreeDirect(ip, w);
      w' := FreeSingles(ip, w');
      var dbl := ip.di.addr[8];
      if dbl == 0 {
        SkipDouble(w', dev.Contents(), sb.list);
      } else {
        PositionOwned(w', dev.Contents(), sb.list, DOUBLE_BASE, Double);
        w' := FreeDouble(dbl, w');
        ip.di := ip.di.(addr := ip.di.addr[8 := 0]);
      }
    }

    /** Hands back every block of an inode's tree and leaves the inode empty.  The freed blocks are exactly
        the inode's, each once; no other tree and no block outside the freed ones changes. */
    method Truncate(ip: MemINode) returns (ghost freed: seq<uint16>)
      requires BlocksOk() && ip.ino < INODE_TOTAL && table[ip.ino] == ip.di
      requires sb.nfree >= 1 || forall b :: b in owner ==> owner[b].ino != ip.ino
      modifies ip`di, ip`dirty, `table, `owner, sb`nfree, sb`freeTotal, sb`fmod, sb`chain, sb`list, sb.free, dev.disk
      ensures BlocksOk() && (old(sb.nfree) >= 1 ==> sb.nfree >= 1)
      ensures ip.dirty && NoBlocks(ip.di.addr) && ip.di == old(ip.di).(addr := ip.di.addr, size := 0)
      ensures table == old(table)[ip.ino := ip.di]
      ensures sb.list == Reverse(freed) + old(sb.list)
      ensures forall b :: b in freed <==> b in old(owner) && old(owner)[b].ino == ip.ino
      ensures owner == Without(old(owner), ip.ino)
      ensures SameHeader(old(dev.Contents()), dev.Contents())
      ensures OthersKept(old(Now()), Now(), ip.ino)
    {
      hide Represents, Walking, Entry, Trees, Accounted, At, Spans;
      ghost var v0 := Now();
      ghost var w := Walk(v0.d, v0.t, v0.owner, v0.list, lo, ip.ino, []);
      WalkStarts(w);
      w := FreeTree(ip, w);
      ip.di := ip.di.(size := 0);
      ip.dirty := true;
      WalkDone(w, dev.Contents(), sb.list, ip.di);
      freed := w.freed;
      table := table[ip.ino := ip.di];
      owner := Without(owner, ip.ino);
      OthersKeptTruncated(v0, Now(), ip.ino, freed);
    }

    // ---------- the cache ----------

    /** Finds the slot that holds an inode. */
    method CacheLookup(ino: uint16) returns (ip: MemINode?)
      requires Shape()
      ensures ip == null <==> !Cached(Slots(), ino)
      ensures ip != null ==> Mine(ip) && ip.ino == ino
    {
      for i := 0 to CACHE_SIZE
        invariant forall j :: 0 <= j < i ==> !(used[j] && cache[j].ino == ino)
      {
        if used[i] && cache[i].ino == ino {
          assert Slots()[i].Held? && Slots()[i].ino == ino;
          return cache[i];
        }
      }
      assert forall j :: 0 <= j < CACHE_SIZE ==> !(Slots()[j].Held? && Slots()[j].ino == ino);
      return null;
    }

    /** Claims the first unused slot and clears it; there is no eviction. */
    method CacheAlloc() returns (ip: MemINode?)
      requires Shape()
      modifies used, cache
      ensures ip == null <==> forall i :: 0 <= i < CACHE_SIZE ==> old(Slots())[i].Held?
      ensures ip == null ==> Slots() == old(Slots())
      ensures ip != null ==> Mine(ip) && old(Slots())[ip.slot].Empty?
      ensures ip != null ==>
                && ip.di == DInode(0, 0, 0, 0, 0, 0, 0, 0, [0, 0, 0, 0, 0, 0, 0, 0, 0, 0])
                && ip.ino == 0 && ip.count == 0 && !ip.dirty
      ensures ip != null ==> Slots() == old(Slots())[ip.slot := Held(ip.ino, ip.di, ip.count, ip.dirty)]
    {
      for i := 0 to CACHE_SIZE
        invariant forall j :: 0 <= j < i ==> used[j]
        invariant Slots() == old(Slots())
      {
        if !used[i] {
          assert old(Slots())[i].Empty?;
          used[i] := true;
          ip := cache[i];
          ip.di, ip.ino, ip.count, ip.dirty := EMPTY_INODE, 0, 0, false;
          assert forall j :: 0 <= j < CACHE_SIZE && j != i ==> Slots()[j] == old(Slots())[j];
          return;
        }
      }
      return null;
    }

    /** Fills a slot from the disk. */
    method Load(ip: MemINode, ino: uint16)
      requires Shape() && Mine(ip) && ino < INODE_TOTAL
      modifies ip
      ensures Slots() == old(Slots())[ip.slot := Held(ino, DiskInode(dev.Contents(), ino), 1, false)]
      ensures ip.ino == ino && ip.count == 1 && ip.di == DiskInode(dev.Contents(), ino)
    {
      hide DiskInode;
      var di := ReadDInode(ino);
      ip.di, ip.ino, ip.count, ip.dirty := di, ino, 1, false;
      assert forall j :: 0 <= j < CACHE_SIZE && j != ip.slot ==> Slots()[j] == old(Slots())[j];
    }

    method SetCount(ip: MemINode, count: uint16)
      requires Shape() && Mine(ip)
      modifies ip`count
      ensures ip.count == count && Slots() == old(Slots())[ip.slot := old(Slots())[ip.slot].(count := count)]
    {
      ip.count := count;
      assert forall j :: 0 <= j < CACHE_SIZE && j != ip.slot ==> Slots()[j] == old(Slots())[j];
    }

    /** A reference to an inode of this cache, whose block side is in order; the inode may be dead. */
    ghost predicate Opened(ip: MemINode)
      reads this, sb, sb.free, sb.inodes, dev.disk, used, cache, ip
    {
      Shape() && BlocksOk() && sb.ninode <= NICINOD && Mine(ip) && ip.ino < INODE_TOTAL && table[ip.ino] == ip.di
    }

    /** A reference just taken: to a live inode with the cache in order, or the only one to a dead inode. */
    ghost predicate Fetched(ip: MemINode)
      reads this, sb, sb.free, sb.inodes, dev.disk, used, cache, ip
    {
      && Opened(ip) && Counted(sb.inodeTotal, live, base) && ip.count != 0
      && if ip.ino in live then Valid() && (ip.count == 1 ==> ip.di.nlink != 0) else ip.count == 1 && Cleared(ip.di)
    }

    /** Takes a reference.  A cached inode only gains a count; otherwise it is loaded from the disk.  The
        inode table callers see does not change.  What the cache promises survives exactly when the inode is
        live and its count did not wrap around. */
    method Get(ino: uint16) returns (ip: MemINode?)
      requires Valid()
      modifies used, cache
      ensures Valid() <==> ip == null || (ino in live && ip.count != 0)
      ensures CountsLow(old(Slots())) && (ino < INODE_TOTAL ==> ino in live) ==> Valid()
      ensures ip == null <==>
                ino >= INODE_TOTAL
                || (!Cached(old(Slots()), ino) && forall i :: 0 <= i < CACHE_SIZE ==> old(Slots())[i].Held?)
      ensures ip == null ==> Slots() == old(Slots())
      ensures ip != null ==> Mine(ip) && ip.ino == ino && ip.di == table[ino]
      ensures ip != null ==> Slots() == old(Slots())[ip.slot := Referenced(old(Slots())[ip.slot], ino, table[ino])]
      ensures ip != null ==> Opened(ip) && (ino in live && ip.count == 1 ==> ip.di.nlink != 0)
      ensures ip != null && CountsLow(old(Slots())) ==> Fetched(ip)
    {
      hide BlocksOk, CacheAndLife, Cached, Cleared, DiskInode, Slots;
      if ino >= INODE_TOTAL {
        return null;
      }
      CountedNow();
      ghost var slots0, stack := Slots(), sb.InodeStack();
      CountsFromCache(slots0, stack, live, table, dev.Contents(), base, inodes);
      ip := CacheLookup(ino);
      if ip != null {
        SlotHolds(ip);
        HeldFacts(slots0, stack, live, table, dev.Contents(), base, inodes, ip.slot);
        SetCount(ip, (ip.count + 1) % 0x1_0000);
        if ip.count != 0 {
          CountKept(slots0, stack, live, table, dev.Contents(), base, inodes, ip.slot, Slots()[ip.slot]);
        }
      } else {
        ip := CacheAlloc();
        if ip == null {
          return;
        }
        Load(ip, ino);
        assert Slots() == slots0[ip.slot := Held(ino, DiskInode(dev.Contents(), ino), 1, false)];
        NotLoaded(slots0, stack, live, table, dev.Contents(), base, inodes, ino);
        if ino in live {
          Loaded(slots0, stack, live, table, dev.Contents(), base, inodes, ip.slot, ino);
        } else {
          DeadIsCleared(slots0, stack, live, table, dev.Contents(), base, inodes, ino);
        }
      }
      ReferencedIsLive(ip);
      LowCount(slots0, ip.slot);
    }

    // Whoever holds a reference while the cache is in order holds one to a live inode.
    lemma ReferencedIsLive(ip: MemINode)
      requires Shape() && Mine(ip)
      ensures Valid() ==>
                ip.ino in live && ip.count != 0 && ip.ino < INODE_TOTAL && table[ip.ino] == ip.di && base <= ip.ino
    {
      hide BlocksOk, CacheAndLife;
      SlotHolds(ip);
      if Valid() {
        HeldFacts(Slots(), sb.InodeStack(), live, table, dev.Contents(), base, inodes, ip.slot);
        LiveAbove(Slots(), sb.InodeStack(), live, table, dev.Contents(), base, inodes);
      }
    }

    /** While the cache is in order a slot is free, so opening an inode cannot fail. */
    lemma NeverFull()
      requires Valid()
      ensures !forall i :: 0 <= i < CACHE_SIZE ==> Slots()[i].Held?
    {
      hide BlocksOk, CacheAndLife;
      SpareSlot(Slots(), sb.InodeStack(), live, table, dev.Contents(), base, inodes);
    }

    /** An inode without addresses owns no block. */
    lemma OwnerOfNone(ino: uint16)
      requires Shape() && BlocksOk() && ino < INODE_TOTAL && Cleared(table[ino])
      ensures forall b :: b in owner ==> owner[b].ino != ino
    {
      NoBlocksAt(table[ino].addr, dev.Contents());
      hide At;
    }

    /** With one free number too many for the live set the cache is out of order. */
    lemma Miscounted(total: uint16)
      requires Shape() && Counted(total, live, base) && sb.inodeTotal == (total + 1) % 0x1_0000
      ensures !Valid()
    {
      hide BlocksOk, CacheAndLife;
    }

    lemma LowCount(slots: seq<Slot>, s: nat)
      requires s < |slots|
      ensures CountsLow(slots) && slots[s].Held? ==> slots[s].count < 0xFFFF
    {
    }

    lemma CountedNow()
      requires Valid()
      ensures Counted(sb.inodeTotal, live, base)
    {
      hide BlocksOk, CacheAndLife;
    }

    lemma SlotHolds(ip: MemINode)
      requires Shape() && Mine(ip)
      ensures |Slots()| == CACHE_SIZE && Slots()[ip.slot] == Held(ip.ino, ip.di, ip.count, ip.dirty)
    {
    }

    lemma HeldIsMine(s: nat)
      requires Shape() && s < CACHE_SIZE && Slots()[s].Held?
      ensures Mine(cache[s]) && Slots()[s] == Held(cache[s].ino, cache[s].di, cache[s].count, cache[s].dirty)
    {
    }

    lemma NothingHeld()
      requires Shape() && forall i :: 0 <= i < CACHE_SIZE ==> Slots()[i].Empty?
      ensures forall i :: 0 <= i < CACHE_SIZE ==> !used[i]
    {
      forall i | 0 <= i < CACHE_SIZE ensures !used[i] {
        assert Slots()[i].Empty?;
      }
    }

    method ReadDInode(ino: uint16) returns (di: DInode)
      requires Shape() && ino < INODE_TOTAL
      ensures di == DiskInode(dev.Contents(), ino)
    {
      var _, buf := dev.ReadBlock(INODE_START_BLK + ino / INODES_PER_BLK, ZERO_BLOCK);
      di := InodeOf(Words(buf, (ino % INODES_PER_BLK) * INODE_WORDS, INODE_WORDS));
    }

    /** Reads the block, replaces one inode's 64 bytes, and writes the block back. */
    method WriteDInode(ino: uint16, di: DInode)
      requires Shape() && ino < INODE_TOTAL
      modifies dev.disk
      ensures dev.Contents() == WriteInode(old(dev.Contents()), ino, di)
    {
      var block := INODE_START_BLK + ino / INODES_PER_BLK;
      var _, buf := dev.ReadBlock(block, ZERO_BLOCK);
      var ws := InodeWords(di);
      var _ := dev.WriteBlock(block, PutWords(buf, (ino % INODES_PER_BLK) * INODE_WORDS, ws, |ws|));
    }

    /** Writes an inode to its place on the disk. */
    method FlushInode(ip: MemINode)
      requires BlocksOk() && ip.ino < INODE_TOTAL
      modifies ip`dirty, dev.disk
      ensures BlocksOk() && !ip.dirty
      ensures dev.Contents() == WriteInode(old(dev.Contents()), ip.ino, ip.di)
    {
      hide Represents, Consistent, WriteInode;
      ghost var v0, s0 := Now(), sb.State();
      WriteInodeIsolated(v0.d, ip.ino, ip.di);
      WriteDInode(ip.ino, ip.di);
      ip.dirty := false;
      ConsistentSameTrees(v0, dev.Contents(), v0.t);
      MetadataFrame(s0, sb.chain, sb.list, dev.Contents());
    }

    /** Saves a cached inode.  The inode table callers see does not change. */
    method WriteBack(ip: MemINode)
      requires Valid() && Mine(ip)
      modifies ip`dirty, dev.disk
      ensures Valid() && !ip.dirty
      ensures ip.ino < INODE_TOTAL && dev.Contents() == WriteInode(old(dev.Contents()), ip.ino, ip.di)
      ensures Slots() == old(Slots())[ip.slot := old(Slots())[ip.slot].(dirty := false)]
    {
      hide BlocksOk, CacheAndLife, WriteInode;
      ghost var slots0 := Slots();
      SlotHolds(ip);
      HeldFacts(slots0, sb.InodeStack(), live, table, dev.Contents(), base, inodes, ip.slot);
      WroteBack(slots0, sb.InodeStack(), live, table, dev.Contents(), base, inodes, ip.slot);
      FlushInode(ip);
      assert forall j :: 0 <= j < CACHE_SIZE && j != ip.slot ==> Slots()[j] == old(Slots())[j];
      assert Slots() == slots0[ip.slot := slots0[ip.slot].(dirty := false)];
    }

    /** Changes the metadata of a cached inode and marks it dirty. */
    method SetInode(ip: MemINode, di: DInode)
      requires Valid() && Mine(ip) && di.addr == ip.di.addr
      modifies ip`di, ip`dirty, `table
      ensures Valid()
      ensures ip.di == di && ip.ino < INODE_TOTAL && table == old(table)[ip.ino := di]
      ensures Slots() == old(Slots())[ip.slot := old(Slots())[ip.slot].(di := di, dirty := true)]
    {
      hide Represents, Consistent, CacheAndLife;
      ghost var slots0, v0 := Slots(), Now();
      SlotHolds(ip);
      HeldFacts(slots0, sb.InodeStack(), live, table, dev.Contents(), base, inodes, ip.slot);
      Modified(slots0, sb.InodeStack(), live, table, dev.Contents(), base, inodes, ip.slot,
          slots0[ip.slot].(di := di, dirty := true), dev.Contents());
      ip.di := di;
      ip.dirty := true;
      table := table[ip.ino := di];
      ConsistentSameTrees(v0, v0.d, table);
      assert forall j :: 0 <= j < CACHE_SIZE && j != ip.slot ==> Slots()[j] == old(Slots())[j];
      assert Slots() == slots0[ip.slot := slots0[ip.slot].(di := di, dirty := true)];
    }

    /** Truncates an unlinked inode, clears its record and hands its number back. */
    method DestroyInode(ip: MemINode) returns (ghost freed: seq<uint16>, ghost d1: Image)
      requires BlocksOk() && ip.ino < INODE_TOTAL && table[ip.ino] == ip.di && sb.ninode <= NICINOD
      requires sb.nfree >= 1 || forall b :: b in owner ==> owner[b].ino != ip.ino
      modifies ip`di, ip`dirty, `table, `owner, sb`nfree, sb`freeTotal, sb`fmod, sb`chain, sb`list, sb`ninode,
          sb`inodeTotal, sb`rinode, sb.free, sb.inodes, dev.disk
      ensures BlocksOk() && (old(sb.nfree) >= 1 ==> sb.nfree >= 1)
      ensures !ip.dirty && NoBlocks(ip.di.addr) && ip.di == old(ip.di).(addr := ip.di.addr, size := 0, mode := 0)
      ensures table == old(table)[ip.ino := ip.di]
      ensures SameHeader(old(dev.Contents()), d1) && dev.Contents() == WriteInode(d1, ip.ino, ip.di)
      ensures GaveUp(old(Now()), Now(), ip.ino, freed)
      ensures sb.ninode <= NICINOD && sb.InodeStack() == Returned(old(sb.InodeStack()), ip.ino)
      ensures sb.inodeTotal == (old(sb.inodeTotal) + 1) % 0x1_0000
    {
      hide Represents, Consistent, WriteInode, NoBlocks, SameHeader, At, OthersKept, Reverse, Without;
      ghost var v0 := Now();
      freed := Truncate(ip);
      d1 := dev.Contents();
      ghost var v1 := Now();
      ip.di := ip.di.(mode := 0, size := 0);
      ip.dirty := true;
      table := table[ip.ino := ip.di];
      assert Consistent(Now()) by { ConsistentSameTrees(v1, v1.d, table); }
      FlushInode(ip);
      sb.IFree(ip.ino);
      assert OthersKept(v0, Now(), ip.ino) by {
        WriteInodeIsolated(d1, ip.ino, ip.di);
        OthersKeptSame(v0, v1, Now(), ip.ino);
      }
    }

    // The same, as the cache sees it.
    method DestroyInSlot(ip: MemINode) returns (ghost freed: seq<uint16>, ghost d1: Image)
      requires BlocksOk() && Mine(ip) && ip.ino < INODE_TOTAL && table[ip.ino] == ip.di && sb.ninode <= NICINOD
      requires sb.nfree >= 1 || forall b :: b in owner ==> owner[b].ino != ip.ino
      modifies ip`di, ip`dirty, `table, `owner, sb`nfree, sb`freeTotal, sb`fmod, sb`chain, sb`list, sb`ninode,
          sb`inodeTotal, sb`rinode, sb.free, sb.inodes, dev.disk
      ensures BlocksOk() && (old(sb.nfree) >= 1 ==> sb.nfree >= 1)
      ensures !ip.dirty && NoBlocks(ip.di.addr) && ip.di == old(ip.di).(addr := ip.di.addr, size := 0, mode := 0)
      ensures table == old(table)[ip.ino := ip.di]
      ensures SameHeader(old(dev.Contents()), d1) && dev.Contents() == WriteInode(d1, ip.ino, ip.di)
      ensures GaveUp(old(Now()), Now(), ip.ino, freed)
      ensures sb.ninode <= NICINOD && sb.InodeStack() == Returned(old(sb.InodeStack()), ip.ino)
      ensures sb.inodeTotal == (old(sb.inodeTotal) + 1) % 0x1_0000
      ensures Slots() == old(Slots())[ip.slot := Held(ip.ino, ip.di, ip.count, false)]
    {
      hide Represents, Consistent, WriteInode, GaveUp, NoBlocks, SameHeader, Returned;
      freed, d1 := DestroyInode(ip);
      assert forall j :: 0 <= j < CACHE_SIZE && j != ip.slot ==> Slots()[j] == old(Slots())[j];
    }

    /** Gives a reference back, be it to a live inode or to a dead one.  Only the last reference does anything: a
        linked inode is saved if dirty, an unlinked one is destroyed, its blocks and its number returned, even if
        it was dead before.  Either way the slot is emptied.  A cache that was in order stays so. */
    method Put(ip: MemINode) returns (ghost freed: seq<uint16>)
      requires Opened(ip)
      requires ip.count == 1 && ip.di.nlink == 0 ==> sb.nfree >= 1 || forall b :: b in owner ==> owner[b].ino != ip.ino
      modifies ip, `table, `owner, `live, sb`nfree, sb`freeTotal, sb`fmod, sb`chain, sb`list, sb`ninode,
          sb`inodeTotal, sb`rinode, sb.free, sb.inodes, dev.disk, used
      ensures BlocksOk() && sb.ninode <= NICINOD && (old(sb.nfree) >= 1 ==> sb.nfree >= 1)
      ensures old(Valid()) ==> Valid()
      ensures old(ip.count) >= 1 ==> GivenBack(old(Slots()), Slots(), ip.slot)
      ensures Slots() == old(Slots())[ip.slot := Dropped(old(Slots())[ip.slot])]
      ensures old(ip.count) == 1 ==>
                sb.InodeStack() == AfterLastPut(old(sb.InodeStack()), old(ip.di), old(ip.ino))
      ensures !(old(ip.count) == 1 && old(ip.di.nlink) == 0) ==>
                && table == old(table) && owner == old(owner) && live == old(live)
                && sb.list == old(sb.list) && sb.nfree == old(sb.nfree) && sb.InodeStack() == old(sb.InodeStack())
                && dev.Contents()[DATA_START_BLK..] == old(dev.Contents())[DATA_START_BLK..]
      ensures table == old(table)[old(ip.ino) := table[old(ip.ino)]]
      ensures old(ip.count) == 1 && old(ip.di.nlink) == 0 ==>
                && live == old(live) - {old(ip.ino)}
                && sb.inodeTotal == (old(sb.inodeTotal) + 1) % 0x1_0000
                && GaveUp(old(Now()), Now(), old(ip.ino), freed)
      ensures old(Valid()) && old(ip.count) == 1 && old(ip.di.nlink) == 0 ==>
                old(ip.ino) in old(live) && sb.InodeStack() == old(sb.InodeStack()) + [old(ip.ino)]
    {
      hide BlocksOk, CacheAndLife, WriteInode, GaveUp, NoBlocks, Represents, Cached, Returned, Valid, Slots;
      freed := [];
      SlotHolds(ip);
      if ip.count != 1 {
        PutOne(ip);
      } else if ip.di.nlink == 0 {
        freed := PutUnlinked(ip);
      } else {
        PutLinked(ip);
      }
    }

    // Gives back a reference just taken.
    method PutFetched(ip: MemINode)
      requires Fetched(ip)
      modifies ip, `table, `owner, `live, sb`nfree, sb`freeTotal, sb`fmod, sb`chain, sb`list, sb`ninode,
          sb`inodeTotal, sb`rinode, sb.free, sb.inodes, dev.disk, used
      ensures BlocksOk() && sb.ninode <= NICINOD && live == old(live) && sb.list == old(sb.list)
      ensures Valid() <==> old(ip.ino) in live
      ensures GivenBack(old(Slots()), Slots(), ip.slot)
      ensures Slots() == old(Slots())[ip.slot := Dropped(old(Slots())[ip.slot])]
      ensures old(ip.ino) in live ==>
                && table == old(table) && owner == old(owner)
                && sb.nfree == old(sb.nfree) && sb.InodeStack() == old(sb.InodeStack())
                && dev.Contents()[DATA_START_BLK..] == old(dev.Contents())[DATA_START_BLK..]
      ensures old(ip.ino) !in live ==> sb.InodeStack() == Returned(old(sb.InodeStack()), old(ip.ino))
    {
      hide BlocksOk, CacheAndLife, Valid, Slots, Cleared, Returned, Represents, Counted, GaveUp, GivenBack;
      ghost var total, dead, v0 := sb.inodeTotal, ip.ino !in live, Now();
      if dead {
        DeadLeaf(ip.di);
        OwnerOfNone(ip.ino);
      }
      ghost var freed := Put(ip);
      if dead {
        NothingGivenUp(v0, Now(), old(ip.ino), freed);
        assert live == old(live);
        Miscounted(total);
      }
    }

    method PutOne(ip: MemINode)
      requires Opened(ip) && ip.count != 1
      modifies ip`count
      ensures old(Valid()) ==> Valid()
      ensures Slots() == old(Slots())[ip.slot := old(Slots())[ip.slot].(count := (old(ip.count) - 1) % 0x1_0000)]
    {
      hide BlocksOk, CacheAndLife;
      ghost var slots0 := Slots();
      SlotHolds(ip);
      if Valid() {
        ReferencedIsLive(ip);
        CountKept(slots0, sb.InodeStack(), live, table, dev.Contents(), base, inodes, ip.slot,
            slots0[ip.slot].(count := ip.count - 1));
      }
      SetCount(ip, (ip.count - 1) % 0x1_0000);
    }

    method Unuse(ip: MemINode)
      requires Shape() && Mine(ip)
      modifies used, ip`count
      ensures Slots() == old(Slots())[ip.slot := Empty] && ip.count == 0
    {
      ip.count := 0;
      used[ip.slot] := false;
      assert forall j :: 0 <= j < CACHE_SIZE && j != ip.slot ==> Slots()[j] == old(Slots())[j];
    }

    method PutLinked(ip: MemINode)
      requires Opened(ip) && ip.count == 1 && ip.di.nlink != 0
      modifies ip, dev.disk, used
      ensures BlocksOk() && (old(Valid()) ==> Valid())
      ensures Slots() == old(Slots())[ip.slot := Empty]
      ensures dev.Contents()[DATA_START_BLK..] == old(dev.Contents())[DATA_START_BLK..]
    {
      hide BlocksOk, CacheAndLife, WriteInode;
      ghost var slots0, d0 := Slots(), dev.Contents();
      SlotHolds(ip);
      if ip.dirty {
        WriteInodeIsolated(d0, ip.ino, ip.di);
        FlushInSlot(ip);
      }
      Unuse(ip);
      ChangedTwice(slots0, ip.slot, slots0[ip.slot].(dirty := false), Empty);
      if old(Valid()) {
        ReleasedSlot(slots0, sb.InodeStack(), live, table, d0, base, inodes, ip.slot, dev.Contents());
      }
    }

    // Saves an inode; its slot is clean afterwards.
    method FlushInSlot(ip: MemINode)
      requires Opened(ip)
      modifies ip`dirty, dev.disk
      ensures BlocksOk() && dev.Contents() == WriteInode(old(dev.Contents()), ip.ino, ip.di)
      ensures Slots() == old(Slots())[ip.slot := old(Slots())[ip.slot].(dirty := false)]
    {
      hide BlocksOk, WriteInode;
      FlushInode(ip);
      assert forall j :: 0 <= j < CACHE_SIZE && j != ip.slot ==> Slots()[j] == old(Slots())[j];
    }

    method PutUnlinked(ip: MemINode) returns (ghost freed: seq<uint16>)
      requires Opened(ip) && ip.count == 1 && ip.di.nlink == 0
      requires sb.nfree >= 1 || forall b :: b in owner ==> owner[b].ino != ip.ino
      modifies ip, `table, `owner, `live, sb`nfree, sb`freeTotal, sb`fmod, sb`chain, sb`list, sb`ninode,
          sb`inodeTotal, sb`rinode, sb.free, sb.inodes, dev.disk, used
      ensures BlocksOk() && sb.ninode <= NICINOD && (old(sb.nfree) >= 1 ==> sb.nfree >= 1)
      ensures Slots() == old(Slots())[ip.slot := Empty]
      ensures ip.ino == old(ip.ino) && live == old(live) - {ip.ino} && table == old(table)[ip.ino := ip.di]
      ensures sb.InodeStack() == Returned(old(sb.InodeStack()), ip.ino)
      ensures sb.inodeTotal == (old(sb.inodeTotal) + 1) % 0x1_0000
      ensures GaveUp(old(Now()), Now(), ip.ino, freed)
      ensures old(Valid()) ==>
                Valid() && ip.ino in old(live) && sb.InodeStack() == old(sb.InodeStack()) + [ip.ino]
    {
      hide BlocksOk, CacheAndLife, WriteInode, GaveUp, NoBlocks, Slots, Represents, SameHeader, Counted, Cleared,
          Returned;
      ghost var slots0, d0, t0, stack0, live0 := Slots(), dev.Contents(), table, sb.InodeStack(), live;
      SlotHolds(ip);
      ReferencedIsLive(ip);
      ghost var d1;
      freed, d1 := DestroyInSlot(ip);
      live := live - {ip.ino};
      Unuse(ip);
      ChangedTwice(slots0, ip.slot, Held(ip.ino, ip.di, 1, false), Empty);
      if old(Valid()) {
        assert sb.InodeStack() == stack0 + [ip.ino] by {
          RoomForNumber(slots0, stack0, live0, t0, d0, base, inodes, ip.slot, ip.ino);
        }
        assert Counted(sb.inodeTotal, live, base) by { CountedGone(old(sb.inodeTotal), live0, base, ip.ino); }
        assert CacheAndLife(Slots(), sb.InodeStack(), live, table, dev.Contents(), base, inodes) by {
          ClearedNow(ip.di);
          DestroyedSlot(slots0, stack0, live0, t0, d0, base, inodes, ip.slot, ip.di, d1);
        }
      }
    }

    /** Creates an inode: a fresh number, a slot, an empty record with one link.  When the cache is full the
        number goes back to the stack. */
    method Alloc(mode: uint16, uid: uint16, gid: uint16, now: uint32) returns (ip: MemINode?)
      requires Valid()
      modifies cache, used, `table, `live, sb`ninode, sb`inodeTotal, sb`rinode, sb`fmod, sb.inodes
      ensures Valid()
      ensures ip == null <==> old(sb.InodeStack()) == [] || forall i :: 0 <= i < CACHE_SIZE ==> old(Slots())[i].Held?
      ensures ip == null ==>
                && Slots() == old(Slots()) && table == old(table) && live == old(live)
                && sb.InodeStack() == old(sb.InodeStack())
      ensures ip != null ==>
                && Mine(ip) && old(Slots())[ip.slot].Empty?
                && ip.ino < INODE_TOTAL && ip.ino !in old(live) && live == old(live) + {ip.ino}
                && old(sb.InodeStack()) == sb.InodeStack() + [ip.ino]
                && ip.di == NewInode(mode, uid, gid, now)
                && ip.di.mode == mode && ip.di.uid == uid && ip.di.gid == gid && ip.di.nlink == 1 && ip.di.size == 0
                && ip.di.atime == now && ip.di.mtime == now && ip.di.ctime == now && NoBlocks(ip.di.addr)
                && table == old(table)[ip.ino := ip.di]
                && Slots() == old(Slots())[ip.slot := Held(ip.ino, ip.di, 1, true)]
    {
      hide BlocksOk, CacheAndLife, NoBlocks, Cleared, Slots, Cached, Counted;
      ghost var slots0, stack0 := Slots(), sb.InodeStack();
      StackInRange(slots0, stack0, live, table, dev.Contents(), base, inodes);
      var ino := sb.IAlloc();
      if ino == INVALID_BLK {
        return null;
      }
      CountedMore(old(sb.inodeTotal), sb.InodeStack(), live, slots0, table, dev.Contents(), base, inodes, ino);
      ip := CacheAlloc();
      if ip == null {
        sb.IFree(ino);
        return;
      }
      Fill(ip, ino, NewInode(mode, uid, gid, now));
      assert Slots() == slots0[ip.slot := Held(ino, ip.di, 1, true)];
      Created(slots0, sb.InodeStack(), ino, live, table, dev.Contents(), base, inodes, ip.slot, ip.di);
      NewInodeEmpty(mode, uid, gid, now);
      OwnsNothing(table[ino]);
      Install(ino, ip.di);
      live := live + {ino};
    }

    // An inode without blocks replaces another in the table.
    ghost method Install(ino: uint16, di: DInode)
      requires BlocksOk() && ino < INODE_TOTAL && NoBlocks(table[ino].addr) && NoBlocks(di.addr)
      modifies `table
      ensures BlocksOk() && table == old(table)[ino := di]
    {
      hide Represents, Consistent, NoBlocks;
      ghost var v0 := Now();
      table := table[ino := di];
      ConsistentSameTrees(v0, v0.d, table);
    }

    method Fill(ip: MemINode, ino: uint16, di: DInode)
      requires Shape() && Mine(ip)
      modifies ip
      ensures ip.di == di && ip.ino == ino && Slots() == old(Slots())[ip.slot := Held(ino, di, 1, true)]
    {
      ip.di, ip.ino, ip.count, ip.dirty := di, ino, 1, true;
      assert forall j :: 0 <= j < CACHE_SIZE && j != ip.slot ==> Slots()[j] == old(Slots())[j];
    }
  }
}
