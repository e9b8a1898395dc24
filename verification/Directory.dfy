/** The directory manager: reading and rewriting a directory file, its entries, and path resolution. */
module Directories {
  import opened Bytes
  import opened BlockDevices
  import opened FreeLists
  import opened SuperImages
  import opened InodeTrees
  import opened InodeViews
  import opened InodeCaches
  import opened InodeLives
  import opened InodeManagers
  import opened InodeGrowths
  import opened FileContents
  import opened FileGrowths
  import opened DirEntries
  import opened DirFiles
  import opened Paths
  import opened SystemDirs

  class DirectoryManager {
    const dev: BlockDevice
    const imng: InodeManager

    ghost predicate Shape() {
      imng.Shape() && imng.dev == dev
    }

    constructor (dev: BlockDevice, imng: InodeManager)
      requires imng.Shape() && imng.dev == dev
      ensures Shape() && this.dev == dev && this.imng == imng
    {
      this.dev, this.imng := dev, imng;
    }

    // ---------- directory data ----------

    /** Reads the whole directory; fails exactly when a block below its size is unmapped. */
    method ReadDirData(ip: MemINode) returns (ok: bool, entries: seq<DirEntry>)
      requires Shape() && imng.BlocksOk() && ip.ino < INODE_TOTAL && imng.table[ip.ino] == ip.di
      ensures ok == Readable(ip.di, dev.Contents())
      ensures ok ==> entries == EntriesOf(ip.di, dev.Contents())
    {
      hide Consistent, Represents, Mapped, FileBytes, Parse, NoHole, DirReading;
      var size := ip.di.size;
      var bytes: seq<byte>, l := [], 0;
      DirReadingStart(ip.di.addr, dev.Contents(), size);
      while l * BLOCK_SIZE < size
        invariant 0 <= l && |bytes| <= size / ENTRY_SIZE * ENTRY_SIZE
        invariant DirReading(ip.di.addr, dev.Contents(), size, l, bytes)
      {
        var phys := imng.Bmap(ip, l);
        MappedInRange(imng.Now(), ip.ino, l);
        if phys == 0 || phys == INVALID_BLK {
          HoleFound(ip.di.addr, dev.Contents(), size, l);
          return false, [];
        }
        var _, buf := dev.ReadBlock(DATA_START_BLK + phys, ZERO_BLOCK);
        var chunk := Min(ENTRIES_PER_BLK * ENTRY_SIZE, size / ENTRY_SIZE * ENTRY_SIZE - |bytes|);
        DirReadingStep(ip.di.addr, dev.Contents(), size, l, bytes, buf, chunk);
        bytes := bytes + buf[..chunk];
        l := l + 1;
      }
      DirReadingEnd(ip.di.addr, dev.Contents(), size, l, bytes);
      return true, Parse(bytes);
    }

    /** Maps block l of the directory and stores one block of entries in it. */
    method WriteDirBlock(ip: MemINode, l: nat, blk: Block, ghost padded: seq<byte>, ghost v0: View) returns (ok: bool)
      requires Shape() && imng.BlocksOk() && ip.ino < INODE_TOTAL && imng.table[ip.ino] == ip.di
      requires (l + 1) * BLOCK_SIZE <= |padded| && blk == padded[l * BLOCK_SIZE..(l + 1) * BLOCK_SIZE]
      requires Storing(v0, imng.Now(), ip.ino, 0, padded[..l * BLOCK_SIZE], l)
      modifies ip`di, ip`dirty, imng`table, imng`owner, imng.sb`nfree, imng.sb`freeTotal, imng.sb`fmod,
          imng.sb`chain, imng.sb`list, imng.sb.free, dev.disk
      ensures imng.BlocksOk() && imng.table[ip.ino] == ip.di
      ensures (ip.dirty || (ip.di == old(ip.di) && ip.dirty == old(ip.dirty)))
      ensures ok ==> Storing(v0, imng.Now(), ip.ino, 0, padded[..(l + 1) * BLOCK_SIZE], l + 1)
      ensures !ok ==> Stopped(v0, imng.Now(), ip.ino, 0, padded[..l * BLOCK_SIZE], l)
      ensures !ok ==> Mapped(v0.t[ip.ino].addr, v0.d, l) == 0 && (imng.sb.list == [] || l >= MAX_BLOCKS)
      ensures imng.sb.nfree >= 1 <==> old(imng.sb.nfree) >= 1 && (ok || l >= MAX_BLOCKS)
    {
      hide Consistent, Storing, Stopped, Reached, Filled, Grew, Represents, Missing, Mapped;
      ghost var v, data := imng.Now(), padded[..l * BLOCK_SIZE];
      StoringConsistent(v0, v, ip.ino, 0, data, l);
      var phys := imng.BmapAlloc(ip, l);
      ghost var v1 := imng.Now();
      if phys == INVALID_BLK {
        StoringFailed(v0, v, v1, ip.ino, 0, data, l);
        HoleAtStart(v0, v, ip.ino, 0, data, l);
        return false;
      }
      StoringMapped(v0, v, v1, ip.ino, 0, data, l, phys);
      StoreDirBlock(ip, phys, l, blk, padded, v0);
      ok := true;
    }

    method StoreDirBlock(ip: MemINode, phys: uint16, l: nat, blk: Block, ghost padded: seq<byte>, ghost v0: View)
      requires Shape() && imng.BlocksOk() && ip.ino < INODE_TOTAL && imng.table[ip.ino] == ip.di && l < MAX_BLOCKS
      requires (l + 1) * BLOCK_SIZE <= |padded| && blk == padded[l * BLOCK_SIZE..(l + 1) * BLOCK_SIZE]
      requires phys != 0 && phys == Mapped(ip.di.addr, dev.Contents(), l)
      requires Storing(v0, imng.Now(), ip.ino, 0, padded[..l * BLOCK_SIZE], l + 1)
      modifies dev.disk
      ensures imng.BlocksOk()
      ensures Storing(v0, imng.Now(), ip.ino, 0, padded[..(l + 1) * BLOCK_SIZE], l + 1)
    {
      hide Consistent, Storing, Represents, Mapped;
      ghost var v, data := imng.Now(), padded[..l * BLOCK_SIZE];
      StoringStored(v0, v, ip.ino, 0, data, phys, blk);
      assert Patch(DataBlock(v.d, phys), 0, blk) == blk;
      imng.WriteData(phys, blk);
      assert data + blk == padded[..(l + 1) * BLOCK_SIZE];
      StoringConsistent(v0, imng.Now(), ip.ino, 0, padded[..(l + 1) * BLOCK_SIZE], l + 1);
    }

    /** Stores the entries block by block, mapping blocks on the way; stops at the first that cannot be mapped. */
    method WriteBlocks(ip: MemINode, entries: seq<DirEntry>) returns (l: nat)
      requires Shape() && imng.BlocksOk() && ip.ino < INODE_TOTAL && imng.table[ip.ino] == ip.di
      modifies ip`di, ip`dirty, imng`table, imng`owner, imng.sb`nfree, imng.sb`freeTotal, imng.sb`fmod,
          imng.sb`chain, imng.sb`list, imng.sb.free, dev.disk
      ensures imng.BlocksOk() && imng.table[ip.ino] == ip.di
      ensures (ip.dirty || (ip.di == old(ip.di) && ip.dirty == old(ip.dirty)))
      ensures l <= BlocksFor(|entries| * ENTRY_SIZE) && l * BLOCK_SIZE <= |Padded(entries)|
      ensures l == BlocksFor(|entries| * ENTRY_SIZE) ==>
                Storing(old(imng.Now()), imng.Now(), ip.ino, 0, Padded(entries)[..l * BLOCK_SIZE], l)
      ensures l < BlocksFor(|entries| * ENTRY_SIZE) ==>
                && Stopped(old(imng.Now()), imng.Now(), ip.ino, 0, Padded(entries)[..l * BLOCK_SIZE], l)
                && Mapped(old(ip.di.addr), old(dev.Contents()), l) == 0
                && (imng.sb.list == [] || l >= MAX_BLOCKS)
      ensures imng.sb.nfree >= 1 <==>
                old(imng.sb.nfree) >= 1 && (l == BlocksFor(|entries| * ENTRY_SIZE) || l >= MAX_BLOCKS)
    {
      hide Consistent, Storing, Stopped, Represents, Mapped, Pack, Padded, Patch;
      ghost var v0, padded := imng.Now(), Padded(entries);
      var bytes := Pack(entries);
      StoringStart(v0, ip.ino, 0);
      assert padded[..0] == [];
      l := 0;
      while l < BlocksFor(|entries| * ENTRY_SIZE)
        invariant l <= BlocksFor(|entries| * ENTRY_SIZE)
        invariant imng.BlocksOk() && imng.table[ip.ino] == ip.di
        invariant (ip.dirty || (ip.di == old(ip.di) && ip.dirty == old(ip.dirty)))
        invariant Storing(v0, imng.Now(), ip.ino, 0, padded[..l * BLOCK_SIZE], l)
        invariant imng.sb.nfree >= 1 <==> old(imng.sb.nfree) >= 1
      {
        var chunk := Min(ENTRIES_PER_BLK * ENTRY_SIZE, |entries| * ENTRY_SIZE - l * BLOCK_SIZE);
        PaddedBlock(entries, l, chunk);
        var blk := Patch(ZERO_BLOCK, 0, bytes[l * BLOCK_SIZE..l * BLOCK_SIZE + chunk]);
        var ok := WriteDirBlock(ip, l, blk, padded, v0);
        if !ok {
          return;
        }
        l := l + 1;
      }
    }

    method SetSize(ip: MemINode, size: uint32)
      requires imng.BlocksOk() && ip.ino < INODE_TOTAL && imng.table[ip.ino] == ip.di
      modifies ip`di, ip`dirty, imng`table
      ensures imng.BlocksOk() && ip.dirty && ip.di == old(ip.di).(size := size)
      ensures imng.table == old(imng.table)[ip.ino := ip.di]
    {
      hide Consistent, Represents;
      ghost var v := imng.Now();
      ip.di := ip.di.(size := size);
      ip.dirty := true;
      imng.table := imng.table[ip.ino := ip.di];
      ConsistentSameTrees(v, v.d, imng.table);
    }

    /** Rewrites the whole directory.  It fails exactly when there is no room for the blocks of the new one,
        and then the size stays, so that entries that were not to change read as before. */
    method WriteDirData(ip: MemINode, entries: seq<DirEntry>) returns (ok: bool)
      requires Shape() && imng.BlocksOk() && ip.ino < INODE_TOTAL && imng.table[ip.ino] == ip.di
      requires Readable(ip.di, dev.Contents()) && |entries| * ENTRY_SIZE < 0x1_0000_0000
      modifies ip`di, ip`dirty, imng`table, imng`owner, imng.sb`nfree, imng.sb`freeTotal, imng.sb`fmod,
          imng.sb`chain, imng.sb`list, imng.sb.free, dev.disk
      ensures imng.BlocksOk() && (ip.dirty || (ip.di == old(ip.di) && ip.dirty == old(ip.dirty)))
      ensures ip.di == old(ip.di).(addr := ip.di.addr, size := ip.di.size)
      ensures imng.table == old(imng.table)[ip.ino := ip.di]
      ensures Readable(ip.di, dev.Contents())
      ensures ok <==> RoomTo(old(imng.Now()), ip.ino, 0, BlocksFor(|entries| * ENTRY_SIZE))
      ensures ok ==> EntriesOf(ip.di, dev.Contents()) == entries
      ensures ok ==> TookBlocks(old(imng.Now()), imng.Now(), ip.ino, 0, BlocksFor(|entries| * ENTRY_SIZE))
      ensures !ok ==> DirNotGrown(old(EntriesOf(ip.di, dev.Contents())), EntriesOf(ip.di, dev.Contents()), entries)
      ensures !ok ==> imng.sb.list == [] || |entries| * ENTRY_SIZE > MAX_BLOCKS * BLOCK_SIZE
      ensures LinkSlotKept(old(imng.sb.nfree), imng.sb.nfree, ok, |entries|)
      ensures SameHeader(old(dev.Contents()), dev.Contents()) && OthersKept(old(imng.Now()), imng.Now(), ip.ino)
    {
      hide Consistent, Represents, Mapped, Pack, Padded, Parse, NoHole, OthersKept, SameHeader, Storing, Stopped,
          Writing, Written, FileBytes, RoomTo, Needed;
      ghost var v0 := imng.Now();
      var l := WriteBlocks(ip, entries);
      ghost var v1 := imng.Now();
      if l < BlocksFor(|entries| * ENTRY_SIZE) {
        StoppedWriting(v0, v1, ip.ino, 0, Padded(entries)[..l * BLOCK_SIZE], l);
        StoppedShort(v0, v1, ip.ino, 0, Padded(entries)[..l * BLOCK_SIZE], l, BlocksFor(|entries| * ENTRY_SIZE));
        WritingParts(v0, v1, ip.ino, 0, Padded(entries)[..l * BLOCK_SIZE]);
        DirWriteStopped(v0.t[ip.ino].addr, v0.d, v0.t[ip.ino].size, ip.di.addr, v1.d, entries, l);
        return false;
      }
      assert Padded(entries)[..l * BLOCK_SIZE] == Padded(entries);
      StoringConsistent(v0, v1, ip.ino, 0, Padded(entries), l);
      StoringTook(v0, v1, ip.ino, 0, Padded(entries), l);
      WritingParts(v0, v1, ip.ino, 0, Padded(entries));
      WholeDirWritten(v0.t[ip.ino].addr, v0.d, ip.di.addr, v1.d, entries);
      SetSize(ip, |entries| * ENTRY_SIZE);
      OthersKeptSame(v0, v1, imng.Now(), ip.ino);
      return true;
    }

    // ---------- on a cached inode ----------

    /** The entries of an open directory. */
    ghost function Listing(ip: MemINode): seq<DirEntry>
      requires Shape()
      reads ip, dev.disk
    {
      EntriesOf(ip.di, dev.Contents())
    }

    ghost predicate CanRead(ip: MemINode)
      requires Shape()
      reads ip, dev.disk
    {
      Readable(ip.di, dev.Contents())
    }

    method ReadDir(ip: MemINode) returns (ok: bool, entries: seq<DirEntry>)
      requires Shape() && imng.Valid() && imng.Mine(ip)
      ensures ok == CanRead(ip) && (ok ==> entries == Listing(ip))
      ensures ok ==> (|entries| + 1) * ENTRY_SIZE < 0x1_0000_0000
    {
      hide InodeManager.BlocksOk, CacheAndLife, NoHole, FileBytes, Parse;
      imng.SlotHolds(ip);
      HeldFacts(imng.Slots(), imng.sb.InodeStack(), imng.live, imng.table, dev.Contents(), imng.base, imng.inodes,
          ip.slot);
      ok, entries := ReadDirData(ip);
      if ok {
        ReadableBound(ip.di.addr, dev.Contents(), ip.di.size);
      }
    }

    /** Rewrites an open directory and keeps everything the inode layer promises. */
    method StoreDir(ip: MemINode, entries: seq<DirEntry>) returns (r: int)
      requires Shape() && imng.Valid() && imng.Mine(ip) && CanRead(ip) && |entries| * ENTRY_SIZE < 0x1_0000_0000
      modifies ip`di, ip`dirty, imng`table, imng`owner, imng.sb`nfree, imng.sb`freeTotal, imng.sb`fmod,
          imng.sb`chain, imng.sb`list, imng.sb.free, dev.disk
      ensures imng.Valid() && CanRead(ip) && (r == 0 || r == -1) && ip.ino < INODE_TOTAL
      ensures r == 0 <==> old(RoomTo(imng.Now(), ip.ino, 0, BlocksFor(|entries| * ENTRY_SIZE)))
      ensures r == 0 ==> TookBlocks(old(imng.Now()), imng.Now(), ip.ino, 0, BlocksFor(|entries| * ENTRY_SIZE))
      ensures r == 0 ==> Listing(ip) == entries
      ensures r == -1 ==> DirNotGrown(old(Listing(ip)), Listing(ip), entries)
      ensures r == -1 ==> imng.sb.list == [] || |entries| * ENTRY_SIZE > MAX_BLOCKS * BLOCK_SIZE
      ensures LinkSlotKept(old(imng.sb.nfree), imng.sb.nfree, r == 0, |entries|)
      ensures ip.di == old(ip.di).(addr := ip.di.addr, size := ip.di.size)
      ensures imng.Slots() == old(imng.Slots())[ip.slot := Held(ip.ino, ip.di, ip.count, ip.dirty)]
      ensures ip.ino < INODE_TOTAL && imng.table == old(imng.table)[ip.ino := ip.di]
      ensures OthersKept(old(imng.Now()), imng.Now(), ip.ino)
    {
      hide InodeManager.BlocksOk, CacheAndLife, OthersKept, Represents, Readable, EntriesOf, DirNotGrown, RoomTo,
          TookBlocks;
      ghost var slots0, v0, stack0 := imng.Slots(), imng.Now(), imng.sb.InodeStack();
      imng.SlotHolds(ip);
      imng.ReferencedIsLive(ip);
      var ok := WriteDirData(ip, entries);
      r := if ok then 0 else -1;
      assert forall j :: 0 <= j < CACHE_SIZE && j != ip.slot ==> imng.Slots()[j] == slots0[j];
      ghost var x := Held(ip.ino, ip.di, ip.count, ip.dirty);
      Modified(slots0, stack0, imng.live, v0.t, v0.d, imng.base, imng.inodes, ip.slot, x, dev.Contents());
      assert imng.Slots() == slots0[ip.slot := x];
      assert imng.table == v0.t[x.ino := x.di];
      assert imng.sb.InodeStack() == stack0;
    }

    // ---------- entries ----------

    /** The first live entry with the given name, or the number of entries. */
    method FindName(entries: seq<DirEntry>, name: seq<byte>) returns (i: nat)
      ensures i <= |entries| && forall j :: 0 <= j < i ==> !Matches(entries[j], Key(name))
      ensures i < |entries| ==>
                Matches(entries[i], Key(name)) && Key(name) in Dir(entries) && Dir(entries)[Key(name)] == entries[i].ino
      ensures i == |entries| ==> Key(name) !in Dir(entries)
    {
      hide Key, Dir;
      i := 0;
      while i < |entries|
        invariant i <= |entries| && forall j :: 0 <= j < i ==> !Matches(entries[j], Key(name))
      {
        if entries[i].ino != 0 {
          var same := SameName(entries[i].name, name);
          if same {
            FirstMatch(entries, Key(name), i);
            return;
          }
        }
        i := i + 1;
      }
      NoMatch(entries, Key(name));
    }

    /** The inode number of a name, read off the directory's map. */
    method Lookup(ip: MemINode, name: seq<byte>) returns (ino: uint16)
      requires Shape() && imng.Valid() && imng.Mine(ip)
      ensures ino == Found(ip.di, dev.Contents(), Key(name))
    {
      hide InodeManager.Valid, Readable, EntriesOf, Dir, Key;
      var ok, entries := ReadDir(ip);
      if !ok {
        return INVALID_BLK;
      }
      var i := FindName(entries, name);
      ino := if i < |entries| then entries[i].ino else INVALID_BLK;
    }

    /** The directory cannot be read, has the name, or has neither a free slot nor room for a new entry. */
    ghost predicate CannotLink(ip: MemINode, name: seq<byte>)
      requires Shape()
      reads ip, imng`table, imng`owner, imng`lo, imng.sb`list, dev.disk
    {
      || !CanRead(ip) || Key(name) in Dir(Listing(ip))
      || (NoFreeSlot(Listing(ip)) && (ip.ino < INODE_TOTAL ==> !RoomForEntry(imng.Now(), ip.ino, |Listing(ip)|)))
    }

    /** Adds one name.  It takes the first free slot, or else a new entry at the end.  A failed link leaves
        the directory as it was. */
    method Link(ip: MemINode, name: seq<byte>, ino: uint16) returns (r: int)
      requires Shape() && imng.Valid() && imng.Mine(ip) && ino != 0
      modifies ip`di, ip`dirty, imng`table, imng`owner, imng.sb`nfree, imng.sb`freeTotal, imng.sb`fmod,
          imng.sb`chain, imng.sb`list, imng.sb.free, dev.disk
      ensures imng.Valid() && (r == 0 || r == -1)
      ensures r == -1 <==> old(CannotLink(ip, name))
      ensures r == 0 ==> old(CanRead(ip)) && Key(name) !in old(Dir(Listing(ip)))
      ensures r == 0 ==> CanRead(ip) && Listing(ip) == Linked(old(Listing(ip)), DirEntry(Key(name), ino))
      ensures r == 0 ==> Dir(Listing(ip)) == old(Dir(Listing(ip)))[Key(name) := ino]
      ensures r == 0 && !NoFreeSlot(old(Listing(ip))) ==> imng.sb.list == old(imng.sb.list)
      ensures r == 0 && NoFreeSlot(old(Listing(ip))) ==>
                TookEntry(old(imng.Now()), imng.Now(), ip.ino, |old(Listing(ip))|)
      ensures LinkSlotKept(old(imng.sb.nfree), imng.sb.nfree,
                  r == 0 || !old(CanRead(ip)) || Key(name) in old(Dir(Listing(ip))), |old(Listing(ip))| + 1)
      ensures r == -1 && old(CanRead(ip)) ==> CanRead(ip) && Listing(ip) == old(Listing(ip))
      ensures old(CanRead(ip)) && UniqueNames(old(Listing(ip))) ==> UniqueNames(Listing(ip))
      ensures ip.di == old(ip.di).(addr := ip.di.addr, size := ip.di.size)
      ensures imng.Slots() == old(imng.Slots())[ip.slot := Held(ip.ino, ip.di, ip.count, ip.dirty)]
      ensures ip.ino < INODE_TOTAL && imng.table == old(imng.table)[ip.ino := ip.di]
      ensures OthersKept(old(imng.Now()), imng.Now(), ip.ino)
    {
      hide InodeManager.Valid, Readable, EntriesOf, Dir, Key, UniqueNames, OthersKept, FreeIndex, DirNotGrown, RoomTo,
          TookBlocks, RoomForEntry, TookEntry;
      InoInRange(ip);
      var ok, entries := ReadDir(ip);
      if !ok {
        return -1;
      }
      var i := FindName(entries, name);
      if i < |entries| {
        return -1;
      }
      KeyIdempotent(name);
      r := AddEntry(ip, entries, DirEntry(Key(name), ino));
    }

    // The name is new.
    method AddEntry(ip: MemINode, entries: seq<DirEntry>, e: DirEntry) returns (r: int)
      requires Shape() && imng.Valid() && imng.Mine(ip) && CanRead(ip) && entries == Listing(ip)
      requires (|entries| + 1) * ENTRY_SIZE < 0x1_0000_0000
      requires e.ino != 0 && Key(e.name) !in Dir(entries)
      modifies ip`di, ip`dirty, imng`table, imng`owner, imng.sb`nfree, imng.sb`freeTotal, imng.sb`fmod,
          imng.sb`chain, imng.sb`list, imng.sb.free, dev.disk
      ensures imng.Valid() && (r == 0 || r == -1) && CanRead(ip)
      ensures ip.ino < INODE_TOTAL
      ensures r == -1 <==> NoFreeSlot(entries) && !RoomForEntry(old(imng.Now()), ip.ino, |entries|)
      ensures r == 0 ==> Listing(ip) == Linked(entries, e) && Dir(Listing(ip)) == Dir(entries)[Key(e.name) := e.ino]
      ensures r == 0 && !NoFreeSlot(entries) ==> imng.sb.list == old(imng.sb.list)
      ensures r == 0 && NoFreeSlot(entries) ==> TookEntry(old(imng.Now()), imng.Now(), ip.ino, |entries|)
      ensures LinkSlotKept(old(imng.sb.nfree), imng.sb.nfree, r == 0, |entries| + 1)
      ensures r == -1 ==> Listing(ip) == entries
      ensures UniqueNames(entries) ==> UniqueNames(Listing(ip))
      ensures ip.di == old(ip.di).(addr := ip.di.addr, size := ip.di.size)
      ensures imng.Slots() == old(imng.Slots())[ip.slot := Held(ip.ino, ip.di, ip.count, ip.dirty)]
      ensures imng.table == old(imng.table)[ip.ino := ip.di] && OthersKept(old(imng.Now()), imng.Now(), ip.ino)
    {
      hide InodeManager.Valid, Dir, Key, UniqueNames, OthersKept, FreeIndex, DirNotGrown, RoomTo, TookBlocks,
          RoomForEntry, TookEntry, NoHole, Parse, FileBytes;
      InoInRange(ip);
      ghost var v := imng.Now();
      LinkedDir(entries, e);
      if UniqueNames(entries) {
        LinkedUnique(entries, e);
      }
      var free := FreeIndex(entries);
      if free < |entries| {
        r := StoreDir(ip, entries[free := e]);
        RoomInPlace(v, imng.Now(), ip.ino, |entries|);
      } else {
        r := StoreDir(ip, entries + [e]);
        RoomForOneMore(v, imng.Now(), ip.ino, |entries|);
      }
      NotGrown(entries, Listing(ip), Linked(entries, e), e, r);
    }

    /** Removes one name, leaving a free slot. */
    method Unlink(ip: MemINode, name: seq<byte>) returns (r: int, ghost at: nat)
      requires Shape() && imng.Valid() && imng.Mine(ip)
      modifies ip`di, ip`dirty, imng`table, imng`owner, imng.sb`nfree, imng.sb`freeTotal, imng.sb`fmod,
          imng.sb`chain, imng.sb`list, imng.sb.free, dev.disk
      ensures imng.Valid() && (r == 0 || r == -1)
      ensures r == 0 <==> old(CanRead(ip)) && Key(name) in old(Dir(Listing(ip)))
      ensures old(CanRead(ip)) ==> CanRead(ip) && |Listing(ip)| == |old(Listing(ip))|
      ensures imng.sb.list == old(imng.sb.list) && (imng.sb.nfree >= 1 <==> old(imng.sb.nfree) >= 1)
      ensures r == 0 && UniqueNames(old(Listing(ip))) ==>
                Dir(Listing(ip)) == old(Dir(Listing(ip))) - {Key(name)} && UniqueNames(Listing(ip))
      ensures r == 0 ==> FirstCleared(old(Listing(ip)), Listing(ip), name, at)
      ensures r == -1 && old(CanRead(ip)) ==> Listing(ip) == old(Listing(ip))
      ensures ip.di == old(ip.di).(addr := ip.di.addr, size := ip.di.size)
      ensures imng.Slots() == old(imng.Slots())[ip.slot := Held(ip.ino, ip.di, ip.count, ip.dirty)]
      ensures ip.ino < INODE_TOTAL && imng.table == old(imng.table)[ip.ino := ip.di]
      ensures OthersKept(old(imng.Now()), imng.Now(), ip.ino)
    {
      hide InodeManager.Valid, Dir, Key, UniqueNames, FirstCleared, OthersKept, DirNotGrown, RoomTo, TookBlocks,
          NoHole, Parse, FileBytes;
      ghost var v := imng.Now();
      at := 0;
      InoInRange(ip);
      var ok, entries := ReadDir(ip);
      if !ok {
        return -1, at;
      }
      var i := FindName(entries, name);
      at := i;
      if i == |entries| {
        return -1, at;
      }
      if UniqueNames(entries) {
        ClearedDir(entries, i);
      }
      assert FirstCleared(entries, entries[i := FREE_ENTRY], name, i) by { ClearedFirst(entries, name, i); }
      r := StoreDir(ip, entries[i := FREE_ENTRY]);
      RoomInPlace(v, imng.Now(), ip.ino, |entries|);
      SameLength(entries, Listing(ip), entries[i := FREE_ENTRY], r);
    }

    lemma InoInRange(ip: MemINode)
      requires Shape() && imng.Valid() && imng.Mine(ip)
      ensures ip.ino < INODE_TOTAL && imng.table == imng.table[ip.ino := ip.di]
      ensures OthersKept(imng.Now(), imng.Now(), ip.ino)
      ensures imng.Slots() == imng.Slots()[ip.slot := Held(ip.ino, ip.di, ip.count, ip.dirty)]
    {
      hide InodeManager.BlocksOk, CacheAndLife;
      imng.SlotHolds(ip);
      HeldFacts(imng.Slots(), imng.sb.InodeStack(), imng.live, imng.table, dev.Contents(), imng.base, imng.inodes,
          ip.slot);
    }

    lemma NotGrown(before: seq<DirEntry>, after: seq<DirEntry>, wanted: seq<DirEntry>, e: DirEntry, r: int)
      requires wanted == Linked(before, e)
      requires r == -1 ==> DirNotGrown(before, after, wanted)
      ensures r == -1 ==> after == before && FreeIndex(before) == |before| && |wanted| == |before| + 1
    {
    }

    lemma SameLength(before: seq<DirEntry>, after: seq<DirEntry>, wanted: seq<DirEntry>, r: int)
      requires |wanted| == |before| && (r == -1 ==> DirNotGrown(before, after, wanted))
      ensures r != -1
    {
    }

    /** Writes the two entries of a new directory. */
    method InitDir(ip: MemINode, self: uint16, parent: uint16) returns (r: int)
      requires Shape() && imng.Valid() && imng.Mine(ip) && ip.di.size == 0
      modifies ip`di, ip`dirty, imng`table, imng`owner, imng.sb`nfree, imng.sb`freeTotal, imng.sb`fmod,
          imng.sb`chain, imng.sb`list, imng.sb.free, dev.disk
      ensures imng.Valid() && CanRead(ip)
      ensures r == 0 ==> Listing(ip) == Dots(self, parent)
      ensures r == 0 && self != 0 && parent != 0 ==>
                Dir(Listing(ip)) == map[Key([0x2E]) := self, Key([0x2E, 0x2E]) := parent]
      ensures r == -1 ==> Listing(ip) == [] && imng.sb.list == []
      ensures imng.sb.nfree >= 1 <==> old(imng.sb.nfree) >= 1 && r == 0
      ensures (r == 0 || r == -1) && UniqueNames(Listing(ip)) && ip.ino < INODE_TOTAL
      ensures r == 0 <==> old(RoomForEntry(imng.Now(), ip.ino, 0))
      ensures r == 0 ==> TookEntry(old(imng.Now()), imng.Now(), ip.ino, 0)
      ensures ip.di == old(ip.di).(addr := ip.di.addr, size := ip.di.size)
      ensures imng.Slots() == old(imng.Slots())[ip.slot := Held(ip.ino, ip.di, ip.count, ip.dirty)]
      ensures ip.ino < INODE_TOTAL && imng.table == old(imng.table)[ip.ino := ip.di]
      ensures OthersKept(old(imng.Now()), imng.Now(), ip.ino)
    {
      hide InodeManager.Valid, InodeManager.Slots, Key, OthersKept, Readable, EntriesOf, RoomTo, TookBlocks,
          RoomForEntry, TookEntry, DirNotGrown, UniqueNames;
      ghost var v := imng.Now();
      var entries := Dots(self, parent);
      InoInRange(ip);
      NothingListed(ip.di, dev.Contents());
      r := StoreDir(ip, entries);
      RoomForFirst(v, imng.Now(), ip.ino);
      DotsUnique(self, parent, Listing(ip), r);
      if self != 0 && parent != 0 {
        DotsNamed(self, parent);
      }
    }

    lemma NothingListed(di: DInode, d: Image)
      requires di.size == 0
      ensures Readable(di, d) && EntriesOf(di, d) == []
    {
    }

    lemma DotsUnique(self: uint16, parent: uint16, after: seq<DirEntry>, r: int)
      requires r == 0 ==> after == Dots(self, parent)
      requires r == -1 ==> DirNotGrown([], after, Dots(self, parent))
      ensures r == -1 ==> after == []
      ensures r == 0 || r == -1 ==> UniqueNames(after)
    {
      KeysDiffer();
      KeyIdempotent(DOT);
      KeyIdempotent(DOT_DOT);
      hide Key;
    }

    // ---------- path resolution ----------

    /** Nothing but the inode cache's slots and counts was touched, and those are as they were. */
    twostate predicate Untouched()
      requires Shape() && imng.sb.ninode <= NICINOD && old(imng.sb.ninode <= NICINOD)
      reads imng, imng.sb, imng.sb.inodes, imng.used, imng.cache, dev.disk
    {
      && imng.Slots() == old(imng.Slots())
      && imng.table == old(imng.table) && imng.owner == old(imng.owner) && imng.live == old(imng.live)
      && imng.sb.list == old(imng.sb.list) && imng.sb.nfree == old(imng.sb.nfree)
      && imng.sb.InodeStack() == old(imng.sb.InodeStack())
      && dev.Contents()[DATA_START_BLK..] == old(dev.Contents())[DATA_START_BLK..]
    }

    /** One step of a walk: takes a reference, looks the name up if this is a directory, and gives the
        reference back.  It finds what the maps say.  At a live inode no reference count, no inode and no data block
        changes; a dead one is destroyed a second time, and its number returned once more. */
    method StepInto(cur: uint16, name: seq<byte>) returns (next: uint16)
      requires Shape() && imng.Valid() && CountsLow(imng.Slots())
      modifies imng`table, imng`owner, imng`live, imng.cache, imng.used, imng.sb`nfree, imng.sb`freeTotal, imng.sb`fmod,
          imng.sb`chain, imng.sb`list, imng.sb`ninode, imng.sb`inodeTotal, imng.sb`rinode, imng.sb.free, imng.sb.inodes,
          dev.disk
      ensures next == Step(old(imng.table), old(dev.Contents()), cur, name)
      ensures imng.BlocksOk() && imng.sb.ninode <= NICINOD && imng.live == old(imng.live)
      ensures imng.Valid() <==> Startable(cur)
      ensures Startable(cur) ==> Untouched()
      ensures !Startable(cur) ==>
                next == INVALID_BLK && imng.sb.InodeStack() == Returned(old(imng.sb.InodeStack()), cur)
    {
      hide InodeManager.Valid, InodeManager.BlocksOk, InodeManager.Slots, Found, Key, Cached, Counted, CountsLow,
          CountsUp, Cleared, Returned;
      CountsPositive();
      imng.NeverFull();
      imng.ValidIsConsistent();
      ghost var slots0 := imng.Slots();
      var ip := imng.Get(cur);
      if ip == null {
        return INVALID_BLK;
      }
      imng.SlotHolds(ip);
      ghost var slots1, s := imng.Slots(), ip.slot;
      NoType(ip.di);
      if ip.di.mode / MODE_DIR % 2 == 1 {
        next := Lookup(ip, name);
      } else {
        next := INVALID_BLK;
      }
      imng.PutFetched(ip);
      BackAgain(slots0, slots1, imng.Slots(), s, cur, slots1[s].di);
    }

    lemma NoType(di: DInode)
      ensures Cleared(di) ==> !IsDirectory(di) && di.nlink == 0
    {
    }

    lemma CountsPositive()
      requires Shape() && imng.Valid()
      ensures CountsUp(imng.Slots())
    {
      hide InodeManager.BlocksOk;
    }

    /** namei: walks the names of a path from the root or the current directory, and finds what the maps say. */
    method NameI(path: seq<byte>, cwd: uint16, root: uint16) returns (ino: uint16)
      requires Shape() && imng.Valid() && CountsLow(imng.Slots())
      modifies imng`table, imng`owner, imng`live, imng.cache, imng.used, imng.sb`nfree, imng.sb`freeTotal, imng.sb`fmod,
          imng.sb`chain, imng.sb`list, imng.sb`ninode, imng.sb`inodeTotal, imng.sb`rinode, imng.sb.free, imng.sb.inodes,
          dev.disk
      ensures path != [] && path[0] == SLASH ==>
                ino == Resolve(old(imng.table), old(dev.Contents()), Split(path), root)
      ensures path == [] || path[0] != SLASH ==>
                ino == Resolve(old(imng.table), old(dev.Contents()), Split(path), cwd)
      ensures var parts, t, d := Split(path), old(imng.table), old(dev.Contents());
              var start := if path != [] && path[0] == SLASH then root else cwd;
              if parts == [] then ino == start
              else Leads(t, d, Resolve(t, d, parts[..|parts| - 1], start), parts[|parts| - 1], ino)
      ensures AfterWalk(old(DeadOnWalk(Split(path), if path != [] && path[0] == SLASH then root else cwd)))
      ensures old(LiveTree(imng.table, dev.Contents(), imng.live))
              && Startable(if path != [] && path[0] == SLASH then root else cwd) ==>
                imng.Valid() && Startable(ino)
    {
      hide InodeManager.Valid, InodeManager.BlocksOk, InodeManager.Slots, LiveTree, Split, Leads, CountsLow;
      ghost var t, d, live := imng.table, dev.Contents(), imng.live;
      var parts := SplitPath(path);
      ino := WalkParts(parts, StartOf(path, cwd, root));
      if parts != [] {
        WalkLeads(t, d, parts, StartOf(path, cwd, root));
      }
      if LiveTree(t, d, live) && Startable(StartOf(path, cwd, root)) {
        LiveWalk(t, d, live, parts, StartOf(path, cwd, root));
      }
    }

    /** namei_parent: the same walk without the last name, which is returned. */
    method NameIParent(path: seq<byte>, cwd: uint16, root: uint16) returns (ino: uint16, basename: seq<byte>)
      requires Shape() && imng.Valid() && CountsLow(imng.Slots())
      modifies imng`table, imng`owner, imng`live, imng.cache, imng.used, imng.sb`nfree, imng.sb`freeTotal, imng.sb`fmod,
          imng.sb`chain, imng.sb`list, imng.sb`ninode, imng.sb`inodeTotal, imng.sb`rinode, imng.sb.free, imng.sb.inodes,
          dev.disk
      ensures Split(path) == [] ==> ino == INVALID_BLK && imng.Valid() && Untouched()
      ensures Split(path) != [] ==>
                && basename == Split(path)[|Split(path)| - 1]
                && (var start, t, d := if path != [] && path[0] == SLASH then root else cwd, old(imng.table),
                                       old(dev.Contents());
                    && ino == Resolve(t, d, Split(path)[..|Split(path)| - 1], start)
                    && Leads(t, d, ino, basename, Resolve(t, d, Split(path), start))
                    && AfterWalk(old(DeadOnWalk(Split(path)[..|Split(path)| - 1],
                                                if path != [] && path[0] == SLASH then root else cwd))))
    {
      hide InodeManager.Valid, InodeManager.BlocksOk, InodeManager.Slots, LiveTree, Split, Leads, Step, CountsLow;
      var parts := SplitPath(path);
      if parts == [] {
        return INVALID_BLK, [];
      }
      basename := parts[|parts| - 1];
      ino := WalkParts(parts[..|parts| - 1], StartOf(path, cwd, root));
      WalkLeads(old(imng.table), old(dev.Contents()), parts, StartOf(path, cwd, root));
    }

    /** A place a walk may start from: a live inode, or a number that names none. */
    ghost predicate Startable(ino: uint16)
      reads imng`live
    {
      ino < INODE_TOTAL ==> ino in imng.live
    }

    ghost function DeadOnWalk(parts: seq<seq<byte>>, start: uint16): uint16
      requires Shape()
      reads imng`table, imng`live, dev.disk
    {
      DeadOn(imng.table, dev.Contents(), imng.live, parts, start)
    }

    /** After a walk on which `dead` is the first dead inode: if there was none everything is as before; otherwise
        the walk ended there, and the number of the dead inode was returned once more. */
    twostate predicate AfterWalk(dead: uint16)
      requires Shape() && old(imng.sb.ninode <= NICINOD)
      reads imng, imng.sb, imng.sb.free, imng.sb.inodes, imng.used, imng.cache, dev.disk
    {
      && imng.BlocksOk() && imng.sb.ninode <= NICINOD && imng.live == old(imng.live)
      && (imng.Valid() <==> dead == INVALID_BLK)
      && (dead == INVALID_BLK ==> Untouched())
      && (dead != INVALID_BLK ==> imng.sb.InodeStack() == Returned(old(imng.sb.InodeStack()), dead))
    }

    method WalkParts(parts: seq<seq<byte>>, start: uint16) returns (ino: uint16)
      requires Shape() && imng.Valid() && CountsLow(imng.Slots())
      modifies imng`table, imng`owner, imng`live, imng.cache, imng.used, imng.sb`nfree, imng.sb`freeTotal, imng.sb`fmod,
          imng.sb`chain, imng.sb`list, imng.sb`ninode, imng.sb`inodeTotal, imng.sb`rinode, imng.sb.free, imng.sb.inodes,
          dev.disk
      ensures ino == Resolve(old(imng.table), old(dev.Contents()), parts, start)
      ensures AfterWalk(old(DeadOnWalk(parts, start)))
    {
      hide InodeManager.Valid, InodeManager.BlocksOk, InodeManager.Slots, Step, CountsLow, Returned;
      ghost var t, d, live := imng.table, dev.Contents(), imng.live;
      imng.ValidIsConsistent();
      ino := start;
      var i := 0;
      assert parts[0..] == parts;
      while i < |parts|
        invariant 0 <= i <= |parts|
        invariant imng.Valid() && imng.BlocksOk() && imng.sb.ninode <= NICINOD && Untouched()
        invariant Resolve(t, d, parts[i..], ino) == Resolve(t, d, parts, start)
        invariant DeadOn(t, d, live, parts[i..], ino) == DeadOn(t, d, live, parts, start)
      {
        StepSameData(t, d, dev.Contents(), ino, parts[i]);
        DeadOnStep(t, d, live, parts, i, ino);
        var next := StepInto(ino, parts[i]);
        if next == INVALID_BLK {
          ResolveInvalid(t, d, parts[i + 1..]);
          return INVALID_BLK;
        }
        ino := next;
        i := i + 1;
      }
      assert parts[i..] == [];
    }
  }

  /** A reference taken and given back leaves the cache as it was. */
  lemma BackAgain(slots0: seq<Slot>, slots1: seq<Slot>, slots2: seq<Slot>, s: nat, ino: uint16, di: DInode)
    requires s < |slots0| && CountsLow(slots0) && CountsUp(slots0)
    requires slots1 == slots0[s := Referenced(slots0[s], ino, di)]
    requires slots2 == slots1[s := Dropped(slots1[s])]
    ensures slots2 == slots0
  {
  }

  /** Entry i was the first live one with the name, and is now all zeros; the others are as they were. */
  ghost predicate FirstCleared(before: seq<DirEntry>, after: seq<DirEntry>, name: seq<byte>, i: nat) {
    && i < |before| && before[i].ino != 0 && Key(before[i].name) == Key(name)
    && (forall j :: 0 <= j < i && before[j].ino != 0 ==> Key(before[j].name) != Key(name))
    && after == before[i := DirEntry(Zeros(14), 0)]
  }

  lemma ClearedFirst(es: seq<DirEntry>, name: seq<byte>, i: nat)
    requires i < |es| && Matches(es[i], Key(name)) && forall j :: 0 <= j < i ==> !Matches(es[j], Key(name))
    ensures FirstCleared(es, es[i := FREE_ENTRY], name, i)
  {
    hide Key;
    assert FREE_ENTRY.name == Zeros(14);
  }

  /** The free-block stack keeps its link slot exactly when it had one and the rewrite to n entries found room; a
      rewrite too long for any file may leave it as it was. */
  ghost predicate LinkSlotKept(before: uint16, after: uint16, ok: bool, n: nat) {
    && (after >= 1 ==> before >= 1 && (ok || n * ENTRY_SIZE > MAX_BLOCKS * BLOCK_SIZE))
    && (before >= 1 && ok ==> after >= 1)
  }

  /** The directory still has the entries it had, unless the rewrite was also meant to change some of them. */
  ghost predicate DirNotGrown(before: seq<DirEntry>, after: seq<DirEntry>, wanted: seq<DirEntry>) {
    |wanted| > |before| && (wanted[..|before|] == before ==> after == before)
  }
}
