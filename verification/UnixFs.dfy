/** The UNIX engine's reads and writes: descriptor to inode to blocks. */
module UnixFileSystem {
  import opened Bytes
  import opened BlockDevices
  import opened FreeLists
  import opened SuperBlocks
  import opened SuperImages
  import opened InodeTrees
  import opened InodeWalks
  import opened InodeViews
  import opened DiskInodes
  import opened InodeCaches
  import opened InodeLives
  import opened InodeManagers
  import opened FileSpecs
  import opened FileContents
  import opened FileGrowths
  import opened OpenFileTables
  import opened DirEntries
  import opened DirFiles
  import opened Paths
  import opened SystemDirs
  import opened Directories
  import opened BlockMaps
  import opened Volumes

  const DEFAULT_MODE := 0x1FF

  const MAX_FILE := MAX_BLOCKS * BLOCK_SIZE

  class UnixFs {
    const dev: BlockDevice
    const sb: SuperBlock
    const imng: InodeManager
    const oft: OpenFileTable
    const dmng: DirectoryManager
    const userSlot: nat := 0

    ghost predicate Shape() {
      && imng.Shape() && imng.sb == sb && imng.dev == dev
      && dmng.imng == imng && dmng.dev == dev
    }

    constructor (dev: BlockDevice, sb: SuperBlock, imng: InodeManager, oft: OpenFileTable, dmng: DirectoryManager)
      requires imng.Shape() && imng.sb == sb && imng.dev == dev && dmng.imng == imng && dmng.dev == dev
      ensures Shape() && this.dev == dev && this.sb == sb && this.imng == imng && this.oft == oft && this.dmng == dmng
    {
      this.dev, this.sb, this.imng, this.oft, this.dmng := dev, sb, imng, oft, dmng;
    }

    // ---------- formatting ----------

    /** The first half of fs_format: a zeroed disk, the free list and the inode stack laid out, and everything
        the inode layer keeps true holds for the first time. */
    method FormatVolume(reservedBlocks: uint16, reservedInodes: uint16)
      requires Shape() && 1 <= reservedBlocks <= DATA_BLK_NUM && reservedInodes <= INODE_TOTAL
      requires forall i :: 0 <= i < CACHE_SIZE ==> !imng.used[i]
      modifies imng`table, imng`owner, imng`live, imng`lo, imng`base, imng`inodes, sb, sb.free, sb.inodes, dev.disk
      ensures imng.Valid() && sb.nfree >= 1
      ensures Blank(imng.table) && imng.live == {} && imng.owner == map[] && imng.lo == reservedBlocks
      ensures imng.base == reservedInodes && imng.inodes == |sb.InodeStack()|
      ensures sb.isize == INODE_BLK_NUM && sb.fsize == DATA_BLK_NUM
      ensures UpwardsFrom(sb.InodeStack(), reservedInodes)
      ensures |sb.InodeStack()| == Min(NICINOD, INODE_TOTAL - reservedInodes)
      ensures |sb.list| == DATA_BLK_NUM - reservedBlocks
      ensures forall b: uint16 :: b in sb.list <==> reservedBlocks <= b < DATA_BLK_NUM
      ensures forall i :: 0 <= i < CACHE_SIZE ==> imng.Slots()[i].Empty?
    {
      hide Represents, Consistent, CacheAndLife, Decode, Blank, Distinct;
      dev.ZeroAll();
      sb.Format(reservedBlocks, reservedInodes);
      imng.table := BlankTable();
      imng.owner, imng.live, imng.lo, imng.base, imng.inodes := map[], {}, reservedBlocks, reservedInodes, sb.ninode;
      sb.ListFacts();
      FreshTrees(dev.Contents(), imng.table, sb.list, reservedBlocks);
      FreshLife(imng.Slots(), sb.InodeStack(), imng.table, dev.Contents(), reservedInodes);
    }

    /** Valid, and every name leads to a live inode. */
    ghost predicate Alive()
      requires Shape()
      reads imng, sb, sb.free, sb.inodes, dev.disk, imng.used, imng.cache
    {
      imng.Valid() && LiveTree(imng.table, dev.Contents(), imng.live)
    }

    /** A new directory inode with its two entries, not yet named anywhere.  It fails only when no number is left. */
    method MakeDir(parent: uint16, now: uint32) returns (ip: MemINode?)
      requires Shape() && Alive() && (parent == 0 || parent in imng.live)
      modifies imng`table, imng`owner, imng`live, imng.cache, imng.used,
          sb`nfree, sb`freeTotal, sb`fmod, sb`chain, sb`list,
          sb`ninode, sb`inodeTotal, sb`rinode, sb.free, sb.inodes, dev.disk
      ensures Alive()
      ensures ip == null <==> old(sb.InodeStack()) == []
      ensures ip == null ==>
                imng.Slots() == old(imng.Slots()) && imng.Now() == old(imng.Now()) && imng.live == old(imng.live)
      ensures ip != null ==> old(sb.InodeStack()) == sb.InodeStack() + [ip.ino]
      ensures ip != null && old(sb.list) != [] ==>
                && dmng.Listing(ip) == Dots(ip.ino, if parent == 0 then ip.ino else parent)
                && |sb.list| == |old(sb.list)| - 1
      ensures ip != null ==>
                && imng.Mine(ip) && old(imng.Slots())[ip.slot].Empty? && dmng.CanRead(ip) && IsDirectory(ip.di)
                && ip.ino < INODE_TOTAL && ip.ino !in old(imng.live) && imng.live == old(imng.live) + {ip.ino}
                && ip.count == 1 && ip.di.nlink == 1
                && imng.Slots() == old(imng.Slots())[ip.slot := Held(ip.ino, ip.di, 1, ip.dirty)]
                && OthersKept(old(imng.Now()), imng.Now(), ip.ino)
    {
      hide InodeManager.Valid, InodeManager.Slots, OthersKept, Readable, EntriesOf, LiveTree, Key, Cached, Dots,
          NoBlocks;
      ip := NewDirInode(now);
      if ip == null {
        return;
      }
      ghost var v0, v1 := old(imng.Now()), imng.Now();
      imng.SlotHolds(ip);
      InitAlive(ip, if parent == 0 then ip.ino else parent);
      OthersKeptFrom(v0, v1, imng.Now(), ip.ino);
    }

    method InitAlive(ip: MemINode, parent: uint16)
      requires Shape() && Alive() && imng.Mine(ip) && ip.di.size == 0 && ip.ino in imng.live && parent in imng.live
      requires NoBlocks(ip.di.addr)
      modifies ip`di, ip`dirty, imng`table, imng`owner, sb`nfree, sb`freeTotal, sb`fmod, sb`chain, sb`list, sb.free,
          dev.disk
      ensures Alive() && dmng.CanRead(ip)
      ensures old(sb.list) != [] ==> dmng.Listing(ip) == Dots(ip.ino, parent) && |sb.list| == |old(sb.list)| - 1
      ensures ip.di == old(ip.di).(addr := ip.di.addr, size := ip.di.size)
      ensures imng.Slots() == old(imng.Slots())[ip.slot := Held(ip.ino, ip.di, ip.count, ip.dirty)]
      ensures ip.ino < INODE_TOTAL && OthersKept(old(imng.Now()), imng.Now(), ip.ino)
    {
      hide InodeManager.Valid, InodeManager.Slots, OthersKept, Readable, EntriesOf, LiveTree, Consistent,
          RoomForEntry, TookEntry, Dots, UniqueNames, NoBlocks;
      ghost var v := imng.Now();
      imng.ValidIsConsistent();
      imng.ReferencedIsLive(ip);
      var r := dmng.InitDir(ip, ip.ino, parent);
      DirStarted(v, imng.Now(), ip.ino, parent, imng.live);
    }

    // A fresh directory inode, still empty.
    method NewDirInode(now: uint32) returns (ip: MemINode?)
      requires Shape() && Alive()
      modifies imng.cache, imng.used, imng`table, imng`live, sb`ninode, sb`inodeTotal, sb`rinode, sb`fmod, sb.inodes
      ensures Alive()
      ensures ip == null <==> old(sb.InodeStack()) == []
      ensures ip == null ==>
                imng.Slots() == old(imng.Slots()) && imng.Now() == old(imng.Now()) && imng.live == old(imng.live)
      ensures ip != null ==> old(sb.InodeStack()) == sb.InodeStack() + [ip.ino]
      ensures ip != null ==>
                && imng.Mine(ip) && old(imng.Slots())[ip.slot].Empty? && IsDirectory(ip.di) && ip.di.size == 0
                && ip.di.nlink == 1 && NoBlocks(ip.di.addr)
                && ip.ino < INODE_TOTAL && ip.ino !in old(imng.live) && imng.live == old(imng.live) + {ip.ino}
                && imng.Slots() == old(imng.Slots())[ip.slot := Held(ip.ino, ip.di, 1, true)]
                && imng.table == old(imng.table)[ip.ino := ip.di]
    {
      hide InodeManager.BlocksOk, InodeManager.Slots, CacheAndLife, LiveTree, Cached;
      ghost var t0, live0 := imng.table, imng.live;
      imng.NeverFull();
      ip := imng.Alloc(MODE_DIR + DEFAULT_MODE, 0, 0, now);
      if ip != null {
        LiveTreeCreated(t0, dev.Contents(), live0, ip.ino, ip.di);
      }
    }

    /** Links a live inode into an open directory; every name still leads to a live inode. */
    method LinkAlive(ip: MemINode, name: seq<byte>, ino: uint16) returns (r: int)
      requires Shape() && Alive() && imng.Mine(ip) && dmng.CanRead(ip) && IsDirectory(ip.di) && ino != 0
      requires ino in imng.live
      modifies ip`di, ip`dirty, imng`table, imng`owner, sb`nfree, sb`freeTotal, sb`fmod, sb`chain, sb`list, sb.free,
          dev.disk
      ensures Alive() && dmng.CanRead(ip) && IsDirectory(ip.di)
      ensures r == 0 ==> Dir(dmng.Listing(ip)) == old(Dir(dmng.Listing(ip)))[Key(name) := ino]
      ensures r != 0 ==> Dir(dmng.Listing(ip)) == old(Dir(dmng.Listing(ip)))
      ensures r == 0 || r == -1
      ensures r == -1 <==> old(dmng.CannotLink(ip, name))
      ensures NameAdded(old(imng.Now()), imng.Now(), ip.ino, ino, name)
      ensures ip.di == old(ip.di).(addr := ip.di.addr, size := ip.di.size)
      ensures imng.Slots() == old(imng.Slots())[ip.slot := Held(ip.ino, ip.di, ip.count, ip.dirty)]
      ensures ip.ino < INODE_TOTAL && OthersKept(old(imng.Now()), imng.Now(), ip.ino)
    {
      hide InodeManager.Valid, InodeManager.Slots, OthersKept, Readable, EntriesOf, LiveTree, Key, Consistent, Dir,
          FreeIndex, UniqueNames, RoomForEntry, TookEntry, Small, NoBlocks, LinkSlotKept;
      ghost var v := imng.Now();
      imng.ValidIsConsistent();
      imng.SlotHolds(ip);
      imng.ReferencedIsLive(ip);
      ghost var n := |dmng.Listing(ip)|;
      r := dmng.Link(ip, name, ino);
      if Small(n) {
        SmallRoom(v, imng.Now(), ip.ino, n);
      }
      LiveTreeLinked(v, imng.Now(), ip.ino, imng.live, Key(name), ino);
    }

    method SaveAlive(ip: MemINode)
      requires Shape() && Alive() && imng.Mine(ip) && ip.count == 1 && ip.di.nlink != 0
      modifies imng`table, imng`owner, imng`live, ip, imng.used,
          sb`nfree, sb`freeTotal, sb`fmod, sb`chain, sb`list,
          sb`ninode, sb`inodeTotal, sb`rinode, sb.free, sb.inodes, dev.disk
      ensures Alive() && imng.table == old(imng.table) && imng.live == old(imng.live)
      ensures sb.list == old(sb.list) && sb.InodeStack() == old(sb.InodeStack())
      ensures imng.Slots() == old(imng.Slots())[ip.slot := Empty]
      ensures dev.Contents()[DATA_START_BLK..] == old(dev.Contents())[DATA_START_BLK..]
    {
      hide InodeManager.Valid, InodeManager.Slots, LiveTree;
      SaveAndPut(ip);
      LiveTreeSameData(imng.table, old(dev.Contents()), dev.Contents(), imng.live);
    }

    /** The root directory is open and readable, and no inode is numbered 0. */
    ghost predicate RootOpen(root: MemINode)
      requires Shape()
      reads imng, sb, sb.free, sb.inodes, dev.disk, imng.used, imng.cache, root
    {
      Alive() && imng.Mine(root) && dmng.CanRead(root) && IsDirectory(root.di) && imng.base >= 1
    }

    /** A directory of the fresh volume: created, initialised, linked into the root, saved and released. */
    method AddSystemDir(root: MemINode, name: seq<byte>, now: uint32)
      requires Shape() && RootOpen(root)
      modifies imng`table, imng`owner, imng`live, imng.cache, imng.used,
          sb`nfree, sb`freeTotal, sb`fmod, sb`chain, sb`list,
          sb`ninode, sb`inodeTotal, sb`rinode, sb.free, sb.inodes, dev.disk
      ensures RootOpen(root) && root.ino == old(root.ino) && root.count == old(root.count)
      ensures root.di.nlink == old(root.di.nlink)
      ensures imng.Slots() == old(imng.Slots())[root.slot := Held(root.ino, root.di, root.count, root.dirty)]
      ensures old(CanAddDir(root, name)) ==>
                && old(sb.InodeStack()) == sb.InodeStack() + [LastOf(old(sb.InodeStack()))]
                && imng.live == old(imng.live) + {LastOf(old(sb.InodeStack()))}
                && DirAdded(old(imng.Now()), imng.Now(), root.ino, LastOf(old(sb.InodeStack())), name)
    {
      hide InodeManager.Valid, InodeManager.Slots, LiveTree, Key, Dir, DirAdded, DirMade, NameAdded, Saved,
          RoomForDir;
      imng.ValidIsConsistent();
      ghost var v0, slots0 := imng.Now(), imng.Slots();
      var ip := MakeBeside(root, now);
      if ip == null {
        imng.SlotHolds(root);
        return;
      }
      ghost var slots1, v1, ino := imng.Slots(), imng.Now(), ip.ino;
      ghost var v2 := LinkAndSave(root, ip, name);
      SlotGivenBack(slots0, slots1, ip.slot, root.slot, imng.Slots()[root.slot], slots1[ip.slot]);
      if RoomForDir(v0, root.ino, name) {
        DirAddedFrom(v0, v1, v2, imng.Now(), root.ino, ino, name);
      }
    }

    /** An inode number is free, and there is room for a directory and its name. */
    ghost predicate CanAddDir(root: MemINode, name: seq<byte>)
      requires Shape() && sb.ninode <= NICINOD
      reads imng, sb, sb.inodes, dev.disk, root
    {
      sb.InodeStack() != [] && RoomForDir(imng.Now(), root.ino, name)
    }

    lemma AliveIsValid()
      requires Shape() && Alive()
      ensures imng.Valid() && sb.ninode <= NICINOD
    {
      hide InodeManager.BlocksOk, CacheAndLife, LiveTree;
    }

    // The new directory gets its name and is saved and released; v2 is the state in between.
    method LinkAndSave(root: MemINode, ip: MemINode, name: seq<byte>) returns (ghost v2: View)
      requires Shape() && RootOpen(root) && imng.Mine(ip) && ip.slot != root.slot
      requires ip.count == 1 && ip.di.nlink == 1 && ip.ino != 0 && ip.ino in imng.live
      modifies imng`table, imng`owner, imng`live, root`di, root`dirty, ip, imng.used,
          sb`nfree, sb`freeTotal, sb`fmod, sb`chain, sb`list,
          sb`ninode, sb`inodeTotal, sb`rinode, sb.free, sb.inodes, dev.disk
      ensures RootOpen(root) && root.di.nlink == old(root.di.nlink)
      ensures imng.Slots() ==
                old(imng.Slots())[root.slot := Held(root.ino, root.di, root.count, root.dirty)][ip.slot := Empty]
      ensures sb.InodeStack() == old(sb.InodeStack()) && imng.live == old(imng.live)
      ensures NameAdded(old(imng.Now()), v2, root.ino, old(ip.ino), name) && Saved(v2, imng.Now())
    {
      hide InodeManager.Valid, InodeManager.Slots, OthersKept, Readable, EntriesOf, LiveTree, Key, NameAdded,
          IsDirectory, Linked, DirectoryManager.CannotLink, DirectoryManager.Listing, UnixFs.Alive, Small,
          RoomForEntry, NoFreeSlot, Dir, UniqueNames;
      imng.SlotHolds(root);
      AliveIsValid();
      var _ := LinkAlive(root, name, ip.ino);
      v2 := imng.Now();
      SaveAlive(ip);
      assert dmng.CanRead(root) by { ReadableSameData(root.di, v2.d, dev.Contents()); }
      assert imng.Mine(root) by { imng.HeldIsMine(root.slot); }
    }

    // A new directory beside the open root, which is not disturbed.
    method MakeBeside(root: MemINode, now: uint32) returns (ip: MemINode?)
      requires Shape() && RootOpen(root)
      modifies imng`table, imng`owner, imng`live, imng.cache, imng.used,
          sb`nfree, sb`freeTotal, sb`fmod, sb`chain, sb`list,
          sb`ninode, sb`inodeTotal, sb`rinode, sb.free, sb.inodes, dev.disk
      ensures RootOpen(root) && root.ino == old(root.ino) && root.count == old(root.count)
      ensures root.di == old(root.di) && root.dirty == old(root.dirty)
      ensures ip == null <==> old(sb.InodeStack()) == []
      ensures ip == null ==> imng.Slots() == old(imng.Slots())
      ensures ip != null ==>
                && imng.Mine(ip) && ip.slot != root.slot && old(imng.Slots())[ip.slot].Empty?
                && ip.count == 1 && ip.di.nlink == 1 && ip.ino != 0 && ip.ino in imng.live
                && imng.Slots() == old(imng.Slots())[ip.slot := Held(ip.ino, ip.di, 1, ip.dirty)]
                && old(sb.InodeStack()) == sb.InodeStack() + [ip.ino]
                && imng.live == old(imng.live) + {ip.ino}
                && DirMade(old(imng.Now()), imng.Now(), root.ino, ip.ino)
    {
      hide InodeManager.Valid, InodeManager.Slots, OthersKept, Readable, EntriesOf, LiveTree, Consistent, Dots,
          IsDirectory;
      ghost var v0 := imng.Now();
      imng.SlotHolds(root);
      imng.ReferencedIsLive(root);
      imng.ValidIsConsistent();
      ip := MakeDir(root.ino, now);
      imng.HeldIsMine(root.slot);
      if ip != null {
        imng.SlotHolds(ip);
        imng.ReferencedIsLive(ip);
        imng.ReferencedIsLive(root);
        imng.ValidIsConsistent();
        ReadsAsBefore(v0, imng.Now(), ip.ino, root.ino);
      }
    }

    /** The figures of a volume in the standard layout. */
    ghost predicate Managed()
      reads imng`lo, imng`base, imng`inodes, sb`isize, sb`fsize
    {
      && imng.lo == 3 && imng.base == 1 && imng.inodes == NICINOD
      && sb.isize == INODE_BLK_NUM && sb.fsize == DATA_BLK_NUM
    }

    /** fs_format: lays out the volume and creates the root, /etc and /home.  It cannot fail, leaves no inode
        in the cache, and from here on every name leads to a live inode.  The three directories have the first
        three numbers, name each other, own one block each, and are found by walking. */
    method FsFormat(now: uint32) returns (r: int)
      requires Shape() && forall i :: 0 <= i < CACHE_SIZE ==> !imng.used[i]
      modifies imng, imng.cache, imng.used, sb, sb.free, sb.inodes, dev.disk
      ensures r == 0 && Alive() && CountsLow(imng.Slots()) && Managed()
      ensures OnDisk(dev.Contents(), AsVolume()) && Decode(dev.Contents()[SUPER_BLK]).rootIno == 1
      ensures sb.nfree >= 1 && |sb.list| == DATA_BLK_NUM - 6
      ensures UpwardsFrom(sb.InodeStack(), 4) && |sb.InodeStack()| == NICINOD - 3
      ensures sb.rootIno == 1 && imng.live == {1, 2, 3}
      ensures DirIs(imng.table, dev.Contents(), 1, RootMap(1, 2, 3))
      ensures DirIs(imng.table, dev.Contents(), 2, DotsMap(2, 1)) && DirIs(imng.table, dev.Contents(), 3, DotsMap(3, 1))
      ensures DirOf(imng.table[1], dev.Contents()) ==
                map[Key([0x2E]) := 1, Key([0x2E, 0x2E]) := 1, Key([0x65, 0x74, 0x63]) := 2,
                    Key([0x68, 0x6F, 0x6D, 0x65]) := 3]
      ensures DirOf(imng.table[2], dev.Contents()) == map[Key([0x2E]) := 2, Key([0x2E, 0x2E]) := 1]
      ensures DirOf(imng.table[3], dev.Contents()) == map[Key([0x2E]) := 3, Key([0x2E, 0x2E]) := 1]
      ensures Resolve(imng.table, dev.Contents(), Split([SLASH] + ETC), sb.rootIno) == 2
      ensures Resolve(imng.table, dev.Contents(), Split([SLASH] + HOME), sb.rootIno) == 3
      ensures forall i :: 0 <= i < CACHE_SIZE ==> imng.Slots()[i].Empty?
    {
      hide InodeManager.Valid, InodeManager.Slots, LiveTree, Decode, SystemTree, Resolve, Split, UpwardsFrom, DirOf,
          Key, DirIs, OnDisk;
      var rootIno := Populate(now);
      ghost var t, d := imng.table, dev.Contents();
      imng.NothingHeld();
      SetRoot(rootIno);
      SystemDirsStill(t, d, dev.Contents());
      FoundByWalking(t, dev.Contents());
      NamesSpelled(t, dev.Contents());
      assert sb.nfree >= 1 by {
        imng.ValidIsConsistent();
        sb.ListFacts();
      }
      return 0;
    }

    lemma FoundByWalking(t: Table, d: Image)
      requires SystemTree(t, d)
      ensures DirIs(t, d, 1, RootMap(1, 2, 3)) && DirIs(t, d, 2, DotsMap(2, 1)) && DirIs(t, d, 3, DotsMap(3, 1))
      ensures Resolve(t, d, Split([SLASH] + ETC), 1) == 2 && Resolve(t, d, Split([SLASH] + HOME), 1) == 3
    {
      hide DirIs, RootMap, DotsMap, Resolve, Split;
      SystemPaths(t, d, 1, 2, 3);
    }

    // The layout and the three directories; the super block is still to be saved.
    method Populate(now: uint32) returns (rootIno: uint16)
      requires Shape() && forall i :: 0 <= i < CACHE_SIZE ==> !imng.used[i]
      modifies imng, imng.cache, imng.used, sb, sb.free, sb.inodes, dev.disk
      ensures Alive() && Managed() && rootIno == 1 && imng.live == {1, 2, 3}
      ensures |sb.list| == DATA_BLK_NUM - 6 && UpwardsFrom(sb.InodeStack(), 4) && |sb.InodeStack()| == NICINOD - 3
      ensures SystemTree(imng.table, dev.Contents())
      ensures forall i :: 0 <= i < CACHE_SIZE ==> imng.Slots()[i].Empty?
    {
      hide InodeManager.Valid, InodeManager.Slots, LiveTree, Readable, SystemTree, UpwardsFrom, IsDirectory, EntriesOf,
          Dots, UnixFs.Managed;
      var root := StartRoot(now);
      ghost var s, slots0 := root.slot, imng.Slots();
      AddSystemDirs(root, now);
      ghost var d := dev.Contents();
      rootIno := CloseRoot(root);
      assert imng.Slots() == slots0[s := Empty];
      SystemDirsStill(imng.table, d, dev.Contents());
    }

    /** On a formatted volume namei finds both system directories by their absolute paths, whatever the current
        directory. */
    method FormatAndFind(now: uint32, cwd: uint16) returns (etc: uint16, home: uint16)
      requires Shape() && forall i :: 0 <= i < CACHE_SIZE ==> !imng.used[i]
      modifies imng, imng.cache, imng.used, sb, sb.free, sb.inodes, dev.disk
      ensures etc == 2 && home == 3 && imng.Valid()
    {
      hide InodeManager.Valid, InodeManager.Slots, LiveTree, SystemTree, Resolve, Split, UpwardsFrom, DirIs, RootMap,
          DotsMap, CountsLow, UnixFs.Managed, DirOf, Key, OnDisk, Decode;
      var _ := FsFormat(now);
      AsSystemTree(imng.table, dev.Contents());
      etc := FindFromRoot([SLASH] + ETC, cwd);
      home := FindFromRoot([SLASH] + HOME, cwd);
    }

    // namei of an absolute path on a volume that still has its first three directories.
    method FindFromRoot(path: seq<byte>, cwd: uint16) returns (ino: uint16)
      requires Shape() && Alive() && CountsLow(imng.Slots()) && SystemTree(imng.table, dev.Contents())
      requires path != [] && path[0] == SLASH && sb.rootIno == 1 && 1 in imng.live
      modifies imng`table, imng`owner, imng`live, imng.cache, imng.used,
          sb`nfree, sb`freeTotal, sb`fmod, sb`chain, sb`list,
          sb`ninode, sb`inodeTotal, sb`rinode, sb.free, sb.inodes, dev.disk
      ensures Alive() && CountsLow(imng.Slots()) && SystemTree(imng.table, dev.Contents()) && 1 in imng.live
      ensures path == [SLASH] + ETC ==> ino == 2
      ensures path == [SLASH] + HOME ==> ino == 3
    {
      hide InodeManager.Valid, InodeManager.Slots, LiveTree, SystemTree, Resolve, Split, DirIs, Leads, CountsLow;
      ghost var t, d := imng.table, dev.Contents();
      FoundByWalking(t, d);
      ino := dmng.NameI(path, cwd, sb.rootIno);
      SystemDirsStill(t, d, dev.Contents());
      LiveTreeSameData(t, d, dev.Contents(), imng.live);
    }

    lemma AsSystemTree(t: Table, d: Image)
      requires DirIs(t, d, 1, RootMap(1, 2, 3)) && DirIs(t, d, 2, DotsMap(2, 1)) && DirIs(t, d, 3, DotsMap(3, 1))
      ensures SystemTree(t, d)
    {
      hide DirIs, RootMap, DotsMap;
    }

    lemma SystemDirsStill(t: Table, d0: Image, d: Image)
      requires SystemTree(t, d0) && d[DATA_START_BLK..] == d0[DATA_START_BLK..]
      ensures SystemTree(t, d)
    {
      StillThere(t, d0, d, 1, RootMap(1, 2, 3));
      StillThere(t, d0, d, 2, DotsMap(2, 1));
      StillThere(t, d0, d, 3, DotsMap(3, 1));
      hide DirIs, RootMap, DotsMap;
    }

    // /etc and /home under the open root.
    method AddSystemDirs(root: MemINode, now: uint32)
      requires Shape() && RootOpen(root) && root.ino == 1 && dmng.Listing(root) == Dots(1, 1)
      requires |sb.list| == DATA_BLK_NUM - 4 && UpwardsFrom(sb.InodeStack(), 2) && |sb.InodeStack()| >= 2
      requires imng.live == {1}
      requires forall i :: 0 <= i < CACHE_SIZE && i != root.slot ==> imng.Slots()[i].Empty?
      modifies imng`table, imng`owner, imng`live, imng.cache, imng.used,
          sb`nfree, sb`freeTotal, sb`fmod, sb`chain, sb`list,
          sb`ninode, sb`inodeTotal, sb`rinode, sb.free, sb.inodes, dev.disk
      ensures RootOpen(root) && root.ino == old(root.ino) && root.count == old(root.count)
      ensures root.di.nlink == old(root.di.nlink)
      ensures imng.Slots() == old(imng.Slots())[root.slot := Held(root.ino, root.di, root.count, root.dirty)]
      ensures imng.live == {1, 2, 3} && SystemTree(imng.table, dev.Contents())
      ensures |sb.list| == DATA_BLK_NUM - 6
      ensures UpwardsFrom(sb.InodeStack(), 4) && |sb.InodeStack()| == |old(sb.InodeStack())| - 2
    {
      hide InodeManager.Valid, InodeManager.Slots, LiveTree, Readable, EntriesOf, Dir, DirAdded, Dots, RoomForDir,
          SystemTree, UpwardsFrom, LastOf, IsDirectory, UnixFs.CanAddDir;
      ghost var slots0 := imng.Slots();
      ghost var v0 := AddEtc(root, now);
      imng.ValidIsConsistent();
      ghost var v1, slots1, stack1 := imng.Now(), imng.Slots(), sb.InodeStack();
      AddSystemDir(root, HOME, now);
      imng.ValidIsConsistent();
      assert LastOf(stack1) == 3 && UpwardsFrom(sb.InodeStack(), 4) by {
        NextNumber(sb.InodeStack(), LastOf(stack1), 3);
      }
      assert SystemTree(imng.table, dev.Contents()) && |sb.list| == |v1.list| - 1 by {
        imng.ReferencedIsLive(root);
        HomeAdded(v0, v1, imng.Now());
      }
      FirstThree(imng.live);
      ChangedTwice(slots0, root.slot, slots1[root.slot], imng.Slots()[root.slot]);
    }

    // v0 is the state before.
    method AddEtc(root: MemINode, now: uint32) returns (ghost v0: View)
      requires Shape() && RootOpen(root) && root.ino == 1 && dmng.Listing(root) == Dots(1, 1)
      requires |sb.list| == DATA_BLK_NUM - 4 && UpwardsFrom(sb.InodeStack(), 2) && |sb.InodeStack()| >= 2
      requires imng.live == {1}
      requires forall i :: 0 <= i < CACHE_SIZE && i != root.slot ==> imng.Slots()[i].Empty?
      modifies imng`table, imng`owner, imng`live, imng.cache, imng.used,
          sb`nfree, sb`freeTotal, sb`fmod, sb`chain, sb`list,
          sb`ninode, sb`inodeTotal, sb`rinode, sb.free, sb.inodes, dev.disk
      ensures RootOpen(root) && root.ino == old(root.ino) && root.count == old(root.count)
      ensures root.di.nlink == old(root.di.nlink)
      ensures imng.Slots() == old(imng.Slots())[root.slot := Held(root.ino, root.di, root.count, root.dirty)]
      ensures imng.live == {1} + {2} && EntriesOf(v0.t[1], v0.d) == Dots(1, 1)
      ensures DirAdded(v0, imng.Now(), 1, 2, ETC) && CanAddDir(root, HOME) && UpwardsFrom(sb.InodeStack(), 3)
      ensures |sb.list| == DATA_BLK_NUM - 5 && |sb.InodeStack()| == |old(sb.InodeStack())| - 1
    {
      hide InodeManager.Valid, InodeManager.Slots, LiveTree, Readable, EntriesOf, Dir, DirAdded, Dots, RoomForDir,
          UpwardsFrom, LastOf, IsDirectory;
      imng.ValidIsConsistent();
      v0 := imng.Now();
      ghost var stack := sb.InodeStack();
      assert EntriesOf(v0.t[1], v0.d) == Dots(1, 1) by { imng.ReferencedIsLive(root); }
      assert RoomForDir(v0, 1, ETC) by { FreshRoot(v0, 1); }
      AddSystemDir(root, ETC, now);
      imng.ValidIsConsistent();
      assert LastOf(stack) == 2 && UpwardsFrom(sb.InodeStack(), 3) by { NextNumber(sb.InodeStack(), LastOf(stack), 2); }
      assert RoomForDir(imng.Now(), 1, HOME) && |sb.list| == |v0.list| - 1 by { EtcAdded(v0, imng.Now(), 1, 2); }
    }

    // The formatted volume with its root directory open and nothing else.
    method StartRoot(now: uint32) returns (root: MemINode)
      requires Shape() && forall i :: 0 <= i < CACHE_SIZE ==> !imng.used[i]
      modifies imng, imng.cache, imng.used, sb, sb.free, sb.inodes, dev.disk
      ensures RootOpen(root) && root.count == 1 && root.di.nlink == 1 && !root.dirty
      ensures root.ino == 1 && imng.live == {1} && dmng.Listing(root) == Dots(1, 1)
      ensures |sb.list| == DATA_BLK_NUM - 4 && UpwardsFrom(sb.InodeStack(), 2) && |sb.InodeStack()| == NICINOD - 1
      ensures Managed()
      ensures forall i :: 0 <= i < CACHE_SIZE && i != root.slot ==> imng.Slots()[i].Empty?
    {
      hide InodeManager.Valid, InodeManager.Slots, Readable, EntriesOf, LiveTree, Dots, UpwardsFrom, IsDirectory;
      root := MakeRoot(now);
      imng.ValidIsConsistent();
      ghost var slots := imng.Slots();
      SaveRoot(root);
      assert forall i :: 0 <= i < CACHE_SIZE && i != root.slot ==> imng.Slots()[i] == slots[i];
    }

    // The same before the root is saved.
    method MakeRoot(now: uint32) returns (root: MemINode)
      requires Shape() && forall i :: 0 <= i < CACHE_SIZE ==> !imng.used[i]
      modifies imng, imng.cache, imng.used, sb, sb.free, sb.inodes, dev.disk
      ensures RootOpen(root) && root.count == 1 && root.di.nlink == 1
      ensures root.ino == 1 && imng.live == {1} && dmng.Listing(root) == Dots(1, 1)
      ensures |sb.list| == DATA_BLK_NUM - 4 && UpwardsFrom(sb.InodeStack(), 2) && |sb.InodeStack()| == NICINOD - 1
      ensures Managed()
      ensures forall i :: 0 <= i < CACHE_SIZE && i != root.slot ==> imng.Slots()[i].Empty?
    {
      hide InodeManager.Valid, InodeManager.Slots, OthersKept, Readable, EntriesOf, LiveTree, Cached, Dots,
          UpwardsFrom, IsDirectory;
      FormatAlive();
      var ip := MakeDir(0, now);
      assert ip != null;
      root := ip;
      AliveIsValid();
      assert root.ino == 1 && UpwardsFrom(sb.InodeStack(), 2) by { NextNumber(sb.InodeStack(), root.ino, 1); }
    }

    // The formatted volume: nobody is live, so every name leads to a live inode.
    method FormatAlive()
      requires Shape() && forall i :: 0 <= i < CACHE_SIZE ==> !imng.used[i]
      modifies imng, imng.cache, imng.used, sb, sb.free, sb.inodes, dev.disk
      ensures Alive() && imng.live == {} && Managed()
      ensures UpwardsFrom(sb.InodeStack(), 1) && |sb.InodeStack()| == NICINOD && |sb.list| == DATA_BLK_NUM - 3
      ensures forall i :: 0 <= i < CACHE_SIZE ==> imng.Slots()[i].Empty?
    {
      hide InodeManager.Valid, InodeManager.Slots, LiveTree, UpwardsFrom, Blank;
      FormatVolume(3, 1);
      NobodyLive(imng.table, dev.Contents());
    }

    // write_back and put of the root.
    method CloseRoot(root: MemINode) returns (ino: uint16)
      requires Shape() && RootOpen(root) && root.count == 1 && root.di.nlink == 1
      modifies imng`table, imng`owner, imng`live, root, imng.used,
          sb`nfree, sb`freeTotal, sb`fmod, sb`chain, sb`list,
          sb`ninode, sb`inodeTotal, sb`rinode, sb.free, sb.inodes, dev.disk
      ensures Alive() && imng.Slots() == old(imng.Slots())[root.slot := Empty]
      ensures ino == old(root.ino) && imng.live == old(imng.live) && imng.table == old(imng.table)
      ensures sb.list == old(sb.list) && sb.InodeStack() == old(sb.InodeStack())
      ensures dev.Contents()[DATA_START_BLK..] == old(dev.Contents())[DATA_START_BLK..]
    {
      hide InodeManager.Valid, InodeManager.Slots, LiveTree, Readable;
      ino := root.ino;
      SaveAlive(root);
    }

    lemma NobodyLive(t: Table, d: Image)
      ensures LiveTree(t, d, {})
    {
    }

    // write_back on the open root.
    method SaveRoot(root: MemINode)
      requires Shape() && RootOpen(root)
      modifies root`dirty, dev.disk
      ensures RootOpen(root) && !root.dirty && root.di == old(root.di) && dmng.Listing(root) == old(dmng.Listing(root))
      ensures imng.Slots() == old(imng.Slots())[root.slot := old(imng.Slots())[root.slot].(dirty := false)]
    {
      hide InodeManager.Valid, InodeManager.Slots, LiveTree, Readable, WriteInode;
      ghost var d := dev.Contents();
      imng.WriteBack(root);
      WriteInodeIsolated(d, root.ino, root.di);
      assert dev.Contents()[DATA_START_BLK..] == d[DATA_START_BLK..];
      ReadableSameData(root.di, d, dev.Contents());
      ContentSameData(d, dev.Contents());
      LiveTreeSameData(imng.table, d, dev.Contents(), imng.live);
    }

    /** Records the root inode and saves the super block under a live file system. */
    method SetRoot(ino: uint16)
      requires Shape() && Alive()
      modifies sb`rootIno, sb`fmod, dev.disk
      ensures Alive() && sb.rootIno == ino && dev.Contents()[DATA_START_BLK..] == old(dev.Contents())[DATA_START_BLK..]
      ensures Decode(dev.Contents()[SUPER_BLK]).rootIno == ino
      ensures NothingOpen() ==> OnDisk(dev.Contents(), AsVolume())
    {
      hide InodeManager.BlocksOk, CacheAndLife, LiveTree, Decode, OnDisk;
      ghost var d := dev.Contents();
      sb.rootIno := ino;
      ghost var im := sb.Image();
      SaveSuper();
      LiveTreeSameData(imng.table, d, dev.Contents(), imng.live);
      if NothingOpen() {
        Stored(im.fmod);
      }
    }

    // ---------- mounting ----------

    // Saves the super block; nothing the inode layer keeps true is disturbed.
    method SaveSuper()
      requires Shape() && imng.Valid()
      modifies sb`fmod, dev.disk
      ensures imng.Valid() && Decode(dev.Contents()[SUPER_BLK]) == old(sb.Image())
      ensures sb.Image() == old(sb.Image()).(fmod := 0)
      ensures dev.Contents()[DATA_START_BLK..] == old(dev.Contents())[DATA_START_BLK..]
    {
      hide Represents, Consistent, CacheOk, LiveOk, Decode;
      ghost var v := imng.Now();
      sb.Flush();
      assert dev.Contents()[DATA_START_BLK..] == v.d[DATA_START_BLK..];
      ConsistentSameTrees(v, dev.Contents(), v.t);
      CacheFrame(imng.Slots(), imng.table, v.d, dev.Contents());
    }

    /** Everything about the volume that must survive a remount. */
    ghost function AsVolume(): Volume
      reads imng`table, imng`owner, imng`live, imng`lo, imng`base, imng`inodes, sb`chain, sb`list
    {
      Volume(imng.table, imng.owner, imng.live, sb.chain, sb.list, imng.lo, imng.base, imng.inodes)
    }

    ghost predicate NothingOpen()
      requires Shape()
      reads imng.used
    {
      forall i :: 0 <= i < CACHE_SIZE ==> !imng.used[i]
    }

    /** fs_unmount: with no inode in the cache, saving the super block leaves the whole volume on the disk. */
    method FsUnmount()
      requires Shape() && imng.Valid() && NothingOpen()
      modifies sb`fmod, dev.disk
      ensures imng.Valid() && OnDisk(dev.Contents(), AsVolume())
      ensures Decode(dev.Contents()[SUPER_BLK]).rootIno == sb.rootIno
      ensures dev.Contents()[DATA_START_BLK..] == old(dev.Contents())[DATA_START_BLK..]
    {
      hide InodeManager.Valid, Decode, OnDisk;
      SaveSuper();
      Stored(old(sb.fmod));
    }

    // With nothing in the cache a saved super block is all the disk lacked.
    lemma Stored(fmod: byte)
      requires Shape() && imng.Valid() && NothingOpen()
      requires Decode(dev.Contents()[SUPER_BLK]) == sb.Image().(fmod := fmod)
      ensures OnDisk(dev.Contents(), AsVolume())
    {
      hide Represents, Consistent, CacheAndLife, Decode, Counted;
      assert imng.Slots() == NoSlots();
      assert FreeList(sb.nfree, sb.free[..], sb.freeTotal, dev.Contents()) == sb.State();
    }

    /** fs_mount: a file system that holds nothing takes over the volume found on its disk; everything the inode
        layer keeps true holds, and the volume is what it was. */
    method FsMount(ghost vol: Volume) returns (rootIno: uint16)
      requires Shape() && NothingOpen() && OnDisk(dev.Contents(), vol)
      modifies imng`table, imng`owner, imng`live, imng`lo, imng`base, imng`inodes, sb, sb.free, sb.inodes
      ensures imng.Valid() && AsVolume() == vol && NothingOpen()
      ensures rootIno == sb.rootIno == Decode(dev.Contents()[SUPER_BLK]).rootIno
    {
      hide Represents, Consistent, CacheAndLife, Decode, Counted;
      sb.Load();
      imng.table, imng.owner, imng.live, sb.chain, sb.list := vol.t, vol.owner, vol.live, vol.chain, vol.list;
      imng.lo, imng.base, imng.inodes := vol.lo, vol.base, vol.inodes;
      assert imng.Slots() == NoSlots();
      assert FreeList(sb.nfree, sb.free[..], sb.freeTotal, dev.Contents()) == sb.State();
      rootIno := sb.rootIno;
    }

    /** Unmounting, and mounting the same disk with a file system built from scratch: the new one has the same
        inode table, live inodes, block owners, free list and root, the same files, and the same directory tree. */
    method Remount() returns (fs: UnixFs, rootIno: uint16)
      requires Shape() && imng.Valid() && NothingOpen()
      modifies sb`fmod, dev.disk
      ensures fresh(fs) && fs.Shape() && fs.dev == dev && fs.imng.Valid() && fs.NothingOpen()
      ensures fs.AsVolume() == old(AsVolume()) && rootIno == fs.sb.rootIno == old(sb.rootIno)
      ensures dev.Contents()[DATA_START_BLK..] == old(dev.Contents())[DATA_START_BLK..]
      ensures old(Alive()) ==> fs.Alive()
    {
      hide InodeManager.Valid, InodeManager.BlocksOk, InodeManager.Slots, LiveTree, Decode, OnDisk;
      ghost var d := dev.Contents();
      FsUnmount();
      var sb' := new SuperBlock(dev);
      var imng' := new InodeManager(dev, sb');
      var dmng' := new DirectoryManager(dev, imng');
      var oft' := new OpenFileTable();
      fs := new UnixFs(dev, sb', imng', oft', dmng');
      rootIno := fs.FsMount(AsVolume());
      if LiveTree(imng.table, d, imng.live) {
        LiveTreeSameData(imng.table, d, dev.Contents(), imng.live);
      }
    }

    // ---------- usage ----------

    /** fs_block_map: every data block is marked used and the free list then marks its own. */
    method FsBlockMap() returns (out: seq<byte>)
      requires Shape() && sb.Valid()
      ensures MapOf(out, sb.list)
      ensures |UsedCells(out)| == DATA_BLK_NUM - sb.freeTotal
    {
      hide Represents;
      var cells := new byte[TOTAL_BLK_NUM](_ => BLK_USED);
      for b := 0 to DATA_START_BLK
        invariant forall n :: 0 <= n < TOTAL_BLK_NUM ==> cells[n] == if n < b then BLK_META else BLK_USED
      {
        cells[b] := BLK_META;
      }
      var freeBlocks := sb.CollectFreeBlocks();
      sb.ListFacts();
      SameMembers(freeBlocks, sb.list);
      for i := 0 to |freeBlocks|
        invariant forall n :: 0 <= n < TOTAL_BLK_NUM ==>
                    cells[n] == if n < DATA_START_BLK then BLK_META
                        else if n - DATA_START_BLK in freeBlocks[..i] then BLK_FREE else BLK_USED
      {
        assert freeBlocks[i] in freeBlocks;
        assert freeBlocks[..i + 1] == freeBlocks[..i] + [freeBlocks[i]];
        if DATA_START_BLK + freeBlocks[i] < TOTAL_BLK_NUM {
          cells[DATA_START_BLK + freeBlocks[i]] := BLK_FREE;
        }
      }
      assert freeBlocks[..|freeBlocks|] == freeBlocks;
      out := cells[..];
      UsedCellsCount(out, sb.list);
    }

    lemma SameMembers(x: seq<uint16>, y: seq<uint16>)
      requires multiset(x) == multiset(y)
      ensures |x| == |y| && forall b :: b in x <==> b in y
    {
      assert |multiset(x)| == |x| && |multiset(y)| == |y|;
      forall b ensures b in x <==> b in y {
        assert b in x <==> b in multiset(x);
      }
    }

    /** The used blocks fs_disk_usage reports, total less free, are those in front of the managed range and
        those some inode owns; the used inodes are the reserved numbers and the live ones. */
    method FsDiskUsage() returns (totalBlocks: int, usedBlocks: int, totalInodes: int, usedInodes: int)
      requires Shape() && imng.Valid() && sb.fsize == DATA_BLK_NUM && sb.isize == INODE_BLK_NUM
      requires imng.lo <= DATA_BLK_NUM
      ensures totalBlocks == DATA_BLK_NUM && usedBlocks == imng.lo + |imng.owner|
      ensures totalInodes == INODE_TOTAL && usedInodes == imng.base + |imng.live|
    {
      hide Trees, Accounted, CacheAndLife;
      BlocksConserved(sb.list, imng.owner, imng.lo);
      totalBlocks := sb.fsize;
      usedBlocks := totalBlocks - sb.freeTotal;
      totalInodes := sb.isize * INODES_PER_BLK;
      usedInodes := totalInodes - sb.inodeTotal;
    }

    // ---------- the chunk loops ----------

    method ReadChunk(ip: MemINode, cur: nat, chunk: nat) returns (bytes: seq<byte>)
      requires Shape() && imng.BlocksOk() && ip.ino < INODE_TOTAL && imng.table[ip.ino] == ip.di
      requires cur % BLOCK_SIZE + chunk <= BLOCK_SIZE && cur + chunk <= ip.di.size
      ensures bytes == Content(ip.di, dev.Contents())[cur..cur + chunk]
    {
      hide Consistent, FileByte, Represents, Mapped, FileBytes;
      var phys := imng.Bmap(ip, cur / BLOCK_SIZE);
      MappedInRange(imng.Now(), ip.ino, cur / BLOCK_SIZE);
      ChunkOfFile(ip.di.addr, dev.Contents(), ip.di.size, cur, chunk);
      if phys == 0 || phys == INVALID_BLK {
        return Zeros(chunk);
      }
      var _, buf := dev.ReadBlock(DATA_START_BLK + phys, ZERO_BLOCK);
      return buf[cur % BLOCK_SIZE..cur % BLOCK_SIZE + chunk];
    }

    /** Reads a range that lies inside the file, block by block; holes read as zero. */
    method ReadLoop(ip: MemINode, offset: nat, len: nat) returns (dst: seq<byte>)
      requires Shape() && imng.BlocksOk() && ip.ino < INODE_TOTAL && imng.table[ip.ino] == ip.di
      requires offset + len <= ip.di.size
      ensures dst == Content(ip.di, dev.Contents())[offset..offset + len]
    {
      hide Consistent, FileBytes, Represents, Mapped, FileByte;
      ghost var file := Content(ip.di, dev.Contents());
      dst := [];
      while |dst| < len
        invariant |dst| <= len && dst == file[offset..offset + |dst|]
      {
        var chunk := Min(BLOCK_SIZE - (offset + |dst|) % BLOCK_SIZE, len - |dst|);
        var bytes := ReadChunk(ip, offset + |dst|, chunk);
        dst := dst + bytes;
      }
    }

    /** One round of the write loop: maps the block at the cursor and stores one chunk in it. */
    method WriteChunk(ip: MemINode, offset: nat, src: seq<byte>, n: nat, chunk: nat, blkBuf: Block,
        ghost v0: View) returns (ok: bool, blkBuf': Block)
      requires Shape() && imng.BlocksOk() && ip.ino < INODE_TOTAL && imng.table[ip.ino] == ip.di
      requires n < |src| && chunk == Min(BLOCK_SIZE - (offset + n) % BLOCK_SIZE, |src| - n)
      requires n == 0 || (offset + n) % BLOCK_SIZE == 0
      requires Storing(v0, imng.Now(), ip.ino, offset, src[..n], (offset + n) / BLOCK_SIZE)
      modifies ip`di, ip`dirty, imng`table, imng`owner, sb`nfree, sb`freeTotal, sb`fmod, sb`chain, sb`list, sb.free,
          dev.disk
      ensures imng.BlocksOk() && imng.table[ip.ino] == ip.di
      ensures ok ==>
                && offset + n < MAX_FILE
                && Storing(v0, imng.Now(), ip.ino, offset, src[..n + chunk], (offset + n) / BLOCK_SIZE + 1)
      ensures sb.nfree >= 1 <==> old(sb.nfree) >= 1 && (ok || offset + n >= MAX_FILE)
      ensures !ok ==> Stopped(v0, imng.Now(), ip.ino, offset, src[..n], (offset + n) / BLOCK_SIZE)
      ensures !ok ==> sb.list == [] || offset + n >= MAX_FILE
    {
      hide Consistent, Storing, Stopped, Reached, Filled, Grew, Represents, Missing, Mapped;
      var blkIdx, blkOff := (offset + n) / BLOCK_SIZE, (offset + n) % BLOCK_SIZE;
      ghost var v := imng.Now();
      var phys := imng.BmapAlloc(ip, blkIdx);
      ghost var v1 := imng.Now();
      blkBuf' := blkBuf;
      if phys == INVALID_BLK {
        StoringFailed(v0, v, v1, ip.ino, offset, src[..n], blkIdx);
        return false, blkBuf';
      }
      StoringMapped(v0, v, v1, ip.ino, offset, src[..n], blkIdx, phys);
      blkBuf' := PutChunk(ip, phys, offset, src, n, chunk, blkBuf, v0);
      ok := true;
    }

    /** Copies one chunk into its block; a chunk that fills the block needs no read first. */
    method PutChunk(ip: MemINode, phys: uint16, offset: nat, src: seq<byte>, n: nat, chunk: nat, blkBuf: Block,
        ghost v0: View) returns (blkBuf': Block)
      requires Shape() && imng.BlocksOk() && ip.ino < INODE_TOTAL && imng.table[ip.ino] == ip.di
      requires n < |src| && chunk == Min(BLOCK_SIZE - (offset + n) % BLOCK_SIZE, |src| - n)
      requires (n == 0 || (offset + n) % BLOCK_SIZE == 0) && offset + n < MAX_FILE
      requires phys != 0 && phys == Mapped(ip.di.addr, dev.Contents(), (offset + n) / BLOCK_SIZE)
      requires Storing(v0, imng.Now(), ip.ino, offset, src[..n], (offset + n) / BLOCK_SIZE + 1)
      modifies dev.disk
      ensures imng.BlocksOk()
      ensures Storing(v0, imng.Now(), ip.ino, offset, src[..n + chunk], (offset + n) / BLOCK_SIZE + 1)
    {
      hide Consistent, Storing, Represents, Mapped, Patch, SetDataBlock;
      ghost var v := imng.Now();
      var blkOff := (offset + n) % BLOCK_SIZE;
      StoringStored(v0, v, ip.ino, offset, src[..n], phys, src[n..n + chunk]);
      blkBuf' := blkBuf;
      if chunk < BLOCK_SIZE {
        var _, buf := dev.ReadBlock(DATA_START_BLK + phys, blkBuf);
        blkBuf' := buf;
      }
      PatchWhole(blkBuf', DataBlock(v.d, phys), blkOff, src[n..n + chunk]);
      blkBuf' := Patch(blkBuf', blkOff, src[n..n + chunk]);
      imng.WriteData(phys, blkBuf');
      assert src[..n] + src[n..n + chunk] == src[..n + chunk];
      StoringConsistent(v0, imng.Now(), ip.ino, offset, src[..n + chunk], (offset + n) / BLOCK_SIZE + 1);
    }

    /** Writes as much of `src` as there is room for, block by block, mapping blocks on the way. */
    method WriteLoop(ip: MemINode, offset: nat, src: seq<byte>) returns (n: nat)
      requires Shape() && imng.BlocksOk() && ip.ino < INODE_TOTAL && imng.table[ip.ino] == ip.di
      modifies ip`di, ip`dirty, imng`table, imng`owner, sb`nfree, sb`freeTotal, sb`fmod, sb`chain, sb`list, sb.free,
          dev.disk
      ensures imng.BlocksOk() && imng.table[ip.ino] == ip.di
      ensures n <= |src| && (n > 0 ==> offset + n <= MAX_FILE)
      ensures Writing(old(imng.Now()), imng.Now(), ip.ino, offset, src[..n])
      ensures Outcome(old(imng.Now()), imng.Now(), ip.ino, offset, src, n)
      ensures n < |src| ==> sb.list == [] || offset + n >= MAX_FILE
      ensures sb.nfree >= 1 <==> old(sb.nfree) >= 1 && (n == |src| || offset + n >= MAX_FILE)
    {
      hide Consistent, Writing, Storing, Stopped, Outcome, Represents;
      ghost var v0 := imng.Now();
      n := 0;
      var blkBuf := ZERO_BLOCK;
      StoringStart(v0, ip.ino, offset);
      assert src[..0] == [];
      while n < |src|
        invariant imng.BlocksOk() && imng.table[ip.ino] == ip.di
        invariant n <= |src| && (n > 0 ==> offset + n <= MAX_FILE)
        invariant n == |src| || n == 0 || (offset + n) % BLOCK_SIZE == 0
        invariant Storing(v0, imng.Now(), ip.ino, offset, src[..n], BlockEnd(offset, n))
        invariant sb.nfree >= 1 <==> old(sb.nfree) >= 1
      {
        var chunk := Min(BLOCK_SIZE - (offset + n) % BLOCK_SIZE, |src| - n);
        ChunkEnd(offset, n, |src| - n);
        var ok;
        ok, blkBuf := WriteChunk(ip, offset, src, n, chunk, blkBuf, v0);
        if !ok {
          StoppedWriting(v0, imng.Now(), ip.ino, offset, src[..n], BlockEnd(offset, n));
          PartOutcome(v0, imng.Now(), ip.ino, offset, src, n);
          return;
        }
        n := n + chunk;
      }
      assert src[..n] == src;
      StoringConsistent(v0, imng.Now(), ip.ino, offset, src, BlockEnd(offset, n));
      WholeOutcome(v0, imng.Now(), ip.ino, offset, src);
    }

    // ---------- writing to an inode ----------

    /** Stores `src` at `offset` and records the new size.  Everything the inode layer promises still holds,
        and no other file is touched. */
    method WriteAt(ip: MemINode, offset: uint32, src: seq<byte>, now: uint32) returns (n: nat)
      requires Shape() && imng.Valid() && imng.Mine(ip)
      modifies ip`di, ip`dirty, imng`table, imng`owner, sb`nfree, sb`freeTotal, sb`fmod, sb`chain, sb`list, sb.free,
          dev.disk
      ensures imng.Valid()
      ensures ip.ino < INODE_TOTAL && n <= |src| && (n > 0 ==> offset + n <= MAX_FILE)
      ensures ip.di == old(ip.di).(addr := ip.di.addr, size := NewSize(old(ip.di.size), offset, n), mtime := now)
      ensures imng.table == old(imng.table)[ip.ino := ip.di]
      ensures imng.Slots() == old(imng.Slots())[ip.slot := Held(ip.ino, ip.di, ip.count, true)]
      ensures Recorded(old(imng.Now()), imng.Now(), ip.ino, offset, src, n, now)
      ensures n < |src| ==> sb.list == [] || offset + n >= MAX_FILE
      ensures sb.nfree >= 1 <==> old(sb.nfree) >= 1 && (n == |src| || offset + n >= MAX_FILE)
    {
      hide InodeManager.BlocksOk, InodeManager.Slots, CacheAndLife, Recorded, Represents;
      ghost var slots0, v0, stack0 := imng.Slots(), imng.Now(), sb.InodeStack();
      imng.SlotHolds(ip);
      HeldFacts(slots0, stack0, imng.live, v0.t, v0.d, imng.base, imng.inodes, ip.slot);
      n := StoreAndRecord(ip, offset, src, now);
      ghost var x := Held(ip.ino, ip.di, ip.count, true);
      Modified(slots0, stack0, imng.live, v0.t, v0.d, imng.base, imng.inodes, ip.slot, x, dev.Contents());
      assert imng.table == v0.t[x.ino := x.di];
      assert sb.InodeStack() == stack0;
    }

    method StoreAndRecord(ip: MemINode, offset: uint32, src: seq<byte>, now: uint32) returns (n: nat)
      requires Shape() && imng.BlocksOk() && imng.Mine(ip) && ip.ino < INODE_TOTAL && imng.table[ip.ino] == ip.di
      modifies ip`di, ip`dirty, imng`table, imng`owner, sb`nfree, sb`freeTotal, sb`fmod, sb`chain, sb`list, sb.free,
          dev.disk
      ensures imng.BlocksOk()
      ensures n <= |src| && (n > 0 ==> offset + n <= MAX_FILE)
      ensures ip.di == old(ip.di).(addr := ip.di.addr, size := NewSize(old(ip.di.size), offset, n), mtime := now)
      ensures imng.table == old(imng.table)[ip.ino := ip.di]
      ensures imng.Slots() == old(imng.Slots())[ip.slot := Held(ip.ino, ip.di, ip.count, true)]
      ensures Recorded(old(imng.Now()), imng.Now(), ip.ino, offset, src, n, now)
      ensures SameHeader(old(dev.Contents()), dev.Contents())
      ensures n < |src| ==> sb.list == [] || offset + n >= MAX_FILE
      ensures sb.nfree >= 1 <==> old(sb.nfree) >= 1 && (n == |src| || offset + n >= MAX_FILE)
    {
      hide Consistent, Writing, Represents, OthersKept, Written, Outcome, SameHeader;
      ghost var v0 := imng.Now();
      n := WriteLoop(ip, offset, src);
      ghost var v1 := imng.Now();
      WritingParts(v0, v1, ip.ino, offset, src[..n]);
      RecordSize(ip, offset + n, now);
      OthersKeptSame(v0, v1, imng.Now(), ip.ino);
      OutcomeSameData(v0, v1, imng.Now(), ip.ino, offset, src, n);
      assert forall j :: 0 <= j < CACHE_SIZE && j != ip.slot ==> imng.Slots()[j] == old(imng.Slots())[j];
    }

    /** Raises the size if the write went past the end, and stamps the inode. */
    method RecordSize(ip: MemINode, newEnd: uint32, now: uint32)
      requires Shape() && imng.BlocksOk() && ip.ino < INODE_TOTAL && imng.table[ip.ino] == ip.di
      modifies ip`di, ip`dirty, imng`table
      ensures imng.BlocksOk() && ip.dirty
      ensures ip.di == old(ip.di).(size := if newEnd > old(ip.di.size) then newEnd else old(ip.di.size), mtime := now)
      ensures imng.table == old(imng.table)[ip.ino := ip.di]
    {
      hide Consistent, Represents;
      ghost var v := imng.Now();
      if newEnd > ip.di.size {
        ip.di := ip.di.(size := newEnd);
      }
      ip.di := ip.di.(mtime := now);
      ip.dirty := true;
      imng.table := imng.table[ip.ino := ip.di];
      ConsistentSameTrees(v, v.d, imng.table);
    }

    // ---------- the calls ----------

    /** The file behind a descriptor, as bytes. */
    ghost function FileOf(fd: int): seq<byte>
      requires Shape() && oft.Shape() && oft.ValidFd(userSlot, fd)
      reads oft.sysTable, oft.userTable, imng`table, dev.disk
    {
      var ino := oft.Instance(userSlot, fd).ino;
      if ino < INODE_TOTAL then Content(imng.table[ino], dev.Contents()) else []
    }

    ghost function OffsetOf(fd: int): uint32
      requires oft.Shape() && oft.ValidFd(userSlot, fd)
      reads oft.sysTable, oft.userTable
    {
      oft.Instance(userSlot, fd).offset
    }

    /** The descriptor is open on a directory. */
    ghost predicate OnDirectory(fd: int)
      requires Shape() && oft.Shape()
      reads oft.sysTable, oft.userTable, imng`table
    {
      && oft.ValidFd(userSlot, fd)
      && var ino := oft.Instance(userSlot, fd).ino;
         ino < INODE_TOTAL && IsDirectory(imng.table[ino])
    }

    /** The descriptor is not open, not open for writing, or its number names no inode. */
    ghost predicate CannotWrite(fd: int)
      requires Shape() && oft.Shape()
      reads oft.sysTable, oft.userTable
    {
      || !oft.ValidFd(userSlot, fd)
      || (oft.Instance(userSlot, fd).flag / 2 % 2 == 0 && oft.Instance(userSlot, fd).flag / 4 % 2 == 0)
      || oft.Instance(userSlot, fd).ino >= INODE_TOTAL
    }

    ghost predicate CannotRead(fd: int)
      requires Shape() && oft.Shape()
      reads oft.sysTable, oft.userTable
    {
      || !oft.ValidFd(userSlot, fd) || oft.Instance(userSlot, fd).flag % 2 == 0
      || oft.Instance(userSlot, fd).ino >= INODE_TOTAL
    }

    /** Saves a linked inode and drops one reference. */
    method SaveAndPut(ip: MemINode)
      requires Shape() && imng.Valid() && imng.Mine(ip) && !(ip.count == 1 && ip.di.nlink == 0)
      modifies imng`table, imng`owner, imng`live, ip, imng.used,
          sb`nfree, sb`freeTotal, sb`fmod, sb`chain, sb`list,
          sb`ninode, sb`inodeTotal, sb`rinode, sb.free, sb.inodes, dev.disk
      ensures imng.Valid()
      ensures imng.table == old(imng.table) && imng.owner == old(imng.owner) && imng.live == old(imng.live)
      ensures imng.lo == old(imng.lo)
      ensures sb.list == old(sb.list) && sb.nfree == old(sb.nfree) && sb.InodeStack() == old(sb.InodeStack())
      ensures GivenBack(old(imng.Slots()), imng.Slots(), ip.slot)
      ensures old(ip.count) == 1 ==> imng.Slots() == old(imng.Slots())[ip.slot := Empty]
      ensures old(ip.count) > 1 ==>
                imng.Slots() ==
                  old(imng.Slots())[ip.slot := old(imng.Slots())[ip.slot].(dirty := false, count := old(ip.count) - 1)]
      ensures dev.Contents()[DATA_START_BLK..] == old(dev.Contents())[DATA_START_BLK..]
    {
      hide InodeManager.BlocksOk, CacheAndLife, Represents, Consistent, WriteInode, InodeManager.Slots;
      ghost var d := dev.Contents();
      imng.SlotHolds(ip);
      imng.ReferencedIsLive(ip);
      imng.WriteBack(ip);
      WriteInodeIsolated(d, ip.ino, ip.di);
      assert dev.Contents()[DATA_START_BLK..] == d[DATA_START_BLK..];
      var _ := imng.Put(ip);
    }

    /** Gets the inode, writes, saves it, and gives the reference back. */
    method WriteFile(ino: uint16, offset: uint32, src: seq<byte>, now: uint32) returns (r: int)
      requires Shape() && imng.Valid() && (ino < INODE_TOTAL ==> ino in imng.live)
      requires CountsLow(imng.Slots())
      modifies imng`table, imng`owner, imng`live, imng.cache, imng.used,
          sb`nfree, sb`freeTotal, sb`fmod, sb`chain, sb`list,
          sb`ninode, sb`inodeTotal, sb`rinode, sb.free, sb.inodes, dev.disk
      ensures imng.Valid()
      ensures r == -1 || 0 <= r <= |src|
      ensures r == -1 <==> ino >= INODE_TOTAL
      ensures r == -1 ==> imng.Now() == old(imng.Now()) && sb.nfree == old(sb.nfree)
      ensures imng.live == old(imng.live)
      ensures r > 0 ==> offset + r <= MAX_FILE
      ensures 0 <= r ==>
                && ino < INODE_TOTAL && Wrote(old(imng.Now()), imng.Now(), ino, offset, src, r)
                && imng.table[ino].mtime == now
      ensures old(Alive()) && (ino < INODE_TOTAL ==> !IsDirectory(old(imng.table)[ino])) ==> Alive()
      ensures sb.InodeStack() == old(sb.InodeStack())
      ensures SameRefs(old(imng.Slots()), imng.Slots())
      ensures 0 <= r < |src| ==> sb.list == [] || offset + r >= MAX_FILE
      ensures 0 <= r ==> (sb.nfree >= 1 <==> old(sb.nfree) >= 1 && (r == |src| || offset + r >= MAX_FILE))
    {
      hide InodeManager.Valid, InodeManager.Slots, Cached, Wrote, SameRefs, GivenBack, CountsLow, CountsUp, LiveTree;
      ghost var v0, slots0 := imng.Now(), imng.Slots();
      dmng.CountsPositive();
      RefsKept(slots0);
      imng.NeverFull();
      var ip := imng.Get(ino);
      if ip == null {
        return -1;
      }
      imng.SlotHolds(ip);
      ghost var slots1, s := imng.Slots(), ip.slot;
      var n := WriteHeld(ip, offset, src, now);
      StillAlive(v0, imng.Now(), ino, offset, src, n, imng.live);
      RefsAgain(slots0, slots1, imng.Slots(), s, ino, v0.t[ino]);
      return n;
    }

    lemma StillAlive(v0: View, v: View, ino: uint16, off: nat, src: seq<byte>, n: nat, live: set<uint16>)
      requires Wrote(v0, v, ino, off, src, n)
      ensures LiveTree(v0.t, v0.d, live) && ino < INODE_TOTAL && !IsDirectory(v0.t[ino]) ==> LiveTree(v.t, v.d, live)
    {
      hide WroteFile, Outcome, LiveTree;
      if LiveTree(v0.t, v0.d, live) && ino < INODE_TOTAL && !IsDirectory(v0.t[ino]) {
        LiveTreeWritten(v0, v, ino, off, src[..n], live);
      }
    }

    /** Writes to an open inode, saves it and gives the reference back. */
    method WriteHeld(ip: MemINode, offset: uint32, src: seq<byte>, now: uint32) returns (n: nat)
      requires Shape() && imng.Valid() && imng.Mine(ip) && ip.ino < INODE_TOTAL && ip.di == imng.table[ip.ino]
      requires !(ip.count == 1 && ip.di.nlink == 0)
      modifies imng`table, imng`owner, imng`live, ip, imng.used,
          sb`nfree, sb`freeTotal, sb`fmod, sb`chain, sb`list,
          sb`ninode, sb`inodeTotal, sb`rinode, sb.free, sb.inodes, dev.disk
      ensures imng.Valid() && imng.live == old(imng.live)
      ensures n <= |src| && (n > 0 ==> offset + n <= MAX_FILE)
      ensures Wrote(old(imng.Now()), imng.Now(), old(ip.ino), offset, src, n) && imng.table[old(ip.ino)].mtime == now
      ensures sb.InodeStack() == old(sb.InodeStack())
      ensures GivenBack(old(imng.Slots()), imng.Slots(), ip.slot)
      ensures n < |src| ==> sb.list == [] || offset + n >= MAX_FILE
      ensures sb.nfree >= 1 <==> old(sb.nfree) >= 1 && (n == |src| || offset + n >= MAX_FILE)
    {
      hide InodeManager.Valid, InodeManager.Slots, Recorded, Wrote, GivenBack, Consistent;
      ghost var v0, slots0, s := imng.Now(), imng.Slots(), ip.slot;
      imng.ValidIsConsistent();
      imng.SlotHolds(ip);
      n := WriteAt(ip, offset, src, now);
      ghost var v1, slots1, ino := imng.Now(), imng.Slots(), ip.ino;
      SaveAndPut(ip);
      GivenBackAfter(slots0, slots1, imng.Slots(), s, slots1[s]);
      WroteSaved(v0, v1, imng.Now(), ino, offset, src, n, now);
    }

    /** fs_write: writes at the descriptor's offset and moves the offset past what was written. */
    method FsWrite(fd: int, src: seq<byte>, now: uint32) returns (r: int)
      requires Shape() && imng.Valid() && oft.Valid()
      requires oft.ValidFd(userSlot, fd) && oft.Instance(userSlot, fd).ino < INODE_TOTAL ==>
                oft.Instance(userSlot, fd).ino in imng.live
      requires CountsLow(imng.Slots())
      modifies imng`table, imng`owner, imng`live, imng.cache, imng.used,
          sb`nfree, sb`freeTotal, sb`fmod, sb`chain, sb`list,
          sb`ninode, sb`inodeTotal, sb`rinode, sb.free, sb.inodes, dev.disk, oft.sysTable
      ensures imng.Valid() && oft.Valid() && imng.live == old(imng.live) && sb.InodeStack() == old(sb.InodeStack())
      ensures r == -1 || 0 <= r <= |src|
      ensures r == -1 <==> old(CannotWrite(fd))
      ensures r == -1 ==>
                imng.Now() == old(imng.Now()) && sb.nfree == old(sb.nfree) && oft.sysTable[..] == old(oft.sysTable[..])
      ensures 0 <= r ==>
                && old(oft.ValidFd(userSlot, fd)) && oft.ValidFd(userSlot, fd)
                && Wrote(old(imng.Now()), imng.Now(), old(oft.Instance(userSlot, fd)).ino, old(OffsetOf(fd)), src, r)
                && OffsetOf(fd) == old(OffsetOf(fd)) + r
                && oft.Instance(userSlot, fd) == old(oft.Instance(userSlot, fd)).(offset := OffsetOf(fd))
                && imng.table[old(oft.Instance(userSlot, fd)).ino].mtime == now
                && (r < |src| ==> sb.list == [] || OffsetOf(fd) >= MAX_FILE)
                && (sb.nfree >= 1 <==> old(sb.nfree) >= 1 && (r == |src| || OffsetOf(fd) >= MAX_FILE))
      ensures old(Alive()) && !old(OnDirectory(fd)) ==> Alive()
      ensures SameRefs(old(imng.Slots()), imng.Slots())
      ensures oft.OtherInstances(userSlot, fd) == old(oft.OtherInstances(userSlot, fd))
    {
      hide InodeManager.Valid, InodeManager.Slots, Wrote, SameRefs, CountsLow, LiveTree, IsDirectory,
          OpenFileTable.OtherInstances;
      if !oft.ValidFd(userSlot, fd) {
        RefsKept(imng.Slots());
        return -1;
      }
      var flags := oft.GetFlags(userSlot, fd);
      if !CanWrite(flags) {
        RefsKept(imng.Slots());
        return -1;
      }
      r := WriteOpen(fd, src, now);
    }

    // The descriptor is open for writing.
    method WriteOpen(fd: int, src: seq<byte>, now: uint32) returns (r: int)
      requires Shape() && imng.Valid() && oft.Valid() && oft.ValidFd(userSlot, fd)
      requires oft.Instance(userSlot, fd).ino < INODE_TOTAL ==> oft.Instance(userSlot, fd).ino in imng.live
      requires CountsLow(imng.Slots())
      modifies imng`table, imng`owner, imng`live, imng.cache, imng.used,
          sb`nfree, sb`freeTotal, sb`fmod, sb`chain, sb`list,
          sb`ninode, sb`inodeTotal, sb`rinode, sb.free, sb.inodes, dev.disk, oft.sysTable
      ensures imng.Valid() && oft.Valid() && imng.live == old(imng.live) && sb.InodeStack() == old(sb.InodeStack())
      ensures r == -1 || 0 <= r <= |src|
      ensures r == -1 <==> old(oft.Instance(userSlot, fd).ino) >= INODE_TOTAL
      ensures r == -1 ==>
                imng.Now() == old(imng.Now()) && sb.nfree == old(sb.nfree) && oft.sysTable[..] == old(oft.sysTable[..])
      ensures 0 <= r ==>
                && oft.ValidFd(userSlot, fd)
                && Wrote(old(imng.Now()), imng.Now(), old(oft.Instance(userSlot, fd)).ino, old(OffsetOf(fd)), src, r)
                && OffsetOf(fd) == old(OffsetOf(fd)) + r
                && oft.Instance(userSlot, fd) == old(oft.Instance(userSlot, fd)).(offset := OffsetOf(fd))
                && imng.table[old(oft.Instance(userSlot, fd)).ino].mtime == now
                && (r < |src| ==> sb.list == [] || OffsetOf(fd) >= MAX_FILE)
                && (sb.nfree >= 1 <==> old(sb.nfree) >= 1 && (r == |src| || OffsetOf(fd) >= MAX_FILE))
      ensures old(Alive()) && !old(OnDirectory(fd)) ==> Alive()
      ensures SameRefs(old(imng.Slots()), imng.Slots())
      ensures oft.OtherInstances(userSlot, fd) == old(oft.OtherInstances(userSlot, fd))
    {
      hide InodeManager.Valid, InodeManager.Slots, Wrote, SameRefs, CountsLow, LiveTree, IsDirectory,
          OpenFileTable.OtherInstances;
      var ino := oft.GetInode(userSlot, fd);
      var offset := oft.GetOffset(userSlot, fd);
      r := WriteFile(ino, offset, src, now);
      if r == -1 {
        return;
      }
      var _ := oft.SetOffset(userSlot, fd, offset + r);
    }

    /** Gets the inode, reads, stamps it, and gives the reference back.  A dead inode reads as empty, and is
        destroyed a second time. */
    method ReadFile(ino: uint16, offset: uint32, len: nat, now: uint32) returns (r: int, dst: seq<byte>)
      requires Shape() && imng.Valid() && CountsLow(imng.Slots())
      modifies imng`table, imng`owner, imng`live, imng.cache, imng.used,
          sb`nfree, sb`freeTotal, sb`fmod, sb`chain, sb`list,
          sb`ninode, sb`inodeTotal, sb`rinode, sb.free, sb.inodes, dev.disk
      ensures imng.BlocksOk() && sb.ninode <= NICINOD && imng.live == old(imng.live) && sb.list == old(sb.list)
      ensures r == -1 <==> ino >= INODE_TOTAL
      ensures r == -1 ==> dst == [] && imng.Now() == old(imng.Now()) && sb.nfree == old(sb.nfree)
      ensures r != -1 ==>
                && ino < INODE_TOTAL && r == |dst|
                && dst == Slice(old(Content(imng.table[ino], dev.Contents())), offset, len)
      ensures r > 0 ==> offset + r < 0x1_0000_0000
      ensures imng.Valid() <==> dmng.Startable(ino)
      ensures dmng.Startable(ino) ==> OnlyRead() && (old(Alive()) ==> Alive())
      ensures r != -1 && ino in imng.live ==>
                imng.table[ino].atime == if offset < old(imng.table)[ino].size then now else old(imng.table)[ino].atime
      ensures !dmng.Startable(ino) ==> r == 0 && sb.InodeStack() == Returned(old(sb.InodeStack()), ino)
      ensures SameRefs(old(imng.Slots()), imng.Slots())
    {
      hide InodeManager.Valid, InodeManager.BlocksOk, InodeManager.Slots, Cached, SameRefs, SameButAtime, GivenBack,
          FileBytes, Slice, CountsLow, CountsUp, LiveTree, Returned;
      ghost var t, d, slots0 := imng.table, dev.Contents(), imng.Slots();
      StampedNothing(t);
      dmng.CountsPositive();
      imng.NeverFull();
      imng.ValidIsConsistent();
      RefsKept(slots0);
      dst := [];
      var ip := imng.Get(ino);
      if ip == null {
        return -1, dst;
      }
      imng.SlotHolds(ip);
      ghost var slots1, s := imng.Slots(), ip.slot;
      dst := ReadHeld(ip, offset, len, now);
      if ino in imng.live && LiveTree(t, d, imng.live) {
        LiveTreeRead(t, d, imng.table, dev.Contents(), imng.live);
      }
      RefsAgain(slots0, slots1, imng.Slots(), s, ino, t[ino]);
      r := |dst|;
    }

    /** What a read leaves alone: all but access times, the cache, and the inode area of the disk. */
    twostate predicate OnlyRead()
      requires Shape() && sb.ninode <= NICINOD && old(sb.ninode) <= NICINOD
      reads imng, sb, sb.inodes, dev.disk
    {
      && imng.live == old(imng.live) && imng.owner == old(imng.owner)
      && sb.list == old(sb.list) && sb.nfree == old(sb.nfree) && sb.InodeStack() == old(sb.InodeStack())
      && dev.Contents()[DATA_START_BLK..] == old(dev.Contents())[DATA_START_BLK..]
      && SameButAtime(old(imng.table), imng.table)
    }

    /** Reads from an inode just opened, stamps it, and gives the reference back. */
    method ReadHeld(ip: MemINode, offset: uint32, len: nat, now: uint32) returns (dst: seq<byte>)
      requires Shape() && imng.Fetched(ip)
      modifies imng`table, imng`owner, imng`live, ip, imng.used,
          sb`nfree, sb`freeTotal, sb`fmod, sb`chain, sb`list,
          sb`ninode, sb`inodeTotal, sb`rinode, sb.free, sb.inodes, dev.disk
      ensures imng.BlocksOk() && sb.ninode <= NICINOD && imng.live == old(imng.live) && sb.list == old(sb.list)
      ensures imng.Valid() <==> old(ip.ino) in imng.live
      ensures dst == Slice(old(Content(ip.di, dev.Contents())), offset, len)
      ensures dst != [] ==> offset + |dst| < 0x1_0000_0000
      ensures old(ip.ino) in imng.live ==>
                && OnlyRead()
                && imng.table[old(ip.ino)].atime == if offset < old(ip.di.size) then now else old(ip.di.atime)
      ensures old(ip.ino) !in imng.live ==>
                dst == [] && sb.InodeStack() == Returned(old(sb.InodeStack()), old(ip.ino))
      ensures GivenBack(old(imng.Slots()), imng.Slots(), ip.slot)
    {
      hide InodeManager.Valid, InodeManager.BlocksOk, InodeManager.Slots, Cached, Cleared, Counted, FileBytes, GaveUp,
          GivenBack, Returned;
      imng.SlotHolds(ip);
      NoBytes(ip.di);
      dst := [];
      if offset >= ip.di.size {
        imng.PutFetched(ip);
        return;
      }
      dst := ReadLive(ip, offset, len, now);
      imng.ValidIsConsistent();
    }

    lemma NoBytes(di: DInode)
      ensures Cleared(di) ==> di.size == 0
    {
    }

    // The offset lies inside the file, so the inode is live.
    method ReadLive(ip: MemINode, offset: uint32, len: nat, now: uint32) returns (dst: seq<byte>)
      requires Shape() && imng.Fetched(ip) && offset < ip.di.size && ip.ino in imng.live
      modifies imng`table, imng`owner, imng`live, ip, imng.used,
          sb`nfree, sb`freeTotal, sb`fmod, sb`chain, sb`list,
          sb`ninode, sb`inodeTotal, sb`rinode, sb.free, sb.inodes, dev.disk
      ensures imng.Valid() && OnlyRead()
      ensures dst == Slice(old(Content(ip.di, dev.Contents())), offset, len)
      ensures dst != [] ==> offset + |dst| < 0x1_0000_0000
      ensures old(ip.ino) < INODE_TOTAL && imng.table[old(ip.ino)].atime == now
      ensures GivenBack(old(imng.Slots()), imng.Slots(), ip.slot)
    {
      hide InodeManager.Valid, InodeManager.BlocksOk, InodeManager.Slots, Content, GivenBack, Slice;
      ghost var slots0, s := imng.Slots(), ip.slot;
      dst := ReadStamped(ip, offset, len, now);
      ghost var slots1 := imng.Slots();
      imng.SlotHolds(ip);
      imng.PutFetched(ip);
      GivenBackAfter(slots0, slots1, imng.Slots(), s, slots1[s]);
    }

    // The bytes, and the access time stamped.
    method ReadStamped(ip: MemINode, offset: uint32, len: nat, now: uint32) returns (dst: seq<byte>)
      requires Shape() && imng.Fetched(ip) && offset < ip.di.size && ip.ino in imng.live
      modifies ip`di, ip`dirty, imng`table
      ensures imng.Fetched(ip) && SameButAtime(old(imng.table), imng.table) && imng.table[ip.ino].atime == now
      ensures dst == Slice(old(Content(ip.di, dev.Contents())), offset, len)
      ensures dst != [] ==> offset + |dst| < 0x1_0000_0000
      ensures old(imng.Slots())[ip.slot].Held?
      ensures imng.Slots() == old(imng.Slots())[ip.slot := old(imng.Slots())[ip.slot].(di := ip.di, dirty := true)]
    {
      hide InodeManager.Valid, InodeManager.BlocksOk, InodeManager.Slots, Counted, FileBytes;
      imng.SlotHolds(ip);
      var size := ip.di.size;
      var n := if offset + len > size then size - offset else len;
      dst := ReadFrom(ip, offset, n);
      StampAccess(ip, now);
      imng.ValidIsConsistent();
      imng.ReferencedIsLive(ip);
    }

    method ReadFrom(ip: MemINode, offset: nat, n: nat) returns (dst: seq<byte>)
      requires Shape() && imng.Valid() && imng.Mine(ip) && offset + n <= ip.di.size
      ensures dst == Content(ip.di, dev.Contents())[offset..offset + n]
    {
      hide InodeManager.BlocksOk, CacheAndLife;
      imng.SlotHolds(ip);
      HeldFacts(imng.Slots(), sb.InodeStack(), imng.live, imng.table, dev.Contents(), imng.base, imng.inodes, ip.slot);
      dst := ReadLoop(ip, offset, n);
    }

    method StampAccess(ip: MemINode, now: uint32)
      requires Shape() && imng.Valid() && imng.Mine(ip)
      modifies ip`di, ip`dirty, imng`table
      ensures imng.Valid() && ip.ino < INODE_TOTAL
      ensures ip.di == old(ip.di).(atime := now) && imng.table == old(imng.table)[ip.ino := ip.di]
      ensures imng.Slots() == old(imng.Slots())[ip.slot := old(imng.Slots())[ip.slot].(di := ip.di, dirty := true)]
    {
      hide InodeManager.Valid;
      imng.SetInode(ip, ip.di.(atime := now));
    }

    /** The inode behind the descriptor is not dead. */
    ghost predicate LiveFd(fd: int)
      requires Shape() && oft.Shape()
      reads imng`live, oft.sysTable, oft.userTable
    {
      oft.ValidFd(userSlot, fd) ==> dmng.Startable(oft.Instance(userSlot, fd).ino)
    }

    /** fs_read: returns the slice at the descriptor's offset and moves the offset past it.  Through a descriptor
        whose inode is dead it reads nothing, and the inode's number is returned once more. */
    method FsRead(fd: int, len: nat, now: uint32) returns (r: int, dst: seq<byte>)
      requires Shape() && imng.Valid() && oft.Valid() && CountsLow(imng.Slots())
      modifies imng`table, imng`owner, imng`live, imng.cache, imng.used,
          sb`nfree, sb`freeTotal, sb`fmod, sb`chain, sb`list,
          sb`ninode, sb`inodeTotal, sb`rinode, sb.free, sb.inodes, dev.disk, oft.sysTable
      ensures imng.BlocksOk() && sb.ninode <= NICINOD && oft.Valid() && imng.live == old(imng.live)
      ensures sb.list == old(sb.list)
      ensures r == -1 <==> old(CannotRead(fd))
      ensures r == -1 ==>
                && dst == [] && imng.Now() == old(imng.Now()) && sb.nfree == old(sb.nfree)
                && oft.sysTable[..] == old(oft.sysTable[..])
      ensures r != -1 ==>
                && old(oft.ValidFd(userSlot, fd)) && oft.ValidFd(userSlot, fd)
                && r == |dst| && dst == Slice(old(FileOf(fd)), old(OffsetOf(fd)), len)
                && OffsetOf(fd) == old(OffsetOf(fd)) + r
                && oft.Instance(userSlot, fd) == old(oft.Instance(userSlot, fd)).(offset := OffsetOf(fd))
      ensures imng.Valid() <==> r == -1 || old(LiveFd(fd))
      ensures imng.Valid() ==> OnlyRead() && (old(Alive()) ==> Alive())
      ensures r != -1 && imng.Valid() ==>
                && var ino, t := old(oft.Instance(userSlot, fd)).ino, old(imng.table);
                   imng.table[ino].atime == if old(OffsetOf(fd)) < t[ino].size then now else t[ino].atime
      ensures !imng.Valid() ==>
                && r == 0 && old(oft.ValidFd(userSlot, fd))
                && sb.InodeStack() == Returned(old(sb.InodeStack()), old(oft.Instance(userSlot, fd).ino))
      ensures SameRefs(old(imng.Slots()), imng.Slots())
      ensures oft.OtherInstances(userSlot, fd) == old(oft.OtherInstances(userSlot, fd))
    {
      hide InodeManager.Valid, InodeManager.BlocksOk, InodeManager.Slots, FileBytes, SameRefs, SameButAtime, Slice,
          CountsLow, LiveTree, Returned, OpenFileTable.OtherInstances;
      dst := [];
      RefsKept(imng.Slots());
      StampedNothing(imng.table);
      imng.ValidIsConsistent();
      if !oft.ValidFd(userSlot, fd) {
        return -1, dst;
      }
      var flags := oft.GetFlags(userSlot, fd);
      if !CanRead(flags) {
        return -1, dst;
      }
      r, dst := ReadOpen(fd, len, now);
    }

    // The descriptor is open for reading.
    method ReadOpen(fd: int, len: nat, now: uint32) returns (r: int, dst: seq<byte>)
      requires Shape() && imng.Valid() && oft.Valid() && oft.ValidFd(userSlot, fd) && CountsLow(imng.Slots())
      modifies imng`table, imng`owner, imng`live, imng.cache, imng.used,
          sb`nfree, sb`freeTotal, sb`fmod, sb`chain, sb`list,
          sb`ninode, sb`inodeTotal, sb`rinode, sb.free, sb.inodes, dev.disk, oft.sysTable
      ensures imng.BlocksOk() && sb.ninode <= NICINOD && oft.Valid() && imng.live == old(imng.live)
      ensures sb.list == old(sb.list)
      ensures r == -1 <==> old(oft.Instance(userSlot, fd).ino) >= INODE_TOTAL
      ensures r == -1 ==>
                && dst == [] && imng.Now() == old(imng.Now()) && sb.nfree == old(sb.nfree)
                && oft.sysTable[..] == old(oft.sysTable[..])
      ensures r != -1 ==>
                && oft.ValidFd(userSlot, fd)
                && r == |dst| && dst == Slice(old(FileOf(fd)), old(OffsetOf(fd)), len)
                && OffsetOf(fd) == old(OffsetOf(fd)) + r
                && oft.Instance(userSlot, fd) == old(oft.Instance(userSlot, fd)).(offset := OffsetOf(fd))
      ensures imng.Valid() <==> r == -1 || old(LiveFd(fd))
      ensures imng.Valid() ==> OnlyRead() && (old(Alive()) ==> Alive())
      ensures r != -1 && imng.Valid() ==>
                && var ino, t := old(oft.Instance(userSlot, fd)).ino, old(imng.table);
                   imng.table[ino].atime == if old(OffsetOf(fd)) < t[ino].size then now else t[ino].atime
      ensures !imng.Valid() ==>
                r == 0 && sb.InodeStack() == Returned(old(sb.InodeStack()), old(oft.Instance(userSlot, fd).ino))
      ensures SameRefs(old(imng.Slots()), imng.Slots())
      ensures oft.OtherInstances(userSlot, fd) == old(oft.OtherInstances(userSlot, fd))
    {
      hide InodeManager.Valid, InodeManager.BlocksOk, InodeManager.Slots, FileBytes, SameRefs, SameButAtime, Slice,
          CountsLow, LiveTree, Returned, OpenFileTable.OtherInstances;
      var ino := oft.GetInode(userSlot, fd);
      var offset := oft.GetOffset(userSlot, fd);
      r, dst := ReadFile(ino, offset, len, now);
      if r <= 0 {
        return;
      }
      var _ := oft.SetOffset(userSlot, fd, offset + r);
    }
  }

  lemma StampedNothing(t: Table)
    ensures SameButAtime(t, t)
  {
  }

  lemma SlotGivenBack(slots0: seq<Slot>, slots1: seq<Slot>, s: nat, r: nat, x: Slot, y: Slot)
    requires s < |slots0| && r < |slots0| && s != r && slots0[s].Empty? && slots1 == slots0[s := y]
    ensures slots1[r := x][s := Empty] == slots0[r := x]
  {
  }

  lemma ChunkEnd(off: nat, n: nat, left: nat)
    requires left > 0 && (n == 0 || (off + n) % BLOCK_SIZE == 0)
    ensures BlockEnd(off, n) == (off + n) / BLOCK_SIZE
    ensures var chunk := Min(BLOCK_SIZE - (off + n) % BLOCK_SIZE, left);
            && 0 < chunk <= left
            && (chunk == left || (off + n + chunk) % BLOCK_SIZE == 0)
            && (off + n < MAX_FILE ==> off + n + chunk <= MAX_FILE)
            && BlockEnd(off, n + chunk) == (off + n) / BLOCK_SIZE + 1
  {
  }

  /** A chunk that fills the block needs no old contents. */
  lemma PatchWhole(x: Block, y: Block, at: nat, chunk: seq<byte>)
    requires at + |chunk| <= BLOCK_SIZE
    requires x == y || |chunk| == BLOCK_SIZE
    ensures Patch(x, at, chunk) == Patch(y, at, chunk)
  {
  }
}
