/** The super block: the in-memory stack of the grouped free-block list and the stack of free inode
    numbers.  The disk it reads and writes is shared with everything else. */
module SuperBlocks {
  import opened Bytes
  import opened BlockDevices
  import opened FreeLists
  import opened FreeListLaws
  import opened FormatLists
  import opened CollectLaws
  import opened SuperImages

  class SuperBlock {
    const dev: BlockDevice
    var nfree: uint16
    const free: array<uint16>
    var ninode: uint16
    const inodes: array<uint16>
    var rinode: uint16
    var freeTotal: uint16
    var inodeTotal: uint16
    var rootIno: uint16
    var isize: uint16
    var fsize: uint16
    var fmod: byte

    // The chain of group blocks, and the free blocks in the order they would be handed out.
    ghost var chain: seq<uint16>
    ghost var list: seq<uint16>

    ghost predicate Shape()
    {
      dev.Valid() && free.Length == NICFREE && inodes.Length == NICINOD && free != inodes
    }

    ghost function State(): FreeList
      requires Shape()
      reads `nfree, `freeTotal, free, dev.disk
    {
      FreeList(nfree, free[..], freeTotal, dev.Contents())
    }

    /** The free-block part is meaningful. */
    ghost predicate Valid()
      reads `nfree, `freeTotal, `chain, `list, free, dev.disk
    {
      Shape() && Represents(State(), chain, list)
    }

    lemma ListFacts()
      requires Valid()
      ensures Distinct(list) && InData(list)
      ensures nfree == 0 ==> list == []
      ensures freeTotal == |list|
    {
    }

    /** The free inode numbers, top of the stack last. */
    ghost function InodeStack(): seq<uint16>
      requires Shape() && ninode <= NICINOD
      reads `ninode, inodes
    {
      inodes[..ninode]
    }

    // ---------- persistence ----------

    ghost function Image(): SuperImage
      requires Shape()
      reads this, free, inodes
    {
      SuperImage(isize, fsize, nfree, free[..], ninode, inodes[..], rinode, freeTotal, inodeTotal, rootIno, fmod)
    }

    /** Saves the super block; what a later load would read is exactly the state saved. */
    method Flush()
      requires Shape()
      modifies `fmod, dev.disk
      ensures Decode(dev.Contents()[SUPER_BLK]) == old(Image())
      ensures Image() == old(Image()).(fmod := 0)
      ensures dev.Contents() == old(dev.Contents())[SUPER_BLK := dev.Contents()[SUPER_BLK]]
      ensures State() == old(State()).(disk := dev.Contents())
      ensures old(Valid()) ==> Valid()
    {
      hide Represents, Encode, Decode;
      ghost var s0, im := State(), Image();
      var buf := Encode(SuperImage(isize, fsize, nfree, free[..], ninode, inodes[..], rinode, freeTotal, inodeTotal,
          rootIno, fmod));
      var _ := dev.WriteBlock(SUPER_BLK, buf);
      fmod := 0;
      DecodeEncode(im);
      if Represents(s0, chain, list) {
        MetadataFrame(s0, chain, list, dev.Contents());
      }
    }

    /** Takes over the super block found on the disk. */
    method Load()
      requires Shape()
      modifies this, free, inodes
      ensures Image() == Decode(dev.Contents()[SUPER_BLK])
    {
      var _, buf := dev.ReadBlock(SUPER_BLK, ZERO_BLOCK);
      var s := Decode(buf);
      isize, fsize, nfree, ninode := s.isize, s.fsize, s.nfree, s.ninode;
      rinode, freeTotal, inodeTotal, rootIno, fmod := s.rinode, s.freeTotal, s.inodeTotal, s.rootIno, s.fmod;
      forall i | 0 <= i < NICFREE {
        free[i] := s.free[i];
      }
      forall i | 0 <= i < NICINOD {
        inodes[i] := s.inodes[i];
      }
      assert free[..] == s.free && inodes[..] == s.inodes;
    }

    // ---------- formatting ----------

    /** Writes one group: its link, then the next block numbers, stored in the block at the cursor. */
    method WriteGroup(cursor: uint16, prevLink: uint16)
      requires Shape() && cursor + NICFREE <= DATA_BLK_NUM
      modifies dev.disk
      ensures exists blk: Block {:trigger WordAt(blk, 0)} ::
                && dev.Contents() == SetDataBlock(old(dev.Contents()), cursor, blk)
                && WordAt(blk, 0) == NICFREE
                && Words(blk, 1, NICFREE)[0] == prevLink
                && Consecutive(Words(blk, 1, NICFREE)[1..], cursor + 1)
    {
      var buf := PutWord(PutWord(ZERO_BLOCK, 0, NICFREE), 1, prevLink);
      var next := cursor + 1;
      for i := 1 to NICFREE
        invariant next == cursor + i
        invariant WordAt(buf, 0) == NICFREE && WordAt(buf, 1) == prevLink
        invariant forall j :: 2 <= j <= i ==> WordAt(buf, j) == cursor + j - 1
      {
        buf := PutWord(buf, 1 + i, next);
        next := next + 1;
      }
      var _ := dev.WriteBlock(DATA_START_BLK + cursor, buf);
      assert Consecutive(Words(buf, 1, NICFREE)[1..], cursor + 1);
      assert dev.Contents() == SetDataBlock(old(dev.Contents()), cursor, buf) && WordAt(buf, 0) == NICFREE;
    }

    /** Lays out the free list over all blocks from `reservedBlocks` up and fills the inode stack.
        The free list is meaningful exactly when at least one block is reserved. */
    method Format(reservedBlocks: uint16, reservedInodes: uint16)
      requires Shape() && reservedBlocks <= DATA_BLK_NUM && reservedInodes <= INODE_TOTAL
      modifies this, free, inodes, dev.disk
      ensures reservedBlocks >= 1 ==> Valid() && Covers(list, reservedBlocks, DATA_BLK_NUM)
      ensures reservedBlocks == 0 ==> forall c, l :: !Represents(State(), c, l)
      ensures 1 <= nfree <= NICFREE && freeTotal == DATA_BLK_NUM - reservedBlocks
      ensures isize == INODE_BLK_NUM && fsize == DATA_BLK_NUM
      ensures ninode == (if INODE_TOTAL - reservedInodes < NICINOD then INODE_TOTAL - reservedInodes else NICINOD)
      ensures forall k :: 0 <= k < ninode ==> InodeStack()[k] == reservedInodes + (ninode - 1 - k)
      ensures rinode == reservedInodes + ninode && inodeTotal == INODE_TOTAL - reservedInodes
      ensures Decode(dev.Contents()[SUPER_BLK]) == Image().(fmod := 1) && fmod == 0
      ensures forall n :: 0 <= n < DATA_START_BLK + reservedBlocks && n != SUPER_BLK ==>
                dev.Contents()[n] == old(dev.Contents()[n])
    {
      hide Represents, Covers, Decode, Encode;
      isize, fsize, rootIno := INODE_BLK_NUM, DATA_BLK_NUM, 0;
      LayOutBlocks(reservedBlocks);
      StackInodes(reservedInodes);
      Flush();
      if reservedBlocks == 0 {
        AllBlocksIsTooMany(State());
      }
    }

    method LayOutBlocks(reservedBlocks: uint16)
      requires Shape() && reservedBlocks <= DATA_BLK_NUM
      modifies `nfree, `freeTotal, `chain, `list, `fmod, free, dev.disk
      ensures reservedBlocks >= 1 ==> Valid() && Covers(list, reservedBlocks, DATA_BLK_NUM)
      ensures 1 <= nfree <= NICFREE && freeTotal == DATA_BLK_NUM - reservedBlocks && fmod == 1
      ensures forall n :: 0 <= n < DATA_START_BLK + reservedBlocks ==> dev.Contents()[n] == old(dev.Contents()[n])
    {
      hide Represents, GroupsBuilt, Covers, Consecutive, Words;
      fmod := 1;
      var totalFree := DATA_BLK_NUM - reservedBlocks;
      var cursor: uint16 := reservedBlocks;
      var prevLink: uint16 := END_OF_CHAIN;
      ghost var ch: seq<uint16> := [];
      NoGroups(dev.Contents(), reservedBlocks);
      while totalFree - (cursor - reservedBlocks) >= NICFREE
        invariant reservedBlocks <= cursor <= DATA_BLK_NUM && fmod == 1
        invariant GroupsBuilt(dev.Contents(), prevLink, ch, reservedBlocks, cursor)
        invariant forall n :: 0 <= n < DATA_START_BLK + reservedBlocks ==> dev.Contents()[n] == old(dev.Contents()[n])
      {
        ghost var d := dev.Contents();
        WriteGroup(cursor, prevLink);
        ghost var blk: Block :|
          && dev.Contents() == SetDataBlock(d, cursor, blk)
          && WordAt(blk, 0) == NICFREE
          && Words(blk, 1, NICFREE)[0] == prevLink
          && Consecutive(Words(blk, 1, NICFREE)[1..], cursor + 1);
        GroupAdded(d, blk, prevLink, ch, reservedBlocks, cursor);
        ch := if cursor == 0 then [] else [cursor] + ch;
        prevLink := cursor;
        cursor := cursor + NICFREE;
      }
      StackRest(cursor, prevLink);
      freeTotal := totalFree;
      ghost var fl := State();
      FormatDone(fl, ch, reservedBlocks, cursor);
      chain, list := ch, Listing(fl, ch);
      if reservedBlocks > 0 {
        assert State() == fl.(total := |Listing(fl, ch)|);
      }
    }

    /** The blocks that do not fill a group stay on the in-memory stack, above the link. */
    method StackRest(cursor: uint16, prevLink: uint16)
      requires Shape() && DATA_BLK_NUM - NICFREE < cursor <= DATA_BLK_NUM
      modifies `nfree, free
      ensures nfree == DATA_BLK_NUM - cursor + 1
      ensures free[0] == prevLink && Consecutive(free[1..nfree], cursor)
    {
      var remaining := DATA_BLK_NUM - cursor;
      nfree := remaining + 1;
      free[0] := prevLink;
      for i := 0 to remaining
        invariant nfree == remaining + 1 && free[0] == prevLink
        invariant forall j :: 1 <= j <= i ==> free[j] == cursor + j - 1
      {
        free[1 + i] := cursor + i;
      }
    }

    method StackInodes(reservedInodes: uint16)
      requires Shape() && reservedInodes <= INODE_TOTAL
      modifies `ninode, `rinode, `inodeTotal, inodes
      ensures ninode == (if INODE_TOTAL - reservedInodes < NICINOD then INODE_TOTAL - reservedInodes else NICINOD)
      ensures forall k :: 0 <= k < ninode ==> InodeStack()[k] == reservedInodes + (ninode - 1 - k)
      ensures rinode == reservedInodes + ninode && inodeTotal == INODE_TOTAL - reservedInodes
    {
      var count: uint16 := NICINOD;
      if INODE_TOTAL - reservedInodes < count {
        count := INODE_TOTAL - reservedInodes;
      }
      ninode := 0;
      for k := 0 to count
        invariant ninode == k
        invariant forall j :: 0 <= j < k ==> inodes[j] == reservedInodes + (count - 1 - j)
      {
        inodes[ninode] := reservedInodes + (count - 1 - k);
        ninode := ninode + 1;
      }
      rinode := reservedInodes + count;
      inodeTotal := INODE_TOTAL - reservedInodes;
    }

    constructor (dev: BlockDevice)
      requires dev.Valid()
      ensures Shape() && this.dev == dev && fresh(free) && fresh(inodes)
      ensures nfree == 0 && ninode == 0
    {
      this.dev := dev;
      free := new uint16[NICFREE](_ => 0);
      inodes := new uint16[NICINOD](_ => 0);
      nfree, ninode, rinode, freeTotal, inodeTotal, fmod := 0, 0, 0, 0, 0, 0;
      isize, fsize, rootIno := 0, 0, 0;
    }

    /** Replaces the stack by the group saved in block `link`. */
    method LoadGroup(link: uint16)
      requires Shape() && link < DATA_BLK_NUM && GroupCount(dev.Contents(), link) <= NICFREE
      modifies `nfree, free
      ensures nfree == GroupCount(dev.Contents(), link)
      ensures free[..] == GroupStack(dev.Contents(), link)[..nfree] + old(free[..])[nfree..]
    {
      ghost var d, free0 := dev.Contents(), free[..];
      var _, buf := dev.ReadBlock(DATA_START_BLK + link, ZERO_BLOCK);
      nfree := WordAt(buf, 0);
      for i := 0 to nfree
        invariant nfree == WordAt(buf, 0)
        invariant forall j :: 0 <= j < i ==> free[j] == WordAt(buf, 1 + j)
        invariant forall j :: i <= j < NICFREE ==> free[j] == old(free[j])
      {
        free[i] := WordAt(buf, 1 + i);
      }
      assert buf == DataBlock(d, link) && dev.Contents() == d;
      assert free[..] == GroupStack(d, link)[..nfree] + free0[nfree..];
    }

    /** Saves the full stack into block b. */
    method SaveGroup(b: uint16)
      requires Shape() && b < DATA_BLK_NUM && nfree == NICFREE
      modifies dev.disk
      ensures dev.Contents() == SetDataBlock(old(dev.Contents()), b, GroupBlock(free[..]))
    {
      var buf := PutWord(ZERO_BLOCK, 0, nfree);
      for i := 0 to nfree
        invariant buf == FillGroup(free[..], i)
      {
        buf := PutWord(buf, 1 + i, free[i]);
      }
      var _ := dev.WriteBlock(DATA_START_BLK + b, buf);
    }

    /** The allocation step on the concrete fields. */
    method PopStack() returns (b: uint16)
      requires Shape() && Sound(State())
      modifies `nfree, `freeTotal, `fmod, free
      ensures State() == Allocate(old(State())).0 && b == Allocate(old(State())).1
      ensures fmod == if old(nfree) == 0 || (old(nfree) == 1 && old(free[0]) == END_OF_CHAIN) then old(fmod) else 1
    {
      if nfree == 0 {
        return INVALID_BLK;
      }
      if nfree == 1 {
        var link := free[0];
        if link == END_OF_CHAIN {
          nfree := 0;
          return INVALID_BLK;
        }
        LoadGroup(link);
        freeTotal := (freeTotal - 1) % 0x1_0000;
        fmod := 1;
        return link;
      }
      nfree := nfree - 1;
      b := free[nfree];
      freeTotal := (freeTotal - 1) % 0x1_0000;
      fmod := 1;
    }

    /** Pops the free list.  A failed allocation leaves the stack without its link slot. */
    method BAlloc() returns (b: uint16)
      requires Valid()
      modifies `nfree, `freeTotal, `fmod, `chain, `list, free
      ensures Valid()
      ensures old(list) == [] ==> b == INVALID_BLK && list == [] && nfree == 0
      ensures old(list) != [] ==> b == old(list)[0] && list == old(list)[1..] && nfree >= 1 && fmod == 1
    {
      hide Represents, Allocate, Sound;
      EmptyWhen(State(), chain, list);
      ghost var chain' := AllocatePops(State(), chain, list);
      b := PopStack();
      chain, list := chain', if list == [] then [] else list[1..];
    }

    /** The release step on the concrete fields. */
    method PushStack(b: uint16)
      requires Shape() && Sound(State()) && b < DATA_BLK_NUM
      modifies `nfree, `freeTotal, `fmod, free, dev.disk
      ensures State() == Release(old(State()), b) && fmod == 1
    {
      hide Sound, GroupBlock, SetDataBlock;
      assert nfree <= NICFREE by { SoundCount(State()); }
      if nfree == NICFREE {
        SaveGroup(b);
        nfree := 1;
        free[0] := b;
      } else {
        free[nfree] := b;
        nfree := nfree + 1;
      }
      freeTotal := (freeTotal + 1) % 0x1_0000;
      fmod := 1;
    }

    /** Pushes b, saving a full stack into b itself.  After a failed allocation the stack has no link slot, b
        lands in it, and what is left stands for no free list at all. */
    method BFree(b: uint16)
      requires Valid() && 0 < b < DATA_BLK_NUM && b !in list
      modifies `nfree, `freeTotal, `fmod, `chain, `list, free, dev.disk
      ensures Valid() <==> old(nfree) >= 1
      ensures old(nfree) >= 1 ==> nfree >= 1 && list == [b] + old(list)
      ensures fmod == 1
      ensures old(nfree) == 0 ==> forall c, l :: !Represents(State(), c, l)
      ensures forall n :: 0 <= n < TOTAL_BLK_NUM && n != DATA_START_BLK + b ==>
                dev.Contents()[n] == old(dev.Contents()[n])
    {
      hide Represents, Sound, Release;
      ghost var s0 := State();
      ReleaseSafeIff(s0, chain, list, b);
      PushStack(b);
      ReleaseFrame(s0, b);
      if s0.nfree >= 1 {
        ghost var chain' := ReleasePushes(s0, chain, list, b);
        chain, list := chain', [b] + list;
      }
    }

    /** Pops the stack of free inode numbers; an empty stack is a failure, whatever the disk holds. */
    method IAlloc() returns (ino: uint16)
      requires Shape() && ninode <= NICINOD
      modifies `ninode, `inodeTotal, `fmod
      ensures ninode <= NICINOD
      ensures old(InodeStack()) == [] ==> ino == INVALID_BLK && InodeStack() == [] && inodeTotal == old(inodeTotal)
      ensures old(InodeStack()) != [] ==>
                && old(InodeStack()) == InodeStack() + [ino] && inodeTotal == (old(inodeTotal) - 1) % 0x1_0000
                && fmod == 1
    {
      if ninode == 0 {
        return INVALID_BLK;
      }
      ninode := ninode - 1;
      ino := inodes[ninode];
      inodeTotal := (inodeTotal - 1) % 0x1_0000;
      fmod := 1;
    }

    /** Pushes an inode number; when the stack is full the number is only remembered as a scan start. */
    method IFree(ino: uint16)
      requires Shape() && ninode <= NICINOD
      modifies `ninode, `inodeTotal, `rinode, `fmod, inodes
      ensures ninode <= NICINOD && fmod == 1
      ensures inodeTotal == (old(inodeTotal) + 1) % 0x1_0000
      ensures InodeStack() == Returned(old(InodeStack()), ino)
      ensures rinode == if old(ninode) == NICINOD && ino < old(rinode) then ino else old(rinode)
    {
      inodeTotal := (inodeTotal + 1) % 0x1_0000;
      if ninode < NICINOD {
        inodes[ninode] := ino;
        ninode := ninode + 1;
      } else if ino < rinode {
        rinode := ino;
      }
      fmod := 1;
    }

    // ---------- reporting ----------

    /** Lists the free blocks by walking the links.  Each free block is listed exactly once; the step
        guard never cuts the walk short. */
    method CollectFreeBlocks() returns (out: seq<uint16>)
      requires Valid()
      ensures multiset(out) == multiset(list)
      ensures |out| == freeTotal && Distinct(out)
    {
      hide Represents, Chained, Walked, InData, GroupStack, Distinct;
      ghost var fl := State();
      StartWalk(fl, chain, list);
      out := if nfree >= 1 then free[1..nfree] else [];
      var link: uint16 := if nfree >= 1 then free[0] else END_OF_CHAIN;
      ghost var d, rest, total := dev.Contents(), chain, out + Walked(dev.Contents(), chain);
      var guard := 0;
      while link != END_OF_CHAIN && guard < DATA_BLK_NUM
        invariant InData(rest) && Chained(d, link, rest) && |rest| == |chain| - guard
        invariant total == out + Walked(d, rest)
        decreases DATA_BLK_NUM - guard
      {
        WalkStep(d, link, rest, out);
        var _, buf := dev.ReadBlock(DATA_START_BLK + link, ZERO_BLOCK);
        out := out + [link];
        var count := WordAt(buf, 0);
        var next := WordAt(buf, 1);
        assert buf == DataBlock(d, link);
        if count == 0 || count > NICFREE {
          break;
        }
        GroupEntry(d, link, 1);
        out := AppendEntries(link, buf, count, out);
        link, rest := next, rest[1..];
        guard := guard + 1;
      }
      EndWalk(d, link, rest);
      CollectedAll(fl, chain, list, out);
    }

    /** Appends the entries of a group above its link. */
    method AppendEntries(link: uint16, buf: Block, count: uint16, out0: seq<uint16>) returns (out: seq<uint16>)
      requires Shape() && link < DATA_BLK_NUM && buf == DataBlock(dev.Contents(), link)
      requires count == GroupCount(dev.Contents(), link) && 1 <= count <= NICFREE
      ensures |GroupStack(dev.Contents(), link)| == NICFREE
      ensures out == out0 + GroupStack(dev.Contents(), link)[1..count]
    {
      hide GroupStack;
      ghost var d := dev.Contents();
      out := out0;
      GroupEntry(d, link, 1);
      for i := 2 to count + 1
        invariant out == out0 + GroupStack(d, link)[1..i - 1]
      {
        GroupEntry(d, link, i);
        out := out + [WordAt(buf, i)];
      }
    }
  }
}
