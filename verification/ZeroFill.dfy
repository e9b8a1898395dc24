/** When a UNIX write reads back as one into a zero-filled file, and inputs for which it does not. */
module ZeroFills {
  import opened Bytes
  import opened BlockDevices
  import opened FreeLists
  import opened FormatLists
  import opened SuperImages
  import opened InodeTrees
  import opened InodeWalks
  import opened DiskInodes
  import opened InodeCaches
  import opened InodeViews
  import opened InodeLives
  import opened InodeGrowths
  import opened FileSpecs
  import opened FileContents
  import opened FileGrowths

  /** Nothing old shows in a write of n bytes at `off`: the bytes between the end of the file and the offset
      are zeros, the fresh block of a hole at the offset is zero before it, and the fresh block of a hole at
      the end of the data is zero behind it as far as the file reaches. */
  ghost predicate NothingShows(v0: View, ino: nat, off: nat, n: nat)
    requires ino < |v0.t|
  {
    var a, size, first, last := v0.t[ino].addr, v0.t[ino].size, off / BLOCK_SIZE, (off + n - 1) / BLOCK_SIZE;
    && (forall i {:trigger FileByte(a, v0.d, i)} :: size <= i < off ==> FileByte(a, v0.d, i) == 0)
    && (n > 0 && Mapped(a, v0.d, first) == 0 ==>
          forall i {:trigger ShownByte(v0, ino, first, i)} :: first * BLOCK_SIZE <= i < off ==>
                ShownByte(v0, ino, first, i) == 0)
    && (n > 0 && Mapped(a, v0.d, last) == 0 ==>
          forall i {:trigger ShownByte(v0, ino, first, i)} :: off + n <= i < size && i / BLOCK_SIZE == last ==>
                ShownByte(v0, ino, first, i) == 0)
  }

  /** A byte outside the data that the zero-filled file would have wrong. */
  ghost predicate ShowsAt(v0: View, ino: nat, off: nat, n: nat, i: nat)
    requires ino < |v0.t|
  {
    if off / BLOCK_SIZE <= i / BLOCK_SIZE < BlockEnd(off, n) && Mapped(v0.t[ino].addr, v0.d, i / BLOCK_SIZE) == 0 then
      ShownByte(v0, ino, off / BLOCK_SIZE, i) != 0
    else i >= v0.t[ino].size && FileByte(v0.t[ino].addr, v0.d, i) != 0
  }

  lemma NothingShowsAt(v0: View, ino: nat, off: nat, n: nat, i: nat)
    requires ino < |v0.t| && NothingShows(v0, ino, off, n)
    requires i < NewSize(v0.t[ino].size, off, n) && !(off <= i < off + n)
    ensures !ShowsAt(v0, ino, off, n, i)
  {
    hide Mapped, ShownByte, FileByte;
    EdgeBlocks(off, n, i);
  }

  /** A byte outside the data in a block the data touches is before it in the first or behind it in the last. */
  lemma EdgeBlocks(off: nat, n: nat, i: nat)
    requires !(off <= i < off + n)
    ensures off / BLOCK_SIZE <= i / BLOCK_SIZE < BlockEnd(off, n) ==>
              && n > 0
              && (i < off ==> i / BLOCK_SIZE == off / BLOCK_SIZE && off / BLOCK_SIZE * BLOCK_SIZE <= i)
              && (i >= off ==> off + n <= i && i / BLOCK_SIZE == (off + n - 1) / BLOCK_SIZE)
  {
  }

  lemma SomethingShows(v0: View, ino: nat, off: nat, n: nat) returns (i: nat)
    requires ino < |v0.t| && !NothingShows(v0, ino, off, n)
    ensures i < NewSize(v0.t[ino].size, off, n) && !(off <= i < off + n) && ShowsAt(v0, ino, off, n, i)
  {
    hide Mapped, ShownByte;
    var a, size, l, m := v0.t[ino].addr, v0.t[ino].size, off / BLOCK_SIZE, (off + n - 1) / BLOCK_SIZE;
    var p, q := Mapped(a, v0.d, l), Mapped(a, v0.d, m);
    if k :| l * BLOCK_SIZE <= k < off && n > 0 && p == 0 && ShownByte(v0, ino, l, k) != 0 {
      assert k / BLOCK_SIZE == l < BlockEnd(off, n);
      i := k;
    } else if k :| off + n <= k < size && k / BLOCK_SIZE == m && n > 0 && q == 0 && ShownByte(v0, ino, l, k) != 0 {
      assert l <= m < BlockEnd(off, n);
      i := k;
    } else {
      i :| size <= i < off && FileByte(a, v0.d, i) != 0;
    }
  }

  /** The whole result: after a write, of however many bytes, at whatever offset, to a file with or without
      holes, the file is its old bytes padded with zeros up to the offset and overlaid with the data, if and
      only if nothing old shows. */
  lemma ZeroFilledIff(v0: View, v: View, ino: nat, off: nat, data: seq<byte>)
    requires Exactly(v0, v, ino, off, data)
    ensures FileBytes(v.t[ino].addr, v.d, NewSize(v0.t[ino].size, off, |data|)) ==
            Overlay(ZeroExtended(FileBytes(v0.t[ino].addr, v0.d, v0.t[ino].size), off), off, data)
            <==> NothingShows(v0, ino, off, |data|)
  {
    var size, size' := v0.t[ino].size, NewSize(v0.t[ino].size, off, |data|);
    var x, y := FileBytes(v.t[ino].addr, v.d, size'),
        Overlay(ZeroExtended(FileBytes(v0.t[ino].addr, v0.d, size), off), off, data);
    forall i | 0 <= i < size' ensures x[i] == y[i] <==> off <= i < off + |data| || !ShowsAt(v0, ino, off, |data|, i) {
      OverlayByte(FileBytes(v0.t[ino].addr, v0.d, size), off, data, i);
      SameUnlessShown(v0, v, ino, off, data, i);
    }
    hide Exactly, NothingShows, ShowsAt, FileBytes, Overlay, ZeroExtended, FileByte;
    if NothingShows(v0, ino, off, |data|) {
      forall i | 0 <= i < size' ensures x[i] == y[i] {
        if !(off <= i < off + |data|) {
          NothingShowsAt(v0, ino, off, |data|, i);
        }
      }
    } else {
      var i := SomethingShows(v0, ino, off, |data|);
      assert x[i] != y[i];
    }
  }

  lemma SameUnlessShown(v0: View, v: View, ino: nat, off: nat, data: seq<byte>, i: nat)
    requires Exactly(v0, v, ino, off, data)
    ensures FileByte(v.t[ino].addr, v.d, i) ==
            (if off <= i < off + |data| then data[i - off]
             else if i < v0.t[ino].size then FileByte(v0.t[ino].addr, v0.d, i) else 0)
            <==> off <= i < off + |data| || !ShowsAt(v0, ino, off, |data|, i)
  {
    hide ShownByte, Mapped, BlockEnd;
    assert Mapped(v0.t[ino].addr, v0.d, i / BLOCK_SIZE) == 0 ==> FileByte(v0.t[ino].addr, v0.d, i) == 0;
    hide FileByte;
  }

  /** A file without holes, written at or before its end, shows nothing old. */
  lemma WithinFile(v0: View, ino: nat, off: nat, n: nat)
    requires ino < |v0.t| && off <= v0.t[ino].size && NoHole(v0.t[ino].addr, v0.d, v0.t[ino].size)
    ensures NothingShows(v0, ino, off, n)
  {
    hide Mapped, ShownByte, FileByte;
    var a, size := v0.t[ino].addr, v0.t[ino].size;
    if n > 0 && Mapped(a, v0.d, off / BLOCK_SIZE) == 0 {
      assert off / BLOCK_SIZE * BLOCK_SIZE >= size;
    }
    if n > 0 && Mapped(a, v0.d, (off + n - 1) / BLOCK_SIZE) == 0 {
      assert (off + n - 1) / BLOCK_SIZE * BLOCK_SIZE >= size;
    }
  }

  /** The fresh block of a hole at the offset is the first free one, or the one after the index blocks that
      are missing too. */
  lemma FirstFresh(v0: View, ino: nat, l: nat)
    requires ino < |v0.t| && l < MAX_BLOCKS
    ensures Needed(v0.t[ino].addr, v0.d, l, l + 1) == Missing(v0.t[ino].addr, v0.d, LeafRef(l))
  {
    RangedStart(v0, ino, l);
    MissingNow(v0, v0, ino, l, l);
    hide NewBlocks, Missing, Ranged;
    assert Needed(v0.t[ino].addr, v0.d, l, l) == 0;
  }

  // ---------- an input for which old bytes show ----------

  const FILL: Block := seq<byte>(BLOCK_SIZE, _ => 0x41)
  const LAST_BLK := DATA_BLK_NUM - 1
  const FREE_BLKS := 48
  const FIRST_BLK := DATA_BLK_NUM - FREE_BLKS

  /** A file as it was created, or as truncation left it. */
  ghost predicate EmptyFile(di: DInode) {
    NoBlocks(di.addr) && di.size == 0 && di.nlink == 1
  }

  /** The disk of a volume formatted with 48 blocks to manage, after inode 1 became a file, the last block was
      filled through it, and the file was truncated and saved. */
  ghost function TruncatedDisk(di: DInode): Image {
    WriteInode(SetDataBlock(seq<Block>(TOTAL_BLK_NUM, _ => ZERO_BLOCK), LAST_BLK, FILL), 1, di)
  }

  /** Its super block: all 48 blocks lie above the link, the last on top, and there is no further group. */
  ghost function SmallSuper(di: DInode): FreeList {
    FreeList(FREE_BLKS + 1, seq<uint16>(NICFREE, i => if 1 <= i <= FREE_BLKS then FIRST_BLK + i - 1 else END_OF_CHAIN),
             FREE_BLKS, TruncatedDisk(di))
  }

  ghost function AfterTruncation(di: DInode): View {
    View(TruncatedDisk(di), BlankTable()[1 := di], map[], StackedFrom(FIRST_BLK, FREE_BLKS), FIRST_BLK)
  }

  lemma TruncatedData(di: DInode)
    ensures forall n :: 0 <= n < TOTAL_BLK_NUM && n != InodeBlock(1) ==>
              TruncatedDisk(di)[n] == if n == DATA_START_BLK + LAST_BLK then FILL else ZERO_BLOCK
  {
    WriteInodeIsolated(SetDataBlock(seq<Block>(TOTAL_BLK_NUM, _ => ZERO_BLOCK), LAST_BLK, FILL), 1, di);
  }

  /** The super block stands for this free list. */
  lemma ListedFree(di: DInode)
    ensures Represents(SmallSuper(di), [], AfterTruncation(di).list)
  {
    var s, list := SmallSuper(di).free[1..FREE_BLKS + 1], StackedFrom(FIRST_BLK, FREE_BLKS);
    forall i | 0 <= i < FREE_BLKS ensures Reverse(s)[i] == list[i] {
      ReverseAt(s, i);
    }
    hide Reverse;
    assert Reverse(s) == list;
    assert Reverse(s) + [] == list;
  }

  /** Every managed block is free. */
  lemma AllFree(di: DInode)
    requires EmptyFile(di)
    ensures Consistent(AfterTruncation(di))
  {
    var v := AfterTruncation(di);
    forall b: uint16 | FIRST_BLK <= b < DATA_BLK_NUM ensures b in v.list {
      assert v.list[LAST_BLK - b] == b;
    }
    FreshTrees(v.d, BlankTable(), v.list, FIRST_BLK);
    hide Consistent, WriteInode;
    ConsistentSameTrees(v.(t := BlankTable()), v.d, v.t);
  }

  /** The cache is empty, inode 1 is live, and the other 49 numbers are stacked. */
  lemma FileLive(di: DInode, slots: seq<Slot>)
    requires EmptyFile(di) && |slots| == CACHE_SIZE && forall i :: 0 <= i < CACHE_SIZE ==> slots[i].Empty?
    ensures CacheAndLife(slots, StackedFrom(2, NICINOD - 1), {1}, AfterTruncation(di).t, TruncatedDisk(di), 1, NICINOD)
  {
    var d := SetDataBlock(seq<Block>(TOTAL_BLK_NUM, _ => ZERO_BLOCK), LAST_BLK, FILL);
    var held := slots[0 := Held(1, di, 1, true)];
    hide CacheAndLife, WriteInode, SetDataBlock;
    StaleDescriptor(slots, d, di);
    ReleasedSlot(held, StackedFrom(2, NICINOD - 1), {1}, BlankTable()[1 := di], d, 1, NICINOD, 0, WriteInode(d, 1, di));
    assert held[0 := Empty] == slots;
  }

  lemma ThatFile(di: DInode)
    ensures AfterTruncation(di).t[1] == di
  {
  }

  lemma OldBytesShow(di: DInode, i: nat)
    requires EmptyFile(di) && i < BLOCK_SIZE
    ensures Mapped(AfterTruncation(di).t[1].addr, AfterTruncation(di).d, 0) == 0
    ensures ShownByte(AfterTruncation(di), 1, 0, i) == 0x41
  {
    var v0 := AfterTruncation(di);
    TruncatedData(di);
    NoBlocksAt(v0.t[1].addr, v0.d);
    assert At(v0.t[1].addr, v0.d, Direct(0)) == 0 && LeafRef(0) == Direct(0);
    FirstFresh(v0, 1, 0);
    hide At, Needed, WriteInode;
    assert v0.list[0] == LAST_BLK && DataBlock(v0.d, LAST_BLK) == FILL;
  }

  /** Two descriptors are open on a file; one truncates it, and the other then writes a byte at its old offset:
      the bytes before it read as the old file.  The state in between is one the engine keeps in order. */
  lemma TruncatedThenWritten(di: DInode, slots: seq<Slot>, v: View, x: byte)
    requires EmptyFile(di) && |slots| == CACHE_SIZE && forall i :: 0 <= i < CACHE_SIZE ==> slots[i].Empty?
    requires Exactly(AfterTruncation(di), v, 1, 100, [x])
    ensures Represents(SmallSuper(di), [], AfterTruncation(di).list) && Consistent(AfterTruncation(di))
    ensures CacheAndLife(slots, StackedFrom(2, NICINOD - 1), {1}, AfterTruncation(di).t, TruncatedDisk(di), 1, NICINOD)
    ensures !NothingShows(AfterTruncation(di), 1, 100, 1)
    ensures FileBytes(v.t[1].addr, v.d, 101) == seq<byte>(100, _ => 0x41) + [x]
  {
    hide AfterTruncation, TruncatedDisk, SmallSuper, Represents, Consistent, CacheAndLife, ShownByte, Mapped,
        FileByte;
    var v0 := AfterTruncation(di);
    assert v0.t[1] == di by { ThatFile(di); }
    ListedFree(di);
    AllFree(di);
    FileLive(di, slots);
    forall i | 0 <= i < BLOCK_SIZE ensures Mapped(v0.t[1].addr, v0.d, 0) == 0 && ShownByte(v0, 1, 0, i) == 0x41 {
      OldBytesShow(di, i);
    }
    assert ShownByte(v0, 1, 0, 0) != 0;
    forall i | 0 <= i < 101 ensures FileByte(v.t[1].addr, v.d, i) == if i < 100 then 0x41 else x {
      assert FileByte(v.t[1].addr, v.d, i) == ExactByte(v0, 1, 100, [x], i);
    }
  }
}
