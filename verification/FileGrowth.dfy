/** Exactly what a UNIX write stores and shows: how many bytes find room, and every byte of the file after. */
module FileGrowths {
  import opened Bytes
  import opened BlockDevices
  import opened FreeLists
  import opened InodeTrees
  import opened InodeViews
  import opened InodeGrowths
  import opened FileContents

  // ---------- how much is stored ----------

  /** The first block past the n bytes written at `off`. */
  function BlockEnd(off: nat, n: nat): nat {
    if n == 0 then off / BLOCK_SIZE else BlocksFor(off + n)
  }

  /** The range of blocks fits the tree and what it is missing fits the free list. */
  ghost predicate RoomTo(v0: View, ino: nat, l0: nat, l: nat)
    requires ino < |v0.t|
  {
    l <= l0 || (l <= MAX_BLOCKS && Needed(v0.t[ino].addr, v0.d, l0, l) <= |v0.list|)
  }

  /** A write of `len` bytes at `off` stores n of them: all if there is room for their blocks, and otherwise
      up to the first block there is no room for. */
  ghost predicate StopsAt(v0: View, ino: nat, off: nat, len: nat, n: nat)
    requires ino < |v0.t|
  {
    && n <= len && RoomTo(v0, ino, off / BLOCK_SIZE, BlockEnd(off, n))
    && (n < len ==>
          && (n == 0 || (off + n) % BLOCK_SIZE == 0)
          && !RoomTo(v0, ino, off / BLOCK_SIZE, BlockEnd(off, n) + 1))
  }

  lemma RoomBelow(v0: View, ino: nat, l0: nat, l: nat, m: nat)
    requires ino < |v0.t| && l <= m && RoomTo(v0, ino, l0, m)
    ensures RoomTo(v0, ino, l0, l)
  {
    hide Needed;
    if l > l0 {
      NeededMonotone(v0.t[ino].addr, v0.d, l0, l, m);
    }
  }

  /** That settles the count. */
  lemma StopsOnce(v0: View, ino: nat, off: nat, len: nat, n: nat, m: nat)
    requires ino < |v0.t| && StopsAt(v0, ino, off, len, n) && StopsAt(v0, ino, off, len, m)
    ensures n == m
  {
    hide RoomTo;
    if n < m {
      NextBlock(off, n, m);
      RoomBelow(v0, ino, off / BLOCK_SIZE, BlockEnd(off, n) + 1, BlockEnd(off, m));
    } else if m < n {
      NextBlock(off, m, n);
      RoomBelow(v0, ino, off / BLOCK_SIZE, BlockEnd(off, m) + 1, BlockEnd(off, n));
    }
  }

  lemma NextBlock(off: nat, n: nat, m: nat)
    requires n < m && (n == 0 || (off + n) % BLOCK_SIZE == 0)
    ensures BlockEnd(off, n) + 1 <= BlockEnd(off, m)
  {
  }

  // ---------- what is shown ----------

  /** Byte i of the fresh block that takes the place of a hole. */
  ghost function ShownByte(v0: View, ino: nat, l0: nat, i: nat): byte
    requires ino < |v0.t|
  {
    var x := i / BLOCK_SIZE;
    if x < MAX_BLOCKS && 0 < Needed(v0.t[ino].addr, v0.d, l0, x + 1) <= |v0.list|
      && FreshBlock(v0, ino, l0, x) < DATA_BLK_NUM then
      DataBlock(v0.d, FreshBlock(v0, ino, l0, x))[i % BLOCK_SIZE]
    else 0
  }

  /** Every byte of the file after `data` is stored at `off`: the data, the rest of fresh blocks as the free
      list held them, and all else as it was. */
  ghost function ExactByte(v0: View, ino: nat, off: nat, data: seq<byte>, i: nat): byte
    requires ino < |v0.t|
  {
    if off <= i < off + |data| then data[i - off]
    else if off / BLOCK_SIZE <= i / BLOCK_SIZE < BlockEnd(off, |data|)
      && Mapped(v0.t[ino].addr, v0.d, i / BLOCK_SIZE) == 0 then
      ShownByte(v0, ino, off / BLOCK_SIZE, i)
    else FileByte(v0.t[ino].addr, v0.d, i)
  }

  ghost predicate Exactly(v0: View, v: View, ino: nat, off: nat, data: seq<byte>) {
    && ino < |v0.t|
    && forall i {:trigger FileByte(v.t[ino].addr, v.d, i)} :: 0 <= i ==>
         FileByte(v.t[ino].addr, v.d, i) == ExactByte(v0, ino, off, data, i)
  }

  /** Former holes in blocks l0 .. l - 1 show their fresh blocks outside the data. */
  ghost predicate FreshShown(v0: View, v: View, ino: nat, off: nat, n: nat, l: nat) {
    && ino < |v0.t|
    && forall i {:trigger FileByte(v.t[ino].addr, v.d, i)} ::
         && 0 <= i && off / BLOCK_SIZE <= i / BLOCK_SIZE < l
         && Mapped(v0.t[ino].addr, v0.d, i / BLOCK_SIZE) == 0 && !(off <= i < off + n) ==>
           FileByte(v.t[ino].addr, v.d, i) == ShownByte(v0, ino, off / BLOCK_SIZE, i)
  }

  /** Holes outside blocks l0 .. l - 1 are still holes. */
  ghost predicate HolesKept(v0: View, v: View, ino: nat, l0: nat, l: nat) {
    && ino < |v0.t|
    && forall x {:trigger Mapped(v.t[ino].addr, v.d, x)} ::
         0 <= x && !(l0 <= x < l) && Mapped(v0.t[ino].addr, v0.d, x) == 0 ==> Mapped(v.t[ino].addr, v.d, x) == 0
  }

  lemma RangedHoles(v0: View, v: View, ino: nat, l0: nat, l: nat)
    requires Ranged(v0, v, ino, l0, l)
    ensures HolesKept(v0, v, ino, l0, l)
    ensures forall x :: l0 <= x < l ==> Mapped(v.t[ino].addr, v.d, x) != 0
  {
    hide At, Needed, FreeDataKept;
    forall x | 0 <= x < MAX_BLOCKS
      ensures !(l0 <= x < l) && Mapped(v0.t[ino].addr, v0.d, x) == 0 ==> Mapped(v.t[ino].addr, v.d, x) == 0
      ensures l0 <= x < l ==> Mapped(v.t[ino].addr, v.d, x) != 0
    {
      LeafCoveredIff(x, l0, l);
      assert At(v.t[ino].addr, v.d, LeafRef(x)) == 0 <==>
        At(v0.t[ino].addr, v0.d, LeafRef(x)) == 0 && !Covered(LeafRef(x), l0, l);
    }
  }

  lemma LeafCoveredIff(x: nat, l0: nat, l: nat)
    requires x < MAX_BLOCKS && (l <= l0 || l <= MAX_BLOCKS)
    ensures Covered(LeafRef(x), l0, l) <==> l0 <= x < l
  {
    if l0 <= x < l {
      assert OnPath(LeafRef(x), LeafRef(x));
    }
    if Covered(LeafRef(x), l0, l) {
      var y :| l0 <= y < l && OnPath(LeafRef(x), LeafRef(y));
      LeafRefInjective(x, y);
    }
  }

  /** An attempt that fails leaves the holes alone. */
  lemma HolesAfterFailure(v0: View, v: View, v': View, ino: nat, l0: nat, l: nat, r: Ref)
    requires HolesKept(v0, v, ino, l0, l) && Reached(v, v', ino, r, INVALID_BLK) && |v.t| == |v0.t|
    ensures HolesKept(v0, v', ino, l0, l)
  {
    hide Consistent, Grew, At;
    forall x | 0 <= x ensures Mapped(v'.t[ino].addr, v'.d, x) == Mapped(v.t[ino].addr, v.d, x) {
      assert x < MAX_BLOCKS ==> At(v'.t[ino].addr, v'.d, LeafRef(x)) == At(v.t[ino].addr, v.d, LeafRef(x));
    }
  }

  /** Mapping another block leaves what is shown alone. */
  lemma FreshShownKept(v0: View, v: View, v': View, ino: nat, off: nat, n: nat, l: nat, r: Ref, b: uint16)
    requires FreshShown(v0, v, ino, off, n, l) && Consistent(v) && Reached(v, v', ino, r, b) && ValidRef(r)
    requires IsLeaf(r) && |v.t| == |v0.t|
    requires forall x :: off / BLOCK_SIZE <= x < l ==> Mapped(v.t[ino].addr, v.d, x) != 0
    ensures FreshShown(v0, v', ino, off, n, l)
  {
    ReachedKeepsFile(v, v', ino, r, b);
    hide Consistent, Reached, Mapped, FileByte, ShownByte, KeepsFile;
    forall i | 0 <= i && off / BLOCK_SIZE <= i / BLOCK_SIZE < l
      ensures FileByte(v'.t[ino].addr, v'.d, i) == FileByte(v.t[ino].addr, v.d, i)
    {
      KeepsFileByte(v.t[ino].addr, v.d, v'.t[ino].addr, v'.d, i);
    }
  }

  /** A hole that has just been mapped shows its fresh block. */
  lemma FreshShownMapped(v0: View, v: View, v': View, ino: nat, off: nat, n: nat, l: nat, b: uint16)
    requires FreshShown(v0, v, ino, off, n, l) && Ranged(v0, v, ino, off / BLOCK_SIZE, l) && Consistent(v)
    requires l < MAX_BLOCKS && |v.t| == |v0.t|
    requires Reached(v, v', ino, LeafRef(l), b) && Filled(v, v', ino, LeafRef(l), b) && b != INVALID_BLK
    ensures FreshShown(v0, v', ino, off, n, l + 1)
  {
    RangedHoles(v0, v, ino, off / BLOCK_SIZE, l);
    FreshShownKept(v0, v, v', ino, off, n, l, LeafRef(l), b);
    hide Ranged, Consistent, Filled, Reached, FreshShown, BlockShown, Mapped;
    if Mapped(v0.t[ino].addr, v0.d, l) == 0 {
      NewlyShown(v0, v, v', ino, off / BLOCK_SIZE, l, b);
    }
    OneMoreShown(v0, v', ino, off, n, l);
  }

  /** Block l shows its fresh block. */
  ghost predicate BlockShown(v0: View, v: View, ino: nat, l0: nat, l: nat) {
    && ino < |v0.t|
    && forall i {:trigger FileByte(v.t[ino].addr, v.d, i)} :: 0 <= i && i / BLOCK_SIZE == l ==>
         FileByte(v.t[ino].addr, v.d, i) == ShownByte(v0, ino, l0, i)
  }

  lemma OneMoreShown(v0: View, v: View, ino: nat, off: nat, n: nat, l: nat)
    requires FreshShown(v0, v, ino, off, n, l)
    requires Mapped(v0.t[ino].addr, v0.d, l) == 0 ==> BlockShown(v0, v, ino, off / BLOCK_SIZE, l)
    ensures FreshShown(v0, v, ino, off, n, l + 1)
  {
    hide FileByte, ShownByte, Mapped;
  }

  lemma NewlyShown(v0: View, v: View, v': View, ino: nat, l0: nat, l: nat, b: uint16)
    requires Ranged(v0, v, ino, l0, l) && Consistent(v) && l < MAX_BLOCKS && Mapped(v0.t[ino].addr, v0.d, l) == 0
    requires Reached(v, v', ino, LeafRef(l), b) && Filled(v, v', ino, LeafRef(l), b) && b != INVALID_BLK
    ensures BlockShown(v0, v', ino, l0, l)
  {
    assert 0 < b < DATA_BLK_NUM;
    FreshContents(v0, v, v', ino, l0, l, b);
    assert Mapped(v'.t[ino].addr, v'.d, l) == b;
    hide Ranged, Consistent, Filled, Reached, Mapped, Needed, FreshBlock;
  }

  /** Storing the next chunk covers part of what showed. */
  lemma FreshShownStored(v0: View, v: View, ino: nat, off: nat, n: nat, l: nat, chunk: seq<byte>, p: uint16, d': Image)
    requires FreshShown(v0, v, ino, off, n, l) && |v.t| == |v0.t|
    requires (off + n) % BLOCK_SIZE + |chunk| <= BLOCK_SIZE && 0 < p < DATA_BLK_NUM
    requires p == Mapped(v.t[ino].addr, v.d, (off + n) / BLOCK_SIZE)
    requires d' == SetDataBlock(v.d, p, Patch(DataBlock(v.d, p), (off + n) % BLOCK_SIZE, chunk))
    requires forall m {:trigger Mapped(v.t[ino].addr, d', m)} :: 0 <= m ==>
               && Mapped(v.t[ino].addr, d', m) == Mapped(v.t[ino].addr, v.d, m)
               && (Mapped(v.t[ino].addr, v.d, m) == p ==> m == (off + n) / BLOCK_SIZE)
    ensures FreshShown(v0, v.(d := d'), ino, off, n + |chunk|, l)
  {
    forall i | 0 <= i && !(off <= i < off + n + |chunk|)
      ensures FileByte(v.t[ino].addr, d', i) == FileByte(v.t[ino].addr, v.d, i)
    {
      StoredByte(v.t[ino].addr, v.d, d', off + n, chunk, p, i);
    }
    hide FileByte, ShownByte, Mapped, Patch, SetDataBlock;
  }

  /** Together that is every byte. */
  lemma ExactlyFrom(v0: View, v: View, ino: nat, off: nat, data: seq<byte>)
    requires ino < |v0.t| && |v.t| == |v0.t| && Written(v0.t[ino].addr, v0.d, v.t[ino].addr, v.d, off, data)
    requires FreshShown(v0, v, ino, off, |data|, BlockEnd(off, |data|))
    requires HolesKept(v0, v, ino, off / BLOCK_SIZE, BlockEnd(off, |data|))
    ensures Exactly(v0, v, ino, off, data)
  {
    forall i | 0 <= i ensures FileByte(v.t[ino].addr, v.d, i) == ExactByte(v0, ino, off, data, i) {
      ExactAt(v0, v, ino, off, data, i);
    }
    hide FileByte, ExactByte;
  }

  lemma ExactAt(v0: View, v: View, ino: nat, off: nat, data: seq<byte>, i: nat)
    requires ino < |v0.t| && |v.t| == |v0.t| && Written(v0.t[ino].addr, v0.d, v.t[ino].addr, v.d, off, data)
    requires FreshShown(v0, v, ino, off, |data|, BlockEnd(off, |data|))
    requires HolesKept(v0, v, ino, off / BLOCK_SIZE, BlockEnd(off, |data|))
    ensures FileByte(v.t[ino].addr, v.d, i) == ExactByte(v0, ino, off, data, i)
  {
    hide ShownByte, Mapped, BlockEnd;
    var x := i / BLOCK_SIZE;
    if Mapped(v0.t[ino].addr, v0.d, x) == 0 && !(off / BLOCK_SIZE <= x < BlockEnd(off, |data|))
       && !(off <= i < off + |data|) {
      assert Mapped(v.t[ino].addr, v.d, x) == 0;
    }
  }

  // ---------- the steps of a write ----------

  /** A write under way: `data` has reached the file, blocks up to l are mapped, and both are tracked exactly. */
  ghost predicate Storing(v0: View, v: View, ino: nat, off: nat, data: seq<byte>, l: nat) {
    && Writing(v0, v, ino, off, data)
    && Ranged(v0, v, ino, off / BLOCK_SIZE, l)
    && FreshShown(v0, v, ino, off, |data|, l)
  }

  /** A write that found no room for block l. */
  ghost predicate Stopped(v0: View, v: View, ino: nat, off: nat, data: seq<byte>, l: nat) {
    && Writing(v0, v, ino, off, data)
    && HolesKept(v0, v, ino, off / BLOCK_SIZE, l)
    && FreshShown(v0, v, ino, off, |data|, l)
    && RoomTo(v0, ino, off / BLOCK_SIZE, l) && !RoomTo(v0, ino, off / BLOCK_SIZE, l + 1)
  }

  lemma StoringStart(v: View, ino: nat, off: nat)
    requires Consistent(v) && ino < |v.t|
    ensures Storing(v, v, ino, off, [], off / BLOCK_SIZE)
  {
    WritingStart(v, ino, off);
    RangedStart(v, ino, off / BLOCK_SIZE);
    hide Writing, Ranged;
  }

  /** The next block was mapped. */
  lemma StoringMapped(v0: View, v: View, v': View, ino: nat, off: nat, data: seq<byte>, l: nat, b: uint16)
    requires Storing(v0, v, ino, off, data, l) && l < MAX_BLOCKS && ino < |v.t|
    requires Reached(v, v', ino, LeafRef(l), b) && Filled(v, v', ino, LeafRef(l), b) && b != INVALID_BLK
    ensures Storing(v0, v', ino, off, data, l + 1) && b != 0 && b == Mapped(v'.t[ino].addr, v'.d, l)
  {
    WritingMapped(v0, v, v', ino, off, data, LeafRef(l), b);
    WritingConsistent(v0, v, ino, off, data);
    ReachedMapped(v, v', ino, l, b);
    hide Writing, Reached, Filled, Consistent;
    RangedStep(v0, v, v', ino, off / BLOCK_SIZE, l, b);
    FreshShownMapped(v0, v, v', ino, off, |data|, l, b);
    hide Ranged, FreshShown;
  }

  /** The next block could not be mapped. */
  lemma StoringFailed(v0: View, v: View, v': View, ino: nat, off: nat, data: seq<byte>, l: nat)
    requires Storing(v0, v, ino, off, data, l) && ino < |v.t|
    requires if l < MAX_BLOCKS then Reached(v, v', ino, LeafRef(l), INVALID_BLK)
                                  && |v.list| < Missing(v.t[ino].addr, v.d, LeafRef(l))
             else v' == v
    ensures Stopped(v0, v', ino, off, data, l)
  {
    var l0 := off / BLOCK_SIZE;
    RangedHoles(v0, v, ino, l0, l);
    if l < MAX_BLOCKS {
      WritingMapped(v0, v, v', ino, off, data, LeafRef(l), INVALID_BLK);
      WritingConsistent(v0, v, ino, off, data);
      MissingNow(v0, v, ino, l0, l);
      hide Writing, Reached, Consistent, FreshShown, Missing, NewBlocks;
      HolesAfterFailure(v0, v, v', ino, l0, l, LeafRef(l));
      FreshShownKept(v0, v, v', ino, off, |data|, l, LeafRef(l), INVALID_BLK);
      hide HolesKept;
    }
  }

  /** The next chunk was stored in the last block mapped. */
  lemma StoringStored(v0: View, v: View, ino: nat, off: nat, data: seq<byte>, p: uint16, chunk: seq<byte>)
    requires Storing(v0, v, ino, off, data, (off + |data|) / BLOCK_SIZE + 1) && ino < |v.t|
    requires (off + |data|) % BLOCK_SIZE + |chunk| <= BLOCK_SIZE && chunk != []
    requires data == [] || (off + |data|) % BLOCK_SIZE == 0
    requires (off + |data|) / BLOCK_SIZE < MAX_BLOCKS
    requires p != 0 && p == Mapped(v.t[ino].addr, v.d, (off + |data|) / BLOCK_SIZE)
    ensures 0 < p < DATA_BLK_NUM && p !in v.list
    ensures var d' := SetDataBlock(v.d, p, Patch(DataBlock(v.d, p), (off + |data|) % BLOCK_SIZE, chunk));
            Storing(v0, v.(d := d'), ino, off, data + chunk, (off + |data|) / BLOCK_SIZE + 1)
  {
    WritingStored(v0, v, ino, off, data, p, chunk);
    WritingConsistent(v0, v, ino, off, data);
    var l := (off + |data|) / BLOCK_SIZE;
    SameTables(v0, v, ino, off, data);
    hide Writing, Consistent, FreshShown, Ranged, Patch, SetDataBlock, DataBlock;
    FreshAfterStore(v0, v, ino, off, |data|, l + 1, p, chunk);
    RangedStore(v0, v, ino, off / BLOCK_SIZE, l + 1, p, l,
        Patch(DataBlock(v.d, p), (off + |data|) % BLOCK_SIZE, chunk));
  }

  /** Mapping blocks l0 .. l - 1 took exactly what they were missing off the free list. */
  ghost predicate TookBlocks(v0: View, v: View, ino: nat, l0: nat, l: nat) {
    && ino < |v0.t| && RoomTo(v0, ino, l0, l)
    && v.list == v0.list[Needed(v0.t[ino].addr, v0.d, l0, l)..]
  }

  lemma StoringTook(v0: View, v: View, ino: nat, off: nat, data: seq<byte>, l: nat)
    requires Storing(v0, v, ino, off, data, l)
    ensures TookBlocks(v0, v, ino, off / BLOCK_SIZE, l)
  {
    hide Writing, FreshShown, At, Covered, FreeDataKept;
  }

  /** Stopping short of a block leaves no room for any range that goes on past it. */
  lemma StoppedShort(v0: View, v: View, ino: nat, off: nat, data: seq<byte>, l: nat, m: nat)
    requires Stopped(v0, v, ino, off, data, l) && l < m
    ensures ino < |v0.t| && !RoomTo(v0, ino, off / BLOCK_SIZE, m)
  {
    hide Writing, FreshShown, RoomTo;
    if RoomTo(v0, ino, off / BLOCK_SIZE, m) {
      RoomBelow(v0, ino, off / BLOCK_SIZE, l + 1, m);
    }
  }

  /** Blocks that are all mapped need nothing, and the first one past them what is missing on its path. */
  lemma {:induction false} NeedsNothing(v: View, ino: nat, l: nat)
    requires ino < |v.t| && l <= MAX_BLOCKS && forall x :: 0 <= x < l ==> Mapped(v.t[ino].addr, v.d, x) != 0
    ensures Needed(v.t[ino].addr, v.d, 0, l) == 0
    ensures l < MAX_BLOCKS ==> Needed(v.t[ino].addr, v.d, 0, l + 1) == Missing(v.t[ino].addr, v.d, LeafRef(l))
  {
    hide Missing, NewBlocks, Mapped;
    if l > 0 {
      NeedsNothing(v, ino, l - 1);
      LeafThere(v, ino, l - 1);
    }
    if l < MAX_BLOCKS {
      assert v.list[0..] == v.list;
      RangedThere(v, ino, l);
      MissingNow(v, v, ino, 0, l);
    }
  }

  lemma LeafThere(v: View, ino: nat, l: nat)
    requires ino < |v.t| && l < MAX_BLOCKS && Mapped(v.t[ino].addr, v.d, l) != 0
    ensures Missing(v.t[ino].addr, v.d, LeafRef(l)) == 0
  {
    PathPresent(v.t[ino].addr, v.d, LeafRef(l));
  }

  lemma RangedThere(v: View, ino: nat, l: nat)
    requires ino < |v.t| && l <= MAX_BLOCKS && forall x :: 0 <= x < l ==> Mapped(v.t[ino].addr, v.d, x) != 0
    requires Needed(v.t[ino].addr, v.d, 0, l) == 0
    ensures Ranged(v, v, ino, 0, l)
  {
    assert v.list[0..] == v.list;
    forall p | ValidRef(p) && Covered(p, 0, l) ensures At(v.t[ino].addr, v.d, p) != 0 {
      var x :| 0 <= x < l && OnPath(p, LeafRef(x));
      assert Mapped(v.t[ino].addr, v.d, x) != 0;
      PathPresent(v.t[ino].addr, v.d, LeafRef(x));
    }
    hide At, Needed, Covered;
  }

  lemma StoringConsistent(v0: View, v: View, ino: nat, off: nat, data: seq<byte>, l: nat)
    requires Storing(v0, v, ino, off, data, l)
    ensures Consistent(v) && Writing(v0, v, ino, off, data)
  {
  }

  lemma StoppedWriting(v0: View, v: View, ino: nat, off: nat, data: seq<byte>, l: nat)
    requires Stopped(v0, v, ino, off, data, l)
    ensures Writing(v0, v, ino, off, data)
  {
  }

  lemma SameTables(v0: View, v: View, ino: nat, off: nat, data: seq<byte>)
    requires Writing(v0, v, ino, off, data)
    ensures |v.t| == |v0.t|
  {
  }

  lemma FreshAfterStore(v0: View, v: View, ino: nat, off: nat, n: nat, l: nat, p: uint16, chunk: seq<byte>)
    requires FreshShown(v0, v, ino, off, n, l) && Consistent(v) && |v.t| == |v0.t|
    requires (off + n) / BLOCK_SIZE < MAX_BLOCKS
    requires (off + n) % BLOCK_SIZE + |chunk| <= BLOCK_SIZE
    requires 0 < p < DATA_BLK_NUM && p == Mapped(v.t[ino].addr, v.d, (off + n) / BLOCK_SIZE)
    ensures FreshShown(v0, v.(d := SetDataBlock(v.d, p, Patch(DataBlock(v.d, p), (off + n) % BLOCK_SIZE, chunk))),
                       ino, off, n + |chunk|, l)
  {
    var blk := Patch(DataBlock(v.d, p), (off + n) % BLOCK_SIZE, chunk);
    LeafWritten(v, ino, (off + n) / BLOCK_SIZE, p, blk);
    hide Consistent, OthersKept, FreshShown, Mapped, Patch, SetDataBlock;
    FreshShownStored(v0, v, ino, off, n, l, chunk, p, SetDataBlock(v.d, p, blk));
  }

  // ---------- the outcome ----------

  /** A finished write of n of the bytes of src: every byte of the file, the count, and, when all was written,
      the free list. */
  ghost predicate Outcome(v0: View, v: View, ino: nat, off: nat, src: seq<byte>, n: nat) {
    && ino < |v0.t| && n <= |src|
    && Exactly(v0, v, ino, off, src[..n])
    && StopsAt(v0, ino, off, |src|, n)
    && (n == |src| ==> v.list == v0.list[Needed(v0.t[ino].addr, v0.d, off / BLOCK_SIZE, BlockEnd(off, n))..])
  }

  /** Both sides of a finished write: what it promises about every file, and what exactly it did to this one. */
  ghost predicate Wrote(v0: View, v: View, ino: nat, off: nat, src: seq<byte>, n: nat) {
    n <= |src| && WroteFile(v0, v, ino, off, src[..n]) && Outcome(v0, v, ino, off, src, n)
  }

  lemma WholeOutcome(v0: View, v: View, ino: nat, off: nat, src: seq<byte>)
    requires Storing(v0, v, ino, off, src, BlockEnd(off, |src|))
    ensures Outcome(v0, v, ino, off, src, |src|)
  {
    RangedHoles(v0, v, ino, off / BLOCK_SIZE, BlockEnd(off, |src|));
    WritingParts(v0, v, ino, off, src);
    SameTables(v0, v, ino, off, src);
    hide Writing, FreshShown, HolesKept, Written, Needed;
    ExactlyFrom(v0, v, ino, off, src);
    assert src[..|src|] == src;
    hide Exactly;
  }

  lemma PartOutcome(v0: View, v: View, ino: nat, off: nat, src: seq<byte>, n: nat)
    requires n < |src| && Stopped(v0, v, ino, off, src[..n], BlockEnd(off, n))
    requires n == 0 || (off + n) % BLOCK_SIZE == 0
    ensures Outcome(v0, v, ino, off, src, n)
  {
    WritingParts(v0, v, ino, off, src[..n]);
    SameTables(v0, v, ino, off, src[..n]);
    hide Writing, FreshShown, HolesKept, Written, RoomTo;
    ExactlyFrom(v0, v, ino, off, src[..n]);
    hide Exactly;
  }

  /** New metadata, or a write outside the data area, leaves the outcome. */
  lemma OutcomeSameData(v0: View, v1: View, v2: View, ino: nat, off: nat, src: seq<byte>, n: nat)
    requires Outcome(v0, v1, ino, off, src, n) && |v1.t| == |v2.t| == |v0.t|
    requires v2.t[ino].addr == v1.t[ino].addr && v2.list == v1.list
    requires v2.d[DATA_START_BLK..] == v1.d[DATA_START_BLK..]
    ensures Outcome(v0, v2, ino, off, src, n)
  {
    FileByteSameData(v1.t[ino].addr, v1.d, v2.d);
    hide FileByte, ExactByte, StopsAt, Needed;
  }

  /** A write stored and recorded in the inode, but not saved yet. */
  ghost predicate Recorded(v0: View, v1: View, ino: nat, off: nat, src: seq<byte>, n: nat, now: uint32) {
    && ino < |v0.t| && n <= |src| && OthersKept(v0, v1, ino)
    && v1.t[ino] == v0.t[ino].(addr := v1.t[ino].addr, size := v1.t[ino].size, mtime := now)
    && v1.t[ino].size == NewSize(v0.t[ino].size, off, n)
    && Written(v0.t[ino].addr, v0.d, v1.t[ino].addr, v1.d, off, src[..n])
    && Outcome(v0, v1, ino, off, src, n)
  }

  /** Saving the inode does not touch the data area. */
  lemma WroteSaved(v0: View, v1: View, v2: View, ino: nat, off: nat, src: seq<byte>, n: nat, now: uint32)
    requires Consistent(v0) && Recorded(v0, v1, ino, off, src, n, now)
    requires v2.t == v1.t && v2.list == v1.list && v2.d[DATA_START_BLK..] == v1.d[DATA_START_BLK..]
    ensures Wrote(v0, v2, ino, off, src, n) && v2.t[ino].mtime == now
  {
    hide Consistent, OthersKept, Written, Outcome, WroteFile;
    WroteFileFrom(v0, v1, ino, off, src[..n]);
    WroteFileSameData(v0, v1, v2, ino, off, src[..n]);
    OutcomeSameData(v0, v1, v2, ino, off, src, n);
  }
}
