/** The bytes of a UNIX file, read off its tree and the shared disk. */
module FileContents {
  import opened Bytes
  import opened BlockDevices
  import opened FreeLists
  import opened InodeTrees
  import opened InodeViews
  import opened FileSpecs

  /** Byte i of a file; a hole reads as zero. */
  function FileByte(a: Addr, d: Image, i: nat): byte {
    var p := Mapped(a, d, i / BLOCK_SIZE);
    if 0 < p < DATA_BLK_NUM then DataBlock(d, p)[i % BLOCK_SIZE] else 0
  }

  /** The first n bytes of a tree. */
  function FileBytes(a: Addr, d: Image, n: nat): (s: seq<byte>)
    ensures |s| == n && forall i :: 0 <= i < n ==> s[i] == FileByte(a, d, i)
  {
    seq<byte>(n, i requires 0 <= i < n => FileByte(a, d, i))
  }

  function Content(di: DInode, d: Image): (s: seq<byte>)
    ensures |s| == di.size
  {
    FileBytes(di.addr, d, di.size)
  }

  /** No block below the size is unmapped. */
  ghost predicate NoHole(a: Addr, d: Image, size: nat) {
    forall l {:trigger Mapped(a, d, l)} :: 0 <= l && l * BLOCK_SIZE < size ==> Mapped(a, d, l) != 0
  }

  /** Every mapped block stays where it is with the same data; holes may have been filled. */
  ghost predicate KeepsFile(a: Addr, d: Image, a': Addr, d': Image) {
    forall l {:trigger Mapped(a', d', l)} :: 0 <= l && Mapped(a, d, l) != 0 ==>
      && Mapped(a', d', l) == Mapped(a, d, l)
      && Mapped(a, d, l) < DATA_BLK_NUM
      && DataBlock(d', Mapped(a, d, l)) == DataBlock(d, Mapped(a, d, l))
  }

  /** The state of a write: `data` lies at `off`, and every other byte of a block that was mapped at the
      start is as it was. */
  ghost predicate Written(a0: Addr, d0: Image, a: Addr, d: Image, off: nat, data: seq<byte>) {
    && (forall i {:trigger FileByte(a, d, i)} :: off <= i < off + |data| ==> FileByte(a, d, i) == data[i - off])
    && (forall i {:trigger FileByte(a, d, i)} ::
          0 <= i && !(off <= i < off + |data|) && Mapped(a0, d0, i / BLOCK_SIZE) != 0 ==>
          FileByte(a, d, i) == FileByte(a0, d0, i))
    && (forall l {:trigger Mapped(a, d, l)} :: 0 <= l && Mapped(a0, d0, l) != 0 ==> Mapped(a, d, l) != 0)
    && (data != [] ==> forall l {:trigger Mapped(a, d, l)} ::
          off / BLOCK_SIZE <= l && l * BLOCK_SIZE < off + |data| ==> Mapped(a, d, l) != 0)
  }

  lemma BlockOf(i: nat, off: nat, n: nat)
    ensures off <= i < off + n ==>
              n > 0 && off / BLOCK_SIZE <= i / BLOCK_SIZE && (i / BLOCK_SIZE) * BLOCK_SIZE < off + n
  {
  }

  lemma WrittenStart(a: Addr, d: Image, off: nat)
    ensures Written(a, d, a, d, off, [])
  {
  }

  lemma KeepsFileByte(a: Addr, d: Image, a': Addr, d': Image, i: nat)
    requires KeepsFile(a, d, a', d') && Mapped(a, d, i / BLOCK_SIZE) != 0
    ensures FileByte(a', d', i) == FileByte(a, d, i)
  {
    assert Mapped(a', d', i / BLOCK_SIZE) == Mapped(a, d, i / BLOCK_SIZE);
  }

  lemma WrittenKept(a0: Addr, d0: Image, a: Addr, d: Image, a': Addr, d': Image, off: nat, data: seq<byte>)
    requires Written(a0, d0, a, d, off, data) && KeepsFile(a, d, a', d')
    ensures Written(a0, d0, a', d', off, data)
  {
    forall i | 0 <= i && (off <= i < off + |data| || Mapped(a0, d0, i / BLOCK_SIZE) != 0)
      ensures FileByte(a', d', i) == FileByte(a, d, i)
    {
      BlockOf(i, off, |data|);
      assert Mapped(a, d, i / BLOCK_SIZE) != 0;
      KeepsFileByte(a, d, a', d', i);
    }
    forall l | 0 <= l && Mapped(a, d, l) != 0 ensures Mapped(a', d', l) != 0 {
    }
    hide FileByte, KeepsFile;
  }

  /** Attempting to map a block of a file disturbs none of its mapped blocks. */
  lemma ReachedKeepsFile(v: View, v': View, ino: nat, r: Ref, b: uint16)
    requires Consistent(v) && Reached(v, v', ino, r, b) && ino < |v.t| && ValidRef(r) && IsLeaf(r)
    ensures KeepsFile(v.t[ino].addr, v.d, v'.t[ino].addr, v'.d)
  {
    forall l | 0 <= l && Mapped(v.t[ino].addr, v.d, l) != 0
      ensures Mapped(v'.t[ino].addr, v'.d, l) == Mapped(v.t[ino].addr, v.d, l) < DATA_BLK_NUM
      ensures DataBlock(v'.d, Mapped(v.t[ino].addr, v.d, l)) == DataBlock(v.d, Mapped(v.t[ino].addr, v.d, l))
    {
      LeafKept(v, v', ino, r, b, LeafRef(l));
    }
  }

  lemma LeafKept(v: View, v': View, ino: nat, r: Ref, b: uint16, x: Ref)
    requires Consistent(v) && Reached(v, v', ino, r, b) && ino < |v.t| && ValidRef(r) && IsLeaf(r)
    requires ValidRef(x) && IsLeaf(x) && At(v.t[ino].addr, v.d, x) != 0
    ensures At(v'.t[ino].addr, v'.d, x) == At(v.t[ino].addr, v.d, x) < DATA_BLK_NUM
    ensures DataBlock(v'.d, At(v.t[ino].addr, v.d, x)) == DataBlock(v.d, At(v.t[ino].addr, v.d, x))
  {
    var p := At(v.t[ino].addr, v.d, x);
    assert p in v.owner && v.owner[p] == Place(ino, x);
    assert p in v'.owner && v'.owner[p] == Place(ino, x);
    assert At(v'.t[v'.owner[p].ino].addr, v'.d, v'.owner[p].ref) == p;
  }

  // ---------- storing one chunk ----------

  /** Writing a leaf block changes the bytes of that block of that file. */
  lemma LeafWritten(v: View, ino: nat, l: nat, p: uint16, blk: Block)
    requires Consistent(v) && ino < |v.t| && l < MAX_BLOCKS && p == Mapped(v.t[ino].addr, v.d, l) && p != 0
    ensures 0 < p < DATA_BLK_NUM && p in v.owner && v.owner[p] == Place(ino, LeafRef(l)) && p !in v.list
    ensures var v' := v.(d := SetDataBlock(v.d, p, blk));
            && Consistent(v')
            && OthersKept(v, v', ino)
            && (forall m {:trigger Mapped(v.t[ino].addr, v'.d, m)} :: 0 <= m ==>
                  && Mapped(v.t[ino].addr, v'.d, m) == Mapped(v.t[ino].addr, v.d, m)
                  && (Mapped(v.t[ino].addr, v.d, m) == p ==> m == l))
  {
    var d' := SetDataBlock(v.d, p, blk);
    assert v.owner[p] == Place(ino, LeafRef(l));
    TreesFrame(v.d, v.t, v.owner, d');
    forall m | 0 <= m && Mapped(v.t[ino].addr, v.d, m) == p ensures m == l {
      LeafRefInjective(l, m);
    }
    forall m | 0 <= m ensures Mapped(v.t[ino].addr, d', m) == Mapped(v.t[ino].addr, v.d, m) {
      if m < MAX_BLOCKS {
        assert At(v.t[ino].addr, d', LeafRef(m)) == At(v.t[ino].addr, v.d, LeafRef(m));
      }
    }
    hide Trees, At, LeafRef;
  }

  lemma ByteAfterStore(a: Addr, d: Image, d': Image, l: nat, p: uint16, blk: Block, i: nat)
    requires 0 < p < DATA_BLK_NUM && p == Mapped(a, d, l) && d' == SetDataBlock(d, p, blk)
    requires forall m {:trigger Mapped(a, d', m)} :: 0 <= m ==>
              Mapped(a, d', m) == Mapped(a, d, m) && (Mapped(a, d, m) == p ==> m == l)
    ensures FileByte(a, d', i) == if i / BLOCK_SIZE == l then blk[i % BLOCK_SIZE] else FileByte(a, d, i)
  {
    assert Mapped(a, d', i / BLOCK_SIZE) == Mapped(a, d, i / BLOCK_SIZE);
  }

  /** Patching the next chunk into its block advances the write. */
  lemma WrittenStep(a0: Addr, d0: Image, a: Addr, d: Image, off: nat, data: seq<byte>, chunk: seq<byte>, p: uint16,
      d': Image)
    requires Written(a0, d0, a, d, off, data)
    requires (off + |data|) % BLOCK_SIZE + |chunk| <= BLOCK_SIZE && chunk != []
    requires data == [] || (off + |data|) % BLOCK_SIZE == 0
    requires 0 < p < DATA_BLK_NUM && p == Mapped(a, d, (off + |data|) / BLOCK_SIZE)
    requires d' == SetDataBlock(d, p, Patch(DataBlock(d, p), (off + |data|) % BLOCK_SIZE, chunk))
    requires forall m {:trigger Mapped(a, d', m)} :: 0 <= m ==>
              Mapped(a, d', m) == Mapped(a, d, m) && (Mapped(a, d, m) == p ==> m == (off + |data|) / BLOCK_SIZE)
    ensures Written(a0, d0, a, d', off, data + chunk)
  {
    var cur := off + |data|;
    forall i | 0 <= i
      ensures FileByte(a, d', i) == if cur <= i < cur + |chunk| then chunk[i - cur] else FileByte(a, d, i)
    {
      StoredByte(a, d, d', cur, chunk, p, i);
    }
    hide FileByte, Mapped, Patch, SetDataBlock;
    WrittenExtend(a0, d0, a, d, off, data, chunk, d');
  }

  lemma StoredByte(a: Addr, d: Image, d': Image, cur: nat, chunk: seq<byte>, p: uint16, i: nat)
    requires cur % BLOCK_SIZE + |chunk| <= BLOCK_SIZE
    requires 0 < p < DATA_BLK_NUM && p == Mapped(a, d, cur / BLOCK_SIZE)
    requires d' == SetDataBlock(d, p, Patch(DataBlock(d, p), cur % BLOCK_SIZE, chunk))
    requires forall m {:trigger Mapped(a, d', m)} :: 0 <= m ==>
              Mapped(a, d', m) == Mapped(a, d, m) && (Mapped(a, d, m) == p ==> m == cur / BLOCK_SIZE)
    ensures FileByte(a, d', i) == if cur <= i < cur + |chunk| then chunk[i - cur] else FileByte(a, d, i)
  {
    ByteAfterStore(a, d, d', cur / BLOCK_SIZE, p, Patch(DataBlock(d, p), cur % BLOCK_SIZE, chunk), i);
    InChunk(cur, |chunk|, i);
    hide Mapped, SetDataBlock;
  }

  lemma WrittenExtend(a0: Addr, d0: Image, a: Addr, d: Image, off: nat, data: seq<byte>, chunk: seq<byte>, d': Image)
    requires Written(a0, d0, a, d, off, data)
    requires (off + |data|) % BLOCK_SIZE + |chunk| <= BLOCK_SIZE && chunk != []
    requires data == [] || (off + |data|) % BLOCK_SIZE == 0
    requires Mapped(a, d, (off + |data|) / BLOCK_SIZE) != 0
    requires forall m {:trigger Mapped(a, d', m)} :: 0 <= m ==> Mapped(a, d', m) == Mapped(a, d, m)
    requires forall i {:trigger FileByte(a, d', i)} :: 0 <= i ==>
               FileByte(a, d', i) == if off + |data| <= i < off + |data| + |chunk| then chunk[i - (off + |data|)]
                 else FileByte(a, d, i)
    ensures Written(a0, d0, a, d', off, data + chunk)
  {
    hide FileByte, Mapped;
    forall m | off / BLOCK_SIZE <= m && m * BLOCK_SIZE < off + |data + chunk| ensures Mapped(a, d', m) != 0 {
      assert Mapped(a, d', m) == Mapped(a, d, m);
      NewBlock(off, |data|, |chunk|, m);
    }
  }

  lemma NewBlock(off: nat, n: nat, c: nat, m: nat)
    requires (off + n) % BLOCK_SIZE + c <= BLOCK_SIZE && (n == 0 || (off + n) % BLOCK_SIZE == 0)
    requires off / BLOCK_SIZE <= m && m * BLOCK_SIZE < off + n + c
    ensures m == (off + n) / BLOCK_SIZE || (n > 0 && m * BLOCK_SIZE < off + n)
  {
  }

  // ---------- part of a block that was a hole ----------

  /** Byte k of logical block l. */
  function BlockByte(a: Addr, d: Image, l: nat, k: nat): byte
    requires k < BLOCK_SIZE
  {
    FileByte(a, d, l * BLOCK_SIZE + k)
  }

  /** Outside [at, at + n) block l reads as it did before. */
  ghost predicate RestKept(a0: Addr, d0: Image, a: Addr, d: Image, l: nat, at: nat, n: nat) {
    forall k {:trigger BlockByte(a, d, l, k)} :: 0 <= k < BLOCK_SIZE && !(at <= k < at + n) ==>
          BlockByte(a, d, l, k) == BlockByte(a0, d0, l, k)
  }

  /** Outside [at, at + n) a block holds zeros. */
  ghost predicate RestZero(blk: Block, at: nat, n: nat) {
    forall k :: 0 <= k < BLOCK_SIZE && !(at <= k < at + n) ==> blk[k] == 0
  }

  /** Data blocks are not cleared when they are handed out.  Writing part of a block into a hole leaves the rest
      of it reading as zeros exactly when the free block whose turn it is holds zeros there: the first free
      block, or the one after the index blocks that are missing too. */
  lemma HoleStaysZeroIff(v0: View, v: View, ino: nat, l: nat, b: uint16, at: nat, chunk: seq<byte>)
    requires Consistent(v0) && ino < |v0.t| && l < MAX_BLOCKS && Mapped(v0.t[ino].addr, v0.d, l) == 0
    requires Reached(v0, v, ino, LeafRef(l), b) && Filled(v0, v, ino, LeafRef(l), b) && b != INVALID_BLK
    requires at + |chunk| <= BLOCK_SIZE
    ensures 0 < Missing(v0.t[ino].addr, v0.d, LeafRef(l)) <= |v0.list|
    ensures b == v0.list[Missing(v0.t[ino].addr, v0.d, LeafRef(l)) - 1] && b < DATA_BLK_NUM
    ensures RestKept(v0.t[ino].addr, v0.d, v.t[ino].addr,
                     SetDataBlock(v.d, b, Patch(DataBlock(v.d, b), at, chunk)), l, at, |chunk|) <==>
            RestZero(DataBlock(v0.d, v0.list[Missing(v0.t[ino].addr, v0.d, LeafRef(l)) - 1]), at, |chunk|)
  {
    HoleMissing(v0.t[ino].addr, v0.d, l);
    hide Consistent, Reached, SetDataBlock, Patch, Mapped, Missing, RestKept, RestZero, PathFilled, FreeDataKept,
        FreshKept;
    HoleShows(v0, v, ino, l, b, at, chunk);
  }

  lemma HoleMissing(a: Addr, d: Image, l: nat)
    requires l < MAX_BLOCKS && Mapped(a, d, l) == 0
    ensures Missing(a, d, LeafRef(l)) > 0
  {
  }

  lemma HoleShows(v0: View, v: View, ino: nat, l: nat, b: uint16, at: nat, chunk: seq<byte>)
    requires Consistent(v0) && ino < |v0.t| && l < MAX_BLOCKS && Mapped(v0.t[ino].addr, v0.d, l) == 0
    requires Reached(v0, v, ino, LeafRef(l), b) && FreshKept(v0, v, b) && b != INVALID_BLK && at + |chunk| <= BLOCK_SIZE
    ensures b in v0.list && b < DATA_BLK_NUM
    ensures RestKept(v0.t[ino].addr, v0.d, v.t[ino].addr,
                     SetDataBlock(v.d, b, Patch(DataBlock(v.d, b), at, chunk)), l, at, |chunk|) <==>
            RestZero(DataBlock(v0.d, b), at, |chunk|)
  {
    NotOwnedBefore(v0, v, ino, l, b);
    ReachedMapped(v0, v, ino, l, b);
    ReachedConsistent(v0, v, ino, LeafRef(l), b);
    hide Consistent, Reached, SetDataBlock, Patch, Mapped, BlockByte;
    var a0, a, d' := v0.t[ino].addr, v.t[ino].addr, SetDataBlock(v.d, b, Patch(DataBlock(v.d, b), at, chunk));
    forall k | 0 <= k < BLOCK_SIZE && !(at <= k < at + |chunk|)
      ensures BlockByte(a, d', l, k) == DataBlock(v0.d, b)[k] && BlockByte(a0, v0.d, l, k) == 0
    {
      HoleByte(a0, v0.d, l, k);
      FreshByte(v, ino, l, b, at, chunk, k);
    }
    if RestKept(a0, v0.d, a, d', l, at, |chunk|) {
      forall k | 0 <= k < BLOCK_SIZE && !(at <= k < at + |chunk|) ensures DataBlock(v0.d, b)[k] == 0 {
        assert BlockByte(a, d', l, k) == BlockByte(a0, v0.d, l, k);
      }
    }
  }

  lemma ReachedConsistent(v0: View, v: View, ino: nat, r: Ref, b: uint16)
    requires Reached(v0, v, ino, r, b)
    ensures Consistent(v) && |v.t| == |v0.t|
  {
  }

  lemma HoleByte(a: Addr, d: Image, l: nat, k: nat)
    requires Mapped(a, d, l) == 0 && k < BLOCK_SIZE
    ensures BlockByte(a, d, l, k) == 0
  {
    assert (l * BLOCK_SIZE + k) / BLOCK_SIZE == l;
    hide Mapped;
  }

  lemma FreshByte(v: View, ino: nat, l: nat, b: uint16, at: nat, chunk: seq<byte>, k: nat)
    requires Consistent(v) && ino < |v.t| && l < MAX_BLOCKS && b == Mapped(v.t[ino].addr, v.d, l)
    requires 0 < b < DATA_BLK_NUM
    requires at + |chunk| <= BLOCK_SIZE && k < BLOCK_SIZE && !(at <= k < at + |chunk|)
    ensures BlockByte(v.t[ino].addr, SetDataBlock(v.d, b, Patch(DataBlock(v.d, b), at, chunk)), l, k) ==
              DataBlock(v.d, b)[k]
  {
    var blk, i := Patch(DataBlock(v.d, b), at, chunk), l * BLOCK_SIZE + k;
    assert blk[k] == DataBlock(v.d, b)[k];
    assert i / BLOCK_SIZE == l && i % BLOCK_SIZE == k;
    LeafWritten(v, ino, l, b, blk);
    hide Consistent, OthersKept, Mapped, Patch, SetDataBlock;
    ByteAfterStore(v.t[ino].addr, v.d, SetDataBlock(v.d, b, blk), l, b, blk, i);
    hide FileByte;
  }

  lemma NotOwnedBefore(v0: View, v: View, ino: nat, l: nat, b: uint16)
    requires Consistent(v0) && ino < |v0.t| && l < MAX_BLOCKS && Mapped(v0.t[ino].addr, v0.d, l) == 0
    requires Reached(v0, v, ino, LeafRef(l), b) && FreshKept(v0, v, b) && b != INVALID_BLK
    ensures b < DATA_BLK_NUM && b in v0.list && DataBlock(v.d, b) == DataBlock(v0.d, b)
  {
    hide Grew, LeafSet, LeavesKept;
  }

  // ---------- the write as a whole ----------

  /** A write at or before the end of a file without holes is an overlay, and leaves no hole. */
  lemma WrittenIsOverlay(a0: Addr, d0: Image, size0: nat, a: Addr, d: Image, off: nat, data: seq<byte>)
    requires Written(a0, d0, a, d, off, data) && NoHole(a0, d0, size0) && off <= size0
    ensures var size := if off + |data| > size0 then off + |data| else size0;
            && FileBytes(a, d, size) == Overlay(FileBytes(a0, d0, size0), off, data)
            && NoHole(a, d, size)
  {
    var size := if off + |data| > size0 then off + |data| else size0;
    var s, o := FileBytes(a, d, size), Overlay(FileBytes(a0, d0, size0), off, data);
    forall i | 0 <= i < size ensures s[i] == o[i] {
      if !(off <= i < off + |data|) {
        assert Mapped(a0, d0, i / BLOCK_SIZE) != 0;
      }
    }
    forall l | 0 <= l && l * BLOCK_SIZE < size ensures Mapped(a, d, l) != 0 {
      if l * BLOCK_SIZE < size0 {
        assert Mapped(a0, d0, l) != 0;
      }
    }
  }

  /** A file that keeps its tree and its blocks keeps its bytes. */
  lemma OthersContent(v: View, v': View, ino: nat)
    requires Consistent(v) && OthersKept(v, v', ino)
    ensures forall i {:trigger Content(v'.t[i], v'.d)} :: 0 <= i < |v.t| && i != ino ==>
              Content(v'.t[i], v'.d) == Content(v.t[i], v.d)
    ensures forall i, n {:trigger NoHole(v'.t[i].addr, v'.d, n)} :: 0 <= i < |v.t| && i != ino && 0 <= n ==>
              (NoHole(v'.t[i].addr, v'.d, n) <==> NoHole(v.t[i].addr, v.d, n))
  {
    forall i, l | 0 <= i < |v.t| && i != ino && 0 <= l ensures SameBlock(v.t[i].addr, v.d, v'.t[i].addr, v'.d, l) {
      SameBlockAt(v, v', ino, i, l);
    }
    forall i | 0 <= i < |v.t| && i != ino ensures Content(v'.t[i], v'.d) == Content(v.t[i], v.d) {
      forall j | 0 <= j < v.t[i].size ensures FileByte(v'.t[i].addr, v'.d, j) == FileByte(v.t[i].addr, v.d, j) {
        assert SameBlock(v.t[i].addr, v.d, v'.t[i].addr, v'.d, j / BLOCK_SIZE);
      }
    }
    forall i, n | 0 <= i < |v.t| && i != ino && 0 <= n
      ensures NoHole(v'.t[i].addr, v'.d, n) <==> NoHole(v.t[i].addr, v.d, n)
    {
      forall l | 0 <= l ensures Mapped(v'.t[i].addr, v'.d, l) == Mapped(v.t[i].addr, v.d, l) {
        assert SameBlock(v.t[i].addr, v.d, v'.t[i].addr, v'.d, l);
      }
    }
  }

  ghost predicate SameBlock(a: Addr, d: Image, a': Addr, d': Image, l: nat) {
    && Mapped(a', d', l) == Mapped(a, d, l)
    && (0 < Mapped(a, d, l) < DATA_BLK_NUM ==> DataBlock(d', Mapped(a, d, l)) == DataBlock(d, Mapped(a, d, l)))
  }

  lemma SameBlockAt(v: View, v': View, ino: nat, i: nat, l: nat)
    requires Consistent(v) && OthersKept(v, v', ino) && i < |v.t| && i != ino
    ensures SameBlock(v.t[i].addr, v.d, v'.t[i].addr, v'.d, l)
  {
    if l < MAX_BLOCKS {
      var p := At(v.t[i].addr, v.d, LeafRef(l));
      assert At(v'.t[i].addr, v'.d, LeafRef(l)) == p;
      if p != 0 {
        assert v.owner[p] == Place(i, LeafRef(l));
      }
    }
  }

  /** Half-way through a write to inode `ino`: the state is consistent, the inode area and all other files
      are as they were, and `data` has reached the file. */
  ghost predicate Writing(v0: View, v: View, ino: nat, off: nat, data: seq<byte>) {
    && Consistent(v) && ino < |v0.t|
    && SameHeader(v0.d, v.d)
    && OnlyAddrChanged(v0.t, v.t, ino)
    && OthersKept(v0, v, ino)
    && (forall b :: b in v0.owner ==> b in v.owner && v.owner[b] == v0.owner[b])
    && Written(v0.t[ino].addr, v0.d, v.t[ino].addr, v.d, off, data)
  }

  lemma WritingStart(v: View, ino: nat, off: nat)
    requires Consistent(v) && ino < |v.t|
    ensures Writing(v, v, ino, off, [])
  {
    WrittenStart(v.t[ino].addr, v.d, off);
  }

  /** Mapping the next block, successfully or not. */
  lemma WritingMapped(v0: View, v: View, v': View, ino: nat, off: nat, data: seq<byte>, r: Ref, b: uint16)
    requires Writing(v0, v, ino, off, data) && Reached(v, v', ino, r, b) && ValidRef(r) && IsLeaf(r)
    ensures Writing(v0, v', ino, off, data)
  {
    GrewOthers(v, v', ino);
    ReachedKeepsFile(v, v', ino, r, b);
    hide Consistent, LeavesKept, LeafSet, LeafDataKept, OthersKept, Written, KeepsFile;
    OthersKeptTransitive(v0, v, v', ino);
    WrittenKept(v0.t[ino].addr, v0.d, v.t[ino].addr, v.d, v'.t[ino].addr, v'.d, off, data);
  }

  /** Storing the next chunk in its block. */
  lemma WritingStored(v0: View, v: View, ino: nat, off: nat, data: seq<byte>, p: uint16, chunk: seq<byte>)
    requires Writing(v0, v, ino, off, data)
    requires (off + |data|) % BLOCK_SIZE + |chunk| <= BLOCK_SIZE && chunk != []
    requires data == [] || (off + |data|) % BLOCK_SIZE == 0
    requires (off + |data|) / BLOCK_SIZE < MAX_BLOCKS
    requires p != 0 && p == Mapped(v.t[ino].addr, v.d, (off + |data|) / BLOCK_SIZE)
    ensures 0 < p < DATA_BLK_NUM && p !in v.list
    ensures Writing(v0, v.(d := SetDataBlock(v.d, p, Patch(DataBlock(v.d, p), (off + |data|) % BLOCK_SIZE, chunk))),
                    ino, off, data + chunk)
  {
    var l, o := (off + |data|) / BLOCK_SIZE, (off + |data|) % BLOCK_SIZE;
    IndexInRange(v, ino, LeafRef(l));
    var blk := Patch(DataBlock(v.d, p), o, chunk);
    var v' := v.(d := SetDataBlock(v.d, p, blk));
    LeafWritten(v, ino, l, p, blk);
    hide Consistent, OthersKept, Written, Mapped, Patch;
    OthersKeptTransitive(v0, v, v', ino);
    WrittenStep(v0.t[ino].addr, v0.d, v.t[ino].addr, v.d, off, data, chunk, p, v'.d);
  }

  lemma WritingParts(v0: View, v: View, ino: nat, off: nat, data: seq<byte>)
    requires Writing(v0, v, ino, off, data)
    ensures SameHeader(v0.d, v.d) && OthersKept(v0, v, ino)
    ensures v.t == v0.t[ino := v.t[ino]] && v.t[ino] == v0.t[ino].(addr := v.t[ino].addr)
    ensures Written(v0.t[ino].addr, v0.d, v.t[ino].addr, v.d, off, data)
  {
  }

  lemma WritingConsistent(v0: View, v: View, ino: nat, off: nat, data: seq<byte>)
    requires Writing(v0, v, ino, off, data)
    ensures Consistent(v)
  {
  }

  lemma MappedInRange(v: View, ino: nat, l: nat)
    requires Consistent(v) && ino < |v.t|
    ensures Mapped(v.t[ino].addr, v.d, l) < DATA_BLK_NUM
  {
    if l < MAX_BLOCKS {
      IndexInRange(v, ino, LeafRef(l));
    }
  }

  /** Part of one block, as a slice of the file. */
  lemma ChunkOfFile(a: Addr, d: Image, size: nat, cur: nat, chunk: nat)
    requires cur % BLOCK_SIZE + chunk <= BLOCK_SIZE && cur + chunk <= size
    requires Mapped(a, d, cur / BLOCK_SIZE) < DATA_BLK_NUM
    ensures var p := Mapped(a, d, cur / BLOCK_SIZE);
            FileBytes(a, d, size)[cur..cur + chunk] ==
            if p == 0 then Zeros(chunk) else DataBlock(d, p)[cur % BLOCK_SIZE..cur % BLOCK_SIZE + chunk]
  {
    forall i | cur <= i < cur + chunk
      ensures i / BLOCK_SIZE == cur / BLOCK_SIZE && i % BLOCK_SIZE == cur % BLOCK_SIZE + (i - cur)
    {
      InChunk(cur, chunk, i);
    }
    hide Mapped;
  }

  lemma ReachedMapped(v: View, v': View, ino: nat, l: nat, b: uint16)
    requires l < MAX_BLOCKS && ino < |v.t| && Reached(v, v', ino, LeafRef(l), b) && b != INVALID_BLK
    ensures b != 0 && b == Mapped(v'.t[ino].addr, v'.d, l)
  {
  }

  // ---------- a finished write ----------

  function NewSize(size: uint32, off: nat, n: nat): nat {
    if off + n > size then off + n else size
  }

  /** What a write of `data` at `off` to inode `ino` promises.  A file without holes below its size, written
      at or before its end, becomes the overlay of its old bytes with the data; whatever the case, no other
      file's bytes change. */
  ghost predicate WroteFile(v0: View, v: View, ino: nat, off: nat, data: seq<byte>) {
    && ino < |v0.t|
    && v.t[ino] == v0.t[ino].(addr := v.t[ino].addr, size := v.t[ino].size, mtime := v.t[ino].mtime)
    && v.t[ino].size == NewSize(v0.t[ino].size, off, |data|)
    && Written(v0.t[ino].addr, v0.d, v.t[ino].addr, v.d, off, data)
    && (off <= v0.t[ino].size && NoHole(v0.t[ino].addr, v0.d, v0.t[ino].size) ==>
          && Content(v.t[ino], v.d) == Overlay(Content(v0.t[ino], v0.d), off, data)
          && NoHole(v.t[ino].addr, v.d, v.t[ino].size))
    && (forall i {:trigger v.t[i]} :: 0 <= i < |v0.t| && i != ino ==>
          && v.t[i] == v0.t[i] && Content(v.t[i], v.d) == Content(v0.t[i], v0.d)
          && (NoHole(v.t[i].addr, v.d, v.t[i].size) <==> NoHole(v0.t[i].addr, v0.d, v0.t[i].size)))
  }

  lemma WroteFileFrom(v0: View, v: View, ino: nat, off: nat, data: seq<byte>)
    requires Consistent(v0) && ino < |v0.t| && OthersKept(v0, v, ino)
    requires v.t[ino] == v0.t[ino].(addr := v.t[ino].addr, size := v.t[ino].size, mtime := v.t[ino].mtime)
    requires v.t[ino].size == NewSize(v0.t[ino].size, off, |data|)
    requires Written(v0.t[ino].addr, v0.d, v.t[ino].addr, v.d, off, data)
    ensures WroteFile(v0, v, ino, off, data)
  {
    OthersContent(v0, v, ino);
    hide Consistent, Written, NoHole, Content;
    if off <= v0.t[ino].size && NoHole(v0.t[ino].addr, v0.d, v0.t[ino].size) {
      OverlayContent(v0, v, ino, off, data);
    }
    hide Overlay;
    assert forall i :: 0 <= i < |v0.t| && i != ino ==> v.t[i] == v0.t[i];
  }

  lemma OverlayContent(v0: View, v: View, ino: nat, off: nat, data: seq<byte>)
    requires ino < |v0.t| && off <= v0.t[ino].size && NoHole(v0.t[ino].addr, v0.d, v0.t[ino].size)
    requires v.t[ino].size == NewSize(v0.t[ino].size, off, |data|)
    requires Written(v0.t[ino].addr, v0.d, v.t[ino].addr, v.d, off, data)
    ensures Content(v.t[ino], v.d) == Overlay(Content(v0.t[ino], v0.d), off, data)
    ensures NoHole(v.t[ino].addr, v.d, v.t[ino].size)
  {
    hide Written, NoHole, FileBytes;
    WrittenIsOverlay(v0.t[ino].addr, v0.d, v0.t[ino].size, v.t[ino].addr, v.d, off, data);
  }

  // ---------- writes outside the data area ----------

  lemma MappedSameData(a: Addr, d: Image, d': Image, l: nat)
    requires forall b :: 0 <= b < DATA_BLK_NUM ==> DataBlock(d', b) == DataBlock(d, b)
    ensures Mapped(a, d', l) == Mapped(a, d, l)
  {
    hide DataBlock;
  }

  /** Files do not notice a write outside the data area. */
  lemma ContentSameData(d: Image, d': Image)
    requires d'[DATA_START_BLK..] == d[DATA_START_BLK..]
    ensures forall di: DInode {:trigger Content(di, d')} :: Content(di, d') == Content(di, d)
    ensures forall a: Addr, n {:trigger NoHole(a, d', n)} :: 0 <= n ==> (NoHole(a, d', n) <==> NoHole(a, d, n))
  {
    forall b | 0 <= b < DATA_BLK_NUM ensures DataBlock(d', b) == DataBlock(d, b) {
      assert d'[DATA_START_BLK..][b] == d[DATA_START_BLK..][b];
    }
    forall a: Addr, l | 0 <= l ensures Mapped(a, d', l) == Mapped(a, d, l) {
      MappedSameData(a, d, d', l);
    }
    hide Mapped;
    forall di: DInode ensures Content(di, d') == Content(di, d) {
      forall i | 0 <= i < di.size ensures FileByte(di.addr, d', i) == FileByte(di.addr, d, i) {
      }
    }
  }

  lemma WroteFileSameData(v0: View, v1: View, v2: View, ino: nat, off: nat, data: seq<byte>)
    requires WroteFile(v0, v1, ino, off, data) && v2.t == v1.t && v2.d[DATA_START_BLK..] == v1.d[DATA_START_BLK..]
    ensures WroteFile(v0, v2, ino, off, data)
  {
    ContentSameData(v1.d, v2.d);
    WrittenSameData(v0.t[ino].addr, v0.d, v1.t[ino].addr, v1.d, v2.d, off, data);
    hide Content, NoHole, Written;
  }

  lemma FileByteSameData(a: Addr, d: Image, d': Image)
    requires d'[DATA_START_BLK..] == d[DATA_START_BLK..]
    ensures forall l {:trigger Mapped(a, d', l)} :: 0 <= l ==> Mapped(a, d', l) == Mapped(a, d, l)
    ensures forall i {:trigger FileByte(a, d', i)} :: 0 <= i ==> FileByte(a, d', i) == FileByte(a, d, i)
  {
    forall b | 0 <= b < DATA_BLK_NUM ensures DataBlock(d', b) == DataBlock(d, b) {
      assert d'[DATA_START_BLK..][b] == d[DATA_START_BLK..][b];
    }
    forall l | 0 <= l ensures Mapped(a, d', l) == Mapped(a, d, l) {
      MappedSameData(a, d, d', l);
    }
    hide Mapped;
  }

  lemma WrittenSameData(a0: Addr, d0: Image, a: Addr, d: Image, d': Image, off: nat, data: seq<byte>)
    requires Written(a0, d0, a, d, off, data) && d'[DATA_START_BLK..] == d[DATA_START_BLK..]
    ensures Written(a0, d0, a, d', off, data)
  {
    FileByteSameData(a, d, d');
    hide Mapped, FileByte;
  }
}
