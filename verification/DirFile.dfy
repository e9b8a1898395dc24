/** A directory is a file of entries: what its bytes say, and what rewriting it block by block does. */
module DirFiles {
  import opened Bytes
  import opened BlockDevices
  import opened FreeLists
  import opened InodeTrees
  import opened InodeViews
  import opened InodeGrowths
  import opened FileContents
  import opened FileGrowths
  import opened DirEntries

  ghost function EntriesOf(di: DInode, d: Image): seq<DirEntry> {
    Parse(Content(di, d))
  }

  /** A directory with an unmapped block below its size cannot be read. */
  ghost predicate Readable(di: DInode, d: Image) {
    NoHole(di.addr, d, di.size)
  }

  ghost function DirOf(di: DInode, d: Image): map<Name, uint16> {
    Dir(EntriesOf(di, d))
  }

  /** What looking a name up finds; an unreadable directory has no names. */
  ghost function Found(di: DInode, d: Image, key: Name): uint16 {
    if Readable(di, d) && key in DirOf(di, d) then DirOf(di, d)[key] else INVALID_BLK
  }

  /** The entries as whole blocks, the last one padded with zeros. */
  function Padded(es: seq<DirEntry>): (bs: seq<byte>)
    ensures |bs| == BlocksFor(|es| * ENTRY_SIZE) * BLOCK_SIZE
    ensures |bs| >= |es| * ENTRY_SIZE && bs[..|es| * ENTRY_SIZE] == Pack(es)
  {
    Pack(es) + Zeros(BlocksFor(|es| * ENTRY_SIZE) * BLOCK_SIZE - |es| * ENTRY_SIZE)
  }

  /** Once every block is written, the file reads back as the entries. */
  lemma WholeDirWritten(a0: Addr, d0: Image, a: Addr, d: Image, es: seq<DirEntry>)
    requires Written(a0, d0, a, d, 0, Padded(es))
    ensures FileBytes(a, d, |es| * ENTRY_SIZE) == Pack(es) && Parse(FileBytes(a, d, |es| * ENTRY_SIZE)) == es
    ensures NoHole(a, d, |es| * ENTRY_SIZE)
  {
    var n := |es| * ENTRY_SIZE;
    hide Pack, Parse, Mapped;
    ParsePack(es);
    forall i | 0 <= i < n ensures FileByte(a, d, i) == Pack(es)[i] {
      assert Padded(es)[..n][i] == Pack(es)[i];
    }
    hide FileByte;
    assert es == [] ==> n == 0;
  }

  /** A rewrite that stops at block l stops past every old entry.  If it did not change those, the directory
      reads as before. */
  lemma DirWriteStopped(a0: Addr, d0: Image, size: nat, a: Addr, d: Image, es: seq<DirEntry>, l: nat)
    requires l * BLOCK_SIZE < |es| * ENTRY_SIZE && Written(a0, d0, a, d, 0, Padded(es)[..l * BLOCK_SIZE])
    requires NoHole(a0, d0, size) && Mapped(a0, d0, l) == 0
    ensures var before := Parse(FileBytes(a0, d0, size));
            && |es| > |before|
            && NoHole(a, d, size)
            && (es[..|before|] == before ==> Parse(FileBytes(a, d, size)) == before)
  {
    var n := size / ENTRY_SIZE;
    hide NoHole, Parse, Pack, FileByte, Written, Mapped, Padded;
    StoppedPastEnd(a0, d0, size, a, d, Padded(es)[..l * BLOCK_SIZE], l);
    forall i | 0 <= i < n * ENTRY_SIZE ensures FileByte(a, d, i) == Pack(es)[i] {
      StoppedByte(a0, d0, a, d, es, l, i);
    }
    ParsedPrefix(FileBytes(a, d, size), es, n);
  }

  lemma ParsedPrefix(x: seq<byte>, es: seq<DirEntry>, n: nat)
    requires n == |x| / ENTRY_SIZE && n <= |es| && n * ENTRY_SIZE <= |x|
    requires forall i :: 0 <= i < n * ENTRY_SIZE ==> x[i] == Pack(es)[i]
    ensures Parse(x) == es[..n]
  {
    hide Pack, Parse;
    ParsePack(es);
    assert x[..n * ENTRY_SIZE] == Pack(es)[..n * ENTRY_SIZE];
    SameEntries(x, Pack(es), n);
    assert Parse(x)[..n] == Parse(x);
  }

  lemma StoppedPastEnd(a0: Addr, d0: Image, size: nat, a: Addr, d: Image, data: seq<byte>, l: nat)
    requires Written(a0, d0, a, d, 0, data) && NoHole(a0, d0, size) && Mapped(a0, d0, l) == 0
    ensures size <= l * BLOCK_SIZE && NoHole(a, d, size)
  {
    hide Mapped, FileByte;
    forall m | 0 <= m && m * BLOCK_SIZE < size ensures Mapped(a, d, m) != 0 {
      assert Mapped(a0, d0, m) != 0;
    }
  }

  lemma StoppedByte(a0: Addr, d0: Image, a: Addr, d: Image, es: seq<DirEntry>, l: nat, i: nat)
    requires l * BLOCK_SIZE < |es| * ENTRY_SIZE && Written(a0, d0, a, d, 0, Padded(es)[..l * BLOCK_SIZE])
    requires i < l * BLOCK_SIZE
    ensures FileByte(a, d, i) == Pack(es)[i]
  {
    hide Pack, Mapped, FileByte;
    assert Padded(es)[..|es| * ENTRY_SIZE][i] == Padded(es)[..l * BLOCK_SIZE][i];
  }

  // ---------- reading ----------

  /** The first l blocks have been read. */
  ghost predicate DirReading(a: Addr, d: Image, size: nat, l: nat, bytes: seq<byte>) {
    && |bytes| == Min(l * BLOCK_SIZE, size / ENTRY_SIZE * ENTRY_SIZE)
    && bytes == FileBytes(a, d, size)[..|bytes|]
    && forall m {:trigger Mapped(a, d, m)} :: 0 <= m < l ==> Mapped(a, d, m) != 0
  }

  lemma DirReadingStart(a: Addr, d: Image, size: nat)
    ensures DirReading(a, d, size, 0, [])
  {
  }

  lemma DirReadingStep(a: Addr, d: Image, size: nat, l: nat, bytes: seq<byte>, buf: Block, chunk: nat)
    requires DirReading(a, d, size, l, bytes) && l * BLOCK_SIZE < size
    requires 0 < Mapped(a, d, l) < DATA_BLK_NUM && buf == DataBlock(d, Mapped(a, d, l))
    requires chunk == Min(BLOCK_SIZE, size / ENTRY_SIZE * ENTRY_SIZE - |bytes|)
    ensures DirReading(a, d, size, l + 1, bytes + buf[..chunk])
  {
    hide Mapped, FileBytes;
    if chunk > 0 {
      assert |bytes| == l * BLOCK_SIZE && |bytes| / BLOCK_SIZE == l && |bytes| % BLOCK_SIZE == 0;
      ChunkOfFile(a, d, size, |bytes|, chunk);
      Concatenated(FileBytes(a, d, size), bytes, buf[..chunk]);
    } else {
      assert bytes + buf[..chunk] == bytes;
    }
  }

  lemma Concatenated(file: seq<byte>, x: seq<byte>, y: seq<byte>)
    requires |x| + |y| <= |file| && x == file[..|x|] && y == file[|x|..|x| + |y|]
    ensures x + y == file[..|x + y|]
  {
  }

  lemma DirReadingEnd(a: Addr, d: Image, size: nat, l: nat, bytes: seq<byte>)
    requires DirReading(a, d, size, l, bytes) && l * BLOCK_SIZE >= size
    ensures NoHole(a, d, size) && Parse(bytes) == Parse(FileBytes(a, d, size))
  {
    hide Mapped, FileBytes, Parse;
    var n := size / ENTRY_SIZE;
    assert |bytes| == n * ENTRY_SIZE;
    SameEntries(bytes, FileBytes(a, d, size), n);
    WholeEntries(Parse(bytes), n);
    WholeEntries(Parse(FileBytes(a, d, size)), n);
  }

  lemma WholeEntries(es: seq<DirEntry>, n: nat)
    requires |es| == n
    ensures es[..n] == es
  {
  }

  lemma HoleFound(a: Addr, d: Image, size: nat, l: nat)
    requires l * BLOCK_SIZE < size && Mapped(a, d, l) == 0
    ensures !NoHole(a, d, size)
  {
  }

  // ---------- rewriting ----------

  /** The records of one block, in a block of zeros. */
  lemma PaddedBlock(es: seq<DirEntry>, l: nat, chunk: nat)
    requires l < BlocksFor(|es| * ENTRY_SIZE) && chunk == Min(BLOCK_SIZE, |es| * ENTRY_SIZE - l * BLOCK_SIZE)
    ensures l * BLOCK_SIZE + chunk <= |Pack(es)| && (l + 1) * BLOCK_SIZE <= |Padded(es)|
    ensures Patch(ZERO_BLOCK, 0, Pack(es)[l * BLOCK_SIZE..l * BLOCK_SIZE + chunk]) ==
              Padded(es)[l * BLOCK_SIZE..(l + 1) * BLOCK_SIZE]
  {
    hide Pack;
    var x, y := Patch(ZERO_BLOCK, 0, Pack(es)[l * BLOCK_SIZE..l * BLOCK_SIZE + chunk]),
        Padded(es)[l * BLOCK_SIZE..(l + 1) * BLOCK_SIZE];
    forall i | 0 <= i < BLOCK_SIZE ensures x[i] == y[i] {
    }
  }

  /** A block that could not be mapped was a hole when the write began. */
  lemma HoleAtStart(v0: View, v: View, ino: nat, off: nat, data: seq<byte>, l: nat)
    requires Writing(v0, v, ino, off, data)
    requires l < MAX_BLOCKS ==> Missing(v.t[ino].addr, v.d, LeafRef(l)) > 0
    ensures Mapped(v0.t[ino].addr, v0.d, l) == 0
  {
    hide Consistent, OthersKept;
    if l < MAX_BLOCKS {
      NotMissing(v.t[ino].addr, v.d, LeafRef(l));
      assert Mapped(v.t[ino].addr, v.d, l) == 0;
    }
  }

  lemma NotMissing(a: Addr, d: Image, r: Ref)
    requires ValidRef(r) && IsLeaf(r) && Missing(a, d, r) > 0
    ensures At(a, d, r) == 0
  {
    match r
    case Direct(_) =>
    case SingleData(_, j) => NoEntry(d, j);
    case DoubleData(i, j) => NoEntry(d, i); NoEntry(d, j);
  }

  /** A readable directory is no larger than a tree can map. */
  lemma ReadableBound(a: Addr, d: Image, size: nat)
    requires NoHole(a, d, size)
    ensures size <= MAX_BLOCKS * BLOCK_SIZE
  {
    assert Mapped(a, d, MAX_BLOCKS) == 0;
  }

  // ---------- room for an entry ----------

  /** There is room for an entry behind n others: its block is mapped, or enough blocks are free to map it. */
  ghost predicate RoomForEntry(v: View, ino: nat, n: nat)
    requires ino < |v.t|
  {
    var l := n * ENTRY_SIZE / BLOCK_SIZE;
    l < MAX_BLOCKS && Missing(v.t[ino].addr, v.d, LeafRef(l)) <= |v.list|
  }

  /** The entry took exactly the blocks its place was missing off the free list. */
  ghost predicate TookEntry(v: View, v': View, ino: nat, n: nat) {
    && ino < |v.t| && RoomForEntry(v, ino, n)
    && v'.list == v.list[Missing(v.t[ino].addr, v.d, LeafRef(n * ENTRY_SIZE / BLOCK_SIZE))..]
  }

  /** Rewriting a directory in place needs no block. */
  lemma RoomInPlace(v: View, v': View, ino: nat, n: nat)
    requires ino < |v.t| && NoHole(v.t[ino].addr, v.d, v.t[ino].size) && n == v.t[ino].size / ENTRY_SIZE
    ensures RoomTo(v, ino, 0, BlocksFor(n * ENTRY_SIZE))
    ensures TookBlocks(v, v', ino, 0, BlocksFor(n * ENTRY_SIZE)) ==> v'.list == v.list
  {
    hide Mapped, Missing, Needed;
    ReadableBound(v.t[ino].addr, v.d, v.t[ino].size);
    NeedsNothing(v, ino, BlocksFor(n * ENTRY_SIZE));
    assert v.list[0..] == v.list;
    hide NoHole;
  }

  lemma PastEntries(n: nat)
    ensures BlocksFor((n + 1) * ENTRY_SIZE) == n * ENTRY_SIZE / BLOCK_SIZE + 1
  {
  }

  /** With one more entry it needs what the place of that entry is missing. */
  lemma RoomForOneMore(v: View, v': View, ino: nat, n: nat)
    requires ino < |v.t| && NoHole(v.t[ino].addr, v.d, v.t[ino].size) && n == v.t[ino].size / ENTRY_SIZE
    ensures RoomTo(v, ino, 0, BlocksFor((n + 1) * ENTRY_SIZE)) <==> RoomForEntry(v, ino, n)
    ensures TookBlocks(v, v', ino, 0, BlocksFor((n + 1) * ENTRY_SIZE)) ==> TookEntry(v, v', ino, n)
  {
    hide Mapped, Missing, Needed, BlocksFor;
    PastEntries(n);
    ReadableBound(v.t[ino].addr, v.d, v.t[ino].size);
    NeedsNothing(v, ino, n * ENTRY_SIZE / BLOCK_SIZE);
    hide NoHole;
  }

  /** The two entries of a new directory need one block. */
  lemma RoomForFirst(v: View, v': View, ino: nat)
    requires ino < |v.t|
    ensures RoomTo(v, ino, 0, BlocksFor(2 * ENTRY_SIZE)) <==> RoomForEntry(v, ino, 0)
    ensures TookBlocks(v, v', ino, 0, BlocksFor(2 * ENTRY_SIZE)) ==> TookEntry(v, v', ino, 0)
  {
    hide Mapped, Missing, Needed;
    NeedsNothing(v, ino, 0);
  }
}
