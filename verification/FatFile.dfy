/** A file of the FAT engine, as bytes: the blocks of its clusters, one after another. */
module FatFiles {
  import opened Bytes
  import opened BlockDevices
  import opened FatChains
  import opened FileSpecs

  function ClusterBlock(c: uint16): (b: nat)
    requires IsCluster(c)
    ensures FAT_DATA_START <= b < TOTAL_BLK_NUM
  {
    FAT_DATA_START + (c as int - 2)
  }

  /** Clusters lie on the disk in order, from the start of the data area to the end of the disk. */
  lemma ClustersInOrder(c: uint16)
    requires IsCluster(c)
    ensures ClusterBlock(2) == FAT_DATA_START && ClusterBlock(CLUSTER_END - 1) == TOTAL_BLK_NUM - 1
    ensures IsCluster(c + 1) ==> ClusterBlock(c + 1) == ClusterBlock(c) + 1
  {
  }

  /** Byte i of a chain; past the end of the chain, zero. */
  function ChainByte(chain: seq<uint16>, d: Image, i: nat): byte {
    if i / BLOCK_SIZE < |chain| && IsCluster(chain[i / BLOCK_SIZE]) then
      d[ClusterBlock(chain[i / BLOCK_SIZE])][i % BLOCK_SIZE] else 0
  }

  function ChainBytes(chain: seq<uint16>, d: Image, n: nat): (s: seq<byte>)
    ensures |s| == n && forall i :: 0 <= i < n ==> s[i] == ChainByte(chain, d, i)
  {
    seq<byte>(n, i requires 0 <= i < n => ChainByte(chain, d, i))
  }

  /** The second chain holds the bytes of the first with `data` stored at `off`. */
  ghost predicate Stored(chain0: seq<uint16>, d0: Image, chain: seq<uint16>, d: Image, off: nat, data: seq<byte>) {
    forall i {:trigger ChainByte(chain, d, i)} :: 0 <= i ==>
      ChainByte(chain, d, i) == if off <= i < off + |data| then data[i - off] else ChainByte(chain0, d0, i)
  }

  /** Two moments of the disk differ at most in the blocks of one chain. */
  ghost predicate OnlyChain(chain: seq<uint16>, d0: Image, d: Image) {
    && d[..FAT_DATA_START] == d0[..FAT_DATA_START]
    && forall c: uint16 {:trigger IsCluster(c)} :: IsCluster(c) && c !in chain ==>
         d[ClusterBlock(c)] == d0[ClusterBlock(c)]
  }

  /** A zeroed cluster linked behind a chain does not change its bytes. */
  lemma GrownStored(chain0: seq<uint16>, d0: Image, chain: seq<uint16>, d: Image, off: nat, data: seq<byte>,
      c: uint16, d': Image)
    requires Stored(chain0, d0, chain, d, off, data) && IsCluster(c) && c !in chain
    requires d' == d[ClusterBlock(c) := ZERO_BLOCK]
    ensures Stored(chain0, d0, chain + [c], d', off, data)
  {
    forall i | 0 <= i ensures ChainByte(chain + [c], d', i) == ChainByte(chain, d, i) {
    }
    hide ChainByte;
  }

  /** One chunk copied into its block. */
  lemma ChunkStored(chain: seq<uint16>, d: Image, k: nat, cur: nat, chunk: seq<byte>, d': Image, i: nat)
    requires k < |chain| && k == cur / BLOCK_SIZE && cur % BLOCK_SIZE + |chunk| <= BLOCK_SIZE
    requires Distinct(chain) && IsCluster(chain[k])
    requires d' == d[ClusterBlock(chain[k]) := Patch(d[ClusterBlock(chain[k])], cur % BLOCK_SIZE, chunk)]
    ensures ChainByte(chain, d', i) == if cur <= i < cur + |chunk| then chunk[i - cur] else ChainByte(chain, d, i)
  {
    InChunk(cur, |chunk|, i);
  }

  lemma StoredStep(chain0: seq<uint16>, d0: Image, chain: seq<uint16>, d: Image, off: nat, data: seq<byte>, k: nat,
      chunk: seq<byte>, d': Image)
    requires Stored(chain0, d0, chain, d, off, data)
    requires k < |chain| && k == (off + |data|) / BLOCK_SIZE && (off + |data|) % BLOCK_SIZE + |chunk| <= BLOCK_SIZE
    requires Distinct(chain) && IsCluster(chain[k])
    requires d' == d[ClusterBlock(chain[k]) := Patch(d[ClusterBlock(chain[k])], (off + |data|) % BLOCK_SIZE, chunk)]
    ensures Stored(chain0, d0, chain, d', off, data + chunk)
  {
    var cur := off + |data|;
    forall i | 0 <= i
      ensures ChainByte(chain, d', i) == if cur <= i < cur + |chunk| then chunk[i - cur] else ChainByte(chain, d, i)
    {
      ChunkStored(chain, d, k, cur, chunk, d', i);
    }
    hide ChainByte, Patch, Distinct;
  }

  /** Writing one cluster of a chain touches nothing else. */
  lemma OnlyChainStep(chain: seq<uint16>, d0: Image, d: Image, c: uint16, blk: Block)
    requires OnlyChain(chain, d0, d) && IsCluster(c) && c in chain
    ensures OnlyChain(chain, d0, d[ClusterBlock(c) := blk])
  {
    var d' := d[ClusterBlock(c) := blk];
    assert d'[..FAT_DATA_START] == d[..FAT_DATA_START];
  }

  lemma OnlyChainGrown(chain: seq<uint16>, d0: Image, d: Image, c: uint16)
    requires OnlyChain(chain, d0, d) && IsCluster(c)
    ensures OnlyChain(chain + [c], d0, d[ClusterBlock(c) := ZERO_BLOCK])
  {
    assert OnlyChain(chain + [c], d0, d);
    assert c in chain + [c];
    OnlyChainStep(chain + [c], d0, d, c, ZERO_BLOCK);
  }

  /** Chains do not notice a write outside the data area. */
  lemma SameData(chain: seq<uint16>, d: Image, d': Image)
    requires d'[FAT_DATA_START..] == d[FAT_DATA_START..]
    ensures forall i {:trigger ChainByte(chain, d', i)} :: 0 <= i ==> ChainByte(chain, d', i) == ChainByte(chain, d, i)
  {
    forall b | FAT_DATA_START <= b < TOTAL_BLK_NUM ensures d'[b] == d[b] {
      assert d'[FAT_DATA_START..][b - FAT_DATA_START] == d[FAT_DATA_START..][b - FAT_DATA_START];
    }
  }

  /** A chain none of whose clusters is in the written chain keeps its bytes. */
  lemma OtherChain(chain: seq<uint16>, d0: Image, d: Image, other: seq<uint16>)
    requires OnlyChain(chain, d0, d) && forall k :: 0 <= k < |other| ==> other[k] !in chain
    ensures forall i {:trigger ChainByte(other, d, i)} :: 0 <= i ==> ChainByte(other, d, i) == ChainByte(other, d0, i)
  {
  }

  // ---------- a write in progress ----------

  /** Chain h, perhaps grown, holds its old bytes with `data` stored at `off`; nothing outside it changed. */
  ghost predicate FileWrite(c0: Chains, d0: Image, c: Chains, d: Image, h: uint16, off: nat, data: seq<byte>) {
    && h in c0 && h in c
    && c == c0[h := c[h]] && c0[h] <= c[h]
    && Stored(c0[h], d0, c[h], d, off, data)
    && OnlyChain(c[h], d0, d)
  }

  lemma FileWriteStart(c: Chains, d: Image, h: uint16, off: nat)
    requires h in c
    ensures FileWrite(c, d, c, d, h, off, [])
  {
    assert c == c[h := c[h]];
  }

  lemma WriteKeepsChain(c0: Chains, d0: Image, c: Chains, d: Image, h: uint16, off: nat, data: seq<byte>)
    requires FileWrite(c0, d0, c, d, h, off, data)
    ensures h in c
  {
  }

  lemma FileWriteGrown(c0: Chains, d0: Image, c: Chains, d: Image, h: uint16, off: nat, data: seq<byte>, x: uint16)
    requires FileWrite(c0, d0, c, d, h, off, data) && IsCluster(x) && x !in c[h]
    ensures FileWrite(c0, d0, c[h := c[h] + [x]], d[ClusterBlock(x) := ZERO_BLOCK], h, off, data)
  {
    GrownStored(c0[h], d0, c[h], d, off, data, x, d[ClusterBlock(x) := ZERO_BLOCK]);
    OnlyChainGrown(c[h], d0, d, x);
    hide Stored, OnlyChain;
    assert c[h := c[h] + [x]] == c0[h := c[h] + [x]];
  }

  lemma FileWriteStep(c0: Chains, d0: Image, c: Chains, d: Image, h: uint16, off: nat, data: seq<byte>, k: nat,
      chunk: seq<byte>)
    requires FileWrite(c0, d0, c, d, h, off, data) && Distinct(c[h])
    requires k < |c[h]| && k == (off + |data|) / BLOCK_SIZE
    requires (off + |data|) % BLOCK_SIZE + |chunk| <= BLOCK_SIZE && IsCluster(c[h][k])
    ensures var b := ClusterBlock(c[h][k]);
            FileWrite(c0, d0, c, d[b := Patch(d[b], (off + |data|) % BLOCK_SIZE, chunk)], h, off, data + chunk)
  {
    var b := ClusterBlock(c[h][k]);
    var d' := d[b := Patch(d[b], (off + |data|) % BLOCK_SIZE, chunk)];
    StoredStep(c0[h], d0, c[h], d, off, data, k, chunk, d');
    OnlyChainStep(c[h], d0, d, c[h][k], d'[b]);
    hide Stored, OnlyChain;
  }

  // ---------- how much a write can store ----------

  /** Bytes a write of `len` at `off` can store when the chain can be made to hold `capacity` bytes. */
  function Room(capacity: nat, off: nat, len: nat): nat {
    if off >= capacity then 0 else Min(len, capacity - off)
  }

  // ---------- a finished write ----------

  ghost predicate SameBytes(chain: seq<uint16>, d0: Image, d: Image) {
    forall i {:trigger ChainByte(chain, d, i)} :: 0 <= i ==> ChainByte(chain, d, i) == ChainByte(chain, d0, i)
  }

  /** What a write promises about the whole volume: the written chain only grew at its end and holds its old
      bytes overlaid with the data; every other chain is linked as before and holds the same bytes. */
  ghost predicate WroteChain(c0: Chains, d0: Image, c: Chains, d: Image, h: uint16, off: nat, data: seq<byte>) {
    && h in c0 && h in c && c == c0[h := c[h]] && c0[h] <= c[h]
    && Stored(c0[h], d0, c[h], d, off, data)
    && forall g {:trigger c0[g]} :: g in c0 && g != h ==> SameBytes(c0[g], d0, d)
  }

  lemma WroteChainFrom(c0: Chains, d0: Image, c: Chains, d: Image, h: uint16, off: nat, data: seq<byte>,
      place: Places, d': Image)
    requires FileWrite(c0, d0, c, d, h, off, data) && Partition(c, place)
    requires d'[FAT_DATA_START..] == d[FAT_DATA_START..]
    ensures WroteChain(c0, d0, c, d', h, off, data)
  {
    hide Partition, ChainByte, OnlyChain;
    SameData(c[h], d, d');
    forall g | g in c0 && g != h ensures SameBytes(c0[g], d0, d') {
      assert c[g] == c0[g];
      SameData(c[g], d, d');
      forall k | 0 <= k < |c[g]| ensures c[g][k] !in c[h] {
        NotShared(c, place, g, k, h);
      }
      OtherChain(c[h], d0, d, c[g]);
    }
  }

  lemma NotShared(c: Chains, place: Places, g: uint16, k: nat, h: uint16)
    requires Partition(c, place) && g in c && h in c && g != h && k < |c[g]|
    ensures c[g][k] !in c[h]
  {
  }

  /** A write at or before the recorded end of a file is an overlay, provided the chain reaches that far. */
  lemma StoredIsOverlay(chain0: seq<uint16>, d0: Image, chain: seq<uint16>, d: Image, size: nat, off: nat,
      data: seq<byte>)
    requires Stored(chain0, d0, chain, d, off, data) && off <= size
    ensures ChainBytes(chain, d, if off + |data| > size then off + |data| else size) ==
              Overlay(ChainBytes(chain0, d0, size), off, data)
  {
    hide ChainByte;
  }

  // ---------- recorded sizes ----------

  function SizeOf(sizes: map<uint16, uint32>, h: uint16): uint32 {
    if h in sizes then sizes[h] else 0
  }

  /** The file a chain and a recorded size stand for: reading stops at whichever ends first. */
  function FatContent(chain: seq<uint16>, d: Image, size: nat): seq<byte> {
    ChainBytes(chain, d, Min(size, |chain| * BLOCK_SIZE))
  }

  /** The recorded sizes after a write to h that ended at `end`. */
  ghost function Recorded(sizes: map<uint16, uint32>, h: uint16, end: nat): map<uint16, uint32> {
    if h in sizes && sizes[h] < end < 0x1_0000_0000 then sizes[h := end] else sizes
  }

  /** A write at or before the recorded end of a file whose chain covers its size is an overlay of the file,
      and the chain still covers the size. */
  lemma WroteIsOverlay(c0: Chains, d0: Image, c: Chains, d: Image, h: uint16, off: nat, data: seq<byte>, size: uint32)
    requires WroteChain(c0, d0, c, d, h, off, data) && off <= size <= |c0[h]| * BLOCK_SIZE
    requires data != [] ==> off + |data| <= |c[h]| * BLOCK_SIZE
    ensures var size' := if off + |data| > size then off + |data| else size;
            && size' <= |c[h]| * BLOCK_SIZE
            && FatContent(c[h], d, size') == Overlay(FatContent(c0[h], d0, size), off, data)
  {
    hide Stored, SameBytes, ChainBytes, Overlay;
    StoredIsOverlay(c0[h], d0, c[h], d, size, off, data);
  }

  /** Every other file reads as before. */
  lemma OtherContent(c0: Chains, d0: Image, c: Chains, d: Image, h: uint16, off: nat, data: seq<byte>, g: uint16,
      size: nat)
    requires WroteChain(c0, d0, c, d, h, off, data) && g in c0 && g != h
    ensures g in c && c[g] == c0[g] && FatContent(c[g], d, size) == FatContent(c0[g], d0, size)
  {
    hide ChainByte, Stored;
    assert SameBytes(c0[g], d0, d);
  }

  /** A run of bytes inside one block of a chain. */
  lemma BlockSlice(chain: seq<uint16>, d: Image, k: nat, cur: nat, chunk: nat)
    requires k < |chain| && k == cur / BLOCK_SIZE && cur % BLOCK_SIZE + chunk <= BLOCK_SIZE && IsCluster(chain[k])
    ensures cur + chunk <= |chain| * BLOCK_SIZE
    ensures d[ClusterBlock(chain[k])][cur % BLOCK_SIZE..cur % BLOCK_SIZE + chunk] ==
              ChainBytes(chain, d, |chain| * BLOCK_SIZE)[cur..cur + chunk]
  {
    var block, file := d[ClusterBlock(chain[k])][cur % BLOCK_SIZE..cur % BLOCK_SIZE + chunk],
        ChainBytes(chain, d, |chain| * BLOCK_SIZE)[cur..cur + chunk];
    forall i | 0 <= i < chunk ensures block[i] == file[i] {
      InChunk(cur, chunk, cur + i);
    }
    hide ChainByte;
  }

  // ---------- writing past the recorded end ----------

  /** The chain holds zeros between the old end of the file and the offset. */
  ghost predicate GapZero(chain: seq<uint16>, d: Image, size: nat, off: nat) {
    forall i {:trigger ChainByte(chain, d, i)} :: size <= i < off ==> ChainByte(chain, d, i) == 0
  }

  /** The recorded size after a write of n bytes at `off`. */
  function NewSize(size: nat, off: nat, n: nat): nat {
    if off + n > size then off + n else size
  }

  /** A write past the recorded end does not clear the gap.  The bytes of the chain, continued with zeros behind
      its end, are zero-filled exactly when those already in the chain were zeros. */
  lemma GapIsZeroIff(chain0: seq<uint16>, d0: Image, chain: seq<uint16>, d: Image, size: nat, off: nat, data: seq<byte>)
    requires Stored(chain0, d0, chain, d, off, data) && off > size
    ensures ChainBytes(chain, d, off + |data|) == Overlay(ChainBytes(chain0, d0, size) + Zeros(off - size), off, data)
            <==> GapZero(chain0, d0, size, off)
  {
    hide ChainByte;
    var x, y := ChainBytes(chain, d, off + |data|),
        Overlay(ChainBytes(chain0, d0, size) + Zeros(off - size), off, data);
    forall i | size <= i < off ensures x[i] == ChainByte(chain0, d0, i) && y[i] == 0 {
    }
  }

  /** What a read sees after any write: the old file padded with zeros to the offset and overlaid with the data,
      if and only if the gap held zeros and the file is now exactly that long. */
  lemma ZeroFilledIff(c0: Chains, d0: Image, c: Chains, d: Image, h: uint16, off: nat, data: seq<byte>, size: nat)
    requires WroteChain(c0, d0, c, d, h, off, data)
    ensures var old0, now := FatContent(c0[h], d0, size), FatContent(c[h], d, NewSize(size, off, |data|));
            now == Overlay(ZeroExtended(old0, off), off, data)
            <==> |now| == NewSize(|old0|, off, |data|) && GapZero(c0[h], d0, |old0|, off)
  {
    hide ChainByte, SameBytes;
    var old0, now := FatContent(c0[h], d0, size), FatContent(c[h], d, NewSize(size, off, |data|));
    var wanted := Overlay(ZeroExtended(old0, off), off, data);
    if |now| == |wanted| {
      forall i | 0 <= i < |now|
        ensures now[i] == wanted[i] <==> off <= i < off + |data| || i < |old0| || ChainByte(c0[h], d0, i) == 0
      {
        OverlayByte(old0, off, data, i);
      }
      hide FatContent, Overlay, ZeroExtended;
      if GapZero(c0[h], d0, |old0|, off) {
        assert now == wanted;
      } else {
        var i :| |old0| <= i < off && ChainByte(c0[h], d0, i) != 0;
        assert now[i] != wanted[i];
      }
    }
  }

  /** When the chain covers the recorded size, the length is right exactly when the offset is within the chain. */
  lemma CoveredZeroFilledIff(c0: Chains, d0: Image, c: Chains, d: Image, h: uint16, off: nat, data: seq<byte>,
      size: nat)
    requires WroteChain(c0, d0, c, d, h, off, data) && size <= |c0[h]| * BLOCK_SIZE
    requires data != [] ==> off + |data| <= |c[h]| * BLOCK_SIZE
    ensures FatContent(c[h], d, NewSize(size, off, |data|)) ==
            Overlay(ZeroExtended(FatContent(c0[h], d0, size), off), off, data)
            <==> off <= |c[h]| * BLOCK_SIZE && GapZero(c0[h], d0, size, off)
  {
    ZeroFilledIff(c0, d0, c, d, h, off, data, size);
    hide Stored, SameBytes, ChainBytes, Overlay, ZeroExtended, GapZero;
  }

  // ---------- inputs for which it is not ----------

  const FILL: Block := seq<byte>(BLOCK_SIZE, _ => 0x41)

  /** Truncating keeps the first cluster as it is.  A write at the old offset of another descriptor then shows
      the old file in front of it. */
  lemma TruncatedThenWritten(d0: Image, chain: seq<uint16>, d: Image, h: uint16, x: byte)
    requires IsCluster(h) && d0[ClusterBlock(h)] == FILL && Stored([h], d0, chain, d, 100, [x]) && [h] <= chain
    ensures FatContent([h], d0, 0) == []
    ensures FatContent(chain, d, 101) == seq<byte>(100, _ => 0x41) + [x]
    ensures FatContent(chain, d, 101) != Overlay(ZeroExtended(FatContent([h], d0, 0), 100), 100, [x])
  {
    forall i | 0 <= i < 100 ensures ChainByte([h], d0, i) == 0x41 {
    }
    hide ChainByte;
    assert FatContent(chain, d, 101)[0] == 0x41;
    assert Overlay(ZeroExtended(FatContent([h], d0, 0), 100), 100, [x])[0] == 0;
  }

  /** With no cluster free, a write past the end of a chain stores nothing and still raises the recorded size
      beyond it. */
  lemma SizeRaisedForNothing(fat: Fat, chains: Chains, place: Places, sizes: map<uint16, uint32>, h: uint16,
      off: uint32, src: seq<byte>)
    requires FatOk(fat, chains, place) && h in chains && h in sizes && FreeClusters(fat) == {}
    requires sizes[h] <= |chains[h]| * BLOCK_SIZE < off
    ensures var n := Room((|chains[h]| + |FreeClusters(fat)|) * BLOCK_SIZE, off, |src|);
            n == 0 && SizeOf(Recorded(sizes, h, off + n), h) == off
  {
  }

  /** Such a volume: cluster 2 is a file of one cluster, and one chain takes all others.  With nothing but zeros
      on the disk, a write at 1000 leaves a file that reads as 512 bytes. */
  lemma FullVolume(d: Image, src: seq<byte>)
    requires d[ClusterBlock(2)] == ZERO_BLOCK
    ensures FatOk(FullFat(), FullChains(), FullPlaces()) && FreeClusters(FullFat()) == {}
    ensures 2 in FullChains() && FullChains()[2] == [2]
    ensures WroteChain(FullChains(), d, FullChains(), d, 2, 1000, []) && GapZero([2], d, 0, 1000)
    ensures |FatContent([2], d, 1000)| == 512 && |Overlay(ZeroExtended(FatContent([2], d, 0), 1000), 1000, [])| == 1000
  {
    FullIsOk();
    assert FullChains() == FullChains()[2 := [2]];
    hide FullFat, FullPlaces;
  }

  lemma FullIsOk()
    ensures FatOk(FullFat(), FullChains(), FullPlaces()) && FreeClusters(FullFat()) == {}
  {
    FullPartition();
    forall c: uint16 | IsCluster(c)
      ensures FullFat()[c] == Expected(FullChains(), FullPlaces(), c) && FullFat()[c] != FREE_CLUSTER
    {
      FullNext(c);
    }
    hide Partition, Expected, FullFat, FullChains, FullPlaces;
  }

  lemma FullPartition()
    ensures Partition(FullChains(), FullPlaces())
  {
    assert Headed(FullChains());
    assert AllPlaced(FullChains(), FullPlaces());
    assert PlacesFilled(FullChains(), FullPlaces());
    hide Headed, AllPlaced, PlacesFilled;
  }

  lemma FullNext(c: uint16)
    requires IsCluster(c) && Partition(FullChains(), FullPlaces())
    ensures FullFat()[c] == Expected(FullChains(), FullPlaces(), c) && FullFat()[c] != FREE_CLUSTER
  {
  }

  ghost function FullFat(): Fat {
    seq<uint16>(CLUSTERS_PER_FAT, i requires 0 <= i < CLUSTERS_PER_FAT =>
      if 3 <= i < CLUSTER_END - 1 then i + 1 else END_OF_CHAIN)
  }

  ghost function FullChains(): Chains {
    map[2 := [2], 3 := seq<uint16>(CLUSTER_END - 3, i requires 0 <= i < CLUSTER_END - 3 => 3 + i)]
  }

  ghost function FullPlaces(): Places {
    map c: uint16 {:trigger IsCluster(c)} | IsCluster(c) :: if c == 2 then Spot(2, 0) else Spot(3, c - 3)
  }

  /** Zeroing a cluster outside a chain leaves the chain alone. */
  lemma ZeroedElsewhere(chain: seq<uint16>, d0: Image, c: uint16, d: Image)
    requires IsCluster(c) && c !in chain
    requires d[FAT_DATA_START..] == d0[ClusterBlock(c) := ZERO_BLOCK][FAT_DATA_START..]
    ensures SameBytes(chain, d0, d)
  {
    var d1 := d0[ClusterBlock(c) := ZERO_BLOCK];
    SameData(chain, d1, d);
    forall i | 0 <= i ensures ChainByte(chain, d1, i) == ChainByte(chain, d0, i) {
    }
    hide ChainByte;
  }

  /** Zeroing a free cluster leaves every chain alone. */
  lemma FreeZeroed(fat: Fat, chains: Chains, place: Places, d0: Image, c: uint16, d: Image)
    requires FatOk(fat, chains, place) && IsCluster(c) && fat[c] == FREE_CLUSTER
    requires d[FAT_DATA_START..] == d0[ClusterBlock(c) := ZERO_BLOCK][FAT_DATA_START..]
    ensures forall g {:trigger chains[g]} :: g in chains ==> SameBytes(chains[g], d0, d)
  {
    NewChain(fat, chains, place, c);
    forall g | g in chains ensures SameBytes(chains[g], d0, d) {
      ChainFacts(chains, place, g);
      ZeroedElsewhere(chains[g], d0, c, d);
    }
    hide Partition, SameBytes, Expected;
  }

  // ---------- directory slots ----------

  const DIR_ENTRY_SIZE := 32
  const SLOTS_PER_BLK := BLOCK_SIZE / DIR_ENTRY_SIZE

  /** An entry whose name starts with 0 was never used, and one whose name starts with 0xE5 was deleted. */
  predicate FreeSlot(data: seq<byte>, i: nat)
    requires (i + 1) * DIR_ENTRY_SIZE <= |data|
  {
    data[i * DIR_ENTRY_SIZE] == 0 || data[i * DIR_ENTRY_SIZE] == 0xE5
  }

  /** `slot` is the first free slot of the directory's data. */
  ghost predicate FirstFree(data: seq<byte>, slot: nat) {
    && (slot + 1) * DIR_ENTRY_SIZE <= |data| && FreeSlot(data, slot)
    && forall i {:trigger FreeSlot(data, i)} :: 0 <= i < slot ==> !FreeSlot(data, i)
  }

  ghost predicate NoSlot(data: seq<byte>) {
    forall i {:trigger FreeSlot(data, i)} :: 0 <= i && (i + 1) * DIR_ENTRY_SIZE <= |data| ==> !FreeSlot(data, i)
  }

  /** The part of a directory a scan sees: walks stop after WALK_LIMIT clusters. */
  function DirData(chain: seq<uint16>, d: Image): seq<byte> {
    ChainBytes(chain, d, Min(|chain|, WALK_LIMIT) * BLOCK_SIZE)
  }

  /** The bytes of a directory: the root is one fixed block, any other directory a chain. */
  ghost function DirBytes(chains: Chains, d: Image, dir: uint16): seq<byte> {
    if dir in chains then DirData(chains[dir], d) else d[ROOT_DIR_BLK]
  }

  /** An entry was stored at a slot of a directory, and nothing else in the root or in any chain changed. */
  ghost predicate EntryStored(c0: Chains, d0: Image, c: Chains, d: Image, dir: uint16, slot: nat, entry: seq<byte>) {
    |entry| == DIR_ENTRY_SIZE &&
    if dir in c0 then
      WroteChain(c0, d0, c, d, dir, slot * DIR_ENTRY_SIZE, entry) && d[ROOT_DIR_BLK] == d0[ROOT_DIR_BLK]
    else
      && slot < SLOTS_PER_BLK && c == c0 && d[FAT_DATA_START..] == d0[FAT_DATA_START..]
      && d[ROOT_DIR_BLK] == Patch(d0[ROOT_DIR_BLK], slot * DIR_ENTRY_SIZE, entry)
  }

  /** Byte i of a directory. */
  ghost function DirByte(chains: Chains, d: Image, dir: uint16, i: nat): byte {
    if dir in chains then ChainByte(chains[dir], d, i) else if i < BLOCK_SIZE then d[ROOT_DIR_BLK][i] else 0
  }

  /** The first byte of a slot, which says whether it is in use. */
  ghost function SlotMark(chains: Chains, d: Image, dir: uint16, slot: nat): byte {
    DirByte(chains, d, dir, slot * 32)
  }

  /** How many slots of a directory a scan looks at. */
  ghost function Scanned(chains: Chains, dir: uint16): nat {
    if dir in chains then Min(|chains[dir]|, 2000) * 16 else 16
  }

  lemma MarkScanned(chains: Chains, d: Image, dir: uint16, slot: nat)
    ensures (slot + 1) * DIR_ENTRY_SIZE <= |DirBytes(chains, d, dir)| <==> slot < Scanned(chains, dir)
    ensures slot < Scanned(chains, dir) ==>
              DirBytes(chains, d, dir)[slot * DIR_ENTRY_SIZE] == SlotMark(chains, d, dir, slot)
  {
    hide ChainByte;
  }

  /** A scan that found a slot passed only slots in use. */
  lemma FoundOpen(chains: Chains, d: Image, dir: uint16, slot: nat)
    requires FirstFree(DirBytes(chains, d, dir), slot)
    ensures slot < Scanned(chains, dir) && SlotMark(chains, d, dir, slot) in {0, 0xE5}
    ensures forall i :: 0 <= i < slot ==> SlotMark(chains, d, dir, i) !in {0, 0xE5}
  {
    MarkScanned(chains, d, dir, slot);
    forall i | 0 <= i < slot ensures SlotMark(chains, d, dir, i) !in {0, 0xE5} {
      MarkScanned(chains, d, dir, i);
      assert !FreeSlot(DirBytes(chains, d, dir), i);
    }
  }

  /** A scan that found none passed only slots in use. */
  lemma FoundNone(chains: Chains, d: Image, dir: uint16)
    requires NoSlot(DirBytes(chains, d, dir))
    ensures forall i :: 0 <= i < Scanned(chains, dir) ==> SlotMark(chains, d, dir, i) !in {0, 0xE5}
  {
    forall i | 0 <= i < Scanned(chains, dir) ensures SlotMark(chains, d, dir, i) !in {0, 0xE5} {
      MarkScanned(chains, d, dir, i);
      assert !FreeSlot(DirBytes(chains, d, dir), i);
    }
  }

  /** Where a new entry goes: to the first slot whose mark is 0 or 0xE5 among those a scan looks at, or, when they
      are all in use, behind the last one of a directory that is a chain. */
  ghost predicate SlotChosen(chains: Chains, d: Image, dir: uint16, ok: bool, slot: nat) {
    && (forall i :: 0 <= i < Scanned(chains, dir) && (i < slot || !ok) ==> SlotMark(chains, d, dir, i) !in {0, 0xE5})
    && (ok && slot < Scanned(chains, dir) ==> SlotMark(chains, d, dir, slot) in {0, 0xE5})
    && (ok && slot >= Scanned(chains, dir) ==> dir in chains && slot == |chains[dir]| * 16)
  }

  lemma FoundIsChosen(chains: Chains, d: Image, dir: uint16, slot: nat)
    requires FirstFree(DirBytes(chains, d, dir), slot)
    ensures SlotChosen(chains, d, dir, true, slot)
  {
    FoundOpen(chains, d, dir, slot);
    hide SlotMark, FreeSlot;
  }

  lemma NoneIsChosen(chains: Chains, d: Image, dir: uint16)
    requires NoSlot(DirBytes(chains, d, dir))
    ensures forall slot :: SlotChosen(chains, d, dir, false, slot)
    ensures dir in chains ==> SlotChosen(chains, d, dir, true, |chains[dir]| * 16)
  {
    FoundNone(chains, d, dir);
    hide SlotMark, FreeSlot;
  }

  lemma StoredInChain(c0: Chains, d0: Image, c: Chains, d: Image, dir: uint16, slot: nat, entry: seq<byte>)
    requires dir in c0 && |entry| == DIR_ENTRY_SIZE && d[ROOT_DIR_BLK] == d0[ROOT_DIR_BLK]
    requires WroteChain(c0, d0, c, d, dir, slot * DIR_ENTRY_SIZE, entry)
    ensures EntryStored(c0, d0, c, d, dir, slot, entry)
  {
    hide WroteChain;
  }

  /** The directory holds the entry that was stored. */
  lemma EntryThere(c0: Chains, d0: Image, c: Chains, d: Image, dir: uint16, slot: nat, entry: seq<byte>)
    requires EntryStored(c0, d0, c, d, dir, slot, entry)
    ensures |entry| == 32 && forall j {:trigger entry[j]} :: 0 <= j < 32 ==>
              DirByte(c, d, dir, slot * 32 + j) == entry[j]
  {
    hide ChainByte;
  }

  lemma SlotOffset(slot: nat)
    ensures slot * DIR_ENTRY_SIZE / BLOCK_SIZE == slot / SLOTS_PER_BLK
    ensures slot * DIR_ENTRY_SIZE % BLOCK_SIZE == slot % SLOTS_PER_BLK * DIR_ENTRY_SIZE
    ensures slot % SLOTS_PER_BLK * DIR_ENTRY_SIZE + DIR_ENTRY_SIZE <= BLOCK_SIZE
  {
  }

  /** Copying an entry over its slot inside one block is a write of 32 bytes at the slot. */
  lemma SlotStored(c: Chains, d: Image, h: uint16, slot: nat, entry: seq<byte>, place: Places, d': Image)
    requires Partition(c, place) && h in c && |entry| == DIR_ENTRY_SIZE && slot / SLOTS_PER_BLK < |c[h]|
    requires IsCluster(c[h][slot / SLOTS_PER_BLK])
    requires var b := ClusterBlock(c[h][slot / SLOTS_PER_BLK]);
             d' == d[b := Patch(d[b], slot % SLOTS_PER_BLK * DIR_ENTRY_SIZE, entry)]
    ensures WroteChain(c, d, c, d', h, slot * DIR_ENTRY_SIZE, entry)
  {
    ChainFacts(c, place, h);
    hide Partition, FileWrite, Distinct, WroteChain;
    var off := slot * DIR_ENTRY_SIZE;
    FileWriteStart(c, d, h, off);
    SlotOffset(slot);
    hide Patch;
    FileWriteStep(c, d, c, d, h, off, [], slot / SLOTS_PER_BLK, entry);
    assert [] + entry == entry;
    WroteChainFrom(c, d, c, d', h, off, entry, place, d');
  }

  /** An entry in a fresh cluster behind the chain is a write of 32 bytes past the end, in a zeroed block. */
  lemma EntryAppended(c0: Chains, d: Image, h: uint16, x: uint16, entry: seq<byte>, place: Places, d': Image)
    requires h in c0 && IsCluster(x) && x !in c0[h] && |entry| == DIR_ENTRY_SIZE
    requires Partition(c0[h := c0[h] + [x]], place)
    requires d'[FAT_DATA_START..] == d[ClusterBlock(x) := Patch(ZERO_BLOCK, 0, entry)][FAT_DATA_START..]
    ensures WroteChain(c0, d, c0[h := c0[h] + [x]], d', h, |c0[h]| * BLOCK_SIZE, entry)
  {
    var c, off, b := c0[h := c0[h] + [x]], |c0[h]| * BLOCK_SIZE, ClusterBlock(x);
    var d1 := d[b := ZERO_BLOCK];
    ChainFacts(c, place, h);
    hide Partition, FileWrite, Distinct, WroteChain;
    FileWriteStart(c0, d, h, off);
    FileWriteGrown(c0, d, c0, d, h, off, [], x);
    FileWriteStep(c0, d, c, d1, h, off, [], |c0[h]|, entry);
    assert [] + entry == entry;
    assert d1[b := Patch(d1[b], 0, entry)] == d[b := Patch(ZERO_BLOCK, 0, entry)];
    WroteChainFrom(c0, d, c, d[b := Patch(ZERO_BLOCK, 0, entry)], h, off, entry, place, d');
  }

  /** A directory entry with its first-cluster field filled in and its size zero. */
  function EntryFor(template: seq<byte>, c: uint16): (entry: seq<byte>)
    requires |template| == DIR_ENTRY_SIZE
    ensures |entry| == DIR_ENTRY_SIZE
  {
    template[..26] + [c % 256, c / 256] + [0, 0, 0, 0]
  }

  /** What the fields of a new entry say, byte by byte. */
  lemma EntryFields(template: seq<byte>, c: uint16)
    requires |template| == DIR_ENTRY_SIZE
    ensures forall j :: 0 <= j < 26 ==> EntryFor(template, c)[j] == template[j]
    ensures EntryFor(template, c)[26] as int + 256 * (EntryFor(template, c)[27] as int) == c
    ensures forall j :: 28 <= j < 32 ==> EntryFor(template, c)[j] == 0
  {
  }

  /** The slot holds a new entry: the name and attributes given, the first cluster low byte first, size 0. */
  ghost predicate EntryNames(chains: Chains, d: Image, dir: uint16, slot: nat, template: seq<byte>, first: uint16)
    requires |template| == 32
  {
    var at := slot * 32;
    && (forall j {:trigger template[j]} :: 0 <= j < 26 ==> DirByte(chains, d, dir, at + j) == template[j])
    && DirByte(chains, d, dir, at + 26) as int + 256 * (DirByte(chains, d, dir, at + 27) as int) == first
    && DirByte(chains, d, dir, at + 28) == DirByte(chains, d, dir, at + 29) == 0
    && DirByte(chains, d, dir, at + 30) == DirByte(chains, d, dir, at + 31) == 0
  }

  lemma NewEntryThere(chains: Chains, d: Image, dir: uint16, slot: nat, template: seq<byte>, c: uint16)
    requires |template| == 32
    requires forall j {:trigger EntryFor(template, c)[j]} :: 0 <= j < 32 ==>
               DirByte(chains, d, dir, slot * 32 + j) == EntryFor(template, c)[j]
    ensures EntryNames(chains, d, dir, slot, template, c)
  {
    var e := EntryFor(template, c);
    EntryFields(template, c);
    hide DirByte, EntryFor;
    forall j | 0 <= j < 26 ensures DirByte(chains, d, dir, slot * 32 + j) == template[j] {
      assert e[j] == template[j];
    }
    assert e[26] == e[26] && e[27] == e[27] && e[28] == e[29] == e[30] == e[31] == 0;
  }

  /** The choice of a slot depends on the directory's bytes alone. */
  lemma ChosenSame(c0: Chains, d0: Image, c1: Chains, d1: Image, dir: uint16, slot: nat)
    requires SlotChosen(c1, d1, dir, true, slot) && DirBytes(c1, d1, dir) == DirBytes(c0, d0, dir)
    requires dir in c0 <==> dir in c1
    requires dir in c0 ==> c1[dir] == c0[dir]
    ensures SlotChosen(c0, d0, dir, true, slot)
  {
    forall i: nat ensures i < Scanned(c0, dir) ==> SlotMark(c1, d1, dir, i) == SlotMark(c0, d0, dir, i) {
      MarkScanned(c0, d0, dir, i);
      MarkScanned(c1, d1, dir, i);
    }
    hide DirBytes, SlotMark;
  }

  /** That does not depend on the table blocks of the state it started from. */
  lemma EntryStoredSameStart(c0: Chains, d0: Image, d0': Image, c: Chains, d: Image, dir: uint16, slot: nat,
      entry: seq<byte>)
    requires EntryStored(c0, d0, c, d, dir, slot, entry)
    requires d0'[FAT_DATA_START..] == d0[FAT_DATA_START..] && d0'[ROOT_DIR_BLK] == d0[ROOT_DIR_BLK]
    ensures EntryStored(c0, d0', c, d, dir, slot, entry)
  {
    hide WroteChain, Patch;
    if dir in c0 {
      WroteChainSameStart(c0, d0, d0', c, d, dir, slot * DIR_ENTRY_SIZE, entry);
    }
  }

  /** A write does not depend on blocks outside the data area of the state it started from. */
  lemma WroteChainSameStart(c0: Chains, d0: Image, d0': Image, c: Chains, d: Image, h: uint16, off: nat,
      data: seq<byte>)
    requires WroteChain(c0, d0, c, d, h, off, data) && d0'[FAT_DATA_START..] == d0[FAT_DATA_START..]
    ensures WroteChain(c0, d0', c, d, h, off, data)
  {
    hide ChainByte;
    SameData(c0[h], d0, d0');
    forall g | g in c0 && g != h ensures SameBytes(c0[g], d0', d) {
      assert SameBytes(c0[g], d0, d);
      SameData(c0[g], d0, d0');
    }
  }

  /** Zeroing a cluster outside a chain leaves the chain's data alone. */
  lemma DirDataSame(chain: seq<uint16>, d0: Image, c: uint16, d: Image)
    requires IsCluster(c) && c !in chain
    requires d[FAT_DATA_START..] == d0[ClusterBlock(c) := ZERO_BLOCK][FAT_DATA_START..]
    ensures DirData(chain, d) == DirData(chain, d0)
  {
    ZeroedElsewhere(chain, d0, c, d);
    hide ChainByte;
  }
}
