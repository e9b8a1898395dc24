/** The FAT engine: cluster allocation, chain growth and release, and reads and writes along a chain. */
module Fat16FileSystem {
  import opened Bytes
  import opened BlockDevices
  import opened FatChains
  import opened FatFiles
  import opened FatDisks
  import opened FileSpecs
  import opened OpenFileTables

  class Fat16Fs {
    const dev: BlockDevice
    const oft: OpenFileTable
    const userSlot: nat := 0
    var fat: Fat
    /** The file sizes recorded in the directory entries, by first cluster. */
    var sizes: map<uint16, uint32>
    ghost var chains: Chains
    ghost var place: Places

    ghost predicate Shape() {
      dev.Valid() && oft.Shape()
    }

    ghost predicate Valid()
      reads `fat, `chains, `place
    {
      FatOk(fat, chains, place)
    }

    constructor (dev: BlockDevice, oft: OpenFileTable)
      requires dev.Valid() && oft.Shape()
      ensures Shape() && Valid() && this.dev == dev && this.oft == oft
      ensures chains == map[] && sizes == map[]
    {
      this.dev, this.oft := dev, oft;
      fat := seq<uint16>(CLUSTERS_PER_FAT, _ => FREE_CLUSTER);
      sizes, chains, place := map[], map[], map[];
    }

    /** The most bytes chain h can be made to hold: its own clusters and all the free ones. */
    ghost function Capacity(h: uint16): nat
      requires h in chains
      reads `fat, `chains
    {
      (|chains[h]| + |FreeClusters(fat)|) * BLOCK_SIZE
    }

    /** The chain is long enough for the recorded size. */
    ghost predicate Covered(h: uint16)
      reads `chains, `sizes
    {
      h in chains && h in sizes && sizes[h] <= |chains[h]| * BLOCK_SIZE
    }

    // ---------- the table on disk ----------

    /** Writes the table to both copies on disk and to nothing else. */
    method FlushFat()
      requires Shape()
      modifies dev.disk
      ensures Flushed(fat, dev.Contents())
      ensures dev.Contents()[..FAT1_START] == old(dev.Contents())[..FAT1_START]
      ensures dev.Contents()[ROOT_DIR_BLK..] == old(dev.Contents())[ROOT_DIR_BLK..]
    {
      hide Flushing, Flushed, Packed;
      ghost var d0 := dev.Contents();
      FlushNone(fat, d0);
      for i := 0 to FAT_SIZE
        invariant Flushing(fat, d0, dev.Contents(), i)
      {
        ghost var d := dev.Contents();
        var blk := PackBlock(i);
        var _ := dev.WriteBlock(FAT1_START + i, blk);
        var _ := dev.WriteBlock(FAT2_START + i, blk);
        FlushStep(fat, d0, d, i, blk, dev.Contents());
      }
      FlushDone(fat, d0, dev.Contents());
      assert Outside(d0, dev.Contents()) by { FlushOutside(fat, d0, dev.Contents()); }
    }

    method PackBlock(i: nat) returns (blk: Block)
      requires i < FAT_SIZE
      ensures Packed(fat, i, blk, ENTRIES_PER_FAT_BLK)
    {
      hide WordAt, PutWord;
      blk := ZERO_BLOCK;
      for j := 0 to ENTRIES_PER_FAT_BLK
        invariant Packed(fat, i, blk, j)
      {
        blk := PutWord(blk, j, fat[i * ENTRIES_PER_FAT_BLK + j]);
      }
    }

    /** Loads the table from its first copy on disk. */
    method InitFatFromDisk()
      requires Shape()
      modifies `fat
      ensures OnDisk(fat, dev.Contents(), FAT1_START)
    {
      hide WordAt;
      var entries: seq<uint16> := [];
      for i := 0 to FAT_SIZE
        invariant |entries| == i * ENTRIES_PER_FAT_BLK
        invariant forall x, j {:trigger WordAt(CopyBlock(dev.Contents(), FAT1_START, x), j)} ::
                  0 <= x < i && 0 <= j < ENTRIES_PER_FAT_BLK ==>
                    entries[x * ENTRIES_PER_FAT_BLK + j] == WordAt(CopyBlock(dev.Contents(), FAT1_START, x), j)
      {
        var _, blk := dev.ReadBlock(FAT1_START + i, ZERO_BLOCK);
        entries := entries + Words(blk, 0, ENTRIES_PER_FAT_BLK);
      }
      fat := entries;
    }

    // ---------- clusters ----------

    /** Takes the lowest free cluster and marks it as a chain of one.  Fails exactly when none is free. */
    method AllocCluster() returns (c: uint16)
      requires Valid()
      modifies `fat, `chains, `place
      ensures Valid()
      ensures c == END_OF_CHAIN <==> FreeClusters(old(fat)) == {}
      ensures c == END_OF_CHAIN ==> fat == old(fat) && chains == old(chains) && place == old(place)
      ensures c != END_OF_CHAIN ==>
                && c in FreeClusters(old(fat)) && (forall x :: x in FreeClusters(old(fat)) ==> c <= x)
                && c !in old(chains) && c !in old(place)
                && fat == old(fat)[c := END_OF_CHAIN] && chains == old(chains)[c := [c]]
                && place == old(place)[c := Spot(c, 0)]
    {
      hide FatOk;
      for i := 2 to CLUSTER_END
        invariant forall x :: 2 <= x < i ==> fat[x] != FREE_CLUSTER
      {
        if fat[i] == FREE_CLUSTER {
          NewChain(fat, chains, place, i);
          fat := fat[i := END_OF_CHAIN];
          chains, place := chains[i as uint16 := [i as uint16]], place[i as uint16 := Spot(i as uint16, 0)];
          assert i as uint16 in FreeClusters(old(fat));
          return i;
        }
      }
      return END_OF_CHAIN;
    }

    /** Links a fresh cluster behind the last cluster of chain h. */
    method LinkNew(last: uint16, ghost h: uint16) returns (c: uint16)
      requires Valid() && h in chains && chains[h] != [] && last == chains[h][|chains[h]| - 1]
      modifies `fat, `chains, `place
      ensures Valid()
      ensures c == END_OF_CHAIN <==> FreeClusters(old(fat)) == {}
      ensures c == END_OF_CHAIN ==> fat == old(fat) && chains == old(chains) && place == old(place)
      ensures c != END_OF_CHAIN ==>
                && IsCluster(c) && c in FreeClusters(old(fat)) && c !in old(place)
                && FreeClusters(fat) == FreeClusters(old(fat)) - {c}
                && chains == old(chains)[h := old(chains[h]) + [c]]
    {
      hide FatOk;
      c := AllocCluster();
      if c == END_OF_CHAIN {
        return;
      }
      ghost var fat1 := fat;
      ChainsJoined(fat, chains, place, h, c);
      LastIsAllocated(old(fat), old(chains), old(place), h);
      fat := fat[last := c];
      assert fat[c] == END_OF_CHAIN || last == c;
      fat := fat[c := END_OF_CHAIN];
      assert fat == fat1[last := c];
      assert Extended(chains, h, c) == old(chains)[h := old(chains[h]) + [c]];
      place := place[c := Spot(h, |chains[h]|)];
      chains := chains[h := chains[h] + [c]] - {c};
      assert chains == old(chains)[h := old(chains[h]) + [c]];
    }

    lemma LastIsAllocated(fat: Fat, chains: Chains, place: Places, h: uint16)
      requires FatOk(fat, chains, place) && h in chains
      ensures chains[h] != [] && chains[h][|chains[h]| - 1] in place && chains[h][|chains[h]| - 1] !in FreeClusters(fat)
    {
      ChainIsLinked(fat, chains, place, h, |chains[h]| - 1);
    }

    /** fs_format: both copies of the table and the root directory are cleared; no cluster is allocated. */
    method Format()
      requires Shape()
      modifies `fat, `chains, `place, `sizes, dev.disk
      ensures Valid() && chains == map[] && sizes == map[] && Flushed(fat, dev.Contents())
      ensures |FreeClusters(fat)| == CLUSTER_COUNT && fat[0] == 0xFFF8 && fat[1] == 0xFFFF
      ensures dev.Contents()[ROOT_DIR_BLK] == ZERO_BLOCK
    {
      hide Flushed;
      for i := 0 to FAT_SIZE {
        var _ := dev.WriteBlock(FAT1_START + i, ZERO_BLOCK);
        var _ := dev.WriteBlock(FAT2_START + i, ZERO_BLOCK);
      }
      fat := seq<uint16>(CLUSTERS_PER_FAT, _ => FREE_CLUSTER);
      fat := fat[0 := 0xFFF8];
      fat := fat[1 := 0xFFFF];
      chains, place, sizes := map[], map[], map[];
      AllFree(fat, 2);
      assert FreeClusters(fat) == FreeFrom(fat, 2);
      FlushFat();
      ghost var d := dev.Contents();
      var _ := dev.WriteBlock(ROOT_DIR_BLK, ZERO_BLOCK);
      FlushedElsewhere(fat, d, ROOT_DIR_BLK, ZERO_BLOCK);
    }

    // ---------- releasing a chain ----------

    /** Frees a chain from its first cluster on.  The walk stops after WALK_LIMIT clusters: a longer chain
        leaves its tail behind, still allocated, as a chain that no entry names. */
    method FreeClusterChain(start: uint16)
      requires Shape() && Valid() && (start in chains || start < 2 || start == END_OF_CHAIN)
      modifies `fat, `chains, `place, dev.disk
      ensures Valid() && Flushed(fat, dev.Contents())
      ensures dev.Contents()[ROOT_DIR_BLK..] == old(dev.Contents())[ROOT_DIR_BLK..]
      ensures dev.Contents()[FAT_DATA_START..] == old(dev.Contents())[FAT_DATA_START..]
      ensures start !in old(chains) ==> fat == old(fat) && chains == old(chains)
      ensures start in old(chains) ==> var chain, k := old(chains)[start], Min(|old(chains)[start]|, WALK_LIMIT);
                && chains == Remaining(old(chains), start, k)
                && Freed(old(fat), fat, chain, k)
                && FreeClusters(fat) == FreeClusters(old(fat)) + Elements(chain[..k])
    {
      hide FatOk, Partition, Freed, Flushed, Remaining, Beheaded, FreeClusters, Elements;
      ghost var fat0, chains0, place0 := fat, chains, place;
      FatPartition(fat, chains, place);
      NotReserved(chains, place, start);
      if start in chains {
        FreeingStart(fat, chains, place, start);
        ChainFacts(chains, place, start);
      }
      var current, count := start, 0;
      while current >= 2 && current != END_OF_CHAIN && count < WALK_LIMIT
        decreases WALK_LIMIT - count
        invariant Valid() && 0 <= count <= WALK_LIMIT && dev.Contents() == old(dev.Contents())
        invariant start !in chains0 ==>
                  fat == fat0 && chains == chains0 && current == start && (start < 2 || start == END_OF_CHAIN)
        invariant start in chains0 ==>
                    && count <= |chains0[start]| && chains == Remaining(chains0, start, count)
                    && Freed(fat0, fat, chains0[start], count)
                    && current == if count < |chains0[start]| then chains0[start][count] else END_OF_CHAIN
      {
        FreeingStep(fat0, chains0, place0, start, count, fat, chains);
        FatPartition(fat, chains, place);
        HeadFreed(fat, chains, place, current);
        var next := fat[current];
        fat := fat[current := FREE_CLUSTER];
        place := BeheadedPlace(chains, place, current);
        chains := Beheaded(chains, current);
        current := next;
        count := count + 1;
      }
      if start in chains0 {
        FreedClusters(fat0, fat, chains0[start], count);
      }
      FlushFat();
      SameAfterRoot(old(dev.Contents()), dev.Contents());
    }

    /** Opening with O_TRUNC: keeps the first cluster as the head of the now empty file and frees the rest. */
    method Truncate(h: uint16)
      requires Shape() && Valid() && h in chains
      modifies `fat, `chains, `place, `sizes, dev.disk
      ensures Valid() && Flushed(fat, dev.Contents())
      ensures dev.Contents()[ROOT_DIR_BLK..] == old(dev.Contents())[ROOT_DIR_BLK..]
      ensures dev.Contents()[FAT_DATA_START..] == old(dev.Contents())[FAT_DATA_START..]
      ensures chains == Truncated(old(chains), h)
      ensures FreeClusters(fat) ==
                FreeClusters(old(fat)) + Elements(old(chains)[h][1..Min(|old(chains)[h]|, WALK_LIMIT + 1)])
      ensures sizes == if h in old(sizes) then old(sizes)[h := 0] else old(sizes)
    {
      hide FatOk, Partition, Freed, Flushed, Truncated, Remaining, Beheaded, FreeClusters, Elements;
      ghost var chain, chains0 := chains[h], chains;
      FatPartition(fat, chains, place);
      ChainFacts(chains, place, h);
      ChainIsLinked(fat, chains, place, h, 0);
      HeadSplit(fat, chains, place, h);
      SplitKeepsFree(fat, h);
      if |chain| > 1 {
        SplitThenFreed(chains, place, h);
        assert chain[1..][..Min(|chain| - 1, WALK_LIMIT)] == chain[1..Min(|chain|, WALK_LIMIT + 1)];
      } else {
        SplitAlone(chains, h);
      }
      var rest := fat[h];
      fat := fat[h := END_OF_CHAIN];
      place := BeheadedPlace(chains, place, h)[h := Spot(h, 0)];
      chains := Beheaded(chains, h)[h := [h]];
      if |chain| == 1 {
        EndIsNoHead(chains, place);
        assert FreeClusters(fat) + Elements(chain[1..1]) == FreeClusters(fat) by { NoElements(chain[1..1]); }
      }
      FreeClusterChain(rest);
      if h in sizes {
        sizes := sizes[h := 0];
      }
    }

    lemma SplitKeepsFree(fat: Fat, h: uint16)
      requires IsCluster(h) && fat[h] != FREE_CLUSTER
      ensures FreeClusters(fat[h := END_OF_CHAIN]) == FreeClusters(fat)
    {
    }

    lemma SplitAlone(chains: Chains, h: uint16)
      requires h in chains && |chains[h]| == 1
      ensures Beheaded(chains, h)[h := [h]] == Truncated(chains, h)
    {
    }

    lemma EndIsNoHead(chains: Chains, place: Places)
      requires FatOk(fat, chains, place)
      ensures END_OF_CHAIN !in chains
    {
      FatPartition(fat, chains, place);
      NotReserved(chains, place, END_OF_CHAIN);
    }

    lemma NoElements(s: seq<uint16>)
      requires s == []
      ensures Elements(s) == {}
    {
    }

    lemma NotReserved(chains: Chains, place: Places, h: uint16)
      requires Partition(chains, place)
      ensures h in chains ==> IsCluster(h)
    {
      if h in chains {
        ChainFacts(chains, place, h);
      }
    }

    // ---------- walking and growing a chain ----------

    /** The next cluster of chain h, growing the chain by a zeroed cluster at its end.  Fails exactly at the
        end of the chain with no cluster free. */
    method NextOrGrow(cur: uint16, ghost h: uint16, ghost k: nat) returns (next: uint16)
      requires Shape() && Valid() && h in chains && k < |chains[h]| && cur == chains[h][k]
      modifies `fat, `chains, `place, dev.disk
      ensures Valid() && h in chains && old(chains[h]) <= chains[h]
      ensures next == END_OF_CHAIN <==> k + 1 == |old(chains[h])| && FreeClusters(old(fat)) == {}
      ensures k + 1 < |old(chains[h])| || next == END_OF_CHAIN ==>
                fat == old(fat) && chains == old(chains) && place == old(place) && dev.Contents() == old(dev.Contents())
      ensures next != END_OF_CHAIN ==> k + 1 < |chains[h]| && next == chains[h][k + 1]
      ensures k + 1 == |old(chains[h])| && next != END_OF_CHAIN ==>
                && IsCluster(next) && next in FreeClusters(old(fat)) && next !in old(chains[h])
                && FreeClusters(fat) == FreeClusters(old(fat)) - {next}
                && chains == old(chains)[h := old(chains[h]) + [next]]
                && dev.Contents() == old(dev.Contents())[ClusterBlock(next) := ZERO_BLOCK]
    {
      hide FatOk, Partition;
      ChainIsLinked(fat, chains, place, h, k);
      FatPartition(fat, chains, place);
      ChainFacts(chains, place, h);
      next := fat[cur];
      if next == END_OF_CHAIN || next < 2 {
        assert k + 1 == |chains[h]|;
        next := LinkNew(cur, h);
        if next != END_OF_CHAIN {
          var _ := dev.WriteBlock(ClusterBlock(next), ZERO_BLOCK);
        }
      }
    }

    lemma FatPartition(fat: Fat, chains: Chains, place: Places)
      requires FatOk(fat, chains, place)
      ensures Partition(chains, place)
    {
    }

    /** One move of a write along its chain: like NextOrGrow, and the write so far is kept. */
    method Advance(cur: uint16, ghost h: uint16, ghost k: nat, ghost c0: Chains, ghost d0: Image, ghost off: nat,
        ghost data: seq<byte>)
      returns (next: uint16)
      requires Shape() && Valid() && h in chains && k < |chains[h]| && cur == chains[h][k]
      requires FileWrite(c0, d0, chains, dev.Contents(), h, off, data)
      modifies `fat, `chains, `place, dev.disk
      ensures Valid() && FileWrite(c0, d0, chains, dev.Contents(), h, off, data)
      ensures h in chains && |chains[h]| + |FreeClusters(fat)| == old(|chains[h]| + |FreeClusters(fat)|)
      ensures next == END_OF_CHAIN ==> FreeClusters(fat) == {} && k + 1 == |chains[h]|
      ensures next != END_OF_CHAIN ==> k + 1 < |chains[h]| && next == chains[h][k + 1]
    {
      hide FatOk, Partition, FileWrite, FreeClusters;
      next := NextOrGrow(cur, h, k);
      if next != END_OF_CHAIN && k + 1 == |old(chains[h])| {
        FileWriteGrown(c0, d0, old(chains), old(dev.Contents()), h, off, data, next);
      }
    }

    /** Writes along chain h from offset `off`, first walking to the offset and then storing block by block.
        Stores as much as the chain and the free clusters can hold. */
    method WriteChain(h: uint16, off: nat, src: seq<byte>) returns (n: nat)
      requires Shape() && Valid() && h in chains
      modifies `fat, `chains, `place, dev.disk
      ensures Valid() && n == Room(old(Capacity(h)), off, |src|)
      ensures FileWrite(old(chains), old(dev.Contents()), chains, dev.Contents(), h, off, src[..n])
      ensures Capacity(h) == old(Capacity(h))
      ensures n > 0 ==> off + n <= |chains[h]| * BLOCK_SIZE
      ensures off <= |chains[h]| * BLOCK_SIZE <==> off <= old(Capacity(h))
      ensures n < |src| ==> FreeClusters(fat) == {} && off + n >= |chains[h]| * BLOCK_SIZE
    {
      hide FatOk, Partition, FileWrite, FreeClusters;
      FatPartition(fat, chains, place);
      ChainFacts(chains, place, h);
      FileWriteStart(chains, dev.Contents(), h, off);
      ghost var c0, d0, total := chains, dev.Contents(), |chains[h]| + |FreeClusters(fat)|;
      var cur := h;
      n := 0;
      assert src[..0] == [];
      for k := 0 to off / BLOCK_SIZE
        invariant Valid() && FileWrite(c0, d0, chains, dev.Contents(), h, off, [])
        invariant h in chains && |chains[h]| + |FreeClusters(fat)| == total
        invariant k < |chains[h]| && cur == chains[h][k]
      {
        cur := Advance(cur, h, k, c0, d0, off, []);
        if cur == END_OF_CHAIN {
          return;
        }
      }
      n := StoreLoop(cur, h, off, src, c0, d0);
    }

    method StoreLoop(first: uint16, h: uint16, off: nat, src: seq<byte>, ghost c0: Chains,
        ghost d0: Image) returns (n: nat)
      requires Shape() && Valid() && FileWrite(c0, d0, chains, dev.Contents(), h, off, [])
      requires h in chains && off / BLOCK_SIZE < |chains[h]| && first == chains[h][off / BLOCK_SIZE]
      modifies `fat, `chains, `place, dev.disk
      ensures Valid() && n <= |src| && FileWrite(c0, d0, chains, dev.Contents(), h, off, src[..n])
      ensures h in chains && |chains[h]| + |FreeClusters(fat)| == old(|chains[h]| + |FreeClusters(fat)|)
      ensures n == Room(Capacity(h), off, |src|)
      ensures n < |src| ==> FreeClusters(fat) == {} && off + n >= |chains[h]| * BLOCK_SIZE
      ensures n > 0 ==> off + n <= |chains[h]| * BLOCK_SIZE
      ensures off <= |chains[h]| * BLOCK_SIZE
    {
      hide FatOk, Partition, FileWrite, FreeClusters;
      ghost var total := |chains[h]| + |FreeClusters(fat)|;
      var cur := first;
      n := 0;
      assert src[..0] == [];
      while n < |src|
        invariant Valid() && n <= |src| && FileWrite(c0, d0, chains, dev.Contents(), h, off, src[..n])
        invariant h in chains && |chains[h]| + |FreeClusters(fat)| == total
        invariant n > 0 ==> off + n <= |chains[h]| * BLOCK_SIZE
        invariant off <= |chains[h]| * BLOCK_SIZE
        invariant n < |src| ==> (off + n) / BLOCK_SIZE < |chains[h]| && cur == chains[h][(off + n) / BLOCK_SIZE]
        invariant n == 0 || n == |src| || (off + n) % BLOCK_SIZE == 0
      {
        ghost var k := (off + n) / BLOCK_SIZE;
        var chunk := Min(BLOCK_SIZE - (off + n) % BLOCK_SIZE, |src| - n);
        StoreChunk(cur, h, off, src, n, chunk, c0, d0);
        ChunkRange(off + n, |src| - n, |chains[h]|);
        n := n + chunk;
        if n < |src| {
          cur := Advance(cur, h, k, c0, d0, off, src[..n]);
          if cur == END_OF_CHAIN {
            break;
          }
        }
      }
    }

    /** Copies one chunk into the block of the current cluster. */
    method StoreChunk(cur: uint16, ghost h: uint16, off: nat, src: seq<byte>, n: nat, chunk: nat, ghost c0: Chains,
        ghost d0: Image)
      requires Shape() && Valid() && n + chunk <= |src| && (off + n) % BLOCK_SIZE + chunk <= BLOCK_SIZE
      requires FileWrite(c0, d0, chains, dev.Contents(), h, off, src[..n])
      requires h in chains && (off + n) / BLOCK_SIZE < |chains[h]| && cur == chains[h][(off + n) / BLOCK_SIZE]
      modifies dev.disk
      ensures FileWrite(c0, d0, chains, dev.Contents(), h, off, src[..n + chunk])
    {
      hide FatOk, Partition, FileWrite;
      FatPartition(fat, chains, place);
      ChainFacts(chains, place, h);
      FileWriteStep(c0, d0, chains, dev.Contents(), h, off, src[..n], (off + n) / BLOCK_SIZE, src[n..n + chunk]);
      var _, buf := dev.ReadBlock(ClusterBlock(cur), ZERO_BLOCK);
      var _ := dev.WriteBlock(ClusterBlock(cur), Patch(buf, (off + n) % BLOCK_SIZE, src[n..n + chunk]));
      assert src[..n] + src[n..n + chunk] == src[..n + chunk];
    }

    // ---------- directories ----------

    /** The contents of a chain, up to WALK_LIMIT clusters of it. */
    method ReadClusterChain(h: uint16) returns (data: seq<byte>)
      requires Shape() && Valid() && h in chains
      ensures data == DirData(chains[h], dev.Contents())
    {
      hide FatOk, Partition, ChainByte;
      FatPartition(fat, chains, place);
      ChainFacts(chains, place, h);
      var current, count := h, 0;
      data := [];
      while current >= 2 && current != END_OF_CHAIN && count < WALK_LIMIT
        decreases WALK_LIMIT - count
        invariant 0 <= count <= WALK_LIMIT && count <= |chains[h]|
        invariant current == if count < |chains[h]| then chains[h][count] else END_OF_CHAIN
        invariant data == ChainBytes(chains[h], dev.Contents(), count * BLOCK_SIZE)
      {
        ChainIsLinked(fat, chains, place, h, count);
        var _, blk := dev.ReadBlock(ClusterBlock(current), ZERO_BLOCK);
        OneMoreBlock(chains[h], dev.Contents(), count);
        data := data + blk;
        current := fat[current];
        count := count + 1;
      }
    }

    /** The cluster that holds block `k` of a chain. */
    method ClusterAt(h: uint16, k: nat) returns (cur: uint16)
      requires Valid() && h in chains && k < |chains[h]|
      ensures cur == chains[h][k] && IsCluster(cur)
    {
      hide FatOk, Partition;
      FatPartition(fat, chains, place);
      ChainFacts(chains, place, h);
      cur := h;
      var b := 0;
      while b < k && cur != END_OF_CHAIN
        invariant b <= k && cur == chains[h][b]
      {
        ChainIsLinked(fat, chains, place, h, b);
        cur := fat[cur];
        b := b + 1;
      }
    }

    /** The last cluster of a chain.  Nothing bounds this walk but the shape of the table. */
    method LastCluster(h: uint16) returns (last: uint16)
      requires Valid() && h in chains && chains[h] != []
      ensures last == chains[h][|chains[h]| - 1]
    {
      hide FatOk, Partition;
      FatPartition(fat, chains, place);
      ChainFacts(chains, place, h);
      ghost var k := 0;
      ChainIsLinked(fat, chains, place, h, 0);
      last := h;
      while fat[last] != END_OF_CHAIN && fat[last] >= 2
        decreases |chains[h]| - k
        invariant 0 <= k < |chains[h]| && last == chains[h][k]
        invariant fat[last] == Next(chains[h], k) && (fat[last] == END_OF_CHAIN <==> k == |chains[h]| - 1)
      {
        k := k + 1;
        last := fat[last];
        ChainIsLinked(fat, chains, place, h, k);
      }
    }

    method FindSlot(data: seq<byte>) returns (slot: int)
      ensures slot == -1 || slot >= 0
      ensures slot == -1 <==> NoSlot(data)
      ensures slot >= 0 ==> FirstFree(data, slot)
    {
      for i := 0 to |data| / DIR_ENTRY_SIZE
        invariant forall j {:trigger FreeSlot(data, j)} :: 0 <= j < i ==> !FreeSlot(data, j)
      {
        if FreeSlot(data, i) {
          return i;
        }
      }
      return -1;
    }

    /** The root directory, or one that is a chain. */
    ghost predicate IsDir(dir: uint16)
      reads `chains
    {
      dir == ROOT_CLUSTER || dir in chains
    }

    lemma RootIsNoChain()
      requires Valid()
      ensures ROOT_CLUSTER !in chains
    {
      FatPartition(fat, chains, place);
      NotReserved(chains, place, ROOT_CLUSTER);
    }

    /** Adds an entry to a directory: over its first free slot, or else, unless it is the root, at the start of a
        new cluster.  Fails, changing nothing, exactly when there is no slot and no way to grow. */
    method AppendDirEntry(dir: uint16, entry: seq<byte>) returns (r: int, ghost slot: nat)
      requires Shape() && Valid() && IsDir(dir) && |entry| == DIR_ENTRY_SIZE
      modifies `fat, `chains, `place, dev.disk
      ensures Valid() && (r == 0 || r == -1)
      ensures r == -1 <==>
                && NoSlot(old(DirBytes(chains, dev.Contents(), dir)))
                && (dir == ROOT_CLUSTER || FreeClusters(old(fat)) == {})
      ensures old(Flushed(fat, dev.Contents())) ==> Flushed(fat, dev.Contents())
      ensures r == -1 ==> fat == old(fat) && chains == old(chains) && dev.Contents() == old(dev.Contents())
      ensures r == 0 ==> EntryStored(old(chains), old(dev.Contents()), chains, dev.Contents(), dir, slot, entry)
      ensures r == 0 && !NoSlot(old(DirBytes(chains, dev.Contents(), dir))) ==>
                FirstFree(old(DirBytes(chains, dev.Contents(), dir)), slot) && chains == old(chains)
      ensures r == 0 && NoSlot(old(DirBytes(chains, dev.Contents(), dir))) ==>
                && dir in old(chains) && slot == |old(chains)[dir]| * SLOTS_PER_BLK
                && dir in chains && |chains[dir]| == |old(chains)[dir]| + 1
      ensures SlotChosen(old(chains), old(dev.Contents()), dir, r == 0, slot)
      ensures r == 0 ==>
                forall j {:trigger entry[j]} :: 0 <= j < 32 ==>
                      DirByte(chains, dev.Contents(), dir, slot * 32 + j) == entry[j]
    {
      hide FatOk, Partition, NoSlot, FreeClusters, WroteChain, FreeSlot, DirData, Flushed, SlotMark, DirByte,
          SlotChosen, EntryStored, FirstFree;
      ghost var c0, d0 := chains, dev.Contents();
      RootIsNoChain();
      if dir == ROOT_CLUSTER {
        r, slot := AppendRootEntry(entry);
        SlotAndEntry(c0, d0, dir, r == 0, slot, entry);
        return;
      }
      var data := ReadClusterChain(dir);
      var found := FindSlot(data);
      if found >= 0 {
        slot := found;
        StoreSlot(dir, found, entry);
        SlotFound(data, found);
        StoredInChain(c0, d0, chains, dev.Contents(), dir, slot, entry);
        SlotAndEntry(c0, d0, dir, true, slot, entry);
        return 0, slot;
      }
      slot := |chains[dir]| * SLOTS_PER_BLK;
      r := AppendCluster(dir, entry);
      if r == 0 {
        StoredInChain(c0, d0, chains, dev.Contents(), dir, slot, entry);
      }
      SlotAndEntry(c0, d0, dir, r == 0, slot, entry);
    }

    // The choice of the slot and the entry in it, read off the bytes.
    lemma SlotAndEntry(c0: Chains, d0: Image, dir: uint16, ok: bool, slot: nat, entry: seq<byte>)
      requires Shape() && |entry| == DIR_ENTRY_SIZE
      requires ok ==> EntryStored(c0, d0, chains, dev.Contents(), dir, slot, entry)
      requires if NoSlot(DirBytes(c0, d0, dir)) then ok ==> dir in c0 && slot == |c0[dir]| * SLOTS_PER_BLK
               else ok && FirstFree(DirBytes(c0, d0, dir), slot)
      ensures SlotChosen(c0, d0, dir, ok, slot)
      ensures ok ==> forall j {:trigger entry[j]} :: 0 <= j < 32 ==>
                DirByte(chains, dev.Contents(), dir, slot * 32 + j) == entry[j]
    {
      hide NoSlot, FirstFree, SlotChosen, EntryStored, DirByte, DirBytes;
      if NoSlot(DirBytes(c0, d0, dir)) {
        NoneIsChosen(c0, d0, dir);
      } else {
        FoundIsChosen(c0, d0, dir, slot);
      }
      if ok {
        EntryThere(c0, d0, chains, dev.Contents(), dir, slot, entry);
      }
    }

    method AppendRootEntry(entry: seq<byte>) returns (r: int, ghost slot: nat)
      requires Shape() && Valid() && |entry| == DIR_ENTRY_SIZE
      modifies dev.disk
      ensures Valid() && (r == 0 || r == -1)
      ensures r == -1 <==> NoSlot(old(dev.Contents())[ROOT_DIR_BLK])
      ensures r == -1 ==> dev.Contents() == old(dev.Contents())
      ensures r == 0 ==> EntryStored(chains, old(dev.Contents()), chains, dev.Contents(), ROOT_CLUSTER, slot, entry)
      ensures r == 0 ==> FirstFree(old(dev.Contents())[ROOT_DIR_BLK], slot)
      ensures old(Flushed(fat, dev.Contents())) ==> Flushed(fat, dev.Contents())
    {
      hide FatOk, Partition, NoSlot, FreeSlot, Flushed;
      RootIsNoChain();
      ghost var d := dev.Contents();
      slot := 0;
      var _, blk := dev.ReadBlock(ROOT_DIR_BLK, ZERO_BLOCK);
      var found := FindSlot(blk);
      if found == -1 {
        return -1, slot;
      }
      slot := found;
      var _ := dev.WriteBlock(ROOT_DIR_BLK, Patch(blk, found * DIR_ENTRY_SIZE, entry));
      assert dev.Contents()[FAT_DATA_START..] == d[FAT_DATA_START..];
      if Flushed(fat, d) {
        FlushedElsewhere(fat, d, ROOT_DIR_BLK, dev.Contents()[ROOT_DIR_BLK]);
      }
      r := 0;
    }

    /** Rewrites the block that holds a slot. */
    method StoreSlot(dir: uint16, slot: nat, entry: seq<byte>)
      requires Shape() && Valid() && dir in chains && |entry| == DIR_ENTRY_SIZE
      requires FirstFree(DirData(chains[dir], dev.Contents()), slot)
      modifies dev.disk
      ensures WroteChain(chains, old(dev.Contents()), chains, dev.Contents(), dir, slot * DIR_ENTRY_SIZE, entry)
      ensures dev.Contents()[ROOT_DIR_BLK] == old(dev.Contents())[ROOT_DIR_BLK]
      ensures old(Flushed(fat, dev.Contents())) ==> Flushed(fat, dev.Contents())
    {
      hide FatOk, Partition, WroteChain, FreeSlot, ChainBytes, Flushed;
      FatPartition(fat, chains, place);
      SlotInChain(chains[dir], dev.Contents(), slot);
      var cur := ClusterAt(dir, slot / SLOTS_PER_BLK);
      var _, blk := dev.ReadBlock(ClusterBlock(cur), ZERO_BLOCK);
      var _ := dev.WriteBlock(ClusterBlock(cur), Patch(blk, slot % SLOTS_PER_BLK * DIR_ENTRY_SIZE, entry));
      if Flushed(fat, old(dev.Contents())) {
        FlushedElsewhere(fat, old(dev.Contents()), ClusterBlock(cur), dev.Contents()[ClusterBlock(cur)]);
      }
      SlotStored(chains, old(dev.Contents()), dir, slot, entry, place, dev.Contents());
    }

    /** Grows a directory by one cluster that starts with the entry. */
    method AppendCluster(dir: uint16, entry: seq<byte>) returns (r: int)
      requires Shape() && Valid() && dir in chains && |entry| == DIR_ENTRY_SIZE
      modifies `fat, `chains, `place, dev.disk
      ensures Valid() && (r == 0 || r == -1)
      ensures r == -1 <==> FreeClusters(old(fat)) == {}
      ensures r == -1 ==> fat == old(fat) && chains == old(chains) && dev.Contents() == old(dev.Contents())
      ensures r == 0 ==> Flushed(fat, dev.Contents())
      ensures r == 0 ==> dir in chains && |chains[dir]| == |old(chains)[dir]| + 1
      ensures r == 0 ==>
                WroteChain(old(chains), old(dev.Contents()), chains, dev.Contents(), dir,
                           |old(chains)[dir]| * BLOCK_SIZE, entry)
      ensures dev.Contents()[ROOT_DIR_BLK] == old(dev.Contents())[ROOT_DIR_BLK]
    {
      hide FatOk, Partition, WroteChain, FreeClusters, Flushed;
      FatPartition(fat, chains, place);
      ChainFacts(chains, place, dir);
      var last := LastCluster(dir);
      var c := LinkNew(last, dir);
      if c == END_OF_CHAIN {
        return -1;
      }
      FlushFat();
      ghost var d := dev.Contents();
      var _ := dev.WriteBlock(ClusterBlock(c), Patch(ZERO_BLOCK, 0, entry));
      FlushedElsewhere(fat, d, ClusterBlock(c), Patch(ZERO_BLOCK, 0, entry));
      FatPartition(fat, chains, place);
      SameAfterStore(old(dev.Contents()), d, ClusterBlock(c), dev.Contents());
      EntryAppended(old(chains), old(dev.Contents()), dir, c, entry, place, dev.Contents());
      return 0;
    }

    /** fs_create below the path lookup: a new file gets one zeroed cluster and a directory entry.  If the
        entry cannot be stored the cluster is given back, and nothing but its bytes and the copies of the table
        has changed. */
    method CreateFile(parent: uint16, template: seq<byte>) returns (r: int, ghost first: uint16, ghost slot: nat)
      requires Shape() && Valid() && IsDir(parent) && |template| == DIR_ENTRY_SIZE
      modifies `fat, `chains, `place, `sizes, dev.disk
      ensures Valid() && (r == 0 || r == -1)
      ensures r == -1 <==>
                || FreeClusters(old(fat)) == {}
                || (NoSlot(old(DirBytes(chains, dev.Contents(), parent)))
                    && (parent == ROOT_CLUSTER || |FreeClusters(old(fat))| == 1))
      ensures r == -1 ==> fat == old(fat) && chains == old(chains) && sizes == old(sizes)
      ensures r == -1 && FreeClusters(old(fat)) == {} ==> dev.Contents() == old(dev.Contents())
      ensures r == -1 && FreeClusters(old(fat)) != {} ==>
                && IsCluster(first) && first in FreeClusters(old(fat)) && Flushed(fat, dev.Contents())
                && SameBut(old(dev.Contents()), dev.Contents(), first)
      ensures r == -1 ==>
                forall g {:trigger chains[g]} :: g in chains ==>
                      SameBytes(chains[g], old(dev.Contents()), dev.Contents())
      ensures r == 0 ==> IsCluster(first) && first in FreeClusters(old(fat)) && first !in old(chains)
      ensures r == 0 ==>
                EntryStored(old(chains)[first := [first]], old(dev.Contents())[ClusterBlock(first) := ZERO_BLOCK],
                                     chains, dev.Contents(), parent, slot, EntryFor(template, first))
      ensures r == 0 ==> SlotChosen(old(chains), old(dev.Contents()), parent, true, slot)
      ensures r == 0 ==> EntryNames(chains, dev.Contents(), parent, slot, template, first)
      ensures r == 0 ==> sizes == old(sizes)[first := 0] && Flushed(fat, dev.Contents())
    {
      hide FatOk, Partition, FreeClusters, Flushed, NoSlot, DirBytes, EntryFor, Freed, SameBut, EntryStored, SlotChosen,
          EntryNames, DirByte;
      slot := 0;
      RootIsNoChain();
      ghost var disk0, chains0 := dev.Contents(), chains;
      var c := AllocCluster();
      first := c;
      if c == END_OF_CHAIN {
        return -1, first, slot;
      }
      OneFewer(old(fat), c);
      ghost var fat1 := fat;
      fat := fat[c := END_OF_CHAIN];
      assert fat == fat1;
      FlushFat();
      ghost var d := dev.Contents();
      var _ := dev.WriteBlock(ClusterBlock(c), ZERO_BLOCK);
      ghost var d1, chains1 := dev.Contents(), chains;
      FlushedElsewhere(fat, d, ClusterBlock(c), ZERO_BLOCK);
      assert SameBut(disk0, d1, c) by { ZeroedAfterFlush(disk0, d, c, d1); }
      assert DirBytes(chains1, d1, parent) == DirBytes(chains0, disk0, parent) by {
        DirBytesSame(old(fat), chains0, old(place), disk0, c, d1, parent);
        assert chains1 == chains0[c := [c]];
      }
      r, slot := AppendDirEntry(parent, EntryFor(template, c));
      if r != 0 {
        ghost var d2 := dev.Contents();
        FreeClusterChain(c);
        assert SameBut(disk0, dev.Contents(), c) by { StillSame(disk0, d2, dev.Contents(), c); }
        Undone(old(fat), fat, old(chains), c);
        assert forall g {:trigger chains[g]} :: g in chains ==> SameBytes(chains[g], disk0, dev.Contents()) by {
          OnlyZeroed(old(fat), old(chains), old(place), disk0, c, dev.Contents());
        }
        return;
      }
      assert EntryNames(chains, dev.Contents(), parent, slot, template, c) by {
        NewEntryThere(chains, dev.Contents(), parent, slot, template, c);
      }
      assert SlotChosen(chains0, disk0, parent, true, slot) by {
        ChosenSame(chains0, disk0, chains1, d1, parent, slot);
      }
      EntryStoredSameStart(chains1, d1, disk0[ClusterBlock(c) := ZERO_BLOCK], chains, dev.Contents(), parent, slot,
          EntryFor(template, c));
      sizes := sizes[c := 0];
    }

    // The root and the data area are as they were, but for a zeroed cluster.
    ghost predicate SameBut(d0: Image, d: Image, c: uint16)
      requires IsCluster(c)
    {
      && d[FAT_DATA_START..] == d0[ClusterBlock(c) := ZERO_BLOCK][FAT_DATA_START..]
      && d[ROOT_DIR_BLK] == d0[ROOT_DIR_BLK]
    }

    lemma ZeroedAfterFlush(d0: Image, d: Image, c: uint16, d': Image)
      requires IsCluster(c) && d[ROOT_DIR_BLK..] == d0[ROOT_DIR_BLK..] && d' == d[ClusterBlock(c) := ZERO_BLOCK]
      ensures SameBut(d0, d', c)
    {
      SameAfterStore(d0, d, ClusterBlock(c), d');
      assert d[ROOT_DIR_BLK..][0] == d0[ROOT_DIR_BLK..][0];
    }

    lemma StillSame(d0: Image, d: Image, d': Image, c: uint16)
      requires IsCluster(c) && SameBut(d0, d, c) && d'[ROOT_DIR_BLK..] == d[ROOT_DIR_BLK..]
      ensures SameBut(d0, d', c)
    {
      SameAfterRoot(d, d');
      assert d'[ROOT_DIR_BLK..][0] == d[ROOT_DIR_BLK..][0];
    }

    lemma OnlyZeroed(fat: Fat, chains: Chains, place: Places, d0: Image, c: uint16, d: Image)
      requires FatOk(fat, chains, place) && IsCluster(c) && fat[c] == FREE_CLUSTER && SameBut(d0, d, c)
      ensures forall g {:trigger chains[g]} :: g in chains ==> SameBytes(chains[g], d0, d)
    {
      FreeZeroed(fat, chains, place, d0, c, d);
    }

    lemma DirBytesSame(fat: Fat, chains: Chains, place: Places, d0: Image, c: uint16, d: Image, dir: uint16)
      requires FatOk(fat, chains, place) && IsCluster(c) && fat[c] == FREE_CLUSTER && SameBut(d0, d, c)
      requires dir == ROOT_CLUSTER || dir in chains
      ensures DirBytes(chains[c := [c]], d, dir) == DirBytes(chains, d0, dir)
    {
      NewChain(fat, chains, place, c);
      if dir in chains {
        ChainFacts(chains, place, dir);
        DirDataSame(chains[dir], d0, c, d);
      }
    }

    lemma OneFewer(fat: Fat, c: uint16)
      requires c in FreeClusters(fat)
      ensures IsCluster(c) && fat[c] == FREE_CLUSTER
      ensures FreeClusters(fat[c := END_OF_CHAIN]) == {} <==> |FreeClusters(fat)| == 1
      ensures FreeClusters(fat) != {}
    {
      var free := FreeClusters(fat);
      assert FreeClusters(fat[c := END_OF_CHAIN]) == free - {c};
      if |free| == 1 {
        assert |free - {c}| == 0;
      } else {
        assert |free - {c}| != 0;
      }
    }

    lemma Undone(fat0: Fat, fat: Fat, chains0: Chains, c: uint16)
      requires c in FreeClusters(fat0) && c !in chains0
      requires Freed(fat0[c := END_OF_CHAIN], fat, [c], 1)
      ensures fat == fat0 && Remaining(chains0[c := [c]], c, 1) == chains0
    {
      assert [c][..1] == [c];
      forall x | 0 <= x < CLUSTERS_PER_FAT ensures fat[x] == fat0[x] {
      }
      assert chains0[c := [c]] - {c} == chains0;
    }

    lemma SameAfterStore(d0: Image, d: Image, b: nat, d': Image)
      requires d[ROOT_DIR_BLK..] == d0[ROOT_DIR_BLK..] && FAT_DATA_START <= b < TOTAL_BLK_NUM && d' == d[b := d'[b]]
      ensures d'[FAT_DATA_START..] == d0[b := d'[b]][FAT_DATA_START..]
    {
      SameAfterRoot(d0, d);
      assert d'[FAT_DATA_START..] == d[FAT_DATA_START..][b - FAT_DATA_START := d'[b]];
      assert d0[b := d'[b]][FAT_DATA_START..] == d0[FAT_DATA_START..][b - FAT_DATA_START := d'[b]];
    }

    // ---------- the calls ----------

    /** The recorded size of the file of chain h is the larger of what it was and the end of the write. */
    ghost predicate EndRecorded(sizes0: map<uint16, uint32>, h: uint16, end: nat)
      reads `sizes
    {
      && (h in sizes <==> h in sizes0)
      && (h in sizes0 ==> sizes[h] as int == if end > sizes0[h] then end else sizes0[h] as int)
    }

    /** Every file but that of chain h reads as it did: same recorded size, same chain, same bytes. */
    ghost predicate OthersRead(c0: Chains, d0: Image, sizes0: map<uint16, uint32>, h: uint16)
      requires dev.Valid()
      reads `chains, `sizes, dev.disk
    {
      && (forall g: uint16 {:trigger SizeOf(sizes, g)} :: g != h ==>
            (g in sizes <==> g in sizes0) && SizeOf(sizes, g) == SizeOf(sizes0, g))
      && forall g {:trigger c0[g]} :: g in c0 && g != h ==>
        && g in chains && chains[g] == c0[g]
        && FatContent(chains[g], dev.Contents(), SizeOf(sizes, g)) == FatContent(c0[g], d0, SizeOf(sizes0, g))
    }

    /** Writes to the file whose chain is h, saves the table and records the new end. */
    method WriteFile(h: uint16, offset: uint32, src: seq<byte>) returns (n: nat)
      requires Shape() && Valid() && h in chains
      modifies `fat, `chains, `place, `sizes, dev.disk
      ensures Valid() && Flushed(fat, dev.Contents())
      ensures h in chains && n <= |src| && offset + n < 0x1_0000_0000
      ensures sizes == Recorded(old(sizes), h, offset + n)
      ensures EndRecorded(old(sizes), h, offset + n)
      ensures OthersRead(old(chains), old(dev.Contents()), old(sizes), h)
      ensures n == Room(old(Capacity(h)), offset, |src|)
      ensures n < |src| ==> FreeClusters(fat) == {} && offset + n >= |chains[h]| * BLOCK_SIZE
      ensures n > 0 ==> offset + n <= |chains[h]| * BLOCK_SIZE
      ensures offset <= |chains[h]| * BLOCK_SIZE <==> offset <= old(Capacity(h))
      ensures WroteChain(old(chains), old(dev.Contents()), chains, dev.Contents(), h, offset, src[..n])
      ensures old(Covered(h)) ==>
                (FatContent(chains[h], dev.Contents(), SizeOf(sizes, h)) ==
                 Overlay(ZeroExtended(FatContent(old(chains)[h], old(dev.Contents()), SizeOf(old(sizes), h)), offset),
                         offset, src[..n])
                 <==> offset <= old(Capacity(h))
                      && GapZero(old(chains)[h], old(dev.Contents()), SizeOf(old(sizes), h), offset))
    {
      hide FatOk, Partition, FileWrite, FreeClusters, Flushed, WroteChain, FatContent, Overlay, ZeroExtended, GapZero;
      n := WriteChain(h, offset, src);
      assert h in chains by {
        WriteKeepsChain(old(chains), old(dev.Contents()), chains, dev.Contents(), h, offset, src[..n]); }
      ghost var d := dev.Contents();
      FlushFat();
      FatPartition(fat, chains, place);
      SameAfterRoot(d, dev.Contents());
      WroteChainFrom(old(chains), old(dev.Contents()), chains, d, h, offset, src[..n], place, dev.Contents());
      ChainLength(chains, place, h);
      if offset + n > SizeOf(sizes, h) && h in sizes {
        sizes := sizes[h := offset + n];
      }
      forall g | g in old(chains) && g != h
        ensures g in chains && chains[g] == old(chains)[g]
        ensures FatContent(chains[g], dev.Contents(), SizeOf(sizes, g)) ==
                FatContent(old(chains)[g], old(dev.Contents()), SizeOf(old(sizes), g))
      {
        OtherContent(old(chains), old(dev.Contents()), chains, dev.Contents(), h, offset, src[..n], g,
            SizeOf(sizes, g));
      }
      if old(Covered(h)) {
        CoveredZeroFilledIff(old(chains), old(dev.Contents()), chains, dev.Contents(), h, offset, src[..n],
            old(sizes)[h]);
      }
    }

    lemma SameAfterRoot(d0: Image, d: Image)
      requires d[ROOT_DIR_BLK..] == d0[ROOT_DIR_BLK..]
      ensures d[FAT_DATA_START..] == d0[FAT_DATA_START..]
    {
      assert d[FAT_DATA_START..] == d[ROOT_DIR_BLK..][1..];
    }

    /** The descriptor's file: the chain that starts at the cluster the descriptor holds. */
    ghost predicate Opened(fd: int)
      requires Shape()
      reads oft.userTable, oft.sysTable, `chains
    {
      oft.ValidFd(userSlot, fd) ==> oft.Instance(userSlot, fd).ino in chains
    }

    ghost function HeadOf(fd: int): uint16
      requires Shape() && oft.ValidFd(userSlot, fd)
      reads oft.userTable, oft.sysTable
    {
      oft.Instance(userSlot, fd).ino
    }

    ghost function OffsetOf(fd: int): uint32
      requires Shape() && oft.ValidFd(userSlot, fd)
      reads oft.userTable, oft.sysTable
    {
      oft.Instance(userSlot, fd).offset
    }

    ghost function FileOf(fd: int): seq<byte>
      requires Shape() && oft.ValidFd(userSlot, fd) && Opened(fd)
      reads oft.userTable, oft.sysTable, `chains, `sizes, dev.disk
    {
      FatContent(chains[HeadOf(fd)], dev.Contents(), SizeOf(sizes, HeadOf(fd)))
    }

    /** How far the file behind a descriptor can be read: to its recorded size or the end of its chain. */
    ghost function LengthOf(fd: int): nat
      requires Shape() && oft.ValidFd(userSlot, fd) && Opened(fd)
      reads oft.userTable, oft.sysTable, `chains, `sizes
    {
      if HeadOf(fd) in sizes then Min(sizes[HeadOf(fd)], |chains[HeadOf(fd)]| * BLOCK_SIZE) else 0
    }

    /** A write through the descriptor will read back as one into a zero-filled file: the offset is within what the
        chain and the free clusters can hold, and the chain holds zeros from the end of the file to the offset. */
    ghost predicate ZeroFills(fd: int)
      requires Shape() && oft.ValidFd(userSlot, fd) && Opened(fd)
      reads oft.userTable, oft.sysTable, `chains, `fat, `sizes, dev.disk
    {
      && OffsetOf(fd) <= Capacity(HeadOf(fd))
      && GapZero(chains[HeadOf(fd)], dev.Contents(), SizeOf(sizes, HeadOf(fd)), OffsetOf(fd))
    }

    /** fs_write: stores what there is room for at the descriptor's offset and moves the offset past it. */
    method FsWrite(fd: int, src: seq<byte>) returns (r: int)
      requires Shape() && Valid() && oft.Valid() && Opened(fd)
      modifies `fat, `chains, `place, `sizes, dev.disk, oft.sysTable
      ensures r == -1 <==>
                || !old(oft.ValidFd(userSlot, fd))
                || (var flag := old(oft.Instance(userSlot, fd)).flag; flag / 2 % 2 == 0 && flag / 4 % 2 == 0)
      ensures r == -1 ==>
                && fat == old(fat) && chains == old(chains) && sizes == old(sizes)
                && dev.Contents() == old(dev.Contents()) && oft.sysTable[..] == old(oft.sysTable[..])
      ensures r != -1 ==>
                oft.ValidFd(userSlot, fd) && HeadOf(fd) == old(HeadOf(fd)) && 0 <= r <= |src| && HeadOf(fd) in chains
      ensures r != -1 ==>
                r == Room(old(Capacity(HeadOf(fd))), old(OffsetOf(fd)), |src|) && OffsetOf(fd) == old(OffsetOf(fd)) + r
      ensures r != -1 && r < |src| ==>
                FreeClusters(fat) == {} && OffsetOf(fd) >= |chains[HeadOf(fd)]| * BLOCK_SIZE
      ensures r != -1 ==> oft.Instance(userSlot, fd) == old(oft.Instance(userSlot, fd)).(offset := OffsetOf(fd))
      ensures r != -1 && old(Covered(HeadOf(fd))) && old(OffsetOf(fd)) <= old(SizeOf(sizes, HeadOf(fd))) ==>
                FileOf(fd) == Overlay(old(FileOf(fd)), old(OffsetOf(fd)), src[..r])
      ensures r != -1 && old(Covered(HeadOf(fd))) ==>
                (FileOf(fd) == Overlay(ZeroExtended(old(FileOf(fd)), old(OffsetOf(fd))), old(OffsetOf(fd)), src[..r])
                 <==> old(ZeroFills(fd)))
      ensures r != -1 && old(Covered(HeadOf(fd))) ==>
                (Covered(HeadOf(fd)) <==> old(OffsetOf(fd)) <= old(Capacity(HeadOf(fd))))
      ensures r != -1 ==> sizes == Recorded(old(sizes), HeadOf(fd), OffsetOf(fd))
      ensures r != -1 ==> EndRecorded(old(sizes), HeadOf(fd), OffsetOf(fd))
      ensures r != -1 ==> OthersRead(old(chains), old(dev.Contents()), old(sizes), HeadOf(fd))
      ensures r != -1 ==>
                WroteChain(old(chains), old(dev.Contents()), chains, dev.Contents(), HeadOf(fd),
                           old(OffsetOf(fd)), src[..r])
      ensures Valid() && oft.Valid() && (r != -1 ==> Flushed(fat, dev.Contents()))
      ensures oft.OtherInstances(userSlot, fd) == old(oft.OtherInstances(userSlot, fd))
    {
      hide FatOk, Partition, FreeClusters, Flushed, Room, Overlay, ZeroExtended, FatContent, GapZero,
          OpenFileTable.OtherInstances, Fat16Fs.OthersRead, Fat16Fs.EndRecorded;
      if !oft.ValidFd(userSlot, fd) {
        return -1;
      }
      var flags := oft.GetFlags(userSlot, fd);
      if !CanWrite(flags) {
        return -1;
      }
      var h := oft.GetInode(userSlot, fd);
      var offset := oft.GetOffset(userSlot, fd);
      r := WriteFile(h, offset, src);
      var _ := oft.SetOffset(userSlot, fd, offset + r);
      if h in old(sizes) && offset <= old(sizes)[h] <= |old(chains)[h]| * BLOCK_SIZE {
        WroteIsOverlay(old(chains), old(dev.Contents()), chains, dev.Contents(), h, offset, src[..r], old(sizes)[h]);
      }
      hide WroteChain;
    }

    /** fs_read: returns the slice at the descriptor's offset and moves the offset past it. */
    method FsRead(fd: int, len: nat) returns (r: int, dst: seq<byte>)
      requires Shape() && Valid() && oft.Valid() && Opened(fd)
      modifies oft.sysTable
      ensures oft.Valid()
      ensures r == -1 <==> !old(oft.ValidFd(userSlot, fd)) || old(oft.Instance(userSlot, fd)).flag % 2 == 0
      ensures r == -1 ==> dst == [] && oft.sysTable[..] == old(oft.sysTable[..])
      ensures r != -1 ==>
                oft.ValidFd(userSlot, fd) && r == |dst| && dst == Slice(old(FileOf(fd)), old(OffsetOf(fd)), len)
      ensures r != -1 ==>
                r == if old(OffsetOf(fd)) >= old(LengthOf(fd)) then 0
                     else Min(len, old(LengthOf(fd)) - old(OffsetOf(fd)))
      ensures r != -1 ==>
                && oft.Instance(userSlot, fd) == old(oft.Instance(userSlot, fd)).(offset := OffsetOf(fd))
                && OffsetOf(fd) == old(OffsetOf(fd)) + r
      ensures oft.OtherInstances(userSlot, fd) == old(oft.OtherInstances(userSlot, fd))
    {
      hide FatOk, Partition, ChainBytes, OpenFileTable.OtherInstances;
      dst := [];
      if !oft.ValidFd(userSlot, fd) {
        return -1, dst;
      }
      var flags := oft.GetFlags(userSlot, fd);
      if !CanRead(flags) {
        return -1, dst;
      }
      var h := oft.GetInode(userSlot, fd);
      var offset := oft.GetOffset(userSlot, fd);
      var size := SizeOf(sizes, h);
      if offset >= size {
        return 0, dst;
      }
      var n := Min(len, size - offset);
      dst := ReadChain(h, offset, n);
      r := |dst|;
      var _ := oft.SetOffset(userSlot, fd, offset + r);
    }

    /** Walks chain h to the offset and reads until `n` bytes are read or the chain ends. */
    method ReadChain(h: uint16, offset: nat, n: nat) returns (dst: seq<byte>)
      requires Shape() && Valid() && h in chains
      ensures dst == Slice(ChainBytes(chains[h], dev.Contents(), |chains[h]| * BLOCK_SIZE), offset, n)
    {
      hide FatOk, Partition, ChainBytes;
      FatPartition(fat, chains, place);
      ChainFacts(chains, place, h);
      ghost var chain := chains[h];
      var cur, k := h, 0;
      while k < offset / BLOCK_SIZE && cur >= 2 && cur != END_OF_CHAIN
        invariant 0 <= k <= |chain| && k <= offset / BLOCK_SIZE
        invariant cur == if k < |chain| then chain[k] else END_OF_CHAIN
      {
        ChainIsLinked(fat, chains, place, h, k);
        cur := fat[cur];
        k := k + 1;
      }
      assert k < |chain| ==> k == offset / BLOCK_SIZE;
      dst := ReadOn(cur, h, k, offset, n);
    }

    method ReadOn(first: uint16, ghost h: uint16, ghost start: nat, offset: nat, n: nat) returns (dst: seq<byte>)
      requires Shape() && Valid() && h in chains && start <= |chains[h]| && start <= offset / BLOCK_SIZE
      requires first == if start < |chains[h]| then chains[h][start] else END_OF_CHAIN
      requires start < |chains[h]| ==> start == offset / BLOCK_SIZE
      ensures dst == Slice(ChainBytes(chains[h], dev.Contents(), |chains[h]| * BLOCK_SIZE), offset, n)
    {
      hide FatOk, Partition, ChainBytes, Slice, Reading;
      ReadingStart(chains[h], dev.Contents(), start, offset, n);
      FatPartition(fat, chains, place);
      ChainFacts(chains, place, h);
      var cur := first;
      var blkOff: nat := offset % BLOCK_SIZE;
      ghost var k := start;
      dst := [];
      while |dst| < n && cur >= 2 && cur != END_OF_CHAIN
        invariant 0 <= k <= |chains[h]| && Reading(chains[h], dev.Contents(), k, offset, dst, n, blkOff)
        invariant cur == if k < |chains[h]| then chains[h][k] else END_OF_CHAIN
      {
        ChainIsLinked(fat, chains, place, h, k);
        var _, blk := dev.ReadBlock(ClusterBlock(cur), ZERO_BLOCK);
        ReadingStep(chains[h], dev.Contents(), k, offset, dst, n, blkOff, blk);
        dst := dst + blk[blkOff..blkOff + Min(BLOCK_SIZE - blkOff, n - |dst|)];
        blkOff := 0;
        cur := fat[cur];
        k := k + 1;
      }
      ReadingEnd(chains[h], dev.Contents(), k, offset, dst, n, blkOff);
    }
  }

  /** Where a read of n bytes at `offset` stands before cluster k. */
  ghost predicate Reading(chain: seq<uint16>, d: Image, k: nat, offset: nat, dst: seq<byte>, n: nat, blkOff: nat) {
    var all := ChainBytes(chain, d, |chain| * BLOCK_SIZE);
    && k <= |chain| && |dst| <= n && blkOff < BLOCK_SIZE
    && (k < |chain| && |dst| < n ==> k * BLOCK_SIZE + blkOff == offset + |dst|)
    && (k == |chain| && |dst| < n ==> offset + |dst| == |all| || (dst == [] && offset >= |all|))
    && (dst == [] || (offset + |dst| <= |all| && dst == all[offset..offset + |dst|]))
  }

  lemma ReadingStart(chain: seq<uint16>, d: Image, k: nat, offset: nat, n: nat)
    requires k <= |chain| && k <= offset / BLOCK_SIZE && (k < |chain| ==> k == offset / BLOCK_SIZE)
    ensures Reading(chain, d, k, offset, [], n, offset % BLOCK_SIZE)
  {
  }

  lemma ReadingStep(chain: seq<uint16>, d: Image, k: nat, offset: nat, dst: seq<byte>, n: nat, blkOff: nat, blk: Block)
    requires Reading(chain, d, k, offset, dst, n, blkOff) && k < |chain| && |dst| < n
    requires IsCluster(chain[k]) && blk == d[ClusterBlock(chain[k])]
    ensures blkOff < BLOCK_SIZE
    ensures Reading(chain, d, k + 1, offset, dst + blk[blkOff..blkOff + Min(BLOCK_SIZE - blkOff, n - |dst|)], n, 0)
  {
    hide ChainBytes;
    var at, chunk := offset + |dst|, Min(BLOCK_SIZE - blkOff, n - |dst|);
    assert at / BLOCK_SIZE == k && at % BLOCK_SIZE == blkOff;
    BlockSlice(chain, d, k, at, chunk);
    SliceGrows(ChainBytes(chain, d, |chain| * BLOCK_SIZE), offset, at, dst, chunk);
  }

  lemma ReadingEnd(chain: seq<uint16>, d: Image, k: nat, offset: nat, dst: seq<byte>, n: nat, blkOff: nat)
    requires Reading(chain, d, k, offset, dst, n, blkOff) && (k == |chain| || |dst| >= n)
    ensures dst == Slice(ChainBytes(chain, d, |chain| * BLOCK_SIZE), offset, n)
  {
    hide ChainBytes;
    SliceReached(ChainBytes(chain, d, |chain| * BLOCK_SIZE), offset, n, dst);
  }

  lemma OneMoreBlock(chain: seq<uint16>, d: Image, k: nat)
    requires k < |chain| && IsCluster(chain[k])
    ensures ChainBytes(chain, d, (k + 1) * BLOCK_SIZE) ==
              ChainBytes(chain, d, k * BLOCK_SIZE) + d[ClusterBlock(chain[k])]
  {
    var b := d[ClusterBlock(chain[k])];
    forall i | 0 <= i < BLOCK_SIZE ensures b[i] == ChainByte(chain, d, k * BLOCK_SIZE + i) {
    }
    hide ChainByte;
  }

  lemma SlotFound(data: seq<byte>, slot: nat)
    requires FirstFree(data, slot)
    ensures !NoSlot(data)
  {
  }

  lemma SlotInChain(chain: seq<uint16>, d: Image, slot: nat)
    requires FirstFree(DirData(chain, d), slot)
    ensures slot / SLOTS_PER_BLK < |chain|
  {
  }

  lemma SliceGrows(all: seq<byte>, offset: nat, at: nat, dst: seq<byte>, chunk: nat)
    requires at == offset + |dst| && at + chunk <= |all|
    requires dst == [] || dst == all[offset..at]
    ensures dst + all[at..at + chunk] == all[offset..at + chunk]
  {
  }

  lemma SliceReached(all: seq<byte>, offset: nat, n: nat, dst: seq<byte>)
    requires |dst| <= n && (dst == [] || (offset + |dst| <= |all| && dst == all[offset..offset + |dst|]))
    requires |dst| < n ==> offset + |dst| == |all| || (dst == [] && offset >= |all|)
    ensures dst == Slice(all, offset, n)
  {
  }

  lemma ChunkRange(cur: nat, left: nat, blocks: nat)
    requires left > 0 && cur / BLOCK_SIZE < blocks
    ensures var chunk := Min(BLOCK_SIZE - cur % BLOCK_SIZE, left);
            && 0 < chunk <= left && cur % BLOCK_SIZE + chunk <= BLOCK_SIZE && cur + chunk <= blocks * BLOCK_SIZE
            && (chunk < left ==> (cur + chunk) % BLOCK_SIZE == 0 && (cur + chunk) / BLOCK_SIZE == cur / BLOCK_SIZE + 1)
  {
  }
}
