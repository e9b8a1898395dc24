/** The two copies of the allocation table on disk. */
module FatDisks {
  import opened Bytes
  import opened BlockDevices
  import opened FatChains

  /** Block i of the copy that starts at block `start`. */
  function CopyBlock(d: Image, start: nat, i: nat): Block
    requires start + i < TOTAL_BLK_NUM
  {
    d[start + i]
  }

  /** The copy that starts at block `start` holds every entry of the table. */
  ghost predicate OnDisk(fat: Fat, d: Image, start: nat)
    requires start + FAT_SIZE <= TOTAL_BLK_NUM
  {
    forall i: int, j: int {:trigger WordAt(CopyBlock(d, start, i), j)} ::
          0 <= i < FAT_SIZE && 0 <= j < ENTRIES_PER_FAT_BLK ==>
      WordAt(CopyBlock(d, start, i), j) == fat[i * ENTRIES_PER_FAT_BLK + j]
  }

  /** Both copies hold the table, and they are the same block for block. */
  ghost predicate Flushed(fat: Fat, d: Image) {
    && OnDisk(fat, d, FAT1_START) && OnDisk(fat, d, FAT2_START)
    && d[FAT1_START..FAT2_START] == d[FAT2_START..ROOT_DIR_BLK]
  }

  /** A disk copy determines the table: what is loaded from a flushed disk is what was flushed, and the chains
      are the same chains. */
  lemma LoadFlushed(fat: Fat, loaded: Fat, d: Image, chains: Chains, place: Places)
    requires Flushed(fat, d) && OnDisk(loaded, d, FAT1_START)
    ensures loaded == fat
    ensures FatOk(fat, chains, place) ==> FatOk(loaded, chains, place)
  {
    hide FatOk, WordAt;
    forall k | 0 <= k < CLUSTERS_PER_FAT ensures loaded[k] == fat[k] {
      var i, j := k / ENTRIES_PER_FAT_BLK, k % ENTRIES_PER_FAT_BLK;
      assert k == i * ENTRIES_PER_FAT_BLK + j;
      assert WordAt(CopyBlock(d, FAT1_START, i), j) == fat[k];
    }
  }

  /** Entry c of a copy is the word at byte 2 * c, low byte first. */
  lemma FatLayout(fat: Fat, d: Image, start: nat, c: nat)
    requires start + FAT_SIZE <= TOTAL_BLK_NUM && OnDisk(fat, d, start) && c < CLUSTERS_PER_FAT
    ensures fat[c] == Two(d[start + c * 2 / 512], c * 2 % 512)
  {
    assert WordAt(CopyBlock(d, start, c / 256), c % 256) == fat[c];
  }

  /** One block of the table. */
  ghost predicate Packed(fat: Fat, i: nat, blk: Block, n: nat)
    requires i < FAT_SIZE && n <= ENTRIES_PER_FAT_BLK
  {
    forall j {:trigger WordAt(blk, j)} :: 0 <= j < n ==> WordAt(blk, j) == fat[i * ENTRIES_PER_FAT_BLK + j]
  }

  /** The first n blocks of both copies are written, and no block outside the copies has changed. */
  ghost predicate Flushing(fat: Fat, d0: Image, d: Image, n: nat)
    requires n <= FAT_SIZE
  {
    && (forall i {:trigger CopyBlock(d, FAT1_START, i)} {:trigger CopyBlock(d, FAT2_START, i)} :: 0 <= i < n ==>
          Packed(fat, i, CopyBlock(d, FAT1_START, i), ENTRIES_PER_FAT_BLK)
          && CopyBlock(d, FAT2_START, i) == CopyBlock(d, FAT1_START, i))
    && d[..FAT1_START] == d0[..FAT1_START] && d[ROOT_DIR_BLK..] == d0[ROOT_DIR_BLK..]
  }

  lemma FlushStep(fat: Fat, d0: Image, d: Image, n: nat, blk: Block, d': Image)
    requires n < FAT_SIZE && Flushing(fat, d0, d, n) && Packed(fat, n, blk, ENTRIES_PER_FAT_BLK)
    requires d' == d[FAT1_START + n := blk][FAT2_START + n := blk]
    ensures Flushing(fat, d0, d', n + 1)
  {
    hide Packed;
    assert d'[..FAT1_START] == d[..FAT1_START] && d'[ROOT_DIR_BLK..] == d[ROOT_DIR_BLK..];
    forall i: int | 0 <= i < n + 1
      ensures CopyBlock(d', FAT2_START, i) == CopyBlock(d', FAT1_START, i)
      ensures CopyBlock(d', FAT1_START, i) == if i == n then blk else CopyBlock(d, FAT1_START, i)
    {
      assert i < n ==> CopyBlock(d, FAT2_START, i) == CopyBlock(d, FAT1_START, i);
    }
  }

  lemma FlushDone(fat: Fat, d0: Image, d: Image)
    requires Flushing(fat, d0, d, FAT_SIZE)
    ensures Flushed(fat, d)
  {
    hide WordAt;
    forall i: int, j: int | 0 <= i < FAT_SIZE && 0 <= j < ENTRIES_PER_FAT_BLK
      ensures WordAt(CopyBlock(d, FAT1_START, i), j) == fat[i * ENTRIES_PER_FAT_BLK + j]
      ensures WordAt(CopyBlock(d, FAT2_START, i), j) == fat[i * ENTRIES_PER_FAT_BLK + j]
    {
      assert Packed(fat, i, CopyBlock(d, FAT1_START, i), ENTRIES_PER_FAT_BLK);
    }
    assert OnDisk(fat, d, FAT1_START) && OnDisk(fat, d, FAT2_START);
    hide Packed, OnDisk;
    forall i | 0 <= i < FAT_SIZE ensures d[FAT1_START..FAT2_START][i] == d[FAT2_START..ROOT_DIR_BLK][i] {
      assert CopyBlock(d, FAT2_START, i) == CopyBlock(d, FAT1_START, i);
    }
  }

  lemma FlushNone(fat: Fat, d: Image)
    ensures Flushing(fat, d, d, 0)
  {
  }

  ghost predicate Outside(d0: Image, d: Image) {
    d[..FAT1_START] == d0[..FAT1_START] && d[ROOT_DIR_BLK..] == d0[ROOT_DIR_BLK..]
  }

  lemma FlushOutside(fat: Fat, d0: Image, d: Image)
    requires Flushing(fat, d0, d, FAT_SIZE)
    ensures Outside(d0, d)
  {
  }

  lemma FlushedElsewhere(fat: Fat, d: Image, b: nat, blk: Block)
    requires Flushed(fat, d) && ROOT_DIR_BLK <= b < TOTAL_BLK_NUM
    ensures Flushed(fat, d[b := blk])
  {
    var d' := d[b := blk];
    assert d'[FAT1_START..FAT2_START] == d[FAT1_START..FAT2_START];
    assert d'[FAT2_START..ROOT_DIR_BLK] == d[FAT2_START..ROOT_DIR_BLK];
    hide WordAt;
    forall i: int | 0 <= i < FAT_SIZE
      ensures CopyBlock(d', FAT1_START, i) == CopyBlock(d, FAT1_START, i)
      ensures CopyBlock(d', FAT2_START, i) == CopyBlock(d, FAT2_START, i)
    {
    }
  }
}
