/** Inodes on the disk: 64 bytes each, eight to a block, changed by reading a block, replacing 64 bytes
    and writing the block back. */
module DiskInodes {
  import opened Bytes
  import opened BlockDevices
  import opened InodeTrees

  const INODE_WORDS := 32

  function Low(x: uint32): uint16 { x % 0x1_0000 }
  function High(x: uint32): uint16 { x / 0x1_0000 }
  function Wide(lo: uint16, hi: uint16): uint32 { lo as int + 0x1_0000 * (hi as int) }

  /** The 64-byte record, as 32 words; the last ten are padding. */
  function InodeWords(di: DInode): (ws: seq<uint16>)
    ensures |ws| == INODE_WORDS
  {
    [di.mode, di.nlink, di.uid, di.gid,
     Low(di.size), High(di.size), Low(di.atime), High(di.atime),
     Low(di.mtime), High(di.mtime), Low(di.ctime), High(di.ctime)]
    + di.addr + [0, 0, 0, 0, 0, 0, 0, 0, 0, 0]
  }

  function InodeOf(ws: seq<uint16>): DInode
    requires |ws| == INODE_WORDS
  {
    DInode(ws[0], ws[1], ws[2], ws[3], Wide(ws[4], ws[5]), Wide(ws[6], ws[7]), Wide(ws[8], ws[9]),
           Wide(ws[10], ws[11]), ws[12..22])
  }

  lemma InodeRoundTrip(di: DInode)
    ensures InodeOf(InodeWords(di)) == di
  {
    var ws := InodeWords(di);
    assert ws[12..22] == di.addr;
  }

  /** The fields of an inode, where the record's C struct puts them, low byte first. */
  lemma InodeLayout(d: Image, ino: nat)
    requires ino < INODE_TOTAL
    ensures var b, at, di := d[2 + ino / 8], ino % 8 * 64, DiskInode(d, ino);
            && di.mode == Two(b, at) && di.nlink == Two(b, at + 2) && di.uid == Two(b, at + 4)
            && di.gid == Two(b, at + 6) && di.size == Four(b, at + 8) && di.atime == Four(b, at + 12)
            && di.mtime == Four(b, at + 16) && di.ctime == Four(b, at + 20)
            && forall i :: 0 <= i < NADDR ==> di.addr[i] == Two(b, at + 24 + 2 * i)
  {
    var b, at, ws := d[InodeBlock(ino)], ino % 8 * 64, Words(d[InodeBlock(ino)], InodeOffset(ino), INODE_WORDS);
    forall j | 0 <= j < INODE_WORDS ensures ws[j] == Two(b, at + 2 * j) {
      assert at + 2 * j == 2 * (InodeOffset(ino) + j);
    }
    WideIsFour(b, at + 8);
    WideIsFour(b, at + 12);
    WideIsFour(b, at + 16);
    WideIsFour(b, at + 20);
    hide WordAt, Two, Four, Wide;
  }

  lemma WideIsFour(b: Block, at: nat)
    requires at + 4 <= BLOCK_SIZE
    ensures Wide(Two(b, at), Two(b, at + 2)) == Four(b, at)
  {
  }

  /** Block b with words from `from` on replaced by ws. */
  function PutWords(b: Block, from: nat, ws: seq<uint16>, n: nat): (r: Block)
    requires n <= |ws| && from + |ws| <= WORDS_PER_BLOCK
    ensures forall j {:trigger WordAt(r, j)} :: 0 <= j < WORDS_PER_BLOCK ==>
              WordAt(r, j) == if from <= j < from + n then ws[j - from] else WordAt(b, j)
  {
    if n == 0 then b else PutWord(PutWords(b, from, ws, n - 1), from + n - 1, ws[n - 1])
  }

  function InodeBlock(ino: nat): nat { INODE_START_BLK + ino / INODES_PER_BLK }
  function InodeOffset(ino: nat): nat { (ino % INODES_PER_BLK) * INODE_WORDS }

  function DiskInode(d: Image, ino: nat): DInode
    requires ino < INODE_TOTAL
  {
    InodeOf(Words(d[InodeBlock(ino)], InodeOffset(ino), INODE_WORDS))
  }

  function WriteInode(d: Image, ino: nat, di: DInode): Image
    requires ino < INODE_TOTAL
  {
    var ws := InodeWords(di);
    d[InodeBlock(ino) := PutWords(d[InodeBlock(ino)], InodeOffset(ino), ws, |ws|)]
  }

  /** Writing one inode changes that inode and no other, not even the seven in its block, and touches
      no block outside the inode area. */
  lemma WriteInodeIsolated(d: Image, ino: nat, di: DInode)
    requires ino < INODE_TOTAL
    ensures forall i {:trigger DiskInode(WriteInode(d, ino, di), i)} :: 0 <= i < INODE_TOTAL ==>
              DiskInode(WriteInode(d, ino, di), i) == if i == ino then di else DiskInode(d, i)
    ensures forall n :: 0 <= n < TOTAL_BLK_NUM && n != InodeBlock(ino) ==> WriteInode(d, ino, di)[n] == d[n]
    ensures INODE_START_BLK <= InodeBlock(ino) < DATA_START_BLK
  {
    forall i | 0 <= i < INODE_TOTAL
      ensures DiskInode(WriteInode(d, ino, di), i) == if i == ino then di else DiskInode(d, i)
    {
      WriteInodeAt(d, ino, di, i);
    }
  }

  lemma WriteInodeAt(d: Image, ino: nat, di: DInode, i: nat)
    requires ino < INODE_TOTAL && i < INODE_TOTAL
    ensures DiskInode(WriteInode(d, ino, di), i) == if i == ino then di else DiskInode(d, i)
  {
    var d' := WriteInode(d, ino, di);
    var ws, ws' := Words(d[InodeBlock(i)], InodeOffset(i), INODE_WORDS),
        Words(d'[InodeBlock(i)], InodeOffset(i), INODE_WORDS);
    if i == ino {
      assert ws' == InodeWords(di);
      InodeRoundTrip(di);
    } else {
      assert InodeBlock(i) == InodeBlock(ino) ==>
        InodeOffset(i) + INODE_WORDS <= InodeOffset(ino) || InodeOffset(ino) + INODE_WORDS <= InodeOffset(i);
      assert ws' == ws;
    }
  }
}
