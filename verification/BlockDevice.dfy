/** The block device: the whole virtual disk is one memory buffer, read and written a block at a time. */
module BlockDevices {
  import opened Bytes

  const SUPER_BLK := 1
  const INODE_START_BLK := 2
  const INODE_BLK_NUM := 32
  const INODES_PER_BLK := 8
  const INODE_TOTAL := INODE_BLK_NUM * INODES_PER_BLK
  const DATA_START_BLK := INODE_START_BLK + INODE_BLK_NUM
  const DATA_BLK_NUM := 2048
  const TOTAL_BLK_NUM := DATA_START_BLK + DATA_BLK_NUM

  /** The contents of the disk at one moment. */
  type Image = d: seq<Block> | |d| == TOTAL_BLK_NUM witness seq<Block>(TOTAL_BLK_NUM, _ => ZERO_BLOCK)

  class BlockDevice {
    const disk: array<Block>

    ghost predicate Valid() {
      disk.Length == TOTAL_BLK_NUM
    }

    ghost function Contents(): Image
      requires Valid()
      reads disk
    {
      disk[..]
    }

    constructor ()
      ensures Valid() && fresh(disk)
      ensures forall n :: 0 <= n < TOTAL_BLK_NUM ==> disk[n] == ZERO_BLOCK
    {
      disk := new Block[TOTAL_BLK_NUM](_ => ZERO_BLOCK);
    }

    /** Returns false, leaving the caller's buffer alone, when the block number is out of range. */
    method ReadBlock(blockNo: nat, into: Block) returns (ok: bool, buf: Block)
      requires Valid()
      ensures ok == (blockNo < TOTAL_BLK_NUM)
      ensures buf == if blockNo < TOTAL_BLK_NUM then disk[blockNo] else into
    {
      ok := blockNo < disk.Length;
      buf := if ok then disk[blockNo] else into;
    }

    method WriteBlock(blockNo: nat, buf: Block) returns (ok: bool)
      requires Valid()
      modifies disk
      ensures ok == (blockNo < TOTAL_BLK_NUM)
      ensures Contents() == if blockNo < TOTAL_BLK_NUM then old(Contents())[blockNo := buf] else old(Contents())
    {
      ok := blockNo < disk.Length;
      if ok {
        disk[blockNo] := buf;
      }
    }

    method ZeroAll()
      requires Valid()
      modifies disk
      ensures forall n :: 0 <= n < TOTAL_BLK_NUM ==> disk[n] == ZERO_BLOCK
    {
      forall n | 0 <= n < disk.Length {
        disk[n] := ZERO_BLOCK;
      }
    }
  }
}
