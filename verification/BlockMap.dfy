/** Counting blocks: the disk map, the usage figure, and the conservation of blocks behind both. */
module BlockMaps {
  import opened Bytes
  import opened BlockDevices
  import opened FreeLists
  import opened InodeTrees
  import opened InodeWalks

  const BLK_FREE: byte := 0
  const BLK_USED: byte := 1
  const BLK_META: byte := 2

  /** One cell per block of the disk: metadata, used or free. */
  ghost predicate MapOf(out: seq<byte>, list: seq<uint16>) {
    && |out| == TOTAL_BLK_NUM
    && forall n :: 0 <= n < TOTAL_BLK_NUM ==>
         out[n] == if n < DATA_START_BLK then BLK_META else if n - DATA_START_BLK in list then BLK_FREE else BLK_USED
  }

  ghost function UsedCells(out: seq<byte>): set<int> {
    set n | 0 <= n < |out| && out[n] == BLK_USED
  }

  /** The used cells are as many as the blocks that are not free. */
  lemma UsedCellsCount(out: seq<byte>, list: seq<uint16>)
    requires MapOf(out, list) && Distinct(list) && InData(list)
    ensures |UsedCells(out)| == DATA_BLK_NUM - |list|
  {
    var cells := Shifted(list);
    DistinctCard(cells);
    var free := set x: int | x in cells;
    forall n | 0 <= n < TOTAL_BLK_NUM
      ensures n in UsedCells(out) || n in free <==> n in Interval(DATA_START_BLK, TOTAL_BLK_NUM)
    {
      ShiftedMember(list, n);
    }
    forall n ensures !(n in UsedCells(out) && n in free) {
      ShiftedMember(list, n);
    }
    hide MapOf, Shifted, UsedCells;
    TwoParts(UsedCells(out), free, DATA_START_BLK, TOTAL_BLK_NUM);
  }

  /** The disk block numbers of data blocks. */
  ghost function Shifted(list: seq<uint16>): (cells: seq<uint16>)
    requires InData(list)
    ensures |cells| == |list| && (forall x :: x in cells ==> DATA_START_BLK <= x < TOTAL_BLK_NUM)
    ensures Distinct(list) ==> Distinct(cells)
  {
    seq<uint16>(|list|, i requires 0 <= i < |list| => list[i] as int + DATA_START_BLK)
  }

  lemma ShiftedMember(list: seq<uint16>, n: int)
    requires InData(list)
    ensures n in Shifted(list) <==> n - DATA_START_BLK in list
  {
    if n - DATA_START_BLK in list {
      var i :| 0 <= i < |list| && list[i] == n - DATA_START_BLK;
      assert Shifted(list)[i] == n;
    }
  }

  /** Free blocks and owned blocks together are every managed block. */
  lemma BlocksConserved(list: seq<uint16>, owner: map<uint16, Place>, lo: nat)
    requires Accounted(list, owner, lo) && Distinct(list) && lo <= DATA_BLK_NUM
    ensures |list| + |owner| == DATA_BLK_NUM - lo
  {
    DistinctCard(list);
    var free := set x: int | x in list;
    var owned: set<int> := owner.Keys;
    forall b ensures b in free || b in owned <==> b in Interval(lo, DATA_BLK_NUM) {
      assert 0 <= b < 0x1_0000 ==> (b in owner || b in list <==> lo <= b < DATA_BLK_NUM);
    }
    forall b ensures !(b in free && b in owned) {
    }
    hide Accounted, Distinct;
    TwoParts(free, owned, lo, DATA_BLK_NUM);
  }

  lemma TwoParts(x: set<int>, y: set<int>, lo: nat, hi: nat)
    requires lo <= hi && (forall n :: n in x || n in y <==> n in Interval(lo, hi)) && forall n :: !(n in x && n in y)
    ensures |x| + |y| == hi - lo
  {
    assert x + y == Interval(lo, hi);
    assert x * y == {};
  }
}
