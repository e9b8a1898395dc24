/** The grouped free-block list.

    The super block holds a small stack whose slot 0 is a link to a group; a group lives inside one
    of the free blocks and holds a saved stack.  Seen from outside, the whole structure is one
    last-in-first-out list: `Represents` ties the concrete fields and the disk to that list. */
module FreeLists {
  import opened Bytes
  import opened BlockDevices

  const NICFREE := 50
  const INVALID_BLK: uint16 := 0xFFFF
  const END_OF_CHAIN: uint16 := 0

  /** The part of the super block that manages data blocks, and the disk the groups live on. */
  datatype FreeList = FreeList(nfree: uint16, free: seq<uint16>, total: uint16, disk: Image)

  function DataBlock(d: Image, b: nat): Block
    requires b < DATA_BLK_NUM
  {
    d[DATA_START_BLK + b]
  }

  function SetDataBlock(d: Image, b: nat, blk: Block): (d': Image)
    requires b < DATA_BLK_NUM
    ensures forall c {:trigger DataBlock(d', c)} :: 0 <= c < DATA_BLK_NUM ==>
              DataBlock(d', c) == if c == b then blk else DataBlock(d, c)
    ensures d'[..DATA_START_BLK] == d[..DATA_START_BLK]
  {
    d[DATA_START_BLK + b := blk]
  }

  function GroupCount(d: Image, b: nat): uint16
    requires b < DATA_BLK_NUM
  {
    WordAt(DataBlock(d, b), 0)
  }

  function GroupStack(d: Image, b: nat): seq<uint16>
    requires b < DATA_BLK_NUM
  {
    Words(DataBlock(d, b), 1, NICFREE)
  }

  // ---------- the two operations, as the code performs them ----------

  /** What the code relies on before it indexes with numbers it read from the disk. */
  predicate Sound(fl: FreeList) {
    && |fl.free| == NICFREE
    && fl.nfree <= NICFREE
    && (fl.nfree == 1 && fl.free[0] != END_OF_CHAIN ==>
          fl.free[0] < DATA_BLK_NUM && GroupCount(fl.disk, fl.free[0]) <= NICFREE)
  }

  function Allocate(fl: FreeList): (FreeList, uint16)
    requires Sound(fl)
  {
    if fl.nfree == 0 then
      (fl, INVALID_BLK)
    else if fl.nfree == 1 then
      var link := fl.free[0];
      if link == END_OF_CHAIN then
        (fl.(nfree := 0), INVALID_BLK)
      else
        var n := GroupCount(fl.disk, link);
        (fl.(nfree := n, free := GroupStack(fl.disk, link)[..n] + fl.free[n..],
             total := (fl.total - 1) % 0x1_0000), link)
    else
      (fl.(nfree := fl.nfree - 1, total := (fl.total - 1) % 0x1_0000), fl.free[fl.nfree - 1])
  }

  /** The block `Release` writes when the stack is full. */
  function GroupBlock(stack: seq<uint16>): (blk: Block)
    requires |stack| == NICFREE
    ensures WordAt(blk, 0) == NICFREE
    ensures forall i :: 0 <= i < NICFREE ==> WordAt(blk, 1 + i) == stack[i]
  {
    FillGroup(stack, |stack|)
  }

  function FillGroup(stack: seq<uint16>, n: nat): (blk: Block)
    requires n <= |stack| == NICFREE
    ensures WordAt(blk, 0) == NICFREE
    ensures forall i :: 0 <= i < n ==> WordAt(blk, 1 + i) == stack[i]
  {
    if n == 0 then PutWord(ZERO_BLOCK, 0, NICFREE) else PutWord(FillGroup(stack, n - 1), n, stack[n - 1])
  }

  function Release(fl: FreeList, b: uint16): FreeList
    requires |fl.free| == NICFREE && fl.nfree <= NICFREE && b < DATA_BLK_NUM
  {
    var total := (fl.total + 1) % 0x1_0000;
    if fl.nfree == NICFREE then
      FreeList(1, fl.free[0 := b], total, SetDataBlock(fl.disk, b, GroupBlock(fl.free)))
    else
      fl.(nfree := fl.nfree + 1, free := fl.free[fl.nfree := b], total := total)
  }

  lemma SoundCount(fl: FreeList)
    requires Sound(fl)
    ensures |fl.free| == NICFREE && fl.nfree <= NICFREE
  {
  }

  /** A release touches no block but the one it frees. */
  lemma ReleaseFrame(fl: FreeList, b: uint16)
    requires Sound(fl) && b < DATA_BLK_NUM
    ensures forall n :: 0 <= n < TOTAL_BLK_NUM && n != DATA_START_BLK + b ==> Release(fl, b).disk[n] == fl.disk[n]
  {
  }

  // ---------- the list the structure stands for ----------

  ghost predicate InData(list: seq<uint16>) {
    forall i :: 0 <= i < |list| ==> 0 < list[i] < DATA_BLK_NUM
  }

  ghost predicate Chained(d: Image, link: uint16, chain: seq<uint16>)
    decreases |chain|
  {
    if chain == [] then
      link == END_OF_CHAIN
    else
      && link == chain[0]
      && 0 < link < DATA_BLK_NUM
      && GroupCount(d, link) == NICFREE
      && Chained(d, GroupStack(d, link)[0], chain[1..])
  }

  /** The blocks reachable through the links, in the order they would be handed out. */
  ghost function ChainFree(d: Image, chain: seq<uint16>): seq<uint16>
    requires InData(chain)
    decreases |chain|
  {
    if chain == [] then []
    else [chain[0]] + Reverse(GroupStack(d, chain[0])[1..]) + ChainFree(d, chain[1..])
  }

  /** Everything the structure would hand out, in order. */
  ghost function Listing(fl: FreeList, chain: seq<uint16>): seq<uint16>
    requires fl.nfree <= NICFREE == |fl.free| && InData(chain)
  {
    if fl.nfree == 0 then [] else Reverse(fl.free[1..fl.nfree]) + ChainFree(fl.disk, chain)
  }

  /** `chain` is the chain of group blocks, and `list` the free blocks in the order they come out. */
  ghost predicate Represents(fl: FreeList, chain: seq<uint16>, list: seq<uint16>) {
    && |fl.free| == NICFREE
    && fl.nfree <= NICFREE
    && fl.total == |list|
    && InData(chain) && InData(list) && Distinct(list)
    && (if fl.nfree == 0 then chain == [] else Chained(fl.disk, fl.free[0], chain))
    && list == Listing(fl, chain)
  }

  // ---------- framing ----------

  /** Writing a block that holds no group leaves the chain and the list alone. */
  lemma {:induction false} ChainFrame(d: Image, d': Image, link: uint16, chain: seq<uint16>)
    requires InData(chain) && Chained(d, link, chain)
    requires forall i :: 0 <= i < |chain| ==> DataBlock(d, chain[i]) == DataBlock(d', chain[i])
    ensures Chained(d', link, chain) && ChainFree(d', chain) == ChainFree(d, chain)
    decreases |chain|
  {
    if chain != [] {
      ChainFrame(d, d', GroupStack(d, link)[0], chain[1..]);
    }
  }

  lemma RepresentsFrame(fl: FreeList, chain: seq<uint16>, list: seq<uint16>, d': Image)
    requires Represents(fl, chain, list)
    requires forall i :: 0 <= i < |list| ==> DataBlock(fl.disk, list[i]) == DataBlock(d', list[i])
    ensures Represents(fl.(disk := d'), chain, list)
  {
    if fl.nfree > 0 {
      ChainInList(fl, chain, list);
      ChainFrame(fl.disk, d', fl.free[0], chain);
    }
  }

  /** Writing outside the data area cannot disturb the free list. */
  lemma MetadataFrame(fl: FreeList, chain: seq<uint16>, list: seq<uint16>, d': Image)
    requires Represents(fl, chain, list)
    requires forall n :: DATA_START_BLK <= n < TOTAL_BLK_NUM ==> fl.disk[n] == d'[n]
    ensures Represents(fl.(disk := d'), chain, list)
  {
    RepresentsFrame(fl, chain, list, d');
  }

  lemma {:induction false} ChainFreeFacts(d: Image, chain: seq<uint16>)
    requires InData(chain)
    ensures |ChainFree(d, chain)| == NICFREE * |chain|
    ensures forall i {:trigger chain[i]} :: 0 <= i < |chain| ==> chain[i] in ChainFree(d, chain)
    decreases |chain|
  {
    if chain != [] {
      ChainFreeFacts(d, chain[1..]);
      forall i | 0 <= i < |chain| ensures chain[i] in ChainFree(d, chain) {
        assert i > 0 ==> chain[i] == chain[1..][i - 1];
      }
    }
  }

  lemma ChainInList(fl: FreeList, chain: seq<uint16>, list: seq<uint16>)
    requires Represents(fl, chain, list)
    ensures forall i {:trigger chain[i]} :: 0 <= i < |chain| ==> chain[i] in list
    ensures NICFREE * |chain| <= |list|
  {
    ChainFreeFacts(fl.disk, chain);
  }

  lemma ChainCons(d: Image, b: uint16, chain: seq<uint16>)
    requires InData(chain) && 0 < b < DATA_BLK_NUM
    ensures InData([b] + chain)
    ensures ChainFree(d, [b] + chain) == [b] + Reverse(GroupStack(d, b)[1..]) + ChainFree(d, chain)
    ensures GroupCount(d, b) == NICFREE && Chained(d, GroupStack(d, b)[0], chain) ==> Chained(d, b, [b] + chain)
  {
    assert ([b] + chain)[1..] == chain;
  }

  // ---------- the structure is a stack ----------

  lemma RepresentedIsSound(fl: FreeList, chain: seq<uint16>, list: seq<uint16>)
    requires Represents(fl, chain, list)
    ensures Sound(fl)
  {
  }

  lemma DistinctTail(list: seq<uint16>)
    requires list != [] && InData(list)
    ensures InData(list[1..])
    ensures Distinct(list) ==> Distinct(list[1..])
  {
  }

  lemma DistinctCons(b: uint16, list: seq<uint16>)
    requires 0 < b < DATA_BLK_NUM && b !in list && Distinct(list) && InData(list)
    ensures Distinct([b] + list) && InData([b] + list)
  {
  }

  lemma EmptyWhen(fl: FreeList, chain: seq<uint16>, list: seq<uint16>)
    requires Represents(fl, chain, list)
    ensures list == [] <==> fl.nfree == 0 || (fl.nfree == 1 && fl.free[0] == END_OF_CHAIN)
    ensures fl.nfree == 1 ==> (fl.free[0] == END_OF_CHAIN <==> chain == [])
  {
    if fl.nfree >= 1 {
      assert |Listing(fl, chain)| == (fl.nfree - 1) + |ChainFree(fl.disk, chain)|;
      ChainFreeFacts(fl.disk, chain);
    }
  }

  /** `Allocate` pops the list; it fails exactly when the list is empty. */
  lemma AllocatePops(fl: FreeList, chain: seq<uint16>, list: seq<uint16>) returns (chain': seq<uint16>)
    requires Represents(fl, chain, list)
    ensures chain' == if fl.nfree == 1 && chain != [] then chain[1..] else chain
    ensures Sound(fl)
    ensures Allocate(fl).0.disk == fl.disk
    ensures list == [] ==>
              Allocate(fl).1 == INVALID_BLK && Allocate(fl).0.nfree == 0 && Represents(Allocate(fl).0, chain', [])
    ensures list != [] ==>
              Allocate(fl).1 == list[0] && Allocate(fl).0.nfree >= 1 && Represents(Allocate(fl).0, chain', list[1..])
  {
    RepresentedIsSound(fl, chain, list);
    EmptyWhen(fl, chain, list);
    chain' := chain;
    if list == [] {
    } else if fl.nfree > 1 {
      AllocateFromStack(fl, Allocate(fl).0, chain, list);
    } else {
      chain' := chain[1..];
      AllocateFromChain(fl, Allocate(fl).0, chain, list);
    }
  }

  lemma AllocateFromStack(fl: FreeList, fl': FreeList, chain: seq<uint16>, list: seq<uint16>)
    requires Represents(fl, chain, list) && 1 < fl.nfree
    requires Sound(fl) && fl' == Allocate(fl).0
    ensures list != [] && list[0] == fl.free[fl.nfree - 1]
    ensures Represents(fl', chain, list[1..])
  {
    hide ChainFree, Reverse, Chained, Words;
    var n := fl.nfree;
    assert fl.free[1..n] == fl.free[1..n - 1] + [fl.free[n - 1]];
    ReverseSnoc(fl.free[1..n - 1], fl.free[n - 1]);
    assert list == [fl.free[n - 1]] + Listing(fl', chain);
    DistinctTail(list);
  }

  lemma AllocateFromChain(fl: FreeList, fl': FreeList, chain: seq<uint16>, list: seq<uint16>)
    requires Represents(fl, chain, list) && fl.nfree == 1 && chain != []
    requires Sound(fl) && fl' == Allocate(fl).0
    ensures list != [] && list[0] == fl.free[0] && fl'.nfree == NICFREE
    ensures Represents(fl', chain[1..], list[1..])
  {
    var stack := fl'.free;
    DistinctTail(list);
    DistinctTail(chain);
    hide Words, Reverse, Distinct, InData;
    assert stack == GroupStack(fl.disk, chain[0]);
    ReverseEmpty(fl.free[1..1]);
    assert stack[1..NICFREE] == stack[1..];
  }

  /** `Release` pushes, also when the saved stack overwrites the freed block. */
  lemma ReleasePushes(fl: FreeList, chain: seq<uint16>, list: seq<uint16>, b: uint16) returns (chain': seq<uint16>)
    requires Represents(fl, chain, list)
    requires 0 < b < DATA_BLK_NUM && b !in list && fl.nfree >= 1
    ensures Sound(fl)
    ensures Release(fl, b).nfree >= 1
    ensures chain' == if fl.nfree == NICFREE then [b] + chain else chain
    ensures Represents(Release(fl, b), chain', [b] + list)
  {
    RepresentedIsSound(fl, chain, list);
    PigeonHole(list, 1, DATA_BLK_NUM);
    ChainInList(fl, chain, list);
    if fl.nfree == NICFREE {
      chain' := [b] + chain;
      ReleaseToChain(fl, Release(fl, b), chain, list, b);
    } else {
      chain' := chain;
      ReleaseToStack(fl, Release(fl, b), chain, list, b);
    }
  }

  lemma ReleaseToStack(fl: FreeList, fl': FreeList, chain: seq<uint16>, list: seq<uint16>, b: uint16)
    requires Represents(fl, chain, list) && 1 <= fl.nfree < NICFREE && |list| < 0xFFFF
    requires 0 < b < DATA_BLK_NUM && b !in list
    requires Sound(fl) && fl' == Release(fl, b)
    ensures Represents(fl', chain, [b] + list)
  {
    hide ChainFree, Reverse, Chained, GroupBlock, SetDataBlock;
    var n := fl.nfree;
    assert fl'.free[1..n + 1] == fl.free[1..n] + [b];
    ReverseSnoc(fl.free[1..n], b);
    assert [b] + Reverse(fl.free[1..n]) + ChainFree(fl.disk, chain) ==
      [b] + (Reverse(fl.free[1..n]) + ChainFree(fl.disk, chain));
    assert Listing(fl', chain) == [b] + list;
    DistinctCons(b, list);
    hide Listing, Distinct, InData;
  }

  lemma ReleasedGroup(d: Image, b: uint16, stack: seq<uint16>)
    requires |stack| == NICFREE && b < DATA_BLK_NUM
    ensures var d' := SetDataBlock(d, b, GroupBlock(stack));
            GroupStack(d', b) == stack && GroupCount(d', b) == NICFREE
  {
    hide GroupBlock;
  }

  /** Saving `stack` into block b puts b at the front of the chain. */
  lemma ChainGrows(d: Image, stack: seq<uint16>, chain: seq<uint16>, b: uint16)
    requires |stack| == NICFREE && 0 < b < DATA_BLK_NUM && b !in chain
    requires InData(chain) && Chained(d, stack[0], chain)
    ensures var d' := SetDataBlock(d, b, GroupBlock(stack));
            && InData([b] + chain)
            && Chained(d', b, [b] + chain)
            && ChainFree(d', [b] + chain) == [b] + Reverse(stack[1..]) + ChainFree(d, chain)
  {
    var d' := SetDataBlock(d, b, GroupBlock(stack));
    ReleasedGroup(d, b, stack);
    hide Chained, ChainFree, GroupBlock, SetDataBlock, GroupStack, GroupCount;
    ChainFrame(d, d', stack[0], chain);
    ChainCons(d', b, chain);
  }

  lemma Regroup(b: uint16, xs: seq<uint16>, ys: seq<uint16>)
    ensures [] + ([b] + xs + ys) == [b] + (xs + ys)
  {
  }

  lemma ReleaseToChain(fl: FreeList, fl': FreeList, chain: seq<uint16>, list: seq<uint16>, b: uint16)
    requires Represents(fl, chain, list) && fl.nfree == NICFREE && |list| < 0xFFFF
    requires 0 < b < DATA_BLK_NUM && b !in list && b !in chain
    requires Sound(fl) && fl' == Release(fl, b)
    ensures Represents(fl', [b] + chain, [b] + list)
  {
    ChainGrows(fl.disk, fl.free, chain, b);
    DistinctCons(b, list);
    hide Chained, ChainFree, GroupBlock, SetDataBlock, Distinct, InData, Reverse;
    assert fl.free[1..NICFREE] == fl.free[1..];
    ReverseEmpty(fl'.free[1..1]);
    Regroup(b, Reverse(fl.free[1..]), ChainFree(fl.disk, chain));
  }

  ghost function Interval(lo: nat, hi: nat): (s: set<int>)
    requires lo <= hi
    ensures |s| == hi - lo && forall x :: x in s <==> lo <= x < hi
    decreases hi - lo
  {
    if lo == hi then {} else Interval(lo + 1, hi) + {lo}
  }

  /** Distinct numbers from an interval are no more than the interval. */
  lemma PigeonHole(s: seq<uint16>, lo: nat, hi: nat)
    requires lo <= hi <= 0x1_0000
    requires Distinct(s) && forall x :: x in s ==> lo <= x < hi
    ensures |s| <= hi - lo
    ensures |s| == hi - lo <==> forall x: uint16 :: lo <= x < hi ==> x in s
  {
    DistinctCard(s);
    var elems := set x: int | x in s;
    SubsetCard(elems, Interval(lo, hi));
    if forall x: uint16 :: lo <= x < hi ==> x in s {
      assert forall x :: x in Interval(lo, hi) ==> x in elems;
      assert elems == Interval(lo, hi);
    }
    if |s| == hi - lo {
      forall x: uint16 | lo <= x < hi ensures x in s {
        assert x in Interval(lo, hi);
      }
    }
  }

  lemma SubsetCard(a: set<int>, b: set<int>)
    requires a <= b
    ensures |a| <= |b|
    ensures |a| == |b| ==> a == b
  {
    assert b == a + (b - a);
  }

  lemma {:induction false} DistinctCard(s: seq<uint16>)
    requires Distinct(s)
    ensures |set x: int | x in s| == |s|
  {
    if s != [] {
      DistinctCard(s[1..]);
      assert (set x: int | x in s) == (set x: int | x in s[1..]) + {s[0]};
    }
  }
}
