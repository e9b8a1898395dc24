/** What the grouped free list promises its callers: it is a faithful stack, its two operations undo
    each other, and no run of allocations, releases and overwrites of allocated blocks hands out a
    block twice. */
module FreeListLaws {
  import opened Bytes
  import opened BlockDevices
  import opened FreeLists
  import FormatLists

  // ---------- the representation is a function of the state ----------

  lemma {:induction false} ChainUnique(d: Image, link: uint16, c1: seq<uint16>, c2: seq<uint16>)
    requires Chained(d, link, c1) && Chained(d, link, c2)
    ensures c1 == c2
    decreases |c1|
  {
    if c1 != [] && c2 != [] {
      ChainUnique(d, GroupStack(d, link)[0], c1[1..], c2[1..]);
      assert c1 == [link] + c1[1..] && c2 == [link] + c2[1..];
    }
  }

  /** A state stands for at most one list. */
  lemma RepresentationUnique(fl: FreeList, c1: seq<uint16>, l1: seq<uint16>, c2: seq<uint16>, l2: seq<uint16>)
    requires Represents(fl, c1, l1) && Represents(fl, c2, l2)
    ensures c1 == c2 && l1 == l2
  {
    if fl.nfree > 0 {
      ChainUnique(fl.disk, fl.free[0], c1, c2);
    }
  }

  // ---------- the two operations undo each other ----------

  /** Two states with the same live stack entries, count and link chain. */
  ghost predicate SameLive(x: FreeList, y: FreeList) {
    && |x.free| == |y.free| == NICFREE
    && x.nfree == y.nfree <= NICFREE
    && x.total == y.total
    && x.free[..x.nfree] == y.free[..y.nfree]
  }

  /** Freeing b and allocating again returns b and restores the live stack and the chain; the only
      block that may have changed is b itself. */
  lemma ReleaseThenAllocate(fl: FreeList, chain: seq<uint16>, list: seq<uint16>, b: uint16)
    requires Represents(fl, chain, list)
    requires 0 < b < DATA_BLK_NUM && b !in list && fl.nfree >= 1
    ensures Sound(fl) && Sound(Release(fl, b))
    ensures var (fl2, b2) := Allocate(Release(fl, b));
            && b2 == b
            && SameLive(fl2, fl)
            && Represents(fl2, chain, list)
    ensures forall c :: 0 <= c < DATA_BLK_NUM && c != b ==> DataBlock(Release(fl, b).disk, c) == DataBlock(fl.disk, c)
  {
    var chain1 := ReleasePushes(fl, chain, list, b);
    var chain2 := AllocatePops(Release(fl, b), chain1, [b] + list);
    assert ([b] + list)[1..] == list;
    assert chain2 == chain;
    PigeonHole(list, 1, DATA_BLK_NUM);
    hide Represents, GroupBlock, SetDataBlock;
    RestoredAfterRelease(fl, b);
  }

  lemma RestoredAfterRelease(fl: FreeList, b: uint16)
    requires Sound(fl) && fl.nfree >= 1 && fl.total < 0xFFFF
    requires 0 < b < DATA_BLK_NUM && Sound(Release(fl, b))
    ensures SameLive(Allocate(Release(fl, b)).0, fl)
  {
    hide GroupBlock;
    if fl.nfree == NICFREE {
      ReleasedGroup(fl.disk, b, fl.free);
    }
  }

  /** A successful allocation followed by freeing its result restores the list, the live stack and
      the chain. */
  lemma AllocateThenRelease(fl: FreeList, chain: seq<uint16>, list: seq<uint16>)
    requires Represents(fl, chain, list) && list != []
    ensures Sound(fl) && Sound(Allocate(fl).0) && Allocate(fl).1 < DATA_BLK_NUM
    ensures var fl2 := Release(Allocate(fl).0, Allocate(fl).1);
            && SameLive(fl2, fl)
            && Represents(fl2, chain, list)
  {
    var chain1 := AllocatePops(fl, chain, list);
    var fl1, b := Allocate(fl).0, Allocate(fl).1;
    assert list == [b] + list[1..];
    var chain2 := ReleasePushes(fl1, chain1, list[1..], b);
    EmptyWhen(fl, chain, list);
    assert chain2 == chain;
    assert fl.nfree == 1 ==> GroupCount(fl.disk, fl.free[0]) == NICFREE;
    hide Represents, GroupBlock, SetDataBlock;
    RestoredAfterAllocate(fl);
  }

  lemma RestoredAfterAllocate(fl: FreeList)
    requires Sound(fl) && fl.nfree >= 1 && fl.total >= 1
    requires fl.nfree == 1 ==> fl.free[0] != END_OF_CHAIN && GroupCount(fl.disk, fl.free[0]) == NICFREE
    requires Allocate(fl).1 < DATA_BLK_NUM && Sound(Allocate(fl).0)
    ensures SameLive(Release(Allocate(fl).0, Allocate(fl).1), fl)
  {
    hide GroupBlock, SetDataBlock, GroupStack;
  }

  // ---------- when a release is safe ----------

  /** A release leaves a meaningful free list exactly when the stack still holds its link slot.  The
      count drops to 0 when an allocation fails, and then the freed block lands in the link slot. */
  lemma ReleaseSafeIff(fl: FreeList, chain: seq<uint16>, list: seq<uint16>, b: uint16)
    requires Represents(fl, chain, list)
    requires 0 < b < DATA_BLK_NUM && b !in list
    ensures Sound(fl)
    ensures (exists c, l :: Represents(Release(fl, b), c, l)) <==> fl.nfree >= 1
  {
    RepresentedIsSound(fl, chain, list);
    if fl.nfree >= 1 {
      var c := ReleasePushes(fl, chain, list, b);
    } else {
      var fl' := Release(fl, b);
      forall c, l | Represents(fl', c, l) ensures false {
        ChainInList(fl', c, l);
      }
    }
  }

  /** One release after another. */
  ghost function ReleaseAll(fl: FreeList, bs: seq<uint16>): FreeList
    requires |fl.free| == NICFREE && fl.nfree <= NICFREE && InData(bs)
    decreases |bs|
  {
    if bs == [] then fl else ReleaseAll(Release(fl, bs[0]), bs[1..])
  }

  /** The stack, the chain behind it and the list they spell, without regard to the free count. */
  ghost predicate Spells(fl: FreeList, c: seq<uint16>, l: seq<uint16>) {
    && |fl.free| == NICFREE && 1 <= fl.nfree <= NICFREE && InData(c) && InData(l) && Distinct(l)
    && Chained(fl.disk, fl.free[0], c) && l == Listing(fl, c)
  }

  /** Whatever list the stack might spell is longer than the free count says. */
  ghost predicate Overlong(fl: FreeList) {
    && |fl.free| == NICFREE && 1 <= fl.nfree <= NICFREE
    && forall c, l :: Spells(fl, c, l) ==> |l| > fl.total as int
  }

  /** The stack and the disk stand for some free list. */
  ghost predicate Meaningful(fl: FreeList) {
    exists chain, list :: Represents(fl, chain, list)
  }

  lemma Means(fl: FreeList, chain: seq<uint16>, list: seq<uint16>)
    requires Represents(fl, chain, list)
    ensures Meaningful(fl) && |fl.free| == NICFREE && fl.nfree <= NICFREE && (fl.nfree == 0 ==> fl.total == 0)
  {
  }

  lemma OverlongIsMeaningless(fl: FreeList)
    requires Overlong(fl)
    ensures !Meaningful(fl)
  {
    forall c, l | Represents(fl, c, l) ensures false {
      assert Spells(fl, c, l);
    }
  }

  /** A block in the link slot counts as one free block and stands for at least fifty. */
  lemma FirstInLinkSlot(fl: FreeList, b: uint16)
    requires |fl.free| == NICFREE && fl.nfree == 0 && fl.total == 0 && 0 < b < DATA_BLK_NUM
    ensures Overlong(Release(fl, b)) && Release(fl, b).total == 1
  {
    AloneInLinkSlot(Release(fl, b), b);
  }

  lemma AloneInLinkSlot(fl: FreeList, b: uint16)
    requires |fl.free| == NICFREE && fl.nfree == 1 && fl.total == 1 && fl.free[0] == b && b != END_OF_CHAIN
    ensures Overlong(fl)
  {
    forall c, l | Spells(fl, c, l) ensures |l| > 1 {
      ChainFreeFacts(fl.disk, c);
    }
  }

  lemma StackBounds(fl: FreeList)
    requires Overlong(fl)
    ensures |fl.free| == NICFREE && 1 <= fl.nfree <= NICFREE
  {
  }

  /** No later release makes up for it. */
  lemma StaysOverlong(fl: FreeList, b: uint16)
    requires Overlong(fl) && 0 < b < DATA_BLK_NUM && fl.total < 0xFFFF
    ensures Overlong(Release(fl, b)) && Release(fl, b).total == fl.total + 1
  {
    hide Overlong, Spells;
    StackBounds(fl);
    forall c, l | Spells(Release(fl, b), c, l) ensures |l| > fl.total as int + 1 {
      var c0 := SpelledBefore(fl, b, c, l);
      LongerThanCounted(fl, c0, l[1..]);
    }
    ReleasedOverlong(fl, b);
  }

  lemma LongerThanCounted(fl: FreeList, c: seq<uint16>, l: seq<uint16>)
    requires Overlong(fl) && Spells(fl, c, l)
    ensures |l| > fl.total as int
  {
  }

  lemma ReleasedOverlong(fl: FreeList, b: uint16)
    requires |fl.free| == NICFREE && 1 <= fl.nfree <= NICFREE && b < DATA_BLK_NUM && fl.total < 0xFFFF
    requires forall c, l :: Spells(Release(fl, b), c, l) ==> |l| > fl.total as int + 1
    ensures Overlong(Release(fl, b)) && Release(fl, b).total == fl.total + 1
  {
    hide Spells, SetDataBlock, GroupBlock;
  }

  /** What the stack spells after a release, it spelled before without the released block. */
  lemma SpelledBefore(fl: FreeList, b: uint16, c: seq<uint16>, l: seq<uint16>) returns (c0: seq<uint16>)
    requires |fl.free| == NICFREE && 1 <= fl.nfree <= NICFREE && 0 < b < DATA_BLK_NUM && Spells(Release(fl, b), c, l)
    ensures |l| >= 1 && Spells(fl, c0, l[1..])
  {
    if fl.nfree < NICFREE {
      c0 := c;
      SpelledOnStack(fl, Release(fl, b), b, c, l);
    } else {
      c0 := c[1..];
      SpelledInGroup(fl, Release(fl, b), b, c, l);
    }
  }

  lemma SpelledOnStack(fl: FreeList, fl': FreeList, b: uint16, c: seq<uint16>, l: seq<uint16>)
    requires |fl.free| == NICFREE && 1 <= fl.nfree < NICFREE && b < DATA_BLK_NUM && fl' == Release(fl, b)
    requires Spells(fl', c, l)
    ensures |l| >= 1 && Spells(fl, c, l[1..])
  {
    hide ChainFree, Reverse, Chained, GroupBlock, SetDataBlock;
    var n := fl.nfree;
    assert fl'.free[1..n + 1] == fl.free[1..n] + [b];
    ReverseSnoc(fl.free[1..n], b);
    assert l == [b] + Listing(fl, c);
    DistinctTail(l);
  }

  lemma SpelledInGroup(fl: FreeList, fl': FreeList, b: uint16, c: seq<uint16>, l: seq<uint16>)
    requires |fl.free| == NICFREE == fl.nfree as int && 0 < b < DATA_BLK_NUM && fl' == Release(fl, b)
    requires Spells(fl', c, l)
    ensures |c| >= 1 && |l| >= 1 && Spells(fl, c[1..], l[1..])
  {
    ReleasedGroup(fl.disk, b, fl.free);
    assert fl'.nfree == 1 && fl'.free[0] == b && fl'.disk == SetDataBlock(fl.disk, b, GroupBlock(fl.free));
    hide GroupBlock, SetDataBlock, GroupStack, GroupCount, Distinct, InData;
    FirstGroup(fl', b, fl.free, c, l);
    hide Chained, ChainFree, Reverse;
    OnlyAtTheFront(fl'.disk, b, fl.free, c[1..], l);
    DistinctTail(l);
    ChainFrame(fl'.disk, fl.disk, fl.free[0], c[1..]);
    assert fl.free[1..NICFREE] == fl.free[1..];
  }

  /** With nothing above the link, the list starts with the first group. */
  lemma FirstGroup(fl: FreeList, b: uint16, stack: seq<uint16>, c: seq<uint16>, l: seq<uint16>)
    requires Spells(fl, c, l) && fl.nfree == 1 && fl.free[0] == b && 0 < b < DATA_BLK_NUM
    requires |stack| == NICFREE && GroupStack(fl.disk, b) == stack
    ensures |c| >= 1 && InData(c[1..]) && Chained(fl.disk, stack[0], c[1..])
    ensures l == [b] + (Reverse(stack[1..]) + ChainFree(fl.disk, c[1..]))
  {
    hide GroupStack, GroupCount, Distinct, Reverse;
    ReverseEmpty(fl.free[1..1]);
    DistinctTail(c);
    Regroup(b, Reverse(stack[1..]), ChainFree(fl.disk, c[1..]));
  }

  lemma OnlyAtTheFront(d: Image, b: uint16, stack: seq<uint16>, rest: seq<uint16>, l: seq<uint16>)
    requires InData(rest) && Distinct(l) && |stack| == NICFREE
    requires l == [b] + (Reverse(stack[1..]) + ChainFree(d, rest))
    ensures |l| >= 1 && l[1..] == Reverse(stack[1..]) + ChainFree(d, rest) && b !in rest
  {
    hide Reverse, ChainFree;
    ChainFreeFacts(d, rest);
    forall x | x in ChainFree(d, rest) ensures x != b {
      var i :| 0 <= i < |ChainFree(d, rest)| && ChainFree(d, rest)[i] == x;
      assert l[0] == b && l[1 + |Reverse(stack[1..])| + i] == x;
    }
  }

  lemma {:induction false} RunStaysOverlong(fl: FreeList, bs: seq<uint16>)
    requires Overlong(fl) && InData(bs) && fl.total as int + |bs| <= 0xFFFF
    ensures |fl.free| == NICFREE && fl.nfree <= NICFREE && Overlong(ReleaseAll(fl, bs))
    decreases |bs|
  {
    hide Overlong;
    StackBounds(fl);
    if bs != [] {
      StaysOverlong(fl, bs[0]);
      RunStaysOverlong(Release(fl, bs[0]), bs[1..]);
    }
  }

  /** Releasing any number of held blocks, as truncation does, leaves a meaningful free list exactly when there is
      nothing to release or the stack still holds its link slot. */
  lemma {:induction false} ReleaseAllSafeIff(fl: FreeList, chain: seq<uint16>, list: seq<uint16>, bs: seq<uint16>)
    requires Represents(fl, chain, list) && InData(bs) && Distinct(bs) && forall b :: b in bs ==> b !in list
    ensures |fl.free| == NICFREE && fl.nfree <= NICFREE
    ensures Meaningful(ReleaseAll(fl, bs)) <==> fl.nfree >= 1 || bs == []
    decreases |bs|
  {
    hide Represents, Release, Overlong, Meaningful, Sound;
    Means(fl, chain, list);
    if bs != [] {
      var b, rest, fl' := bs[0], bs[1..], Release(fl, bs[0]);
      assert forall i :: 1 <= i < |bs| ==> bs[i] != b;
      assert b in bs && forall x :: x in rest ==> x in bs && x != b;
      if fl.nfree >= 1 {
        var c := ReleasePushes(fl, chain, list, b);
        ReleaseAllSafeIff(fl', c, [b] + list, rest);
      } else {
        PigeonHole(bs, 1, DATA_BLK_NUM);
        FirstInLinkSlot(fl, b);
        RunStaysOverlong(fl', rest);
        OverlongIsMeaningless(ReleaseAll(fl, bs));
      }
    }
  }

  /** A concrete failure: the disk fills up, an allocation fails, and a block that holds file text is
      freed.  The next allocation would take the text for a group of 0x6161 entries. */
  lemma StaleLink(fl: FreeList, b: uint16)
    requires Represents(fl, [], []) && fl.nfree == 1
    requires 0 < b < DATA_BLK_NUM && DataBlock(fl.disk, b)[..2] == [0x61, 0x61]
    ensures Sound(fl) && Sound(Allocate(fl).0)
    ensures Allocate(fl).1 == INVALID_BLK
    ensures !Sound(Release(Allocate(fl).0, b))
    ensures GroupCount(fl.disk, b) == 0x6161
  {
    assert DataBlock(fl.disk, b)[0] == 0x61 && DataBlock(fl.disk, b)[1] == 0x61;
  }

  // ---------- every run ----------

  /** The allocator together with the blocks its callers hold. */
  datatype System = System(fl: FreeList, held: set<uint16>)

  datatype Op = Alloc | Free(b: uint16) | Write(b: uint16, blk: Block)

  /** One step.  Callers free or overwrite only blocks they hold, and free only while the stack holds
      its link slot. */
  ghost predicate Step(s: System, op: Op, s': System) {
    match op
    case Alloc =>
      && Sound(s.fl)
      && s' == System(Allocate(s.fl).0, if Allocate(s.fl).1 == INVALID_BLK then s.held else s.held + {Allocate(s.fl).1})
    case Free(b) =>
      && b in s.held && b < DATA_BLK_NUM && Sound(s.fl) && s.fl.nfree >= 1
      && s' == System(Release(s.fl, b), s.held - {b})
    case Write(b, blk) =>
      && b in s.held && b < DATA_BLK_NUM
      && s' == System(s.fl.(disk := SetDataBlock(s.fl.disk, b, blk)), s.held)
  }

  ghost predicate Run(ss: seq<System>, ops: seq<Op>) {
    && |ss| == |ops| + 1
    && forall i :: 0 <= i < |ops| ==> Step(ss[i], ops[i], ss[i + 1])
  }

  /** Every block from r up is either on the free list or held, never both, and no other block is. */
  ghost predicate Split(list: seq<uint16>, held: set<uint16>, r: nat) {
    && (forall b :: b in held ==> b !in list)
    && (forall b: uint16 :: b in list || b in held <==> r <= b < DATA_BLK_NUM)
  }

  ghost predicate Safe(s: System, r: nat) {
    exists chain, list :: Represents(s.fl, chain, list) && Split(list, s.held, r)
  }

  /** The state format leaves behind is where safe runs begin: nothing is held. */
  lemma FormattedIsSafe(fl: FreeList, chain: seq<uint16>, list: seq<uint16>, r: nat)
    requires Represents(fl, chain, list) && FormatLists.Covers(list, r, DATA_BLK_NUM)
    ensures Safe(System(fl, {}), r)
  {
    hide Represents;
    assert Split(list, {}, r);
  }

  lemma AllocSafe(s: System, s': System, r: nat)
    requires r >= 1 && Safe(s, r) && Step(s, Alloc, s')
    ensures Safe(s', r)
  {
    var chain, list :| Represents(s.fl, chain, list) && Split(list, s.held, r);
    var chain' := AllocatePops(s.fl, chain, list);
    if list != [] {
      SplitAlloc(list, s.held, r);
      hide Represents, Split;
      assert Represents(s'.fl, chain', list[1..]) && Split(list[1..], s'.held, r);
    } else {
      hide Represents, Split;
      assert Represents(s'.fl, chain', list) && Split(list, s'.held, r);
    }
  }

  lemma FreeSafe(s: System, b: uint16, s': System, r: nat)
    requires r >= 1 && Safe(s, r) && Step(s, Free(b), s')
    ensures Safe(s', r)
  {
    var chain, list :| Represents(s.fl, chain, list) && Split(list, s.held, r);
    var chain' := ReleasePushes(s.fl, chain, list, b);
    SplitFree(list, s.held, r, b);
    hide Represents, Split;
    assert Represents(s'.fl, chain', [b] + list) && Split([b] + list, s'.held, r);
  }

  lemma WriteSafe(s: System, b: uint16, blk: Block, s': System, r: nat)
    requires r >= 1 && Safe(s, r) && Step(s, Write(b, blk), s')
    ensures Safe(s', r)
  {
    var chain, list :| Represents(s.fl, chain, list) && Split(list, s.held, r);
    RepresentsFrame(s.fl, chain, list, s'.fl.disk);
    hide Represents, Split;
    assert Represents(s'.fl, chain, list) && Split(list, s'.held, r);
  }

  lemma StepSafe(s: System, op: Op, s': System, r: nat)
    requires r >= 1 && Safe(s, r) && Step(s, op, s')
    ensures Safe(s', r)
  {
    hide Safe, Step;
    match op
    case Alloc => AllocSafe(s, s', r);
    case Free(b) => FreeSafe(s, b, s', r);
    case Write(b, blk) => WriteSafe(s, b, blk, s', r);
  }

  lemma SplitAlloc(list: seq<uint16>, held: set<uint16>, r: nat)
    requires list != [] && Distinct(list) && InData(list) && Split(list, held, r)
    ensures list[0] != INVALID_BLK && Split(list[1..], held + {list[0]}, r)
  {
    assert forall b :: b in list <==> b == list[0] || b in list[1..];
  }

  lemma SplitFree(list: seq<uint16>, held: set<uint16>, r: nat, b: uint16)
    requires b in held && Split(list, held, r)
    ensures Split([b] + list, held - {b}, r)
  {
    assert forall c :: c in [b] + list <==> c == b || c in list;
  }

  /** What the next allocation does in a safe state: it fails exactly when every managed block is
      held, and otherwise returns a managed block nobody holds. */
  lemma SafeAllocate(s: System, r: nat)
    requires 1 <= r <= DATA_BLK_NUM && Safe(s, r)
    ensures Sound(s.fl)
    ensures |s.held| + s.fl.total == DATA_BLK_NUM - r
    ensures var b := Allocate(s.fl).1;
            && (b == INVALID_BLK <==> |s.held| == DATA_BLK_NUM - r)
            && (b != INVALID_BLK ==> r <= b < DATA_BLK_NUM && b !in s.held)
  {
    var chain, list :| Represents(s.fl, chain, list) && Split(list, s.held, r);
    var chain' := AllocatePops(s.fl, chain, list);
    SplitCount(list, s.held, r);
    if list != [] {
      assert list[0] in list;
    }
  }

  lemma SplitCount(list: seq<uint16>, held: set<uint16>, r: nat)
    requires r <= DATA_BLK_NUM && Distinct(list) && Split(list, held, r)
    ensures |held| + |list| == DATA_BLK_NUM - r
  {
    DistinctCard(list);
    var l := set x: int | x in list;
    var h: set<int> := held;
    assert l + h == Interval(r, DATA_BLK_NUM);
    assert l * h == {};
  }

  /** The main result for runs: from a freshly formatted disk no run ever hands out a reserved,
      out-of-range or still-allocated block, allocation fails exactly when nothing is free, the stack
      never outgrows its array, and no step reads a malformed group. */
  lemma {:induction false} RunSafe(ss: seq<System>, ops: seq<Op>, r: nat)
    requires 1 <= r <= DATA_BLK_NUM && Run(ss, ops) && Safe(ss[0], r)
    ensures forall i :: 0 <= i < |ss| ==> Safe(ss[i], r) && Sound(ss[i].fl) && ss[i].fl.nfree <= NICFREE
    ensures forall i :: 0 <= i < |ss| ==>
              var b := Allocate(ss[i].fl).1;
              && (b == INVALID_BLK <==> |ss[i].held| == DATA_BLK_NUM - r)
              && (b != INVALID_BLK ==> r <= b < DATA_BLK_NUM && b !in ss[i].held)
  {
    for i := 0 to |ops|
      invariant forall j :: 0 <= j <= i ==> Safe(ss[j], r)
    {
      StepSafe(ss[i], ops[i], ss[i + 1], r);
    }
    forall i | 0 <= i < |ss| ensures Sound(ss[i].fl) && ss[i].fl.nfree <= NICFREE {
      SafeAllocate(ss[i], r);
    }
    forall i | 0 <= i < |ss|
      ensures var b := Allocate(ss[i].fl).1;
              && (b == INVALID_BLK <==> |ss[i].held| == DATA_BLK_NUM - r)
              && (b != INVALID_BLK ==> r <= b < DATA_BLK_NUM && b !in ss[i].held)
    {
      SafeAllocate(ss[i], r);
    }
  }

  /** Draining: k allocations in a row yield exactly min(k, managed blocks) distinct blocks. */
  lemma {:induction false} DrainYieldsAll(ss: seq<System>, ops: seq<Op>, r: nat)
    requires 1 <= r <= DATA_BLK_NUM && Run(ss, ops) && Safe(ss[0], r) && ss[0].held == {}
    requires forall i :: 0 <= i < |ops| ==> ops[i] == Alloc
    ensures |ss[|ops|].held| == if |ops| <= DATA_BLK_NUM - r then |ops| else DATA_BLK_NUM - r
  {
    RunSafe(ss, ops, r);
    for i := 0 to |ops|
      invariant |ss[i].held| == if i <= DATA_BLK_NUM - r then i else DATA_BLK_NUM - r
    {
      assert Step(ss[i], ops[i], ss[i + 1]);
    }
  }
}
