/** Which inode numbers are in use: every managed number is either on the super block's stack or live. */
module InodeLives {
  import opened Bytes
  import opened BlockDevices
  import opened FreeLists
  import opened SuperImages
  import opened InodeTrees
  import opened InodeWalks
  import opened DiskInodes
  import opened InodeCaches
  import opened InodeViews

  /** What an inode that is not live looks like: no blocks, no links, no type and no bytes. */
  ghost predicate Cleared(di: DInode) {
    NoBlocks(di.addr) && di.nlink == 0 && di.mode == 0 && di.size == 0
  }

  lemma ClearedNow(di: DInode)
    requires NoBlocks(di.addr) && di.nlink == 0 && di.mode == 0 && di.size == 0
    ensures Cleared(di)
  {
  }

  lemma DeadLeaf(di: DInode)
    requires Cleared(di)
    ensures di.nlink == 0 && di.size == 0 && di.mode == 0
  {
  }

  lemma OwnsNothing(di: DInode)
    requires Cleared(di)
    ensures NoBlocks(di.addr)
  {
  }

  ghost predicate LiveOk(stack: seq<uint16>, live: set<uint16>, slots: seq<Slot>, t: Table, base: nat, count: nat) {
    && base + count <= INODE_TOTAL && count <= NICINOD
    && Distinct(stack)
    && (forall x :: x in live ==> x !in stack)
    && (forall x: uint16 :: x in stack || x in live <==> base <= x < base + count)
    && (forall x: uint16 {:trigger Cached(slots, x)} :: x < INODE_TOTAL && Cached(slots, x) ==> x in live)
    && (forall x: uint16 {:trigger t[x]} :: x < INODE_TOTAL && x !in live ==> Cleared(t[x]))
    && (forall x {:trigger t[x]} :: x in live && x < INODE_TOTAL && t[x].nlink == 0 ==> Cached(slots, x))
  }

  /** Stack size plus live inodes is constant, so freeing a live inode always finds room. */
  lemma LiveCount(stack: seq<uint16>, live: set<uint16>, slots: seq<Slot>, t: Table, base: nat, count: nat)
    requires LiveOk(stack, live, slots, t, base, count)
    ensures |stack| + |live| == count
    ensures live != {} ==> |stack| < NICINOD
  {
    DistinctCard(stack);
    var s := set x: int | x in stack;
    var l: set<int> := live;
    assert s + l == Interval(base, base + count);
    assert s * l == {};
    assert live != {} ==> |l| > 0;
  }

  /** The cache never fills up: at most 50 inode numbers are managed, only live ones are cached, none twice, and
      there are 64 slots. */
  lemma SpareSlot(slots: seq<Slot>, stack: seq<uint16>, live: set<uint16>, t: Table, d: Image, base: nat, count: nat)
    requires CacheAndLife(slots, stack, live, t, d, base, count)
    ensures exists s :: 0 <= s < |slots| && slots[s].Empty?
  {
    if forall i :: 0 <= i < |slots| ==> slots[i].Held? {
      var inos := seq(|slots|, i requires 0 <= i < |slots| => slots[i].ino);
      forall i | 0 <= i < |inos| ensures inos[i] in live {
        HeldFacts(slots, stack, live, t, d, base, count, i);
      }
      LiveCount(stack, live, slots, t, base, count);
      hide LiveOk, Cached, DiskInode;
      DistinctCard(inos);
      SubsetCard((set x: int | x in inos), live);
      assert false;
    }
  }

  /** The super block's count of free inodes: all but the reserved numbers and the live ones. */
  ghost predicate Counted(total: uint16, live: set<uint16>, base: nat) {
    total + |live| == INODE_TOTAL - base
  }

  lemma CountedGone(total: uint16, live: set<uint16>, base: nat, ino: uint16)
    requires Counted(total, live, base) && ino in live
    ensures Counted((total + 1) % 0x1_0000, live - {ino}, base)
  {
    assert |live - {ino}| == |live| - 1;
  }

  lemma CountedMore(total: uint16, stack: seq<uint16>, live: set<uint16>, slots: seq<Slot>, t: Table, d: Image,
      base: nat,
      count: nat, ino: uint16)
    requires Counted(total, live, base) && CacheAndLife(slots, stack + [ino], live, t, d, base, count)
    ensures Counted((total - 1) % 0x1_0000, live + {ino}, base) && ((total - 1) % 0x1_0000 + 1) % 0x1_0000 == total
  {
    LiveCount(stack + [ino], live, slots, t, base, count);
    assert (stack + [ino])[|stack|] in stack + [ino];
    hide LiveOk;
    assert ino !in live ==> |live + {ino}| == |live| + 1;
  }

  /** The parts of the state that the cache must keep in step: slots, table, inode area and live set. */
  ghost predicate CacheAndLife(slots: seq<Slot>, stack: seq<uint16>, live: set<uint16>, t: Table, d: Image,
      base: nat, count: nat) {
    CacheOk(slots, t, d) && LiveOk(stack, live, slots, t, base, count)
  }

  /** The live set does not notice a change that keeps the same inodes cached and gives no block to an inode
      that is not live. */
  lemma LiveKept(stack: seq<uint16>, live: set<uint16>, slots: seq<Slot>, slots': seq<Slot>, t: Table, t': Table,
      base: nat, count: nat)
    requires LiveOk(stack, live, slots, t, base, count)
    requires forall ino {:trigger Cached(slots', ino)} :: 0 <= ino < INODE_TOTAL ==>
              (Cached(slots', ino) <==> Cached(slots, ino))
    requires forall ino {:trigger t'[ino]} :: 0 <= ino < INODE_TOTAL && t'[ino] != t[ino] ==> Cached(slots, ino)
    ensures LiveOk(stack, live, slots', t', base, count)
  {
    hide Cached;
  }

  /** Another reference to a cached inode, or one reference fewer that is not the last. */
  lemma CountKept(slots: seq<Slot>, stack: seq<uint16>, live: set<uint16>, t: Table, d: Image, base: nat, count: nat,
      s: nat, x: Slot)
    requires CacheAndLife(slots, stack, live, t, d, base, count) && s < |slots| && slots[s].Held?
    requires x.Held? && x.count >= 1 && x == slots[s].(count := x.count)
    ensures CacheAndLife(slots[s := x], stack, live, t, d, base, count)
  {
    HeldFacts(slots, stack, live, t, d, base, count, s);
    assert slots[s].dirty || x.dirty == slots[s].dirty;
    hide CacheOk, LiveOk, Cached;
    CacheModify(slots, t, d, s, x);
    assert t[x.ino := x.di] == t;
    forall ino | 0 <= ino < INODE_TOTAL ensures Cached(slots[s := x], ino) <==> Cached(slots, ino) {
      SameHolder(slots, s, x, ino);
    }
    LiveKept(stack, live, slots, slots[s := x], t, t, base, count);
  }

  lemma SameHolder(slots: seq<Slot>, s: nat, x: Slot, ino: nat)
    requires s < |slots| && slots[s].Held? && x.Held? && x.ino == slots[s].ino
    ensures Cached(slots[s := x], ino) <==> Cached(slots, ino)
  {
    CachedElsewhere(slots, s, x, ino);
  }

  /** An inode no slot holds is what the disk says. */
  lemma NotLoaded(slots: seq<Slot>, stack: seq<uint16>, live: set<uint16>, t: Table, d: Image, base: nat, count: nat,
      ino: uint16)
    requires CacheAndLife(slots, stack, live, t, d, base, count) && ino < INODE_TOTAL && !Cached(slots, ino)
    ensures t[ino] == DiskInode(d, ino)
  {
    hide DiskInode, LiveOk;
  }

  lemma DeadIsCleared(slots: seq<Slot>, stack: seq<uint16>, live: set<uint16>, t: Table, d: Image, base: nat,
      count: nat, ino: uint16)
    requires CacheAndLife(slots, stack, live, t, d, base, count) && ino < INODE_TOTAL && ino !in live
    ensures Cleared(t[ino]) && !Cached(slots, ino)
  {
  }

  lemma CountsFromCache(slots: seq<Slot>, stack: seq<uint16>, live: set<uint16>, t: Table, d: Image, base: nat,
      count: nat)
    requires CacheAndLife(slots, stack, live, t, d, base, count)
    ensures CountsUp(slots)
  {
  }

  /** Loading a live inode that was not cached. */
  lemma Loaded(slots: seq<Slot>, stack: seq<uint16>, live: set<uint16>, t: Table, d: Image, base: nat, count: nat,
      s: nat, ino: uint16)
    requires CacheAndLife(slots, stack, live, t, d, base, count) && s < |slots| && slots[s].Empty?
    requires ino < INODE_TOTAL && ino in live && !Cached(slots, ino)
    ensures t[ino] == DiskInode(d, ino) && t[ino].nlink != 0
    ensures CacheAndLife(slots[s := Held(ino, DiskInode(d, ino), 1, false)], stack, live, t, d, base, count)
  {
    var x := Held(ino, DiskInode(d, ino), 1, false);
    CacheFill(slots, t, d, s, ino);
    forall i | 0 <= i < INODE_TOTAL ensures Cached(slots[s := x], i) <==> Cached(slots, i) || i == ino {
      CachedElsewhere(slots, s, x, i);
    }
    assert t[ino] == DiskInode(d, ino);
    hide CacheOk, Cached, DiskInode;
  }

  /** What a held slot says. */
  lemma HeldFacts(slots: seq<Slot>, stack: seq<uint16>, live: set<uint16>, t: Table, d: Image, base: nat, count: nat,
      s: nat)
    requires CacheAndLife(slots, stack, live, t, d, base, count) && s < |slots| && slots[s].Held?
    ensures var x := slots[s];
            x.ino < INODE_TOTAL && x.di == t[x.ino] && x.count >= 1 && x.ino in live && Cached(slots, x.ino)
  {
    assert Cached(slots, slots[s].ino);
  }

  /** A cached inode changed in place; the inode area of the disk did not. */
  lemma Modified(slots: seq<Slot>, stack: seq<uint16>, live: set<uint16>, t: Table, d: Image, base: nat, count: nat,
      s: nat, x: Slot, d': Image)
    requires CacheAndLife(slots, stack, live, t, d, base, count) && s < |slots| && slots[s].Held?
    requires x.Held? && x == slots[s].(di := x.di, dirty := x.dirty) && (x.dirty || x == slots[s])
    requires forall n :: 0 <= n < DATA_START_BLK ==> d'[n] == d[n]
    ensures x.ino < INODE_TOTAL && CacheAndLife(slots[s := x], stack, live, t[x.ino := x.di], d', base, count)
  {
    HeldFacts(slots, stack, live, t, d, base, count, s);
    hide CacheOk, LiveOk, Cached;
    CacheModify(slots, t, d, s, x);
    CacheFrame(slots[s := x], t[x.ino := x.di], d, d');
    forall ino | 0 <= ino < INODE_TOTAL ensures Cached(slots[s := x], ino) <==> Cached(slots, ino) {
      SameHolder(slots, s, x, ino);
    }
    LiveKept(stack, live, slots, slots[s := x], t, t[x.ino := x.di], base, count);
  }

  lemma WroteBack(slots: seq<Slot>, stack: seq<uint16>, live: set<uint16>, t: Table, d: Image, base: nat, count: nat,
      s: nat)
    requires CacheAndLife(slots, stack, live, t, d, base, count) && s < |slots| && slots[s].Held?
    ensures slots[s].ino < INODE_TOTAL
    ensures CacheAndLife(slots[s := slots[s].(dirty := false)], stack, live, t,
                         WriteInode(d, slots[s].ino, slots[s].di), base, count)
  {
    HeldFacts(slots, stack, live, t, d, base, count, s);
    hide CacheOk, LiveOk, Cached, WriteInode;
    CacheWriteBack(slots, t, d, s);
    var x := slots[s].(dirty := false);
    forall ino | 0 <= ino < INODE_TOTAL ensures Cached(slots[s := x], ino) <==> Cached(slots, ino) {
      SameHolder(slots, s, x, ino);
    }
    LiveKept(stack, live, slots, slots[s := x], t, t, base, count);
  }

  /** The last reference to a linked inode goes; its slot is clean by now. */
  lemma Released(slots: seq<Slot>, stack: seq<uint16>, live: set<uint16>, t: Table, d: Image, base: nat, count: nat,
      s: nat)
    requires CacheAndLife(slots, stack, live, t, d, base, count) && s < |slots| && slots[s].Held?
    requires !slots[s].dirty && slots[s].di.nlink != 0
    ensures CacheAndLife(slots[s := Empty], stack, live, t, d, base, count)
  {
    HeldFacts(slots, stack, live, t, d, base, count, s);
    CacheRelease(slots, t, d, s);
    hide CacheOk, Cached;
  }

  /** The last reference to an unlinked inode goes; its blocks are gone and its slot is clean by now.  Its
      number returns to the stack, where there is room for it. */
  lemma Destroyed(slots: seq<Slot>, stack: seq<uint16>, live: set<uint16>, t: Table, d: Image, base: nat, count: nat,
      s: nat)
    requires CacheAndLife(slots, stack, live, t, d, base, count) && s < |slots| && slots[s].Held?
    requires !slots[s].dirty && Cleared(slots[s].di)
    ensures |stack| < NICINOD && slots[s].ino in live
    ensures CacheAndLife(slots[s := Empty], stack + [slots[s].ino], live - {slots[s].ino}, t, d, base, count)
  {
    HeldFacts(slots, stack, live, t, d, base, count, s);
    LiveCount(stack, live, slots, t, base, count);
    CacheRelease(slots, t, d, s);
    var ino := slots[s].ino;
    assert forall x :: x in stack + [ino] <==> x in stack || x == ino;
    hide CacheOk, Cached;
  }

  /** A fresh inode number leaves the stack and its inode sits, dirty, in a slot that was empty. */
  lemma Created(slots: seq<Slot>, stack: seq<uint16>, ino: uint16, live: set<uint16>, t: Table, d: Image, base: nat,
      count: nat, s: nat, di: DInode)
    requires CacheAndLife(slots, stack + [ino], live, t, d, base, count) && s < |slots| && slots[s].Empty?
    requires di.nlink != 0
    ensures ino < INODE_TOTAL && ino !in live && Cleared(t[ino])
    ensures CacheAndLife(slots[s := Held(ino, di, 1, true)], stack, live + {ino}, t[ino := di], d, base, count)
  {
    var x := Held(ino, di, 1, true);
    Unstacked(slots, stack, ino, live, t, base, count);
    hide Cleared, LiveOk, Cached;
    CacheClaim(slots, t, d, s, x);
    forall i | 0 <= i < INODE_TOTAL ensures Cached(slots[s := x], i) <==> Cached(slots, i) || i == ino {
      CachedElsewhere(slots, s, x, i);
    }
    hide CacheOk, DiskInode;
    NowLive(slots, slots[s := x], stack, ino, live, t, base, count, di);
  }

  lemma Unstacked(slots: seq<Slot>, stack: seq<uint16>, ino: uint16, live: set<uint16>, t: Table, base: nat, count: nat)
    requires LiveOk(stack + [ino], live, slots, t, base, count)
    ensures ino < INODE_TOTAL && ino !in live && ino !in stack && Distinct(stack) && Cleared(t[ino])
    ensures !Cached(slots, ino) && forall y :: y in stack + [ino] <==> y in stack || y == ino
  {
    hide Cleared;
    var stack0 := stack + [ino];
    assert stack0[|stack|] == ino;
    assert ino in stack0 && forall i :: 0 <= i < |stack| ==> stack0[i] == stack[i];
  }

  lemma NowLive(slots: seq<Slot>, slots': seq<Slot>, stack: seq<uint16>, ino: uint16, live: set<uint16>, t: Table,
      base: nat, count: nat, di: DInode)
    requires LiveOk(stack + [ino], live, slots, t, base, count) && di.nlink != 0
    requires ino < INODE_TOTAL && ino !in live && ino !in stack && Distinct(stack)
    requires forall y :: y in stack + [ino] <==> y in stack || y == ino
    requires forall i :: 0 <= i < INODE_TOTAL ==> (Cached(slots', i) <==> Cached(slots, i) || i == ino)
    ensures LiveOk(stack, live + {ino}, slots', t[ino := di], base, count)
  {
    hide Cleared, Cached, Distinct;
  }

  lemma RoomForNumber(slots: seq<Slot>, stack: seq<uint16>, live: set<uint16>, t: Table, d: Image, base: nat,
      count: nat, s: nat, ino: uint16)
    requires CacheAndLife(slots, stack, live, t, d, base, count) && s < |slots| && slots[s].Held?
    ensures Returned(stack, ino) == stack + [ino]
  {
    HeldFacts(slots, stack, live, t, d, base, count, s);
    LiveCount(stack, live, slots, t, base, count);
  }

  /** The whole way of a destroyed inode: emptied in memory while the data area changed, saved, dropped. */
  lemma DestroyedSlot(slots: seq<Slot>, stack: seq<uint16>, live: set<uint16>, t: Table, d: Image, base: nat,
      count: nat, s: nat, di: DInode, d1: Image)
    requires CacheAndLife(slots, stack, live, t, d, base, count) && s < |slots| && slots[s].Held?
    requires Cleared(di) && SameHeader(d, d1)
    ensures slots[s].ino < INODE_TOTAL
    ensures CacheAndLife(slots[s := Empty], stack + [slots[s].ino], live - {slots[s].ino}, t[slots[s].ino := di],
                         WriteInode(d1, slots[s].ino, di), base, count)
  {
    hide CacheAndLife, Cleared, WriteInode;
    HeldFacts(slots, stack, live, t, d, base, count, s);
    var x1 := slots[s].(di := di, dirty := true);
    var t1 := t[slots[s].ino := di];
    Modified(slots, stack, live, t, d, base, count, s, x1, d1);
    WroteBack(slots[s := x1], stack, live, t1, d1, base, count, s);
    var slots2 := slots[s := x1.(dirty := false)];
    assert slots[s := x1][s := slots[s := x1][s].(dirty := false)] == slots2;
    Destroyed(slots2, stack, live, t1, WriteInode(d1, slots[s].ino, di), base, count, s);
    assert slots2[s := Empty] == slots[s := Empty];
  }

  /** The way of a linked inode: saved if it is dirty, then dropped. */
  lemma ReleasedSlot(slots: seq<Slot>, stack: seq<uint16>, live: set<uint16>, t: Table, d: Image, base: nat,
      count: nat, s: nat, d1: Image)
    requires CacheAndLife(slots, stack, live, t, d, base, count) && s < |slots| && slots[s].Held?
    requires slots[s].ino < INODE_TOTAL && slots[s].di.nlink != 0
    requires d1 == if slots[s].dirty then WriteInode(d, slots[s].ino, slots[s].di) else d
    ensures CacheAndLife(slots[s := Empty], stack, live, t, d1, base, count)
  {
    hide CacheAndLife, WriteInode;
    if slots[s].dirty {
      var clean := slots[s].(dirty := false);
      WroteBack(slots, stack, live, t, d, base, count, s);
      Released(slots[s := clean], stack, live, t, d1, base, count, s);
      ChangedTwice(slots, s, clean, Empty);
    } else {
      Released(slots, stack, live, t, d, base, count, s);
    }
  }

  // ---------- a reference through a stale number ----------

  /** The inode stack after the last reference to an inode is given back: put destroys the inode, and returns its
      number, when it has no links. */
  function AfterLastPut(stack: seq<uint16>, di: DInode, ino: uint16): seq<uint16> {
    if di.nlink == 0 then Returned(stack, ino) else stack
  }

  /** Getting a managed number nobody holds and giving it back leaves no number on the stack twice exactly when the
      number was live, or the stack was full anyway, which it is not while any inode is live. */
  lemma StaleReferenceIff(slots: seq<Slot>, stack: seq<uint16>, live: set<uint16>, t: Table, d: Image, base: nat,
      count: nat, ino: uint16)
    requires CacheAndLife(slots, stack, live, t, d, base, count) && base <= ino < base + count && !Cached(slots, ino)
    ensures Distinct(AfterLastPut(stack, DiskInode(d, ino), ino)) <==> ino in live || |stack| == NICINOD
    ensures live != {} ==> (Distinct(AfterLastPut(stack, DiskInode(d, ino), ino)) <==> ino in live)
  {
    NotLoaded(slots, stack, live, t, d, base, count, ino);
    LiveCount(stack, live, slots, t, base, count);
    hide DiskInode, Cached, CacheOk;
    if ino !in live && |stack| < NICINOD {
      var k :| 0 <= k < |stack| && stack[k] == ino;
      assert (stack + [ino])[k] == (stack + [ino])[|stack|];
    }
  }

  /** n numbers stacked as format stacks them: the lowest, lo, on top. */
  function StackedFrom(lo: nat, n: nat): (stack: seq<uint16>)
    requires lo + n <= 0x1_0000
    ensures |stack| == n && forall k :: 0 <= k < n ==> stack[k] == lo + (n - 1 - k)
  {
    seq<uint16>(n, k requires 0 <= k < n => lo + (n - 1 - k))
  }

  /** A descriptor left over from an inode that was destroyed.  On a formatted volume whose root has just been
      created, 49 numbers are stacked, number 2 on top; giving back a reference taken through number 2 pushes it
      again, and the next two files would share it. */
  lemma StaleDescriptor(slots: seq<Slot>, d: Image, root: DInode)
    requires |slots| == CACHE_SIZE && forall i :: 0 <= i < CACHE_SIZE ==> slots[i].Empty?
    requires forall n :: INODE_START_BLK <= n < DATA_START_BLK ==> d[n] == ZERO_BLOCK
    requires root.nlink == 1
    ensures CacheAndLife(slots[0 := Held(1, root, 1, true)], StackedFrom(2, NICINOD - 1), {1}, BlankTable()[1 := root],
                         d, 1, NICINOD)
    ensures AfterLastPut(StackedFrom(2, NICINOD - 1), DiskInode(d, 2), 2) == StackedFrom(3, NICINOD - 2) + [2, 2]
  {
    var all, rest := StackedFrom(1, NICINOD), StackedFrom(2, NICINOD - 1);
    FreshLife(slots, all, BlankTable(), d, 1);
    assert all == rest + [1];
    Created(slots, rest, 1, {}, BlankTable(), d, 1, NICINOD, 0, root);
    assert {} + {1} == {1};
    ZeroedInode(d, 2);
    assert rest == StackedFrom(3, NICINOD - 2) + [2];
  }

  function NewInode(mode: uint16, uid: uint16, gid: uint16, now: uint32): DInode {
    DInode(mode, 1, uid, gid, 0, now, now, now, NO_ADDR)
  }

  const NO_ADDR: Addr := [0, 0, 0, 0, 0, 0, 0, 0, 0, 0]

  /** An inode after memset: every field 0. */
  const EMPTY_INODE: DInode := DInode(0, 0, 0, 0, 0, 0, 0, 0, NO_ADDR)

  lemma NewInodeEmpty(mode: uint16, uid: uint16, gid: uint16, now: uint32)
    ensures NoBlocks(NewInode(mode, uid, gid, now).addr)
  {
  }

  /** A number from the stack is never the failure mark. */
  lemma StackInRange(slots: seq<Slot>, stack: seq<uint16>, live: set<uint16>, t: Table, d: Image, base: nat, count: nat)
    requires CacheAndLife(slots, stack, live, t, d, base, count)
    ensures forall i :: 0 <= i < |stack| ==> stack[i] < INODE_TOTAL
    ensures |stack| <= NICINOD
  {
    LiveCount(stack, live, slots, t, base, count);
    assert forall i :: 0 <= i < |stack| ==> stack[i] in stack;
  }

  lemma LiveAbove(slots: seq<Slot>, stack: seq<uint16>, live: set<uint16>, t: Table, d: Image, base: nat, count: nat)
    requires CacheAndLife(slots, stack, live, t, d, base, count)
    ensures forall x :: x in live ==> base <= x
  {
  }

  // ---------- a freshly formatted volume ----------

  ghost predicate Blank(t: Table) {
    forall i :: 0 <= i < INODE_TOTAL ==> t[i] == EMPTY_INODE
  }

  ghost function BlankTable(): (t: Table)
    ensures Blank(t)
  {
    seq<DInode>(INODE_TOTAL, _ => EMPTY_INODE)
  }

  /** A zeroed inode area holds empty inodes. */
  lemma ZeroedInode(d: Image, ino: nat)
    requires ino < INODE_TOTAL && d[InodeBlock(ino)] == ZERO_BLOCK
    ensures DiskInode(d, ino) == EMPTY_INODE
  {
    ZeroWords();
    var ws := Words(ZERO_BLOCK, InodeOffset(ino), INODE_WORDS);
    assert forall i :: 0 <= i < INODE_WORDS ==> ws[i] == 0;
    assert ws[12..22] == [0, 0, 0, 0, 0, 0, 0, 0, 0, 0];
  }

  /** An empty cache in front of a zeroed inode area, all managed numbers on the stack. */
  lemma FreshLife(slots: seq<Slot>, stack: seq<uint16>, t: Table, d: Image, base: nat)
    requires |slots| == CACHE_SIZE && forall i :: 0 <= i < CACHE_SIZE ==> slots[i].Empty?
    requires Blank(t) && forall n :: INODE_START_BLK <= n < DATA_START_BLK ==> d[n] == ZERO_BLOCK
    requires |stack| <= NICINOD && base + |stack| <= INODE_TOTAL
    requires forall k :: 0 <= k < |stack| ==> stack[k] == base + (|stack| - 1 - k)
    ensures CacheAndLife(slots, stack, {}, t, d, base, |stack|)
  {
    forall ino | 0 <= ino < INODE_TOTAL ensures t[ino] == DiskInode(d, ino) {
      ZeroedInode(d, ino);
    }
    forall x: uint16 | base <= x < base + |stack| ensures x in stack {
      assert stack[|stack| - 1 - (x - base)] == x;
    }
    hide DiskInode;
  }

  /** Empty inodes own nothing, so every managed block is free. */
  lemma FreshTrees(d: Image, t: Table, list: seq<uint16>, lo: nat)
    requires Blank(t) && forall b: uint16 :: b in list <==> lo <= b < DATA_BLK_NUM
    ensures Consistent(View(d, t, map[], list, lo))
  {
    forall i, r | 0 <= i < |t| && ValidRef(r) ensures At(t[i].addr, d, r) == 0 {
      NoBlocksAt(t[i].addr, d);
    }
    hide At;
  }
}
