/** The inode cache as a value: 64 slots in front of the inode area of the disk. */
module InodeCaches {
  import opened Bytes
  import opened BlockDevices
  import opened InodeTrees
  import opened DiskInodes

  const CACHE_SIZE := 64

  datatype Slot = Empty | Held(ino: uint16, di: DInode, count: uint16, dirty: bool)

  /** A slot after one more reference to inode `ino`. */
  function Referenced(s: Slot, ino: uint16, di: DInode): Slot {
    match s
    case Empty => Held(ino, di, 1, false)
    case Held(_, _, count, _) => s.(count := (count + 1) % 0x1_0000)
  }

  /** A slot after one reference less: the last one empties it. */
  function Dropped(s: Slot): Slot {
    match s
    case Empty => Empty
    case Held(_, _, count, _) => if count == 1 then Empty else s.(count := (count - 1) % 0x1_0000)
  }

  /** No reference count is at its limit. */
  ghost predicate CountsLow(slots: seq<Slot>) {
    forall s :: 0 <= s < |slots| && slots[s].Held? ==> slots[s].count < 0xFFFF
  }

  /** Every held slot is referenced. */
  ghost predicate CountsUp(slots: seq<Slot>) {
    forall s :: 0 <= s < |slots| && slots[s].Held? ==> slots[s].count >= 1
  }

  /** The same inodes are held, each by as many references as before. */
  ghost predicate SameRefs(slots0: seq<Slot>, slots: seq<Slot>) {
    && |slots| == |slots0|
    && forall s :: 0 <= s < |slots0| ==>
         match slots0[s]
         case Empty => slots[s].Empty?
         case Held(ino, _, count, _) => slots[s].Held? && slots[s].ino == ino && slots[s].count == count
  }

  /** One reference fewer in slot s: the last one empties it. */
  ghost predicate GivenBack(slots1: seq<Slot>, slots2: seq<Slot>, s: nat) {
    && s < |slots1| == |slots2| && slots1[s].Held?
    && slots2 == slots1[s := slots2[s]]
    && if slots1[s].count == 1 then slots2[s].Empty?
       else slots2[s].Held? && slots2[s].ino == slots1[s].ino && slots2[s].count as int == slots1[s].count - 1
  }

  /** Taking a reference, changing the inode in place, and giving the reference back. */
  lemma RefsAgain(slots0: seq<Slot>, slots1: seq<Slot>, slots2: seq<Slot>, s: nat, ino: uint16, di: DInode)
    requires s < |slots0| && CountsLow(slots0) && CountsUp(slots0)
    requires slots1 == slots0[s := Referenced(slots0[s], ino, di)] && GivenBack(slots1, slots2, s)
    ensures SameRefs(slots0, slots2)
  {
  }

  /** Before it was given back, the inode was changed in place. */
  lemma GivenBackAfter(slots0: seq<Slot>, slots1: seq<Slot>, slots2: seq<Slot>, s: nat, x: Slot)
    requires GivenBack(slots1, slots2, s) && s < |slots0| && slots0[s].Held? && slots1 == slots0[s := x]
    requires x == slots0[s].(di := x.di, dirty := x.dirty)
    ensures GivenBack(slots0, slots2, s)
  {
  }

  lemma RefsKept(slots: seq<Slot>)
    ensures SameRefs(slots, slots)
  {
  }

  /** A slot changed twice is changed once. */
  lemma ChangedTwice(slots: seq<Slot>, s: nat, x: Slot, y: Slot)
    requires s < |slots|
    ensures slots[s := x][s := y] == slots[s := y]
  {
  }

  ghost predicate Cached(slots: seq<Slot>, ino: nat) {
    exists s :: 0 <= s < |slots| && slots[s].Held? && slots[s].ino == ino
  }

  /** A reference can be taken: the inode is cached, or a slot is free. */
  ghost predicate CanOpen(slots: seq<Slot>, ino: nat) {
    Cached(slots, ino) || exists s :: 0 <= s < |slots| && slots[s].Empty?
  }

  /** The cache is transparent: `t` is the cached copy of an inode where there is one, and the disk
      copy otherwise; clean copies agree with the disk, and no inode sits in two slots. */
  ghost predicate CacheOk(slots: seq<Slot>, t: Table, d: Image) {
    && |slots| == CACHE_SIZE
    && (forall s :: 0 <= s < |slots| && slots[s].Held? ==>
          && slots[s].ino < INODE_TOTAL && slots[s].count >= 1
          && t[slots[s].ino] == slots[s].di
          && (!slots[s].dirty ==> DiskInode(d, slots[s].ino) == slots[s].di))
    && (forall s, s' :: 0 <= s < s' < |slots| && slots[s].Held? && slots[s'].Held? ==> slots[s].ino != slots[s'].ino)
    && (forall ino :: 0 <= ino < INODE_TOTAL && !Cached(slots, ino) ==> t[ino] == DiskInode(d, ino))
  }

  lemma CachedElsewhere(slots: seq<Slot>, s: nat, x: Slot, ino: nat)
    requires s < |slots|
    ensures (slots[s].Held? ==> slots[s].ino != ino) && (x.Held? ==> x.ino != ino) ==>
              (Cached(slots[s := x], ino) <==> Cached(slots, ino))
    ensures x.Held? && x.ino == ino ==> Cached(slots[s := x], ino)
  {
    var slots' := slots[s := x];
    if Cached(slots, ino) && (slots[s].Held? ==> slots[s].ino != ino) {
      var k :| 0 <= k < |slots| && slots[k].Held? && slots[k].ino == ino;
      assert slots'[k] == slots[k];
    }
    if Cached(slots', ino) && (x.Held? ==> x.ino != ino) {
      var k :| 0 <= k < |slots'| && slots'[k].Held? && slots'[k].ino == ino;
      assert slots[k] == slots'[k];
    }
    if x.Held? && x.ino == ino {
      assert slots'[s].Held? && slots'[s].ino == ino;
    }
  }

  lemma CacheFrame(slots: seq<Slot>, t: Table, d: Image, d': Image)
    requires CacheOk(slots, t, d)
    requires forall n :: INODE_START_BLK <= n < DATA_START_BLK ==> d'[n] == d[n]
    ensures CacheOk(slots, t, d')
  {
    forall ino | 0 <= ino < INODE_TOTAL ensures DiskInode(d', ino) == DiskInode(d, ino) {
      assert INODE_START_BLK <= InodeBlock(ino) < DATA_START_BLK;
    }
    hide DiskInode;
  }

  /** Changing a cached inode in place, marking it dirty. */
  lemma CacheModify(slots: seq<Slot>, t: Table, d: Image, s: nat, x: Slot)
    requires CacheOk(slots, t, d) && s < |slots| && slots[s].Held?
    requires x.Held? && x.ino == slots[s].ino && x.count >= 1 && (x.dirty || (x.di == slots[s].di && !slots[s].dirty))
    ensures CacheOk(slots[s := x], t[x.ino := x.di], d)
  {
    hide DiskInode;
    forall ino | 0 <= ino < INODE_TOTAL && !Cached(slots[s := x], ino)
      ensures t[x.ino := x.di][ino] == DiskInode(d, ino)
    {
      CachedElsewhere(slots, s, x, ino);
    }
  }

  /** Loading an inode that no slot holds. */
  lemma CacheFill(slots: seq<Slot>, t: Table, d: Image, s: nat, ino: uint16)
    requires CacheOk(slots, t, d) && s < |slots| && slots[s].Empty? && ino < INODE_TOTAL && !Cached(slots, ino)
    ensures CacheOk(slots[s := Held(ino, DiskInode(d, ino), 1, false)], t, d)
  {
    CacheClaim(slots, t, d, s, Held(ino, DiskInode(d, ino), 1, false));
    assert t[ino := DiskInode(d, ino)] == t;
  }

  /** Claiming an empty slot for an inode that no slot holds. */
  lemma CacheClaim(slots: seq<Slot>, t: Table, d: Image, s: nat, x: Slot)
    requires CacheOk(slots, t, d) && s < |slots| && slots[s].Empty?
    requires x.Held? && x.ino < INODE_TOTAL && x.count == 1 && !Cached(slots, x.ino)
    requires !x.dirty ==> x.di == DiskInode(d, x.ino)
    ensures CacheOk(slots[s := x], t[x.ino := x.di], d)
  {
    hide DiskInode;
    forall ino | 0 <= ino < INODE_TOTAL && !Cached(slots[s := x], ino)
      ensures t[x.ino := x.di][ino] == DiskInode(d, ino)
    {
      CachedElsewhere(slots, s, x, ino);
    }
    forall k | 0 <= k < |slots| && slots[k].Held? ensures slots[k].ino != x.ino {
      assert k != s;
    }
  }

  /** Writing a cached inode back cleans it and nothing else. */
  lemma CacheWriteBack(slots: seq<Slot>, t: Table, d: Image, s: nat)
    requires CacheOk(slots, t, d) && s < |slots| && slots[s].Held?
    ensures CacheOk(slots[s := slots[s].(dirty := false)], t, WriteInode(d, slots[s].ino, slots[s].di))
  {
    var ino, di := slots[s].ino, slots[s].di;
    WriteInodeIsolated(d, ino, di);
    hide DiskInode, WriteInode;
    var slots' := slots[s := slots[s].(dirty := false)];
    var d' := WriteInode(d, ino, di);
    forall i | 0 <= i < INODE_TOTAL && !Cached(slots', i) ensures t[i] == DiskInode(d', i) {
      CachedElsewhere(slots, s, slots'[s], i);
    }
  }

  /** Emptying a clean slot. */
  lemma CacheRelease(slots: seq<Slot>, t: Table, d: Image, s: nat)
    requires CacheOk(slots, t, d) && s < |slots| && slots[s].Held? && !slots[s].dirty
    ensures CacheOk(slots[s := Empty], t, d)
    ensures forall i {:trigger Cached(slots[s := Empty], i)} :: 0 <= i < INODE_TOTAL ==>
              (Cached(slots[s := Empty], i) <==> Cached(slots, i) && i != slots[s].ino)
  {
    hide DiskInode;
    var slots' := slots[s := Empty];
    forall k | 0 <= k < |slots'| && slots'[k].Held? ensures slots'[k].ino != slots[s].ino {
      assert k != s && slots'[k] == slots[k];
    }
    forall i | 0 <= i < INODE_TOTAL
      ensures Cached(slots[s := Empty], i) <==> Cached(slots, i) && i != slots[s].ino
      ensures !Cached(slots[s := Empty], i) ==> t[i] == DiskInode(d, i)
    {
      CachedElsewhere(slots, s, Empty, i);
    }
  }
}
