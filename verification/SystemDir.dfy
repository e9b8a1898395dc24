/** The directories of a fresh volume: what they say, what leaves a directory alone, and what a small directory
    needs to grow. */
module SystemDirs {
  import opened Bytes
  import opened BlockDevices
  import opened InodeTrees
  import opened InodeWalks
  import opened InodeViews
  import opened FileContents
  import opened DirEntries
  import opened DirFiles
  import opened Paths

  const DOT: seq<byte> := [0x2E]
  const DOT_DOT: seq<byte> := [0x2E, 0x2E]
  const ETC: seq<byte> := [0x65, 0x74, 0x63]
  const HOME: seq<byte> := [0x68, 0x6F, 0x6D, 0x65]

  /** The entries of a new directory. */
  function Dots(self: uint16, parent: uint16): (es: seq<DirEntry>)
    ensures |es| == 2
  {
    [DirEntry(Key(DOT), self), DirEntry(Key(DOT_DOT), parent)]
  }

  function DotsMap(self: uint16, parent: uint16): map<Name, uint16> {
    map[Key(DOT) := self, Key(DOT_DOT) := parent]
  }

  lemma DotsLive(self: uint16, parent: uint16, live: set<uint16>)
    requires self in live && parent in live
    ensures forall e :: e in Dots(self, parent) ==> e.ino in live
  {
    hide Key;
  }

  /** The root of a fresh volume. */
  function RootMap(root: uint16, etc: uint16, home: uint16): map<Name, uint16> {
    DotsMap(root, root)[Key(ETC) := etc][Key(HOME) := home]
  }

  lemma KeysDiffer()
    ensures Key(DOT) != Key(DOT_DOT) && Key(ETC) != Key(HOME)
    ensures Key(ETC) != Key(DOT) && Key(ETC) != Key(DOT_DOT) && Key(HOME) != Key(DOT) && Key(HOME) != Key(DOT_DOT)
  {
    KeyAt(DOT, 0);
    KeyAt(DOT, 1);
    KeyAt(DOT_DOT, 0);
    KeyAt(DOT_DOT, 1);
    KeyAt(ETC, 0);
    KeyAt(HOME, 0);
    hide Key;
  }

  lemma DotsNamed(self: uint16, parent: uint16)
    requires self != 0 && parent != 0
    ensures Dir(Dots(self, parent)) == DotsMap(self, parent) && UniqueNames(Dots(self, parent))
  {
    KeysDiffer();
    KeyIdempotent(DOT);
    KeyIdempotent(DOT_DOT);
    hide Key;
    var es := Dots(self, parent);
    assert es[1..] == [es[1]] && es[1..][1..] == [];
    assert Dir(es[1..]) == Dir(es[1..][1..])[Key(es[1].name) := parent];
  }

  lemma NamesStillFree(root: uint16, etc: uint16)
    ensures Key(ETC) !in DotsMap(root, root) && Key(HOME) !in DotsMap(root, root)[Key(ETC) := etc]
  {
    KeysDiffer();
    hide Key;
  }

  // ---------- what a directory says, and what leaves it alone ----------

  /** Inode i is a readable directory whose names are m. */
  ghost predicate DirIs(t: Table, d: Image, i: nat, m: map<Name, uint16>) {
    i < INODE_TOTAL && IsDirectory(t[i]) && Readable(t[i], d) && DirOf(t[i], d) == m
  }

  /** Every inode outside x has its record, and reads as a directory as it did. */
  ghost predicate DirsKept(t0: Table, d0: Image, t: Table, d: Image, x: set<nat>) {
    forall i {:trigger t[i]} :: 0 <= i < INODE_TOTAL && i !in x ==>
      t[i] == t0[i] && (Readable(t[i], d) <==> Readable(t0[i], d0)) && EntriesOf(t[i], d) == EntriesOf(t0[i], d0)
  }

  lemma KeptAfter(t0: Table, d0: Image, t: Table, d: Image, x: set<nat>, i: nat, m: map<Name, uint16>)
    requires DirsKept(t0, d0, t, d, x) && DirIs(t0, d0, i, m) && i !in x
    ensures DirIs(t, d, i, m)
  {
    hide Readable, EntriesOf, Dir;
  }

  lemma KeptByOthers(v0: View, v: View, ino: nat)
    requires Consistent(v0) && OthersKept(v0, v, ino)
    ensures DirsKept(v0.t, v0.d, v.t, v.d, {ino})
  {
    hide Consistent, OthersKept, Readable, EntriesOf;
    forall i | 0 <= i < INODE_TOTAL && i != ino
      ensures v.t[i] == v0.t[i] && (Readable(v.t[i], v.d) <==> Readable(v0.t[i], v0.d))
      ensures EntriesOf(v.t[i], v.d) == EntriesOf(v0.t[i], v0.d)
    {
      ReadsAsBefore(v0, v, ino, i);
    }
  }

  lemma KeptSameData(t: Table, d0: Image, d: Image)
    requires d[DATA_START_BLK..] == d0[DATA_START_BLK..]
    ensures DirsKept(t, d0, t, d, {})
  {
    ContentSameData(d0, d);
    hide Content, NoHole, Parse;
  }

  lemma KeptThen(t0: Table, d0: Image, t1: Table, d1: Image, t2: Table, d2: Image, x: set<nat>, y: set<nat>)
    requires DirsKept(t0, d0, t1, d1, x) && DirsKept(t1, d1, t2, d2, y)
    ensures DirsKept(t0, d0, t2, d2, x + y)
  {
    hide Readable, EntriesOf;
  }

  // ---------- the first block of a directory ----------

  /** All entries lie in the first block. */
  predicate Small(n: nat) {
    n < ENTRIES_PER_BLK
  }

  /** One free block is room enough for an entry of a small directory.  It takes that block when the directory has
      none yet, and no block when there is an entry already. */
  lemma SmallRoom(v: View, v': View, ino: nat, n: nat)
    requires ino < |v.t| && Small(n)
    ensures v.list != [] ==> RoomForEntry(v, ino, n)
    ensures TookEntry(v, v', ino, n) && NoBlocks(v.t[ino].addr) ==> |v'.list| == |v.list| - 1
    ensures TookEntry(v, v', ino, n) && n > 0 && Readable(v.t[ino], v.d) && |EntriesOf(v.t[ino], v.d)| == n ==>
              v'.list == v.list
  {
    assert LeafRef(n * ENTRY_SIZE / BLOCK_SIZE) == Direct(0) == LeafRef(0);
    if n > 0 && Readable(v.t[ino], v.d) && |EntriesOf(v.t[ino], v.d)| == n {
      FirstBlockThere(v.t[ino], v.d);
      assert v.list[0..] == v.list;
    }
  }

  /** A readable directory with an entry has its first block. */
  lemma FirstBlockThere(di: DInode, d: Image)
    requires Readable(di, d) && EntriesOf(di, d) != []
    ensures At(di.addr, d, Direct(0)) != 0
  {
    assert di.size > 0 && LeafRef(0) == Direct(0);
    assert Mapped(di.addr, d, 0) != 0;
  }

  // ---------- adding a system directory ----------

  /** The tree of a fresh volume. */
  ghost predicate SystemTree(t: Table, d: Image) {
    DirIs(t, d, 1, RootMap(1, 2, 3)) && DirIs(t, d, 2, DotsMap(2, 1)) && DirIs(t, d, 3, DotsMap(3, 1))
  }

  /** Free inode numbers are handed out upwards from n. */
  ghost predicate UpwardsFrom(stack: seq<uint16>, n: nat) {
    forall k :: 0 <= k < |stack| ==> stack[k] as nat == n + (|stack| - 1 - k)
  }

  lemma NextNumber(stack: seq<uint16>, ino: uint16, n: nat)
    requires UpwardsFrom(stack + [ino], n)
    ensures ino as nat == n && UpwardsFrom(stack, n + 1)
  {
    var stack0 := stack + [ino];
    assert stack0[|stack|] == ino;
    assert forall k :: 0 <= k < |stack| ==> stack[k] == stack0[k];
  }

  function LastOf(stack: seq<uint16>): uint16
    requires stack != []
  {
    stack[|stack| - 1]
  }

  /** Directory `root` gained the name of a new directory `ino`, at a cost of one block. */
  ghost predicate DirAdded(v0: View, v: View, root: uint16, ino: uint16, name: seq<byte>) {
    && root < INODE_TOTAL && |v.list| == |v0.list| - 1
    && DirIs(v.t, v.d, ino, DotsMap(ino, root))
    && DirOf(v.t[root], v.d) == DirOf(v0.t[root], v0.d)[Key(name) := ino]
    && 0 < |EntriesOf(v.t[root], v.d)| <= |EntriesOf(v0.t[root], v0.d)| + 1
    && DirsKept(v0.t, v0.d, v.t, v.d, {root as nat, ino as nat})
  }

  /** A new directory `ino` was created beside `root`. */
  ghost predicate DirMade(v0: View, v1: View, root: uint16, ino: uint16) {
    && Consistent(v0) && Consistent(v1) && OthersKept(v0, v1, ino as nat)
    && 0 < root < INODE_TOTAL && 0 < ino < INODE_TOTAL && ino != root
    && IsDirectory(v1.t[ino]) && Readable(v1.t[ino], v1.d)
    && (v0.list != [] ==> EntriesOf(v1.t[ino], v1.d) == Dots(ino, root) && |v1.list| == |v0.list| - 1)
  }

  /** There is room for one more name in a small root. */
  ghost predicate RoomForName(v: View, root: uint16, name: seq<byte>) {
    && root < INODE_TOTAL && v.list != [] && Key(name) !in DirOf(v.t[root], v.d)
    && EntriesOf(v.t[root], v.d) != [] && Small(|EntriesOf(v.t[root], v.d)|)
  }

  /** If there was room, the name is there. */
  ghost predicate NameAdded(v1: View, v2: View, root: uint16, ino: uint16, name: seq<byte>) {
    && root < INODE_TOTAL && OthersKept(v1, v2, root as nat)
    && (RoomForName(v1, root, name) ==>
          && DirOf(v2.t[root], v2.d) == DirOf(v1.t[root], v1.d)[Key(name) := ino]
          && 0 < |EntriesOf(v2.t[root], v2.d)| <= |EntriesOf(v1.t[root], v1.d)| + 1
          && v2.list == v1.list)
  }

  /** An inode was saved in between: neither the table nor the data area changed. */
  ghost predicate Saved(v2: View, v3: View) {
    v3.t == v2.t && v3.list == v2.list && v3.d[DATA_START_BLK..] == v2.d[DATA_START_BLK..]
  }

  /** There is room to create a directory and link it into a small root. */
  ghost predicate RoomForDir(v: View, root: uint16, name: seq<byte>) {
    && root < INODE_TOTAL && |v.list| >= 2
    && Key(name) !in DirOf(v.t[root], v.d)
    && EntriesOf(v.t[root], v.d) != [] && Small(|EntriesOf(v.t[root], v.d)|)
  }

  lemma RoomLeft(v0: View, v1: View, root: uint16, ino: uint16, name: seq<byte>)
    requires DirMade(v0, v1, root, ino) && RoomForDir(v0, root, name)
    ensures RoomForName(v1, root, name)
    ensures EntriesOf(v1.t[root], v1.d) == EntriesOf(v0.t[root], v0.d)
  {
    KeptByOthers(v0, v1, ino as nat);
    assert v1.t[root] == v0.t[root] && EntriesOf(v1.t[root], v1.d) == EntriesOf(v0.t[root], v0.d);
    hide Consistent, OthersKept, Readable, EntriesOf, Dots, Key, Dir, IsDirectory;
  }

  lemma MadeDir(v0: View, v1: View, root: uint16, ino: uint16)
    requires DirMade(v0, v1, root, ino) && v0.list != []
    ensures DirIs(v1.t, v1.d, ino as nat, DotsMap(ino, root))
  {
    DotsNamed(ino, root);
    hide Consistent, OthersKept, Readable, EntriesOf, Dots, DotsMap, Dir, IsDirectory;
  }

  /** Created (v1), linked into the root (v2), saved (v3). */
  lemma DirAddedFrom(v0: View, v1: View, v2: View, v3: View, root: uint16, ino: uint16, name: seq<byte>)
    requires DirMade(v0, v1, root, ino) && NameAdded(v1, v2, root, ino, name) && Saved(v2, v3)
    requires RoomForDir(v0, root, name)
    ensures DirAdded(v0, v3, root, ino, name)
  {
    RoomLeft(v0, v1, root, ino, name);
    MadeDir(v0, v1, root, ino);
    KeptByOthers(v0, v1, ino as nat);
    KeptByOthers(v1, v2, root as nat);
    KeptSameData(v2.t, v2.d, v3.d);
    assert v3.t[root] == v2.t[root] && EntriesOf(v3.t[root], v3.d) == EntriesOf(v2.t[root], v2.d);
    hide Consistent, OthersKept, Readable, EntriesOf, Dots, DotsMap, Key, Dir, IsDirectory;
    KeptThen(v0.t, v0.d, v1.t, v1.d, v2.t, v2.d, {ino as nat}, {root as nat});
    KeptThen(v0.t, v0.d, v2.t, v2.d, v3.t, v3.d, {ino as nat} + {root as nat}, {});
    KeptAfter(v1.t, v1.d, v2.t, v2.d, {root as nat}, ino as nat, DotsMap(ino, root));
    KeptAfter(v2.t, v2.d, v3.t, v3.d, {}, ino as nat, DotsMap(ino, root));
    hide DirIs, DirsKept;
    assert {ino as nat} + {root as nat} + {} == {root as nat, ino as nat};
  }

  /** The root of a new volume has room for /etc. */
  lemma FreshRoot(v: View, root: uint16)
    requires root < INODE_TOTAL && root != 0 && |v.list| >= 4 && EntriesOf(v.t[root], v.d) == Dots(root, root)
    ensures RoomForDir(v, root, ETC) && DirOf(v.t[root], v.d) == DotsMap(root, root)
  {
    NamesStillFree(root, root);
    DotsNamed(root, root);
    hide EntriesOf, Key, Dir, Dots, DotsMap;
  }

  /** Then it has room for /home. */
  lemma EtcAdded(v0: View, v: View, root: uint16, etc: uint16)
    requires root < INODE_TOTAL && root != 0 && |v0.list| >= 4 && EntriesOf(v0.t[root], v0.d) == Dots(root, root)
    requires DirAdded(v0, v, root, etc, ETC)
    ensures RoomForDir(v, root, HOME) && |v.list| == |v0.list| - 1
  {
    NamesStillFree(root, etc);
    DotsNamed(root, root);
    hide EntriesOf, Key, Dir, Dots, DotsMap, DirIs, DirsKept;
  }

  /** And then it is complete. */
  lemma HomeAdded(v0: View, v1: View, v2: View)
    requires EntriesOf(v0.t[1], v0.d) == Dots(1, 1) && DirAdded(v0, v1, 1, 2, ETC) && DirAdded(v1, v2, 1, 3, HOME)
    requires IsDirectory(v2.t[1]) && Readable(v2.t[1], v2.d)
    ensures SystemTree(v2.t, v2.d) && |v2.list| == |v1.list| - 1
  {
    DotsNamed(1, 1);
    hide EntriesOf, Key, Readable, Dir, Dots, IsDirectory;
    assert DirOf(v2.t[1], v2.d) == RootMap(1, 2, 3);
    KeptAfter(v1.t, v1.d, v2.t, v2.d, {1, 3}, 2, DotsMap(2, 1));
    hide DirsKept;
  }

  /** The names of a fresh volume, spelled out. */
  lemma NamesSpelled(t: Table, d: Image)
    requires SystemTree(t, d)
    ensures DirOf(t[1], d) ==
            map[Key([0x2E]) := 1, Key([0x2E, 0x2E]) := 1, Key([0x65, 0x74, 0x63]) := 2,
                Key([0x68, 0x6F, 0x6D, 0x65]) := 3]
    ensures DirOf(t[2], d) == map[Key([0x2E]) := 2, Key([0x2E, 0x2E]) := 1]
    ensures DirOf(t[3], d) == map[Key([0x2E]) := 3, Key([0x2E, 0x2E]) := 1]
  {
    hide Key, Readable, Dir, EntriesOf, IsDirectory;
  }

  lemma FirstThree(live: set<uint16>)
    requires live == {1} + {2} + {3}
    ensures live == {1, 2, 3}
  {
  }

  /** Saving the super block changes no directory. */
  lemma StillThere(t: Table, d0: Image, d: Image, i: nat, m: map<Name, uint16>)
    requires DirIs(t, d0, i, m) && d[DATA_START_BLK..] == d0[DATA_START_BLK..]
    ensures DirIs(t, d, i, m)
  {
    KeptSameData(t, d0, d);
    hide DirIs, DirsKept;
    KeptAfter(t, d0, t, d, {}, i, m);
  }

  /** A new directory took its block for its first entries, if one was free, and the tree is still live. */
  lemma DirStarted(v0: View, v: View, ino: uint16, parent: uint16, live: set<uint16>)
    requires Consistent(v0) && OthersKept(v0, v, ino as nat) && ino < INODE_TOTAL && LiveTree(v0.t, v0.d, live)
    requires ino in live && parent in live
    requires EntriesOf(v.t[ino], v.d) == [] || EntriesOf(v.t[ino], v.d) == Dots(ino, parent)
    ensures v0.list != [] ==> RoomForEntry(v0, ino, 0)
    ensures TookEntry(v0, v, ino, 0) && NoBlocks(v0.t[ino].addr) ==> |v.list| == |v0.list| - 1
    ensures LiveTree(v.t, v.d, live)
  {
    hide Consistent, OthersKept, LiveTree, EntriesOf, Readable, NoBlocks, Dots, RoomForEntry, TookEntry;
    SmallRoom(v0, v, ino as nat, 0);
    DotsLive(ino, parent, live);
    LiveTreeInitialised(v0, v, ino, live);
  }

  // ---------- walking from the root ----------

  /** Both system directories are found from the root, and lead back to it. */
  lemma SystemPaths(t: Table, d: Image, root: uint16, etc: uint16, home: uint16)
    requires DirIs(t, d, root, RootMap(root, etc, home))
    requires DirIs(t, d, etc, DotsMap(etc, root)) && DirIs(t, d, home, DotsMap(home, root))
    ensures Resolve(t, d, Split([SLASH] + ETC), root) == etc && Resolve(t, d, Split([SLASH] + HOME), root) == home
    ensures Resolve(t, d, Split([SLASH] + ETC + [SLASH] + DOT), root) == etc
    ensures Resolve(t, d, Split([SLASH] + HOME + [SLASH] + DOT), root) == home
    ensures Resolve(t, d, Split([SLASH] + ETC + [SLASH] + DOT_DOT), root) == root
    ensures Resolve(t, d, Split([SLASH] + HOME + [SLASH] + DOT_DOT), root) == root
  {
    KeysDiffer();
    hide Readable, DirOf, Key;
    WalkTwo(t, d, root, ETC, DOT_DOT);
    WalkTwo(t, d, root, HOME, DOT_DOT);
    WalkTwo(t, d, root, ETC, DOT);
    WalkTwo(t, d, root, HOME, DOT);
  }

  lemma WalkTwo(t: Table, d: Image, root: uint16, x: seq<byte>, y: seq<byte>)
    requires IsName(x) && IsName(y)
    ensures Resolve(t, d, Split([SLASH] + x), root) == Step(t, d, root, x)
    ensures Resolve(t, d, Split([SLASH] + x + [SLASH] + y), root) == Step(t, d, Step(t, d, root, x), y)
  {
    hide Step, Split;
    SplitJoin([x]);
    assert [x][1..] == [] && [SLASH] + x + Paths.Join([]) == [SLASH] + x;
    assert Paths.Join([x]) == [SLASH] + x;
    SplitJoin([x, y]);
    assert [x, y][1..] == [y] && [y][1..] == [];
    assert Paths.Join([y]) == [SLASH] + y by {
      assert [SLASH] + y + Paths.Join([]) == [SLASH] + y;
    }
    assert Paths.Join([x, y]) == [SLASH] + x + [SLASH] + y by {
      assert [SLASH] + x + ([SLASH] + y) == [SLASH] + x + [SLASH] + y;
    }
    ResolveTwo(t, d, root, x, y);
  }

  lemma ResolveTwo(t: Table, d: Image, root: uint16, x: seq<byte>, y: seq<byte>)
    ensures Resolve(t, d, [x], root) == Step(t, d, root, x)
    ensures Resolve(t, d, [x, y], root) == Step(t, d, Step(t, d, root, x), y)
  {
    hide Step;
    assert [x, y][1..] == [y] && [y][1..] == [] && [x][1..] == [];
    assert Resolve(t, d, [y], Step(t, d, root, x)) == Resolve(t, d, [], Step(t, d, Step(t, d, root, x), y));
    assert Resolve(t, d, [x], root) == Resolve(t, d, [], Step(t, d, root, x));
  }
}
