/** Paths: splitting them into names, and what walking them through directories means. */
module Paths {
  import opened Bytes
  import opened BlockDevices
  import opened FreeLists
  import opened InodeTrees
  import opened InodeCaches
  import opened InodeViews
  import opened FileContents
  import opened DirEntries
  import opened DirFiles

  const SLASH: byte := 0x2F
  const MODE_DIR := 0x0800

  // ---------- splitting ----------

  /** The position of the first slash, or the end. */
  function SlashAt(s: seq<byte>): (e: nat)
    ensures e <= |s| && (e < |s| ==> s[e] == SLASH) && SLASH !in s[..e]
  {
    if s == [] || s[0] == SLASH then 0 else
      var e := SlashAt(s[1..]);
      assert s[..e + 1] == [s[0]] + s[1..][..e];
      1 + e
  }

  /** The names of a path; slashes at either end and repeated slashes do not count. */
  function Split(s: seq<byte>): seq<seq<byte>>
    decreases |s|
  {
    if s == [] then [] else
    if s[0] == SLASH then Split(s[1..]) else
      [s[..SlashAt(s)]] + Split(s[SlashAt(s)..])
  }

  predicate IsName(n: seq<byte>) {
    n != [] && SLASH !in n
  }

  lemma {:induction false} SplitGivesNames(s: seq<byte>)
    ensures forall i :: 0 <= i < |Split(s)| ==> IsName(Split(s)[i])
    decreases |s|
  {
    if s != [] {
      if s[0] == SLASH {
        SplitGivesNames(s[1..]);
      } else {
        SplitGivesNames(s[SlashAt(s)..]);
      }
    }
  }

  /** Names with a slash before each. */
  function Join(names: seq<seq<byte>>): seq<byte> {
    if names == [] then [] else [SLASH] + names[0] + Join(names[1..])
  }

  /** Splitting undoes joining, whatever the names. */
  lemma {:induction false} SplitJoin(names: seq<seq<byte>>)
    requires forall i :: 0 <= i < |names| ==> IsName(names[i])
    ensures Split(Join(names)) == names
  {
    if names != [] {
      var n, rest := names[0], Join(names[1..]);
      SplitJoin(names[1..]);
      assert Join(names) == [SLASH] + n + rest;
      JoinStarts(names[1..]);
      hide Join, Split;
      SplitSlash(n, rest);
      SlashAfter(n, rest);
      SplitFirst(n, rest);
      assert [n] + names[1..] == names;
    }
  }

  lemma JoinStarts(names: seq<seq<byte>>)
    ensures Join(names) == [] || Join(names)[0] == SLASH
  {
  }

  lemma SplitSlash(n: seq<byte>, rest: seq<byte>)
    ensures Split([SLASH] + n + rest) == Split(n + rest)
  {
    assert ([SLASH] + n + rest)[1..] == n + rest;
  }

  lemma SplitFirst(n: seq<byte>, rest: seq<byte>)
    requires IsName(n) && SlashAt(n + rest) == |n|
    ensures Split(n + rest) == [n] + Split(rest)
  {
    assert n[0] in n;
    assert (n + rest)[..|n|] == n && (n + rest)[|n|..] == rest;
  }

  lemma {:induction false} SlashAfter(n: seq<byte>, rest: seq<byte>)
    requires SLASH !in n && (rest == [] || rest[0] == SLASH)
    ensures SlashAt(n + rest) == |n|
  {
    if n == [] {
      assert n + rest == rest;
    } else {
      assert n[0] in n && SLASH !in n[1..];
      assert (n + rest)[1..] == n[1..] + rest;
      SlashAfter(n[1..], rest);
    }
  }

  function SplitFrom(path: seq<byte>, start: nat): seq<seq<byte>> {
    Split(path[Min(start, |path|)..])
  }

  /** Cuts a path at its slashes, skipping empty pieces. */
  method SplitPath(path: seq<byte>) returns (parts: seq<seq<byte>>)
    ensures parts == Split(path)
  {
    hide Split, SplitFrom;
    parts := [];
    var start := 0;
    WholePath(path);
    while start < |path|
      invariant 0 <= start && parts + SplitFrom(path, start) == Split(path)
    {
      if path[start] == SLASH {
        SkipSlash(path, start);
        start := start + 1;
      } else {
        var end := FindSlash(path, start);
        EndOfName(path, start, end);
        Regroup(parts, path[start..end], SplitFrom(path, end + 1));
        parts := parts + [path[start..end]];
        start := end + 1;
      }
    }
    PastPath(path, start);
  }

  method FindSlash(path: seq<byte>, start: nat) returns (end: nat)
    requires start < |path| && path[start] != SLASH
    ensures start < end <= |path| && SLASH !in path[start..end] && (end < |path| ==> path[end] == SLASH)
  {
    end := start;
    while end < |path| && path[end] != SLASH
      invariant start <= end <= |path| && SLASH !in path[start..end]
    {
      end := end + 1;
    }
  }

  lemma WholePath(path: seq<byte>)
    ensures SplitFrom(path, 0) == Split(path)
  {
    assert path[0..] == path;
  }

  lemma SkipSlash(path: seq<byte>, start: nat)
    requires start < |path| && path[start] == SLASH
    ensures SplitFrom(path, start) == SplitFrom(path, start + 1)
  {
    assert path[start..][1..] == path[start + 1..];
  }

  lemma PastPath(path: seq<byte>, start: nat)
    requires start >= |path|
    ensures SplitFrom(path, start) == []
  {
  }

  lemma Regroup(parts: seq<seq<byte>>, n: seq<byte>, rest: seq<seq<byte>>)
    ensures parts + ([n] + rest) == (parts + [n]) + rest
  {
  }

  lemma EndOfName(path: seq<byte>, start: nat, end: nat)
    requires start < end <= |path| && SLASH !in path[start..end] && (end < |path| ==> path[end] == SLASH)
    ensures SplitFrom(path, start) == [path[start..end]] + SplitFrom(path, end + 1)
  {
    var rest, name, tail := path[start..], path[start..end], path[end..];
    assert rest == name + tail && rest[0] == name[0];
    SlashAfter(name, tail);
    assert rest[..end - start] == name && rest[end - start..] == tail;
    if end < |path| {
      SkipSlash(path, end);
    } else {
      assert tail == path[|path|..];
    }
  }

  // ---------- walking ----------

  predicate IsDirectory(di: DInode) {
    di.mode / MODE_DIR % 2 == 1
  }

  /** Absolute paths start at the root, others at the current directory. */
  function StartOf(path: seq<byte>, cwd: uint16, root: uint16): uint16 {
    if path != [] && path[0] == SLASH then root else cwd
  }

  /** One step of a walk: the name looked up in the inode, if that is a directory. */
  ghost function Step(t: Table, d: Image, cur: uint16, name: seq<byte>): uint16 {
    if cur < INODE_TOTAL && IsDirectory(t[cur]) then Found(t[cur], d, Key(name)) else INVALID_BLK
  }

  ghost function Resolve(t: Table, d: Image, parts: seq<seq<byte>>, cur: uint16): uint16 {
    if parts == [] then cur else Resolve(t, d, parts[1..], Step(t, d, cur, parts[0]))
  }

  lemma {:induction false} ResolveInvalid(t: Table, d: Image, parts: seq<seq<byte>>)
    ensures Resolve(t, d, parts, INVALID_BLK) == INVALID_BLK
  {
    if parts != [] {
      ResolveInvalid(t, d, parts[1..]);
    }
  }

  /** Walking a whole path is walking to its parent and looking the last name up there. */
  lemma {:induction false} ResolveLast(t: Table, d: Image, parts: seq<seq<byte>>, name: seq<byte>, cur: uint16)
    ensures Resolve(t, d, parts + [name], cur) == Step(t, d, Resolve(t, d, parts, cur), name)
  {
    if parts == [] {
      assert ([name])[1..] == [];
      assert Resolve(t, d, [], Step(t, d, cur, name)) == Step(t, d, cur, name);
      assert parts + [name] == [name];
    } else {
      assert (parts + [name])[1..] == parts[1..] + [name];
      ResolveLast(t, d, parts[1..], name, Step(t, d, cur, parts[0]));
    }
  }

  /** What the last step of a walk finds, read off the directory it is taken in. */
  ghost predicate Leads(t: Table, d: Image, dir: uint16, name: seq<byte>, ino: uint16) {
    if dir < INODE_TOTAL && t[dir].mode / 0x0800 % 2 == 1 && Readable(t[dir], d) && Key(name) in DirOf(t[dir], d) then
      ino == DirOf(t[dir], d)[Key(name)]
    else ino == INVALID_BLK
  }

  lemma StepLeads(t: Table, d: Image, cur: uint16, name: seq<byte>)
    ensures Leads(t, d, cur, name, Step(t, d, cur, name))
  {
    hide Readable, DirOf, Key;
  }

  /** A walk of at least one name ends where the last name leads from the directory before it. */
  lemma WalkLeads(t: Table, d: Image, parts: seq<seq<byte>>, cur: uint16)
    requires parts != []
    ensures Leads(t, d, Resolve(t, d, parts[..|parts| - 1], cur), parts[|parts| - 1], Resolve(t, d, parts, cur))
  {
    hide Leads, Step;
    var n := |parts| - 1;
    assert parts[..n] + [parts[n]] == parts;
    ResolveLast(t, d, parts[..n], parts[n], cur);
    StepLeads(t, d, Resolve(t, d, parts[..n], cur), parts[n]);
  }

  // ---------- walking with a cache that may be full ----------

  /** One step as the program takes it: an inode that cannot be opened looks like a missing one. */
  ghost function StepOpen(t: Table, d: Image, slots: seq<Slot>, cur: uint16, name: seq<byte>): uint16 {
    if CanOpen(slots, cur) then Step(t, d, cur, name) else INVALID_BLK
  }

  ghost function WalkOpen(t: Table, d: Image, slots: seq<Slot>, parts: seq<seq<byte>>, cur: uint16): uint16 {
    if parts == [] then cur else WalkOpen(t, d, slots, parts[1..], StepOpen(t, d, slots, cur, parts[0]))
  }

  /** With a free slot the cache does not matter. */
  lemma {:induction false} WalkResolves(t: Table, d: Image, slots: seq<Slot>, parts: seq<seq<byte>>, cur: uint16,
      s: nat)
    requires s < |slots| && slots[s].Empty?
    ensures WalkOpen(t, d, slots, parts, cur) == Resolve(t, d, parts, cur)
  {
    hide Step;
    if parts != [] {
      WalkResolves(t, d, slots, parts[1..], Step(t, d, cur, parts[0]), s);
    }
  }

  /** The walk meets an inode that cannot be opened. */
  ghost predicate Blocked(t: Table, d: Image, slots: seq<Slot>, parts: seq<seq<byte>>, cur: uint16) {
    parts != [] && (!CanOpen(slots, cur) || Blocked(t, d, slots, parts[1..], Step(t, d, cur, parts[0])))
  }

  /** Whatever the cache, a walk finds what the maps say or nothing, and nothing exactly when it is blocked or the
      maps say so. */
  lemma {:induction false} WalkResolvesIff(t: Table, d: Image, slots: seq<Slot>, parts: seq<seq<byte>>, cur: uint16)
    ensures WalkOpen(t, d, slots, parts, cur) ==
              if Blocked(t, d, slots, parts, cur) then INVALID_BLK else Resolve(t, d, parts, cur)
    ensures WalkOpen(t, d, slots, parts, cur) == Resolve(t, d, parts, cur) <==>
            Resolve(t, d, parts, cur) == INVALID_BLK || !Blocked(t, d, slots, parts, cur)
  {
    hide Step, CanOpen;
    if parts != [] {
      if CanOpen(slots, cur) {
        WalkResolvesIff(t, d, slots, parts[1..], Step(t, d, cur, parts[0]));
      } else {
        WalkInvalid(t, d, slots, parts[1..]);
      }
    }
  }

  /** A cache full of other inodes: no name below an inode outside it is found, whatever the maps say. */
  lemma FullCache(t: Table, d: Image, slots: seq<Slot>, name: seq<byte>, cur: uint16)
    requires |slots| == CACHE_SIZE && forall s :: 0 <= s < CACHE_SIZE ==>
              slots[s] == Held(100 + s, t[100 + s], 1, false)
    requires cur < 100 && Step(t, d, cur, name) != INVALID_BLK
    ensures Blocked(t, d, slots, [name], cur)
    ensures WalkOpen(t, d, slots, [name], cur) == INVALID_BLK != Resolve(t, d, [name], cur)
  {
    hide Step;
    assert [name][1..] == [];
    assert Resolve(t, d, [], Step(t, d, cur, name)) == Step(t, d, cur, name);
    WalkResolvesIff(t, d, slots, [name], cur);
  }

  lemma {:induction false} WalkInvalid(t: Table, d: Image, slots: seq<Slot>, parts: seq<seq<byte>>)
    ensures WalkOpen(t, d, slots, parts, INVALID_BLK) == INVALID_BLK
  {
    hide CanOpen;
    if parts != [] {
      WalkInvalid(t, d, slots, parts[1..]);
    }
  }

  lemma {:induction false} WalkLast(t: Table, d: Image, slots: seq<Slot>, parts: seq<seq<byte>>, name: seq<byte>,
      cur: uint16)
    ensures WalkOpen(t, d, slots, parts + [name], cur) == StepOpen(t, d, slots, WalkOpen(t, d, slots, parts, cur), name)
  {
    hide StepOpen;
    if parts == [] {
      assert ([name])[1..] == [];
      assert WalkOpen(t, d, slots, [], StepOpen(t, d, slots, cur, name)) == StepOpen(t, d, slots, cur, name);
      assert parts + [name] == [name];
    } else {
      assert (parts + [name])[1..] == parts[1..] + [name];
      WalkLast(t, d, slots, parts[1..], name, StepOpen(t, d, slots, cur, parts[0]));
    }
  }

  /** A walk does not notice a write outside the data area. */
  lemma FoundSameData(d: Image, d': Image)
    requires d'[DATA_START_BLK..] == d[DATA_START_BLK..]
    ensures forall di: DInode, key: Name {:trigger Found(di, d', key)} :: Found(di, d', key) == Found(di, d, key)
  {
    ContentSameData(d, d');
    hide Content, NoHole, Parse, Dir;
  }

  /** The first dead inode a walk would open, or INVALID_BLK. */
  ghost function DeadOn(t: Table, d: Image, live: set<uint16>, parts: seq<seq<byte>>, cur: uint16): uint16 {
    if parts == [] || cur >= INODE_TOTAL then INVALID_BLK
    else if cur !in live then cur
    else DeadOn(t, d, live, parts[1..], Step(t, d, cur, parts[0]))
  }

  /** A walk of at least one name opens its start, and goes on only from a live inode. */
  lemma DeadOnStep(t: Table, d: Image, live: set<uint16>, parts: seq<seq<byte>>, i: nat, cur: uint16)
    requires i < |parts|
    ensures cur < INODE_TOTAL && cur in live ==>
              DeadOn(t, d, live, parts[i..], cur) == DeadOn(t, d, live, parts[i + 1..], Step(t, d, cur, parts[i]))
    ensures cur < INODE_TOTAL && cur !in live ==> DeadOn(t, d, live, parts[i..], cur) == cur
    ensures cur >= INODE_TOTAL ==>
              DeadOn(t, d, live, parts[i..], cur) == INVALID_BLK == Step(t, d, cur, parts[i])
    ensures Resolve(t, d, parts[i..], cur) == Resolve(t, d, parts[i + 1..], Step(t, d, cur, parts[i]))
  {
    assert parts[i..][0] == parts[i] && parts[i..][1..] == parts[i + 1..];
  }

  /** Every inode a live directory names is live. */
  ghost predicate LiveTree(t: Table, d: Image, live: set<uint16>) {
    forall i, key: Name {:trigger Found(t[i], d, key)} ::
          i in live && i < INODE_TOTAL && IsDirectory(t[i]) && Found(t[i], d, key) < INODE_TOTAL ==>
      Found(t[i], d, key) in live
  }

  lemma ReadableSameData(di: DInode, d: Image, d': Image)
    requires d'[DATA_START_BLK..] == d[DATA_START_BLK..]
    ensures Readable(di, d') <==> Readable(di, d)
  {
    ContentSameData(d, d');
    hide Content, NoHole;
    assert NoHole(di.addr, d', di.size) <==> NoHole(di.addr, d, di.size);
  }

  lemma StepSameData(t: Table, d: Image, d': Image, cur: uint16, name: seq<byte>)
    requires d'[DATA_START_BLK..] == d[DATA_START_BLK..]
    ensures Step(t, d', cur, name) == Step(t, d, cur, name)
  {
    FoundSameData(d, d');
    hide Found;
  }

  /** While every name leads to a live inode, a walk from one meets no dead one. */
  lemma {:induction false} LiveWalk(t: Table, d: Image, live: set<uint16>, parts: seq<seq<byte>>, cur: uint16)
    requires LiveTree(t, d, live) && (cur < INODE_TOTAL ==> cur in live)
    ensures DeadOn(t, d, live, parts, cur) == INVALID_BLK
    ensures Resolve(t, d, parts, cur) < INODE_TOTAL ==> Resolve(t, d, parts, cur) in live
  {
    hide Step, LiveTree;
    if parts != [] {
      StepStaysLive(t, d, live, cur, parts[0]);
      LiveWalk(t, d, live, parts[1..], Step(t, d, cur, parts[0]));
    }
  }

  lemma StepStaysLive(t: Table, d: Image, live: set<uint16>, cur: uint16, name: seq<byte>)
    requires LiveTree(t, d, live) && (cur < INODE_TOTAL ==> cur in live)
    ensures Step(t, d, cur, name) < INODE_TOTAL ==> Step(t, d, cur, name) in live
  {
    hide Found, Key;
  }

  // ---------- what keeps the tree live ----------

  lemma FoundOthers(v0: View, v: View, ino: nat, i: nat, key: Name)
    requires Consistent(v0) && OthersKept(v0, v, ino) && i < INODE_TOTAL && i != ino
    ensures v.t[i] == v0.t[i] && Found(v.t[i], v.d, key) == Found(v0.t[i], v0.d, key)
  {
    ReadsAsBefore(v0, v, ino, i);
    hide OthersKept, Readable, EntriesOf, Dir, Consistent;
  }

  /** Every other directory reads as before. */
  lemma ReadsAsBefore(v0: View, v: View, ino: nat, i: nat)
    requires Consistent(v0) && OthersKept(v0, v, ino) && i < INODE_TOTAL && i != ino
    ensures v.t[i] == v0.t[i] && (Readable(v.t[i], v.d) <==> Readable(v0.t[i], v0.d))
    ensures EntriesOf(v.t[i], v.d) == EntriesOf(v0.t[i], v0.d)
  {
    OthersContent(v0, v, ino);
    OthersRecord(v0, v, ino, i);
    hide OthersKept, Content, NoHole, Parse, Consistent;
    assert Content(v.t[i], v.d) == Content(v0.t[i], v0.d);
    assert NoHole(v.t[i].addr, v.d, v.t[i].size) <==> NoHole(v0.t[i].addr, v0.d, v.t[i].size);
  }

  lemma OthersRecord(v0: View, v: View, ino: nat, i: nat)
    requires OthersKept(v0, v, ino) && i < INODE_TOTAL && i != ino
    ensures v.t[i] == v0.t[i]
  {
  }

  /** Rewriting one directory keeps the tree live when everything it now names is live. */
  lemma LiveTreeStored(v0: View, v: View, ino: uint16, live: set<uint16>)
    requires Consistent(v0) && OthersKept(v0, v, ino as int) && ino < INODE_TOTAL && LiveTree(v0.t, v0.d, live)
    requires forall key: Name {:trigger Found(v.t[ino], v.d, key)} :: Found(v.t[ino], v.d, key) < INODE_TOTAL ==>
              Found(v.t[ino], v.d, key) in live
    ensures LiveTree(v.t, v.d, live)
  {
    hide Found, Consistent, OthersKept;
    forall i, key: Name | i in live && i < INODE_TOTAL && IsDirectory(v.t[i]) && Found(v.t[i], v.d, key) < INODE_TOTAL
      ensures Found(v.t[i], v.d, key) in live
    {
      if i != ino {
        FoundOthers(v0, v, ino, i, key);
      }
    }
  }

  /** A new inode, still empty, keeps the tree live. */
  lemma LiveTreeCreated(t: Table, d: Image, live: set<uint16>, ino: uint16, di: DInode)
    requires LiveTree(t, d, live) && ino < INODE_TOTAL && di.size == 0
    ensures LiveTree(t[ino := di], d, live + {ino})
  {
    forall key: Name ensures Found(di, d, key) == INVALID_BLK {
    }
    hide Found;
    var t', live' := t[ino := di], live + {ino};
    forall i, key: Name | i in live' && i < INODE_TOTAL && IsDirectory(t'[i]) && Found(t'[i], d, key) < INODE_TOTAL
      ensures Found(t'[i], d, key) in live'
    {
      if i != ino {
        assert Found(t[i], d, key) in live;
      }
    }
  }

  /** Linking a live inode, or failing to, keeps the tree live. */
  lemma LiveTreeLinked(v0: View, v: View, ino: uint16, live: set<uint16>, key: Name, x: uint16)
    requires Consistent(v0) && OthersKept(v0, v, ino as int) && ino < INODE_TOTAL && LiveTree(v0.t, v0.d, live)
    requires ino in live && x in live && IsDirectory(v0.t[ino]) && Readable(v0.t[ino], v0.d) && Readable(v.t[ino], v.d)
    requires DirOf(v.t[ino], v.d) == DirOf(v0.t[ino], v0.d) || DirOf(v.t[ino], v.d) == DirOf(v0.t[ino], v0.d)[key := x]
    ensures LiveTree(v.t, v.d, live)
  {
    hide OthersKept, Consistent, Readable, DirOf;
    forall k: Name | Found(v.t[ino], v.d, k) < INODE_TOTAL ensures Found(v.t[ino], v.d, k) in live {
      if k in DirOf(v0.t[ino], v0.d) {
        assert Found(v0.t[ino], v0.d, k) == DirOf(v0.t[ino], v0.d)[k];
      }
    }
    hide Found;
    LiveTreeStored(v0, v, ino, live);
  }

  /** A new directory that names only live inodes, or nothing, keeps the tree live. */
  lemma LiveTreeInitialised(v0: View, v: View, ino: uint16, live: set<uint16>)
    requires Consistent(v0) && OthersKept(v0, v, ino as int) && ino < INODE_TOTAL && LiveTree(v0.t, v0.d, live)
    requires forall e :: e in EntriesOf(v.t[ino], v.d) ==> e.ino == 0 || e.ino in live
    ensures LiveTree(v.t, v.d, live)
  {
    hide OthersKept, Consistent, Readable, EntriesOf, Dir;
    forall k: Name ensures Found(v.t[ino], v.d, k) < INODE_TOTAL ==> Found(v.t[ino], v.d, k) in live {
      DirValues(EntriesOf(v.t[ino], v.d), k, live);
    }
    hide Found;
    LiveTreeStored(v0, v, ino, live);
  }

  /** Writing to a file that is not a directory keeps the tree live. */
  lemma LiveTreeWritten(v0: View, v: View, ino: nat, off: nat, data: seq<byte>, live: set<uint16>)
    requires WroteFile(v0, v, ino, off, data) && !IsDirectory(v0.t[ino]) && LiveTree(v0.t, v0.d, live)
    ensures LiveTree(v.t, v.d, live)
  {
    hide Content, NoHole, Written, Parse, Dir;
    forall i, key: Name | i in live && i < INODE_TOTAL && IsDirectory(v.t[i]) && Found(v.t[i], v.d, key) < INODE_TOTAL
      ensures Found(v.t[i], v.d, key) in live
    {
      assert i != ino;
      assert Found(v.t[i], v.d, key) == Found(v0.t[i], v0.d, key);
    }
  }

  /** Reading may stamp the access time and changes nothing else of any inode. */
  ghost predicate SameButAtime(t0: Table, t: Table) {
    forall i :: 0 <= i < INODE_TOTAL ==> t[i] == t0[i].(atime := t[i].atime)
  }

  /** So does reading. */
  lemma LiveTreeRead(t0: Table, d0: Image, t: Table, d: Image, live: set<uint16>)
    requires LiveTree(t0, d0, live) && d[DATA_START_BLK..] == d0[DATA_START_BLK..]
    requires SameButAtime(t0, t)
    ensures LiveTree(t, d, live)
  {
    FoundSameData(d0, d);
    forall i, key: Name | 0 <= i < INODE_TOTAL ensures Found(t[i], d, key) == Found(t0[i], d0, key) {
      FoundStamped(t0[i], t[i], d0, key);
    }
    hide Found;
  }

  lemma FoundStamped(x: DInode, y: DInode, d: Image, key: Name)
    requires y == x.(atime := y.atime)
    ensures Found(y, d, key) == Found(x, d, key)
  {
    hide NoHole, Parse, Dir, FileBytes;
  }

  /** Taking one name out of a directory keeps the tree live. */
  lemma LiveTreeUnlinked(v0: View, v: View, ino: uint16, live: set<uint16>, key: Name)
    requires Consistent(v0) && OthersKept(v0, v, ino as int) && ino < INODE_TOTAL && LiveTree(v0.t, v0.d, live)
    requires ino in live && IsDirectory(v0.t[ino]) && Readable(v0.t[ino], v0.d)
    requires DirOf(v.t[ino], v.d) == DirOf(v0.t[ino], v0.d) - {key}
    ensures LiveTree(v.t, v.d, live)
  {
    hide OthersKept, Consistent, Readable, DirOf;
    forall k: Name | Found(v.t[ino], v.d, k) < INODE_TOTAL ensures Found(v.t[ino], v.d, k) in live {
      assert Found(v0.t[ino], v0.d, k) == DirOf(v0.t[ino], v0.d)[k];
    }
    hide Found;
    LiveTreeStored(v0, v, ino, live);
  }

  /** No live directory but the inode itself names it. */
  ghost predicate Unnamed(t: Table, d: Image, live: set<uint16>, ino: uint16) {
    forall i, key: Name {:trigger Found(t[i], d, key)} ::
      i in live && i != ino && i < INODE_TOTAL && IsDirectory(t[i]) ==> Found(t[i], d, key) != ino
  }

  /** Destroying an inode keeps the tree live exactly when no other directory names it. */
  lemma LiveTreeDestroyedIff(v0: View, v: View, ino: uint16, live: set<uint16>)
    requires Consistent(v0) && OthersKept(v0, v, ino as int) && ino < INODE_TOTAL && LiveTree(v0.t, v0.d, live)
    ensures LiveTree(v.t, v.d, live - {ino}) <==> Unnamed(v0.t, v0.d, live, ino)
  {
    hide Found, Consistent, OthersKept;
    forall i, key: Name | i != ino && i in live && i < INODE_TOTAL
      ensures v.t[i] == v0.t[i] && Found(v.t[i], v.d, key) == Found(v0.t[i], v0.d, key)
    {
      FoundOthers(v0, v, ino, i, key);
    }
  }

  lemma LiveTreeSameData(t: Table, d: Image, d': Image, live: set<uint16>)
    requires LiveTree(t, d, live) && d'[DATA_START_BLK..] == d[DATA_START_BLK..]
    ensures LiveTree(t, d', live)
  {
    FoundSameData(d, d');
    hide Found;
  }
}
