/** A volume at rest: what a disk must hold for the engine to find everything again when it is mounted. */
module Volumes {
  import opened Bytes
  import opened BlockDevices
  import opened FreeLists
  import opened FreeListLaws
  import opened SuperImages
  import opened InodeTrees
  import opened InodeWalks
  import opened InodeViews
  import opened DiskInodes
  import opened InodeCaches
  import opened InodeLives

  /** The inode table, who owns which block, the inodes in use, the free list with its groups, and the managed
      ranges. */
  datatype Volume = Volume(t: Table, owner: map<uint16, Place>, live: set<uint16>, chain: seq<uint16>,
                           list: seq<uint16>, lo: nat, base: nat, inodes: nat)

  ghost function NoSlots(): (slots: seq<Slot>)
    ensures |slots| == CACHE_SIZE && forall i :: 0 <= i < CACHE_SIZE ==> slots[i].Empty?
  {
    seq<Slot>(CACHE_SIZE, _ => Empty)
  }

  /** The super block `im` and the disk hold volume `vol`. */
  ghost predicate Holds(im: SuperImage, d: Image, vol: Volume) {
    && im.Wf() && im.ninode <= NICINOD
    && Represents(FreeList(im.nfree, im.free, im.freeTotal, d), vol.chain, vol.list)
    && Consistent(View(d, vol.t, vol.owner, vol.list, vol.lo))
    && Counted(im.inodeTotal, vol.live, vol.base)
    && CacheAndLife(NoSlots(), im.inodes[..im.ninode], vol.live, vol.t, d, vol.base, vol.inodes)
  }

  /** The disk alone holds the volume: its super block is the saved one. */
  ghost predicate OnDisk(d: Image, vol: Volume) {
    Holds(Decode(d[SUPER_BLK]), d, vol)
  }

  /** What a disk holds is settled by the disk and the managed ranges: no two volumes on it differ. */
  lemma OneVolume(d: Image, x: Volume, y: Volume)
    requires OnDisk(d, x) && OnDisk(d, y) && x.base == y.base && x.inodes == y.inodes && x.lo == y.lo
    ensures x.t == y.t && x.live == y.live && x.list == y.list && x.chain == y.chain && x.owner == y.owner
  {
    var im := Decode(d[SUPER_BLK]);
    RepresentationUnique(FreeList(im.nfree, im.free, im.freeTotal, d), x.chain, x.list, y.chain, y.list);
    hide Represents, Decode, DiskInode, Trees;
    SameTables(d, x, y);
    SameLive(im.inodes[..im.ninode], x, y, d);
    hide Accounted, CacheAndLife;
    SameOwners(d, x.t, x.owner, y.owner);
  }

  lemma SameTables(d: Image, x: Volume, y: Volume)
    requires CacheOk(NoSlots(), x.t, d) && CacheOk(NoSlots(), y.t, d)
    ensures x.t == y.t
  {
    hide DiskInode;
    forall i | 0 <= i < INODE_TOTAL ensures x.t[i] == y.t[i] {
      assert !Cached(NoSlots(), i);
    }
  }

  lemma SameLive(stack: seq<uint16>, x: Volume, y: Volume, d: Image)
    requires LiveOk(stack, x.live, NoSlots(), x.t, x.base, x.inodes)
    requires LiveOk(stack, y.live, NoSlots(), y.t, y.base, y.inodes)
    requires x.base == y.base && x.inodes == y.inodes
    ensures x.live == y.live
  {
    forall n: uint16 ensures n in x.live <==> n in y.live {
    }
  }

  /** The trees on a disk settle who owns which block. */
  lemma SameOwners(d: Image, t: Table, x: map<uint16, Place>, y: map<uint16, Place>)
    requires Trees(d, t, x) && Trees(d, t, y)
    ensures x == y
  {
    hide At;
    forall b | b in x ensures b in y && y[b] == x[b] {
      assert At(t[x[b].ino].addr, d, x[b].ref) == b;
    }
    forall b | b in y ensures b in x {
      assert At(t[y[b].ino].addr, d, y[b].ref) == b;
    }
  }
}
