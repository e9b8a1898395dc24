/** The inode layer's state as one value, and what adding blocks to a file does to it. */
module InodeViews {
  import opened Bytes
  import opened BlockDevices
  import opened FreeLists
  import opened InodeTrees
  import opened InodeWalks

  /** The disk, the inode table, who owns which block, the free list, and the lowest managed block. */
  datatype View = View(d: Image, t: Table, owner: map<uint16, Place>, list: seq<uint16>, lo: nat)

  ghost predicate Consistent(v: View) {
    Trees(v.d, v.t, v.owner) && Accounted(v.list, v.owner, v.lo)
  }

  ghost predicate OnlyAddrChanged(t: Table, t': Table, ino: nat) {
    && ino < |t|
    && (forall i :: 0 <= i < |t| && i != ino ==> t'[i] == t[i])
    && t'[ino] == t[ino].(addr := t'[ino].addr)
  }

  ghost predicate SameHeader(d: Image, d': Image) {
    forall n :: 0 <= n < DATA_START_BLK ==> d'[n] == d[n]
  }

  ghost predicate LeafDataKept(d: Image, d': Image, owner: map<uint16, Place>) {
    forall b {:trigger DataBlock(d', b)} :: b in owner && b < DATA_BLK_NUM && IsLeaf(owner[b].ref) ==>
          DataBlock(d', b) == DataBlock(d, b)
  }

  /** Every block keeps its place, no file data is disturbed, and only blocks popped from the free list
      joined. */
  ghost predicate Grew(v: View, v': View, ino: nat) {
    && v'.lo == v.lo
    && OnlyAddrChanged(v.t, v'.t, ino)
    && SameHeader(v.d, v'.d)
    && (forall b :: b in v.owner ==> b in v'.owner && v'.owner[b] == v.owner[b])
    && (forall b {:trigger v'.owner[b]} {:trigger b in v'.owner} :: b in v'.owner && b !in v.owner ==>
          v'.owner[b].ino == ino)
    && LeafDataKept(v.d, v'.d, v.owner)
    && |v'.list| <= |v.list| && v'.list == v.list[|v.list| - |v'.list|..]
  }

  lemma GrewReflexive(v: View, ino: nat)
    requires ino < |v.t|
    ensures Grew(v, v, ino)
  {
  }

  lemma GrewTransitive(u: View, v: View, w: View, ino: nat)
    requires Grew(u, v, ino) && Grew(v, w, ino)
    requires Trees(u.d, u.t, u.owner)
    ensures Grew(u, w, ino)
  {
    assert forall b :: b in u.owner && IsLeaf(u.owner[b].ref) ==> DataBlock(w.d, b) == DataBlock(v.d, b);
  }

  /** The first free block now sits at position (ino, r), and that is all that happened to the trees. */
  ghost predicate Attached(v: View, v': View, ino: nat, r: Ref, b: uint16) {
    && v.list != [] && b == v.list[0] && v'.list == v.list[1..]
    && v'.lo == v.lo
    && v'.owner == v.owner[b := Place(ino, r)]
    && OnlyAddrChanged(v.t, v'.t, ino)
    && OneKey(v.d, v.t, v'.d, v'.t, ino, r, b)
    && SameHeader(v.d, v'.d)
    && LeafDataKept(v.d, v'.d, v.owner)
  }

  lemma AttachedConsistent(v: View, v': View, ino: nat, r: Ref, b: uint16)
    requires Consistent(v) && Attached(v, v', ino, r, b) && ValidRef(r) && Distinct(v.list) && InData(v.list)
    requires At(v.t[ino].addr, v.d, r) == 0
    ensures Consistent(v') && Grew(v, v', ino)
  {
    assert b in v.list;
    Join(v.d, v.t, v.owner, v'.d, v'.t, ino, r, b);
    hide Trees, OneKey;
    AccountedJoin(v.list, v.owner, v.lo, Place(ino, r));
  }

  /** The first free block belongs to nobody. */
  lemma FirstFree(v: View)
    requires Accounted(v.list, v.owner, v.lo) && v.list != [] && Distinct(v.list) && InData(v.list)
    ensures 0 < v.list[0] < DATA_BLK_NUM && v.list[0] !in v.owner && v.list[0] !in v.list[1..]
  {
    assert v.list[0] in v.list;
    assert forall i :: 1 <= i < |v.list| ==> v.list[i] != v.list[0];
  }

  /** The index block above a position is owned as such, so it is not free. */
  lemma ParentOwned(v: View, ino: nat, r: Ref)
    requires Consistent(v) && ino < |v.t| && ValidRef(r) && InIndexBlock(r)
    ensures var p := At(v.t[ino].addr, v.d, ParentRef(r));
            p != 0 ==>
              && 0 < p < DATA_BLK_NUM && p in v.owner && v.owner[p] == Place(ino, ParentRef(r)) && p !in v.list
              && !IsLeaf(ParentRef(r))
  {
    AtThroughParent(v.t[ino].addr, v.d, r);
  }

  lemma IndexInRange(v: View, ino: nat, r: Ref)
    requires Consistent(v) && ino < |v.t| && ValidRef(r)
    ensures At(v.t[ino].addr, v.d, r) < DATA_BLK_NUM
  {
  }

  lemma NoEntry(d: Image, j: nat)
    requires j < PTRS_PER_BLK
    ensures Entry(d, 0, j) == 0
  {
  }

  lemma AccountedJoin(list: seq<uint16>, owner: map<uint16, Place>, lo: nat, place: Place)
    requires Accounted(list, owner, lo) && list != [] && Distinct(list)
    ensures Accounted(list[1..], owner[list[0] := place], lo)
  {
    assert list == [list[0]] + list[1..];
    assert forall i :: 1 <= i < |list| ==> list[i] != list[0];
    assert list[0] in list && list[0] !in list[1..];
    assert forall b :: b in list <==> b == list[0] || b in list[1..];
  }

  /** Leaf positions are untouched. */
  ghost predicate LeavesKept(v: View, v': View) {
    forall i, r {:trigger At(v'.t[i].addr, v'.d, r)} :: 0 <= i < |v.t| && ValidRef(r) && IsLeaf(r) ==>
      At(v'.t[i].addr, v'.d, r) == At(v.t[i].addr, v.d, r)
  }

  /** Leaf position (ino, r) now holds b, and every other leaf position is untouched. */
  ghost predicate LeafSet(v: View, v': View, ino: nat, r: Ref, b: uint16) {
    forall i, r' {:trigger At(v'.t[i].addr, v'.d, r')} :: 0 <= i < |v.t| && ValidRef(r') && IsLeaf(r') ==>
      At(v'.t[i].addr, v'.d, r') == if i == ino && r' == r then b else At(v.t[i].addr, v.d, r')
  }

  lemma AttachedLeaves(v: View, v': View, ino: nat, r: Ref, b: uint16)
    requires Attached(v, v', ino, r, b) && ValidRef(r)
    ensures !IsLeaf(r) ==> LeavesKept(v, v')
    ensures IsLeaf(r) ==> LeafSet(v, v', ino, r, b)
    ensures At(v'.t[ino].addr, v'.d, r) == b
  {
  }

  lemma LeavesCompose(u: View, v: View, w: View, ino: nat, r: Ref, b: uint16)
    requires LeavesKept(u, v)
    ensures LeavesKept(v, w) ==> LeavesKept(u, w)
    ensures LeafSet(v, w, ino, r, b) ==> LeafSet(u, w, ino, r, b)
  {
  }

  // ---------- mapping one leaf ----------

  /** The blocks missing on the way to a leaf position: its index blocks and the block itself. */
  function Missing(a: Addr, d: Image, r: Ref): nat
    requires ValidRef(r) && IsLeaf(r)
  {
    match r
    case Direct(_) => if At(a, d, r) == 0 then 1 else 0
    case SingleData(k, _) => if At(a, d, Single(k)) == 0 then 2 else if At(a, d, r) == 0 then 1 else 0
    case DoubleData(i, _) =>
      if At(a, d, Double) == 0 then 3 else if At(a, d, DoubleIndex(i)) == 0 then 2
      else if At(a, d, r) == 0 then 1 else 0
  }

  /** What an attempt to map leaf (ino, r) may do.  On success the leaf holds b and every other leaf of
      every inode is as it was; on failure every leaf is, even if index blocks were added. */
  ghost predicate Reached(v: View, v': View, ino: nat, r: Ref, b: uint16) {
    && Consistent(v') && Grew(v, v', ino)
    && if b == INVALID_BLK then LeavesKept(v, v')
       else && ValidRef(r) && 0 < b < DATA_BLK_NUM && ino < |v.t|
            && At(v'.t[ino].addr, v'.d, r) == b
            && LeafSet(v, v', ino, r, b)
            && (b in v.owner ==> v.owner[b] == Place(ino, r))
  }

  lemma ReachedPresent(v: View, ino: nat, r: Ref, b: uint16)
    requires Consistent(v) && ino < |v.t| && ValidRef(r) && IsLeaf(r) && b == At(v.t[ino].addr, v.d, r) && b != 0
    ensures Reached(v, v, ino, r, b)
  {
  }

  lemma ReachedFailed(v: View, ino: nat, r: Ref)
    requires Consistent(v) && ino < |v.t|
    ensures Reached(v, v, ino, r, INVALID_BLK)
  {
  }

  lemma ReachedAttached(v: View, v': View, ino: nat, r: Ref, b: uint16)
    requires Consistent(v) && Attached(v, v', ino, r, b) && ValidRef(r) && IsLeaf(r) && Distinct(v.list)
    requires InData(v.list)
    requires At(v.t[ino].addr, v.d, r) == 0
    ensures Reached(v, v', ino, r, b)
  {
    AttachedConsistent(v, v', ino, r, b);
    AttachedLeaves(v, v', ino, r, b);
    FirstFree(v);
    hide Trees, Accounted, OneKey, LeafSet, LeavesKept, Grew;
  }

  /** An index block was added first. */
  lemma ReachedAfterIndex(u: View, v: View, w: View, ino: nat, x: Ref, c: uint16, r: Ref, b: uint16)
    requires Consistent(u) && Attached(u, v, ino, x, c) && ValidRef(x) && !IsLeaf(x) && Distinct(u.list)
    requires InData(u.list)
    requires At(u.t[ino].addr, u.d, x) == 0
    requires Reached(v, w, ino, r, b)
    ensures Reached(u, w, ino, r, b)
  {
    AttachedConsistent(u, v, ino, x, c);
    AttachedLeaves(u, v, ino, x, c);
    LeavesCompose(u, v, w, ino, r, b);
    GrewTransitive(u, v, w, ino);
    hide Trees, Accounted, OneKey, LeafSet, LeavesKept, SameHeader, LeafDataKept, OnlyAddrChanged;
  }

  /** A new index block sits where it was put, and the leaf below it is still missing. */
  lemma IndexAdded(u: View, v: View, ino: nat, x: Ref, c: uint16, r: Ref)
    requires Attached(u, v, ino, x, c) && ino < |u.t| && ValidRef(x) && ValidRef(r) && IsLeaf(r) && !IsLeaf(x)
    ensures u.list != [] && v.list == u.list[1..]
    ensures At(v.t[ino].addr, v.d, x) == c
    ensures At(v.t[ino].addr, v.d, r) == At(u.t[ino].addr, u.d, r)
  {
  }

  lemma DoubleAdded(u: View, v: View, ino: nat, c: uint16, i: nat, j: nat)
    requires Attached(u, v, ino, Double, c) && ino < |u.t| && i < PTRS_PER_BLK && j < PTRS_PER_BLK
    requires u.t[ino].addr[8] == 0 && c != 0
    ensures u.list != [] && v.list == u.list[1..]
    ensures v.t[ino].addr[8] == c
    ensures Missing(u.t[ino].addr, u.d, DoubleData(i, j)) == 3 && Missing(v.t[ino].addr, v.d, DoubleData(i, j)) == 2
  {
    assert At(u.t[ino].addr, u.d, Double) == 0 && At(v.t[ino].addr, v.d, Double) == c;
    assert At(v.t[ino].addr, v.d, DoubleIndex(i)) == At(u.t[ino].addr, u.d, DoubleIndex(i)) == 0;
  }

  // ---------- exactly what mapping a leaf takes ----------

  /** The leaf itself and the index blocks above it. */
  predicate OnPath(p: Ref, r: Ref) {
    p == r || (r.SingleData? && p == Single(r.k)) || (r.DoubleData? && (p == Double || p == DoubleIndex(r.i)))
  }

  /** The first m blocks left the list, and the last of them is b. */
  ghost predicate Took(list0: seq<uint16>, list: seq<uint16>, m: nat, b: uint16) {
    m <= |list0| && list == list0[m..] && (m > 0 ==> b == list0[m - 1])
  }

  /** Everything on the way to leaf r is there now, and no other empty position was filled. */
  ghost predicate PathFilled(v: View, v': View, ino: nat, r: Ref)
    requires ino < |v.t|
  {
    forall p {:trigger At(v'.t[ino].addr, v'.d, p)} :: ValidRef(p) ==>
      (At(v'.t[ino].addr, v'.d, p) == 0 <==> At(v.t[ino].addr, v.d, p) == 0 && !OnPath(p, r))
  }

  /** Blocks that are still free hold what they held. */
  ghost predicate FreeDataKept(v: View, v': View) {
    forall b {:trigger DataBlock(v'.d, b)} :: b in v'.list && b < DATA_BLK_NUM ==>
          DataBlock(v'.d, b) == DataBlock(v.d, b)
  }

  /** A block newly mapped for data came off the free list and still holds what it held there. */
  ghost predicate FreshKept(v: View, v': View, b: uint16) {
    b < DATA_BLK_NUM && b !in v.owner ==> b in v.list && DataBlock(v'.d, b) == DataBlock(v.d, b)
  }

  /** Mapping leaf (ino, r) took exactly the missing blocks, in the order of the free list, and cleared none
      that holds data or is still free. */
  ghost predicate Filled(v: View, v': View, ino: nat, r: Ref, b: uint16)
    requires ino < |v.t| && ValidRef(r) && IsLeaf(r)
  {
    && FreeDataKept(v, v') && FreshKept(v, v', b)
    && (b != INVALID_BLK ==> Took(v.list, v'.list, Missing(v.t[ino].addr, v.d, r), b) && PathFilled(v, v', ino, r))
  }

  lemma FilledPresent(v: View, ino: nat, r: Ref, b: uint16)
    requires Consistent(v) && ino < |v.t| && ValidRef(r) && IsLeaf(r) && b == At(v.t[ino].addr, v.d, r) && b != 0
    ensures Missing(v.t[ino].addr, v.d, r) == 0
    ensures Filled(v, v, ino, r, b)
  {
    PathPresent(v.t[ino].addr, v.d, r);
    assert v.list[0..] == v.list;
  }

  /** A leaf that is there has its index blocks. */
  lemma PathPresent(a: Addr, d: Image, r: Ref)
    requires ValidRef(r) && IsLeaf(r) && At(a, d, r) != 0
    ensures forall p :: ValidRef(p) && OnPath(p, r) ==> At(a, d, p) != 0
    ensures Missing(a, d, r) == 0
  {
  }

  /** Below an index block that is there, only the leaf can be missing. */
  lemma ParentThere(a: Addr, d: Image, r: Ref)
    requires ValidRef(r) && IsLeaf(r) && InIndexBlock(r) && At(a, d, ParentRef(r)) != 0
    ensures Missing(a, d, r) == if At(a, d, r) == 0 then 1 else 0
    ensures forall p :: ValidRef(p) && OnPath(p, r) && p != r ==> At(a, d, p) != 0
  {
    AtThroughParent(a, d, r);
  }

  lemma FilledFailed(v: View, ino: nat, r: Ref)
    requires ino < |v.t| && ValidRef(r) && IsLeaf(r)
    ensures Filled(v, v, ino, r, INVALID_BLK)
  {
  }

  /** The leaf block itself was all that was missing. */
  lemma FilledAttached(v: View, v': View, ino: nat, r: Ref, b: uint16)
    requires Attached(v, v', ino, r, b) && ino < |v.t| && ValidRef(r) && IsLeaf(r) && b != 0
    requires Missing(v.t[ino].addr, v.d, r) == 1 && FreeDataKept(v, v') && FreshKept(v, v', b)
    requires forall p :: ValidRef(p) && OnPath(p, r) && p != r ==> At(v.t[ino].addr, v.d, p) != 0
    ensures Filled(v, v', ino, r, b)
  {
    hide At, Missing, FreeDataKept, FreshKept, OnlyAddrChanged, SameHeader, LeafDataKept;
  }

  /** An index block was missing too and was added first. */
  lemma FilledAfterIndex(u: View, v: View, w: View, ino: nat, x: Ref, c: uint16, r: Ref, b: uint16)
    requires ino < |u.t| && ValidRef(x) && !IsLeaf(x) && ValidRef(r) && IsLeaf(r) && OnPath(x, r) && c != 0
    requires Attached(u, v, ino, x, c) && FreeDataKept(u, v)
    requires Missing(u.t[ino].addr, u.d, r) == Missing(v.t[ino].addr, v.d, r) + 1 && Missing(v.t[ino].addr, v.d, r) > 0
    requires Reached(v, w, ino, r, b) && Filled(v, w, ino, r, b)
    ensures Filled(u, w, ino, r, b)
  {
    hide At, Missing, Consistent, OnlyAddrChanged, SameHeader, LeafDataKept, LeavesKept, LeafSet;
    FreeDataComposes(u, v, w);
    FreshAfterIndex(u, v, w, ino, x, c, r, b);
    if b != INVALID_BLK {
      PathComposes(u, v, w, ino, x, c, r);
    }
    hide PathFilled, FreeDataKept, FreshKept, Attached;
  }

  lemma FreeDataComposes(u: View, v: View, w: View)
    requires FreeDataKept(u, v) && FreeDataKept(v, w) && forall b :: b in w.list ==> b in v.list
    ensures FreeDataKept(u, w)
  {
  }

  lemma FreshAfterIndex(u: View, v: View, w: View, ino: nat, x: Ref, c: uint16, r: Ref, b: uint16)
    requires Attached(u, v, ino, x, c) && FreeDataKept(u, v) && !IsLeaf(x) && ValidRef(x) && ValidRef(r) && IsLeaf(r)
    requires Reached(v, w, ino, r, b) && FreshKept(v, w, b)
    ensures FreshKept(u, w, b)
  {
    hide Consistent, Grew, OneKey, LeavesKept, LeafSet, OnlyAddrChanged, SameHeader, LeafDataKept;
  }

  lemma PathComposes(u: View, v: View, w: View, ino: nat, x: Ref, c: uint16, r: Ref)
    requires ino < |u.t| && Attached(u, v, ino, x, c) && ValidRef(x) && OnPath(x, r) && c != 0
    requires PathFilled(v, w, ino, r)
    ensures PathFilled(u, w, ino, r)
  {
    hide At, SameHeader, LeafDataKept, OnlyAddrChanged;
    forall p | ValidRef(p)
      ensures At(w.t[ino].addr, w.d, p) == 0 <==> At(u.t[ino].addr, u.d, p) == 0 && !OnPath(p, r)
    {
      assert At(v.t[ino].addr, v.d, p) == if p == x then c else At(u.t[ino].addr, u.d, p);
    }
  }

  // ---------- changes the trees do not notice ----------

  /** Neither a write outside the data area nor new metadata with the same tree touches any position. */
  lemma ConsistentSameTrees(v: View, d': Image, t': Table)
    requires Consistent(v)
    requires forall n :: DATA_START_BLK <= n < TOTAL_BLK_NUM ==> d'[n] == v.d[n]
    requires forall i :: 0 <= i < |v.t| ==> t'[i].addr == v.t[i].addr || (NoBlocks(v.t[i].addr) && NoBlocks(t'[i].addr))
    ensures Consistent(v.(d := d', t := t'))
  {
    forall i, r | 0 <= i < |v.t| && ValidRef(r) ensures At(t'[i].addr, d', r) == At(v.t[i].addr, v.d, r) {
      AtFrame(v.d, v.t, v.owner, d', i, r);
      if t'[i].addr != v.t[i].addr {
        NoBlocksAt(v.t[i].addr, v.d);
        NoBlocksAt(t'[i].addr, d');
      }
    }
    SamePositions(v.d, v.t, v.owner, d', t');
  }

  lemma SamePositions(d: Image, t: Table, owner: map<uint16, Place>, d': Image, t': Table)
    requires Trees(d, t, owner)
    requires forall i, r {:trigger At(t'[i].addr, d', r)} :: 0 <= i < |t| && ValidRef(r) ==>
              At(t'[i].addr, d', r) == At(t[i].addr, d, r)
    ensures Trees(d', t', owner)
  {
  }

  /** Every inode but one keeps its record, its tree and its file data. */
  ghost predicate OthersKept(v: View, v': View, ino: nat) {
    && (forall i :: 0 <= i < |v.t| && i != ino ==> v'.t[i] == v.t[i])
    && (forall i, r {:trigger At(v'.t[i].addr, v'.d, r)} :: 0 <= i < |v.t| && i != ino && ValidRef(r) ==>
          At(v'.t[i].addr, v'.d, r) == At(v.t[i].addr, v.d, r))
    && (forall b {:trigger DataBlock(v'.d, b)} ::
          b in v.owner && b < DATA_BLK_NUM && IsLeaf(v.owner[b].ref) && v.owner[b].ino != ino ==>
            DataBlock(v'.d, b) == DataBlock(v.d, b))
  }

  /** A later write outside the data area, or a change of the odd inode's record, keeps that. */
  lemma OthersKeptSame(v: View, v1: View, v2: View, ino: nat)
    requires OthersKept(v, v1, ino) && Consistent(v1)
    requires forall i :: 0 <= i < |v.t| && i != ino ==> v2.t[i] == v1.t[i]
    requires forall n :: DATA_START_BLK <= n < TOTAL_BLK_NUM ==> v2.d[n] == v1.d[n]
    ensures OthersKept(v, v2, ino)
  {
    forall i, r | 0 <= i < |v.t| && i != ino && ValidRef(r)
      ensures At(v2.t[i].addr, v2.d, r) == At(v.t[i].addr, v.d, r)
    {
      AtFrame(v1.d, v1.t, v1.owner, v2.d, i, r);
      assert At(v1.t[i].addr, v1.d, r) == At(v.t[i].addr, v.d, r);
    }
    assert forall b: uint16 :: b < DATA_BLK_NUM ==> DataBlock(v2.d, b) == DataBlock(v1.d, b);
    hide Trees, At;
  }

  /** Nor does it matter what the odd inode's record was before. */
  lemma OthersKeptFrom(v: View, v1: View, v2: View, ino: nat)
    requires OthersKept(v1, v2, ino) && v1.d == v.d && v1.owner == v.owner
    requires ino < |v.t| && v1.t == v.t[ino := v1.t[ino]]
    ensures OthersKept(v, v2, ino)
  {
    hide At;
  }

  lemma OthersKeptTruncated(v: View, v': View, ino: nat, freed: seq<uint16>)
    requires forall i :: 0 <= i < |v.t| && i != ino ==> v'.t[i] == v.t[i]
    requires forall b :: b in freed <==> b in v.owner && v.owner[b].ino == ino
    requires forall b {:trigger DataBlock(v'.d, b)} :: 0 <= b < DATA_BLK_NUM && (forall i :: 0 <= i < |freed| ==>
              freed[i] != b) ==> DataBlock(v'.d, b) == DataBlock(v.d, b)
    requires forall i, r {:trigger At(v'.t[i].addr, v'.d, r)} :: 0 <= i < |v.t| && i != ino && ValidRef(r) ==>
              At(v'.t[i].addr, v'.d, r) == At(v.t[i].addr, v.d, r)
    ensures OthersKept(v, v', ino)
  {
    hide At;
  }

  /** Adding blocks to one file leaves every other file alone. */
  lemma GrewOthers(v: View, v': View, ino: nat)
    requires Consistent(v) && Consistent(v') && Grew(v, v', ino)
    ensures OthersKept(v, v', ino)
  {
    forall i, r | 0 <= i < |v.t| && i != ino && ValidRef(r)
      ensures At(v'.t[i].addr, v'.d, r) == At(v.t[i].addr, v.d, r)
    {
      PlaceKept(v, v', ino, i, r);
    }
    hide Trees, At;
  }

  lemma PlaceKept(v: View, v': View, ino: nat, i: nat, r: Ref)
    requires Trees(v.d, v.t, v.owner) && Trees(v'.d, v'.t, v'.owner) && i < |v.t| && i != ino && ValidRef(r)
    requires forall b :: b in v.owner ==> b in v'.owner && v'.owner[b] == v.owner[b]
    requires forall b {:trigger v'.owner[b]} {:trigger b in v'.owner} :: b in v'.owner && b !in v.owner ==>
              v'.owner[b].ino == ino
    ensures At(v'.t[i].addr, v'.d, r) == At(v.t[i].addr, v.d, r)
  {
    var b, b' := At(v.t[i].addr, v.d, r), At(v'.t[i].addr, v'.d, r);
    if b != 0 {
      assert v'.owner[b] == Place(i, r);
      assert At(v'.t[v'.owner[b].ino].addr, v'.d, v'.owner[b].ref) == b;
    }
    if b' != 0 {
      assert v'.owner[b'] == Place(i, r);
      assert b' in v.owner && v.owner[b'] == Place(i, r);
    }
  }

  /** An inode gave up all its blocks, each once; they lie on top of the free list, last freed first, and every
      other inode is as it was. */
  ghost predicate GaveUp(v: View, v': View, ino: nat, freed: seq<uint16>) {
    && v'.owner == Without(v.owner, ino) && v'.list == Reverse(freed) + v.list
    && (forall b :: b in freed <==> b in v.owner && v.owner[b].ino == ino)
    && OthersKept(v, v', ino)
  }

  /** An inode that owned nothing gave nothing up. */
  lemma NothingGivenUp(v: View, v': View, ino: nat, freed: seq<uint16>)
    requires GaveUp(v, v', ino, freed) && forall b :: b in v.owner ==> v.owner[b].ino != ino
    ensures freed == [] && v'.list == v.list
  {
    hide OthersKept;
    assert forall i :: 0 <= i < |freed| ==> freed[i] in freed;
  }

  lemma OthersKeptTransitive(u: View, v: View, w: View, ino: nat)
    requires OthersKept(u, v, ino) && OthersKept(v, w, ino)
    requires forall b :: b in u.owner && u.owner[b].ino != ino ==> b in v.owner && v.owner[b] == u.owner[b]
    ensures OthersKept(u, w, ino)
  {
    assert forall b :: b in u.owner && b < DATA_BLK_NUM && IsLeaf(u.owner[b].ref) && u.owner[b].ino != ino ==>
      DataBlock(w.d, b) == DataBlock(v.d, b);
    forall i, r | 0 <= i < |u.t| && i != ino && ValidRef(r) ensures At(w.t[i].addr, w.d, r) == At(u.t[i].addr, u.d, r) {
      assert At(v.t[i].addr, v.d, r) == At(u.t[i].addr, u.d, r);
    }
    hide At;
  }
}
