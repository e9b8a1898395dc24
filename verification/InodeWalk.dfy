/** The order in which truncation frees a tree, and what is true half-way through the walk. */
module InodeWalks {
  import opened Bytes
  import opened BlockDevices
  import opened FreeLists
  import opened InodeTrees

  const INDIRECT_SPAN := PTRS_PER_BLK + 1
  const SINGLE_BASE := DIRECT_ADDR
  const DOUBLE_BASE := SINGLE_BASE + 2 * INDIRECT_SPAN
  const LAST_RANK := DOUBLE_BASE + PTRS_PER_BLK * INDIRECT_SPAN

  /** The place of a position in the walk: leaves before the index block that holds them. */
  function Rank(r: Ref): nat {
    match r
    case Direct(i) => i
    case Single(k) => SINGLE_BASE + k * INDIRECT_SPAN + PTRS_PER_BLK
    case SingleData(k, j) => SINGLE_BASE + k * INDIRECT_SPAN + j
    case Double => LAST_RANK
    case DoubleIndex(i) => DOUBLE_BASE + i * INDIRECT_SPAN + PTRS_PER_BLK
    case DoubleData(i, j) => DOUBLE_BASE + i * INDIRECT_SPAN + j
  }

  lemma RankInjective(r: Ref, r': Ref)
    requires ValidRef(r) && ValidRef(r') && Rank(r) == Rank(r')
    ensures r == r'
  {
  }

  lemma RankBound(r: Ref)
    requires ValidRef(r)
    ensures Rank(r) <= LAST_RANK
  {
  }

  /** `list` is the owned blocks of inode `ino` with rank below hi, in rank order. */
  ghost predicate Spans(list: seq<uint16>, owner: map<uint16, Place>, ino: nat, hi: nat) {
    && (forall i :: 0 <= i < |list| ==> list[i] in owner && owner[list[i]].ino == ino && Rank(owner[list[i]].ref) < hi)
    && (forall i, j :: 0 <= i < j < |list| ==> Rank(owner[list[i]].ref) < Rank(owner[list[j]].ref))
    && (forall b :: b in owner && owner[b].ino == ino && Rank(owner[b].ref) < hi ==> b in list)
  }

  lemma SpansStep(d: Image, t: Table, owner: map<uint16, Place>, ino: nat, freed: seq<uint16>, r: Ref)
    requires Trees(d, t, owner) && ino < |t| && ValidRef(r)
    requires Spans(freed, owner, ino, Rank(r))
    ensures var b := At(t[ino].addr, d, r);
            && (b == 0 ==> Spans(freed, owner, ino, Rank(r) + 1))
            && (b != 0 ==>
                  0 < b < DATA_BLK_NUM && b in owner && b !in freed && Spans(freed + [b], owner, ino, Rank(r) + 1))
  {
    var b := At(t[ino].addr, d, r);
    forall c | c in owner && owner[c].ino == ino && Rank(owner[c].ref) == Rank(r) ensures c == b {
      RankInjective(owner[c].ref, r);
    }
  }

  /** Positions below a missing index block hold nothing, so the walk may step over them. */
  lemma SpansSkip(d: Image, t: Table, owner: map<uint16, Place>, ino: nat, freed: seq<uint16>, lo: nat, hi: nat)
    requires Trees(d, t, owner) && ino < |t| && lo <= hi
    requires Spans(freed, owner, ino, lo)
    requires forall r {:trigger At(t[ino].addr, d, r)} :: ValidRef(r) && lo <= Rank(r) < hi ==>
              At(t[ino].addr, d, r) == 0
    ensures Spans(freed, owner, ino, hi)
  {
  }

  /** Every managed block is on the free list or in a tree, never both. */
  ghost predicate Accounted(list: seq<uint16>, owner: map<uint16, Place>, lo: nat) {
    && (forall b {:trigger b in owner} {:trigger b in list} :: b in owner ==> b !in list)
    && (forall b: uint16 {:trigger b in owner} {:trigger b in list} ::
          b in owner || b in list <==> lo <= b < DATA_BLK_NUM)
  }

  /** A truncation under way: the state it started from and the blocks freed so far. */
  datatype Walk = Walk(
    d: Image, t: Table, owner: map<uint16, Place>, list: seq<uint16>, lo: nat, ino: nat, freed: seq<uint16>)

  ghost predicate Started(w: Walk) {
    Trees(w.d, w.t, w.owner) && Accounted(w.list, w.owner, w.lo) && w.ino < |w.t|
  }

  /** Only freed blocks have changed, and they lie on top of the free list, last freed first. */
  ghost predicate Freed(w: Walk, d: Image, list: seq<uint16>) {
    && list == Reverse(w.freed) + w.list
    && (forall b {:trigger DataBlock(d, b)} :: 0 <= b < DATA_BLK_NUM && (forall i :: 0 <= i < |w.freed| ==>
          w.freed[i] != b) ==> DataBlock(d, b) == DataBlock(w.d, b))
    && (forall n :: 0 <= n < DATA_START_BLK ==> d[n] == w.d[n])
  }

  ghost predicate Walking(w: Walk, d: Image, list: seq<uint16>, k: nat) {
    Started(w) && Spans(w.freed, w.owner, w.ino, k) && Freed(w, d, list)
  }

  lemma FreedStep(w: Walk, d: Image, list: seq<uint16>, d': Image, b: uint16)
    requires Freed(w, d, list) && b < DATA_BLK_NUM
    requires forall n :: 0 <= n < TOTAL_BLK_NUM && n != DATA_START_BLK + b ==> d'[n] == d[n]
    ensures Freed(w.(freed := w.freed + [b]), d', [b] + list)
  {
    ReverseSnoc(w.freed, b);
    var w' := w.(freed := w.freed + [b]);
    forall c | 0 <= c < DATA_BLK_NUM && (forall i :: 0 <= i < |w'.freed| ==> w'.freed[i] != c)
      ensures DataBlock(d', c) == DataBlock(w.d, c)
    {
      assert w'.freed[|w.freed|] != c;
      assert forall i :: 0 <= i < |w.freed| ==> w'.freed[i] == w.freed[i];
      assert DataBlock(d, c) == DataBlock(w.d, c);
    }
  }

  /** A block whose turn has not come is still intact and not on the free list. */
  lemma NotYetFreed(w: Walk, d: Image, list: seq<uint16>, k: nat, b: uint16)
    requires Walking(w, d, list, k)
    requires b in w.owner && w.owner[b].ino == w.ino && Rank(w.owner[b].ref) >= k
    ensures 0 < b < DATA_BLK_NUM && b !in list && DataBlock(d, b) == DataBlock(w.d, b)
  {
    ReverseMembers(w.freed);
  }

  lemma {:induction false} ReverseMembers(s: seq<uint16>)
    ensures forall x {:trigger x in Reverse(s)} :: x in Reverse(s) <==> x in s
  {
    if s != [] {
      ReverseMembers(s[1..]);
      assert s == [s[0]] + s[1..];
    }
  }

  ghost function Without(owner: map<uint16, Place>, ino: nat): map<uint16, Place> {
    map b | b in owner && owner[b].ino != ino :: owner[b]
  }

  predicate NoBlocks(a: Addr) {
    forall i :: 0 <= i <= 8 ==> a[i] == 0
  }

  /** The first n address slots are cleared and the rest are as they were. */
  predicate ClearedTo(a0: Addr, a: Addr, n: nat) {
    forall j :: 0 <= j < NADDR ==> a[j] == if j < n then 0 else a0[j]
  }

  lemma NoBlocksAt(a: Addr, d: Image)
    requires NoBlocks(a)
    ensures forall r {:trigger At(a, d, r)} :: ValidRef(r) ==> At(a, d, r) == 0
  {
  }

  /** When the walk is over the freed blocks are exactly the inode's, and the other trees are as they
      were, although freed blocks may by now hold group data. */
  lemma WalkDone(w: Walk, d: Image, list: seq<uint16>, di: DInode)
    requires Walking(w, d, list, LAST_RANK + 1) && NoBlocks(di.addr)
    ensures forall b :: b in w.freed <==> b in w.owner && w.owner[b].ino == w.ino
    ensures Freed(w, d, list)
    ensures Accounted(list, Without(w.owner, w.ino), w.lo)
    ensures Trees(d, w.t[w.ino := di], Without(w.owner, w.ino))
    ensures forall i, r {:trigger At(w.t[i].addr, d, r)} :: 0 <= i < |w.t| && i != w.ino && ValidRef(r) ==>
              At(w.t[i].addr, d, r) == At(w.t[i].addr, w.d, r)
  {
    assert forall b :: b in w.freed <==> b in w.owner && w.owner[b].ino == w.ino by {
      forall b | b in w.owner && w.owner[b].ino == w.ino ensures b in w.freed {
        RankBound(w.owner[b].ref);
      }
    }
    DoneAccounted(w, d, list);
    DoneTrees(w, d, list, di);
  }

  lemma DoneAccounted(w: Walk, d: Image, list: seq<uint16>)
    requires Walking(w, d, list, LAST_RANK + 1)
    requires forall b :: b in w.freed <==> b in w.owner && w.owner[b].ino == w.ino
    ensures Accounted(list, Without(w.owner, w.ino), w.lo)
  {
    ReverseMembers(w.freed);
    hide Spans, Trees;
    assert forall b :: b in list <==> b in w.freed || b in w.list;
  }

  lemma DoneTrees(w: Walk, d: Image, list: seq<uint16>, di: DInode)
    requires Walking(w, d, list, LAST_RANK + 1) && NoBlocks(di.addr)
    requires forall b :: b in w.freed <==> b in w.owner && w.owner[b].ino == w.ino
    ensures Trees(d, w.t[w.ino := di], Without(w.owner, w.ino))
    ensures forall i, r {:trigger At(w.t[i].addr, d, r)} :: 0 <= i < |w.t| && i != w.ino && ValidRef(r) ==>
              At(w.t[i].addr, d, r) == At(w.t[i].addr, w.d, r)
  {
    assert forall b: uint16 :: b in w.owner && w.owner[b].ino != w.ino ==> DataBlock(d, b) == DataBlock(w.d, b);
    assert Trees(w.d, w.t, w.owner);
    hide Spans, Freed, Accounted;
    forall i, r | 0 <= i < |w.t| && i != w.ino && ValidRef(r) ensures At(w.t[i].addr, d, r) == At(w.t[i].addr, w.d, r) {
      AtFrame(w.d, w.t, w.owner, d, i, r);
    }
    NoBlocksAt(di.addr, d);
    TreesWithout(w.d, w.t, w.owner, d, w.t[w.ino := di], w.ino);
  }

  lemma TreesWithout(d: Image, t: Table, owner: map<uint16, Place>, d': Image, t': Table, ino: nat)
    requires Trees(d, t, owner) && ino < |t|
    requires forall i, r {:trigger At(t'[i].addr, d', r)} :: 0 <= i < |t| && ValidRef(r) ==>
               At(t'[i].addr, d', r) == if i == ino then 0 else At(t[i].addr, d, r)
    ensures Trees(d', t', Without(owner, ino))
  {
  }

  /** The block whose turn it is may be freed: it is in range and not on the free list. */
  lemma TurnOf(w: Walk, d: Image, list: seq<uint16>, r: Ref, b: uint16)
    requires Walking(w, d, list, Rank(r)) && ValidRef(r) && b == At(w.t[w.ino].addr, w.d, r) && b != 0
    ensures 0 < b < DATA_BLK_NUM && b !in list
  {
    PositionOwned(w, d, list, Rank(r), r);
    NotYetFreed(w, d, list, Rank(r), b);
  }

  lemma PositionOwned(w: Walk, d: Image, list: seq<uint16>, k: nat, r: Ref)
    requires Walking(w, d, list, k) && ValidRef(r)
    ensures w.ino < |w.t|
    ensures var b := At(w.t[w.ino].addr, w.d, r);
            b != 0 ==> 0 < b < DATA_BLK_NUM && b in w.owner && w.owner[b] == Place(w.ino, r)
  {
  }

  /** A word of index block p is the entry of the leaf below it. */
  lemma IndexEntry(a: Addr, d: Image, p: uint16, r: Ref, leaf: Ref)
    requires ValidRef(r) && ValidRef(leaf) && InIndexBlock(leaf) && IsLeaf(leaf) && ParentRef(leaf) == r
    requires p == At(a, d, r) && 0 < p < DATA_BLK_NUM
    ensures At(a, d, leaf) == WordAt(DataBlock(d, p), IndexIn(leaf))
  {
  }

  lemma WalkStarts(w: Walk)
    requires Started(w) && w.freed == []
    ensures Walking(w, w.d, w.list, 0)
  {
    ReverseEmpty(w.freed);
  }

  /** A missing single-indirect block, or a missing entry of the double-indirect block, is stepped over
      together with everything that would hang below it. */
  lemma SkipIndex(w: Walk, d: Image, list: seq<uint16>, r: Ref)
    requires ValidRef(r) && (r.Single? || r.DoubleIndex?) && w.ino < |w.t| && At(w.t[w.ino].addr, w.d, r) == 0
    requires Walking(w, d, list, Rank(r) - PTRS_PER_BLK)
    ensures Walking(w, d, list, Rank(r) + 1)
  {
    forall x | ValidRef(x) && Rank(r) - PTRS_PER_BLK <= Rank(x) < Rank(r) + 1 ensures At(w.t[w.ino].addr, w.d, x) == 0 {
      BelowMissing(w.t[w.ino].addr, w.d, r, x);
    }
    SpansSkip(w.d, w.t, w.owner, w.ino, w.freed, Rank(r) - PTRS_PER_BLK, Rank(r) + 1);
  }

  lemma BelowMissing(a: Addr, d: Image, r: Ref, x: Ref)
    requires ValidRef(r) && (r.Single? || r.DoubleIndex?) && At(a, d, r) == 0
    requires ValidRef(x) && Rank(r) - PTRS_PER_BLK <= Rank(x) < Rank(r) + 1
    ensures At(a, d, x) == 0
  {
    BelowRank(r, x);
    hide Rank;
  }

  lemma BelowRank(r: Ref, x: Ref)
    requires ValidRef(r) && (r.Single? || r.DoubleIndex?) && ValidRef(x)
    requires Rank(r) - PTRS_PER_BLK <= Rank(x) < Rank(r) + 1
    ensures x == r || (InIndexBlock(x) && ParentRef(x) == r)
  {
    match r
    case Single(k) => BelowSingle(k, x);
    case DoubleIndex(i) => BelowDoubleIndex(i, x);
  }

  lemma BelowSingle(k: nat, x: Ref)
    requires k < 2 && ValidRef(x)
    requires SINGLE_BASE + k * INDIRECT_SPAN <= Rank(x) <= SINGLE_BASE + k * INDIRECT_SPAN + PTRS_PER_BLK
    ensures x == Single(k) || (x.SingleData? && x.k == k)
  {
    match x
    case Direct(_) =>
    case Single(k') => SameSpan(k, k', PTRS_PER_BLK);
    case SingleData(k', j) => SameSpan(k, k', j);
    case Double =>
    case DoubleIndex(_) =>
    case DoubleData(_, _) =>
  }

  lemma BelowDoubleIndex(i: nat, x: Ref)
    requires i < PTRS_PER_BLK && ValidRef(x)
    requires DOUBLE_BASE + i * INDIRECT_SPAN <= Rank(x) <= DOUBLE_BASE + i * INDIRECT_SPAN + PTRS_PER_BLK
    ensures x == DoubleIndex(i) || (x.DoubleData? && x.i == i)
  {
    match x
    case Direct(_) =>
    case Single(_) =>
    case SingleData(_, _) =>
    case Double =>
    case DoubleIndex(i') => SameSpan(i, i', PTRS_PER_BLK);
    case DoubleData(i', j) => SameSpan(i, i', j);
  }

  lemma SameSpan(u: nat, v: nat, j: nat)
    requires j < INDIRECT_SPAN && u * INDIRECT_SPAN <= v * INDIRECT_SPAN + j <= u * INDIRECT_SPAN + PTRS_PER_BLK
    ensures u == v
  {
  }

  lemma SkipDouble(w: Walk, d: Image, list: seq<uint16>)
    requires w.ino < |w.t| && w.t[w.ino].addr[8] == 0
    requires Walking(w, d, list, DOUBLE_BASE)
    ensures Walking(w, d, list, LAST_RANK + 1)
  {
    forall x | ValidRef(x) && DOUBLE_BASE <= Rank(x) < LAST_RANK + 1 ensures At(w.t[w.ino].addr, w.d, x) == 0 {
    }
    SpansSkip(w.d, w.t, w.owner, w.ino, w.freed, DOUBLE_BASE, LAST_RANK + 1);
  }

  lemma DoubleEntry(a: Addr, d: Image, p: uint16, i: nat)
    requires i < PTRS_PER_BLK && p == At(a, d, Double) && 0 < p < DATA_BLK_NUM
    ensures At(a, d, DoubleIndex(i)) == WordAt(DataBlock(d, p), i)
  {
  }
}
