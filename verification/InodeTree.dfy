/** Mixed-index inode trees as they lie on the disk.

    An inode has 6 direct slots, 2 single-indirect blocks and 1 double-indirect block.  `Ref` names a
    position in such a tree and `At` reads it.  `Trees` says that every block any tree refers to sits
    at exactly one position of exactly one tree: `owner` is that position. */
module InodeTrees {
  import opened Bytes
  import opened BlockDevices
  import opened FreeLists

  const NADDR := 10
  const DIRECT_ADDR := 6
  const PTRS_PER_BLK := 256
  const MAX_BLOCKS := DIRECT_ADDR + 2 * PTRS_PER_BLK + PTRS_PER_BLK * PTRS_PER_BLK

  type Addr = a: seq<uint16> | |a| == NADDR witness seq<uint16>(NADDR, _ => 0)

  datatype DInode = DInode(
    mode: uint16, nlink: uint16, uid: uint16, gid: uint16,
    size: uint32, atime: uint32, mtime: uint32, ctime: uint32, addr: Addr)

  /** A position in an inode's tree. */
  datatype Ref =
    | Direct(i: nat)
    | Single(k: nat)
    | SingleData(k: nat, j: nat)
    | Double
    | DoubleIndex(i: nat)
    | DoubleData(i: nat, j: nat)

  predicate ValidRef(r: Ref) {
    match r
    case Direct(i) => i < DIRECT_ADDR
    case Single(k) => k < 2
    case SingleData(k, j) => k < 2 && j < PTRS_PER_BLK
    case Double => true
    case DoubleIndex(i) => i < PTRS_PER_BLK
    case DoubleData(i, j) => i < PTRS_PER_BLK && j < PTRS_PER_BLK
  }

  /** The positions that hold file contents; the others hold block numbers. */
  predicate IsLeaf(r: Ref) {
    r.Direct? || r.SingleData? || r.DoubleData?
  }

  /** Entry j of index block p; a missing index block has no entries. */
  function Entry(d: Image, p: uint16, j: nat): uint16
    requires j < PTRS_PER_BLK
  {
    if 0 < p < DATA_BLK_NUM then WordAt(DataBlock(d, p), j) else 0
  }

  /** The block at a position, or 0. */
  function At(a: Addr, d: Image, r: Ref): uint16
    requires ValidRef(r)
  {
    match r
    case Direct(i) => a[i]
    case Single(k) => a[DIRECT_ADDR + k]
    case SingleData(k, j) => Entry(d, a[DIRECT_ADDR + k], j)
    case Double => a[8]
    case DoubleIndex(i) => Entry(d, a[8], i)
    case DoubleData(i, j) => Entry(d, Entry(d, a[8], i), j)
  }

  /** The position of the index block that holds position r. */
  function ParentRef(r: Ref): Ref
    requires ValidRef(r) && (r.SingleData? || r.DoubleIndex? || r.DoubleData?)
  {
    match r
    case SingleData(k, j) => Single(k)
    case DoubleIndex(i) => Double
    case DoubleData(i, j) => DoubleIndex(i)
  }

  function IndexIn(r: Ref): nat
    requires r.SingleData? || r.DoubleIndex? || r.DoubleData?
  {
    if r.DoubleIndex? then r.i else r.j
  }

  predicate InIndexBlock(r: Ref) {
    r.SingleData? || r.DoubleIndex? || r.DoubleData?
  }

  lemma AtThroughParent(a: Addr, d: Image, r: Ref)
    requires ValidRef(r) && InIndexBlock(r)
    ensures ValidRef(ParentRef(r)) && IndexIn(r) < PTRS_PER_BLK && !IsLeaf(ParentRef(r))
    ensures At(a, d, r) == Entry(d, At(a, d, ParentRef(r)), IndexIn(r))
  {
  }

  /** The leaf position of logical block l. */
  function LeafRef(l: nat): (r: Ref)
    requires l < MAX_BLOCKS
    ensures ValidRef(r) && IsLeaf(r)
  {
    if l < DIRECT_ADDR then Direct(l)
    else if l < DIRECT_ADDR + 2 * PTRS_PER_BLK then
      SingleData((l - DIRECT_ADDR) / PTRS_PER_BLK, (l - DIRECT_ADDR) % PTRS_PER_BLK)
    else
      var m := l - DIRECT_ADDR - 2 * PTRS_PER_BLK;
      DoubleData(m / PTRS_PER_BLK, m % PTRS_PER_BLK)
  }

  /** Different logical blocks use different positions. */
  lemma LeafRefInjective(l: nat, m: nat)
    requires l < MAX_BLOCKS && m < MAX_BLOCKS && LeafRef(l) == LeafRef(m)
    ensures l == m
  {
  }

  /** Every leaf position belongs to a logical block. */
  lemma LeafRefSurjective(r: Ref) returns (l: nat)
    requires ValidRef(r) && IsLeaf(r)
    ensures l < MAX_BLOCKS && LeafRef(l) == r
    ensures r.Direct? ==> l == r.i
    ensures r.SingleData? ==> l == 6 + 256 * r.k + r.j
    ensures r.DoubleData? ==> l == 6 + 2 * 256 + 256 * r.i + r.j
  {
    l := match r
      case Direct(i) => i
      case SingleData(k, j) => DIRECT_ADDR + k * PTRS_PER_BLK + j
      case DoubleData(i, j) => DIRECT_ADDR + 2 * PTRS_PER_BLK + i * PTRS_PER_BLK + j;
  }

  /** The physical block of logical block l, or 0 for a hole. */
  function Mapped(a: Addr, d: Image, l: nat): uint16 {
    if l < MAX_BLOCKS then At(a, d, LeafRef(l)) else 0
  }

  // ---------- ownership ----------

  datatype Place = Place(ino: nat, ref: Ref)

  type Table = t: seq<DInode> | |t| == INODE_TOTAL
      witness seq<DInode>(INODE_TOTAL, _ => DInode(0, 0, 0, 0, 0, 0, 0, 0, seq<uint16>(NADDR, _ => 0)))

  ghost predicate Trees(d: Image, t: Table, owner: map<uint16, Place>) {
    && (forall ino, r {:trigger At(t[ino].addr, d, r)} ::
          0 <= ino < |t| && ValidRef(r) && At(t[ino].addr, d, r) != 0 ==>
            At(t[ino].addr, d, r) in owner && owner[At(t[ino].addr, d, r)] == Place(ino, r))
    && (forall b {:trigger owner[b]} {:trigger b in owner} :: b in owner ==>
          && 0 < b < DATA_BLK_NUM
          && owner[b].ino < |t| && ValidRef(owner[b].ref)
          && At(t[owner[b].ino].addr, d, owner[b].ref) == b)
  }

  /** The position (ino, r) now holds b, and every other position of every tree is as it was. */
  ghost predicate OneKey(d: Image, t: Table, d': Image, t': Table, ino: nat, r: Ref, b: uint16) {
    forall ino', r' {:trigger At(t'[ino'].addr, d', r')} ::
      0 <= ino' < |t| && ValidRef(r') ==>
        At(t'[ino'].addr, d', r') == if ino' == ino && r' == r then b else At(t[ino'].addr, d, r')
  }

  /** A block nobody owned joins a tree: it is owned at that position, and nothing else moves. */
  lemma Join(d: Image, t: Table, owner: map<uint16, Place>, d': Image, t': Table, ino: nat, r: Ref, b: uint16)
    requires Trees(d, t, owner) && ino < |t| && ValidRef(r)
    requires 0 < b < DATA_BLK_NUM && b !in owner && At(t[ino].addr, d, r) == 0
    requires OneKey(d, t, d', t', ino, r, b)
    ensures Trees(d', t', owner[b := Place(ino, r)])
  {
  }

  /** No position of any tree changes when only leaf blocks and unowned blocks are written. */
  lemma TreesFrame(d: Image, t: Table, owner: map<uint16, Place>, d': Image)
    requires Trees(d, t, owner)
    requires forall b :: b in owner && !IsLeaf(owner[b].ref) ==> DataBlock(d', b) == DataBlock(d, b)
    ensures forall ino, r {:trigger At(t[ino].addr, d', r)} ::
              0 <= ino < |t| && ValidRef(r) ==> At(t[ino].addr, d', r) == At(t[ino].addr, d, r)
    ensures Trees(d', t, owner)
  {
    forall ino, r | 0 <= ino < |t| && ValidRef(r) ensures At(t[ino].addr, d', r) == At(t[ino].addr, d, r) {
      AtFrame(d, t, owner, d', ino, r);
    }
  }

  lemma AtFrame(d: Image, t: Table, owner: map<uint16, Place>, d': Image, ino: nat, r: Ref)
    requires Trees(d, t, owner) && ino < |t| && ValidRef(r)
    requires forall b :: b in owner && !IsLeaf(owner[b].ref) && owner[b].ino == ino ==>
              DataBlock(d', b) == DataBlock(d, b)
    ensures At(t[ino].addr, d', r) == At(t[ino].addr, d, r)
  {
    var a := t[ino].addr;
    if r.SingleData? {
      assert At(a, d, Single(r.k)) == a[DIRECT_ADDR + r.k];
    } else if r.DoubleIndex? {
      assert At(a, d, Double) == a[8];
    } else if r.DoubleData? {
      assert At(a, d, Double) == a[8];
      assert At(a, d, DoubleIndex(r.i)) == Entry(d, a[8], r.i);
    }
  }

  // ---------- adding one block ----------

  /** The address slot that holds position r. */
  function SlotOf(r: Ref): nat
    requires ValidRef(r) && !InIndexBlock(r)
  {
    match r
    case Direct(i) => i
    case Single(k) => DIRECT_ADDR + k
    case Double => 8
  }

  function WithAddr(t: Table, ino: nat, slot: nat, b: uint16): Table
    requires ino < |t| && slot < NADDR
  {
    t[ino := t[ino].(addr := t[ino].addr[slot := b])]
  }

  /** Recording b in an address slot; a new index block is zeroed first. */
  lemma SlotAttached(d: Image, t: Table, owner: map<uint16, Place>, ino: nat, r: Ref, b: uint16, d': Image)
    requires Trees(d, t, owner) && ino < |t| && ValidRef(r) && !InIndexBlock(r)
    requires 0 < b < DATA_BLK_NUM && b !in owner && At(t[ino].addr, d, r) == 0
    requires d' == if IsLeaf(r) then d else SetDataBlock(d, b, ZERO_BLOCK)
    ensures OneKey(d, t, d', WithAddr(t, ino, SlotOf(r), b), ino, r, b)
  {
    var t' := WithAddr(t, ino, SlotOf(r), b);
    ZeroWords();
    forall ino', r' | 0 <= ino' < |t| && ValidRef(r')
      ensures At(t'[ino'].addr, d', r') == if ino' == ino && r' == r then b else At(t[ino'].addr, d, r')
    {
      AtFrame(d, t, owner, d', ino', r');
    }
  }

  /** The disk after b is written into entry j of index block p, and zeroed if it is an index block. */
  function EntryWritten(d: Image, p: uint16, j: nat, b: uint16, leaf: bool): Image
    requires p < DATA_BLK_NUM && b < DATA_BLK_NUM && j < PTRS_PER_BLK
  {
    var d1 := SetDataBlock(d, p, PutWord(DataBlock(d, p), j, b));
    if leaf then d1 else SetDataBlock(d1, b, ZERO_BLOCK)
  }

  lemma EntryAfter(d: Image, p: uint16, j: nat, b: uint16, leaf: bool, q: uint16, k: nat)
    requires 0 < p < DATA_BLK_NUM && 0 < b < DATA_BLK_NUM && j < PTRS_PER_BLK && k < PTRS_PER_BLK && p != b
    ensures q != b ==> Entry(EntryWritten(d, p, j, b, leaf), q, k) == if q == p && k == j then b else Entry(d, q, k)
    ensures !leaf ==> Entry(EntryWritten(d, p, j, b, leaf), b, k) == 0
  {
    ZeroWords();
  }

  lemma ParentDetermines(r: Ref, r': Ref)
    requires ValidRef(r) && ValidRef(r') && InIndexBlock(r) && InIndexBlock(r')
    requires ParentRef(r) == ParentRef(r') && IndexIn(r) == IndexIn(r')
    ensures r == r'
  {
  }

  /** Writing b into the entry of position r changes no other position of any tree. */
  lemma EntryAttached(d: Image, t: Table, owner: map<uint16, Place>, ino: nat, r: Ref, b: uint16, p: uint16, d': Image)
    requires Trees(d, t, owner) && ino < |t| && ValidRef(r) && InIndexBlock(r)
    requires p == At(t[ino].addr, d, ParentRef(r)) && 0 < p < DATA_BLK_NUM
    requires 0 < b < DATA_BLK_NUM && b !in owner && At(t[ino].addr, d, r) == 0
    requires d' == EntryWritten(d, p, IndexIn(r), b, IsLeaf(r))
    ensures OneKey(d, t, d', t, ino, r, b)
  {
    AtThroughParent(t[ino].addr, d, r);
    forall ino', r' | 0 <= ino' < |t| && ValidRef(r')
      ensures At(t[ino'].addr, d', r') == if ino' == ino && r' == r then b else At(t[ino'].addr, d, r')
    {
      if r'.DoubleData? {
        PositionAfter(d, t, owner, ino, r, b, p, d', ino', DoubleIndex(r'.i));
      }
      if InIndexBlock(r') {
        PositionAfter(d, t, owner, ino, r, b, p, d', ino', r');
      }
    }
  }

  lemma PositionAfter(d: Image, t: Table, owner: map<uint16, Place>, ino: nat, r: Ref, b: uint16, p: uint16,
      d': Image, ino': nat, r': Ref)
    requires Trees(d, t, owner) && ino < |t| && ValidRef(r) && InIndexBlock(r)
    requires p == At(t[ino].addr, d, ParentRef(r)) && 0 < p < DATA_BLK_NUM
    requires 0 < b < DATA_BLK_NUM && b !in owner && At(t[ino].addr, d, r) == 0
    requires d' == EntryWritten(d, p, IndexIn(r), b, IsLeaf(r))
    requires ino' < |t| && ValidRef(r') && InIndexBlock(r')
    requires r'.DoubleData? ==> At(t[ino'].addr, d', ParentRef(r')) ==
                                if ino' == ino && ParentRef(r') == r then b else At(t[ino'].addr, d, ParentRef(r'))
    ensures At(t[ino'].addr, d', r') == if ino' == ino && r' == r then b else At(t[ino'].addr, d, r')
  {
    var q := At(t[ino'].addr, d, ParentRef(r'));
    AtThroughParent(t[ino'].addr, d, r');
    AtThroughParent(t[ino'].addr, d', r');
    EntryAfter(d, p, IndexIn(r), b, IsLeaf(r), q, IndexIn(r'));
    EntryAfter(d, p, IndexIn(r), b, IsLeaf(r), b, IndexIn(r'));
    if q == p && IndexIn(r') == IndexIn(r) {
      ParentDetermines(r, r');
    }
    hide Entry, EntryWritten;
  }
}
