/** Growing a file over consecutive blocks: which free blocks it takes, in which order, and which bytes of
    them show. */
module InodeGrowths {
  import opened Bytes
  import opened BlockDevices
  import opened FreeLists
  import opened InodeTrees
  import opened InodeWalks
  import opened InodeViews

  // ---------- counting from the starting state ----------

  /** The blocks that mapping block l takes once l0 .. l - 1 are mapped, read off the tree as it was at the
      start: the leaf, and each index block whose first visited entry this is. */
  function NewBlocks(a: Addr, d: Image, l0: nat, l: nat): nat
    requires l < MAX_BLOCKS
  {
    var r := LeafRef(l);
    var leaf := if At(a, d, r) == 0 then 1 else 0;
    match r
    case Direct(_) => leaf
    case SingleData(k, j) => leaf + if At(a, d, Single(k)) == 0 && (l == l0 || j == 0) then 1 else 0
    case DoubleData(i, j) =>
      leaf + (if At(a, d, DoubleIndex(i)) == 0 && (l == l0 || j == 0) then 1 else 0)
      + if At(a, d, Double) == 0 && (l == l0 || (i == 0 && j == 0)) then 1 else 0
  }

  /** The blocks that mapping l0 .. l - 1 takes. */
  function Needed(a: Addr, d: Image, l0: nat, l: nat): nat
    requires l <= l0 || l <= MAX_BLOCKS
  {
    if l <= l0 then 0 else Needed(a, d, l0, l - 1) + NewBlocks(a, d, l0, l - 1)
  }

  lemma {:induction false} NeededMonotone(a: Addr, d: Image, l0: nat, l: nat, m: nat)
    requires l <= m <= MAX_BLOCKS
    ensures Needed(a, d, l0, l) <= Needed(a, d, l0, m)
    decreases m
  {
    hide NewBlocks;
    if l < m {
      NeededMonotone(a, d, l0, l, m - 1);
    }
  }

  // ---------- which positions the blocks so far have filled ----------

  ghost predicate Covered(p: Ref, l0: nat, l: nat)
    requires l <= l0 || l <= MAX_BLOCKS
  {
    exists x :: l0 <= x < l && OnPath(p, LeafRef(x))
  }

  lemma CoveredStep(p: Ref, l0: nat, l: nat)
    requires l0 <= l < MAX_BLOCKS
    ensures Covered(p, l0, l + 1) <==> Covered(p, l0, l) || OnPath(p, LeafRef(l))
  {
    if OnPath(p, LeafRef(l)) {
      assert l0 <= l < l + 1;
    }
    if Covered(p, l0, l) {
      var x :| l0 <= x < l && OnPath(p, LeafRef(x));
      assert l0 <= x < l + 1;
    }
  }

  /** The leaf of the next block is not covered yet. */
  lemma LeafUncovered(l0: nat, l: nat)
    requires l0 <= l < MAX_BLOCKS
    ensures !Covered(LeafRef(l), l0, l)
  {
    forall x | l0 <= x < l ensures !OnPath(LeafRef(l), LeafRef(x)) {
      if LeafRef(l) == LeafRef(x) {
        LeafRefInjective(l, x);
      }
    }
    hide LeafRef, OnPath;
  }

  /** An index block is covered once one of its earlier entries was visited. */
  lemma SingleCovered(l0: nat, l: nat, k: nat, j: nat)
    requires l0 <= l < MAX_BLOCKS && LeafRef(l) == SingleData(k, j)
    ensures Covered(Single(k), l0, l) <==> l > l0 && j > 0
  {
    if l > l0 && j > 0 {
      assert LeafRef(l - 1) == SingleData(k, j - 1);
      assert OnPath(Single(k), LeafRef(l - 1));
    }
    if Covered(Single(k), l0, l) {
      var x :| l0 <= x < l && OnPath(Single(k), LeafRef(x));
      assert LeafRef(x).SingleData? && LeafRef(x).k == k;
    }
  }

  lemma DoubleCovered(l0: nat, l: nat, i: nat, j: nat)
    requires l0 <= l < MAX_BLOCKS && LeafRef(l) == DoubleData(i, j)
    ensures Covered(DoubleIndex(i), l0, l) <==> l > l0 && j > 0
    ensures Covered(Double, l0, l) <==> l > l0 && (i > 0 || j > 0)
  {
    if l > l0 && j > 0 {
      assert LeafRef(l - 1) == DoubleData(i, j - 1);
      assert OnPath(DoubleIndex(i), LeafRef(l - 1));
    }
    if l > l0 && (i > 0 || j > 0) {
      assert LeafRef(l - 1).DoubleData?;
      assert OnPath(Double, LeafRef(l - 1));
    }
    if Covered(DoubleIndex(i), l0, l) {
      var x :| l0 <= x < l && OnPath(DoubleIndex(i), LeafRef(x));
      assert LeafRef(x).DoubleData? && LeafRef(x).i == i;
    }
    if Covered(Double, l0, l) {
      var x :| l0 <= x < l && OnPath(Double, LeafRef(x));
      assert LeafRef(x).DoubleData?;
    }
  }

  // ---------- a range of blocks mapped one after another ----------

  /** Blocks l0 .. l - 1 have been mapped: exactly the blocks they needed left the free list, exactly the
      positions on their paths were filled, and what is still free holds what it held. */
  ghost predicate Ranged(v0: View, v: View, ino: nat, l0: nat, l: nat) {
    && ino < |v0.t| && l0 <= l && (l == l0 || l <= MAX_BLOCKS)
    && Needed(v0.t[ino].addr, v0.d, l0, l) <= |v0.list|
    && v.list == v0.list[Needed(v0.t[ino].addr, v0.d, l0, l)..]
    && FreeDataKept(v0, v)
    && forall p {:trigger At(v.t[ino].addr, v.d, p)} :: ValidRef(p) ==>
         (At(v.t[ino].addr, v.d, p) == 0 <==> At(v0.t[ino].addr, v0.d, p) == 0 && !Covered(p, l0, l))
  }

  lemma RangedStart(v: View, ino: nat, l0: nat)
    requires ino < |v.t|
    ensures Ranged(v, v, ino, l0, l0)
  {
    assert v.list[0..] == v.list;
  }

  /** What the next block is missing now is what the starting state says. */
  lemma MissingNow(v0: View, v: View, ino: nat, l0: nat, l: nat)
    requires Ranged(v0, v, ino, l0, l) && l < MAX_BLOCKS
    ensures Missing(v.t[ino].addr, v.d, LeafRef(l)) == NewBlocks(v0.t[ino].addr, v0.d, l0, l)
  {
    var r, a0, a := LeafRef(l), v0.t[ino].addr, v.t[ino].addr;
    LeafUncovered(l0, l);
    assert At(a, v.d, r) == 0 <==> At(a0, v0.d, r) == 0;
    match r
    case Direct(_) =>
    case SingleData(k, j) =>
      SingleCovered(l0, l, k, j);
      assert At(a, v.d, Single(k)) == 0 <==> At(a0, v0.d, Single(k)) == 0 && !(l > l0 && j > 0);
      assert At(a0, v0.d, Single(k)) == 0 ==> At(a0, v0.d, r) == 0;
    case DoubleData(i, j) =>
      DoubleCovered(l0, l, i, j);
      assert At(a, v.d, DoubleIndex(i)) == 0 <==> At(a0, v0.d, DoubleIndex(i)) == 0 && !(l > l0 && j > 0);
      assert At(a, v.d, Double) == 0 <==> At(a0, v0.d, Double) == 0 && !(l > l0 && (i > 0 || j > 0));
      assert At(a0, v0.d, Double) == 0 ==> At(a0, v0.d, DoubleIndex(i)) == 0;
      assert At(a0, v0.d, DoubleIndex(i)) == 0 ==> At(a0, v0.d, r) == 0;
  }

  /** The free block that becomes the data block of a hole x. */
  function FreshBlock(v0: View, ino: nat, l0: nat, x: nat): uint16
    requires ino < |v0.t| && x < MAX_BLOCKS && 0 < Needed(v0.t[ino].addr, v0.d, l0, x + 1) <= |v0.list|
  {
    v0.list[Needed(v0.t[ino].addr, v0.d, l0, x + 1) - 1]
  }

  lemma RangedStep(v0: View, v: View, v': View, ino: nat, l0: nat, l: nat, b: uint16)
    requires Ranged(v0, v, ino, l0, l) && l < MAX_BLOCKS && Consistent(v)
    requires Filled(v, v', ino, LeafRef(l), b) && b != INVALID_BLK
    ensures Ranged(v0, v', ino, l0, l + 1)
  {
    MissingNow(v0, v, ino, l0, l);
    var m, n := Needed(v0.t[ino].addr, v0.d, l0, l), NewBlocks(v0.t[ino].addr, v0.d, l0, l);
    assert Needed(v0.t[ino].addr, v0.d, l0, l + 1) == m + n;
    hide Needed, NewBlocks, Missing, Consistent;
    DropDrop(v0.list, m, n);
    FreeDataComposes(v0, v, v');
    forall p | ValidRef(p)
      ensures At(v'.t[ino].addr, v'.d, p) == 0 <==> At(v0.t[ino].addr, v0.d, p) == 0 && !Covered(p, l0, l + 1)
    {
      CoveredStep(p, l0, l);
      assert At(v.t[ino].addr, v.d, p) == 0 <==> At(v0.t[ino].addr, v0.d, p) == 0 && !Covered(p, l0, l);
    }
    hide At, Covered, OnPath;
  }

  lemma DropDrop(s: seq<uint16>, m: nat, n: nat)
    requires m + n <= |s|
    ensures s[m..][n..] == s[m + n..] && |s[m..]| == |s| - m
  {
  }

  /** A hole that has just been mapped got its fresh block, with the bytes that block held at the start. */
  lemma FreshContents(v0: View, v: View, v': View, ino: nat, l0: nat, l: nat, b: uint16)
    requires Ranged(v0, v, ino, l0, l) && l < MAX_BLOCKS && Consistent(v) && At(v0.t[ino].addr, v0.d, LeafRef(l)) == 0
    requires Filled(v, v', ino, LeafRef(l), b) && b != INVALID_BLK && 0 < b < DATA_BLK_NUM
    ensures 0 < Needed(v0.t[ino].addr, v0.d, l0, l + 1) <= |v0.list|
    ensures b == FreshBlock(v0, ino, l0, l) && DataBlock(v'.d, b) == DataBlock(v0.d, b)
  {
    MissingNow(v0, v, ino, l0, l);
    var m, n := Needed(v0.t[ino].addr, v0.d, l0, l), NewBlocks(v0.t[ino].addr, v0.d, l0, l);
    assert Needed(v0.t[ino].addr, v0.d, l0, l + 1) == m + n && n > 0;
    hide Needed, NewBlocks, Missing, Covered;
    DropDrop(v0.list, m, n);
    assert b == v.list[n - 1] && b in v.list;
    assert b !in v.owner;
    assert v0.list[m..][n - 1] == v0.list[m + n - 1];
  }

  /** Writing the data of a mapped block changes no position and no free block. */
  lemma RangedStore(v0: View, v: View, ino: nat, l0: nat, l: nat, p: uint16, x: nat, blk: Block)
    requires Ranged(v0, v, ino, l0, l) && Consistent(v) && x < MAX_BLOCKS
    requires p == At(v.t[ino].addr, v.d, LeafRef(x)) && p != 0
    ensures p < DATA_BLK_NUM && Ranged(v0, v.(d := SetDataBlock(v.d, p, blk)), ino, l0, l)
  {
    assert p in v.owner && v.owner[p] == Place(ino, LeafRef(x)) && p !in v.list;
    var d' := SetDataBlock(v.d, p, blk);
    TreesFrame(v.d, v.t, v.owner, d');
    hide Trees, Accounted, SetDataBlock, LeafRef, Covered, Needed;
    forall q | ValidRef(q) ensures At(v.t[ino].addr, d', q) == At(v.t[ino].addr, v.d, q) {
    }
    hide At;
  }
}
