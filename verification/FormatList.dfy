/** The free list that formatting lays out: groups of consecutive blocks, linked from low to high. */
module FormatLists {
  import opened Bytes
  import opened BlockDevices
  import opened FreeLists

  /** `list` holds every block of [lo, hi) exactly once, and nothing else. */
  ghost predicate Covers(list: seq<uint16>, lo: nat, hi: nat) {
    && Distinct(list)
    && forall b: uint16 :: b in list <==> lo <= b < hi
  }

  ghost predicate Consecutive(s: seq<uint16>, from: nat) {
    forall i :: 0 <= i < |s| ==> s[i] == from + i
  }

  lemma {:induction false} ReverseAt<T>(s: seq<T>, i: nat)
    requires i < |s|
    ensures Reverse(s)[i] == s[|s| - 1 - i]
  {
    if i < |s| - 1 {
      ReverseAt(s[1..], i);
    }
  }

  lemma ReverseCovers(s: seq<uint16>, lo: nat, hi: nat)
    requires Covers(s, lo, hi)
    ensures Covers(Reverse(s), lo, hi)
  {
    var r := Reverse(s);
    forall i | 0 <= i < |s| ensures r[i] == s[|s| - 1 - i] {
      ReverseAt(s, i);
    }
    hide Reverse;
    forall b: uint16 | b in s ensures b in r {
      var i :| 0 <= i < |s| && s[i] == b;
      assert r[|s| - 1 - i] == b;
    }
    forall b: uint16 | b in r ensures b in s {
      var i :| 0 <= i < |r| && r[i] == b;
    }
  }

  lemma ConsecutiveCovers(s: seq<uint16>, from: nat)
    requires Consecutive(s, from)
    ensures Covers(s, from, from + |s|)
  {
    forall b: uint16 | from <= b < from + |s| ensures b in s {
      assert s[b - from] == b;
    }
  }

  /** Two lists that cover adjacent ranges, in either order. */
  lemma CoversConcat(xs: seq<uint16>, ys: seq<uint16>, lo: nat, mid: nat, hi: nat)
    requires lo <= mid <= hi
    requires (Covers(xs, mid, hi) && Covers(ys, lo, mid)) || (Covers(xs, lo, mid) && Covers(ys, mid, hi))
    ensures Covers(xs + ys, lo, hi)
  {
    forall i, j | 0 <= i < j < |xs + ys| ensures (xs + ys)[i] != (xs + ys)[j] {
      if i < |xs| <= j {
        assert xs[i] in xs && ys[j - |xs|] in ys;
      }
    }
  }

  lemma CoversStack(s: seq<uint16>, from: nat, rest: seq<uint16>, lo: nat)
    requires lo <= from && Consecutive(s, from) && Covers(rest, lo, from)
    ensures Covers(Reverse(s) + rest, lo, from + |s|)
  {
    ConsecutiveCovers(s, from);
    ReverseCovers(s, from, from + |s|);
    hide Covers;
    CoversConcat(Reverse(s), rest, lo, from, from + |s|);
  }

  lemma CoversGroup(storage: uint16, s: seq<uint16>, rest: seq<uint16>, lo: nat)
    requires lo <= storage && Consecutive(s, storage + 1) && Covers(rest, lo, storage)
    ensures Covers([storage] + Reverse(s) + rest, lo, storage + 1 + |s|)
  {
    ConsecutiveCovers(s, storage + 1);
    ReverseCovers(s, storage + 1, storage + 1 + |s|);
    ConsecutiveCovers([storage], storage);
    hide Covers;
    CoversConcat([storage], Reverse(s), storage, storage + 1, storage + 1 + |s|);
    CoversConcat([storage] + Reverse(s), rest, lo, storage, storage + 1 + |s|);
  }

  // ---------- the groups written so far ----------

  /** The lowest block that can ever be handed out.  With no reserved block the first group is stored
      in block 0, whose number is also the end-of-chain mark, so that group is lost. */
  function Lowest(r: nat, cursor: nat): nat {
    if r == 0 && cursor > 0 then NICFREE else r
  }

  ghost predicate GroupsBuilt(d: Image, link: uint16, chain: seq<uint16>, r: nat, cursor: nat) {
    && InData(chain) && Chained(d, link, chain)
    && (forall i :: 0 <= i < |chain| ==> chain[i] < cursor)
    && Covers(ChainFree(d, chain), Lowest(r, cursor), cursor)
    && Lowest(r, cursor) <= cursor
    && (cursor == 0 ==> chain == [])
  }

  /** Writing one more group, stored in the block at the cursor. */
  lemma GroupAdded(d: Image, blk: Block, link: uint16, chain: seq<uint16>, r: nat, c: uint16)
    requires GroupsBuilt(d, link, chain, r, c) && c + NICFREE <= DATA_BLK_NUM
    requires WordAt(blk, 0) == NICFREE && Words(blk, 1, NICFREE)[0] == link
    requires Consecutive(Words(blk, 1, NICFREE)[1..], c + 1)
    requires r <= c
    ensures GroupsBuilt(SetDataBlock(d, c, blk), c, if c == 0 then [] else [c] + chain, r, c + NICFREE)
  {
    hide Covers, Chained, ChainFree, Consecutive, Words;
    var d' := SetDataBlock(d, c, blk);
    assert GroupStack(d', c) == Words(blk, 1, NICFREE);
    if c == 0 {
      EmptyChain(d');
    } else {
      ChainFrame(d, d', link, chain);
      ChainCons(d', c, chain);
      CoversGroup(c, GroupStack(d', c)[1..], ChainFree(d, chain), Lowest(r, c));
    }
  }

  lemma NoGroups(d: Image, r: nat)
    ensures GroupsBuilt(d, END_OF_CHAIN, [], r, r)
  {
  }

  lemma EmptyChain(d: Image)
    ensures Chained(d, END_OF_CHAIN, []) && ChainFree(d, []) == []
    ensures forall lo :: Covers(ChainFree(d, []), lo, lo)
  {
  }

  /** The rest of the blocks go to the stack. */
  lemma FormatDone(fl: FreeList, chain: seq<uint16>, r: nat, c: nat)
    requires |fl.free| == NICFREE && 1 <= fl.nfree <= NICFREE
    requires GroupsBuilt(fl.disk, fl.free[0], chain, r, c)
    requires Consecutive(fl.free[1..fl.nfree], c) && c + fl.nfree - 1 == DATA_BLK_NUM
    ensures InData(chain)
    ensures Covers(Listing(fl, chain), Lowest(r, c), DATA_BLK_NUM)
    ensures |Listing(fl, chain)| == DATA_BLK_NUM - Lowest(r, c)
    ensures r > 0 || c > 0 ==> Represents(fl.(total := |Listing(fl, chain)|), chain, Listing(fl, chain))
  {
    var list := Listing(fl, chain);
    assert Covers(list, Lowest(r, c), DATA_BLK_NUM) by {
      hide Covers, Chained, ChainFree, Consecutive;
      CoversStack(fl.free[1..fl.nfree], c, ChainFree(fl.disk, chain), Lowest(r, c));
    }
    PigeonHole(list, Lowest(r, c), DATA_BLK_NUM);
    assert r > 0 || c > 0 ==> InData(list) by {
      assert forall i :: 0 <= i < |list| ==> list[i] in list;
    }
  }

  /** With no reserved block the counter claims every block, but no list can hold block 0. */
  lemma AllBlocksIsTooMany(fl: FreeList)
    requires fl.total == DATA_BLK_NUM
    ensures forall c, l :: !Represents(fl, c, l)
  {
    forall c, l | Represents(fl, c, l) ensures false {
      PigeonHole(l, 1, DATA_BLK_NUM);
    }
  }
}
