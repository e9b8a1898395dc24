/** Walking the links lists the same blocks the free list would hand out. */
module CollectLaws {
  import opened Bytes
  import opened BlockDevices
  import opened FreeLists

  /** The blocks found from `link` on: each group's own block, then its entries from the bottom up. */
  ghost function Walked(d: Image, chain: seq<uint16>): seq<uint16>
    requires InData(chain)
    decreases |chain|
  {
    if chain == [] then [] else [chain[0]] + GroupStack(d, chain[0])[1..] + Walked(d, chain[1..])
  }

  lemma {:induction false} ReverseMultiset(s: seq<uint16>)
    ensures multiset(Reverse(s)) == multiset(s)
  {
    if s != [] {
      ReverseMultiset(s[1..]);
      assert s == [s[0]] + s[1..];
    }
  }

  lemma {:induction false} WalkedMultiset(d: Image, chain: seq<uint16>)
    requires InData(chain)
    ensures multiset(Walked(d, chain)) == multiset(ChainFree(d, chain))
    decreases |chain|
  {
    if chain != [] {
      WalkedMultiset(d, chain[1..]);
      ReverseMultiset(GroupStack(d, chain[0])[1..]);
    }
  }

  lemma CollectedMultiset(fl: FreeList, chain: seq<uint16>, list: seq<uint16>)
    requires Represents(fl, chain, list) && fl.nfree >= 1
    ensures multiset(fl.free[1..fl.nfree] + Walked(fl.disk, chain)) == multiset(list)
  {
    ReverseMultiset(fl.free[1..fl.nfree]);
    WalkedMultiset(fl.disk, chain);
  }

  lemma {:induction false} DistinctMultiset(s: seq<uint16>)
    requires Distinct(s)
    ensures forall x :: multiset(s)[x] <= 1
  {
    if s != [] {
      DistinctMultiset(s[1..]);
      assert s == [s[0]] + s[1..];
      assert s[0] !in s[1..];
    }
  }

  lemma PermutationDistinct(s: seq<uint16>, t: seq<uint16>)
    requires Distinct(s) && multiset(s) == multiset(t)
    ensures |s| == |t| && Distinct(t)
  {
    assert |multiset(s)| == |s| && |multiset(t)| == |t|;
    DistinctMultiset(s);
    forall i, j | 0 <= i < j < |t| ensures t[i] != t[j] {
      assert t == t[..j] + t[j..];
      var x, y := multiset(t[..j]), multiset(t[j..]);
      assert t[i] in t[..j] && t[j] in t[j..];
      assert multiset(t) == x + y && x[t[i]] >= 1 && y[t[j]] >= 1;
      assert multiset(t)[t[i]] == x[t[i]] + y[t[i]] && multiset(s)[t[i]] <= 1;
    }
  }

  /** One step of the walk: the group at `link` moves from the blocks still to come to those listed. */
  lemma WalkStep(d: Image, link: uint16, chain: seq<uint16>, out: seq<uint16>)
    requires InData(chain) && Chained(d, link, chain) && link != END_OF_CHAIN
    ensures chain != [] && chain[0] == link < DATA_BLK_NUM && InData(chain[1..])
    ensures GroupCount(d, link) == NICFREE && Chained(d, GroupStack(d, link)[0], chain[1..])
    ensures out + Walked(d, chain) == (out + [link] + GroupStack(d, link)[1..]) + Walked(d, chain[1..])
  {
    assert Walked(d, chain) == [link] + GroupStack(d, link)[1..] + Walked(d, chain[1..]);
    hide Walked, Chained, GroupStack;
  }

  lemma StartWalk(fl: FreeList, chain: seq<uint16>, list: seq<uint16>)
    requires Represents(fl, chain, list)
    ensures |fl.free| == NICFREE && fl.nfree <= NICFREE && InData(chain) && |chain| < DATA_BLK_NUM
    ensures Chained(fl.disk, if fl.nfree >= 1 then fl.free[0] else END_OF_CHAIN, chain)
  {
    ChainInList(fl, chain, list);
    PigeonHole(list, 1, DATA_BLK_NUM);
  }

  /** The i-th word of a group block, read as an entry of its stack. */
  lemma GroupEntry(d: Image, link: uint16, i: nat)
    requires link < DATA_BLK_NUM && 1 <= i <= NICFREE
    ensures |GroupStack(d, link)| == NICFREE && WordAt(DataBlock(d, link), i) == GroupStack(d, link)[i - 1]
    ensures i >= 2 ==> GroupStack(d, link)[1..i] == GroupStack(d, link)[1..i - 1] + [WordAt(DataBlock(d, link), i)]
    ensures i == 1 ==> GroupStack(d, link)[1..NICFREE] == GroupStack(d, link)[1..]
  {
  }

  lemma EndWalk(d: Image, link: uint16, rest: seq<uint16>)
    requires InData(rest) && Chained(d, link, rest)
    ensures link == END_OF_CHAIN ==> rest == [] && Walked(d, rest) == []
    ensures link != END_OF_CHAIN ==> rest != []
  {
  }

  lemma CollectedAll(fl: FreeList, chain: seq<uint16>, list: seq<uint16>, out: seq<uint16>)
    requires Represents(fl, chain, list)
    requires out == (if fl.nfree >= 1 then fl.free[1..fl.nfree] else []) + Walked(fl.disk, chain)
    ensures multiset(out) == multiset(list) && |out| == fl.total && Distinct(out)
  {
    if fl.nfree >= 1 {
      CollectedMultiset(fl, chain, list);
    }
    PermutationDistinct(list, out);
  }
}
