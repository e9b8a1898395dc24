/** Cluster chains in the file allocation table.

    Entry 0 marks a free cluster, 0xFFFF the end of a chain, and any other entry names the next cluster. */
module FatChains {
  import opened Bytes
  import opened BlockDevices
  import FreeLists

  const FREE_CLUSTER: uint16 := 0
  const END_OF_CHAIN: uint16 := 0xFFFF
  const FAT_SIZE := 9
  const FAT1_START := 1
  const FAT2_START := FAT1_START + FAT_SIZE
  const ROOT_DIR_BLK := FAT2_START + FAT_SIZE
  const FAT_DATA_START := ROOT_DIR_BLK + 1
  const ENTRIES_PER_FAT_BLK := 256
  const CLUSTERS_PER_FAT := FAT_SIZE * ENTRIES_PER_FAT_BLK
  const CLUSTER_COUNT := TOTAL_BLK_NUM - FAT_DATA_START
  const CLUSTER_END := 2 + CLUSTER_COUNT
  const WALK_LIMIT := 2000
  const ROOT_CLUSTER: uint16 := 0

  type Fat = f: seq<uint16> | |f| == CLUSTERS_PER_FAT witness seq<uint16>(CLUSTERS_PER_FAT, _ => 0)

  datatype Spot = Spot(head: uint16, index: nat)

  /** Each chain by its first cluster, and the chain and position of each allocated cluster. */
  type Chains = map<uint16, seq<uint16>>
  type Places = map<uint16, Spot>

  predicate IsCluster(c: int) {
    2 <= c < CLUSTER_END
  }

  /** What the table must say about position i of a chain. */
  function Next(chain: seq<uint16>, i: nat): uint16
    requires i < |chain|
  {
    if i + 1 < |chain| then chain[i + 1] else END_OF_CHAIN
  }

  /** Every chain is named by its first cluster. */
  ghost predicate Headed(chains: Chains) {
    forall h {:trigger chains[h]} {:trigger h in chains} :: h in chains ==> chains[h] != [] && chains[h][0] == h
  }

  /** Every cluster of a chain is placed there. */
  ghost predicate AllPlaced(chains: Chains, place: Places) {
    forall h, i {:trigger chains[h][i]} :: h in chains && 0 <= i < |chains[h]| ==>
      chains[h][i] in place && place[chains[h][i]] == Spot(h, i)
  }

  /** Every placed cluster is in its place. */
  ghost predicate PlacesFilled(chains: Chains, place: Places) {
    forall c {:trigger place[c]} {:trigger c in place} :: c in place ==>
      && IsCluster(c) && place[c].head in chains
      && place[c].index < |chains[place[c].head]| && chains[place[c].head][place[c].index] == c
  }

  /** `chains` and `place` describe one partition: every placed cluster is at exactly one position of
      exactly one chain. */
  ghost predicate Partition(chains: Chains, place: Places) {
    Headed(chains) && AllPlaced(chains, place) && PlacesFilled(chains, place)
  }

  ghost function Expected(chains: Chains, place: Places, c: uint16): uint16
    requires Partition(chains, place)
  {
    if c in place then Next(chains[place[c].head], place[c].index) else FREE_CLUSTER
  }

  /** The allocated clusters are partitioned into disjoint chains, each linked from its first cluster to the
      end mark; every other cluster is free. */
  ghost predicate FatOk(fat: Fat, chains: Chains, place: Places) {
    && Partition(chains, place)
    && forall c: uint16 {:trigger fat[c]} {:trigger c in place} :: IsCluster(c) ==> fat[c] == Expected(chains, place, c)
  }

  /** Walking a chain in the table visits its clusters in order and ends at the end mark; a cluster is free
      exactly when no chain visits it. */
  lemma ChainIsLinked(fat: Fat, chains: Chains, place: Places, h: uint16, i: nat)
    requires FatOk(fat, chains, place) && h in chains && i < |chains[h]|
    ensures IsCluster(chains[h][i])
    ensures fat[chains[h][i]] == Next(chains[h], i) && fat[chains[h][i]] != FREE_CLUSTER
    ensures fat[chains[h][i]] == END_OF_CHAIN <==> i == |chains[h]| - 1
  {
    var c := chains[h][i];
    assert c in place && place[c] == Spot(h, i);
    if i + 1 < |chains[h]| {
      assert chains[h][i + 1] in place;
    }
  }

  /** A chain visits no cluster twice and no cluster of another chain. */
  lemma Disjoint(chains: Chains, place: Places, h: uint16, i: nat, g: uint16, j: nat)
    requires Partition(chains, place) && h in chains && g in chains && i < |chains[h]| && j < |chains[g]|
    ensures chains[h][i] == chains[g][j] ==> h == g && i == j
  {
  }

  /** Chains are no longer than the data area. */
  lemma ChainLength(chains: Chains, place: Places, h: uint16)
    requires Partition(chains, place) && h in chains
    ensures |chains[h]| <= CLUSTER_COUNT
  {
    var chain := chains[h];
    forall i, j | 0 <= i < j < |chain| ensures chain[i] != chain[j] {
      Disjoint(chains, place, h, i, h, j);
    }
    assert forall i :: 0 <= i < |chain| ==> chain[i] in place;
    FreeLists.PigeonHole(chain, 2, CLUSTER_END);
  }

  /** The clusters an allocation can return. */
  ghost function FreeClusters(fat: Fat): set<uint16> {
    set c: uint16 | 2 <= c < CLUSTER_END && fat[c] == FREE_CLUSTER
  }

  ghost function FreeFrom(fat: Fat, from: nat): set<uint16> {
    set c: uint16 | from <= c < CLUSTER_END && fat[c] == FREE_CLUSTER
  }

  /** In an empty table every cluster of the data area is free. */
  lemma {:induction false} AllFree(fat: Fat, from: nat)
    requires 2 <= from <= CLUSTER_END && forall c {:trigger fat[c]} :: from <= c < CLUSTER_END ==>
              fat[c] == FREE_CLUSTER
    ensures |FreeFrom(fat, from)| == CLUSTER_END - from
    decreases CLUSTER_END - from
  {
    if from < CLUSTER_END {
      AllFree(fat, from + 1);
      assert FreeFrom(fat, from) == FreeFrom(fat, from + 1) + {from as uint16};
    } else {
      assert FreeFrom(fat, from) == {};
    }
  }

  lemma ChainFacts(chains: Chains, place: Places, h: uint16)
    requires Partition(chains, place) && h in chains
    ensures chains[h] != [] && chains[h][0] == h && Distinct(chains[h])
    ensures forall k {:trigger chains[h][k]} :: 0 <= k < |chains[h]| ==>
              IsCluster(chains[h][k]) && chains[h][k] in place
  {
    forall i, j | 0 <= i < j < |chains[h]| ensures chains[h][i] != chains[h][j] {
      Disjoint(chains, place, h, i, h, j);
    }
  }

  // ---------- what the operations do to the partition ----------

  /** A free cluster, marked as an end, is a new chain of its own. */
  lemma NewChain(fat: Fat, chains: Chains, place: Places, c: uint16)
    requires FatOk(fat, chains, place) && IsCluster(c) && fat[c] == FREE_CLUSTER
    ensures c !in chains && c !in place
    ensures FatOk(fat[c := END_OF_CHAIN], chains[c := [c]], place[c := Spot(c, 0)])
  {
    assert c !in place by {
      if c in place {
        ChainIsLinked(fat, chains, place, place[c].head, place[c].index);
      }
    }
    assert c !in chains by {
      assert forall h :: h in chains ==> chains[h][0] in place;
    }
    NewPartition(chains, place, c);
    forall x: uint16 | IsCluster(x)
      ensures fat[c := END_OF_CHAIN][x] == Expected(chains[c := [c]], place[c := Spot(c, 0)], x)
    {
      NewNext(chains, place, c, x);
    }
    hide Partition, Expected;
  }

  lemma NewPartition(chains: Chains, place: Places, c: uint16)
    requires Partition(chains, place) && IsCluster(c) && c !in chains && c !in place
    ensures Partition(chains[c := [c]], place[c := Spot(c, 0)])
  {
    assert Headed(chains[c := [c]]);
    assert AllPlaced(chains[c := [c]], place[c := Spot(c, 0)]);
    NewFilled(chains, place, c);
    hide Headed, AllPlaced, PlacesFilled;
  }

  lemma NewFilled(chains: Chains, place: Places, c: uint16)
    requires PlacesFilled(chains, place) && IsCluster(c) && c !in chains && c !in place
    ensures PlacesFilled(chains[c := [c]], place[c := Spot(c, 0)])
  {
  }

  lemma NewNext(chains: Chains, place: Places, c: uint16, x: uint16)
    requires Partition(chains, place) && c !in chains && c !in place
    requires Partition(chains[c := [c]], place[c := Spot(c, 0)])
    ensures Expected(chains[c := [c]], place[c := Spot(c, 0)], x) ==
              if x == c then END_OF_CHAIN else Expected(chains, place, x)
  {
  }

  ghost function Extended(chains: Chains, h: uint16, c: uint16): Chains
    requires h in chains
  {
    (chains - {c})[h := chains[h] + [c]]
  }

  /** Linking a one-cluster chain behind the last cluster of another makes them one chain. */
  lemma ChainsJoined(fat: Fat, chains: Chains, place: Places, h: uint16, c: uint16)
    requires FatOk(fat, chains, place) && h in chains && c in chains && c != h && chains[c] == [c]
    ensures IsCluster(chains[h][|chains[h]| - 1])
    ensures var last := chains[h][|chains[h]| - 1];
            FatOk(fat[last := c], Extended(chains, h, c), place[c := Spot(h, |chains[h]|)])
  {
    var chain := chains[h];
    var last := chain[|chain| - 1];
    assert last in place && place[last] == Spot(h, |chain| - 1);
    assert chains[c][0] in place && place[c] == Spot(c, 0);
    var chains', place' := Extended(chains, h, c), place[c := Spot(h, |chain|)];
    JoinedPartition(chains, place, h, c);
    forall x: uint16 | IsCluster(x) ensures fat[last := c][x] == Expected(chains', place', x) {
      JoinedNext(chains, place, h, c, x);
    }
    hide Expected, Partition;
  }

  lemma JoinedPartition(chains: Chains, place: Places, h: uint16, c: uint16)
    requires Partition(chains, place) && h in chains && c in chains && c != h && chains[c] == [c]
    ensures Partition(Extended(chains, h, c), place[c := Spot(h, |chains[h]|)])
  {
    assert chains[c][0] in place;
    assert forall g, i :: g in chains && 0 <= i < |chains[g]| && g != c ==> chains[g][i] != c;
  }

  lemma JoinedNext(chains: Chains, place: Places, h: uint16, c: uint16, x: uint16)
    requires Partition(chains, place) && h in chains && c in chains && c != h && chains[c] == [c]
    requires Partition(Extended(chains, h, c), place[c := Spot(h, |chains[h]|)])
    ensures Expected(Extended(chains, h, c), place[c := Spot(h, |chains[h]|)], x) ==
            if x == chains[h][|chains[h]| - 1] then c else Expected(chains, place, x)
  {
    assert chains[c][0] in place && place[c] == Spot(c, 0);
    var last := chains[h][|chains[h]| - 1];
    assert last in place && place[last] == Spot(h, |chains[h]| - 1);
  }

  // ---------- taking chains apart ----------

  /** The chains after the first cluster of chain h is cut off; what follows it is a chain of its own. */
  ghost function Beheaded(chains: Chains, h: uint16): Chains
    requires h in chains && chains[h] != []
  {
    if |chains[h]| == 1 then chains - {h} else (chains - {h})[chains[h][1] := chains[h][1..]]
  }

  ghost function BeheadedPlace(chains: Chains, place: Places, h: uint16): Places
    requires Partition(chains, place) && h in chains
  {
    map c | c in place && c != h :: if place[c].head == h then Spot(chains[h][1], place[c].index - 1) else place[c]
  }

  lemma BeheadedPartition(chains: Chains, place: Places, h: uint16)
    requires Partition(chains, place) && h in chains
    ensures Partition(Beheaded(chains, h), BeheadedPlace(chains, place, h))
  {
    BeheadedPlaced(chains, place, h);
    BeheadedFilled(chains, place, h);
    assert Headed(Beheaded(chains, h));
    hide AllPlaced, PlacesFilled, Headed;
  }

  /** The cluster after the head is no head. */
  lemma SecondNotHead(chains: Chains, place: Places, h: uint16)
    requires Partition(chains, place) && h in chains && |chains[h]| > 1
    ensures chains[h][1] != h && chains[h][1] !in chains
  {
    assert chains[h][0] in place && chains[h][1] in place;
  }

  lemma BeheadedPlaced(chains: Chains, place: Places, h: uint16)
    requires Partition(chains, place) && h in chains
    ensures AllPlaced(Beheaded(chains, h), BeheadedPlace(chains, place, h))
  {
    var chain, place' := chains[h], BeheadedPlace(chains, place, h);
    RestPartition(chains, place, h);
    if |chain| > 1 {
      SecondNotHead(chains, place, h);
      forall i | 0 <= i < |chain[1..]| ensures chain[1..][i] in place' && place'[chain[1..][i]] == Spot(chain[1], i) {
        TailPlaced(chains, place, h, i);
      }
    }
    hide Partition, BeheadedPlace;
  }

  lemma TailPlaced(chains: Chains, place: Places, h: uint16, i: nat)
    requires Partition(chains, place) && h in chains && i + 1 < |chains[h]|
    ensures var c, place' := chains[h][i + 1], BeheadedPlace(chains, place, h);
            c in place' && place'[c] == Spot(chains[h][1], i)
  {
    assert chains[h][0] in place && chains[h][i + 1] in place;
  }

  lemma BeheadedFilled(chains: Chains, place: Places, h: uint16)
    requires Partition(chains, place) && h in chains
    ensures PlacesFilled(Beheaded(chains, h), BeheadedPlace(chains, place, h))
  {
    var chains', place' := Beheaded(chains, h), BeheadedPlace(chains, place, h);
    if |chains[h]| > 1 {
      SecondNotHead(chains, place, h);
    }
    forall c | c in place' ensures IsCluster(c) && place'[c].head in chains'
                                   && place'[c].index < |chains'[place'[c].head]|
                                   && chains'[place'[c].head][place'[c].index] == c {
      StillFilled(chains, place, h, c);
    }
    hide Partition, Beheaded, BeheadedPlace;
  }

  lemma StillFilled(chains: Chains, place: Places, h: uint16, c: uint16)
    requires Partition(chains, place) && h in chains && c in BeheadedPlace(chains, place, h)
    requires |chains[h]| > 1 ==> chains[h][1] !in chains
    ensures var spot, chains' := BeheadedPlace(chains, place, h)[c], Beheaded(chains, h);
            && IsCluster(c) && spot.head in chains' && spot.index < |chains'[spot.head]|
            && chains'[spot.head][spot.index] == c
  {
    if place[c].head == h {
      assert place[c].index > 0;
    }
  }

  lemma RestPartition(chains: Chains, place: Places, h: uint16)
    requires Partition(chains, place) && h in chains
    ensures forall g, i {:trigger chains[g][i]} :: g in chains && g != h && 0 <= i < |chains[g]| ==>
              && chains[g][i] in BeheadedPlace(chains, place, h)
              && BeheadedPlace(chains, place, h)[chains[g][i]] == Spot(g, i)
  {
    assert chains[h][0] in place && place[h] == Spot(h, 0);
  }

  lemma BeheadedNext(chains: Chains, place: Places, h: uint16, x: uint16)
    requires Partition(chains, place) && h in chains
    requires Partition(Beheaded(chains, h), BeheadedPlace(chains, place, h))
    ensures Expected(Beheaded(chains, h), BeheadedPlace(chains, place, h), x) ==
              if x == h then FREE_CLUSTER else Expected(chains, place, x)
  {
    assert chains[h][0] in place && place[h] == Spot(h, 0);
    if x in place && x != h && place[x].head == h {
      assert place[x].index > 0 by {
        assert chains[h][place[x].index] == x;
      }
    }
  }

  /** Clearing the first cluster of a chain frees exactly that cluster. */
  lemma HeadFreed(fat: Fat, chains: Chains, place: Places, h: uint16)
    requires FatOk(fat, chains, place) && h in chains
    ensures IsCluster(h)
    ensures FatOk(fat[h := FREE_CLUSTER], Beheaded(chains, h), BeheadedPlace(chains, place, h))
  {
    assert chains[h][0] in place;
    BeheadedPartition(chains, place, h);
    forall x: uint16 | IsCluster(x)
      ensures fat[h := FREE_CLUSTER][x] == Expected(Beheaded(chains, h), BeheadedPlace(chains, place, h), x)
    {
      BeheadedNext(chains, place, h, x);
    }
    hide Partition, Expected;
  }

  /** Marking the first cluster of a chain as an end leaves it a chain of one, and what followed a chain of
      its own. */
  lemma HeadSplit(fat: Fat, chains: Chains, place: Places, h: uint16)
    requires FatOk(fat, chains, place) && h in chains
    ensures IsCluster(h) && h !in Beheaded(chains, h) && h !in BeheadedPlace(chains, place, h)
    ensures FatOk(fat[h := END_OF_CHAIN], Beheaded(chains, h)[h := [h]],
                  BeheadedPlace(chains, place, h)[h := Spot(h, 0)])
  {
    HeadFreed(fat, chains, place, h);
    assert fat[h := FREE_CLUSTER][h] == FREE_CLUSTER;
    NewChain(fat[h := FREE_CLUSTER], Beheaded(chains, h), BeheadedPlace(chains, place, h), h);
    assert fat[h := FREE_CLUSTER][h := END_OF_CHAIN] == fat[h := END_OF_CHAIN];
  }

  // ---------- freeing a chain from its head ----------

  /** The chains when the first k clusters of chain h are gone; what is left of it is a chain of its own. */
  ghost function Remaining(chains: Chains, h: uint16, k: nat): Chains
    requires h in chains
  {
    if k < |chains[h]| then (chains - {h})[chains[h][k] := chains[h][k..]] else chains - {h}
  }

  /** The first k clusters of a chain are free and every other entry is as it was. */
  ghost predicate Freed(fat0: Fat, fat: Fat, chain: seq<uint16>, k: nat)
    requires k <= |chain|
  {
    forall x {:trigger fat[x]} :: 0 <= x < CLUSTERS_PER_FAT ==>
          fat[x] == if x in chain[..k] then FREE_CLUSTER else fat0[x]
  }

  lemma FreeingStart(fat: Fat, chains: Chains, place: Places, h: uint16)
    requires FatOk(fat, chains, place) && h in chains
    ensures chains == Remaining(chains, h, 0) && Freed(fat, fat, chains[h], 0)
  {
    assert chains[h][0..] == chains[h];
    assert chains == (chains - {h})[h := chains[h]];
  }

  lemma OnlyHead(chains: Chains, place: Places, h: uint16, k: nat)
    requires Partition(chains, place) && h in chains && k < |chains[h]|
    ensures chains[h][k] in chains ==> chains[h][k] == h
  {
  }

  lemma FreeingStep(fat0: Fat, chains0: Chains, place0: Places, h: uint16, k: nat, fat: Fat, chains: Chains)
    requires FatOk(fat0, chains0, place0) && h in chains0 && k < |chains0[h]|
    requires chains == Remaining(chains0, h, k) && Freed(fat0, fat, chains0[h], k)
    ensures var c := chains0[h][k];
            && IsCluster(c) && c in chains && chains[c] == chains0[h][k..]
            && fat[c] == Next(chains0[h], k)
            && Beheaded(chains, c) == Remaining(chains0, h, k + 1)
            && Freed(fat0, fat[c := FREE_CLUSTER], chains0[h], k + 1)
  {
    var c := chains0[h][k];
    ChainIsLinked(fat0, chains0, place0, h, k);
    ChainFacts(chains0, place0, h);
    OnlyHead(chains0, place0, h, k);
    hide FatOk, Partition, Next;
    FreedOneMore(fat0, fat, chains0[h], k);
    hide Freed, Distinct;
    RemainingOneMore(chains0, h, k);
  }

  lemma FreedOneMore(fat0: Fat, fat: Fat, chain: seq<uint16>, k: nat)
    requires k < |chain| && Freed(fat0, fat, chain, k) && Distinct(chain) && IsCluster(chain[k])
    ensures fat[chain[k]] == fat0[chain[k]]
    ensures Freed(fat0, fat[chain[k] := FREE_CLUSTER], chain, k + 1)
  {
    assert chain[k] !in chain[..k];
    assert chain[..k + 1] == chain[..k] + [chain[k]];
  }

  lemma RemainingOneMore(chains0: Chains, h: uint16, k: nat)
    requires h in chains0 && k < |chains0[h]| && (chains0[h][k] in chains0 ==> chains0[h][k] == h)
    ensures var chains, c := Remaining(chains0, h, k), chains0[h][k];
            c in chains && chains[c] == chains0[h][k..] && Beheaded(chains, c) == Remaining(chains0, h, k + 1)
  {
    var chains, c, chain := Remaining(chains0, h, k), chains0[h][k], chains0[h];
    assert chain[k..][1..] == chain[k + 1..];
    assert chains - {c} == chains0 - {h};
  }

  /** Freeing makes exactly those clusters allocatable. */
  lemma FreedClusters(fat0: Fat, fat: Fat, chain: seq<uint16>, k: nat)
    requires k <= |chain| && Freed(fat0, fat, chain, k)
    requires forall i {:trigger chain[i]} :: 0 <= i < |chain| ==> IsCluster(chain[i])
    ensures FreeClusters(fat) == FreeClusters(fat0) + Elements(chain[..k])
  {
  }

  /** The walk frees a chain completely exactly when the chain is no longer than its limit. */
  lemma WholeChainFreedIff(chains: Chains, place: Places, h: uint16)
    requires Partition(chains, place) && h in chains
    ensures Remaining(chains, h, Min(|chains[h]|, WALK_LIMIT)) == chains - {h} <==> |chains[h]| <= WALK_LIMIT
  {
    if |chains[h]| > WALK_LIMIT {
      OnlyHead(chains, place, h, WALK_LIMIT);
      Disjoint(chains, place, h, 0, h, WALK_LIMIT);
      hide Partition;
      assert chains[h][WALK_LIMIT] in Remaining(chains, h, WALK_LIMIT);
    }
  }

  /** Where the clusters of a chain without gaps are. */
  ghost function InARow(chain: seq<uint16>): Places {
    map c | c in chain && c >= 2 :: Spot(2, c - 2)
  }

  /** Freeing a chain of 2001 clusters leaves the last one behind, as a chain no file starts with. */
  lemma TailLeftBehind(chain: seq<uint16>)
    requires |chain| == WALK_LIMIT + 1 && forall i :: 0 <= i < |chain| ==> chain[i] == 2 + i
    ensures Partition(map[2 := chain], InARow(chain))
    ensures Remaining(map[2 := chain], 2, WALK_LIMIT) == map[2002 := [2002]]
  {
    assert chain[WALK_LIMIT..] == [2002];
  }

  // ---------- truncating a chain ----------

  /** The chains when all but the first cluster of chain h are freed, by a walk that gives up after
      WALK_LIMIT clusters. */
  ghost function Truncated(chains: Chains, h: uint16): Chains
    requires h in chains
  {
    var chain, cut := chains[h], WALK_LIMIT + 1;
    if |chain| <= cut then chains[h := [h]] else chains[h := [h]][chain[cut] := chain[cut..]]
  }

  /** Splitting off the head and then freeing the rest truncates the chain. */
  lemma SplitThenFreed(chains: Chains, place: Places, h: uint16)
    requires Partition(chains, place) && h in chains && |chains[h]| > 1
    ensures var split, rest, k := Beheaded(chains, h)[h := [h]], chains[h][1], Min(|chains[h]| - 1, WALK_LIMIT);
            rest in split && split[rest] == chains[h][1..] && Remaining(split, rest, k) == Truncated(chains, h)
  {
    var chain, split := chains[h], Beheaded(chains, h)[h := [h]];
    var rest, k := chain[1], Min(|chain| - 1, WALK_LIMIT);
    ChainFacts(chains, place, h);
    OnlyHead(chains, place, h, 1);
    hide Partition;
    assert split - {rest} == chains[h := [h]];
    if k < |chain| - 1 {
      assert chain[1..][k..] == chain[k + 1..];
    }
  }
}
