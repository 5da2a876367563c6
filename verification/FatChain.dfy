/** ClusterReader: following a cluster chain through the table, and the sectors it loads. */
module FatChain {
  import opened FatGeometry
  import opened FatTable
  import opened Machine

  /** The table that was loaded, and the geometry it is read by. */
  datatype Volume = Volume(table: seq<Byte>, info: VolumeInfo) {
    function Table(): Fat {
      Fat(info.kind, table, info.chainEndCluster)
    }
  }

  /** The cluster behind c while there is more data; cluster 0 is the root directory region. */
  function Step(fat: Fat, c: nat): Option<nat> {
    if c == 0 || !Has(fat, c) || NextCluster(fat, c) >= fat.chainEnd then None else Some(NextCluster(fat, c))
  }

  /** The cluster after k steps. */
  function Walk(fat: Fat, c: nat, k: nat): Option<nat> {
    if k == 0 then Some(c)
    else if Walk(fat, c, k - 1).None? then None
    else Step(fat, Walk(fat, c, k - 1).value)
  }

  /** Every cluster the chain comes to has its entry in the loaded table; nothing is asked of other entries. */
  ghost predicate ChainLoaded(fat: Fat, c: nat) {
    forall k: nat :: Walk(fat, c, k).Some? ==> Walk(fat, c, k).value == 0 || Has(fat, Walk(fat, c, k).value)
  }

  /** No more clusters than this can have an entry. */
  function Room(fat: Fat): nat {
    |fat.table| + 1
  }

  // ---- when a chain ends

  lemma {:induction false} WalkStaysOut(fat: Fat, c: nat, j: nat, k: nat)
    requires j <= k && Walk(fat, c, j).None?
    ensures Walk(fat, c, k).None?
  {
    if j < k {
      WalkStaysOut(fat, c, j, k - 1);
    }
  }

  lemma AliveBefore(fat: Fat, c: nat, k: nat, n: nat)
    requires Walk(fat, c, n).None?
    ensures Walk(fat, c, k).Some? ==> k < n
  {
    if n <= k {
      WalkStaysOut(fat, c, n, k);
    }
  }

  lemma WalkInTable(fat: Fat, c: nat, k: nat)
    requires ChainLoaded(fat, c) && Walk(fat, c, k).Some?
    ensures Walk(fat, c, k).value < Room(fat)
    ensures Walk(fat, c, k).value == 0 || Has(fat, Walk(fat, c, k).value)
  {
  }

  lemma {:induction false} SameFuture(fat: Fat, c: nat, i: nat, j: nat, d: nat)
    requires Walk(fat, c, i) == Walk(fat, c, j)
    ensures Walk(fat, c, i + d) == Walk(fat, c, j + d)
  {
    if d > 0 {
      SameFuture(fat, c, i, j, d - 1);
    }
  }

  /** A chain that ends visits no cluster twice. */
  lemma {:induction false} EndedNeverRepeats(fat: Fat, c: nat, i: nat, j: nat, k: nat)
    requires i < j && Walk(fat, c, i).Some? && Walk(fat, c, i) == Walk(fat, c, j) && Walk(fat, c, k).None?
    ensures false
    decreases k
  {
    if k <= j {
      WalkStaysOut(fat, c, k, j);
    } else {
      SameFuture(fat, c, i, j, k - j);
      EndedNeverRepeats(fat, c, i, j, i + (k - j));
    }
  }

  ghost predicate SeenBefore(fat: Fat, c: nat, k: nat, x: nat) {
    exists i: nat :: i < k && Walk(fat, c, i) == Some(x)
  }

  function Visited(fat: Fat, c: nat, k: nat): set<nat> {
    if k == 0 then {}
    else if Walk(fat, c, k - 1).None? then Visited(fat, c, k - 1)
    else Visited(fat, c, k - 1) + {Walk(fat, c, k - 1).value}
  }

  lemma {:induction false} VisitedIsSeen(fat: Fat, c: nat, k: nat, x: nat)
    ensures x in Visited(fat, c, k) <==> SeenBefore(fat, c, k, x)
  {
    if k > 0 {
      VisitedIsSeen(fat, c, k - 1, x);
      assert SeenBefore(fat, c, k, x) <==> SeenBefore(fat, c, k - 1, x) || Walk(fat, c, k - 1) == Some(x);
    }
  }

  ghost predicate Repeats(fat: Fat, c: nat) {
    exists i: nat, j: nat :: i < j && Walk(fat, c, i).Some? && Walk(fat, c, i) == Walk(fat, c, j)
  }

  lemma {:induction false} FreshEachStep(fat: Fat, c: nat, k: nat)
    requires !Repeats(fat, c) && Walk(fat, c, k).Some?
    ensures |Visited(fat, c, k + 1)| == k + 1
  {
    VisitedIsSeen(fat, c, k, Walk(fat, c, k).value);
    hide SeenBefore, Repeats;
    NotSeen(fat, c, k);
    if k > 0 {
      FreshEachStep(fat, c, k - 1);
    }
  }

  lemma NotSeen(fat: Fat, c: nat, k: nat)
    requires !Repeats(fat, c) && Walk(fat, c, k).Some?
    ensures !SeenBefore(fat, c, k, Walk(fat, c, k).value)
  {
    hide Walk;
  }

  lemma {:induction false} BoundedSet(s: set<nat>, n: nat)
    requires forall x :: x in s ==> x < n
    ensures |s| <= n
  {
    if n > 0 {
      BoundedSet(s - {n - 1}, n - 1);
    } else {
      assert s == {};
    }
  }

  /** The walk ends exactly when it meets no cluster twice, and then within as many steps as the table has room for. */
  lemma WalkEndsIffAcyclic(fat: Fat, c: nat)
    requires ChainLoaded(fat, c)
    ensures Walk(fat, c, Room(fat)).None? <==> !Repeats(fat, c)
    ensures (exists k: nat :: Walk(fat, c, k).None?) <==> !Repeats(fat, c)
  {
    var n := Room(fat);
    if Repeats(fat, c) {
      var i: nat, j: nat :| i < j && Walk(fat, c, i).Some? && Walk(fat, c, i) == Walk(fat, c, j);
      forall k: nat ensures Walk(fat, c, k).Some? {
        if Walk(fat, c, k).None? {
          EndedNeverRepeats(fat, c, i, j, k);
        }
      }
    } else if Walk(fat, c, n).Some? {
      FreshEachStep(fat, c, n);
      var seen := Visited(fat, c, n + 1);
      forall x | x in seen ensures x < n {
        VisitedIsSeen(fat, c, n + 1, x);
        var i: nat :| i < n + 1 && Walk(fat, c, i) == Some(x);
        WalkInTable(fat, c, i);
      }
      BoundedSet(seen, n);
    }
  }

  // ---- the reader

  /** First sector and number of sectors of what is loaded for a cluster. */
  function Loaded(info: VolumeInfo, c: nat): (nat, nat) {
    if c == 0 then (info.rootDirectoryLBA, info.rootDirSectors)
    else (ToUint32(FirstSector(info, c)), info.sectorsPerCluster)
  }

  /** The regions loaded lie side by side: the root region, cluster 2, cluster 3 and so on. */
  lemma LoadedTile(bpb: Bpb, v: VolumeInfo, c: nat)
    requires IsGeometry(bpb, v) && v.dataLBA <= v.totalSectors
    ensures Loaded(v, 0).0 == v.fatLBA + v.sectorsPerFat * v.fatCount
    ensures Loaded(v, 0).0 + Loaded(v, 0).1 == v.dataLBA == Loaded(v, 2).0
    ensures IsCluster(v, c) ==> Loaded(v, c).0 + Loaded(v, c).1 <= v.totalSectors
    ensures IsCluster(v, c) && IsCluster(v, c + 1) ==> Loaded(v, c).0 + Loaded(v, c).1 == Loaded(v, c + 1).0
    ensures IsCluster(v, c) ==> Loaded(v, c).1 == v.sectorsPerCluster
  {
    DataEndsWithVolume(bpb, v);
    assert v.totalSectors < TWO_32;
    assert FirstSector(v, 2) == v.dataLBA;
    if IsCluster(v, c) {
      ClusterInData(bpb, v, c);
      NextSector(v, c);
    }
    if IsCluster(v, c + 1) {
      ClusterInData(bpb, v, c + 1);
    }
    hide ToUint32;
    GeometryRoot(bpb, v);
  }

  lemma GeometryRoot(bpb: Bpb, v: VolumeInfo)
    requires IsGeometry(bpb, v)
    ensures v.rootDirectoryLBA == v.fatLBA + v.sectorsPerFat * v.fatCount
    ensures v.rootDirectoryLBA + v.rootDirSectors == v.dataLBA
  {
  }

  /**
    cs are the clusters that the entries of the table link from first on: each entry but the last names the next
    cluster, and the last one ends the chain. The root region, cluster 0, has no entry and stands alone or last.
   */
  ghost predicate IsChain(fat: Fat, first: nat, cs: seq<nat>) {
    && cs != [] && cs[0] == first
    && (forall i :: 0 <= i < |cs| - 1 ==>
          cs[i] != 0 && Has(fat, cs[i]) && Entry(fat, cs[i]) < fat.chainEnd && cs[i + 1] == Entry(fat, cs[i]))
    && (cs[|cs| - 1] == 0 || (Has(fat, cs[|cs| - 1]) && Entry(fat, cs[|cs| - 1]) >= fat.chainEnd))
  }

  lemma StepIsEntry(fat: Fat, c: nat)
    requires c == 0 || Has(fat, c)
    ensures Step(fat, c) == if c == 0 || Entry(fat, c) >= fat.chainEnd then None else Some(Entry(fat, c))
  {
    if c != 0 {
      NextClusterIsEntry(fat, c);
    }
    hide Entry, NextCluster;
  }

  /** A walk of n clusters that ends is the chain the table links. */
  lemma WalkIsChain(fat: Fat, first: nat, cs: seq<nat>)
    requires cs != [] && ChainLoaded(fat, first)
    requires forall i :: 0 <= i < |cs| ==> Walk(fat, first, i) == Some(cs[i])
    requires Walk(fat, first, |cs|).None?
    ensures IsChain(fat, first, cs)
  {
    hide Entry, NextCluster, Step;
    assert Walk(fat, first, 0) == Some(first);
    forall i | 0 <= i < |cs|
      ensures cs[i] == 0 || Has(fat, cs[i])
      ensures Step(fat, cs[i]) == Walk(fat, first, i + 1)
    {
      WalkInTable(fat, first, i);
    }
    forall i | 0 <= i < |cs| ensures cs[i] == 0 || Has(fat, cs[i])
      ensures i + 1 < |cs| ==> cs[i] != 0 && Entry(fat, cs[i]) < fat.chainEnd && cs[i + 1] == Entry(fat, cs[i])
      ensures i + 1 == |cs| ==> cs[i] == 0 || Entry(fat, cs[i]) >= fat.chainEnd
    {
      StepIsEntry(fat, cs[i]);
    }
  }

  /** There is only one such list. */
  lemma {:induction false} ChainUnique(fat: Fat, first: nat, cs: seq<nat>, ds: seq<nat>)
    requires IsChain(fat, first, cs) && IsChain(fat, first, ds)
    ensures cs == ds
    decreases |cs|
  {
    hide Entry, Has;
    if |cs| > 1 && |ds| > 1 {
      ChainUnique(fat, cs[1], cs[1..], ds[1..]);
      assert cs == [first] + cs[1..] && ds == [first] + ds[1..];
    }
  }

  class ClusterReader {
    const volume: Volume
    var cluster: nat
    var hasMoreData: bool

    constructor (volume: Volume, cluster: nat)
      ensures this.volume == volume && this.cluster == cluster && !hasMoreData
    {
      this.volume := volume;
      this.cluster := cluster;
      hasMoreData := false;
    }

    method ReadNext() returns (loaded: (nat, nat))
      requires cluster == 0 || Has(volume.Table(), cluster)
      modifies this
      ensures loaded == Loaded(volume.info, old(cluster))
      ensures hasMoreData <==>
                old(cluster) != 0 && Entry(volume.Table(), old(cluster)) < volume.info.chainEndCluster
      ensures cluster == if old(cluster) == 0 then 0 else Entry(volume.Table(), old(cluster))
    {
      var startSector, readCount;
      if cluster == 0 {
        startSector := volume.info.rootDirectoryLBA;
        readCount := volume.info.rootDirSectors;
      } else {
        startSector := ToUint32(volume.info.dataLBA + (cluster - 2) * volume.info.sectorsPerCluster);
        readCount := volume.info.sectorsPerCluster;
      }
      loaded := (startSector, readCount);
      if cluster == 0 {
        hasMoreData := false;
        return;
      }
      NextClusterIsEntry(volume.Table(), cluster);
      cluster := NextCluster(volume.Table(), cluster);
      hasMoreData := cluster < volume.info.chainEndCluster;
    }

    /** The loop of every caller: it loads the clusters the table links, in order, each once, and stops at the end. */
    method ReadAll() returns (loaded: seq<(nat, nat)>, ghost cs: seq<nat>)
      requires ChainLoaded(volume.Table(), cluster) && !Repeats(volume.Table(), cluster)
      modifies this
      ensures IsChain(volume.Table(), old(cluster), cs) && (forall i, j :: 0 <= i < j < |cs| ==> cs[i] != cs[j])
      ensures |loaded| == |cs| && forall i :: 0 <= i < |cs| ==> loaded[i] == Loaded(volume.info, cs[i])
    {
      hide Loaded, Step, Repeats, ChainLoaded, Entry;
      ghost var fat := volume.Table();
      ghost var first, n := cluster, Room(fat);
      WalkEndsIffAcyclic(fat, first);
      WalkInTable(fat, first, 0);
      StepIsEntry(fat, first);
      cs := [first];
      var next := ReadNext();
      loaded := [next];
      while hasMoreData
        invariant 0 < |loaded| == |cs| <= n
        invariant hasMoreData ==> Walk(fat, first, |cs|) == Some(cluster) && |cs| < n
        invariant !hasMoreData ==> Walk(fat, first, |cs|).None?
        invariant forall i :: 0 <= i < |cs| ==> Walk(fat, first, i) == Some(cs[i]) && loaded[i] == Loaded(volume.info, cs[i])
        decreases n - |cs|, hasMoreData
      {
        WalkInTable(fat, first, |cs|);
        StepIsEntry(fat, cluster);
        cs := cs + [cluster];
        next := ReadNext();
        loaded := loaded + [next];
        AliveBefore(fat, first, |cs|, n);
      }
      WalkIsChain(fat, first, cs);
      NoneTwice(fat, first, cs);
    }
  }

  lemma NoneTwice(fat: Fat, first: nat, cs: seq<nat>)
    requires !Repeats(fat, first) && forall i :: 0 <= i < |cs| ==> Walk(fat, first, i) == Some(cs[i])
    ensures forall i, j :: 0 <= i < j < |cs| ==> cs[i] != cs[j]
  {
    hide Walk;
  }

  /** On a probed volume the sectors of two visited clusters never overlap, and lie in the data area. */
  lemma VisitedSectors(bpb: Bpb, v: VolumeInfo, fat: Fat, c: nat, i: nat, j: nat)
    requires IsGeometry(bpb, v) && v.dataLBA <= v.totalSectors && !Repeats(fat, c) && i < j
    requires Walk(fat, c, i).Some? && IsCluster(v, Walk(fat, c, i).value)
    requires Walk(fat, c, j).Some? && IsCluster(v, Walk(fat, c, j).value)
    ensures var a, b := Loaded(v, Walk(fat, c, i).value), Loaded(v, Walk(fat, c, j).value);
            && (a.0 + a.1 <= b.0 || b.0 + b.1 <= a.0)
            && v.dataLBA <= a.0 && a.0 + a.1 <= v.totalSectors
            && v.dataLBA <= b.0 && b.0 + b.1 <= v.totalSectors
  {
    var x, y := Walk(fat, c, i).value, Walk(fat, c, j).value;
    assert x != y;
    DataEndsWithVolume(bpb, v);
    ClusterInData(bpb, v, x);
    ClusterInData(bpb, v, y);
    if x < y {
      ClustersDisjoint(v, x, y);
    } else {
      ClustersDisjoint(v, y, x);
    }
    assert v.totalSectors < TWO_32;
  }
}
