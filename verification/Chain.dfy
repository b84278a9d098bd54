/** A file's clusters as one byte sequence. */
module Chain {
  import opened Machine
  import opened Memory
  import opened Fat
  import opened FatUpdate
  import opened D = Disk

  /** cluster_size: bytes_per_sector * sectors_per_cluster */
  function ClusterSize(g: Geometry): nat {
    Base(g.sectorsPerCluster, g.sectorSize)
  }

  /** calculate_lba */
  function ClusterLba(g: Geometry, c: nat): nat {
    if c >= 2 then g.dataStart + Base(c - 2, g.sectorsPerCluster) else 0
  }

  /** Byte position of a cluster. */
  function ClusterStart(g: Geometry, c: nat): nat {
    Base(ClusterLba(g, c), g.sectorSize)
  }

  lemma ClusterStartIs(g: Geometry, c: nat)
    requires c >= 2
    ensures ClusterStart(g, c) == Base(g.dataStart, g.sectorSize) + Base(c - 2, ClusterSize(g))
  {
    SumProduct(g.dataStart, Base(c - 2, g.sectorsPerCluster), g.sectorSize);
    ProductAssociates(c - 2, g.sectorsPerCluster, g.sectorSize);
  }

  /** Clusters from 2 on lie one behind the other in the data region; smaller numbers have no place. */
  lemma ClusterPlace(g: Geometry, c: nat)
    ensures c < 2 ==> ClusterLba(g, c) == 0
    ensures c >= 2 ==>
              ClusterStart(g, c) == g.dataStart * g.sectorSize + (c - 2) * (g.sectorsPerCluster * g.sectorSize)
  {
    if c >= 2 {
      ClusterStartIs(g, c);
    }
  }

  lemma ProductAssociates(a: nat, b: nat, c: nat)
    ensures Base(Base(a, b), c) == Base(a, Base(b, c))
  {
    assert a * b * c == a * (b * c);
  }

  lemma ClustersApart(g: Geometry, c: nat, d: nat)
    requires 2 <= c < d
    ensures ClusterStart(g, c) + ClusterSize(g) <= ClusterStart(g, d)
  {
    hide Base, ClusterStart, ClusterSize;
    ClusterStartIs(g, c);
    ClusterStartIs(g, d);
    NextProduct(c - 2, ClusterSize(g));
    Monotone(c - 2 + 1, d - 2, ClusterSize(g));
  }

  /** The tables lie in front of the data region. */
  predicate Separate(g: Geometry) {
    g.FatStart(g.fats) <= Base(g.dataStart, g.sectorSize)
  }

  lemma ClusterBehindTables(g: Geometry, c: nat)
    requires Separate(g) && c >= 2
    ensures g.FatStart(g.fats) <= ClusterStart(g, c)
  {
    hide Base, ClusterStart;
    ClusterStartIs(g, c);
  }

  /** A cluster that is on the disk and has its entry in the table. */
  predicate UsableCluster(size: nat, g: Geometry, c: nat) {
    c >= 2 && g.InFat(c) && ClusterStart(g, c) + ClusterSize(g) <= size
  }

  predicate Usable(size: nat, g: Geometry, chain: seq<nat>) {
    && (forall i :: 0 <= i < |chain| ==> UsableCluster(size, g, chain[i]))
    && (forall i, j :: 0 <= i < j < |chain| ==> chain[i] != chain[j])
  }

  /** The table leads from each cluster of the chain to the next. */
  predicate Linked(data: seq<Byte>, g: Geometry, chain: seq<nat>) {
    forall i :: 0 <= i < |chain| - 1 ==> Successor(data, g, chain[i]) == Some(chain[i + 1])
  }

  /** An acyclic chain of usable clusters on a well laid out volume. */
  predicate IsChain(data: seq<Byte>, g: Geometry, chain: seq<nat>) {
    && Separate(g) && g.FatStart(g.fats) <= |data|
    && |chain| > 0 && Usable(|data|, g, chain) && Linked(data, g, chain)
  }

  /** The chain ends with an end-of-chain mark. */
  predicate Ends(data: seq<Byte>, g: Geometry, chain: seq<nat>)
    requires |chain| > 0
  {
    Successor(data, g, chain[|chain| - 1]) == Some(0)
  }

  // ----- contents -----

  function Content(data: seq<Byte>, g: Geometry, chain: seq<nat>): seq<Byte> {
    if chain == [] then []
    else Content(data, g, chain[..|chain| - 1]) + Slice(data, ClusterStart(g, chain[|chain| - 1]), ClusterSize(g))
  }

  lemma {:induction false} ContentLength(data: seq<Byte>, g: Geometry, chain: seq<nat>)
    requires Usable(|data|, g, chain)
    ensures |Content(data, g, chain)| == Base(|chain|, ClusterSize(g))
  {
    hide ClusterSize, ClusterStart, Base, Slice;
    if chain == [] {
      BaseOfZero(ClusterSize(g));
    } else {
      var n := |chain| - 1;
      assert UsableCluster(|data|, g, chain[n]);
      ContentLength(data, g, chain[..n]);
      NextProduct(n, ClusterSize(g));
    }
  }

  /** Bytes of the content inside one cluster are that cluster's bytes. */
  lemma {:induction false} ContentAt(data: seq<Byte>, g: Geometry, chain: seq<nat>, k: nat, o: nat, n: nat)
    requires Usable(|data|, g, chain) && k < |chain| && o + n <= ClusterSize(g)
    ensures Base(k, ClusterSize(g)) + ClusterSize(g) <= |Content(data, g, chain)|
    ensures Slice(Content(data, g, chain), Base(k, ClusterSize(g)) + o, n)
         == Slice(data, ClusterStart(g, chain[k]) + o, n)
    decreases |chain|
  {
    hide ClusterSize, ClusterStart, Base, Slice;
    var m := |chain| - 1;
    var front := chain[..m];
    var last := Slice(data, ClusterStart(g, chain[m]), ClusterSize(g));
    assert UsableCluster(|data|, g, chain[m]);
    ContentLength(data, g, front);
    assert |last| == ClusterSize(g);
    if k == m {
      SliceRight(Content(data, g, front), last, o, n);
      SliceSlice(data, ClusterStart(g, chain[k]), ClusterSize(g), o, n);
    } else {
      ContentAt(data, g, front, k, o, n);
      SliceLeft(Content(data, g, front), last, Base(k, ClusterSize(g)) + o, n);
    }
  }

  lemma SliceRight(a: seq<Byte>, b: seq<Byte>, o: nat, n: nat)
    requires o + n <= |b|
    ensures Slice(a + b, |a| + o, n) == Slice(b, o, n)
  {
  }

  lemma SliceLeft(a: seq<Byte>, b: seq<Byte>, o: nat, n: nat)
    requires o + n <= |a|
    ensures Slice(a + b, o, n) == Slice(a, o, n)
  {
  }

  lemma OverwriteRight(a: seq<Byte>, b: seq<Byte>, o: nat, s: seq<Byte>)
    requires o + |s| <= |b|
    ensures Overwrite(a + b, |a| + o, s) == a + Overwrite(b, o, s)
  {
  }

  lemma OverwriteLeft(a: seq<Byte>, b: seq<Byte>, o: nat, s: seq<Byte>)
    requires o + |s| <= |a|
    ensures Overwrite(a + b, o, s) == Overwrite(a, o, s) + b
  {
    var l, r := Overwrite(a + b, o, s), Overwrite(a, o, s) + b;
    assert forall i :: 0 <= i < |l| ==> l[i] == r[i];
  }

  lemma OtherCluster(data: seq<Byte>, g: Geometry, c: nat, d: nat, o: nat, s: seq<Byte>)
    requires UsableCluster(|data|, g, c) && UsableCluster(|data|, g, d) && c != d && o + |s| <= ClusterSize(g)
    ensures Slice(Overwrite(data, ClusterStart(g, c) + o, s), ClusterStart(g, d), ClusterSize(g))
         == Slice(data, ClusterStart(g, d), ClusterSize(g))
  {
    hide ClusterSize, ClusterStart, Base, Overwrite, Slice;
    if c < d {
      ClustersApart(g, c, d);
    } else {
      ClustersApart(g, d, c);
    }
    OverwriteOther(data, ClusterStart(g, c) + o, s, ClusterStart(g, d), ClusterSize(g));
  }

  lemma {:induction false} ContentElsewhere(data: seq<Byte>, g: Geometry, chain: seq<nat>, c: nat, o: nat, s: seq<Byte>)
    requires Usable(|data|, g, chain) && UsableCluster(|data|, g, c) && c !in chain && o + |s| <= ClusterSize(g)
    ensures Content(Overwrite(data, ClusterStart(g, c) + o, s), g, chain) == Content(data, g, chain)
  {
    hide ClusterSize, ClusterStart, Base, Overwrite, Slice;
    if chain != [] {
      var m := |chain| - 1;
      ContentElsewhere(data, g, chain[..m], c, o, s);
      assert chain[m] in chain && UsableCluster(|data|, g, chain[m]);
      OtherCluster(data, g, c, chain[m], o, s);
    }
  }

  /** A write inside cluster k of the chain is a write into the content. */
  lemma {:induction false} ContentWrite(data: seq<Byte>, g: Geometry, chain: seq<nat>, k: nat, o: nat, s: seq<Byte>)
    requires Usable(|data|, g, chain) && k < |chain| && o + |s| <= ClusterSize(g)
    ensures Content(Overwrite(data, ClusterStart(g, chain[k]) + o, s), g, chain)
         == Overwrite(Content(data, g, chain), Base(k, ClusterSize(g)) + o, s)
    ensures Base(k, ClusterSize(g)) + o + |s| <= |Content(data, g, chain)|
    decreases |chain|
  {
    hide ClusterSize, ClusterStart, Base, Overwrite, Slice;
    var m := |chain| - 1;
    var front := chain[..m];
    var data' := Overwrite(data, ClusterStart(g, chain[k]) + o, s);
    var last := Slice(data, ClusterStart(g, chain[m]), ClusterSize(g));
    assert UsableCluster(|data|, g, chain[m]) && UsableCluster(|data|, g, chain[k]);
    ContentLength(data, g, front);
    assert |last| == ClusterSize(g);
    ContentAt(data, g, chain, k, 0, 0);
    if k == m {
      ContentElsewhere(data, g, front, chain[k], o, s);
      OverwriteWithin(data, ClusterStart(g, chain[k]), ClusterSize(g), o, s);
      OverwriteRight(Content(data, g, front), last, o, s);
      assert Content(data', g, chain) == Overwrite(Content(data, g, chain), Base(k, ClusterSize(g)) + o, s);
    } else {
      assert front[k] == chain[k];
      ContentWrite(data, g, front, k, o, s);
      OtherCluster(data, g, chain[k], chain[m], o, s);
      OverwriteLeft(Content(data, g, front), last, Base(k, ClusterSize(g)) + o, s);
      assert Content(data', g, chain) == Overwrite(Content(data, g, chain), Base(k, ClusterSize(g)) + o, s);
    }
  }

  // ----- what a write leaves alone -----

  /** Every table, and so every successor, is as before. */
  ghost predicate SameTables(data: seq<Byte>, data': seq<Byte>, g: Geometry) {
    |data'| == |data| && Slice(data', 0, g.FatStart(g.fats)) == Slice(data, 0, g.FatStart(g.fats))
  }

  lemma SameSuccessor(data: seq<Byte>, data': seq<Byte>, g: Geometry, c: nat)
    requires SameTables(data, data', g) && g.FatStart(g.fats) <= |data| && g.InFat(c)
    ensures Successor(data', g, c) == Successor(data, g, c)
  {
    hide Slice, Base, FromLe;
    if g.Active() < g.fats {
      FatsApart(g, g.Active(), g.fats);
      SliceSlice(data, 0, g.FatStart(g.fats), g.EntryAt(g.Active(), c), 4);
      SliceSlice(data', 0, g.FatStart(g.fats), g.EntryAt(g.Active(), c), 4);
    }
  }

  lemma SameChain(data: seq<Byte>, data': seq<Byte>, g: Geometry, chain: seq<nat>)
    requires IsChain(data, g, chain) && SameTables(data, data', g)
    ensures IsChain(data', g, chain) && Ends(data', g, chain) == Ends(data, g, chain)
  {
    hide Slice, Base, FromLe, Successor, Separate;
    forall i | 0 <= i < |chain|
      ensures Successor(data', g, chain[i]) == Successor(data, g, chain[i])
    {
      assert UsableCluster(|data|, g, chain[i]);
      SameSuccessor(data, data', g, chain[i]);
    }
  }

  /** [a, a + n) meets no cluster of the chain. */
  ghost predicate Apart(g: Geometry, chain: seq<nat>, a: nat, n: nat) {
    forall i :: 0 <= i < |chain| ==>
      a + n <= ClusterStart(g, chain[i]) || ClusterStart(g, chain[i]) + ClusterSize(g) <= a
  }

  /** Nothing outside the chain's clusters has changed. */
  ghost predicate Untouched(data: seq<Byte>, data': seq<Byte>, g: Geometry, chain: seq<nat>) {
    && |data'| == |data|
    && (forall a, n :: Apart(g, chain, a, n) ==> Slice(data', a, n) == Slice(data, a, n))
  }

  lemma TablesApart(g: Geometry, chain: seq<nat>, size: nat)
    requires Separate(g) && Usable(size, g, chain)
    ensures Apart(g, chain, 0, g.FatStart(g.fats))
  {
    hide ClusterStart, ClusterSize, Separate;
    forall i | 0 <= i < |chain|
      ensures g.FatStart(g.fats) <= ClusterStart(g, chain[i])
    {
      assert UsableCluster(size, g, chain[i]);
      ClusterBehindTables(g, chain[i]);
    }
  }

  /** Every cluster that is not the file's keeps its bytes. */
  lemma OthersApart(g: Geometry, chain: seq<nat>, size: nat, d: nat)
    requires Usable(size, g, chain) && d >= 2 && d !in chain
    ensures Apart(g, chain, ClusterStart(g, d), ClusterSize(g))
  {
    hide ClusterStart, ClusterSize;
    forall i | 0 <= i < |chain|
      ensures ClusterStart(g, d) + ClusterSize(g) <= ClusterStart(g, chain[i])
           || ClusterStart(g, chain[i]) + ClusterSize(g) <= ClusterStart(g, d)
    {
      assert UsableCluster(size, g, chain[i]);
      if d < chain[i] {
        ClustersApart(g, d, chain[i]);
      } else {
        ClustersApart(g, chain[i], d);
      }
    }
  }

  /** One write inside the chain: the content changes there, the tables, the chain and
      everything outside stay. */
  lemma WriteInChain(data: seq<Byte>, g: Geometry, chain: seq<nat>, k: nat, o: nat, s: seq<Byte>)
    requires IsChain(data, g, chain) && k < |chain| && o + |s| <= ClusterSize(g)
    ensures var data' := Overwrite(data, ClusterStart(g, chain[k]) + o, s);
            && Content(data', g, chain) == Overwrite(Content(data, g, chain), Base(k, ClusterSize(g)) + o, s)
            && Base(k, ClusterSize(g)) + o + |s| <= |Content(data, g, chain)|
            && Untouched(data, data', g, chain)
            && IsChain(data', g, chain) && Ends(data', g, chain) == Ends(data, g, chain)
  {
    hide ClusterStart, ClusterSize, Base, Overwrite, Slice, Separate;
    var data' := Overwrite(data, ClusterStart(g, chain[k]) + o, s);
    ContentWrite(data, g, chain, k, o, s);
    assert UsableCluster(|data|, g, chain[k]);
    forall a, n | Apart(g, chain, a, n)
      ensures Slice(data', a, n) == Slice(data, a, n)
    {
      OverwriteOther(data, ClusterStart(g, chain[k]) + o, s, a, n);
    }
    TablesApart(g, chain, |data|);
    SameChain(data, data', g, chain);
  }

  lemma UntouchedStep(data: seq<Byte>, data': seq<Byte>, data'': seq<Byte>, g: Geometry, chain: seq<nat>)
    requires Untouched(data, data', g, chain) && Untouched(data', data'', g, chain)
    ensures Untouched(data, data'', g, chain)
  {
    hide Slice, Apart;
  }

  /** A write outside the chain and the tables changes neither chain nor content. */
  lemma WriteOutsideChain(data: seq<Byte>, g: Geometry, chain: seq<nat>, p: nat, s: seq<Byte>)
    requires IsChain(data, g, chain) && p + |s| <= |data|
    requires Apart(g, chain, p, |s|) && g.FatStart(g.fats) <= p
    ensures var data' := Overwrite(data, p, s);
            && Content(data', g, chain) == Content(data, g, chain)
            && IsChain(data', g, chain) && Ends(data', g, chain) == Ends(data, g, chain)
  {
    hide ClusterStart, ClusterSize, Base, Overwrite, Slice, Separate;
    var data' := Overwrite(data, p, s);
    OverwriteOther(data, p, s, 0, g.FatStart(g.fats));
    SameChain(data, data', g, chain);
    ContentApart(data, g, chain, p, s);
  }

  lemma {:induction false} ContentApart(data: seq<Byte>, g: Geometry, chain: seq<nat>, p: nat, s: seq<Byte>)
    requires p + |s| <= |data| && Apart(g, chain, p, |s|)
    ensures Content(Overwrite(data, p, s), g, chain) == Content(data, g, chain)
  {
    hide ClusterStart, ClusterSize, Overwrite, Slice;
    if chain != [] {
      var m := |chain| - 1;
      ContentApart(data, g, chain[..m], p, s);
      OverwriteOther(data, p, s, ClusterStart(g, chain[m]), ClusterSize(g));
    }
  }
}
