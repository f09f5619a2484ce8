/** How create_chain changes the state of an open file: not at all, or by one cluster at the end. */
module FileGrow {
  import opened Arith
  import opened Bytes
  import opened Layout
  import opened Window
  import opened FatTable
  import opened Chains
  import opened ChainOps
  import opened FileView
  import opened FileState
  import opened FilObject

  /** Only FAT sectors changed and no FAT value did. */
  lemma SameTableKeeps(g: Geometry, t: Links, d: Disk, e: Disk, w: nat, v: nat, b: Sector, f: File)
    requires Based(g, t, d, w, b, f) && OnlyFat(g, d, e) && g.InFat(v)
    ensures Based(g, t, e, v, b, f) && Clusters(g, f.chain)
    ensures Untouched(g, t, d, t, e, f.chain, f.chain)
  {
    DataKept(g, t, d, e, w, b, f);
    GrowKeeps(Sectors(g, f.chain), [], d, e, b, f.dsect, f.dirty, f.content);
    assert Sectors(g, f.chain) + [] == Sectors(g, f.chain);
    BaseWindow(g, t, d, w, v, b, f);
  }

  lemma DataKept(g: Geometry, t: Links, d: Disk, e: Disk, w: nat, b: Sector, f: File)
    requires Based(g, t, d, w, b, f) && OnlyFat(g, d, e)
    ensures Clusters(g, f.chain)
    ensures forall q :: 0 <= q < |Sectors(g, f.chain)| ==> Sectors(g, f.chain)[q] < |d| && e[Sectors(g, f.chain)[q]] == d[Sectors(g, f.chain)[q]]
  {
    BaseSectors(g, t, d, w, b, f);
  }

  /** The table after linking r behind the chain ch. */
  ghost function Linked(t: Links, ch: seq<nat>, r: nat, eoc: nat): (u: Links)
    requires 2 <= r < |t| && (ch != [] ==> ch[|ch| - 1] < |t|)
    ensures |u| == |t|
  {
    if ch == [] then t[r := eoc] else t[r := eoc][ch[|ch| - 1] := r]
  }

  ghost function Grown(f: File, r: nat): File {
    f.(chain := f.chain + [r], sclust := if f.sclust == 0 then r else f.sclust)
  }

  lemma LinkedChain(g: Geometry, t: Links, sclust: nat, ch: seq<nat>, r: nat, eoc: nat)
    requires ChainOf(g, t, sclust, ch) && |t| == g.nFatent && 2 <= r < |t| <= eoc && t[r] == 0
    ensures ChainOf(g, Linked(t, ch, r, eoc), if sclust == 0 then r else sclust, ch + [r])
  {
    if ch == [] {
      NewChain(t, r, eoc);
    } else {
      StretchedChain(t, ch, r, eoc);
    }
  }

  /** The new cluster's sectors are no sector of the file, nor the window. */
  lemma NewSectors(g: Geometry, r: nat, v: nat, size: nat)
    requires g.Valid() && g.IsCluster(r) && g.InFat(v) && g.VolumeEnd() <= size
    ensures v !in ClusterSectors(g, r)
    ensures forall j :: 0 <= j < |ClusterSectors(g, r)| ==> ClusterSectors(g, r)[j] < size
  {
    forall j | 0 <= j < |ClusterSectors(g, r)|
      ensures v != ClusterSectors(g, r)[j] < size
    {
      ClustersDisjoint(g, r, r, ClusterSectors(g, r)[j]);
    }
  }

  lemma GrownKeeps(g: Geometry, t: Links, d: Disk, e: Disk, w: nat, v: nat, b: Sector, f: File, r: nat, eoc: nat)
    requires Based(g, t, d, w, b, f) && OnlyFat(g, d, e) && g.InFat(v)
    requires 2 <= r < |t| <= eoc && t[r] == 0
    ensures f.chain != [] ==> f.chain[|f.chain| - 1] < |t|
    ensures Based(g, Linked(t, f.chain, r, eoc), e, v, b, Grown(f, r))
    ensures |Sectors(g, Grown(f, r).chain)| == |Sectors(g, f.chain)| + g.csize
  {
    DataKept(g, t, d, e, w, b, f);
    LinkedChain(g, t, f.sclust, f.chain, r, eoc);
    NewSectors(g, r, v, |e|);
    SectorsAppend(g, f.chain, r);
    BaseWindow(g, t, d, w, v, b, f);
    GrowKeeps(Sectors(g, f.chain), ClusterSectors(g, r), d, e, b, f.dsect, f.dirty, f.content);
    assert ClusterSectors(g, r) + [] == ClusterSectors(g, r);
  }

  lemma GrownUntouched(g: Geometry, t: Links, d: Disk, e: Disk, w: nat, b: Sector, f: File, r: nat, eoc: nat)
    requires Based(g, t, d, w, b, f) && OnlyFat(g, d, e)
    requires 2 <= r < |t| <= eoc && t[r] == 0
    ensures f.chain != [] ==> f.chain[|f.chain| - 1] < |t|
    ensures Clusters(g, f.chain) && Clusters(g, f.chain + [r])
    ensures Untouched(g, t, d, Linked(t, f.chain, r, eoc), e, f.chain, f.chain + [r])
  {
    if f.chain != [] {
      assert f.chain[|f.chain| - 1] in f.chain;
    }
    assert r in f.chain + [r];
  }

  /** What create_chain(clust) finds when clust is cluster k of the chain. */
  lemma FollowOrEnd(g: Geometry, t: Links, f: File, k: nat)
    requires g.Valid() && ChainOf(g, t, f.sclust, f.chain) && |t| == g.nFatent && k < |f.chain|
    ensures g.IsCluster(f.chain[k])
    ensures k + 1 < |f.chain| ==> t[f.chain[k]] == f.chain[k + 1] && 2 <= f.chain[k + 1] < |t|
    ensures k + 1 == |f.chain| ==> t[f.chain[k]] >= |t|
  {
  }

  /** The outcome of following or stretching the chain of f after its first k clusters. */
  ghost predicate Stretched(g: Geometry, t: Links, u: Links, f: File, f2: File, k: nat, r: nat) {
    if k < |f.chain| then r == f.chain[k] && r >= 2 && f2 == f && u == t
    else if r == 0 then f2 == f && u == t && forall c :: 2 <= c < |t| ==> t[c] > 1
    else if r == 1 then f2 == f && u == t && exists c :: 2 <= c < |t| && t[c] == 1
    else k < |f2.chain| && f2.chain[k] == r && f2 == Grown(f, r)
  }

  /** What Created says when clust is the chain's cluster k - 1 (or 0 for an empty chain). */
  lemma CreatedOnChain(g: Geometry, t: Links, u: Links, f: File, k: nat, clst: nat, start: nat, r: nat, eoc: nat)
    requires g.Valid() && ChainOf(g, t, f.sclust, f.chain) && |t| == g.nFatent
    requires k <= |f.chain| && (if k == 0 then f.chain == [] && clst == 0 else clst == f.chain[k - 1])
    requires Created(t, u, clst, start, r, eoc)
    ensures k < |f.chain| ==> r == f.chain[k] && u == t && r >= 2
    ensures k == |f.chain| ==> Searched(t, start, r)
    ensures k == |f.chain| && r < 2 ==> u == t
    ensures k == |f.chain| && r >= 2 ==> r < |t| && t[r] == 0 && f.chain != [] ==> f.chain[|f.chain| - 1] < |t|
    ensures k == |f.chain| && r >= 2 && r < |t| && t[r] == 0 ==> u == Linked(t, f.chain, r, eoc)
  {
    if k > 0 {
      FollowOrEnd(g, t, f, k - 1);
    }
  }

  /** The state after create_chain(clst) and, for the first cluster, sclust = clst. */
  method Stretch(fp: Fil, clst: nat, ghost k: nat) returns (r: nat)
    requires fp.Ready()
    requires k <= |fp.chain| && (if k == 0 then fp.chain == [] && clst == 0 else clst == fp.chain[k - 1])
    modifies fp`sclust, fp`chain, fp.fs`disk, fp.fs`wflag, fp.fs`winsect, fp.fs.win,
             fp.fs`lastClust, fp.fs`freeClust, fp.fs`fsiDirty
    ensures fp.Ready() && fp.fs.geo.InFat(fp.fs.winsect)
    ensures Stretched(fp.fs.geo, old(Fat(fp.fs)), Fat(fp.fs), old(fp.State()), fp.State(), k, r)
    ensures Clusters(fp.fs.geo, old(fp.chain)) && Clusters(fp.fs.geo, fp.chain) && old(fp.chain) <= fp.chain
    ensures Untouched(fp.fs.geo, old(Fat(fp.fs)), old(fp.fs.Logical()), Fat(fp.fs), fp.fs.Logical(), old(fp.chain), fp.chain)
    ensures old(FreeAccurate(fp.fs)) ==> FreeAccurate(fp.fs)
    ensures Noted(old(fp.fs.freeClust), old(fp.fs.fsiDirty), fp.fs.freeClust, fp.fs.fsiDirty)
  {
    hide Based, FatFs.Valid, FatFs.Logical, Fat, Untouched, Created, EndMark, Clusters, Linked, ChainOf, Geometry.Valid,
      Stretched, OnlyFat, FreeAccurate;
    ghost var g, t, d, w, b, f := fp.fs.geo, Fat(fp.fs), fp.fs.Logical(), fp.fs.winsect, fp.buf[..], fp.State();
    ghost var start := SearchStart(clst, fp.fs.lastClust, g.nFatent);
    StretchStart(g, t, d, w, b, f, k, clst);
    r := CreateChain(fp.fs, clst);
    StretchEffect(g, t, d, w, b, f, k, clst, start, r, EndMark(g), Fat(fp.fs), fp.fs.Logical(), fp.fs.winsect);
    if k == |f.chain| && r >= 2 {
      fp.chain := fp.chain + [r];
    }
    if r >= 2 && fp.sclust == 0 {
      fp.sclust := r;
    }
  }

  /** The state after Stretch. */
  ghost function AfterStretch(f: File, k: nat, r: nat): File {
    if k == |f.chain| && r >= 2 then Grown(f, r) else f
  }

  lemma StretchEffect(g: Geometry, t: Links, d: Disk, w: nat, b: Sector, f: File, k: nat, clst: nat, start: nat,
                      r: nat, eoc: nat, u: Links, e: Disk, v: nat)
    requires Based(g, t, d, w, b, f) && OnlyFat(g, d, e) && g.InFat(v) && eoc >= g.nFatent
    requires k <= |f.chain| && (if k == 0 then f.chain == [] && clst == 0 else clst == f.chain[k - 1])
    requires Created(t, u, clst, start, r, eoc)
    ensures Based(g, u, e, v, b, AfterStretch(f, k, r))
    ensures Stretched(g, t, u, f, AfterStretch(f, k, r), k, r)
    ensures Clusters(g, f.chain) && Clusters(g, AfterStretch(f, k, r).chain)
    ensures Untouched(g, t, d, u, e, f.chain, AfterStretch(f, k, r).chain)
  {
    BaseSectors(g, t, d, w, b, f);
    assert g.Valid() && ChainOf(g, t, f.sclust, f.chain) && |t| == g.nFatent;
    hide Based, Untouched, Created, Linked, ChainOf, Searched, Geometry.Valid, OnlyFat;
    CreatedOnChain(g, t, u, f, k, clst, start, r, eoc);
    if k < |f.chain| || r < 2 {
      SameTableKeeps(g, t, d, e, w, v, b, f);
      if k == |f.chain| {
        SearchFailed(t, start, r);
      }
    } else {
      SearchedIsFree(t, start, r);
      GrownKeeps(g, t, d, e, w, v, b, f, r, eoc);
      GrownUntouched(g, t, d, e, w, b, f, r, eoc);
    }
  }

  lemma StretchStart(g: Geometry, t: Links, d: Disk, w: nat, b: Sector, f: File, k: nat, clst: nat)
    requires Based(g, t, d, w, b, f)
    requires k <= |f.chain| && (if k == 0 then f.chain == [] && clst == 0 else clst == f.chain[k - 1])
    ensures clst == 0 || g.IsCluster(clst)
    ensures k < |f.chain| ==> f.sclust != 0
    ensures f.sclust == 0 <==> f.chain == []
    ensures EndMark(g) >= g.nFatent
  {
    EndMarkEndsChains(g);
    if k > 0 {
      FollowOrEnd(g, t, f, k - 1);
    }
  }

  lemma SearchFailed(t: Links, s: nat, r: nat)
    requires Searched(t, s, r) && r < 2
    ensures if r == 0 then forall c :: 2 <= c < |t| ==> t[c] > 1 else exists c :: 2 <= c < |t| && t[c] == 1
  {
  }
}
