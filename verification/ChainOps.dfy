/** remove_chain, create_chain and f_getfree over the window, against the list view of Chains. */
module ChainOps {
  import opened Arith
  import opened Bytes
  import opened Layout
  import opened Window
  import opened FatTable
  import opened Chains

  /** The end mark as the entry width stores it. */
  function EndMark(g: Geometry): nat {
    Rem(0x0FFF_FFFF, EntryLimit(g))
  }

  lemma EndMarkEndsChains(g: Geometry)
    requires g.Valid()
    ensures EndMark(g) >= g.nFatent
  {
    match g.fatType
    case Fat12 => Join(0x0FFF_FFFF, 0x1000, 0xFFFF, 0xFFF);
    case Fat16 => Join(0x0FFF_FFFF, 0x1_0000, 0xFFF, 0xFFFF);
    case Fat32 =>
  }

  /** A cluster number is stored in full. */
  lemma LinkFits(g: Geometry, c: nat)
    requires g.Valid() && c < g.nFatent
    ensures Rem(c, EntryLimit(g)) == c
  {
  }

  lemma OnlyFatTransitive(g: Geometry, d: Disk, e: Disk, f: Disk)
    requires OnlyFat(g, d, e) && OnlyFat(g, e, f)
    ensures OnlyFat(g, d, f)
  {
  }

  lemma OnlyFatReflexive(g: Geometry, d: Disk)
    ensures OnlyFat(g, d, d)
  {
  }

  /** free_clust is unknown or the number of free clusters. */
  ghost predicate FreeAccurate(fs: FatFs)
    requires fs.Valid()
    reads fs, fs.win
  {
    fs.freeClust == 0xFFFF_FFFF || fs.freeClust == Zeros(Fat(fs), 2)
  }

  /** free_clust is the number of free clusters. */
  ghost predicate FreeKnown(fs: FatFs)
    requires fs.Valid()
    reads fs, fs.win
  {
    fs.freeClust == Zeros(Fat(fs), 2)
  }

  /** Changes of the FAT keep FSINFO current as long as changes of the count are noted. */
  lemma InfoKeptByFat(g: Geometry, enabled: bool, d: Disk, e: Disk, f0: nat, d0: bool, f1: nat, d1: bool)
    requires OnlyFat(g, d, e) && Noted(f0, d0, f1, d1)
    ensures InfoHeld(g, enabled, d, f0, d0) ==> InfoHeld(g, enabled, e, f1, d1)
  {
    InfoStays(g, enabled, d, e, f0, d0, f1, d1);
  }

  /** put_fat seen on the array of cluster values. */
  method SetEntry(fs: FatFs, clst: nat, val: nat) returns (res: FResult)
    requires fs.Valid() && val < 0x1000_0000 && fs.geo.IsCluster(clst)
    modifies fs`disk, fs`wflag, fs`winsect, fs.win
    ensures fs.Valid() && res == FrOk && fs.geo.InFat(fs.winsect)
    ensures Fat(fs) == old(Fat(fs))[clst := Rem(val, EntryLimit(fs.geo))]
    ensures OnlyFat(fs.geo, old(fs.Logical()), fs.Logical())
  {
    ghost var d := fs.Logical();
    res := PutFat(fs, clst, val);
    EntrySetTable(fs.geo, d, fs.Logical(), clst, Rem(val, EntryLimit(fs.geo)));
  }

  /** free_clust after k increments, which stop at the value that means unknown. */
  function Raised(free: Dword, k: nat): Dword {
    if free + k < 0xFFFF_FFFF then free + k else 0xFFFF_FFFF
  }

  /** The part of remove_chain's loop that marks a cluster free. */
  method FreeCluster(fs: FatFs, clst: nat) returns (res: FResult)
    requires fs.Valid() && fs.geo.IsCluster(clst)
    modifies fs`disk, fs`wflag, fs`winsect, fs.win, fs`freeClust, fs`fsiDirty
    ensures fs.Valid() && res == FrOk && fs.geo.InFat(fs.winsect)
    ensures Fat(fs) == old(Fat(fs))[clst := 0]
    ensures OnlyFat(fs.geo, old(fs.Logical()), fs.Logical())
    ensures fs.freeClust == Raised(old(fs.freeClust), 1)
    ensures fs.fsiDirty <==> old(fs.fsiDirty) || old(fs.freeClust) != 0xFFFF_FFFF
  {
    res := SetEntry(fs, clst, 0);
    if fs.freeClust != 0xFFFF_FFFF {
      fs.freeClust := fs.freeClust + 1;
      fs.fsiDirty := true;
    }
  }

  lemma FatSize(fs: FatFs)
    requires fs.Valid()
    ensures |Fat(fs)| == fs.geo.nFatent <= 0x0FFF_FFF7
  {
  }

  method RemoveChain(fs: FatFs, clst: nat) returns (res: FResult)
    requires fs.Valid()
    modifies fs`disk, fs`wflag, fs`winsect, fs.win, fs`freeClust, fs`fsiDirty
    ensures fs.Valid()
    ensures !fs.geo.IsCluster(clst) ==>
              res == FrIntErr && fs.Logical() == old(fs.Logical()) && fs.freeClust == old(fs.freeClust) && fs.fsiDirty == old(fs.fsiDirty)
    ensures fs.geo.IsCluster(clst) ==>
              var r := RemoveFrom(old(Fat(fs)), clst);
              && res == r.res && Fat(fs) == r.links && fs.geo.InFat(fs.winsect)
              && fs.freeClust == Raised(old(fs.freeClust), r.freed)
              && (fs.fsiDirty <==> old(fs.fsiDirty) || (r.freed > 0 && old(fs.freeClust) != 0xFFFF_FFFF))
    ensures OnlyFat(fs.geo, old(fs.Logical()), fs.Logical())
    ensures old(FreeAccurate(fs)) && fs.geo.IsCluster(clst) ==> FreeAccurate(fs)
    ensures old(FreeKnown(fs)) && fs.geo.IsCluster(clst) ==> FreeKnown(fs)
    ensures old(InfoCurrent(fs)) ==> InfoCurrent(fs)
  {
    hide FatFs.Valid, FatFs.Logical, Fat, OnlyFat, InfoHeld, Zeros;
    FatSize(fs);
    OnlyFatReflexive(fs.geo, fs.Logical());
    if clst < 2 || clst >= fs.geo.nFatent {
      return FrIntErr;
    }
    res := FrOk;
    var cl := clst;
    RemoveOnlyClears(Fat(fs), clst);
    ghost var d, goal, freed := fs.Logical(), RemoveFrom(Fat(fs), clst), 0;
    while cl < fs.geo.nFatent
      invariant fs.Valid() && cl >= 2 && res == FrOk
      invariant cl == clst || fs.geo.InFat(fs.winsect)
      invariant goal == RemoveFrom(Fat(fs), cl).(freed := freed + RemoveFrom(Fat(fs), cl).freed)
      invariant fs.freeClust == Raised(old(fs.freeClust), freed)
      invariant fs.fsiDirty <==> old(fs.fsiDirty) || (freed > 0 && old(fs.freeClust) != 0xFFFF_FFFF)
      invariant OnlyFat(fs.geo, d, fs.Logical())
      decreases fs.geo.nFatent - Zeros(Fat(fs), 0)
    {
      var nxt := GetFat(fs, cl);
      if nxt == 0 {
        break;
      }
      if nxt == 1 {
        res := FrIntErr;
        break;
      }
      ghost var t, e := Fat(fs), fs.Logical();
      ZerosUpdate(t, 0, cl, 0);
      res := FreeCluster(fs, cl);
      OnlyFatTransitive(fs.geo, d, e, fs.Logical());
      freed := freed + 1;
      cl := nxt;
    }
    InfoKeptByFat(fs.geo, fs.fsiEnabled, d, fs.Logical(), old(fs.freeClust), old(fs.fsiDirty), fs.freeClust, fs.fsiDirty);
  }

  /** create_chain's wrap-around search for a free cluster, starting after scl. */
  method FindFree(fs: FatFs, scl: nat) returns (r: nat)
    requires fs.Valid() && 1 <= scl < fs.geo.nFatent
    modifies fs`disk, fs`wflag, fs`winsect, fs.win
    ensures fs.Valid() && fs.Logical() == old(fs.Logical()) && Fat(fs) == old(Fat(fs))
    ensures fs.geo.InFat(fs.winsect)
    ensures Searched(Fat(fs), scl, r)
  {
    assert fs.geo.nFatent >= 3;
    hide FatFs.Valid, FatFs.Logical, Fat, TakenBefore, Distance;
    ghost var t, n := Fat(fs), fs.geo.nFatent;
    ghost var first := true;
    var ncl := scl;
    while true
      invariant fs.Valid() && fs.Logical() == old(fs.Logical()) && Fat(fs) == t
      invariant if first then ncl == scl else 2 <= ncl < n && ncl != scl && t[ncl] > 1 && TakenBefore(t, scl, ncl)
      invariant !first ==> fs.geo.InFat(fs.winsect)
      decreases first, n - Distance(scl, ncl, n)
    {
      if first {
        SearchFirst(t, scl);
      } else {
        SearchStep(t, scl, ncl);
      }
      ncl := ncl + 1;
      if ncl >= fs.geo.nFatent {
        ncl := 2;
        if ncl > scl {
          return 0;
        }
      }
      var cs := GetFat(fs, ncl);
      if cs == 0 {
        return ncl;
      }
      if cs == 1 {
        return 1;
      }
      if ncl == scl {
        SearchLast(t, scl);
        return 0;
      }
      first := false;
    }
  }

  /** Where create_chain starts its search. */
  function SearchStart(clst: nat, last: nat, n: nat): nat {
    if clst != 0 then clst else if last == 0 || last >= n then 1 else last
  }

  /**
   * What create_chain(clst) makes of table t: r is the next cluster of the chain if
   * there is one; otherwise the first free cluster after start, newly linked.
   */
  ghost predicate Created(t: Links, u: Links, clst: nat, start: nat, r: nat, eoc: nat) {
    if clst != 0 && (!(2 <= clst < |t|) || t[clst] < 2) then r == 1 && u == t
    else if clst != 0 && t[clst] < |t| then r == t[clst] && u == t
    else
      && Searched(t, start, r)
      && u == if r < 2 then t else if clst == 0 then t[r := eoc] else t[r := eoc][clst := r]
  }

  /** Whether create_chain allocated a cluster. */
  ghost predicate Allocated(t: Links, clst: nat, r: nat) {
    r >= 2 && (clst == 0 || (2 <= clst < |t| && t[clst] >= |t|))
  }

  function Lowered(free: Dword): Dword {
    if free == 0 || free == 0xFFFF_FFFF then 0xFFFF_FFFF else free - 1
  }

  /** Mark cluster ncl as the last link and hang it behind clst if clst is not 0. */
  method LinkNew(fs: FatFs, clst: nat, ncl: nat)
    requires fs.Valid() && fs.geo.IsCluster(ncl) && (clst == 0 || fs.geo.IsCluster(clst))
    modifies fs`disk, fs`wflag, fs`winsect, fs.win, fs`lastClust, fs`freeClust, fs`fsiDirty
    ensures fs.Valid() && fs.geo.InFat(fs.winsect)
    ensures var u := old(Fat(fs))[ncl := EndMark(fs.geo)];
            Fat(fs) == if clst == 0 then u else u[clst := ncl]
    ensures OnlyFat(fs.geo, old(fs.Logical()), fs.Logical())
    ensures fs.lastClust == ncl && fs.freeClust == Lowered(old(fs.freeClust))
    ensures fs.fsiDirty <==> old(fs.fsiDirty) || old(fs.freeClust) != 0xFFFF_FFFF
  {
    assert fs.geo.nFatent <= 0x0FFF_FFF7;
    LinkFits(fs.geo, ncl);
    hide FatFs.Valid, FatFs.Logical, Fat, OnlyFat, EntryLimit;
    ghost var d := fs.Logical();
    var res := SetEntry(fs, ncl, 0x0FFF_FFFF);
    if clst != 0 {
      ghost var e := fs.Logical();
      res := SetEntry(fs, clst, ncl);
      OnlyFatTransitive(fs.geo, d, e, fs.Logical());
    }
    UpdateAllocation(fs, ncl);
  }

  /** The FSINFO bookkeeping of create_chain. */
  method UpdateAllocation(fs: FatFs, ncl: nat)
    requires fs.Valid() && ncl < 0x1_0000_0000
    modifies fs`lastClust, fs`freeClust, fs`fsiDirty
    ensures fs.Valid() && fs.Logical() == old(fs.Logical()) && Fat(fs) == old(Fat(fs))
    ensures fs.lastClust == ncl && fs.freeClust == Lowered(old(fs.freeClust))
    ensures fs.fsiDirty <==> old(fs.fsiDirty) || old(fs.freeClust) != 0xFFFF_FFFF
  {
    fs.lastClust := ncl;
    if fs.freeClust != 0xFFFF_FFFF {
      fs.freeClust := if fs.freeClust == 0 then 0xFFFF_FFFF else fs.freeClust - 1;
      fs.fsiDirty := true;
    }
  }

  method CreateChain(fs: FatFs, clst: nat) returns (r: nat)
    requires fs.Valid()
    modifies fs`disk, fs`wflag, fs`winsect, fs.win, fs`lastClust, fs`freeClust, fs`fsiDirty
    ensures fs.Valid()
    ensures Created(old(Fat(fs)), Fat(fs), clst, SearchStart(clst, old(fs.lastClust), fs.geo.nFatent), r, EndMark(fs.geo))
    ensures OnlyFat(fs.geo, old(fs.Logical()), fs.Logical())
    ensures clst == 0 || fs.geo.IsCluster(clst) ==> fs.geo.InFat(fs.winsect)
    ensures if Allocated(old(Fat(fs)), clst, r) then fs.lastClust == r && fs.freeClust == Lowered(old(fs.freeClust))
            else fs.lastClust == old(fs.lastClust) && fs.freeClust == old(fs.freeClust)
    ensures fs.fsiDirty <==> old(fs.fsiDirty) || (Allocated(old(Fat(fs)), clst, r) && old(fs.freeClust) != 0xFFFF_FFFF)
    ensures old(FreeAccurate(fs)) ==> FreeAccurate(fs)
    ensures old(FreeKnown(fs)) ==> FreeKnown(fs)
    ensures Noted(old(fs.freeClust), old(fs.fsiDirty), fs.freeClust, fs.fsiDirty)
    ensures old(InfoCurrent(fs)) ==> InfoCurrent(fs)
  {
    OnlyFatReflexive(fs.geo, fs.Logical());
    EndMarkEndsChains(fs.geo);
    assert fs.geo.nFatent >= 3;
    hide FatFs.Valid, FatFs.Logical, Fat, OnlyFat, Searched, EndMark, Zeros, InfoHeld;
    ghost var t, d := Fat(fs), fs.Logical();
    var scl;
    if clst == 0 {
      scl := fs.lastClust;
      if scl == 0 || scl >= fs.geo.nFatent {
        scl := 1;
      }
    } else {
      var cs := GetFat(fs, clst);
      if cs < 2 {
        return 1;
      }
      if cs < fs.geo.nFatent {
        return cs;
      }
      scl := clst;
    }
    r := FindFree(fs, scl);
    if r < 2 {
      return;
    }
    SearchedIsFree(t, scl, r);
    LinkNew(fs, clst, r);
    AllocationCounts(t, clst, r, EndMark(fs.geo));
    InfoKeptByFat(fs.geo, fs.fsiEnabled, d, fs.Logical(), old(fs.freeClust), old(fs.fsiDirty), fs.freeClust, fs.fsiDirty);
  }

  /**
   * The cluster taken is the next free one behind the chain's end, or behind the cluster
   * taken last; only when there is none up to the end of the FAT, the first free one.
   */
  lemma TakesNextFree(t: Links, u: Links, clst: nat, last: nat, r: nat, eoc: nat)
    requires Created(t, u, clst, SearchStart(clst, last, |t|), r, eoc) && Allocated(t, clst, r)
    ensures var s := if clst != 0 then clst else if 1 <= last < |t| then last else 1;
            && r < |t| && t[r] == 0
            && (forall c :: s < c < |t| && (c < r || r <= s) ==> t[c] != 0)
            && (r <= s ==> forall c :: 2 <= c < r ==> t[c] != 0)
  {
    var s := SearchStart(clst, last, |t|);
    assert TakenBefore(t, s, r);
    forall c | (s < c < |t| && (c < r || r <= s)) || (r <= s && 2 <= c < r)
      ensures 2 <= c < |t| ==> t[c] > 1
    {
      assert 2 <= c < |t| ==> Distance(s, c, |t|) < Distance(s, r, |t|);
    }
  }

  lemma SearchedIsFree(t: Links, s: nat, r: nat)
    requires Searched(t, s, r) && r >= 2
    ensures r < |t| && t[r] == 0
  {
  }

  /** Linking a new cluster uses up one free entry. */
  lemma AllocationCounts(t: Links, clst: nat, r: nat, eoc: nat)
    requires 2 <= r < |t| <= eoc && t[r] == 0
    requires clst == 0 || (2 <= clst < |t| && t[clst] != 0)
    ensures Zeros(if clst == 0 then t[r := eoc] else t[r := eoc][clst := r], 2) == Zeros(t, 2) - 1
  {
    ZerosUpdate(t, 2, r, eoc);
    if clst != 0 {
      ZerosUpdate(t[r := eoc], 2, clst, r);
    }
  }
}
