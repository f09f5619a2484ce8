/** f_lseek: the pointer moves to the target, and in write mode the file grows up to it. */
module FileSeek {
  import opened Arith
  import opened Bytes
  import opened Layout
  import opened Window
  import opened FatTable
  import opened Chains
  import opened ChainOps
  import opened FileView
  import opened FileState
  import opened DiskIO
  import opened FilObject
  import opened FileRead
  import opened FileGrow
  import opened FileWrite

  // ---- positions in whole clusters; bcs is the cluster size in bytes

  lemma ClusterBytes(k: nat, csize: nat)
    ensures Times(k, csize * 512) == 512 * Times(k, csize)
  {
    TimesIsMul(csize, 512);
    TimesAssociates(k, csize, 512);
    TimesIsMul(Times(k, csize), 512);
  }

  /** The cluster of byte p, by bytes and by sectors. */
  lemma ClusterOfByte(p: nat, csize: nat)
    requires csize > 0
    ensures Quot(p, csize * 512) == Quot(Quot(p, SS), csize)
    ensures p == Times(Quot(p, csize * 512), csize * 512) + Rem(p, csize * 512)
  {
    TimesIsMul(csize, 512);
    QuotRemCompose(p, 512, csize);
    QuotRem(p, csize * 512);
  }

  /** Position ofs of cluster k, 0 < ofs <= bcs, as f_lseek leaves it. */
  lemma SeekPosition(k: nat, ofs: nat, csize: nat)
    requires csize > 0 && 0 < ofs <= csize * 512
    ensures var p := Times(k, csize * 512) + ofs;
            && p > 0
            && Quot(Quot(p - 1, SS), csize) == k
            && Rem(p, SS) == Rem(ofs, SS)
            && (Rem(ofs, SS) != 0 ==> Quot(Quot(p, SS), csize) == k && Rem(Quot(p, SS), csize) == Quot(ofs, SS) < csize)
  {
    hide Quot, Rem, Times;
    var p, m := Times(k, csize * 512) + ofs, Times(k, csize);
    ClusterBytes(k, csize);
    Split(ofs, 512);
    Split(ofs - 1, 512);
    QuotBelow(ofs - 1, 512, csize);
    Join(p, 512, m + Quot(ofs, 512), Rem(ofs, 512));
    Join(p - 1, 512, m + Quot(ofs - 1, 512), Rem(ofs - 1, 512));
    QuotRemUnique(m + Quot(ofs - 1, 512), csize, k, Quot(ofs - 1, 512));
    if Rem(ofs, SS) != 0 {
      QuotBelow(ofs, 512, csize);
      QuotRemUnique(m + Quot(ofs, 512), csize, k, Quot(ofs, 512));
    }
  }

  /** Where a seek that does not go back starts: at the start of the current cluster. */
  lemma SeekFromCurrent(p: nat, target: nat, csize: nat)
    requires csize > 0 && target > 0
    requires Quot(target - 1, csize * 512) >= Quot(p, csize * 512)
    ensures var start := Times(Quot(p, csize * 512), csize * 512); start < target
  {
    var bcs := csize * 512;
    QuotRem(target - 1, bcs);
    TimesMonotone(Quot(p, bcs), Quot(target - 1, bcs), bcs);
  }

  // ---- following the chain

  /** fptr may be set to any value while the invariant of the data holds. */
  lemma PointerIsFree(fp: Fil, clust: nat, fptr: nat)
    requires fp.Ready()
    ensures Based(fp.fs.geo, Fat(fp.fs), fp.fs.Logical(), fp.fs.winsect, fp.buf[..], fp.State().(clust := clust, fptr := fptr))
  {
    BaseCursor(fp.fs.geo, Fat(fp.fs), fp.fs.Logical(), fp.fs.winsect, fp.buf[..], fp.State(), clust, fptr);
  }

  /** The walk stands at the start of cluster k of the chain, ofs bytes before target. */
  ghost predicate Walking(g: Geometry, f: File, k: nat, ofs: nat, target: nat) {
    && g.csize > 0 && k < |f.chain| && f.clust == f.chain[k]
    && f.fptr == Times(k, g.csize * 512) && f.fptr + ofs == target && ofs > 0
  }

  lemma WalkOn(g: Geometry, f: File, f2: File, k: nat, ofs: nat, target: nat)
    requires Walking(g, f, k, ofs, target) && ofs > g.csize * 512
    requires k + 1 < |f2.chain| && f2.clust == f2.chain[k + 1] && f2.fptr == f.fptr + g.csize * 512
    ensures Walking(g, f2, k + 1, ofs - g.csize * 512, target)
  {
  }

  /** In read mode the target lies in the file, so the chain goes on. */
  lemma ReadWalk(g: Geometry, t: Links, d: Disk, w: nat, b: Sector, f: File, k: nat, ofs: nat, target: nat)
    requires Based(g, t, d, w, b, f) && Walking(g, f, k, ofs, target) && ofs > g.csize * 512 && target <= |f.content|
    ensures g.IsCluster(f.chain[k]) && k + 1 < |f.chain| && t[f.chain[k]] == f.chain[k + 1] && g.IsCluster(f.chain[k + 1])
  {
    BaseSectors(g, t, d, w, b, f);
    ClusterBytes(k + 1, g.csize);
    ClusterBytes(|f.chain|, g.csize);
    FollowOrEnd(g, t, f, k);
  }

  /** get_fat of cluster k of the chain, in read mode. */
  method FollowForSeek(fp: Fil, clst: nat, ghost k: nat, ghost ofs: nat, ghost target: nat) returns (r: nat)
    requires fp.Ready() && Walking(fp.fs.geo, fp.State(), k, ofs, target) && clst == fp.clust
    requires ofs > fp.fs.geo.csize * 512 && target <= |fp.content|
    modifies fp.fs`disk, fp.fs`wflag, fp.fs`winsect, fp.fs.win
    ensures fp.Ready() && k + 1 < |fp.chain| && r == fp.chain[k + 1] && fp.fs.geo.IsCluster(r)
    ensures fp.State() == old(fp.State())
    ensures fp.fs.Logical() == old(fp.fs.Logical()) && Fat(fp.fs) == old(Fat(fp.fs))
    ensures fp.fs.geo.InFat(fp.fs.winsect)
  {
    hide Based, FatFs.Valid, FatFs.Logical, Fat;
    ghost var g, t, d, w, b, f := fp.fs.geo, Fat(fp.fs), fp.fs.Logical(), fp.fs.winsect, fp.buf[..], fp.State();
    ReadWalk(g, t, d, w, b, f, k, ofs, target);
    r := GetFat(fp.fs, clst);
    BaseWindow(g, t, d, w, fp.fs.winsect, b, f);
  }

  /** The chain has no more clusters than the walk has reached, or it did not grow. */
  ghost predicate GrownTo(ch0: seq<nat>, ch: seq<nat>, k: nat) {
    ch0 <= ch && (ch == ch0 || |ch| == k + 1)
  }

  /** The next cluster of the walk: in write mode the chain is stretched when it ends. */
  method NextForSeek(fp: Fil, ghost k: nat, ghost ofs: nat, ghost target: nat) returns (clst: nat)
    requires fp.Ready() && Walking(fp.fs.geo, fp.State(), k, ofs, target) && ofs > fp.fs.geo.csize * 512
    requires fp.canWrite || target <= |fp.content|
    modifies fp`sclust, fp`chain, fp.fs`disk, fp.fs`wflag, fp.fs`winsect, fp.fs.win,
             fp.fs`lastClust, fp.fs`freeClust, fp.fs`fsiDirty
    ensures fp.Ready() && fp.fs.geo.InFat(fp.fs.winsect)
    ensures fp.State() == old(fp.State()).(sclust := fp.sclust, chain := fp.chain)
    ensures target <= |fp.content| ==> clst >= 2 && fp.chain == old(fp.chain)
    ensures clst >= 2 ==> k + 1 < |fp.chain| && clst == fp.chain[k + 1] && GrownTo(old(fp.chain), fp.chain, k + 1)
    ensures clst < 2 ==> fp.State() == old(fp.State())
    ensures clst == 0 ==> |fp.chain| == k + 1 && forall c :: 2 <= c < fp.fs.geo.nFatent ==> Fat(fp.fs)[c] > 1
    ensures clst == 1 ==> exists c :: 2 <= c < fp.fs.geo.nFatent && Fat(fp.fs)[c] == 1
    ensures Clusters(fp.fs.geo, fp.chain) && Clusters(fp.fs.geo, old(fp.chain)) && old(fp.chain) <= fp.chain
    ensures Untouched(fp.fs.geo, old(Fat(fp.fs)), old(fp.fs.Logical()), Fat(fp.fs), fp.fs.Logical(), old(fp.chain), fp.chain)
    ensures old(FreeAccurate(fp.fs)) ==> FreeAccurate(fp.fs)
    ensures Noted(old(fp.fs.freeClust), old(fp.fs.fsiDirty), fp.fs.freeClust, fp.fs.fsiDirty)
  {
    hide Based, FatFs.Valid, FatFs.Logical, Fat, Clusters, Untouched, Times, Zeros;
    BeforeRound(fp);
    if target <= |fp.content| {
      ReadWalk(fp.fs.geo, Fat(fp.fs), fp.fs.Logical(), fp.fs.winsect, fp.buf[..], fp.State(), k, ofs, target);
    }
    if fp.canWrite {
      clst := Stretch(fp, fp.clust, k + 1);
    } else {
      clst := FollowForSeek(fp, fp.clust, k, ofs, target);
      assert clst >= 2; // so FR_INT_ERR is not reached
    }
  }

  /**
   * The cluster following loop, from cluster k: 2 when ofs is within the cluster
   * reached; 0 when the disk filled up (ofs is then the whole cluster); 1 when the
   * FAT holds an invalid entry.
   */
  method Walk(fp: Fil, ofs0: nat, target: nat, ghost k0: nat, ghost ch0: seq<nat>) returns (r: nat, ofs: nat, ghost k: nat)
    requires fp.Ready() && Walking(fp.fs.geo, fp.State(), k0, ofs0, target) && GrownTo(ch0, fp.chain, k0)
    requires fp.canWrite || target <= |fp.content|
    modifies fp`clust, fp`sclust, fp`chain, fp`fptr, fp.fs`disk, fp.fs`wflag, fp.fs`winsect, fp.fs.win,
             fp.fs`lastClust, fp.fs`freeClust, fp.fs`fsiDirty
    ensures fp.Ready() && fp.State() == old(fp.State()).(clust := fp.clust, sclust := fp.sclust, chain := fp.chain, fptr := fp.fptr)
    ensures old(fp.chain) <= fp.chain && (r != 1 ==> GrownTo(ch0, fp.chain, k))
    ensures fp.fs.geo.csize > 0 && r != 1 ==>
              Walking(fp.fs.geo, fp.State(), k, ofs, fp.fptr + ofs) && ofs <= fp.fs.geo.csize * 512
    ensures r == 2 ==> fp.fptr + ofs == target
    ensures fp.fs.geo.csize > 0 && r == 0 ==>
              ofs == fp.fs.geo.csize * 512 && |fp.chain| == k + 1 && fp.fptr + ofs < target && forall c :: 2 <= c < fp.fs.geo.nFatent ==> Fat(fp.fs)[c] > 1
    ensures r == 1 ==> exists c :: 2 <= c < fp.fs.geo.nFatent && Fat(fp.fs)[c] == 1
    ensures r <= 2
    ensures fp.fs.winsect == old(fp.fs.winsect) || fp.fs.geo.InFat(fp.fs.winsect)
    ensures Clusters(fp.fs.geo, fp.chain) && Clusters(fp.fs.geo, old(fp.chain))
    ensures Untouched(fp.fs.geo, old(Fat(fp.fs)), old(fp.fs.Logical()), Fat(fp.fs), fp.fs.Logical(), old(fp.chain), fp.chain)
    ensures old(FreeAccurate(fp.fs)) ==> FreeAccurate(fp.fs)
    ensures Noted(old(fp.fs.freeClust), old(fp.fs.fsiDirty), fp.fs.freeClust, fp.fs.fsiDirty)
    ensures target <= |fp.content| ==> r == 2 && fp.chain == old(fp.chain)
  {
    hide Based, FatFs.Valid, FatFs.Logical, Fat, Clusters, Untouched, Times, Zeros;
    ghost var g, t, d, ch := fp.fs.geo, Fat(fp.fs), fp.fs.Logical(), fp.chain;
    BeforeRound(fp);
    ofs, k := ofs0, k0;
    while ofs > fp.fs.geo.csize * 512
      invariant fp.Ready() && Walking(g, fp.State(), k, ofs, target)
      invariant fp.State() == old(fp.State()).(clust := fp.clust, sclust := fp.sclust, chain := fp.chain, fptr := fp.fptr)
      invariant GrownTo(ch0, fp.chain, k) && ch <= fp.chain
      invariant fp.fs.winsect == old(fp.fs.winsect) || g.InFat(fp.fs.winsect)
      invariant Clusters(g, fp.chain) && Untouched(g, t, d, Fat(fp.fs), fp.fs.Logical(), ch, fp.chain)
      invariant old(FreeAccurate(fp.fs)) ==> FreeAccurate(fp.fs)
      invariant Noted(old(fp.fs.freeClust), old(fp.fs.fsiDirty), fp.fs.freeClust, fp.fs.fsiDirty)
      invariant target <= |fp.content| ==> fp.chain == ch
      decreases ofs
    {
      ghost var u, e, f := Fat(fp.fs), fp.fs.Logical(), fp.State();
      var clst := NextForSeek(fp, k, ofs, target);
      UntouchedTransitive(g, t, d, u, e, Fat(fp.fs), fp.fs.Logical(), ch, f.chain, fp.chain);
      if clst == 0 {
        return 0, fp.fs.geo.csize * 512, k;
      }
      if clst == 1 {
        return 1, ofs, k;
      }
      PointerIsFree(fp, clst, fp.fptr + fp.fs.geo.csize * 512);
      fp.clust := clst;
      fp.fptr := fp.fptr + fp.fs.geo.csize * 512;
      WalkOn(g, f, fp.State(), k, ofs, target);
      ofs := ofs - fp.fs.geo.csize * 512;
      k := k + 1;
    }
    r := 2;
  }

  // ---- where the pointer comes to rest

  /** The pointer is right after byte fptr - 1 in cluster clust; inside a sector, nsect is that sector. */
  ghost predicate AtRest(g: Geometry, f: File, nsect: nat) {
    && g.csize > 0 && Clusters(g, f.chain)
    && f.fptr <= |Sectors(g, f.chain)| * 512
    && (f.fptr > 0 ==> AtCluster(g, f, Quot(f.fptr - 1, SS)))
    && (Rem(f.fptr, SS) != 0 ==> Quot(f.fptr, SS) < |Sectors(g, f.chain)| && nsect == Sectors(g, f.chain)[Quot(f.fptr, SS)])
  }

  /** No cluster of the chain was added in vain. */
  ghost predicate GrownForPointer(g: Geometry, ch0: seq<nat>, f: File) {
    f.chain == ch0 || (|f.chain| > 0 && Times(|f.chain| - 1, g.csize) * 512 < f.fptr)
  }

  /** The end of the walk: fptr += ofs; nsect = clust2sect(clst) + ofs / SS. */
  lemma WalkEnds(g: Geometry, t: Links, d: Disk, w: nat, b: Sector, f: File, k: nat, ofs: nat, ch0: seq<nat>, nsect: nat)
    requires Based(g, t, d, w, b, f) && Walking(g, f, k, ofs, f.fptr + ofs) && ofs <= g.csize * 512
    requires GrownTo(ch0, f.chain, k)
    requires Rem(ofs, SS) != 0 ==> nsect == Clust2Sect(g, f.clust) + Quot(ofs, SS)
    ensures AtRest(g, f.(fptr := f.fptr + ofs), nsect)
    ensures GrownForPointer(g, ch0, f.(fptr := f.fptr + ofs))
  {
    hide Quot, Rem, Times, Overlay, ChainOf;
    var f2 := f.(fptr := f.fptr + ofs);
    BaseSectors(g, t, d, w, b, f);
    SeekPosition(k, ofs, g.csize);
    TimesNext(k, g.csize);
    TimesMonotone(k + 1, |f.chain|, g.csize);
    ClusterBytes(k, g.csize);
    ClusterBytes(k + 1, g.csize);
    if Rem(ofs, SS) != 0 {
      var q := Quot(f2.fptr, SS);
      InsideChain(q, |f.chain|, g.csize);
      SectorAt(g, f.chain, q);
    }
  }

  /** Start at the current cluster when the target is not before it. */
  lemma StartAtCurrent(g: Geometry, f: File, target: nat)
    requires g.csize > 0 && Clusters(g, f.chain) && Cursor(g, f) && f.fptr > 0 && target > 0
    requires Quot(target - 1, g.csize * 512) >= Quot(f.fptr - 1, g.csize * 512)
    ensures var k := Quot(f.fptr - 1, g.csize * 512);
            var start := Times(k, g.csize * 512);
            start < target && Walking(g, f.(fptr := start), k, target - start, target)
  {
    SeekFromCurrent(f.fptr - 1, target, g.csize);
    ClusterOfByte(f.fptr - 1, g.csize);
  }

  /** Choose where the walk starts: 0 when there is no chain and the disk is full, 1 on an invalid FAT, 2 when positioned. */
  method StartSeek(fp: Fil, target: nat, ifptr: nat) returns (r: nat, ofs: nat, ghost k: nat)
    requires fp.Ready() && fp.fs.geo.csize > 0 && Clusters(fp.fs.geo, fp.chain)
    requires ifptr == fp.fptr && Cursor(fp.fs.geo, fp.State()) && target > 0
    requires fp.canWrite || target <= |fp.content|
    modifies fp`clust, fp`sclust, fp`chain, fp`fptr, fp.fs`disk, fp.fs`wflag, fp.fs`winsect, fp.fs.win,
             fp.fs`lastClust, fp.fs`freeClust, fp.fs`fsiDirty
    ensures fp.Ready() && fp.State() == old(fp.State()).(clust := fp.clust, sclust := fp.sclust, chain := fp.chain, fptr := fp.fptr)
    ensures r <= 2 && old(fp.chain) <= fp.chain
    ensures r == 2 ==> Walking(fp.fs.geo, fp.State(), k, ofs, target) && GrownTo(old(fp.chain), fp.chain, k)
    ensures r == 0 ==> fp.chain == old(fp.chain) == [] && fp.fptr == 0 && forall c :: 2 <= c < fp.fs.geo.nFatent ==> Fat(fp.fs)[c] > 1
    ensures r == 1 ==> exists c :: 2 <= c < fp.fs.geo.nFatent && Fat(fp.fs)[c] == 1
    ensures fp.fs.winsect == old(fp.fs.winsect) || fp.fs.geo.InFat(fp.fs.winsect)
    ensures Clusters(fp.fs.geo, fp.chain) && Clusters(fp.fs.geo, old(fp.chain))
    ensures Untouched(fp.fs.geo, old(Fat(fp.fs)), old(fp.fs.Logical()), Fat(fp.fs), fp.fs.Logical(), old(fp.chain), fp.chain)
    ensures old(FreeAccurate(fp.fs)) ==> FreeAccurate(fp.fs)
    ensures Noted(old(fp.fs.freeClust), old(fp.fs.fsiDirty), fp.fs.freeClust, fp.fs.fsiDirty)
    ensures target <= |fp.content| ==> r == 2 && fp.chain == old(fp.chain)
  {
    hide Based, FatFs.Valid, FatFs.Logical, Fat, Clusters, Untouched, Zeros, Quot, Rem, Cursor;
    ghost var g, f := fp.fs.geo, fp.State();
    var bcs := fp.fs.geo.csize * SS;
    BeforeRound(fp);
    StartFacts(g, Fat(fp.fs), fp.fs.Logical(), fp.fs.winsect, fp.buf[..], f);
    if ifptr > 0 && Quot(target - 1, bcs) >= Quot(ifptr - 1, bcs) {
      StartAtCurrent(g, f, target);
      k := Quot(ifptr - 1, bcs);
      var start := Times(Quot(ifptr - 1, bcs), bcs); // (ifptr - 1) & ~(bcs - 1)
      PointerIsFree(fp, fp.clust, start);
      fp.fptr := start;
      return 2, target - start, k;
    }
    k := 0;
    ofs := target;
    PointerIsFree(fp, fp.clust, 0);
    fp.fptr := 0;
    var clst := fp.sclust;
    if clst == 0 {
      clst := Stretch(fp, 0, 0);
      if clst == 1 {
        return 1, ofs, k;
      }
    }
    PointerIsFree(fp, clst, 0);
    fp.clust := clst;
    r := if clst == 0 then 0 else 2;
  }

  lemma StartFacts(g: Geometry, t: Links, d: Disk, w: nat, b: Sector, f: File)
    requires Based(g, t, d, w, b, f)
    ensures f.sclust == 0 <==> f.chain == []
    ensures f.chain != [] ==> f.sclust == f.chain[0] && f.sclust >= 2
    ensures f.chain == [] ==> f.content == []
  {
  }

  /** The whole of f_lseek's cluster search for a target beyond 0. */
  method Locate(fp: Fil, target: nat) returns (r: nat, nsect: nat)
    requires fp.Ready() && fp.fs.geo.csize > 0 && Clusters(fp.fs.geo, fp.chain)
    requires Cursor(fp.fs.geo, fp.State()) && target > 0
    requires fp.canWrite || target <= |fp.content|
    modifies fp`clust, fp`sclust, fp`chain, fp`fptr, fp.fs`disk, fp.fs`wflag, fp.fs`winsect, fp.fs.win,
             fp.fs`lastClust, fp.fs`freeClust, fp.fs`fsiDirty
    ensures fp.Ready() && fp.State() == old(fp.State()).(clust := fp.clust, sclust := fp.sclust, chain := fp.chain, fptr := fp.fptr)
    ensures r <= 2 && old(fp.chain) <= fp.chain
    ensures r != 1 ==> AtRest(fp.fs.geo, fp.State(), nsect) && GrownForPointer(fp.fs.geo, old(fp.chain), fp.State())
    ensures r == 2 ==> fp.fptr == target
    ensures r == 0 ==> fp.fptr < target && AtChainEnd(fp.fs.geo, fp.State()) && forall c :: 2 <= c < fp.fs.geo.nFatent ==> Fat(fp.fs)[c] > 1
    ensures r == 1 ==> exists c :: 2 <= c < fp.fs.geo.nFatent && Fat(fp.fs)[c] == 1
    ensures fp.fs.winsect == old(fp.fs.winsect) || fp.fs.geo.InFat(fp.fs.winsect)
    ensures Clusters(fp.fs.geo, fp.chain) && Clusters(fp.fs.geo, old(fp.chain))
    ensures Untouched(fp.fs.geo, old(Fat(fp.fs)), old(fp.fs.Logical()), Fat(fp.fs), fp.fs.Logical(), old(fp.chain), fp.chain)
    ensures old(FreeAccurate(fp.fs)) ==> FreeAccurate(fp.fs)
    ensures Noted(old(fp.fs.freeClust), old(fp.fs.fsiDirty), fp.fs.freeClust, fp.fs.fsiDirty)
    ensures target <= |fp.content| ==> r == 2 && fp.chain == old(fp.chain)
  {
    hide Based, FatFs.Valid, FatFs.Logical, Fat, Clusters, Untouched, FreeAccurate, Quot, Rem, Cursor, Walking, AtRest, GrownForPointer, GrownTo, AtChainEnd;
    ghost var g, t, d, ch := fp.fs.geo, Fat(fp.fs), fp.fs.Logical(), fp.chain;
    nsect := 0;
    var ofs;
    ghost var k;
    r, ofs, k := StartSeek(fp, target, fp.fptr);
    if r == 0 {
      AtStart(g, ch, fp.State());
    }
    if r < 2 {
      return;
    }
    ghost var u, e, ch1 := Fat(fp.fs), fp.fs.Logical(), fp.chain;
    r, ofs, k := Walk(fp, ofs, target, k, ch);
    UntouchedTransitive(g, t, d, u, e, Fat(fp.fs), fp.fs.Logical(), ch, ch1, fp.chain);
    if r == 1 {
      return;
    }
    if Rem(ofs, SS) != 0 {
      nsect := Clust2Sect(fp.fs.geo, fp.clust);
      nsect := nsect + Quot(ofs, SS);
    }
    WalkEnds(g, Fat(fp.fs), fp.fs.Logical(), fp.fs.winsect, fp.buf[..], fp.State(), k, ofs, ch, nsect);
    if r == 0 {
      WalkedToEnd(g, fp.State(), k, ofs);
    }
    PointerIsFree(fp, fp.clust, fp.fptr + ofs);
    fp.fptr := fp.fptr + ofs;
  }

  lemma WalkedToEnd(g: Geometry, f: File, k: nat, ofs: nat)
    requires Walking(g, f, k, ofs, f.fptr + ofs) && ofs == g.csize * 512 && |f.chain| == k + 1
    ensures AtChainEnd(g, f.(fptr := f.fptr + ofs))
  {
    TimesNext(k, g.csize * 512);
    ClusterBytes(k + 1, g.csize);
  }

  lemma AtStart(g: Geometry, ch0: seq<nat>, f: File)
    requires g.csize > 0 && Clusters(g, f.chain) && f.fptr == 0 && f.chain == ch0
    ensures AtRest(g, f, 0) && GrownForPointer(g, ch0, f)
    ensures f.chain == [] ==> AtChainEnd(g, f)
  {
  }

  // ---- settling there

  /** The content after the pointer moved to p: unspecified bytes up to it. */
  ghost function GapTo(content: Content, p: nat): (r: Content)
    ensures |r| == if p > |content| then p else |content|
    ensures forall i :: 0 <= i < |r| ==> r[i] == if i < |content| then content[i] else None
  {
    if p > |content| then content + seq(p - |content|, _ => None) else content
  }

  lemma Settled(g: Geometry, t: Links, d: Disk, w: nat, b: Sector, f: File)
    requires Based(g, t, d, w, b, f) && AtRest(g, f, f.dsect)
    ensures Based(g, t, d, w, b, f.(content := GapTo(f.content, f.fptr)))
    ensures Cursor(g, f.(content := GapTo(f.content, f.fptr)))
  {
    if f.fptr > |f.content| {
      GapKeeps(Sectors(g, f.chain), d, b, f.dsect, f.dirty, f.content, f.fptr);
    }
  }

  lemma AtRestOnBoundary(g: Geometry, f: File, nsect: nat)
    requires AtRest(g, f, nsect)
    ensures Rem(f.fptr, SS) == 0 ==> AtRest(g, f, f.dsect)
    ensures Rem(f.fptr, SS) != 0 ==> Clusters(g, f.chain) && Quot(f.fptr, SS) < |Sectors(g, f.chain)| && nsect == Sectors(g, f.chain)[Quot(f.fptr, SS)]
    ensures forall x, y :: AtRest(g, f.(dsect := x, dirty := y), nsect)
  {
  }

  /** Fill the sector cache if needed, and extend the file up to the pointer. */
  method Settle(fp: Fil, nsect: nat)
    requires fp.Ready() && AtRest(fp.fs.geo, fp.State(), nsect) && |fp.content| == fp.fsize
    modifies fp`dsect, fp`dirty, fp`content, fp`fsize, fp`written, fp.buf, fp.fs`disk
    ensures fp.Ready() && fp.fs.geo.csize > 0 && Clusters(fp.fs.geo, fp.chain) && Cursor(fp.fs.geo, fp.State())
    ensures fp.State() == old(fp.State()).(dsect := fp.dsect, dirty := fp.dirty, content := fp.content)
    ensures fp.content == GapTo(old(fp.content), fp.fptr) && |fp.content| == fp.fsize
    ensures fp.written == (old(fp.written) || fp.fptr > old(fp.fsize))
    ensures Fat(fp.fs) == old(Fat(fp.fs))
    ensures Untouched(fp.fs.geo, old(Fat(fp.fs)), old(fp.fs.Logical()), Fat(fp.fs), fp.fs.Logical(), fp.chain, fp.chain)
  {
    hide Based, FatFs.Valid, FatFs.Logical, Fat, Clusters, Untouched, Quot, Rem, Cursor, AtRest, Sectors;
    ghost var g := fp.fs.geo;
    AtRestOnBoundary(g, fp.State(), nsect);
    BeforeRound(fp);
    if Rem(fp.fptr, SS) != 0 {
      LoadSector(fp, nsect, Quot(fp.fptr, SS));
    }
    Settled(g, Fat(fp.fs), fp.fs.Logical(), fp.fs.winsect, fp.buf[..], fp.State());
    fp.content := GapTo(fp.content, fp.fptr);
    if fp.fptr > fp.fsize {
      fp.fsize := fp.fptr;
      fp.written := true;
    }
  }

  method FLseek(fp: Fil, ofs: nat) returns (res: FResult)
    requires fp.Valid() && ofs < 0x1_0000_0000 // DWORD ofs
    modifies fp`clust, fp`sclust, fp`chain, fp`fptr, fp`dsect, fp`dirty, fp`content, fp`fsize, fp`written, fp`err, fp.buf,
             fp.fs`disk, fp.fs`wflag, fp.fs`winsect, fp.fs.win, fp.fs`lastClust, fp.fs`freeClust, fp.fs`fsiDirty
    ensures fp.Ready()
    ensures old(fp.err) != FrOk ==>
              res == old(fp.err) && fp.State() == old(fp.State()) && Fat(fp.fs) == old(Fat(fp.fs)) && fp.fs.Logical() == old(fp.fs.Logical())
    ensures old(fp.err) == FrOk ==> res == FrOk || res == FrIntErr
    ensures var target := if ofs > old(fp.fsize) && !fp.canWrite then old(fp.fsize) else ofs;
            old(fp.err) == FrOk && res == FrOk ==>
              && fp.Valid() && fp.err == FrOk
              && fp.content == GapTo(old(fp.content), fp.fptr)
              && fp.written == (old(fp.written) || fp.fptr > old(fp.fsize))
              && (fp.fptr == target
                  || (fp.fptr < target && AtChainEnd(fp.fs.geo, fp.State()) && forall c :: 2 <= c < fp.fs.geo.nFatent ==> Fat(fp.fs)[c] > 1))
    ensures old(fp.err) == FrOk && (ofs <= old(fp.fsize) || !fp.canWrite) ==>
              && res == FrOk && fp.chain == old(fp.chain) && fp.content == old(fp.content)
              && fp.fptr == if ofs > old(fp.fsize) then old(fp.fsize) else ofs
    ensures old(fp.err) == FrOk && res == FrIntErr ==>
              fp.err == FrIntErr && exists c :: 2 <= c < fp.fs.geo.nFatent && Fat(fp.fs)[c] == 1
    ensures fp.fs.winsect == old(fp.fs.winsect) || fp.fs.geo.InFat(fp.fs.winsect)
    ensures fp.fs.geo.csize > 0 && res == FrOk && old(Tight(fp.fs.geo, fp.State())) ==> Tight(fp.fs.geo, fp.State())
    ensures Clusters(fp.fs.geo, fp.chain) && Clusters(fp.fs.geo, old(fp.chain)) && old(fp.chain) <= fp.chain
    ensures Untouched(fp.fs.geo, old(Fat(fp.fs)), old(fp.fs.Logical()), Fat(fp.fs), fp.fs.Logical(), old(fp.chain), fp.chain)
    ensures old(FreeAccurate(fp.fs)) ==> FreeAccurate(fp.fs)
    ensures Noted(old(fp.fs.freeClust), old(fp.fs.fsiDirty), fp.fs.freeClust, fp.fs.fsiDirty)
    ensures old(InfoCurrent(fp.fs)) ==> InfoCurrent(fp.fs)
  {
    hide InfoHeld, Based, FatFs.Valid, FatFs.Logical, Fat, Clusters, Untouched, Zeros, Quot, Rem, Cursor, AtRest, GrownForPointer, Tight;
    BeforeWrite(fp);
    if fp.err != FrOk {
      return fp.err;
    }
    ghost var g, t, d, f := fp.fs.geo, Fat(fp.fs), fp.fs.Logical(), fp.State();
    var target := if ofs > fp.fsize && !fp.canWrite then fp.fsize else ofs;
    var nsect := 0;
    if target > 0 {
      var r;
      r, nsect := Locate(fp, target);
      if r == 1 {
        InfoKeptByFile(g, t, d, Fat(fp.fs), fp.fs.Logical(), f.chain, fp.chain, fp.fs.fsiEnabled, old(fp.fs.freeClust), old(fp.fs.fsiDirty), fp.fs.freeClust, fp.fs.fsiDirty);
        fp.err := FrIntErr;
        return FrIntErr;
      }
    } else {
      PointerIsFree(fp, fp.clust, 0);
      fp.fptr := 0;
      AtStart(g, f.chain, fp.State());
    }
    ghost var u, e, f1 := Fat(fp.fs), fp.fs.Logical(), fp.State();
    Settle(fp, nsect);
    UntouchedTransitive(g, t, d, u, e, Fat(fp.fs), fp.fs.Logical(), f.chain, f1.chain, fp.chain);
    SettledTight(g, f, f1, fp.State());
    InfoKeptByFile(g, t, d, Fat(fp.fs), fp.fs.Logical(), f.chain, fp.chain, fp.fs.fsiEnabled, old(fp.fs.freeClust), old(fp.fs.fsiDirty), fp.fs.freeClust, fp.fs.fsiDirty);
    return FrOk;
  }

  lemma SettledTight(g: Geometry, f0: File, f1: File, f: File)
    requires g.csize > 0 && GrownForPointer(g, f0.chain, f1)
    requires f.chain == f1.chain && f.fptr == f1.fptr && f.fptr <= |f.content| && |f.content| >= |f0.content|
    ensures Tight(g, f0) ==> Tight(g, f)
  {
  }
}
