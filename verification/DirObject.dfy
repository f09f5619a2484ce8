/** The DIR object: dir_sdi and dir_next. */
module DirObject {
  import opened Arith
  import opened Bytes
  import opened Layout
  import opened Window
  import opened Chains
  import opened FatTable
  import opened ChainOps
  import opened DiskIO
  import opened FileView
  import opened FileState
  import opened FilObject
  import opened FileGrow
  import opened Lfn
  import opened Directory
  import opened DirState

  class Dir {
    const fs: FatFs
    const sclust: nat // table start cluster, 0: root directory
    const lfnbuf: array<nat> // what dp->lfn points to when it is not null
    var hasLfn: bool // dp->lfn is not null
    var fn: seq<Byte> // short name and its flag byte
    var index: nat
    var clust: nat
    var sect: nat
    var dir: nat // offset in the window (dp->dir - win)
    var lfnIdx: nat
    ghost var chain: seq<nat>

    /** The object for one directory, with the short and long name being looked for. */
    constructor (volume: FatFs, start: nat, buffer: array<nat>, long: bool, short: seq<Byte>, ghost ch: seq<nat>)
      requires volume.Valid() && buffer.Length == MAX_LFN + 1
      requires DirBased(volume.geo, Fat(volume), volume.Logical(), start, ch)
      ensures Ready() && fs == volume && sclust == start && lfnbuf == buffer && chain == ch
      ensures hasLfn == long && fn == short && lfnIdx == NO_LFN
    {
      fs, sclust, lfnbuf, hasLfn, fn, chain := volume, start, buffer, long, short, ch;
      index, clust, sect, dir, lfnIdx := 0, 0, 0, 0, NO_LFN;
    }

    ghost predicate Ready()
      reads this, fs, fs.win
    {
      && fs.Valid() && lfnbuf.Length == MAX_LFN + 1
      && DirBased(fs.geo, Fat(fs), fs.Logical(), sclust, chain)
    }

    ghost function Here(): Pos
      reads this
    {
      Pos(index, clust, sect, dir)
    }

    /** The object stands at slot index. */
    ghost predicate Placed()
      reads this, fs
    {
      Stands(fs.geo, chain, Here(), index)
    }

    ghost function Slots(): seq<Slot>
      requires Ready()
      reads this, fs, fs.win
    {
      Listing(fs.geo, Fat(fs), fs.Logical(), sclust, chain)
    }
  }

  // ---- dir_sdi

  lemma RootFirst(g: Geometry, t: Links, d: Disk, sclust: nat, ch: seq<nat>, idx: nat)
    requires DirBased(g, t, d, sclust, ch) && StartOf(g, sclust) == 0 && idx < MAX_SLOTS
    ensures ch == [] && g.dirbase > 0
    ensures idx < |Listing(g, t, d, sclust, ch)| <==> idx < g.nRootdir
    ensures idx < g.nRootdir ==>
              Stands(g, ch, Pos(idx, 0, g.dirbase + Quot(idx, PER_SECTOR), Rem(idx, PER_SECTOR) * SZ_DIR), idx)
  {
    if idx < g.nRootdir {
      SlotSector(g.nRootdir / 16, idx);
    }
  }

  lemma ChainFirst(g: Geometry, t: Links, d: Disk, sclust: nat, ch: seq<nat>)
    requires DirBased(g, t, d, sclust, ch) && StartOf(g, sclust) != 0
    ensures ch != [] && ch[0] == StartOf(g, sclust) && |t| == g.nFatent && g.csize > 0
  {
  }

  /** What get_fat says of cluster k of the chain. */
  lemma ChainNext(g: Geometry, t: Links, d: Disk, sclust: nat, ch: seq<nat>, k: nat)
    requires DirBased(g, t, d, sclust, ch) && k < |ch|
    ensures |t| == g.nFatent && g.IsCluster(ch[k])
    ensures if k + 1 < |ch| then t[ch[k]] == ch[k + 1] && g.IsCluster(ch[k + 1]) else t[ch[k]] >= |t|
  {
  }

  lemma SdiArrives(g: Geometry, t: Links, d: Disk, sclust: nat, ch: seq<nat>, i: nat, k: nat, idx: nat)
    requires DirBased(g, t, d, sclust, ch) && ch != [] && i < MAX_SLOTS && k < |ch|
    requires i == Times(k, Times(g.csize, PER_SECTOR)) + idx && idx < Times(g.csize, PER_SECTOR)
    ensures g.IsCluster(ch[k]) && g.ClusterBase(ch[k]) > 0
    ensures i < |Listing(g, t, d, sclust, ch)|
    ensures Stands(g, ch, Pos(i, ch[k], g.ClusterBase(ch[k]) + Quot(idx, PER_SECTOR), Rem(idx, PER_SECTOR) * SZ_DIR), i)
  {
    SdiFinds(g, ch, i, k, idx);
  }

  lemma SdiRunsOut(g: Geometry, t: Links, d: Disk, sclust: nat, ch: seq<nat>, i: nat, idx: nat)
    requires DirBased(g, t, d, sclust, ch) && ch != []
    requires i == Times(|ch|, Times(g.csize, PER_SECTOR)) + idx
    ensures i >= |Listing(g, t, d, sclust, ch)|
  {
    SdiPastEnd(g, ch, i, idx);
  }

  lemma StartValid(g: Geometry, t: Links, d: Disk, sclust: nat, ch: seq<nat>)
    requires DirBased(g, t, d, sclust, ch)
    ensures sclust != 1 && sclust < g.nFatent
  {
  }

  method DirSdi(dp: Dir, idx: nat) returns (res: FResult)
    requires dp.Ready() && idx < MAX_SLOTS
    modifies dp`index, dp`clust, dp`sect, dp`dir, dp.fs`disk, dp.fs`wflag, dp.fs`winsect, dp.fs.win
    ensures dp.Ready() && dp.fs.Logical() == old(dp.fs.Logical()) && Fat(dp.fs) == old(Fat(dp.fs)) && dp.Slots() == old(dp.Slots())
    ensures dp.index == idx && (old(FreeAccurate(dp.fs)) ==> FreeAccurate(dp.fs))
    ensures if idx < |dp.Slots()| then res == FrOk && dp.Placed()
            else res == FrIntErr && dp.clust == old(dp.clust) && dp.sect == old(dp.sect) && dp.dir == old(dp.dir)
  {
    hide FatFs.Valid, FatFs.Logical, Fat, DirBased, Listing, Stands, Quot, Rem, Times, Zeros;
    var fs := dp.fs;
    ghost var g, t, d, ch := fs.geo, Fat(fs), fs.Logical(), dp.chain;
    dp.index := idx;
    var clst := dp.sclust;
    StartValid(g, t, d, dp.sclust, ch);
    if clst == 1 || clst >= fs.geo.nFatent {
      return FrIntErr;
    }
    if clst == 0 && fs.geo.fatType == Fat32 {
      clst := fs.geo.dirbase;
    }
    var i := idx;
    var sect;
    if clst == 0 {
      RootFirst(g, t, d, dp.sclust, ch, idx);
      if idx >= fs.geo.nRootdir {
        return FrIntErr;
      }
      sect := fs.geo.dirbase;
    } else {
      ChainFirst(g, t, d, dp.sclust, ch);
      var ic := Times(fs.geo.csize, PER_SECTOR);
      TimesPositive(fs.geo.csize, PER_SECTOR);
      ghost var k := 0;
      TimesNext(k, ic);
      while i >= ic
        invariant k < |ch| && clst == ch[k] && idx == Times(k, ic) + i
        invariant dp.fs.Valid() && dp.fs.Logical() == d && Fat(dp.fs) == t
        invariant dp.index == idx && dp.clust == old(dp.clust) && dp.sect == old(dp.sect) && dp.dir == old(dp.dir)
      {
        ChainNext(g, t, d, dp.sclust, ch, k);
        clst := GetFat(fs, clst);
        TimesNext(k, ic);
        i := i - ic;
        if clst < 2 || clst >= fs.geo.nFatent {
          SdiRunsOut(g, t, d, dp.sclust, ch, idx, i);
          return FrIntErr;
        }
        k := k + 1;
      }
      SdiArrives(g, t, d, dp.sclust, ch, idx, k, i);
      sect := Clust2Sect(fs.geo, clst);
    }
    dp.clust := clst;
    if sect == 0 {
      return FrIntErr;
    }
    dp.sect := sect + Quot(i, PER_SECTOR);
    dp.dir := Rem(i, PER_SECTOR) * SZ_DIR;
    return FrOk;
  }

  lemma TimesPositive(k: nat, n: nat)
    requires k > 0 && n > 0
    ensures Times(k, n) > 0
  {
    TimesMonotone(1, k, n);
    TimesNext(0, n);
  }

  // ---- stretching the table

  /** A window over sector s of the data area, about to be written. */
  lemma WindowOver(g: Geometry, mounted: Disk, d: Disk, clst: nat, s: nat, v: Sector)
    requires g.Valid() && g.VolumeEnd() <= |d| == |mounted| && Mirrored(g, mounted, d)
    requires g.IsCluster(clst) && g.InCluster(s, clst)
    ensures s < |d| && !g.InMirror(s) && !g.InFat(s)
    ensures Mirrored(g, mounted, Put(g, d, s, v)) && Put(g, d, s, v) == d[s := v]
  {
    ClustersDisjoint(g, clst, clst, s);
    PutKeepsMirrored(g, mounted, d, s, v);
  }

  /** The first c sectors of cluster r are zero. */
  ghost predicate ClearedUpTo(g: Geometry, d: Disk, e: Disk, r: nat, c: nat) {
    && r >= 2 && |e| == |d|
    && forall s: nat {:trigger e[s]} :: s < |d| ==>
         e[s] == if g.ClusterBase(r) <= s < g.ClusterBase(r) + c then ZeroBytes(512) else d[s]
  }

  lemma ClearedOneMore(g: Geometry, d: Disk, e: Disk, r: nat, c: nat)
    requires ClearedUpTo(g, d, e, r, c) && g.ClusterBase(r) + c < |d|
    ensures ClearedUpTo(g, d, e[g.ClusterBase(r) + c := ZeroBytes(512)], r, c + 1)
  {
  }

  lemma ClearedAll(g: Geometry, d: Disk, e: Disk, r: nat)
    requires Holds(g, d) && g.IsCluster(r) && ClearedUpTo(g, d, e, r, g.csize)
    ensures Cleared(g, d, e, r) && Holds(g, e) && Table(g, e) == Table(g, d)
  {
    forall s: nat | g.InFat(s)
      ensures d[s] == e[s]
    {
      if g.InCluster(s, r) {
        ClustersDisjoint(g, r, r, s);
      }
    }
    SameFatSameTable(g, d, e);
  }

  /** The clean-up of a stretched table: cluster clst is filled with zeros through the window. */
  method ClearCluster(fs: FatFs, clst: nat)
    requires fs.Valid() && fs.geo.IsCluster(clst)
    modifies fs`disk, fs`wflag, fs`winsect, fs.win
    ensures fs.Valid() && Cleared(fs.geo, old(fs.Logical()), fs.Logical(), clst) && Fat(fs) == old(Fat(fs))
    ensures fs.winsect == fs.geo.ClusterBase(clst)
  {
    hide Mirrored, Put, ZeroBytes, ClearedUpTo, Cleared, Table, Geometry.Valid;
    ghost var g, d := fs.geo, fs.Logical();
    SyncWindow(fs);
    forall i | 0 <= i < 512 {
      fs.win[i] := 0;
    }
    assert fs.win[..] == ZeroBytes(512);
    fs.winsect := Clust2Sect(fs.geo, clst);
    NothingCleared(g, d, clst);
    CsizePositive(g);
    var c := 0;
    while c < fs.geo.csize
      invariant c <= g.csize && fs.winsect == g.ClusterBase(clst) + c && !fs.wflag && fs.win[..] == ZeroBytes(512)
      invariant g.VolumeEnd() <= |fs.disk| == |fs.mounted| && g.fatbase + g.FatArea() <= |fs.disk|
      invariant Mirrored(g, fs.mounted, fs.disk)
      invariant ClearedUpTo(g, d, fs.disk, clst, c)
      invariant c > 0 ==> g.ClusterBase(clst) < |fs.disk| && fs.disk[g.ClusterBase(clst)] == ZeroBytes(512)
    {
      WindowOver(g, fs.mounted, fs.disk, clst, fs.winsect, fs.win[..]);
      fs.wflag := true;
      ghost var e := fs.disk;
      SyncWindow(fs);
      assert fs.disk == e[fs.winsect := ZeroBytes(512)];
      ClearedOneMore(g, d, e, clst, c);
      fs.winsect := fs.winsect + 1;
      c := c + 1;
    }
    fs.winsect := fs.winsect - c;
    WindowOver(g, fs.mounted, fs.disk, clst, fs.winsect, fs.win[..]);
    ClearedAll(g, d, fs.disk, clst);
  }

  lemma NothingCleared(g: Geometry, d: Disk, r: nat)
    requires r >= 2
    ensures ClearedUpTo(g, d, d, r, 0)
  {
  }

  lemma CsizePositive(g: Geometry)
    requires g.Valid()
    ensures g.csize > 0 && g.fatbase + g.FatArea() <= g.VolumeEnd()
  {
  }

  /** A change of FAT sectors that leaves every FAT value leaves the directory. */
  lemma DirKept(g: Geometry, t: Links, d: Disk, e: Disk, sclust: nat, ch: seq<nat>)
    requires DirBased(g, t, d, sclust, ch) && OnlyFat(g, d, e)
    ensures DirBased(g, t, e, sclust, ch) && Listing(g, t, e, sclust, ch) == Listing(g, t, d, sclust, ch)
    ensures Clusters(g, ch) && Untouched(g, t, d, t, e, ch, ch)
  {
    DirSecsPlaced(g, t, d, sclust, ch);
    forall i | 0 <= i < Reach(|DirSecs(g, ch)|)
      ensures SlotAt(e, DirSecs(g, ch), i) == SlotAt(d, DirSecs(g, ch), i)
    {
      SlotSector(|DirSecs(g, ch)|, i);
      assert DirSector(g, DirSecs(g, ch)[Quot(i, PER_SECTOR)]);
    }
  }

  /** create_chain on the last cluster of the table. */
  lemma DirCreated(g: Geometry, t: Links, d: Disk, u: Links, sclust: nat, ch: seq<nat>, r: nat, eoc: nat)
    requires DirBased(g, t, d, sclust, ch) && ch != [] && eoc >= g.nFatent
    requires Created(t, u, ch[|ch| - 1], SearchStart(ch[|ch| - 1], 0, g.nFatent), r, eoc)
    ensures g.IsCluster(ch[|ch| - 1]) && |t| == g.nFatent && ch[|ch| - 1] < |t|
    ensures r == 0 ==> u == t && forall c :: 2 <= c < |t| ==> t[c] > 1
    ensures r == 1 ==> u == t && exists c :: 2 <= c < |t| && t[c] == 1
    ensures r >= 2 ==> r < |t| && t[r] == 0 && u == Linked(t, ch, r, eoc)
  {
    var f := File(StartOf(g, sclust), 0, 0, 0, false, ch, []);
    FollowOrEnd(g, t, f, |ch| - 1);
    SearchedOutcome(t, ch[|ch| - 1], r);
  }

  lemma SearchedOutcome(t: Links, s: nat, r: nat)
    ensures Searched(t, s, r) && r == 0 ==> forall c :: 2 <= c < |t| ==> t[c] > 1
    ensures Searched(t, s, r) && r == 1 ==> exists c :: 2 <= c < |t| && t[c] == 1
  {
  }

  lemma LastCluster(g: Geometry, t: Links, d: Disk, sclust: nat, ch: seq<nat>)
    requires DirBased(g, t, d, sclust, ch) && ch != []
    ensures g.IsCluster(ch[|ch| - 1]) && EndMark(g) >= g.nFatent
  {
    EndMarkEndsChains(g);
  }

  /** A table of chain ch2 that has grown from ch, and what it kept. */
  ghost predicate Grew(g: Geometry, t: Links, d: Disk, u: Links, e: Disk, sclust: nat, ch: seq<nat>, ch2: seq<nat>) {
    && DirBased(g, t, d, sclust, ch) && DirBased(g, u, e, sclust, ch2) && ch <= ch2
    && Clusters(g, ch) && Clusters(g, ch2) && Untouched(g, t, d, u, e, ch, ch2)
    && Extends(Listing(g, u, e, sclust, ch2), Listing(g, t, d, sclust, ch))
  }

  lemma GrewNot(g: Geometry, t: Links, d: Disk, sclust: nat, ch: seq<nat>)
    requires DirBased(g, t, d, sclust, ch)
    ensures Grew(g, t, d, t, d, sclust, ch, ch)
  {
    UntouchedReflexive(g, t, d, ch);
  }

  lemma {:induction false} GrewTransitive(g: Geometry, t: Links, d: Disk, t1: Links, d1: Disk, t2: Links, d2: Disk, sclust: nat, ch: seq<nat>, ch1: seq<nat>, ch2: seq<nat>)
    requires Grew(g, t, d, t1, d1, sclust, ch, ch1) && Grew(g, t1, d1, t2, d2, sclust, ch1, ch2)
    ensures Grew(g, t, d, t2, d2, sclust, ch, ch2)
  {
    UntouchedTransitive(g, t, d, t1, d1, t2, d2, ch, ch1, ch2);
    ExtendsTransitive(Listing(g, t, d, sclust, ch), Listing(g, t1, d1, sclust, ch1), Listing(g, t2, d2, sclust, ch2));
  }

  lemma GrewSame(g: Geometry, t: Links, d: Disk, e: Disk, sclust: nat, ch: seq<nat>)
    requires DirBased(g, t, d, sclust, ch) && OnlyFat(g, d, e)
    ensures Grew(g, t, d, t, e, sclust, ch, ch) && Listing(g, t, e, sclust, ch) == Listing(g, t, d, sclust, ch)
  {
    DirKept(g, t, d, e, sclust, ch);
  }

  lemma GrewOne(g: Geometry, t: Links, d: Disk, u: Links, d1: Disk, d2: Disk, sclust: nat, ch: seq<nat>, r: nat, eoc: nat)
    requires DirBased(g, t, d, sclust, ch) && ch != [] && eoc >= g.nFatent
    requires OnlyFat(g, d, d1) && Cleared(g, d1, d2, r)
    requires 2 <= r < |t| <= eoc && t[r] == 0 && ch[|ch| - 1] < |t| && u == Linked(t, ch, r, eoc)
    ensures Grew(g, t, d, u, d2, sclust, ch, ch + [r])
    ensures |Listing(g, t, d, sclust, ch)| < MAX_SLOTS ==> |Listing(g, t, d, sclust, ch)| < |Listing(g, u, d2, sclust, ch + [r])|
  {
    DirGrows(g, t, d, u, d1, d2, sclust, ch, r, eoc);
    SectorsAppend(g, ch, r);
    CsizePositive(g);
  }

  /** create_chain and the clean-up of the new cluster. */
  method DirStretch(dp: Dir) returns (res: FResult, clst: nat)
    requires dp.Ready() && dp.chain != [] && dp.clust == dp.chain[|dp.chain| - 1]
    modifies dp`chain, dp.fs`disk, dp.fs`wflag, dp.fs`winsect, dp.fs.win, dp.fs`lastClust, dp.fs`freeClust, dp.fs`fsiDirty
    ensures dp.Ready()
    ensures Grew(dp.fs.geo, old(Fat(dp.fs)), old(dp.fs.Logical()), Fat(dp.fs), dp.fs.Logical(), dp.sclust, old(dp.chain), dp.chain)
    ensures res == FrOk ==> dp.chain == old(dp.chain) + [clst] && dp.fs.geo.IsCluster(clst)
    ensures res == FrOk && |old(dp.Slots())| < MAX_SLOTS ==> |dp.Slots()| > |old(dp.Slots())|
    ensures res != FrOk ==> dp.chain == old(dp.chain) && dp.Slots() == old(dp.Slots()) && Fat(dp.fs) == old(Fat(dp.fs))
    ensures res == FrDenied ==> forall c :: 2 <= c < |Fat(dp.fs)| ==> Fat(dp.fs)[c] > 1
    ensures res == FrIntErr ==> exists c :: 2 <= c < |Fat(dp.fs)| && Fat(dp.fs)[c] == 1
    ensures res == FrOk || res == FrDenied || res == FrIntErr
    ensures old(FreeAccurate(dp.fs)) ==> FreeAccurate(dp.fs)
    ensures Noted(old(dp.fs.freeClust), old(dp.fs.fsiDirty), dp.fs.freeClust, dp.fs.fsiDirty)
  {
    hide FatFs.Valid, FatFs.Logical, Fat, DirBased, Listing, Created, EndMark, Grew, Linked, OnlyFat, Cleared, Zeros;
    var fs := dp.fs;
    ghost var g, t, d, ch := fs.geo, Fat(fs), fs.Logical(), dp.chain;
    LastCluster(g, t, d, dp.sclust, ch);
    clst := CreateChain(fs, dp.clust);
    ghost var u, d1 := Fat(fs), fs.Logical();
    DirCreated(g, t, d, u, dp.sclust, ch, clst, EndMark(g));
    if clst == 0 {
      GrewSame(g, t, d, d1, dp.sclust, ch);
      return FrDenied, clst;
    }
    if clst == 1 {
      GrewSame(g, t, d, d1, dp.sclust, ch);
      return FrIntErr, clst;
    }
    ClearCluster(fs, clst);
    dp.chain := dp.chain + [clst];
    GrewOne(g, t, d, u, d1, fs.Logical(), dp.sclust, ch, clst, EndMark(g));
    GrewNow(g, t, d, u, fs.Logical(), dp.sclust, ch, dp.chain);
    return FrOk, clst;
  }

  lemma GrewNow(g: Geometry, t: Links, d: Disk, u: Links, e: Disk, sclust: nat, ch: seq<nat>, ch2: seq<nat>)
    requires Grew(g, t, d, u, e, sclust, ch, ch2)
    ensures DirBased(g, u, e, sclust, ch2) && DirBased(g, t, d, sclust, ch)
  {
  }

  // ---- dir_next

  lemma StandsFacts(g: Geometry, t: Links, d: Disk, sclust: nat, ch: seq<nat>, p: Pos, i: nat)
    requires DirBased(g, t, d, sclust, ch) && Stands(g, ch, p, i)
    ensures p.index == i < |Listing(g, t, d, sclust, ch)| <= MAX_SLOTS && p.sect > 0 && p.dir + SZ_DIR <= 512
    ensures p.clust == 0 <==> ch == []
    ensures Rem(i + 1, MAX_SLOTS) == 0 <==> i + 1 == MAX_SLOTS
    ensures i + 1 == MAX_SLOTS ==> i + 1 == |Listing(g, t, d, sclust, ch)|
  {
    DirSecsPlaced(g, t, d, sclust, ch);
    SlotSector(|DirSecs(g, ch)|, i);
    ClustOfPos(g, ch, i);
    assert DirSector(g, DirSecs(g, ch)[Quot(i, PER_SECTOR)]);
    if i + 1 == MAX_SLOTS {
      QuotRemUnique(i + 1, MAX_SLOTS, 1, 0);
    }
  }

  /** A sector is full of slots, so the table cannot end inside one. */
  lemma StepInSector(g: Geometry, t: Links, d: Disk, sclust: nat, ch: seq<nat>, p: Pos, i: nat)
    requires DirBased(g, t, d, sclust, ch) && Stands(g, ch, p, i) && Rem(i + 1, PER_SECTOR) != 0
    ensures i + 1 < |Listing(g, t, d, sclust, ch)|
    ensures Stands(g, ch, Pos(i + 1, p.clust, p.sect, Rem(i + 1, PER_SECTOR) * SZ_DIR), i + 1)
  {
    var n := |DirSecs(g, ch)|;
    if i + 1 == Reach(n) {
      Join(i + 1, PER_SECTOR, if n * 16 < MAX_SLOTS then n else 4096, 0);
    } else {
      NextInSector(g, ch, i);
    }
  }

  lemma StepInRoot(g: Geometry, t: Links, d: Disk, sclust: nat, ch: seq<nat>, p: Pos, i: nat)
    requires DirBased(g, t, d, sclust, ch) && Stands(g, ch, p, i) && Rem(i + 1, PER_SECTOR) == 0 && i + 1 < MAX_SLOTS && ch == []
    ensures i + 1 < g.nRootdir <==> i + 1 < |Listing(g, t, d, sclust, ch)|
    ensures i + 1 < g.nRootdir ==> Stands(g, ch, Pos(i + 1, p.clust, p.sect + 1, 0), i + 1)
  {
    if i + 1 < g.nRootdir {
      NextInCluster(g, ch, i);
    }
  }

  lemma StepInCluster(g: Geometry, t: Links, d: Disk, sclust: nat, ch: seq<nat>, p: Pos, i: nat)
    requires DirBased(g, t, d, sclust, ch) && Stands(g, ch, p, i) && Rem(i + 1, PER_SECTOR) == 0 && i + 1 < MAX_SLOTS && ch != []
    requires Rem(Quot(i + 1, PER_SECTOR), g.csize) != 0
    ensures i + 1 < |Listing(g, t, d, sclust, ch)|
    ensures Stands(g, ch, Pos(i + 1, p.clust, p.sect + 1, 0), i + 1)
  {
    var n := |DirSecs(g, ch)|;
    Split(i + 1, PER_SECTOR);
    if i + 1 == Reach(n) {
      QuotRemUnique(n, g.csize, |ch|, 0);
    } else {
      NextInCluster(g, ch, i);
    }
  }

  lemma StepInChain(g: Geometry, t: Links, d: Disk, sclust: nat, ch: seq<nat>, p: Pos, i: nat)
    requires DirBased(g, t, d, sclust, ch) && Stands(g, ch, p, i) && Rem(i + 1, PER_SECTOR) == 0 && i + 1 < MAX_SLOTS && ch != []
    requires Rem(Quot(i + 1, PER_SECTOR), g.csize) == 0
    ensures |t| == g.nFatent && g.IsCluster(p.clust)
    ensures if i + 1 < |Listing(g, t, d, sclust, ch)| then
              g.IsCluster(t[p.clust]) && Stands(g, ch, Pos(i + 1, t[p.clust], g.ClusterBase(t[p.clust]), 0), i + 1)
            else t[p.clust] >= |t| && p.clust == ch[|ch| - 1]
  {
    NextInChain(g, t, ch, i);
  }

  /** In a table that has grown by cluster c, the slot after the old last one is the first of c. */
  lemma StepIntoNew(g: Geometry, t: Links, d: Disk, u: Links, e: Disk, sclust: nat, ch: seq<nat>, c: nat, p: Pos, i: nat)
    requires Grew(g, t, d, u, e, sclust, ch, ch + [c]) && ch != [] && g.IsCluster(c) && Stands(g, ch, p, i)
    requires i + 1 < |Listing(g, u, e, sclust, ch + [c])| && i + 1 == |Listing(g, t, d, sclust, ch)| < MAX_SLOTS
    requires Rem(i + 1, PER_SECTOR) == 0 && Rem(Quot(i + 1, PER_SECTOR), g.csize) == 0
    ensures Stands(g, ch + [c], Pos(i + 1, c, g.ClusterBase(c), 0), i + 1)
  {
    var all := ch + [c];
    StandsLonger(g, ch, c, p, i);
    StepInChain(g, t, d, sclust, ch, p, i);
    StepInChain(g, u, e, sclust, all, p, i);
    assert IsChain(u, all);
    assert u[all[|ch| - 1]] == all[|ch|];
  }

  /** What dir_next may do: nothing but move, unless it has to stretch the table. */
  method DirNext(dp: Dir, stretch: bool) returns (res: FResult)
    requires dp.Ready() && dp.Placed()
    modifies dp`index, dp`clust, dp`sect, dp`dir, dp`chain, dp.fs`disk, dp.fs`wflag, dp.fs`winsect, dp.fs.win,
             dp.fs`lastClust, dp.fs`freeClust, dp.fs`fsiDirty
    ensures dp.Ready()
    ensures Grew(dp.fs.geo, old(Fat(dp.fs)), old(dp.fs.Logical()), Fat(dp.fs), dp.fs.Logical(), dp.sclust, old(dp.chain), dp.chain)
    ensures if res == FrOk then dp.index == old(dp.index) + 1 && dp.Placed()
            else dp.index == old(dp.index) && dp.chain == old(dp.chain) && dp.Slots() == old(dp.Slots())
    ensures old(dp.index) + 1 < |old(dp.Slots())| || !stretch ==>
              && dp.fs.Logical() == old(dp.fs.Logical()) && Fat(dp.fs) == old(Fat(dp.fs)) && dp.Slots() == old(dp.Slots())
              && dp.chain == old(dp.chain)
              && dp.fs.lastClust == old(dp.fs.lastClust) && dp.fs.freeClust == old(dp.fs.freeClust) && dp.fs.fsiDirty == old(dp.fs.fsiDirty)
              && res == if old(dp.index) + 1 < |old(dp.Slots())| then FrOk else FrNoFile
    ensures res == FrOk || res == FrNoFile || res == FrDenied || res == FrIntErr
    ensures res == FrNoFile ==> !stretch || old(dp.index) + 1 == MAX_SLOTS || dp.chain == []
    ensures res == FrDenied ==> forall c :: 2 <= c < |Fat(dp.fs)| ==> Fat(dp.fs)[c] > 1
    ensures res == FrIntErr ==> exists c :: 2 <= c < |Fat(dp.fs)| && Fat(dp.fs)[c] == 1
    ensures old(FreeAccurate(dp.fs)) ==> FreeAccurate(dp.fs)
    ensures Noted(old(dp.fs.freeClust), old(dp.fs.fsiDirty), dp.fs.freeClust, dp.fs.fsiDirty)
  {
    hide FatFs.Valid, FatFs.Logical, Fat, DirBased, Listing, Stands, Grew, Quot, Rem, Zeros;
    var fs := dp.fs;
    ghost var g, t, d, ch, p := fs.geo, Fat(fs), fs.Logical(), dp.chain, dp.Here();
    StandsFacts(g, t, d, dp.sclust, ch, p, dp.index);
    GrewNot(g, t, d, dp.sclust, ch);
    var i := dp.index + 1;
    if Rem(i, MAX_SLOTS) == 0 || dp.sect == 0 {
      return FrNoFile;
    }
    if Rem(i, PER_SECTOR) == 0 {
      dp.sect := dp.sect + 1;
      if dp.clust == 0 {
        StepInRoot(g, t, d, dp.sclust, ch, p, dp.index);
        if i >= fs.geo.nRootdir {
          return FrNoFile;
        }
      } else {
        CsizeOf(g, t, d, dp.sclust, ch);
        if Rem(Quot(i, PER_SECTOR), fs.geo.csize) == 0 {
          StepInChain(g, t, d, dp.sclust, ch, p, dp.index);
          var clst := GetFat(fs, dp.clust);
          if clst <= 1 {
            return FrIntErr;
          }
          if clst >= fs.geo.nFatent {
            if !stretch {
              return FrNoFile;
            }
            res, clst := DirStretch(dp);
            if res != FrOk {
              return;
            }
            StepIntoNew(g, t, d, Fat(fs), fs.Logical(), dp.sclust, ch, clst, p, dp.index);
          }
          dp.clust := clst;
          dp.sect := Clust2Sect(fs.geo, clst);
        } else {
          StepInCluster(g, t, d, dp.sclust, ch, p, dp.index);
        }
      }
    } else {
      StepInSector(g, t, d, dp.sclust, ch, p, dp.index);
    }
    dp.index := i;
    dp.dir := Rem(i, PER_SECTOR) * SZ_DIR;
    return FrOk;
  }

  lemma CsizeOf(g: Geometry, t: Links, d: Disk, sclust: nat, ch: seq<nat>)
    requires DirBased(g, t, d, sclust, ch)
    ensures g.csize > 0
  {
  }
}
