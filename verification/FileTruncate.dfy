/** f_truncate: the file keeps its first fptr bytes and exactly the clusters that hold them. */
module FileTruncate {
  import opened Arith
  import opened Bytes
  import opened Layout
  import opened Window
  import opened FatTable
  import opened Chains
  import opened ChainOps
  import opened FileView
  import opened FileState
  import opened DiskIO
  import opened FilObject
  import opened FileRead
  import opened FileGrow
  import opened FileWrite
  import opened FileSeek

  /** The clusters that hold the first f.fptr bytes. */
  ghost function Kept(g: Geometry, f: File): (r: seq<nat>)
    requires g.csize > 0
  {
    if f.fptr == 0 || Quot(Quot(f.fptr - 1, SS), g.csize) >= |f.chain| then []
    else f.chain[..Quot(Quot(f.fptr - 1, SS), g.csize) + 1]
  }

  /** u is t with the clusters of ch beyond keep freed and keep ended. */
  ghost predicate CutTable(t: Links, u: Links, ch: seq<nat>, keep: seq<nat>) {
    && |u| == |t| && keep <= ch
    && (forall c :: 0 <= c < |t| && c !in ch ==> u[c] == t[c])
    && (forall c :: 0 <= c < |t| && c in ch && c !in keep ==> u[c] == 0)
    && (keep != [] ==> IsChain(u, keep))
  }

  lemma CutWhole(t: Links, u: Links, ch: seq<nat>)
    requires ch != [] && IsChain(t, ch) && u == RemoveFrom(t, ch[0]).links
    ensures RemoveFrom(t, ch[0]).res == FrOk
    ensures CutTable(t, u, ch, [])
    ensures |t| >= 2 ==> Zeros(u, 2) == Zeros(t, 2) + |ch|
  {
    RemoveFreesChain(t, ch);
    RemoveOnlyClears(t, ch[0]);
  }

  /** Nothing follows: the table stays. */
  lemma CutNothing(t: Links, ch: seq<nat>)
    requires IsChain(t, ch)
    ensures CutTable(t, t, ch, ch)
  {
  }

  /** put_fat(ch[k], end mark), then remove_chain(ch[k + 1]) */
  lemma CutAfter(t: Links, u: Links, ch: seq<nat>, k: nat, eoc: nat)
    requires IsChain(t, ch) && k + 1 < |ch| && eoc >= |t|
    requires u == RemoveFrom(t[ch[k] := eoc], ch[k + 1]).links
    ensures RemoveFrom(t[ch[k] := eoc], ch[k + 1]).res == FrOk
    ensures CutTable(t, u, ch, ch[..k + 1])
  {
    hide CutTable, Zeros, Freed;
    var t1, keep, rest := t[ch[k] := eoc], ch[..k + 1], ch[k + 1..];
    ChainIsAcyclic(t, ch);
    CutChain(t, ch, k + 1, eoc);
    RemoveFreesChain(t1, rest);
    assert ch == keep + rest;
    Apart(ch, k + 1);
    hide IsChain, RemoveFrom;
    UntouchedChain(t1, u, keep);
    FreedIsCut(t, u, ch, k, eoc);
  }

  lemma FreedIsCut(t: Links, u: Links, ch: seq<nat>, k: nat, eoc: nat)
    requires k + 1 < |ch| && ch[k] < |t| && Freed(t[ch[k] := eoc], u, ch[k + 1..]) && IsChain(u, ch[..k + 1])
    ensures CutTable(t, u, ch, ch[..k + 1])
  {
    hide IsChain;
    assert ch == ch[..k + 1] + ch[k + 1..];
    assert ch[k] in ch;
    forall c | 0 <= c < |t| && c !in ch
      ensures u[c] == t[c]
    {
      assert c != ch[k];
    }
  }

  lemma Apart(ch: seq<nat>, k: nat)
    requires Distinct(ch) && k <= |ch|
    ensures forall c :: c in ch[..k] ==> c !in ch[k..]
    ensures forall c :: c in ch ==> c in ch[..k] || c in ch[k..]
  {
    assert ch == ch[..k] + ch[k..];
  }

  /** What get_fat(clust) shows: the end of the chain, or the first cluster to free. */
  lemma AtCut(g: Geometry, t: Links, d: Disk, w: nat, b: Sector, f: File)
    requires Based(g, t, d, w, b, f)
    ensures g.csize > 0 && Clusters(g, f.chain)
    ensures Cursor(g, f) && f.fptr > 0 ==>
              var k := Quot(Quot(f.fptr - 1, SS), g.csize);
              && k < |f.chain| && f.clust == f.chain[k] && g.IsCluster(f.clust) && IsChain(t, f.chain)
              && Kept(g, f) == f.chain[..k + 1]
              && (k + 1 < |f.chain| ==> t[f.clust] == f.chain[k + 1] && g.IsCluster(f.chain[k + 1]))
              && (k + 1 == |f.chain| ==> t[f.clust] >= |t| && Kept(g, f) == f.chain)
  {
    if Cursor(g, f) && f.fptr > 0 {
      var k := Quot(Quot(f.fptr - 1, SS), g.csize);
      FollowOrEnd(g, t, f, k);
    }
  }

  /** Ending a chain early neither frees nor takes a cluster. */
  lemma EndingCountsNothing(t: Links, c: nat, eoc: nat)
    requires 2 <= c < |t| && t[c] != 0 && eoc > 0
    ensures Zeros(t[c := eoc], 2) == Zeros(t, 2)
  {
    ZerosUpdate(t, 2, c, eoc);
  }

  /** put_fat(fp->clust, 0x0FFFFFFF); remove_chain(ncl) */
  method FreeAfter(fs: FatFs, clst: nat, ncl: nat, ghost ch: seq<nat>, ghost k: nat) returns (res: FResult)
    requires fs.Valid() && IsChain(Fat(fs), ch) && k + 1 < |ch| && clst == ch[k] && ncl == ch[k + 1]
    requires fs.geo.IsCluster(clst) && fs.geo.IsCluster(ncl)
    modifies fs`disk, fs`wflag, fs`winsect, fs.win, fs`freeClust, fs`fsiDirty
    ensures fs.Valid() && res == FrOk && fs.geo.InFat(fs.winsect)
    ensures CutTable(old(Fat(fs)), Fat(fs), ch, ch[..k + 1])
    ensures OnlyFat(fs.geo, old(fs.Logical()), fs.Logical())
    ensures old(FreeAccurate(fs)) ==> FreeAccurate(fs)
    ensures Noted(old(fs.freeClust), old(fs.fsiDirty), fs.freeClust, fs.fsiDirty)
  {
    hide FatFs.Valid, FatFs.Logical, Fat, OnlyFat, EndMark, EntryLimit, IsChain, CutTable, RemoveFrom, Zeros;
    ghost var g, t, d := fs.geo, Fat(fs), fs.Logical();
    CutBasics(fs, ch, k);
    res := SetEntry(fs, clst, 0x0FFF_FFFF);
    ghost var t1, e := Fat(fs), fs.Logical();
    EndMarkIs(g);
    EndingCountsNothing(t, clst, EndMark(g));
    res := RemoveChain(fs, ncl);
    OnlyFatTransitive(g, d, e, fs.Logical());
    CutAfter(t, Fat(fs), ch, k, EndMark(g));
  }

  lemma EndMarkIs(g: Geometry)
    ensures EndMark(g) == Rem(0x0FFF_FFFF, EntryLimit(g))
  {
  }

  lemma CutBasics(fs: FatFs, ch: seq<nat>, k: nat)
    requires fs.Valid() && IsChain(Fat(fs), ch) && k + 1 < |ch|
    ensures EndMark(fs.geo) >= fs.geo.nFatent >= 3
    ensures Fat(fs)[ch[k]] != 0
  {
    EndMarkEndsChains(fs.geo);
    assert Fat(fs)[ch[k]] == ch[k + 1];
  }

  /** The FAT part of f_truncate. */
  method FreeTail(fp: Fil) returns (res: FResult)
    requires fp.Ready() && Cursor(fp.fs.geo, fp.State()) && fp.fptr < |fp.content| && fp.fs.geo.csize > 0
    modifies fp`sclust, fp.fs`disk, fp.fs`wflag, fp.fs`winsect, fp.fs.win, fp.fs`freeClust, fp.fs`fsiDirty
    ensures fp.fs.Valid() && res == FrOk && fp.fs.geo.InFat(fp.fs.winsect)
    ensures CutTable(old(Fat(fp.fs)), Fat(fp.fs), fp.chain, Kept(fp.fs.geo, old(fp.State())))
    ensures fp.sclust == if fp.fptr == 0 then 0 else old(fp.sclust)
    ensures OnlyFat(fp.fs.geo, old(fp.fs.Logical()), fp.fs.Logical())
    ensures old(FreeAccurate(fp.fs)) ==> FreeAccurate(fp.fs)
    ensures Noted(old(fp.fs.freeClust), old(fp.fs.fsiDirty), fp.fs.freeClust, fp.fs.fsiDirty)
  {
    hide Based, FatFs.Valid, FatFs.Logical, Fat, OnlyFat, IsChain, CutTable, RemoveFrom, Cursor, Clusters, Zeros;
    ghost var g, t, d, f := fp.fs.geo, Fat(fp.fs), fp.fs.Logical(), fp.State();
    AtCut(g, t, d, fp.fs.winsect, fp.buf[..], f);
    HasData(g, t, d, fp.fs.winsect, fp.buf[..], f);
    OnlyFatReflexive(g, d);
    if fp.fptr == 0 {
      res := RemoveChain(fp.fs, fp.sclust);
      CutWhole(t, Fat(fp.fs), f.chain);
      fp.sclust := 0;
    } else {
      var ncl := GetFat(fp.fs, fp.clust);
      assert ncl != 1; // so FR_INT_ERR is not reached
      res := FrOk;
      if ncl < fp.fs.geo.nFatent {
        res := FreeAfter(fp.fs, fp.clust, ncl, f.chain, Quot(Quot(f.fptr - 1, SS), g.csize));
      } else {
        CutNothing(t, f.chain);
      }
    }
  }

  lemma HasData(g: Geometry, t: Links, d: Disk, w: nat, b: Sector, f: File)
    requires Based(g, t, d, w, b, f) && f.fptr < |f.content|
    ensures f.chain != [] && f.sclust == f.chain[0] && g.IsCluster(f.sclust) && IsChain(t, f.chain)
    ensures |t| == g.nFatent >= 3
  {
  }

  // ---- the data part

  /** The file cut at its pointer. */
  ghost function Cut(g: Geometry, f: File): File
    requires g.csize > 0 && f.fptr <= |f.content|
  {
    f.(chain := Kept(g, f), sclust := if f.fptr == 0 then 0 else f.sclust, content := f.content[..f.fptr], dirty := false)
  }

  /** The medium after the final flush of f_truncate. */
  ghost function Flushed1(e: Disk, f: File, b: Sector): Disk
    requires f.dirty ==> f.dsect < |e|
  {
    if f.dirty then e[f.dsect := b] else e
  }

  lemma KeptSectors(g: Geometry, f: File)
    requires g.csize > 0 && Clusters(g, f.chain) && Cursor(g, f) && f.fptr <= |Sectors(g, f.chain)| * 512
    ensures var m := Times(|Kept(g, f)|, g.csize);
            && Clusters(g, Kept(g, f)) && Kept(g, f) <= f.chain
            && m <= |Sectors(g, f.chain)| && f.fptr <= m * 512
            && Sectors(g, Kept(g, f)) == Sectors(g, f.chain)[..m]
            && (Kept(g, f) != [] ==> Times(|Kept(g, f)| - 1, g.csize) * 512 < f.fptr)
            && (Kept(g, f) == [] <==> f.fptr == 0)
  {
    hide Quot, Rem, Times, Sectors;
    if f.fptr > 0 {
      var q := Quot(f.fptr - 1, SS);
      var k := Quot(q, g.csize);
      Split(f.fptr - 1, 512);
      QuotRem(q, g.csize);
      TimesNext(k, g.csize);
      SectorsPrefix(g, f.chain, k + 1);
    } else {
      TimesNext(0, g.csize);
      SectorsPrefix(g, f.chain, 0);
    }
  }

  lemma CutChainOf(g: Geometry, t: Links, u: Links, f: File)
    requires g.csize > 0 && ChainOf(g, t, f.sclust, f.chain) && Clusters(g, f.chain) && Cursor(g, f) && f.fptr < |f.content|
    requires f.fptr <= |Sectors(g, f.chain)| * 512
    requires CutTable(t, u, f.chain, Kept(g, f))
    ensures ChainOf(g, u, Cut(g, f).sclust, Kept(g, f))
  {
    KeptSectors(g, f);
  }

  /** The view after the flush and the cut. */
  lemma CutView(g: Geometry, t: Links, d: Disk, e: Disk, w: nat, b: Sector, f: File)
    requires Based(g, t, d, w, b, f) && OnlyFat(g, d, e) && Cursor(g, f) && f.fptr < |f.content|
    ensures f.dirty ==> f.dsect < |e| && f.dsect in Sectors(g, f.chain)
    ensures Clusters(g, Kept(g, f))
    ensures Overlay(Sectors(g, Kept(g, f)), Flushed1(e, f, b), b, f.dsect, false, f.content[..f.fptr])
  {
    var secs := Sectors(g, f.chain);
    DataKept(g, t, d, e, w, b, f);
    BaseSectors(g, t, d, w, b, f);
    GrowKeeps(secs, [], d, e, b, f.dsect, f.dirty, f.content);
    assert secs + [] == secs;
    if f.dirty {
      FlushKeeps(secs, e, b, f.dsect, f.content);
    }
    KeptSectors(g, f);
    CutKeeps(secs, Times(|Kept(g, f)|, g.csize), Flushed1(e, f, b), b, f.dsect, f.content, f.fptr);
  }

  lemma {:induction false} CutBased(g: Geometry, t: Links, d: Disk, u: Links, e: Disk, w: nat, v: nat, b: Sector, f: File)
    requires Based(g, t, d, w, b, f) && OnlyFat(g, d, e) && g.InFat(v) && Cursor(g, f) && f.fptr < |f.content|
    requires CutTable(t, u, f.chain, Kept(g, f))
    ensures f.dirty ==> f.dsect < |e|
    ensures Based(g, u, Flushed1(e, f, b), v, b, Cut(g, f))
    ensures Cursor(g, Cut(g, f)) && Tight(g, Cut(g, f))
  {
    BaseSectors(g, t, d, w, b, f);
    CutView(g, t, d, e, w, b, f);
    KeptSectors(g, f);
    CutChainOf(g, t, u, f);
    BaseWindow(g, t, d, w, v, b, f);
    CutCursor(g, f);
  }

  lemma CutCursor(g: Geometry, f: File)
    requires g.csize > 0 && Clusters(g, f.chain) && Cursor(g, f) && f.fptr < |f.content|
    requires f.fptr <= |Sectors(g, f.chain)| * 512
    ensures Clusters(g, Kept(g, f)) && Cursor(g, Cut(g, f))
  {
    KeptSectors(g, f);
    if Rem(f.fptr, SS) != 0 {
      CursorInside(g, f);
      Split(f.fptr, 512);
      Join(f.fptr - 1, 512, Quot(f.fptr, SS), Rem(f.fptr, SS) - 1);
    }
  }

  lemma CutUntouched(g: Geometry, t: Links, d: Disk, u: Links, e: Disk, w: nat, b: Sector, f: File)
    requires Based(g, t, d, w, b, f) && OnlyFat(g, d, e) && Cursor(g, f) && f.fptr < |f.content|
    requires CutTable(t, u, f.chain, Kept(g, f))
    ensures f.dirty ==> f.dsect < |e|
    ensures Clusters(g, f.chain) && Clusters(g, Kept(g, f))
    ensures Untouched(g, t, d, u, Flushed1(e, f, b), f.chain, Kept(g, f))
  {
    BaseSectors(g, t, d, w, b, f);
    KeptSectors(g, f);
    CutView(g, t, d, e, w, b, f);
  }

  lemma FlushRun(g: Geometry, t: Links, d: Disk, w: nat, v: nat, b: Sector, f: File)
    requires Based(g, t, d, w, b, f) && f.dirty && g.InFat(v)
    ensures DataRun(g, v, f.dsect, 1) && f.dsect < |d|
  {
    BaseSectors(g, t, d, w, b, f);
  }

  lemma FlushIsWrite(e: Disk, s: nat, b: Sector)
    requires s < |e|
    ensures WriteSectors(e, s, b, 1) == e[s := b]
  {
    assert Chunk(b, 0) == b;
  }

  /** f_truncate where the pointer is before the end. */
  method CutAtPointer(fp: Fil) returns (res: FResult)
    requires fp.Valid() && fp.fsize > fp.fptr
    modifies fp`sclust, fp`chain, fp`content, fp`fsize, fp`written, fp`dirty,
             fp.fs`disk, fp.fs`wflag, fp.fs`winsect, fp.fs.win, fp.fs`freeClust, fp.fs`fsiDirty
    ensures fp.Valid() && res == FrOk && fp.written && !fp.dirty
    ensures fp.fs.geo.csize > 0 && Clusters(fp.fs.geo, fp.chain) && Clusters(fp.fs.geo, old(fp.chain))
    ensures fp.fptr < |old(fp.content)| && fp.content == old(fp.content)[..fp.fptr] && fp.fptr == old(fp.fptr) == fp.fsize
    ensures fp.chain == Kept(fp.fs.geo, old(fp.State())) && Tight(fp.fs.geo, fp.State())
    ensures CutTable(old(Fat(fp.fs)), Fat(fp.fs), old(fp.chain), fp.chain)
    ensures fp.fs.winsect == old(fp.fs.winsect) || fp.fs.geo.InFat(fp.fs.winsect)
    ensures Untouched(fp.fs.geo, old(Fat(fp.fs)), old(fp.fs.Logical()), Fat(fp.fs), fp.fs.Logical(), old(fp.chain), fp.chain)
    ensures old(FreeAccurate(fp.fs)) ==> FreeAccurate(fp.fs)
    ensures Noted(old(fp.fs.freeClust), old(fp.fs.fsiDirty), fp.fs.freeClust, fp.fs.fsiDirty)
  {
    hide Based, FatFs.Valid, FatFs.Logical, Fat, OnlyFat, Clusters, Untouched, CutTable, Cursor, Tight, Kept, Zeros, WriteSectors, Sectors, Geometry.Valid, Geometry.VolumeEnd, Quot, Rem;
    BeforeWrite(fp);
    ghost var g, t, d, w, b, f := fp.fs.geo, Fat(fp.fs), fp.fs.Logical(), fp.fs.winsect, fp.buf[..], fp.State();
    fp.fsize := fp.fptr;
    fp.written := true;
    res := FreeTail(fp);
    ghost var u, e, v := Fat(fp.fs), fp.fs.Logical(), fp.fs.winsect;
    CutBased(g, t, d, u, e, w, v, b, f);
    CutUntouched(g, t, d, u, e, w, b, f);
    if fp.dirty {
      FlushRun(g, t, d, w, v, b, f);
      FlushIsWrite(e, fp.dsect, b);
      DiskWrite(fp.fs, fp.dsect, fp.buf[..], 1);
      fp.dirty := false;
    }
    fp.chain := Kept(g, f);
    fp.content := fp.content[..fp.fptr];
  }

  method FTruncate(fp: Fil) returns (res: FResult)
    requires fp.Valid()
    modifies fp`sclust, fp`chain, fp`content, fp`fsize, fp`written, fp`dirty,
             fp.fs`disk, fp.fs`wflag, fp.fs`winsect, fp.fs.win, fp.fs`freeClust, fp.fs`fsiDirty
    ensures fp.Valid()
    ensures fp.fs.geo.csize > 0 && Clusters(fp.fs.geo, fp.chain) && Clusters(fp.fs.geo, old(fp.chain))
    ensures old(fp.err) != FrOk || !fp.canWrite ==>
              res == (if old(fp.err) != FrOk then old(fp.err) else FrDenied) && fp.State() == old(fp.State())
    ensures old(fp.err) == FrOk && fp.canWrite ==>
              && res == FrOk
              && fp.content == old(fp.content)[..fp.fptr] && fp.fptr == old(fp.fptr) == fp.fsize
              && fp.written == (old(fp.written) || old(fp.fsize) > fp.fptr)
    ensures old(fp.err) == FrOk && fp.canWrite && old(fp.fsize) > fp.fptr ==>
              && fp.chain == Kept(fp.fs.geo, old(fp.State())) && Tight(fp.fs.geo, fp.State())
              && CutTable(old(Fat(fp.fs)), Fat(fp.fs), old(fp.chain), fp.chain)
              && !fp.dirty
    ensures old(fp.fsize) <= fp.fptr ==> fp.chain == old(fp.chain) && Fat(fp.fs) == old(Fat(fp.fs))
    ensures fp.fs.winsect == old(fp.fs.winsect) || fp.fs.geo.InFat(fp.fs.winsect)
    ensures Untouched(fp.fs.geo, old(Fat(fp.fs)), old(fp.fs.Logical()), Fat(fp.fs), fp.fs.Logical(), old(fp.chain), fp.chain)
    ensures old(FreeAccurate(fp.fs)) ==> FreeAccurate(fp.fs)
    ensures Noted(old(fp.fs.freeClust), old(fp.fs.fsiDirty), fp.fs.freeClust, fp.fs.fsiDirty)
    ensures old(InfoCurrent(fp.fs)) ==> InfoCurrent(fp.fs)
  {
    hide InfoHeld, Based, FatFs.Valid, FatFs.Logical, Fat, OnlyFat, Clusters, Untouched, CutTable, Cursor, Tight, Kept, Zeros, WriteSectors, Sectors, Geometry.Valid, Geometry.VolumeEnd, Quot, Rem;
    BeforeWrite(fp);
    ghost var g, t, d, ch := fp.fs.geo, Fat(fp.fs), fp.fs.Logical(), fp.chain;
    if fp.err != FrOk {
      return fp.err;
    }
    if !fp.canWrite {
      return FrDenied;
    }
    res := FrOk;
    if fp.fsize > fp.fptr {
      res := CutAtPointer(fp);
      InfoKeptByFile(g, t, d, Fat(fp.fs), fp.fs.Logical(), ch, fp.chain, fp.fs.fsiEnabled, old(fp.fs.freeClust), old(fp.fs.fsiDirty), fp.fs.freeClust, fp.fs.fsiDirty);
    }
  }
}
