/** f_write: a write replaces or appends exactly the bytes it reports. */
module FileWrite {
  import opened Arith
  import opened Bytes
  import opened Layout
  import opened Window
  import opened FatTable
  import opened Chains
  import opened ChainOps
  import opened FileView
  import opened FileState
  import opened DiskIO
  import opened FilObject
  import opened FileRead
  import opened FileGrow

  /** Where f_write stands on a sector boundary: inside the current cluster, or just past it. */
  lemma WritePosition(g: Geometry, t: Links, d: Disk, w: nat, b: Sector, f: File)
    requires Based(g, t, d, w, b, f) && Cursor(g, f) && Rem(f.fptr, SS) == 0
    ensures g.csize > 0 && Clusters(g, f.chain)
    ensures f.sclust == 0 <==> f.chain == []
    ensures f.chain != [] ==> f.sclust == f.chain[0] && f.sclust >= 2
    ensures var q := Quot(f.fptr, SS);
            var k := Quot(q, g.csize);
            && f.fptr == 512 * q
            && (f.fptr == 0 ==> q == 0 && k == 0 && Rem(q, g.csize) == 0)
            && (Rem(q, g.csize) != 0 ==> q < |Sectors(g, f.chain)| && AtCluster(g, f, q))
            && (Rem(q, g.csize) == 0 && f.fptr > 0 ==> 0 < k <= |f.chain| && f.clust == f.chain[k - 1])
  {
    var q := Quot(f.fptr, SS);
    Split(f.fptr, 512);
    if f.fptr > 0 {
      PrevSector(f.fptr);
      PrevCluster(q, g.csize);
      if Rem(q, g.csize) != 0 {
        InsideChain(q, |f.chain|, g.csize);
      }
    }
  }

  lemma InsideChain(q: nat, n: nat, csize: nat)
    requires csize > 0 && Quot(q, csize) < n
    ensures q < Times(n, csize)
  {
    QuotRem(q, csize);
    TimesMonotone(Quot(q, csize), n, csize);
  }

  /** The part of f_write's and f_lseek's state that only grows: chain and start cluster. */
  ghost predicate SameButChain(f: File, f2: File) {
    f2 == f.(chain := f2.chain, sclust := f2.sclust, clust := f2.clust) && f.chain <= f2.chain
  }

  /** The pointer is at the end of the last cluster: the file has no room left. */
  ghost predicate AtChainEnd(g: Geometry, f: File) {
    f.fptr == 512 * Times(|f.chain|, g.csize)
  }

  /**
   * Cluster boundary handling: 0 when the disk is full, 1 when the FAT holds an
   * invalid entry, otherwise clust is the cluster of the byte at the pointer.
   */
  method EnterCluster(fp: Fil, csect: nat) returns (r: nat)
    requires fp.Ready() && Cursor(fp.fs.geo, fp.State()) && Rem(fp.fptr, SS) == 0
    requires csect == Rem(Quot(fp.fptr, SS), fp.fs.geo.csize)
    modifies fp`clust, fp`sclust, fp`chain, fp.fs`disk, fp.fs`wflag, fp.fs`winsect, fp.fs.win,
             fp.fs`lastClust, fp.fs`freeClust, fp.fs`fsiDirty
    ensures fp.Ready() && SameButChain(old(fp.State()), fp.State())
    ensures fp.fs.winsect == old(fp.fs.winsect) || fp.fs.geo.InFat(fp.fs.winsect)
    ensures r < 2 ==> fp.State() == old(fp.State()) && Fat(fp.fs) == old(Fat(fp.fs)) && AtChainEnd(fp.fs.geo, fp.State())
    ensures r == 0 ==> forall c :: 2 <= c < fp.fs.geo.nFatent ==> Fat(fp.fs)[c] > 1
    ensures r == 1 ==> exists c :: 2 <= c < fp.fs.geo.nFatent && Fat(fp.fs)[c] == 1
    ensures fp.fs.geo.csize > 0 && Clusters(fp.fs.geo, fp.chain) && Clusters(fp.fs.geo, old(fp.chain))
    ensures r >= 2 ==> AtCluster(fp.fs.geo, fp.State(), Quot(fp.fptr, SS))
    ensures r >= 2 ==> |fp.chain| == |old(fp.chain)| || (|fp.chain| == |old(fp.chain)| + 1 && csect == 0 && Quot(Quot(fp.fptr, SS), fp.fs.geo.csize) == |old(fp.chain)|)
    ensures Untouched(fp.fs.geo, old(Fat(fp.fs)), old(fp.fs.Logical()), Fat(fp.fs), fp.fs.Logical(), old(fp.chain), fp.chain)
    ensures old(FreeAccurate(fp.fs)) ==> FreeAccurate(fp.fs)
    ensures Noted(old(fp.fs.freeClust), old(fp.fs.fsiDirty), fp.fs.freeClust, fp.fs.fsiDirty)
  {
    hide Based, FatFs.Valid, FatFs.Logical, Fat, Untouched, FreeAccurate, Cursor, Quot, Rem, Clusters;
    ghost var g, q := fp.fs.geo, Quot(fp.fptr, SS);
    WritePosition(g, Fat(fp.fs), fp.fs.Logical(), fp.fs.winsect, fp.buf[..], fp.State());
    UntouchedReflexive(g, Fat(fp.fs), fp.fs.Logical(), fp.chain);
    QuotRem(q, g.csize);
    if csect == 0 {
      ghost var k := Quot(q, g.csize);
      var clst;
      if fp.fptr == 0 {
        clst := fp.sclust;
        if clst == 0 {
          clst := Stretch(fp, 0, 0);
        }
      } else {
        clst := Stretch(fp, fp.clust, k);
      }
      if clst < 2 {
        return clst;
      }
      ClustIsFree(fp, clst);
      fp.clust := clst;
    }
    return 2;
  }

  /** clust may be set to any value. */
  lemma ClustIsFree(fp: Fil, clst: nat)
    requires fp.Ready()
    ensures Based(fp.fs.geo, Fat(fp.fs), fp.fs.Logical(), fp.fs.winsect, fp.buf[..], fp.State().(clust := clst))
  {
    BaseCursor(fp.fs.geo, Fat(fp.fs), fp.fs.Logical(), fp.fs.winsect, fp.buf[..], fp.State(), clst, fp.fptr);
  }

  // ---- whole sectors

  /** f after data was written at its pointer. */
  ghost function Written(f: File, data: seq<Byte>): File
    requires f.fptr <= |f.content|
  {
    f.(content := Overwrite(f.content, f.fptr, data), fptr := f.fptr + |data|)
  }

  /** The file is at sector q, whose medium sector is sect, with cc sectors left in the cluster. */
  ghost predicate AtSectors(g: Geometry, f: File, sect: nat, cc: nat) {
    && g.csize > 0 && Clusters(g, f.chain)
    && Rem(f.fptr, SS) == 0 && f.fptr <= |f.content|
    && AtCluster(g, f, Quot(f.fptr, SS))
    && 0 < cc && Rem(Quot(f.fptr, SS), g.csize) + cc <= g.csize
    && Quot(f.fptr, SS) < |Sectors(g, f.chain)| && sect == Sectors(g, f.chain)[Quot(f.fptr, SS)]
  }

  lemma SectorRun(g: Geometry, t: Links, d: Disk, w: nat, b: Sector, f: File, sect: nat, cc: nat)
    requires Based(g, t, d, w, b, f) && AtSectors(g, f, sect, cc)
    ensures Contiguous(Sectors(g, f.chain), Quot(f.fptr, SS), sect, cc)
    ensures DataRun(g, w, sect, cc) && sect + cc <= |d|
    ensures forall s :: sect <= s < sect + cc ==> s in Sectors(g, f.chain)
  {
    BaseSectors(g, t, d, w, b, f);
    ClusterIsContiguous(g, f.chain, Quot(f.fptr, SS), cc);
    RunInData(g, Sectors(g, f.chain), Quot(f.fptr, SS), sect, cc, w);
    forall s | sect <= s < sect + cc
      ensures s in Sectors(g, f.chain)
    {
      RunHit(Sectors(g, f.chain), Quot(f.fptr, SS), sect, cc, s);
    }
  }

  lemma {:induction false} SectorsWritten(g: Geometry, t: Links, d: Disk, w: nat, b: Sector, f: File, sect: nat, cc: nat, data: seq<Byte>)
    requires Based(g, t, d, w, b, f) && AtSectors(g, f, sect, cc) && !f.dirty && |data| == cc * 512
    requires Contiguous(Sectors(g, f.chain), Quot(f.fptr, SS), sect, cc) && sect + cc <= |d|
    ensures Based(g, t, WriteSectors(d, sect, data, cc), w, Refill(b, f.dsect, sect, data, cc), Written(f, data))
  {
    BaseSectors(g, t, d, w, b, f);
    Split(f.fptr, 512);
    DirectWrite(Sectors(g, f.chain), d, b, f.dsect, f.content, Quot(f.fptr, SS), sect, cc, data);
  }

  lemma SectorsCursor(g: Geometry, f: File, sect: nat, cc: nat, data: seq<Byte>)
    requires AtSectors(g, f, sect, cc) && |data| == cc * 512
    ensures Cursor(g, Written(f, data))
  {
    CursorAfterSectors(g, f.(content := Overwrite(f.content, f.fptr, data)), cc);
  }

  lemma RunUntouched(g: Geometry, t: Links, d: Disk, ch: seq<nat>, sect: nat, cc: nat, data: seq<Byte>)
    requires Clusters(g, ch) && sect + cc <= |d| && cc * 512 <= |data|
    requires forall s :: sect <= s < sect + cc ==> s in Sectors(g, ch)
    ensures Untouched(g, t, d, t, WriteSectors(d, sect, data, cc), ch, ch)
  {
  }

  /** Write cc whole sectors directly, and refill the buffer if its sector was among them. */
  method PutSectors(fp: Fil, sect: nat, cc: nat, data: seq<Byte>)
    requires fp.Ready() && !fp.dirty && AtSectors(fp.fs.geo, fp.State(), sect, cc) && |data| == cc * 512
    modifies fp`dirty, fp`fptr, fp`content, fp.buf, fp.fs`disk
    ensures fp.Ready() && Cursor(fp.fs.geo, fp.State())
    ensures old(fp.fptr) <= |old(fp.content)| && fp.State() == Written(old(fp.State()), data)
    ensures Fat(fp.fs) == old(Fat(fp.fs)) && Clusters(fp.fs.geo, fp.chain)
    ensures Untouched(fp.fs.geo, old(Fat(fp.fs)), old(fp.fs.Logical()), Fat(fp.fs), fp.fs.Logical(), fp.chain, fp.chain)
  {
    hide Based, FatFs.Valid, FatFs.Logical, Fat, Untouched, Cursor, Quot, Rem, Clusters, Sectors, WriteSectors,
      Overwrite, AtSectors, AtCluster, Splice, Chunk;
    ghost var g, t, d, w, b, f := fp.fs.geo, Fat(fp.fs), fp.fs.Logical(), fp.fs.winsect, fp.buf[..], fp.State();
    PutEffect(g, t, d, w, b, f, sect, cc, data);
    DiskWrite(fp.fs, sect, data, cc);
    if sect <= fp.dsect < sect + cc {
      SpliceWhole(b, Chunk(data, fp.dsect - sect));
      CopyIn(fp, 0, Chunk(data, fp.dsect - sect));
      fp.dirty := false;
    }
    fp.content := Overwrite(fp.content, fp.fptr, data);
    fp.fptr := fp.fptr + SS * cc;
  }

  lemma PutEffect(g: Geometry, t: Links, d: Disk, w: nat, b: Sector, f: File, sect: nat, cc: nat, data: seq<Byte>)
    requires Based(g, t, d, w, b, f) && AtSectors(g, f, sect, cc) && !f.dirty && |data| == cc * 512
    ensures DataRun(g, w, sect, cc) && sect + cc <= |d|
    ensures f.fptr <= |f.content| && g.csize > 0 && Clusters(g, f.chain)
    ensures Based(g, t, WriteSectors(d, sect, data, cc), w, Refill(b, f.dsect, sect, data, cc), Written(f, data))
    ensures Cursor(g, Written(f, data))
    ensures Untouched(g, t, d, t, WriteSectors(d, sect, data, cc), f.chain, f.chain)
  {
    SectorRun(g, t, d, w, b, f, sect, cc);
    SectorsWritten(g, t, d, w, b, f, sect, cc, data);
    SectorsCursor(g, f, sect, cc, data);
    RunUntouched(g, t, d, f.chain, sect, cc, data);
  }

  lemma SpliceWhole(b: Sector, data: Sector)
    ensures Splice(b, 0, data) == data
  {
  }

  /** mem_cpy into the buffer */
  method CopyIn(fp: Fil, k: nat, data: seq<Byte>)
    requires fp.buf.Length == 512 && k + |data| <= 512
    modifies fp.buf
    ensures fp.buf[..] == Splice(old(fp.buf[..]), k, data)
  {
    forall i | k <= i < k + |data| {
      fp.buf[i] := data[i - k];
    }
  }

  // ---- part of a sector, through the buffer

  lemma BaseFresh(g: Geometry, t: Links, d: Disk, w: nat, b: Sector, f: File, q: nat)
    requires Based(g, t, d, w, b, f) && !f.dirty && Clusters(g, f.chain) && q < |Sectors(g, f.chain)|
    requires |f.content| <= q * 512
    ensures Based(g, t, d, w, b, f.(dsect := Sectors(g, f.chain)[q]))
  {
    BaseSectors(g, t, d, w, b, f);
    FreshKeeps(Sectors(g, f.chain), d, b, f.dsect, f.content, q);
  }

  /** Point the buffer at sector q; its old bytes are read only below the end of the file. */
  method LoadForWrite(fp: Fil, sect: nat, ghost q: nat)
    requires fp.Ready() && !fp.dirty && Clusters(fp.fs.geo, fp.chain)
    requires q < |Sectors(fp.fs.geo, fp.chain)| && sect == Sectors(fp.fs.geo, fp.chain)[q]
    requires fp.fptr >= fp.fsize ==> |fp.content| <= q * 512
    modifies fp`dsect, fp.buf
    ensures fp.Ready() && fp.State() == old(fp.State()).(dsect := sect)
    ensures fp.fs.Logical() == old(fp.fs.Logical()) && Fat(fp.fs) == old(Fat(fp.fs))
  {
    hide Based, FatFs.Valid, FatFs.Logical, Fat, Clusters, Sectors;
    if fp.dsect != sect {
      if fp.fptr < fp.fsize {
        ReadIntoBuffer(fp, sect, q);
      } else {
        BaseFresh(fp.fs.geo, Fat(fp.fs), fp.fs.Logical(), fp.fs.winsect, fp.buf[..], fp.State(), q);
      }
    }
    fp.dsect := sect;
  }

  lemma BytesWritten(g: Geometry, t: Links, d: Disk, w: nat, b: Sector, f: File, data: seq<Byte>)
    requires Based(g, t, d, w, b, f) && g.csize > 0 && Clusters(g, f.chain)
    requires 0 < |data| && Rem(f.fptr, SS) + |data| <= SS && f.fptr <= |f.content|
    requires AtCluster(g, f, Quot(f.fptr, SS)) && Buffered(g, f, Quot(f.fptr, SS))
    ensures Based(g, t, d, w, Splice(b, Rem(f.fptr, SS), data), Written(f, data).(dirty := true))
    ensures Cursor(g, Written(f, data).(dirty := true))
  {
    BaseSectors(g, t, d, w, b, f);
    Split(f.fptr, 512);
    BufferWrite(Sectors(g, f.chain), d, b, f.dirty, f.content, Quot(f.fptr, SS), Rem(f.fptr, SS), data);
    CursorInSector(g, f.(content := Overwrite(f.content, f.fptr, data), dirty := true), |data|);
  }

  method PutBytes(fp: Fil, data: seq<Byte>)
    requires fp.Ready() && Clusters(fp.fs.geo, fp.chain) && fp.fs.geo.csize > 0
    requires 0 < |data| && Rem(fp.fptr, SS) + |data| <= SS && fp.fptr <= |fp.content|
    requires AtCluster(fp.fs.geo, fp.State(), Quot(fp.fptr, SS)) && Buffered(fp.fs.geo, fp.State(), Quot(fp.fptr, SS))
    modifies fp`dirty, fp`fptr, fp`content, fp.buf
    ensures fp.Ready() && Cursor(fp.fs.geo, fp.State())
    ensures fp.State() == Written(old(fp.State()), data).(dirty := true)
    ensures fp.fs.Logical() == old(fp.fs.Logical()) && Fat(fp.fs) == old(Fat(fp.fs))
  {
    hide Based, FatFs.Valid, FatFs.Logical, Fat, Clusters, Sectors, Cursor, Quot, Rem, Splice, Overwrite, AtCluster, Buffered;
    BytesWritten(fp.fs.geo, Fat(fp.fs), fp.fs.Logical(), fp.fs.winsect, fp.buf[..], fp.State(), data);
    CopyIn(fp, Rem(fp.fptr, SS), data);
    fp.content := Overwrite(fp.content, fp.fptr, data);
    fp.fptr := fp.fptr + |data|;
    fp.dirty := true;
  }

  // ---- one round of the write loop

  /** The chain has no cluster beyond the one with the last byte: its length is the size divided by the cluster size, rounded up. */
  ghost predicate Tight(g: Geometry, f: File) {
    |f.chain| > 0 ==> Times(|f.chain| - 1, g.csize) * 512 < |f.content|
  }

  lemma TightKept(g: Geometry, f: File, ch2: seq<nat>, data: seq<Byte>)
    requires g.csize > 0 && Tight(g, f) && f.fptr <= |f.content| && |data| > 0
    requires |ch2| == |f.chain| ||
             (|ch2| == |f.chain| + 1 && Rem(f.fptr, SS) == 0 && Rem(Quot(f.fptr, SS), g.csize) == 0 && Quot(Quot(f.fptr, SS), g.csize) == |f.chain|)
    ensures Tight(g, Written(f, data).(chain := ch2))
  {
    if |ch2| == |f.chain| + 1 {
      Split(f.fptr, 512);
      QuotRem(Quot(f.fptr, SS), g.csize);
    }
  }

  /** The medium sector of the position, once clust is its cluster. */
  lemma SectorToWrite(g: Geometry, t: Links, d: Disk, w: nat, b: Sector, f: File)
    requires Based(g, t, d, w, b, f)
    requires g.csize > 0 && AtCluster(g, f, Quot(f.fptr, SS))
    ensures Clusters(g, f.chain) && Quot(f.fptr, SS) < |Sectors(g, f.chain)|
    ensures Clust2Sect(g, f.clust) + Rem(Quot(f.fptr, SS), g.csize) == Sectors(g, f.chain)[Quot(f.fptr, SS)]
    ensures Clust2Sect(g, f.clust) != 0
  {
    var q := Quot(f.fptr, SS);
    InsideChain(q, |f.chain|, g.csize);
    SectorOfCluster(g, f, q);
  }

  /** What f_write does on a sector boundary once clust is right; n = 0 when the buffer is to be used. */
  method TransferOut(fp: Fil, data: seq<Byte>, csect: nat) returns (n: nat)
    requires fp.Ready() && Rem(fp.fptr, SS) == 0 && fp.fptr <= |fp.content| && data != []
    requires fp.fptr >= fp.fsize ==> |fp.content| == fp.fptr
    requires fp.fs.geo.csize > 0 && AtCluster(fp.fs.geo, fp.State(), Quot(fp.fptr, SS))
    requires csect == Rem(Quot(fp.fptr, SS), fp.fs.geo.csize)
    modifies fp`dirty, fp`dsect, fp`fptr, fp`content, fp.buf, fp.fs`disk
    ensures fp.Ready() && n <= |data|
    ensures fp.State() == Written(old(fp.State()), data[..n]).(dsect := fp.dsect, dirty := fp.dirty)
    ensures if n == 0 then
              AtCluster(fp.fs.geo, fp.State(), Quot(fp.fptr, SS)) && Clusters(fp.fs.geo, fp.chain) && Buffered(fp.fs.geo, fp.State(), Quot(fp.fptr, SS))
            else Cursor(fp.fs.geo, fp.State())
    ensures Fat(fp.fs) == old(Fat(fp.fs)) && Clusters(fp.fs.geo, fp.chain)
    ensures Untouched(fp.fs.geo, old(Fat(fp.fs)), old(fp.fs.Logical()), Fat(fp.fs), fp.fs.Logical(), fp.chain, fp.chain)
  {
    hide Based, FatFs.Valid, FatFs.Logical, Fat, Clusters, Sectors, Cursor, Quot, Rem, Overwrite, Untouched, Geometry.ClusterBase;
    ghost var g, t, d, f := fp.fs.geo, Fat(fp.fs), fp.fs.Logical(), fp.State();
    ghost var q := Quot(fp.fptr, SS);
    Boundary(fp.fptr);
    FlushBuffer(fp);
    ghost var e := fp.fs.Logical();
    SectorToWrite(g, t, e, fp.fs.winsect, fp.buf[..], fp.State());
    var sect := Clust2Sect(fp.fs.geo, fp.clust) + csect;
    Split(|data|, 512);
    var cc := Quot(|data|, SS);
    if cc > 0 {
      if csect + cc > fp.fs.geo.csize {
        cc := fp.fs.geo.csize - csect;
      }
      n := SS * cc;
      PutSectors(fp, sect, cc, data[..n]);
      UntouchedTransitive(g, t, d, t, e, t, fp.fs.Logical(), f.chain, f.chain, f.chain);
    } else {
      n := 0;
      LoadForWrite(fp, sect, q);
      NothingWritten(f);
    }
  }

  lemma Boundary(p: nat)
    requires Rem(p, SS) == 0
    ensures p == 512 * Quot(p, SS)
  {
    Split(p, 512);
  }

  lemma NothingWritten(f: File)
    requires f.fptr <= |f.content|
    ensures Written(f, []) == f
  {
  }

  /** One round of f_write's loop: 0 disk full, 1 invalid FAT entry, otherwise n bytes were written. */
  method WriteRound(fp: Fil, data: seq<Byte>) returns (r: nat, n: nat)
    requires fp.Ready() && Cursor(fp.fs.geo, fp.State()) && fp.fptr <= |fp.content| && data != []
    requires fp.fptr >= fp.fsize ==> |fp.content| == fp.fptr
    modifies fp`clust, fp`sclust, fp`chain, fp`dirty, fp`dsect, fp`fptr, fp`content, fp.buf,
             fp.fs`disk, fp.fs`wflag, fp.fs`winsect, fp.fs.win, fp.fs`lastClust, fp.fs`freeClust, fp.fs`fsiDirty
    ensures fp.Ready() && Cursor(fp.fs.geo, fp.State()) && fp.fs.geo.csize > 0
    ensures if r < 2 then n == 0 && AtChainEnd(fp.fs.geo, fp.State()) else 0 < n <= |data|
    ensures r == 0 ==> forall c :: 2 <= c < fp.fs.geo.nFatent ==> Fat(fp.fs)[c] > 1
    ensures r == 1 ==> exists c :: 2 <= c < fp.fs.geo.nFatent && Fat(fp.fs)[c] == 1
    ensures n <= |data| && fp.fptr == old(fp.fptr) + n
    ensures fp.content == Overwrite(old(fp.content), old(fp.fptr), data[..n])
    ensures fp.fs.winsect == old(fp.fs.winsect) || fp.fs.geo.InFat(fp.fs.winsect)
    ensures old(Tight(fp.fs.geo, fp.State())) ==> Tight(fp.fs.geo, fp.State())
    ensures Clusters(fp.fs.geo, fp.chain) && Clusters(fp.fs.geo, old(fp.chain)) && old(fp.chain) <= fp.chain
    ensures Untouched(fp.fs.geo, old(Fat(fp.fs)), old(fp.fs.Logical()), Fat(fp.fs), fp.fs.Logical(), old(fp.chain), fp.chain)
    ensures old(FreeAccurate(fp.fs)) ==> FreeAccurate(fp.fs)
    ensures Noted(old(fp.fs.freeClust), old(fp.fs.fsiDirty), fp.fs.freeClust, fp.fs.fsiDirty)
  {
    hide Based, FatFs.Valid, FatFs.Logical, Fat, Clusters, Sectors, Cursor, Quot, Rem, Overwrite, Untouched, Tight, AtCluster, Buffered, Zeros;
    ghost var g, t, d, f := fp.fs.geo, Fat(fp.fs), fp.fs.Logical(), fp.State();
    BeforeRound(fp);
    NothingWritten(f);
    if Rem(fp.fptr, SS) == 0 {
      var csect := Rem(Quot(fp.fptr, SS), fp.fs.geo.csize);
      r := EnterCluster(fp, csect);
      if r < 2 {
        return r, 0;
      }
      ghost var u, e, f1 := Fat(fp.fs), fp.fs.Logical(), fp.State();
      n := TransferOut(fp, data, csect);
      UntouchedTransitive(g, t, d, u, e, Fat(fp.fs), fp.fs.Logical(), f.chain, f1.chain, f1.chain);
      if n > 0 {
        RoundTight(g, f, fp.State(), data[..n]);
        return 2, n;
      }
      NothingWritten(f1);
    } else {
      CursorInside(g, f);
    }
    n := PutRest(fp, data);
    RoundTight(g, f, fp.State(), data[..n]);
    r := 2;
  }

  /** The tail of the round: the rest of the buffered sector, or of the data. */
  method PutRest(fp: Fil, data: seq<Byte>) returns (n: nat)
    requires fp.Ready() && Clusters(fp.fs.geo, fp.chain) && fp.fs.geo.csize > 0
    requires data != [] && fp.fptr <= |fp.content|
    requires AtCluster(fp.fs.geo, fp.State(), Quot(fp.fptr, SS)) && Buffered(fp.fs.geo, fp.State(), Quot(fp.fptr, SS))
    modifies fp`dirty, fp`fptr, fp`content, fp.buf
    ensures fp.Ready() && Cursor(fp.fs.geo, fp.State()) && 0 < n <= |data|
    ensures fp.State() == Written(old(fp.State()), data[..n]).(dirty := true)
    ensures fp.fs.Logical() == old(fp.fs.Logical()) && Fat(fp.fs) == old(Fat(fp.fs))
  {
    hide Based, FatFs.Valid, FatFs.Logical, Fat, Clusters, Sectors, Cursor, Quot, Rem, Overwrite, AtCluster, Buffered;
    n := SS - Rem(fp.fptr, SS);
    if n > |data| {
      n := |data|;
    }
    PutBytes(fp, data[..n]);
  }

  lemma BeforeRound(fp: Fil)
    requires fp.Ready()
    ensures fp.fs.geo.csize > 0 && Clusters(fp.fs.geo, fp.chain)
    ensures Untouched(fp.fs.geo, Fat(fp.fs), fp.fs.Logical(), Fat(fp.fs), fp.fs.Logical(), fp.chain, fp.chain)
  {
    UntouchedReflexive(fp.fs.geo, Fat(fp.fs), fp.fs.Logical(), fp.chain);
  }

  lemma RoundTight(g: Geometry, f: File, f2: File, data: seq<Byte>)
    requires g.csize > 0 && f.fptr <= |f.content| && |data| > 0
    requires f2.content == Overwrite(f.content, f.fptr, data)
    requires |f2.chain| == |f.chain| ||
             (|f2.chain| == |f.chain| + 1 && Rem(f.fptr, SS) == 0 && Rem(Quot(f.fptr, SS), g.csize) == 0 && Quot(Quot(f.fptr, SS), g.csize) == |f.chain|)
    ensures Tight(g, f) ==> Tight(g, f2)
  {
    if Tight(g, f) {
      TightKept(g, f, f2.chain, data);
    }
  }

  lemma BeforeWrite(fp: Fil)
    requires fp.Valid()
    ensures Clusters(fp.fs.geo, fp.chain) && fp.fs.geo.Valid() && fp.fs.geo.csize > 0
    ensures Cursor(fp.fs.geo, fp.State()) && fp.fptr <= fp.fsize == |fp.content| < 0x1_0000_0000
    ensures Untouched(fp.fs.geo, Fat(fp.fs), fp.fs.Logical(), Fat(fp.fs), fp.fs.Logical(), fp.chain, fp.chain)
  {
    UntouchedReflexive(fp.fs.geo, Fat(fp.fs), fp.fs.Logical(), fp.chain);
  }

  lemma OverwriteNothing(content: Content, p: nat)
    requires p <= |content|
    ensures Overwrite(content, p, []) == content
  {
  }

  /** The loop of f_write: all of data unless the disk fills up or the FAT is found invalid. */
  method WriteAll(fp: Fil, data: seq<Byte>) returns (r: nat, bw: nat)
    requires fp.Valid()
    modifies fp`clust, fp`sclust, fp`chain, fp`dirty, fp`dsect, fp`fptr, fp`content, fp.buf,
             fp.fs`disk, fp.fs`wflag, fp.fs`winsect, fp.fs.win, fp.fs`lastClust, fp.fs`freeClust, fp.fs`fsiDirty
    ensures fp.Ready() && Cursor(fp.fs.geo, fp.State()) && fp.fs.geo.csize > 0
    ensures bw <= |data| && fp.fptr == old(fp.fptr) + bw
    ensures old(fp.fptr) <= |old(fp.content)| && fp.content == Overwrite(old(fp.content), old(fp.fptr), data[..bw])
    ensures if r >= 2 then bw == |data| else bw < |data| && AtChainEnd(fp.fs.geo, fp.State())
    ensures r == 0 ==> forall c :: 2 <= c < fp.fs.geo.nFatent ==> Fat(fp.fs)[c] > 1
    ensures r == 1 ==> exists c :: 2 <= c < fp.fs.geo.nFatent && Fat(fp.fs)[c] == 1
    ensures fp.fs.winsect == old(fp.fs.winsect) || fp.fs.geo.InFat(fp.fs.winsect)
    ensures old(Tight(fp.fs.geo, fp.State())) ==> Tight(fp.fs.geo, fp.State())
    ensures Clusters(fp.fs.geo, fp.chain) && Clusters(fp.fs.geo, old(fp.chain)) && old(fp.chain) <= fp.chain
    ensures Untouched(fp.fs.geo, old(Fat(fp.fs)), old(fp.fs.Logical()), Fat(fp.fs), fp.fs.Logical(), old(fp.chain), fp.chain)
    ensures old(FreeAccurate(fp.fs)) ==> FreeAccurate(fp.fs)
    ensures Noted(old(fp.fs.freeClust), old(fp.fs.fsiDirty), fp.fs.freeClust, fp.fs.fsiDirty)
  {
    hide Based, FatFs.Valid, FatFs.Logical, Fat, Clusters, Sectors, Cursor, Quot, Rem, Overwrite, Untouched, Tight, FreeAccurate;
    BeforeWrite(fp);
    ghost var g, t, d, c0, ch0 := fp.fs.geo, Fat(fp.fs), fp.fs.Logical(), fp.content, fp.chain;
    bw := 0;
    r := 2;
    OverwriteNothing(c0, fp.fptr);
    assert data[..0] == [];
    while bw < |data|
      invariant fp.Ready() && Clusters(g, fp.chain) && Cursor(g, fp.State()) && r >= 2
      invariant bw <= |data| && fp.fptr == old(fp.fptr) + bw
      invariant fp.content == Overwrite(c0, old(fp.fptr), data[..bw])
      invariant |fp.content| == if fp.fptr > fp.fsize then fp.fptr else fp.fsize
      invariant fp.fs.winsect == old(fp.fs.winsect) || g.InFat(fp.fs.winsect)
      invariant old(Tight(g, fp.State())) ==> Tight(g, fp.State())
      invariant Clusters(g, fp.chain) && ch0 <= fp.chain
      invariant Untouched(g, t, d, Fat(fp.fs), fp.fs.Logical(), ch0, fp.chain)
      invariant old(FreeAccurate(fp.fs)) ==> FreeAccurate(fp.fs)
      invariant Noted(old(fp.fs.freeClust), old(fp.fs.fsiDirty), fp.fs.freeClust, fp.fs.fsiDirty)
    {
      ghost var u, e, ch, p := Fat(fp.fs), fp.fs.Logical(), fp.chain, fp.fptr;
      var n;
      r, n := WriteRound(fp, data[bw..]);
      UntouchedTransitive(g, t, d, u, e, Fat(fp.fs), fp.fs.Logical(), ch0, ch, fp.chain);
      WroteMore(c0, old(fp.fptr), data, bw, n);
      bw := bw + n;
      if r < 2 {
        return;
      }
    }
  }

  lemma WroteMore(c0: Content, p: nat, data: seq<Byte>, bw: nat, n: nat)
    requires p <= |c0| && bw + n <= |data|
    ensures p + bw <= |Overwrite(c0, p, data[..bw])|
    ensures Overwrite(Overwrite(c0, p, data[..bw]), p + bw, data[bw..][..n]) == Overwrite(c0, p, data[..bw + n])
    ensures |Overwrite(c0, p, data[..bw + n])| == if p + bw + n > |c0| then p + bw + n else |c0|
  {
    OverwriteTwice(c0, p, data[..bw], data[bw..][..n]);
    assert data[..bw] + data[bw..][..n] == data[..bw + n];
  }

  /** A DWORD sum is below its first operand exactly when it wrapped. */
  lemma WrapTest(p: nat, n: nat)
    requires p < 0x1_0000_0000 && n < 0x1_0000_0000
    ensures U32(p + n) < p <==> p + n >= 0x1_0000_0000
  {
    if p + n >= 0x1_0000_0000 {
      assert U32(p + n) == U32(p + n - 0x1_0000_0000);
    }
  }

  method FWrite(fp: Fil, data: seq<Byte>) returns (res: FResult, bw: nat)
    requires fp.Valid() && |data| < 0x1_0000_0000 // UINT btw
    modifies fp`clust, fp`sclust, fp`chain, fp`dirty, fp`dsect, fp`fptr, fp`content, fp`fsize, fp`written, fp`err, fp.buf,
             fp.fs`disk, fp.fs`wflag, fp.fs`winsect, fp.fs.win, fp.fs`lastClust, fp.fs`freeClust, fp.fs`fsiDirty
    ensures fp.Ready()
    ensures old(fp.err) != FrOk || !fp.canWrite ==>
              && res == (if old(fp.err) != FrOk then old(fp.err) else FrDenied) && bw == 0
              && fp.State() == old(fp.State()) && fp.fsize == old(fp.fsize) && fp.written == old(fp.written)
              && Fat(fp.fs) == old(Fat(fp.fs)) && fp.fs.Logical() == old(fp.fs.Logical())
    ensures bw <= |data| && fp.fptr == old(fp.fptr) + bw
    ensures old(fp.fptr) <= |old(fp.content)| && fp.content == Overwrite(old(fp.content), old(fp.fptr), data[..bw])
    ensures old(fp.err) == FrOk && fp.canWrite ==> res == FrOk || res == FrIntErr
    ensures old(fp.err) == FrOk && fp.canWrite && res == FrOk ==>
              && fp.Valid() && fp.err == FrOk && fp.written
              && (bw == |data| || (bw == 0 && old(fp.fptr) + |data| >= 0x1_0000_0000)
                  || (AtChainEnd(fp.fs.geo, fp.State()) && forall c :: 2 <= c < fp.fs.geo.nFatent ==> Fat(fp.fs)[c] > 1))
    ensures old(fp.err) == FrOk && fp.canWrite && res == FrIntErr ==>
              fp.err == FrIntErr && exists c :: 2 <= c < fp.fs.geo.nFatent && Fat(fp.fs)[c] == 1
    ensures fp.fs.winsect == old(fp.fs.winsect) || fp.fs.geo.InFat(fp.fs.winsect)
    ensures old(Tight(fp.fs.geo, fp.State())) ==> Tight(fp.fs.geo, fp.State())
    ensures Clusters(fp.fs.geo, fp.chain) && Clusters(fp.fs.geo, old(fp.chain)) && old(fp.chain) <= fp.chain
    ensures Untouched(fp.fs.geo, old(Fat(fp.fs)), old(fp.fs.Logical()), Fat(fp.fs), fp.fs.Logical(), old(fp.chain), fp.chain)
    ensures old(FreeAccurate(fp.fs)) ==> FreeAccurate(fp.fs)
    ensures Noted(old(fp.fs.freeClust), old(fp.fs.fsiDirty), fp.fs.freeClust, fp.fs.fsiDirty)
    ensures old(InfoCurrent(fp.fs)) ==> InfoCurrent(fp.fs)
  {
    hide InfoHeld, Based, FatFs.Valid, FatFs.Logical, Fat, Clusters, Sectors, Cursor, Quot, Rem, Overwrite, Untouched, Tight, FreeAccurate;
    BeforeWrite(fp);
    ghost var g, t, d, ch := fp.fs.geo, Fat(fp.fs), fp.fs.Logical(), fp.chain;
    OverwriteNothing(fp.content, fp.fptr);
    if fp.err != FrOk {
      return fp.err, 0;
    }
    if !fp.canWrite {
      return FrDenied, 0;
    }
    var btw := data;
    WrapTest(fp.fptr, |btw|);
    if U32(fp.fptr + |btw|) < fp.fptr {
      btw := []; // the file size cannot reach 4 GB
    }
    var r;
    r, bw := WriteAll(fp, btw);
    assert btw[..bw] == data[..bw];
    InfoKeptByFile(g, t, d, Fat(fp.fs), fp.fs.Logical(), ch, fp.chain, fp.fs.fsiEnabled, old(fp.fs.freeClust), old(fp.fs.fsiDirty), fp.fs.freeClust, fp.fs.fsiDirty);
    if r == 1 {
      fp.err := FrIntErr;
      return FrIntErr, bw;
    }
    if fp.fptr > fp.fsize {
      fp.fsize := fp.fptr;
    }
    fp.written := true;
    return FrOk, bw;
  }
}
