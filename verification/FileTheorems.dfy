/** What the file operations mean together: other files, the set of chains, reading back, reopening. */
module FileTheorems {
  import opened Arith
  import opened Bytes
  import opened Layout
  import opened Window
  import opened FatTable
  import opened Chains
  import opened ChainOps
  import opened FileView
  import opened FileState
  import opened FilObject
  import opened FileRead
  import opened FileWrite
  import opened FileSeek
  import opened FileSync

  /** Chains that share no cluster before an operation share none after it. */
  lemma StaysApart(g: Geometry, t: Links, d: Disk, t2: Links, d2: Disk, ch: seq<nat>, ch2: seq<nat>, o: seq<nat>)
    requires Clusters(g, ch) && Clusters(g, ch2) && Clusters(g, o) && |t| == g.nFatent
    requires Untouched(g, t, d, t2, d2, ch, ch2) && (o != [] ==> IsChain(t, o))
    requires forall c :: c in o ==> c !in ch
    ensures forall c :: c in o ==> c !in ch2 && c < |t| && t2[c] == t[c]
  {
    forall c | c in o
      ensures c !in ch2
    {
      TakenClusters(t, o, c);
    }
  }

  /**
   * A read, write, seek or truncate of one file leaves every other open file as it
   * was: same chain, same buffer, same content.
   */
  lemma OtherFileUnchanged(g: Geometry, t: Links, d: Disk, w: nat, t2: Links, d2: Disk, w2: nat,
                           ch: seq<nat>, ch2: seq<nat>, b: Sector, o: File)
    requires Clusters(g, ch) && Clusters(g, ch2) && Untouched(g, t, d, t2, d2, ch, ch2)
    requires w2 == w || g.InFat(w2)
    requires Based(g, t, d, w, b, o) && forall c :: c in o.chain ==> c !in ch
    ensures Based(g, t2, d2, w2, b, o) && forall c :: c in o.chain ==> c !in ch2
  {
    BaseSectors(g, t, d, w, b, o);
    StaysApart(g, t, d, t2, d2, ch, ch2, o.chain);
    SectorsApart(g, o.chain, ch);
    SectorsApart(g, o.chain, ch2);
    OtherView(g, d, d2, ch, ch2, b, o);
    if o.chain != [] {
      UntouchedChain(t, t2, o.chain);
    }
    if g.InFat(w2) {
      BaseWindow(g, t, d, w, w2, b, o);
    }
  }

  lemma {:induction false} OtherView(g: Geometry, d: Disk, d2: Disk, ch: seq<nat>, ch2: seq<nat>, b: Sector, o: File)
    requires g.Valid() && Clusters(g, ch) && Clusters(g, ch2) && Clusters(g, o.chain) && |d2| == |d|
    requires forall s :: s in Sectors(g, o.chain) ==> s !in Sectors(g, ch) && s !in Sectors(g, ch2)
    requires forall s: nat {:trigger d[s]} {:trigger d2[s]} ::
               s < |d| && !(g.fatbase <= s < g.fatbase + g.FatArea()) && s !in Sectors(g, ch) && s !in Sectors(g, ch2) ==> d2[s] == d[s]
    requires Overlay(Sectors(g, o.chain), d, b, o.dsect, o.dirty, o.content)
    ensures Overlay(Sectors(g, o.chain), d2, b, o.dsect, o.dirty, o.content)
  {
    var secs := Sectors(g, o.chain);
    forall q | 0 <= q < |secs|
      ensures Held(secs[q], d2, b, o.dsect, o.dirty, o.content, q)
    {
      assert Held(secs[q], d, b, o.dsect, o.dirty, o.content, q);
      SectorInCluster(g, o.chain, q);
      assert secs[q] in secs;
    }
  }

  /** The same for a file that is not open: what its directory entry and chain say stays. */
  lemma ClosedFileUnchanged(g: Geometry, t: Links, d: Disk, t2: Links, d2: Disk, ch: seq<nat>, ch2: seq<nat>,
                            sect: nat, k: nat, o: seq<nat>, content: Content)
    requires Clusters(g, ch) && Clusters(g, ch2) && Holds(g, d) && Holds(g, d2)
    requires t == Table(g, d) && t2 == Table(g, d2) && Untouched(g, t, d, t2, d2, ch, ch2)
    requires OnMedium(g, d, sect, k, o, content) && forall c :: c in o ==> c !in ch
    requires DirPlaced(g, t, sect, ch)
    ensures OnMedium(g, d2, sect, k, o, content)
  {
    StaysApart(g, t, d, t2, d2, ch, ch2, o);
    DirStaysPlaced(g, t, d, t2, d2, sect, ch, ch2);
    EntrySector(g, t, sect, ch);
    EntrySector(g, t2, sect, ch2);
    if o != [] {
      UntouchedChain(t, t2, o);
    }
    SectorsApart(g, o, ch);
    SectorsApart(g, o, ch2);
    forall i | 0 <= i < |content| && content[i].Some?
      ensures StoredByte(g, d2, o, i) == content[i]
    {
      assert StoredByte(g, d, o, i) == content[i];
      Split(i, 512);
      SectorInCluster(g, o, Quot(i, SS));
      assert Sectors(g, o)[Quot(i, SS)] in Sectors(g, o);
    }
  }

  /** The sectors of a list that shares no cluster with ch are none that a sync of the file on ch rewrites. */
  lemma SyncKeepsSectors(g: Geometry, d: Disk, e: Disk, ch: seq<nat>, sect: nat, k: nat, info: bool, o: seq<nat>)
    requires g.Valid() && g.VolumeEnd() <= |d| && Clusters(g, ch) && Clusters(g, o)
    requires KeptExcept(g, d, e, Sectors(g, ch), sect, k, info) && (info ==> FsInfoReserved(g))
    requires (forall c :: c in o ==> c !in ch) && sect !in Sectors(g, o)
    ensures |e| == |d| && forall q {:trigger Sectors(g, o)[q]} :: 0 <= q < |Sectors(g, o)| ==>
              g.database <= Sectors(g, o)[q] < |d| && e[Sectors(g, o)[q]] == d[Sectors(g, o)[q]]
  {
    SectorsApart(g, o, ch);
    forall q | 0 <= q < |Sectors(g, o)|
      ensures g.database <= Sectors(g, o)[q] < |d| && e[Sectors(g, o)[q]] == d[Sectors(g, o)[q]]
    {
      SectorInCluster(g, o, q);
      assert Sectors(g, o)[q] in Sectors(g, o);
    }
  }

  /** A sync of one file leaves every other open file as it was, wherever the window ends up. */
  lemma OtherFileSynced(g: Geometry, t: Links, d: Disk, w: nat, e: Disk, w2: nat, ch: seq<nat>, sect: nat, k: nat, info: bool, b: Sector, o: File)
    requires Clusters(g, ch) && KeptExcept(g, d, e, Sectors(g, ch), sect, k, info) && (info ==> FsInfoReserved(g))
    requires Based(g, t, d, w, b, o) && (forall c :: c in o.chain ==> c !in ch)
    requires Clusters(g, o.chain) && sect !in Sectors(g, o.chain)
    requires w2 == w || w2 == sect || (info && w2 == g.volbase + 1)
    ensures Based(g, t, e, w2, b, o)
  {
    BaseSectors(g, t, d, w, b, o);
    SyncKeepsSectors(g, d, e, ch, sect, k, info, o.chain);
    forall q | 0 <= q < |Sectors(g, o.chain)|
      ensures Sectors(g, o.chain)[q] != w2
    {
      assert Sectors(g, o.chain)[q] in Sectors(g, o.chain);
    }
    BaseElsewhere(g, t, d, e, w, w2, b, o);
  }

  /** What a directory entry says depends on its 32 bytes only. */
  lemma SameEntry(g: Geometry, s: Sector, r: Sector, k: nat)
    requires k + 32 <= 512 && forall j :: k <= j < k + 32 ==> s[j] == r[j]
    ensures LdDword(s, k + DIR_FileSize) == LdDword(r, k + DIR_FileSize) && LdClust(g, s, k) == LdClust(g, r, k)
  {
    hide LdLe;
    LdLeSame(s, r, k + DIR_FileSize, 4);
    LdLeSame(s, r, k + DIR_FstClusLO, 2);
    LdLeSame(s, r, k + DIR_FstClusHI, 2);
  }

  /** And so it does for a file that is not open, whose entry may lie in the same sector. */
  lemma ClosedFileSynced(g: Geometry, d: Disk, e: Disk, ch: seq<nat>, sect: nat, k: nat, info: bool,
                         sect2: nat, k2: nat, o: seq<nat>, content: Content)
    requires Clusters(g, ch) && Holds(g, d) && Holds(g, e) && Table(g, e) == Table(g, d)
    requires KeptExcept(g, d, e, Sectors(g, ch), sect, k, info) && (info ==> FsInfoReserved(g)) && DirPlaced(g, Table(g, d), sect, ch)
    requires OnMedium(g, d, sect2, k2, o, content) && DirPlaced(g, Table(g, d), sect2, ch)
    requires (forall c :: c in o ==> c !in ch) && sect !in Sectors(g, o)
    requires sect2 == sect ==> k2 + 32 <= k || k + 32 <= k2
    ensures OnMedium(g, e, sect2, k2, o, content)
  {
    hide LdLe, LdClust, LdWord, Table;
    SyncKeepsSectors(g, d, e, ch, sect, k, info, o);
    EntrySector(g, Table(g, d), sect, ch);
    EntrySector(g, Table(g, d), sect2, ch);
    SameEntry(g, d[sect2], e[sect2], k2);
    forall i | 0 <= i < |content| && content[i].Some?
      ensures StoredByte(g, e, o, i) == content[i]
    {
      assert StoredByte(g, d, o, i) == content[i];
      Split(i, 512);
      assert e[Sectors(g, o)[Quot(i, SS)]] == d[Sectors(g, o)[Quot(i, SS)]];
    }
  }

  /** The chains of all files stay a set of disjoint end-marked lists under every file operation. */
  lemma FileOperationKeepsChains(g: Geometry, t: Links, d: Disk, t2: Links, d2: Disk, cs: set<seq<nat>>, ch: seq<nat>, ch2: seq<nat>)
    requires Clusters(g, ch) && Clusters(g, ch2) && |t| == g.nFatent && Untouched(g, t, d, t2, d2, ch, ch2)
    requires ChainSet(t, cs) && (ch in cs || ch == []) && (ch2 != [] ==> IsChain(t2, ch2))
    ensures ChainSet(t2, cs - {ch} + (if ch2 == [] then {} else {ch2}))
  {
    forall o | o in cs - {ch}
      ensures IsChain(t2, o) && forall c :: c in o ==> c !in ch2
    {
      assert Clusters(g, o);
      assert forall c :: c in o ==> c !in ch;
      StaysApart(g, t, d, t2, d2, ch, ch2, o);
      UntouchedChain(t, t2, o);
    }
  }

  /** Reopening a synchronised file from the medium gives the content back wherever it is specified. */
  lemma ReopenedContent(g: Geometry, d: Disk, sect: nat, k: nat, ch: seq<nat>, content: Content)
    requires OnMedium(g, d, sect, k, ch, content)
    ensures var again := Stored(g, d, ch, LdDword(d[sect], k + DIR_FileSize));
            |again| == |content| && forall i :: 0 <= i < |content| && content[i].Some? ==> again[i] == content[i]
  {
  }

  /** FSINFO can be in use, and does not lie on the FAT. */
  predicate InfoUsable(fs: FatFs)
    reads fs
  {
    fs.fsiEnabled ==> fs.geo.fatType == Fat32 && FsInfoReserved(fs.geo)
  }

  /** A new mount of a medium that nothing is due for takes the counts over. */
  method MountAgain(fs: FatFs) returns (again: FatFs)
    requires fs.Valid() && fs.disk == fs.Logical() && InfoUsable(fs) && InfoCurrent(fs) && !WritesFsInfo(fs)
    ensures fresh(again) && fresh(again.win) && again.Valid() && again.geo == fs.geo && Fat(again) == Fat(fs)
    ensures again.disk == again.Logical() == fs.disk && InfoCurrent(again)
    ensures again.freeClust == if fs.fsiEnabled then fs.freeClust else 0xFFFF_FFFF
    ensures FreeAccurate(fs) ==> FreeAccurate(again)
    ensures fs.fsiEnabled && fs.geo.volbase + 1 < |fs.disk| && FsInfoOf(fs.disk[fs.geo.volbase + 1]).Some? ==>
              again.lastClust == FsInfoOf(fs.disk[fs.geo.volbase + 1]).value.1
  {
    hide FatFs.Logical, FsInfoOf, Zeros, Table;
    FatIsTable(fs);
    again := new FatFs(fs.geo, fs.disk, fs.fsiEnabled);
    FatIsTable(again);
  }

  /**
   * Flushing and mounting again, without asking what was due: whatever has kept FSINFO
   * current, the mount knows the free count again, and exactly.
   */
  method Remount(fs: FatFs) returns (again: FatFs)
    requires fs.Valid() && InfoUsable(fs) && InfoCurrent(fs)
    modifies fs`disk, fs`wflag, fs`winsect, fs.win, fs`fsiDirty
    ensures fresh(again) && again.Valid() && again.geo == fs.geo && Fat(again) == old(Fat(fs))
    ensures again.disk == again.Logical() == fs.disk && InfoCurrent(again)
    ensures again.freeClust == if fs.fsiEnabled then fs.freeClust else 0xFFFF_FFFF
    ensures old(FreeAccurate(fs)) ==> FreeAccurate(again)
    ensures old(WritesFsInfo(fs)) ==> again.lastClust == fs.lastClust
  {
    hide FatFs.Valid, FatFs.Logical, FsInfoSector, FsInfoOf, Zeros, Fat, InfoHeld;
    FsInfoReadsBack(fs.freeClust, fs.lastClust);
    SyncFs(fs);
    again := MountAgain(fs);
  }

  /** A file is written, synchronised, and the volume mounted again: the free count is the number of free clusters, or unknown. */
  method WriteSyncRemount(fp: Fil, data: seq<Byte>, tm: nat) returns (res: FResult, bw: nat, again: FatFs)
    requires fp.Valid() && fp.err == FrOk && fp.canWrite && |data| < 0x1_0000_0000 && fp.dirOfs + 32 <= 512
    requires DirPlaced(fp.fs.geo, Fat(fp.fs), fp.dirSect, fp.chain)
    requires InfoUsable(fp.fs) && InfoCurrent(fp.fs) && FreeAccurate(fp.fs)
    modifies fp`clust, fp`sclust, fp`chain, fp`fptr, fp`dsect, fp`dirty, fp`content, fp`fsize, fp`written, fp`err, fp.buf,
             fp.fs`disk, fp.fs`wflag, fp.fs`winsect, fp.fs.win, fp.fs`lastClust, fp.fs`freeClust, fp.fs`fsiDirty
    ensures again.Valid() && again.geo == fp.fs.geo
    ensures res == FrOk ==>
              && again.disk == fp.fs.disk && FreeAccurate(again) && InfoCurrent(again)
              && again.freeClust == (if fp.fs.fsiEnabled then fp.fs.freeClust else 0xFFFF_FFFF)
              && bw <= |data| && OnMedium(again.geo, again.disk, fp.dirSect, fp.dirOfs, fp.chain, fp.content)
              && old(fp.fptr) <= |old(fp.content)| && fp.content == Overwrite(old(fp.content), old(fp.fptr), data[..bw])
  {
    hide InfoHeld, Based, FatFs.Valid, FatFs.Logical, Fat, Clusters, Untouched, Zeros, Cursor, Tight, Overwrite, DirPlaced, OnMedium, EntryRewritten, KeptExcept;
    again := fp.fs;
    ghost var g, t, d, ch := fp.fs.geo, Fat(fp.fs), fp.fs.Logical(), fp.chain;
    res, bw := FWrite(fp, data);
    if res != FrOk {
      return;
    }
    DirStaysPlaced(g, t, d, Fat(fp.fs), fp.fs.Logical(), fp.dirSect, ch, fp.chain);
    res := FSync(fp, tm);
    again := MountAgain(fp.fs);
  }

  /** Writing, seeking back and reading returns the written bytes, even when the disk filled up on the way. */
  method WriteThenRead(fp: Fil, data: seq<Byte>) returns (res: FResult, got: seq<Byte>, bw: nat)
    requires fp.Valid() && fp.err == FrOk && fp.canRead && fp.canWrite && |data| < 0x1_0000_0000
    modifies fp`clust, fp`sclust, fp`chain, fp`fptr, fp`dsect, fp`dirty, fp`content, fp`fsize, fp`written, fp`err, fp.buf,
             fp.fs`disk, fp.fs`wflag, fp.fs`winsect, fp.fs.win, fp.fs`lastClust, fp.fs`freeClust, fp.fs`fsiDirty
    ensures bw <= |data| && fp.Ready()
    ensures res == FrOk ==> fp.Valid() && got == data[..bw] && fp.fptr == old(fp.fptr) + bw
    ensures res != FrOk ==> fp.err == FrIntErr && exists c :: 2 <= c < fp.fs.geo.nFatent && Fat(fp.fs)[c] == 1
  {
    hide Based, FatFs.Valid, FatFs.Logical, Fat, Clusters, Untouched, Zeros, Cursor, Tight, FreeAccurate, Agrees, Overwrite, GapTo;
    got := [];
    var p := fp.fptr;
    res, bw := FWrite(fp, data);
    if res != FrOk {
      return;
    }
    ghost var c0 := old(fp.content);
    res := FLseek(fp, p);
    res, got := FRead(fp, bw);
    ReadsBack(c0, p, data[..bw], got);
  }

  lemma ReadsBack(content: Content, p: nat, data: seq<Byte>, got: seq<Byte>)
    requires p <= |content| && |got| == |data|
    requires Agrees(got, Overwrite(content, p, data), p)
    ensures got == data
  {
    forall i | 0 <= i < |data|
      ensures got[i] == data[i]
    {
      assert Overwrite(content, p, data)[p + i] == Some(data[i]);
    }
  }
}
