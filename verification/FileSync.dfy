/** sync_fs and f_sync: afterwards the medium alone holds the file. */
module FileSync {
  import opened Arith
  import opened Bytes
  import opened Layout
  import opened BootSector
  import opened Window
  import opened FatTable
  import opened Chains
  import opened ChainOps
  import opened FileView
  import opened FileState
  import opened DiskIO
  import opened FilObject
  import opened FileRead
  import opened FileGrow
  import opened FileWrite

  // ---- sync_fs

  /** The fields sync_fs stores in the sector it has cleared. */
  function FsInfoFields(free: Dword, last: Dword): seq<Field> {
    [Field(FSI_55AA, 0xAA55, 2), Field(FSI_LeadSig, 0x41615252, 4), Field(FSI_StrucSig, 0x61417272, 4),
     Field(FSI_Free_Count, free, 4), Field(FSI_Nxt_Free, last, 4)]
  }

  lemma FsInfoFieldsFit(free: Dword, last: Dword)
    ensures forall i :: 0 <= i < |FsInfoFields(free, last)| ==> FieldFits(FsInfoFields(free, last)[i])
  {
    Powers256();
  }

  /** The sector sync_fs writes. */
  function FsInfoSector(free: Dword, last: Dword): Sector {
    FsInfoFieldsFit(free, last);
    WithFields(FsInfoFields(free, last))
  }

  /** What the mount loads from it are the counts that were stored. */
  lemma FsInfoReadsBack(free: Dword, last: Dword)
    ensures FsInfoOf(FsInfoSector(free, last)) == Some((free, last))
  {
    hide WithFields, LdLe, FieldFits;
    FsInfoFieldsFit(free, last);
    var fs, s := FsInfoFields(free, last), FsInfoSector(free, last);
    forall i | 0 <= i < |fs|
      ensures LdLe(s, fs[i].at, fs[i].n) == fs[i].v
    {
      FieldReads(fs, i);
    }
    assert LdLe(s, fs[0].at, fs[0].n) == 0xAA55;
    assert LdLe(s, fs[1].at, fs[1].n) == 0x41615252;
    assert LdLe(s, fs[2].at, fs[2].n) == 0x61417272;
    assert LdLe(s, fs[3].at, fs[3].n) == free;
    assert LdLe(s, fs[4].at, fs[4].n) == last;
  }

  /** Whether sync_fs rewrites FSINFO. */
  predicate WritesFsInfo(fs: FatFs)
    reads fs
  {
    fs.geo.fatType == Fat32 && fs.fsiEnabled && fs.fsiDirty
  }

  /** FSINFO does not lie on the FAT, or is not written. The mount checks neither. */
  predicate SyncSafe(fs: FatFs)
    reads fs
  {
    WritesFsInfo(fs) ==> FsInfoReserved(fs.geo)
  }

  lemma FsInfoWritten(g: Geometry, mounted: Disk, d: Disk, v: Sector)
    requires Holds(g, d) && |mounted| == |d| && FsInfoReserved(g)
    ensures g.volbase + 1 < |d|
    ensures Table(g, d[g.volbase + 1 := v]) == Table(g, d)
    ensures Mirrored(g, mounted, d) ==> Mirrored(g, mounted, d[g.volbase + 1 := v])
  {
    var e := d[g.volbase + 1 := v];
    SameFatSameTable(g, d, e);
    if Mirrored(g, mounted, d) && g.nFats == 2 {
      forall f: nat | g.InFat(f)
        ensures SameCopy(g, mounted, e, f)
      {
        assert SameCopy(g, mounted, d, f);
      }
    }
  }

  /** The FSINFO sector is all zeros apart from the signatures and the counts. */
  lemma FsInfoZeros(free: Dword, last: Dword, j: nat)
    requires 4 <= j < 484 || 496 <= j < 510
    ensures FsInfoSector(free, last)[j] == 0
  {
    hide WithFields, FieldFits;
    FsInfoFieldsFit(free, last);
    FieldsElsewhere(FsInfoFields(free, last), j);
  }

  /** Entries 2 to 120 of a FAT32 whose first sector is replaced by FSINFO become free. */
  lemma FsInfoFrees(g: Geometry, d: Disk, free: Dword, last: Dword, c: nat)
    requires Holds(g, d) && g.fatType == Fat32 && !FsInfoReserved(g) && 2 <= c < 121 && c < g.nFatent
    ensures g.volbase + 1 < |d| && Table(g, d[g.volbase + 1 := FsInfoSector(free, last)])[c] == 0
  {
    hide FsInfoSector;
    FsInfoInside(g, d);
    var v := FsInfoSector(free, last);
    var e := d[g.volbase + 1 := v];
    assert g.EntryInside(c);
    Join(c, SS / 4, 0, c);
    Join(c * 4, SS, 0, c * 4);
    forall j | c * 4 <= j < c * 4 + 4
      ensures v[j] == 0
    {
      FsInfoZeros(free, last, j);
    }
    ZeroDword(v, c * 4);
    assert Entry(g, e, c) == Rem(LdDword(v, c * 4), 0x1000_0000);
  }

  lemma ZeroDword(s: Sector, k: nat)
    requires k + 4 <= 512 && s[k] == 0 && s[k + 1] == 0 && s[k + 2] == 0 && s[k + 3] == 0
    ensures LdDword(s, k) == 0
  {
    assert LdLe(s, k + 2, 2) == 0;
  }

  /** Clusters 2 to 120 are free. */
  ghost predicate LowFree(t: Links) {
    forall c :: 2 <= c < 121 && c < |t| ==> t[c] == 0
  }

  /** On a volume in use sync_fs keeps the FAT exactly when FSINFO does not lie on it. */
  lemma FsInfoKeepsFatIff(g: Geometry, d: Disk, free: Dword, last: Dword, c: nat)
    requires Holds(g, d) && g.fatType == Fat32 && 2 <= c < 121 && c < g.nFatent && Table(g, d)[c] != 0
    ensures g.volbase + 1 < |d|
    ensures Table(g, d[g.volbase + 1 := FsInfoSector(free, last)]) == Table(g, d) <==> FsInfoReserved(g)
  {
    hide FsInfoSector;
    FsInfoInside(g, d);
    if FsInfoReserved(g) {
      FsInfoWritten(g, d, d, FsInfoSector(free, last));
    } else {
      FsInfoFrees(g, d, free, last, c);
    }
  }

  /** A file that uses one of those clusters has lost its chain. */
  lemma FsInfoBreaksChain(g: Geometry, d: Disk, free: Dword, last: Dword, ch: seq<nat>, c: nat)
    requires Holds(g, d) && g.fatType == Fat32 && !FsInfoReserved(g)
    requires IsChain(Table(g, d), ch) && c in ch && c < 121
    ensures g.volbase + 1 < |d| && !IsChain(Table(g, d[g.volbase + 1 := FsInfoSector(free, last)]), ch)
  {
    hide FsInfoSector;
    TakenClusters(Table(g, d), ch, c);
    FsInfoFrees(g, d, free, last, c);
    var u := Table(g, d[g.volbase + 1 := FsInfoSector(free, last)]);
    if IsChain(u, ch) {
      TakenClusters(u, ch, c);
    }
  }

  /** The mount accepts such a volume, sound in every other way: FAT32 with a single reserved sector and FSINFO in use. */
  lemma FsInfoCanBeFat()
    ensures exists b: Sector ::
              && IsFatBoot(b) && Mount(ReadBpb(b), 0).Ok? && Mount(ReadBpb(b), 0).value.Valid()
              && FsInfoUsed(Mount(ReadBpb(b), 0).value, b) && !FsInfoReserved(Mount(ReadBpb(b), 0).value)
  {
    hide MakeBoot, ReadBpb, NoWrap, Geometry.Valid, Mount, IsFatBoot, ClusterCount;
    var p := Bpb(SS, 600, 1, 1, 0, 70601, 1, 2);
    SingleReserved(p);
    MountIsValid(p, 0);
    BootReadsBack(p);
    assert FsInfoUsed(Mount(p, 0).value, MakeBoot(p));
  }

  lemma SingleReserved(p: Bpb)
    requires p == Bpb(SS, 600, 1, 1, 0, 70601, 1, 2)
    ensures Mount(p, 0).Ok? && Mount(p, 0).value.fatType == Fat32 && !FsInfoReserved(Mount(p, 0).value)
    ensures NoWrap(p, 0) && ClusterCount(p) <= 0x0FFFFFF5
  {
    hide Quot, Times;
    TimesIsMul(1, 600);
    TimesIsMul(70000, 1);
    QuotRemUnique(70000, 1, 70000, 0);
    assert SysSectors(p) == 601 && ClusterCount(p) == 70000;
    assert IsPowerOfTwo(1);
  }

  /** What writing FSINFO does to the FAT, wherever it lies. */
  lemma FsInfoStored(g: Geometry, mounted: Disk, d: Disk, free: Dword, last: Dword)
    requires Holds(g, d) && |mounted| == |d| && Mirrored(g, mounted, d)
    ensures g.volbase + 1 < |d|
    ensures var e := d[g.volbase + 1 := FsInfoSector(free, last)];
            && Holds(g, e)
            && (FsInfoReserved(g) ==> Table(g, e) == Table(g, d) && Mirrored(g, mounted, e))
            && (!FsInfoReserved(g) && g.fatType == Fat32 ==> LowFree(Table(g, e)))
  {
    hide FsInfoSector, Mirrored;
    FsInfoInside(g, d);
    if FsInfoReserved(g) {
      FsInfoWritten(g, mounted, d, FsInfoSector(free, last));
    } else if g.fatType == Fat32 {
      var t := Table(g, d[g.volbase + 1 := FsInfoSector(free, last)]);
      forall c: nat | 2 <= c < 121 && c < |t|
        ensures t[c] == 0
      {
        FsInfoFrees(g, d, free, last, c);
      }
    }
  }

  /** The FSINFO sector is made in the window and written. */
  method WriteFsInfo(fs: FatFs)
    requires fs.Valid() && !fs.wflag && fs.geo.fatType == Fat32
    modifies fs`disk, fs`winsect, fs.win, fs`fsiDirty
    ensures fs.geo.volbase + 1 < |old(fs.disk)| && fs.win.Length == 512 && !fs.fsiDirty
    ensures fs.disk == old(fs.disk)[fs.geo.volbase + 1 := FsInfoSector(fs.freeClust, fs.lastClust)]
    ensures fs.winsect == fs.geo.volbase + 1 && fs.win[..] == fs.disk[fs.winsect]
    ensures FsInfoReserved(fs.geo) ==> fs.Valid() && Fat(fs) == old(Fat(fs)) && fs.Logical() == fs.disk
    ensures !FsInfoReserved(fs.geo) ==> Holds(fs.geo, fs.disk) && LowFree(Table(fs.geo, fs.disk))
  {
    ghost var d := fs.disk;
    FsInfoInside(fs.geo, d);
    FsInfoStored(fs.geo, fs.mounted, d, fs.freeClust, fs.lastClust);
    hide StLe, Mirrored, Table, Geometry.Valid, FsInfoSector, LowFree;
    var sector := FsInfoSector(fs.freeClust, fs.lastClust);
    forall i | 0 <= i < 512 {
      fs.win[i] := sector[i];
    }
    assert fs.win[..] == sector;
    fs.winsect := fs.geo.volbase + 1;
    fs.disk := fs.disk[fs.winsect := fs.win[..]];
    fs.fsiDirty := false;
  }

  lemma WindowClean(fs: FatFs)
    requires fs.Valid() && !fs.wflag
    ensures fs.win.Length == 512 && fs.winsect < |fs.disk| && fs.win[..] == fs.disk[fs.winsect] && fs.Logical() == fs.disk
    ensures fs.geo.volbase + 1 < |fs.disk|
  {
    FsInfoInside(fs.geo, fs.disk);
  }

  /** The FSINFO sector that sync_fs writes holds the free count. */
  lemma InfoWritten(g: Geometry, enabled: bool, d: Disk, free: Dword, last: Dword, dirty: bool)
    requires g.volbase + 1 < |d|
    ensures InfoHeld(g, enabled, d[g.volbase + 1 := FsInfoSector(free, last)], free, dirty)
  {
    hide FsInfoOf, FsInfoSector;
    FsInfoReadsBack(free, last);
  }

  method SyncFs(fs: FatFs)
    requires fs.Valid()
    modifies fs`disk, fs`wflag, fs`winsect, fs.win, fs`fsiDirty
    ensures fs.geo.volbase + 1 < |old(fs.Logical())| && fs.win.Length == 512
    ensures fs.disk ==
            if old(WritesFsInfo(fs)) then old(fs.Logical())[fs.geo.volbase + 1 := FsInfoSector(fs.freeClust, fs.lastClust)]
            else old(fs.Logical())
    ensures !fs.wflag && fs.fsiDirty == (old(fs.fsiDirty) && !old(WritesFsInfo(fs)))
    ensures fs.winsect == if old(WritesFsInfo(fs)) then fs.geo.volbase + 1 else old(fs.winsect)
    ensures fs.winsect < |fs.disk| && fs.win[..] == fs.disk[fs.winsect]
    ensures old(SyncSafe(fs)) ==>
              && fs.Valid() && fs.Logical() == fs.disk && Fat(fs) == old(Fat(fs))
              && (old(InfoCurrent(fs)) ==> InfoCurrent(fs))
    ensures !old(SyncSafe(fs)) ==> Holds(fs.geo, fs.disk) && LowFree(Table(fs.geo, fs.disk))
  {
    hide InfoHeld, FatFs.Valid, FatFs.Logical, Fat, Table, FsInfoSector, LowFree, Holds;
    FatIsTable(fs);
    SyncWindow(fs);
    FatIsTable(fs);
    WindowClean(fs);
    if fs.geo.fatType == Fat32 && fs.fsiEnabled && fs.fsiDirty {
      InfoWritten(fs.geo, fs.fsiEnabled, fs.disk, fs.freeClust, fs.lastClust, false);
      WriteFsInfo(fs);
    }
  }

  // ---- the directory entry

  const DIR_Attr: nat := 11
  const DIR_LstAccDate: nat := 18
  const DIR_WrtTime: nat := 22

  /** attr | AM_ARC */
  function Archived(attr: Byte): (r: Byte)
  {
    if Rem(Quot(attr, 32), 2) == 1 || attr >= 224 then attr else attr + 32
  }

  /** The entry at offset k of s as f_sync rewrites it. */
  function SyncedEntry(s: Sector, k: nat, size: nat, cl: nat, tm: nat): (r: Sector)
    requires k + 32 <= 512
  {
    var s1 := s[k + DIR_Attr := Archived(s[k + DIR_Attr])];
    var s2 := StLe(s1, k + DIR_FileSize, size, 4);
    var s3 := StLe(s2, k + DIR_FstClusLO, cl, 2);
    var s4 := StLe(s3, k + DIR_FstClusHI, Quot(cl, 0x1_0000), 2);
    StLe(StLe(s4, k + DIR_WrtTime, tm, 4), k + DIR_LstAccDate, 0, 2)
  }

  lemma SyncedSize(s: Sector, k: nat, size: nat, cl: nat, tm: nat)
    requires k + 32 <= 512 && size < 0x1_0000_0000
    ensures LdDword(SyncedEntry(s, k, size, cl, tm), k + DIR_FileSize) == size
  {
    hide StLe, LdLe, Archived;
    var s1 := s[k + DIR_Attr := Archived(s[k + DIR_Attr])];
    var s2 := StLe(s1, k + DIR_FileSize, size, 4);
    var s3 := StLe(s2, k + DIR_FstClusLO, cl, 2);
    var s4 := StLe(s3, k + DIR_FstClusHI, Quot(cl, 0x1_0000), 2);
    var s5 := StLe(s4, k + DIR_WrtTime, tm, 4);
    Powers256();
    LdStLe(s1, k + DIR_FileSize, size, 4);
    LdStOther(s2, k + DIR_FstClusLO, cl, 2, k + DIR_FileSize, 4);
    LdStOther(s3, k + DIR_FstClusHI, Quot(cl, 0x1_0000), 2, k + DIR_FileSize, 4);
    LdStOther(s4, k + DIR_WrtTime, tm, 4, k + DIR_FileSize, 4);
    LdStOther(s5, k + DIR_LstAccDate, 0, 2, k + DIR_FileSize, 4);
  }

  lemma SyncedCluster(g: Geometry, s: Sector, k: nat, size: nat, cl: nat, tm: nat)
    requires k + 32 <= 512 && cl < 0x1_0000_0000 && (g.fatType == Fat32 || cl < 0x1_0000)
    ensures LdClust(g, SyncedEntry(s, k, size, cl, tm), k) == cl
  {
    hide StLe, LdLe, Archived;
    var s1 := s[k + DIR_Attr := Archived(s[k + DIR_Attr])];
    var s2 := StLe(s1, k + DIR_FileSize, size, 4);
    var s3 := StLe(s2, k + DIR_FstClusLO, cl, 2);
    var s4 := StLe(s3, k + DIR_FstClusHI, Quot(cl, 0x1_0000), 2);
    var s5 := StLe(s4, k + DIR_WrtTime, tm, 4);
    Powers256();
    LdStLe(s2, k + DIR_FstClusLO, cl, 2);
    LdStOther(s3, k + DIR_FstClusHI, Quot(cl, 0x1_0000), 2, k + DIR_FstClusLO, 2);
    LdStOther(s4, k + DIR_WrtTime, tm, 4, k + DIR_FstClusLO, 2);
    LdStOther(s5, k + DIR_LstAccDate, 0, 2, k + DIR_FstClusLO, 2);
    LdStLe(s3, k + DIR_FstClusHI, Quot(cl, 0x1_0000), 2);
    LdStOther(s4, k + DIR_WrtTime, tm, 4, k + DIR_FstClusHI, 2);
    LdStOther(s5, k + DIR_LstAccDate, 0, 2, k + DIR_FstClusHI, 2);
    Split(cl, 0x1_0000);
    QuotBelow(cl, 0x1_0000, 0x1_0000);
  }

  lemma ArchivedValue(attr: Byte)
    ensures Archived(attr) == if attr / 32 % 2 == 1 then attr else attr + 32
  {
    hide Quot, Rem;
    QuotRemAreDivMod(attr, 32);
    QuotRemAreDivMod(Quot(attr, 32), 2);
  }

  /** attr | AM_ARC */
  lemma ArchivedBits(attr: Byte)
    ensures Bits(Archived(attr)) == Bits(attr) | 0x20
  {
    hide Bits, Archived;
    ArchivedValue(attr);
    ArchiveBit(Bits(attr));
    SameBits(Bits(Archived(attr)), Bits(attr) | 0x20);
  }

  lemma ArchiveBit(v: bv8)
    ensures (v | 0x20) as int == if v as int / 32 % 2 == 1 then v as int else v as int + 32
  {
  }

  /**
   * The 32 bytes at offset k after f_sync: name, case flags and creation time stay, the archive
   * bit is set, and size, start cluster, write time and access date are stored, low byte first.
   */
  ghost predicate EntryRewritten(s: Sector, e: Sector, k: nat, size: nat, cl: nat, tm: nat)
    requires k + 32 <= 512
  {
    && e[k..k + 11] == s[k..k + 11]
    && Bits(e[k + 11]) == Bits(s[k + 11]) | 0x20
    && e[k + 12..k + 18] == s[k + 12..k + 18]
    && e[k + 18] == 0 && e[k + 19] == 0
    && e[k + 20] == cl / 0x1_0000 % 0x100 && e[k + 21] == cl / 0x100_0000 % 0x100
    && e[k + 22] == tm % 0x100 && e[k + 23] == tm / 0x100 % 0x100
    && e[k + 24] == tm / 0x1_0000 % 0x100 && e[k + 25] == tm / 0x100_0000 % 0x100
    && e[k + 26] == cl % 0x100 && e[k + 27] == cl / 0x100 % 0x100
    && e[k + 28] == size % 0x100 && e[k + 29] == size / 0x100 % 0x100
    && e[k + 30] == size / 0x1_0000 % 0x100 && e[k + 31] == size / 0x100_0000 % 0x100
  }

  /** A byte that a store does not reach. */
  lemma StoredElsewhere(s: Sector, k: nat, v: nat, n: nat, j: nat)
    requires k + n <= 512 && j < 512 && !(k <= j < k + n)
    ensures |StLe(s, k, v, n)| == 512 && StLe(s, k, v, n)[j] == s[j]
  {
    StLeFrame(s, k, v, n, j);
  }

  /** Byte j of the rewritten entry is that of the last store that reaches it. */
  lemma SyncedByte(s: Sector, k: nat, size: nat, cl: nat, tm: nat, j: nat)
    requires k + 32 <= 512 && k <= j < k + 32
    ensures var s1 := s[k + DIR_Attr := Archived(s[k + DIR_Attr])];
            var s2 := StLe(s1, k + DIR_FileSize, size, 4);
            var s3 := StLe(s2, k + DIR_FstClusLO, cl, 2);
            var s4 := StLe(s3, k + DIR_FstClusHI, Quot(cl, 0x1_0000), 2);
            var s5 := StLe(s4, k + DIR_WrtTime, tm, 4);
            SyncedEntry(s, k, size, cl, tm)[j] ==
            if j < k + 18 then s1[j]
            else if j < k + 20 then StLe(s5, k + DIR_LstAccDate, 0, 2)[j]
            else if j < k + 22 then s4[j]
            else if j < k + 26 then s5[j]
            else if j < k + 28 then s3[j]
            else s2[j]
  {
    hide StLe, Archived, Quot;
    var s1 := s[k + DIR_Attr := Archived(s[k + DIR_Attr])];
    var s2 := StLe(s1, k + DIR_FileSize, size, 4);
    var s3 := StLe(s2, k + DIR_FstClusLO, cl, 2);
    var s4 := StLe(s3, k + DIR_FstClusHI, Quot(cl, 0x1_0000), 2);
    var s5 := StLe(s4, k + DIR_WrtTime, tm, 4);
    if j < k + 28 {
      StoredElsewhere(s1, k + DIR_FileSize, size, 4, j);
    }
    if !(k + 26 <= j < k + 28) {
      StoredElsewhere(s2, k + DIR_FstClusLO, cl, 2, j);
    }
    if !(k + 20 <= j < k + 22) {
      StoredElsewhere(s3, k + DIR_FstClusHI, Quot(cl, 0x1_0000), 2, j);
    }
    if !(k + 22 <= j < k + 26) {
      StoredElsewhere(s4, k + DIR_WrtTime, tm, 4, j);
    }
    if !(k + 18 <= j < k + 20) {
      StoredElsewhere(s5, k + DIR_LstAccDate, 0, 2, j);
    }
  }

  lemma SyncedHead(s: Sector, k: nat, size: nat, cl: nat, tm: nat)
    requires k + 32 <= 512
    ensures var e := SyncedEntry(s, k, size, cl, tm);
            e[k..k + 11] == s[k..k + 11] && Bits(e[k + 11]) == Bits(s[k + 11]) | 0x20 && e[k + 12..k + 18] == s[k + 12..k + 18]
  {
    hide SyncedEntry, StLe, Archived, Bits;
    ArchivedBits(s[k + DIR_Attr]);
    forall j | k <= j < k + 18
      ensures SyncedEntry(s, k, size, cl, tm)[j] == if j == k + 11 then Archived(s[j]) else s[j]
    {
      SyncedByte(s, k, size, cl, tm, j);
    }
  }

  lemma SyncedTail(s: Sector, k: nat, size: nat, cl: nat, tm: nat)
    requires k + 32 <= 512
    ensures var e := SyncedEntry(s, k, size, cl, tm);
            && e[k + 18] == 0 && e[k + 19] == 0
            && e[k + 20] == cl / 0x1_0000 % 0x100 && e[k + 21] == cl / 0x1_0000 / 0x100 % 0x100
            && e[k + 22] == tm % 0x100 && e[k + 23] == tm / 0x100 % 0x100
            && e[k + 24] == tm / 0x1_0000 % 0x100 && e[k + 25] == tm / 0x100_0000 % 0x100
            && e[k + 26] == cl % 0x100 && e[k + 27] == cl / 0x100 % 0x100
            && e[k + 28] == size % 0x100 && e[k + 29] == size / 0x100 % 0x100
            && e[k + 30] == size / 0x1_0000 % 0x100 && e[k + 31] == size / 0x100_0000 % 0x100
  {
    hide SyncedEntry, StLe, Archived, Quot;
    var s1 := s[k + DIR_Attr := Archived(s[k + DIR_Attr])];
    var s2 := StLe(s1, k + DIR_FileSize, size, 4);
    var s3 := StLe(s2, k + DIR_FstClusLO, cl, 2);
    var s4 := StLe(s3, k + DIR_FstClusHI, Quot(cl, 0x1_0000), 2);
    var s5 := StLe(s4, k + DIR_WrtTime, tm, 4);
    QuotRemAreDivMod(cl, 0x1_0000);
    StBytes(s1, k + DIR_FileSize, size);
    StBytes(s2, k + DIR_FstClusLO, cl);
    StBytes(s3, k + DIR_FstClusHI, Quot(cl, 0x1_0000));
    StBytes(s4, k + DIR_WrtTime, tm);
    StBytes(s5, k + DIR_LstAccDate, 0);
    SyncedByte(s, k, size, cl, tm, k + 18);
    SyncedByte(s, k, size, cl, tm, k + 19);
    SyncedByte(s, k, size, cl, tm, k + 20);
    SyncedByte(s, k, size, cl, tm, k + 21);
    SyncedByte(s, k, size, cl, tm, k + 22);
    SyncedByte(s, k, size, cl, tm, k + 23);
    SyncedByte(s, k, size, cl, tm, k + 24);
    SyncedByte(s, k, size, cl, tm, k + 25);
    SyncedByte(s, k, size, cl, tm, k + 26);
    SyncedByte(s, k, size, cl, tm, k + 27);
    SyncedByte(s, k, size, cl, tm, k + 28);
    SyncedByte(s, k, size, cl, tm, k + 29);
    SyncedByte(s, k, size, cl, tm, k + 30);
    SyncedByte(s, k, size, cl, tm, k + 31);
  }

  lemma SyncedIsRewritten(s: Sector, k: nat, size: nat, cl: nat, tm: nat)
    requires k + 32 <= 512
    ensures EntryRewritten(s, SyncedEntry(s, k, size, cl, tm), k, size, cl, tm)
  {
    hide SyncedEntry, Bits;
    SyncedHead(s, k, size, cl, tm);
    SyncedTail(s, k, size, cl, tm);
    assert cl / 0x1_0000 / 0x100 == cl / 0x100_0000;
  }

  /** Everything outside the entry stays. */
  lemma SyncedOthers(s: Sector, k: nat, size: nat, cl: nat, tm: nat, j: nat)
    requires k + 32 <= 512 && j < 512 && !(k <= j < k + 32)
    ensures SyncedEntry(s, k, size, cl, tm)[j] == s[j]
  {
    hide StLe, Archived;
    var s1 := s[k + DIR_Attr := Archived(s[k + DIR_Attr])];
    var s2 := StLe(s1, k + DIR_FileSize, size, 4);
    var s3 := StLe(s2, k + DIR_FstClusLO, cl, 2);
    var s4 := StLe(s3, k + DIR_FstClusHI, Quot(cl, 0x1_0000), 2);
    var s5 := StLe(s4, k + DIR_WrtTime, tm, 4);
    StLeFrame(s1, k + DIR_FileSize, size, 4, j);
    StLeFrame(s2, k + DIR_FstClusLO, cl, 2, j);
    StLeFrame(s3, k + DIR_FstClusHI, Quot(cl, 0x1_0000), 2, j);
    StLeFrame(s4, k + DIR_WrtTime, tm, 4, j);
    StLeFrame(s5, k + DIR_LstAccDate, 0, 2, j);
  }

  /** move_window to the entry and rewrite it there. */
  method StoreEntry(fs: FatFs, sect: nat, k: nat, size: nat, cl: nat, tm: nat)
    requires fs.Valid() && sect < |fs.disk| && !fs.geo.InMirror(sect) && k + 32 <= 512
    modifies fs`disk, fs`wflag, fs`winsect, fs.win
    ensures fs.Valid() && fs.winsect == sect && sect < |old(fs.Logical())|
    ensures fs.geo.InFat(sect) && fs.geo.nFats == 2 ==> sect + fs.geo.fsize < |old(fs.Logical())|
    ensures fs.Logical() == Put(fs.geo, old(fs.Logical()), sect, SyncedEntry(old(fs.Logical())[sect], k, size, cl, tm))
  {
    hide StLe, Archived, FatFs.Valid, FatFs.Logical, Put;
    ghost var d := fs.Logical();
    SectorPlace(fs, sect);
    MoveWindow(fs, sect);
    ghost var s0 := fs.win[..];
    StoreByte(fs, k + DIR_Attr, Archived(fs.win[k + DIR_Attr]));
    ghost var s1 := fs.win[..];
    assert s1 == s0[k + DIR_Attr := Archived(s0[k + DIR_Attr])];
    StoreNext(fs, d, sect, k + DIR_FileSize, size, 4);
    StoreNext(fs, d, sect, k + DIR_FstClusLO, cl, 2);
    StoreNext(fs, d, sect, k + DIR_FstClusHI, Quot(cl, 0x1_0000), 2);
    StoreNext(fs, d, sect, k + DIR_WrtTime, tm, 4);
    StoreNext(fs, d, sect, k + DIR_LstAccDate, 0, 2);
  }

  /** One more store into a sector of the window that already differs from d. */
  method StoreNext(fs: FatFs, ghost d: Disk, sect: nat, k: nat, v: nat, n: nat)
    requires fs.Valid() && fs.winsect == sect && k + n <= 512 && n > 0
    requires sect < |d| && (fs.geo.InFat(sect) && fs.geo.nFats == 2 ==> sect + fs.geo.fsize < |d|)
    requires fs.geo.VolumeEnd() <= |d|
    requires fs.win.Length == 512 && fs.Logical() == Put(fs.geo, d, sect, fs.win[..])
    modifies fs`wflag, fs.win
    ensures fs.Valid()
    ensures fs.win[..] == StLe(old(fs.win[..]), k, v, n)
    ensures fs.Logical() == Put(fs.geo, d, sect, fs.win[..])
  {
    hide StLe;
    ghost var w := fs.win[..];
    StoreLe(fs, k, v, n);
    PutTwice(fs.geo, d, sect, w, fs.win[..]);
  }

  lemma SectorPlace(fs: FatFs, sect: nat)
    requires fs.Valid() && sect < |fs.disk|
    ensures fs.geo.VolumeEnd() <= |fs.Logical()| && sect < |fs.Logical()|
    ensures fs.geo.InFat(sect) && fs.geo.nFats == 2 ==> sect + fs.geo.fsize < |fs.Logical()|
    ensures fs.win.Length == 512
  {
  }

  // ---- f_sync

  /** The entry's sector is in the fixed root directory or in a cluster in use that is not the file's. */
  ghost predicate DirPlaced(g: Geometry, t: Links, s: nat, ch: seq<nat>) {
    || g.fatbase + g.FatArea() <= s < g.database
    || exists c :: g.IsCluster(c) && c < |t| && t[c] != 0 && c !in ch && g.InCluster(s, c)
  }

  lemma EntrySector(g: Geometry, t: Links, s: nat, ch: seq<nat>)
    requires g.Valid() && DirPlaced(g, t, s, ch) && Clusters(g, ch)
    ensures g.fatbase + g.FatArea() <= s < g.VolumeEnd()
    ensures !g.InFat(s) && !g.InMirror(s) && s !in Sectors(g, ch)
  {
    if g.fatbase + g.FatArea() <= s < g.database {
      forall q | 0 <= q < |Sectors(g, ch)|
        ensures Sectors(g, ch)[q] != s
      {
        SectorInCluster(g, ch, q);
      }
      assert g.VolumeEnd() >= g.database;
    } else {
      var c :| g.IsCluster(c) && c < |t| && t[c] != 0 && c !in ch && g.InCluster(s, c);
      ClustersDisjoint(g, c, c, s);
      SectorElsewhere(g, c, ch, s);
    }
  }

  /** The operations on the file keep it so: clusters they take were free. */
  lemma DirStaysPlaced(g: Geometry, t: Links, d: Disk, t2: Links, d2: Disk, s: nat, ch: seq<nat>, ch2: seq<nat>)
    requires Clusters(g, ch) && Clusters(g, ch2) && DirPlaced(g, t, s, ch)
    requires Untouched(g, t, d, t2, d2, ch, ch2)
    ensures DirPlaced(g, t2, s, ch2)
  {
    if !(g.fatbase + g.FatArea() <= s < g.database) {
      var c :| g.IsCluster(c) && c < |t| && t[c] != 0 && c !in ch && g.InCluster(s, c);
      assert c !in ch2;
      assert t2[c] == t[c];
    }
  }

  /**
   * What the medium d alone says about the file: its directory entry gives the size
   * and the start of a chain whose sectors hold every specified byte.
   */
  ghost predicate OnMedium(g: Geometry, d: Disk, sect: nat, k: nat, ch: seq<nat>, content: Content) {
    && Holds(g, d) && sect < |d| && k + 32 <= 512
    && LdDword(d[sect], k + DIR_FileSize) == |content|
    && ChainOf(g, Table(g, d), LdClust(g, d[sect], k), ch)
    && |content| <= |Sectors(g, ch)| * 512
    && forall i :: 0 <= i < |content| && content[i].Some? ==> StoredByte(g, d, ch, i) == content[i]
  }

  /** A clean buffer leaves the medium to hold everything. */
  lemma MediumShows(g: Geometry, d: Disk, b: Sector, dsect: nat, ch: seq<nat>, content: Content)
    requires g.Valid() && g.VolumeEnd() <= |d| && Clusters(g, ch)
    requires Overlay(Sectors(g, ch), d, b, dsect, false, content)
    ensures forall i :: 0 <= i < |content| && content[i].Some? ==> StoredByte(g, d, ch, i) == content[i]
  {
    forall i | 0 <= i < |content| && content[i].Some?
      ensures StoredByte(g, d, ch, i) == content[i]
    {
      Split(i, 512);
      var q := Quot(i, SS);
      assert Held(Sectors(g, ch)[q], d, b, dsect, false, content, q);
      assert d[Sectors(g, ch)[q]][i - q * 512] == content[i].value;
    }
  }

  lemma BaseElsewhere(g: Geometry, t: Links, d: Disk, e: Disk, w: nat, v: nat, b: Sector, f: File)
    requires Based(g, t, d, w, b, f) && |e| == |d|
    requires Clusters(g, f.chain) && v !in Sectors(g, f.chain)
    requires forall q {:trigger Sectors(g, f.chain)[q]} :: 0 <= q < |Sectors(g, f.chain)| ==>
               Sectors(g, f.chain)[q] < |d| && e[Sectors(g, f.chain)[q]] == d[Sectors(g, f.chain)[q]]
    ensures Based(g, t, e, v, b, f)
  {
    GrowKeeps(Sectors(g, f.chain), [], d, e, b, f.dsect, f.dirty, f.content);
    assert Sectors(g, f.chain) + [] == Sectors(g, f.chain);
  }

  /** f_sync rewrites 32 bytes of the entry's sector, and FSINFO if info says so. */
  ghost predicate SyncedFrame(g: Geometry, d: Disk, e: Disk, sect: nat, k: nat, info: bool) {
    && |e| == |d| && sect < |d| && k + 32 <= 512
    && (forall s: nat {:trigger e[s]} :: s < |d| && s != sect && !(info && s == g.volbase + 1) ==> e[s] == d[s])
    && (forall j :: 0 <= j < 512 && !(k <= j < k + 32) ==> e[sect][j] == d[sect][j])
  }

  /** Writing the entry and perhaps FSINFO: the file's own data stays. */
  lemma EntryWritten(g: Geometry, t: Links, d: Disk, e: Disk, w: nat, v: nat, b: Sector, f: File, sect: nat, k: nat, info: bool)
    requires Based(g, t, d, w, b, f) && !f.dirty
    requires DirPlaced(g, t, sect, f.chain) && (info ==> FsInfoReserved(g))
    requires SyncedFrame(g, d, e, sect, k, info) && v == if info then g.volbase + 1 else sect
    ensures Based(g, t, e, v, b, f)
    ensures Clusters(g, f.chain) && |f.content| <= |Sectors(g, f.chain)| * 512
    ensures forall i :: 0 <= i < |f.content| && f.content[i].Some? ==> StoredByte(g, e, f.chain, i) == f.content[i]
  {
    BaseSectors(g, t, d, w, b, f);
    EntrySector(g, t, sect, f.chain);
    BaseElsewhere(g, t, d, e, w, v, b, f);
    MediumShows(g, e, b, f.dsect, f.chain, f.content);
  }

  /** Start clusters fit the fields that st_clust stores. */
  lemma ClusterFits(g: Geometry, t: Links, sclust: nat, ch: seq<nat>)
    requires g.Valid() && ChainOf(g, t, sclust, ch)
    ensures sclust < 0x1000_0000 && (g.fatType == Fat32 || sclust < 0x1_0000)
  {
    if ch != [] {
      assert g.IsCluster(ch[0]);
    }
  }

  /** move_window, the stores into the entry, and sync_fs. */
  method WriteEntry(fs: FatFs, sect: nat, k: nat, size: nat, cl: nat, tm: nat)
    requires fs.Valid() && SyncSafe(fs) && k + 32 <= 512
    requires sect < |fs.disk| && !fs.geo.InMirror(sect) && !fs.geo.InFat(sect)
    requires fs.geo.fatbase + fs.geo.FatArea() <= sect
    modifies fs`disk, fs`wflag, fs`winsect, fs.win, fs`fsiDirty
    ensures fs.Valid() && !fs.wflag && fs.disk == fs.Logical() && Fat(fs) == old(Fat(fs))
    ensures sect < |old(fs.Logical())| && SyncedFrame(fs.geo, old(fs.Logical()), fs.Logical(), sect, k, old(WritesFsInfo(fs)))
    ensures fs.Logical()[sect] == SyncedEntry(old(fs.Logical())[sect], k, size, cl, tm)
    ensures fs.winsect == if old(WritesFsInfo(fs)) then fs.geo.volbase + 1 else sect
    ensures fs.fsiDirty == (old(fs.fsiDirty) && !old(WritesFsInfo(fs)))
    ensures old(InfoCurrent(fs)) ==> InfoCurrent(fs)
  {
    hide InfoHeld, FatFs.Valid, FatFs.Logical, StLe, SyncedEntry, FsInfoSector, Fat;
    ghost var g, d := fs.geo, fs.Logical();
    FatIsTable(fs);
    StoreEntry(fs, sect, k, size, cl, tm);
    EntryStored(fs, d, sect, SyncedEntry(d[sect], k, size, cl, tm));
    ghost var e := fs.Logical();
    InfoStays(g, fs.fsiEnabled, d, e, fs.freeClust, fs.fsiDirty, fs.freeClust, fs.fsiDirty);
    SyncFs(fs);
    forall j | 0 <= j < 512 && !(k <= j < k + 32)
      ensures SyncedEntry(d[sect], k, size, cl, tm)[j] == d[sect][j]
    {
      SyncedOthers(d[sect], k, size, cl, tm, j);
    }
  }

  lemma FatIsTable(fs: FatFs)
    requires fs.Valid()
    ensures Holds(fs.geo, fs.Logical()) && Fat(fs) == Table(fs.geo, fs.Logical())
  {
  }

  lemma CursorWhenClean(g: Geometry, f: File)
    requires g.csize > 0 && Clusters(g, f.chain) && Cursor(g, f)
    ensures Cursor(g, f.(dirty := false))
  {
  }

  lemma EntryStored(fs: FatFs, d: Disk, sect: nat, v: Sector)
    requires fs.Valid() && |d| == |fs.Logical()| && sect < |d| && !fs.geo.InFat(sect)
    requires fs.Logical() == Put(fs.geo, d, sect, v)
    ensures fs.Logical() == d[sect := v]
    ensures fs.geo.VolumeEnd() <= |d| && fs.geo.Valid()
    ensures Fat(fs) == Table(fs.geo, d)
  {
    SameFatSameTable(fs.geo, d, fs.Logical());
  }

  /** Besides the FAT, only the sectors secs, the entry at offset k of sector sect, and FSINFO if info says so, may differ. */
  ghost predicate KeptExcept(g: Geometry, d: Disk, e: Disk, secs: seq<nat>, sect: nat, k: nat, info: bool) {
    && |e| == |d|
    && (forall s: nat {:trigger d[s]} {:trigger e[s]} ::
          s < |d| && !(g.fatbase <= s < g.fatbase + g.FatArea()) && s !in secs && s != sect && !(info && s == g.volbase + 1) ==> e[s] == d[s])
    && (sect < |d| && sect !in secs && !(info && g.volbase + 1 == sect) && !(g.fatbase <= sect < g.fatbase + g.FatArea()) ==>
          forall j :: 0 <= j < 512 && !(k <= j < k + 32) ==> e[sect][j] == d[sect][j])
  }

  lemma SyncKept(g: Geometry, t: Links, d: Disk, t1: Links, d1: Disk, e: Disk, ch: seq<nat>, sect: nat, k: nat, info: bool)
    requires Clusters(g, ch) && Untouched(g, t, d, t1, d1, ch, ch) && SyncedFrame(g, d1, e, sect, k, info)
    ensures KeptExcept(g, d, e, Sectors(g, ch), sect, k, info)
  {
  }

  lemma NothingSynced(g: Geometry, d: Disk, ch: seq<nat>, sect: nat, k: nat, info: bool)
    requires Clusters(g, ch)
    ensures KeptExcept(g, d, d, Sectors(g, ch), sect, k, info)
  {
  }

  method FSync(fp: Fil, tm: nat) returns (res: FResult)
    requires fp.Valid() && SyncSafe(fp.fs) && fp.dirOfs + 32 <= 512
    requires DirPlaced(fp.fs.geo, Fat(fp.fs), fp.dirSect, fp.chain)
    modifies fp`dirty, fp`written, fp.fs`disk, fp.fs`wflag, fp.fs`winsect, fp.fs.win, fp.fs`fsiDirty
    ensures fp.Valid() && res == FrOk && Fat(fp.fs) == old(Fat(fp.fs))
    ensures fp.State() == old(fp.State()).(dirty := fp.dirty) && !fp.written
    ensures !old(fp.written) ==> fp.dirty == old(fp.dirty) && fp.fs.Logical() == old(fp.fs.Logical())
    ensures old(fp.written) ==>
              && !fp.dirty && !fp.fs.wflag && fp.fs.disk == fp.fs.Logical()
              && OnMedium(fp.fs.geo, fp.fs.disk, fp.dirSect, fp.dirOfs, fp.chain, fp.content)
    ensures old(fp.written) ==>
              && fp.dirSect < |old(fp.fs.Logical())| && fp.dirSect < |fp.fs.Logical()|
              && EntryRewritten(old(fp.fs.Logical())[fp.dirSect], fp.fs.Logical()[fp.dirSect], fp.dirOfs, fp.fsize, fp.sclust, tm)
    ensures Clusters(fp.fs.geo, fp.chain)
    ensures fp.fs.winsect == old(fp.fs.winsect) || fp.fs.winsect == fp.dirSect || (old(WritesFsInfo(fp.fs)) && fp.fs.winsect == fp.fs.geo.volbase + 1)
    ensures KeptExcept(fp.fs.geo, old(fp.fs.Logical()), fp.fs.Logical(), Sectors(fp.fs.geo, fp.chain), fp.dirSect, fp.dirOfs, old(WritesFsInfo(fp.fs)))
    ensures fp.fs.fsiDirty == (old(fp.fs.fsiDirty) && !(old(fp.written) && old(WritesFsInfo(fp.fs))))
    ensures old(InfoCurrent(fp.fs)) ==> InfoCurrent(fp.fs)
  {
    hide InfoHeld, Based, FatFs.Valid, FatFs.Logical, Fat, Clusters, Cursor, Untouched, StLe, SyncedEntry, Sectors, DirPlaced, ChainOf, KeptExcept, EntryRewritten;
    BeforeWrite(fp);
    ghost var g, t, f := fp.fs.geo, Fat(fp.fs), fp.State();
    CursorWhenClean(g, f);
    ghost var d0, info := fp.fs.Logical(), WritesFsInfo(fp.fs);
    NothingSynced(g, d0, f.chain, fp.dirSect, fp.dirOfs, info);
    if fp.written {
      FlushBuffer(fp);
      ghost var d, w, b := fp.fs.Logical(), fp.fs.winsect, fp.buf[..];
      BeforeEntry(fp);
      InfoKeptByFile(g, t, d0, t, d, f.chain, f.chain, fp.fs.fsiEnabled, fp.fs.freeClust, fp.fs.fsiDirty, fp.fs.freeClust, fp.fs.fsiDirty);
      WriteEntry(fp.fs, fp.dirSect, fp.dirOfs, fp.fsize, fp.sclust, tm);
      EntryWritten(g, t, d, fp.fs.Logical(), w, fp.fs.winsect, b, fp.State(), fp.dirSect, fp.dirOfs, info);
      SyncedSize(d[fp.dirSect], fp.dirOfs, fp.fsize, fp.sclust, tm);
      SyncedCluster(g, d[fp.dirSect], fp.dirOfs, fp.fsize, fp.sclust, tm);
      SyncKept(g, t, d0, t, d, fp.fs.Logical(), f.chain, fp.dirSect, fp.dirOfs, info);
      SyncedIsRewritten(d[fp.dirSect], fp.dirOfs, fp.fsize, fp.sclust, tm);
      EntryUnflushed(g, t, d0, d, fp.dirSect, f.chain);
      fp.written := false;
      OnMediumNow(fp);
    }
    return FrOk;
  }

  /** Flushing the file's buffer does not touch its directory entry. */
  lemma EntryUnflushed(g: Geometry, t: Links, d0: Disk, d: Disk, sect: nat, ch: seq<nat>)
    requires g.Valid() && DirPlaced(g, t, sect, ch) && Clusters(g, ch) && Untouched(g, t, d0, t, d, ch, ch) && sect < |d0|
    ensures |d| == |d0| && d[sect] == d0[sect]
  {
    EntrySector(g, t, sect, ch);
  }

  lemma BeforeEntry(fp: Fil)
    requires fp.Ready() && Clusters(fp.fs.geo, fp.chain)
    requires DirPlaced(fp.fs.geo, Fat(fp.fs), fp.dirSect, fp.chain)
    ensures fp.dirSect < |fp.fs.disk| && !fp.fs.geo.InMirror(fp.dirSect) && !fp.fs.geo.InFat(fp.dirSect)
    ensures fp.fs.geo.fatbase + fp.fs.geo.FatArea() <= fp.dirSect
    ensures fp.sclust < 0x1000_0000 && (fp.fs.geo.fatType == Fat32 || fp.sclust < 0x1_0000)
  {
    EntrySector(fp.fs.geo, Fat(fp.fs), fp.dirSect, fp.chain);
    ClusterFits(fp.fs.geo, Fat(fp.fs), fp.sclust, fp.chain);
  }

  lemma OnMediumNow(fp: Fil)
    requires fp.Ready() && fp.dirOfs + 32 <= 512 && fp.dirSect < |fp.fs.Logical()| && fp.fs.disk == fp.fs.Logical()
    requires LdDword(fp.fs.Logical()[fp.dirSect], fp.dirOfs + DIR_FileSize) == |fp.content|
    requires LdClust(fp.fs.geo, fp.fs.Logical()[fp.dirSect], fp.dirOfs) == fp.sclust
    requires Clusters(fp.fs.geo, fp.chain) && |fp.content| <= |Sectors(fp.fs.geo, fp.chain)| * 512
    requires fp.fs.geo.Valid() && fp.fs.geo.VolumeEnd() <= |fp.fs.Logical()|
    requires forall i :: 0 <= i < |fp.content| && fp.content[i].Some? ==> StoredByte(fp.fs.geo, fp.fs.Logical(), fp.chain, i) == fp.content[i]
    ensures OnMedium(fp.fs.geo, fp.fs.disk, fp.dirSect, fp.dirOfs, fp.chain, fp.content)
  {
  }
}
