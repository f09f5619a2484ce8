/** A file's directory entry as a slot of its directory: synchronising the file leaves the directory as both scans see it. */
module DirFile {
  import opened Arith
  import opened Bytes
  import opened Layout
  import opened Window
  import opened Chains
  import opened FatTable
  import opened ChainOps
  import opened FileView
  import opened FileState
  import opened FilObject
  import opened FileSync
  import opened Lfn
  import opened Directory
  import opened DirState
  import opened DirAttributes
  import DirRoundTrip

  /** Slot i of the directory on chain dch is the 32 bytes at offset k of sector sect. */
  ghost predicate IsSlot(g: Geometry, dch: seq<nat>, i: nat, sect: nat, k: nat) {
    && Clusters(g, dch) && i < Reach(|DirSecs(g, dch)|)
    && Quot(i, PER_SECTOR) < |DirSecs(g, dch)| && sect == DirSecs(g, dch)[Quot(i, PER_SECTOR)] && k == Rem(i, PER_SECTOR) * SZ_DIR
  }

  /** Sectors of a directory on other clusters than the file's: all but the entry's 32 bytes stay. */
  lemma DirSectorKept(g: Geometry, t: Links, d: Disk, e: Disk, ch: seq<nat>, sect: nat, k: nat, info: bool, sclust: nat, dch: seq<nat>, q: nat)
    requires DirBased(g, t, d, sclust, dch) && Clusters(g, ch) && (forall c :: c in ch ==> c !in dch)
    requires KeptExcept(g, d, e, Sectors(g, ch), sect, k, info) && (info ==> FsInfoReserved(g)) && k + 32 <= 512
    requires q < |DirSecs(g, dch)|
    ensures |e| == |d| && DirSecs(g, dch)[q] < |d|
    ensures DirSecs(g, dch)[q] != sect ==> e[DirSecs(g, dch)[q]] == d[DirSecs(g, dch)[q]]
    ensures DirSecs(g, dch)[q] == sect ==> forall j :: 0 <= j < 512 && !(k <= j < k + 32) ==> e[sect][j] == d[sect][j]
  {
    DirSecsPlaced(g, t, d, sclust, dch);
    var s := DirSecs(g, dch)[q];
    assert DirSector(g, s);
    assert s !in Sectors(g, ch) by {
      FileSectorElsewhere(g, ch, dch, q);
    }
  }

  lemma FileSectorElsewhere(g: Geometry, ch: seq<nat>, dch: seq<nat>, q: nat)
    requires g.Valid() && (dch == [] ==> g.RootFits() && g.fatType != Fat32)
    requires Clusters(g, ch) && Clusters(g, dch) && (forall c :: c in ch ==> c !in dch) && q < |DirSecs(g, dch)|
    ensures DirSecs(g, dch)[q] !in Sectors(g, ch)
  {
    if dch == [] {
      forall r | 0 <= r < |Sectors(g, ch)|
        ensures Sectors(g, ch)[r] >= g.database
      {
        SectorInCluster(g, ch, r);
      }
    } else {
      SectorsApart(g, dch, ch);
      assert DirSecs(g, dch)[q] in Sectors(g, dch);
    }
  }

  /** The listing after a sync is the old one with the file's slot replaced by the new bytes. */
  lemma SyncReplacesSlot(g: Geometry, t: Links, d: Disk, e: Disk, ch: seq<nat>, sect: nat, k: nat, info: bool, sclust: nat, dch: seq<nat>, i: nat)
    requires DirBased(g, t, d, sclust, dch) && Clusters(g, ch) && (forall c :: c in ch ==> c !in dch)
    requires KeptExcept(g, d, e, Sectors(g, ch), sect, k, info) && (info ==> FsInfoReserved(g))
    requires IsSlot(g, dch, i, sect, k)
    ensures k + 32 <= 512 && sect < |e| == |d| && DirBased(g, t, e, sclust, dch) && i < |Listing(g, t, d, sclust, dch)|
    ensures Listing(g, t, d, sclust, dch)[i] == d[sect][k..][..32]
    ensures Listing(g, t, e, sclust, dch) == Listing(g, t, d, sclust, dch)[i := e[sect][k..][..32]]
  {
    hide KeptExcept, Sectors, Quot, Rem;
    DirSecsPlaced(g, t, d, sclust, dch);
    var secs := DirSecs(g, dch);
    SlotSector(|secs|, i);
    DirSectorKept(g, t, d, e, ch, sect, k, info, sclust, dch, Quot(i, PER_SECTOR));
    var was, now := SlotsOf(d, secs), SlotsOf(e, secs);
    forall j | 0 <= j < Reach(|secs|)
      ensures now[j] == if j == i then e[sect][k..][..32] else was[j]
    {
      SlotSector(|secs|, j);
      DirSectorKept(g, t, d, e, ch, sect, k, info, sclust, dch, Quot(j, PER_SECTOR));
      if j != i && secs[Quot(j, PER_SECTOR)] == sect {
        assert Quot(j, PER_SECTOR) == Quot(i, PER_SECTOR);
        OtherSlot(i, j);
        SameSlice(d[sect], e[sect], Rem(j, PER_SECTOR) * SZ_DIR);
      }
    }
  }

  lemma SameSlice(s: Sector, r: Sector, k: nat)
    requires k + 32 <= 512 && forall j :: k <= j < k + 32 ==> s[j] == r[j]
    ensures s[k..][..32] == r[k..][..32]
  {
  }

  /** The rewritten entry is the same object to both scans. */
  lemma RewrittenIsSame(s: Sector, e: Sector, k: nat, size: nat, cl: nat, tm: nat)
    requires k + 32 <= 512 && EntryRewritten(s, e, k, size, cl, tm) && !LongPart(s[k..][..32])
    ensures SameEntry(s[k..][..32], e[k..][..32])
  {
    hide Bits;
    var a, b := s[k..][..32], e[k..][..32];
    assert a[..11] == s[k..k + 11] && b[..11] == e[k..k + 11];
    assert a[11] == s[k + 11] && b[11] == e[k + 11];
    SetArchive(Bits(a[11]), Bits(b[11]));
  }

  lemma SetArchive(a: bv8, b: bv8)
    requires b == a | 0x20 && a & 0x3F != 0x0F
    ensures a & 0xDF == b & 0xDF && b & 0x3F != 0x0F
  {
  }

  /** After f_sync, dir_read enumerates the same objects of the file's directory, and every dir_find has the same outcome. */
  lemma SyncKeepsDirectory(g: Geometry, t: Links, d: Disk, e: Disk, ch: seq<nat>, sect: nat, k: nat, info: bool,
                           size: nat, cl: nat, tm: nat, sclust: nat, dch: seq<nat>, i: nat, q: Query)
    requires DirBased(g, t, d, sclust, dch) && Clusters(g, ch) && (forall c :: c in ch ==> c !in dch)
    requires KeptExcept(g, d, e, Sectors(g, ch), sect, k, info) && (info ==> FsInfoReserved(g))
    requires IsSlot(g, dch, i, sect, k) && k + 32 <= 512 && sect < |d| && sect < |e|
    requires EntryRewritten(d[sect], e[sect], k, size, cl, tm) && !LongPart(d[sect][k..][..32]) && GoodQuery(q)
    ensures DirBased(g, t, e, sclust, dch)
    ensures Objects(Listing(g, t, e, sclust, dch), 0, FRESH) == Objects(Listing(g, t, d, sclust, dch), 0, FRESH)
    ensures FindFrom(Listing(g, t, e, sclust, dch), q, 0, FRESH) == FindFrom(Listing(g, t, d, sclust, dch), q, 0, FRESH)
  {
    hide DirBased, KeptExcept, Sectors, EntryRewritten, Listing, Objects, FindFrom, GoodQuery, LongPart, SameEntry, Clusters;
    SyncReplacesSlot(g, t, d, e, ch, sect, k, info, sclust, dch, i);
    RewrittenIsSame(d[sect], e[sect], k, size, cl, tm);
    ArchiveBitIsIgnored(Listing(g, t, d, sclust, dch), i, e[sect][k..][..32], q);
  }

  /** f_sync itself, for every directory that holds the file's entry on clusters of its own. */
  method SyncListed(fp: Fil, tm: nat, ghost sclust: nat, ghost dch: seq<nat>, ghost i: nat) returns (res: FResult)
    requires fp.Valid() && SyncSafe(fp.fs) && fp.dirOfs + 32 <= 512
    requires DirPlaced(fp.fs.geo, Fat(fp.fs), fp.dirSect, fp.chain)
    requires DirBased(fp.fs.geo, Fat(fp.fs), fp.fs.Logical(), sclust, dch) && IsSlot(fp.fs.geo, dch, i, fp.dirSect, fp.dirOfs)
    requires forall c :: c in fp.chain ==> c !in dch
    requires fp.dirSect < |fp.fs.Logical()| && !LongPart(fp.fs.Logical()[fp.dirSect][fp.dirOfs..][..32])
    modifies fp`dirty, fp`written, fp.fs`disk, fp.fs`wflag, fp.fs`winsect, fp.fs.win, fp.fs`fsiDirty
    ensures fp.Valid() && res == FrOk && DirBased(fp.fs.geo, Fat(fp.fs), fp.fs.Logical(), sclust, dch)
    ensures var was, now := old(Listing(fp.fs.geo, Fat(fp.fs), fp.fs.Logical(), sclust, dch)), Listing(fp.fs.geo, Fat(fp.fs), fp.fs.Logical(), sclust, dch);
            && Objects(now, 0, FRESH) == Objects(was, 0, FRESH)
            && forall q: Query {:trigger GoodQuery(q)} :: GoodQuery(q) ==> FindFrom(now, q, 0, FRESH) == FindFrom(was, q, 0, FRESH)
  {
    hide Based, FatFs.Valid, FatFs.Logical, Fat, Clusters, Cursor, DirBased, KeptExcept, Sectors, EntryRewritten, Listing, Objects, FindFrom, GoodQuery, LongPart,
      IsSlot, DirPlaced, OnMedium, InfoHeld;
    ghost var g, t, d, ch, info, size, cl := fp.fs.geo, Fat(fp.fs), fp.fs.Logical(), fp.chain, WritesFsInfo(fp.fs), fp.fsize, fp.sclust;
    ghost var written := fp.written;
    ghost var sect, k := fp.dirSect, fp.dirOfs;
    res := FSync(fp, tm);
    DirRoundTrip.AnyQueryIsGood();
    if written {
      forall q: Query | GoodQuery(q)
        ensures DirBased(g, t, fp.fs.Logical(), sclust, dch)
        ensures Objects(Listing(g, t, fp.fs.Logical(), sclust, dch), 0, FRESH) == Objects(Listing(g, t, d, sclust, dch), 0, FRESH)
        ensures FindFrom(Listing(g, t, fp.fs.Logical(), sclust, dch), q, 0, FRESH) == FindFrom(Listing(g, t, d, sclust, dch), q, 0, FRESH)
      {
        SyncKeepsDirectory(g, t, d, fp.fs.Logical(), ch, sect, k, info, size, cl, tm, sclust, dch, i, q);
      }
    }
  }
}
