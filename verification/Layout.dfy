/**
 * The volume geometry: what the BPB part of find_volume accepts, and the proof
 * that an accepted volume has disjoint areas that stay inside the volume.
 */
module Layout {
  import opened Bytes
  import opened Arith

  datatype FatType = Fat12 | Fat16 | Fat32

  const MIN_FAT16: nat := 4086
  const MIN_FAT32: nat := 65526

  /** The members of FATFS that mounting fixes. */
  datatype Geometry = Geometry(
    fatType: FatType,
    csize: nat, // sectors per cluster
    nFats: nat,
    nRootdir: nat,
    nFatent: nat, // number of clusters + 2
    fsize: nat, // sectors per FAT
    volbase: nat,
    fatbase: nat,
    dirbase: nat, // FAT12/16: first root sector, FAT32: first root cluster
    database: nat
  ) {

    predicate InFat(s: int) {
      fatbase <= s < fatbase + fsize
    }

    /** The second FAT copy, if there is one. */
    predicate InMirror(s: int) {
      nFats == 2 && fatbase + fsize <= s < fatbase + 2 * fsize
    }

    /** Sectors of all FAT copies. */
    function FatArea(): nat {
      if nFats == 2 then 2 * fsize else fsize
    }

    predicate IsCluster(c: int) {
      2 <= c < nFatent
    }

    /** First sector of cluster c >= 2, csize sectors after that of the cluster before. */
    function ClusterBase(c: nat): (s: nat)
      requires c >= 2
      ensures s >= database
    {
      database + Times(c - 2, csize)
    }

    predicate InCluster(s: int, c: nat)
      requires c >= 2
    {
      ClusterBase(c) <= s < ClusterBase(c) + csize
    }

    function VolumeEnd(): nat
      requires nFatent >= 2
    {
      ClusterBase(nFatent)
    }

    /** Every byte that get_fat or put_fat touches for entry c is in the first FAT copy. */
    predicate EntryInside(c: nat) {
      match fatType
      case Fat12 => Quot(Offset12(c), SS) < fsize && Quot(Offset12(c) + 1, SS) < fsize
      case Fat16 => Quot(c, SS / 2) < fsize && Rem(c * 2, SS) <= SS - 2
      case Fat32 => Quot(c, SS / 4) < fsize && Rem(c * 4, SS) <= SS - 4
    }

    /** The byte where FAT12 entry c starts. */
    static function Offset12(c: nat): nat {
      c + Quot(c, 2)
    }

    /**
     * The facts every later layer relies on: reserved, FAT, root and data
     * areas follow one another, and one FAT copy is long enough.
     */
    predicate Valid() {
      && 1 <= csize <= 128
      && IsPowerOfTwo(csize)
      && (nFats == 1 || nFats == 2)
      && volbase < fatbase
      && fatbase + FatArea() <= database
      && 3 <= nFatent <= 0x0FFFFFF7
      && (fatType == Fat12 ==> nFatent < MIN_FAT16 + 2)
      && (fatType == Fat16 ==> nFatent < MIN_FAT32 + 2)
      && forall c: nat :: c < nFatent ==> EntryInside(c)
    }

    /** The fixed root directory of FAT12/16 fills the gap between the FATs and the data area. */
    predicate RootFits() {
      && nRootdir % 16 == 0
      && database == fatbase + FatArea() + nRootdir / 16
      && (if fatType == Fat32 then nRootdir == 0 else nRootdir > 0 && dirbase == fatbase + FatArea())
    }
  }

  /** The BPB fields the mount reads. */
  datatype Bpb = Bpb(
    bytesPerSec: nat, fsize: nat, nFats: Byte, csize: Byte, nRoot: nat, tsect: nat, nrsv: nat, rootClus: nat)

  /** The BPB part of find_volume, with its DWORD arithmetic. */
  function Mount(p: Bpb, bsect: nat): (r: Result<Geometry>)
  {
    if p.bytesPerSec != SS then Err(FrNoFilesystem)
    else if p.nFats != 1 && p.nFats != 2 then Err(FrNoFilesystem)
    else if !IsPowerOfTwo(p.csize) then Err(FrNoFilesystem)
    else if p.nRoot % (SS / 32) != 0 then Err(FrNoFilesystem)
    else if p.nrsv == 0 then Err(FrNoFilesystem)
    else
      var fasize := U32(Times(p.nFats, p.fsize));
      var sysect := U32(p.nrsv + fasize + p.nRoot / (SS / 32));
      if p.tsect < sysect then Err(FrNoFilesystem)
      else
        var nclst := Quot(p.tsect - sysect, p.csize);
        if nclst == 0 then Err(FrNoFilesystem)
        else
          var fmt := if nclst >= MIN_FAT32 then Fat32 else if nclst >= MIN_FAT16 then Fat16 else Fat12;
          var nFatent := U32(nclst + 2);
          var fatbase := U32(bsect + p.nrsv);
          if (fmt == Fat32) != (p.nRoot == 0) then Err(FrNoFilesystem)
          else if p.fsize < U32(NeededFat(fmt, nFatent) + (SS - 1)) / SS then Err(FrNoFilesystem)
          else Ok(Geometry(fmt, p.csize, p.nFats, p.nRoot, nFatent, p.fsize, bsect, fatbase,
                           if fmt == Fat32 then p.rootClus else U32(fatbase + fasize),
                           U32(bsect + sysect)))
  }

  /** szbfat: the bytes the FAT needs, as a DWORD. */
  function NeededFat(fmt: FatType, nFatent: nat): nat {
    match fmt
    case Fat32 => U32(nFatent * 4)
    case Fat16 => U32(nFatent * 2)
    case Fat12 => U32(U32(nFatent * 3) / 2 + nFatent % 2)
  }

  // ---- the same in exact arithmetic

  /** Sectors of the reserved area, the FATs and the root directory. */
  function SysSectors(p: Bpb): nat {
    p.nrsv + Times(p.nFats, p.fsize) + p.nRoot / (SS / 32)
  }

  function ClusterCount(p: Bpb): nat {
    if p.csize == 0 || p.tsect < SysSectors(p) then 0 else Quot(p.tsect - SysSectors(p), p.csize)
  }

  /** Bytes that n FAT entries fill. */
  function TableBytes(fmt: FatType, n: nat): nat {
    match fmt
    case Fat32 => n * 4
    case Fat16 => n * 2
    case Fat12 => n * 3 / 2 + n % 2
  }

  /** What the mount would have to check: its sums fit a DWORD, so does every sector of the volume, and the FAT is long enough. */
  predicate NoWrap(p: Bpb, bsect: nat) {
    && bsect + SysSectors(p) < 0x1_0000_0000
    && bsect + SysSectors(p) + Times(ClusterCount(p), p.csize) <= 0x1_0000_0000
    && TableBytes(if ClusterCount(p) >= MIN_FAT32 then Fat32 else if ClusterCount(p) >= MIN_FAT16 then Fat16 else Fat12,
                  ClusterCount(p) + 2) <= p.fsize * 512
  }

  /** The reserved, FAT, root and data areas follow one another. */
  predicate AreasInOrder(g: Geometry, p: Bpb, bsect: nat) {
    && g.volbase == bsect
    && g.fatbase == bsect + p.nrsv
    && g.database == g.fatbase + g.FatArea() + g.nRootdir / 16
  }

  /** clust2sect: the DWORD it returns for a cluster. */
  function ClusterNumber(g: Geometry, c: nat): (s: Dword)
    requires c >= 2
  {
    U32(Times(c - 2, g.csize) + g.database)
  }

  /** Every sector number that is computed for a cluster names a sector of that cluster. */
  ghost predicate ClustersReached(g: Geometry) {
    forall c: nat, k: nat :: g.IsCluster(c) && k < g.csize ==> SectorReached(g, c, k)
  }

  predicate SectorReached(g: Geometry, c: nat, k: nat)
    requires c >= 2
  {
    U32(ClusterNumber(g, c) + k) == g.ClusterBase(c) + k
  }

  /** Every byte of every entry lies in the first FAT copy. */
  ghost predicate TableInside(g: Geometry) {
    forall c: nat :: c < g.nFatent ==> g.EntryInside(c)
  }

  /** What the layers above need of a mounted volume. */
  ghost predicate Sound(g: Geometry, p: Bpb, bsect: nat) {
    && AreasInOrder(g, p, bsect)
    && g.nFatent == ClusterCount(p) + 2 >= 3
    && ClustersReached(g) && g.VolumeEnd() <= bsect + p.tsect
    && TableInside(g)
  }

  // ---- what the mount accepts

  /** The sectors of the FATs, those in front of the data area, and the clusters behind them, as plain arithmetic. */
  function FatSectors(p: Bpb): nat {
    p.nFats * p.fsize
  }

  function SystemSectors(p: Bpb): nat {
    p.nrsv + FatSectors(p) + p.nRoot / 16
  }

  function DataClusters(p: Bpb): nat {
    if p.csize == 0 || p.tsect < SystemSectors(p) then 0 else (p.tsect - SystemSectors(p)) / p.csize
  }

  /** Bytes of a FAT for n entries: 4 each, 2 each, or three for two. */
  function FatBytes(clusters: nat): nat {
    if clusters >= 65526 then 4 * (clusters + 2)
    else if clusters >= 4086 then 2 * (clusters + 2)
    else (3 * (clusters + 2) + 1) / 2
  }

  /** A volume of this file system: sector size, FAT copies, a power of two, whole root sectors, a boot sector, clusters, a FAT for them, and a fixed root unless it is FAT32. */
  predicate Mountable(p: Bpb) {
    && p.bytesPerSec == 512
    && (p.nFats == 1 || p.nFats == 2)
    && Bits(p.csize) != 0 && Bits(p.csize) & (Bits(p.csize) - 1) == 0
    && p.nRoot % 16 == 0
    && p.nrsv != 0
    && DataClusters(p) >= 1
    && FatBytes(DataClusters(p)) <= p.fsize * 512
    && (p.nRoot == 0 <==> DataClusters(p) >= 65526)
  }

  /** The mount's test on the cluster size is the test on its bits. */
  lemma ClusterSizeBits(x: Byte)
    ensures IsPowerOfTwo(x) <==> Bits(x) != 0 && Bits(x) & (Bits(x) - 1) == 0
    ensures IsPowerOfTwo(x) <==> x == 1 || x == 2 || x == 4 || x == 8 || x == 16 || x == 32 || x == 64 || x == 128
  {
    hide Bits, IsPowerOfTwo;
    var v := Bits(x);
    PowersOfTwo(v);
    PowersOfTwoBelow256(x);
    BitValue(v, 1);
    BitValue(v, 2);
    BitValue(v, 4);
    BitValue(v, 8);
    BitValue(v, 16);
    BitValue(v, 32);
    BitValue(v, 64);
    BitValue(v, 128);
  }

  lemma BitValue(v: bv8, w: bv8)
    ensures v as int == w as int <==> v == w
  {
  }

  lemma {:induction false} QuotAtMost(q: nat, n: nat)
    requires n > 0
    ensures Quot(q, n) <= q
  {
    if q >= n {
      QuotAtMost(q - n, n);
    }
  }

  /** Both FAT copies together. */
  lemma FatAreaIsProduct(g: Geometry)
    requires g.nFats == 1 || g.nFats == 2
    ensures Times(g.nFats, g.fsize) == g.FatArea()
  {
    assert Times(1, g.fsize) == g.fsize;
  }

  lemma FatFits(fmt: FatType, nFatent: nat, fsize: nat)
    requires nFatent <= 0x0FFFFFF7
    requires fsize >= U32(NeededFat(fmt, nFatent) + (SS - 1)) / SS
    ensures TableBytes(fmt, nFatent) <= fsize * 512
  {
  }

  lemma EntryFits12(n: nat, fsize: nat, c: nat)
    requires c < n && n * 3 / 2 + n % 2 <= fsize * 512
    ensures Quot(Geometry.Offset12(c), SS) < fsize && Quot(Geometry.Offset12(c) + 1, SS) < fsize
  {
    Split(c, 2);
    assert 2 * (Geometry.Offset12(c) + 1) < 2 * (fsize * 512);
    QuotBelow(Geometry.Offset12(c), 512, fsize);
    QuotBelow(Geometry.Offset12(c) + 1, 512, fsize);
  }

  /** Entries of w bytes, per of them in a sector. */
  lemma EntryFitsWide(n: nat, fsize: nat, c: nat, w: nat, per: nat)
    requires c < n && n * w <= fsize * 512
    requires (w == 2 && per == 256) || (w == 4 && per == 128)
    ensures Quot(c, per) < fsize && Rem(c * w, SS) <= SS - w
  {
    QuotBelow(c, per, fsize);
    Split(c, per);
    Join(c * w, 512, Quot(c, per), w * Rem(c, per));
  }

  lemma EntryFits(g: Geometry, c: nat)
    requires c < g.nFatent && TableBytes(g.fatType, g.nFatent) <= g.fsize * 512
    ensures g.EntryInside(c)
  {
    match g.fatType
    case Fat12 => EntryFits12(g.nFatent, g.fsize, c);
    case Fat16 => EntryFitsWide(g.nFatent, g.fsize, c, 2, 256);
    case Fat32 => EntryFitsWide(g.nFatent, g.fsize, c, 4, 128);
  }

  lemma Halved(x: nat, k: nat, b: nat)
    requires x == 2 * k + b && b < 2
    ensures x / 2 == k && x % 2 == b
  {
  }

  lemma LastEntryFits12(n: nat, fsize: nat)
    requires n > 0 && Quot(Geometry.Offset12(n - 1) + 1, SS) < fsize
    ensures n * 3 / 2 + n % 2 <= fsize * 512
  {
    hide Quot, Rem;
    var q, r := Quot(n - 1, 2), Rem(n - 1, 2);
    Split(n - 1, 2);
    Split(n - 1 + q + 1, SS);
    if r == 1 {
      Halved(n, q + 1, 0);
      Halved(n * 3, 3 * q + 3, 0);
    } else {
      Halved(n, q, 1);
      Halved(n * 3, 3 * q + 1, 1);
    }
  }

  /** Entries of w bytes, per of them in a sector. */
  lemma LastEntryFitsWide(n: nat, fsize: nat, w: nat, per: nat)
    requires (w == 2 && per == 256) || (w == 4 && per == 128)
    requires n > 0 && Quot(n - 1, per) < fsize
    ensures n * w <= fsize * 512
  {
    hide Quot, Rem;
    Split(n - 1, per);
  }

  /** The bytes of the last entry are those that the table is as long as. */
  lemma LastEntryFits(g: Geometry)
    requires g.nFatent > 0 && g.EntryInside(g.nFatent - 1)
    ensures TableBytes(g.fatType, g.nFatent) <= g.fsize * 512
  {
    hide Quot, Rem;
    match g.fatType
    case Fat12 => LastEntryFits12(g.nFatent, g.fsize);
    case Fat16 => LastEntryFitsWide(g.nFatent, g.fsize, 2, 256);
    case Fat32 => LastEntryFitsWide(g.nFatent, g.fsize, 4, 128);
  }

  /** All entries fit exactly when the FAT has the bytes for them. */
  lemma TableInsideIff(g: Geometry)
    requires g.nFatent > 0
    ensures TableInside(g) <==> TableBytes(g.fatType, g.nFatent) <= g.fsize * 512
  {
    hide TableBytes, Geometry.EntryInside;
    if TableBytes(g.fatType, g.nFatent) <= g.fsize * 512 {
      forall c: nat | c < g.nFatent
        ensures g.EntryInside(c)
      {
        EntryFits(g, c);
      }
    }
    if TableInside(g) {
      assert g.EntryInside(g.nFatent - 1);
      LastEntryFits(g);
    }
  }

  lemma U32Small(x: nat)
    ensures x < 0x1_0000_0000 ==> U32(x) == x
    ensures x >= 0x1_0000_0000 ==> U32(x) != x
  {
  }

  /** What the mount computed an accepted volume from, when the sum of its system areas was exact. */
  lemma MountedAreas(p: Bpb, bsect: nat)
    requires Mount(p, bsect).Ok? && SysSectors(p) < 0x1_0000_0000
    ensures SysSectors(p) <= p.tsect && p.csize > 0 && (p.nFats == 1 || p.nFats == 2)
    ensures Mount(p, bsect).value.nFatent == U32(ClusterCount(p) + 2) && ClusterCount(p) > 0
    ensures Mount(p, bsect).value.database == U32(bsect + SysSectors(p))
    ensures Mount(p, bsect).value.fatbase == U32(bsect + p.nrsv)
  {
    hide Times, Quot, NeededFat;
    U32Small(Times(p.nFats, p.fsize));
    U32Small(SysSectors(p));
  }

  /** The recursive forms of the model are plain arithmetic. */
  lemma PlainCounts(p: Bpb)
    ensures SysSectors(p) == SystemSectors(p) && ClusterCount(p) == DataClusters(p)
  {
    TimesIsMul(p.nFats, p.fsize);
    if p.csize > 0 && p.tsect >= SysSectors(p) {
      QuotRemAreDivMod(p.tsect - SysSectors(p), p.csize);
    }
  }

  lemma TypedBytes(n: nat)
    ensures FatBytes(n) == TableBytes(if n >= MIN_FAT32 then Fat32 else if n >= MIN_FAT16 then Fat16 else Fat12, n + 2)
  {
    RoundedUp((n + 2) / 2, (n + 2) % 2);
  }

  /** Three halves of 2q + r, rounded up and in two terms. */
  lemma RoundedUp(q: nat, r: nat)
    requires r < 2
    ensures (3 * (2 * q + r) + 1) / 2 == 3 * q + 2 * r && (2 * q + r) * 3 / 2 == 3 * q + r && (2 * q + r) % 2 == r
  {
  }

  lemma TooShort(fmt: FatType, n: nat, fsize: nat)
    requires n >= 2 && TableBytes(fmt, n) + 511 < 0x1_0000_0000 && (fmt == Fat12 ==> n < MIN_FAT16 + 2)
    ensures fsize < U32(NeededFat(fmt, n) + (SS - 1)) / SS <==> TableBytes(fmt, n) > fsize * 512
  {
    hide U32;
    U32Small(n * 4);
    U32Small(n * 2);
    U32Small(n * 3);
    U32Small(n * 3 / 2 + n % 2);
    U32Small(TableBytes(fmt, n) + 511);
  }

  /**
   * Where its sums fit 32 bits, the mount accepts exactly the volumes of this file system, and
   * it finds their type, their root directory and their areas.
   */
  lemma MountAcceptsIff(p: Bpb, bsect: nat)
    requires bsect + SystemSectors(p) < 0x1_0000_0000 && p.tsect < 0x1_0000_0000 && FatBytes(DataClusters(p)) + 511 < 0x1_0000_0000
    ensures Mount(p, bsect).Ok? <==> Mountable(p)
    ensures Mount(p, bsect).Ok? ==>
              Mount(p, bsect).value ==
              Geometry(if DataClusters(p) >= 65526 then Fat32 else if DataClusters(p) >= 4086 then Fat16 else Fat12,
                       p.csize, p.nFats, p.nRoot, DataClusters(p) + 2, p.fsize, bsect, bsect + p.nrsv,
                       if DataClusters(p) >= 65526 then p.rootClus else bsect + p.nrsv + FatSectors(p),
                       bsect + SystemSectors(p))
  {
    hide Quot, Times, U32, Bits, NeededFat, TableBytes, FatSectors, DataClusters, FatBytes, IsPowerOfTwo;
    PlainCounts(p);
    ClusterSizeBits(p.csize);
    TypedBytes(ClusterCount(p));
    assert Times(p.nFats, p.fsize) == FatSectors(p) by {
      TimesIsMul(p.nFats, p.fsize);
    }
    U32Small(Times(p.nFats, p.fsize));
    U32Small(SysSectors(p));
    U32Small(bsect + p.nrsv);
    U32Small(bsect + p.nrsv + Times(p.nFats, p.fsize));
    U32Small(bsect + SysSectors(p));
    var n := ClusterCount(p);
    U32Small(n + 2);
    FatBytesAtLeast(n);
    TooShort(if n >= MIN_FAT32 then Fat32 else if n >= MIN_FAT16 then Fat16 else Fat12, n + 2, p.fsize);
  }

  lemma FatBytesAtLeast(n: nat)
    ensures n + 2 <= FatBytes(n)
  {
  }

  /** The areas follow one another exactly when the sector after them has a DWORD number. */
  lemma AreasInOrderIff(p: Bpb, bsect: nat)
    requires Mount(p, bsect).Ok?
    ensures AreasInOrder(Mount(p, bsect).value, p, bsect) <==> bsect + SysSectors(p) < 0x1_0000_0000
  {
    hide Times, Quot, IsPowerOfTwo, NeededFat, U32;
    var g := Mount(p, bsect).value;
    FatAreaIsProduct(g);
    if SysSectors(p) < 0x1_0000_0000 {
      MountedAreas(p, bsect);
      U32Small(bsect + SysSectors(p));
      U32Small(bsect + p.nrsv);
      if bsect + SysSectors(p) < 0x1_0000_0000 {
        RootOnWide(p, bsect);
      }
    } else {
      assert g.database < 0x1_0000_0000;
    }
  }

  lemma RootOnWide(p: Bpb, bsect: nat)
    requires Mount(p, bsect).Ok?
    ensures var g := Mount(p, bsect).value;
            && g.nRootdir == p.nRoot && p.nRoot % 16 == 0 && p.nrsv > 0 && g.volbase == bsect
            && g.fsize == p.fsize && g.nFats == p.nFats && g.csize == p.csize && IsPowerOfTwo(p.csize)
            && (g.fatType == Fat32 <==> p.nRoot == 0)
  {
  }

  /** Every cluster can be reached exactly when the sector after the last one is at most 2^32. */
  lemma ClustersReachedIff(g: Geometry)
    requires g.nFatent >= 3 && g.csize > 0
    ensures ClustersReached(g) <==> g.VolumeEnd() <= 0x1_0000_0000
  {
    hide U32;
    var c := g.nFatent - 1;
    TimesNext(c - 2, g.csize);
    assert g.VolumeEnd() == g.ClusterBase(c) + g.csize;
    if ClustersReached(g) {
      assert SectorReached(g, c, g.csize - 1);
    }
    if g.VolumeEnd() <= 0x1_0000_0000 {
      forall e: nat, k: nat | g.IsCluster(e) && k < g.csize
        ensures SectorReached(g, e, k)
      {
        TimesMonotone(e - 2, c - 2, g.csize);
        U32Small(g.ClusterBase(e));
        U32Small(g.ClusterBase(e) + k);
      }
    }
  }

  /** The type that the mount finds, and that its own check on the FAT size is exact for volumes of ordinary size. */
  lemma MountedType(p: Bpb, bsect: nat)
    requires Mount(p, bsect).Ok? && SysSectors(p) < 0x1_0000_0000
    ensures Mount(p, bsect).value.fatType ==
            if ClusterCount(p) >= MIN_FAT32 then Fat32 else if ClusterCount(p) >= MIN_FAT16 then Fat16 else Fat12
  {
    hide Times, Quot, NeededFat;
    U32Small(Times(p.nFats, p.fsize));
    U32Small(SysSectors(p));
  }

  /** An accepted volume is laid out soundly if and only if nothing wrapped and the FAT is as long as its clusters ask. */
  lemma MountIsSoundIff(p: Bpb, bsect: nat)
    requires Mount(p, bsect).Ok? && p.tsect < 0x1_0000_0000
    ensures Sound(Mount(p, bsect).value, p, bsect) <==> NoWrap(p, bsect)
  {
    hide Mount, U32, Times, ClustersReached, TableInside, TableBytes, AreasInOrder, SysSectors, ClusterCount;
    var g := Mount(p, bsect).value;
    AreasInOrderIff(p, bsect);
    RootOnWide(p, bsect);
    if bsect + SysSectors(p) < 0x1_0000_0000 {
      MountedAreas(p, bsect);
      MountedType(p, bsect);
      U32Small(bsect + SysSectors(p));
      U32Small(ClusterCount(p) + 2);
      CountFits(p);
      if g.nFatent == ClusterCount(p) + 2 {
        ClustersReachedIff(g);
        TableInsideIff(g);
        assert g.VolumeEnd() == g.database + Times(ClusterCount(p), g.csize);
      } else {
        HugeTable(p);
      }
    }
  }

  /** The clusters fit in the sectors that the system areas leave. */
  lemma CountFits(p: Bpb)
    requires p.csize > 0 && SysSectors(p) <= p.tsect
    ensures SysSectors(p) + Times(ClusterCount(p), p.csize) <= p.tsect
  {
    QuotRem(p.tsect - SysSectors(p), p.csize);
  }

  /** A count that wraps is that of a volume without room for a FAT. */
  lemma HugeTable(p: Bpb)
    requires p.csize > 0 && p.nFats > 0 && SysSectors(p) <= p.tsect < 0x1_0000_0000 && ClusterCount(p) + 2 >= 0x1_0000_0000
    ensures !(TableBytes(Fat32, ClusterCount(p) + 2) <= p.fsize * 512)
  {
    QuotAtMost(p.tsect - SysSectors(p), p.csize);
    TimesMonotone(1, p.nFats, p.fsize);
    assert Times(1, p.fsize) == p.fsize;
  }

  /** Up to 0x0FFFFFF5 clusters the mount's check on the FAT size is exact, and only the sector numbers matter. */
  lemma OrdinarySize(p: Bpb, bsect: nat)
    requires Mount(p, bsect).Ok? && ClusterCount(p) <= 0x0FFFFFF5
    ensures NoWrap(p, bsect) <==> bsect + SysSectors(p) + Times(ClusterCount(p), p.csize) <= 0x1_0000_0000 && SysSectors(p) < 0x1_0000_0000
  {
    hide Mount, Times, TableBytes, SysSectors, ClusterCount;
    if SysSectors(p) < 0x1_0000_0000 {
      MountedAreas(p, bsect);
      MountedType(p, bsect);
      TimesMonotone(1, ClusterCount(p), p.csize);
      assert Times(1, p.csize) == p.csize by {
        TimesIsMul(1, p.csize);
      }
      U32Small(ClusterCount(p) + 2);
      TableChecked(p, bsect);
    }
  }

  /** The check of the FAT size, for counts whose bytes fit a DWORD. */
  lemma TableChecked(p: Bpb, bsect: nat)
    requires Mount(p, bsect).Ok? && Mount(p, bsect).value.nFatent <= 0x0FFFFFF7
    ensures var g := Mount(p, bsect).value; TableBytes(g.fatType, g.nFatent) <= p.fsize * 512
  {
    hide Times, Quot, NeededFat, TableBytes, IsPowerOfTwo;
    var g := Mount(p, bsect).value;
    FatFits(g.fatType, g.nFatent, p.fsize);
  }

  /** Such a volume has the geometry that every other layer builds on. */
  lemma MountIsValid(p: Bpb, bsect: nat)
    requires Mount(p, bsect).Ok? && NoWrap(p, bsect) && p.tsect < 0x1_0000_0000 && ClusterCount(p) <= 0x0FFFFFF5
    ensures Mount(p, bsect).value.Valid() && Mount(p, bsect).value.RootFits()
    ensures Sound(Mount(p, bsect).value, p, bsect)
  {
    hide Mount, U32, Times, ClustersReached, TableBytes, SysSectors, ClusterCount, IsPowerOfTwo;
    MountIsSoundIff(p, bsect);
    MountedAreas(p, bsect);
    MountedType(p, bsect);
    RootOnWide(p, bsect);
    RootStart(p, bsect);
    PowersOfTwoBelow256(p.csize);
    FatAreaIsProduct(Mount(p, bsect).value);
    U32Small(bsect + SysSectors(p));
  }

  lemma RootStart(p: Bpb, bsect: nat)
    requires Mount(p, bsect).Ok? && bsect + SysSectors(p) < 0x1_0000_0000
    ensures var g := Mount(p, bsect).value;
            g.fatType != Fat32 ==> g.dirbase == g.fatbase + g.FatArea()
  {
    hide Times, Quot, IsPowerOfTwo, NeededFat;
    FatAreaIsProduct(Mount(p, bsect).value);
    U32Small(bsect + p.nrsv + Times(p.nFats, p.fsize));
  }

  /** Distinct clusters own disjoint sector ranges inside the data area. */
  lemma ClustersDisjoint(g: Geometry, c: nat, d: nat, s: int)
    requires g.Valid() && g.IsCluster(c) && g.IsCluster(d)
    requires g.InCluster(s, c)
    ensures g.database <= s < g.VolumeEnd()
    ensures !g.InFat(s) && !g.InMirror(s)
    ensures g.InCluster(s, d) <==> c == d
  {
    TimesMonotone(c - 2, g.nFatent - 2, g.csize);
    if c < d {
      TimesMonotone(c - 2, d - 2, g.csize);
    } else {
      TimesMonotone(d - 2, c - 2, g.csize);
    }
  }
}
