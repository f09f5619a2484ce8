/**
 * The file system object and its one-sector write-back window. The logical disk is
 * what the medium will hold once the window is flushed; moving and flushing the
 * window never change it.
 */
module Window {
  import opened Arith
  import opened Bytes
  import opened Layout

  type Disk = seq<Sector>

  /** d with sector s replaced, and its copy in the second FAT if s is a FAT sector. */
  function Put(g: Geometry, d: Disk, s: nat, v: Sector): (r: Disk)
    requires s < |d| && (g.InFat(s) && g.nFats == 2 ==> s + g.fsize < |d|)
    ensures |r| == |d|
  {
    if g.InFat(s) && g.nFats == 2 then d[s := v][s + g.fsize := v] else d[s := v]
  }

  /** FAT sector s has the same copy in d, unless neither changed since the mount. */
  ghost predicate SameCopy(g: Geometry, mounted: Disk, d: Disk, s: nat)
    requires s + g.fsize < |d| == |mounted|
  {
    || d[s + g.fsize] == d[s]
    || (d[s + g.fsize] == mounted[s + g.fsize] && d[s] == mounted[s])
  }

  ghost predicate Mirrored(g: Geometry, mounted: Disk, d: Disk)
    requires |mounted| == |d| && g.fatbase + g.FatArea() <= |d|
  {
    g.nFats == 2 ==> forall s: nat :: g.InFat(s) ==> SameCopy(g, mounted, d, s)
  }

  ghost function Flushed(g: Geometry, d: Disk, s: nat, w: Sector, dirty: bool): (r: Disk)
    requires s < |d| && (g.InFat(s) && g.nFats == 2 ==> s + g.fsize < |d|)
    ensures |r| == |d|
  {
    if dirty then Put(g, d, s, w) else d
  }

  // FSINFO offsets
  const FSI_LeadSig: nat := 0
  const FSI_StrucSig: nat := 484
  const FSI_Free_Count: nat := 488
  const FSI_Nxt_Free: nat := 492
  const FSI_55AA: nat := 510

  /** The free count and the last cluster that an FSINFO sector with its three signatures gives. */
  function FsInfoOf(s: Sector): (r: Option<(Dword, Dword)>)
  {
    Powers256();
    LdLeBound(s, FSI_Free_Count, 4);
    LdLeBound(s, FSI_Nxt_Free, 4);
    if LdWord(s, FSI_55AA) == 0xAA55 && LdDword(s, FSI_LeadSig) == 0x41615252 && LdDword(s, FSI_StrucSig) == 0x61417272
    then Some((LdDword(s, FSI_Free_Count), LdDword(s, FSI_Nxt_Free)))
    else None
  }

  /** The FSINFO sector lies before the FAT. */
  predicate FsInfoReserved(g: Geometry) {
    g.volbase + 1 < g.fatbase
  }

  /** The free count that a mount takes over from its FSINFO sector s. */
  function LoadedFree(s: Sector): Dword {
    match FsInfoOf(s)
    case None => 0xFFFF_FFFF
    case Some(counts) => counts.0
  }

  /** When FSINFO is in use and not due, a mount would load the count free from d. */
  ghost predicate InfoHeld(g: Geometry, enabled: bool, d: Disk, free: nat, dirty: bool) {
    g.fatType == Fat32 && enabled && FsInfoReserved(g) && !dirty ==> g.volbase + 1 < |d| && LoadedFree(d[g.volbase + 1]) == free
  }

  /** From count f0 and flag d0 to f1 and d1: a count that changed is noted for FSINFO, and a note stays. */
  predicate Noted(f0: nat, d0: bool, f1: nat, d1: bool) {
    d1 || (f1 == f0 && d1 == d0)
  }

  /** Changes that are noted and leave the FSINFO sector alone keep it so. */
  lemma InfoStays(g: Geometry, enabled: bool, d: Disk, e: Disk, f0: nat, d0: bool, f1: nat, d1: bool)
    requires |e| == |d| && Noted(f0, d0, f1, d1)
    requires g.fatType == Fat32 && FsInfoReserved(g) && g.volbase + 1 < |d| ==> e[g.volbase + 1] == d[g.volbase + 1]
    ensures InfoHeld(g, enabled, d, f0, d0) ==> InfoHeld(g, enabled, e, f1, d1)
  {
  }

  lemma FsInfoInside(g: Geometry, d: Disk)
    requires g.Valid() && g.VolumeEnd() <= |d|
    ensures g.volbase + 1 < |d| && !g.InMirror(g.volbase + 1)
  {
    assert g.EntryInside(0);
    QuotBelow(0, SS, 1);
  }

  class FatFs {
    const geo: Geometry
    const fsiEnabled: bool // an FSINFO sector is in use (fsi_flag without 0x80)
    const win: array<Byte>
    var disk: Disk
    var winsect: nat
    var wflag: bool
    var lastClust: Dword
    var freeClust: Dword // 0xFFFFFFFF: unknown
    var fsiDirty: bool // bit 0 of fsi_flag
    ghost const mounted: Disk

    ghost predicate Valid()
      reads this, win
    {
      && geo.Valid()
      && win.Length == 512
      && geo.VolumeEnd() <= |disk| == |mounted|
      && winsect < |disk| && !geo.InMirror(winsect)
      && (!wflag ==> disk[winsect] == win[..])
      && Mirrored(geo, mounted, Flushed(geo, disk, winsect, win[..], wflag))
    }

    /** The contents of the medium after a flush of the window. */
    ghost function Logical(): (d: Disk)
      requires Valid()
      reads this, win
      ensures |d| == |disk|
    {
      Flushed(geo, disk, winsect, win[..], wflag)
    }

    /** find_volume leaves the boot sector in the window, or FSINFO if it is in use; the counts are those of a signed FSINFO. */
    constructor (g: Geometry, medium: Disk, fsi: bool)
      requires g.Valid() && g.VolumeEnd() <= |medium| && (fsi ==> g.fatType == Fat32)
      ensures Valid() && fresh(win)
      ensures geo == g && disk == medium && Logical() == medium && !wflag
      ensures fsiEnabled == fsi && !fsiDirty && g.volbase + 1 < |medium|
      ensures if fsi && FsInfoOf(medium[g.volbase + 1]).Some? then (freeClust, lastClust) == FsInfoOf(medium[g.volbase + 1]).value
              else lastClust == freeClust == 0xFFFF_FFFF
      ensures InfoHeld(geo, fsiEnabled, Logical(), freeClust, fsiDirty)
    {
      hide FsInfoOf, Geometry.EntryInside, LdLe, IsPowerOfTwo;
      FsInfoInside(g, medium);
      geo, disk, mounted := g, medium, medium;
      wflag, fsiDirty, fsiEnabled := false, false, fsi;
      var sect := if fsi then g.volbase + 1 else g.volbase;
      winsect := sect;
      lastClust, freeClust := 0xFFFF_FFFF, 0xFFFF_FFFF;
      var w := new Byte[512](i requires 0 <= i < 512 => medium[sect][i]);
      win := w;
      new;
      assert win[..] == medium[sect];
      if fsi {
        var info := FsInfoOf(win[..]);
        if info.Some? {
          freeClust, lastClust := info.value.0, info.value.1;
        }
      }
    }
  }

  /** As long as nothing is due for FSINFO, it holds the free count. */
  ghost predicate InfoCurrent(fs: FatFs)
    requires fs.Valid()
    reads fs, fs.win
  {
    InfoHeld(fs.geo, fs.fsiEnabled, fs.Logical(), fs.freeClust, fs.fsiDirty)
  }

  /** Writing through the window keeps the FAT copies together. */
  lemma PutKeepsMirrored(g: Geometry, mounted: Disk, d: Disk, s: nat, v: Sector)
    requires g.Valid() && g.VolumeEnd() <= |d| == |mounted|
    requires s < |d| && !g.InMirror(s)
    requires Mirrored(g, mounted, d)
    ensures Mirrored(g, mounted, Put(g, d, s, v))
  {
  }

  lemma PutTwice(g: Geometry, d: Disk, s: nat, v: Sector, w: Sector)
    requires g.Valid() && g.VolumeEnd() <= |d|
    requires s < |d|
    ensures Put(g, Put(g, d, s, v), s, w) == Put(g, d, s, w)
  {
  }

  /**
   * When the copies agreed at mount time, they differ at most at the sector of a
   * dirty window, and nowhere once the window is flushed.
   */
  lemma CopiesAgree(fs: FatFs, s: nat)
    requires fs.Valid() && fs.geo.nFats == 2 && fs.geo.InFat(s)
    requires s + fs.geo.fsize < |fs.mounted| && fs.mounted[s + fs.geo.fsize] == fs.mounted[s]
    ensures s + fs.geo.fsize < |fs.disk|
    ensures !(fs.wflag && fs.winsect == s) ==> fs.disk[s + fs.geo.fsize] == fs.disk[s]
  {
    assert SameCopy(fs.geo, fs.mounted, fs.Logical(), s);
  }

  method SyncWindow(fs: FatFs)
    requires fs.Valid()
    modifies fs`disk, fs`wflag
    ensures fs.Valid() && !fs.wflag
    ensures fs.disk == old(fs.Logical()) == fs.Logical()
  {
    if fs.wflag {
      var wsect := fs.winsect;
      fs.disk := fs.disk[wsect := fs.win[..]];
      fs.wflag := false;
      if fs.geo.InFat(wsect) {
        var nf := fs.geo.nFats;
        while nf >= 2
          invariant !fs.wflag && (nf == 1 || nf == 2)
          invariant nf == 2 ==> fs.geo.nFats == 2 && wsect == fs.winsect
          invariant fs.disk == if nf < fs.geo.nFats then old(fs.Logical()) else old(fs.disk)[fs.winsect := fs.win[..]]
        {
          wsect := wsect + fs.geo.fsize;
          fs.disk := fs.disk[wsect := fs.win[..]];
          nf := nf - 1;
        }
      }
    }
  }

  method MoveWindow(fs: FatFs, sector: nat)
    requires fs.Valid()
    requires sector < |fs.disk| && !fs.geo.InMirror(sector)
    modifies fs`disk, fs`wflag, fs`winsect, fs.win
    ensures fs.Valid()
    ensures fs.Logical() == old(fs.Logical())
    ensures fs.winsect == sector && fs.win[..] == fs.Logical()[sector]
  {
    if sector != fs.winsect {
      SyncWindow(fs);
      var data := fs.disk[sector];
      forall i | 0 <= i < 512 {
        fs.win[i] := data[i];
      }
      fs.winsect := sector;
      assert fs.win[..] == data;
    }
  }

  /** fs->win[k] = v; fs->wflag = 1 */
  method StoreByte(fs: FatFs, k: nat, v: Byte)
    requires fs.Valid() && k < 512
    modifies fs`wflag, fs.win
    ensures fs.Valid()
    ensures fs.win[..] == old(fs.win[..])[k := v]
    ensures fs.Logical() == Put(fs.geo, old(fs.Logical()), fs.winsect, fs.win[..])
  {
    ghost var before := fs.Logical();
    ghost var w0 := fs.win[..];
    fs.win[k] := v;
    fs.wflag := true;
    if old(fs.wflag) {
      PutTwice(fs.geo, fs.disk, fs.winsect, w0, fs.win[..]);
    }
    PutKeepsMirrored(fs.geo, fs.mounted, before, fs.winsect, fs.win[..]);
  }
}
