/** f_getfree: the cached count, or a scan of the whole FAT. */
module GetFree {
  import opened Arith
  import opened Bytes
  import opened Layout
  import opened Window
  import opened FatTable
  import opened Chains
  import opened ChainOps

  lemma {:induction false} NextWide16(e: nat)
    ensures Rem(e * 2, SS) + 2 <= SS
    ensures if Rem(e * 2, SS) + 2 < SS then Quot(e + 1, SS / 2) == Quot(e, SS / 2) && Rem((e + 1) * 2, SS) == Rem(e * 2, SS) + 2
            else Quot(e + 1, SS / 2) == Quot(e, SS / 2) + 1 && Rem((e + 1) * 2, SS) == 0
  {
    hide Quot, Rem;
    Field16(e);
    Field16(e + 1);
    QuotRemStep(e, SS / 2);
  }

  lemma {:induction false} NextWide32(e: nat)
    ensures Rem(e * 4, SS) + 4 <= SS
    ensures if Rem(e * 4, SS) + 4 < SS then Quot(e + 1, SS / 4) == Quot(e, SS / 4) && Rem((e + 1) * 4, SS) == Rem(e * 4, SS) + 4
            else Quot(e + 1, SS / 4) == Quot(e, SS / 4) + 1 && Rem((e + 1) * 4, SS) == 0
  {
    hide Quot, Rem;
    Field32(e);
    Field32(e + 1);
    QuotRemStep(e, SS / 4);
  }

  /** The offset of entry e in its sector when entries have w bytes. */
  function OffsetIn(e: nat, w: nat): nat {
    Rem(e * w, SS)
  }

  /** Where entry e of a FAT with w-byte entries lies, and where the next one does. */
  lemma NextWide(e: nat, w: nat, per: nat)
    requires (w == 2 && per == SS / 2) || (w == 4 && per == SS / 4)
    ensures OffsetIn(e, w) + w <= SS
    ensures if OffsetIn(e, w) + w < SS then Quot(e + 1, per) == Quot(e, per) && OffsetIn(e + 1, w) == OffsetIn(e, w) + w
            else Quot(e + 1, per) == Quot(e, per) + 1 && OffsetIn(e + 1, w) == 0
  {
    if w == 2 {
      NextWide16(e);
    } else {
      NextWide32(e);
    }
  }

  /** Zeros of t before entry e. */
  ghost predicate CountedUpTo(t: Links, from: nat, e: nat, n: nat)
    requires from <= e <= |t|
  {
    n + Zeros(t, e) == Zeros(t, from)
  }

  lemma CountNext(t: Links, from: nat, e: nat, n: nat)
    requires from <= e < |t| && CountedUpTo(t, from, e, n)
    ensures CountedUpTo(t, from, e + 1, if t[e] == 0 then n + 1 else n)
  {
  }

  /** The FAT12 scan has counted n zeros up to entry e and met no entry that holds 1. */
  ghost predicate Scanned12(t: Links, e: nat, n: nat) {
    && 2 <= e <= |t| && n <= e - 2 && CountedUpTo(t, 2, e, n)
    && forall c :: 2 <= c < e ==> t[c] != 1
  }

  lemma Scan12Starts(t: Links)
    requires |t| >= 2
    ensures Scanned12(t, 2, 0)
  {
  }

  lemma Scan12Next(t: Links, e: nat, n: nat)
    requires e < |t| && Scanned12(t, e, n) && t[e] != 1
    ensures Scanned12(t, e + 1, if t[e] == 0 then n + 1 else n)
  {
    hide Zeros;
    CountNext(t, 2, e, n);
  }

  lemma Scan12Done(t: Links, n: nat)
    requires Scanned12(t, |t|, n)
    ensures n == Zeros(t, 2) && forall c :: 2 <= c < |t| ==> t[c] != 1
  {
  }

  lemma Scan12Bound(t: Links, e: nat, n: nat)
    requires Scanned12(t, e, n)
    ensures 2 <= e <= |t| && n <= e - 2
  {
  }

  /** The FAT12 scan: entry by entry from 2 on, stopping at an entry that holds 1. */
  method Scan12(fs: FatFs) returns (res: FResult, n: nat)
    requires fs.Valid()
    modifies fs`disk, fs`wflag, fs`winsect, fs.win
    ensures fs.Valid() && fs.Logical() == old(fs.Logical()) && Fat(fs) == old(Fat(fs))
    ensures res == FrOk ==> n == Zeros(Fat(fs), 2) && forall c :: 2 <= c < fs.geo.nFatent ==> Fat(fs)[c] != 1
    ensures res != FrOk ==> res == FrIntErr && exists c :: 2 <= c < fs.geo.nFatent && Fat(fs)[c] == 1
    ensures n <= fs.geo.nFatent - 2
  {
    hide FatFs.Valid, FatFs.Logical, Fat, Zeros, CountedUpTo, Scanned12;
    ghost var t := Fat(fs);
    assert |t| >= 3 by {
      FatCount(fs);
    }
    n := 0;
    var clst := 2;
    Scan12Starts(t);
    while clst < fs.geo.nFatent
      invariant fs.Valid() && fs.Logical() == old(fs.Logical()) && Fat(fs) == t
      invariant Scanned12(t, clst, n) && 2 <= clst <= |t| == fs.geo.nFatent
    {
      Scan12Bound(t, clst, n);
      var stat := GetFat(fs, clst);
      if stat == 1 {
        return FrIntErr, n;
      }
      Scan12Next(t, clst, n);
      if stat == 0 {
        n := n + 1;
      }
      clst := clst + 1;
    }
    Scan12Done(t, n);
    Scan12Bound(t, clst, n);
    return FrOk, n;
  }

  lemma FatCount(fs: FatFs)
    requires fs.Valid()
    ensures |Fat(fs)| == fs.geo.nFatent >= 3
  {
  }

  /** A sector of a wide FAT in the window shows the entries it holds. */
  lemma EntryInWindow(g: Geometry, d: Disk, e: nat, w: nat, per: nat, s: nat, k: nat)
    requires Holds(g, d) && e < g.nFatent
    requires (g.fatType == Fat16 && w == 2 && per == SS / 2) || (g.fatType == Fat32 && w == 4 && per == SS / 4)
    requires s == g.fatbase + Quot(e, per) && k == OffsetIn(e, w)
    ensures s < |d| && k + w <= SS && g.InFat(s)
    ensures Table(g, d)[e] == if w == 2 then LdWord(d[s], k) else Rem(LdDword(d[s], k), 0x1000_0000)
  {
    assert g.EntryInside(e);
  }

  /** Where the scan stands: entry e is next, at offset p of a loaded sector if i is not 0, otherwise at the start of sector sect. */
  ghost predicate ScanAt(g: Geometry, e: nat, w: nat, per: nat, sect: nat, p: nat, i: nat, winsect: nat)
    requires per > 0
  {
    if i == 0 then sect == g.fatbase + Quot(e, per) && OffsetIn(e, w) == 0
    else sect == g.fatbase + Quot(e, per) + 1 && OffsetIn(e, w) == p && p + i == SS && winsect == sect - 1
  }

  /** One entry of the scan: load a sector if need be, fetch the entry, move on. */
  method NextEntry(fs: FatFs, w: nat, sect0: nat, p0: nat, i0: nat, ghost e: nat, ghost per: nat)
    returns (v: nat, sect: nat, p: nat, i: nat)
    requires fs.Valid() && e < fs.geo.nFatent
    requires (fs.geo.fatType == Fat16 && w == 2 && per == SS / 2) || (fs.geo.fatType == Fat32 && w == 4 && per == SS / 4)
    requires ScanAt(fs.geo, e, w, per, sect0, p0, i0, fs.winsect)
    modifies fs`disk, fs`wflag, fs`winsect, fs.win
    ensures fs.Valid() && fs.Logical() == old(fs.Logical()) && Fat(fs) == old(Fat(fs))
    ensures v == Fat(fs)[e] && ScanAt(fs.geo, e + 1, w, per, sect, p, i, fs.winsect)
  {
    FatHolds(fs);
    hide FatFs.Valid, FatFs.Logical, Fat, Holds, Geometry.EntryInside, LdLe, OffsetIn, Quot, Rem;
    ghost var d := fs.Logical();
    sect, p, i := sect0, p0, i0;
    EntryInWindow(fs.geo, d, e, w, per, fs.geo.fatbase + Quot(e, per), OffsetIn(e, w));
    if i == 0 {
      MoveWindow(fs, sect);
      sect := sect + 1;
      p := 0;
      i := SS;
    }
    WindowShows(fs);
    FatHolds(fs);
    NextWide(e, w, per);
    v := if w == 2 then LdWord(fs.win[..], p) else Rem(LdDword(fs.win[..], p), 0x1000_0000);
    p := p + w;
    i := i - w;
  }

  lemma FatHolds(fs: FatFs)
    requires fs.Valid()
    ensures Holds(fs.geo, fs.Logical()) && Fat(fs) == Table(fs.geo, fs.Logical()) && |fs.Logical()| == |fs.disk|
    ensures fs.geo.nFats == 1 || fs.geo.nFats == 2
  {
  }

  /** The FAT16 and FAT32 scan: sector by sector from entry 0 on. */
  method ScanWide(fs: FatFs) returns (n: nat)
    requires fs.Valid() && fs.geo.fatType != Fat12
    modifies fs`disk, fs`wflag, fs`winsect, fs.win
    ensures fs.Valid() && fs.Logical() == old(fs.Logical()) && Fat(fs) == old(Fat(fs))
    ensures n == Zeros(Fat(fs), 0)
  {
    hide FatFs.Valid, FatFs.Logical, Fat, Zeros, CountedUpTo, ScanAt;
    var w := if fs.geo.fatType == Fat16 then 2 else 4;
    ghost var per := if w == 2 then SS / 2 else SS / 4;
    ghost var t := Fat(fs);
    var clst, sect, i, p := fs.geo.nFatent, fs.geo.fatbase, 0, 0;
    n := 0;
    ghost var e := 0;
    ScanBegins(fs.geo, t, per, w, fs.winsect);
    while clst > 0
      invariant fs.Valid() && fs.Logical() == old(fs.Logical()) && Fat(fs) == t
      invariant e + clst == fs.geo.nFatent && CountedUpTo(t, 0, e, n)
      invariant ScanAt(fs.geo, e, w, per, sect, p, i, fs.winsect)
    {
      var v;
      v, sect, p, i := NextEntry(fs, w, sect, p, i, e, per);
      CountNext(t, 0, e, n);
      if v == 0 {
        n := n + 1;
      }
      clst := clst - 1;
      e := e + 1;
    }
    ScanEnds(t, n);
  }

  lemma ScanBegins(g: Geometry, t: Links, per: nat, w: nat, winsect: nat)
    requires per > 0
    ensures CountedUpTo(t, 0, 0, 0) && ScanAt(g, 0, w, per, g.fatbase, 0, 0, winsect)
  {
  }

  lemma ScanEnds(t: Links, n: nat)
    requires CountedUpTo(t, 0, |t|, n)
    ensures n == Zeros(t, 0)
  {
  }

  lemma WindowShows(fs: FatFs)
    requires fs.Valid()
    ensures fs.win.Length == 512 && fs.winsect < |fs.Logical()| && fs.win[..] == fs.Logical()[fs.winsect]
  {
  }

  /**
   * The scan of a wide FAT also counts entries 0 and 1, so the answer is the number
   * of free clusters exactly when those two are nonzero.
   */
  lemma WideScanIsExact(t: Links)
    requires |t| >= 2
    ensures Zeros(t, 0) == Zeros(t, 2) <==> t[0] != 0 && t[1] != 0
  {
    assert Zeros(t, 0) == (if t[0] == 0 then 1 else 0) + Zeros(t, 1);
  }

  /** f_getfree returns the cached count while it is in range, and scans otherwise. */
  method FGetFree(fs: FatFs) returns (res: FResult, nclst: nat)
    requires fs.Valid()
    modifies fs`disk, fs`wflag, fs`winsect, fs.win, fs`freeClust, fs`fsiDirty
    ensures fs.Valid() && fs.Logical() == old(fs.Logical()) && Fat(fs) == old(Fat(fs))
    ensures fs.freeClust == nclst
    ensures old(fs.freeClust) <= fs.geo.nFatent - 2 ==> res == FrOk && nclst == old(fs.freeClust)
    ensures old(fs.freeClust) > fs.geo.nFatent - 2 && res == FrOk ==>
              nclst == Zeros(Fat(fs), if fs.geo.fatType == Fat12 then 2 else 0)
    ensures old(fs.freeClust) <= fs.geo.nFatent - 2 && old(FreeAccurate(fs)) ==> FreeAccurate(fs)
    ensures old(fs.freeClust) > fs.geo.nFatent - 2 && res == FrOk ==>
              (nclst == Zeros(Fat(fs), 2) <==> fs.geo.fatType == Fat12 || (Fat(fs)[0] != 0 && Fat(fs)[1] != 0))
    ensures old(fs.freeClust) > fs.geo.nFatent - 2 && res == FrOk && nclst == Zeros(Fat(fs), 2) ==> FreeAccurate(fs)
    ensures res != FrOk ==> fs.geo.fatType == Fat12 && exists c :: 2 <= c < fs.geo.nFatent && Fat(fs)[c] == 1
    ensures fs.fsiDirty <==> old(fs.fsiDirty) || old(fs.freeClust) > fs.geo.nFatent - 2
    ensures old(InfoCurrent(fs)) ==> InfoCurrent(fs)
  {
    hide Zeros, Table, Mirrored;
    assert 3 <= fs.geo.nFatent <= 0x0FFF_FFF7;
    WideScanIsExact(Fat(fs));
    if fs.freeClust <= fs.geo.nFatent - 2 {
      return FrOk, fs.freeClust;
    }
    res := FrOk;
    if fs.geo.fatType == Fat12 {
      res, nclst := Scan12(fs);
    } else {
      nclst := ScanWide(fs);
    }
    fs.freeClust := nclst;
    fs.fsiDirty := true;
  }
}
