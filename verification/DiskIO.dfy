/** Transfers between file buffers and the data area that bypass the window. */
module DiskIO {
  import opened Arith
  import opened Bytes
  import opened Layout
  import opened Window
  import opened FatTable
  import opened FileView

  /** Sectors s..s+cc lie in the data area, away from the window. */
  ghost predicate DataRun(g: Geometry, w: nat, s: nat, cc: nat) {
    g.nFatent >= 2 && g.database <= s && s + cc <= g.VolumeEnd() && !(s <= w < s + cc)
  }

  lemma WritePastWindow(g: Geometry, d: Disk, w: nat, win: Sector, dirty: bool, s: nat, data: seq<Byte>, cc: nat)
    requires Holds(g, d) && w < |d| && !g.InMirror(w)
    requires DataRun(g, w, s, cc) && cc * 512 <= |data|
    ensures Flushed(g, WriteSectors(d, s, data, cc), w, win, dirty)
            == WriteSectors(Flushed(g, d, w, win, dirty), s, data, cc)
    ensures forall j: nat :: j < |d| && !(s <= j < s + cc) ==> WriteSectors(d, s, data, cc)[j] == d[j]
  {
  }

  lemma WriteKeepsFat(g: Geometry, mounted: Disk, d: Disk, s: nat, data: seq<Byte>, cc: nat)
    requires Holds(g, d) && g.database <= s && s + cc <= |d| && cc * 512 <= |data| && |mounted| == |d|
    ensures Holds(g, WriteSectors(d, s, data, cc))
    ensures Table(g, WriteSectors(d, s, data, cc)) == Table(g, d)
    ensures Mirrored(g, mounted, d) ==> Mirrored(g, mounted, WriteSectors(d, s, data, cc))
  {
    var e := WriteSectors(d, s, data, cc);
    SameFatSameTable(g, d, e);
    if Mirrored(g, mounted, d) && g.nFats == 2 {
      forall f: nat | g.InFat(f)
        ensures SameCopy(g, mounted, e, f)
      {
        assert SameCopy(g, mounted, d, f);
      }
    }
  }

  /** The FAT values depend on the first FAT copy only. */
  lemma SameFatSameTable(g: Geometry, d: Disk, e: Disk)
    requires Holds(g, d) && Holds(g, e)
    requires forall s: nat :: g.InFat(s) ==> d[s] == e[s]
    ensures Table(g, d) == Table(g, e)
  {
    forall c | 0 <= c < g.nFatent
      ensures Table(g, d)[c] == Table(g, e)[c]
    {
      assert g.EntryInside(c);
    }
  }

  /** disk_write of file data */
  method DiskWrite(fs: FatFs, s: nat, data: seq<Byte>, cc: nat)
    requires fs.Valid() && DataRun(fs.geo, fs.winsect, s, cc) && cc * 512 <= |data|
    modifies fs`disk
    ensures fs.Valid() && |fs.Logical()| == |old(fs.Logical())|
    ensures s + cc <= |fs.Logical()| && fs.Logical() == WriteSectors(old(fs.Logical()), s, data, cc)
    ensures Fat(fs) == old(Fat(fs))
  {
    WritePastWindow(fs.geo, fs.disk, fs.winsect, fs.win[..], fs.wflag, s, data, cc);
    WriteKeepsFat(fs.geo, fs.mounted, fs.Logical(), s, data, cc);
    hide Geometry.Valid, Mirrored, WriteSectors, Table;
    fs.disk := WriteSectors(fs.disk, s, data, cc);
  }

  /** disk_read of file data: away from the window the medium is up to date. */
  method DiskRead(fs: FatFs, s: nat, cc: nat) returns (data: seq<Byte>)
    requires fs.Valid() && DataRun(fs.geo, fs.winsect, s, cc)
    ensures s + cc <= |fs.Logical()| && data == ReadSectors(fs.Logical(), s, cc)
  {
    data := ReadSectors(fs.disk, s, cc);
    ReadPastWindow(fs.geo, fs.disk, fs.Logical(), fs.winsect, s, cc);
  }

  lemma {:induction false} ReadPastWindow(g: Geometry, d: Disk, e: Disk, w: nat, s: nat, cc: nat)
    requires |d| == |e| && s + cc <= |d|
    requires forall j :: s <= j < s + cc ==> d[j] == e[j]
    ensures ReadSectors(d, s, cc) == ReadSectors(e, s, cc)
    decreases cc
  {
    if cc > 0 {
      ReadPastWindow(g, d, e, w, s, cc - 1);
    }
  }
}
