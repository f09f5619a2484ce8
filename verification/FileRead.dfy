/** f_read: a read returns exactly the slice of the content at the file pointer. */
module FileRead {
  import opened Arith
  import opened Bytes
  import opened Layout
  import opened Window
  import opened FatTable
  import opened Chains
  import opened FileView
  import opened FileState
  import opened DiskIO
  import opened FilObject

  lemma FollowStart(g: Geometry, t: Links, d: Disk, w: nat, b: Sector, f: File)
    requires Based(g, t, d, w, b, f)
    requires g.csize > 0 && Clusters(g, f.chain) && Cursor(g, f) && f.fptr < |f.content| && Rem(f.fptr, SS) == 0
    ensures var q := Quot(f.fptr, SS);
            && Quot(q, g.csize) < |f.chain| && q < Times(|f.chain|, g.csize)
            && (Rem(q, g.csize) != 0 ==> f.fptr > 0 && f.clust == f.chain[Quot(q, g.csize)])
            && (Rem(q, g.csize) == 0 && f.fptr > 0 ==>
                  g.IsCluster(f.clust) && t[f.clust] == f.chain[Quot(q, g.csize)])
            && (f.fptr == 0 ==> q == 0 && f.sclust == f.chain[0] && Rem(q, g.csize) == 0 && Quot(q, g.csize) == 0)
    ensures forall i :: 0 <= i < |f.chain| ==> g.IsCluster(f.chain[i])
  {
    BaseSectors(g, t, d, w, b, f);
    NextCluster(g, t, f);
  }

  /** At a cluster boundary f_read follows the chain; elsewhere clust stays. */
  method FollowForRead(fp: Fil, csect: nat) returns (res: FResult)
    requires fp.Ready() && Cursor(fp.fs.geo, fp.State()) && fp.fptr < |fp.content|
    requires Rem(fp.fptr, SS) == 0 && csect == Rem(Quot(fp.fptr, SS), fp.fs.geo.csize)
    modifies fp`clust, fp.fs`disk, fp.fs`wflag, fp.fs`winsect, fp.fs.win
    ensures fp.Ready() && res == FrOk
    ensures fp.State() == old(fp.State()).(clust := fp.clust)
    ensures fp.fs.geo.csize > 0 && AtCluster(fp.fs.geo, fp.State(), Quot(fp.fptr, SS))
    ensures Quot(fp.fptr, SS) < Times(|fp.chain|, fp.fs.geo.csize)
    ensures fp.fs.Logical() == old(fp.fs.Logical()) && Fat(fp.fs) == old(Fat(fp.fs))
    ensures fp.fs.winsect == old(fp.fs.winsect) || fp.fs.geo.InFat(fp.fs.winsect)
  {
    hide FatFs.Valid, FatFs.Logical, Fat, Based, Cursor, Quot, Rem, ChainOf;
    ghost var g, t, d, w, b, f := fp.fs.geo, Fat(fp.fs), fp.fs.Logical(), fp.fs.winsect, fp.buf[..], fp.State();
    BeforeReading(fp);
    FollowStart(g, t, d, w, b, f);
    if csect == 0 {
      var clst;
      if fp.fptr == 0 {
        clst := fp.sclust;
      } else {
        clst := GetFat(fp.fs, fp.clust);
        BaseWindow(g, t, d, w, fp.fs.winsect, b, f);
      }
      assert g.IsCluster(clst); // so FR_INT_ERR and FR_DISK_ERR are not reached
      fp.clust := clst;
    }
    BaseCursor(g, t, d, fp.fs.winsect, b, f, fp.clust, f.fptr);
    return FrOk;
  }

  /** Fill the buffer with sector sect unless it is there, writing a dirty one back first. */
  method LoadSector(fp: Fil, sect: nat, ghost q: nat)
    requires fp.Ready() && Clusters(fp.fs.geo, fp.chain)
    requires q < |Sectors(fp.fs.geo, fp.chain)| && sect == Sectors(fp.fs.geo, fp.chain)[q]
    modifies fp`dsect, fp`dirty, fp.buf, fp.fs`disk
    ensures fp.Ready() && fp.State() == old(fp.State()).(dsect := sect, dirty := fp.dirty)
    ensures Fat(fp.fs) == old(Fat(fp.fs))
    ensures Untouched(fp.fs.geo, old(Fat(fp.fs)), old(fp.fs.Logical()), Fat(fp.fs), fp.fs.Logical(), fp.chain, fp.chain)
  {
    UntouchedReflexive(fp.fs.geo, Fat(fp.fs), fp.fs.Logical(), fp.chain);
    if fp.dsect != sect {
      FlushBuffer(fp);
      ReadIntoBuffer(fp, sect, q);
    }
  }

  /** disk_read(buf, sect, 1); dsect = sect; */
  method ReadIntoBuffer(fp: Fil, sect: nat, ghost q: nat)
    requires fp.Ready() && !fp.dirty && Clusters(fp.fs.geo, fp.chain)
    requires q < |Sectors(fp.fs.geo, fp.chain)| && sect == Sectors(fp.fs.geo, fp.chain)[q]
    modifies fp`dsect, fp.buf
    ensures fp.Ready() && fp.State() == old(fp.State()).(dsect := sect)
    ensures fp.fs.Logical() == old(fp.fs.Logical()) && Fat(fp.fs) == old(Fat(fp.fs))
  {
    ghost var g, t, d, w, b, f := fp.fs.geo, Fat(fp.fs), fp.fs.Logical(), fp.fs.winsect, fp.buf[..], fp.State();
    BaseSectors(g, t, d, w, b, f);
    BaseLoad(g, t, d, w, b, f, q);
    var data := DiskRead(fp.fs, sect, 1);
    assert data == d[sect];
    hide Based, FatFs.Logical, Fat;
    forall i | 0 <= i < 512 {
      fp.buf[i] := data[i];
    }
    assert fp.buf[..] == data;
    fp.dsect := sect;
  }

  lemma BaseLoad(g: Geometry, t: Links, d: Disk, w: nat, b: Sector, f: File, q: nat)
    requires Based(g, t, d, w, b, f) && !f.dirty && Clusters(g, f.chain) && q < |Sectors(g, f.chain)|
    ensures Sectors(g, f.chain)[q] < |d|
    ensures Based(g, t, d, w, d[Sectors(g, f.chain)[q]], f.(dsect := Sectors(g, f.chain)[q]))
  {
    LoadKeeps(Sectors(g, f.chain), d, b, f.dsect, f.content, q);
  }

  // ---- reading whole sectors past the buffer

  lemma ChunksAgree(data: seq<Byte>, cc: nat, content: Content, q: nat)
    requires |data| == cc * 512 && (q + cc) * 512 <= |content|
    requires forall t :: 0 <= t < cc ==> Shows(Chunk(data, t), content, q + t)
    ensures Agrees(data, content, q * 512)
  {
    forall j | q * 512 <= j < q * 512 + |data| && content[j].Some?
      ensures data[j - q * 512] == content[j].value
    {
      var k := j - q * 512;
      Split(k, 512);
      var t := Quot(k, 512);
      assert Shows(Chunk(data, t), content, q + t);
      assert Chunk(data, t)[j - (q + t) * 512] == data[k];
    }
  }

  /** The read sectors, with the dirty buffer in place of its sector. */
  function Patch(data: seq<Byte>, cc: nat, t: nat, buf: Sector): (r: seq<Byte>)
    requires |data| == cc * 512 && t < cc
    ensures |r| == |data|
    ensures forall i :: 0 <= i < |data| ==> r[i] == if t * 512 <= i < t * 512 + 512 then buf[i - t * 512] else data[i]
  {
    data[..t * 512] + buf + data[t * 512 + 512..]
  }

  lemma PatchAt(data: seq<Byte>, cc: nat, t: nat, buf: Sector, u: nat)
    requires |data| == cc * 512 && t < cc && u < cc
    ensures Chunk(Patch(data, cc, t, buf), u) == if u == t then buf else Chunk(data, u)
  {
    hide Patch;
    var r := Patch(data, cc, t, buf);
    forall k | 0 <= k < 512
      ensures r[u * 512 + k] == if u == t then buf[k] else data[u * 512 + k]
    {
    }
  }

  method ReadDirect(fp: Fil, sect: nat, cc: nat, ghost q: nat) returns (data: seq<Byte>)
    requires fp.Ready() && Clusters(fp.fs.geo, fp.chain)
    requires cc > 0 && Contiguous(Sectors(fp.fs.geo, fp.chain), q, sect, cc) && (q + cc) * 512 <= |fp.content|
    ensures |data| == cc * 512 && Agrees(data, fp.content, q * 512)
  {
    hide Shows, Agrees, Mirrored, ReadSectors, Table;
    ghost var g, t, d, w, b, f := fp.fs.geo, Fat(fp.fs), fp.fs.Logical(), fp.fs.winsect, fp.buf[..], fp.State();
    BaseSectors(g, t, d, w, b, f);
    ghost var secs := Sectors(g, f.chain);
    RunInData(g, secs, q, sect, cc, w);
    var raw := DiskRead(fp.fs, sect, cc);
    data := raw;
    if fp.dirty && sect <= fp.dsect < sect + cc {
      data := Patch(raw, cc, fp.dsect - sect, fp.buf[..]);
    }
    forall u | 0 <= u < cc
      ensures Shows(Chunk(data, u), f.content, q + u)
    {
      SectorRead(secs, d, b, f, q, sect, cc, u);
      if fp.dirty && sect <= fp.dsect < sect + cc {
        PatchAt(raw, cc, fp.dsect - sect, b, u);
      }
    }
    ChunksAgree(data, cc, f.content, q);
  }

  lemma RunInData(g: Geometry, secs: seq<nat>, q: nat, s: nat, cc: nat, w: nat)
    requires g.nFatent >= 2 && cc > 0 && Contiguous(secs, q, s, cc)
    requires forall p :: 0 <= p < |secs| ==> g.database <= secs[p] < g.VolumeEnd() && secs[p] != w
    ensures DataRun(g, w, s, cc)
  {
    assert secs[q] == s && secs[q + cc - 1] == s + cc - 1;
    if s <= w < s + cc {
      RunHit(secs, q, s, cc, w);
    }
  }

  lemma SectorRead(secs: seq<nat>, d: Disk, b: Sector, f: File, q: nat, s: nat, cc: nat, u: nat)
    requires Overlay(secs, d, b, f.dsect, f.dirty, f.content)
    requires Contiguous(secs, q, s, cc) && s + cc <= |d| && u < cc
    ensures f.dirty && f.dsect == s + u ==> Shows(b, f.content, q + u)
    ensures !(f.dirty && f.dsect == s + u) ==> Shows(Chunk(ReadSectors(d, s, cc), u), f.content, q + u)
  {
    hide Shows, ReadSectors;
    ReadSectorsAt(d, s, cc, u);
    assert Held(secs[q + u], d, b, f.dsect, f.dirty, f.content, q + u);
  }

  // ---- one round of the read loop

  /** The cursor after n bytes inside sector q of the buffer. */
  lemma CursorInSector(g: Geometry, f: File, n: nat)
    requires g.csize > 0 && Clusters(g, f.chain)
    requires n > 0 && Rem(f.fptr, SS) + n <= SS && f.fptr + n <= |f.content|
    requires AtCluster(g, f, Quot(f.fptr, SS)) && Buffered(g, f, Quot(f.fptr, SS))
    ensures Cursor(g, f.(fptr := f.fptr + n))
  {
    SameSector(f.fptr, n);
  }

  /** The cursor after cc whole sectors of one cluster. */
  lemma CursorAfterSectors(g: Geometry, f: File, cc: nat)
    requires g.csize > 0 && Clusters(g, f.chain)
    requires cc > 0 && Rem(f.fptr, SS) == 0 && f.fptr + 512 * cc <= |f.content|
    requires Rem(Quot(f.fptr, SS), g.csize) + cc <= g.csize
    requires AtCluster(g, f, Quot(f.fptr, SS))
    ensures Cursor(g, f.(fptr := f.fptr + 512 * cc))
  {
    WholeSectors(f.fptr, cc);
    SameCluster(Quot(f.fptr, SS), cc - 1, g.csize);
  }

  /** Inside a sector, clust and buffer are those of the byte at the pointer. */
  lemma CursorInside(g: Geometry, f: File)
    requires g.csize > 0 && Clusters(g, f.chain) && Cursor(g, f) && Rem(f.fptr, SS) != 0
    ensures AtCluster(g, f, Quot(f.fptr, SS)) && Buffered(g, f, Quot(f.fptr, SS))
  {
    Split(f.fptr, 512);
    Join(f.fptr - 1, 512, Quot(f.fptr, SS), Rem(f.fptr, SS) - 1);
  }

  /** The n bytes of the buffer from the pointer on, inside the sector. */
  lemma CopiedOut(g: Geometry, t: Links, d: Disk, w: nat, b: Sector, f: File, n: nat)
    requires Based(g, t, d, w, b, f) && g.csize > 0 && Clusters(g, f.chain)
    requires 0 < n && Rem(f.fptr, SS) + n <= SS && f.fptr + n <= |f.content|
    requires AtCluster(g, f, Quot(f.fptr, SS)) && Buffered(g, f, Quot(f.fptr, SS))
    ensures Agrees(b[Rem(f.fptr, SS)..Rem(f.fptr, SS) + n], f.content, f.fptr)
    ensures Cursor(g, f.(fptr := f.fptr + n))
    ensures Based(g, t, d, w, b, f.(fptr := f.fptr + n))
  {
    var q, ofs := Quot(f.fptr, SS), Rem(f.fptr, SS);
    Split(f.fptr, 512);
    assert Held(Sectors(g, f.chain)[q], d, b, f.dsect, f.dirty, f.content, q);
    ShownSlice(b, f.content, q, ofs, n);
    CursorInSector(g, f, n);
    BaseCursor(g, t, d, w, b, f, f.clust, f.fptr + n);
  }

  /** Copy the rest of the buffered sector, at most n bytes of it. */
  method CopyOut(fp: Fil, n: nat) returns (chunk: seq<Byte>)
    requires fp.Ready() && Clusters(fp.fs.geo, fp.chain) && fp.fs.geo.csize > 0
    requires 0 < n && fp.fptr + n <= |fp.content|
    requires AtCluster(fp.fs.geo, fp.State(), Quot(fp.fptr, SS)) && Buffered(fp.fs.geo, fp.State(), Quot(fp.fptr, SS))
    modifies fp`fptr
    ensures fp.Ready() && Cursor(fp.fs.geo, fp.State())
    ensures 0 < |chunk| <= n && Agrees(chunk, fp.content, old(fp.fptr))
    ensures fp.fptr == old(fp.fptr) + |chunk|
    ensures fp.fs.Logical() == old(fp.fs.Logical()) && Fat(fp.fs) == old(Fat(fp.fs))
  {
    hide Based, Cursor, Agrees, AtCluster, Buffered, Quot, Rem, Clusters, FatFs.Valid, FatFs.Logical, Fat;
    var ofs := Rem(fp.fptr, SS);
    var rcnt := SS - ofs;
    if rcnt > n {
      rcnt := n;
    }
    CopiedOut(fp.fs.geo, Fat(fp.fs), fp.fs.Logical(), fp.fs.winsect, fp.buf[..], fp.State(), rcnt);
    chunk := fp.buf[..][ofs..ofs + rcnt];
    fp.fptr := fp.fptr + rcnt;
  }

  /** Read cc whole sectors of the cluster directly and advance the pointer. */
  method TakeSectors(fp: Fil, sect: nat, cc: nat) returns (chunk: seq<Byte>)
    requires fp.Ready() && Rem(fp.fptr, SS) == 0 && Clusters(fp.fs.geo, fp.chain) && fp.fs.geo.csize > 0
    requires 0 < cc && fp.fptr + SS * cc <= |fp.content| && Rem(Quot(fp.fptr, SS), fp.fs.geo.csize) + cc <= fp.fs.geo.csize
    requires AtCluster(fp.fs.geo, fp.State(), Quot(fp.fptr, SS))
    requires Quot(fp.fptr, SS) < |Sectors(fp.fs.geo, fp.chain)| && sect == Sectors(fp.fs.geo, fp.chain)[Quot(fp.fptr, SS)]
    modifies fp`fptr
    ensures fp.Ready() && Cursor(fp.fs.geo, fp.State())
    ensures |chunk| == SS * cc && Agrees(chunk, fp.content, old(fp.fptr)) && fp.fptr == old(fp.fptr) + |chunk|
    ensures fp.fs.Logical() == old(fp.fs.Logical()) && Fat(fp.fs) == old(Fat(fp.fs))
  {
    ghost var q := Quot(fp.fptr, SS);
    Split(fp.fptr, 512);
    ReadyIsBased(fp);
    ClusterIsContiguous(fp.fs.geo, fp.chain, q, cc);
    CursorAfterSectors(fp.fs.geo, fp.State(), cc);
    AdvancedPointer(fp, SS * cc);
    hide Based, Cursor, AtCluster, Contiguous, Quot, Rem, Clusters, Sectors;
    chunk := ReadDirect(fp, sect, cc, q);
    fp.fptr := fp.fptr + SS * cc;
  }

  /** What f_read does on a sector boundary once clust is right: read whole sectors, or fill the buffer. */
  method Transfer(fp: Fil, n: nat, sect: nat, csect: nat) returns (chunk: seq<Byte>)
    requires fp.Ready() && Rem(fp.fptr, SS) == 0 && Clusters(fp.fs.geo, fp.chain) && fp.fs.geo.csize > 0
    requires 0 < n && fp.fptr + n <= |fp.content|
    requires csect == Rem(Quot(fp.fptr, SS), fp.fs.geo.csize)
    requires AtCluster(fp.fs.geo, fp.State(), Quot(fp.fptr, SS))
    requires Quot(fp.fptr, SS) < |Sectors(fp.fs.geo, fp.chain)| && sect == Sectors(fp.fs.geo, fp.chain)[Quot(fp.fptr, SS)]
    modifies fp`dsect, fp`dirty, fp`fptr, fp.buf, fp.fs`disk
    ensures fp.Ready()
    ensures if chunk == [] then
              && fp.fptr == old(fp.fptr)
              && AtCluster(fp.fs.geo, fp.State(), Quot(fp.fptr, SS)) && Buffered(fp.fs.geo, fp.State(), Quot(fp.fptr, SS))
            else
              && |chunk| <= n && Agrees(chunk, fp.content, old(fp.fptr))
              && fp.fptr == old(fp.fptr) + |chunk| && Cursor(fp.fs.geo, fp.State())
    ensures Fat(fp.fs) == old(Fat(fp.fs))
    ensures Untouched(fp.fs.geo, old(Fat(fp.fs)), old(fp.fs.Logical()), Fat(fp.fs), fp.fs.Logical(), fp.chain, fp.chain)
  {
    UntouchedReflexive(fp.fs.geo, Fat(fp.fs), fp.fs.Logical(), fp.chain);
    Split(n, 512);
    hide Based, Cursor, FatFs.Valid, FatFs.Logical, Fat, Quot, Rem, Untouched, Agrees;
    var cc := Quot(n, SS);
    if cc > 0 {
      if csect + cc > fp.fs.geo.csize {
        cc := fp.fs.geo.csize - csect;
      }
      chunk := TakeSectors(fp, sect, cc);
    } else {
      chunk := [];
      LoadSector(fp, sect, Quot(fp.fptr, SS));
    }
  }

  lemma BeforeReading(fp: Fil)
    requires fp.Ready()
    ensures fp.fs.geo.csize > 0 && Clusters(fp.fs.geo, fp.chain)
    ensures Untouched(fp.fs.geo, Fat(fp.fs), fp.fs.Logical(), Fat(fp.fs), fp.fs.Logical(), fp.chain, fp.chain)
  {
    UntouchedReflexive(fp.fs.geo, Fat(fp.fs), fp.fs.Logical(), fp.chain);
  }

  /** One round of f_read's loop. */
  method ReadRound(fp: Fil, n: nat) returns (res: FResult, chunk: seq<Byte>)
    requires fp.Ready() && Cursor(fp.fs.geo, fp.State())
    requires 0 < n && fp.fptr + n <= |fp.content|
    modifies fp`clust, fp`dsect, fp`dirty, fp`fptr, fp.buf, fp.fs`disk, fp.fs`wflag, fp.fs`winsect, fp.fs.win
    ensures fp.Ready() && Cursor(fp.fs.geo, fp.State())
    ensures res == FrOk && 0 < |chunk| <= n && Agrees(chunk, fp.content, old(fp.fptr)) && fp.fptr == old(fp.fptr) + |chunk|
    ensures Fat(fp.fs) == old(Fat(fp.fs)) && Clusters(fp.fs.geo, fp.chain)
    ensures Untouched(fp.fs.geo, old(Fat(fp.fs)), old(fp.fs.Logical()), Fat(fp.fs), fp.fs.Logical(), fp.chain, fp.chain)
    ensures fp.fs.winsect == old(fp.fs.winsect) || fp.fs.geo.InFat(fp.fs.winsect)
  {
    hide Based, FatFs.Valid, FatFs.Logical, Fat, Quot, Rem, Untouched, Agrees, Clusters, AtCluster, Buffered, Geometry.Valid, Cursor;
    var csize := fp.fs.geo.csize;
    BeforeReading(fp);
    ReadyIsBased(fp);
    res := FrOk;
    if Rem(fp.fptr, SS) == 0 {
      var csect := Rem(Quot(fp.fptr, SS), csize);
      res := FollowForRead(fp, csect);
      SectorOfCluster(fp.fs.geo, fp.State(), Quot(fp.fptr, SS));
      var sect := Clust2Sect(fp.fs.geo, fp.clust);
      chunk := Transfer(fp, n, sect + csect, csect);
      if chunk != [] {
        return;
      }
    } else {
      CursorInside(fp.fs.geo, fp.State());
    }
    chunk := CopyOut(fp, n);
  }

  lemma BeforeRead(fp: Fil)
    requires fp.Valid()
    ensures Clusters(fp.fs.geo, fp.chain) && fp.fs.geo.csize > 0 && Cursor(fp.fs.geo, fp.State()) && fp.fptr <= fp.fsize
    ensures Untouched(fp.fs.geo, Fat(fp.fs), fp.fs.Logical(), Fat(fp.fs), fp.fs.Logical(), fp.chain, fp.chain)
    ensures Agrees([], fp.content, fp.fptr)
  {
    UntouchedReflexive(fp.fs.geo, Fat(fp.fs), fp.fs.Logical(), fp.chain);
  }

  method FRead(fp: Fil, btr: nat) returns (res: FResult, data: seq<Byte>)
    requires fp.Valid()
    modifies fp`clust, fp`dsect, fp`dirty, fp`fptr, fp.buf, fp.fs`disk, fp.fs`wflag, fp.fs`winsect, fp.fs.win
    ensures fp.Valid()
    ensures old(fp.err) != FrOk ==> res == old(fp.err) && data == [] && fp.fptr == old(fp.fptr)
    ensures old(fp.err) == FrOk && !fp.canRead ==> res == FrDenied && data == [] && fp.fptr == old(fp.fptr)
    ensures old(fp.err) == FrOk && fp.canRead ==>
              && res == FrOk
              && |data| == (if btr > fp.fsize - old(fp.fptr) then fp.fsize - old(fp.fptr) else btr)
              && fp.fptr == old(fp.fptr) + |data|
              && Agrees(data, fp.content, old(fp.fptr))
    ensures Fat(fp.fs) == old(Fat(fp.fs)) && Clusters(fp.fs.geo, fp.chain)
    ensures Untouched(fp.fs.geo, old(Fat(fp.fs)), old(fp.fs.Logical()), Fat(fp.fs), fp.fs.Logical(), fp.chain, fp.chain)
    ensures fp.fs.winsect == old(fp.fs.winsect) || fp.fs.geo.InFat(fp.fs.winsect)
  {
    hide Based, Cursor, FatFs.Valid, FatFs.Logical, Fat, Untouched, Agrees, Clusters;
    BeforeRead(fp);
    ghost var g, t, d := fp.fs.geo, Fat(fp.fs), fp.fs.Logical();
    data := [];
    if fp.err != FrOk {
      return fp.err, [];
    }
    if !fp.canRead {
      return FrDenied, [];
    }
    res := FrOk;
    var remain := fp.fsize - fp.fptr;
    var left := if btr > remain then remain else btr;
    while left > 0
      invariant fp.Ready() && Cursor(g, fp.State()) && res == FrOk
      invariant fp.fptr == old(fp.fptr) + |data|
      invariant left >= 0 && left + |data| == if btr > remain then remain else btr
      invariant Agrees(data, fp.content, old(fp.fptr))
      invariant Fat(fp.fs) == t
      invariant fp.fs.winsect == old(fp.fs.winsect) || g.InFat(fp.fs.winsect)
      invariant Untouched(g, t, d, t, fp.fs.Logical(), fp.chain, fp.chain)
    {
      ghost var e := fp.fs.Logical();
      var chunk;
      res, chunk := ReadRound(fp, left);
      UntouchedTransitive(g, t, d, t, e, t, fp.fs.Logical(), fp.chain, fp.chain, fp.chain);
      AgreesAppend(data, chunk, fp.content, old(fp.fptr));
      data := data + chunk;
      left := left - |chunk|;
    }
  }

  lemma ReadyIsBased(fp: Fil)
    requires fp.Ready()
    ensures fp.fs.geo.Valid()
  {
  }

  lemma AdvancedPointer(fp: Fil, n: nat)
    requires fp.Ready()
    ensures Based(fp.fs.geo, Fat(fp.fs), fp.fs.Logical(), fp.fs.winsect, fp.buf[..], fp.State().(fptr := fp.fptr + n))
  {
    BaseCursor(fp.fs.geo, Fat(fp.fs), fp.fs.Logical(), fp.fs.winsect, fp.buf[..], fp.State(), fp.clust, fp.fptr + n);
  }
}
