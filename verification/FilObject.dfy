/** The FIL object and the buffer transfers that its operations share. */
module FilObject {
  import opened Arith
  import opened Bytes
  import opened Layout
  import opened Window
  import opened FatTable
  import opened Chains
  import opened FileView
  import opened FileState
  import opened DiskIO

  const DIR_FstClusHI: nat := 20
  const DIR_FstClusLO: nat := 26
  const DIR_FileSize: nat := 28

  /** ld_clust: the start cluster in the directory entry at offset k. */
  function LdClust(g: Geometry, s: Sector, k: nat): nat
    requires k + 32 <= 512
  {
    LdWord(s, k + DIR_FstClusLO) + (if g.fatType == Fat32 then 0x1_0000 * LdWord(s, k + DIR_FstClusHI) else 0)
  }

  /** The first size bytes of the chain's sectors on d. */
  ghost function Stored(g: Geometry, d: Disk, ch: seq<nat>, size: nat): (r: Content)
    requires g.Valid() && g.VolumeEnd() <= |d| && Clusters(g, ch) && size <= |Sectors(g, ch)| * 512
    ensures |r| == size
  {
    seq(size, i requires 0 <= i < size => StoredByte(g, d, ch, i))
  }

  ghost function StoredByte(g: Geometry, d: Disk, ch: seq<nat>, i: nat): (r: Option<Byte>)
    requires g.Valid() && g.VolumeEnd() <= |d| && Clusters(g, ch) && i < |Sectors(g, ch)| * 512
  {
    Split(i, 512);
    SectorInCluster(g, ch, Quot(i, SS));
    Some(d[Sectors(g, ch)[Quot(i, SS)]][Rem(i, SS)])
  }

  lemma StoredIsShown(g: Geometry, d: Disk, ch: seq<nat>, b: Sector, size: nat)
    requires g.Valid() && g.VolumeEnd() <= |d| && Clusters(g, ch) && size <= |Sectors(g, ch)| * 512
    ensures Overlay(Sectors(g, ch), d, b, 0, false, Stored(g, d, ch, size))
  {
    var secs, content := Sectors(g, ch), Stored(g, d, ch, size);
    forall q | 0 <= q < |secs|
      ensures Held(secs[q], d, b, 0, false, content, q)
    {
      SectorInCluster(g, ch, q);
      forall i | q * 512 <= i < q * 512 + 512 && i < |content|
        ensures content[i] == Some(d[secs[q]][i - q * 512])
      {
        Join(i, 512, q, i - q * 512);
      }
    }
  }

  class Fil {
    const fs: FatFs
    const buf: array<Byte>
    const canRead: bool // FA_READ
    const canWrite: bool // FA_WRITE
    const dirSect: nat // sector of the directory entry
    const dirOfs: nat // offset of the entry in that sector (dir_ptr - win)
    var dirty: bool // FA__DIRTY
    var written: bool // FA__WRITTEN
    var err: FResult
    var fptr: nat
    var fsize: nat
    var sclust: nat
    var clust: nat
    var dsect: nat
    ghost var chain: seq<nat>
    ghost var content: Content

    ghost function State(): File
      reads this
    {
      File(sclust, clust, dsect, fptr, dirty, chain, content)
    }

    /**
     * The end of f_open: the directory entry is in the window, start cluster and size
     * come from it, and the content is what the medium holds.
     */
    constructor Open(volume: FatFs, entry: nat, read: bool, write: bool, changed: bool, ghost ch: seq<nat>)
      requires volume.Valid() && entry + 32 <= 512
      requires ChainOf(volume.geo, Fat(volume), LdClust(volume.geo, volume.win[..], entry), ch)
      requires LdDword(volume.win[..], entry + DIR_FileSize) <= |Sectors(volume.geo, ch)| * 512
      requires volume.winsect !in Sectors(volume.geo, ch)
      ensures Valid() && fresh(buf)
      ensures fs == volume && dirSect == volume.winsect && dirOfs == entry
      ensures canRead == read && canWrite == write && written == changed && err == FrOk && !dirty
      ensures fptr == 0 && fsize == LdDword(volume.win[..], entry + DIR_FileSize)
      ensures sclust == LdClust(volume.geo, volume.win[..], entry) && chain == ch
      ensures content == Stored(volume.geo, volume.Logical(), ch, fsize)
    {
      fs := volume;
      canRead, canWrite, written, err := read, write, changed, FrOk;
      dirSect, dirOfs := volume.winsect, entry;
      sclust := LdClust(volume.geo, volume.win[..], entry);
      fsize := LdDword(volume.win[..], entry + DIR_FileSize);
      fptr, clust, dsect, dirty := 0, 0, 0, false;
      buf := new Byte[512](i => 0);
      chain := ch;
      content := Stored(volume.geo, volume.Logical(), ch, LdDword(volume.win[..], entry + DIR_FileSize));
      new;
      Powers256();
      LdLeBound(volume.win[..], entry + DIR_FileSize, 4);
      StoredIsShown(volume.geo, volume.Logical(), ch, buf[..], fsize);
    }

    ghost predicate Ready()
      reads this, fs, fs.win, buf
    {
      && fs.Valid() && buf.Length == 512 && buf != fs.win
      && Based(fs.geo, Fat(fs), fs.Logical(), fs.winsect, buf[..], State())
    }

    ghost predicate Valid()
      reads this, fs, fs.win, buf
    {
      && Ready() && Cursor(fs.geo, State())
      && |content| == fsize < 0x1_0000_0000
    }
  }

  /** clust2sect */
  function Clust2Sect(g: Geometry, c: nat): nat {
    if g.IsCluster(c) then g.ClusterBase(c) else 0
  }

  /** if (fp->flag & FA__DIRTY) { disk_write(buf, dsect); fp->flag &= ~FA__DIRTY; } */
  method FlushBuffer(fp: Fil)
    requires fp.Ready()
    modifies fp`dirty, fp.fs`disk
    ensures fp.Ready() && fp.State() == old(fp.State()).(dirty := false)
    ensures Fat(fp.fs) == old(Fat(fp.fs))
    ensures Clusters(fp.fs.geo, fp.chain)
    ensures Untouched(fp.fs.geo, old(Fat(fp.fs)), old(fp.fs.Logical()), Fat(fp.fs), fp.fs.Logical(), fp.chain, fp.chain)
  {
    hide Table, Mirrored, Overlay, Untouched, Geometry.Valid;
    BaseSectors(fp.fs.geo, Fat(fp.fs), fp.fs.Logical(), fp.fs.winsect, fp.buf[..], fp.State());
    ghost var g, t, d, b, f := fp.fs.geo, Fat(fp.fs), fp.fs.Logical(), fp.buf[..], fp.State();
    if fp.dirty {
      DiskWrite(fp.fs, fp.dsect, fp.buf[..], 1);
      fp.dirty := false;
      BaseFlush(g, t, d, fp.fs.winsect, b, f);
    } else {
      UntouchedReflexive(g, t, d, fp.chain);
    }
  }

  lemma BaseFlush(g: Geometry, t: Links, d: Disk, w: nat, b: Sector, f: File)
    requires Based(g, t, d, w, b, f) && f.dirty
    ensures f.dsect < |d| && Clusters(g, f.chain)
    ensures Based(g, t, WriteSectors(d, f.dsect, b, 1), w, b, f.(dirty := false))
    ensures Untouched(g, t, d, t, WriteSectors(d, f.dsect, b, 1), f.chain, f.chain)
  {
    BaseSectors(g, t, d, w, b, f);
    FlushKeeps(Sectors(g, f.chain), d, b, f.dsect, f.content);
    assert Chunk(b, 0) == b;
    assert WriteSectors(d, f.dsect, b, 1) == d[f.dsect := b];
  }
}
