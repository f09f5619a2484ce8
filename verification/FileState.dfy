/**
 * The state of an open file as values, and what each step of f_read, f_write,
 * f_lseek and f_truncate does to it.
 */
module FileState {
  import opened Arith
  import opened Bytes
  import opened Layout
  import opened Window
  import opened Chains
  import opened FileView

  /** The members of FIL that the data path uses, with the file's chain and abstract content. */
  datatype File = File(
    sclust: nat, clust: nat, dsect: nat, fptr: nat, dirty: bool, chain: seq<nat>, content: Content)

  /** ch is the file's chain: none for start cluster 0, otherwise the list that starts there. */
  ghost predicate ChainOf(g: Geometry, t: Links, sclust: nat, ch: seq<nat>) {
    && Clusters(g, ch)
    && (ch == [] <==> sclust == 0)
    && (ch != [] ==> ch[0] == sclust && IsChain(t, ch))
  }

  /** Chain, medium and buffer hold the content, and the window stays off the file's sectors. */
  ghost predicate Based(g: Geometry, t: Links, d: Disk, w: nat, b: Sector, f: File) {
    && g.Valid() && |t| == g.nFatent && g.VolumeEnd() <= |d|
    && ChainOf(g, t, f.sclust, f.chain)
    && Overlay(Sectors(g, f.chain), d, b, f.dsect, f.dirty, f.content)
    && w !in Sectors(g, f.chain)
  }

  /** clust is the cluster of file sector q. */
  ghost predicate AtCluster(g: Geometry, f: File, q: nat)
    requires g.csize > 0
  {
    Quot(q, g.csize) < |f.chain| && f.clust == f.chain[Quot(q, g.csize)]
  }

  /** dsect is the medium sector of file sector q. */
  ghost predicate Buffered(g: Geometry, f: File, q: nat)
    requires Clusters(g, f.chain)
  {
    q < |Sectors(g, f.chain)| && f.dsect == Sectors(g, f.chain)[q]
  }

  /** The key invariant: clust holds byte fptr - 1, and inside a sector the buffer overlays it. */
  ghost predicate Cursor(g: Geometry, f: File)
    requires g.csize > 0 && Clusters(g, f.chain)
  {
    && f.fptr <= |f.content|
    && (f.fptr > 0 ==> AtCluster(g, f, Quot(f.fptr - 1, SS)))
    && (Rem(f.fptr, SS) != 0 ==> Buffered(g, f, Quot(f.fptr, SS)))
  }

  // ---- positions

  /** On a sector boundary the byte before lies in the sector before. */
  lemma PrevSector(p: nat)
    requires p > 0 && Rem(p, SS) == 0
    ensures Quot(p, SS) > 0 && Quot(p - 1, SS) == Quot(p, SS) - 1
    ensures p == 512 * Quot(p, SS)
  {
    Split(p, 512);
    Join(p - 1, 512, Quot(p, SS) - 1, 511);
  }

  /** n more bytes of the same sector. */
  lemma SameSector(p: nat, n: nat)
    requires n > 0 && Rem(p, SS) + n <= SS
    ensures Quot(p + n - 1, SS) == Quot(p, SS)
    ensures p == 512 * Quot(p, SS) + Rem(p, SS)
    ensures if Rem(p, SS) + n == SS then Rem(p + n, SS) == 0
            else Rem(p + n, SS) == Rem(p, SS) + n && Quot(p + n, SS) == Quot(p, SS)
  {
    Split(p, 512);
    Join(p + n - 1, 512, Quot(p, SS), Rem(p, SS) + n - 1);
    if Rem(p, SS) + n == SS {
      Join(p + n, 512, Quot(p, SS) + 1, 0);
    } else {
      Join(p + n, 512, Quot(p, SS), Rem(p, SS) + n);
    }
  }

  /** cc whole sectors from a sector boundary. */
  lemma WholeSectors(p: nat, cc: nat)
    requires cc > 0 && Rem(p, SS) == 0
    ensures p == 512 * Quot(p, SS)
    ensures Quot(p + 512 * cc - 1, SS) == Quot(p, SS) + cc - 1
    ensures Rem(p + 512 * cc, SS) == 0
  {
    Split(p, 512);
    Join(p + 512 * cc - 1, 512, Quot(p, SS) + cc - 1, 511);
    Join(p + 512 * cc, 512, Quot(p, SS) + cc, 0);
  }

  /** Sectors of one cluster belong to it, and the first of the next does not. */
  lemma {:induction false} SameCluster(q: nat, n: nat, csize: nat)
    requires csize > 0 && Rem(q, csize) + n < csize
    ensures Quot(q + n, csize) == Quot(q, csize) && Rem(q + n, csize) == Rem(q, csize) + n
  {
    QuotRem(q, csize);
    QuotRemUnique(q + n, csize, Quot(q, csize), Rem(q, csize) + n);
  }

  lemma PrevCluster(q: nat, csize: nat)
    requires csize > 0 && q > 0
    ensures if Rem(q, csize) == 0 then Quot(q, csize) == Quot(q - 1, csize) + 1 else Quot(q, csize) == Quot(q - 1, csize)
  {
    QuotRemStep(q - 1, csize);
  }

  /** The cluster index of a position inside the chain's sectors. */
  lemma ClusterIndex(q: nat, k: nat, csize: nat)
    requires csize > 0 && q < Times(k, csize)
    ensures Quot(q, csize) < k
  {
    QuotRem(q, csize);
    if Quot(q, csize) >= k {
      TimesMonotone(k, Quot(q, csize), csize);
    }
  }

  // ---- entering the next cluster

  /** What f_read follows at a cluster boundary is the cluster of the next byte. */
  lemma NextCluster(g: Geometry, t: Links, f: File)
    requires g.Valid() && ChainOf(g, t, f.sclust, f.chain) && |t| == g.nFatent
    requires |f.content| <= |Sectors(g, f.chain)| * 512
    requires Cursor(g, f) && f.fptr < |f.content|
    requires Rem(f.fptr, SS) == 0
    ensures var q := Quot(f.fptr, SS);
            && Quot(q, g.csize) < |f.chain| && q < |Sectors(g, f.chain)|
            && (Rem(q, g.csize) != 0 ==> f.fptr > 0 && f.clust == f.chain[Quot(q, g.csize)])
            && (Rem(q, g.csize) == 0 && f.fptr > 0 ==>
                  g.IsCluster(f.clust) && t[f.clust] == f.chain[Quot(q, g.csize)])
            && (f.fptr == 0 ==> q == 0 && f.sclust == f.chain[0] && Rem(q, g.csize) == 0)
  {
    var q := Quot(f.fptr, SS);
    Split(f.fptr, 512);
    ClusterIndex(q, |f.chain|, g.csize);
    if f.fptr > 0 {
      PrevSector(f.fptr);
      PrevCluster(q, g.csize);
      if Rem(q, g.csize) == 0 {
        var k := Quot(q - 1, g.csize);
        assert t[f.chain[k]] == f.chain[k + 1];
      }
    }
  }

  /** clust2sect of the cluster plus the offset in it is the sector of the position. */
  lemma SectorOfCluster(g: Geometry, f: File, q: nat)
    requires g.Valid() && Clusters(g, f.chain)
    requires q < |Sectors(g, f.chain)| && AtCluster(g, f, q)
    ensures g.IsCluster(f.clust)
    ensures g.ClusterBase(f.clust) + Rem(q, g.csize) == Sectors(g, f.chain)[q]
  {
    SectorAt(g, f.chain, q);
  }

  /** Sectors of the rest of a cluster are consecutive on the medium. */
  lemma ClusterIsContiguous(g: Geometry, ch: seq<nat>, q: nat, cc: nat)
    requires g.Valid() && Clusters(g, ch)
    requires cc > 0 && Rem(q, g.csize) + cc <= g.csize && q < |Sectors(g, ch)|
    ensures Contiguous(Sectors(g, ch), q, Sectors(g, ch)[q], cc)
  {
    var n := |ch|;
    QuotRem(q, g.csize);
    ClusterIndex(q, n, g.csize);
    TimesMonotone(Quot(q, g.csize), n, g.csize);
    SectorAt(g, ch, q);
    forall p | q <= p < q + cc
      ensures p < |Sectors(g, ch)| && Sectors(g, ch)[p] == Sectors(g, ch)[q] + (p - q)
    {
      SameCluster(q, p - q, g.csize);
      SectorAt(g, ch, p);
    }
  }

  // ---- frames

  /** The invariant does not depend on the cursor. */
  lemma BaseCursor(g: Geometry, t: Links, d: Disk, w: nat, b: Sector, f: File, clust: nat, fptr: nat)
    requires Based(g, t, d, w, b, f)
    ensures Based(g, t, d, w, b, f.(clust := clust, fptr := fptr))
  {
  }

  /** The window may move to any FAT sector. */
  lemma BaseWindow(g: Geometry, t: Links, d: Disk, w: nat, v: nat, b: Sector, f: File)
    requires Based(g, t, d, w, b, f) && g.InFat(v)
    ensures Based(g, t, d, v, b, f)
  {
    if v in Sectors(g, f.chain) {
      var q :| 0 <= q < |Sectors(g, f.chain)| && Sectors(g, f.chain)[q] == v;
      SectorInCluster(g, f.chain, q);
    }
  }

  lemma BaseSectors(g: Geometry, t: Links, d: Disk, w: nat, b: Sector, f: File)
    requires Based(g, t, d, w, b, f)
    ensures g.csize > 0 && Clusters(g, f.chain)
    ensures |f.content| <= |Sectors(g, f.chain)| * 512
    ensures Distinct(Sectors(g, f.chain))
    ensures f.dirty ==> f.dsect in Sectors(g, f.chain)
    ensures forall q {:trigger Sectors(g, f.chain)[q]} :: 0 <= q < |Sectors(g, f.chain)| ==>
              && g.database <= Sectors(g, f.chain)[q] < g.VolumeEnd()
              && Sectors(g, f.chain)[q] != w
  {
    if f.chain != [] {
      ChainIsAcyclic(t, f.chain);
    }
    SectorsDistinct(g, f.chain);
    forall q | 0 <= q < |Sectors(g, f.chain)|
      ensures g.database <= Sectors(g, f.chain)[q] < g.VolumeEnd()
    {
      SectorInCluster(g, f.chain, q);
    }
  }

  /**
   * From (t, d) to (t2, d2) only the file whose chain grew or shrank from ch to ch2
   * changed: every other cluster keeps its FAT value and its sectors, and so does
   * every sector before the data area that is not FAT; clusters taken were free.
   */
  ghost predicate Untouched(g: Geometry, t: Links, d: Disk, t2: Links, d2: Disk, ch: seq<nat>, ch2: seq<nat>)
    requires Clusters(g, ch) && Clusters(g, ch2)
  {
    && |t2| == |t| && |d2| == |d|
    && (forall c :: 0 <= c < |t| && c !in ch && c !in ch2 ==> t2[c] == t[c])
    && (forall s: nat {:trigger d[s]} {:trigger d2[s]} ::
          s < |d| && !(g.fatbase <= s < g.fatbase + g.FatArea()) && s !in Sectors(g, ch) && s !in Sectors(g, ch2) ==>
          d2[s] == d[s])
    && (forall c :: c in ch2 ==> c in ch || (c < |t| && t[c] == 0))
  }

  /** Such changes keep FSINFO current as long as changes of the free count are noted. */
  lemma InfoKeptByFile(g: Geometry, t: Links, d: Disk, t2: Links, d2: Disk, ch: seq<nat>, ch2: seq<nat>,
                       enabled: bool, f0: nat, n0: bool, f1: nat, n1: bool)
    requires g.Valid() && Clusters(g, ch) && Clusters(g, ch2) && Untouched(g, t, d, t2, d2, ch, ch2) && Noted(f0, n0, f1, n1)
    ensures InfoHeld(g, enabled, d, f0, n0) ==> InfoHeld(g, enabled, d2, f1, n1)
  {
    hide LoadedFree;
    var s := g.volbase + 1;
    if FsInfoReserved(g) && s < |d| {
      BeforeData(g, ch, s);
      BeforeData(g, ch2, s);
    }
    InfoStays(g, enabled, d, d2, f0, n0, f1, n1);
  }

  lemma BeforeData(g: Geometry, ch: seq<nat>, s: nat)
    requires g.Valid() && Clusters(g, ch) && s < g.database
    ensures s !in Sectors(g, ch)
  {
    forall q | 0 <= q < |Sectors(g, ch)|
      ensures Sectors(g, ch)[q] != s
    {
      SectorInCluster(g, ch, q);
    }
  }

  lemma UntouchedReflexive(g: Geometry, t: Links, d: Disk, ch: seq<nat>)
    requires Clusters(g, ch)
    ensures Untouched(g, t, d, t, d, ch, ch)
  {
  }

  /** Steps of an operation whose chain only grows compose. */
  lemma UntouchedTransitive(g: Geometry, t: Links, d: Disk, t1: Links, d1: Disk, t2: Links, d2: Disk,
                            ch: seq<nat>, ch1: seq<nat>, ch2: seq<nat>)
    requires Clusters(g, ch) && Clusters(g, ch1) && Clusters(g, ch2)
    requires Untouched(g, t, d, t1, d1, ch, ch1) && Untouched(g, t1, d1, t2, d2, ch1, ch2)
    requires ch <= ch1 <= ch2
    ensures Untouched(g, t, d, t2, d2, ch, ch2)
  {
    assert forall c :: c in ch1 ==> c in ch2;
    forall s: nat | s in Sectors(g, ch1)
      ensures s in Sectors(g, ch2)
    {
      SectorsPrefix(g, ch2, |ch1|);
      assert ch2[..|ch1|] == ch1;
      var q :| 0 <= q < |Sectors(g, ch1)| && Sectors(g, ch1)[q] == s;
      assert Sectors(g, ch2)[q] == s;
    }
    forall c | c in ch2
      ensures c in ch || (c < |t| && t[c] == 0)
    {
      if c !in ch1 {
        assert c !in ch;
      }
    }
  }
}
