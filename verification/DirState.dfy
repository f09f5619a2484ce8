/** A directory on the volume as values: its sectors, its slots, and where a DIR object stands in it. */
module DirState {
  import opened Arith
  import opened Bytes
  import opened Layout
  import opened Window
  import opened Chains
  import opened FatTable
  import opened ChainOps
  import opened FileView
  import opened FileState
  import opened FilObject
  import opened FileGrow
  import opened Lfn
  import opened Directory

  const SZ_DIR: nat := 32
  const PER_SECTOR: nat := 16 // SS / SZ_DIR
  const MAX_SLOTS: nat := 0x1_0000 // the index is a WORD

  /** The start cluster dir_sdi goes to: 0 stands for the root directory. */
  function StartOf(g: Geometry, sclust: nat): nat {
    if sclust == 0 && g.fatType == Fat32 then g.dirbase else sclust
  }

  /** A directory table: the fixed root area for start 0, otherwise a chain. */
  ghost predicate DirBased(g: Geometry, t: Links, d: Disk, sclust: nat, ch: seq<nat>) {
    && g.Valid() && g.RootFits() && |t| == g.nFatent && g.VolumeEnd() <= |d|
    && sclust != 1 && sclust < g.nFatent
    && ChainOf(g, t, StartOf(g, sclust), ch)
    && (ch == [] ==> g.fatType != Fat32)
  }

  /** The sectors of the table, in order. */
  ghost function DirSecs(g: Geometry, ch: seq<nat>): (r: seq<nat>)
    requires Clusters(g, ch)
  {
    if ch == [] then Run(g.dirbase, g.nRootdir / 16) else Sectors(g, ch)
  }

  /** A table sector belongs to the fixed root or to a data cluster. */
  ghost predicate DirSector(g: Geometry, s: nat) {
    g.fatbase + g.FatArea() <= s && s > 0 && !g.InFat(s) && !g.InMirror(s) && (g.nFatent >= 2 ==> s < g.VolumeEnd())
  }

  lemma DirSecsPlaced(g: Geometry, t: Links, d: Disk, sclust: nat, ch: seq<nat>)
    requires DirBased(g, t, d, sclust, ch)
    ensures Clusters(g, ch) && |DirSecs(g, ch)| > 0 && Distinct(DirSecs(g, ch))
    ensures forall q {:trigger DirSecs(g, ch)[q]} :: 0 <= q < |DirSecs(g, ch)| ==> DirSector(g, DirSecs(g, ch)[q]) && DirSecs(g, ch)[q] < |d|
  {
    if ch == [] {
      assert g.VolumeEnd() >= g.database;
    } else {
      ChainIsAcyclic(t, ch);
      SectorsDistinct(g, ch);
      TimesMonotone(1, |ch|, g.csize);
      TimesNext(0, g.csize);
      forall q | 0 <= q < |Sectors(g, ch)|
        ensures DirSector(g, Sectors(g, ch)[q])
      {
        SectorInCluster(g, ch, q);
      }
    }
  }

  /** Where a DIR object stands: index, cluster, sector and offset of the slot in the window. */
  datatype Pos = Pos(index: nat, clust: nat, sect: nat, dir: nat)

  /** The slots that an index can reach in n sectors. */
  function Reach(n: nat): (r: nat)
    ensures r <= MAX_SLOTS
  {
    if n * PER_SECTOR < MAX_SLOTS then n * PER_SECTOR else MAX_SLOTS
  }

  lemma SlotSector(n: nat, i: nat)
    requires i < Reach(n)
    ensures Quot(i, PER_SECTOR) < n && Rem(i, PER_SECTOR) * SZ_DIR + SZ_DIR <= 512
  {
    QuotBelow(i, PER_SECTOR, n);
  }

  /** The position of slot i. */
  ghost function PosOf(g: Geometry, ch: seq<nat>, i: nat): (r: Pos)
    requires g.csize > 0 && Clusters(g, ch) && i < Reach(|DirSecs(g, ch)|)
    ensures r.dir + SZ_DIR <= 512
  {
    SlotSector(|DirSecs(g, ch)|, i);
    var q := Quot(i, PER_SECTOR);
    if ch == [] then Pos(i, 0, DirSecs(g, ch)[q], Rem(i, PER_SECTOR) * SZ_DIR)
    else
      SlotCluster(g, ch, i);
      Pos(i, ch[Quot(q, g.csize)], DirSecs(g, ch)[q], Rem(i, PER_SECTOR) * SZ_DIR)
  }

  lemma SlotCluster(g: Geometry, ch: seq<nat>, i: nat)
    requires g.csize > 0 && Clusters(g, ch) && i < Reach(|DirSecs(g, ch)|) && ch != []
    ensures Quot(i, PER_SECTOR) < |Sectors(g, ch)| && Quot(Quot(i, PER_SECTOR), g.csize) < |ch|
  {
    SlotSector(|DirSecs(g, ch)|, i);
    ClusterIndex(Quot(i, PER_SECTOR), |ch|, g.csize);
  }

  /** Slot i of a table. */
  ghost function SlotAt(d: Disk, secs: seq<nat>, i: nat): (r: Slot)
    requires (forall q :: 0 <= q < |secs| ==> secs[q] < |d|) && i < Reach(|secs|)
  {
    SlotSector(|secs|, i);
    d[secs[Quot(i, PER_SECTOR)]][Rem(i, PER_SECTOR) * SZ_DIR..][..SZ_DIR]
  }

  /** All slots of a table that an index reaches. */
  ghost function SlotsOf(d: Disk, secs: seq<nat>): (r: seq<Slot>)
    requires forall q :: 0 <= q < |secs| ==> secs[q] < |d|
    ensures |r| == Reach(|secs|) && forall i :: 0 <= i < |r| ==> r[i] == SlotAt(d, secs, i)
  {
    seq(Reach(|secs|), i requires 0 <= i < Reach(|secs|) => SlotAt(d, secs, i))
  }

  // ---- going from slot to slot

  /** The slot after i, in the same sector. */
  lemma NextInSector(g: Geometry, ch: seq<nat>, i: nat)
    requires g.csize > 0 && Clusters(g, ch) && i + 1 < Reach(|DirSecs(g, ch)|) && Rem(i + 1, PER_SECTOR) != 0
    ensures PosOf(g, ch, i + 1) == PosOf(g, ch, i).(index := i + 1, dir := Rem(i + 1, PER_SECTOR) * SZ_DIR)
  {
    QuotRemStep(i, PER_SECTOR);
  }

  /** The slot after i, in the next sector. */
  lemma NextInCluster(g: Geometry, ch: seq<nat>, i: nat)
    requires g.csize > 0 && Clusters(g, ch) && i + 1 < Reach(|DirSecs(g, ch)|) && Rem(i + 1, PER_SECTOR) == 0
    requires ch == [] || Rem(Quot(i + 1, PER_SECTOR), g.csize) != 0
    ensures PosOf(g, ch, i + 1) == Pos(i + 1, PosOf(g, ch, i).clust, PosOf(g, ch, i).sect + 1, 0)
  {
    hide Quot, Rem;
    var q := Quot(i, PER_SECTOR);
    QuotRemStep(i, PER_SECTOR);
    assert Quot(i + 1, PER_SECTOR) == q + 1;
    SlotSector(|DirSecs(g, ch)|, i + 1);
    if ch != [] {
      QuotRemStep(q, g.csize);
      SectorAt(g, ch, q);
      SectorAt(g, ch, q + 1);
    }
  }

  /** Where a slot that starts a sector that starts a cluster lies. */
  lemma ClusterStart(i: nat, n: nat)
    requires n > 0 && Rem(i + 1, PER_SECTOR) == 0 && Rem(Quot(i + 1, PER_SECTOR), n) == 0
    ensures var q := Quot(i, PER_SECTOR);
            && Quot(i + 1, PER_SECTOR) == q + 1 && i + 1 == 16 * (q + 1)
            && Quot(q + 1, n) == Quot(q, n) + 1 && q + 1 == Times(Quot(q, n) + 1, n)
  {
    var q := Quot(i, PER_SECTOR);
    QuotRemStep(i, PER_SECTOR);
    QuotRemStep(q, n);
    Split(i + 1, PER_SECTOR);
    QuotRem(q + 1, n);
  }

  /** The slot after i, in the next cluster. */
  lemma NextInChain(g: Geometry, t: Links, ch: seq<nat>, i: nat)
    requires g.csize > 0 && Clusters(g, ch) && ch != [] && IsChain(t, ch)
    requires i < Reach(|DirSecs(g, ch)|) && i + 1 < MAX_SLOTS && Rem(i + 1, PER_SECTOR) == 0
    requires Rem(Quot(i + 1, PER_SECTOR), g.csize) == 0
    ensures var c := PosOf(g, ch, i).clust;
            && g.IsCluster(c) && c < |t|
            && (i + 1 < Reach(|DirSecs(g, ch)|) ==>
                  2 <= t[c] < |t| && g.IsCluster(t[c]) && PosOf(g, ch, i + 1) == Pos(i + 1, t[c], g.ClusterBase(t[c]), 0))
            && (i + 1 >= Reach(|DirSecs(g, ch)|) ==> t[c] >= |t| && c == ch[|ch| - 1] && i + 1 == 16 * |Sectors(g, ch)|)
  {
    hide Quot, Rem, Times, Sectors;
    var q, n := Quot(i, PER_SECTOR), g.csize;
    ClusterStart(i, n);
    SlotCluster(g, ch, i);
    var k := Quot(q, n);
    if i + 1 < Reach(|DirSecs(g, ch)|) {
      SlotSector(|DirSecs(g, ch)|, i + 1);
      SlotCluster(g, ch, i + 1);
      SectorAt(g, ch, q + 1);
      assert t[ch[k]] == ch[k + 1];
    } else {
      ChainCovered(|ch|, n, k);
    }
  }

  /** The sectors of k + 1 clusters are all there are only if there are k + 1 clusters. */
  lemma ChainCovered(len: nat, n: nat, k: nat)
    requires n > 0 && k < len
    ensures Times(k + 1, n) <= Times(len, n) && (Times(k + 1, n) == Times(len, n) ==> k + 1 == len)
  {
    TimesMonotone(k + 1, len, n);
  }

  /** A position in the fixed root directory has cluster 0, in a chain it has not. */
  lemma ClustOfPos(g: Geometry, ch: seq<nat>, i: nat)
    requires g.csize > 0 && Clusters(g, ch) && i < Reach(|DirSecs(g, ch)|)
    ensures PosOf(g, ch, i).clust == 0 <==> ch == []
  {
    if ch != [] {
      SlotCluster(g, ch, i);
    }
  }

  /** dir_sdi's walk: after k clusters, idx slots are left. */
  lemma SdiIndex(i: nat, k: nat, idx: nat, n: nat)
    requires n > 0 && i == Times(k, Times(n, PER_SECTOR)) + idx && idx < Times(n, PER_SECTOR)
    ensures Quot(Quot(i, PER_SECTOR), n) == k && Rem(Quot(i, PER_SECTOR), n) == Quot(idx, PER_SECTOR)
    ensures Rem(i, PER_SECTOR) == Rem(idx, PER_SECTOR)
  {
    var q, r := Quot(idx, PER_SECTOR), Rem(idx, PER_SECTOR);
    QuotRem(idx, PER_SECTOR);
    TimesAssociates(k, n, PER_SECTOR);
    TimesDistributes(Times(k, n), q, PER_SECTOR);
    QuotRemUnique(i, PER_SECTOR, Times(k, n) + q, r);
    if q >= n {
      TimesMonotone(n, q, PER_SECTOR);
    }
    QuotRemUnique(Times(k, n) + q, n, k, q);
  }

  lemma SdiFinds(g: Geometry, ch: seq<nat>, i: nat, k: nat, idx: nat)
    requires g.Valid() && Clusters(g, ch) && i < MAX_SLOTS && k < |ch|
    requires i == Times(k, Times(g.csize, PER_SECTOR)) + idx && idx < Times(g.csize, PER_SECTOR)
    ensures i < Reach(|DirSecs(g, ch)|)
    ensures PosOf(g, ch, i) == Pos(i, ch[k], g.ClusterBase(ch[k]) + Quot(idx, PER_SECTOR), Rem(idx, PER_SECTOR) * SZ_DIR)
  {
    SdiIndex(i, k, idx, g.csize);
    var q := Quot(i, PER_SECTOR);
    QuotRem(q, g.csize);
    TimesMonotone(k, |ch|, g.csize);
    Split(i, PER_SECTOR);
    SectorAt(g, ch, q);
  }

  /** Past the last cluster there is no slot i. */
  lemma SdiPastEnd(g: Geometry, ch: seq<nat>, i: nat, idx: nat)
    requires g.Valid() && Clusters(g, ch) && ch != []
    requires i == Times(|ch|, Times(g.csize, PER_SECTOR)) + idx
    ensures i >= Reach(|DirSecs(g, ch)|)
  {
    TimesAssociates(|ch|, g.csize, PER_SECTOR);
    TimesIsMul(Times(|ch|, g.csize), PER_SECTOR);
  }

  // ---- writing a slot

  /** Sector v with slot s at offset k. */
  function Patched(v: Sector, k: nat, s: Slot): (r: Sector)
    requires k + SZ_DIR <= 512
    ensures forall j :: 0 <= j < 512 ==> r[j] == if k <= j < k + SZ_DIR then s[j - k] else v[j]
  {
    v[..k] + s + v[k + SZ_DIR..]
  }

  lemma OtherSlot(i: nat, j: nat)
    requires Quot(i, PER_SECTOR) == Quot(j, PER_SECTOR) && i != j
    ensures Rem(i, PER_SECTOR) + 1 <= Rem(j, PER_SECTOR) || Rem(j, PER_SECTOR) + 1 <= Rem(i, PER_SECTOR)
  {
    Split(i, PER_SECTOR);
    Split(j, PER_SECTOR);
  }

  /** Writing slot i replaces exactly it. */
  lemma SlotWritten(d: Disk, secs: seq<nat>, i: nat, s: Slot)
    requires (forall q :: 0 <= q < |secs| ==> secs[q] < |d|) && Distinct(secs) && i < Reach(|secs|)
    ensures Quot(i, PER_SECTOR) < |secs| && Rem(i, PER_SECTOR) * SZ_DIR + SZ_DIR <= 512
    ensures var c, k := secs[Quot(i, PER_SECTOR)], Rem(i, PER_SECTOR) * SZ_DIR;
            SlotsOf(d[c := Patched(d[c], k, s)], secs) == SlotsOf(d, secs)[i := s]
  {
    SlotSector(|secs|, i);
    var c, k := secs[Quot(i, PER_SECTOR)], Rem(i, PER_SECTOR) * SZ_DIR;
    var e := d[c := Patched(d[c], k, s)];
    forall j | 0 <= j < Reach(|secs|)
      ensures SlotAt(e, secs, j) == if j == i then s else SlotAt(d, secs, j)
    {
      SlotSector(|secs|, j);
      if Quot(j, PER_SECTOR) == Quot(i, PER_SECTOR) {
        if j != i {
          OtherSlot(i, j);
        }
        SliceOfPatched(d[c], k, s, Rem(j, PER_SECTOR) * SZ_DIR);
      }
    }
  }

  lemma SliceOfPatched(v: Sector, k: nat, s: Slot, m: nat)
    requires k + SZ_DIR <= 512 && m + SZ_DIR <= 512
    requires m == k || m + SZ_DIR <= k || k + SZ_DIR <= m
    ensures Patched(v, k, s)[m..][..SZ_DIR] == if m == k then s else v[m..][..SZ_DIR]
  {
    var r := Patched(v, k, s);
    forall j | 0 <= j < SZ_DIR
      ensures r[m..][..SZ_DIR][j] == if m == k then s[j] else v[m + j]
    {
      assert r[m..][..SZ_DIR][j] == r[m + j];
    }
    if m == k {
      assert r[m..][..SZ_DIR] == s;
    } else {
      assert r[m..][..SZ_DIR] == v[m..][..SZ_DIR];
    }
  }

  // ---- stretching

  function ZeroSlot(): Slot {
    ZeroBytes(32)
  }

  /** x is d followed by zero slots. */
  ghost predicate Extends(x: seq<Slot>, d: seq<Slot>) {
    d <= x && forall i :: |d| <= i < |x| ==> x[i] == ZeroSlot()
  }

  lemma ExtendsTransitive(a: seq<Slot>, b: seq<Slot>, c: seq<Slot>)
    requires Extends(b, a) && Extends(c, b)
    ensures Extends(c, a)
  {
  }

  /** A table with m more sectors of zeros. */
  lemma SectorsOfZeros(d: Disk, e: Disk, secs: seq<nat>, more: seq<nat>)
    requires |e| == |d|
    requires forall q :: 0 <= q < |secs| ==> secs[q] < |d| && e[secs[q]] == d[secs[q]]
    requires forall q :: 0 <= q < |more| ==> more[q] < |d| && e[more[q]] == ZeroBytes(512)
    ensures forall q :: 0 <= q < |secs + more| ==> (secs + more)[q] < |e|
    ensures Extends(SlotsOf(e, secs + more), SlotsOf(d, secs))
  {
    var all := secs + more;
    forall i | 0 <= i < Reach(|all|)
      ensures SlotAt(e, all, i) == if i < Reach(|secs|) then SlotAt(d, secs, i) else ZeroSlot()
    {
      SlotSector(|all|, i);
      var q := Quot(i, PER_SECTOR);
      if i < Reach(|secs|) {
        SlotSector(|secs|, i);
      } else {
        Split(i, PER_SECTOR);
        assert all[q] == more[q - |secs|];
        var z := ZeroBytes(512);
        assert z[Rem(i, PER_SECTOR) * SZ_DIR..][..SZ_DIR] == ZeroBytes(32);
      }
    }
  }

  /** The slots of a directory. */
  ghost function Listing(g: Geometry, t: Links, d: Disk, sclust: nat, ch: seq<nat>): (r: seq<Slot>)
    requires DirBased(g, t, d, sclust, ch)
    ensures 0 < |r| <= MAX_SLOTS
  {
    DirSecsPlaced(g, t, d, sclust, ch);
    SlotsOf(d, DirSecs(g, ch))
  }

  /** A DIR object stands at slot i. */
  ghost predicate Stands(g: Geometry, ch: seq<nat>, p: Pos, i: nat) {
    g.csize > 0 && Clusters(g, ch) && i < Reach(|DirSecs(g, ch)|) && p == PosOf(g, ch, i)
  }

  /** Only one position is that of slot i: however it was reached, by index or step by step. */
  lemma OnePosition(g: Geometry, ch: seq<nat>, p: Pos, q: Pos, i: nat)
    requires Stands(g, ch, p, i) && Stands(g, ch, q, i)
    ensures p == q
  {
  }

  /** A longer chain keeps every position. */
  lemma StandsLonger(g: Geometry, ch: seq<nat>, c: nat, p: Pos, i: nat)
    requires Stands(g, ch, p, i) && ch != [] && g.IsCluster(c)
    ensures Stands(g, ch + [c], p, i)
  {
    SectorsAppend(g, ch, c);
    SlotSector(|DirSecs(g, ch)|, i);
    SlotCluster(g, ch, i);
    SlotCluster(g, ch + [c], i);
  }

  /** What create_chain and the zero fill of the new cluster r leave: one more cluster of zero slots. */
  ghost predicate Cleared(g: Geometry, d: Disk, e: Disk, r: nat) {
    && r >= 2 && |e| == |d|
    && forall s: nat {:trigger e[s]} :: s < |d| ==> e[s] == if g.InCluster(s, r) then ZeroBytes(512) else d[s]
  }

  lemma {:induction false} DirGrows(g: Geometry, t: Links, d: Disk, u: Links, d1: Disk, d2: Disk, sclust: nat, ch: seq<nat>, r: nat, eoc: nat)
    requires DirBased(g, t, d, sclust, ch) && ch != []
    requires OnlyFat(g, d, d1) && Cleared(g, d1, d2, r)
    requires 2 <= r < |t| <= eoc && t[r] == 0 && ch[|ch| - 1] < |t| && u == Linked(t, ch, r, eoc)
    ensures DirBased(g, u, d2, sclust, ch + [r])
    ensures Clusters(g, ch) && Clusters(g, ch + [r])
    ensures Untouched(g, t, d, u, d2, ch, ch + [r])
    ensures Extends(Listing(g, u, d2, sclust, ch + [r]), Listing(g, t, d, sclust, ch))
    ensures |DirSecs(g, ch + [r])| == |DirSecs(g, ch)| + g.csize
  {
    LinkedChain(g, t, StartOf(g, sclust), ch, r, eoc);
    SectorsAppend(g, ch, r);
    DirSecsPlaced(g, t, d, sclust, ch);
    var secs, more := Sectors(g, ch), ClusterSectors(g, r);
    forall q | 0 <= q < |secs|
      ensures secs[q] < |d| && d2[secs[q]] == d[secs[q]]
    {
      SectorInCluster(g, ch, q);
      assert ch[Quot(q, g.csize)] in ch;
      NotInFree(t, ch, r);
      ClustersDisjoint(g, ch[Quot(q, g.csize)], r, secs[q]);
    }
    forall q | 0 <= q < |more|
      ensures more[q] < |d| && d2[more[q]] == ZeroBytes(512)
    {
      ClustersDisjoint(g, r, r, more[q]);
    }
    SectorsOfZeros(d, d2, secs, more);
    GrowthUntouched(g, t, d, u, d1, d2, ch, r, eoc);
  }

  lemma NotInFree(t: Links, ch: seq<nat>, r: nat)
    requires IsChain(t, ch) && r < |t| && t[r] == 0
    ensures r !in ch
  {
    if r in ch {
      TakenClusters(t, ch, r);
    }
  }

  lemma SectorOfNewCluster(g: Geometry, r: nat, s: nat)
    requires r >= 2
    ensures s in ClusterSectors(g, r) <==> g.InCluster(s, r)
  {
    var all := ClusterSectors(g, r);
    if g.InCluster(s, r) {
      assert all[s - g.ClusterBase(r)] in all;
    }
  }

  lemma GrowthUntouched(g: Geometry, t: Links, d: Disk, u: Links, d1: Disk, d2: Disk, ch: seq<nat>, r: nat, eoc: nat)
    requires g.Valid() && |t| == g.nFatent && Clusters(g, ch) && ch != [] && g.VolumeEnd() <= |d|
    requires OnlyFat(g, d, d1) && Cleared(g, d1, d2, r)
    requires 2 <= r < |t| <= eoc && t[r] == 0 && ch[|ch| - 1] < |t| && u == Linked(t, ch, r, eoc)
    ensures Clusters(g, ch + [r]) && Untouched(g, t, d, u, d2, ch, ch + [r])
  {
    SectorsAppend(g, ch, r);
    assert ch[|ch| - 1] in ch && r in ch + [r];
    var all := Sectors(g, ch + [r]);
    forall s: nat | s < |d| && !(g.fatbase <= s < g.fatbase + g.FatArea()) && s !in all
      ensures d2[s] == d[s]
    {
      SectorOfNewCluster(g, r, s);
    }
    forall c | 0 <= c < |t| && c !in ch && c !in ch + [r]
      ensures u[c] == t[c]
    {
    }
  }
}
