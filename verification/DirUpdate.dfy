/** dir_alloc, dir_register and dir_remove: what they make of the slots, and that nothing else changes. */
module DirUpdate {
  import opened Arith
  import opened Bytes
  import opened Layout
  import opened Window
  import opened Chains
  import opened FatTable
  import opened ChainOps
  import opened DiskIO
  import opened FileView
  import opened FileState
  import opened FilObject
  import opened Lfn
  import opened Directory
  import opened DirTheorems
  import opened DirState
  import opened DirObject
  import opened DirScan

  /**
   * From (t, d) to (u, e) only a directory whose chain grew from ch to ch2 changed:
   * every other cluster keeps its FAT value, every other sector outside the FATs its
   * bytes, and clusters taken were free.
   */
  ghost predicate Updated(g: Geometry, t: Links, d: Disk, u: Links, e: Disk, ch: seq<nat>, ch2: seq<nat>)
    requires Clusters(g, ch2)
  {
    && |u| == |t| && |e| == |d|
    && (forall c :: 0 <= c < |t| && c !in ch && c !in ch2 ==> u[c] == t[c])
    && (forall c :: c in ch2 ==> c in ch || (c < |t| && t[c] == 0))
    && (forall s: nat {:trigger d[s]} {:trigger e[s]} ::
          s < |d| && !(g.fatbase <= s < g.fatbase + g.FatArea()) && s !in DirSecs(g, ch2) ==> e[s] == d[s])
  }

  /** Such changes keep FSINFO current as long as changes of the free count are noted. */
  lemma InfoKeptByTable(g: Geometry, t: Links, d: Disk, u: Links, e: Disk, sclust: nat, ch: seq<nat>, ch2: seq<nat>,
                        enabled: bool, f0: nat, n0: bool, f1: nat, n1: bool)
    requires DirBased(g, u, e, sclust, ch2) && Clusters(g, ch2) && Updated(g, t, d, u, e, ch, ch2) && Noted(f0, n0, f1, n1)
    ensures InfoHeld(g, enabled, d, f0, n0) ==> InfoHeld(g, enabled, e, f1, n1)
  {
    hide LoadedFree;
    var s := g.volbase + 1;
    if FsInfoReserved(g) && g.fatType == Fat32 {
      BeforeData(g, ch2, s);
      FsInfoInside(g, d);
    }
    assert g.fatType == Fat32 && FsInfoReserved(g) ==> e[s] == d[s];
    InfoStays(g, enabled, d, e, f0, n0, f1, n1);
  }

  lemma SectorOfLonger(g: Geometry, ch: seq<nat>, ch2: seq<nat>, s: nat)
    requires Clusters(g, ch2) && ch <= ch2
    ensures s in Sectors(g, ch) ==> s in Sectors(g, ch2)
  {
    SectorsPrefix(g, ch2, |ch|);
    assert ch2[..|ch|] == ch;
    if s in Sectors(g, ch) {
      var q :| 0 <= q < |Sectors(g, ch)| && Sectors(g, ch)[q] == s;
      assert Sectors(g, ch2)[q] == s;
    }
  }

  lemma GrewUpdated(g: Geometry, t: Links, d: Disk, u: Links, e: Disk, sclust: nat, ch: seq<nat>, ch2: seq<nat>)
    requires Grew(g, t, d, u, e, sclust, ch, ch2)
    ensures Clusters(g, ch2) && Updated(g, t, d, u, e, ch, ch2)
  {
    forall s: nat | s < |d| && !(g.fatbase <= s < g.fatbase + g.FatArea()) && s !in DirSecs(g, ch2)
      ensures e[s] == d[s]
    {
      SectorOfLonger(g, ch, ch2, s);
    }
  }

  /** Rewriting sectors of the directory after it has grown. */
  lemma UpdatedAgain(g: Geometry, t: Links, d: Disk, u: Links, e: Disk, f: Disk, ch: seq<nat>, ch2: seq<nat>)
    requires Clusters(g, ch2) && Updated(g, t, d, u, e, ch, ch2) && Updated(g, u, e, u, f, ch2, ch2)
    ensures Updated(g, t, d, u, f, ch, ch2)
  {
  }

  lemma UpdatedNot(g: Geometry, t: Links, d: Disk, ch: seq<nat>)
    requires Clusters(g, ch)
    ensures Updated(g, t, d, t, d, ch, ch)
  {
  }

  // ---- writing one slot

  /** 32 bytes into the window at offset k, which is then dirty. */
  method StoreBytes(fs: FatFs, k: nat, s: Slot)
    requires fs.Valid() && k + SZ_DIR <= 512
    modifies fs`wflag, fs.win
    ensures fs.Valid() && fs.win[..] == Patched(old(fs.win[..]), k, s)
    ensures fs.Logical() == Put(fs.geo, old(fs.Logical()), fs.winsect, fs.win[..])
  {
    ghost var before, w0 := fs.Logical(), fs.win[..];
    forall i | 0 <= i < SZ_DIR {
      fs.win[k + i] := s[i];
    }
    assert fs.win[..] == Patched(w0, k, s);
    fs.wflag := true;
    if old(fs.wflag) {
      PutTwice(fs.geo, fs.disk, fs.winsect, w0, fs.win[..]);
    }
    PutKeepsMirrored(fs.geo, fs.mounted, before, fs.winsect, fs.win[..]);
  }

  lemma SlotStored(g: Geometry, t: Links, d: Disk, sclust: nat, ch: seq<nat>, p: Pos, i: nat, s: Slot)
    requires DirBased(g, t, d, sclust, ch) && Stands(g, ch, p, i) && Holds(g, d) && Table(g, d) == t
    ensures p.sect < |d| && !g.InFat(p.sect) && !g.InMirror(p.sect) && p.dir + SZ_DIR <= 512 && i < |Listing(g, t, d, sclust, ch)|
    ensures var e := d[p.sect := Patched(d[p.sect], p.dir, s)];
            && DirBased(g, t, e, sclust, ch) && Listing(g, t, e, sclust, ch) == Listing(g, t, d, sclust, ch)[i := s]
            && Holds(g, e) && Table(g, e) == t
            && Clusters(g, ch) && Updated(g, t, d, t, e, ch, ch)
  {
    hide Table;
    SlotHere(g, t, d, sclust, ch, p, i);
    DirSecsPlaced(g, t, d, sclust, ch);
    SlotWritten(d, DirSecs(g, ch), i, s);
    SameFatSameTable(g, d, d[p.sect := Patched(d[p.sect], p.dir, s)]);
    assert DirSecs(g, ch)[Quot(i, PER_SECTOR)] in DirSecs(g, ch);
  }

  lemma FatOfLogical(fs: FatFs)
    requires fs.Valid()
    ensures Holds(fs.geo, fs.Logical()) && Fat(fs) == Table(fs.geo, fs.Logical()) && fs.win.Length == 512
    ensures fs.winsect < |fs.Logical()| && |fs.Logical()| == |fs.disk|
  {
  }

  lemma PutElsewhere(g: Geometry, d: Disk, s: nat, v: Sector)
    requires s < |d| && !g.InFat(s)
    ensures Put(g, d, s, v) == d[s := v]
  {
  }

  /** move_window, write the slot, wflag = 1 */
  method StoreSlot(dp: Dir, s: Slot)
    requires dp.Ready() && dp.Placed()
    modifies dp.fs`disk, dp.fs`wflag, dp.fs`winsect, dp.fs.win
    ensures dp.Ready() && Fat(dp.fs) == old(Fat(dp.fs)) && dp.fs.winsect == dp.sect
    ensures dp.index < |old(dp.Slots())| && dp.Slots() == old(dp.Slots())[dp.index := s]
    ensures Clusters(dp.fs.geo, dp.chain)
    ensures Updated(dp.fs.geo, old(Fat(dp.fs)), old(dp.fs.Logical()), Fat(dp.fs), dp.fs.Logical(), dp.chain, dp.chain)
  {
    hide FatFs.Valid, FatFs.Logical, Fat, DirBased, Listing, Stands, Table, Put, Updated, Clusters, Patched;
    var fs := dp.fs;
    ghost var g, t, d := fs.geo, Fat(fs), fs.Logical();
    FatOfLogical(fs);
    SlotStored(g, t, d, dp.sclust, dp.chain, dp.Here(), dp.index, s);
    MoveWindow(fs, dp.sect);
    FatOfLogical(fs);
    StoreBytes(fs, dp.dir, s);
    FatOfLogical(fs);
    PutElsewhere(g, d, dp.sect, Patched(d[dp.sect], dp.dir, s));
  }

  // ---- dir_alloc

  /** Some slot from s on, among n, is in use. */
  ghost predicate Taken(d: seq<Slot>, s: nat, n: nat) {
    exists k :: s <= k < s + n && k < |d| && !IsFree(d[k])
  }

  /** No run of n free slots starts before b. */
  ghost predicate RunsTaken(d: seq<Slot>, b: nat, n: nat) {
    forall s: nat :: s < b ==> Taken(d, s, n)
  }

  lemma TakenLonger(d: seq<Slot>, x: seq<Slot>, b: nat, n: nat)
    requires RunsTaken(d, b, n) && d <= x
    ensures RunsTaken(x, b, n)
  {
    forall s: nat | s < b
      ensures Taken(x, s, n)
    {
      assert Taken(d, s, n);
      var k :| s <= k < s + n && k < |d| && !IsFree(d[k]);
      assert x[k] == d[k];
    }
  }

  lemma TakenHere(d: seq<Slot>, b: nat, n: nat, i: nat)
    requires RunsTaken(d, b, n) && i < |d| && !IsFree(d[i]) && b <= i < b + n
    ensures RunsTaken(d, i + 1, n)
  {
    forall s: nat | s < i + 1
      ensures Taken(d, s, n)
    {
      if s < b {
        assert Taken(d, s, n);
      }
    }
  }

  lemma RunFound(d: seq<Slot>, p: nat, n: nat)
    requires RunsTaken(d, p, n) && 0 < n && p + n <= |d| && AllFree(d, p, n)
    ensures FirstRun(d, p, n)
  {
    forall s | 0 <= s < p
      ensures !AllFree(d, s, n)
    {
      assert Taken(d, s, n);
    }
  }

  lemma NoRun(d: seq<Slot>, b: nat, n: nat)
    requires RunsTaken(d, b, n) && b + n > |d|
    ensures forall p: nat :: p + n <= |d| ==> !AllFree(d, p, n)
  {
    forall p: nat | p + n <= |d|
      ensures !AllFree(d, p, n)
    {
      assert Taken(d, p, n);
    }
  }

  /** dir_alloc has gone up to slot i; the last n slots are free and no run started before them. */
  ghost predicate Pending(d: seq<Slot>, i: nat, n: nat, nent: nat) {
    n < nent && n <= i <= |d| && RunsTaken(d, i - n, nent) && AllFree(d, i - n, n)
  }

  lemma PendingStart(d: seq<Slot>, nent: nat)
    requires nent > 0
    ensures Pending(d, 0, 0, nent)
  {
  }

  lemma PendingFree(d: seq<Slot>, i: nat, n: nat, nent: nat)
    requires Pending(d, i, n, nent) && i < |d| && IsFree(d[i])
    ensures n <= i
    ensures if n + 1 == nent then FirstRun(d, i - n, nent) else Pending(d, i + 1, n + 1, nent)
  {
    assert AllFree(d, i - n, n + 1);
    if n + 1 == nent {
      RunFound(d, i - n, nent);
    }
  }

  lemma PendingTaken(d: seq<Slot>, i: nat, n: nat, nent: nat)
    requires Pending(d, i, n, nent) && i < |d| && !IsFree(d[i])
    ensures Pending(d, i + 1, 0, nent)
  {
    TakenHere(d, i - n, nent, i);
  }

  lemma PendingLonger(d: seq<Slot>, x: seq<Slot>, i: nat, n: nat, nent: nat)
    requires Pending(d, i, n, nent) && d <= x
    ensures Pending(x, i, n, nent)
  {
    TakenLonger(d, x, i - n, nent);
  }

  lemma PendingEnd(d: seq<Slot>, n: nat, nent: nat)
    requires Pending(d, |d|, n, nent)
    ensures forall p: nat :: p + nent <= |d| ==> !AllFree(d, p, nent)
  {
    NoRun(d, |d| - n, nent);
  }

  lemma GrewPrefix(g: Geometry, t: Links, d: Disk, u: Links, e: Disk, sclust: nat, ch: seq<nat>, ch2: seq<nat>)
    requires Grew(g, t, d, u, e, sclust, ch, ch2)
    ensures DirBased(g, t, d, sclust, ch) && DirBased(g, u, e, sclust, ch2)
    ensures Listing(g, t, d, sclust, ch) <= Listing(g, u, e, sclust, ch2)
    ensures Extends(Listing(g, u, e, sclust, ch2), Listing(g, t, d, sclust, ch))
  {
  }

  /** One slot of dir_alloc's search: the run of free slots that ends with it. */
  method CountFree(dp: Dir, n0: nat, nent: nat) returns (n: nat)
    requires dp.Ready() && dp.Placed() && Pending(dp.Slots(), dp.index, n0, nent)
    modifies dp.fs`disk, dp.fs`wflag, dp.fs`winsect, dp.fs.win
    ensures dp.Ready() && dp.fs.Logical() == old(dp.fs.Logical()) && Fat(dp.fs) == old(Fat(dp.fs)) && dp.Slots() == old(dp.Slots())
    ensures dp.index < |dp.Slots()| <= MAX_SLOTS && (old(FreeAccurate(dp.fs)) ==> FreeAccurate(dp.fs))
    ensures if n == nent then n <= dp.index + 1 && FirstRun(dp.Slots(), dp.index + 1 - n, n)
            else Pending(dp.Slots(), dp.index + 1, n, nent)
  {
    hide FatFs.Valid, FatFs.Logical, Fat, DirBased, Listing, Stands, FirstRun, FreeAccurate, Pending;
    PlacedIndex(dp);
    var s := FetchSlot(dp);
    if s[0] == DDE || s[0] == 0 {
      PendingFree(dp.Slots(), dp.index, n0, nent);
      n := n0 + 1;
    } else {
      PendingTaken(dp.Slots(), dp.index, n0, nent);
      n := 0;
    }
  }

  method DirAlloc(dp: Dir, nent: nat) returns (res: FResult)
    requires dp.Ready() && nent > 0
    modifies dp`index, dp`clust, dp`sect, dp`dir, dp`chain, dp.fs`disk, dp.fs`wflag, dp.fs`winsect, dp.fs.win,
             dp.fs`lastClust, dp.fs`freeClust, dp.fs`fsiDirty
    ensures dp.Ready()
    ensures Grew(dp.fs.geo, old(Fat(dp.fs)), old(dp.fs.Logical()), Fat(dp.fs), dp.fs.Logical(), dp.sclust, old(dp.chain), dp.chain)
    ensures res == FrOk || res == FrDenied || res == FrIntErr
    ensures if res == FrOk then dp.Placed() && nent <= dp.index + 1 && FirstRun(dp.Slots(), dp.index + 1 - nent, nent)
            else forall p: nat :: p + nent <= |dp.Slots()| ==> !AllFree(dp.Slots(), p, nent)
    ensures res == FrDenied ==>
              dp.chain == [] || |dp.Slots()| == MAX_SLOTS || forall c :: 2 <= c < |Fat(dp.fs)| ==> Fat(dp.fs)[c] > 1
    ensures res == FrIntErr ==> exists c :: 2 <= c < |Fat(dp.fs)| && Fat(dp.fs)[c] == 1
    ensures old(FreeAccurate(dp.fs)) ==> FreeAccurate(dp.fs)
    ensures Noted(old(dp.fs.freeClust), old(dp.fs.fsiDirty), dp.fs.freeClust, dp.fs.fsiDirty)
  {
    hide FatFs.Valid, FatFs.Logical, Fat, DirBased, Listing, Stands, Grew, FirstRun, Pending, AllFree, FreeAccurate;
    ghost var g, t, d, ch := dp.fs.geo, Fat(dp.fs), dp.fs.Logical(), dp.chain;
    SlotsCount(dp);
    GrewNot(g, t, d, dp.sclust, ch);
    res := DirSdi(dp, 0);
    var n := 0;
    PendingStart(dp.Slots(), nent);
    while true
      invariant dp.Ready() && dp.Placed() && Pending(dp.Slots(), dp.index, n, nent)
      invariant Grew(g, t, d, Fat(dp.fs), dp.fs.Logical(), dp.sclust, ch, dp.chain)
      invariant old(FreeAccurate(dp.fs)) ==> FreeAccurate(dp.fs)
      invariant Noted(old(dp.fs.freeClust), old(dp.fs.fsiDirty), dp.fs.freeClust, dp.fs.fsiDirty)
      decreases MAX_SLOTS - dp.index
    {
      ghost var x, t1, d1, ch1 := dp.Slots(), Fat(dp.fs), dp.fs.Logical(), dp.chain;
      n := CountFree(dp, n, nent);
      if n == nent {
        return FrOk;
      }
      res := DirNext(dp, true);
      GrewTransitive(g, t, d, t1, d1, Fat(dp.fs), dp.fs.Logical(), dp.sclust, ch, ch1, dp.chain);
      GrewPrefix(g, t1, d1, Fat(dp.fs), dp.fs.Logical(), dp.sclust, ch1, dp.chain);
      if res != FrOk {
        PendingEnd(x, n, nent);
        if res == FrNoFile {
          res := FrDenied;
        }
        return;
      }
      PendingLonger(x, dp.Slots(), dp.index, n, nent);
    }
  }

  // ---- dir_register

  const NS_LFN: nat := 2
  const NS_CASE: nat := 8 // NS_BODY | NS_EXT = 3 * 8

  predicate Flag(b: Byte, f: nat)
    requires f > 0
  {
    Rem(Quot(b, f), 2) == 1
  }

  /** fn[NS] & (NS_BODY | NS_EXT) */
  function CaseBits(b: Byte): (r: Byte)
  {
    Rem(Quot(b, NS_CASE), 4) * NS_CASE
  }

  /** Number n of the generated names collides with a short name in the directory. */
  ghost predicate Collides(d: seq<Slot>, up: nat -> nat, num: nat -> Short, n: nat) {
    FindFrom(d, Query(up, None, num(n), false), 0, FRESH).Some?
  }

  /** The numbering loop of dir_register; num(n) stands for gen_numname. */
  method ChooseNumber(dp: Dir, up: nat -> nat, num: nat -> Short) returns (res: FResult, ghost k: nat)
    requires dp.Ready() && |dp.fn| == 12
    modifies dp`fn, dp`hasLfn, dp`index, dp`clust, dp`sect, dp`dir, dp`lfnIdx, dp`chain, dp.fs`disk, dp.fs`wflag, dp.fs`winsect, dp.fs.win,
             dp.fs`lastClust, dp.fs`freeClust, dp.fs`fsiDirty
    ensures OnlyScanned(dp)
    ensures forall n :: 1 <= n < k ==> Collides(dp.Slots(), up, num, n)
    ensures 1 <= k <= 100
    ensures if k < 100 then res == FrOk && !Collides(dp.Slots(), up, num, k) && dp.hasLfn == old(dp.hasLfn) && dp.fn == num(k) + [old(dp.fn)[11]]
            else res == FrDenied
  {
    hide FatFs.Valid, FatFs.Logical, Fat, DirBased, Listing, FindFrom, FreeAccurate;
    ghost var d := dp.Slots();
    var flags, long := dp.fn[11], dp.hasLfn;
    dp.hasLfn := false;
    var n := 1;
    res := FrOk;
    while n < 100
      invariant OnlyScanned(dp) && 1 <= n <= 100 && !dp.hasLfn
      invariant forall m :: 1 <= m < n ==> Collides(d, up, num, m)
    {
      dp.fn := num(n) + [0];
      assert dp.fn[..11] == num(n);
      assert Rem(0, 2) == 0;
      res := DirFind(dp, up);
      if res != FrOk {
        break;
      }
      n := n + 1;
    }
    k := n;
    if n == 100 {
      return FrDenied, k;
    }
    dp.fn := num(n) + [flags];
    dp.hasLfn := long;
    return FrOk, k;
  }

  lemma PlaceMore(d: seq<Slot>, p: nat, l: seq<Slot>, s: Slot)
    requires p + |l| < |d|
    ensures Directory.Placed(d, p, l)[p + |l| := s] == Directory.Placed(d, p, l + [s])
  {
  }

  lemma PlaceNone(d: seq<Slot>, p: nat)
    requires p <= |d|
    ensures Directory.Placed(d, p, []) == d
  {
  }

  /** The slots of the first m parts of a stored name, last part first. */
  ghost predicate StoredParts(l: seq<Slot>, n: nat, name: seq<nat>, sum: Byte) {
    |l| <= n && forall m :: 0 <= m < |l| ==> Fits(l[m], name, n - m, sum)
  }

  /** Part ord of a name goes into the current slot. */
  method StorePart(dp: Dir, ord: nat, sum: Byte, ghost name: seq<nat>) returns (ghost s: Slot)
    requires dp.Ready() && dp.Placed()
    requires IsName(name) && Terminated(dp.lfnbuf[..], name) && 0 < ord <= 20 && (ord - 1) * 13 < |name|
    modifies dp.fs`disk, dp.fs`wflag, dp.fs`winsect, dp.fs.win
    ensures dp.Ready() && Fat(dp.fs) == old(Fat(dp.fs)) && Fits(s, name, ord, sum)
    ensures dp.index < |old(dp.Slots())| && dp.Slots() == old(dp.Slots())[dp.index := s]
    ensures Clusters(dp.fs.geo, dp.chain)
    ensures Updated(dp.fs.geo, old(Fat(dp.fs)), old(dp.fs.Logical()), Fat(dp.fs), dp.fs.Logical(), dp.chain, dp.chain)
  {
    hide FatFs.Valid, FatFs.Logical, Fat, DirBased, Listing, Stands, Updated, Clusters, Fits, Terminated, IsName;
    var was := FetchSlot(dp);
    var part := FitLfn(dp.lfnbuf[..], was, ord, sum, name);
    StoreSlot(dp, part);
    s := part;
  }

  /** The loop that stores the long-name slots, from the last part to the first. */
  method StoreName(dp: Dir, nent: nat, ghost name: seq<nat>) returns (ghost l: seq<Slot>)
    requires dp.Ready() && |dp.fn| == 12
    requires IsName(name) && Terminated(dp.lfnbuf[..], name) && nent == SlotCount(|name|)
    requires nent <= dp.index < |dp.Slots()|
    modifies dp`index, dp`clust, dp`sect, dp`dir, dp`chain, dp.fs`disk, dp.fs`wflag, dp.fs`winsect, dp.fs.win,
             dp.fs`lastClust, dp.fs`freeClust, dp.fs`fsiDirty
    ensures dp.Ready() && dp.Placed() && dp.index == old(dp.index) && dp.chain == old(dp.chain) && Fat(dp.fs) == old(Fat(dp.fs))
    ensures |l| == nent && Stores(l, name, SumSfn(dp.fn))
    ensures dp.Slots() == Directory.Placed(old(dp.Slots()), old(dp.index) - nent, l)
    ensures Clusters(dp.fs.geo, dp.chain)
    ensures Updated(dp.fs.geo, old(Fat(dp.fs)), old(dp.fs.Logical()), Fat(dp.fs), dp.fs.Logical(), dp.chain, dp.chain)
    ensures dp.fs.freeClust == old(dp.fs.freeClust) && dp.fs.fsiDirty == old(dp.fs.fsiDirty)
  {
    hide FatFs.Valid, FatFs.Logical, Fat, DirBased, Listing, Stands, Updated, Clusters, Fits, Terminated, IsName, Grew, FreeAccurate, SumSfn, Quot, Rem,
      Directory.Placed;
    ghost var g, t, d, x := dp.fs.geo, Fat(dp.fs), dp.fs.Logical(), dp.Slots();
    ghost var p := dp.index - nent;
    DirClusters(g, t, d, dp.sclust, dp.chain);
    UpdatedNot(g, t, d, dp.chain);
    SlotCounts(|name|) by {
      NameLength(name);
    }
    var res := DirSdi(dp, dp.index - nent);
    var sum := SumOf(dp.fn[..11] + ZeroBytes(21));
    SumOfName(dp.fn, ZeroBytes(21));
    var left: nat := nent;
    l := [];
    PlaceNone(x, p);
    while left > 0
      invariant dp.Ready() && dp.Placed() && dp.index == p + |l| && left + |l| == nent && p + nent < |x|
      invariant dp.chain == old(dp.chain) && Fat(dp.fs) == t && |dp.Slots()| == |x|
      invariant dp.Slots() == Directory.Placed(x, p, l) && StoredParts(l, nent, name, sum)
      invariant Updated(g, t, d, Fat(dp.fs), dp.fs.Logical(), dp.chain, dp.chain)
      invariant dp.fs.freeClust == old(dp.fs.freeClust) && dp.fs.fsiDirty == old(dp.fs.fsiDirty)
    {
      ghost var d1 := dp.fs.Logical();
      ghost var s := StorePart(dp, left, sum, name);
      UpdatedAgain(g, t, d, t, d1, dp.fs.Logical(), dp.chain, dp.chain);
      PlaceMore(x, p, l, s);
      l := l + [s];
      res := DirNext(dp, false);
      left := left - 1;
    }
  }

  lemma NameLength(name: seq<nat>)
    requires IsName(name)
    ensures 0 < |name| <= MAX_LFN
  {
  }

  lemma DirClusters(g: Geometry, t: Links, d: Disk, sclust: nat, ch: seq<nat>)
    requires DirBased(g, t, d, sclust, ch)
    ensures Clusters(g, ch)
  {
  }

  /** The sum reads the 11 bytes of the name only. */
  lemma {:induction false} SumOfName(fn: seq<Byte>, rest: seq<Byte>)
    requires |fn| >= 11
    ensures SumSfn(fn[..11] + rest) == SumSfn(fn)
  {
    SumSame(fn[..11] + rest, fn, 0, 0);
  }

  lemma {:induction false} SumSame(a: seq<Byte>, b: seq<Byte>, k: nat, sum: Byte)
    requires k <= 11 <= |a| && 11 <= |b| && a[..11] == b[..11]
    ensures SumFrom(a, k, sum) == SumFrom(b, k, sum)
    decreases 11 - k
  {
    if k < 11 {
      assert a[k] == a[..11][k] && b[k] == b[..11][k];
      Split(sum, 2);
      SumSame(a, b, k + 1, Rem(Quot(sum, 2) + Rem(sum, 2) * 128 + a[k] as int, 256));
    }
  }

  lemma AccurateSame(fs: FatFs, t: Links)
    requires fs.Valid() && Fat(fs) == t
    ensures |t| >= 2 && (FreeAccurate(fs) <==> fs.freeClust == 0xFFFF_FFFF || fs.freeClust == Zeros(t, 2))
  {
  }

  /** The slots x of a directory after registering: d0, stretched to mid, with e in its first run of |e| free slots. */
  ghost predicate Registered(d0: seq<Slot>, mid: seq<Slot>, x: seq<Slot>, p: nat, e: seq<Slot>) {
    Extends(mid, d0) && FirstRun(mid, p, |e|) && x == Directory.Placed(mid, p, e)
  }

  /** What is written for a short name with its flag byte, and for name if a long entry is asked for. */
  ghost predicate Written(e: seq<Slot>, fn: seq<Byte>, name: seq<nat>) {
    && |e| > 0 && |fn| == 12 && e[|e| - 1] == ShortEntry(fn[..11], CaseBits(fn[11]))
    && if Flag(fn[11], NS_LFN) then NewSlots(e, name, fn[..11]) else |e| == 1
  }

  /** The end of dir_register: the nent slots up to the current one are written. */
  method WriteObject(dp: Dir, nent: nat, ghost name: seq<nat>) returns (ghost e: seq<Slot>)
    requires dp.Ready() && dp.Placed() && |dp.fn| == 12 && ShortOk(dp.fn[..11]) && 0 < nent <= dp.index + 1
    requires if Flag(dp.fn[11], NS_LFN) then IsName(name) && Terminated(dp.lfnbuf[..], name) && nent == SlotCount(|name|) + 1 > 1
             else nent == 1
    modifies dp`index, dp`clust, dp`sect, dp`dir, dp`chain, dp.fs`disk, dp.fs`wflag, dp.fs`winsect, dp.fs.win,
             dp.fs`lastClust, dp.fs`freeClust, dp.fs`fsiDirty
    ensures dp.Ready() && dp.Placed() && dp.index == old(dp.index) && dp.chain == old(dp.chain) && Fat(dp.fs) == old(Fat(dp.fs))
    ensures |e| == nent && Written(e, dp.fn, name) && dp.index < |old(dp.Slots())|
    ensures dp.Slots() == Directory.Placed(old(dp.Slots()), old(dp.index) + 1 - nent, e)
    ensures Clusters(dp.fs.geo, dp.chain)
    ensures Updated(dp.fs.geo, old(Fat(dp.fs)), old(dp.fs.Logical()), Fat(dp.fs), dp.fs.Logical(), dp.chain, dp.chain)
    ensures dp.fs.freeClust == old(dp.fs.freeClust) && dp.fs.fsiDirty == old(dp.fs.fsiDirty)
  {
    hide FatFs.Valid, FatFs.Logical, Fat, DirBased, Listing, Stands, Updated, Clusters, Terminated, IsName, FreeAccurate, Quot, Rem,
      Directory.Placed, CaseBits, Stores, Written;
    ghost var g, t, d, x := dp.fs.geo, Fat(dp.fs), dp.fs.Logical(), dp.Slots();
    ghost var p := dp.index + 1 - nent;
    DirClusters(g, t, d, dp.sclust, dp.chain);
    PlacedIndex(dp);
    PlaceNone(x, p);
    UpdatedNot(g, t, d, dp.chain);
    e := [];
    if nent > 1 {
      e := StoreName(dp, nent - 1, name);
    }
    ghost var d1 := dp.fs.Logical();
    var s := ShortEntry(dp.fn[..11], CaseBits(dp.fn[11]));
    StoreSlot(dp, s);
    UpdatedAgain(g, t, d, t, d1, dp.fs.Logical(), dp.chain, dp.chain);
    WrittenNow(e, dp.fn, name);
    PlaceMore(x, p, e, s);
    e := e + [s];
  }

  /** dir_register once the short name is settled: count the slots, allocate them, write them. */
  method PlaceObject(dp: Dir, ghost name: seq<nat>) returns (res: FResult, ghost mid: seq<Slot>, ghost p: nat, ghost e: seq<Slot>)
    requires dp.Ready() && |dp.fn| == 12 && ShortOk(dp.fn[..11])
    requires Flag(dp.fn[11], NS_LFN) ==> IsName(name) && Terminated(dp.lfnbuf[..], name)
    modifies dp`index, dp`clust, dp`sect, dp`dir, dp`chain, dp.fs`disk, dp.fs`wflag, dp.fs`winsect, dp.fs.win,
             dp.fs`lastClust, dp.fs`freeClust, dp.fs`fsiDirty
    ensures dp.Ready() && Clusters(dp.fs.geo, dp.chain)
    ensures Updated(dp.fs.geo, old(Fat(dp.fs)), old(dp.fs.Logical()), Fat(dp.fs), dp.fs.Logical(), old(dp.chain), dp.chain)
    ensures old(FreeAccurate(dp.fs)) ==> FreeAccurate(dp.fs)
    ensures Noted(old(dp.fs.freeClust), old(dp.fs.fsiDirty), dp.fs.freeClust, dp.fs.fsiDirty)
    ensures res == FrOk || res == FrDenied || res == FrIntErr
    ensures if res == FrOk then
              && Registered(old(dp.Slots()), mid, dp.Slots(), p, e) && Written(e, dp.fn, name)
              && dp.Placed() && dp.index == p + |e| - 1
            else Extends(dp.Slots(), old(dp.Slots()))
  {
    hide FatFs.Valid, FatFs.Logical, Fat, DirBased, Listing, Stands, Updated, Clusters, Terminated, IsName, Grew, FreeAccurate, Quot, Rem,
      Directory.Placed, FirstRun, Written, Extends, AllFree, Zeros;
    ghost var g, t, d, ch := dp.fs.geo, Fat(dp.fs), dp.fs.Logical(), dp.chain;
    mid, p, e := dp.Slots(), 0, [];
    var nent := 1;
    if Flag(dp.fn[11], NS_LFN) {
      var n := NameEnd(dp.lfnbuf, name);
      SlotEntries(n);
      nent := Quot(n + 25, 13);
    }
    res := DirAlloc(dp, nent);
    mid := dp.Slots();
    GrewPrefix(g, t, d, Fat(dp.fs), dp.fs.Logical(), dp.sclust, ch, dp.chain);
    GrewUpdated(g, t, d, Fat(dp.fs), dp.fs.Logical(), dp.sclust, ch, dp.chain);
    if res != FrOk {
      return;
    }
    p := dp.index + 1 - nent;
    ghost var u, d1 := Fat(dp.fs), dp.fs.Logical();
    AccurateSame(dp.fs, u);
    e := WriteObject(dp, nent, name);
    UpdatedAgain(g, t, d, u, d1, dp.fs.Logical(), ch, dp.chain);
    AccurateSame(dp.fs, u);
  }

  method DirRegister(dp: Dir, up: nat -> nat, num: nat -> Short, ghost name: seq<nat>)
    returns (res: FResult, ghost mid: seq<Slot>, ghost p: nat, ghost e: seq<Slot>, ghost k: nat)
    requires dp.Ready() && |dp.fn| == 12
    requires Flag(dp.fn[11], NS_LFN) ==> IsName(name) && Terminated(dp.lfnbuf[..], name)
    requires ShortOk(dp.fn[..11]) && forall n {:trigger num(n)} :: ShortOk(num(n))
    modifies dp`fn, dp`hasLfn, dp`index, dp`clust, dp`sect, dp`dir, dp`lfnIdx, dp`chain, dp.fs`disk, dp.fs`wflag, dp.fs`winsect, dp.fs.win,
             dp.fs`lastClust, dp.fs`freeClust, dp.fs`fsiDirty
    ensures dp.Ready() && Clusters(dp.fs.geo, dp.chain)
    ensures Updated(dp.fs.geo, old(Fat(dp.fs)), old(dp.fs.Logical()), Fat(dp.fs), dp.fs.Logical(), old(dp.chain), dp.chain)
    ensures old(FreeAccurate(dp.fs)) ==> FreeAccurate(dp.fs)
    ensures Noted(old(dp.fs.freeClust), old(dp.fs.fsiDirty), dp.fs.freeClust, dp.fs.fsiDirty)
    ensures old(InfoCurrent(dp.fs)) ==> InfoCurrent(dp.fs)
    ensures res == FrOk || res == FrDenied || res == FrIntErr
    ensures if res == FrOk then
              && Registered(old(dp.Slots()), mid, dp.Slots(), p, e) && Written(e, dp.fn, name)
              && dp.Placed() && dp.index == p + |e| - 1
            else Extends(dp.Slots(), old(dp.Slots()))
    ensures !Flag(old(dp.fn)[11], NS_LOSS) ==> dp.fn == old(dp.fn) && dp.hasLfn == old(dp.hasLfn)
    ensures Flag(old(dp.fn)[11], NS_LOSS) && k < 100 ==>
              && !Collides(old(dp.Slots()), up, num, k) && dp.fn == num(k) + [old(dp.fn)[11]]
              && dp.hasLfn == old(dp.hasLfn)
    ensures Flag(old(dp.fn)[11], NS_LOSS) ==>
              && (forall n :: 1 <= n < k ==> Collides(old(dp.Slots()), up, num, n))
              && 1 <= k <= 100 && (k == 100 ==> res == FrDenied)
  {
    hide InfoHeld, FatFs.Valid, FatFs.Logical, Fat, DirBased, Listing, Stands, Updated, Clusters, Terminated, IsName, FreeAccurate, Quot, Rem,
      Registered, Written, FindFrom, Collides, Zeros;
    ghost var t := Fat(dp.fs);
    AccurateSame(dp.fs, t);
    ghost var g, d, ch := dp.fs.geo, dp.fs.Logical(), dp.chain;
    mid, p, e, k := dp.Slots(), 0, [], 0;
    if Flag(dp.fn[11], NS_LOSS) {
      res, k := ChooseNumber(dp, up, num);
      AccurateSame(dp.fs, t);
      if res != FrOk {
        NothingPlaced(dp);
        return;
      }
      assert dp.fn[..11] == num(k);
    }
    res, mid, p, e := PlaceObject(dp, name);
    InfoKeptByTable(g, t, d, Fat(dp.fs), dp.fs.Logical(), dp.sclust, ch, dp.chain, dp.fs.fsiEnabled, old(dp.fs.freeClust), old(dp.fs.fsiDirty), dp.fs.freeClust, dp.fs.fsiDirty);
  }

  lemma NothingPlaced(dp: Dir)
    requires dp.Ready()
    ensures Clusters(dp.fs.geo, dp.chain) && Extends(dp.Slots(), dp.Slots())
    ensures Updated(dp.fs.geo, Fat(dp.fs), dp.fs.Logical(), Fat(dp.fs), dp.fs.Logical(), dp.chain, dp.chain)
  {
  }

  lemma EntryBytes(sfn: Short, ntres: Byte)
    ensures ShortEntry(sfn, ntres) == sfn + ([0, ntres] + ZeroBytes(19))
  {
  }

  lemma WrittenNow(l: seq<Slot>, fn: seq<Byte>, name: seq<nat>)
    requires |fn| == 12 && ShortOk(fn[..11])
    requires if Flag(fn[11], NS_LFN) then Stores(l, name, SumSfn(fn)) else l == []
    ensures Written(l + [ShortEntry(fn[..11], CaseBits(fn[11]))], fn, name)
  {
    hide SumSfn, Stores, CaseBits, ShortEntry, ZeroBytes, Rem, Quot;
    var s := ShortEntry(fn[..11], CaseBits(fn[11]));
    assert (l + [s])[..|l|] == l;
    SumOfName(fn, [0, CaseBits(fn[11])] + ZeroBytes(19));
    EntryBytes(fn[..11], CaseBits(fn[11]));
  }

  /** (n + 25) / 13: the slots of a name of n characters, and one. */
  lemma SlotEntries(n: nat)
    requires 0 < n <= MAX_LFN
    ensures Quot(n + 25, 13) == SlotCount(n) + 1 && 0 < SlotCount(n) <= 20
  {
    SlotCounts(n);
  }

  /** for (n = 0; lfn[n]; n++) ; */
  method NameEnd(lfn: array<nat>, ghost name: seq<nat>) returns (n: nat)
    requires IsName(name) && Terminated(lfn[..], name)
    ensures n == |name| && 0 < n <= MAX_LFN
  {
    BufferHolds(lfn[..], name);
    n := 0;
    assert lfn[n] == lfn[..][n];
    while lfn[n] != 0
      invariant n <= |name| && (lfn[n] == 0 <==> n == |name|)
      decreases |name| - n
    {
      n := n + 1;
      assert lfn[n] == lfn[..][n];
    }
  }

  // ---- dir_remove

  method DirRemove(dp: Dir) returns (res: FResult)
    requires dp.Ready() && dp.Placed() && (dp.lfnIdx != NO_LFN ==> dp.lfnIdx <= dp.index)
    modifies dp`index, dp`clust, dp`sect, dp`dir, dp`chain, dp.fs`disk, dp.fs`wflag, dp.fs`winsect, dp.fs.win,
             dp.fs`lastClust, dp.fs`freeClust, dp.fs`fsiDirty
    ensures res == FrOk && dp.Ready() && dp.Placed() && dp.index == old(dp.index) && dp.chain == old(dp.chain)
    ensures Fat(dp.fs) == old(Fat(dp.fs)) && dp.fs.freeClust == old(dp.fs.freeClust) && dp.fs.fsiDirty == old(dp.fs.fsiDirty)
    ensures var a := FirstOf(Hit(dp.index, dp.lfnIdx));
            && a <= dp.index < |old(dp.Slots())|
            && dp.Slots() == Erased(old(dp.Slots()), a, dp.index + 1 - a)
    ensures old(InfoCurrent(dp.fs)) ==> InfoCurrent(dp.fs)
    ensures Clusters(dp.fs.geo, dp.chain)
    ensures Updated(dp.fs.geo, old(Fat(dp.fs)), old(dp.fs.Logical()), Fat(dp.fs), dp.fs.Logical(), dp.chain, dp.chain)
  {
    hide InfoHeld, FatFs.Valid, FatFs.Logical, Fat, DirBased, Listing, Stands, Updated, Clusters, Grew, FreeAccurate, Erased, DeletedSlot;
    ghost var g, t, d, x := dp.fs.geo, Fat(dp.fs), dp.fs.Logical(), dp.Slots();
    PlacedIndex(dp);
    DirClusters(g, t, d, dp.sclust, dp.chain);
    UpdatedNot(g, t, d, dp.chain);
    var i := dp.index;
    var a := if dp.lfnIdx == NO_LFN then i else dp.lfnIdx;
    res := DirSdi(dp, a);
    EraseNone(x, a);
    while true
      invariant dp.Ready() && dp.Placed() && a <= dp.index <= i < |x| == |dp.Slots()| && res == FrOk
      invariant dp.chain == old(dp.chain) && Fat(dp.fs) == t && dp.fs.freeClust == old(dp.fs.freeClust) && dp.fs.fsiDirty == old(dp.fs.fsiDirty)
      invariant dp.Slots() == Erased(x, a, dp.index - a)
      invariant Updated(g, t, d, Fat(dp.fs), dp.fs.Logical(), dp.chain, dp.chain)
      decreases i - dp.index
    {
      ghost var d1 := dp.fs.Logical();
      StoreSlot(dp, DeletedSlot());
      UpdatedAgain(g, t, d, t, d1, dp.fs.Logical(), dp.chain, dp.chain);
      EraseMore(x, a, dp.index - a);
      if dp.index >= i {
        InfoKeptByTable(g, t, d, t, dp.fs.Logical(), dp.sclust, dp.chain, dp.chain, dp.fs.fsiEnabled, old(dp.fs.freeClust), old(dp.fs.fsiDirty), dp.fs.freeClust, dp.fs.fsiDirty);
        return;
      }
      res := DirNext(dp, false);
    }
  }

  lemma EraseNone(d: seq<Slot>, p: nat)
    requires p <= |d|
    ensures Erased(d, p, 0) == d
  {
  }

  lemma EraseMore(d: seq<Slot>, p: nat, n: nat)
    requires p + n < |d|
    ensures Erased(d, p, n)[p + n := DeletedSlot()] == Erased(d, p, n + 1)
  {
    hide DeletedSlot;
  }

  // ---- the directory as a list of objects

  lemma {:induction false} ObjectsExtended(d: seq<Slot>, x: seq<Slot>, i: nat, st: Scan)
    requires Extends(x, d)
    ensures Objects(x, i, st) == Objects(d, i, st)
    decreases |x| - i
  {
    hide ReadSkips, Attr, ReadStep, ReadHit, ZeroSlot;
    assert ZeroSlot()[0] == 0 by {
      ZeroSlotFirst();
    }
    if i < |d| && d[i][0] != 0 {
      ObjectsExtended(d, x, i + 1, FRESH);
      ObjectsExtended(d, x, i + 1, ReadStep(st, d[i], i));
    }
  }

  lemma ZeroSlotFirst()
    ensures ZeroSlot()[0] == 0
  {
  }

  lemma {:induction false} FindExtended(d: seq<Slot>, x: seq<Slot>, q: Query, i: nat, st: Scan)
    requires Extends(x, d) && GoodQuery(q)
    ensures FindFrom(x, q, i, st) == FindFrom(d, q, i, st)
    decreases |x| - i
  {
    hide FindSkips, Attr, FindStep, FindAccepts, ZeroSlot, GoodQuery;
    assert ZeroSlot()[0] == 0 by {
      ZeroSlotFirst();
    }
    if i < |d| && d[i][0] != 0 {
      FindExtended(d, x, q, i + 1, FindStep(q, st, d[i], i));
    }
  }

  lemma EndCleanExtended(d: seq<Slot>, x: seq<Slot>)
    requires Extends(x, d) && EndClean(d)
    ensures EndClean(x)
  {
    hide ZeroSlot;
    assert ZeroSlot()[0] == 0 by {
      ZeroSlotFirst();
    }
  }

  /** With a long name asked for, what dir_register writes are the slots of a new object. */
  lemma WrittenIsNew(e: seq<Slot>, fn: seq<Byte>, name: seq<nat>)
    requires Written(e, fn, name) && Flag(fn[11], NS_LFN)
    ensures NewSlots(e, name, fn[..11])
  {
  }

  /** dir_register adds one object to those that dir_read enumerates, in front of those whose slots come later. */
  lemma {:induction false} RegisterEnumerates(d0: seq<Slot>, mid: seq<Slot>, x: seq<Slot>, p: nat, e: seq<Slot>, sfn: seq<Byte>, name: seq<nat>)
    requires EndClean(d0) && Registered(d0, mid, x, p, e) && NewSlots(e, name, sfn)
    requires IsName(name) && |name| <= 253
    ensures EndClean(x)
    ensures exists m :: 0 <= m <= |Objects(d0, 0, FRESH)| &&
              Objects(x, 0, FRESH) == Objects(d0, 0, FRESH)[..m] + [Hit(p + |e| - 1, p)] + Objects(d0, 0, FRESH)[m..]
  {
    EndCleanExtended(d0, mid);
    ObjectsExtended(d0, mid, 0, FRESH);
    RegisterAddsOne(mid, p, e, name, sfn);
  }

  /** After dir_register of a name that dir_find did not find, dir_find goes to the new object. */
  lemma {:induction false} RegisterThenFind(d0: seq<Slot>, mid: seq<Slot>, x: seq<Slot>, p: nat, e: seq<Slot>, sfn: seq<Byte>, name: seq<nat>,
                                           q: Query, asked: seq<nat>)
    requires EndClean(d0) && Registered(d0, mid, x, p, e) && NewSlots(e, name, sfn)
    requires IsName(name) && |name| <= 254
    requires GoodQuery(q) && q.lfn.Some? && IsUpcase(q.up)
    requires IsName(asked) && Terminated(q.lfn.value, asked) && SameName(q.up, name, asked)
    requires FindFrom(d0, q, 0, FRESH) == None
    ensures FindFrom(x, q, 0, FRESH) == Some(Hit(p + |e| - 1, p))
  {
    EndCleanExtended(d0, mid);
    FindExtended(d0, mid, q, 0, FRESH);
    RegisterIsFound(mid, p, e, name, sfn, q, asked);
  }

  /** dir_remove of the new object brings the old directory back for dir_read and for every dir_find. */
  lemma {:induction false} RegisterThenRemove(d0: seq<Slot>, mid: seq<Slot>, x: seq<Slot>, p: nat, e: seq<Slot>, sfn: seq<Byte>, name: seq<nat>, q: Query)
    requires EndClean(d0) && Registered(d0, mid, x, p, e) && NewSlots(e, name, sfn)
    requires IsName(name) && GoodQuery(q)
    ensures p + |e| <= |x| && EndClean(Erased(x, p, |e|))
    ensures Objects(Erased(x, p, |e|), 0, FRESH) == Objects(d0, 0, FRESH)
    ensures FindFrom(Erased(x, p, |e|), q, 0, FRESH) == FindFrom(d0, q, 0, FRESH)
  {
    EndCleanExtended(d0, mid);
    ObjectsExtended(d0, mid, 0, FRESH);
    FindExtended(d0, mid, q, 0, FRESH);
    RemoveUndoesRegister(mid, p, e, name, sfn, q);
  }

  /** What dir_read collects for the new object is its name. */
  lemma {:induction false} RegisterThenRead(d0: seq<Slot>, mid: seq<Slot>, x: seq<Slot>, p: nat, e: seq<Slot>, sfn: seq<Byte>, name: seq<nat>, start: seq<nat>, buf: seq<nat>)
    requires Registered(d0, mid, x, p, e) && NewSlots(e, name, sfn)
    requires IsName(name) && |name| <= 253
    requires Collected(x, p, p + |e| - 1, start, buf)
    ensures Terminated(buf, name)
  {
    var l := e[..|e| - 1];
    assert x[p..p + |e| - 1] == l;
    PickRoundTrip(start, l, name, SumSfn(e[|e| - 1]));
  }

  // ---- files beside the directory

  lemma DirSectorElsewhere(g: Geometry, ch2: seq<nat>, o: seq<nat>, q: nat)
    requires g.Valid() && Clusters(g, ch2) && Clusters(g, o) && (ch2 == [] ==> g.RootFits() && g.fatType != Fat32)
    requires (forall c :: c in o ==> c !in ch2) && q < |Sectors(g, o)|
    ensures Sectors(g, o)[q] !in DirSecs(g, ch2)
    ensures g.database <= Sectors(g, o)[q] < g.VolumeEnd()
  {
    SectorInCluster(g, o, q);
    var c := o[Quot(q, g.csize)];
    assert c in o;
    if ch2 != [] {
      SectorElsewhere(g, c, ch2, Sectors(g, o)[q]);
    }
  }

  /** A change of a directory leaves the chain and the data of every file that does not share clusters with it. */
  lemma DirectoryKeepsFiles(g: Geometry, t: Links, d: Disk, u: Links, e: Disk, ch: seq<nat>, ch2: seq<nat>, o: seq<nat>, size: nat)
    requires g.Valid() && |t| == g.nFatent && g.VolumeEnd() <= |d| && Clusters(g, ch2) && Clusters(g, o)
    requires Updated(g, t, d, u, e, ch, ch2) && (ch2 == [] ==> g.RootFits() && g.fatType != Fat32)
    requires IsChain(t, o) && (forall c :: c in o ==> c !in ch) && size <= |Sectors(g, o)| * 512
    ensures IsChain(u, o) && Stored(g, e, o, size) == Stored(g, d, o, size)
  {
    forall c | c in o
      ensures c !in ch2 && c < |t| && u[c] == t[c]
    {
      TakenClusters(t, o, c);
    }
    UntouchedChain(t, u, o);
    forall i | 0 <= i < size
      ensures StoredByte(g, e, o, i) == StoredByte(g, d, o, i)
    {
      Split(i, 512);
      DirSectorElsewhere(g, ch2, o, Quot(i, SS));
    }
  }
}
