/** dir_find and dir_read over the window, against the scans of Directory. */
module DirScan {
  import opened Arith
  import opened Bytes
  import opened Layout
  import opened Window
  import opened Chains
  import opened FatTable
  import opened ChainOps
  import opened FileView
  import opened Lfn
  import opened Directory
  import opened DirState
  import opened DirObject

  const NS_LOSS: nat := 1

  /** Slot i is where the DIR object points. */
  lemma SlotHere(g: Geometry, t: Links, d: Disk, sclust: nat, ch: seq<nat>, p: Pos, i: nat)
    requires DirBased(g, t, d, sclust, ch) && Stands(g, ch, p, i)
    ensures p.sect < |d| && !g.InMirror(p.sect) && !g.InFat(p.sect) && p.dir + SZ_DIR <= 512
    ensures i == p.index && i < |Listing(g, t, d, sclust, ch)| && Listing(g, t, d, sclust, ch)[i] == d[p.sect][p.dir..][..SZ_DIR]
  {
    DirSecsPlaced(g, t, d, sclust, ch);
    SlotSector(|DirSecs(g, ch)|, i);
    assert DirSector(g, DirSecs(g, ch)[Quot(i, PER_SECTOR)]);
  }

  lemma LogicalSize(fs: FatFs)
    requires fs.Valid()
    ensures |fs.Logical()| == |fs.disk| && fs.win.Length == 512
  {
  }

  /** move_window to the current slot. */
  method FetchSlot(dp: Dir) returns (s: Slot)
    requires dp.Ready() && dp.Placed()
    modifies dp.fs`disk, dp.fs`wflag, dp.fs`winsect, dp.fs.win
    ensures dp.Ready() && dp.fs.Logical() == old(dp.fs.Logical()) && Fat(dp.fs) == old(Fat(dp.fs)) && dp.Slots() == old(dp.Slots())
    ensures dp.index < |dp.Slots()| && s == dp.Slots()[dp.index] && (old(FreeAccurate(dp.fs)) ==> FreeAccurate(dp.fs))
    ensures dp.fs.winsect == dp.sect && dp.fs.win.Length == 512 && dp.dir + SZ_DIR <= 512 && dp.fs.win[dp.dir..][..SZ_DIR] == s
  {
    hide FatFs.Valid, FatFs.Logical, DirBased, Listing, Stands;
    SlotHere(dp.fs.geo, Fat(dp.fs), dp.fs.Logical(), dp.sclust, dp.chain, dp.Here(), dp.index);
    LogicalSize(dp.fs);
    MoveWindow(dp.fs, dp.sect);
    LogicalSize(dp.fs);
    s := dp.fs.win[dp.dir..][..SZ_DIR];
    assert dp.fs.win[dp.dir..] == dp.fs.win[..][dp.dir..];
  }

  /** sum_sfn */
  method SumOf(dir: Slot) returns (sum: Byte)
    ensures sum == SumSfn(dir)
  {
    hide Quot, Rem;
    var n := 0;
    sum := 0;
    while n < 11
      invariant n <= 11 && SumFrom(dir, n, sum) == SumSfn(dir)
    {
      Split(sum, 2);
      QuotBelow(sum, 2, 256);
      sum := Rem(Quot(sum, 2) + Rem(sum, 2) * 128 + dir[n] as int, 256);
      n := n + 1;
    }
  }

  /** What dir_find looks for. */
  ghost function QueryOf(dp: Dir, up: nat -> nat): (q: Query)
    requires |dp.fn| == 12
    reads dp, dp.lfnbuf
  {
    Query(up, if dp.hasLfn then Some(dp.lfnbuf[..]) else None, dp.fn[..11], Rem(dp.fn[11], 2) == NS_LOSS)
  }

  /** The directory and everything beside the scan is as before. */
  twostate predicate OnlyScanned(dp: Dir)
    requires old(dp.Ready())
    reads dp, dp.fs, dp.fs.win
  {
    && dp.Ready() && dp.chain == old(dp.chain)
    && dp.fs.Logical() == old(dp.fs.Logical()) && Fat(dp.fs) == old(Fat(dp.fs)) && dp.Slots() == old(dp.Slots())
    && dp.fs.lastClust == old(dp.fs.lastClust) && dp.fs.freeClust == old(dp.fs.freeClust) && dp.fs.fsiDirty == old(dp.fs.fsiDirty)
  }

  // ---- random access is sequential access

  /** dir_sdi(0), then i times dir_next. */
  method WalkFromStart(dp: Dir, i: nat) returns (res: FResult)
    requires dp.Ready() && i < MAX_SLOTS
    modifies dp`index, dp`clust, dp`sect, dp`dir, dp`chain, dp.fs`disk, dp.fs`wflag, dp.fs`winsect, dp.fs.win,
             dp.fs`lastClust, dp.fs`freeClust, dp.fs`fsiDirty
    ensures OnlyScanned(dp)
    ensures if i < |dp.Slots()| then res == FrOk && dp.index == i && dp.Placed() else res == FrNoFile
  {
    hide FatFs.Valid, FatFs.Logical, Fat, DirBased, Listing, Stands, Grew, FreeAccurate;
    SlotsCount(dp);
    res := DirSdi(dp, 0);
    var k := 0;
    while k < i
      invariant k <= i && OnlyScanned(dp) && dp.Placed() && dp.index == k && res == FrOk
    {
      PlacedIndex(dp);
      res := DirNext(dp, false);
      if res != FrOk {
        return;
      }
      k := k + 1;
    }
    PlacedIndex(dp);
  }

  /** Both ways to slot i end at the same index, cluster, sector and slot. */
  method ByStepsAndByIndex(dp: Dir, i: nat) returns (ghost steps: Pos, ghost direct: Pos)
    requires dp.Ready() && i < |dp.Slots()|
    modifies dp`index, dp`clust, dp`sect, dp`dir, dp`chain, dp.fs`disk, dp.fs`wflag, dp.fs`winsect, dp.fs.win,
             dp.fs`lastClust, dp.fs`freeClust, dp.fs`fsiDirty
    ensures OnlyScanned(dp) && steps == direct == dp.Here() && dp.index == i
  {
    hide FatFs.Valid, FatFs.Logical, Fat, DirBased, Listing, Stands, FreeAccurate;
    SlotsCount(dp);
    var r := WalkFromStart(dp, i);
    steps := dp.Here();
    ghost var ch := dp.chain;
    r := DirSdi(dp, i);
    direct := dp.Here();
    OnePosition(dp.fs.geo, ch, steps, direct, i);
  }

  /** One slot that dir_find goes past. */
  lemma FindGoesOn(d: seq<Slot>, q: Query, i: nat, st: Scan)
    requires GoodQuery(q) && i < |d| && d[i][0] != 0
    requires !(!FindSkips(d[i]) && Attr(d[i]) != AM_LFN && FindAccepts(q, st, d[i]))
    ensures FindFrom(d, q, i, st) == FindFrom(d, q, i + 1, FindStep(q, st, d[i], i))
  {
  }

  lemma FindStops(d: seq<Slot>, q: Query, i: nat, st: Scan)
    requires GoodQuery(q)
    ensures i >= |d| || d[i][0] == 0 ==> FindFrom(d, q, i, st) == None
    ensures i < |d| && d[i][0] != 0 && !FindSkips(d[i]) && Attr(d[i]) != AM_LFN && FindAccepts(q, st, d[i]) ==>
              FindFrom(d, q, i, st) == Some(Hit(i, st.lfn))
  {
  }

  lemma SlotsCount(dp: Dir)
    requires dp.Ready()
    ensures 0 < |dp.Slots()| <= MAX_SLOTS
  {
  }

  lemma PlacedIndex(dp: Dir)
    requires dp.Ready() && dp.Placed()
    ensures dp.index < |dp.Slots()| <= MAX_SLOTS
  {
    StandsFacts(dp.fs.geo, Fat(dp.fs), dp.fs.Logical(), dp.sclust, dp.chain, dp.Here(), dp.index);
  }

  /** What dir_find does at a slot in use: found, or the new scan state. */
  method FindAt(dp: Dir, up: nat -> nat, s: Slot, ord0: Byte, sum0: Byte) returns (found: bool, ord: Byte, sum: Byte)
    requires dp.lfnbuf.Length == MAX_LFN + 1 && |dp.fn| == 12
    modifies dp`lfnIdx
    ensures found <==> !FindSkips(s) && Attr(s) != AM_LFN && FindAccepts(QueryOf(dp, up), Scan(ord0, sum0, old(dp.lfnIdx)), s)
    ensures found ==> dp.lfnIdx == old(dp.lfnIdx)
    ensures !found ==> Scan(ord, sum, dp.lfnIdx) == FindStep(QueryOf(dp, up), Scan(ord0, sum0, old(dp.lfnIdx)), s, dp.index)
  {
    hide Matches, SumSfn, Quot, Rem;
    found, ord, sum := false, ord0, sum0;
    var c, a := s[0], Attr(s);
    if c == DDE || (HasVol(a) && a != AM_LFN) {
      ord := 0xFF;
      dp.lfnIdx := NO_LFN;
    } else if a == AM_LFN {
      if dp.hasLfn {
        if IsLast(c) {
          sum := s[LDIR_CHKSUM];
          c := c - LLE;
          ord := c;
          dp.lfnIdx := dp.index;
        }
        var part := false;
        if c == ord && sum == s[LDIR_CHKSUM] {
          part := CmpLfn(up, dp.lfnbuf[..], s);
        }
        ord := if part then (if ord == 0 then 0xFF else ord - 1) else 0xFF;
      }
    } else {
      var own := SumOf(s);
      if ord == 0 && sum == own {
        return true, ord, sum;
      }
      if Rem(dp.fn[11], 2) != NS_LOSS && s[..11] == dp.fn[..11] {
        return true, ord, sum;
      }
      ord := 0xFF;
      dp.lfnIdx := NO_LFN;
    }
  }

  method DirFind(dp: Dir, up: nat -> nat) returns (res: FResult)
    requires dp.Ready() && |dp.fn| == 12
    modifies dp`index, dp`clust, dp`sect, dp`dir, dp`lfnIdx, dp`chain, dp.fs`disk, dp.fs`wflag, dp.fs`winsect, dp.fs.win,
             dp.fs`lastClust, dp.fs`freeClust, dp.fs`fsiDirty
    ensures OnlyScanned(dp)
    ensures match FindFrom(dp.Slots(), QueryOf(dp, up), 0, FRESH)
            case None => res == FrNoFile
            case Some(h) => res == FrOk && dp.index == h.index && dp.Placed() && dp.lfnIdx == h.lfn && dp.fs.winsect == dp.sect
  {
    hide FatFs.Valid, FatFs.Logical, Fat, DirBased, Listing, Stands, Grew, FindFrom, FindStep, FindSkips, FindAccepts, DirState.Reach, Attr, Rem, Quot, FreeAccurate;
    ghost var q, d := QueryOf(dp, up), dp.Slots();
    SlotsCount(dp);
    res := DirSdi(dp, 0);
    var ord: Byte, sum: Byte := 0xFF, 0xFF;
    dp.lfnIdx := NO_LFN;
    while true
      invariant OnlyScanned(dp) && dp.Placed() && QueryOf(dp, up) == q
      invariant FindFrom(d, q, 0, FRESH) == FindFrom(d, q, dp.index, Scan(ord, sum, dp.lfnIdx))
      decreases MAX_SLOTS - dp.index
    {
      PlacedIndex(dp);
      var s := FetchSlot(dp);
      ghost var st := Scan(ord, sum, dp.lfnIdx);
      FindStops(d, q, dp.index, st);
      if s[0] == 0 {
        return FrNoFile;
      }
      var found;
      found, ord, sum := FindAt(dp, up, s, ord, sum);
      if found {
        return FrOk;
      }
      FindGoesOn(d, q, dp.index, st);
      res := DirNext(dp, false);
      if res != FrOk {
        FindStops(d, q, |d|, Scan(ord, sum, dp.lfnIdx));
        return;
      }
    }
  }

  // ---- dir_read

  /** The outcome of dir_read does not depend on what an earlier scan left behind. */
  lemma {:induction false} ReadDead(d: seq<Slot>, i: nat, st: Scan)
    requires st.ord == 0xFF
    ensures ReadFrom(d, i, st) == ReadFrom(d, i, FRESH)
    decreases |d| - i
  {
    hide Pickable;
    if i < |d| && d[i][0] != 0 && (ReadSkips(d[i]) || Attr(d[i]) == AM_LFN) {
      var a, b := ReadStep(st, d[i], i), ReadStep(FRESH, d[i], i);
      if a != b {
        ReadDead(d, i + 1, a);
        ReadDead(d, i + 1, b);
      }
    }
  }

  lemma ReadGoesOn(d: seq<Slot>, i: nat, st: Scan)
    requires i < |d| && d[i][0] != 0 && (ReadSkips(d[i]) || Attr(d[i]) == AM_LFN)
    ensures ReadFrom(d, i, st) == ReadFrom(d, i + 1, ReadStep(st, d[i], i))
  {
  }

  lemma ReadStops(d: seq<Slot>, i: nat, st: Scan)
    ensures i >= |d| || d[i][0] == 0 ==> ReadFrom(d, i, st) == None
    ensures i < |d| && d[i][0] != 0 && !ReadSkips(d[i]) && Attr(d[i]) != AM_LFN ==>
              ReadFrom(d, i, st) == Some(ReadHit(st, d[i], i)) && ReadHit(st, d[i], i).index == i
  {
  }

  /** The buffer holds what picking slots a..b in order puts there. */
  ghost predicate Collected(d: seq<Slot>, a: nat, b: nat, start: seq<nat>, buf: seq<nat>) {
    a <= b <= |d| && |start| == MAX_LFN + 1 && PickAll(start, d[a..b]) == Some(buf)
  }

  lemma CollectFirst(d: seq<Slot>, i: nat, start: seq<nat>, buf: seq<nat>)
    requires i < |d| && |start| == |buf| == MAX_LFN + 1 && Pick(start, d[i]) == Some(buf)
    ensures Collected(d, i, i + 1, start, buf)
  {
    assert d[i..i + 1] == [d[i]];
    assert PickAll(buf, []) == Some(buf);
  }

  lemma CollectNext(d: seq<Slot>, a: nat, i: nat, start: seq<nat>, mid: seq<nat>, buf: seq<nat>)
    requires Collected(d, a, i, start, mid) && i < |d| && |mid| == |buf| == MAX_LFN + 1 && Pick(mid, d[i]) == Some(buf)
    ensures Collected(d, a, i + 1, start, buf)
  {
    hide PickAll, Pick;
    PickAllAppend(start, d[a..i], d[i], mid, buf);
    assert d[a..i + 1] == d[a..i] + [d[i]];
  }

  lemma {:induction false} PickAllAppend(start: seq<nat>, slots: seq<Slot>, s: Slot, mid: seq<nat>, buf: seq<nat>)
    requires |start| == |mid| == |buf| == MAX_LFN + 1
    requires PickAll(start, slots) == Some(mid) && Pick(mid, s) == Some(buf)
    ensures PickAll(start, slots + [s]) == Some(buf)
    decreases |slots|
  {
    hide Pick;
    if slots == [] {
      assert slots + [s] == [s] && [s][1..] == [];
      assert PickAll(buf, []) == Some(buf);
    } else {
      var p := Pick(start, slots[0]);
      PickAllAppend(p.value, slots[1..], s, mid, buf);
      assert (slots + [s])[0] == slots[0] && (slots + [s])[1..] == slots[1..] + [s];
    }
  }

  /** What dir_read does at a slot in use: the short entry of an object, or the new scan state. */
  method ReadAt(dp: Dir, s: Slot, ord0: Byte, sum0: Byte) returns (found: bool, ord: Byte, sum: Byte)
    requires dp.lfnbuf.Length == MAX_LFN + 1
    modifies dp`lfnIdx, dp.lfnbuf
    ensures found <==> !ReadSkips(s) && Attr(s) != AM_LFN
    ensures found ==> dp.lfnIdx == ReadHit(Scan(ord0, sum0, old(dp.lfnIdx)), s, dp.index).lfn && dp.lfnbuf[..] == old(dp.lfnbuf[..])
    ensures found && dp.lfnIdx != NO_LFN ==> dp.lfnIdx == old(dp.lfnIdx) && ord0 != 0xFF
    ensures !found ==> Scan(ord, sum, dp.lfnIdx) == ReadStep(Scan(ord0, sum0, old(dp.lfnIdx)), s, dp.index)
    ensures !found && ord != 0xFF ==>
              && Pick(old(dp.lfnbuf[..]), s) == Some(dp.lfnbuf[..])
              && (dp.lfnIdx == dp.index || (dp.lfnIdx == old(dp.lfnIdx) && ord0 != 0xFF))
  {
    hide Pick, SumSfn;
    found, ord, sum := false, ord0, sum0;
    var c, a := s[0], Attr(s);
    if c == DDE || c == 0x2E || a == 0x08 || a == 0x28 {
      ord := 0xFF;
    } else if a == AM_LFN {
      if IsLast(c) {
        sum := s[LDIR_CHKSUM];
        c := c - LLE;
        ord := c;
        dp.lfnIdx := dp.index;
      }
      var part := false;
      if c == ord && sum == s[LDIR_CHKSUM] {
        PickableAnyBuffer(dp.lfnbuf[..], s);
        part := PickLfn(dp.lfnbuf, s);
      }
      ord := if part then (if ord == 0 then 0xFF else ord - 1) else 0xFF;
    } else {
      found := true;
      var own := SumOf(s);
      if ord != 0 || sum != own {
        dp.lfnIdx := NO_LFN;
      }
    }
  }

  /** On success, start is what the name buffer held when the name's first slot was met. */
  method DirRead(dp: Dir) returns (res: FResult, ghost start: seq<nat>)
    requires dp.Ready() && (dp.sect != 0 ==> dp.Placed())
    modifies dp`index, dp`clust, dp`sect, dp`dir, dp`lfnIdx, dp`chain, dp.lfnbuf, dp.fs`disk, dp.fs`wflag, dp.fs`winsect, dp.fs.win,
             dp.fs`lastClust, dp.fs`freeClust, dp.fs`fsiDirty
    ensures OnlyScanned(dp)
    ensures res != FrOk ==> dp.sect == 0
    ensures old(dp.sect) == 0 ==> res == FrNoFile
    ensures old(dp.sect) != 0 ==>
              match ReadFrom(dp.Slots(), old(dp.index), FRESH)
              case None => res == FrNoFile
              case Some(h) =>
                && res == FrOk && dp.index == h.index && dp.Placed() && dp.lfnIdx == h.lfn && dp.fs.winsect == dp.sect
                && (h.lfn != NO_LFN ==> Collected(dp.Slots(), h.lfn, h.index, start, dp.lfnbuf[..]))
  {
    hide FatFs.Valid, FatFs.Logical, Fat, DirBased, Listing, Stands, Grew, ReadFrom, ReadStep, ReadSkips, ReadHit, DirState.Reach, Attr, Pick, Collected, FreeAccurate;
    ghost var d := dp.Slots();
    start := dp.lfnbuf[..];
    res := FrNoFile;
    if dp.sect == 0 {
      return;
    }
    var ord: Byte, sum: Byte := 0xFF, 0xFF;
    ReadDead(d, dp.index, Scan(0xFF, 0xFF, dp.lfnIdx));
    while true
      invariant OnlyScanned(dp) && dp.Placed()
      invariant ReadFrom(d, old(dp.index), FRESH) == ReadFrom(d, dp.index, Scan(ord, sum, dp.lfnIdx))
      invariant ord != 0xFF ==> Collected(d, dp.lfnIdx, dp.index, start, dp.lfnbuf[..])
      decreases MAX_SLOTS - dp.index
    {
      PlacedIndex(dp);
      var s := FetchSlot(dp);
      ghost var st, buf := Scan(ord, sum, dp.lfnIdx), dp.lfnbuf[..];
      ReadStops(d, dp.index, st);
      if s[0] == 0 {
        dp.sect := 0;
        return FrNoFile, start;
      }
      var found;
      found, ord, sum := ReadAt(dp, s, ord, sum);
      if found {
        return FrOk, start;
      }
      ReadGoesOn(d, dp.index, st);
      if ord != 0xFF {
        if dp.lfnIdx == dp.index {
          start := buf;
          CollectFirst(d, dp.index, start, dp.lfnbuf[..]);
        } else {
          CollectNext(d, dp.lfnIdx, dp.index, start, buf, dp.lfnbuf[..]);
        }
      }
      res := DirNext(dp, false);
      if res != FrOk {
        ReadStops(d, |d|, Scan(ord, sum, dp.lfnIdx));
        dp.sect := 0;
        return;
      }
    }
  }
}
