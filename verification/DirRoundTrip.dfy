/** Registering, finding, reading and removing an object over the window, one after the other. */
module DirRoundTrip {
  import opened Arith
  import opened Bytes
  import opened Layout
  import opened Window
  import opened Chains
  import opened FatTable
  import opened ChainOps
  import opened FileView
  import opened Lfn
  import opened Directory
  import opened DirTheorems
  import opened DirShort
  import opened DirState
  import opened DirObject
  import opened DirScan
  import opened DirUpdate

  // ---- without a long name

  /** The first free slot lies in the directory or right behind it. */
  lemma OneInFront(d0: seq<Slot>, mid: seq<Slot>, p: nat)
    requires Extends(mid, d0) && FirstRun(mid, p, 1)
    ensures p <= |d0|
    ensures forall k :: 0 <= k < p ==> mid[k] == d0[k]
  {
    hide ZeroSlot;
    ZeroSlotFirst();
    assert |d0| < |mid| ==> mid[|d0|] == ZeroSlot() && AllFree(mid, |d0|, 1);
  }

  /** What dir_register writes without a long name is one short entry. */
  lemma WrittenShort(e: seq<Slot>, fn: seq<Byte>, name: seq<nat>)
    requires Written(e, fn, name) && !Flag(fn[11], NS_LFN) && ShortOk(fn[..11])
    ensures |e| == 1 && |fn| == 12 && ShortSlot(e[0], fn[..11])
  {
  }

  lemma PlacedOne(d: seq<Slot>, p: nat, e: seq<Slot>)
    requires |e| == 1 && p < |d|
    ensures Directory.Placed(d, p, e) == d[p := e[0]]
  {
  }

  /** The object is added where its slot is, under a long name only if the slots in front complete one with its checksum. */
  lemma {:induction false} RegisterShortEnumerates(d0: seq<Slot>, mid: seq<Slot>, x: seq<Slot>, p: nat, e: seq<Slot>, fn: seq<Byte>, name: seq<nat>)
    requires EndClean(d0) && Registered(d0, mid, x, p, e)
    requires Written(e, fn, name) && !Flag(fn[11], NS_LFN) && ShortOk(fn[..11])
    ensures p <= |d0| && |e| == 1 && EndClean(x)
    ensures var was, seen := Objects(d0, 0, FRESH), Seen(d0, 0, p, FRESH);
            && |seen.0| <= |was|
            && Objects(x, 0, FRESH) == was[..|seen.0|] + [ReadHit(seen.1, e[0], p)] + was[|seen.0|..]
            && (ReadHit(seen.1, e[0], p) == Hit(p, NO_LFN) <==> !(seen.1.ord == 0 && seen.1.sum == SumSfn(e[0])) || seen.1.lfn == NO_LFN)
  {
    hide FirstRun, EndClean, Objects, Seen, Extends, Written, ShortSlot, ShortOk, SumSfn;
    EndCleanExtended(d0, mid);
    ObjectsExtended(d0, mid, 0, FRESH);
    WrittenShort(e, fn, name);
    OneInFront(d0, mid, p);
    ShortAddsOne(mid, p, e[0], fn[..11]);
    PlacedOne(mid, p, e);
    SeenSame(d0, mid, 0, p, FRESH);
  }

  /** One object more, met as h, and otherwise the same list. */
  ghost predicate OneMore(was: seq<Hit>, now: seq<Hit>, h: Hit) {
    exists m :: 0 <= m <= |was| && now == was[..m] + [h] + was[m..]
  }

  /** With or without a long name, dir_register adds exactly one object to those that dir_read enumerates. */
  lemma {:induction false} RegisterAddsExactlyOne(d0: seq<Slot>, mid: seq<Slot>, x: seq<Slot>, p: nat, e: seq<Slot>, fn: seq<Byte>, name: seq<nat>)
    requires EndClean(d0) && Registered(d0, mid, x, p, e) && Written(e, fn, name) && ShortOk(fn[..11])
    requires Flag(fn[11], NS_LFN) ==> IsName(name) && |name| <= 253
    ensures EndClean(x)
    ensures exists h :: OneMore(Objects(d0, 0, FRESH), Objects(x, 0, FRESH), h) && h.index == p + |e| - 1 && (Flag(fn[11], NS_LFN) ==> h.lfn == p)
  {
    hide EndClean, Objects, Seen, Registered, ShortOk, SumSfn, IsName, NewSlots;
    if Flag(fn[11], NS_LFN) {
      WrittenIsNew(e, fn, name);
      RegisterEnumerates(d0, mid, x, p, e, fn[..11], name);
      assert OneMore(Objects(d0, 0, FRESH), Objects(x, 0, FRESH), Hit(p + |e| - 1, p));
    } else {
      RegisterShortEnumerates(d0, mid, x, p, e, fn, name);
      var h := ReadHit(Seen(d0, 0, p, FRESH).1, e[0], p);
      assert OneMore(Objects(d0, 0, FRESH), Objects(x, 0, FRESH), h);
      HitIndex(Seen(d0, 0, p, FRESH).1, e[0], p);
    }
  }

  /** A short name that dir_find did not find leads to the new entry. */
  lemma {:induction false} RegisterShortThenFind(d0: seq<Slot>, mid: seq<Slot>, x: seq<Slot>, p: nat, e: seq<Slot>, fn: seq<Byte>, name: seq<nat>, q: Query)
    requires EndClean(d0) && Registered(d0, mid, x, p, e)
    requires Written(e, fn, name) && !Flag(fn[11], NS_LFN) && ShortOk(fn[..11])
    requires GoodQuery(q) && !q.loss && q.sfn == fn[..11] && FindFrom(d0, q, 0, FRESH) == None
    ensures FindFrom(x, q, 0, FRESH).Some? && FindFrom(x, q, 0, FRESH).value.index == p
  {
    hide FirstRun, EndClean, FindFrom, FindUpTo, Extends, Written, ShortSlot, ShortOk, GoodQuery;
    EndCleanExtended(d0, mid);
    FindExtended(d0, mid, q, 0, FRESH);
    WrittenShort(e, fn, name);
    OneInFront(d0, mid, p);
    ShortIsFound(mid, p, e[0], fn[..11], q);
    PlacedOne(mid, p, e);
  }

  /** dir_remove of what dir_find then finds brings the old directory back, even if it takes slots of a vanished name along. */
  lemma {:induction false} RegisterShortThenRemove(d0: seq<Slot>, mid: seq<Slot>, x: seq<Slot>, p: nat, e: seq<Slot>, fn: seq<Byte>, name: seq<nat>,
                                                   q: Query, h: Hit, r: Query)
    requires EndClean(d0) && Registered(d0, mid, x, p, e)
    requires Written(e, fn, name) && !Flag(fn[11], NS_LFN) && ShortOk(fn[..11])
    requires GoodQuery(q) && FindFrom(x, q, 0, FRESH) == Some(h) && h.index == p && GoodQuery(r)
    ensures FirstOf(h) <= p < |x| && EndClean(Erased(x, FirstOf(h), p + 1 - FirstOf(h)))
    ensures Objects(Erased(x, FirstOf(h), p + 1 - FirstOf(h)), 0, FRESH) == Objects(d0, 0, FRESH)
    ensures FindFrom(Erased(x, FirstOf(h), p + 1 - FirstOf(h)), r, 0, FRESH) == FindFrom(d0, r, 0, FRESH)
  {
    hide FirstRun, EndClean, FindFrom, Objects, Extends, Written, ShortSlot, ShortOk, GoodQuery, NameSlot, DeletedSlot, FirstOf;
    EndCleanExtended(d0, mid);
    ObjectsExtended(d0, mid, 0, FRESH);
    FindExtended(d0, mid, r, 0, FRESH);
    WrittenShort(e, fn, name);
    OneInFront(d0, mid, p);
    RoomForOneFacts(mid, p);
    PlacedOne(mid, p, e);
    ShortHitShape(mid, p, e[0], q, h);
    ShortRemoveUndoes(mid, p, e[0], fn[..11], FirstOf(h), r);
  }

  // ---- with a long name, over the window

  /** A lossy short name is not compared. */
  lemma {:induction false} FindLossy(d: seq<Slot>, q: Query, r: Query, i: nat, st: Scan)
    requires GoodQuery(q) && GoodQuery(r) && q.loss && r == q.(sfn := r.sfn)
    ensures FindFrom(d, q, i, st) == FindFrom(d, r, i, st)
    decreases |d| - i
  {
    hide FindSkips, Attr, SumSfn, Matches;
    if i < |d| {
      FindLossy(d, q, r, i + 1, FindStep(q, st, d[i], i));
    }
  }

  /** What dir_read makes of the registered object when it starts at its first slot. */
  lemma {:induction false} ReadRegistered(mid: seq<Slot>, x: seq<Slot>, p: nat, e: seq<Slot>, sfn: seq<Byte>, name: seq<nat>)
    requires p + |e| <= |mid| && x == Directory.Placed(mid, p, e) && NewSlots(e, name, sfn) && IsName(name) && |name| <= 253
    ensures ReadFrom(x, p, FRESH) == Some(Hit(p + |e| - 1, p))
  {
    hide NewSlots, IsName, Objects, ReadFrom;
    ReadNewObject(x, p, e, name, sfn, FRESH);
    ReadingEnumerates(x, p, FRESH);
    assert Objects(x, p, FRESH)[0] == Hit(p + |e| - 1, p);
  }

  lemma SameNameSelf(up: nat -> nat, name: seq<nat>)
    ensures SameName(up, name, name)
  {
  }

  lemma PositionUsed(dp: Dir)
    requires dp.Ready() && dp.Placed()
    ensures dp.sect != 0
  {
    StandsFacts(dp.fs.geo, Fat(dp.fs), dp.fs.Logical(), dp.sclust, dp.chain, dp.Here(), dp.index);
  }

  /** The query after dir_register finds the same as before it in the old directory: a short name that changed is not compared. */
  lemma QueryAfterRegister(d: seq<Slot>, q: Query, r: Query)
    requires GoodQuery(q) && GoodQuery(r) && r.up == q.up && r.lfn == q.lfn && r.loss == q.loss && (!q.loss ==> r.sfn == q.sfn)
    ensures FindFrom(d, q, 0, FRESH) == FindFrom(d, r, 0, FRESH)
  {
    if q.loss {
      FindLossy(d, q, r, 0, FRESH);
    } else {
      assert q == r;
    }
  }

  /** The object registered as e at p is gone again: the directory x means what d0 meant. */
  ghost predicate SameDirectory(d0: seq<Slot>, x: seq<Slot>) {
    && EndClean(x) && Objects(x, 0, FRESH) == Objects(d0, 0, FRESH)
    && forall q :: GoodQuery(q) ==> FindFrom(x, q, 0, FRESH) == FindFrom(d0, q, 0, FRESH)
  }

  lemma RemovedAgain(d0: seq<Slot>, mid: seq<Slot>, x: seq<Slot>, p: nat, e: seq<Slot>, sfn: seq<Byte>, name: seq<nat>)
    requires EndClean(d0) && Registered(d0, mid, x, p, e) && NewSlots(e, name, sfn) && IsName(name)
    ensures p + |e| <= |x| && SameDirectory(d0, Erased(x, p, |e|))
  {
    hide Objects, FindFrom, EndClean, Registered, NewSlots, IsName, GoodQuery;
    forall q: Query | GoodQuery(q)
      ensures p + |e| <= |x| && FindFrom(Erased(x, p, |e|), q, 0, FRESH) == FindFrom(d0, q, 0, FRESH)
    {
      RegisterThenRemove(d0, mid, x, p, e, sfn, name, q);
    }
    RegisterThenRemove(d0, mid, x, p, e, sfn, name, Query(c => c, None, ZeroBytes(11), true)) by {
      AnyQueryIsGood();
    }
  }

  lemma AnyQueryIsGood()
    ensures GoodQuery(Query(c => c, None, ZeroBytes(11), true))
  {
  }

  /** dir_find, dir_read from the object's first slot, and dir_remove, right after dir_register. */
  method VisitRegistered(dp: Dir, up: nat -> nat, ghost d0: seq<Slot>, ghost mid: seq<Slot>, ghost p: nat, ghost e: seq<Slot>, ghost name: seq<nat>)
    returns (ghost listed: seq<Hit>)
    requires dp.Ready() && |dp.fn| == 12 && dp.hasLfn
    requires EndClean(d0) && Registered(d0, mid, dp.Slots(), p, e) && NewSlots(e, name, dp.fn[..11])
    requires IsName(name) && |name| <= 253 && Terminated(dp.lfnbuf[..], name) && IsUpcase(up)
    requires FindFrom(d0, QueryOf(dp, up), 0, FRESH) == None
    modifies dp`index, dp`clust, dp`sect, dp`dir, dp`lfnIdx, dp`chain, dp.lfnbuf, dp.fs`disk, dp.fs`wflag, dp.fs`winsect, dp.fs.win,
             dp.fs`lastClust, dp.fs`freeClust, dp.fs`fsiDirty
    ensures dp.Ready() && Fat(dp.fs) == old(Fat(dp.fs)) && dp.chain == old(dp.chain)
    ensures dp.index == p + |e| - 1 && dp.lfnIdx == p && Terminated(dp.lfnbuf[..], name)
    ensures OneMore(Objects(d0, 0, FRESH), listed, Hit(p + |e| - 1, p)) && SameDirectory(d0, dp.Slots())
  {
    hide FatFs.Valid, FatFs.Logical, Fat, DirBased, Listing, Stands, Updated, Clusters, FreeAccurate, Objects, FindFrom, ReadFrom, EndClean,
      Registered, NewSlots, IsName, Terminated, GoodQuery, IsUpcase, SameName, Collected, Erased, SameDirectory, Flag;
    ghost var x, q := dp.Slots(), QueryOf(dp, up);
    QueryFacts(dp, up);
    SlotsCount(dp);
    RegisteredFits(d0, mid, x, p, e, dp.fn[..11], name);
    RegisterEnumerates(d0, mid, x, p, e, dp.fn[..11], name);
    listed := Objects(x, 0, FRESH);
    SameNameSelf(up, name);
    RegisterThenFind(d0, mid, x, p, e, dp.fn[..11], name, q, name);
    var res := DirFind(dp, up);
    res := DirSdi(dp, dp.lfnIdx);
    PositionUsed(dp);
    ReadRegistered(mid, x, p, e, dp.fn[..11], name);
    ghost var start;
    res, start := DirRead(dp);
    RegisterThenRead(d0, mid, x, p, e, dp.fn[..11], name, start, dp.lfnbuf[..]);
    RemovedAgain(d0, mid, x, p, e, dp.fn[..11], name);
    res := DirRemove(dp);
  }

  lemma QueryFacts(dp: Dir, up: nat -> nat)
    requires |dp.fn| == 12 && dp.lfnbuf.Length == MAX_LFN + 1 && dp.hasLfn
    ensures var q := QueryOf(dp, up); GoodQuery(q) && q.up == up && q.lfn == Some(dp.lfnbuf[..]) && q.sfn == dp.fn[..11]
  {
  }

  lemma RegisteredFits(d0: seq<Slot>, mid: seq<Slot>, x: seq<Slot>, p: nat, e: seq<Slot>, sfn: seq<Byte>, name: seq<nat>)
    requires Registered(d0, mid, x, p, e) && NewSlots(e, name, sfn) && IsName(name)
    ensures |x| == |mid| && p + |e| <= |x| && |e| >= 2 && x == Directory.Placed(mid, p, e)
  {
    hide SumSfn, Fits;
    SlotCounts(|name|);
  }

  /**
   * A name that dir_find does not find: dir_register adds exactly it, dir_find then leads
   * to it, dir_read gives its name, and dir_remove brings the old directory back.
   */
  method RegisterToRemove(dp: Dir, up: nat -> nat, num: nat -> Short, ghost name: seq<nat>)
    returns (res: FResult, known: bool, ghost listed: seq<Hit>)
    requires dp.Ready() && |dp.fn| == 12 && dp.hasLfn && Flag(dp.fn[11], NS_LFN) && EndClean(dp.Slots())
    requires IsName(name) && |name| <= 253 && Terminated(dp.lfnbuf[..], name) && IsUpcase(up)
    requires ShortOk(dp.fn[..11]) && forall n {:trigger num(n)} :: ShortOk(num(n))
    modifies dp`fn, dp`hasLfn, dp`index, dp`clust, dp`sect, dp`dir, dp`lfnIdx, dp`chain, dp.lfnbuf, dp.fs`disk, dp.fs`wflag, dp.fs`winsect, dp.fs.win,
             dp.fs`lastClust, dp.fs`freeClust, dp.fs`fsiDirty
    ensures dp.Ready()
    ensures known <==> FindFrom(old(dp.Slots()), old(QueryOf(dp, up)), 0, FRESH).Some?
    ensures known ==> dp.Slots() == old(dp.Slots())
    ensures !known && res == FrOk ==>
              && dp.lfnIdx <= dp.index && Terminated(dp.lfnbuf[..], name)
              && OneMore(Objects(old(dp.Slots()), 0, FRESH), listed, Hit(dp.index, dp.lfnIdx))
              && SameDirectory(old(dp.Slots()), dp.Slots())
    ensures res != FrOk ==> Extends(dp.Slots(), old(dp.Slots()))
  {
    hide FatFs.Valid, FatFs.Logical, Fat, DirBased, Listing, Stands, Updated, Clusters, FreeAccurate, Objects, FindFrom, EndClean,
      Registered, NewSlots, IsName, Terminated, GoodQuery, IsUpcase, Written, SameDirectory, Collides, Extends, OneMore, Flag, Rem, Quot;
    ghost var d0, q := dp.Slots(), QueryOf(dp, up);
    QueryFacts(dp, up);
    listed := [];
    ExtendsSelf(d0);
    res := DirFind(dp, up);
    known := res == FrOk;
    if known {
      return;
    }
    ghost var mid, p, e, k;
    res, mid, p, e, k := DirRegister(dp, up, num, name);
    if res != FrOk {
      return;
    }
    WrittenIsNew(e, dp.fn, name);
    QueryFacts(dp, up);
    LossyFlag(old(dp.fn)[11]);
    QueryAfterRegister(d0, q, QueryOf(dp, up));
    listed := VisitRegistered(dp, up, d0, mid, p, e, name);
  }

  lemma LossyFlag(b: Byte)
    ensures Flag(b, NS_LOSS) <==> Rem(b, 2) == NS_LOSS
  {
    TimesIsMul(b, 1);
    QuotRemUnique(b, 1, b, 0);
  }

  lemma ExtendsSelf(d: seq<Slot>)
    ensures Extends(d, d)
  {
  }
}
