/**
 * Objects registered without a long name: one short entry. Long-name slots that an
 * earlier object left behind in front of it can become its name, and exactly when.
 */
module DirShort {
  import opened Arith
  import opened Bytes
  import opened Lfn
  import opened Directory
  import opened DirTheorems

  /** A directory whose first free slot is p. */
  ghost predicate RoomForOne(d: seq<Slot>, p: nat) {
    EndClean(d) && FirstRun(d, p, 1)
  }

  lemma RoomForOneFacts(d: seq<Slot>, p: nat)
    requires RoomForOne(d, p)
    ensures p < |d| && IsFree(d[p]) && forall k :: 0 <= k < p ==> d[k][0] != 0
  {
    FirstRunBeforeEnd(d, p, 1);
    assert AllFree(d, p, 1);
  }

  lemma ShortEndClean(d: seq<Slot>, p: nat, s: Slot, sfn: seq<Byte>)
    requires RoomForOne(d, p) && ShortSlot(s, sfn)
    ensures p < |d| && EndClean(d[p := s])
  {
    hide FirstRun;
    RoomForOneFacts(d, p);
  }

  lemma ShortSlotMet(x: seq<Slot>, p: nat, s: Slot, sfn: seq<Byte>, st: Scan)
    requires p < |x| && x[p] == s && ShortSlot(s, sfn)
    ensures Objects(x, p, st) == [ReadHit(st, s, p)] + Objects(x, p + 1, FRESH)
  {
    assert Attr(s) == 0;
  }

  /**
   * Registering a short entry adds exactly one object where the slot is. It has a long
   * name if and only if the slots in front of it are a complete one with its checksum.
   */
  lemma ShortAddsOne(d: seq<Slot>, p: nat, s: Slot, sfn: seq<Byte>)
    requires RoomForOne(d, p) && ShortSlot(s, sfn)
    ensures p < |d| && EndClean(d[p := s])
    ensures var was, seen := Objects(d, 0, FRESH), Seen(d, 0, p, FRESH);
            && |seen.0| <= |was|
            && Objects(d[p := s], 0, FRESH) == was[..|seen.0|] + [ReadHit(seen.1, s, p)] + was[|seen.0|..]
            && ReadHit(seen.1, s, p).index == p
            && (ReadHit(seen.1, s, p).lfn == NO_LFN <==> !(seen.1.ord == 0 && seen.1.sum == SumSfn(s)) || seen.1.lfn == NO_LFN)
  {
    hide ShortSlot, FirstRun, Objects, Seen, IsFree, EndClean;
    RoomForOneFacts(d, p);
    ShortEndClean(d, p, s, sfn);
    var x, st := d[p := s], Seen(d, 0, p, FRESH).1;
    SeenSplit(d, 0, p, FRESH);
    SeenSplit(x, 0, p, FRESH);
    SeenSame(d, x, 0, p, FRESH);
    ObjectsFree(d, p, p + 1, st);
    ShortSlotMet(x, p, s, sfn, st);
    ObjectsSame(d, x, p + 1, FRESH);
  }

  lemma OrphanPlaced(d: seq<Slot>, p: nat, l: seq<Slot>, s: Slot)
    requires |l| <= p < |d| && d[p - |l|..p] == l
    ensures forall i :: 0 <= i < |l| + 1 ==> d[p := s][p - |l| + i] == (l + [s])[i]
  {
    forall i | 0 <= i < |l|
      ensures d[p := s][p - |l| + i] == (l + [s])[i]
    {
      assert d[p - |l|..p][i] == d[p - |l| + i];
    }
  }

  lemma NewWithOrphan(l: seq<Slot>, name: seq<nat>, s: Slot, sfn: seq<Byte>)
    requires Stores(l, name, SumSfn(s)) && ShortSlot(s, sfn)
    ensures NewSlots(l + [s], name, sfn)
  {
    hide Stores, ShortSlot;
    assert (l + [s])[..|l + [s]| - 1] == l;
  }

  /** A complete long name with its checksum in front: the new entry is met as an object of that name. */
  lemma OrphanBecomesName(d: seq<Slot>, p: nat, l: seq<Slot>, name: seq<nat>, s: Slot, sfn: seq<Byte>)
    requires RoomForOne(d, p) && ShortSlot(s, sfn)
    requires |l| <= p && d[p - |l|..p] == l && Stores(l, name, SumSfn(s)) && IsName(name) && |name| <= 253
    ensures Objects(d[p := s], 0, FRESH) == Seen(d, 0, p - |l|, FRESH).0 + [Hit(p, p - |l|)] + Objects(d, p + 1, FRESH)
  {
    hide FirstRun, Objects, Seen, EndClean, ShortSlot, Stores, IsName, IsFree;
    RoomForOneFacts(d, p);
    var x, a := d[p := s], p - |l|;
    SeenSplit(x, 0, a, FRESH);
    SeenSame(d, x, 0, a, FRESH);
    OrphanIsMet(d, p, l, name, s, sfn, Seen(d, 0, a, FRESH).1);
    ObjectsSame(d, x, p + 1, FRESH);
    Regroup(Seen(d, 0, a, FRESH).0, Hit(p, a), Objects(d, p + 1, FRESH));
  }

  lemma OrphanIsMet(d: seq<Slot>, p: nat, l: seq<Slot>, name: seq<nat>, s: Slot, sfn: seq<Byte>, st: Scan)
    requires ShortSlot(s, sfn) && |l| <= p < |d| && d[p - |l|..p] == l && Stores(l, name, SumSfn(s)) && IsName(name) && |name| <= 253
    ensures Objects(d[p := s], p - |l|, st) == [Hit(p, p - |l|)] + Objects(d[p := s], p + 1, FRESH)
  {
    hide Objects, ShortSlot, Stores, IsName, NewSlots, SumSfn;
    var e := l + [s];
    OrphanPlaced(d, p, l, s);
    NewWithOrphan(l, name, s, sfn);
    ReadNewObject(d[p := s], p - |l|, e, name, sfn, st);
  }

  lemma Regroup(a: seq<Hit>, h: Hit, b: seq<Hit>)
    ensures a + ([h] + b) == a + [h] + b
  {
  }

  /** One part of the name "A" with a given checksum, as it is stored. */
  function OrphanSlot(sum: Byte): (s: Slot)
  {
    [0x41, 0x41, 0, 0, 0, 0xFF, 0xFF, 0xFF, 0xFF, 0xFF, 0xFF, AM_LFN, 0, sum] +
    [0xFF, 0xFF, 0xFF, 0xFF, 0xFF, 0xFF, 0xFF, 0xFF, 0xFF, 0xFF, 0xFF, 0xFF, 0, 0, 0xFF, 0xFF, 0xFF, 0xFF]
  }

  lemma WordOf(s: seq<Byte>, k: nat)
    requires k + 2 <= |s|
    ensures LdWord(s, k) == s[k] as int + 256 * s[k + 1] as int
  {
    assert LdLe(s, k + 1, 1) == s[k + 1] as int;
  }

  lemma OrphanUnits(sum: Byte, r: nat)
    requires r < 13
    ensures var s, k := OrphanSlot(sum), LfnOfs(r);
            s[k] as int + 256 * s[k + 1] as int == Padded([0x41], r)
  {
  }

  lemma OrphanHeader(sum: Byte)
    ensures var s := OrphanSlot(sum);
            s[0] == 0x41 && s[LDIR_ATTR] == AM_LFN && s[LDIR_TYPE] == 0 && s[LDIR_CHKSUM] == sum && s[26] == 0 && s[27] == 0
  {
  }

  lemma OrphanFits(sum: Byte)
    ensures Fits(OrphanSlot(sum), [0x41], 1, sum) && IsName([0x41]) && Stores([OrphanSlot(sum)], [0x41], sum)
  {
    hide LdLe, LdWord, OrphanSlot;
    var s := OrphanSlot(sum);
    forall r | 0 <= r < 13
      ensures Unit(s, r) == Padded([0x41], r)
    {
      WordOf(s, LfnOfs(r));
      OrphanUnits(sum, r);
    }
    OrphanHeader(sum);
    WordOf(s, LDIR_FSTCLUSLO);
    assert SlotCount(1) == 1;
  }

  /** So a new file without a long name can appear under that of a vanished one: the orphan slot, an empty one, and any short name. */
  lemma OrphanExample(sfn: Short, ntres: Byte)
    requires ShortOk(sfn)
    ensures var s := ShortEntry(sfn, ntres);
            var d: seq<Slot> := [OrphanSlot(SumSfn(s)), ZeroBytes(32)];
            && RoomForOne(d, 1) && Objects(d, 0, FRESH) == [] && Objects(d[1 := s], 0, FRESH) == [Hit(1, 0)]
  {
    hide SumSfn, Stores, Fits, ShortEntry, ZeroBytes, OrphanSlot;
    var s := ShortEntry(sfn, ntres);
    var l: seq<Slot> := [OrphanSlot(SumSfn(s))];
    var d: seq<Slot> := l + [ZeroBytes(32)];
    assert d == [OrphanSlot(SumSfn(s)), ZeroBytes(32)];
    OrphanFits(SumSfn(s));
    assert Fits(l[0], [0x41], 1, SumSfn(s));
    StoredSlotKind(l[0], [0x41], 1, SumSfn(s));
    assert ZeroBytes(32)[0] == 0;
    FirstFreeIsOne(d);
    assert Objects(d, 1, ReadStep(FRESH, d[0], 0)) == [];
    assert d[1 - 1..1] == l;
    OrphanBecomesName(d, 1, l, [0x41], s, sfn);
    assert Seen(d, 0, 0, FRESH).0 == [] && Objects(d, 2, FRESH) == [];
  }

  lemma FirstFreeIsOne(d: seq<Slot>)
    requires |d| == 2 && d[0][0] != 0 && d[0][0] != DDE && d[1][0] == 0
    ensures RoomForOne(d, 1)
  {
    assert AllFree(d, 1, 1);
    assert !IsFree(d[0]);
    assert !AllFree(d, 0, 1);
  }

  // ---- dir_find

  /** What dir_find makes of the directory with the new entry, for every query. */
  lemma ShortFindOutcome(d: seq<Slot>, p: nat, s: Slot, sfn: seq<Byte>, q: Query)
    requires RoomForOne(d, p) && ShortSlot(s, sfn) && GoodQuery(q)
    ensures p < |d|
    ensures FindFrom(d[p := s], q, 0, FRESH) ==
            match FindUpTo(d, q, 0, p, FRESH)
            case Found(h) => Some(h)
            case At(st) => if FindAccepts(q, st, s) then Some(Hit(p, st.lfn)) else FindFrom(d, q, 0, FRESH)
  {
    hide ShortSlot, FirstRun, GoodQuery, FindFrom, FindUpTo, EndClean, IsFree;
    RoomForOneFacts(d, p);
    var x := d[p := s];
    FindSplit(d, q, 0, p, FRESH);
    FindSplit(x, q, 0, p, FRESH);
    FindUpToSame(d, x, q, 0, p, FRESH);
    if FindUpTo(d, q, 0, p, FRESH).At? {
      var st := FindUpTo(d, q, 0, p, FRESH).state;
      FindFree(d, q, p, p + 1, st);
      FindSame(d, x, q, p + 1, FRESH);
      ShortSlotTried(x, q, p, s, sfn, st);
    }
  }

  lemma ShortSlotTried(x: seq<Slot>, q: Query, p: nat, s: Slot, sfn: seq<Byte>, st: Scan)
    requires GoodQuery(q) && p < |x| && x[p] == s && ShortSlot(s, sfn)
    ensures FindFrom(x, q, p, st) == if FindAccepts(q, st, s) then Some(Hit(p, st.lfn)) else FindFrom(x, q, p + 1, FRESH)
  {
    hide SumSfn;
    assert Attr(s) == 0 && !FindSkips(s);
    if !FindAccepts(q, st, s) {
      FindDead(x, q, p + 1, FindStep(q, st, s, p), FRESH);
    }
  }

  /** A short name that dir_find did not find is found at the new entry. */
  lemma ShortIsFound(d: seq<Slot>, p: nat, s: Slot, sfn: seq<Byte>, q: Query)
    requires RoomForOne(d, p) && ShortSlot(s, sfn) && GoodQuery(q) && !q.loss && q.sfn == sfn
    requires FindFrom(d, q, 0, FRESH) == None
    ensures p < |d| && FindUpTo(d, q, 0, p, FRESH).At?
    ensures FindFrom(d[p := s], q, 0, FRESH) == Some(Hit(p, FindUpTo(d, q, 0, p, FRESH).state.lfn))
  {
    hide FirstRun, GoodQuery, FindFrom, FindUpTo;
    RoomForOneFacts(d, p);
    FindSplit(d, q, 0, p, FRESH);
    ShortFindOutcome(d, p, s, sfn, q);
  }

  /** The outcome changes for exactly the queries that the entry answers: its short name, or a long name that the slots in front complete. */
  lemma ShortKeepsOthersIff(d: seq<Slot>, p: nat, s: Slot, sfn: seq<Byte>, q: Query)
    requires RoomForOne(d, p) && ShortSlot(s, sfn) && GoodQuery(q)
    ensures p < |d|
    ensures FindFrom(d[p := s], q, 0, FRESH) == FindFrom(d, q, 0, FRESH) <==>
            match FindUpTo(d, q, 0, p, FRESH)
            case Found(_) => true
            case At(st) => !((!q.loss && q.sfn == sfn) || (st.ord == 0 && st.sum == SumSfn(s)))
  {
    hide FirstRun, GoodQuery, FindFrom, FindUpTo, SumSfn;
    RoomForOneFacts(d, p);
    FindSplit(d, q, 0, p, FRESH);
    ShortFindOutcome(d, p, s, sfn, q);
    if FindUpTo(d, q, 0, p, FRESH).At? {
      FindFree(d, q, p, p + 1, FindUpTo(d, q, 0, p, FRESH).state);
      FindBehind(d, q, p + 1, FRESH);
    }
  }

  /** What is found from slot i on lies there. */
  lemma {:induction false} FindBehind(d: seq<Slot>, q: Query, i: nat, st: Scan)
    requires GoodQuery(q)
    ensures FindFrom(d, q, i, st).Some? ==> FindFrom(d, q, i, st).value.index >= i
    decreases |d| - i
  {
    hide FindAccepts, FindSkips, Attr, FindStep, GoodQuery;
    if i < |d| {
      FindBehind(d, q, i + 1, FindStep(q, st, d[i], i));
    }
  }

  // ---- removing

  /**
   * Removing the entry, alone or with the long-name slots in front of it from a on, gives
   * back every object and every outcome of dir_find.
   */
  lemma ShortRemoveUndoes(d: seq<Slot>, p: nat, s: Slot, sfn: seq<Byte>, a: nat, q: Query)
    requires RoomForOne(d, p) && ShortSlot(s, sfn) && GoodQuery(q)
    requires a <= p && forall k :: a <= k < p && k < |d| ==> NameSlot(d[k])
    ensures p < |d|
    ensures var x := Erased(d[p := s], a, p + 1 - a);
            && EndClean(x)
            && Objects(x, 0, FRESH) == Objects(d, 0, FRESH)
            && FindFrom(x, q, 0, FRESH) == FindFrom(d, q, 0, FRESH)
  {
    hide ShortSlot, FirstRun, DeletedSlot, GoodQuery, NameSlot, Objects, Seen, FindFrom, FindUpTo, EndClean, IsFree;
    RoomForOneFacts(d, p);
    ShortEndClean(d, p, s, sfn);
    ErasedEndClean(d[p := s], a, p + 1 - a);
    var x, n := Erased(d[p := s], a, p + 1 - a), p + 1;
    SeenSplit(d, 0, a, FRESH);
    SeenSplit(x, 0, a, FRESH);
    SeenSame(d, x, 0, a, FRESH);
    var st := Seen(d, 0, a, FRESH).1;
    var r := ReadNameSlots(d, a, p, st);
    ObjectsFree(d, p, n, r);
    ObjectsErased(x, a, n, st);
    ObjectsSame(d, x, n, FRESH);
    EraseOneFinds(d, x, p, a, q);
  }

  lemma EraseOneFinds(d: seq<Slot>, x: seq<Slot>, p: nat, a: nat, q: Query)
    requires GoodQuery(q) && EndClean(d) && a <= p < |d| == |x| && IsFree(d[p])
    requires (forall k :: 0 <= k < p ==> d[k][0] != 0) && (forall k :: a <= k < p ==> NameSlot(d[k]))
    requires forall k :: 0 <= k < |d| ==> x[k] == if a <= k <= p then DeletedSlot() else d[k]
    ensures FindFrom(x, q, 0, FRESH) == FindFrom(d, q, 0, FRESH)
  {
    hide DeletedSlot, GoodQuery, NameSlot, FindFrom, FindUpTo, EndClean, IsFree;
    FindSplit(d, q, 0, a, FRESH);
    FindSplit(x, q, 0, a, FRESH);
    FindUpToSame(d, x, q, 0, a, FRESH);
    if FindUpTo(d, q, 0, a, FRESH).At? {
      var st := FindUpTo(d, q, 0, a, FRESH).state;
      var r := FindNameSlots(d, q, a, p, st);
      FindFree(d, q, p, p + 1, r);
      FindErased(x, q, a, p + 1, st);
      FindSame(d, x, q, p + 1, FRESH);
    }
  }

  /** What dir_find returns for the new entry is the entry and long-name slots right in front of it. */
  lemma ShortHitShape(d: seq<Slot>, p: nat, s: Slot, q: Query, h: Hit)
    requires p < |d| && GoodQuery(q) && FindFrom(d[p := s], q, 0, FRESH) == Some(h) && h.index == p
    ensures FirstOf(h) <= p && forall k :: FirstOf(h) <= k < p ==> NameSlot(d[k])
  {
    hide NameSlot, FindFrom;
    var x := d[p := s];
    HitShape(x, q, 0, FRESH);
    forall k | FirstOf(h) <= k < p
      ensures NameSlot(d[k])
    {
      assert NameSlot(x[k]);
    }
  }
}
