/** Registering an object adds exactly it to a directory, and removing one takes exactly it away. */
module DirTheorems {
  import opened Arith
  import opened Bytes
  import opened Lfn
  import opened Directory

  // ---- dir_read, part by part

  /** The objects met from slot i up to slot p, and the scan state there. */
  function Seen(d: seq<Slot>, i: nat, p: nat, st: Scan): (r: (seq<Hit>, Scan))
    requires i <= p <= |d|
    decreases p - i
  {
    if i == p then ([], st)
    else if !ReadSkips(d[i]) && Attr(d[i]) != AM_LFN then
      ([ReadHit(st, d[i], i)] + Seen(d, i + 1, p, FRESH).0, Seen(d, i + 1, p, FRESH).1)
    else Seen(d, i + 1, p, ReadStep(st, d[i], i))
  }

  lemma {:induction false} SeenSplit(d: seq<Slot>, i: nat, p: nat, st: Scan)
    requires i <= p <= |d| && forall k :: i <= k < p ==> d[k][0] != 0
    ensures Objects(d, i, st) == Seen(d, i, p, st).0 + Objects(d, p, Seen(d, i, p, st).1)
    decreases p - i
  {
    hide ReadSkips, Attr, ReadStep, ReadHit;
    if i < p {
      if !ReadSkips(d[i]) && Attr(d[i]) != AM_LFN {
        SeenSplit(d, i + 1, p, FRESH);
      } else {
        SeenSplit(d, i + 1, p, ReadStep(st, d[i], i));
      }
    }
  }

  lemma {:induction false} SeenSame(d: seq<Slot>, e: seq<Slot>, i: nat, p: nat, st: Scan)
    requires i <= p <= |d| && p <= |e| && forall k :: i <= k < p ==> d[k] == e[k]
    ensures Seen(d, i, p, st) == Seen(e, i, p, st)
    decreases p - i
  {
    hide ReadSkips, Attr, ReadStep, ReadHit;
    if i < p {
      SeenSame(d, e, i + 1, p, FRESH);
      SeenSame(d, e, i + 1, p, ReadStep(st, d[i], i));
    }
  }

  lemma {:induction false} ObjectsSame(d: seq<Slot>, e: seq<Slot>, i: nat, st: Scan)
    requires |d| == |e| && forall k :: i <= k < |d| ==> d[k] == e[k]
    ensures Objects(d, i, st) == Objects(e, i, st)
    decreases |d| - i
  {
    hide ReadSkips, Attr, ReadStep, ReadHit;
    if i < |d| {
      ObjectsSame(d, e, i + 1, FRESH);
      ObjectsSame(d, e, i + 1, ReadStep(st, d[i], i));
    }
  }

  /** When no long name is in progress, the rest of the scan state does not matter. */
  lemma {:induction false} ObjectsDead(d: seq<Slot>, i: nat, st: Scan)
    requires st.ord == 0xFF
    ensures Objects(d, i, st) == Objects(d, i, FRESH)
    decreases |d| - i
  {
    hide Pickable;
    if i < |d| && d[i][0] != 0 && (ReadSkips(d[i]) || Attr(d[i]) == AM_LFN) {
      var a, b := ReadStep(st, d[i], i), ReadStep(FRESH, d[i], i);
      if a != b {
        ObjectsDead(d, i + 1, a);
        ObjectsDead(d, i + 1, b);
      }
    }
  }

  lemma {:induction false} ObjectsAllFree(d: seq<Slot>, i: nat, st: Scan)
    requires forall k :: i <= k < |d| ==> IsFree(d[k])
    ensures Objects(d, i, st) == []
    decreases |d| - i
  {
    if i < |d| && d[i][0] != 0 {
      ObjectsAllFree(d, i + 1, ReadStep(st, d[i], i));
    }
  }

  /** A run of free slots contributes nothing and ends any long name in progress. */
  lemma {:induction false} ObjectsFree(d: seq<Slot>, i: nat, j: nat, st: Scan)
    requires i < j <= |d| && EndClean(d) && forall k :: i <= k < j ==> IsFree(d[k])
    ensures Objects(d, i, st) == Objects(d, j, FRESH)
    decreases j - i
  {
    if d[i][0] == 0 {
      ObjectsAllFree(d, j, FRESH);
    } else {
      var r := ReadStep(st, d[i], i);
      if i + 1 == j {
        ObjectsDead(d, j, r);
      } else {
        ObjectsFree(d, i + 1, j, r);
      }
    }
  }

  // ---- dir_find, part by part

  datatype Progress = Found(hit: Hit) | At(state: Scan)

  /** dir_find from slot i up to slot p. */
  function FindUpTo(d: seq<Slot>, q: Query, i: nat, p: nat, st: Scan): (r: Progress)
    requires GoodQuery(q) && i <= p <= |d|
    ensures r.At? && q.lfn.None? && st.ord == 0xFF ==> r.state.ord == 0xFF
    decreases p - i
  {
    if i == p then At(st)
    else if !FindSkips(d[i]) && Attr(d[i]) != AM_LFN && FindAccepts(q, st, d[i]) then Found(Hit(i, st.lfn))
    else FindUpTo(d, q, i + 1, p, FindStep(q, st, d[i], i))
  }

  lemma {:induction false} FindSplit(d: seq<Slot>, q: Query, i: nat, p: nat, st: Scan)
    requires GoodQuery(q) && i <= p <= |d| && forall k :: i <= k < p ==> d[k][0] != 0
    ensures FindFrom(d, q, i, st) ==
            match FindUpTo(d, q, i, p, st)
            case Found(h) => Some(h)
            case At(s) => FindFrom(d, q, p, s)
    decreases p - i
  {
    hide FindSkips, Attr, FindStep, FindAccepts, GoodQuery;
    if i < p {
      FindSplit(d, q, i + 1, p, FindStep(q, st, d[i], i));
    }
  }

  lemma {:induction false} FindUpToSame(d: seq<Slot>, e: seq<Slot>, q: Query, i: nat, p: nat, st: Scan)
    requires GoodQuery(q) && i <= p <= |d| && p <= |e| && forall k :: i <= k < p ==> d[k] == e[k]
    ensures FindUpTo(d, q, i, p, st) == FindUpTo(e, q, i, p, st)
    decreases p - i
  {
    hide FindSkips, Attr, FindStep, FindAccepts, GoodQuery;
    if i < p {
      FindUpToSame(d, e, q, i + 1, p, FindStep(q, st, d[i], i));
    }
  }

  lemma {:induction false} FindSame(d: seq<Slot>, e: seq<Slot>, q: Query, i: nat, st: Scan)
    requires GoodQuery(q) && |d| == |e| && forall k :: i <= k < |d| ==> d[k] == e[k]
    ensures FindFrom(d, q, i, st) == FindFrom(e, q, i, st)
    decreases |d| - i
  {
    hide FindSkips, Attr, FindStep, FindAccepts, GoodQuery;
    if i < |d| {
      FindSame(d, e, q, i + 1, FindStep(q, st, d[i], i));
    }
  }

  lemma {:induction false} FindDead(d: seq<Slot>, q: Query, i: nat, a: Scan, b: Scan)
    requires GoodQuery(q) && a.ord == b.ord == 0xFF && a.lfn == b.lfn
    ensures FindFrom(d, q, i, a) == FindFrom(d, q, i, b)
    decreases |d| - i
  {
    hide Matches;
    if i < |d| && d[i][0] != 0 {
      var x, y := FindStep(q, a, d[i], i), FindStep(q, b, d[i], i);
      if x != y {
        FindDead(d, q, i + 1, x, y);
      }
    }
  }

  lemma {:induction false} FindAllFree(d: seq<Slot>, q: Query, i: nat, st: Scan)
    requires GoodQuery(q) && forall k :: i <= k < |d| ==> IsFree(d[k])
    ensures FindFrom(d, q, i, st) == None
    decreases |d| - i
  {
    if i < |d| && d[i][0] != 0 {
      FindAllFree(d, q, i + 1, FindStep(q, st, d[i], i));
    }
  }

  lemma {:induction false} FindFree(d: seq<Slot>, q: Query, i: nat, j: nat, st: Scan)
    requires GoodQuery(q) && i < j <= |d| && EndClean(d) && forall k :: i <= k < j ==> IsFree(d[k])
    ensures FindFrom(d, q, i, st) == FindFrom(d, q, j, FRESH)
    decreases j - i
  {
    if d[i][0] == 0 {
      FindAllFree(d, q, j, FRESH);
    } else {
      var r := FindStep(q, st, d[i], i);
      if i + 1 == j {
        FindDead(d, q, j, r, FRESH);
      } else {
        FindFree(d, q, i + 1, j, r);
      }
    }
  }

  /** dir_find over the long-name slots of a new object whose slots all match. */
  lemma {:induction false} FindNewName(d: seq<Slot>, q: Query, p: nat, e: seq<Slot>, name: seq<nat>, sum: Byte, m: nat, st: Scan)
    requires GoodQuery(q) && q.lfn.Some?
    requires IsName(name) && Stores(e, name, sum) && m <= |e| && |e| < 255
    requires p + |e| <= |d| && forall i :: 0 <= i < |e| ==> d[p + i] == e[i]
    requires forall i :: 0 <= i < |e| ==> Matches(q.up, q.lfn.value, e[i])
    requires m > 0 ==> st == MidName(|e|, m, sum, p)
    ensures FindFrom(d, q, p + m, st) == FindFrom(d, q, p + |e|, MidName(|e|, |e|, sum, p))
    decreases |e| - m
  {
    hide Fits, Matches;
    SlotCounts(|name|);
    if m < |e| {
      var ord := |e| - m;
      assert Fits(e[m], name, ord, sum);
      StoredSlotKind(e[m], name, ord, sum);
      assert d[p + m] == e[m];
      assert FindStep(q, st, e[m], p + m) == MidName(|e|, m + 1, sum, p);
      FindNewName(d, q, p, e, name, sum, m + 1, MidName(|e|, m + 1, sum, p));
    }
  }

  /** dir_find over the long-name slots of a new object of which some slot does not match: no name is in progress after them. */
  lemma {:induction false} FindOtherName(d: seq<Slot>, q: Query, p: nat, e: seq<Slot>, name: seq<nat>, sum: Byte, m: nat, st: Scan)
    returns (r: Scan)
    requires GoodQuery(q) && q.lfn.Some?
    requires IsName(name) && Stores(e, name, sum) && m <= |e| && |e| < 255
    requires p + |e| <= |d| && forall i :: 0 <= i < |e| ==> d[p + i] == e[i]
    requires m > 0 ==> st.ord == 0xFF || (st == MidName(|e|, m, sum, p) && exists i :: m <= i < |e| && !Matches(q.up, q.lfn.value, e[i]))
    requires m == 0 ==> exists i :: m <= i < |e| && !Matches(q.up, q.lfn.value, e[i])
    ensures r.ord == 0xFF
    ensures FindFrom(d, q, p + m, st) == FindFrom(d, q, p + |e|, r)
    decreases |e| - m
  {
    hide Fits, Matches;
    SlotCounts(|name|);
    if m < |e| {
      var ord := |e| - m;
      assert Fits(e[m], name, ord, sum);
      StoredSlotKind(e[m], name, ord, sum);
      assert d[p + m] == e[m];
      var next := FindStep(q, st, e[m], p + m);
      r := FindOtherName(d, q, p, e, name, sum, m + 1, next);
    } else {
      r := st;
    }
  }

  // ---- registering

  ghost predicate AllFree(d: seq<Slot>, p: nat, n: nat)
    requires p + n <= |d|
  {
    forall k :: p <= k < p + n ==> IsFree(d[k])
  }

  /** Where dir_alloc puts n slots: the first run of n free slots. */
  ghost predicate FirstRun(d: seq<Slot>, p: nat, n: nat) {
    && 0 < n && p + n <= |d| && AllFree(d, p, n)
    && forall s :: 0 <= s < p ==> !AllFree(d, s, n)
  }

  /** The first run never leaves the end of the table behind. */
  lemma FirstRunBeforeEnd(d: seq<Slot>, p: nat, n: nat)
    requires FirstRun(d, p, n) && EndClean(d)
    ensures forall k :: 0 <= k < p ==> d[k][0] != 0
  {
    forall k | 0 <= k < p
      ensures d[k][0] != 0
    {
      if d[k][0] == 0 {
        assert AllFree(d, k, n);
      }
    }
  }

  /** A directory with room for a new object at p. */
  ghost predicate Room(d: seq<Slot>, p: nat, e: seq<Slot>) {
    EndClean(d) && FirstRun(d, p, |e|)
  }

  lemma {:induction false} PlacedEndClean(d: seq<Slot>, p: nat, e: seq<Slot>, name: seq<nat>, sfn: seq<Byte>)
    requires Room(d, p, e) && IsName(name) && NewSlots(e, name, sfn)
    ensures EndClean(Placed(d, p, e))
  {
    hide NewSlots, FirstRun;
    FirstRunBeforeEnd(d, p, |e|);
    RoomFacts(d, p, e);
    NewSlotsUsed(e, name, sfn);
  }

  /** No slot of a new object is an end mark. */
  lemma NewSlotsUsed(e: seq<Slot>, name: seq<nat>, sfn: seq<Byte>)
    requires IsName(name) && NewSlots(e, name, sfn)
    ensures forall i :: 0 <= i < |e| ==> e[i][0] != 0
  {
    hide Fits, SumSfn;
    SlotCounts(|name|);
    var l := e[..|e| - 1];
    forall i | 0 <= i < |e|
      ensures e[i][0] != 0
    {
      if i < |l| {
        assert l[i] == e[i] && Fits(l[i], name, |l| - i, SumSfn(e[|e| - 1]));
        StoredSlotKind(l[i], name, |l| - i, SumSfn(e[|e| - 1]));
      }
    }
  }

  /** Registering a name of up to 253 characters adds exactly one object, where its slots are, and keeps the end mark sound. */
  lemma RegisterAddsOne(d: seq<Slot>, p: nat, e: seq<Slot>, name: seq<nat>, sfn: seq<Byte>)
    requires Room(d, p, e) && IsName(name) && |name| <= 253 && NewSlots(e, name, sfn)
    ensures EndClean(Placed(d, p, e))
    ensures var was, m := Objects(d, 0, FRESH), |Seen(d, 0, p, FRESH).0|;
            && m <= |was|
            && Objects(Placed(d, p, e), 0, FRESH) == was[..m] + [Hit(p + |e| - 1, p)] + was[m..]
  {
    hide NewSlots, FirstRun, Objects, Seen, IsFree, EndClean;
    assert p + |e| <= |d| && |e| > 0 by {
      RoomFacts(d, p, e);
    }
    var x := Placed(d, p, e);
    PlacedEndClean(d, p, e, name, sfn);
    assert forall k :: 0 <= k < p ==> d[k][0] != 0 by {
      FirstRunBeforeEnd(d, p, |e|);
    }
    SeenSplit(d, 0, p, FRESH);
    SeenSplit(x, 0, p, FRESH);
    SeenSame(d, x, 0, p, FRESH);
    var st := Seen(d, 0, p, FRESH).1;
    RoomFacts(d, p, e);
    ObjectsFree(d, p, p + |e|, st);
    ReadNewObject(x, p, e, name, sfn, st);
    ObjectsSame(d, x, p + |e|, FRESH);
  }

  lemma RoomFacts(d: seq<Slot>, p: nat, e: seq<Slot>)
    requires Room(d, p, e)
    ensures |e| > 0 && p + |e| <= |d| && forall k :: p <= k < p + |e| ==> IsFree(d[k])
  {
  }

  /** After registering a name dir_find did not find, dir_find finds it, in any mix of cases. */
  lemma {:induction false} RegisterIsFound(d: seq<Slot>, p: nat, e: seq<Slot>, name: seq<nat>, sfn: seq<Byte>, q: Query, asked: seq<nat>)
    requires Room(d, p, e) && IsName(name) && |name| <= 254 && NewSlots(e, name, sfn)
    requires GoodQuery(q) && q.lfn.Some? && IsUpcase(q.up)
    requires IsName(asked) && Terminated(q.lfn.value, asked) && SameName(q.up, name, asked)
    requires FindFrom(d, q, 0, FRESH) == None
    ensures FindFrom(Placed(d, p, e), q, 0, FRESH) == Some(Hit(p + |e| - 1, p))
  {
    hide Matches, Fits, FirstRun, GoodQuery, IsFree, EndClean, SumSfn, FindUpTo;
    RoomFacts(d, p, e);
    var x, l, s := Placed(d, p, e), e[..|e| - 1], e[|e| - 1];
    assert forall k :: 0 <= k < p ==> d[k][0] != 0 by {
      FirstRunBeforeEnd(d, p, |e|);
    }
    FindSplit(d, q, 0, p, FRESH);
    FindSplit(x, q, 0, p, FRESH);
    FindUpToSame(d, x, q, 0, p, FRESH);
    var st := FindUpTo(d, q, 0, p, FRESH).state;
    MatchesExactly(q.up, q.lfn.value, l, name, asked, SumSfn(s));
    SlotCounts(|name|);
    FindNewName(x, q, p, l, name, SumSfn(s), 0, st);
    assert x[p + |l|] == s;
    ShortIsAccepted(x, q, p, |l|, s, sfn);
  }

  lemma ShortIsAccepted(d: seq<Slot>, q: Query, p: nat, n: nat, s: Slot, sfn: seq<Byte>)
    requires GoodQuery(q) && p + n < |d| && d[p + n] == s && ShortSlot(s, sfn) && n < 255
    ensures FindFrom(d, q, p + n, MidName(n, n, SumSfn(s), p)) == Some(Hit(p + n, p))
  {
    hide SumSfn;
  }

  /** Registering changes the outcome of dir_find for no name that the new object does not answer to. */
  lemma RegisterKeepsOthers(d: seq<Slot>, p: nat, e: seq<Slot>, name: seq<nat>, sfn: seq<Byte>, q: Query, asked: seq<nat>)
    requires Room(d, p, e) && IsName(name) && |name| <= 254 && NewSlots(e, name, sfn)
    requires GoodQuery(q) && IsUpcase(q.up)
    requires q.lfn.Some? ==> IsName(asked) && Terminated(q.lfn.value, asked) && !SameName(q.up, name, asked)
    requires q.loss || q.sfn != sfn
    ensures FindFrom(Placed(d, p, e), q, 0, FRESH) == FindFrom(d, q, 0, FRESH)
  {
    hide Matches, Fits, FirstRun, GoodQuery, NewSlots, FindFrom, IsUpcase, SameName, IsName, Terminated;
    RoomFacts(d, p, e);
    var x := Placed(d, p, e);
    assert forall k :: 0 <= k < p ==> d[k][0] != 0 by {
      FirstRunBeforeEnd(d, p, |e|);
    }
    FindSplit(d, q, 0, p, FRESH);
    FindSplit(x, q, 0, p, FRESH);
    FindUpToSame(d, x, q, 0, p, FRESH);
    if FindUpTo(d, q, 0, p, FRESH).At? {
      var st := FindUpTo(d, q, 0, p, FRESH).state;
      FindPassesNew(x, q, p, e, name, sfn, asked, st);
      FindFree(d, q, p, p + |e|, st);
      FindSame(d, x, q, p + |e|, FRESH);
    }
  }

  /** dir_find passes a new object that does not answer to the query. */
  lemma FindPassesNew(x: seq<Slot>, q: Query, p: nat, e: seq<Slot>, name: seq<nat>, sfn: seq<Byte>, asked: seq<nat>, st: Scan)
    requires p + |e| <= |x| && (forall i :: 0 <= i < |e| ==> x[p + i] == e[i])
    requires IsName(name) && |name| <= 254 && NewSlots(e, name, sfn)
    requires GoodQuery(q) && IsUpcase(q.up)
    requires q.lfn.Some? ==> IsName(asked) && Terminated(q.lfn.value, asked) && !SameName(q.up, name, asked)
    requires q.lfn.None? ==> st.ord == 0xFF
    requires q.loss || q.sfn != sfn
    ensures FindFrom(x, q, p, st) == FindFrom(x, q, p + |e|, FRESH)
  {
    hide Matches, Fits, GoodQuery, FindFrom, IsUpcase, SameName, Terminated, SumSfn, ShortSlot;
    var l, s := e[..|e| - 1], e[|e| - 1];
    SlotCounts(|name|);
    var r := st;
    if q.lfn.Some? {
      MatchesExactly(q.up, q.lfn.value, l, name, asked, SumSfn(s));
      r := FindOtherName(x, q, p, l, name, SumSfn(s), 0, st);
    } else {
      FindNoName(x, q, p, l, name, SumSfn(s), 0, st);
    }
    assert x[p + |l|] == s;
    ShortIsPassed(x, q, p + |l|, s, sfn, r);
  }

  /** Without a long name to look for, long-name slots change nothing. */
  lemma {:induction false} FindNoName(d: seq<Slot>, q: Query, p: nat, e: seq<Slot>, name: seq<nat>, sum: Byte, m: nat, st: Scan)
    requires GoodQuery(q) && q.lfn.None?
    requires IsName(name) && Stores(e, name, sum) && m <= |e| && |e| < 255
    requires p + |e| <= |d| && forall i :: 0 <= i < |e| ==> d[p + i] == e[i]
    ensures FindFrom(d, q, p + m, st) == FindFrom(d, q, p + |e|, st)
    decreases |e| - m
  {
    hide Fits;
    SlotCounts(|name|);
    if m < |e| {
      assert Fits(e[m], name, |e| - m, sum);
      StoredSlotKind(e[m], name, |e| - m, sum);
      assert d[p + m] == e[m];
      FindNoName(d, q, p, e, name, sum, m + 1, st);
    }
  }

  lemma ShortIsPassed(d: seq<Slot>, q: Query, i: nat, s: Slot, sfn: seq<Byte>, st: Scan)
    requires GoodQuery(q) && i < |d| && d[i] == s && ShortSlot(s, sfn) && st.ord == 0xFF && (q.loss || q.sfn != sfn)
    ensures FindFrom(d, q, i, st) == FindFrom(d, q, i + 1, FRESH)
  {
    FindDead(d, q, i + 1, FindStep(q, st, s, i), FRESH);
  }

  // ---- removing

  lemma DeletedIsSkipped()
    ensures var s := DeletedSlot(); s[0] == DDE && IsFree(s) && ReadSkips(s) && FindSkips(s)
  {
  }

  lemma {:induction false} ObjectsErased(d: seq<Slot>, i: nat, j: nat, st: Scan)
    requires i < j <= |d| && forall k :: i <= k < j ==> d[k] == DeletedSlot()
    ensures Objects(d, i, st) == Objects(d, j, FRESH)
    decreases j - i
  {
    hide DeletedSlot, Pickable;
    DeletedIsSkipped();
    var r := ReadStep(st, d[i], i);
    if i + 1 == j {
      ObjectsDead(d, j, r);
    } else {
      ObjectsErased(d, i + 1, j, r);
    }
  }

  lemma {:induction false} FindErased(d: seq<Slot>, q: Query, i: nat, j: nat, st: Scan)
    requires GoodQuery(q) && i < j <= |d| && forall k :: i <= k < j ==> d[k] == DeletedSlot()
    ensures FindFrom(d, q, i, st) == FindFrom(d, q, j, FRESH)
    decreases j - i
  {
    hide DeletedSlot, Matches;
    DeletedIsSkipped();
    var r := FindStep(q, st, d[i], i);
    if i + 1 == j {
      FindDead(d, q, j, r, FRESH);
    } else {
      FindErased(d, q, i + 1, j, r);
    }
  }

  lemma ErasedEndClean(d: seq<Slot>, p: nat, n: nat)
    requires p + n <= |d| && EndClean(d)
    ensures EndClean(Erased(d, p, n))
  {
    hide DeletedSlot;
    DeletedIsSkipped();
  }

  /**
   * Removing the slots of a newly registered object gives back every object of the
   * directory before, in order, and every outcome of dir_find.
   */
  lemma RemoveUndoesRegister(d: seq<Slot>, p: nat, e: seq<Slot>, name: seq<nat>, sfn: seq<Byte>, q: Query)
    requires Room(d, p, e) && IsName(name) && NewSlots(e, name, sfn) && GoodQuery(q)
    ensures var x := Erased(Placed(d, p, e), p, |e|);
            && EndClean(x)
            && Objects(x, 0, FRESH) == Objects(d, 0, FRESH)
            && FindFrom(x, q, 0, FRESH) == FindFrom(d, q, 0, FRESH)
  {
    hide NewSlots, FirstRun, DeletedSlot, GoodQuery;
    RoomFacts(d, p, e);
    PlacedEndClean(d, p, e, name, sfn);
    ErasedEndClean(Placed(d, p, e), p, |e|);
    var x := Erased(Placed(d, p, e), p, |e|);
    DeletedIsSkipped();
    assert forall k :: 0 <= k < p ==> d[k][0] != 0 && d[k] == x[k] by {
      FirstRunBeforeEnd(d, p, |e|);
    }
    EraseReads(d, x, p, |e|);
    EraseFinds(d, x, p, |e|, q);
  }

  lemma EraseReads(d: seq<Slot>, x: seq<Slot>, p: nat, n: nat)
    requires n > 0 && p + n <= |d| == |x| && EndClean(d)
    requires forall k :: p <= k < p + n ==> IsFree(d[k]) && x[k] == DeletedSlot()
    requires forall k :: 0 <= k < |d| && !(p <= k < p + n) ==> d[k] == x[k]
    requires forall k :: 0 <= k < p ==> d[k][0] != 0 && d[k] == x[k]
    ensures Objects(x, 0, FRESH) == Objects(d, 0, FRESH)
  {
    hide DeletedSlot, Objects, Seen, EndClean;
    SeenSplit(d, 0, p, FRESH);
    SeenSplit(x, 0, p, FRESH);
    SeenSame(d, x, 0, p, FRESH);
    var st := Seen(d, 0, p, FRESH).1;
    ObjectsFree(d, p, p + n, st);
    ObjectsErased(x, p, p + n, st);
    ObjectsSame(d, x, p + n, FRESH);
  }

  lemma EraseFinds(d: seq<Slot>, x: seq<Slot>, p: nat, n: nat, q: Query)
    requires n > 0 && p + n <= |d| == |x| && EndClean(d) && GoodQuery(q)
    requires forall k :: p <= k < p + n ==> IsFree(d[k]) && x[k] == DeletedSlot()
    requires forall k :: 0 <= k < |d| && !(p <= k < p + n) ==> d[k] == x[k]
    requires forall k :: 0 <= k < p ==> d[k][0] != 0 && d[k] == x[k]
    ensures FindFrom(x, q, 0, FRESH) == FindFrom(d, q, 0, FRESH)
  {
    hide DeletedSlot, GoodQuery, FindFrom, FindUpTo, EndClean;
    FindSplit(d, q, 0, p, FRESH);
    FindSplit(x, q, 0, p, FRESH);
    FindUpToSame(d, x, q, 0, p, FRESH);
    if FindUpTo(d, q, 0, p, FRESH).At? {
      var st := FindUpTo(d, q, 0, p, FRESH).state;
      FindFree(d, q, p, p + n, st);
      FindErased(x, q, p, p + n, st);
      FindSame(d, x, q, p + n, FRESH);
    }
  }

  // ---- removing any object that dir_find found

  /** A long-name slot as both scans see it. */
  predicate NameSlot(s: Slot) {
    s[0] != 0 && s[0] != DDE && Attr(s) == AM_LFN
  }

  /** The first slot dir_remove clears. */
  function FirstOf(h: Hit): nat {
    if h.lfn == NO_LFN then h.index else h.lfn
  }

  /** What a hit says: its slots are long-name slots, then a short entry, with no end mark before them. */
  lemma {:induction false} HitShape(d: seq<Slot>, q: Query, i: nat, st: Scan)
    requires GoodQuery(q) && FindFrom(d, q, i, st).Some?
    requires st.lfn != NO_LFN ==> st.lfn < i && forall k :: st.lfn <= k < i && k < |d| ==> NameSlot(d[k])
    ensures var h := FindFrom(d, q, i, st).value;
            && i <= h.index < |d| && FirstOf(h) <= h.index
            && (forall k :: FirstOf(h) <= k < h.index ==> NameSlot(d[k]))
            && (forall k :: i <= k <= h.index ==> d[k][0] != 0)
            && !FindSkips(d[h.index]) && Attr(d[h.index]) != AM_LFN
    decreases |d| - i
  {
    hide Attr, FindAccepts, Matches;
    if !(!FindSkips(d[i]) && Attr(d[i]) != AM_LFN && FindAccepts(q, st, d[i])) {
      HitShape(d, q, i + 1, FindStep(q, st, d[i], i));
    }
  }

  /** dir_read meets no object in a run of long-name slots. */
  lemma {:induction false} ReadNameSlots(d: seq<Slot>, i: nat, j: nat, st: Scan) returns (r: Scan)
    requires i <= j <= |d| && forall k :: i <= k < j ==> NameSlot(d[k])
    ensures Objects(d, i, st) == Objects(d, j, r)
    decreases j - i
  {
    r := st;
    if i < j {
      r := ReadNameSlots(d, i + 1, j, ReadStep(st, d[i], i));
    }
  }

  lemma {:induction false} FindNameSlots(d: seq<Slot>, q: Query, i: nat, j: nat, st: Scan) returns (r: Scan)
    requires GoodQuery(q) && i <= j <= |d| && forall k :: i <= k < j ==> NameSlot(d[k])
    ensures FindFrom(d, q, i, st) == FindFrom(d, q, j, r)
    decreases j - i
  {
    r := st;
    if i < j {
      r := FindNameSlots(d, q, i + 1, j, FindStep(q, st, d[i], i));
    }
  }

  /** dir_remove on what dir_find found takes exactly that object out of the directory. */
  lemma RemoveTakesOne(d: seq<Slot>, q: Query, h: Hit)
    requires GoodQuery(q) && FindFrom(d, q, 0, FRESH) == Some(h)
    ensures FirstOf(h) <= h.index < |d|
    ensures var was, m := Objects(d, 0, FRESH), |Seen(d, 0, FirstOf(h), FRESH).0|;
            var now := Objects(Erased(d, FirstOf(h), h.index + 1 - FirstOf(h)), 0, FRESH);
            if ReadSkips(d[h.index]) then now == was
            else m < |was| && was[m].index == h.index && now == was[..m] + was[m + 1..]
  {
    hide DeletedSlot, GoodQuery, FindFrom, NameSlot, Objects, Seen, ReadSkips, FindSkips, Attr, ReadHit;
    HitShape(d, q, 0, FRESH);
    var a, n := FirstOf(h), h.index + 1 - FirstOf(h);
    var x := Erased(d, a, n);
    SeenSplit(d, 0, a, FRESH);
    SeenSplit(x, 0, a, FRESH);
    SeenSame(d, x, 0, a, FRESH);
    var st := Seen(d, 0, a, FRESH).1;
    ObjectsErased(x, a, a + n, st);
    ObjectsSame(d, x, a + n, FRESH);
    var r := ReadNameSlots(d, a, h.index, st);
    assert Objects(d, a, st) == Objects(d, h.index, r);
    if ReadSkips(d[h.index]) {
      SkippedSlot(d, h.index, r);
    } else {
      ReadSlot(d, h.index, r);
    }
  }

  lemma ReadSlot(d: seq<Slot>, i: nat, st: Scan)
    requires i < |d| && !ReadSkips(d[i]) && Attr(d[i]) != AM_LFN && d[i][0] != 0
    ensures ReadHit(st, d[i], i).index == i
    ensures Objects(d, i, st) == [ReadHit(st, d[i], i)] + Objects(d, i + 1, FRESH)
  {
  }

  lemma SkippedSlot(d: seq<Slot>, i: nat, st: Scan)
    requires i < |d| && ReadSkips(d[i]) && d[i][0] != 0
    ensures Objects(d, i, st) == Objects(d, i + 1, FRESH)
  {
    ObjectsDead(d, i + 1, ReadStep(st, d[i], i));
  }

  /** It changes dir_find for no name that led elsewhere, or nowhere. */
  lemma RemoveKeepsOthers(d: seq<Slot>, q: Query, h: Hit, r: Query)
    requires GoodQuery(q) && GoodQuery(r) && FindFrom(d, q, 0, FRESH) == Some(h)
    requires FindFrom(d, r, 0, FRESH).Some? ==> FindFrom(d, r, 0, FRESH).value.index != h.index
    ensures FirstOf(h) <= h.index < |d|
    ensures FindFrom(Erased(d, FirstOf(h), h.index + 1 - FirstOf(h)), r, 0, FRESH) == FindFrom(d, r, 0, FRESH)
  {
    hide DeletedSlot, GoodQuery, NameSlot, FindFrom, FindUpTo;
    HitShape(d, q, 0, FRESH);
    var a, n := FirstOf(h), h.index + 1 - FirstOf(h);
    var x := Erased(d, a, n);
    FindSplit(d, r, 0, a, FRESH);
    FindSplit(x, r, 0, a, FRESH);
    FindUpToSame(d, x, r, 0, a, FRESH);
    if FindUpTo(d, r, 0, a, FRESH).At? {
      var st := FindUpTo(d, r, 0, a, FRESH).state;
      FindErased(x, r, a, a + n, st);
      FindSame(d, x, r, a + n, FRESH);
      var t := FindNameSlots(d, r, a, h.index, st);
      RejectedSlot(d, r, h.index, t);
    }
  }

  lemma RejectedSlot(d: seq<Slot>, q: Query, i: nat, st: Scan)
    requires GoodQuery(q) && i < |d| && d[i][0] != 0 && !FindSkips(d[i]) && Attr(d[i]) != AM_LFN
    requires FindFrom(d, q, i, st).Some? ==> FindFrom(d, q, i, st).value.index != i
    ensures FindFrom(d, q, i, st) == FindFrom(d, q, i + 1, FRESH)
  {
    FindDead(d, q, i + 1, FindStep(q, st, d[i], i), FRESH);
  }
}
