/**
 * The scans of dir_find and dir_read without their running state: which runs of long slots
 * are the complete name of the short entry behind them, and which entries that selects.
 */
module DirRuns {
  import opened Bytes
  import opened Lfn
  import opened Directory
  import opened DirAttributes

  /** A live slot that holds part ord of a name tied to sum, and that the scan accepts. */
  predicate PartOf(s: Slot, ok: Slot -> bool, ord: nat, sum: Byte) {
    s[0] != 0xE5 && LongPart(s) && OrderOf(s[0]) == ord && s[13] == sum && ok(s)
  }

  /** Slots j..i are the first parts of a name, in descending order; m parts are missing. */
  ghost predicate Parts(d: seq<Slot>, ok: Slot -> bool, j: nat, i: nat, m: nat) {
    && j < i <= |d| && IsLast(d[j][0])
    && (forall k :: j < k < i ==> !IsLast(d[k][0]))
    && forall k :: j <= k < i ==> PartOf(d[k], ok, m + (i - k), d[j][13])
  }

  /** Slots j..i are the complete name of the short entry at i. */
  ghost predicate Names(d: seq<Slot>, ok: Slot -> bool, j: nat, i: nat) {
    i < |d| && Parts(d, ok, j, i, 0) && d[j][13] == SumSfn(d[i])
  }

  /** The latest slot of a name. */
  lemma LatestPart(d: seq<Slot>, ok: Slot -> bool, j: nat, i: nat, m: nat)
    requires Parts(d, ok, j, i + 1, m)
    ensures PartOf(d[i], ok, m + 1, d[j][13]) && (IsLast(d[i][0]) ==> j == i) && m < 0xFF
    ensures j < i ==> Parts(d, ok, j, i, m + 1)
  {
    assert PartOf(d[i], ok, m + (i + 1 - i), d[j][13]);
    if j < i {
      forall k | j <= k < i
        ensures PartOf(d[k], ok, m + 1 + (i - k), d[j][13])
      {
        assert PartOf(d[k], ok, m + (i + 1 - k), d[j][13]);
      }
    }
  }

  lemma OneMorePart(d: seq<Slot>, ok: Slot -> bool, j: nat, i: nat, m: nat)
    requires Parts(d, ok, j, i, m + 1) && i < |d| && !IsLast(d[i][0]) && PartOf(d[i], ok, m + 1, d[j][13])
    ensures Parts(d, ok, j, i + 1, m)
  {
    forall k | j <= k < i + 1
      ensures PartOf(d[k], ok, m + (i + 1 - k), d[j][13])
    {
      if k < i {
        assert PartOf(d[k], ok, m + 1 + (i - k), d[j][13]);
      }
    }
  }

  // ---- the running state

  /** The scan state in front of slot i knows the name begun there, if any. */
  ghost predicate Tracks(d: seq<Slot>, ok: Slot -> bool, i: nat, st: Scan) {
    && (st.ord != 0xFF ==> Parts(d, ok, st.lfn, i, st.ord) && st.sum == d[st.lfn][13])
    && forall j: nat, m: nat :: Parts(d, ok, j, i, m) ==> j == st.lfn && m == st.ord && st.sum == d[j][13]
  }

  /** A slot that is no part of a name ends every run. */
  lemma TracksNothing(d: seq<Slot>, ok: Slot -> bool, i: nat, st: Scan)
    requires i < |d| && (d[i][0] == 0xE5 || !LongPart(d[i]) || !ok(d[i])) && st.ord == 0xFF
    ensures Tracks(d, ok, i + 1, st)
  {
    var e := i + 1;
    forall j: nat, m: nat | Parts(d, ok, j, e, m)
      ensures false
    {
      LatestPart(d, ok, j, i, m);
    }
  }

  /** A part of a name, which may be the one that starts it. */
  lemma TracksPart(d: seq<Slot>, ok: Slot -> bool, i: nat, st: Scan)
    requires i < |d| && Tracks(d, ok, i, st) && d[i][0] != 0xE5 && LongPart(d[i])
    ensures Tracks(d, ok, i + 1, LfnStep(st, d[i], i, ok(d[i])))
  {
    var now := LfnStep(st, d[i], i, ok(d[i]));
    var e := i + 1;
    forall j: nat, m: nat | Parts(d, ok, j, e, m)
      ensures j == now.lfn && m == now.ord && now.sum == d[j][13]
    {
      LatestPart(d, ok, j, i, m);
    }
    if now.ord != 0xFF && !IsLast(d[i][0]) {
      OneMorePart(d, ok, st.lfn, i, st.ord - 1);
    }
  }

  // ---- dir_find

  /** Parts that dir_find accepts: those that match the name looked for. */
  function Matching(q: Query): Slot -> bool {
    (s: Slot) => q.lfn.Some? && |q.lfn.value| == MAX_LFN + 1 && Matches(q.up, q.lfn.value, s)
  }

  /** The entry at i is live, and has the name looked for as its long or, unless that is a lossy form, as its short name. */
  ghost predicate Wanted(d: seq<Slot>, q: Query, i: nat) {
    && i < |d| && Findable(d[i])
    && ((exists j: nat :: Names(d, Matching(q), j, i)) || (!q.loss && d[i][..11] == q.sfn))
  }

  /** No slot from i to k ends the directory. */
  ghost predicate NoEnd(d: seq<Slot>, i: nat, k: nat) {
    k < |d| && forall n :: i <= n <= k ==> d[n][0] != 0
  }

  lemma FindStepTracks(d: seq<Slot>, q: Query, i: nat, st: Scan)
    requires GoodQuery(q) && i < |d| && Tracks(d, Matching(q), i, st) && (q.lfn.None? ==> st.ord == 0xFF)
    ensures Tracks(d, Matching(q), i + 1, FindStep(q, st, d[i], i))
    ensures q.lfn.None? ==> FindStep(q, st, d[i], i).ord == 0xFF
  {
    hide Attr, HasVol, Matches, Tracks, LongPart, LfnStep;
    AttrBits(d[i]);
    if d[i][0] != DDE && LongPart(d[i]) && q.lfn.Some? {
      TracksPart(d, Matching(q), i, st);
    } else {
      TracksNothing(d, Matching(q), i, FindStep(q, st, d[i], i));
    }
  }

  /** At a live short entry the state says whether a name ends there. */
  lemma NameEnds(d: seq<Slot>, ok: Slot -> bool, i: nat, st: Scan)
    requires i < |d| && Tracks(d, ok, i, st)
    ensures st.ord == 0 && st.sum == SumSfn(d[i]) <==> exists j: nat :: Names(d, ok, j, i)
    ensures forall j: nat :: Names(d, ok, j, i) ==> j == st.lfn && st.ord == 0 && st.sum == SumSfn(d[i])
  {
    hide SumSfn;
    if st.ord == 0 && st.sum == SumSfn(d[i]) {
      assert Names(d, ok, st.lfn, i);
    }
  }

  /** dir_find returns the first wanted entry, and where its long name begins if it was found by that. */
  lemma {:induction false} FindsFirstWanted(d: seq<Slot>, q: Query, i: nat, st: Scan)
    requires GoodQuery(q) && Tracks(d, Matching(q), i, st) && (q.lfn.None? ==> st.ord == 0xFF)
    ensures match FindFrom(d, q, i, st)
            case Some(h) =>
              && i <= h.index && NoEnd(d, i, h.index) && Wanted(d, q, h.index) && (forall k :: i <= k < h.index ==> !Wanted(d, q, k))
              && forall j: nat :: Names(d, Matching(q), j, h.index) ==> h.lfn == j
            case None => forall k :: i <= k && NoEnd(d, i, k) ==> !Wanted(d, q, k)
    decreases |d| - i
  {
    hide Attr, HasVol, Matches, Tracks, Findable, FindStep, FindSkips, Names, SumSfn;
    if i < |d| && d[i][0] != 0 {
      SlotTests(d[i]);
      NameEnds(d, Matching(q), i, st);
      FindStepTracks(d, q, i, st);
      if !(Findable(d[i]) && FindAccepts(q, st, d[i])) {
        FindsFirstWanted(d, q, i + 1, FindStep(q, st, d[i], i));
        forall k | i + 1 <= k && NoEnd(d, i, k)
          ensures NoEnd(d, i + 1, k)
        {
        }
      }
    }
  }

  /** A whole scan: the first wanted entry in front of the end mark, or none. */
  lemma FindsWanted(d: seq<Slot>, q: Query)
    requires GoodQuery(q)
    ensures match FindFrom(d, q, 0, FRESH)
            case Some(h) =>
              && NoEnd(d, 0, h.index) && Wanted(d, q, h.index) && (forall k :: 0 <= k < h.index ==> !Wanted(d, q, k))
              && forall j: nat :: Names(d, Matching(q), j, h.index) ==> h.lfn == j
            case None => forall k: nat :: NoEnd(d, 0, k) ==> !Wanted(d, q, k)
  {
    hide FindFrom, Wanted, Names, NoEnd, Tracks;
    NothingTracked(d, Matching(q));
    FindsFirstWanted(d, q, 0, FRESH);
  }

  // ---- dir_read

  /** Parts that dir_read accepts. */
  function Collecting(): Slot -> bool {
    (s: Slot) => s[0] != 0x2E && Pickable(s)
  }

  lemma ReadStepTracks(d: seq<Slot>, i: nat, st: Scan)
    requires i < |d| && Tracks(d, Collecting(), i, st) && !Readable(d[i])
    ensures Tracks(d, Collecting(), i + 1, ReadStep(st, d[i], i))
  {
    hide Attr, Tracks, LongPart, LfnStep, Pickable;
    AttrBits(d[i]);
    if !ReadSkips(d[i]) {
      TracksPart(d, Collecting(), i, st);
    } else {
      TracksNothing(d, Collecting(), i, ReadStep(st, d[i], i));
    }
  }

  lemma FreshTracks(d: seq<Slot>, ok: Slot -> bool, i: nat)
    requires i < |d| && !LongPart(d[i])
    ensures Tracks(d, ok, i + 1, FRESH)
  {
    hide Tracks;
    TracksNothing(d, ok, i, FRESH);
  }

  lemma NothingTracked(d: seq<Slot>, ok: Slot -> bool)
    ensures Tracks(d, ok, 0, FRESH)
  {
  }

  /** An enumerated object shows the long name that ends at its entry, and none if there is none. */
  lemma {:induction false} ObjectsHaveTheirNames(d: seq<Slot>, i: nat, st: Scan)
    requires Tracks(d, Collecting(), i, st)
    ensures forall h :: h in Objects(d, i, st) ==>
              && i <= h.index < |d|
              && (forall j: nat :: Names(d, Collecting(), j, h.index) ==> h.lfn == j)
              && ((forall j: nat :: !Names(d, Collecting(), j, h.index)) ==> h.lfn == NO_LFN)
    decreases |d| - i
  {
    hide Attr, Tracks, Readable, ReadStep, ReadSkips, Names, SumSfn, LongPart;
    if i < |d| && d[i][0] != 0 {
      SlotTests(d[i]);
      NameEnds(d, Collecting(), i, st);
      if Readable(d[i]) {
        NotLong(d[i]);
        FreshTracks(d, Collecting(), i);
        ObjectsHaveTheirNames(d, i + 1, FRESH);
      } else {
        ReadStepTracks(d, i, st);
        ObjectsHaveTheirNames(d, i + 1, ReadStep(st, d[i], i));
      }
    }
  }

  lemma NotLong(s: Slot)
    requires Readable(s)
    ensures !LongPart(s)
  {
  }

  /** The whole enumeration. */
  lemma ObjectNames(d: seq<Slot>, h: Hit)
    requires h in Objects(d, 0, FRESH)
    ensures h.index < |d|
    ensures forall j: nat :: Names(d, Collecting(), j, h.index) ==> h.lfn == j
    ensures (forall j: nat :: !Names(d, Collecting(), j, h.index)) ==> h.lfn == NO_LFN
  {
    hide Objects, Names, Tracks;
    NothingTracked(d, Collecting());
    ObjectsHaveTheirNames(d, 0, FRESH);
  }
}
