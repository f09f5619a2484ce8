/**
 * Which slots of a directory are objects, told from their bytes: the first byte and the
 * attribute bits. The two scans differ in what they pass over.
 */
module DirAttributes {
  import opened Arith
  import opened Bytes
  import opened Lfn
  import opened Directory

  // ---- attribute bits

  /** A part of a long name: read-only, hidden, system and volume, whatever the two bits above AM_ARC are. */
  predicate LongPart(s: Slot) {
    Bits(s[11]) & 0x3F == 0x0F
  }

  /** A volume label: the volume bit alone, with or without the archive bit. */
  predicate Label(s: Slot) {
    Bits(s[11]) & 0x1F == 0x08
  }

  /** Slots that dir_read returns: no deleted or dot entry, no part of a long name, no label. */
  predicate Readable(s: Slot) {
    s[0] != 0xE5 && s[0] != 0x2E && !LongPart(s) && !Label(s)
  }

  /** Slots that dir_find can return: not deleted, no part of a long name, no volume bit. */
  predicate Findable(s: Slot) {
    s[0] != 0xE5 && !LongPart(s) && Bits(s[11]) & 0x08 == 0
  }

  lemma BitsOfAttr(v: bv8)
    ensures v & 0x3F == 0x0F <==> v as int % 64 == 0x0F
    ensures v & 0x1F == 0x08 <==> v as int % 64 == 0x08 || v as int % 64 == 0x28
    ensures v & 0x08 == 0 <==> v as int % 64 / 8 % 2 == 0
  {
    LongPartNumber(v);
    LabelNumber(v);
    VolumeNumber(v);
  }

  lemma LongPartNumber(v: bv8)
    ensures v & 0x3F == 0x0F <==> v as int % 64 == 0x0F
  {
  }

  lemma LabelNumber(v: bv8)
    ensures v & 0x1F == 0x08 <==> v as int % 64 == 0x08 || v as int % 64 == 0x28
  {
  }

  lemma VolumeNumber(v: bv8)
    ensures v & 0x08 == 0 <==> v as int % 64 / 8 % 2 == 0
  {
  }

  lemma AttrBits(s: Slot)
    ensures LongPart(s) <==> Attr(s) == AM_LFN
    ensures Label(s) <==> Attr(s) == 0x08 || Attr(s) == 0x28
    ensures Bits(s[11]) & 0x08 == 0 <==> !HasVol(Attr(s))
  {
    hide Bits, Quot, Rem;
    BitsOfAttr(Bits(s[11]));
    QuotRemAreDivMod(s[11], 64);
    QuotRemAreDivMod(Attr(s), 8);
    QuotRemAreDivMod(Quot(Attr(s), 8), 2);
  }

  /** The tests of dir_read and dir_find on a slot, in bits. */
  lemma SlotTests(s: Slot)
    ensures !ReadSkips(s) && Attr(s) != AM_LFN <==> Readable(s)
    ensures !FindSkips(s) && Attr(s) != AM_LFN <==> Findable(s)
  {
    hide Bits, Attr, HasVol;
    AttrBits(s);
  }

  // ---- what dir_read enumerates

  /** Slot i lies in front of the first zero slot. */
  ghost predicate InFront(d: seq<Slot>, i: nat) {
    i < |d| && forall k :: 0 <= k <= i ==> d[k][0] != 0
  }

  ghost predicate Listed(hs: seq<Hit>, i: nat) {
    exists k :: 0 <= k < |hs| && hs[k].index == i
  }

  lemma ListedFirst(h: Hit, hs: seq<Hit>, i: nat)
    ensures Listed([h] + hs, i) <==> h.index == i || Listed(hs, i)
  {
    if h.index == i {
      assert ([h] + hs)[0].index == i;
    }
    if Listed(hs, i) {
      var k :| 0 <= k < |hs| && hs[k].index == i;
      assert ([h] + hs)[k + 1].index == i;
    }
  }

  lemma {:induction false} ListedFrom(d: seq<Slot>, j: nat, st: Scan, i: nat)
    ensures Listed(Objects(d, j, st), i) <==> j <= i < |d| && Readable(d[i]) && forall k :: j <= k <= i ==> d[k][0] != 0
    decreases |d| - j
  {
    hide Readable, ReadSkips, Attr, ReadStep, ReadHit;
    if j < |d| && d[j][0] != 0 {
      SlotTests(d[j]);
      if Readable(d[j]) {
        HitIndex(st, d[j], j);
        ListedFrom(d, j + 1, FRESH, i);
        ListedFirst(ReadHit(st, d[j], j), Objects(d, j + 1, FRESH), i);
      } else {
        ListedFrom(d, j + 1, ReadStep(st, d[j], j), i);
      }
    }
  }

  /** The objects of a directory are the readable slots in front of the first zero slot. */
  lemma ObjectsAreReadable(d: seq<Slot>, i: nat)
    ensures Listed(Objects(d, 0, FRESH), i) <==> InFront(d, i) && Readable(d[i])
  {
    hide Readable, Objects;
    ListedFrom(d, 0, FRESH, i);
  }

  /** Each once, in the order of the slots. */
  lemma {:induction false} ObjectsAscend(d: seq<Slot>, j: nat, st: Scan)
    ensures forall a, b :: 0 <= a < b < |Objects(d, j, st)| ==> Objects(d, j, st)[a].index < Objects(d, j, st)[b].index
    ensures forall a :: 0 <= a < |Objects(d, j, st)| ==> j <= Objects(d, j, st)[a].index
    decreases |d| - j
  {
    hide ReadSkips, Attr, ReadStep, ReadHit;
    if j < |d| && d[j][0] != 0 {
      if !ReadSkips(d[j]) && Attr(d[j]) != AM_LFN {
        HitIndex(st, d[j], j);
        ObjectsAscend(d, j + 1, FRESH);
      } else {
        ObjectsAscend(d, j + 1, ReadStep(st, d[j], j));
      }
    }
  }

  // ---- what dir_find can return

  /** What dir_find returns is a findable slot in front of the first zero slot. */
  lemma {:induction false} FoundIsFindable(d: seq<Slot>, q: Query, j: nat, st: Scan)
    requires GoodQuery(q) && FindFrom(d, q, j, st).Some?
    ensures var i := FindFrom(d, q, j, st).value.index;
            j <= i < |d| && Findable(d[i]) && forall k :: j <= k <= i ==> d[k][0] != 0
    decreases |d| - j
  {
    hide Findable, FindSkips, Attr, FindStep, FindAccepts, GoodQuery;
    SlotTests(d[j]);
    if !(Findable(d[j]) && FindAccepts(q, st, d[j])) {
      FoundIsFindable(d, q, j + 1, FindStep(q, st, d[j], j));
    }
  }

  /** Slot i is the first findable one from j on with short name sfn, and no zero slot lies before it. */
  ghost predicate FirstNamed(d: seq<Slot>, sfn: seq<Byte>, j: nat, i: nat) {
    && j <= i < |d| && Findable(d[i]) && d[i][..11] == sfn
    && (forall k :: j <= k <= i ==> d[k][0] != 0)
    && forall k :: j <= k < i ==> !(Findable(d[k]) && d[k][..11] == sfn)
  }

  /** Looking for a short name alone finds exactly the first findable slot of that name. */
  lemma {:induction false} ShortSearchFrom(d: seq<Slot>, q: Query, j: nat, st: Scan, i: nat)
    requires GoodQuery(q) && q.lfn.None? && !q.loss && st.ord == 0xFF
    ensures FindFrom(d, q, j, st).Some? && FindFrom(d, q, j, st).value.index == i <==> FirstNamed(d, q.sfn, j, i)
    decreases |d| - j
  {
    hide Findable, FindSkips, Attr, GoodQuery, SumSfn;
    if j < |d| && d[j][0] != 0 {
      SlotTests(d[j]);
      FoundLater(d, q, j + 1, FindStep(q, st, d[j], j));
      if !(Findable(d[j]) && d[j][..11] == q.sfn) {
        ShortSearchFrom(d, q, j + 1, FindStep(q, st, d[j], j), i);
      }
    }
  }

  lemma FoundLater(d: seq<Slot>, q: Query, j: nat, st: Scan)
    requires GoodQuery(q)
    ensures FindFrom(d, q, j, st).Some? ==> FindFrom(d, q, j, st).value.index >= j
  {
    hide FindFrom;
    if FindFrom(d, q, j, st).Some? {
      FoundIsFindable(d, q, j, st);
    }
  }

  lemma ShortSearchIff(d: seq<Slot>, q: Query, i: nat)
    requires GoodQuery(q) && q.lfn.None? && !q.loss
    ensures FindFrom(d, q, 0, FRESH).Some? && FindFrom(d, q, 0, FRESH).value.index == i <==> FirstNamed(d, q.sfn, 0, i)
  {
    hide FindFrom, FirstNamed, GoodQuery;
    ShortSearchFrom(d, q, 0, FRESH, i);
  }

  // ---- the archive bit

  /** Short entries with the same name whose attributes differ at most in the archive bit. */
  predicate SameEntry(s: Slot, r: Slot) {
    s[..11] == r[..11] && Bits(s[11]) & 0xDF == Bits(r[11]) & 0xDF && !LongPart(s) && !LongPart(r)
  }

  lemma ArchiveIgnored(a: bv8, b: bv8)
    requires a & 0xDF == b & 0xDF
    ensures a & 0x1F == b & 0x1F && a & 0x08 == b & 0x08
  {
  }

  lemma {:induction false} SumOfSame(a: seq<Byte>, b: seq<Byte>, k: nat, sum: Byte)
    requires k <= 11 <= |a| && 11 <= |b| && a[..11] == b[..11]
    ensures SumFrom(a, k, sum) == SumFrom(b, k, sum)
    decreases 11 - k
  {
    hide Quot, Rem;
    if k < 11 {
      assert a[k] == a[..11][k] && b[k] == b[..11][k];
      Split(sum, 2);
      SumOfSame(a, b, k + 1, Rem(Quot(sum, 2) + Rem(sum, 2) * 128 + a[k] as int, 256));
    }
  }

  lemma SameTests(s: Slot, r: Slot)
    requires SameEntry(s, r)
    ensures s[0] == r[0] && (Readable(s) <==> Readable(r)) && (Findable(s) <==> Findable(r)) && SumSfn(s) == SumSfn(r)
    ensures (ReadSkips(s) <==> ReadSkips(r)) && (FindSkips(s) <==> FindSkips(r)) && Attr(s) != AM_LFN && Attr(r) != AM_LFN
  {
    hide Bits, Attr, HasVol, SumFrom;
    assert s[0] == s[..11][0] && r[0] == r[..11][0];
    ArchiveIgnored(Bits(s[11]), Bits(r[11]));
    AttrBits(s);
    AttrBits(r);
    SumOfSame(s, r, 0, 0);
  }

  lemma {:induction false} ObjectsSameEntry(d: seq<Slot>, i: nat, r: Slot, j: nat, st: Scan)
    requires i < |d| && SameEntry(d[i], r)
    ensures Objects(d[i := r], j, st) == Objects(d, j, st)
    decreases |d| - j
  {
    hide SameEntry, ReadSkips, Attr, SumSfn, Pickable;
    SameTests(d[i], r);
    if j < |d| && d[j][0] != 0 {
      ObjectsSameEntry(d, i, r, j + 1, FRESH);
      ObjectsSameEntry(d, i, r, j + 1, ReadStep(st, d[j], j));
    }
  }

  lemma {:induction false} FindSameEntry(d: seq<Slot>, i: nat, r: Slot, q: Query, j: nat, st: Scan)
    requires i < |d| && SameEntry(d[i], r) && GoodQuery(q)
    ensures FindFrom(d[i := r], q, j, st) == FindFrom(d, q, j, st)
    decreases |d| - j
  {
    hide SameEntry, FindSkips, Attr, SumSfn, Matches, GoodQuery;
    SameTests(d[i], r);
    SameName11(d[i], r);
    if j < |d| && d[j][0] != 0 {
      FindSameEntry(d, i, r, q, j + 1, FindStep(q, st, d[j], j));
    }
  }

  lemma SameName11(s: Slot, r: Slot)
    requires SameEntry(s, r)
    ensures s[..11] == r[..11]
  {
  }

  /** Setting or clearing the archive bit of a short entry, or changing anything behind its attributes, changes neither scan. */
  lemma ArchiveBitIsIgnored(d: seq<Slot>, i: nat, r: Slot, q: Query)
    requires i < |d| && SameEntry(d[i], r) && GoodQuery(q)
    ensures Objects(d[i := r], 0, FRESH) == Objects(d, 0, FRESH)
    ensures FindFrom(d[i := r], q, 0, FRESH) == FindFrom(d, q, 0, FRESH)
  {
    ObjectsSameEntry(d, i, r, 0, FRESH);
    FindSameEntry(d, i, r, q, 0, FRESH);
  }

  /** Setting it always leaves a short entry one; clearing it does unless the other attributes are those of a long name. */
  lemma ArchiveBitKeepsShort(s: Slot, r: Slot)
    requires s[..11] == r[..11] && !LongPart(s)
    requires Bits(r[11]) == Bits(s[11]) | 0x20 || Bits(r[11]) == Bits(s[11]) & 0xDF
    ensures SameEntry(s, r) <==> !(Bits(s[11]) & 0x3F == 0x2F && Bits(r[11]) & 0x20 == 0)
  {
    hide Bits;
    ArchiveBits(Bits(s[11]), Bits(r[11]));
  }

  lemma ArchiveBits(a: bv8, b: bv8)
    requires a & 0x3F != 0x0F && (b == a | 0x20 || b == a & 0xDF)
    ensures a & 0xDF == b & 0xDF
    ensures b & 0x3F != 0x0F <==> !(a & 0x3F == 0x2F && b & 0x20 == 0)
  {
  }
}
