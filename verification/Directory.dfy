/**
 * A directory as a list of 32-byte slots: what dir_find and dir_read make of it,
 * and what registering and removing an object do to that.
 */
module Directory {
  import opened Arith
  import opened Bytes
  import opened Lfn

  const DDE: Byte := 0xE5 // deleted directory entry mark
  const NO_LFN: nat := 0xFFFF

  function Attr(s: Slot): nat {
    Rem(s[LDIR_ATTR], 64) // AM_MASK
  }

  predicate IsFree(s: Slot) {
    s[0] == DDE || s[0] == 0
  }

  /** attr & AM_VOL */
  predicate HasVol(a: nat) {
    Rem(Quot(a, 8), 2) == 1
  }

  /** The long-name progress of a scan: the order expected next (0xFF: none), the sum, and where the name started. */
  datatype Scan = Scan(ord: Byte, sum: Byte, lfn: nat)

  const FRESH: Scan := Scan(0xFF, 0xFF, NO_LFN)

  /** An object found: the index of its short entry, and of its first long entry if it has one. */
  datatype Hit = Hit(index: nat, lfn: nat)

  /** A long-name slot met at idx; ok says whether its characters were accepted. */
  function LfnStep(st: Scan, s: Slot, idx: nat, ok: bool): Scan {
    var now := if IsLast(s[0]) then Scan(OrderOf(s[0]), s[LDIR_CHKSUM], idx) else st;
    now.(ord := if OrderOf(s[0]) == now.ord && now.sum == s[LDIR_CHKSUM] && ok
                then (if now.ord == 0 then 0xFF else now.ord - 1) else 0xFF)
  }

  // ---- dir_find

  datatype Query = Query(up: nat -> nat, lfn: Option<seq<nat>>, sfn: seq<Byte>, loss: bool)

  predicate GoodQuery(q: Query) {
    |q.sfn| == 11 && (q.lfn.Some? ==> |q.lfn.value| == MAX_LFN + 1)
  }

  /** Slots without valid data for dir_find. */
  predicate FindSkips(s: Slot) {
    s[0] == DDE || (HasVol(Attr(s)) && Attr(s) != AM_LFN)
  }

  /** Whether a short entry is the object looked for. */
  predicate FindAccepts(q: Query, st: Scan, s: Slot) {
    (st.ord == 0 && st.sum == SumSfn(s)) || (!q.loss && s[..11] == q.sfn)
  }

  /** What dir_find's state becomes at a slot it goes past. */
  function FindStep(q: Query, st: Scan, s: Slot, i: nat): Scan
    requires GoodQuery(q)
  {
    if FindSkips(s) then st.(ord := 0xFF, lfn := NO_LFN)
    else if Attr(s) == AM_LFN then
      if q.lfn.Some? then LfnStep(st, s, i, Matches(q.up, q.lfn.value, s)) else st
    else st.(ord := 0xFF, lfn := NO_LFN)
  }

  /** dir_find from slot i on. */
  function FindFrom(d: seq<Slot>, q: Query, i: nat, st: Scan): (r: Option<Hit>)
    requires GoodQuery(q)
    decreases |d| - i
  {
    if i >= |d| || d[i][0] == 0 then None
    else if !FindSkips(d[i]) && Attr(d[i]) != AM_LFN && FindAccepts(q, st, d[i]) then Some(Hit(i, st.lfn))
    else FindFrom(d, q, i + 1, FindStep(q, st, d[i], i))
  }

  // ---- dir_read

  /** Slots that dir_read passes over when it looks for files and directories. */
  predicate ReadSkips(s: Slot) {
    s[0] == DDE || s[0] == 0x2E || Attr(s) == 0x08 || Attr(s) == 0x28
  }

  /** An empty name buffer. */
  function Blank(n: nat): (r: seq<nat>)
    ensures |r| == n
  {
    if n == 0 then [] else Blank(n - 1) + [0]
  }

  /** Whether pick_lfn accepts the slot; the buffer has no say in it. */
  predicate Pickable(s: Slot) {
    Pick(Blank(MAX_LFN + 1), s).Some?
  }

  lemma {:induction false} PickedAnyBuffer(a: seq<nat>, b: seq<nat>, s: Slot, i: nat, k: nat, open: bool)
    requires k <= 13 && |a| == |b| == MAX_LFN + 1
    ensures var p, q := Picked(a, s, i, k, open), Picked(b, s, i, k, open);
            && (p.Some? <==> q.Some?)
            && (p.Some? ==> p.value.1 == q.value.1)
    decreases 13 - k
  {
    hide Unit;
    if k < 13 {
      var uc := Unit(s, k);
      if open && i < MAX_LFN {
        PickedAnyBuffer(a[i := uc], b[i := uc], s, i + 1, k + 1, uc != 0);
      } else if !open && uc == 0xFFFF {
        PickedAnyBuffer(a, b, s, i, k + 1, false);
      }
    }
  }

  lemma PickableAnyBuffer(buf: seq<nat>, s: Slot)
    requires |buf| == MAX_LFN + 1
    ensures Pick(buf, s).Some? <==> Pickable(s)
  {
    hide Picked;
    PickedAnyBuffer(buf, Blank(MAX_LFN + 1), s, Offset(Rem(s[LDIR_ORD], 64)), 0, true);
  }

  function ReadStep(st: Scan, s: Slot, i: nat): Scan {
    if ReadSkips(s) then st.(ord := 0xFF)
    else LfnStep(st, s, i, Pickable(s))
  }

  /** The object whose short entry is slot s at i. */
  function ReadHit(st: Scan, s: Slot, i: nat): Hit {
    Hit(i, if st.ord == 0 && st.sum == SumSfn(s) then st.lfn else NO_LFN)
  }

  /** dir_read from slot i on. */
  function ReadFrom(d: seq<Slot>, i: nat, st: Scan): (r: Option<Hit>)
    decreases |d| - i
  {
    if i >= |d| || d[i][0] == 0 then None
    else if !ReadSkips(d[i]) && Attr(d[i]) != AM_LFN then Some(ReadHit(st, d[i], i))
    else ReadFrom(d, i + 1, ReadStep(st, d[i], i))
  }

  /** All objects from slot i on. */
  function Objects(d: seq<Slot>, i: nat, st: Scan): (r: seq<Hit>)
    decreases |d| - i
  {
    if i >= |d| || d[i][0] == 0 then []
    else if !ReadSkips(d[i]) && Attr(d[i]) != AM_LFN then [ReadHit(st, d[i], i)] + Objects(d, i + 1, FRESH)
    else Objects(d, i + 1, ReadStep(st, d[i], i))
  }

  /** Reading again and again, each time from the slot after the last object, yields Objects. */
  lemma {:induction false} ReadingEnumerates(d: seq<Slot>, i: nat, st: Scan)
    ensures Objects(d, i, st) ==
            match ReadFrom(d, i, st)
            case None => []
            case Some(h) => [h] + Objects(d, h.index + 1, FRESH)
    decreases |d| - i
  {
    hide ReadSkips, Attr, ReadStep, ReadHit;
    if i < |d| && d[i][0] != 0 && (ReadSkips(d[i]) || Attr(d[i]) == AM_LFN) {
      ReadingEnumerates(d, i + 1, ReadStep(st, d[i], i));
    } else if i < |d| && d[i][0] != 0 {
      assert ReadHit(st, d[i], i).index == i by {
        HitIndex(st, d[i], i);
      }
    }
  }

  lemma HitIndex(st: Scan, s: Slot, i: nat)
    ensures ReadHit(st, s, i).index == i
  {
  }

  // ---- registering

  /** No live slot follows the first zero slot. */
  ghost predicate EndClean(d: seq<Slot>) {
    forall i, j :: 0 <= i < j < |d| && d[i][0] == 0 ==> IsFree(d[j])
  }

  /** The slots of a new object: its long name, last part first, then the short entry. */
  ghost predicate NewSlots(e: seq<Slot>, name: seq<nat>, sfn: seq<Byte>) {
    && |e| > 0 && ShortSlot(e[|e| - 1], sfn)
    && Stores(e[..|e| - 1], name, SumSfn(e[|e| - 1]))
  }

  /** The short entry dir_register writes. */
  predicate ShortSlot(s: Slot, sfn: seq<Byte>) {
    |sfn| == 11 && s[..11] == sfn && s[LDIR_ATTR] == 0 && s[0] != 0 && s[0] != DDE && s[0] != 0x2E
  }

  type Short = s: seq<Byte> | |s| == 11 witness ZeroBytes(11)

  /** A short name that names an object: not an end mark, a deletion mark or a dot entry. */
  predicate ShortOk(sfn: Short) {
    sfn[0] != 0 && sfn[0] != DDE && sfn[0] != 0x2E
  }

  /** The 32 bytes of a new short entry: the name, no attributes, the case flags, zeros. */
  function ShortEntry(sfn: Short, ntres: Byte): (r: Slot)
    ensures ShortOk(sfn) ==> ShortSlot(r, sfn)
  {
    sfn + [0, ntres] + ZeroBytes(19)
  }

  /** d with the slots from p on replaced by e. */
  function Placed(d: seq<Slot>, p: nat, e: seq<Slot>): (r: seq<Slot>)
    requires p + |e| <= |d|
    ensures |r| == |d|
    ensures forall i :: 0 <= i < |d| ==> r[i] == if p <= i < p + |e| then e[i - p] else d[i]
  {
    d[..p] + e + d[p + |e|..]
  }

  /** A slot that dir_remove has cleared and marked. */
  function DeletedSlot(): Slot {
    [DDE] + ZeroBytes(31)
  }

  function ZeroBytes(n: nat): (r: seq<Byte>)
    ensures |r| == n && forall i :: 0 <= i < n ==> r[i] == 0
  {
    if n == 0 then [] else ZeroBytes(n - 1) + [0]
  }

  function DeletedSlots(n: nat): (r: seq<Slot>)
    ensures |r| == n && forall i :: 0 <= i < n ==> r[i] == DeletedSlot()
  {
    if n == 0 then [] else DeletedSlots(n - 1) + [DeletedSlot()]
  }

  /** d with n slots from p on deleted. */
  function Erased(d: seq<Slot>, p: nat, n: nat): (r: seq<Slot>)
    requires p + n <= |d|
    ensures |r| == |d|
    ensures forall i :: 0 <= i < |d| ==> r[i] == if p <= i < p + n then DeletedSlot() else d[i]
  {
    Placed(d, p, DeletedSlots(n))
  }

  /** The scan state after the first m long-name slots of a new object at p. */
  function MidName(n: nat, m: nat, sum: Byte, p: nat): Scan
    requires m <= n < 255
  {
    Scan(n - m, sum, p)
  }

  /** A stored long-name slot is no other kind of slot. */
  lemma StoredSlotKind(s: Slot, name: seq<nat>, ord: nat, sum: Byte)
    requires Fits(s, name, ord, sum)
    ensures s[0] != 0 && s[0] != DDE && s[0] != 0x2E && Attr(s) == AM_LFN && !ReadSkips(s) && !FindSkips(s)
    ensures OrderOf(s[0]) == ord && (IsLast(s[0]) <==> |name| <= ord * 13)
    ensures s[LDIR_CHKSUM] == sum
  {
  }

  /** dir_read over the long-name slots of a new object. */
  lemma {:induction false} ReadNewName(d: seq<Slot>, p: nat, e: seq<Slot>, name: seq<nat>, sum: Byte, m: nat, st: Scan)
    requires IsName(name) && |name| <= 253 && Stores(e, name, sum)
    requires p + |e| <= |d| && forall i :: 0 <= i < |e| ==> d[p + i] == e[i]
    requires m <= |e| && |e| < 255
    requires m > 0 ==> st == MidName(|e|, m, sum, p)
    ensures Objects(d, p + m, st) == Objects(d, p + |e|, MidName(|e|, |e|, sum, p))
    decreases |e| - m
  {
    hide Fits, Pickable, Pick;
    SlotCounts(|name|);
    if m < |e| {
      var ord := |e| - m;
      assert Fits(e[m], name, ord, sum);
      StoredSlotKind(e[m], name, ord, sum);
      StoredPickable(e[m], name, ord, sum);
      assert d[p + m] == e[m];
      assert ReadStep(st, e[m], p + m) == MidName(|e|, m + 1, sum, p);
      ReadNewName(d, p, e, name, sum, m + 1, MidName(|e|, m + 1, sum, p));
    }
  }

  lemma StoredPickable(s: Slot, name: seq<nat>, ord: nat, sum: Byte)
    requires IsName(name) && |name| <= 253 && Fits(s, name, ord, sum) && (ord - 1) * 13 < |name|
    ensures Pickable(s)
  {
    PickStored(Blank(MAX_LFN + 1), s, name, ord, sum);
  }

  /** dir_read over a whole new object, whatever the state before it. */
  lemma ReadNewObject(d: seq<Slot>, p: nat, e: seq<Slot>, name: seq<nat>, sfn: seq<Byte>, st: Scan)
    requires IsName(name) && |name| <= 253 && NewSlots(e, name, sfn)
    requires p + |e| <= |d| && forall i :: 0 <= i < |e| ==> d[p + i] == e[i]
    ensures Objects(d, p, st) == [Hit(p + |e| - 1, p)] + Objects(d, p + |e|, FRESH)
  {
    var l, s := e[..|e| - 1], e[|e| - 1];
    SlotCounts(|name|);
    ReadNewName(d, p, l, name, SumSfn(s), 0, st);
    assert d[p + |l|] == s;
    assert Attr(s) == 0;
  }
}
