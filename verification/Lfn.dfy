/** Long file names in directory slots: fit_lfn, pick_lfn, cmp_lfn and sum_sfn. */
module Lfn {
  import opened Arith
  import opened Bytes

  type Slot = s: seq<Byte> | |s| == 32 witness seq(32, _ => 0)

  const MAX_LFN: nat := 255
  const LLE: nat := 0x40 // last long entry flag in the order byte
  const AM_LFN: nat := 0x0F

  const LDIR_ORD: nat := 0
  const LDIR_ATTR: nat := 11
  const LDIR_TYPE: nat := 12
  const LDIR_CHKSUM: nat := 13
  const LDIR_FSTCLUSLO: nat := 26

  /** The table LfnOfs: offset of character s of a slot. */
  function LfnOfs(s: nat): (k: nat)
    requires s < 13
    ensures 1 <= k <= 30
  {
    if s < 5 then 1 + 2 * s else if s < 11 then 14 + 2 * (s - 5) else 28 + 2 * (s - 11)
  }

  /** Character s of a slot. */
  function Unit(dir: Slot, s: nat): nat
    requires s < 13
  {
    LdWord(dir, LfnOfs(s))
  }

  /** The order byte without the LLE flag. */
  function OrderOf(b: Byte): (r: Byte)
  {
    if IsLast(b) then b - 0x40 else b
  }

  predicate IsLast(b: Byte) {
    64 <= b < 128 || 192 <= b
  }

  // ---- names

  /** A name that the slots can carry: characters other than the terminator and the filler. */
  predicate IsName(name: seq<nat>) {
    && 0 < |name| <= MAX_LFN
    && forall i :: 0 <= i < |name| ==> 0 < name[i] < 0xFFFF
  }

  /** buf holds name, terminated by 0; what follows is arbitrary. */
  predicate Terminated(buf: seq<nat>, name: seq<nat>) {
    |buf| == MAX_LFN + 1 && |name| < |buf| && buf[..|name|] == name && buf[|name|] == 0
  }

  /** The slots a name takes. */
  function SlotCount(n: nat): nat {
    Quot(n + 12, 13)
  }

  /** What position p of the slots of a name holds: the name, a terminator, then filler. */
  function Padded(name: seq<nat>, p: nat): nat {
    if p < |name| then name[p] else if p == |name| then 0 else 0xFFFF
  }

  /** dir is the slot of order ord for name, tied to a short name with sum. */
  ghost predicate Fits(dir: Slot, name: seq<nat>, ord: nat, sum: Byte) {
    && 0 < ord <= 20
    && (forall s :: 0 <= s < 13 ==> Unit(dir, s) == Padded(name, (ord - 1) * 13 + s))
    && dir[LDIR_ORD] == (if |name| <= ord * 13 then ord + LLE else ord)
    && dir[LDIR_ATTR] == AM_LFN && dir[LDIR_TYPE] == 0 && dir[LDIR_CHKSUM] == sum
    && LdWord(dir, LDIR_FSTCLUSLO) == 0
  }

  // ---- fit_lfn

  /** Storing character s leaves the other characters and the header bytes. */
  lemma UnitStore(dir: Slot, s: nat, v: nat)
    requires s < 13 && v < 0x1_0000
    ensures Unit(StWord(dir, LfnOfs(s), v), s) == v
    ensures forall r :: 0 <= r < 13 && r != s ==> Unit(StWord(dir, LfnOfs(s), v), r) == Unit(dir, r)
    ensures forall k {:trigger StWord(dir, LfnOfs(s), v)[k]} :: k == 0 || 11 <= k <= 13 || 26 <= k <= 27 ==> StWord(dir, LfnOfs(s), v)[k] == dir[k]
  {
    hide StLe, LdLe;
    Powers256();
    LdStLe(dir, LfnOfs(s), v, 2);
    forall r | 0 <= r < 13 && r != s
      ensures Unit(StWord(dir, LfnOfs(s), v), r) == Unit(dir, r)
    {
      LdStOther(dir, LfnOfs(s), v, 2, LfnOfs(r), 2);
    }
    forall k | k == 0 || 11 <= k <= 13 || 26 <= k <= 27
      ensures StWord(dir, LfnOfs(s), v)[k] == dir[k]
    {
      StLeFrame(dir, LfnOfs(s), v, 2, k);
    }
  }

  /** Write one slot of a long name over the 32 bytes of dir0. */
  method FitLfn(lfnbuf: seq<nat>, dir0: Slot, ord: nat, sum: Byte, ghost name: seq<nat>) returns (dir: Slot)
    requires IsName(name) && Terminated(lfnbuf, name)
    requires 0 < ord <= 20 && (ord - 1) * 13 < |name|
    ensures Fits(dir, name, ord, sum)
  {
    hide StLe, LdLe;
    BufferHolds(lfnbuf, name);
    dir := dir0[LDIR_CHKSUM := sum][LDIR_ATTR := AM_LFN][LDIR_TYPE := 0];
    Header(dir);
    dir := StWord(dir, LDIR_FSTCLUSLO, 0);
    ghost var i0 := (ord - 1) * 13;
    var i, s, wc := (ord - 1) * 13, 0, 0;
    while s < 13
      invariant s <= 13
      invariant s > 0 && i0 + s > |name| ==> wc == 0xFFFF
      invariant s == 0 || i0 + s <= |name| ==> wc != 0xFFFF && i == i0 + s
      invariant forall r :: 0 <= r < s ==> Unit(dir, r) == Padded(name, i0 + r)
      invariant dir[LDIR_ATTR] == AM_LFN && dir[LDIR_TYPE] == 0 && dir[LDIR_CHKSUM] == sum
      invariant LdWord(dir, LDIR_FSTCLUSLO) == 0
    {
      if wc != 0xFFFF {
        wc := lfnbuf[i];
        i := i + 1;
      }
      UnitStore(dir, s, wc);
      HeaderKept(dir, StWord(dir, LfnOfs(s), wc));
      dir := StWord(dir, LfnOfs(s), wc);
      if wc == 0 {
        wc := 0xFFFF;
      }
      s := s + 1;
    }
    var last := ord;
    if wc == 0xFFFF || lfnbuf[i] == 0 {
      last := last + LLE;
    }
    OrderStore(dir, last);
    assert last == if |name| <= ord * 13 then ord + LLE else ord;
    ghost var units := dir;
    dir := dir[LDIR_ORD := last];
    forall r | 0 <= r < 13
      ensures Unit(dir, r) == Padded(name, (ord - 1) * 13 + r)
    {
      assert Unit(units, r) == Padded(name, i0 + r);
    }
  }

  lemma BufferHolds(buf: seq<nat>, name: seq<nat>)
    requires IsName(name) && Terminated(buf, name)
    ensures |name| < |buf|
    ensures forall i :: 0 <= i <= |name| ==> buf[i] == Padded(name, i) && buf[i] < 0xFFFF && (buf[i] == 0 <==> i == |name|)
  {
    forall i | 0 <= i < |name|
      ensures buf[i] == name[i]
    {
      assert buf[..|name|][i] == name[i];
    }
  }

  lemma Header(dir: Slot)
    ensures var d := StWord(dir, LDIR_FSTCLUSLO, 0);
            && LdWord(d, LDIR_FSTCLUSLO) == 0
            && d[LDIR_ATTR] == dir[LDIR_ATTR] && d[LDIR_TYPE] == dir[LDIR_TYPE] && d[LDIR_CHKSUM] == dir[LDIR_CHKSUM]
  {
    hide StLe, LdLe;
    Powers256();
    LdStLe(dir, LDIR_FSTCLUSLO, 0, 2);
    forall k | 11 <= k <= 13
      ensures StWord(dir, LDIR_FSTCLUSLO, 0)[k] == dir[k]
    {
      StLeFrame(dir, LDIR_FSTCLUSLO, 0, 2, k);
    }
  }

  lemma HeaderKept(dir: Slot, d: Slot)
    requires d[26] == dir[26] && d[27] == dir[27]
    ensures LdWord(d, LDIR_FSTCLUSLO) == LdWord(dir, LDIR_FSTCLUSLO)
  {
    LdLeSame(d, dir, 26, 2);
  }

  lemma OrderStore(dir: Slot, b: Byte)
    ensures forall r :: 0 <= r < 13 ==> Unit(dir[LDIR_ORD := b], r) == Unit(dir, r)
    ensures LdWord(dir[LDIR_ORD := b], LDIR_FSTCLUSLO) == LdWord(dir, LDIR_FSTCLUSLO)
  {
    hide LdLe;
    forall r | 0 <= r < 13
      ensures Unit(dir[LDIR_ORD := b], r) == Unit(dir, r)
    {
      LdLeSame(dir[LDIR_ORD := b], dir, LfnOfs(r), 2);
    }
    LdLeSame(dir[LDIR_ORD := b], dir, 26, 2);
  }

  // ---- pick_lfn

  /** The offset of the first character a slot stands for, or MAX_LFN or more when the order is 0. */
  function Offset(ord: nat): nat {
    if ord == 0 then 0x1_0000_0000 - 13 else (ord - 1) * 13
  }

  /** The characters of dir from s on, while the name has not ended (open) or as filler. */
  function Picked(buf: seq<nat>, dir: Slot, i: nat, s: nat, open: bool): (r: Option<(seq<nat>, nat, bool)>)
    requires s <= 13 && |buf| == MAX_LFN + 1
    ensures r.Some? ==> |r.value.0| == |buf|
    decreases 13 - s
  {
    if s == 13 then Some((buf, i, open))
    else
      var uc := Unit(dir, s);
      if open then
        if i >= MAX_LFN then None
        else Picked(buf[i := uc], dir, i + 1, s + 1, uc != 0)
      else
        if uc != 0xFFFF then None
        else Picked(buf, dir, i, s + 1, false)
  }

  /** pick_lfn: the buffer afterwards, or nothing when it returns 0. */
  function Pick(buf: seq<nat>, dir: Slot): (r: Option<seq<nat>>)
    requires |buf| == MAX_LFN + 1
  {
    var p := Picked(buf, dir, Offset(Rem(dir[LDIR_ORD], 64)), 0, true);
    if p.None? then None
    else
      var (b, i, _) := p.value;
      if IsLast(dir[LDIR_ORD]) then
        if i >= MAX_LFN then None else Some(b[i := 0])
      else Some(b)
  }

  method PickLfn(lfnbuf: array<nat>, dir: Slot) returns (ok: bool)
    requires lfnbuf.Length == MAX_LFN + 1
    modifies lfnbuf
    ensures ok <==> Pick(old(lfnbuf[..]), dir).Some?
    ensures ok ==> lfnbuf[..] == Pick(old(lfnbuf[..]), dir).value
  {
    hide Unit;
    var i: nat := Offset(Rem(dir[LDIR_ORD], 64));
    var s, wc: nat := 0, 1;
    ghost var all := Picked(lfnbuf[..], dir, i, 0, true);
    while s < 13
      invariant s <= 13 && all == Picked(lfnbuf[..], dir, i, s, wc != 0)
    {
      var uc := Unit(dir, s);
      if wc != 0 {
        if i >= MAX_LFN {
          return false;
        }
        wc := uc;
        ghost var before := lfnbuf[..];
        lfnbuf[i] := uc;
        assert lfnbuf[..] == before[i := uc];
        i := i + 1;
      } else if uc != 0xFFFF {
        return false;
      }
      s := s + 1;
    }
    if IsLast(dir[LDIR_ORD]) {
      if i >= MAX_LFN {
        return false;
      }
      ghost var before := lfnbuf[..];
      lfnbuf[i] := 0;
      assert lfnbuf[..] == before[i := 0];
    }
    return true;
  }

  // ---- what fit_lfn stored, pick_lfn gives back

  /** Filler to the end of the slot is accepted. */
  lemma {:induction false} PickedFiller(buf: seq<nat>, dir: Slot, i: nat, s: nat)
    requires s <= 13 && |buf| == MAX_LFN + 1
    requires forall r :: s <= r < 13 ==> Unit(dir, r) == 0xFFFF
    ensures Picked(buf, dir, i, s, false) == Some((buf, i, false))
    decreases 13 - s
  {
    if s < 13 {
      PickedFiller(buf, dir, i, s + 1);
    }
  }

  /** buf with the characters of name from a up to b */
  ghost function Filled(buf: seq<nat>, name: seq<nat>, a: nat, b: nat): (r: seq<nat>)
    requires |name| < |buf|
    ensures |r| == |buf|
    ensures forall i :: 0 <= i < |buf| ==> r[i] == if a <= i < b && i < |name| then name[i] else if a <= i < b && i == |name| then 0 else buf[i]
  {
    seq(|buf|, i requires 0 <= i < |buf| => if a <= i < b && i < |name| then name[i] else if a <= i < b && i == |name| then 0 else buf[i])
  }

  lemma FilledNone(buf: seq<nat>, name: seq<nat>, i: nat)
    requires |name| < |buf|
    ensures Filled(buf, name, i, i) == buf
  {
  }

  /** The first position filled first. */
  lemma FilledFirst(buf: seq<nat>, name: seq<nat>, i: nat, b: nat)
    requires |buf| == MAX_LFN + 1 && i < b && i < |name| <= MAX_LFN
    ensures Filled(buf[i := Padded(name, i)], name, i + 1, b) == Filled(buf, name, i, b)
  {
  }

  /** Nothing is filled behind the terminator. */
  lemma FilledLast(buf: seq<nat>, name: seq<nat>, b: nat)
    requires |buf| == MAX_LFN + 1 && |name| < b && |name| < MAX_LFN
    ensures buf[|name| := 0] == Filled(buf, name, |name|, b)
  {
  }

  /** The characters of a stored slot from s on, not past the terminator. */
  lemma {:induction false} PickedStored(buf: seq<nat>, dir: Slot, name: seq<nat>, ord: nat, sum: Byte, s: nat)
    requires IsName(name) && Fits(dir, name, ord, sum) && s <= 13 && |buf| == MAX_LFN + 1
    requires (ord - 1) * 13 + s <= |name|
    ensures var i0 := (ord - 1) * 13;
            if |name| >= i0 + 13 then Picked(buf, dir, i0 + s, s, true) == Some((Filled(buf, name, i0 + s, i0 + 13), i0 + 13, true))
            else if |name| < MAX_LFN then Picked(buf, dir, i0 + s, s, true) == Some((Filled(buf, name, i0 + s, i0 + 13), |name| + 1, false))
            else Picked(buf, dir, i0 + s, s, true) == None
    decreases 13 - s
  {
    hide Unit, Filled, Padded;
    var i0 := (ord - 1) * 13;
    var i := i0 + s;
    if s == 13 {
      FilledNone(buf, name, i);
    } else {
      var uc := Unit(dir, s);
      assert uc == Padded(name, i);
      if i >= MAX_LFN {
      } else if i < |name| {
        CharNotEnd(name, i);
        PickedStored(buf[i := uc], dir, name, ord, sum, s + 1);
        FilledFirst(buf, name, i, i0 + 13);
      } else {
        EndIsZero(name);
        FillerFrom(dir, name, ord, sum, s + 1);
        PickedFiller(buf[i := uc], dir, i + 1, s + 1);
        FilledLast(buf, name, i0 + 13);
      }
    }
  }

  /** One stored slot is picked unless it is the last of a name over 253 characters. */
  lemma PickStored(buf: seq<nat>, dir: Slot, name: seq<nat>, ord: nat, sum: Byte)
    requires IsName(name) && Fits(dir, name, ord, sum) && |buf| == MAX_LFN + 1
    requires (ord - 1) * 13 < |name|
    ensures Pick(buf, dir).Some? <==> |name| > ord * 13 || |name| <= 253
    ensures Pick(buf, dir).Some? ==>
              var r := Pick(buf, dir).value;
              && |r| == |buf|
              && (forall i :: 0 <= i < |name| ==> r[i] == if (ord - 1) * 13 <= i < ord * 13 then name[i] else buf[i])
              && r[|name|] == if |name| <= ord * 13 then 0 else buf[|name|]
  {
    hide Unit, Picked, Filled, Rem;
    OrderBits(ord);
    PickedStored(buf, dir, name, ord, sum, 0);
    MultipleOf13(ord);
  }

  lemma OrderBits(ord: nat)
    requires 0 < ord <= 20
    ensures Rem(ord, 64) == ord && Rem(ord + LLE, 64) == ord && !IsLast(ord) && IsLast(ord + LLE)
  {
    Join(ord + LLE, 64, 1, ord);
  }

  /** No name of 254 or 255 characters ends with a full slot. */
  lemma MultipleOf13(ord: nat)
    ensures ord * 13 != 254 && ord * 13 != 255
  {
  }

  /** Collecting slots in stored order, last part of the name first. */
  function PickAll(buf: seq<nat>, slots: seq<Slot>): (r: Option<seq<nat>>)
    requires |buf| == MAX_LFN + 1
    decreases |slots|
  {
    if slots == [] then Some(buf)
    else
      var p := Pick(buf, slots[0]);
      if p.None? || |p.value| != |buf| then None else PickAll(p.value, slots[1..])
  }

  /** slots are those of name in stored order: order n first, order 1 last. */
  ghost predicate Stores(slots: seq<Slot>, name: seq<nat>, sum: Byte) {
    && |slots| == SlotCount(|name|)
    && forall m :: 0 <= m < |slots| ==> Fits(slots[m], name, |slots| - m, sum)
  }

  lemma SlotCounts(n: nat)
    requires 0 < n <= MAX_LFN
    ensures 0 < SlotCount(n) <= 20 && (SlotCount(n) - 1) * 13 < n <= SlotCount(n) * 13
  {
    Split(n + 12, 13);
  }

  /** Slots m.. of a name fill in the characters below (count - m) * 13. */
  lemma {:induction false} PickRest(buf: seq<nat>, slots: seq<Slot>, name: seq<nat>, sum: Byte, m: nat)
    requires IsName(name) && Stores(slots, name, sum) && 0 < m <= |slots| && |buf| == MAX_LFN + 1
    ensures var r := PickAll(buf, slots[m..]);
            && r.Some? && |r.value| == |buf|
            && (forall i :: 0 <= i < |name| ==> r.value[i] == if i < (|slots| - m) * 13 then name[i] else buf[i])
            && r.value[|name|] == buf[|name|]
    decreases |slots| - m
  {
    hide Pick, Fits;
    SlotCounts(|name|);
    if m < |slots| {
      var ord := |slots| - m;
      assert Fits(slots[m], name, ord, sum);
      PickStored(buf, slots[m], name, ord, sum);
      var b := Pick(buf, slots[m]).value;
      PickRest(b, slots, name, sum, m + 1);
      assert slots[m..][0] == slots[m] && slots[m..][1..] == slots[m + 1..];
    }
  }

  /**
   * Splitting a name into slots and collecting them in stored order gives the name
   * back exactly when it has at most 253 characters; longer names are rejected.
   */
  lemma {:induction false} PickRoundTrip(buf: seq<nat>, slots: seq<Slot>, name: seq<nat>, sum: Byte)
    requires IsName(name) && Stores(slots, name, sum) && |buf| == MAX_LFN + 1
    ensures PickAll(buf, slots).Some? <==> |name| <= 253
    ensures |name| <= 253 ==> Terminated(PickAll(buf, slots).value, name)
  {
    SlotCounts(|name|);
    PickStored(buf, slots[0], name, |slots|, sum);
    if |name| <= 253 {
      var b := Pick(buf, slots[0]).value;
      PickRest(b, slots, name, sum, 1);
      assert PickAll(b, slots[1..]).value[..|name|] == name;
    }
  }

  // ---- cmp_lfn

  /** An upper-casing table; only the terminator maps to the terminator. */
  ghost predicate IsUpcase(up: nat -> nat) {
    forall c {:trigger up(c)} :: up(c) == 0 <==> c == 0
  }

  /** Comparing the characters of dir from s on with buf from i on. */
  function Compared(up: nat -> nat, buf: seq<nat>, dir: Slot, i: nat, s: nat, open: bool): (r: Option<(nat, bool)>)
    requires s <= 13 && |buf| == MAX_LFN + 1
    ensures r.Some? && r.value.1 && (i <= MAX_LFN || s < 13) ==> r.value.0 <= MAX_LFN
    decreases 13 - s
  {
    if s == 13 then Some((i, open))
    else
      var uc := Unit(dir, s);
      if open then
        if i >= MAX_LFN || up(uc) != up(buf[i]) then None
        else Compared(up, buf, dir, i + 1, s + 1, up(uc) != 0)
      else
        if uc != 0xFFFF then None
        else Compared(up, buf, dir, i, s + 1, false)
  }

  /** cmp_lfn: whether slot dir matches its part of the name in buf. */
  predicate Matches(up: nat -> nat, buf: seq<nat>, dir: Slot)
    requires |buf| == MAX_LFN + 1
  {
    var r := Compared(up, buf, dir, Offset(OrderOf(dir[LDIR_ORD])), 0, true);
    r.Some? && !(IsLast(dir[LDIR_ORD]) && r.value.1 && buf[r.value.0] != 0)
  }

  method CmpLfn(up: nat -> nat, lfnbuf: seq<nat>, dir: Slot) returns (r: bool)
    requires |lfnbuf| == MAX_LFN + 1
    ensures r <==> Matches(up, lfnbuf, dir)
  {
    hide Unit;
    var i: nat := Offset(OrderOf(dir[LDIR_ORD]));
    var s, wc: nat := 0, 1;
    ghost var all := Compared(up, lfnbuf, dir, i, 0, true);
    while s < 13
      invariant s <= 13 && all == Compared(up, lfnbuf, dir, i, s, wc != 0)
    {
      var uc := Unit(dir, s);
      if wc != 0 {
        wc := up(uc);
        if i >= MAX_LFN || wc != up(lfnbuf[i]) {
          return false;
        }
        i := i + 1;
      } else if uc != 0xFFFF {
        return false;
      }
      s := s + 1;
    }
    if IsLast(dir[LDIR_ORD]) && wc != 0 && lfnbuf[i] != 0 {
      return false;
    }
    return true;
  }

  /** Position p of a padded name agrees with buf up to case. */
  ghost predicate AgreeAt(up: nat -> nat, buf: seq<nat>, name: seq<nat>, p: nat)
    requires |buf| == MAX_LFN + 1
  {
    p < MAX_LFN && up(Padded(name, p)) == up(buf[p])
  }

  /** Positions a..b of the slots of name, up to its terminator, agree with buf up to case. */
  ghost predicate Agree(up: nat -> nat, buf: seq<nat>, name: seq<nat>, a: nat, b: nat)
    requires |buf| == MAX_LFN + 1
  {
    forall p: nat :: a <= p < b && p <= |name| ==> AgreeAt(up, buf, name, p)
  }

  lemma {:induction false} ComparedFiller(up: nat -> nat, buf: seq<nat>, dir: Slot, i: nat, s: nat)
    requires s <= 13 && |buf| == MAX_LFN + 1
    requires forall r :: s <= r < 13 ==> Unit(dir, r) == 0xFFFF
    ensures Compared(up, buf, dir, i, s, false) == Some((i, false))
    decreases 13 - s
  {
    if s < 13 {
      ComparedFiller(up, buf, dir, i, s + 1);
    }
  }

  /** What ComparedStored says of the outcome r of comparing position i of a stored name up to position b. */
  ghost predicate ComparesTo(up: nat -> nat, buf: seq<nat>, name: seq<nat>, i: nat, b: nat, r: Option<(nat, bool)>)
    requires |buf| == MAX_LFN + 1
  {
    && (r.Some? <==> Agree(up, buf, name, i, b))
    && (r.Some? ==> r.value.1 == (|name| >= b) && (r.value.1 ==> r.value.0 == b))
  }

  /** A character of the name itself that agrees. */
  lemma ComparesOn(up: nat -> nat, buf: seq<nat>, name: seq<nat>, i: nat, b: nat, r: Option<(nat, bool)>)
    requires |buf| == MAX_LFN + 1 && i < b && i < |name| && i < MAX_LFN && up(Padded(name, i)) == up(buf[i])
    requires ComparesTo(up, buf, name, i + 1, b, r)
    ensures ComparesTo(up, buf, name, i, b, r)
  {
    hide Padded;
    assert AgreeAt(up, buf, name, i);
  }

  /** The terminator, when it agrees: nothing after it counts. */
  lemma ComparesEnd(up: nat -> nat, buf: seq<nat>, name: seq<nat>, b: nat)
    requires |buf| == MAX_LFN + 1 && |name| < b && |name| < MAX_LFN && up(Padded(name, |name|)) == up(buf[|name|])
    ensures ComparesTo(up, buf, name, |name|, b, Some((|name| + 1, false)))
  {
    hide Padded;
    assert AgreeAt(up, buf, name, |name|);
  }

  /** A position that does not agree. */
  lemma ComparesNot(up: nat -> nat, buf: seq<nat>, name: seq<nat>, i: nat, b: nat)
    requires |buf| == MAX_LFN + 1 && i < b && i <= |name|
    requires i >= MAX_LFN || up(Padded(name, i)) != up(buf[i])
    ensures ComparesTo(up, buf, name, i, b, None)
  {
    hide Padded;
    assert !AgreeAt(up, buf, name, i);
  }

  lemma {:induction false} ComparedStored(up: nat -> nat, buf: seq<nat>, dir: Slot, name: seq<nat>, ord: nat, sum: Byte, s: nat)
    requires IsName(name) && Fits(dir, name, ord, sum) && s <= 13 && |buf| == MAX_LFN + 1 && IsUpcase(up)
    requires (ord - 1) * 13 + s <= |name|
    ensures ComparesTo(up, buf, name, (ord - 1) * 13 + s, ord * 13, Compared(up, buf, dir, (ord - 1) * 13 + s, s, true))
    decreases 13 - s
  {
    hide Unit, Agree, ComparesTo;
    var i, b := (ord - 1) * 13 + s, ord * 13;
    if s == 13 {
      ComparesAll(up, buf, name, b);
    } else {
      assert Unit(dir, s) == Padded(name, i);
      if i >= MAX_LFN || up(Padded(name, i)) != up(buf[i]) {
        ComparesNot(up, buf, name, i, b);
      } else if i < |name| {
        CharNotEnd(name, i);
        ComparedStored(up, buf, dir, name, ord, sum, s + 1);
        ComparesOn(up, buf, name, i, b, Compared(up, buf, dir, i + 1, s + 1, true));
      } else {
        EndIsZero(name);
        FillerFrom(dir, name, ord, sum, s + 1);
        ComparedFiller(up, buf, dir, i + 1, s + 1);
        ComparesEnd(up, buf, name, b);
      }
    }
  }

  lemma ComparesAll(up: nat -> nat, buf: seq<nat>, name: seq<nat>, b: nat)
    requires |buf| == MAX_LFN + 1 && b <= |name|
    ensures ComparesTo(up, buf, name, b, b, Some((b, true)))
  {
  }

  lemma CharNotEnd(name: seq<nat>, i: nat)
    requires IsName(name) && i < |name|
    ensures Padded(name, i) != 0
  {
  }

  lemma EndIsZero(name: seq<nat>)
    ensures Padded(name, |name|) == 0
  {
  }

  /** Behind the terminator a stored slot holds filler. */
  lemma FillerFrom(dir: Slot, name: seq<nat>, ord: nat, sum: Byte, s: nat)
    requires Fits(dir, name, ord, sum) && (ord - 1) * 13 + s > |name|
    ensures forall r :: s <= r < 13 ==> Unit(dir, r) == 0xFFFF
  {
    hide Unit;
  }

  /** One stored slot matches when its characters agree and, for a full last slot, buf ends there. */
  lemma MatchesStored(up: nat -> nat, buf: seq<nat>, dir: Slot, name: seq<nat>, ord: nat, sum: Byte)
    requires IsName(name) && Fits(dir, name, ord, sum) && |buf| == MAX_LFN + 1 && IsUpcase(up)
    requires (ord - 1) * 13 < |name|
    ensures Matches(up, buf, dir) <==>
            Agree(up, buf, name, (ord - 1) * 13, ord * 13) && (|name| == ord * 13 ==> buf[|name|] == 0)
  {
    hide Unit, Compared, Agree;
    OrderBits(ord);
    ComparedStored(up, buf, dir, name, ord, sum, 0);
  }

  /** Equal names up to case. */
  ghost predicate SameName(up: nat -> nat, a: seq<nat>, b: seq<nat>) {
    |a| == |b| && forall i :: 0 <= i < |a| ==> up(a[i]) == up(b[i])
  }

  /** The slots of a all match buffer b exactly when the names are equal up to case. */
  lemma MatchesExactly(up: nat -> nat, buf: seq<nat>, slots: seq<Slot>, a: seq<nat>, b: seq<nat>, sum: Byte)
    requires IsName(a) && IsName(b) && Stores(slots, a, sum) && Terminated(buf, b) && IsUpcase(up)
    requires |a| <= 254
    ensures (forall m :: 0 <= m < |slots| ==> Matches(up, buf, slots[m])) <==> SameName(up, a, b)
  {
    hide Matches, Fits;
    SlotCounts(|a|);
    BufferHolds(buf, b);
    var n := |slots|;
    forall m | 0 <= m < n
      ensures Matches(up, buf, slots[m]) <==>
              Agree(up, buf, a, (n - m - 1) * 13, (n - m) * 13) && (|a| == (n - m) * 13 ==> buf[|a|] == 0)
    {
      assert Fits(slots[m], a, n - m, sum);
      MatchesStored(up, buf, slots[m], a, n - m, sum);
    }
    if SameName(up, a, b) {
      SameAgrees(up, buf, a, b);
    }
    if forall m :: 0 <= m < n ==> Matches(up, buf, slots[m]) {
      forall p | 0 <= p < |a|
        ensures up(a[p]) == up(buf[p])
      {
        var k := Quot(p, 13);
        Split(p, 13);
        assert Matches(up, buf, slots[n - 1 - k]);
        assert Agree(up, buf, a, (n - (n - 1 - k) - 1) * 13, (n - (n - 1 - k)) * 13);
        assert AgreeAt(up, buf, a, p);
        assert Padded(a, p) == a[p];
      }
      assert Matches(up, buf, slots[0]);
      assert buf[|a|] == 0 by {
        if |a| < n * 13 {
          assert Padded(a, |a|) == 0;
          assert AgreeAt(up, buf, a, |a|);
        }
      }
      AgreesSame(up, buf, a, b);
    }
  }

  lemma SameAgrees(up: nat -> nat, buf: seq<nat>, a: seq<nat>, b: seq<nat>)
    requires IsName(a) && IsName(b) && Terminated(buf, b) && IsUpcase(up) && SameName(up, a, b) && |a| <= 254
    ensures forall x: nat, y: nat :: Agree(up, buf, a, x, y)
    ensures buf[|a|] == 0
  {
    BufferHolds(buf, b);
  }

  lemma AgreesSame(up: nat -> nat, buf: seq<nat>, a: seq<nat>, b: seq<nat>)
    requires IsName(a) && IsName(b) && Terminated(buf, b) && IsUpcase(up)
    requires (forall p :: 0 <= p < |a| ==> up(a[p]) == up(buf[p])) && buf[|a|] == 0
    ensures SameName(up, a, b)
  {
    BufferHolds(buf, b);
    forall i | 0 <= i < |a|
      ensures i < |b| && up(a[i]) == up(b[i])
    {
      assert up(a[i]) == up(buf[i]);
    }
  }

  /** At 255 characters the last slot matches no buffer at all. */
  lemma LongestNeverMatches(up: nat -> nat, buf: seq<nat>, dir: Slot, a: seq<nat>, sum: Byte)
    requires IsName(a) && |a| == 255 && Fits(dir, a, 20, sum) && |buf| == MAX_LFN + 1 && IsUpcase(up)
    ensures !Matches(up, buf, dir)
  {
    MatchesStored(up, buf, dir, a, 20, sum);
    assert Padded(a, 255) == 0;
  }

  // ---- sum_sfn

  /** sum_sfn of the 11 bytes from k on: rotate right and add, in BYTE arithmetic. */
  function SumFrom(sfn: seq<Byte>, k: nat, sum: Byte): Byte
    requires k <= 11 <= |sfn|
    decreases 11 - k
  {
    if k == 11 then sum
    else
      Split(sum, 2);
      SumFrom(sfn, k + 1, Rem(Quot(sum, 2) + Rem(sum, 2) * 128 + sfn[k] as int, 256))
  }

  function SumSfn(sfn: seq<Byte>): Byte
    requires |sfn| >= 11
  {
    SumFrom(sfn, 0, 0)
  }
}
