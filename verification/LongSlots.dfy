/** Which long slots pick_lfn and cmp_lfn accept, for any 32 bytes, and what pick_lfn makes of them. */
module LongSlots {
  import opened Arith
  import opened Bytes
  import opened Lfn
  import opened Directory

  /** The slot's characters end at z: the first 0, or 13 when there is none. */
  ghost predicate EndsAt(s: Slot, from: nat, z: nat) {
    from <= z <= 13 && (forall c :: from <= c < z ==> Unit(s, c) != 0) && (z < 13 ==> Unit(s, z) == 0)
  }

  /** Nothing but filler follows the terminator. */
  ghost predicate FilledFrom(s: Slot, from: nat) {
    forall c :: from <= c < 13 ==> Unit(s, c) == 0xFFFF
  }

  /** The characters of the slot, with the terminator. */
  function Count(z: nat): nat {
    if z < 13 then z + 1 else 13
  }

  // ---- pick_lfn

  lemma {:induction false} PickedFillerIff(buf: seq<nat>, s: Slot, i: nat, c: nat)
    requires c <= 13 && |buf| == MAX_LFN + 1
    ensures Picked(buf, s, i, c, false).Some? <==> FilledFrom(s, c)
    ensures FilledFrom(s, c) ==> Picked(buf, s, i, c, false) == Some((buf, i, false))
    decreases 13 - c
  {
    hide Unit;
    if c < 13 {
      PickedFillerIff(buf, s, i, c + 1);
    }
  }

  /** Characters c on of the slot go to i on in the buffer, which must have room for them. */
  lemma {:induction false} PickedIff(buf: seq<nat>, s: Slot, i: nat, c: nat, z: nat)
    requires |buf| == MAX_LFN + 1 && EndsAt(s, c, z)
    ensures var n: nat := Count(z) - c;
            var r := Picked(buf, s, i, c, true);
            && (r.Some? <==> FilledFrom(s, z + 1) && (n == 0 || i + n <= MAX_LFN))
            && (r.Some? ==>
                  && r.value.1 == i + n && |r.value.0| == |buf|
                  && forall p :: 0 <= p < |buf| ==> r.value.0[p] == if i <= p < i + n then Unit(s, p - i + c) else buf[p])
    decreases 13 - c
  {
    hide Unit;
    if c < 13 && i < MAX_LFN {
      var b := buf[i := Unit(s, c)];
      if c == z {
        PickedFillerIff(b, s, i + 1, c + 1);
      } else {
        PickedIff(b, s, i + 1, c + 1, z);
      }
    }
  }

  /** pick_lfn accepts a slot of order 1 or more with filler behind its terminator whose characters the buffer has room for. */
  lemma PickableIff(s: Slot, z: nat)
    requires EndsAt(s, 0, z)
    ensures Pickable(s) <==>
            && FilledFrom(s, z + 1) && s[0] % 64 >= 1
            && (s[0] % 64 - 1) * 13 + Count(z) <= (if IsLast(s[0]) then 254 else 255)
  {
    hide Unit, Picked, Quot, Rem;
    QuotRemAreDivMod(s[0], 64);
    PickedIff(Blank(MAX_LFN + 1), s, Offset(Rem(s[0], 64)), 0, z);
  }

  /** And stores them at their place, with a terminator behind the last part. */
  lemma PickedBytes(buf: seq<nat>, s: Slot, z: nat)
    requires |buf| == MAX_LFN + 1 && EndsAt(s, 0, z) && Pickable(s)
    ensures Pick(buf, s).Some? && |Pick(buf, s).value| == |buf|
    ensures var i, n := (s[0] as int % 64 - 1) * 13, Count(z);
            forall p :: 0 <= p < |buf| ==>
              Pick(buf, s).value[p] == if i <= p < i + n then Unit(s, p - i) else if IsLast(s[0]) && p == i + n then 0 else buf[p]
  {
    hide Unit, Picked, Quot, Rem;
    PickableIff(s, z);
    QuotRemAreDivMod(s[0], 64);
    PickedIff(buf, s, Offset(Rem(s[0], 64)), 0, z);
  }

  // ---- cmp_lfn

  /** The slot's characters end at z, seen through the upcase table. */
  ghost predicate UpEndsAt(up: nat -> nat, s: Slot, from: nat, z: nat) {
    from <= z <= 13 && (forall c :: from <= c < z ==> up(Unit(s, c)) != 0) && (z < 13 ==> up(Unit(s, z)) == 0)
  }

  lemma {:induction false} ComparedFillerIff(up: nat -> nat, buf: seq<nat>, s: Slot, i: nat, c: nat)
    requires c <= 13 && |buf| == MAX_LFN + 1
    ensures Compared(up, buf, s, i, c, false).Some? <==> FilledFrom(s, c)
    ensures FilledFrom(s, c) ==> Compared(up, buf, s, i, c, false) == Some((i, false))
    decreases 13 - c
  {
    hide Unit;
    if c < 13 {
      ComparedFillerIff(up, buf, s, i, c + 1);
    }
  }

  /** Character k of the slot is the one of the buffer at place + k, up to case. */
  predicate SameAt(up: nat -> nat, buf: seq<nat>, s: Slot, place: int, k: nat)
    requires |buf| == MAX_LFN + 1 && k < 13
  {
    0 <= place + k < MAX_LFN && up(Unit(s, k)) == up(buf[place + k])
  }

  ghost predicate SameFrom(up: nat -> nat, buf: seq<nat>, s: Slot, place: int, c: nat, e: nat)
    requires |buf| == MAX_LFN + 1 && e <= 13
  {
    forall k :: c <= k < e ==> SameAt(up, buf, s, place, k)
  }

  lemma SameStep(up: nat -> nat, buf: seq<nat>, s: Slot, place: int, c: nat, e: nat)
    requires |buf| == MAX_LFN + 1 && c <= e <= 13
    ensures c == e ==> SameFrom(up, buf, s, place, c, e)
    ensures c < e ==> (SameFrom(up, buf, s, place, c, e) <==> SameAt(up, buf, s, place, c) && SameFrom(up, buf, s, place, c + 1, e))
  {
    hide SameAt;
  }

  lemma {:induction false} ComparedIff(up: nat -> nat, buf: seq<nat>, s: Slot, place: nat, c: nat, z: nat)
    requires |buf| == MAX_LFN + 1 && UpEndsAt(up, s, c, z)
    ensures var r := Compared(up, buf, s, place + c, c, true);
            && (r.Some? <==> FilledFrom(s, z + 1) && SameFrom(up, buf, s, place, c, Count(z)))
            && (r.Some? ==> r.value == (place + Count(z), z == 13))
    decreases 13 - c
  {
    hide Unit, SameFrom;
    SameStep(up, buf, s, place, c, Count(z));
    if c < 13 && SameAt(up, buf, s, place, c) {
      if c == z {
        ComparedFillerIff(up, buf, s, place + c + 1, c + 1);
        SameStep(up, buf, s, place, c + 1, c + 1);
      } else {
        ComparedIff(up, buf, s, place, c + 1, z);
      }
    }
  }

  /**
   * cmp_lfn accepts a slot exactly when its characters are those of its place in the buffer
   * up to case, filler follows the terminator, and a last part that is full ends the name there.
   */
  lemma MatchesIff(up: nat -> nat, buf: seq<nat>, s: Slot, z: nat)
    requires |buf| == MAX_LFN + 1 && UpEndsAt(up, s, 0, z)
    ensures Matches(up, buf, s) <==>
            && FilledFrom(s, z + 1) && OrderOf(s[0]) >= 1
            && SameFrom(up, buf, s, (OrderOf(s[0]) as int - 1) * 13, 0, Count(z))
            && (IsLast(s[0]) && z == 13 ==> OrderOf(s[0]) * 13 < |buf| && buf[OrderOf(s[0]) * 13] == 0)
  {
    hide Unit, Compared;
    ComparedIff(up, buf, s, Offset(OrderOf(s[0])), 0, z);
    SameStep(up, buf, s, Offset(OrderOf(s[0])), 0, Count(z));
  }

  /** The order byte in bits: the flag of the last part, and the order without it. */
  lemma OrderByte(b: Byte)
    ensures IsLast(b) <==> Bits(b) & 0x40 != 0
    ensures Bits(OrderOf(b)) == Bits(b) & 0xBF
    ensures b % 64 == (Bits(b) & 0x3F) as int
  {
    hide Bits;
    LastFlag(Bits(b));
    PlainOrder(Bits(b));
    OrderNumber(Bits(b));
    SameBits(Bits(OrderOf(b)), Bits(b) & 0xBF);
  }

  lemma LastFlag(v: bv8)
    ensures v & 0x40 != 0 <==> 64 <= v as int < 128 || 192 <= v as int
  {
  }

  lemma PlainOrder(v: bv8)
    ensures (v & 0xBF) as int == if v & 0x40 != 0 then v as int - 0x40 else v as int
  {
  }

  lemma OrderNumber(v: bv8)
    ensures (v & 0x3F) as int == v as int % 64
  {
  }
}
