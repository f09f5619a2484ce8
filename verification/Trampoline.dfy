/**
 * The chainloader: C splits the list of scattered source pages over one-page tables
 * and writes a descriptor; an SH-4 loop walks it and copies the pages, in order, to
 * one contiguous destination. Memory is physical RAM as 32-bit words.
 */
module Trampoline {
  import opened Arith
  import opened Bytes

  const PHYS: nat := 0x2000_0000 // physical addresses are below this
  const P2BASE: nat := 0xA000_0000
  const WORDS: nat := 0x800_0000 // PHYS / 4
  const PAGE_WORDS: nat := 1024
  const MAXPFNPG: nat := 8

  /** The untranslated alias of a physical byte address. */
  function P2(pa: Dword): (r: Dword)
    ensures P2BASE <= r < P2BASE + PHYS
  {
    pa % PHYS + P2BASE
  }

  /** That is (pa & 0x1FFFFFFF) | 0xA0000000. */
  lemma P2Bits(pa: bv32)
    ensures P2(pa as int) == ((pa & 0x1FFF_FFFF) | 0xA000_0000) as int
  {
    PhysicalPart(pa);
    InAliasP2(pa & 0x1FFF_FFFF);
  }

  lemma PhysicalPart(pa: bv32)
    ensures (pa & 0x1FFF_FFFF) as int == pa as int % 0x2000_0000 && pa & 0x1FFF_FFFF < 0x2000_0000
  {
    AliasAndOffset(pa);
    OffsetBound(pa);
    Remainder((pa >> 29) as int, (pa & 0x1FFF_FFFF) as int);
  }

  lemma AliasAndOffset(pa: bv32)
    ensures pa as int == (pa & 0x1FFF_FFFF) as int + 0x2000_0000 * ((pa >> 29) as int)
    ensures pa & 0x1FFF_FFFF < 0x2000_0000
  {
  }

  lemma OffsetBound(pa: bv32)
    ensures (pa & 0x1FFF_FFFF) as int < 0x2000_0000
  {
    Narrow(pa & 0x1FFF_FFFF);
  }

  lemma Narrow(pa: bv32)
    requires pa < 0x2000_0000
    ensures pa as int == (pa as bv29) as int
  {
  }

  lemma Remainder(k: nat, r: nat)
    requires r < 0x2000_0000
    ensures (r + 0x2000_0000 * k) % 0x2000_0000 == r
  {
  }

  lemma InAliasP2(pa: bv32)
    requires pa < 0x2000_0000
    ensures (pa | 0xA000_0000) as int == pa as int + 0xA000_0000
  {
  }

  /** The word that an aligned address names; addresses that differ by a multiple of 2^29 name the same one. */
  function WordAt(a: nat): (w: nat)
    ensures w < WORDS
  {
    a % PHYS / 4
  }

  /** The P2 address of word w. */
  function Alias(w: nat): (a: Dword)
    requires w < WORDS
  {
    P2BASE + 4 * w
  }

  // ---- page frame numbers

  /** x << s in 32 bits, for the three shifts in use. */
  function Shl(x: Dword, s: nat): Dword {
    (if s == 8 then x * 0x100 else if s == 12 then x * 0x1000 else x) % 0x1_0000_0000
  }

  function Shr(x: Dword, s: nat): Dword {
    if s == 8 then x / 0x100 else if s == 12 then x / 0x1000 else x
  }

  /** 2^s */
  function Power2(s: nat): nat {
    if s == 0 then 1 else 2 * Power2(s - 1)
  }

  lemma ShiftsArePowers(x: Dword, s: nat)
    requires s == 0 || s == 8 || s == 12
    ensures Shl(x, s) == x * Power2(s) % 0x1_0000_0000 && Shr(x, s) == x / Power2(s)
  {
    assert Power2(8) == 0x100;
    assert Power2(12) == Power2(8) * 0x10;
  }

  predicate InRam(pa: Dword) {
    0x0C60_0000 <= pa < 0x0D00_0000
  }

  /** Which encoding of page frames is in use; None for none that fits. */
  method ShiftOf(pfn0: Dword) returns (shift: int)
    ensures shift == -1 || shift == 0 || shift == 8 || shift == 12
    ensures shift >= 0 ==> InRam(Shl(pfn0, shift))
    ensures forall s :: s in {0, 8, 12} && (shift == -1 || s < shift) ==> !InRam(Shl(pfn0, s))
  {
    hide Shl, InRam;
    var aShift := [0, 8, 12];
    var j := 0;
    while j < 3
      invariant j <= 3 && forall i :: 0 <= i < j ==> !InRam(Shl(pfn0, aShift[i]))
    {
      if InRam(Shl(pfn0, aShift[j])) {
        ShiftsTried(pfn0, aShift, j);
        return aShift[j];
      }
      j := j + 1;
    }
    ShiftsTried(pfn0, aShift, 3);
    return -1;
  }

  lemma ShiftsTried(pfn0: Dword, aShift: seq<nat>, j: nat)
    requires aShift == [0, 8, 12] && j <= 3 && forall i :: 0 <= i < j ==> !InRam(Shl(pfn0, aShift[i]))
    ensures forall s :: s in {0, 8, 12} && (j == 3 || s < aShift[j]) ==> !InRam(Shl(pfn0, s))
  {
    hide Shl, InRam;
    forall s | s in {0, 8, 12} && (j == 3 || s < aShift[j])
      ensures !InRam(Shl(pfn0, s))
    {
      var i := if s == 0 then 0 else if s == 8 then 1 else 2;
      assert aShift[i] == s && i < j;
    }
  }

  /** The first shift that lands in RAM is the one the frame was encoded with, so shifting back gives the page address. */
  lemma ShiftIsRecovered(pa: Dword, s: nat)
    requires InRam(pa) && pa % 0x1000 == 0 && (s == 0 || s == 8 || s == 12)
    ensures Shl(Shr(pa, s), s) == pa
    ensures forall z :: z in {0, 8, 12} && z < s ==> !InRam(Shl(Shr(pa, s), z))
  {
    var q := pa / 0x1000;
    assert pa == 0x1000 * q;
    if s == 8 {
      assert pa / 0x100 == 0x10 * q;
    }
  }

  // ---- the descriptor and the page tables

  /** Word offsets in TrampParams. */
  const DST: nat := 0
  const NPAGES: nat := 1
  const ENTRY: nat := 2
  const SRMASK: nat := 3
  const APFNPG: nat := 4

  /** Word ranges a..a+m and b..b+n have no word in common. */
  predicate Apart(a: nat, m: nat, b: nat, n: nat) {
    a + m <= b || b + n <= a
  }

  function TableCount(n: nat): nat {
    Quot(n + 1023, PAGE_WORDS)
  }

  /** Descriptor d says: copy n pages to dst, then enter; tables are the words where the page tables start. */
  ghost predicate Describes(mem: seq<Dword>, d: nat, dst: nat, n: nat, entry: Dword, tables: seq<nat>) {
    && d + APFNPG + MAXPFNPG <= |mem| == WORDS
    && dst < WORDS && |tables| <= MAXPFNPG
    && mem[d + DST] == Alias(dst) && mem[d + NPAGES] == n && mem[d + ENTRY] == entry
    && (forall k :: 0 <= k < |tables| ==> tables[k] + PAGE_WORDS <= WORDS)
    && forall k :: 0 <= k < |tables| ==> mem[d + APFNPG + k] == Alias(tables[k])
  }

  /** Entry i of the tables is src[i], a physical byte address of a page in memory. */
  ghost predicate Lists(mem: seq<Dword>, tables: seq<nat>, src: seq<Dword>) {
    && |mem| == WORDS
    && (forall k :: 0 <= k < |tables| ==> tables[k] + PAGE_WORDS <= WORDS)
    && TableCount(|src|) <= |tables|
    && forall i :: 0 <= i < |src| ==>
         Quot(i, PAGE_WORDS) < |tables| && mem[tables[Quot(i, PAGE_WORDS)] + Rem(i, PAGE_WORDS)] == src[i]
  }

  predicate IsPage(pa: Dword) {
    pa % 4 == 0 && pa + 4 * PAGE_WORDS <= PHYS
  }

  /** The page at word s. */
  function PageAt(m: seq<Dword>, s: nat): (r: seq<Dword>)
    requires s + PAGE_WORDS <= |m|
    ensures |r| == PAGE_WORDS && forall w :: 0 <= w < PAGE_WORDS ==> r[w] == m[s + w]
  {
    m[s..s + PAGE_WORDS]
  }

  // ---- the SH-4 loops, for any memory

  /** WordTop: c words from r1 on to r2 on, one after the other. */
  function CopyWords(m: seq<Dword>, r1: nat, r2: nat, c: nat): (n: seq<Dword>)
    requires |m| == WORDS
    ensures |n| == WORDS
  {
    if c == 0 then m
    else
      var n := CopyWords(m, r1, r2, c - 1);
      n[WordAt(r2 + 4 * (c - 1)) := n[WordAt(r1 + 4 * (c - 1))]]
  }

  /** Memory, the pointer into the page tables and the destination pointer between two rounds of PageTop. */
  datatype Machine = Machine(mem: seq<Dword>, r5: nat, r2: nat)

  /** PageTop for page i: reload the table pointer every 1024 pages, fetch an entry, copy its page. */
  function Round(s: Machine, r4: nat, i: nat): (t: Machine)
    requires |s.mem| == WORDS
    ensures |t.mem| == WORDS
  {
    var r5 := if Rem(i, PAGE_WORDS) == 0 then s.mem[WordAt(r4 + 16 + 4 * Quot(i, PAGE_WORDS))] else s.r5;
    Machine(CopyWords(s.mem, P2(s.mem[WordAt(r5)]), s.r2, PAGE_WORDS), r5 + 4, s.r2 + 4 * PAGE_WORDS)
  }

  /** The first n rounds on descriptor r4. */
  function After(m: seq<Dword>, r4: nat, n: nat): (t: Machine)
    requires |m| == WORDS
    ensures |t.mem| == WORDS
  {
    if n == 0 then Machine(m, 0, m[WordAt(r4)]) else Round(After(m, r4, n - 1), r4, n - 1)
  }

  method CopyPage(mem: array<Dword>, r1in: nat, r2in: nat) returns (r2: nat)
    requires mem.Length == WORDS
    modifies mem
    ensures mem[..] == CopyWords(old(mem[..]), r1in, r2in, PAGE_WORDS) && r2 == r2in + 4 * PAGE_WORDS
  {
    hide WordAt;
    ghost var m0 := mem[..];
    var r1, r7 := r1in, 1024;
    r2 := r2in;
    while true
      invariant 0 < r7 <= 1024 && r1 == r1in + 4 * (1024 - r7) && r2 == r2in + 4 * (1024 - r7)
      invariant mem[..] == CopyWords(m0, r1in, r2in, 1024 - r7)
      decreases r7
    {
      ghost var m := mem[..];
      mem[WordAt(r2)] := mem[WordAt(r1)];
      assert mem[..] == m[WordAt(r2) := m[WordAt(r1)]];
      CopyOneMore(m0, r1in, r2in, 1024 - r7);
      r1 := r1 + 4;
      r2 := r2 + 4;
      r7 := r7 - 1;
      if r7 == 0 {
        break;
      }
    }
  }

  lemma CopyOneMore(m: seq<Dword>, r1: nat, r2: nat, c: nat)
    requires |m| == WORDS
    ensures var n := CopyWords(m, r1, r2, c); CopyWords(m, r1, r2, c + 1) == n[WordAt(r2 + 4 * c) := n[WordAt(r1 + 4 * c)]]
  {
    hide WordAt;
  }

  /** One round of PageTop. */
  method CopyEntry(mem: array<Dword>, r4: nat, r5in: nat, r2in: nat, r8: nat) returns (r5: nat, r2: nat)
    requires mem.Length == WORDS
    modifies mem
    ensures Machine(mem[..], r5, r2) == Round(Machine(old(mem[..]), r5in, r2in), r4, r8)
  {
    hide CopyWords, WordAt, P2, Rem, Quot;
    r5 := r5in;
    if Rem(r8, PAGE_WORDS) == 0 {
      r5 := mem[WordAt(r4 + 16 + 4 * Quot(r8, PAGE_WORDS))];
    }
    var r1 := P2(mem[WordAt(r5)]);
    r5 := r5 + 4;
    r2 := CopyPage(mem, r1, r2in);
  }

  /** PageTop on the descriptor at r4: a page is copied before the count is tested. Returns the address of the final jump. */
  method Chainload(mem: array<Dword>, r4: nat) returns (r6: Dword)
    requires mem.Length == WORDS
    modifies mem
    ensures r6 == old(mem[WordAt(r4 + 8)])
    ensures var n := old(mem[WordAt(r4 + 4)]); mem[..] == After(old(mem[..]), r4, if n == 0 then 1 else n).mem
  {
    hide WordAt, Round;
    ghost var m0 := mem[..];
    var r2, r3, r8 := mem[WordAt(r4)] as nat, mem[WordAt(r4 + 4)], 0;
    r6 := mem[WordAt(r4 + 8)];
    var r5 := 0;
    while true
      invariant r8 == 0 || r8 < r3
      invariant Machine(mem[..], r5, r2) == After(m0, r4, r8)
      decreases r3 - r8
    {
      r5, r2 := CopyEntry(mem, r4, r5, r2, r8);
      r8 := r8 + 1;
      if r8 >= r3 {
        break;
      }
    }
  }

  // ---- building the tables

  /** pfnTmp[i] << shift for every page. */
  function Shifted(pfn: seq<Dword>, shift: nat): (r: seq<Dword>)
    ensures |r| == |pfn| && forall i :: 0 <= i < |r| ==> r[i] == Shl(pfn[i], shift)
  {
    if pfn == [] then [] else Shifted(pfn[..|pfn| - 1], shift) + [Shl(pfn[|pfn| - 1], shift)]
  }

  /** The tables and the descriptor lie in memory, each apart from the others. */
  ghost predicate Placed(d: nat, tables: seq<nat>) {
    && d + APFNPG + MAXPFNPG <= WORDS && |tables| <= MAXPFNPG
    && (forall k :: 0 <= k < |tables| ==> tables[k] + PAGE_WORDS <= WORDS && Apart(tables[k], PAGE_WORDS, d, APFNPG + MAXPFNPG))
    && forall k, j :: 0 <= k < j < |tables| ==> Apart(tables[k], PAGE_WORDS, tables[j], PAGE_WORDS)
  }

  /** The first m entries are in the tables. */
  ghost predicate Filled(mem: seq<Dword>, tables: seq<nat>, pfn: seq<Dword>, shift: nat, m: nat) {
    && |mem| == WORDS && m <= |pfn|
    && forall i {:trigger pfn[i]} :: 0 <= i < m ==>
         Quot(i, PAGE_WORDS) < |tables| && tables[Quot(i, PAGE_WORDS)] + Rem(i, PAGE_WORDS) < WORDS
         && mem[tables[Quot(i, PAGE_WORDS)] + Rem(i, PAGE_WORDS)] == Shl(pfn[i], shift)
  }

  ghost predicate Elsewhere(j: nat, d: nat, tables: seq<nat>) {
    && !(d <= j < d + APFNPG + MAXPFNPG)
    && forall k :: 0 <= k < |tables| ==> !(tables[k] <= j < tables[k] + PAGE_WORDS)
  }

  /** Only the descriptor and the tables differ. */
  ghost predicate Untouched(m: seq<Dword>, n: seq<Dword>, d: nat, tables: seq<nat>) {
    && |m| == |n|
    && forall j :: 0 <= j < |m| && Elsewhere(j, d, tables) ==> n[j] == m[j]
  }

  /** The first e entries are in the tables, and beside them and the descriptor nothing differs from m0. */
  ghost predicate Built(m0: seq<Dword>, m: seq<Dword>, tables: seq<nat>, pfn: seq<Dword>, shift: nat, d: nat, e: nat) {
    Filled(m, tables, pfn, shift, e) && Untouched(m0, m, d, tables)
  }

  lemma PlacedBounds(d: nat, tables: seq<nat>)
    requires Placed(d, tables)
    ensures d + 12 <= WORDS && |tables| <= 8 && forall k :: 0 <= k < |tables| ==> tables[k] + PAGE_WORDS <= WORDS
  {
  }

  lemma NothingBuilt(m: seq<Dword>, tables: seq<nat>, pfn: seq<Dword>, shift: nat, d: nat)
    requires |m| == WORDS
    ensures Built(m, m, tables, pfn, shift, d, 0)
  {
  }

  /** Storing one entry. */
  lemma StoreEntry(m0: seq<Dword>, m: seq<Dword>, tables: seq<nat>, pfn: seq<Dword>, shift: nat, d: nat, k: nat, i: nat)
    requires Placed(d, tables) && k < |tables| && i < 1024 && k * 1024 + i < |pfn| && |m| == WORDS
    requires Built(m0, m, tables, pfn, shift, d, k * 1024 + i)
    ensures tables[k] + i < WORDS && !(d <= tables[k] + i < d + 12)
    ensures Built(m0, m[tables[k] + i := Shl(pfn[k * 1024 + i], shift)], tables, pfn, shift, d, k * 1024 + i + 1)
  {
    hide Shl;
    FilledOne(m, tables, pfn, shift, d, k, i);
    assert Apart(tables[k], PAGE_WORDS, d, APFNPG + MAXPFNPG);
    var n := m[tables[k] + i := Shl(pfn[k * 1024 + i], shift)];
    forall j | 0 <= j < |m0| && Elsewhere(j, d, tables)
      ensures n[j] == m0[j]
    {
      assert !(tables[k] <= j < tables[k] + PAGE_WORDS);
    }
  }

  /** Storing a descriptor word. */
  lemma StoreField(m0: seq<Dword>, m: seq<Dword>, tables: seq<nat>, pfn: seq<Dword>, shift: nat, d: nat, c: nat, v: Dword, e: nat)
    requires Placed(d, tables) && c < 12 && |m| == WORDS && Built(m0, m, tables, pfn, shift, d, e)
    ensures d + c < WORDS && Built(m0, m[d + c := v], tables, pfn, shift, d, e)
  {
    FilledStays(m, m[d + c := v], tables, pfn, shift, d, e);
  }

  /** One page of the list: cnt entries from k * 1024 on, into table k. */
  method FillTable(mem: array<Dword>, pfnTmp: seq<Dword>, shift: nat, tables: seq<nat>, k: nat, cnt: nat, ghost d: nat, ghost m0: seq<Dword>)
    requires mem.Length == WORDS && Placed(d, tables) && k < |tables| && cnt <= 1024 && k * 1024 + cnt <= |pfnTmp|
    requires Built(m0, mem[..], tables, pfnTmp, shift, d, k * 1024)
    modifies mem
    ensures Built(m0, mem[..], tables, pfnTmp, shift, d, k * 1024 + cnt)
    ensures forall j :: d <= j < d + 12 && j < WORDS ==> mem[j] == old(mem[j])
  {
    hide Shl, Built, Placed;
    PlacedBounds(d, tables);
    var i := 0;
    while i < cnt
      invariant i <= cnt && Built(m0, mem[..], tables, pfnTmp, shift, d, k * 1024 + i)
      invariant forall j :: d <= j < d + 12 && j < WORDS ==> mem[j] == old(mem[j])
    {
      ghost var m := mem[..];
      StoreEntry(m0, m, tables, pfnTmp, shift, d, k, i);
      mem[tables[k] + i] := Shl(pfnTmp[k * 1024 + i], shift);
      assert mem[..] == m[tables[k] + i := Shl(pfnTmp[k * 1024 + i], shift)];
      i := i + 1;
    }
  }

  /** pDesc->field = v */
  method SetField(mem: array<Dword>, d: nat, c: nat, v: Dword,
                  ghost m0: seq<Dword>, ghost tables: seq<nat>, ghost pfn: seq<Dword>, ghost shift: nat, ghost e: nat)
    requires mem.Length == WORDS && Placed(d, tables) && c < 12 && Built(m0, mem[..], tables, pfn, shift, d, e)
    modifies mem
    ensures Built(m0, mem[..], tables, pfn, shift, d, e) && d + 12 <= WORDS
    ensures forall j :: d <= j < d + 12 ==> mem[j] == if j == d + c then v else old(mem[j])
  {
    hide Built, Placed;
    PlacedBounds(d, tables);
    ghost var m := mem[..];
    StoreField(m0, m, tables, pfn, shift, d, c, v, e);
    mem[d + c] := v;
    assert mem[..] == m[d + c := v];
  }

  /** _StartUp of the image: 4 bytes behind the load base, through P1. */
  function EntryOf(dwBase: Dword): Dword {
    (dwBase % PHYS + 0x8000_0000 + 4) % 0x1_0000_0000
  }

  /** That is ((dwBase & 0x1FFFFFFF) | 0x80000000) + 4. */
  lemma EntryBits(dwBase: bv32)
    ensures EntryOf(dwBase as int) == ((dwBase & 0x1FFF_FFFF) | 0x8000_0000) as int + 4
  {
    PhysicalPart(dwBase);
    InAliasP1(dwBase & 0x1FFF_FFFF);
    EntryValue(dwBase as int);
  }

  lemma EntryValue(pa: Dword)
    ensures EntryOf(pa) == pa % PHYS + 0x8000_0004
  {
  }

  lemma InAliasP1(pa: bv32)
    requires pa < 0x2000_0000
    ensures (pa | 0x8000_0000) as int == pa as int + 0x8000_0000
  {
  }

  /** The page tables and the descriptor of BootIeImage; tables[k] is the physical word where the page for table k lies. */
  method BuildTables(mem: array<Dword>, pfnTmp: seq<Dword>, shift: nat, tables: seq<nat>, d: nat, dwBase: Dword)
    requires mem.Length == WORDS && Placed(d, tables) && |tables| == TableCount(|pfnTmp|)
    requires |pfnTmp| <= MAXPFNPG * PAGE_WORDS && dwBase % 4 == 0
    modifies mem
    ensures Describes(mem[..], d, WordAt(dwBase), |pfnTmp|, EntryOf(dwBase), tables)
    ensures Lists(mem[..], tables, Shifted(pfnTmp, shift))
    ensures d + 12 <= WORDS && mem[d + SRMASK] == 0x1000_00F0
    ensures Untouched(old(mem[..]), mem[..], d, tables)
  {
    hide Quot, Rem, Shl, Alias, WordAt, Placed, Built, Shifted, P2, EntryOf, Lists;
    ghost var m0 := mem[..];
    PlacedBounds(d, tables);
    var nPages, nPfnPg := |pfnTmp|, |tables|;
    var k := 0;
    TablesCover(nPages);
    NothingBuilt(m0, tables, pfnTmp, shift, d);
    while k < nPfnPg
      invariant k <= nPfnPg && Built(m0, mem[..], tables, pfnTmp, shift, d, if k * 1024 < nPages then k * 1024 else nPages)
      invariant forall j :: 0 <= j < k ==> mem[d + APFNPG + j] == Alias(tables[j])
    {
      var cnt := nPages - k * 1024;
      if cnt > 1024 {
        cnt := 1024;
      }
      FillTable(mem, pfnTmp, shift, tables, k, cnt, d, m0);
      SetField(mem, d, APFNPG + k, Alias(tables[k]), m0, tables, pfnTmp, shift, k * 1024 + cnt);
      k := k + 1;
    }
    DestinationAlias(dwBase);
    SetField(mem, d, DST, P2(dwBase), m0, tables, pfnTmp, shift, nPages);
    SetField(mem, d, NPAGES, nPages, m0, tables, pfnTmp, shift, nPages);
    SetField(mem, d, ENTRY, EntryOf(dwBase), m0, tables, pfnTmp, shift, nPages);
    SetField(mem, d, SRMASK, 0x1000_00F0, m0, tables, pfnTmp, shift, nPages);
    BuiltLists(m0, mem[..], tables, pfnTmp, shift, d);
  }

  lemma BuiltLists(m0: seq<Dword>, m: seq<Dword>, tables: seq<nat>, pfn: seq<Dword>, shift: nat, d: nat)
    requires Placed(d, tables) && Built(m0, m, tables, pfn, shift, d, |pfn|) && |tables| == TableCount(|pfn|)
    ensures Lists(m, tables, Shifted(pfn, shift)) && Untouched(m0, m, d, tables)
  {
    hide Quot, Rem, Shl;
    var src := Shifted(pfn, shift);
    forall i | 0 <= i < |src|
      ensures Quot(i, PAGE_WORDS) < |tables| && m[tables[Quot(i, PAGE_WORDS)] + Rem(i, PAGE_WORDS)] == src[i]
    {
      var p := pfn[i];
    }
  }

  lemma DestinationAlias(pa: Dword)
    requires pa % 4 == 0
    ensures P2(pa) == Alias(WordAt(pa))
  {
  }

  lemma TablesCover(n: nat)
    ensures n <= TableCount(n) * 1024 < n + 1024
  {
    Split(n + 1023, PAGE_WORDS);
  }

  lemma {:induction false} FilledOne(m: seq<Dword>, tables: seq<nat>, pfn: seq<Dword>, shift: nat, d: nat, k: nat, i: nat)
    requires Placed(d, tables) && k < |tables| && i < 1024 && k * 1024 + i < |pfn|
    requires Filled(m, tables, pfn, shift, k * 1024 + i)
    ensures Filled(m[tables[k] + i := Shl(pfn[k * 1024 + i], shift)], tables, pfn, shift, k * 1024 + i + 1)
  {
    hide Quot, Rem, Shl;
    var e := k * 1024 + i;
    Join(e, PAGE_WORDS, k, i);
    forall a | 0 <= a < e
      ensures Quot(a, PAGE_WORDS) < |tables| && tables[Quot(a, PAGE_WORDS)] + Rem(a, PAGE_WORDS) != tables[k] + i
    {
      var p := pfn[a];
      Split(a, PAGE_WORDS);
      var b := Quot(a, PAGE_WORDS);
      if b < k {
        assert Apart(tables[b], PAGE_WORDS, tables[k], PAGE_WORDS);
      }
    }
  }

  /** A change of descriptor words leaves the tables. */
  lemma {:induction false} FilledStays(m: seq<Dword>, n: seq<Dword>, tables: seq<nat>, pfn: seq<Dword>, shift: nat, d: nat, e: nat)
    requires Placed(d, tables) && Filled(m, tables, pfn, shift, e) && |n| == |m| == WORDS
    requires forall j :: 0 <= j < |m| && !(d <= j < d + APFNPG + MAXPFNPG) ==> n[j] == m[j]
    ensures Filled(n, tables, pfn, shift, e)
  {
    hide Quot, Shl;
    forall a | 0 <= a < e
      ensures Quot(a, PAGE_WORDS) < |tables| && tables[Quot(a, PAGE_WORDS)] + Rem(a, PAGE_WORDS) < WORDS
      ensures n[tables[Quot(a, PAGE_WORDS)] + Rem(a, PAGE_WORDS)] == m[tables[Quot(a, PAGE_WORDS)] + Rem(a, PAGE_WORDS)]
    {
      var p := pfn[a];
      assert Apart(tables[Quot(a, PAGE_WORDS)], PAGE_WORDS, d, APFNPG + MAXPFNPG);
    }
  }
}
