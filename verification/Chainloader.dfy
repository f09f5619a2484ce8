/** The chainloader as a whole: the tables that C builds, walked by the SH-4 loop. */
module Chainloader {
  import opened Arith
  import opened Bytes
  import opened Trampoline
  import opened PageWalk
  import opened PageOrder

  /** Page i of the image of m is page i of the destination in now. */
  ghost predicate Loaded(m: seq<Dword>, now: seq<Dword>, dst: nat, src: seq<Dword>) {
    && |m| == |now| == WORDS && Fits(dst, src)
    && forall i {:trigger src[i]} :: 0 <= i < |src| ==> PageCopied(m, now, dst, src, i)
  }

  /** Building the tables and running the trampoline loads every image whose pages are read before they are overwritten. */
  method BootImage(mem: array<Dword>, pfnTmp: seq<Dword>, shift: nat, tables: seq<nat>, d: nat, dwBase: Dword) returns (entry: Dword)
    requires mem.Length == WORDS && Placed(d, tables) && |tables| == TableCount(|pfnTmp|)
    requires |pfnTmp| <= MAXPFNPG * PAGE_WORDS && dwBase % 4 == 0
    requires Fits(WordAt(dwBase), Shifted(pfnTmp, shift)) && SourcesKept(d, tables, Shifted(pfnTmp, shift))
    modifies mem
    ensures entry == EntryOf(dwBase)
    ensures Ordered(d, WordAt(dwBase), tables, Shifted(pfnTmp, shift)) ==>
              Loaded(old(mem[..]), mem[..], WordAt(dwBase), Shifted(pfnTmp, shift))
  {
    hide Quot, Rem, Shl, Describes, Lists, Ordered, Shifted, Placed, SourcesKept, Fits, After, WordAt, EntryOf, CopiesRight, Loaded, P2;
    ghost var m0, src, dst := mem[..], Shifted(pfnTmp, shift), WordAt(dwBase);
    BuildTables(mem, pfnTmp, shift, tables, d, dwBase);
    ghost var m1 := mem[..];
    DescriptorWords(m1, d, dst, |src|, EntryOf(dwBase), tables, src);
    entry := Chainload(mem, Alias(d));
    if Ordered(d, dst, tables, src) {
      OrderedCopies(m1, d, dst, EntryOf(dwBase), tables, src);
      SourcesLoaded(m0, m1, d, dst, tables, src);
    }
  }

  lemma DescriptorWords(m: seq<Dword>, d: nat, dst: nat, n: nat, entry: Dword, tables: seq<nat>, src: seq<Dword>)
    requires Describes(m, d, dst, n, entry, tables) && Fits(dst, src) && n == |src| && Lists(m, tables, src)
    ensures d + 3 <= WORDS == |m| && Prepared(m, d, dst, entry, tables, src)
    ensures m[WordAt(Alias(d) + 4)] == n > 0 && m[WordAt(Alias(d) + 8)] == entry
  {
    AliasNext(d, 1);
    AliasNext(d, 2);
  }

  /** Building the tables leaves the image, so what the loop copies is the image that was there before. */
  lemma SourcesLoaded(m0: seq<Dword>, m1: seq<Dword>, d: nat, dst: nat, tables: seq<nat>, src: seq<Dword>)
    requires |m0| == |m1| == WORDS && d < WORDS && Fits(dst, src) && SourcesKept(d, tables, src) && Untouched(m0, m1, d, tables)
    requires CopiesRight(m1, d, dst, src)
    ensures Loaded(m0, After(m1, Alias(d), |src|).mem, dst, src)
  {
    hide SourcesKept, Untouched, After;
    forall i | 0 <= i < |src|
      ensures PageCopied(m0, After(m1, Alias(d), |src|).mem, dst, src, i)
    {
      var p := src[i];
      PageInside(p);
      SourceKept(m0, m1, d, tables, src, i);
    }
  }

  lemma {:induction false} SourceKept(m0: seq<Dword>, m1: seq<Dword>, d: nat, tables: seq<nat>, src: seq<Dword>, i: nat)
    requires SourcesKept(d, tables, src) && i < |src| && src[i] / 4 + PAGE_WORDS <= |m0| && Untouched(m0, m1, d, tables)
    ensures PageAt(m0, src[i] / 4) == PageAt(m1, src[i] / 4)
  {
    forall j | src[i] / 4 <= j < src[i] / 4 + PAGE_WORDS
      ensures Elsewhere(j, d, tables)
    {
      forall k | 0 <= k < |tables|
        ensures !(tables[k] <= j < tables[k] + PAGE_WORDS)
      {
        assert Apart(src[i] / 4, PAGE_WORDS, tables[k], PAGE_WORDS);
      }
    }
    assert forall w :: 0 <= w < PAGE_WORDS ==> PageAt(m0, src[i] / 4)[w] == PageAt(m1, src[i] / 4)[w];
  }

  // ---- the load address of the image

  const LOAD_BASE: Dword := 0x0C01_0000
  const ROOM: nat := 1520 // pages from the load base to where page frames are accepted

  /** A word whose page lies where ShiftOf accepts page frames. */
  predicate WordInRam(w: nat) {
    0x0C60_0000 <= 4 * w && 4 * w + 4 * PAGE_WORDS <= 0x0D00_0000
  }

  /** Those are the pages of the addresses that ShiftOf accepts. */
  lemma RamPages(w: nat)
    ensures WordInRam(w) <==> 4 * w + 4095 < 0x1_0000_0000 && InRam(4 * w) && InRam(4 * w + 4095)
  {
  }

  /** An image of up to 1520 pages is loaded right wherever in that window its pages, tables and descriptor lie. */
  lemma {:induction false} SmallImageIsOrdered(d: nat, tables: seq<nat>, src: seq<Dword>)
    requires |src| <= ROOM && WordInRam(d) && |tables| == TableCount(|src|)
    requires forall k :: 0 <= k < |tables| ==> WordInRam(tables[k])
    requires forall i :: 0 <= i < |src| ==> src[i] % 4 == 0 && WordInRam(src[i] / 4)
    ensures Ordered(d, WordAt(LOAD_BASE), tables, src)
  {
    hide Quot, Rem;
    assert WordAt(LOAD_BASE) == 0x0300_4000;
    TablesCover(|src|);
    forall i | 0 <= i < |src|
      ensures Quot(i, PAGE_WORDS) < |tables| && InTime(d, WordAt(LOAD_BASE), tables, src, i)
    {
      var p := src[i];
      QuotBelow(i, PAGE_WORDS, |tables|);
      assert WordInRam(tables[Quot(i, PAGE_WORDS)]);
    }
  }

  /** A longer image with the first page of that window behind its first 1521 pages is not: BootIeImage does not check. */
  lemma {:induction false} LargeImageIsLate(d: nat, tables: seq<nat>, src: seq<Dword>, i: nat)
    requires ROOM < i < |src| && src[i] == 0x0C60_0000
    ensures !Ordered(d, WordAt(LOAD_BASE), tables, src)
  {
    assert WordAt(LOAD_BASE) == 0x0300_4000;
    assert Ordered(d, WordAt(LOAD_BASE), tables, src) ==> InTime(d, WordAt(LOAD_BASE), tables, src, i);
  }
}
