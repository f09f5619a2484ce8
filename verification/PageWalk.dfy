/**
 * When the SH-4 loop copies an image right: exactly when it reads every descriptor word,
 * table word and source page before it writes there.
 */
module PageWalk {
  import opened Arith
  import opened Bytes
  import opened Trampoline

  // ---- the order of reads and writes

  /** The word of entry i in the page tables. */
  function EntryWord(tables: seq<nat>, i: nat): nat
    requires Quot(i, PAGE_WORDS) < |tables|
  {
    tables[Quot(i, PAGE_WORDS)] + Rem(i, PAGE_WORDS)
  }

  /** Word a is not in the first n pages of the destination. */
  predicate Unwritten(dst: nat, n: nat, a: nat) {
    !(dst <= a < dst + PAGE_WORDS * n)
  }

  /** A page at word s that is copied as page i of the destination: it may be that page itself, or lie further on. */
  predicate PageInTime(dst: nat, i: nat, s: nat) {
    Apart(dst, PAGE_WORDS * i, s, PAGE_WORDS)
  }

  /** Round i reads its descriptor word, its entry and its page before they are overwritten. */
  predicate InTime(d: nat, dst: nat, tables: seq<nat>, src: seq<Dword>, i: nat)
    requires i < |src| && Quot(i, PAGE_WORDS) < |tables|
  {
    && PageInTime(dst, i, src[i] / 4)
    && Unwritten(dst, i, EntryWord(tables, i))
    && (Rem(i, PAGE_WORDS) == 0 ==> Unwritten(dst, i, d + APFNPG + Quot(i, PAGE_WORDS)))
  }

  /** All rounds do. */
  ghost predicate Ordered(d: nat, dst: nat, tables: seq<nat>, src: seq<Dword>) {
    forall i :: 0 <= i < |src| ==> Quot(i, PAGE_WORDS) < |tables| && InTime(d, dst, tables, src, i)
  }

  /** The image and its destination are pages of memory. */
  ghost predicate Fits(dst: nat, src: seq<Dword>) {
    && |src| > 0 && dst + PAGE_WORDS * |src| <= WORDS
    && forall i :: 0 <= i < |src| ==> IsPage(src[i])
  }

  /** Descriptor, tables and list as BootIeImage leaves them. */
  ghost predicate Prepared(m: seq<Dword>, d: nat, dst: nat, entry: Dword, tables: seq<nat>, src: seq<Dword>) {
    Describes(m, d, dst, |src|, entry, tables) && Lists(m, tables, src) && Fits(dst, src)
  }

  /** The first n pages of src, as m has them, are at dst in now, and nothing else differs. */
  ghost predicate Copied(m: seq<Dword>, now: seq<Dword>, dst: nat, src: seq<Dword>, n: nat) {
    && |now| == |m| == WORDS && n <= |src| && Fits(dst, src)
    && (forall i {:trigger src[i]} :: 0 <= i < n ==> PageAt(now, dst + PAGE_WORDS * i) == PageAt(m, src[i] / 4))
    && forall j :: 0 <= j < WORDS && Unwritten(dst, n, j) ==> now[j] == m[j]
  }

  // ---- one page

  /** c words of the page at s are at t, and nothing else differs. */
  ghost predicate Moved(was: seq<Dword>, now: seq<Dword>, s: nat, t: nat, c: nat) {
    && |was| == |now| == WORDS && s + PAGE_WORDS <= WORDS && t + PAGE_WORDS <= WORDS && c <= PAGE_WORDS
    && forall j {:trigger now[j]} :: 0 <= j < WORDS ==> now[j] == if t <= j < t + c then was[j - t + s] else was[j]
  }

  lemma MoveOne(was: seq<Dword>, now: seq<Dword>, s: nat, t: nat, c: nat)
    requires Moved(was, now, s, t, c) && c < PAGE_WORDS && !(s < t < s + PAGE_WORDS)
    ensures Moved(was, now[t + c := now[s + c]], s, t, c + 1)
  {
    var n := now[t + c := now[s + c]];
    assert now[s + c] == was[s + c];
    forall j | 0 <= j < WORDS
      ensures n[j] == if t <= j < t + (c + 1) then was[j - t + s] else was[j]
    {
      if j != t + c {
        assert n[j] == now[j];
      }
    }
  }

  /** A page that is read in time arrives as it was. */
  lemma {:induction false} PageArrives(m: seq<Dword>, s: nat, t: nat, c: nat)
    requires |m| == WORDS && s + PAGE_WORDS <= WORDS && t + PAGE_WORDS <= WORDS && c <= PAGE_WORDS && !(s < t < s + PAGE_WORDS)
    ensures Moved(m, CopyWords(m, Alias(s), Alias(t), c), s, t, c)
    decreases c
  {
    hide WordAt, Alias;
    if c > 0 {
      PageArrives(m, s, t, c - 1);
      AliasNext(s, c - 1);
      AliasNext(t, c - 1);
      MoveOne(m, CopyWords(m, Alias(s), Alias(t), c - 1), s, t, c - 1);
    }
  }

  lemma AliasNext(w: nat, c: nat)
    requires w + c < WORDS
    ensures WordAt(Alias(w) + 4 * c) == w + c
  {
  }

  /** Copying c words to t writes nowhere else, whatever it reads. */
  lemma {:induction false} CopyWrites(m: seq<Dword>, r1: nat, t: nat, c: nat)
    requires |m| == WORDS && t + PAGE_WORDS <= WORDS && c <= PAGE_WORDS
    ensures forall j :: 0 <= j < WORDS && !(t <= j < t + c) ==> CopyWords(m, r1, Alias(t), c)[j] == m[j]
    decreases c
  {
    hide WordAt, Alias;
    if c > 0 {
      CopyWrites(m, r1, t, c - 1);
      AliasNext(t, c - 1);
    }
  }

  lemma PageSame(m: seq<Dword>, s: nat, now: seq<Dword>, t: nat)
    requires s + PAGE_WORDS <= |m| && t + PAGE_WORDS <= |now| && forall j {:trigger now[j]} :: t <= j < t + PAGE_WORDS ==> now[j] == m[j - t + s]
    ensures PageAt(now, t) == PageAt(m, s)
  {
    forall w | 0 <= w < PAGE_WORDS
      ensures PageAt(now, t)[w] == PageAt(m, s)[w]
    {
      assert now[t + w] == m[t + w - t + s];
    }
  }

  /** One more page. */
  lemma MorePages(m: seq<Dword>, was: seq<Dword>, now: seq<Dword>, dst: nat, src: seq<Dword>, i: nat)
    requires Copied(m, was, dst, src, i) && i < |src| && PageInTime(dst, i, src[i] / 4)
    requires Moved(was, now, src[i] / 4, dst + PAGE_WORDS * i, PAGE_WORDS)
    ensures Copied(m, now, dst, src, i + 1)
  {
    hide PageAt;
    var r, t := src[i] / 4, dst + PAGE_WORDS * i;
    forall j | t <= j < t + PAGE_WORDS
      ensures now[j] == m[j - t + r]
    {
      assert Unwritten(dst, i, j - t + r);
    }
    PageSame(m, r, now, t);
    forall a | 0 <= a < i
      ensures PageAt(now, dst + PAGE_WORDS * a) == PageAt(m, src[a] / 4)
    {
      var p := src[a];
      PageSame(was, dst + PAGE_WORDS * a, now, dst + PAGE_WORDS * a);
    }
  }

  lemma NoPages(m: seq<Dword>, dst: nat, src: seq<Dword>)
    requires |m| == WORDS && Fits(dst, src)
    ensures Copied(m, m, dst, src, 0)
  {
  }

  /** A word that is still as it was. */
  lemma StillThere(m: seq<Dword>, now: seq<Dword>, dst: nat, src: seq<Dword>, n: nat, a: nat)
    requires Copied(m, now, dst, src, n) && a < WORDS && Unwritten(dst, n, a)
    ensures now[a] == m[a]
  {
  }

  /** What the list says about round i. */
  lemma EntryFacts(m: seq<Dword>, d: nat, dst: nat, entry: Dword, tables: seq<nat>, src: seq<Dword>, i: nat)
    requires Prepared(m, d, dst, entry, tables, src) && i < |src|
    ensures var k := Quot(i, PAGE_WORDS);
            && k < |tables| <= 8 && tables[k] + PAGE_WORDS <= WORDS && d + APFNPG + k < WORDS == |m|
            && m[d + APFNPG + k] == Alias(tables[k]) && m[EntryWord(tables, i)] == src[i]
            && dst < WORDS && m[d] == Alias(dst) && d + 12 <= WORDS
            && IsPage(src[i]) && src[i] / 4 + PAGE_WORDS <= WORDS && P2(src[i]) == Alias(src[i] / 4)
            && dst + PAGE_WORDS * i + PAGE_WORDS <= WORDS
  {
    PageInside(src[i]);
  }

  lemma PageInside(pa: Dword)
    requires IsPage(pa)
    ensures pa / 4 + PAGE_WORDS <= WORDS && P2(pa) == Alias(pa / 4) && WordAt(pa) == pa / 4
  {
  }

  // ---- the rounds

  /** The loop's pointers before round i: at the destination of page i, and behind entry i - 1. */
  ghost predicate At(s: Machine, dst: nat, tables: seq<nat>, i: nat) {
    && s.r2 == P2BASE + 4 * (dst + PAGE_WORDS * i)
    && (i > 0 ==> Quot(i - 1, PAGE_WORDS) < |tables| && s.r5 == P2BASE + 4 * (EntryWord(tables, i - 1) + 1))
  }

  /** Behind entry i - 1 is entry i, unless a new table starts. */
  lemma NextEntry(s: Machine, dst: nat, tables: seq<nat>, i: nat)
    requires At(s, dst, tables, i) && i > 0 && Rem(i, PAGE_WORDS) != 0
    ensures Quot(i, PAGE_WORDS) < |tables| && s.r5 == P2BASE + 4 * EntryWord(tables, i)
  {
    QuotRemStep(i - 1, PAGE_WORDS);
  }

  /** Where round i finds its entry: the pointer r5 that it uses, when the descriptor word is intact. */
  lemma RoundPointer(m: seq<Dword>, s: Machine, d: nat, dst: nat, entry: Dword, tables: seq<nat>, src: seq<Dword>, i: nat)
    requires Prepared(m, d, dst, entry, tables, src) && i < |src| && At(s, dst, tables, i) && Copied(m, s.mem, dst, src, i)
    requires Quot(i, PAGE_WORDS) < |tables|
    requires Rem(i, PAGE_WORDS) == 0 ==> Unwritten(dst, i, d + APFNPG + Quot(i, PAGE_WORDS))
    ensures d < WORDS == |s.mem|
    ensures (if Rem(i, PAGE_WORDS) == 0 then s.mem[WordAt(Alias(d) + 16 + 4 * Quot(i, PAGE_WORDS))] else s.r5) == P2BASE + 4 * EntryWord(tables, i)
    ensures WordAt(P2BASE + 4 * EntryWord(tables, i)) == EntryWord(tables, i) < WORDS
  {
    hide Quot, Rem, Copied, Prepared, Describes, Lists, Fits, P2;
    EntryFacts(m, d, dst, entry, tables, src, i);
    CopiedSize(m, s.mem, dst, src, i);
    var k := Quot(i, PAGE_WORDS);
    AliasNext(EntryWord(tables, i), 0);
    if Rem(i, PAGE_WORDS) == 0 {
      StillThere(m, s.mem, dst, src, i, d + APFNPG + k);
      AliasNext(d, 4 + k);
    } else {
      assert i > 0 by {
        ZeroRem();
      }
      NextEntry(s, dst, tables, i);
    }
  }

  lemma ZeroRem()
    ensures Rem(0, PAGE_WORDS) == 0
  {
  }

  /** A round that is in time copies its page. */
  lemma RoundCopies(m: seq<Dword>, s: Machine, d: nat, dst: nat, entry: Dword, tables: seq<nat>, src: seq<Dword>, i: nat)
    requires Prepared(m, d, dst, entry, tables, src) && i < |src| && At(s, dst, tables, i) && Copied(m, s.mem, dst, src, i)
    requires Quot(i, PAGE_WORDS) < |tables| && InTime(d, dst, tables, src, i)
    ensures d < WORDS && |s.mem| == WORDS
    ensures At(Round(s, Alias(d), i), dst, tables, i + 1) && Copied(m, Round(s, Alias(d), i).mem, dst, src, i + 1)
  {
    hide Quot, Rem, Copied, Prepared, Describes, Lists, Fits, P2, CopyWords, IsPage, WordAt, PageInTime, Moved;
    EntryFacts(m, d, dst, entry, tables, src, i);
    RoundPointer(m, s, d, dst, entry, tables, src, i);
    StillThere(m, s.mem, dst, src, i, EntryWord(tables, i));
    PageTimely(dst, i, src[i] / 4);
    PageArrives(s.mem, src[i] / 4, dst + PAGE_WORDS * i, PAGE_WORDS);
    MorePages(m, s.mem, Round(s, Alias(d), i).mem, dst, src, i);
  }

  lemma CopiedSize(m: seq<Dword>, now: seq<Dword>, dst: nat, src: seq<Dword>, n: nat)
    requires Copied(m, now, dst, src, n)
    ensures |now| == |m| == WORDS
  {
  }

  lemma PageTimely(dst: nat, i: nat, s: nat)
    requires PageInTime(dst, i, s)
    ensures !(s < dst + PAGE_WORDS * i < s + PAGE_WORDS)
  {
  }

  /** As long as the rounds are in time, they copy the image. */
  lemma {:induction false} RoundsCopy(m: seq<Dword>, d: nat, dst: nat, entry: Dword, tables: seq<nat>, src: seq<Dword>, n: nat)
    requires Prepared(m, d, dst, entry, tables, src) && n <= |src|
    requires forall i :: 0 <= i < n ==> Quot(i, PAGE_WORDS) < |tables| && InTime(d, dst, tables, src, i)
    ensures d < WORDS && |m| == WORDS
    ensures At(After(m, Alias(d), n), dst, tables, n) && Copied(m, After(m, Alias(d), n).mem, dst, src, n)
    decreases n
  {
    hide Quot, Rem, Copied, Prepared, Round, InTime;
    EntryFacts(m, d, dst, entry, tables, src, 0) by {
      PreparedSome(m, d, dst, entry, tables, src);
    }
    if n == 0 {
      NoPages(m, dst, src) by {
        PreparedSome(m, d, dst, entry, tables, src);
      }
      AliasNext(d, 0);
    } else {
      RoundsCopy(m, d, dst, entry, tables, src, n - 1);
      RoundCopies(m, After(m, Alias(d), n - 1), d, dst, entry, tables, src, n - 1);
    }
  }

  lemma PreparedSome(m: seq<Dword>, d: nat, dst: nat, entry: Dword, tables: seq<nat>, src: seq<Dword>)
    requires Prepared(m, d, dst, entry, tables, src)
    ensures |src| > 0 && |m| == WORDS && d < WORDS && Fits(dst, src)
  {
  }
}
