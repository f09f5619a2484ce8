/**
 * The order of reads and writes is not only sufficient: when a read comes too late, some
 * image is copied wrongly. The image that shows it holds one value everywhere except
 * for one word.
 */
module PageOrder {
  import opened Arith
  import opened Bytes
  import opened Trampoline
  import opened PageWalk

  predicate OnPage(src: seq<Dword>, i: nat, j: nat)
    requires i < |src|
  {
    src[i] / 4 <= j < src[i] / 4 + PAGE_WORDS
  }

  /** Word j belongs to the image. */
  ghost predicate InPages(src: seq<Dword>, j: nat) {
    exists i :: 0 <= i < |src| && OnPage(src, i, j)
  }

  /** The operating system hands out each page once. */
  ghost predicate PagesApart(src: seq<Dword>) {
    forall i, j :: 0 <= i < j < |src| ==> Apart(src[i] / 4, PAGE_WORDS, src[j] / 4, PAGE_WORDS)
  }

  /** No page of the image holds the descriptor or a table. */
  ghost predicate SourcesKept(d: nat, tables: seq<nat>, src: seq<Dword>) {
    forall i :: 0 <= i < |src| ==>
      && Apart(src[i] / 4, PAGE_WORDS, d, APFNPG + MAXPFNPG)
      && forall k :: 0 <= k < |tables| ==> Apart(src[i] / 4, PAGE_WORDS, tables[k], PAGE_WORDS)
  }

  /** m and c differ in the image only. */
  ghost predicate OtherImage(m: seq<Dword>, c: seq<Dword>, src: seq<Dword>) {
    |c| == |m| && forall j {:trigger c[j]} :: 0 <= j < |m| && !InPages(src, j) ==> c[j] == m[j]
  }

  /** The loop leaves every page of the image of m where it belongs. */
  ghost predicate CopiesRight(m: seq<Dword>, d: nat, dst: nat, src: seq<Dword>)
    requires |m| == WORDS && d < WORDS && Fits(dst, src)
  {
    forall i {:trigger src[i]} :: 0 <= i < |src| ==> PageCopied(m, After(m, Alias(d), |src|).mem, dst, src, i)
  }

  ghost predicate PageCopied(m: seq<Dword>, now: seq<Dword>, dst: nat, src: seq<Dword>, i: nat)
    requires |m| == |now| == WORDS && Fits(dst, src) && i < |src|
  {
    PageInside(src[i]);
    PageAt(now, dst + PAGE_WORDS * i) == PageAt(m, src[i] / 4)
  }

  /** What was prepared for one image is prepared for every other. */
  lemma OtherPrepared(m: seq<Dword>, c: seq<Dword>, d: nat, dst: nat, entry: Dword, tables: seq<nat>, src: seq<Dword>)
    requires Prepared(m, d, dst, entry, tables, src) && OtherImage(m, c, src) && SourcesKept(d, tables, src)
    ensures Prepared(c, d, dst, entry, tables, src)
  {
    hide Quot, Rem, IsPage;
    assert Describes(c, d, dst, |src|, entry, tables) by {
      forall j | d <= j < d + APFNPG + MAXPFNPG
        ensures c[j] == m[j]
      {
        OffImage(d, tables, src, j);
      }
      assert c[d + DST] == m[d + DST] && c[d + NPAGES] == m[d + NPAGES] && c[d + ENTRY] == m[d + ENTRY];
      forall k | 0 <= k < |tables|
        ensures c[d + APFNPG + k] == Alias(tables[k])
      {
        assert m[d + APFNPG + k] == Alias(tables[k]);
      }
    }
    forall i | 0 <= i < |src|
      ensures Quot(i, PAGE_WORDS) < |tables| && c[tables[Quot(i, PAGE_WORDS)] + Rem(i, PAGE_WORDS)] == src[i]
    {
      var j := tables[Quot(i, PAGE_WORDS)] + Rem(i, PAGE_WORDS);
      OffImage(d, tables, src, j);
      assert m[j] == src[i] && c[j] == m[j];
    }
  }

  /** A word of the descriptor or of a table is not in the image. */
  lemma OffImage(d: nat, tables: seq<nat>, src: seq<Dword>, j: nat)
    requires SourcesKept(d, tables, src)
    requires d <= j < d + APFNPG + MAXPFNPG || exists k :: 0 <= k < |tables| && tables[k] <= j < tables[k] + PAGE_WORDS
    ensures !InPages(src, j)
  {
    forall i | 0 <= i < |src|
      ensures !OnPage(src, i, j)
    {
      assert Apart(src[i] / 4, PAGE_WORDS, d, APFNPG + MAXPFNPG);
      if !(d <= j < d + APFNPG + MAXPFNPG) {
        var k :| 0 <= k < |tables| && tables[k] <= j < tables[k] + PAGE_WORDS;
        assert Apart(src[i] / 4, PAGE_WORDS, tables[k], PAGE_WORDS);
      }
    }
  }

  // ---- the image that shows a late read

  /** m with z all over the image, except for v at word a. */
  ghost function Painted(m: seq<Dword>, src: seq<Dword>, a: nat, z: Dword, v: Dword): (c: seq<Dword>)
    ensures |c| == |m|
    ensures forall j {:trigger c[j]} :: 0 <= j < |m| ==> c[j] == if j == a then v else if InPages(src, j) then z else m[j]
  {
    seq(|m|, j requires 0 <= j < |m| => if j == a then v else if InPages(src, j) then z else m[j])
  }

  /** z in the first n words of the destination, and all over the image except at word a. */
  ghost predicate Stained(now: seq<Dword>, dst: nat, n: nat, src: seq<Dword>, a: nat, z: Dword) {
    && |now| == WORDS
    && forall j {:trigger now[j]} :: 0 <= j < WORDS && (dst <= j < dst + n || (InPages(src, j) && j != a)) ==> now[j] == z
  }

  /** Where a copied word comes from. */
  lemma CopiedWord(m: seq<Dword>, now: seq<Dword>, dst: nat, src: seq<Dword>, n: nat, j: nat) returns (q: nat, p: nat)
    requires Copied(m, now, dst, src, n) && dst <= j < dst + PAGE_WORDS * n
    ensures q < n <= |src| && OnPage(src, q, p) && p < WORDS == |m| && j < WORDS == |now| && now[j] == m[p]
  {
    q := (j - dst) / PAGE_WORDS;
    var w := (j - dst) % PAGE_WORDS;
    var a := src[q];
    PageInside(a);
    p := a / 4 + w;
    assert PageAt(now, dst + PAGE_WORDS * q)[w] == PageAt(m, a / 4)[w];
  }

  /** The pages copied so far are all z. */
  lemma StainedBefore(m: seq<Dword>, now: seq<Dword>, dst: nat, src: seq<Dword>, i: nat, a: nat, z: Dword, v: Dword)
    requires |m| == WORDS && i < |src| && PagesApart(src) && OnPage(src, i, a)
    requires Copied(Painted(m, src, a, z, v), now, dst, src, i)
    ensures Stained(now, dst, PAGE_WORDS * i, src, a, z)
  {
    hide Copied;
    var c := Painted(m, src, a, z, v);
    CopiedSize(c, now, dst, src, i);
    forall j | 0 <= j < WORDS && (dst <= j < dst + PAGE_WORDS * i || (InPages(src, j) && j != a))
      ensures now[j] == z
    {
      if dst <= j < dst + PAGE_WORDS * i {
        var q, p := CopiedWord(c, now, dst, src, i, j);
        assert InPages(src, p);
        assert Apart(src[q] / 4, PAGE_WORDS, src[i] / 4, PAGE_WORDS);
        assert c[p] == z;
      } else {
        StillThere(c, now, dst, src, i, j);
        assert c[j] == z;
      }
    }
  }

  /** z is copied to wherever a page full of z goes. */
  lemma {:induction false} StainSpreads(m: seq<Dword>, s: nat, t: nat, c: nat, z: Dword)
    requires |m| == WORDS && s + PAGE_WORDS <= WORDS && t + PAGE_WORDS <= WORDS && c <= PAGE_WORDS
    requires forall j {:trigger m[j]} :: s <= j < s + PAGE_WORDS ==> m[j] == z
    ensures var n := CopyWords(m, Alias(s), Alias(t), c);
            && (forall j {:trigger n[j]} :: s <= j < s + PAGE_WORDS || t <= j < t + c ==> n[j] == z)
    decreases c
  {
    hide WordAt, Alias;
    if c > 0 {
      StainSpreads(m, s, t, c - 1, z);
      AliasNext(s, c - 1);
      AliasNext(t, c - 1);
      CopyOneMore(m, Alias(s), Alias(t), c - 1);
    } else {
      assert CopyWords(m, Alias(s), Alias(t), 0) == m;
    }
  }

  /** So it is when the only other word of the page is where the first one goes. */
  lemma {:induction false} StainOverlaps(m: seq<Dword>, s: nat, t: nat, c: nat, z: Dword)
    requires |m| == WORDS && s + PAGE_WORDS <= WORDS && t + PAGE_WORDS <= WORDS && 1 <= c <= PAGE_WORDS && s < t < s + PAGE_WORDS
    requires forall j {:trigger m[j]} :: s <= j < s + PAGE_WORDS && j != t ==> m[j] == z
    ensures var n := CopyWords(m, Alias(s), Alias(t), c);
            && (forall j {:trigger n[j]} :: s <= j < s + PAGE_WORDS || t <= j < t + c ==> n[j] == z)
    decreases c
  {
    hide WordAt, Alias;
    AliasNext(s, c - 1);
    AliasNext(t, c - 1);
    CopyOneMore(m, Alias(s), Alias(t), c - 1);
    if c > 1 {
      StainOverlaps(m, s, t, c - 1, z);
    } else {
      assert CopyWords(m, Alias(s), Alias(t), 0) == m;
    }
  }

  // ---- later rounds

  lemma {:induction false} PointerAfter(m: seq<Dword>, d: nat, dst: nat, n: nat)
    requires |m| == WORDS && d < WORDS && dst < WORDS && m[d] == Alias(dst)
    ensures After(m, Alias(d), n).r2 == P2BASE + 4 * (dst + PAGE_WORDS * n)
    decreases n
  {
    hide WordAt, CopyWords, P2;
    if n == 0 {
      AliasNext(d, 0);
    } else {
      PointerAfter(m, d, dst, n - 1);
    }
  }

  /** A page that has been written stays. */
  lemma {:induction false} PageStays(m: seq<Dword>, d: nat, dst: nat, i: nat, n: nat, j: nat)
    requires |m| == WORDS && d < WORDS && dst < WORDS && m[d] == Alias(dst)
    requires i <= n && dst + PAGE_WORDS * n <= WORDS && dst <= j < dst + PAGE_WORDS * i
    ensures After(m, Alias(d), n).mem[j] == After(m, Alias(d), i).mem[j]
    decreases n - i
  {
    hide WordAt, P2, CopyWords;
    if i < n {
      PageStays(m, d, dst, i, n - 1, j);
      PointerAfter(m, d, dst, n - 1);
      var s := After(m, Alias(d), n - 1);
      var r5 := if Rem(n - 1, PAGE_WORDS) == 0 then s.mem[WordAt(Alias(d) + 16 + 4 * Quot(n - 1, PAGE_WORDS))] else s.r5;
      CopyWrites(s.mem, P2(s.mem[WordAt(r5)]), dst + PAGE_WORDS * (n - 1), PAGE_WORDS);
    }
  }

  // ---- a round that is not in time

  /** The loop finds its entry too late in round i. */
  predicate PointerLate(d: nat, dst: nat, tables: seq<nat>, i: nat)
    requires Quot(i, PAGE_WORDS) < |tables|
  {
    || !Unwritten(dst, i, EntryWord(tables, i))
    || (Rem(i, PAGE_WORDS) == 0 && !Unwritten(dst, i, d + APFNPG + Quot(i, PAGE_WORDS)))
  }

  /** The word of page i that shows it: one that has been overwritten, if only the page is late. */
  function LateWord(d: nat, dst: nat, tables: seq<nat>, src: seq<Dword>, i: nat): (a: nat)
    requires i < |src| && Quot(i, PAGE_WORDS) < |tables|
    ensures !InTime(d, dst, tables, src, i) ==> OnPage(src, i, a)
    ensures !InTime(d, dst, tables, src, i) && !PointerLate(d, dst, tables, i) ==>
              dst <= a < dst + PAGE_WORDS * i || (src[i] / 4 < dst + PAGE_WORDS * i < src[i] / 4 + PAGE_WORDS && a == dst + PAGE_WORDS * i)
  {
    var s := src[i] / 4;
    if PointerLate(d, dst, tables, i) || dst < s then s else dst
  }

  /** The first round that is not in time. */
  lemma FirstLate(d: nat, dst: nat, tables: seq<nat>, src: seq<Dword>) returns (i: nat)
    requires !Ordered(d, dst, tables, src) && forall j :: 0 <= j < |src| ==> Quot(j, PAGE_WORDS) < |tables|
    ensures i < |src| && !InTime(d, dst, tables, src, i) && forall j :: 0 <= j < i ==> InTime(d, dst, tables, src, j)
  {
    hide InTime, Quot;
    i := 0;
    while i < |src| && InTime(d, dst, tables, src, i)
      invariant i <= |src| && forall j :: 0 <= j < i ==> InTime(d, dst, tables, src, j)
    {
      i := i + 1;
    }
  }

  /** What page the loop copies in a round whose pointer is late: the first one, whose address is what the image is full of. */
  lemma LateRoundReads(m: seq<Dword>, s: Machine, d: nat, dst: nat, entry: Dword, tables: seq<nat>, src: seq<Dword>, i: nat, a: nat)
    requires Prepared(m, d, dst, entry, tables, src) && i < |src| && At(s, dst, tables, i) && Copied(m, s.mem, dst, src, i)
    requires Quot(i, PAGE_WORDS) < |tables| && PointerLate(d, dst, tables, i)
    requires OnPage(src, i, a) && PagesApart(src) && Stained(s.mem, dst, PAGE_WORDS * i, src, a, src[0])
    ensures d < WORDS && |s.mem| == WORDS && i > 0
    ensures Round(s, Alias(d), i).mem == CopyWords(s.mem, P2(src[0]), s.r2, PAGE_WORDS)
  {
    hide Quot, Rem, Copied, Prepared, Describes, Lists, Fits, P2, CopyWords, IsPage, WordAt;
    EntryFacts(m, d, dst, entry, tables, src, i);
    EntryFacts(m, d, dst, entry, tables, src, 0);
    CopiedSize(m, s.mem, dst, src, i);
    PageInside(src[0]);
    var k := Quot(i, PAGE_WORDS);
    if Rem(i, PAGE_WORDS) == 0 && !Unwritten(dst, i, d + APFNPG + k) {
      AliasNext(d, 4 + k);
      FirstPageFull(s.mem, dst, src, i, a);
      assert s.mem[WordAt(src[0])] == src[0];
    } else {
      RoundPointer(m, s, d, dst, entry, tables, src, i);
      assert s.mem[EntryWord(tables, i)] == src[0];
    }
  }

  lemma FirstPageFull(now: seq<Dword>, dst: nat, src: seq<Dword>, i: nat, a: nat)
    requires 0 < i < |src| && IsPage(src[0]) && OnPage(src, i, a) && PagesApart(src) && Stained(now, dst, PAGE_WORDS * i, src, a, src[0])
    ensures src[0] / 4 + PAGE_WORDS <= WORDS == |now| && forall j {:trigger now[j]} :: src[0] / 4 <= j < src[0] / 4 + PAGE_WORDS ==> now[j] == src[0]
  {
    PageInside(src[0]);
    assert Apart(src[0] / 4, PAGE_WORDS, src[i] / 4, PAGE_WORDS);
    forall j | src[0] / 4 <= j < src[0] / 4 + PAGE_WORDS
      ensures now[j] == src[0]
    {
      assert OnPage(src, 0, j);
    }
  }

  /** A late round leaves the wrong value at the word that shows it. */
  lemma LateRoundIsWrong(m: seq<Dword>, s: Machine, d: nat, dst: nat, entry: Dword, tables: seq<nat>, src: seq<Dword>, i: nat)
    requires Prepared(m, d, dst, entry, tables, src) && i < |src| && At(s, dst, tables, i) && Copied(m, s.mem, dst, src, i)
    requires Quot(i, PAGE_WORDS) < |tables| && !InTime(d, dst, tables, src, i) && PagesApart(src)
    requires Stained(s.mem, dst, PAGE_WORDS * i, src, LateWord(d, dst, tables, src, i), src[0])
    ensures d < WORDS && |s.mem| == WORDS && dst + PAGE_WORDS * i + PAGE_WORDS <= WORDS
    ensures Round(s, Alias(d), i).mem[dst + PAGE_WORDS * i + LateWord(d, dst, tables, src, i) - src[i] / 4] == src[0]
  {
    hide Quot, Rem, Copied, Prepared, Describes, Lists, Fits, P2, CopyWords, IsPage, WordAt, Stained, InTime, PointerLate, LateWord, Unwritten;
    EntryFacts(m, d, dst, entry, tables, src, i);
    CopiedSize(m, s.mem, dst, src, i);
    var a, p, t := LateWord(d, dst, tables, src, i), src[i] / 4, dst + PAGE_WORDS * i;
    assert p <= a < p + PAGE_WORDS && t <= t + a - p < t + PAGE_WORDS;
    if PointerLate(d, dst, tables, i) {
      LateRoundReads(m, s, d, dst, entry, tables, src, i, a);
      EntryFacts(m, d, dst, entry, tables, src, 0);
      FirstPageFull(s.mem, dst, src, i, a);
      StainSpreads(s.mem, src[0] / 4, t, PAGE_WORDS, src[0]);
      assert CopyWords(s.mem, Alias(src[0] / 4), Alias(t), PAGE_WORDS)[t + a - p] == src[0];
    } else {
      PointerInTime(d, dst, tables, i);
      RoundPointer(m, s, d, dst, entry, tables, src, i);
      StillThere(m, s.mem, dst, src, i, EntryWord(tables, i));
      assert Round(s, Alias(d), i).mem == CopyWords(s.mem, Alias(p), Alias(t), PAGE_WORDS);
      PageFull(s.mem, dst, src, i, a);
      if dst <= a < dst + PAGE_WORDS * i {
        StainSpreads(s.mem, p, t, PAGE_WORDS, src[0]);
      } else {
        assert p < t < p + PAGE_WORDS && a == t;
        StainOverlaps(s.mem, p, t, PAGE_WORDS, src[0]);
      }
      assert CopyWords(s.mem, Alias(p), Alias(t), PAGE_WORDS)[t + a - p] == src[0];
    }
  }

  lemma PointerInTime(d: nat, dst: nat, tables: seq<nat>, i: nat)
    requires Quot(i, PAGE_WORDS) < |tables| && !PointerLate(d, dst, tables, i)
    ensures Unwritten(dst, i, EntryWord(tables, i))
    ensures Rem(i, PAGE_WORDS) == 0 ==> Unwritten(dst, i, d + APFNPG + Quot(i, PAGE_WORDS))
  {
  }

  /** All of page i but word a, and that too if it has been overwritten. */
  lemma PageFull(now: seq<Dword>, dst: nat, src: seq<Dword>, i: nat, a: nat)
    requires i < |src| && src[i] / 4 + PAGE_WORDS <= WORDS && Stained(now, dst, PAGE_WORDS * i, src, a, src[0])
    ensures |now| == WORDS
    ensures forall j {:trigger now[j]} :: src[i] / 4 <= j < src[i] / 4 + PAGE_WORDS && (j != a || dst <= a < dst + PAGE_WORDS * i) ==> now[j] == src[0]
  {
    forall j | src[i] / 4 <= j < src[i] / 4 + PAGE_WORDS && (j != a || dst <= a < dst + PAGE_WORDS * i)
      ensures now[j] == src[0]
    {
      assert OnPage(src, i, j);
    }
  }

  /** When some round is late, some image is copied wrongly. */
  lemma LateIsWrong(m: seq<Dword>, d: nat, dst: nat, entry: Dword, tables: seq<nat>, src: seq<Dword>) returns (c: seq<Dword>)
    requires Prepared(m, d, dst, entry, tables, src) && PagesApart(src) && SourcesKept(d, tables, src)
    requires !Ordered(d, dst, tables, src)
    ensures |m| == WORDS && d < WORDS && Fits(dst, src) && OtherImage(m, c, src) && !CopiesRight(c, d, dst, src)
  {
    hide Quot, Rem, Prepared, Describes, Lists, Fits, P2, CopyWords, IsPage, WordAt, PagesApart, SourcesKept, Copied, Stained, InTime, LateWord, Ordered, At, Round, OtherImage, Alias;
    PreparedSome(m, d, dst, entry, tables, src);
    TablesReach(m, d, dst, entry, tables, src);
    var i := FirstLate(d, dst, tables, src);
    var a, z: Dword := LateWord(d, dst, tables, src, i), src[0];
    var v: Dword := if z == 0 then 1 else 0;
    c := Painted(m, src, a, z, v);
    PaintedOther(m, src, i, a, z, v);
    OtherPrepared(m, c, d, dst, entry, tables, src);
    EntryFacts(c, d, dst, entry, tables, src, i);
    RoundsCopy(c, d, dst, entry, tables, src, i);
    var s := After(c, Alias(d), i);
    StainedBefore(m, s.mem, dst, src, i, a, z, v);
    LateRoundIsWrong(c, s, d, dst, entry, tables, src, i);
    var w := dst + PAGE_WORDS * i + a - src[i] / 4;
    FitsSize(dst, src);
    PageStays(c, d, dst, i + 1, |src|, w);
    assert !PageCopied(c, After(c, Alias(d), |src|).mem, dst, src, i) by {
      assert PageAt(c, src[i] / 4)[a - src[i] / 4] == v;
      assert PageAt(After(c, Alias(d), |src|).mem, dst + PAGE_WORDS * i)[a - src[i] / 4] == z;
    }
  }

  lemma FitsSize(dst: nat, src: seq<Dword>)
    requires Fits(dst, src)
    ensures dst + PAGE_WORDS * |src| <= WORDS && |src| > 0
  {
  }

  lemma PaintedOther(m: seq<Dword>, src: seq<Dword>, i: nat, a: nat, z: Dword, v: Dword)
    requires i < |src| && OnPage(src, i, a)
    ensures OtherImage(m, Painted(m, src, a, z, v), src)
  {
  }

  lemma TablesReach(m: seq<Dword>, d: nat, dst: nat, entry: Dword, tables: seq<nat>, src: seq<Dword>)
    requires Prepared(m, d, dst, entry, tables, src)
    ensures forall j :: 0 <= j < |src| ==> Quot(j, PAGE_WORDS) < |tables|
  {
  }

  /** The loop copies every image right if and only if all its rounds are in time. */
  lemma CopiesAllIff(m: seq<Dword>, d: nat, dst: nat, entry: Dword, tables: seq<nat>, src: seq<Dword>)
    requires Prepared(m, d, dst, entry, tables, src) && PagesApart(src) && SourcesKept(d, tables, src)
    ensures d < WORDS == |m| && Fits(dst, src)
    ensures Ordered(d, dst, tables, src) <==> forall c :: OtherImage(m, c, src) ==> CopiesRight(c, d, dst, src)
  {
    hide Prepared, PagesApart, SourcesKept, CopiesRight, Ordered, Fits, InPages;
    PreparedSome(m, d, dst, entry, tables, src);
    if Ordered(d, dst, tables, src) {
      forall c | OtherImage(m, c, src)
        ensures CopiesRight(c, d, dst, src)
      {
        OtherPrepared(m, c, d, dst, entry, tables, src);
        OrderedCopies(c, d, dst, entry, tables, src);
      }
    } else {
      var c := LateIsWrong(m, d, dst, entry, tables, src);
    }
  }

  lemma OrderedCopies(m: seq<Dword>, d: nat, dst: nat, entry: Dword, tables: seq<nat>, src: seq<Dword>)
    requires Prepared(m, d, dst, entry, tables, src) && Ordered(d, dst, tables, src)
    ensures d < WORDS == |m| && Fits(dst, src) && CopiesRight(m, d, dst, src)
  {
    hide Prepared, InTime, Quot;
    PreparedSome(m, d, dst, entry, tables, src);
    RoundsCopy(m, d, dst, entry, tables, src, |src|);
    forall i | 0 <= i < |src|
      ensures PageCopied(m, After(m, Alias(d), |src|).mem, dst, src, i)
    {
      var p := src[i];
    }
  }
}
