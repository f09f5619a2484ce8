/**
 * Ones-complement checksums (RFC 1071) as netif.c computes them, and the fixers that
 * rewrite the checksum of an IPv4 header, a TCP segment or a UDP datagram in place.
 */
module Checksum {
  import opened Bytes

  const ONES: nat := 0xFFFF

  /** The big-endian word at k. */
  function Be(s: seq<Byte>, k: nat): (w: nat)
    requires k + 2 <= |s|
    ensures w < 0x1_0000
  {
    s[k] as int * 256 + s[k + 1]
  }

  /** Sum of the words of the first n bytes, n even. */
  function SumTo(s: seq<Byte>, n: nat): (r: nat)
    requires n <= |s| && n % 2 == 0
    ensures r <= n * 0x8000
  {
    if n == 0 then 0 else SumTo(s, n - 2) + Be(s, n - 2)
  }

  /** Sum of all words; an odd last byte is the high byte of a word. */
  function WordSum(s: seq<Byte>): (r: nat)
  {
    SumTo(s, |s| - |s| % 2) + if |s| % 2 == 1 then s[|s| - 1] as int * 256 else 0
  }

  /** Carry folding, as often as needed. */
  function Fold(x: nat): (r: nat)
    ensures r <= ONES
    decreases x
  {
    if x <= ONES then x else Fold(x % 0x1_0000 + x / 0x1_0000)
  }

  lemma ModAdd(y: nat, q: nat)
    ensures (y + ONES * q) % ONES == y % ONES
    decreases q
  {
    if q > 0 {
      ModAdd(y, q - 1);
    }
  }

  /** Folding preserves the value modulo 65535, and gives 0 only for 0. */
  lemma {:induction false} FoldKeeps(x: nat)
    ensures Fold(x) % ONES == x % ONES
    ensures Fold(x) == 0 <==> x == 0
    decreases x
  {
    if x > ONES {
      var q := x / 0x1_0000;
      var y := x % 0x1_0000 + q;
      FoldKeeps(y);
      assert x == y + ONES * q;
      ModAdd(y, q);
    }
  }

  /** Words and seed sum to all ones. */
  predicate SumsToOnes(s: seq<Byte>, seed: nat) {
    Fold(seed + WordSum(s)) == ONES
  }

  // ---- what a receiver tests, from the bytes alone

  /** The number that the bytes spell, first byte first. */
  function BigEndian(s: seq<Byte>): (r: nat)
  {
    if s == [] then 0 else BigEndian(s[..|s| - 1]) * 256 + s[|s| - 1]
  }

  /** The bytes of whole words: a zero byte follows an odd last one. */
  function Padded(s: seq<Byte>): seq<Byte> {
    if |s| % 2 == 1 then s + [0] else s
  }

  /** RFC 1071: the number of the padded bytes, which is not zero, is a multiple of 65535. */
  predicate Accepts(s: seq<Byte>) {
    BigEndian(Padded(s)) > 0 && BigEndian(Padded(s)) % ONES == 0
  }

  /** The pseudo-header of RFC 768 and RFC 9293 section 3.1, byte by byte: source, destination, zero, protocol, length. */
  function PseudoHeader(p: seq<Byte>, proto: Byte, n: nat): (r: seq<Byte>)
    requires |p| >= 20
    ensures |r| == 12
  {
    p[12..16] + p[16..20] + [0, proto, n / 256 % 256, n % 256]
  }

  /** s with front before it passes the receiver's test. */
  predicate Verifies(s: seq<Byte>, front: seq<Byte>) {
    Accepts(front + s)
  }

  lemma {:induction false} SumIsNumber(s: seq<Byte>, n: nat)
    requires n <= |s| && n % 2 == 0
    ensures SumTo(s, n) % ONES == BigEndian(s[..n]) % ONES
    ensures SumTo(s, n) == 0 <==> BigEndian(s[..n]) == 0
    decreases n
  {
    if n > 0 {
      SumIsNumber(s, n - 2);
      assert s[..n][..n - 1] == s[..n - 1] && s[..n - 1][..n - 2] == s[..n - 2];
      var b, w := BigEndian(s[..n - 2]), Be(s, n - 2);
      assert BigEndian(s[..n - 1]) == b * 256 + s[n - 2];
      assert BigEndian(s[..n]) == (b * 256 + s[n - 2]) * 256 + s[n - 1] == b + w + ONES * b;
      ModAdd(b + w, b);
      ModSum(SumTo(s, n - 2), b, w);
    }
  }

  lemma ModSum(x: nat, y: nat, w: nat)
    requires x % ONES == y % ONES
    ensures (x + w) % ONES == (y + w) % ONES
  {
  }

  /** The sum of the words, with an odd last byte as a high byte, is that number up to multiples of 65535. */
  lemma {:induction false} WordSumIsNumber(s: seq<Byte>)
    ensures WordSum(s) % ONES == BigEndian(Padded(s)) % ONES
    ensures WordSum(s) == 0 <==> BigEndian(Padded(s)) == 0
  {
    hide BigEndian, SumTo;
    var t := Padded(s);
    if |s| % 2 == 1 {
      SumPrefix(s, t, |s| - 1);
      SumOneMore(t, |s| + 1);
    }
    SumIsNumber(t, |t|);
    assert t[..|t|] == t;
  }

  lemma SumOneMore(s: seq<Byte>, n: nat)
    requires 2 <= n <= |s| && n % 2 == 0
    ensures SumTo(s, n) == SumTo(s, n - 2) + Be(s, n - 2)
  {
  }

  lemma {:induction false} SumPrefix(s: seq<Byte>, t: seq<Byte>, n: nat)
    requires n <= |s| && n <= |t| && n % 2 == 0 && forall i :: 0 <= i < n ==> s[i] == t[i]
    ensures SumTo(s, n) == SumTo(t, n)
    decreases n
  {
    if n > 0 {
      SumPrefix(s, t, n - 2);
    }
  }

  lemma {:induction false} SumAppend(a: seq<Byte>, b: seq<Byte>, n: nat)
    requires |a| % 2 == 0 && n <= |b| && n % 2 == 0
    ensures SumTo(a + b, |a| + n) == SumTo(a, |a|) + SumTo(b, n)
    decreases n
  {
    if n == 0 {
      SumPrefix(a + b, a, |a|);
    } else {
      SumAppend(a, b, n - 2);
      SumOneMore(a + b, |a| + n);
    }
  }

  /** Words in front add up. */
  lemma WordSumAppend(a: seq<Byte>, b: seq<Byte>)
    requires |a| % 2 == 0
    ensures WordSum(a + b) == WordSum(a) + WordSum(b)
  {
    hide SumTo;
    SumAppend(a, b, |b| - |b| % 2);
  }

  lemma FoldIsOnes(x: nat)
    ensures Fold(x) == ONES <==> x > 0 && x % ONES == 0
  {
    FoldKeeps(x);
  }

  /** The receiver's test is that the words, with those of front as the seed, sum to all ones. */
  lemma VerifiesIff(s: seq<Byte>, front: seq<Byte>, seed: nat)
    requires |front| % 2 == 0 && seed == WordSum(front)
    ensures Verifies(s, front) <==> SumsToOnes(s, seed)
  {
    hide BigEndian, WordSum, Fold, Padded;
    WordSumAppend(front, s);
    WordSumIsNumber(front + s);
    FoldIsOnes(seed + WordSum(s));
  }

  /** A seed that is the words of the pseudo-header. */
  lemma PseudoIsSeed(p: seq<Byte>, proto: Byte, n: nat)
    requires |p| >= 20 && n < 0x1_0000
    ensures WordSum(PseudoHeader(p, proto, n)) == proto + n + AddressSum(p)
  {
    var h := PseudoHeader(p, proto, n);
    assert Be(h, 0) == Be(p, 12) && Be(h, 2) == Be(p, 14) && Be(h, 4) == Be(p, 16) && Be(h, 6) == Be(p, 18);
    assert Be(h, 8) == proto && Be(h, 10) == n;
    SumOneMore(h, 12);
    SumOneMore(h, 10);
    SumOneMore(h, 8);
    SumOneMore(h, 6);
    SumOneMore(h, 4);
    SumOneMore(h, 2);
  }

  lemma FoldStep(x: nat)
    ensures Fold(x) == if x <= ONES then x else Fold(x % 0x1_0000 + x / 0x1_0000)
  {
  }

  lemma SumOfNothing(s: seq<Byte>)
    ensures SumTo(s, 0) == 0
  {
  }

  /** The folded sum in terms of the number that the bytes spell. */
  lemma SumIsDetermined(s: seq<Byte>, seed: nat)
    ensures var x := seed + BigEndian(Padded(s));
            Fold(seed + WordSum(s)) == if x == 0 then 0 else (x - 1) % ONES + 1
  {
    hide BigEndian, Padded, WordSum, Fold;
    WordSumIsNumber(s);
    var x, y := seed + BigEndian(Padded(s)), seed + WordSum(s);
    ModSum(WordSum(s), BigEndian(Padded(s)), seed);
    FoldKeeps(y);
    FoldRange(y);
  }

  method Csum16(pb: seq<Byte>, dwSeed: nat) returns (c: nat)
    requires |pb| <= 0x1_0000 && dwSeed <= 0x10_0000
    ensures c == ONES - Fold(dwSeed + WordSum(pb))
    ensures var x := dwSeed + BigEndian(Padded(pb));
            c == if x == 0 then ONES else ONES - 1 - (x - 1) % ONES
  {
    hide BigEndian, Padded, Fold, SumTo;
    SumIsDetermined(pb, dwSeed);
    assert SumTo(pb, 0) == 0 by {
      SumOfNothing(pb);
    }
    var nLen := |pb|;
    var dwSum: nat := dwSeed;
    var i := 0;
    while i + 1 < nLen
      invariant i % 2 == 0 && i <= nLen && dwSum == dwSeed + SumTo(pb, i)
    {
      dwSum := dwSum + (pb[i] as int * 256 + pb[i + 1]);
      SumOneMore(pb, i + 2);
      i := i + 2;
    }
    if nLen % 2 == 1 {
      dwSum := dwSum + pb[nLen - 1] as int * 256;
    }
    assert dwSum == dwSeed + WordSum(pb) < 0x1_0000_0000;
    while dwSum / 0x1_0000 != 0
      invariant Fold(dwSum) == Fold(dwSeed + WordSum(pb))
      decreases dwSum
    {
      FoldStep(dwSum);
      dwSum := dwSum % 0x1_0000 + dwSum / 0x1_0000;
    }
    FoldStep(dwSum);
    c := ONES - dwSum;
  }

  // ---- storing the checksum

  lemma {:induction false} SumSet(s: seq<Byte>, k: nat, a: Byte, b: Byte, n: nat)
    requires k % 2 == 0 && k + 2 <= |s| && n <= |s| && n % 2 == 0
    ensures SumTo(s[k := a][k + 1 := b], n) == if k < n then SumTo(s, n) - Be(s, k) + a as int * 256 + b else SumTo(s, n)
    decreases n
  {
    if n > 0 {
      SumSet(s, k, a, b, n - 2);
    }
  }

  /** s with the word at k set to v. */
  function SetBe(s: seq<Byte>, k: nat, v: nat): (r: seq<Byte>)
    requires k + 2 <= |s| && v < 0x1_0000
    ensures |r| == |s|
  {
    s[k := v / 256][k + 1 := v % 256]
  }

  lemma SumStored(s: seq<Byte>, k: nat, c: nat)
    requires k % 2 == 0 && k + 2 <= |s| && Be(s, k) == 0 && c < 0x1_0000
    ensures WordSum(SetBe(s, k, c)) == WordSum(s) + c
  {
    SumSet(s, k, c / 256, c % 256, |s| - |s| % 2);
  }

  /** A checksum computed over a zero field and stored there makes the whole verify; so does 0xFFFF in place of 0. */
  lemma StoredVerifies(s: seq<Byte>, k: nat, seed: nat)
    requires k % 2 == 0 && k + 2 <= |s| && Be(s, k) == 0
    ensures var c := ONES - Fold(seed + WordSum(s));
            && (seed + WordSum(s) > 0 ==> SumsToOnes(SetBe(s, k, c), seed))
            && (c == 0 ==> SumsToOnes(SetBe(s, k, ONES), seed))
  {
    hide Fold, WordSum, SetBe;
    var x := seed + WordSum(s);
    FoldRange(x);
    SumStored(s, k, ONES - Fold(x));
    SumStored(s, k, ONES);
    ComplementFolds(x);
  }

  /** x is its folding and a multiple of 65535. */
  lemma {:induction false} FoldQuotient(x: nat) returns (q: nat)
    ensures x == Fold(x) + ONES * q
    decreases x
  {
    if x <= ONES {
      q := 0;
    } else {
      q := FoldQuotient(x % 0x1_0000 + x / 0x1_0000);
      q := q + x / 0x1_0000;
    }
  }

  lemma ComplementFolds(x: nat)
    ensures x > 0 ==> Fold(x + (ONES - Fold(x))) == ONES
    ensures Fold(x) == ONES ==> Fold(x + ONES) == ONES
  {
    hide Fold;
    FoldRange(x);
    var q := FoldQuotient(x);
    MultipleFolds(x + (ONES - Fold(x)), q + 1);
    if Fold(x) == ONES {
      MultipleFolds(x + ONES, q + 2);
    }
  }

  /** A positive multiple of 65535 folds to all ones. */
  lemma MultipleFolds(x: nat, q: nat)
    requires x == ONES * q && q > 0
    ensures Fold(x) == ONES
  {
    hide Fold;
    FoldRange(x);
    FoldZero(x);
    var p := FoldQuotient(x);
  }

  lemma {:induction false} FoldZero(x: nat)
    ensures Fold(x) == 0 <==> x == 0
    decreases x
  {
    if x > ONES {
      FoldZero(x % 0x1_0000 + x / 0x1_0000);
    }
  }

  // ---- the fixers

  function Ihl(p: seq<Byte>): nat
    requires |p| > 0
  {
    p[0] as int % 16 * 4
  }

  /** The header length is the low four bits of the first byte, in words. */
  lemma IhlBits(p: seq<Byte>)
    requires |p| > 0
    ensures Ihl(p) == 4 * ((Bits(p[0]) & 0x0F) as int)
  {
    hide Bits;
    LowNibble(Bits(p[0]));
  }

  lemma LowNibble(v: bv8)
    ensures (v & 0x0F) as int == v as int % 16
  {
  }

  /** Words of the source and destination address. */
  function AddressSum(p: seq<Byte>): (r: nat)
    requires |p| >= 20
    ensures r <= 4 * 0xFFFF
  {
    Be(p, 12) + Be(p, 14) + Be(p, 16) + Be(p, 18)
  }

  /** Only the bytes of set ks may differ. */
  ghost predicate OnlyAt(p: seq<Byte>, q: seq<Byte>, ks: set<int>) {
    |p| == |q| && forall i :: 0 <= i < |p| && i !in ks ==> q[i] == p[i]
  }

  predicate HeaderOk(p: seq<Byte>) {
    |p| >= 20 && 20 <= Ihl(p) <= |p|
  }

  method StoreBe(p: array<Byte>, k: nat, v: nat)
    requires k + 2 <= p.Length && v < 0x1_0000
    modifies p
    ensures p[..] == SetBe(old(p[..]), k, v)
  {
    ghost var s := p[..];
    p[k] := v / 256;
    p[k + 1] := v % 256;
    assert p[..] == SetBe(s, k, v);
  }

  /** A word of a part of the buffer. */
  lemma SetInPart(s: seq<Byte>, a: nat, b: nat, k: nat, v: nat)
    requires a <= b <= |s| && k + 2 <= b - a && v < 0x1_0000
    ensures SetBe(s, a + k, v)[a..b] == SetBe(s[a..b], k, v)
    ensures OnlyAt(s, SetBe(s, a + k, v), {a + k, a + k + 1})
  {
  }

  lemma SetTwice(s: seq<Byte>, k: nat, v: nat, w: nat)
    requires k + 2 <= |s| && v < 0x1_0000 && w < 0x1_0000
    ensures SetBe(SetBe(s, k, v), k, w) == SetBe(s, k, w) && Be(SetBe(s, k, v), k) == v
  {
  }

  /** Zero the field at a + k, sum p[a..b] from seed, store the complement; 0 becomes 0xFFFF if asked. */
  method FixAt(p: array<Byte>, a: nat, b: nat, k: nat, seed: nat, udp: bool)
    requires a <= b <= p.Length && k % 2 == 0 && k + 2 <= b - a && b - a <= 0x1_0000 && seed <= 0x10_0000
    requires seed > 0 || exists j :: a <= j < b && !(a + k <= j < a + k + 2) && p[j] > 0
    modifies p
    ensures OnlyAt(old(p[..]), p[..], {a + k, a + k + 1})
    ensures SumsToOnes(p[a..b], seed) && Be(p[..], a + k) != if udp then 0 else 0xFFFF
  {
    hide Fold, WordSum, SetBe, Be;
    ghost var s := p[..];
    StoreBe(p, a + k, 0);
    ghost var z := p[..];
    SetInPart(s, a, b, k, 0);
    SetTwice(s[a..b], k, 0, 0);
    assert z[a..b] == p[a..b];
    SomethingToSum(s, z, a, b, k, seed);
    StoredVerifies(z[a..b], k, seed);
    var c := Csum16(p[a..b], seed);
    FoldRange(seed + WordSum(z[a..b]));
    FoldKeeps(seed + WordSum(z[a..b]));
    if udp && c == 0 {
      c := 0xFFFF;
    }
    StoreBe(p, a + k, c);
    SetInPart(z, a, b, k, c);
    SetTwice(s, a + k, 0, c);
    SetTwice(z, a + k, c, c);
    assert p[a..b] == p[..][a..b];
  }

  lemma FoldRange(x: nat)
    ensures Fold(x) <= ONES
  {
  }

  /** A sum over nonnegative words is positive when some byte is. */
  lemma SomethingToSum(s: seq<Byte>, z: seq<Byte>, a: nat, b: nat, k: nat, seed: nat)
    requires a <= b <= |s| == |z| && k + 2 <= b - a && OnlyAt(s, z, {a + k, a + k + 1})
    requires seed > 0 || exists j :: a <= j < b && !(a + k <= j < a + k + 2) && s[j] > 0
    ensures seed + WordSum(z[a..b]) > 0
  {
    if seed == 0 {
      var j :| a <= j < b && !(a + k <= j < a + k + 2) && s[j] > 0;
      assert z[a..b][j - a] > 0;
      SumPositive(z[a..b], j - a);
    }
  }

  lemma {:induction false} SumPositive(s: seq<Byte>, j: nat)
    requires j < |s| && s[j] > 0
    ensures WordSum(s) > 0
  {
    if j < |s| - |s| % 2 {
      SumToPositive(s, j, |s| - |s| % 2);
    }
  }

  lemma {:induction false} SumToPositive(s: seq<Byte>, j: nat, n: nat)
    requires n <= |s| && n % 2 == 0 && j < n && s[j] > 0
    ensures SumTo(s, n) > 0
    decreases n
  {
    if j < n - 2 {
      SumToPositive(s, j, n - 2);
    }
  }

  /** The IPv4 header checksum. */
  method IpFixChecksum(p: array<Byte>)
    requires HeaderOk(p[..])
    modifies p
    ensures OnlyAt(old(p[..]), p[..], {10, 11}) && Ihl(p[..]) == old(Ihl(p[..])) && HeaderOk(p[..])
    ensures Verifies(p[..Ihl(p[..])], []) && Be(p[..], 10) != 0xFFFF
  {
    hide Fold, WordSum, Verifies, SumsToOnes;
    var ihl := p[0] as int % 16 * 4;
    assert p[0] > 0;
    FixAt(p, 0, ihl, 10, 0, false);
    assert p[..ihl] == p[0..ihl];
    EmptySum();
    VerifiesIff(p[..ihl], [], 0);
  }

  lemma EmptySum()
    ensures WordSum([]) == 0
  {
  }

  /** The TCP checksum; a segment shorter than a TCP header is left alone. */
  method TcpFixChecksum(p: array<Byte>)
    requires HeaderOk(p[..]) && Be(p[..], 2) <= p.Length
    modifies p
    ensures var ihl, total := old(Ihl(p[..])), old(Be(p[..], 2));
            if total < ihl + 20 then p[..] == old(p[..])
            else
              && OnlyAt(old(p[..]), p[..], {ihl + 16, ihl + 17})
              && Verifies(p[ihl..total], PseudoHeader(p[..], 6, total - ihl)) && Be(p[..], ihl + 16) != 0xFFFF
  {
    hide Fold, WordSum, Verifies, PseudoHeader, SumsToOnes;
    var ihl := p[0] as int % 16 * 4;
    var nTcpLen := p[2] as int * 256 + p[3] - ihl;
    if nTcpLen < 20 {
      return;
    }
    ghost var s := p[..];
    var dwSeed := SumAddresses(p, 6 + nTcpLen);
    FixAt(p, ihl, ihl + nTcpLen, 16, dwSeed, false);
    AddressesKept(s, p[..], ihl + 16);
    PseudoIsSeed(p[..], 6, nTcpLen);
    VerifiesIff(p[ihl..ihl + nTcpLen], PseudoHeader(p[..], 6, nTcpLen), dwSeed);
  }

  /** The addresses added to the seed. */
  method SumAddresses(p: array<Byte>, start: nat) returns (dwSeed: nat)
    requires p.Length >= 20
    ensures dwSeed == start + AddressSum(p[..])
  {
    dwSeed := start;
    var i := 12;
    while i < 20
      invariant 12 <= i <= 20 && i % 2 == 0
      invariant dwSeed == start + (if i > 12 then Be(p[..], 12) else 0) + (if i > 14 then Be(p[..], 14) else 0)
                          + (if i > 16 then Be(p[..], 16) else 0) + (if i > 18 then Be(p[..], 18) else 0)
    {
      dwSeed := dwSeed + (p[i] as int * 256 + p[i + 1]);
      i := i + 2;
    }
  }

  lemma AddressesKept(s: seq<Byte>, q: seq<Byte>, k: nat)
    requires |s| >= 20 && k >= 20 && OnlyAt(s, q, {k, k + 1})
    ensures AddressSum(s) == AddressSum(q)
  {
  }

  /** The UDP checksum; a datagram whose length field is below 8 is left alone. */
  method UdpFixChecksum(p: array<Byte>)
    requires HeaderOk(p[..]) && Ihl(p[..]) + 8 <= p.Length && Ihl(p[..]) + Be(p[..], Ihl(p[..]) + 4) <= p.Length
    modifies p
    ensures var ihl := old(Ihl(p[..]));
            var n := old(Be(p[..], ihl + 4));
            if n < 8 then p[..] == old(p[..])
            else
              && OnlyAt(old(p[..]), p[..], {ihl + 6, ihl + 7})
              && Verifies(p[ihl..ihl + n], PseudoHeader(p[..], 17, n)) && Be(p[..], ihl + 6) != 0
  {
    hide Fold, WordSum, Verifies, PseudoHeader, SumsToOnes;
    var ihl := p[0] as int % 16 * 4;
    var nUdpLen := p[ihl + 4] as int * 256 + p[ihl + 5];
    if nUdpLen < 8 {
      return;
    }
    ghost var s := p[..];
    var dwSeed := SumAddresses(p, 17 + nUdpLen);
    FixAt(p, ihl, ihl + nUdpLen, 6, dwSeed, true);
    AddressesKept(s, p[..], ihl + 6);
    PseudoIsSeed(p[..], 17, nUdpLen);
    VerifiesIff(p[ihl..ihl + nUdpLen], PseudoHeader(p[..], 17, nUdpLen), dwSeed);
  }
}
