/**
 * DnsFlatten: a reply with a CNAME chain is rebuilt as the same question with one A
 * answer. The rebuilt datagram reads back as exactly that, and is left alone when it
 * is flattened again (RFC 1035 sections 4.1.1 to 4.1.4).
 */
module Dns {
  import opened Bytes
  import opened Checksum

  const TYPE_A: nat := 1
  const TYPE_CNAME: nat := 5

  // ---- reading

  /** DnsSkipName from p; running into the end gives the end. */
  function SkipName(d: seq<Byte>, p: nat, end: nat): (r: nat)
    requires end <= |d|
    decreases end - p
  {
    if p >= end then end
    else if d[p] >= 0xC0 then p + 2
    else if d[p] == 0 then p + 1
    else SkipName(d, p + d[p] + 1, end)
  }

  /** Where qd complete questions from p end. */
  function Questions(d: seq<Byte>, qd: nat, p: nat, end: nat): (r: Option<nat>)
    requires end <= |d|
    ensures r.Some? ==> r.value <= end
    decreases qd
  {
    if qd == 0 then (if p <= end then Some(p) else None)
    else if p >= end then None
    else Questions(d, qd - 1, SkipName(d, p, end) + 4, end)
  }

  /** What the walk over the answers has seen: a CNAME, and the first A address. */
  datatype Seen = Seen(cname: bool, addr: Option<seq<Byte>>)

  function Note(s: Seen, d: seq<Byte>, p: nat, end: nat): Seen
    requires p + 10 <= end <= |d|
  {
    Seen(s.cname || Be(d, p) == TYPE_CNAME,
         if Be(d, p) == TYPE_A && Be(d, p + 8) == 4 && p + 14 <= end && s.addr.None? then Some(d[p + 10..p + 14]) else s.addr)
  }

  /** The walk over an answers from p. */
  function Walk(d: seq<Byte>, an: nat, p: nat, end: nat, s: Seen): Seen
    requires end <= |d|
    decreases an
  {
    if an == 0 || p >= end then s
    else
      var q := SkipName(d, p, end);
      if q + 10 > end then s
      else Walk(d, an - 1, q + 10 + Be(d, q + 8), end, Note(s, d, q, end))
  }

  const NOTHING: Seen := Seen(false, None)

  /** A datagram with the fixed part of a DNS message behind its IP and UDP headers. */
  predicate HasDns(d: seq<Byte>) {
    HeaderOk(d) && Ihl(d) + 20 <= |d|
  }

  function DnsAt(d: seq<Byte>): nat
    requires |d| > 0
  {
    Ihl(d) + 8
  }

  /** Where the question section ends, if it is complete. */
  function QuestionEnd(d: seq<Byte>): (r: Option<nat>)
    requires HasDns(d)
    ensures r.Some? ==> r.value <= |d|
  {
    Questions(d, Be(d, DnsAt(d) + 4), DnsAt(d) + 12, |d|)
  }

  function Answers(d: seq<Byte>): Seen
    requires HasDns(d) && QuestionEnd(d).Some?
  {
    Walk(d, Be(d, DnsAt(d) + 6), QuestionEnd(d).value, |d|, NOTHING)
  }

  /** The replies that are rewritten. */
  predicate Confusing(d: seq<Byte>) {
    HasDns(d) && QuestionEnd(d).Some? && Answers(d).cname && Answers(d).addr.Some?
  }

  // ---- skipping looks only at what it skips

  lemma {:induction false} SkipForward(d: seq<Byte>, p: nat, end: nat)
    requires p < end <= |d|
    ensures SkipName(d, p, end) > p
    decreases end - p
  {
    if 0 < d[p] < 0xC0 && p + d[p] + 1 < end {
      SkipForward(d, p + d[p] + 1, end);
    }
  }

  lemma {:induction false} SkipSame(d: seq<Byte>, e: seq<Byte>, p: nat, a: nat, b: nat, limit: nat)
    requires p < a <= |d| && limit <= a && limit <= b <= |e| && p < limit
    requires SkipName(d, p, a) + 4 <= limit && forall j :: p <= j < limit ==> j < |e| && d[j] == e[j]
    ensures SkipName(e, p, b) == SkipName(d, p, a)
    decreases a - p
  {
    if 0 < d[p] < 0xC0 {
      var n := p + d[p] + 1;
      if n < a {
        SkipForward(d, n, a);
        SkipSame(d, e, n, a, b, limit);
      }
    }
  }

  lemma {:induction false} QuestionsForward(d: seq<Byte>, qd: nat, p: nat, end: nat)
    requires end <= |d| && Questions(d, qd, p, end).Some?
    ensures p <= Questions(d, qd, p, end).value
    decreases qd
  {
    if qd > 0 {
      SkipForward(d, p, end);
      QuestionsForward(d, qd - 1, SkipName(d, p, end) + 4, end);
    }
  }

  /** The same question bytes read as the same questions, whatever follows them. */
  lemma {:induction false} QuestionsSame(d: seq<Byte>, e: seq<Byte>, qd: nat, p: nat, a: nat, b: nat, limit: nat)
    requires a <= |d| && Questions(d, qd, p, a) == Some(limit) && limit <= b <= |e|
    requires forall j :: p <= j < limit ==> j < |e| && d[j] == e[j]
    ensures Questions(e, qd, p, b) == Some(limit)
    decreases qd
  {
    if qd > 0 {
      var n := SkipName(d, p, a) + 4;
      SkipForward(d, p, a);
      QuestionsForward(d, qd - 1, n, a);
      SkipSame(d, e, p, a, b, limit);
      QuestionsSame(d, e, qd - 1, n, a, b, limit);
    }
  }

  // ---- the rebuilt datagram

  /** The resource record that answers the question: pointer to its name, type A, class IN, 60 s. */
  function AnswerBytes(addr: seq<Byte>): (r: seq<Byte>)
    requires |addr| == 4
    ensures |r| == 16
  {
    [0xC0, 0x0C, 0x00, 0x01, 0x00, 0x01, 0, 0, 0, 60, 0x00, 0x04] + addr
  }

  /** The two counts and the bytes that the rewrite fixes, before any checksum; q is where the questions end. */
  ghost predicate Rebuilt(d: seq<Byte>, o: seq<Byte>, q: nat, addr: seq<Byte>)
    requires HasDns(d)
  {
    var dns := DnsAt(d);
    && dns + 12 <= q <= |d| && |addr| == 4 && |o| == q + 16
    && (forall j :: 0 <= j < dns + 6 && j !in {2, 3, 10, 11, dns - 4, dns - 3, dns - 2, dns - 1} ==> o[j] == d[j])
    && Be(o, dns + 6) == 1 && Be(o, dns + 8) == 0 && Be(o, dns + 10) == 0
    && (forall j :: dns + 12 <= j < q ==> o[j] == d[j])
    && o[q..] == AnswerBytes(addr)
    && Be(o, 2) == |o| && Be(o, dns - 4) == |o| - Ihl(d)
  }

  /** The rebuilt datagram asks the same questions and has one answer, the address. */
  lemma RebuiltReads(d: seq<Byte>, o: seq<Byte>, addr: seq<Byte>)
    requires HasDns(d) && QuestionEnd(d).Some? && Rebuilt(d, o, QuestionEnd(d).value, addr)
    ensures HasDns(o) && Ihl(o) == Ihl(d) && QuestionEnd(o) == QuestionEnd(d)
    ensures o[DnsAt(d) + 12..QuestionEnd(d).value] == d[DnsAt(d) + 12..QuestionEnd(d).value]
    ensures Answers(o) == Seen(false, Some(addr)) && !Confusing(o)
  {
    hide AnswerBytes, Questions, Walk;
    var dns, q := DnsAt(d), QuestionEnd(d).value;
    assert o[0] == d[0] && o[dns + 4] == d[dns + 4] && o[dns + 5] == d[dns + 5];
    QuestionsSame(d, o, Be(d, dns + 4), dns + 12, |d|, |o|, q);
    OneAnswer(o, q, addr);
  }

  lemma OneAnswer(o: seq<Byte>, q: nat, addr: seq<Byte>)
    requires |o| == q + 16 && |addr| == 4 && o[q..] == AnswerBytes(addr)
    ensures Walk(o, 1, q, |o|, NOTHING) == Seen(false, Some(addr))
  {
    var a := AnswerBytes(addr);
    assert forall j :: 0 <= j < 16 ==> o[q + j] == o[q..][j];
    assert o[q] == a[0] == 0xC0;
    assert SkipName(o, q, |o|) == q + 2;
    assert o[q + 2] == a[2] && o[q + 3] == a[3] && o[q + 10] == a[10] && o[q + 11] == a[11];
    assert o[q + 12..q + 16] == a[12..16] == addr;
    assert Walk(o, 0, q + 16, |o|, Seen(false, Some(addr))) == Seen(false, Some(addr));
  }

  // ---- flattening

  /** memcpy */
  method CopyBytes(src: seq<Byte>, s: nat, dst: array<Byte>, t: nat, n: nat)
    requires s + n <= |src| && t + n <= dst.Length
    modifies dst
    ensures forall j :: 0 <= j < dst.Length ==> dst[j] == if t <= j < t + n then src[j - t + s] else old(dst[j])
  {
    forall j | 0 <= j < n {
      dst[t + j] := src[s + j];
    }
  }

  /** The loop over the questions; a section that is not complete leaves nothing for the answers. */
  method SkipQuestions(d: seq<Byte>, qd: nat, start: nat) returns (p: nat)
    ensures match Questions(d, qd, start, |d|)
            case Some(q) => p == q
            case None => p >= |d|
  {
    p := start;
    var i := 0;
    while i < qd && p < |d|
      invariant i <= qd && Questions(d, qd - i, p, |d|) == Questions(d, qd, start, |d|)
    {
      p := SkipOne(d, p);
      p := p + 4;
      i := i + 1;
    }
  }

  /** DnsSkipName */
  method SkipOne(pb: seq<Byte>, start: nat) returns (p: nat)
    ensures p == SkipName(pb, start, |pb|)
  {
    p := start;
    while p < |pb|
      invariant SkipName(pb, p, |pb|) == SkipName(pb, start, |pb|)
      decreases |pb| - p
    {
      if pb[p] >= 0xC0 {
        return p + 2;
      }
      if pb[p] == 0 {
        return p + 1;
      }
      p := p + pb[p] + 1;
    }
    return |pb|;
  }

  /** The loop over the answers. */
  method WalkAnswers(d: seq<Byte>, an: nat, start: nat) returns (cname: bool, addr: Option<seq<Byte>>)
    ensures Seen(cname, addr) == Walk(d, an, start, |d|, NOTHING)
  {
    hide Walk, SkipName;
    var p: nat, i: nat := start, 0;
    cname, addr := false, None;
    while i < an && p < |d|
      invariant i <= an && Walk(d, an - i, p, |d|, Seen(cname, addr)) == Walk(d, an, start, |d|, NOTHING)
    {
      WalkStep(d, an - i, p, Seen(cname, addr));
      p := SkipOne(d, p);
      if p + 10 > |d| {
        return;
      }
      var ty, rdl := Be(d, p), Be(d, p + 8);
      if ty == 5 {
        cname := true;
      }
      if ty == 1 && rdl == 4 && p + 14 <= |d| && addr.None? {
        addr := Some(d[p + 10..p + 14]);
      }
      p := p + 10 + rdl;
      i := i + 1;
    }
    WalkStops(d, an - i, p, Seen(cname, addr));
  }

  lemma WalkStep(d: seq<Byte>, n: nat, p: nat, s: Seen)
    requires n > 0 && p < |d|
    ensures var q := SkipName(d, p, |d|);
            Walk(d, n, p, |d|, s) == if q + 10 > |d| then s else Walk(d, n - 1, q + 10 + Be(d, q + 8), |d|, Note(s, d, q, |d|))
  {
    hide SkipName, Note;
  }

  lemma WalkStops(d: seq<Byte>, n: nat, p: nat, s: Seen)
    ensures n == 0 || p >= |d| ==> Walk(d, n, p, |d|, s) == s
  {
  }

  /** Two bytes in network order. */
  method PutBe(out: array<Byte>, k: nat, v: nat)
    requires k + 2 <= out.Length && v < 0x1_0000
    modifies out
    ensures out[k] as int * 256 + out[k + 1] == v
    ensures forall j :: 0 <= j < out.Length && j != k && j != k + 1 ==> out[j] == old(out[j])
  {
    out[k] := v / 256;
    out[k + 1] := v % 256;
  }

  /** The copied parts: headers, question section and the answer. */
  method CopyParts(ip: seq<Byte>, out: array<Byte>, ihl: nat, q: nat, a: seq<Byte>)
    requires ihl + 20 <= q <= |ip| && |a| == 16 && q + 16 <= out.Length
    modifies out
    ensures forall j :: 0 <= j < q ==> out[j] == ip[j]
    ensures forall j :: q <= j < q + 16 ==> out[j] == a[j - q]
  {
    var dns := ihl + 8;
    CopyBytes(ip, 0, out, 0, ihl);
    CopyBytes(ip, ihl, out, ihl, 8);
    CopyBytes(ip, dns, out, dns, 12);
    CopyBytes(ip, dns + 12, out, dns + 12, q - (dns + 12));
    CopyBytes(a, 0, out, q, 16);
  }

  /** Everything but the checksums. */
  method Assemble(ip: seq<Byte>, out: array<Byte>, q: nat, addr: seq<Byte>)
    requires HasDns(ip) && DnsAt(ip) + 12 <= q <= |ip| && |addr| == 4
    requires q + 16 <= out.Length && q + 16 < 0x1_0000
    modifies out
    ensures Rebuilt(ip, out[..q + 16], q, addr)
  {
    hide AnswerBytes, Rebuilt;
    var ihl := ip[0] as int % 16 * 4;
    var dns := ihl + 8;
    var a := AnswerBytes(addr);
    CopyParts(ip, out, ihl, q, a);
    SetFields(ip, out, dns, q, a);
    IsRebuilt(ip, out[..q + 16], dns, q, addr);
  }

  /** The counts and lengths, and zero where the checksums will be. */
  method SetFields(ghost ip: seq<Byte>, out: array<Byte>, dns: nat, q: nat, ghost a: seq<Byte>)
    requires 28 <= dns && dns + 12 <= q <= |ip| && |a| == 16 && q + 16 <= out.Length && q + 16 < 0x1_0000
    requires forall j :: 0 <= j < q ==> out[j] == ip[j]
    requires forall j :: q <= j < q + 16 ==> out[j] == a[j - q]
    modifies out
    ensures forall j :: 0 <= j < q && j !in {2, 3, 10, 11, dns - 4, dns - 3, dns - 2, dns - 1} && !(dns + 6 <= j < dns + 12) ==> out[j] == ip[j]
    ensures forall j :: q <= j < q + 16 ==> out[j] == a[j - q]
    ensures Be(out[..], dns + 6) == 1 && Be(out[..], dns + 8) == 0 && Be(out[..], dns + 10) == 0
    ensures Be(out[..], 2) == q + 16 && Be(out[..], dns - 4) == q + 16 - (dns - 8)
  {
    PutBe(out, dns + 6, 1);
    PutBe(out, dns + 8, 0);
    PutBe(out, dns + 10, 0);
    PutBe(out, dns - 4, q + 16 - (dns - 8));
    PutBe(out, dns - 2, 0);
    PutBe(out, 2, q + 16);
    PutBe(out, 10, 0);
  }

  lemma IsRebuilt(d: seq<Byte>, o: seq<Byte>, dns: nat, q: nat, addr: seq<Byte>)
    requires HasDns(d) && dns == DnsAt(d) && dns + 12 <= q <= |d| && |addr| == 4 && |o| == q + 16
    requires forall j :: 0 <= j < q && j !in {2, 3, 10, 11, dns - 4, dns - 3, dns - 2, dns - 1} && !(dns + 6 <= j < dns + 12) ==> o[j] == d[j]
    requires forall j :: q <= j < q + 16 ==> o[j] == AnswerBytes(addr)[j - q]
    requires Be(o, dns + 6) == 1 && Be(o, dns + 8) == 0 && Be(o, dns + 10) == 0
    requires Be(o, 2) == q + 16 && Be(o, dns - 4) == q + 16 - (dns - 8)
    ensures Rebuilt(d, o, q, addr)
  {
    hide AnswerBytes;
    assert o[q..] == AnswerBytes(addr);
  }

  /** The checksum bytes do not matter to Rebuilt. */
  lemma RebuiltSums(d: seq<Byte>, o: seq<Byte>, x: seq<Byte>, q: nat, addr: seq<Byte>, ks: set<int>)
    requires HasDns(d) && Rebuilt(d, o, q, addr) && OnlyAt(o, x, ks)
    requires ks == {10, 11} || ks == {DnsAt(d) - 2, DnsAt(d) - 1}
    ensures Rebuilt(d, x, q, addr)
  {
    hide AnswerBytes;
    assert x[q..] == o[q..];
  }

  lemma PrefixOnlyAt(s: seq<Byte>, x: seq<Byte>, n: nat, ks: set<int>)
    requires OnlyAt(s, x, ks) && n <= |s|
    ensures OnlyAt(s[..n], x[..n], ks)
  {
  }

  /** The header, and the length field the UDP fixer uses, are those of the rebuilt datagram. */
  lemma RebuiltHeader(d: seq<Byte>, s: seq<Byte>, q: nat, addr: seq<Byte>)
    requires HasDns(d) && q + 16 <= |s| && Rebuilt(d, s[..q + 16], q, addr)
    ensures HeaderOk(s) && Ihl(s) == Ihl(d) == Ihl(s[..q + 16]) && Ihl(d) + 20 <= q
    ensures Be(s, Ihl(s) + 4) == q + 16 - Ihl(d) >= 8
    ensures PseudoHeader(s, 17, q + 16 - Ihl(d)) == PseudoHeader(s[..q + 16], 17, q + 16 - Ihl(d))
  {
    var o := s[..q + 16];
    assert o[0] == s[0] == d[0];
    assert o[Ihl(d) + 4] == s[Ihl(d) + 4] && o[Ihl(d) + 5] == s[Ihl(d) + 5];
  }

  /** What a rewritten reply is. */
  ghost predicate Flattened(d: seq<Byte>, o: seq<Byte>)
    requires Confusing(d)
  {
    && Rebuilt(d, o, QuestionEnd(d).value, Answers(d).addr.value)
    && HasDns(o) && Ihl(o) == Ihl(d)
    && Verifies(o[..Ihl(o)], [])
    && Verifies(o[Ihl(o)..], PseudoHeader(o, 17, |o| - Ihl(o)))
  }

  method DnsFlatten(ip: seq<Byte>, out: array<Byte>) returns (n: nat)
    requires HeaderOk(ip) && |ip| <= 0xFF00
    requires Confusing(ip) ==> QuestionEnd(ip).value + 16 <= out.Length
    modifies out
    ensures n > 0 <==> Confusing(ip)
    ensures n == 0 ==> out[..] == old(out[..])
    ensures n > 0 ==> n <= out.Length && Flattened(ip, out[..n])
  {
    hide Rebuilt, Verifies, AnswerBytes, PseudoHeader, Walk, Questions, SkipName;
    var ihl := ip[0] as int % 16 * 4;
    var dns := ihl + 8;
    if dns + 12 > |ip| {
      return 0;
    }
    var qd, an := Be(ip, dns + 4), Be(ip, dns + 6);
    var q := SkipQuestions(ip, qd, dns + 12);
    var cname, addr := WalkAnswers(ip, an, q);
    NothingWalked(ip, an, q);
    if !cname || addr.None? {
      return 0;
    }
    QuestionsForward(ip, qd, dns + 12, |ip|);
    AddressLength(ip, an, q, |ip|, NOTHING);
    Assemble(ip, out, q, addr.value);
    n := q + 16;
    FinishSums(ip, out, q, addr.value);
    IsFlattened(ip, out[..n]);
  }

  lemma NothingWalked(d: seq<Byte>, an: nat, p: nat)
    ensures p >= |d| ==> Walk(d, an, p, |d|, NOTHING) == NOTHING
  {
  }

  lemma IsFlattened(d: seq<Byte>, o: seq<Byte>)
    requires Confusing(d) && Rebuilt(d, o, QuestionEnd(d).value, Answers(d).addr.value)
    requires Ihl(d) <= |o| && Verifies(o[..Ihl(d)], []) && |o| >= 20 && Verifies(o[Ihl(d)..], PseudoHeader(o, 17, |o| - Ihl(d)))
    ensures Flattened(d, o)
  {
    RebuiltReads(d, o, Answers(d).addr.value);
  }

  /** A collected address has four bytes. */
  lemma {:induction false} AddressLength(d: seq<Byte>, an: nat, p: nat, end: nat, s: Seen)
    requires end <= |d| && (s.addr.Some? ==> |s.addr.value| == 4)
    ensures Walk(d, an, p, end, s).addr.Some? ==> |Walk(d, an, p, end, s).addr.value| == 4
    decreases an
  {
    if an > 0 && p < end {
      var q := SkipName(d, p, end);
      if q + 10 <= end {
        AddressLength(d, an - 1, q + 10 + Be(d, q + 8), end, Note(s, d, q, end));
      }
    }
  }

  /** The two checksums of the rebuilt datagram. */
  method FinishSums(ghost ip: seq<Byte>, out: array<Byte>, q: nat, ghost addr: seq<Byte>)
    requires HasDns(ip) && q + 16 <= out.Length && Rebuilt(ip, out[..q + 16], q, addr)
    modifies out
    ensures Rebuilt(ip, out[..q + 16], q, addr) && Ihl(ip) <= q
    ensures Verifies(out[..q + 16][..Ihl(ip)], [])
    ensures Verifies(out[..q + 16][Ihl(ip)..], PseudoHeader(out[..q + 16], 17, q + 16 - Ihl(ip)))
  {
    hide Rebuilt, Verifies, PseudoHeader;
    ghost var n, ihl := q + 16, Ihl(ip);
    ghost var s0 := out[..];
    assert s0[..n] == out[..n];
    RebuiltHeader(ip, s0, q, addr);
    IpFixChecksum(out);
    ghost var s1 := out[..];
    PrefixOnlyAt(s0, s1, n, {10, 11});
    RebuiltSums(ip, s0[..n], s1[..n], q, addr, {10, 11});
    RebuiltHeader(ip, s1, q, addr);
    UdpFixChecksum(out);
    ghost var s2 := out[..];
    PrefixOnlyAt(s1, s2, n, {ihl + 6, ihl + 7});
    RebuiltSums(ip, s1[..n], s2[..n], q, addr, {ihl + 6, ihl + 7});
    RebuiltHeader(ip, s2, q, addr);
    assert s2[..ihl] == s1[..ihl];
    assert out[..n] == s2[..n];
    assert s2[..n][..ihl] == s2[..ihl];
    assert s2[..n][ihl..] == s2[ihl..n];
  }

  /** A rewritten reply reads back as the same questions with the one address, and is not rewritten again. */
  lemma FlattenedReads(d: seq<Byte>, o: seq<Byte>)
    requires Confusing(d) && Flattened(d, o)
    ensures HasDns(o) && QuestionEnd(o) == QuestionEnd(d)
    ensures o[DnsAt(d) + 12..QuestionEnd(d).value] == d[DnsAt(d) + 12..QuestionEnd(d).value]
    ensures Answers(o) == Seen(false, Answers(d).addr) && !Confusing(o)
    ensures Be(o, 2) == |o| && Be(o, Ihl(o) + 4) == |o| - Ihl(o)
  {
    RebuiltReads(d, o, Answers(d).addr.value);
  }
}
