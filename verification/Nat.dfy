/**
 * The game-master address rewrite: a dead address that a game dials is replaced on the
 * way out, and put back as the source of the replies.
 */
module Nat {
  import opened Bytes
  import opened Checksum

  type Addr = a: seq<Byte> | |a| == 4 witness [0, 0, 0, 0]

  const NO_ADDR: Addr := [0, 0, 0, 0]
  const AFO_ORIG_IP: Addr := [63, 251, 242, 131]
  const IGP_ORIG_IP: Addr := [204, 210, 43, 239]
  const SRC: nat := 12
  const DST: nat := 16

  /** A datagram whose header, TCP and UDP lengths fit in the buffer. */
  predicate Whole(p: seq<Byte>) {
    && HeaderOk(p) && Be(p, 2) <= |p|
    && (p[9] == 17 ==> Ihl(p) + 8 <= |p| && Ihl(p) + Be(p, Ihl(p) + 4) <= |p|)
  }

  /** The checksum bytes of the transport header: protocol 6 is TCP, 17 is UDP. */
  function SumBytes(p: seq<Byte>): set<int>
    requires |p| >= 20
  {
    if p[9] == 6 then {Ihl(p) + 16, Ihl(p) + 17} else if p[9] == 17 then {Ihl(p) + 6, Ihl(p) + 7} else {}
  }

  /** The bytes that replacing the address at a may change. */
  function RewriteBytes(p: seq<Byte>, a: nat): set<int>
    requires |p| >= 20
  {
    {a, a + 1, a + 2, a + 3, 10, 11} + SumBytes(p)
  }

  /** The header checksum, and that of a TCP segment or UDP datagram of proper length, verify. */
  predicate SumsVerify(p: seq<Byte>)
    requires Whole(p)
  {
    && Verifies(p[..Ihl(p)], [])
    && (p[9] == 6 && Be(p, 2) >= Ihl(p) + 20 ==> Verifies(p[Ihl(p)..Be(p, 2)], PseudoHeader(p, 6, Be(p, 2) - Ihl(p))))
    && (p[9] == 17 && Be(p, Ihl(p) + 4) >= 8 ==>
          Verifies(p[Ihl(p)..Ihl(p) + Be(p, Ihl(p) + 4)], PseudoHeader(p, 17, Be(p, Ihl(p) + 4))))
  }

  /** Nothing that says where the parts of the datagram lie has changed. */
  lemma SameParts(p: seq<Byte>, q: seq<Byte>, ks: set<int>)
    requires Whole(p) && OnlyAt(p, q, ks)
    requires 0 !in ks && 2 !in ks && 3 !in ks && 9 !in ks && Ihl(p) + 4 !in ks && Ihl(p) + 5 !in ks
    ensures Whole(q) && Ihl(q) == Ihl(p) && Be(q, 2) == Be(p, 2) && q[9] == p[9] && SumBytes(q) == SumBytes(p)
    ensures q[9] == 17 ==> Be(q, Ihl(q) + 4) == Be(p, Ihl(p) + 4)
  {
  }

  /** A change behind the header leaves its checksum valid. */
  lemma HeaderKept(p: seq<Byte>, q: seq<Byte>, k: nat)
    requires HeaderOk(p) && OnlyAt(p, q, {k, k + 1}) && k >= Ihl(p) && Verifies(p[..Ihl(p)], [])
    ensures Ihl(q) == Ihl(p) && q[..Ihl(q)] == p[..Ihl(p)] && Verifies(q[..Ihl(q)], [])
  {
  }

  method StoreAddr(p: array<Byte>, a: nat, addr: Addr)
    requires a + 4 <= p.Length
    modifies p
    ensures p[a..a + 4] == addr && OnlyAt(old(p[..]), p[..], {a, a + 1, a + 2, a + 3})
  {
    p[a], p[a + 1], p[a + 2], p[a + 3] := addr[0], addr[1], addr[2], addr[3];
  }

  lemma OnlyAtChain(p: seq<Byte>, q: seq<Byte>, r: seq<Byte>, ks: set<int>, ls: set<int>)
    requires OnlyAt(p, q, ks) && OnlyAt(q, r, ls)
    ensures OnlyAt(p, r, ks + ls)
  {
  }

  lemma SlicesAgree(p: array<Byte>, a: nat, b: nat)
    requires a <= b <= p.Length
    ensures p[..][a..b] == p[a..b]
  {
  }

  lemma WholeParts(s: seq<Byte>)
    requires Whole(s)
    ensures HeaderOk(s) && |s| >= 20 && Be(s, 2) <= |s|
    ensures s[9] == 17 ==> Ihl(s) + 8 <= |s| && Ihl(s) + Be(s, Ihl(s) + 4) <= |s|
  {
  }

  /** The bytes of an address are no checksum bytes and say nothing about the parts. */
  lemma AddressApart(s: seq<Byte>, a: nat)
    requires Whole(s) && (a == SRC || a == DST)
    ensures var ks := {a, a + 1, a + 2, a + 3};
            && 0 !in ks && 2 !in ks && 3 !in ks && 9 !in ks && Ihl(s) + 4 !in ks && Ihl(s) + 5 !in ks
            && ks !! {10, 11} && ks !! SumBytes(s) && RewriteBytes(s, a) == ks + {10, 11} + SumBytes(s)
            && Ihl(s) >= 20
  {
  }

  /** Put addr at a and fix the checksums. */
  method Rewrite(p: array<Byte>, a: nat, addr: Addr)
    requires Whole(p[..]) && (a == SRC || a == DST)
    modifies p
    ensures Whole(p[..]) && p[a..a + 4] == addr && SumsVerify(p[..])
    ensures OnlyAt(old(p[..]), p[..], RewriteBytes(old(p[..]), a))
  {
    hide Verifies, PseudoHeader, OnlyAt, SumBytes, RewriteBytes, SumsVerify, Whole, Ihl;
    ghost var s, ks := p[..], {a, a + 1, a + 2, a + 3};
    WholeParts(s);
    AddressApart(s, a);
    StoreAddr(p, a, addr);
    ghost var s1 := p[..];
    SlicesAgree(p, a, a + 4);
    SameParts(s, s1, ks);
    WholeParts(s1);
    IpFixChecksum(p);
    ghost var s2 := p[..];
    SameParts(s1, s2, {10, 11});
    SlicesAgree(p, 0, Ihl(s2));
    OnlyAtChain(s, s1, s2, ks, {10, 11});
    FixSegment(p);
    OnlyAtChain(s, s2, p[..], ks + {10, 11}, SumBytes(s2));
    AddrKept(s1, s2, {10, 11}, a);
    AddrKept(s2, p[..], SumBytes(s2), a);
    SlicesAgree(p, a, a + 4);
  }

  lemma AddrKept(s: seq<Byte>, q: seq<Byte>, ks: set<int>, a: nat)
    requires a + 4 <= |s| && OnlyAt(s, q, ks) && a !in ks && a + 1 !in ks && a + 2 !in ks && a + 3 !in ks
    ensures q[a..a + 4] == s[a..a + 4]
  {
  }

  lemma TcpFixed(s: seq<Byte>, q: seq<Byte>)
    requires Whole(s) && s[9] == 6 && Verifies(s[..Ihl(s)], []) && Be(s, 2) >= Ihl(s) + 20
    requires OnlyAt(s, q, {Ihl(s) + 16, Ihl(s) + 17})
    requires Verifies(q[Ihl(s)..Be(s, 2)], PseudoHeader(q, 6, Be(s, 2) - Ihl(s)))
    ensures Whole(q) && SumsVerify(q) && OnlyAt(s, q, SumBytes(s))
  {
    hide Verifies, PseudoHeader, OnlyAt;
    SameParts(s, q, {Ihl(s) + 16, Ihl(s) + 17});
    HeaderKept(s, q, Ihl(s) + 16);
  }

  lemma UdpFixed(s: seq<Byte>, q: seq<Byte>)
    requires Whole(s) && s[9] == 17 && Verifies(s[..Ihl(s)], []) && Be(s, Ihl(s) + 4) >= 8
    requires OnlyAt(s, q, {Ihl(s) + 6, Ihl(s) + 7})
    requires Verifies(q[Ihl(s)..Ihl(s) + Be(s, Ihl(s) + 4)], PseudoHeader(q, 17, Be(s, Ihl(s) + 4)))
    ensures Whole(q) && SumsVerify(q) && OnlyAt(s, q, SumBytes(s))
  {
    hide Verifies, PseudoHeader, OnlyAt;
    SameParts(s, q, {Ihl(s) + 6, Ihl(s) + 7});
    HeaderKept(s, q, Ihl(s) + 6);
  }

  /** Nothing to fix: no transport checksum, or a segment too short for one. */
  lemma NothingFixed(s: seq<Byte>)
    requires Whole(s) && Verifies(s[..Ihl(s)], [])
    requires s[9] == 6 ==> Be(s, 2) < Ihl(s) + 20
    requires s[9] == 17 ==> Be(s, Ihl(s) + 4) < 8
    ensures SumsVerify(s) && OnlyAt(s, s, SumBytes(s))
  {
  }

  /** The checksum of the protocol in use. */
  method FixSegment(p: array<Byte>)
    requires Whole(p[..]) && Verifies(p[..Ihl(p[..])], [])
    modifies p
    ensures Whole(p[..]) && SumsVerify(p[..]) && OnlyAt(old(p[..]), p[..], SumBytes(old(p[..])))
  {
    hide Verifies, PseudoHeader, SumsVerify, Whole, OnlyAt, SumBytes, Ihl, HeaderOk;
    ghost var s := p[..];
    WholeParts(s);
    ghost var ihl := Ihl(s);
    SlicesAgree(p, 0, p.Length);
    if p[9] == 6 {
      TcpFixChecksum(p);
      if Be(s, 2) >= ihl + 20 {
        SlicesAgree(p, ihl, Be(s, 2));
        TcpFixed(s, p[..]);
      } else {
        NothingFixed(s);
      }
    } else if p[9] == 17 {
      UdpFixChecksum(p);
      if Be(s, ihl + 4) >= 8 {
        SlicesAgree(p, ihl, ihl + Be(s, ihl + 4));
        UdpFixed(s, p[..]);
      } else {
        NothingFixed(s);
      }
    } else {
      NothingFixed(s);
    }
  }

  // ---- the rewrite as state over a run of datagrams

  /** A datagram sent to dst, or one received from src. */
  datatype Event = Sent(dst: Addr) | Received(src: Addr)

  predicate IsDead(a: Addr) {
    a == AFO_ORIG_IP || a == IGP_ORIG_IP
  }

  /** Those are 63.251.242.131 and 204.210.43.239. */
  lemma DeadAddresses(a: Addr)
    ensures IsDead(a) <==> a == [63, 251, 242, 131] || a == [204, 210, 43, 239]
  {
  }

  predicate DialsDead(revival: Addr, e: Event) {
    revival != NO_ADDR && e.Sent? && IsDead(e.dst)
  }

  /** s_dwNatOrig after the events: the dead address dialled last. */
  function OrigAfter(revival: Addr, log: seq<Event>): (orig: Addr)
  {
    if log == [] then NO_ADDR
    else if DialsDead(revival, log[|log| - 1]) then log[|log| - 1].dst
    else OrigAfter(revival, log[..|log| - 1])
  }

  /** s_dwNatTarget after the events. */
  function TargetAfter(revival: Addr, log: seq<Event>): (target: Addr)
  {
    if exists i :: 0 <= i < |log| && DialsDead(revival, log[i]) then revival else NO_ADDR
  }

  /** No event from i on dials a dead address other than a. */
  ghost predicate OnlyDials(revival: Addr, log: seq<Event>, i: nat, a: Addr) {
    forall j :: i <= j < |log| && DialsDead(revival, log[j]) ==> log[j].dst == a
  }

  lemma {:induction false} OrigAfterDial(revival: Addr, log: seq<Event>, i: nat)
    requires i < |log| && DialsDead(revival, log[i])
    ensures exists k :: i <= k < |log| && DialsDead(revival, log[k]) && OrigAfter(revival, log) == log[k].dst
                        && forall j :: k < j < |log| ==> !DialsDead(revival, log[j])
  {
    var n := |log| - 1;
    if DialsDead(revival, log[n]) {
      assert OrigAfter(revival, log) == log[n].dst;
    } else {
      OrigAfterDial(revival, log[..n], i);
      var k :| i <= k < n && DialsDead(revival, log[..n][k]) && OrigAfter(revival, log[..n]) == log[..n][k].dst
               && forall j :: k < j < n ==> !DialsDead(revival, log[..n][j]);
      assert log[k] == log[..n][k];
      forall j | k < j < |log|
        ensures !DialsDead(revival, log[j])
      {
        if j < n {
          assert log[j] == log[..n][j];
        }
      }
    }
  }

  /** A caller that dials a last at i gets a back as the source if and only if no other dead address was dialled since. */
  lemma RepliesGoToLastDialler(revival: Addr, log: seq<Event>, i: nat)
    requires i < |log| && DialsDead(revival, log[i])
    requires forall j :: i < j < |log| && DialsDead(revival, log[j]) ==> log[j].dst != log[i].dst
    ensures TargetAfter(revival, log) == revival
    ensures OrigAfter(revival, log) == log[i].dst <==> OnlyDials(revival, log, i, log[i].dst)
  {
    OrigAfterDial(revival, log, i);
  }

  class Table {
    const revival: Addr // where to send the dead addresses; NO_ADDR: off
    var orig: Addr
    var target: Addr
    ghost var log: seq<Event> // every datagram so far

    ghost predicate Valid()
      reads this
    {
      orig == OrigAfter(revival, log) && target == TargetAfter(revival, log)
    }

    constructor (master: Addr)
      ensures Valid() && revival == master && log == []
    {
      revival, orig, target, log := master, NO_ADDR, NO_ADDR, [];
    }

    predicate Redirects(dst: Addr)
    {
      revival != NO_ADDR && IsDead(dst)
    }

    method RedirectDest(dst: Addr) returns (r: Addr)
      requires Valid()
      modifies this`orig, this`target, this`log
      ensures Valid() && log == old(log) + [Sent(dst)]
      ensures r == if Redirects(dst) then revival else dst
    {
      log := log + [Sent(dst)];
      LogSent(revival, old(log), Sent(dst));
      if revival != NO_ADDR && (dst == AFO_ORIG_IP || dst == IGP_ORIG_IP) {
        orig := dst;
        target := revival;
        return revival;
      }
      return dst;
    }

    /** OurTransmit: the outgoing datagram. */
    method TranslateOut(p: array<Byte>)
      requires Valid() && Whole(p[..])
      modifies this`orig, this`target, this`log, p
      ensures Valid() && Whole(p[..]) && log == old(log) + [Sent(old(p[DST..DST + 4]))]
      ensures var dst := old(p[DST..DST + 4]);
              if Redirects(dst) && dst != revival then
                && p[DST..DST + 4] == revival
                && OnlyAt(old(p[..]), p[..], RewriteBytes(old(p[..]), DST)) && SumsVerify(p[..])
              else p[..] == old(p[..])
    {
      hide SumsVerify, OrigAfter, TargetAfter;
      var dst := p[DST..DST + 4];
      var to := RedirectDest(dst);
      if to != dst {
        Rewrite(p, DST, to);
      }
    }

    /**
     * RxFrame: an incoming datagram, rewritten in a copy if it comes from where one was sent.
     * Its source is then the dead address that was dialled last.
     */
    method TranslateIn(ip: array<Byte>) returns (q: array<Byte>)
      requires Valid() && Whole(ip[..])
      modifies this`log
      ensures Valid() && Whole(q[..]) && log == old(log) + [Received(ip[SRC..SRC + 4])]
      ensures if (exists i :: 0 <= i < |old(log)| && DialsDead(revival, old(log)[i])) && ip[SRC..SRC + 4] == revival && ip.Length <= 1600 then
                && fresh(q) && q[SRC..SRC + 4] == OrigAfter(revival, old(log))
                && OnlyAt(ip[..], q[..], RewriteBytes(ip[..], SRC)) && SumsVerify(q[..])
              else q == ip
    {
      hide SumsVerify, OrigAfter;
      ghost var was := log;
      log := log + [Received(ip[SRC..SRC + 4])];
      LogReceived(revival, was, Received(ip[SRC..SRC + 4]));
      q := ip;
      if target != NO_ADDR && 20 <= ip.Length <= 1600 {
        if ip[SRC..SRC + 4] == target {
          q := new Byte[ip.Length](i requires 0 <= i < ip.Length reads ip => ip[i]);
          assert q[..] == ip[..];
          Rewrite(q, SRC, orig);
        }
      }
    }
  }

  lemma LogSent(revival: Addr, log: seq<Event>, e: Event)
    ensures OrigAfter(revival, log + [e]) == if DialsDead(revival, e) then e.dst else OrigAfter(revival, log)
    ensures TargetAfter(revival, log + [e]) == if DialsDead(revival, e) then revival else TargetAfter(revival, log)
  {
    var all := log + [e];
    assert all[..|log|] == log;
    if DialsDead(revival, e) {
      assert DialsDead(revival, all[|log|]);
    }
    if exists i :: 0 <= i < |log| && DialsDead(revival, log[i]) {
      var i :| 0 <= i < |log| && DialsDead(revival, log[i]);
      assert all[i] == log[i];
    }
  }

  lemma LogReceived(revival: Addr, log: seq<Event>, e: Event)
    requires e.Received?
    ensures OrigAfter(revival, log + [e]) == OrigAfter(revival, log)
    ensures TargetAfter(revival, log + [e]) == TargetAfter(revival, log)
  {
    LogSent(revival, log, e);
  }

  // ---- the flags of a SYN

  predicate Bit(b: Byte, m: nat)
    requires m > 0
  {
    b as int / m % 2 == 1
  }

  /** SYN without ACK, and with PSH. */
  predicate PushedSyn(v: bv8) {
    v & 0x12 == 0x02 && v & 0x08 != 0
  }

  lemma SynBits(b: Byte)
    ensures Bit(b, 2) && !Bit(b, 16) && Bit(b, 8) <==> PushedSyn(Bits(b))
    ensures Bit(b, 8) ==> b >= 8 && Bits(b - 8) == Bits(b) & 0xF7
  {
    hide Bits;
    SynNumbers(Bits(b));
    if Bit(b, 8) {
      PushBit(Bits(b));
      SameBits(Bits(b - 8), Bits(b) & 0xF7);
    }
  }

  lemma SynNumbers(v: bv8)
    ensures v & 0x02 != 0 <==> v as int / 2 % 2 == 1
    ensures v & 0x10 != 0 <==> v as int / 16 % 2 == 1
    ensures v & 0x08 != 0 <==> v as int / 8 % 2 == 1
    ensures v & 0x12 == 0x02 <==> v & 0x02 != 0 && v & 0x10 == 0
  {
    SynNumber(v);
    AckNumber(v);
    PushNumber(v);
  }

  lemma SynNumber(v: bv8)
    ensures v & 0x02 != 0 <==> v as int / 2 % 2 == 1
  {
  }

  lemma AckNumber(v: bv8)
    ensures v & 0x10 != 0 <==> v as int / 16 % 2 == 1
  {
  }

  lemma PushNumber(v: bv8)
    ensures v & 0x08 != 0 <==> v as int / 8 % 2 == 1
  {
  }

  lemma PushBit(v: bv8)
    requires v & 0x08 != 0
    ensures (v & 0xF7) as int == v as int - 8
  {
  }

  /** A pure SYN loses PSH, and its checksum is computed again; everything else goes out as it is. */
  method NormalizeSyn(p: array<Byte>)
    requires Whole(p[..]) && p[9] == 6 && Be(p[..], 2) >= Ihl(p[..]) + 20
    modifies p
    ensures var ihl := old(Ihl(p[..]));
            var fl := old(p[ihl + 13]);
            if PushedSyn(Bits(fl)) then
              && Bits(p[ihl + 13]) == Bits(fl) & 0xF7 && OnlyAt(old(p[..]), p[..], {ihl + 13, ihl + 16, ihl + 17})
              && Verifies(p[ihl..old(Be(p[..], 2))], PseudoHeader(p[..], 6, old(Be(p[..], 2)) - ihl))
            else p[..] == old(p[..])
  {
    hide Verifies, PseudoHeader, Bits;
    var ih := p[0] as int % 16 * 4;
    var fl := p[ih + 13];
    SynBits(fl);
    if Bit(fl, 2) && !Bit(fl, 16) && Bit(fl, 8) {
      ghost var s := p[..];
      p[ih + 13] := fl - 8;
      ghost var s1 := p[..];
      SameParts(s, s1, {ih + 13});
      TcpFixChecksum(p);
      OnlyAtChain(s, s1, p[..], {ih + 13}, {ih + 16, ih + 17});
      assert p[..][ih + 13] == s1[ih + 13];
    }
  }
}
