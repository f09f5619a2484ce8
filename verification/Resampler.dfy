/**
 * The streaming resampler of the player: Decode keeps a 16.16 phase, two source frames
 * and end flags between calls. The stream it produces equals a closed form, however
 * the caller splits it into chunks.
 */
module Resampler {
  import opened Arith

  const OUT_RATE: nat := 44100
  const ONE: nat := 0x1_0000 // a whole source frame of phase

  datatype Frame = Frame(l: int, r: int)

  predicate IsShort(x: int) {
    -0x8000 <= x < 0x8000
  }

  predicate IsSource(src: seq<Frame>) {
    forall i :: 0 <= i < |src| ==> IsShort(src[i].l) && IsShort(src[i].r)
  }

  // ---- SetSrcRate

  /** The step for a source rate, in 32-bit unsigned arithmetic. */
  function StepOf(rate: int): (step: nat)
  {
    (if rate > 0 then rate else OUT_RATE) * ONE % 0x1_0000_0000 / OUT_RATE
  }

  /** The step is the true ratio exactly for rates below 65536 Hz; above, the shift drops bits. */
  lemma StepIsExact(rate: int)
    requires rate > 0
    ensures StepOf(rate) == rate * ONE / OUT_RATE <==> rate < 65536
    ensures rate < 65536 ==> 1 <= StepOf(rate) <= 97391
  {
    if rate >= 65536 {
      assert rate * ONE >= 0x1_0000_0000;
      assert rate * ONE % 0x1_0000_0000 < 0x1_0000_0000;
      assert rate * ONE % 0x1_0000_0000 <= rate * ONE - 0x1_0000_0000;
    }
  }

  /** The shift by 16 keeps the low 16 bits of the rate only. */
  lemma StepDropsHighBits(rate: int)
    ensures StepOf(rate) == (if rate > 0 then rate else 44100) % 65536 * 65536 / 44100
  {
    var r := if rate > 0 then rate else OUT_RATE;
    ShiftWraps(r / 65536, r % 65536);
  }

  lemma ShiftWraps(high: nat, low: nat)
    requires low < 65536
    ensures (65536 * high + low) * 0x1_0000 % 0x1_0000_0000 == low * 65536
  {
    var whole, part := high * 0x1_0000_0000, low * 0x1_0000;
    assert (65536 * high + low) * 0x1_0000 == whole + part;
    assert (whole + part) % 0x1_0000_0000 == part;
  }

  lemma StepIsSmall(rate: int)
    ensures StepOf(rate) <= 97391
  {
  }

  /** At exactly 65536 Hz the step is 0: the first source frame is repeated without end. */
  lemma StuckRate(src: seq<Frame>, k: nat)
    requires |src| > 0
    ensures StepOf(65536) == 0 && Emits(src, 0, k) && OutFrame(src, 0, k) == src[0]
  {
    TimesIsMul(k, 0);
  }

  /** A 96 kHz file is played at less than a third of its speed. */
  lemma HighRateWraps()
    ensures StepOf(96000) == 45271 && 96000 * ONE / OUT_RATE == 142663
  {
  }

  // ---- the closed form

  /** Source frame i; past the end, the last one. */
  function SourceAt(src: seq<Frame>, i: nat): Frame
    requires |src| > 0
  {
    if i < |src| then src[i] else src[|src| - 1]
  }

  /** Between a and b with an 8-bit weight; the shift rounds down. */
  function Blend(a: int, b: int, weight: nat): int {
    a + (b - a) * weight / 256
  }

  /** The source frame that output frame k starts from. */
  function Whole(step: nat, k: nat): nat {
    Quot(Times(k, step), ONE)
  }

  function Weight(step: nat, k: nat): (w: nat)
    ensures w < 256
  {
    Rem(Times(k, step), ONE) / 256
  }

  /** Output frame k. */
  function OutFrame(src: seq<Frame>, step: nat, k: nat): Frame
    requires |src| > 0
  {
    var a, b := SourceAt(src, Whole(step, k)), SourceAt(src, Whole(step, k) + 1);
    Frame(Blend(a.l, b.l, Weight(step, k)), Blend(a.r, b.r, Weight(step, k)))
  }

  /** How many source frames the output may start from: all but the last, or the only one. */
  function Starts(n: nat): nat {
    if n >= 2 then n - 1 else n
  }

  /** Whether output frame k is produced at all. */
  predicate Emits(src: seq<Frame>, step: nat, k: nat) {
    Whole(step, k) < Starts(|src|)
  }

  /** For two or more source frames: exactly those k with k * step < (N - 1) * 65536. */
  lemma EmitsExactly(src: seq<Frame>, step: nat, k: nat)
    requires |src| >= 2
    ensures Emits(src, step, k) <==> k * step < (|src| - 1) * ONE
  {
    TimesIsMul(k, step);
    Split(k * step, ONE);
    if k * step < (|src| - 1) * ONE {
      QuotBelow(k * step, ONE, |src| - 1);
    }
  }

  /** o is the weighted mean of a and b in 256ths, rounded down. */
  predicate IsMean(o: int, a: int, b: int, w: nat) {
    256 * o <= (256 - w) * a + w * b < 256 * o + 256
  }

  lemma BlendIsMean(a: int, b: int, w: nat)
    ensures IsMean(Blend(a, b, w), a, b, w)
  {
    var z := (b - a) * w;
    assert (256 - w) * a + w * b == 256 * a + z;
    assert 256 * (z / 256) <= z < 256 * (z / 256) + 256;
  }

  /** Output frame k is the straight line through the source at position k * step in 65536ths, to 1/256 of a frame. */
  lemma OutFrameIsLinear(src: seq<Frame>, step: nat, k: nat)
    requires |src| >= 2 && k * step < (|src| - 1) * 0x1_0000
    ensures var i, w, o := k * step / 0x1_0000, k * step % 0x1_0000 / 0x100, OutFrame(src, step, k);
            && i + 1 < |src| && w < 256
            && IsMean(o.l, src[i].l, src[i + 1].l, w) && IsMean(o.r, src[i].r, src[i + 1].r, w)
  {
    hide Quot, Rem, Times, Blend, IsMean;
    TimesIsMul(k, step);
    QuotRemAreDivMod(k * step, ONE);
    var i, w := k * step / 0x1_0000, k * step % 0x1_0000 / 0x100;
    BlendIsMean(src[i].l, src[i + 1].l, w);
    BlendIsMean(src[i].r, src[i + 1].r, w);
  }

  lemma {:induction false} BlendBetween(a: int, b: int, w: nat)
    requires w < 256
    ensures a <= b ==> a <= Blend(a, b, w) <= b
    ensures b <= a ==> b <= Blend(a, b, w) <= a
  {
    var d := b - a;
    assert d >= 0 ==> 0 <= d * w <= d * 256;
    assert d <= 0 ==> d * 256 <= d * w <= 0;
  }

  /** No output frame leaves the range of the two source frames it lies between, so no cast to short truncates. */
  lemma {:induction false} OutFrameInRange(src: seq<Frame>, step: nat, k: nat)
    requires |src| > 0 && IsSource(src)
    ensures var a, b, o := SourceAt(src, Whole(step, k)), SourceAt(src, Whole(step, k) + 1), OutFrame(src, step, k);
            && (a.l <= o.l <= b.l || b.l <= o.l <= a.l) && (a.r <= o.r <= b.r || b.r <= o.r <= a.r)
            && IsShort(o.l) && IsShort(o.r)
  {
    var a, b := SourceAt(src, Whole(step, k)), SourceAt(src, Whole(step, k) + 1);
    BlendBetween(a.l, b.l, Weight(step, k));
    BlendBetween(a.r, b.r, Weight(step, k));
  }

  /** At the output rate the stream is the source, short of its last frame if there are two or more. */
  lemma IdentityAtOutputRate(src: seq<Frame>, k: nat)
    requires |src| > 0
    ensures StepOf(OUT_RATE) == ONE
    ensures Emits(src, ONE, k) <==> k < Starts(|src|)
    ensures Emits(src, ONE, k) ==> OutFrame(src, ONE, k) == src[k]
  {
    TimesIsMul(k, ONE);
    Join(k * ONE, ONE, k, 0);
  }

  /** f is output frame k, which is produced. */
  predicate IsOut(f: Frame, src: seq<Frame>, step: nat, k: nat) {
    src != [] && Emits(src, step, k) && f == OutFrame(src, step, k)
  }

  function FrameAt(out: seq<int>, j: nat): Frame
    requires 2 * j + 1 < |out|
  {
    Frame(out[2 * j], out[2 * j + 1])
  }

  /** The interleaved samples of out are output frames from.. from + n. */
  ghost predicate Filled(out: seq<int>, src: seq<Frame>, step: nat, from: nat, n: nat) {
    2 * n <= |out| && forall j :: 0 <= j < n ==> IsOut(FrameAt(out, j), src, step, from + j)
  }

  lemma FilledNone(out: seq<int>, src: seq<Frame>, step: nat, from: nat)
    ensures Filled(out, src, step, from, 0)
  {
  }

  lemma FilledMore(out: seq<int>, src: seq<Frame>, step: nat, from: nat, n: nat)
    requires src != [] && Filled(out, src, step, from, n) && 2 * n + 1 < |out| && Emits(src, step, from + n)
    ensures var o := OutFrame(src, step, from + n);
            Filled(out[2 * n := o.l][2 * n + 1 := o.r], src, step, from, n + 1)
  {
    hide OutFrame, Emits;
    var o := OutFrame(src, step, from + n);
    var x := out[2 * n := o.l][2 * n + 1 := o.r];
    forall j | 0 <= j < n + 1
      ensures IsOut(FrameAt(x, j), src, step, from + j)
    {
      if j < n {
        assert FrameAt(x, j) == FrameAt(out, j);
      }
    }
  }

  // ---- Decode

  class Player {
    const src: seq<Frame> // what SrcNext will deliver
    const open: bool // a file is open
    var pos: nat // frames SrcNext has delivered
    var eof: bool
    var primed: bool
    var phase: nat
    var step: nat
    var cur: Frame
    var nxt: Frame
    ghost var emitted: nat // output frames produced so far
    ghost var base: nat // source frame that cur is

    constructor (source: seq<Frame>, rate: int)
      requires IsSource(source)
      ensures Valid() && src == source && open && emitted == 0 && step == StepOf(rate)
    {
      src, open, pos, eof, primed, phase, emitted, base := source, true, 0, false, false, 0, 0, 0;
      cur, nxt := Frame(0, 0), Frame(0, 0);
      step := StepOf(rate);
      new;
      StepIsSmall(rate);
    }

    ghost predicate Valid()
      reads this
    {
      && IsSource(src) && step <= 97391 && phase < ONE && pos <= |src|
      && (!primed ==> emitted == 0 && pos == 0 && (eof ==> src == []))
      && (primed ==>
            && src != [] && Times(emitted, step) == base * ONE + phase
            && pos == (if base + 2 < |src| then base + 2 else |src|)
            && cur == SourceAt(src, base) && nxt == SourceAt(src, base + 1)
            && (eof <==> base >= Starts(|src|)))
    }

    /** The next decoded source frame, if there is one. */
    method SrcNext() returns (ok: bool, f: Frame)
      requires pos <= |src|
      modifies this`pos
      ensures ok <==> old(pos) < |src|
      ensures if ok then f == src[old(pos)] && pos == old(pos) + 1 else pos == old(pos)
    {
      if pos == |src| {
        return false, Frame(0, 0);
      }
      f := src[pos];
      pos := pos + 1;
      ok := true;
    }

    /** Step past one whole source frame. */
    method Advance()
      requires primed && src != [] && IsSource(src) && step <= 97391 && pos == (if base + 2 < |src| then base + 2 else |src|)
      requires cur == SourceAt(src, base) && nxt == SourceAt(src, base + 1) && (eof <==> base >= Starts(|src|)) && phase >= ONE
      modifies this`pos, this`eof, this`phase, this`cur, this`nxt, this`base
      ensures pos == (if base + 2 < |src| then base + 2 else |src|) && base == old(base) + 1 && phase == old(phase) - ONE
      ensures cur == SourceAt(src, base) && nxt == SourceAt(src, base + 1) && (eof <==> base >= Starts(|src|))
    {
      phase := phase - ONE;
      cur := nxt;
      base := base + 1;
      var ok, f := SrcNext();
      nxt := f;
      if !ok {
        eof := true;
        nxt := cur;
      }
    }

    /** Load the first two source frames. */
    method Prime() returns (ok: bool)
      requires Valid() && !primed
      modifies this
      ensures Valid() && step == old(step) && emitted == 0
      ensures ok == primed && (ok <==> src != []) && eof == !ok
    {
      var f;
      ok, f := SrcNext();
      cur := f;
      if !ok {
        eof := true;
        return false;
      }
      ok, f := SrcNext();
      nxt := f;
      if !ok {
        nxt := cur;
      }
      phase, base, eof := 0, 0, false;
      primed := true;
      TimesNext(0, step);
      ok := true;
    }

    /** Frame j of the interleaved output, given the phase and the frames it lies between. */
    method Emit(psOut: array<int>, j: nat)
      requires Valid() && primed && !eof && 2 * j + 1 < psOut.Length
      modifies psOut
      ensures psOut[..] == old(psOut[..])[2 * j := OutFrame(src, step, emitted).l][2 * j + 1 := OutFrame(src, step, emitted).r]
      ensures Emits(src, step, emitted)
    {
      Join(Times(emitted, step), ONE, base, phase);
      var nF := phase / 256;
      psOut[j * 2] := Blend(cur.l, nxt.l, nF);
      psOut[j * 2 + 1] := Blend(cur.r, nxt.r, nF);
    }

    /** Output frames emitted.. of the closed form, as many as asked for or left. */
    method Decode(psOut: array<int>, nMaxFrames: nat) returns (nGot: nat)
      requires Valid() && open && 2 * nMaxFrames <= psOut.Length
      modifies this, psOut
      ensures Valid() && step == old(step) && emitted == old(emitted) + nGot && nGot <= nMaxFrames
      ensures Filled(psOut[..], src, step, old(emitted), nGot)
      ensures nGot < nMaxFrames ==> !Emits(src, step, emitted)
    {
      hide Blend, OutFrame, Filled, Emits, SourceAt, Times, IsSource, Starts;
      nGot := 0;
      FilledNone(psOut[..], src, step, emitted);
      NoMore();
      if eof {
        return;
      }
      if !primed {
        var ok := Prime();
        if !ok {
          return;
        }
      }
      while nGot < nMaxFrames
        invariant Valid() && primed && step == old(step) && nGot <= nMaxFrames && emitted == old(emitted) + nGot
        invariant !eof
        invariant Filled(psOut[..], src, step, old(emitted), nGot)
      {
        FilledMore(psOut[..], src, step, old(emitted), nGot) by {
          StillMore();
        }
        Emit(psOut, nGot);
        nGot := nGot + 1;
        TimesNext(emitted, step);
        phase := phase + step;
        emitted := emitted + 1;
        while phase >= ONE
          invariant Filled(psOut[..], src, step, old(emitted), nGot)
          invariant primed && IsSource(src) && src != [] && step == old(step) && step <= 97391
          invariant emitted == old(emitted) + nGot
          invariant Times(emitted, step) == base * ONE + phase
          invariant pos == (if base + 2 < |src| then base + 2 else |src|)
          invariant cur == SourceAt(src, base) && nxt == SourceAt(src, base + 1) && (eof <==> base >= Starts(|src|))
        {
          Advance();
        }
        if eof {
          NoMore();
          break;
        }
      }
    }

    lemma StillMore()
      requires Valid() && primed && !eof
      ensures Emits(src, step, emitted)
    {
      Join(Times(emitted, step), ONE, base, phase);
    }

    /** At the end of the source no output frame is left. */
    lemma NoMore()
      requires Valid()
      ensures eof ==> !Emits(src, step, emitted)
      ensures src == [] ==> !Emits(src, step, emitted)
    {
      if primed {
        Join(Times(emitted, step), ONE, base, phase);
      }
    }
  }

  // ---- chunks

  /** out is the closed form up to n frames or to its end. */
  ghost predicate Prefix(out: seq<Frame>, src: seq<Frame>, step: nat, n: nat) {
    && |out| <= n
    && (forall k :: 0 <= k < |out| ==> IsOut(out[k], src, step, k))
    && (|out| < n ==> !Emits(src, step, |out|))
  }

  function Sum(chunks: seq<nat>): nat {
    if chunks == [] then 0 else Sum(chunks[..|chunks| - 1]) + chunks[|chunks| - 1]
  }

  /** Only one sequence is that prefix: the split into chunks cannot matter. */
  lemma PrefixUnique(a: seq<Frame>, b: seq<Frame>, src: seq<Frame>, step: nat, n: nat)
    requires Prefix(a, src, step, n) && Prefix(b, src, step, n)
    ensures a == b
  {
    hide OutFrame, Emits;
    PrefixAt(a, src, step, n, |b|);
    PrefixAt(b, src, step, n, |a|);
  }

  lemma PrefixAt(out: seq<Frame>, src: seq<Frame>, step: nat, n: nat, k: nat)
    requires Prefix(out, src, step, n)
    ensures k < |out| ==> src != [] && Emits(src, step, k) && out[k] == OutFrame(src, step, k)
  {
    hide OutFrame, Emits;
    assert k < |out| ==> IsOut(out[k], src, step, k);
  }

  /** more is output frames from.. */
  ghost predicate Piece(more: seq<Frame>, src: seq<Frame>, step: nat, from: nat) {
    forall j :: 0 <= j < |more| ==> IsOut(more[j], src, step, from + j)
  }

  lemma PieceHas(more: seq<Frame>, src: seq<Frame>, step: nat, from: nat, j: nat)
    requires Piece(more, src, step, from) && j < |more|
    ensures IsOut(more[j], src, step, from + j)
  {
    hide IsOut;
  }

  lemma PrefixGrows(out: seq<Frame>, more: seq<Frame>, src: seq<Frame>, step: nat, n: nat, m: nat)
    requires Prefix(out, src, step, n) && |more| <= m
    requires Piece(more, src, step, |out|)
    requires |more| < m ==> !Emits(src, step, |out| + |more|)
    ensures Prefix(out + more, src, step, n + m)
  {
    hide OutFrame, Emits;
    var all := out + more;
    forall k | 0 <= k < |all|
      ensures IsOut(all[k], src, step, k)
    {
      if k >= |out| {
        PieceHas(more, src, step, |out|, k - |out|);
      }
    }
    if |more| == m > 0 {
      PieceHas(more, src, step, |out|, 0);
    }
  }

  /** Calling Decode with any list of chunk sizes yields the prefix that one call for their sum yields. */
  method DecodeChunks(p: Player, chunks: seq<nat>) returns (out: seq<Frame>)
    requires p.Valid() && p.open && p.emitted == 0
    modifies p
    ensures p.Valid() && Prefix(out, p.src, p.step, Sum(chunks))
  {
    out := [];
    var i := 0;
    while i < |chunks|
      invariant i <= |chunks| && p.Valid() && p.emitted == |out| && Prefix(out, p.src, p.step, Sum(chunks[..i]))
    {
      var buf := new int[2 * chunks[i]];
      var n := p.Decode(buf, chunks[i]);
      var more := FramesOf(buf, n);
      FilledIsPiece(buf[..], more, p.src, p.step, |out|, n);
      PrefixGrows(out, more, p.src, p.step, Sum(chunks[..i]), chunks[i]);
      assert chunks[..i + 1][..i] == chunks[..i];
      out := out + more;
      i := i + 1;
    }
    assert chunks[..i] == chunks;
  }

  lemma FilledIsPiece(buf: seq<int>, more: seq<Frame>, src: seq<Frame>, step: nat, from: nat, n: nat)
    requires Filled(buf, src, step, from, n) && |more| == n && 2 * n <= |buf| && forall j :: 0 <= j < n ==> more[j] == FrameAt(buf, j)
    ensures Piece(more, src, step, from)
  {
    hide OutFrame, Emits;
  }

  method FramesOf(buf: array<int>, n: nat) returns (f: seq<Frame>)
    requires 2 * n <= buf.Length
    ensures |f| == n && forall j :: 0 <= j < n ==> f[j] == FrameAt(buf[..], j)
  {
    f := [];
    while |f| < n
      invariant |f| <= n && forall j :: 0 <= j < |f| ==> f[j] == FrameAt(buf[..], j)
    {
      f := f + [Frame(buf[2 * |f|], buf[2 * |f| + 1])];
    }
  }
}
