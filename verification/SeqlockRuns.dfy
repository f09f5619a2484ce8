/**
 * Whole runs of the sequence lock: every interleaving of the two sides, each side
 * running alone, and the one way to fool the reader.
 */
module SeqlockRuns {
  import opened Bytes
  import opened Seqlock
  import opened SeqlockInvariant

  // ---- runs

  function Run(s: State, steps: seq<Step>): (r: State)
    requires Inv(s)
    ensures Inv(r)
    decreases |steps|
  {
    if steps == [] then s
    else
      match steps[0]
      case Client(f) => ClientKeepsInv(s, f); Run(ClientStep(s, f), steps[1..])
      case Shell => ShellKeepsInv(s); Run(ShellStep(s), steps[1..])
  }

  /**
   * Over every interleaving a call of SnapWindows ends with a whole published frame,
   * unless the counter went all the way round during the attempt it accepted, or after
   * eight failures with no commands; accepted frame numbers never go backwards.
   */
  lemma AcceptedFramesAreWhole(steps: seq<Step>)
    ensures Inv(Init())
    ensures var s := Run(Init(), steps);
            && Sorted(s.accepted)
            && (s.reader.Done? && !s.overrun ==>
                  match s.result
                  case None => s.tries == 8 && s.snapN == 0
                  case Some(k) => k < |s.frames| && s.snapN <= |s.snap| && s.snap[..s.snapN] == s.frames[k])
  {
    InitInv();
  }

  lemma {:induction false} RunAppend(s: State, a: seq<Step>, b: seq<Step>)
    requires Inv(s)
    ensures Run(s, a + b) == Run(Run(s, a), b)
    decreases |a|
  {
    hide Inv, ClientStep, ShellStep;
    InvShape(s);
    if a == [] {
      assert a + b == b;
    } else {
      assert (a + b)[0] == a[0] && (a + b)[1..] == a[1..] + b;
      match a[0]
      case Client(f) => ClientKeepsInv(s, f); RunAppend(ClientStep(s, f), a[1..], b);
      case Shell => ShellKeepsInv(s); RunAppend(ShellStep(s), a[1..], b);
    }
  }

  lemma RunOne(s: State, x: Step)
    requires Inv(s)
    ensures Run(s, [x]) == match x case Client(f) => ClientStep(s, f) case Shell => ShellStep(s)
  {
    hide Inv, ClientStep, ShellStep;
    InvShape(s);
    assert [x][1..] == [];
    match x
    case Client(f) => ClientKeepsInv(s, f); assert Run(ClientStep(s, f), []) == ClientStep(s, f);
    case Shell => ShellKeepsInv(s); assert Run(ShellStep(s), []) == ShellStep(s);
  }

  function Times(n: nat, x: Step): (r: seq<Step>)
  {
    if n == 0 then [] else [x] + Times(n - 1, x)
  }

  // ---- one side running alone

  /** What publishing frame f does to the shared window. */
  function Published(s: State, f: Frame): State
    requires |f| <= |s.cmd|
  {
    s.(gen := Bumped(Bumped(s.gen)), cmdCount := |f|, cmd := f + s.cmd[|f|..], build := f, frames := s.frames + [f])
  }

  lemma {:induction false} CopyRuns(s: State, x: Step)
    requires Inv(s) && s.writer.Copying? && x.Client?
    ensures var n := |s.build| - s.writer.next;
            n >= 0 && Run(s, Times(n, x)) == s.(cmd := s.build + s.cmd[|s.build|..], writer := Copying(|s.build|))
    decreases |s.build| - s.writer.next
  {
    var i := s.writer.next;
    if i == |s.build| {
      assert s.build + s.cmd[|s.build|..] == s.cmd;
    } else {
      var n := ClientStep(s, x.frame);
      ClientKeepsInv(s, x.frame);
      CopyRuns(n, x);
      assert n.cmd[|s.build|..] == s.cmd[|s.build|..];
      assert Times(|s.build| - i, x)[1..] == Times(|s.build| - i - 1, x);
    }
  }

  /** DCWinEndFrame run without interruption. */
  function PublishSteps(f: Frame): seq<Step> {
    [Client(f)] + Times(|f|, Client(f)) + [Client(f), Client(f)]
  }

  lemma PublishRuns(s: State, f: Frame)
    requires Inv(s) && s.writer.Idle? && |f| <= 192
    ensures Run(s, PublishSteps(f)) == Published(s, f) && Inv(Published(s, f))
  {
    hide Inv, Run;
    var x := Client(f);
    assert Shape(s) by {
      InvShape(s);
    }
    var s1 := ClientStep(s, f);
    ClientKeepsInv(s, f);
    RunOne(s, x);
    CopyRuns(s1, x);
    var s2 := Run(s1, Times(|f|, x));
    RunAppend(s, [x], Times(|f|, x));
    var s3 := ClientStep(s2, f);
    ClientKeepsInv(s2, f);
    RunOne(s2, x);
    RunOne(s3, x);
    ClientKeepsInv(s3, f);
    RunAppend(s2, [x], [x]);
    assert [x] + [x] == [x, x];
    RunAppend(s, [x] + Times(|f|, x), [x, x]);
  }

  lemma InvShape(s: State)
    requires Inv(s)
    ensures Shape(s)
  {
  }

  lemma {:induction false} SnapRuns(s: State)
    requires Inv(s) && s.reader.Snapping? && s.reader.next <= s.cCmd
    ensures var n := s.cCmd - s.reader.next;
            && Run(s, Times(n, Shell)) == s.(snap := Run(s, Times(n, Shell)).snap, reader := Snapping(s.cCmd))
            && Inv(Run(s, Times(n, Shell)))
    decreases s.cCmd - s.reader.next
  {
    var i := s.reader.next;
    if i < s.cCmd {
      ShellKeepsInv(s);
      SnapRuns(ShellStep(s));
      assert Times(s.cCmd - i, Shell)[1..] == Times(s.cCmd - i - 1, Shell);
    }
  }

  /** The two steps before the copying, when the client is idle. */
  lemma AttemptBegins(s: State) returns (t: State)
    requires Inv(s) && s.writer.Idle? && s.reader.ReadGen? && s.tries < TRIES
    ensures Inv(t) && Run(s, [Shell, Shell]) == t
    ensures t.reader == Snapping(0) && t.writer.Idle? && t.frames == s.frames && t.gen == s.gen == t.gen1
    ensures t.seen == Bumps(t) && t.cCmd == s.cmdCount == t.cmdCount && t.cmd == s.cmd
  {
    hide Mod32, Sorted;
    EvenIsIdle(s);
    var s1 := ShellStep(s);
    ShellKeepsInv(s);
    t := ShellStep(s1);
    ShellKeepsInv(s1);
    RunOne(s1, Shell);
    assert [Shell, Shell][1..] == [Shell];
  }

  lemma AttemptEnds(s: State) returns (t: State)
    requires Inv(s) && s.writer.Idle? && s.reader == Snapping(s.cCmd) && s.gen1 == s.gen && s.seen == Bumps(s)
    ensures Run(s, [Shell]) == t
    ensures t.reader.Done? && t.result == Some(|s.frames| - 1) && t.frames == s.frames
    ensures t.snapN <= |t.snap| && t.snap[..t.snapN] == s.frames[|s.frames| - 1]
  {
    t := ShellStep(s);
    ShellKeepsInv(s);
    RunOne(s, Shell);
  }

  /** Call state r holds the newest frame of s. */
  predicate HoldsNewest(s: State, r: State) {
    && |s.frames| > 0 && r.reader.Done? && r.result == Some(|s.frames| - 1)
    && r.snapN <= |r.snap| && r.snap[..r.snapN] == s.frames[|s.frames| - 1]
  }

  /** An attempt that no client step interrupts, begun between publications, accepts the newest frame. */
  lemma UndisturbedAttemptSucceeds(s: State) returns (n: nat)
    requires Inv(s) && s.writer.Idle? && s.reader.ReadGen? && s.tries < TRIES
    ensures HoldsNewest(s, Run(s, Times(n, Shell)))
  {
    hide Inv, Run, Times, Mod32, ShellStep, ClientStep;
    InvShape(s);
    var t := AttemptBegins(s);
    SnapCount(t);
    SnapRuns(t);
    var u := Run(t, Times(t.cCmd, Shell));
    var r := AttemptEnds(u);
    n := t.cCmd + 3;
    AttemptSteps(s, t, t.cCmd);
  }

  lemma AttemptSteps(s: State, t: State, k: nat)
    requires Inv(s) && Run(s, [Shell, Shell]) == t && Inv(t)
    ensures Run(s, Times(k + 3, Shell)) == Run(Run(t, Times(k, Shell)), [Shell])
  {
    hide Inv, Run, Times;
    RunAppend(t, Times(k, Shell), [Shell]);
    RunAppend(s, [Shell, Shell], Times(k, Shell) + [Shell]);
    TimesOneMore(k, Shell);
    TwoMore(k + 1, Shell);
  }

  lemma SnapCount(s: State)
    requires Inv(s) && s.reader == Snapping(0)
    ensures 0 <= s.cCmd
  {
  }

  lemma TwoMore(n: nat, x: Step)
    ensures [x, x] + Times(n, x) == Times(n + 2, x)
  {
    assert Times(n + 2, x) == [x] + ([x] + Times(n, x));
  }

  lemma {:induction false} TimesOneMore(n: nat, x: Step)
    ensures Times(n, x) + [x] == Times(n + 1, x)
  {
    if n > 0 {
      TimesOneMore(n - 1, x);
      assert [x] + Times(n - 1, x) + [x] == [x] + (Times(n - 1, x) + [x]);
    }
  }

  // ---- why the counter must not go round

  /** Publishing f over and over changes nothing that the shell keeps to itself. */
  lemma {:induction false} PublishMany(s: State, f: Frame, n: nat) returns (steps: seq<Step>)
    requires Inv(s) && s.writer.Idle? && |f| <= MAXCMD
    ensures var r := Run(s, steps);
            && Inv(r) && r.writer.Idle? && |r.frames| == |s.frames| + n && s.frames <= r.frames
            && (forall k :: |s.frames| <= k < |r.frames| ==> r.frames[k] == f)
            && r == s.(gen := r.gen, cmdCount := r.cmdCount, cmd := r.cmd, build := r.build, frames := r.frames)
    decreases n
  {
    hide Inv;
    if n == 0 {
      steps := [];
    } else {
      InvShape(s);
      PublishRuns(s, f);
      var rest := PublishMany(Published(s, f), f, n - 1);
      steps := PublishSteps(f) + rest;
      RunAppend(s, PublishSteps(f), rest);
    }
  }

  function Tile(color: nat): Cmd {
    Cmd(1, 0, 0, 1, 1, color, 0, [])
  }

  /** Two more steps that copy the second command and then accept. */
  lemma LastTwoSteps(r: State) returns (t: State)
    requires Inv(r) && r.reader == Snapping(1) && r.cCmd == 2 && r.gen1 == r.gen
    ensures Run(r, [Shell, Shell]) == t
    ensures t.reader.Done? && t.result.Some? && t.snapN == 2 <= |t.snap| && t.frames == r.frames && |r.cmd| == |r.snap| == MAXCMD
    ensures t.snap[..2] == [r.snap[0], r.cmd[1]]
  {
    InvShape(r);
    hide Inv, Mod32;
    var t1 := ShellStep(r);
    ShellKeepsInv(r);
    t := ShellStep(t1);
    ShellKeepsInv(t1);
    RunOne(t1, Shell);
    assert [Shell, Shell][1..] == [Shell];
  }

  lemma IdleFacts(s: State)
    requires Inv(s) && s.writer.Idle?
    ensures |s.frames| > 0 && s.cmdCount <= |s.cmd| && s.cmd[..s.cmdCount] == s.frames[|s.frames| - 1]
    ensures s.gen == Mod32(2 * (|s.frames| - 1))
  {
    hide Mod32;
  }

  /** A call of SnapWindows has ended with commands that are no published frame. */
  predicate HoldsTorn(s: State) {
    s.reader.Done? && s.result.Some? && s.snapN <= |s.snap| && s.snap[..s.snapN] !in s.frames
  }

  /** The shell has copied the first of two commands; then 2^31 frames go by. */
  lemma TornAttempt(s: State, r: State, a: Frame, b: Frame)
    requires Inv(s) && Inv(r) && |a| == |b| == 2 && a[0] != b[0] && a[1] != b[1]
    requires s.frames == [[], a] && s.writer.Idle? && s.reader == Snapping(1) && s.cCmd == 2 && |s.snap| > 0 && s.snap[0] == a[0]
    requires s.gen1 == Mod32(2)
    requires r == s.(gen := r.gen, cmdCount := r.cmdCount, cmd := r.cmd, build := r.build, frames := r.frames)
    requires |r.frames| == 2 + 0x8000_0000 && s.frames <= r.frames && forall k :: 2 <= k < |r.frames| ==> r.frames[k] == b
    ensures HoldsTorn(Run(r, [Shell, Shell]))
  {
    hide Inv, Mod32, Run;
    IdleFacts(r);
    BumpedCounter(2);
    var t := LastTwoSteps(r);
    assert r.cmd[..r.cmdCount][1] == b[1];
    forall k | 0 <= k < |t.frames|
      ensures t.frames[k] != t.snap[..2]
    {
      if k < 2 {
        assert r.frames[k] == s.frames[k];
      }
      assert t.snap[..2][0] == a[0] && t.snap[..2][1] == b[1];
    }
  }

  /** Without the limit a torn frame can be accepted: 2^31 frames published between two commands of one attempt. */
  lemma CounterWrapTears()
    ensures Inv(Init())
    ensures exists steps: seq<Step> :: HoldsTorn(Run(Init(), steps))
  {
    hide Inv, Run, Published, PublishSteps;
    var a, b := [Tile(1), Tile(2)], [Tile(3), Tile(4)];
    var s0 := FirstFrame(a);
    var s := FirstCommand(s0);
    var many := PublishMany(s, b, 0x8000_0000);
    TornAttempt(s, Run(s, many), a, b);
    InitInv();
    RunAppend(s, many, [Shell, Shell]);
    RunAppend(s0, FOUR, many + [Shell, Shell]);
    RunAppend(Init(), PublishSteps(a), FOUR + (many + [Shell, Shell]));
    assert HoldsTorn(Run(Init(), PublishSteps(a) + (FOUR + (many + [Shell, Shell]))));
  }

  /** The state after the first frame, of two commands. */
  lemma FirstFrame(a: Frame) returns (s: State)
    requires |a| == 2
    ensures Inv(Init()) && s == Run(Init(), PublishSteps(a)) && Inv(s)
    ensures s.writer.Idle? && s.reader.Ready? && s.frames == [[], a] && s.cmdCount == 2 && |s.cmd| > 0 && s.cmd[0] == a[0]
  {
    InitInv();
    PublishRuns(Init(), a);
    s := Published(Init(), a);
  }

  lemma FirstStep(s: State) returns (t: State)
    requires Inv(s) && s.reader.Ready?
    ensures Inv(t) && Run(s, [Shell]) == t && t == s.(snapN := 0, tries := 0, result := None, overrun := false, reader := ReadGen)
  {
    InvShape(s);
    hide Inv;
    t := ShellStep(s);
    ShellKeepsInv(s);
    RunOne(s, Shell);
  }

  lemma CopyFirst(s: State) returns (t: State)
    requires Inv(s) && s.reader == Snapping(0) && s.cCmd > 0
    ensures Inv(t) && Run(s, [Shell]) == t && |s.cmd| > 0 && |s.snap| > 0
    ensures t == s.(snap := s.snap[0 := s.cmd[0]], reader := Snapping(1))
  {
    InvShape(s);
    hide Inv;
    t := ShellStep(s);
    ShellKeepsInv(s);
    RunOne(s, Shell);
  }

  /** The shell's first four steps after the first frame, of two commands. */
  lemma FirstCommand(s0: State) returns (s: State)
    requires Inv(s0) && s0.writer.Idle? && s0.reader.Ready? && |s0.frames| == 2 && s0.cmdCount == 2
    ensures s == Run(s0, FOUR) && Inv(s) && s.writer.Idle? && s.frames == s0.frames
    ensures s.reader == Snapping(1) && s.cCmd == 2 && s.gen1 == Mod32(2) && |s.snap| > 0 && |s0.cmd| > 0 && s.snap[0] == s0.cmd[0]
  {
    hide Inv, Run, Mod32;
    var s1 := FirstStep(s0);
    var s2 := AttemptBegins(s1);
    IdleFacts(s2);
    s := CopyFirst(s2);
    RunAppend(s1, [Shell, Shell], [Shell]);
    RunAppend(s0, [Shell], [Shell, Shell] + [Shell]);
  }

  const FOUR: seq<Step> := [Shell] + ([Shell, Shell] + [Shell])

  // ---- the client's drawing calls

  /** The shared part of a window slot. */
  class DcWindow {
    var gen: nat
    var cmdCount: nat
    const cmd: array<Cmd>

    constructor ()
      ensures gen == cmdCount == 0 && cmd.Length == MAXCMD && fresh(cmd)
    {
      gen, cmdCount := 0, 0;
      cmd := new Cmd[MAXCMD](i => Cmd(0, 0, 0, 0, 0, 0, 0, []));
    }
  }

  class DcWin {
    const w: DcWindow
    const build: array<Cmd>
    var buildN: nat

    constructor (window: DcWindow)
      requires window.cmd.Length == MAXCMD
      ensures Valid() && w == window && buildN == 0 && fresh(build)
    {
      w, buildN := window, 0;
      build := new Cmd[MAXCMD](i => Cmd(0, 0, 0, 0, 0, 0, 0, []));
    }

    ghost predicate Valid()
      reads this
    {
      build.Length == w.cmd.Length == MAXCMD && build != w.cmd && buildN <= MAXCMD
    }

    /** The frame drawn so far. */
    ghost function Drawn(): Frame
      requires Valid()
      reads this, build
    {
      build[..buildN]
    }

    method BeginFrame()
      requires Valid()
      modifies this`buildN
      ensures Valid() && Drawn() == []
    {
      buildN := 0;
    }

    /** DCWinFill; past the command budget the call is dropped. Fields that other commands use keep what the slot of build held. */
    method Fill(x: int, y: int, width: int, height: int, color: nat)
      requires Valid()
      modifies this`buildN, build
      ensures Valid()
      ensures old(buildN) < 192 ==>
                var b := old(build[buildN]);
                Drawn() == old(Drawn()) + [b.(op := 1, x := x, y := y, w := width, h := height, color := color)]
      ensures old(buildN) >= 192 ==> Drawn() == old(Drawn())
    {
      if buildN >= MAXCMD {
        return;
      }
      var n := buildN;
      buildN := n + 1;
      build[n] := build[n].(op := 1, x := x, y := y, w := width, h := height, color := color);
    }

    /** The commands drawn go over the first ones of the window. */
    method CopyBuild()
      requires Valid()
      modifies w.cmd
      ensures Valid() && Drawn() == old(Drawn()) && w.cmd[..] == Drawn() + old(w.cmd[..])[buildN..]
    {
      ghost var f, c := Drawn(), w.cmd[..];
      var i := 0;
      while i < buildN
        invariant i <= buildN
        invariant forall j :: 0 <= j < MAXCMD ==> w.cmd[j] == if j < i then f[j] else c[j]
      {
        w.cmd[i] := build[i];
        i := i + 1;
      }
    }

    /** DCWinEndFrame: publishes what was drawn, exactly as the client's steps do when nothing interrupts them. */
    method EndFrame(ghost s: State)
      requires Valid() && Inv(s) && s.writer.Idle?
      requires s.gen == w.gen && s.cmdCount == w.cmdCount && s.cmd == w.cmd[..]
      modifies w, w.cmd
      ensures Valid() && Drawn() == old(Drawn())
      ensures |Drawn()| <= |s.cmd| && var r := Published(s, Drawn());
                && r == Run(s, PublishSteps(Drawn()))
                && r.gen == w.gen && r.cmdCount == w.cmdCount && r.cmd == w.cmd[..]
    {
      hide Inv, Run, PublishSteps;
      PublishRuns(s, Drawn());
      w.gen := Bumped(w.gen);
      CopyBuild();
      w.cmdCount := buildN;
      w.gen := Bumped(w.gen);
    }
  }
}
