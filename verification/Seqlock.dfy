/**
 * The hand-off of a window's draw commands from a client to the shell: DCWinEndFrame
 * writes them under a sequence counter, SnapWindows copies them and checks it.
 * Every access to a shared field, and every command copied, is one step; a run is
 * any interleaving of the two sides' steps during one lifetime of a window slot.
 */
module Seqlock {
  import opened Bytes

  const MAXCMD: nat := 192
  const TRIES: nat := 8
  const WRAP: nat := 0x1_0000_0000 // gen is a DWORD

  datatype Cmd = Cmd(op: nat, x: int, y: int, w: int, h: int, color: nat, color2: nat, text: seq<nat>)

  type Frame = seq<Cmd>

  datatype Writer = Idle | Copying(next: nat) | Closing

  datatype Reader = Ready | ReadGen | ReadCount | Snapping(next: nat) | Done

  /** frames, seen, overrun, result and accepted record the history; no step depends on them. */
  datatype State = State(
    gen: nat, cmdCount: nat, cmd: seq<Cmd>, // shared
    writer: Writer, build: Frame, // the client
    reader: Reader, tries: nat, gen1: nat, cCmd: nat, snap: seq<Cmd>, snapN: nat, // the shell
    frames: seq<Frame>, // all frames published
    seen: nat, // counter increments before the current attempt
    overrun: bool, // the counter went all the way round during the attempt that this call accepted
    result: Option<nat>, // the frame number that this call of SnapWindows accepted
    accepted: seq<nat>) // the frame numbers accepted so far

  /** A client step may start publishing any frame; otherwise a side goes on where it is. */
  datatype Step = Client(frame: Frame) | Shell

  function Blank(n: nat): (r: seq<Cmd>)
    ensures |r| == n
  {
    if n == 0 then [] else Blank(n - 1) + [Cmd(0, 0, 0, 0, 0, 0, 0, [])]
  }

  /** A slot that DCWinOpen has just initialised, and a shell that has copied nothing. */
  function Init(): State {
    State(0, 0, Blank(MAXCMD), Idle, [], Ready, 0, 0, 0, Blank(MAXCMD), 0, [[]], 0, false, None, [])
  }

  /** How often gen has been incremented. */
  function Bumps(s: State): int {
    2 * (|s.frames| - 1) + if s.writer.Idle? then 0 else 1
  }

  /** A DWORD that has been incremented n times from 0. */
  function Mod32(n: int): nat {
    n % WRAP
  }

  function Bumped(gen: nat): nat {
    if gen + 1 == WRAP then 0 else gen + 1
  }

  function ClientStep(s: State, frame: Frame): State
    requires |s.cmd| == MAXCMD && |s.build| <= MAXCMD
  {
    match s.writer
    case Idle => if |frame| > MAXCMD then s else s.(gen := Bumped(s.gen), build := frame, writer := Copying(0))
    case Copying(i) =>
      if i < |s.build| then s.(cmd := s.cmd[i := s.build[i]], writer := Copying(i + 1))
      else s.(cmdCount := |s.build|, writer := Closing)
    case Closing => s.(gen := Bumped(s.gen), writer := Idle, frames := s.frames + [s.build])
  }

  function ShellStep(s: State): State
    requires |s.cmd| == |s.snap| == MAXCMD && s.cCmd <= MAXCMD && |s.frames| > 0
  {
    match s.reader
    case Ready => s.(snapN := 0, tries := 0, result := None, overrun := false, reader := ReadGen)
    case ReadGen =>
      if s.tries >= TRIES then s.(reader := Done)
      else if s.gen % 2 == 1 then s.(tries := s.tries + 1)
      else s.(gen1 := s.gen, seen := Bumps(s), reader := ReadCount)
    case ReadCount => s.(cCmd := if s.cmdCount > MAXCMD then MAXCMD else s.cmdCount, reader := Snapping(0))
    case Snapping(i) =>
      if i < s.cCmd then s.(snap := s.snap[i := s.cmd[i]], reader := Snapping(i + 1))
      else if s.gen1 == s.gen then
        s.(snapN := s.cCmd, reader := Done, result := Some(|s.frames| - 1), accepted := s.accepted + [|s.frames| - 1],
           overrun := Bumps(s) - s.seen >= WRAP)
      else s.(tries := s.tries + 1, reader := ReadGen)
    case Done => s.(reader := Ready)
  }
}
