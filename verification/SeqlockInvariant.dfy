/**
 * What holds in every state of the sequence lock, whatever step comes next: the client
 * has written a prefix of its frame, and as long as the counter has not moved, the
 * shell's copy is of the newest frame.
 */
module SeqlockInvariant {
  import opened Bytes
  import opened Seqlock

  predicate Shape(s: State) {
    && |s.cmd| == |s.snap| == MAXCMD && |s.build| <= MAXCMD && s.cCmd <= MAXCMD && |s.frames| > 0
    && s.gen == Mod32(Bumps(s))
  }

  /** What the client has written so far. */
  predicate ClientInv(s: State)
    requires Shape(s)
  {
    && s.cmdCount <= MAXCMD
    && match s.writer
       case Idle => s.cmd[..s.cmdCount] == s.frames[|s.frames| - 1]
       case Copying(i) => i <= |s.build| && s.cmd[..i] == s.build[..i]
       case Closing => s.cmdCount == |s.build| && s.cmd[..s.cmdCount] == s.build
  }

  /** As long as the counter has not moved since the attempt began, the copy so far is of the newest frame. */
  predicate AttemptInv(s: State)
    requires Shape(s)
  {
    match s.reader
    case ReadCount => Started(s)
    case Snapping(i) =>
      && Started(s) && i <= s.cCmd
      && (s.seen == Bumps(s) ==> s.cCmd == s.cmdCount && s.snap[..i] == s.cmd[..i])
    case _ => true
  }

  predicate Started(s: State) {
    s.seen <= Bumps(s) && s.seen % 2 == 0 && s.gen1 == Mod32(s.seen)
  }

  predicate Sorted(a: seq<nat>) {
    forall i, j :: 0 <= i < j < |a| ==> a[i] <= a[j]
  }

  /** What the shell holds at the end of a call is a whole published frame, or nothing. */
  predicate ResultInv(s: State)
    requires Shape(s)
  {
    && s.snapN <= MAXCMD
    && s.tries <= TRIES && (s.reader.ReadCount? || s.reader.Snapping? ==> s.tries < TRIES)
    && (s.result.None? ==> s.snapN == 0 && (s.reader.Done? ==> s.tries == TRIES))
    && (s.reader.Done? && s.result.Some? && !s.overrun ==>
          s.result.value < |s.frames| && s.snap[..s.snapN] == s.frames[s.result.value])
    && (s.result.Some? ==> s.reader.Done? || s.reader.Ready?)
  }

  predicate HistoryInv(s: State) {
    Sorted(s.accepted) && forall i :: 0 <= i < |s.accepted| ==> s.accepted[i] < |s.frames|
  }

  predicate Inv(s: State) {
    Shape(s) && ClientInv(s) && AttemptInv(s) && ResultInv(s) && HistoryInv(s)
  }

  lemma InitInv()
    ensures Inv(Init())
  {
  }

  lemma ClientKeepsInv(s: State, frame: Frame)
    requires Inv(s)
    ensures Inv(ClientStep(s, frame))
  {
    hide Sorted, Mod32;
    BumpedCounter(Bumps(s));
    var n := ClientStep(s, frame);
    match s.writer
    case Idle =>
    case Copying(i) =>
      if i < |s.build| {
        assert n.cmd[..i + 1] == s.cmd[..i] + [s.build[i]] == s.build[..i + 1];
      } else {
        assert n.cmd[..i] == s.build;
      }
    case Closing =>
      PublishKeeps(s, n);
  }

  lemma PublishKeeps(s: State, n: State)
    requires Inv(s) && s.writer.Closing? && n == s.(gen := Bumped(s.gen), writer := Idle, frames := s.frames + [s.build])
    ensures Inv(n)
  {
    hide Sorted, Mod32;
    BumpedCounter(Bumps(s));
    assert n.frames[|n.frames| - 1] == s.build;
    assert Bumps(n) == Bumps(s) + 1;
  }

  /** An even counter between publications means that the client is not writing. */
  lemma EvenIsIdle(s: State)
    requires Shape(s)
    ensures s.gen % 2 == 0 <==> s.writer.Idle?
  {
    hide Mod32;
    BumpedCounter(Bumps(s));
  }

  lemma ShellKeepsInv(s: State)
    requires Inv(s)
    ensures Inv(ShellStep(s))
  {
    hide Inv, ShellStep;
    if s.reader.Snapping? {
      if s.reader.next < s.cCmd {
        SnapKeepsInv(s);
      } else {
        CheckKeepsInv(s);
      }
    } else {
      StartKeepsInv(s);
    }
  }

  /** The steps around the copying. */
  lemma StartKeepsInv(s: State)
    requires Inv(s) && !s.reader.Snapping?
    ensures Inv(ShellStep(s))
  {
    hide Sorted, Mod32;
    BumpedCounter(Bumps(s));
  }

  lemma SnapKeepsInv(s: State)
    requires Inv(s) && s.reader.Snapping? && s.reader.next < s.cCmd
    ensures Inv(ShellStep(s))
  {
    hide Sorted, Mod32;
    var n, i := ShellStep(s), s.reader.next;
    assert s.seen == Bumps(s) ==> n.snap[..i + 1] == s.snap[..i] + [s.cmd[i]] == s.cmd[..i + 1];
  }

  lemma CheckKeepsInv(s: State)
    requires Inv(s) && s.reader.Snapping? && s.reader.next >= s.cCmd
    ensures Inv(ShellStep(s))
  {
    hide Sorted, Mod32;
    var n, i := ShellStep(s), s.reader.next;
    if s.gen1 == s.gen {
      AcceptKeepsHistory(s, n);
      if Bumps(s) - s.seen < WRAP {
        SameCounter(s.seen, Bumps(s));
        assert s.seen % 2 == 0 ==> s.writer.Idle?;
        assert s.snap[..i] == s.cmd[..s.cmdCount];
      }
    }
  }

  lemma AcceptKeepsHistory(s: State, n: State)
    requires HistoryInv(s) && n.frames == s.frames && |s.frames| > 0 && n.accepted == s.accepted + [|s.frames| - 1]
    ensures HistoryInv(n)
  {
  }

  lemma BumpedCounter(n: nat)
    ensures Bumped(Mod32(n)) == Mod32(n + 1)
    ensures Mod32(n) % 2 == n % 2
    ensures Mod32(n + WRAP) == Mod32(n)
  {
  }

  lemma SameCounter(a: int, b: int)
    requires 0 <= a <= b < a + WRAP && Mod32(a) == Mod32(b)
    ensures a == b
  {
  }
}
