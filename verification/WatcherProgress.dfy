/** The console watcher misses nothing: as long as the kernel hands bytes over it reads on to the end
    of the log. */
module WatcherProgress {
  import opened Basics
  import opened ConsoleMarks
  import opened ConsoleWatcher
  import WatcherExit

  /** A turn that finds the file open reads if there is anything to read and the kernel gives at least
      a byte, and reads all there is, up to 64 KiB, if the kernel gives that much. Otherwise the offset
      stays. */
  lemma TurnReads(c: Control, p: Poll)
    requires !c.quit && c.off <= |p.file|
    ensures c.off <= Turn(c, p).off <= |p.file|
    ensures !p.isOpen ==> Turn(c, p).off == c.off
    ensures p.isOpen && c.off < |p.file| && p.want >= 1 ==> Turn(c, p).off > c.off
    ensures p.isOpen && p.want >= Min(65536, |p.file| - c.off)
            ==> Turn(c, p).off == c.off + Min(65536, |p.file| - c.off)
    ensures Turn(c, p).off > c.off ==> !Turn(c, p).quit && Turn(c, p).idle == p.now
  {
  }

  /** The last `n` polls find the log open, in its final state, and get all they can ask for. */
  ghost predicate Settled(polls: seq<Poll>, n: nat) {
    n <= |polls| &&
    forall k | |polls| - n <= k < |polls| :: polls[k].isOpen && polls[k].want >= 65536 && polls[k].file == Log(polls)
  }

  lemma SettledBefore(polls: seq<Poll>, n: nat)
    requires n > 1 && Settled(polls, n)
    ensures Settled(polls[..|polls| - 1], n - 1) && Log(polls[..|polls| - 1]) == Log(polls)
  {
    assert polls[|polls| - 2].file == Log(polls);
  }

  lemma OneMorePoll(start: int, polls: seq<Poll>)
    requires AppendOnly(polls) && polls != []
    ensures var front := polls[..|polls| - 1];
            && AppendOnly(front) && Run(start, front).off <= |polls[|polls| - 1].file|
            && Run(start, polls)
               == if Run(start, front).quit then Run(start, front) else Turn(Run(start, front), polls[|polls| - 1])
  {
    var front := polls[..|polls| - 1];
    WatcherExit.PrefixesAgree(start, polls);
    WatcherExit.OffWithinLog(start, front);
    if front != [] {
      assert polls[|front| - 1].file <= polls[|front|].file;
    }
  }

  /** Each settled turn reads 64 KiB or comes to the end; the watcher does not stop before that. */
  lemma {:induction false} SettledTurnsRead(start: int, polls: seq<Poll>, n: nat)
    requires AppendOnly(polls) && Settled(polls, n) && !Run(start, polls[..|polls| - n]).quit
    ensures var c := Run(start, polls);
            && c.off <= |Log(polls)|
            && (n > 0 ==> c.off >= Min(|Log(polls)|, n * 65536))
            && (c.quit ==> n > 0 && c.off == |Log(polls)|)
    decreases n, 0
  {
    WatcherExit.OffWithinLog(start, polls);
    if n == 0 {
      assert polls[..|polls|] == polls;
    } else {
      var front := polls[..|polls| - 1];
      OneMorePoll(start, polls);
      if n > 1 { SettledBefore(polls, n); }
      assert polls[..|polls| - n] == front[..|front| - (n - 1)];
      SettledFront(start, polls, n);
      var c, p := Run(start, front), polls[|polls| - 1];
      if !c.quit { TurnReads(c, p); }
    }
  }

  /** The induction of SettledTurnsRead, where what comes before the last poll is settled too. */
  lemma {:induction false} SettledFront(start: int, polls: seq<Poll>, n: nat)
    requires AppendOnly(polls) && n > 0 && Settled(polls, n) && !Run(start, polls[..|polls| - n]).quit
    ensures var c := Run(start, polls[..|polls| - 1]);
            && (c.quit ==> c.off == |Log(polls)|)
            && (c.off >= Min(|Log(polls)|, (n - 1) * 65536))
    decreases n - 1, 1
  {
    var front := polls[..|polls| - 1];
    assert polls[..|polls| - n] == front[..|front| - (n - 1)];
    if n == 1 {
      assert front[..|front|] == front;
    } else {
      SettledBefore(polls, n);
      OneMorePoll(start, polls);
      SettledTurnsRead(start, front, n - 1);
    }
  }

  lemma {:induction false} QuitStays(start: int, polls: seq<Poll>, used: nat)
    requires used <= |polls| && Run(start, polls[..used]).quit
    ensures Run(start, polls) == Run(start, polls[..used])
    decreases |polls|
  {
    if used == |polls| {
      assert polls[..used] == polls;
    } else {
      assert polls[..|polls| - 1][..used] == polls[..used];
      QuitStays(start, polls[..|polls| - 1], used);
    }
  }

  lemma {:induction false} PrefixOfLog(polls: seq<Poll>, used: nat)
    requires AppendOnly(polls) && used <= |polls|
    ensures Log(polls[..used]) <= Log(polls)
    decreases |polls|
  {
    if used == |polls| {
      assert polls[..used] == polls;
    } else {
      var front := polls[..|polls| - 1];
      assert front[..used] == polls[..used];
      PrefixOfLog(front, used);
      if front != [] { assert polls[|front| - 1].file <= polls[|front|].file; }
    }
  }

  lemma PrefixAppendOnly(polls: seq<Poll>, used: nat)
    requires AppendOnly(polls) && used <= |polls|
    ensures AppendOnly(polls[..used])
  {
  }

  /** A watcher still running when the log stops growing finds it all: with as many settled polls as
      the log has blocks of 64 KiB, what WatchConsoleForMarks has consumed, after `used` polls, is the
      whole log, so that its events are the marks of all its lines. */
  lemma EveryMarkIsFound(start: int, polls: seq<Poll>, n: nat, used: nat)
    requires AppendOnly(polls) && n > 0 && Settled(polls, n) && n * 65536 >= |Log(polls)|
    requires !Run(start, polls[..|polls| - n]).quit
    requires used <= |polls| && (Run(start, polls[..used]).quit || used == |polls|)
    ensures var off := Run(start, polls[..used]).off;
            && off == |Log(polls)| && off <= |Log(polls[..used])|
            && Log(polls[..used])[..off] == Log(polls)
  {
    SettledTurnsRead(start, polls, n);
    if used == |polls| {
      assert polls[..used] == polls;
    } else {
      QuitStays(start, polls, used);
      PrefixOfLog(polls, used);
    }
    PrefixAppendOnly(polls, used);
    WatcherExit.OffWithinLog(start, polls[..used]);
  }
}
