/** When the console watcher stops: never while bytes still come, and soon after they cease. */
module WatcherExit {
  import opened Basics
  import opened ConsoleWatcher

  function Pause(sleeps: bool, ms: nat): int { if sleeps then ms * MILLISECOND else 0 }

  /** Every sleep lasts at least as long as asked: 20 ms after a turn that opened the file, and
      50 ms before the clock is read in a turn that could not. */
  ghost predicate SleepsHonoured(start: int, polls: seq<Poll>) {
    && (polls != [] ==> polls[0].now >= start + Pause(!polls[0].isOpen, 50))
    && forall k | 1 <= k < |polls| ::
         polls[k].now >= polls[k - 1].now + Pause(polls[k - 1].isOpen, 20) + Pause(!polls[k].isOpen, 50)
  }

  /** Turn `k` read at least one byte. */
  ghost predicate Grew(start: int, polls: seq<Poll>, k: nat)
    requires k < |polls|
  {
    Run(start, polls[..k + 1]).off > Run(start, polls[..k]).off
  }

  /** How many turns have passed since a byte was last read. */
  ghost function Since(start: int, polls: seq<Poll>): nat {
    if polls == [] then 0
    else
      var front := polls[..|polls| - 1];
      if Run(start, polls).off > Run(start, front).off then 0 else 1 + Since(start, front)
  }

  lemma PrefixesAgree(start: int, polls: seq<Poll>)
    requires polls != []
    ensures var front := polls[..|polls| - 1];
            && (forall k | 0 <= k < |front| :: Grew(start, polls, k) <==> Grew(start, front, k))
            && (SleepsHonoured(start, polls) ==> SleepsHonoured(start, front))
            && (AppendOnly(polls) ==> AppendOnly(front))
  {
    var front := polls[..|polls| - 1];
    forall k | 0 <= k < |front|
      ensures Grew(start, polls, k) <==> Grew(start, front, k)
    {
      assert polls[..k + 1] == front[..k + 1] && polls[..k] == front[..k];
    }
  }

  /** The account of a loop that is still running: 20 ms of idle time for every quiet turn, hence
      at most 1500 of them, hence a number of turns bounded by the bytes read. */
  ghost predicate Account(c: Control, since: int, turns: int, now: int, slept: int) {
    var quiet := if c.off > 0 then since else since - 1;
    && since >= 0 && quiet <= 1500
    && now - c.idle >= 20 * MILLISECOND * quiet + slept
    && turns <= 1501 * c.off + since + (if c.off > 0 then 1 else 0)
  }

  lemma AccountStep(c: Control, since: int, turns: int, now: int, slept: int, p: Poll, gap: int)
    requires !c.quit && !Turn(c, p).quit && Account(c, since, turns, now, slept)
    requires p.now >= now + gap && gap + slept >= 20 * MILLISECOND + Pause(!p.isOpen, 20)
    ensures Account(Turn(c, p), if Turn(c, p).off > c.off then 0 else since + 1, turns + 1, p.now,
                    Pause(!p.isOpen, 20))
  {
  }

  lemma {:induction false} IdleAccount(start: int, polls: seq<Poll>)
    requires polls != [] && SleepsHonoured(start, polls) && !Run(start, polls).quit
    ensures var last := polls[|polls| - 1];
            Account(Run(start, polls), Since(start, polls), |polls|, last.now, Pause(!last.isOpen, 20))
  {
    var front, p := polls[..|polls| - 1], polls[|polls| - 1];
    PrefixesAgree(start, polls);
    if front == [] {
      // before the first turn: one turn in credit, and no time gone
      AccountStep(Run(start, front), 0, 0, start - 20 * MILLISECOND, 0, p,
                  20 * MILLISECOND + Pause(!p.isOpen, 50));
    } else {
      var q := front[|front| - 1];
      assert q == polls[|polls| - 2];
      IdleAccount(start, front);
      AccountStep(Run(start, front), Since(start, front), |front|, q.now, Pause(!q.isOpen, 20), p,
                  Pause(q.isOpen, 20) + Pause(!p.isOpen, 50));
    }
  }

  lemma {:induction false} OffWithinLog(start: int, polls: seq<Poll>)
    requires AppendOnly(polls)
    ensures Run(start, polls).off <= |Log(polls)|
  {
    if polls != [] {
      var front := polls[..|polls| - 1];
      PrefixesAgree(start, polls);
      OffWithinLog(start, front);
      if front != [] {
        assert polls[|front| - 1].file <= polls[|front|].file;
      }
    }
  }

  /** A log that never exceeds `size` bytes keeps the watcher busy for at most 1501 turns a byte. */
  lemma QuitsOnFiniteLog(start: int, polls: seq<Poll>, size: nat)
    requires SleepsHonoured(start, polls) && AppendOnly(polls) && |Log(polls)| <= size
    requires |polls| > 1501 * (size + 1)
    ensures Run(start, polls).quit
  {
    OffWithinLog(start, polls);
    if !Run(start, polls).quit {
      IdleAccount(start, polls);
      assert false;
    }
  }

  lemma {:induction false} OffNeverShrinks(start: int, polls: seq<Poll>, k: nat)
    requires k <= |polls|
    ensures Run(start, polls[..k]).off <= Run(start, polls).off
  {
    if k == |polls| {
      assert polls[..k] == polls;
    } else {
      OffNeverShrinks(start, polls[..|polls| - 1], k);
      assert polls[..|polls| - 1][..k] == polls[..k];
    }
  }

  lemma {:induction false} SinceCountsQuietTurns(start: int, polls: seq<Poll>, g: nat)
    requires g < |polls| && Run(start, polls[..g + 1]).off == Run(start, polls).off
    ensures Since(start, polls) >= |polls| - (g + 1)
    decreases |polls|
  {
    if g + 1 < |polls| {
      var front := polls[..|polls| - 1];
      assert polls[..g + 1] == front[..g + 1];
      OffNeverShrinks(start, front, g + 1);
      SinceCountsQuietTurns(start, front, g);
    }
  }

  /** If turn `g` reads the last byte there is, the watcher has stopped 1501 turns later. */
  lemma QuitsAfterLastByte(start: int, polls: seq<Poll>, g: nat)
    requires SleepsHonoured(start, polls)
    requires g < |polls| && Grew(start, polls, g)
    requires Run(start, polls[..g + 1]).off == Run(start, polls).off
    requires |polls| >= g + 1 + 1501
    ensures Run(start, polls).quit
  {
    if !Run(start, polls).quit {
      IdleAccount(start, polls);
      SinceCountsQuietTurns(start, polls, g);
      assert false;
    }
  }

  lemma TurnKeepsIdle(c: Control, p: Poll, now: int)
    requires !Turn(c, p).quit && c.idle <= now <= p.now
    ensures c.idle <= Turn(c, p).idle <= p.now
    ensures Turn(c, p).off > c.off ==> Turn(c, p).idle == p.now
  {
  }

  /** The idle clock runs from a moment between the start and the last reading. */
  lemma {:induction false} IdleBetween(start: int, polls: seq<Poll>)
    requires SleepsHonoured(start, polls) && !Run(start, polls).quit
    ensures start <= Run(start, polls).idle
    ensures Run(start, polls).idle <= if polls == [] then start else polls[|polls| - 1].now
  {
    if polls != [] {
      var front := polls[..|polls| - 1];
      PrefixesAgree(start, polls);
      IdleBetween(start, front);
      var now := if front == [] then start else front[|front| - 1].now;
      assert front != [] ==> now == polls[|polls| - 2].now;
      TurnKeepsIdle(Run(start, front), polls[|polls| - 1], now);
    }
  }

  /** It is never set back past a turn that read a byte. */
  lemma {:induction false} IdleAfterGrowth(start: int, polls: seq<Poll>, j: nat)
    requires SleepsHonoured(start, polls) && !Run(start, polls).quit
    requires j < |polls| && Grew(start, polls, j)
    ensures polls[j].now <= Run(start, polls).idle
    decreases |polls|
  {
    var front := polls[..|polls| - 1];
    PrefixesAgree(start, polls);
    if j == |front| {
      assert polls[..j + 1] == polls;
    } else {
      IdleAfterGrowth(start, front, j);
      IdleBetween(start, front);
      assert front[|front| - 1].now == polls[|polls| - 2].now;
      TurnKeepsIdle(Run(start, front), polls[|polls| - 1], front[|front| - 1].now);
    }
  }

  /** The watcher stops only in a turn that read nothing, more than 30 s after it began and more
      than 30 s after every turn that read a byte. */
  lemma NeverQuitsEarly(start: int, polls: seq<Poll>)
    requires polls != [] && SleepsHonoured(start, polls)
    requires Run(start, polls).quit && !Run(start, polls[..|polls| - 1]).quit
    ensures var last := polls[|polls| - 1].now;
            && !Grew(start, polls, |polls| - 1)
            && last - start > 30_000_000_000
            && forall j | 0 <= j < |polls| && Grew(start, polls, j) :: last - polls[j].now > 30_000_000_000
  {
    var front := polls[..|polls| - 1];
    PrefixesAgree(start, polls);
    IdleBetween(start, front);
    assert polls[..|polls|] == polls;
    forall j | 0 <= j < |polls| && Grew(start, polls, j)
      ensures polls[|polls| - 1].now - polls[j].now > 30_000_000_000
    {
      IdleAfterGrowth(start, front, j);
    }
  }
}
