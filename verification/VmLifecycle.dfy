/** The life of a VM's host process: StartVM, its wait goroutine, StopVM and DeleteVM, as atomic
    steps that may interleave in any way over many directories and many generations of each.

    The caller keeps to the discipline StartVM's comment asks for: it starts a directory only when
    its vm.pid is absent and no StartVM is under way there. Writing vm.pid succeeds. The kernel
    never gives a new process the pid of one that has not been reaped; a reaped pid may come
    back. */
module VmLifecycle {
  import opened Basics
  import opened Decimal
  import FileSystem

  type Dir = FileSystem.Path

  /** How far StartVM and then the wait goroutine have come with one child. */
  datatype Phase =
    | Forked   // cmd.Start has returned
    | Recorded // the write of vm.pid is over; unless it can fail, the file is there
    | Waited   // the wait goroutine runs and StartVM has returned
    | Reaped   // cmd.Wait has returned
    | Removed  // vm.pid is removed
    | Notified // OnVMExit has been called

  datatype Child = Child(dir: Dir, pid: int, phase: Phase, running: bool)

  /** A StopVM call between reading vm.pid and sending the signal. `born` is how many children had
      been forked when it read the file. */
  datatype Stop = Stop(dir: Dir, pid: int, born: nat)

  /** A child's index is its generation. */
  datatype State = State(pidFile: map<Dir, Bytes>, children: seq<Child>, stops: seq<Stop>, exits: seq<nat>)

  const INITIAL: State := State(map[], [], [], [])

  predicate InFlight(c: Child) { c.phase.Forked? || c.phase.Recorded? }

  predicate Unreaped(c: Child) { c.phase.Forked? || c.phase.Recorded? || c.phase.Waited? }

  predicate HoldsFile(c: Child) { c.phase.Recorded? || c.phase.Waited? || c.phase.Reaped? }

  predicate DoneWithFile(c: Child) { c.phase.Removed? || c.phase.Notified? }

  datatype Step =
    | Fork(dir: Dir, pid: int)
    | WritePid(g: nat)
    | SkipPid(g: nat) // the write failed, and StartVM goes on
    | Launch(g: nat)
    | Exit(g: nat)
    | Reap(g: nat)
    | Remove(g: nat)
    | Notify(g: nat)
    | Delete(dir: Dir)
    | ReadPid(dir: Dir)

  /** What the caller of DeleteVM waits for, and whether the write of vm.pid can fail. */
  datatype Rule = PidFileAbsent | ChildReaped | WritesMayFail

  predicate MayFork(s: State, dir: Dir, pid: int) {
    && dir !in s.pidFile
    && 0 < pid <= 0x7fff_ffff
    && forall g | 0 <= g < |s.children| ::
         (s.children[g].dir == dir ==> !InFlight(s.children[g]))
         && (Unreaped(s.children[g]) ==> s.children[g].pid != pid)
  }

  predicate MayDelete(s: State, dir: Dir, rule: Rule) {
    match rule
    case PidFileAbsent => dir !in s.pidFile
    case WritesMayFail => dir !in s.pidFile
    case ChildReaped => forall g | 0 <= g < |s.children| && s.children[g].dir == dir :: !Unreaped(s.children[g])
  }

  function Moved(s: State, g: nat, phase: Phase): State
    requires g < |s.children|
  {
    s.(children := s.children[g := s.children[g].(phase := phase)])
  }

  predicate AtPhase(s: State, g: nat, phase: Phase) { g < |s.children| && s.children[g].phase == phase }

  /** One atomic step, or None where it cannot be taken. */
  function Next(s: State, step: Step, rule: Rule): Option<State> {
    match step
    case Fork(dir, pid) =>
      if MayFork(s, dir, pid) then Some(s.(children := s.children + [Child(dir, pid, Forked, true)])) else None
    case WritePid(g) =>
      if !AtPhase(s, g, Forked) then None
      else
        var c := s.children[g];
        Some(Moved(s, g, Recorded).(pidFile := s.pidFile[c.dir := Itoa(c.pid)]))
    case SkipPid(g) =>
      if rule.WritesMayFail? && AtPhase(s, g, Forked) then Some(Moved(s, g, Recorded)) else None
    case Launch(g) => if AtPhase(s, g, Recorded) then Some(Moved(s, g, Waited)) else None
    case Exit(g) =>
      if g < |s.children| && Unreaped(s.children[g]) then
        Some(s.(children := s.children[g := s.children[g].(running := false)]))
      else None
    case Reap(g) =>
      if AtPhase(s, g, Waited) && !s.children[g].running then Some(Moved(s, g, Reaped)) else None
    case Remove(g) =>
      if AtPhase(s, g, Reaped) then
        Some(Moved(s, g, Removed).(pidFile := s.pidFile - {s.children[g].dir}))
      else None
    case Notify(g) =>
      if AtPhase(s, g, Removed) then Some(Moved(s, g, Notified).(exits := s.exits + [g])) else None
    case Delete(dir) =>
      if MayDelete(s, dir, rule) then Some(s.(pidFile := s.pidFile - {dir})) else None
    case ReadPid(dir) =>
      if dir !in s.pidFile then Some(s) // already stopped
      else
        match Atoi(TrimSpace(s.pidFile[dir]))
        case None => Some(s) // StopVM reports a malformed file
        case Some(pid) => Some(s.(stops := s.stops + [Stop(dir, pid, |s.children|)]))
  }

  function Run(steps: seq<Step>, rule: Rule): Option<State> {
    if steps == [] then Some(INITIAL)
    else
      match Run(steps[..|steps| - 1], rule)
      case None => None
      case Some(s) => Next(s, steps[|steps| - 1], rule)
  }

  // -- The invariant -------------------------------------------------------------------------

  /** Only the last generation of a directory is not done with vm.pid. */
  ghost predicate OneGeneration(s: State) {
    forall g, h | 0 <= g < h < |s.children| && s.children[g].dir == s.children[h].dir :: DoneWithFile(s.children[g])
  }

  /** A child that holds vm.pid finds its own pid there. */
  ghost predicate FilesMatch(s: State) {
    forall g | 0 <= g < |s.children| && HoldsFile(s.children[g]) ::
      s.children[g].dir in s.pidFile && s.pidFile[s.children[g].dir] == Itoa(s.children[g].pid)
  }

  predicate Holder(s: State, g: nat, dir: Dir) {
    g < |s.children| && s.children[g].dir == dir && HoldsFile(s.children[g])
  }

  /** No vm.pid is there without a child that holds it. */
  ghost predicate FilesHeld(s: State) {
    forall d | d in s.pidFile :: exists g: nat :: Holder(s, g, d)
  }

  /** No two unreaped processes share a pid. */
  ghost predicate PidsDistinct(s: State) {
    && (forall g, h | 0 <= g < h < |s.children| && Unreaped(s.children[g]) && Unreaped(s.children[h]) ::
          s.children[g].pid != s.children[h].pid)
    && (forall g | 0 <= g < |s.children| :: 0 < s.children[g].pid <= 0x7fff_ffff)
  }

  /** Exits are reported once each, and only for children that were reaped and cleaned up. */
  ghost predicate ExitsMatch(s: State) {
    && (forall g | 0 <= g < |s.children| :: g in s.exits <==> s.children[g].phase.Notified?)
    && (forall i | 0 <= i < |s.exits| :: s.exits[i] < |s.children|)
    && (forall i, j | 0 <= i < j < |s.exits| :: s.exits[i] != s.exits[j])
    && (forall g | 0 <= g < |s.children| && !Unreaped(s.children[g]) :: !s.children[g].running)
  }

  /** `g` is the last child forked for `dir` among the first `born`. */
  ghost predicate IsLatest(s: State, g: nat, dir: Dir, born: nat) {
    && g < born <= |s.children|
    && s.children[g].dir == dir
    && forall h | g < h < born :: s.children[h].dir != dir
  }

  /** Child `g` is the one whose pid the StopVM read. */
  ghost predicate ReadFrom(s: State, stop: Stop, g: nat) {
    IsLatest(s, g, stop.dir, stop.born) && s.children[g].pid == stop.pid
  }

  ghost predicate HasSource(s: State, stop: Stop) { exists g: nat :: ReadFrom(s, stop, g) }

  /** Whatever StopVM read is the pid of the last child started for that directory. */
  ghost predicate StopsMatch(s: State) {
    forall k | 0 <= k < |s.stops| :: HasSource(s, s.stops[k])
  }

  ghost predicate Inv(s: State) {
    OneGeneration(s) && FilesMatch(s) && FilesHeld(s) && PidsDistinct(s) && ExitsMatch(s) && StopsMatch(s)
  }

  /** Children keep their directory and pid. */
  ghost predicate Extends(s: State, t: State) {
    && |s.children| <= |t.children|
    && forall g | 0 <= g < |s.children| ::
         t.children[g].dir == s.children[g].dir && t.children[g].pid == s.children[g].pid
  }

  lemma StopsKept(s: State, t: State)
    requires StopsMatch(s) && Extends(s, t) && t.stops == s.stops
    ensures StopsMatch(t)
  {
    forall k | 0 <= k < |t.stops|
      ensures HasSource(t, t.stops[k])
    {
      var g: nat :| ReadFrom(s, s.stops[k], g);
      assert ReadFrom(t, t.stops[k], g);
    }
  }

  lemma ForkKeepsFiles(s: State, t: State, c: Child)
    requires FilesMatch(s) && FilesHeld(s) && !HoldsFile(c)
    requires t.children == s.children + [c] && t.pidFile == s.pidFile
    ensures FilesMatch(t) && FilesHeld(t)
  {
    forall d | d in t.pidFile
      ensures exists g: nat :: Holder(t, g, d)
    {
      var g: nat :| Holder(s, g, d);
      assert Holder(t, g, d);
    }
  }

  lemma ForkKeepsExits(s: State, t: State, c: Child)
    requires ExitsMatch(s) && Unreaped(c) && t.children == s.children + [c] && t.exits == s.exits
    ensures ExitsMatch(t)
  {
    assert |s.children| !in s.exits;
  }

  /** No earlier child of the directory still needs vm.pid when the caller may fork. */
  lemma ForkKeepsChildren(s: State, t: State, dir: Dir, pid: int)
    requires OneGeneration(s) && PidsDistinct(s) && FilesMatch(s) && MayFork(s, dir, pid)
    requires t.children == s.children + [Child(dir, pid, Forked, true)]
    ensures OneGeneration(t) && PidsDistinct(t)
  {
    assert forall g | 0 <= g < |s.children| && s.children[g].dir == dir :: DoneWithFile(s.children[g]);
  }

  lemma ForkKeeps(s: State, dir: Dir, pid: int)
    requires Inv(s) && MayFork(s, dir, pid)
    ensures Inv(Next(s, Fork(dir, pid), PidFileAbsent).value)
  {
    var t := Next(s, Fork(dir, pid), PidFileAbsent).value;
    var c := Child(dir, pid, Forked, true);
    StopsKept(s, t);
    ForkKeepsFiles(s, t, c);
    ForkKeepsExits(s, t, c);
    ForkKeepsChildren(s, t, dir, pid);
  }

  /** `t` differs from `s` only in how far child `g` has come, and perhaps in vm.pid and exits. */
  ghost predicate Advanced(s: State, t: State, g: nat) {
    && g < |s.children| == |t.children| && t.stops == s.stops
    && (forall h | 0 <= h < |s.children| && h != g :: t.children[h] == s.children[h])
    && t.children[g].dir == s.children[g].dir && t.children[g].pid == s.children[g].pid
    && (Unreaped(t.children[g]) ==> Unreaped(s.children[g]))
    && (DoneWithFile(s.children[g]) ==> DoneWithFile(t.children[g]))
  }

  lemma AdvanceKeeps(s: State, t: State, g: nat)
    requires OneGeneration(s) && PidsDistinct(s) && StopsMatch(s) && Advanced(s, t, g)
    ensures OneGeneration(t) && PidsDistinct(t) && StopsMatch(t)
  {
    StopsKept(s, t);
  }

  /** Moving on without touching any file. */
  lemma SameFiles(s: State, t: State, g: nat)
    requires FilesMatch(s) && FilesHeld(s) && Advanced(s, t, g) && t.pidFile == s.pidFile
    requires HoldsFile(t.children[g]) == HoldsFile(s.children[g])
    ensures FilesMatch(t) && FilesHeld(t)
  {
    forall d | d in t.pidFile
      ensures exists h: nat :: Holder(t, h, d)
    {
      var h: nat :| Holder(s, h, d);
      assert Holder(t, h, d);
    }
  }

  /** Moving on without reporting an exit. */
  lemma SameExits(s: State, t: State, g: nat)
    requires ExitsMatch(s) && Advanced(s, t, g) && t.exits == s.exits
    requires t.children[g].phase.Notified? == s.children[g].phase.Notified?
    requires Unreaped(t.children[g]) || !t.children[g].running
    ensures ExitsMatch(t)
  {
  }

  lemma OneMoreExit(s: State, t: State, g: nat)
    requires ExitsMatch(s) && Advanced(s, t, g) && AtPhase(s, g, Removed) && AtPhase(t, g, Notified)
    requires t.exits == s.exits + [g] && !t.children[g].running
    ensures ExitsMatch(t)
  {
    assert g !in s.exits;
    forall h | 0 <= h < |t.children|
      ensures h in t.exits <==> t.children[h].phase.Notified?
    {
      assert h in t.exits <==> h in s.exits || h == g;
    }
  }

  lemma LaunchKeeps(s: State, g: nat)
    requires Inv(s) && AtPhase(s, g, Recorded)
    ensures Inv(Moved(s, g, Waited))
  {
    var t := Moved(s, g, Waited);
    AdvanceKeeps(s, t, g);
    SameFiles(s, t, g);
    SameExits(s, t, g);
  }

  lemma ExitKeeps(s: State, g: nat)
    requires Inv(s) && g < |s.children| && Unreaped(s.children[g])
    ensures Inv(s.(children := s.children[g := s.children[g].(running := false)]))
  {
    var t := s.(children := s.children[g := s.children[g].(running := false)]);
    AdvanceKeeps(s, t, g);
    SameFiles(s, t, g);
    SameExits(s, t, g);
  }

  lemma ReapKeeps(s: State, g: nat)
    requires Inv(s) && AtPhase(s, g, Waited) && !s.children[g].running
    ensures Inv(Moved(s, g, Reaped))
  {
    var t := Moved(s, g, Reaped);
    AdvanceKeeps(s, t, g);
    SameFiles(s, t, g);
    SameExits(s, t, g);
  }

  lemma NotifyKeeps(s: State, g: nat)
    requires Inv(s) && AtPhase(s, g, Removed)
    ensures Inv(Moved(s, g, Notified).(exits := s.exits + [g]))
  {
    var t := Moved(s, g, Notified).(exits := s.exits + [g]);
    AdvanceKeeps(s, t, g);
    SameFiles(s, t, g);
    OneMoreExit(s, t, g);
  }

  /** No other child of the directory of `g` needs vm.pid. */
  ghost predicate OthersDone(s: State, g: nat)
    requires g < |s.children|
  {
    forall h | 0 <= h < |s.children| && h != g && s.children[h].dir == s.children[g].dir :: DoneWithFile(s.children[h])
  }

  /** A child that is not done with vm.pid is the only such child of its directory. */
  lemma OnlyOneHolds(s: State, g: nat)
    requires OneGeneration(s) && g < |s.children| && !DoneWithFile(s.children[g])
    ensures OthersDone(s, g)
    ensures IsLatest(s, g, s.children[g].dir, |s.children|)
  {
    forall h | g < h < |s.children|
      ensures s.children[h].dir != s.children[g].dir
    {
    }
  }

  lemma WriteMatches(s: State, t: State, g: nat)
    requires FilesMatch(s) && FilesHeld(s) && Advanced(s, t, g) && AtPhase(t, g, Recorded) && OthersDone(s, g)
    requires t.pidFile == s.pidFile[s.children[g].dir := Itoa(s.children[g].pid)]
    ensures FilesMatch(t) && FilesHeld(t)
  {
    var dir := s.children[g].dir;
    assert FilesMatch(t) by {
      forall h | 0 <= h < |t.children| && HoldsFile(t.children[h])
        ensures t.children[h].dir in t.pidFile && t.pidFile[t.children[h].dir] == Itoa(t.children[h].pid)
      {
        if h != g {
          assert t.children[h] == s.children[h];
        }
      }
    }
    forall d | d in t.pidFile
      ensures exists h: nat :: Holder(t, h, d)
    {
      if d == dir {
        assert Holder(t, g, d);
      } else {
        var h: nat :| Holder(s, h, d);
        assert Holder(t, h, d);
      }
    }
  }

  lemma WriteKeeps(s: State, g: nat)
    requires Inv(s) && AtPhase(s, g, Forked)
    ensures Inv(Next(s, WritePid(g), PidFileAbsent).value)
  {
    var t := Next(s, WritePid(g), PidFileAbsent).value;
    AdvanceKeeps(s, t, g);
    SameExits(s, t, g);
    OnlyOneHolds(s, g);
    WriteMatches(s, t, g);
  }

  lemma RemoveMatches(s: State, t: State, g: nat)
    requires FilesMatch(s) && FilesHeld(s) && Advanced(s, t, g) && AtPhase(t, g, Removed) && OthersDone(s, g)
    requires t.pidFile == s.pidFile - {s.children[g].dir}
    ensures FilesMatch(t) && FilesHeld(t)
  {
    assert FilesMatch(t) by {
      forall h | 0 <= h < |t.children| && HoldsFile(t.children[h])
        ensures t.children[h].dir in t.pidFile && t.pidFile[t.children[h].dir] == Itoa(t.children[h].pid)
      {
        assert h != g && t.children[h] == s.children[h];
      }
    }
    forall d | d in t.pidFile
      ensures exists h: nat :: Holder(t, h, d)
    {
      var h: nat :| Holder(s, h, d);
      assert Holder(t, h, d);
    }
  }

  lemma RemoveKeeps(s: State, g: nat)
    requires Inv(s) && AtPhase(s, g, Reaped)
    ensures Inv(Next(s, Remove(g), PidFileAbsent).value)
  {
    var t := Next(s, Remove(g), PidFileAbsent).value;
    AdvanceKeeps(s, t, g);
    SameExits(s, t, g);
    OnlyOneHolds(s, g);
    RemoveMatches(s, t, g);
  }

  /** In every state that satisfies the invariant, vm.pid parses, to the pid of the latest child. */
  lemma PidFileParses(s: State, dir: Dir) returns (g: nat)
    requires Inv(s) && dir in s.pidFile
    ensures IsLatest(s, g, dir, |s.children|) && HoldsFile(s.children[g])
    ensures Atoi(TrimSpace(s.pidFile[dir])) == Some(s.children[g].pid)
  {
    g :| Holder(s, g, dir);
    OnlyOneHolds(s, g);
    AtoiOfItoa(s.children[g].pid);
  }

  lemma NewStopMatches(s: State, t: State, stop: Stop, g: nat)
    requires StopsMatch(s) && ReadFrom(s, stop, g) && t == s.(stops := s.stops + [stop])
    ensures StopsMatch(t)
  {
    forall j | 0 <= j < |t.stops|
      ensures HasSource(t, t.stops[j])
    {
      var h: nat := g;
      if j < |s.stops| {
        h :| ReadFrom(s, s.stops[j], h);
      }
      assert ReadFrom(t, t.stops[j], h);
    }
  }

  /** Reading changes nothing that the rest of the invariant speaks of. */
  lemma StopsApart(s: State, t: State)
    requires OneGeneration(s) && FilesMatch(s) && FilesHeld(s) && PidsDistinct(s) && ExitsMatch(s)
    requires t == s.(stops := t.stops)
    ensures OneGeneration(t) && FilesMatch(t) && FilesHeld(t) && PidsDistinct(t) && ExitsMatch(t)
  {
    forall d | d in t.pidFile
      ensures exists h: nat :: Holder(t, h, d)
    {
      var h: nat :| Holder(s, h, d);
      assert Holder(t, h, d);
    }
  }

  lemma NewStop(s: State, stop: Stop, g: nat)
    requires Inv(s) && ReadFrom(s, stop, g)
    ensures Inv(s.(stops := s.stops + [stop]))
  {
    var t := s.(stops := s.stops + [stop]);
    NewStopMatches(s, t, stop, g);
    StopsApart(s, t);
  }

  lemma ReadKeeps(s: State, dir: Dir)
    requires Inv(s)
    ensures Inv(Next(s, ReadPid(dir), PidFileAbsent).value)
  {
    if dir in s.pidFile {
      var g := PidFileParses(s, dir);
      var stop := Stop(dir, s.children[g].pid, |s.children|);
      NewStop(s, stop, g);
      assert Next(s, ReadPid(dir), PidFileAbsent) == Some(s.(stops := s.stops + [stop]));
    }
  }

  lemma DeleteKeeps(s: State, dir: Dir)
    requires Inv(s) && dir !in s.pidFile
    ensures Inv(s.(pidFile := s.pidFile - {dir}))
  {
    assert s.pidFile - {dir} == s.pidFile;
  }

  lemma StepKeeps(s: State, step: Step)
    requires Inv(s) && Next(s, step, PidFileAbsent).Some?
    ensures Inv(Next(s, step, PidFileAbsent).value)
  {
    match step
    case Fork(dir, pid) => ForkKeeps(s, dir, pid);
    case WritePid(g) => WriteKeeps(s, g);
    case Remove(g) => RemoveKeeps(s, g);
    case ReadPid(dir) => ReadKeeps(s, dir);
    case Delete(dir) => DeleteKeeps(s, dir);
    case Launch(g) => LaunchKeeps(s, g);
    case Exit(g) => ExitKeeps(s, g);
    case Reap(g) => ReapKeeps(s, g);
    case Notify(g) => NotifyKeeps(s, g);
  }

  lemma {:induction false} RunKeeps(steps: seq<Step>)
    requires Run(steps, PidFileAbsent).Some?
    ensures Inv(Run(steps, PidFileAbsent).value)
  {
    if steps != [] {
      RunKeeps(steps[..|steps| - 1]);
      StepKeeps(Run(steps[..|steps| - 1], PidFileAbsent).value, steps[|steps| - 1]);
    }
  }

  // -- What it means -------------------------------------------------------------------------

  /** In every reachable state each directory has at most one unreaped child; and as soon as its
      StartVM has returned, vm.pid holds its pid. */
  lemma UnreapedChildHasItsPidFile(steps: seq<Step>, g: nat, h: nat)
    requires Run(steps, PidFileAbsent).Some?
    requires var s := Run(steps, PidFileAbsent).value;
             && g < |s.children| && h < |s.children|
             && Unreaped(s.children[g]) && s.children[g].dir == s.children[h].dir
    ensures var s := Run(steps, PidFileAbsent).value;
            && (Unreaped(s.children[h]) ==> g == h)
            && (!s.children[g].phase.Forked?
                ==> s.children[g].dir in s.pidFile && s.pidFile[s.children[g].dir] == Itoa(s.children[g].pid))
  {
    RunKeeps(steps);
  }

  /** A wait goroutine's removal deletes its own generation's vm.pid: the file holds its child's
      pid, no other child of the directory needs it, and every other directory's file stays. */
  lemma RemovalIsOwn(steps: seq<Step>, g: nat)
    requires Run(steps + [Remove(g)], PidFileAbsent).Some?
    ensures Run(steps, PidFileAbsent).Some?
    ensures var s, t := Run(steps, PidFileAbsent).value, Run(steps + [Remove(g)], PidFileAbsent).value;
            && AtPhase(s, g, Reaped)
            && var dir := s.children[g].dir;
            && dir in s.pidFile && s.pidFile[dir] == Itoa(s.children[g].pid)
            && IsLatest(s, g, dir, |s.children|)
            && (forall h | 0 <= h < |s.children| && h != g && s.children[h].dir == dir :: DoneWithFile(s.children[h]))
            && t.pidFile == s.pidFile - {dir}
  {
    assert (steps + [Remove(g)])[..|steps|] == steps;
    RunKeeps(steps);
    OnlyOneHolds(Run(steps, PidFileAbsent).value, g);
  }

  lemma ExitFacts(s: State, i: nat)
    requires Inv(s) && i < |s.exits|
    ensures var g := s.exits[i];
            && AtPhase(s, g, Notified) && !s.children[g].running
            && (forall j | 0 <= j < |s.exits| && j != i :: s.exits[j] != g)
            && (s.children[g].dir in s.pidFile ==> exists h | g < h < |s.children| :: Holder(s, h, s.children[g].dir))
  {
    var g := s.exits[i];
    assert g in s.exits;
    if s.children[g].dir in s.pidFile {
      var h: nat :| Holder(s, h, s.children[g].dir);
      OnlyOneHolds(s, h);
      assert g < h;
    }
  }

  /** OnVMExit is called at most once for each child, only after it was reaped and after its
      vm.pid was removed; the file can then only be a successor's. */
  lemma ExitReportedOnceAfterCleanup(steps: seq<Step>, i: nat)
    requires Run(steps, PidFileAbsent).Some? && i < |Run(steps, PidFileAbsent).value.exits|
    ensures var s := Run(steps, PidFileAbsent).value;
            var g := s.exits[i];
            && AtPhase(s, g, Notified) && !s.children[g].running
            && (forall j | 0 <= j < |s.exits| && j != i :: s.exits[j] != g)
            && (s.children[g].dir in s.pidFile ==> exists h | g < h < |s.children| :: Holder(s, h, s.children[g].dir))
  {
    RunKeeps(steps);
    ExitFacts(Run(steps, PidFileAbsent).value, i);
  }

  /** The processes a signal to `pid` reaches. */
  ghost function Targets(s: State, pid: int): set<nat> {
    set g | 0 <= g < |s.children| && Unreaped(s.children[g]) && s.children[g].pid == pid
  }

  /** A StopVM that has read a pid, however long ago, signals the child that was the latest of its
      directory when it read, and no other VM's, as long as that child is unreaped. */
  lemma StopReachesItsOwnChild(steps: seq<Step>, k: nat) returns (g: nat)
    requires Run(steps, PidFileAbsent).Some? && k < |Run(steps, PidFileAbsent).value.stops|
    ensures var s := Run(steps, PidFileAbsent).value;
            ReadFrom(s, s.stops[k], g) && (Unreaped(s.children[g]) ==> Targets(s, s.stops[k].pid) == {g})
  {
    RunKeeps(steps);
    var s := Run(steps, PidFileAbsent).value;
    g :| ReadFrom(s, s.stops[k], g);
  }

  /** A directory nothing was ever started in. */
  predicate Unused(s: State, dir: Dir) {
    dir !in s.pidFile && forall g | 0 <= g < |s.children| :: s.children[g].dir != dir
  }

  /** A signal to `pid` reaches a child other than `g`, or the next VM started can make it do so. */
  ghost predicate MayHitStranger(s: State, g: nat, dir: Dir, pid: int) {
    || (exists h :: h in Targets(s, pid) && h != g)
    || (MayFork(s, dir, pid) && |s.children| in Targets(Next(s, Fork(dir, pid), PidFileAbsent).value, pid))
  }

  lemma StrangerNeedsReapedChild(s: State, g: nat, dir: Dir)
    requires Inv(s) && g < |s.children| && Unused(s, dir)
    ensures !Unreaped(s.children[g]) <==> MayHitStranger(s, g, dir, s.children[g].pid)
  {
    var pid := s.children[g].pid;
    if !Unreaped(s.children[g]) && !MayFork(s, dir, pid) {
      var h :| 0 <= h < |s.children| && Unreaped(s.children[h]) && s.children[h].pid == pid;
      assert h in Targets(s, pid);
    }
  }

  /** Once its own child is reaped, and not before, the signal of a StopVM may hit a stranger: one
      that has the pid by now, or one that any unused directory can still be started with. */
  lemma StopIsSafeUntilReaped(steps: seq<Step>, k: nat, dir: Dir) returns (g: nat)
    requires Run(steps, PidFileAbsent).Some? && k < |Run(steps, PidFileAbsent).value.stops|
    requires Unused(Run(steps, PidFileAbsent).value, dir)
    ensures var s := Run(steps, PidFileAbsent).value;
            ReadFrom(s, s.stops[k], g)
            && (Unreaped(s.children[g]) <==> !MayHitStranger(s, g, dir, s.stops[k].pid))
  {
    RunKeeps(steps);
    g := StopReachesItsOwnChild(steps, k);
    StrangerNeedsReapedChild(Run(steps, PidFileAbsent).value, g, dir);
  }

  // -- Where the discipline is needed --------------------------------------------------------

  lemma Then(steps: seq<Step>, s: State, step: Step, t: State, rule: Rule)
    requires Run(steps, rule) == Some(s) && Next(s, step, rule) == Some(t)
    ensures Run(steps + [step], rule) == Some(t)
  {
    assert (steps + [step])[..|steps|] == steps;
  }

  /** Moving the last child on. */
  lemma LastMoved(front: seq<Child>, c: Child, phase: Phase)
    ensures (front + [c])[|front| := (front + [c])[|front|].(phase := phase)] == front + [c.(phase := phase)]
  {
  }

  lemma WrittenNow(steps: seq<Step>, s: State, front: seq<Child>, c: Child, rule: Rule)
    requires Run(steps, rule) == Some(s) && s.children == front + [c] && c.phase.Forked?
    ensures Run(steps + [WritePid(|front|)], rule)
            == Some(s.(pidFile := s.pidFile[c.dir := Itoa(c.pid)], children := front + [c.(phase := Recorded)]))
  {
    LastMoved(front, c, Recorded);
    Then(steps, s, WritePid(|front|),
         s.(pidFile := s.pidFile[c.dir := Itoa(c.pid)], children := front + [c.(phase := Recorded)]), rule);
  }

  lemma LaunchedNow(steps: seq<Step>, s: State, front: seq<Child>, c: Child, rule: Rule)
    requires Run(steps, rule) == Some(s) && s.children == front + [c] && c.phase.Recorded?
    ensures Run(steps + [Launch(|front|)], rule) == Some(s.(children := front + [c.(phase := Waited)]))
  {
    LastMoved(front, c, Waited);
    Then(steps, s, Launch(|front|), s.(children := front + [c.(phase := Waited)]), rule);
  }

  /** One generation from fork to the start of its wait goroutine. */
  lemma StartedUp(steps: seq<Step>, s: State, dir: Dir, pid: int, rule: Rule) returns (more: seq<Step>)
    requires Run(steps, rule) == Some(s) && MayFork(s, dir, pid)
    ensures Run(more, rule)
            == Some(s.(pidFile := s.pidFile[dir := Itoa(pid)],
                       children := s.children + [Child(dir, pid, Waited, true)]))
  {
    var c, n := Child(dir, pid, Forked, true), |s.children|;
    var s1 := s.(children := s.children + [c]);
    Then(steps, s, Fork(dir, pid), s1, rule);
    more := steps + [Fork(dir, pid)];
    WrittenNow(more, s1, s.children, c, rule);
    more := more + [WritePid(n)];
    var s2 := s1.(pidFile := s.pidFile[dir := Itoa(pid)], children := s.children + [c.(phase := Recorded)]);
    LaunchedNow(more, s2, s.children, c.(phase := Recorded), rule);
    more := more + [Launch(n)];
  }

  /** A child that exits and is reaped, its vm.pid still to be removed. */
  lemma ExitedAndReaped(steps: seq<Step>, s: State, g: nat, rule: Rule) returns (more: seq<Step>)
    requires Run(steps, rule) == Some(s) && AtPhase(s, g, Waited)
    ensures Run(more, rule)
            == Some(s.(children := s.children[g := s.children[g].(phase := Reaped, running := false)]))
  {
    var s1 := s.(children := s.children[g := s.children[g].(running := false)]);
    var s2 := s.(children := s.children[g := s.children[g].(phase := Reaped, running := false)]);
    Then(steps, s, Exit(g), s1, rule);
    assert s1.children[g := s1.children[g].(phase := Reaped)] == s2.children;
    Then(steps + [Exit(g)], s1, Reap(g), s2, rule);
    more := steps + [Exit(g)] + [Reap(g)];
  }

  /** Deleting a directory keeps the invariant exactly when its vm.pid is absent: no weaker rule for
      the caller of DeleteVM will do. */
  lemma DeleteNeedsAbsentPidFile(s: State, dir: Dir)
    requires Inv(s)
    ensures Inv(s.(pidFile := s.pidFile - {dir})) <==> dir !in s.pidFile
  {
    if dir in s.pidFile {
      var g := PidFileParses(s, dir);
      assert HoldsFile(s.children[g]) && !FilesMatch(s.(pidFile := s.pidFile - {dir}));
    } else {
      assert s.pidFile - {dir} == s.pidFile;
    }
  }

  /** StartVM going on after its write of vm.pid, to the launch of its wait goroutine. */
  function StartedOn(s: State, g: nat, failed: bool): State
    requires AtPhase(s, g, Forked)
  {
    Moved(Next(s, if failed then SkipPid(g) else WritePid(g), WritesMayFail).value, g, Waited)
  }

  /** While the child of a StartVM runs the caller's rule lets it start the directory a second time
      exactly when the write of vm.pid failed. */
  lemma SecondStartNeedsFailedWrite(s: State, g: nat, failed: bool, pid: int)
    requires Inv(s) && AtPhase(s, g, Forked) && 0 < pid <= 0x7fff_ffff
    requires forall h | 0 <= h < |s.children| && Unreaped(s.children[h]) :: s.children[h].pid != pid
    ensures var u, dir := StartedOn(s, g, failed), s.children[g].dir;
            MayFork(u, dir, pid) <==> failed
    ensures Unreaped(StartedOn(s, g, failed).children[g])
    ensures StartedOn(s, g, failed).children[g].dir == s.children[g].dir
  {
    var dir, u := s.children[g].dir, StartedOn(s, g, failed);
    OnlyOneHolds(s, g);
    if dir in s.pidFile {
      var h := PidFileParses(s, dir);
      assert false;
    }
    if failed {
      forall h | 0 <= h < |u.children|
        ensures u.children[h].dir == dir ==> !InFlight(u.children[h])
        ensures Unreaped(u.children[h]) ==> u.children[h].pid != pid
      {
        if h != g { assert u.children[h] == s.children[h]; }
      }
    }
  }

  /** Waiting only until the child is reaped is too weak a rule for DeleteVM: the removal still to
      come from the first generation then deletes the second generation's vm.pid, and a running
      VM is left that StopVM cannot find. */
  lemma ReapedIsTooWeak(dir: Dir) returns (steps: seq<Step>)
    ensures Run(steps, ChildReaped).Some?
    ensures var s := Run(steps, ChildReaped).value;
            && |s.children| == 2 && s.children[1].dir == dir && s.children[1].running && s.children[1].phase.Waited?
            && dir !in s.pidFile
  {
    steps := StartedUp([], INITIAL, dir, 1, ChildReaped);
    var s := Run(steps, ChildReaped).value;
    steps := ExitedAndReaped(steps, s, 0, ChildReaped);
    s := Run(steps, ChildReaped).value;
    var gone := s.(pidFile := s.pidFile - {dir});
    Then(steps, s, Delete(dir), gone, ChildReaped);
    steps := StartedUp(steps + [Delete(dir)], gone, dir, 2, ChildReaped);
    s := Run(steps, ChildReaped).value;
    Then(steps, s, Remove(0), Moved(s, 0, Removed).(pidFile := s.pidFile - {dir}), ChildReaped);
    steps := steps + [Remove(0)];
  }

  /** Every run under the strict rule is one where writes may fail. */
  lemma {:induction false} StillARun(steps: seq<Step>)
    requires Run(steps, PidFileAbsent).Some?
    ensures Run(steps, WritesMayFail) == Run(steps, PidFileAbsent)
  {
    if steps != [] {
      StillARun(steps[..|steps| - 1]);
    }
  }

  /** Whatever happened before, after one failing write of vm.pid the caller may start a second VM in
      a directory whose first nobody has reaped. */
  lemma FailedWriteHidesChild(steps: seq<Step>, g: nat, pid: int) returns (more: seq<Step>)
    requires Run(steps, PidFileAbsent).Some? && AtPhase(Run(steps, PidFileAbsent).value, g, Forked)
    requires 0 < pid <= 0x7fff_ffff
    requires var s := Run(steps, PidFileAbsent).value;
             forall h | 0 <= h < |s.children| && Unreaped(s.children[h]) :: s.children[h].pid != pid
    ensures steps <= more && Run(more, WritesMayFail).Some?
    ensures var s, t := Run(steps, PidFileAbsent).value, Run(more, WritesMayFail).value;
            var n := |s.children|;
            && |t.children| == n + 1 && Unreaped(t.children[g]) && Unreaped(t.children[n])
            && t.children[g].dir == t.children[n].dir == s.children[g].dir
  {
    var s := Run(steps, PidFileAbsent).value;
    RunKeeps(steps);
    StillARun(steps);
    SecondStartNeedsFailedWrite(s, g, true, pid);
    var skipped, u := Moved(s, g, Recorded), StartedOn(s, g, true);
    Then(steps, s, SkipPid(g), skipped, WritesMayFail);
    Then(steps + [SkipPid(g)], skipped, Launch(g), u, WritesMayFail);
    var dir := s.children[g].dir;
    Then(steps + [SkipPid(g)] + [Launch(g)], u, Fork(dir, pid),
         u.(children := u.children + [Child(dir, pid, Forked, true)]), WritesMayFail);
    more := steps + [SkipPid(g)] + [Launch(g)] + [Fork(dir, pid)];
  }

  /** A pid that comes back is signalled: StopVM reads the first VM's pid, the first child is
      reaped, a child of another directory gets the pid, and that one is the target. */
  lemma ReusedPidIsSignalled(a: Dir, b: Dir) returns (steps: seq<Step>)
    requires a != b
    ensures Run(steps, PidFileAbsent).Some?
    ensures var s := Run(steps, PidFileAbsent).value;
            && |s.stops| == 1 && s.stops[0].dir == a
            && |s.children| == 2 && s.children[1].dir == b && 1 in Targets(s, s.stops[0].pid)
  {
    steps := StartedUp([], INITIAL, a, 1, PidFileAbsent);
    var s := Run(steps, PidFileAbsent).value;
    AtoiOfItoa(1);
    var read := s.(stops := [Stop(a, 1, 1)]);
    assert s.stops + [Stop(a, 1, 1)] == read.stops;
    Then(steps, s, ReadPid(a), read, PidFileAbsent);
    steps := ExitedAndReaped(steps + [ReadPid(a)], read, 0, PidFileAbsent);
    s := Run(steps, PidFileAbsent).value;
    steps := StartedUp(steps, s, b, 1, PidFileAbsent);
  }

  // -- What can happen -----------------------------------------------------------------------

  lemma ReadPidNext(s: State, dir: Dir, pid: int, t: State)
    requires dir in s.pidFile && Atoi(TrimSpace(s.pidFile[dir])) == Some(pid)
    requires t == s.(stops := s.stops + [Stop(dir, pid, |s.children|)])
    ensures Next(s, ReadPid(dir), PidFileAbsent) == Some(t)
  {
  }

  /** A StopVM that finds vm.pid always gets a pid out of it: that of the latest child. */
  lemma StopReadsLatest(steps: seq<Step>, dir: Dir) returns (g: nat)
    requires Run(steps, PidFileAbsent).Some? && dir in Run(steps, PidFileAbsent).value.pidFile
    ensures Run(steps + [ReadPid(dir)], PidFileAbsent).Some?
    ensures var s, t := Run(steps, PidFileAbsent).value, Run(steps + [ReadPid(dir)], PidFileAbsent).value;
            && IsLatest(s, g, dir, |s.children|)
            && t.stops == s.stops + [Stop(dir, s.children[g].pid, |s.children|)]
  {
    RunKeeps(steps);
    var s := Run(steps, PidFileAbsent).value;
    g := PidFileParses(s, dir);
    var pid := s.children[g].pid;
    var t := s.(stops := s.stops + [Stop(dir, pid, |s.children|)]);
    ReadPidNext(s, dir, pid, t);
    Then(steps, s, ReadPid(dir), t, PidFileAbsent);
  }

  /** When the caller can start or delete a directory, and that a StopVM can always look. */
  lemma CallerMayAct(s: State, dir: Dir, pid: int)
    ensures Next(s, Fork(dir, pid), PidFileAbsent).Some?
            <==> && dir !in s.pidFile && 1 <= pid < 0x8000_0000
                 && (forall g | 0 <= g < |s.children| && s.children[g].dir == dir ::
                       !s.children[g].phase.Forked? && !s.children[g].phase.Recorded?)
                 && (forall g | 0 <= g < |s.children| && s.children[g].pid == pid ::
                       s.children[g].phase.Reaped? || s.children[g].phase.Removed? || s.children[g].phase.Notified?)
    ensures Next(s, Delete(dir), PidFileAbsent) == if dir in s.pidFile then None else Some(s)
    ensures Next(s, ReadPid(dir), PidFileAbsent).Some?
  {
    if dir !in s.pidFile { assert s.pidFile - {dir} == s.pidFile; }
  }

  function Rank(phase: Phase): nat {
    match phase
    case Forked => 5
    case Recorded => 4
    case Waited => 3
    case Reaped => 2
    case Removed => 1
    case Notified => 0
  }

  /** The step that takes child `g` further; one that waits is reaped when it has exited. */
  function OwnStep(s: State, g: nat): Step
    requires g < |s.children|
  {
    match s.children[g].phase
    case Forked => WritePid(g)
    case Recorded => Launch(g)
    case Waited => if s.children[g].running then Exit(g) else Reap(g)
    case Reaped => Remove(g)
    case _ => Notify(g)
  }

  lemma OwnStepIsOpen(s: State, g: nat)
    requires g < |s.children| && !s.children[g].phase.Notified?
    ensures var n := Next(s, OwnStep(s, g), PidFileAbsent);
            && n.Some? && g < |n.value.children|
            && var c, d := s.children[g], n.value.children[g];
            if c.phase.Waited? && c.running then d.phase.Waited? && !d.running else Rank(d.phase) < Rank(c.phase)
  {
  }

  /** How many steps of its own a child is at most away from its report. */
  function Budget(steps: seq<Step>, g: nat): nat
    requires Run(steps, PidFileAbsent).Some? && g < |Run(steps, PidFileAbsent).value.children|
  {
    var c := Run(steps, PidFileAbsent).value.children[g];
    2 * Rank(c.phase) + if c.running then 1 else 0
  }

  /** Whatever has happened, a child that was started can always go on to be recorded, reaped and
      cleaned up after, and have its exit reported. */
  lemma {:induction false} EveryExitCanBeReported(steps: seq<Step>, g: nat) returns (more: seq<Step>)
    requires Run(steps, PidFileAbsent).Some? && g < |Run(steps, PidFileAbsent).value.children|
    ensures steps <= more && Run(more, PidFileAbsent).Some? && g in Run(more, PidFileAbsent).value.exits
    decreases Budget(steps, g)
  {
    var s := Run(steps, PidFileAbsent).value;
    RunKeeps(steps);
    if s.children[g].phase.Notified? {
      more := steps;
    } else {
      OwnStepIsOpen(s, g);
      var step := OwnStep(s, g);
      Then(steps, s, step, Next(s, step, PidFileAbsent).value, PidFileAbsent);
      more := EveryExitCanBeReported(steps + [step], g);
      assert steps <= steps + [step];
    }
  }
}
