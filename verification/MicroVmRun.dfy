/** The vz-vm-run process of one VM: its main thread, the goroutine that logs VM state
    transitions and wakes main through a channel of capacity 1, the signal channel, the console
    watcher, the VM itself, and the parent's wait goroutine. Any interleaving is possible, and the
    process may be killed at any moment. */
module MicroVmRun {
  import opened Basics

  datatype VmState = Stopped | Other(name: string)

  /** A record in timings.jsonl. */
  datatype Event =
    | Entered
    | ConfigFailed
    | VmConfigured
    | NewVmFailed
    | VmInstantiated
    | StartFailed
    | StartReturned
    | MicroVmExited
    | State(s: VmState) // the logger's
    | Guest(stage: Bytes) // the watcher's
    | Exited // the parent's

  predicate IsMain(e: Event) { !e.State? && !e.Guest? && !e.Exited? }

  /** Where RunVMGraphic is. */
  datatype MainPc =
    | Begin
    | Building
    | Creating
    | Launched    // the goroutines run
    | Starting    // inside machine.Start
    | Subscribing // before signal.Notify
    | Selecting   // in the select
    | Stopping    // inside machine.RequestStop
    | Waiting     // the second receive
    | Exiting
    | Graphic     // inside StartGraphicApplication
    | Returned

  datatype LoggerPc = Idle | Received(s: VmState) | Logged

  datatype ParentPc = InWait | Reaped | Removed | Reported

  datatype Sys = Sys(
    micro: bool, alive: bool, main: MainPc, logger: LoggerPc, parent: ParentPc,
    queue: seq<VmState>, // state transitions not yet received
    token: bool,         // stoppedCh holds a value
    signal: bool,        // sigCh holds a value
    sent: nat,           // sends to stoppedCh attempted
    log: seq<Event>)

  function Start(micro: bool): Sys { Sys(micro, true, Begin, Idle, InWait, [], false, false, 0, []) }

  datatype Step =
    | Enter
    | Build(ok: bool)
    | Create(ok: bool)
    | CallStart
    | EndStart(ok: bool)
    | Subscribe
    | TakeToken
    | TakeSignal
    | EndRequestStop
    | RecordExit
    | EndGraphic
    // the other goroutines
    | Receive
    | LogState
    | Send     // the select's send, while the channel is empty
    | SkipSend // its default, while the channel is full
    | LogGuest(stage: Bytes)
    // the world
    | Transition(s: VmState)
    | SignalArrives
    | Die
    // the parent
    | Reap
    | RemovePidFile
    | Report

  predicate IsMainStep(step: Step) {
    step.Enter? || step.Build? || step.Create? || step.CallStart? || step.EndStart? || step.Subscribe?
    || step.TakeToken? || step.TakeSignal? || step.EndRequestStop? || step.RecordExit? || step.EndGraphic?
  }

  /** Also said of Returned, where the process is about to end: after a failed configuration no
      goroutine was launched there, and the steps the model still allows only add behaviours. */
  predicate GoroutinesRun(m: MainPc) { !m.Begin? && !m.Building? && !m.Creating? }

  predicate StartCalled(m: MainPc) { GoroutinesRun(m) && !m.Launched? }

  predicate Subscribed(m: MainPc) { m.Selecting? || m.Stopping? || m.Waiting? || m.Exiting? }

  function Record(s: Sys, e: Event, m: MainPc): Sys { s.(log := s.log + [e], main := m) }

  /** A step of the main thread. */
  function MainNext(s: Sys, step: Step): Option<Sys> {
    match (s.main, step)
    case (Begin, Enter) => Some(Record(s, Entered, Building))
    case (Building, Build(ok)) =>
      Some(if ok then Record(s, VmConfigured, Creating) else Record(s, ConfigFailed, Returned))
    case (Creating, Create(ok)) =>
      Some(if ok then Record(s, VmInstantiated, Launched) else Record(s, NewVmFailed, Returned))
    case (Launched, CallStart) => Some(s.(main := Starting))
    case (Starting, EndStart(ok)) =>
      Some(if !ok then Record(s, StartFailed, Returned)
           else Record(s, StartReturned, if s.micro then Subscribing else Graphic))
    case (Subscribing, Subscribe) => Some(s.(main := Selecting))
    case (Selecting, TakeToken) => if s.token then Some(s.(main := Exiting, token := false)) else None
    case (Selecting, TakeSignal) => if s.signal then Some(s.(main := Stopping, signal := false)) else None
    case (Stopping, EndRequestStop) => Some(s.(main := Waiting))
    case (Waiting, TakeToken) => if s.token then Some(s.(main := Exiting, token := false)) else None
    case (Exiting, RecordExit) => Some(Record(s, MicroVmExited, Returned))
    case (Graphic, EndGraphic) => Some(s.(main := Returned))
    case _ => None
  }

  /** A step of another goroutine of the process; they end with it. */
  function GoroutineNext(s: Sys, step: Step): Option<Sys> {
    if !GoroutinesRun(s.main) then None
    else
      match (step, s.logger)
      case (Receive, Idle) =>
        if s.queue == [] then None else Some(s.(logger := Received(s.queue[0]), queue := s.queue[1..]))
      case (LogState, Received(st)) =>
        Some(s.(log := s.log + [State(st)], logger := if st.Stopped? then Logged else Idle))
      case (Send, Logged) => if s.token then None else Some(s.(token := true, sent := s.sent + 1, logger := Idle))
      case (SkipSend, Logged) => if s.token then Some(s.(sent := s.sent + 1, logger := Idle)) else None
      case (LogGuest(stage), _) => Some(s.(log := s.log + [Guest(stage)]))
      case _ => None
  }

  function WorldNext(s: Sys, step: Step): Option<Sys> {
    match step
    case Transition(st) => if StartCalled(s.main) then Some(s.(queue := s.queue + [st])) else None
    case SignalArrives => if Subscribed(s.main) then Some(s.(signal := true)) else None
    case Die => Some(s.(alive := false)) // main has returned, or something kills the process
    case _ => None
  }

  /** The parent's wait goroutine. */
  function ParentNext(s: Sys, step: Step): Option<Sys> {
    match (s.parent, step)
    case (InWait, Reap) => if s.alive then None else Some(s.(parent := Reaped))
    case (Reaped, RemovePidFile) => Some(s.(parent := Removed))
    case (Removed, Report) => Some(s.(parent := Reported, log := s.log + [Exited]))
    case _ => None
  }

  function Next(s: Sys, step: Step): Option<Sys> {
    if step.Reap? || step.RemovePidFile? || step.Report? then ParentNext(s, step)
    else if !s.alive then None
    else if IsMainStep(step) then MainNext(s, step)
    else if step.Transition? || step.SignalArrives? || step.Die? then WorldNext(s, step)
    else GoroutineNext(s, step)
  }

  function Run(s: Sys, steps: seq<Step>): Option<Sys> {
    if steps == [] then Some(s)
    else
      match Run(s, steps[..|steps| - 1])
      case None => None
      case Some(t) => Next(t, steps[|steps| - 1])
  }

  // -- Order of the main thread's events -----------------------------------------------------

  /** The words the main thread may write. */
  predicate LegalWord(micro: bool, w: seq<Event>) {
    || w == [Entered, ConfigFailed]
    || w == [Entered, VmConfigured, NewVmFailed]
    || w == [Entered, VmConfigured, VmInstantiated, StartFailed]
    || w == [Entered, VmConfigured, VmInstantiated, StartReturned] + (if micro then [MicroVmExited] else [])
  }

  function MainEvents(log: seq<Event>): seq<Event> {
    if log == [] then []
    else MainEvents(log[..|log| - 1]) + if IsMain(log[|log| - 1]) then [log[|log| - 1]] else []
  }

  lemma MainEventsSnoc(log: seq<Event>, e: Event)
    ensures MainEvents(log + [e]) == MainEvents(log) + if IsMain(e) then [e] else []
  {
    assert (log + [e])[..|log|] == log;
  }

  /** What the main thread has written when it is at `m`. */
  ghost predicate Written(micro: bool, m: MainPc, w: seq<Event>) {
    match m
    case Begin => w == []
    case Building => w == [Entered]
    case Creating => w == [Entered, VmConfigured]
    case Launched => w == [Entered, VmConfigured, VmInstantiated]
    case Starting => w == [Entered, VmConfigured, VmInstantiated]
    case Graphic => !micro && w == [Entered, VmConfigured, VmInstantiated, StartReturned]
    case Returned => LegalWord(micro, w)
    case _ => micro && w == [Entered, VmConfigured, VmInstantiated, StartReturned]
  }

  // -- The invariant -------------------------------------------------------------------------

  /** The channel keeps a token from the first send until main takes it. */
  ghost predicate Woken(s: Sys) {
    && (s.sent > 0 && !s.main.Exiting? && !s.main.Returned? ==> s.token)
    && (s.token ==> s.sent > 0)
    && (s.main.Exiting? ==> s.sent > 0)
    && (s.sent > 0 || s.logger.Logged? ==> State(Stopped) in s.log)
  }

  /** The process's last word comes after VM state Stopped was recorded. */
  ghost predicate ExitAfterStopped(s: Sys) {
    forall j | 0 <= j < |s.log| && s.log[j] == MicroVmExited :: State(Stopped) in s.log[..j]
  }

  /** The parent reports once, after the process is gone, and nothing follows. */
  ghost predicate ReportIsLast(s: Sys) {
    && (!s.parent.InWait? ==> !s.alive)
    && (forall j | 0 <= j < |s.log| && s.log[j] == Exited :: j == |s.log| - 1)
    && (s.parent.Reported? <==> Exited in s.log)
  }

  ghost predicate Inv(s: Sys) {
    Written(s.micro, s.main, MainEvents(s.log)) && Woken(s) && ExitAfterStopped(s) && ReportIsLast(s)
  }

  lemma InNewLog(log: seq<Event>, e: Event, x: Event)
    ensures x in log + [e] <==> x in log || x == e
    ensures forall j | 0 <= j <= |log| :: (log + [e])[..j] == log[..j]
  {
    assert (log + [e])[|log|] == e;
    assert forall j | 0 <= j < |log| :: (log + [e])[j] == log[j];
  }

  /** Appending one event. */
  lemma LogKeeps(s: Sys, t: Sys, e: Event)
    requires t.log == s.log + [e]
    requires ExitAfterStopped(s) && (e == MicroVmExited ==> State(Stopped) in s.log)
    ensures ExitAfterStopped(t)
    ensures State(Stopped) in s.log ==> State(Stopped) in t.log
    ensures MainEvents(t.log) == MainEvents(s.log) + if IsMain(e) then [e] else []
    ensures e != Exited ==> (Exited in t.log <==> Exited in s.log)
  {
    MainEventsSnoc(s.log, e);
    InNewLog(s.log, e, State(Stopped));
    InNewLog(s.log, e, Exited);
    forall j | 0 <= j < |t.log| && t.log[j] == MicroVmExited
      ensures State(Stopped) in t.log[..j]
    {
      if j < |s.log| {
        assert s.log[j] == MicroVmExited && t.log[..j] == s.log[..j];
      } else {
        assert t.log[..j] == s.log;
      }
    }
  }

  /** Each event the main thread writes is the next of a legal word. */
  predicate Follows(micro: bool, m: MainPc, e: Event, next: MainPc) {
    match (m, e)
    case (Begin, Entered) => next == Building
    case (Building, VmConfigured) => next == Creating
    case (Building, ConfigFailed) => next == Returned
    case (Creating, VmInstantiated) => next == Launched
    case (Creating, NewVmFailed) => next == Returned
    case (Starting, StartFailed) => next == Returned
    case (Starting, StartReturned) => next == if micro then Subscribing else Graphic
    case (Exiting, MicroVmExited) => next == Returned
    case _ => false
  }

  lemma WrittenNext(micro: bool, m: MainPc, w: seq<Event>, e: Event, next: MainPc)
    requires Written(micro, m, w) && Follows(micro, m, e, next)
    ensures Written(micro, next, w + [e]) && IsMain(e)
  {
  }

  lemma ReportUntouched(s: Sys, t: Sys, e: Event)
    requires ReportIsLast(s) && s.alive && e != Exited
    requires t.log == s.log + [e] && t.parent == s.parent && t.alive == s.alive
    ensures ReportIsLast(t)
  {
    InNewLog(s.log, e, Exited);
    assert Exited !in s.log;
  }

  lemma RecordKeeps(s: Sys, e: Event, next: MainPc)
    requires Inv(s) && s.alive && Follows(s.micro, s.main, e, next)
    ensures Inv(Record(s, e, next))
  {
    var t := Record(s, e, next);
    WrittenNext(s.micro, s.main, MainEvents(s.log), e, next);
    LogKeeps(s, t, e);
    ReportUntouched(s, t, e);
  }

  /** A main step that records nothing. */
  predicate Silent(step: Step) {
    step.CallStart? || step.Subscribe? || step.TakeToken? || step.TakeSignal? || step.EndRequestStop?
    || step.EndGraphic?
  }

  lemma SilentKeeps(s: Sys, step: Step)
    requires Inv(s) && s.alive && Silent(step) && MainNext(s, step).Some?
    ensures Inv(MainNext(s, step).value)
  {
    var t := MainNext(s, step).value;
    assert t.log == s.log && t.parent == s.parent && t.alive;
    assert Written(t.micro, t.main, MainEvents(s.log));
  }

  lemma LoudKeeps(s: Sys, step: Step)
    requires Inv(s) && s.alive && !Silent(step) && MainNext(s, step).Some?
    ensures Inv(MainNext(s, step).value)
  {
    match step
    case Enter => RecordKeeps(s, Entered, Building);
    case Build(ok) => RecordKeeps(s, if ok then VmConfigured else ConfigFailed, if ok then Creating else Returned);
    case Create(ok) => RecordKeeps(s, if ok then VmInstantiated else NewVmFailed, if ok then Launched else Returned);
    case EndStart(ok) =>
      RecordKeeps(s, if ok then StartReturned else StartFailed,
                  if !ok then Returned else if s.micro then Subscribing else Graphic);
    case RecordExit => RecordKeeps(s, MicroVmExited, Returned);
  }

  lemma MainKeeps(s: Sys, step: Step)
    requires Inv(s) && s.alive && IsMainStep(step) && MainNext(s, step).Some?
    ensures Inv(MainNext(s, step).value)
  {
    if Silent(step) {
      SilentKeeps(s, step);
    } else {
      LoudKeeps(s, step);
    }
  }

  /** A step of the logger that records nothing and may leave a token. */
  lemma QuietKeeps(s: Sys, t: Sys)
    requires Inv(s) && s.alive && t == s.(logger := t.logger, queue := t.queue, token := t.token, sent := t.sent)
    requires t.logger.Logged? ==> s.logger.Logged?
    requires if t.sent == s.sent then t.token == s.token else t.token && t.sent > s.sent && s.logger.Logged?
    ensures Inv(t)
  {
    assert Written(t.micro, t.main, MainEvents(t.log)) && ExitAfterStopped(t) && ReportIsLast(t);
  }

  /** A step of a goroutine that records an event of its own. */
  lemma LoggedKeeps(s: Sys, t: Sys, e: Event)
    requires Inv(s) && s.alive && !IsMain(e) && e != Exited
    requires t == s.(logger := t.logger, log := s.log + [e])
    requires t.logger.Logged? ==> s.logger.Logged? || e == State(Stopped)
    ensures Inv(t)
  {
    LogKeeps(s, t, e);
    InNewLog(s.log, e, State(Stopped));
    assert Exited !in s.log;
  }

  lemma GoroutineKeeps(s: Sys, step: Step)
    requires Inv(s) && s.alive && GoroutineNext(s, step).Some?
    ensures Inv(GoroutineNext(s, step).value)
  {
    var t := GoroutineNext(s, step).value;
    match step
    case LogState => LoggedKeeps(s, t, State(s.logger.s));
    case LogGuest(stage) => LoggedKeeps(s, t, Guest(stage));
    case _ => QuietKeeps(s, t);
  }

  lemma CleanUpKeeps(s: Sys, t: Sys)
    requires Inv(s) && !s.alive && t == s.(parent := t.parent)
    requires !s.parent.Reported? && !t.parent.Reported?
    ensures Inv(t)
  {
    assert Written(t.micro, t.main, MainEvents(t.log)) && ExitAfterStopped(t) && Woken(t);
  }

  lemma ReportKeeps(s: Sys, t: Sys)
    requires Inv(s) && s.parent.Removed? && t == s.(parent := Reported, log := s.log + [Exited])
    ensures Inv(t)
  {
    LogKeeps(s, t, Exited);
    InNewLog(s.log, Exited, Exited);
    assert Written(t.micro, t.main, MainEvents(t.log)) && Woken(t);
  }

  lemma ParentKeeps(s: Sys, step: Step)
    requires Inv(s) && ParentNext(s, step).Some?
    ensures Inv(ParentNext(s, step).value)
  {
    if step.Report? {
      ReportKeeps(s, ParentNext(s, step).value);
    } else {
      CleanUpKeeps(s, ParentNext(s, step).value);
    }
  }

  lemma StepKeeps(s: Sys, step: Step)
    requires Inv(s) && Next(s, step).Some?
    ensures Inv(Next(s, step).value)
  {
    if step.Reap? || step.RemovePidFile? || step.Report? {
      ParentKeeps(s, step);
    } else if IsMainStep(step) {
      MainKeeps(s, step);
    } else if !step.Transition? && !step.SignalArrives? && !step.Die? {
      GoroutineKeeps(s, step);
    }
  }

  lemma {:induction false} RunKeeps(s: Sys, steps: seq<Step>)
    requires Inv(s) && Run(s, steps).Some?
    ensures Inv(Run(s, steps).value)
  {
    if steps != [] {
      RunKeeps(s, steps[..|steps| - 1]);
      StepKeeps(Run(s, steps[..|steps| - 1]).value, steps[|steps| - 1]);
    }
  }

  // -- What it means -------------------------------------------------------------------------

  ghost predicate LegalPrefix(micro: bool, w: seq<Event>) {
    exists full :: LegalWord(micro, full) && w <= full
  }

  lemma WrittenIsLegal(micro: bool, m: MainPc, w: seq<Event>)
    requires Written(micro, m, w)
    ensures LegalPrefix(micro, w)
  {
    var long := [Entered, VmConfigured, VmInstantiated, StartReturned] + if micro then [MicroVmExited] else [];
    assert LegalWord(micro, long);
    if LegalWord(micro, w) {
      assert w <= w;
    } else {
      assert w <= long;
    }
  }

  lemma InitialInv(micro: bool)
    ensures Inv(Start(micro))
  {
  }

  // -- What each kind of step leaves alone ---------------------------------------------------

  /** How many steps the main thread still has to take once the VM has stopped. */
  function Rank(m: MainPc): nat {
    match m
    case Selecting => 4
    case Stopping => 3
    case Waiting => 2
    case Exiting => 1
    case _ => 0
  }

  lemma ParentFacts(s: Sys, step: Step)
    requires ParentNext(s, step).Some?
    ensures var t := ParentNext(s, step).value;
            t.micro == s.micro && t.main == s.main && t.sent == s.sent && t.logger == s.logger
  {
  }

  lemma MainFacts(s: Sys, step: Step)
    requires MainNext(s, step).Some?
    ensures var t := MainNext(s, step).value;
            t.micro == s.micro && t.logger == s.logger && t.sent == s.sent && !s.main.Returned?
  {
  }

  lemma GoroutinesRunOn(s: Sys, step: Step)
    requires MainNext(s, step).Some? && GoroutinesRun(s.main)
    ensures GoroutinesRun(MainNext(s, step).value.main)
  {
  }

  lemma MainRank(s: Sys, step: Step)
    requires MainNext(s, step).Some? && Rank(s.main) > 0
    ensures var t := MainNext(s, step).value; Rank(t.main) < Rank(s.main) && (Rank(t.main) > 0 || t.main.Returned?)
  {
  }

  lemma WorldFacts(s: Sys, step: Step)
    requires WorldNext(s, step).Some?
    ensures var t := WorldNext(s, step).value;
            t.micro == s.micro && t.main == s.main && t.sent == s.sent && t.logger == s.logger
  {
  }

  lemma GoroutineFacts(s: Sys, step: Step)
    requires GoroutineNext(s, step).Some?
    ensures var t := GoroutineNext(s, step).value;
            t.micro == s.micro && t.main == s.main && t.sent >= s.sent && GoroutinesRun(s.main)
  {
  }

  lemma StepFacts(s: Sys, step: Step)
    requires Next(s, step).Some?
    ensures var t := Next(s, step).value;
            && t.micro == s.micro && t.sent >= s.sent
            && (IsMainStep(step) ==>
                  !s.main.Returned?
                  && (Rank(s.main) > 0 ==> Rank(t.main) < Rank(s.main) && (Rank(t.main) > 0 || t.main.Returned?)))
            && (!IsMainStep(step) ==> t.main == s.main)
            && (t.logger.Idle? || GoroutinesRun(t.main) || (t.logger == s.logger && !GoroutinesRun(s.main)))
  {
    if step.Reap? || step.RemovePidFile? || step.Report? {
      ParentFacts(s, step);
    } else if IsMainStep(step) {
      MainFacts(s, step);
      if GoroutinesRun(s.main) { GoroutinesRunOn(s, step); }
      if Rank(s.main) > 0 { MainRank(s, step); }
    } else if step.Transition? || step.SignalArrives? || step.Die? {
      WorldFacts(s, step);
    } else {
      GoroutineFacts(s, step);
    }
  }

  lemma {:induction false} MicroNeverChanges(s: Sys, steps: seq<Step>)
    requires Run(s, steps).Some?
    ensures Run(s, steps).value.micro == s.micro
  {
    if steps != [] {
      MicroNeverChanges(s, steps[..|steps| - 1]);
      StepFacts(Run(s, steps[..|steps| - 1]).value, steps[|steps| - 1]);
    }
  }

  // -- Event order ---------------------------------------------------------------------------

  /** In every run the main thread's events are a prefix of a legal word, complete once it has
      returned; MicroVmExited comes after a recorded Stopped; and the parent's Exited comes after
      every other event and only once the process is gone. */
  lemma EventOrder(micro: bool, steps: seq<Step>)
    requires Run(Start(micro), steps).Some?
    ensures var s := Run(Start(micro), steps).value;
            && LegalPrefix(micro, MainEvents(s.log))
            && (s.main.Returned? ==> LegalWord(micro, MainEvents(s.log)))
            && (forall j | 0 <= j < |s.log| && s.log[j] == MicroVmExited :: State(Stopped) in s.log[..j])
            && (forall j | 0 <= j < |s.log| && s.log[j] == Exited :: j == |s.log| - 1 && !s.alive)
  {
    InitialInv(micro);
    RunKeeps(Start(micro), steps);
    MicroNeverChanges(Start(micro), steps);
    var s := Run(Start(micro), steps).value;
    WrittenIsLegal(s.micro, s.main, MainEvents(s.log));
  }

  // -- No lost wakeup ------------------------------------------------------------------------

  function MainSteps(steps: seq<Step>): nat {
    if steps == [] then 0
    else MainSteps(steps[..|steps| - 1]) + if IsMainStep(steps[|steps| - 1]) then 1 else 0
  }

  /** A main step that is possible now: in a receive, taking the token. */
  function MainStep(s: Sys): Step {
    match s.main
    case Stopping => EndRequestStop
    case Exiting => RecordExit
    case _ => TakeToken
  }

  lemma RankStep(t: Sys, step: Step)
    requires Next(t, step).Some? && (Rank(t.main) > 0 || t.main.Returned?)
    ensures var u := Next(t, step).value;
            u.sent >= t.sent && (Rank(u.main) > 0 || u.main.Returned?)
            && Rank(u.main) + (if IsMainStep(step) then 1 else 0) <= Rank(t.main)
  {
    StepFacts(t, step);
  }

  lemma {:induction false} MainGetsThere(s: Sys, more: seq<Step>)
    requires s.sent > 0 && Rank(s.main) > 0 && Run(s, more).Some?
    ensures var t := Run(s, more).value;
            t.sent > 0 && (Rank(t.main) > 0 || t.main.Returned?) && Rank(t.main) + MainSteps(more) <= Rank(s.main)
  {
    if more != [] {
      var front, step := more[..|more| - 1], more[|more| - 1];
      MainGetsThere(s, front);
      RankStep(Run(s, front).value, step);
    }
  }

  /** How often VM state Stopped was recorded. */
  function StoppedRecords(log: seq<Event>): nat {
    if log == [] then 0
    else StoppedRecords(log[..|log| - 1]) + if log[|log| - 1] == State(Stopped) then 1 else 0
  }

  lemma StoppedSnoc(log: seq<Event>, e: Event)
    ensures StoppedRecords(log + [e]) == StoppedRecords(log) + if e == State(Stopped) then 1 else 0
  {
    assert (log + [e])[..|log|] == log;
  }

  lemma {:induction false} SomeStopped(log: seq<Event>)
    ensures State(Stopped) in log <==> StoppedRecords(log) > 0
  {
    if log != [] {
      SomeStopped(log[..|log| - 1]);
      assert log == log[..|log| - 1] + [log[|log| - 1]];
    }
  }

  /** Every Stopped that was recorded was also sent, but for one that the logger is about to send. */
  predicate Counted(s: Sys) {
    StoppedRecords(s.log) == s.sent + if s.logger.Logged? then 1 else 0
  }

  lemma MainLogs(s: Sys, step: Step)
    requires MainNext(s, step).Some?
    ensures var t := MainNext(s, step).value;
            t.log == s.log || exists e: Event :: t.log == s.log + [e] && IsMain(e)
  {
    var t := MainNext(s, step).value;
    if t.log != s.log {
      var e := t.log[|s.log|];
      assert t.log == s.log + [e] && IsMain(e);
    }
  }

  lemma MainCounts(s: Sys, step: Step)
    requires Counted(s) && MainNext(s, step).Some?
    ensures Counted(MainNext(s, step).value)
  {
    var t := MainNext(s, step).value;
    MainFacts(s, step);
    MainLogs(s, step);
    if t.log != s.log {
      var e: Event :| t.log == s.log + [e] && IsMain(e);
      StoppedSnoc(s.log, e);
    }
  }

  lemma LoggedCounts(s: Sys, st: VmState, t: Sys)
    requires Counted(s) && s.logger == Received(st) && t.sent == s.sent
    requires t.log == s.log + [State(st)] && t.logger == if st.Stopped? then Logged else Idle
    ensures Counted(t)
  {
    StoppedSnoc(s.log, State(st));
  }

  lemma SentCounts(s: Sys, t: Sys)
    requires Counted(s) && s.logger.Logged? && t.logger.Idle? && t.log == s.log && t.sent == s.sent + 1
    ensures Counted(t)
  {
  }

  lemma SameCount(s: Sys, t: Sys)
    requires Counted(s) && t.logger == s.logger && t.sent == s.sent && StoppedRecords(t.log) == StoppedRecords(s.log)
    ensures Counted(t)
  {
  }

  lemma ReceivedCounts(s: Sys, t: Sys)
    requires Counted(s) && s.logger.Idle? && !t.logger.Logged? && t.log == s.log && t.sent == s.sent
    ensures Counted(t)
  {
  }

  lemma GoroutineCounts(s: Sys, step: Step)
    requires Counted(s) && GoroutineNext(s, step).Some?
    ensures Counted(GoroutineNext(s, step).value)
  {
    var t := GoroutineNext(s, step).value;
    match step
    case LogState => LoggedCounts(s, s.logger.s, t);
    case LogGuest(stage) =>
      StoppedSnoc(s.log, Guest(stage));
      SameCount(s, t);
    case Receive => ReceivedCounts(s, t);
    case _ => SentCounts(s, t);
  }

  lemma WorldCounts(s: Sys, step: Step)
    requires Counted(s) && WorldNext(s, step).Some?
    ensures Counted(WorldNext(s, step).value)
  {
    assert WorldNext(s, step).value.log == s.log;
    WorldFacts(s, step);
  }

  lemma ParentLogs(s: Sys, step: Step)
    requires ParentNext(s, step).Some?
    ensures ParentNext(s, step).value.log == if step.Report? then s.log + [Exited] else s.log
  {
  }

  lemma ParentCounts(s: Sys, step: Step)
    requires Counted(s) && ParentNext(s, step).Some?
    ensures Counted(ParentNext(s, step).value)
  {
    var t := ParentNext(s, step).value;
    ParentFacts(s, step);
    ParentLogs(s, step);
    StoppedSnoc(s.log, Exited);
    SameCount(s, t);
  }

  lemma StepCounts(s: Sys, step: Step)
    requires Counted(s) && Next(s, step).Some?
    ensures Counted(Next(s, step).value)
  {
    if step.Reap? || step.RemovePidFile? || step.Report? {
      ParentCounts(s, step);
    } else if IsMainStep(step) {
      MainCounts(s, step);
    } else if step.Transition? || step.SignalArrives? || step.Die? {
      WorldCounts(s, step);
    } else {
      GoroutineCounts(s, step);
    }
  }

  /** In every run, whatever happens, a recorded Stopped is followed by its send and by no other. */
  lemma {:induction false} StoppedIsSent(micro: bool, steps: seq<Step>)
    requires Run(Start(micro), steps).Some?
    ensures var s := Run(Start(micro), steps).value;
            StoppedRecords(s.log) == s.sent + if s.logger.Logged? then 1 else 0
  {
    if steps != [] {
      StoppedIsSent(micro, steps[..|steps| - 1]);
      StepCounts(Run(Start(micro), steps[..|steps| - 1]).value, steps[|steps| - 1]);
    }
  }

  /** Once VM state Stopped is in the log and the logger is not just about to send it, main can always
      take a step until it has returned, whether it is in the select, was woken by the signal, or is
      in the second receive; and whatever the others do in between, at most four of its own steps
      bring it to the end. */
  lemma {:induction false} NoLostWakeup(micro: bool, steps: seq<Step>, more: seq<Step>)
    requires Run(Start(micro), steps).Some?
    requires var s := Run(Start(micro), steps).value;
             State(Stopped) in s.log && !s.logger.Logged? && Rank(s.main) > 0
    requires Run(Run(Start(micro), steps).value, more).Some?
    ensures var s := Run(Start(micro), steps).value;
            var t := Run(s, more).value;
            && (Rank(t.main) > 0 || t.main.Returned?)
            && Rank(t.main) + MainSteps(more) <= Rank(s.main)
            && (t.alive && !t.main.Returned? ==> Next(t, MainStep(t)).Some?)
  {
    InitialInv(micro);
    RunKeeps(Start(micro), steps);
    var s := Run(Start(micro), steps).value;
    StoppedIsSent(micro, steps);
    SomeStopped(s.log);
    RunKeeps(s, more);
    MainGetsThere(s, more);
  }

  lemma {:induction false} LoggerRunsLate(s: Sys, steps: seq<Step>)
    requires s.logger.Idle? && Run(s, steps).Some?
    ensures var t := Run(s, steps).value; t.logger.Idle? || GoroutinesRun(t.main)
  {
    if steps != [] {
      LoggerRunsLate(s, steps[..|steps| - 1]);
      StepFacts(Run(s, steps[..|steps| - 1]).value, steps[|steps| - 1]);
    }
  }

  /** The logger never waits for main: of the two branches of its select exactly one is open, by
      whether the channel is empty or full, and both count as an attempt that main will notice. */
  lemma LoggerNeverBlocks(micro: bool, steps: seq<Step>)
    requires Run(Start(micro), steps).Some?
    requires var s := Run(Start(micro), steps).value; s.alive && s.logger != Idle
    ensures var s := Run(Start(micro), steps).value;
            && (s.logger.Received? ==> Next(s, LogState).Some?)
            && (s.logger.Logged? ==>
                  var step := if s.token then SkipSend else Send;
                  && Next(s, step).Some? && Next(s, step).value.token
                  && Next(s, if s.token then Send else SkipSend).None?)
  {
    LoggerRunsLate(Start(micro), steps);
  }

  // -- No lost transition --------------------------------------------------------------------

  /** The state transitions the VM went through, in order. */
  function Delivered(steps: seq<Step>): seq<VmState> {
    if steps == [] then []
    else
      var last := steps[|steps| - 1];
      Delivered(steps[..|steps| - 1]) + if last.Transition? then [last.s] else []
  }

  /** Those that were recorded. */
  function Recorded(log: seq<Event>): seq<VmState> {
    if log == [] then []
    else
      var last := log[|log| - 1];
      Recorded(log[..|log| - 1]) + if last.State? then [last.s] else []
  }

  /** Those that are not recorded yet: one in the logger's hands, and those it has still to receive. */
  function Unrecorded(s: Sys): seq<VmState> { (if s.logger.Received? then [s.logger.s] else []) + s.queue }

  lemma RecordedSnoc(log: seq<Event>, e: Event)
    ensures Recorded(log + [e]) == Recorded(log) + if e.State? then [e.s] else []
  {
    assert (log + [e])[..|log|] == log;
  }

  /** A step that records no state and leaves the queue and the logger's hands alone. */
  lemma NoneMoved(s: Sys, t: Sys, e: Event)
    requires Unrecorded(t) == Unrecorded(s) && (t.log == s.log || (t.log == s.log + [e] && !e.State?))
    ensures Recorded(t.log) + Unrecorded(t) == Recorded(s.log) + Unrecorded(s)
  {
    RecordedSnoc(s.log, e);
  }

  lemma GoroutineMoves(s: Sys, step: Step)
    requires GoroutineNext(s, step).Some?
    ensures var t := GoroutineNext(s, step).value;
            Recorded(t.log) + Unrecorded(t) == Recorded(s.log) + Unrecorded(s)
  {
    var t := GoroutineNext(s, step).value;
    match step
    case LogState =>
      var st := s.logger.s;
      RecordedSnoc(s.log, State(st));
      assert Unrecorded(s) == [st] + s.queue && Unrecorded(t) == [] + s.queue == s.queue;
      Reassociate(Recorded(s.log), [st], s.queue);
    case LogGuest(stage) => NoneMoved(s, t, Guest(stage));
    case Receive => assert Unrecorded(t) == [s.queue[0]] + s.queue[1..] == [] + s.queue == Unrecorded(s);
    case Send => assert Unrecorded(t) == [] + s.queue == Unrecorded(s);
    case SkipSend => assert Unrecorded(t) == [] + s.queue == Unrecorded(s);
    case _ =>
  }

  lemma MainQueue(s: Sys, step: Step)
    requires MainNext(s, step).Some?
    ensures MainNext(s, step).value.queue == s.queue
  {
  }

  lemma MainMoves(s: Sys, step: Step)
    requires MainNext(s, step).Some?
    ensures var t := MainNext(s, step).value;
            Recorded(t.log) + Unrecorded(t) == Recorded(s.log) + Unrecorded(s)
  {
    var t := MainNext(s, step).value;
    MainLogs(s, step);
    MainFacts(s, step);
    MainQueue(s, step);
    var e: Event := Entered;
    if t.log != s.log {
      e :| t.log == s.log + [e] && IsMain(e);
    }
    NoneMoved(s, t, e);
  }

  lemma TransitionMoves(s: Sys, st: VmState, t: Sys)
    requires t == s.(queue := s.queue + [st])
    ensures Recorded(t.log) + Unrecorded(t) == Recorded(s.log) + Unrecorded(s) + [st]
  {
    Reassociate(if s.logger.Received? then [s.logger.s] else [], s.queue, [st]);
    Reassociate(Recorded(s.log), Unrecorded(s), [st]);
  }

  lemma StepMoves(s: Sys, step: Step)
    requires Next(s, step).Some?
    ensures var t := Next(s, step).value;
            Recorded(t.log) + Unrecorded(t)
            == Recorded(s.log) + Unrecorded(s) + if step.Transition? then [step.s] else []
  {
    var t := Next(s, step).value;
    var before := Recorded(s.log) + Unrecorded(s);
    assert before + [] == before;
    if step.Reap? || step.RemovePidFile? || step.Report? {
      ParentLogs(s, step);
      NoneMoved(s, t, Exited);
    } else if IsMainStep(step) {
      MainMoves(s, step);
    } else if step.Transition? {
      TransitionMoves(s, step.s, t);
    } else if step.SignalArrives? || step.Die? {
      NoneMoved(s, t, Entered);
    } else {
      GoroutineMoves(s, step);
    }
  }

  /** In every run the recorded states are the VM's transitions, each once and in order, short of those
      that the logger has still to record. */
  lemma {:induction false} TransitionsAreRecorded(micro: bool, steps: seq<Step>)
    requires Run(Start(micro), steps).Some?
    ensures var s := Run(Start(micro), steps).value;
            Delivered(steps) == Recorded(s.log) + Unrecorded(s)
  {
    if steps != [] {
      var front, step := steps[..|steps| - 1], steps[|steps| - 1];
      TransitionsAreRecorded(micro, front);
      StepMoves(Run(Start(micro), front).value, step);
    }
  }

  // -- What can happen -----------------------------------------------------------------------

  /** A step of the main thread that is open, if there is one. */
  function OpenStep(s: Sys): Step {
    match s.main
    case Begin => Enter
    case Building => Build(true)
    case Creating => Create(true)
    case Launched => CallStart
    case Starting => EndStart(true)
    case Subscribing => Subscribe
    case Selecting => if s.token then TakeToken else TakeSignal
    case Stopping => EndRequestStop
    case Waiting => TakeToken
    case Exiting => RecordExit
    case Graphic => EndGraphic
    case Returned => Enter
  }

  /** While the process lives and main has not returned, main can go on except where it has nothing to
      receive: in the select with neither a token nor a signal, and in the second receive without a
      token. */
  lemma MainWaitsOnlyToReceive(s: Sys)
    requires s.alive && !s.main.Returned?
    ensures (exists step :: IsMainStep(step) && Next(s, step).Some?)
            <==> (s.main.Selecting? ==> s.token || s.signal) && (s.main.Waiting? ==> s.token)
  {
    if (s.main.Selecting? ==> s.token || s.signal) && (s.main.Waiting? ==> s.token) {
      assert IsMainStep(OpenStep(s)) && Next(s, OpenStep(s)).Some?;
    }
  }

  lemma Then(s: Sys, steps: seq<Step>, t: Sys, step: Step, u: Sys)
    requires Run(s, steps) == Some(t) && Next(t, step) == Some(u)
    ensures Run(s, steps + [step]) == Some(u)
  {
    assert (steps + [step])[..|steps|] == steps;
  }

  /** The process goes on with one main step that records an event. */
  lemma ThenRecord(s: Sys, steps: seq<Step>, t: Sys, step: Step, e: Event, m: MainPc)
    requires Run(s, steps) == Some(t) && t.alive && IsMainStep(step) && MainNext(t, step) == Some(Record(t, e, m))
    ensures Run(s, steps + [step]) == Some(Record(t, e, m))
  {
    Then(s, steps, t, step, Record(t, e, m));
  }

  function Launching(micro: bool): Sys {
    Start(micro).(main := Starting, log := [] + [Entered] + [VmConfigured] + [VmInstantiated])
  }

  lemma CanEnter(micro: bool)
    ensures Run(Start(micro), [] + [Enter]) == Some(Start(micro).(main := Building, log := [] + [Entered]))
  {
    ThenRecord(Start(micro), [], Start(micro), Enter, Entered, Building);
  }

  /** A process whose configuration was built. */
  lemma CanConfigure(micro: bool)
    ensures Run(Start(micro), [] + [Enter] + [Build(true)])
            == Some(Start(micro).(main := Creating, log := [] + [Entered] + [VmConfigured]))
  {
    var s := Start(micro).(main := Building, log := [] + [Entered]);
    CanEnter(micro);
    ThenRecord(Start(micro), [] + [Enter], s, Build(true), VmConfigured, Creating);
  }

  /** A process whose goroutines run. */
  lemma CanInstantiate(micro: bool) returns (steps: seq<Step>)
    ensures Run(Start(micro), steps) == Some(Launching(micro).(main := Launched))
  {
    var s := Start(micro).(main := Creating, log := [] + [Entered] + [VmConfigured]);
    CanConfigure(micro);
    steps := [] + [Enter] + [Build(true)];
    ThenRecord(Start(micro), steps, s, Create(true), VmInstantiated, Launched);
    steps := steps + [Create(true)];
  }

  /** A process that has come to the call of Start. */
  lemma CanLaunch(micro: bool) returns (steps: seq<Step>)
    ensures Run(Start(micro), steps) == Some(Launching(micro))
  {
    steps := CanInstantiate(micro);
    Then(Start(micro), steps, Launching(micro).(main := Launched), CallStart, Launching(micro));
    steps := steps + [CallStart];
  }

  lemma StopArrives(s0: Sys, steps: seq<Step>, s: Sys)
    requires Run(s0, steps) == Some(s) && s.alive && StartCalled(s.main) && s.queue == []
    ensures Run(s0, steps + [Transition(Stopped)]) == Some(s.(queue := [Stopped]))
  {
    assert [] + [Stopped] == [Stopped];
    Then(s0, steps, s, Transition(Stopped), s.(queue := [Stopped]));
  }

  lemma StopIsReceived(s0: Sys, steps: seq<Step>, s: Sys)
    requires Run(s0, steps) == Some(s.(queue := [Stopped]))
    requires s.alive && GoroutinesRun(s.main) && s.queue == [] && s.logger.Idle?
    ensures Run(s0, steps + [Receive]) == Some(s.(logger := Received(Stopped)))
  {
    assert [Stopped][1..] == [];
    Then(s0, steps, s.(queue := [Stopped]), Receive, s.(logger := Received(Stopped)));
  }

  lemma StopIsLogged(s0: Sys, steps: seq<Step>, s: Sys)
    requires Run(s0, steps) == Some(s) && s.alive && GoroutinesRun(s.main) && s.logger == Received(Stopped)
    ensures Run(s0, steps + [LogState]) == Some(s.(logger := Logged, log := s.log + [State(Stopped)]))
  {
    Then(s0, steps, s, LogState, s.(logger := Logged, log := s.log + [State(Stopped)]));
  }

  lemma StopIsSent(s0: Sys, steps: seq<Step>, s: Sys)
    requires Run(s0, steps) == Some(s) && s.alive && GoroutinesRun(s.main) && s.logger.Logged? && !s.token
    ensures Run(s0, steps + [Send]) == Some(s.(logger := Idle, token := true, sent := s.sent + 1))
  {
    Then(s0, steps, s, Send, s.(logger := Idle, token := true, sent := s.sent + 1));
  }

  lemma StopReaches(s0: Sys, steps: seq<Step>, s: Sys) returns (more: seq<Step>)
    requires Run(s0, steps) == Some(s) && s.alive && StartCalled(s.main) && s.queue == [] && s.logger.Idle?
    ensures steps <= more && Run(s0, more) == Some(s.(logger := Received(Stopped)))
  {
    StopArrives(s0, steps, s);
    more := steps + [Transition(Stopped)];
    StopIsReceived(s0, more, s);
    more := more + [Receive];
  }

  lemma StopGoesOn(s0: Sys, steps: seq<Step>, s: Sys, log: seq<Event>) returns (more: seq<Step>)
    requires Run(s0, steps) == Some(s.(logger := Received(Stopped))) && s.alive && GoroutinesRun(s.main)
    requires s.logger.Idle? && !s.token && log == s.log + [State(Stopped)]
    ensures steps <= more && Run(s0, more) == Some(s.(log := log, token := true, sent := s.sent + 1))
  {
    StopIsLogged(s0, steps, s.(logger := Received(Stopped)));
    more := steps + [LogState];
    StopIsSent(s0, more, s.(logger := Logged, log := log));
    more := more + [Send];
  }

  /** The VM stops, and the logger records it and sends. */
  lemma CanStop(s0: Sys, steps: seq<Step>, s: Sys) returns (more: seq<Step>)
    requires Run(s0, steps) == Some(s) && s.alive && StartCalled(s.main)
    requires s.queue == [] && s.logger.Idle? && !s.token
    ensures steps <= more
    ensures Run(s0, more) == Some(s.(log := s.log + [State(Stopped)], token := true, sent := s.sent + 1))
  {
    var received := StopReaches(s0, steps, s);
    more := StopGoesOn(s0, received, s, s.log + [State(Stopped)]);
  }

  ghost predicate Writes(micro: bool, steps: seq<Step>, w: seq<Event>) {
    && Run(Start(micro), steps).Some?
    && var s := Run(Start(micro), steps).value;
    && s.main.Returned? && MainEvents(s.log) == w
  }

  ghost predicate Happens(micro: bool, w: seq<Event>) {
    exists steps :: Writes(micro, steps, w)
  }

  lemma Wrote(micro: bool, steps: seq<Step>, s: Sys, w: seq<Event>)
    requires Run(Start(micro), steps) == Some(s) && s.main.Returned? && MainEvents(s.log) == w
    ensures Writes(micro, steps, w) && Happens(micro, w)
  {
    assert Writes(micro, steps, w);
  }

  lemma TwoEvents(a: Event, b: Event)
    requires IsMain(a) && IsMain(b)
    ensures MainEvents([] + [a] + [b]) == [a, b]
  {
    MainEventsSnoc([], a);
    MainEventsSnoc([] + [a], b);
  }

  lemma ConfigCanFail(micro: bool)
    ensures Happens(micro, [Entered, ConfigFailed])
  {
    var s := Start(micro).(main := Building, log := [] + [Entered]);
    CanEnter(micro);
    ThenRecord(Start(micro), [] + [Enter], s, Build(false), ConfigFailed, Returned);
    TwoEvents(Entered, ConfigFailed);
    Wrote(micro, [] + [Enter] + [Build(false)], Record(s, ConfigFailed, Returned), [Entered, ConfigFailed]);
  }

  lemma ThreeEvents(a: Event, b: Event, c: Event)
    requires IsMain(a) && IsMain(b) && IsMain(c)
    ensures MainEvents([] + [a] + [b] + [c]) == [a, b, c]
  {
    MainEventsSnoc([], a);
    MainEventsSnoc([] + [a], b);
    MainEventsSnoc([] + [a] + [b], c);
  }

  lemma NewVmCanFail(micro: bool)
    ensures Happens(micro, [Entered, VmConfigured, NewVmFailed])
  {
    var s := Start(micro).(main := Creating, log := [] + [Entered] + [VmConfigured]);
    CanConfigure(micro);
    ThenRecord(Start(micro), [] + [Enter] + [Build(true)], s, Create(false), NewVmFailed, Returned);
    ThreeEvents(Entered, VmConfigured, NewVmFailed);
    Wrote(micro, [] + [Enter] + [Build(true)] + [Create(false)], Record(s, NewVmFailed, Returned),
          [Entered, VmConfigured, NewVmFailed]);
  }

  lemma LaunchingEvents(micro: bool)
    ensures MainEvents(Launching(micro).log) == [Entered, VmConfigured, VmInstantiated]
  {
    ThreeEvents(Entered, VmConfigured, VmInstantiated);
  }

  lemma StartCanFail(micro: bool)
    ensures Happens(micro, [Entered, VmConfigured, VmInstantiated, StartFailed])
  {
    var steps := CanLaunch(micro);
    var s := Launching(micro);
    ThenRecord(Start(micro), steps, s, EndStart(false), StartFailed, Returned);
    LaunchingEvents(micro);
    MainEventsSnoc(s.log, StartFailed);
    Wrote(micro, steps + [EndStart(false)], Record(s, StartFailed, Returned),
          [Entered, VmConfigured, VmInstantiated, StartFailed]);
  }

  lemma CanReturnFromStart(micro: bool) returns (steps: seq<Step>)
    ensures Run(Start(micro), steps)
            == Some(Record(Launching(micro), StartReturned, if micro then Subscribing else Graphic))
  {
    steps := CanLaunch(micro);
    ThenRecord(Start(micro), steps, Launching(micro), EndStart(true), StartReturned,
               if micro then Subscribing else Graphic);
    steps := steps + [EndStart(true)];
  }

  lemma StartedEvents(micro: bool)
    ensures MainEvents(Launching(micro).log + [StartReturned]) == [Entered, VmConfigured, VmInstantiated, StartReturned]
  {
    LaunchingEvents(micro);
    MainEventsSnoc(Launching(micro).log, StartReturned);
  }

  lemma GraphicCanEnd()
    ensures Happens(false, [Entered, VmConfigured, VmInstantiated, StartReturned])
  {
    var steps := CanReturnFromStart(false);
    var s := Record(Launching(false), StartReturned, Graphic);
    Then(Start(false), steps, s, EndGraphic, s.(main := Returned));
    StartedEvents(false);
    Wrote(false, steps + [EndGraphic], s.(main := Returned), [Entered, VmConfigured, VmInstantiated, StartReturned]);
  }

  /** A headless VM that has been started. */
  lemma CanSelect() returns (steps: seq<Step>, s: Sys)
    ensures Run(Start(true), steps) == Some(s)
    ensures s == Launching(true).(main := Selecting, log := Launching(true).log + [StartReturned])
  {
    steps := CanReturnFromStart(true);
    var s1 := Record(Launching(true), StartReturned, Subscribing);
    s := s1.(main := Selecting);
    Then(Start(true), steps, s1, Subscribe, s);
    steps := steps + [Subscribe];
  }

  lemma ExitEvents(before: seq<Event>)
    requires before == Launching(true).log + [StartReturned]
    ensures MainEvents(before + [State(Stopped)] + [MicroVmExited])
            == [Entered, VmConfigured, VmInstantiated, StartReturned, MicroVmExited]
  {
    LaunchingEvents(true);
    MainEventsSnoc(Launching(true).log, StartReturned);
    MainEventsSnoc(before, State(Stopped));
    MainEventsSnoc(before + [State(Stopped)], MicroVmExited);
  }

  lemma TakeAndRecord(steps: seq<Step>, s: Sys) returns (more: seq<Step>)
    requires Run(Start(true), steps) == Some(s) && s.alive && (s.main.Selecting? || s.main.Waiting?) && s.token
    ensures steps <= more
    ensures Run(Start(true), more) == Some(s.(main := Returned, token := false, log := s.log + [MicroVmExited]))
  {
    var s2 := s.(main := Exiting, token := false);
    Then(Start(true), steps, s, TakeToken, s2);
    ThenRecord(Start(true), steps + [TakeToken], s2, RecordExit, MicroVmExited, Returned);
    more := steps + [TakeToken] + [RecordExit];
  }

  lemma ExitAfterToken(steps: seq<Step>, s: Sys, before: seq<Event>) returns (more: seq<Step>)
    requires Run(Start(true), steps) == Some(s) && s.alive && (s.main.Selecting? || s.main.Waiting?) && s.token
    requires s.log == before + [State(Stopped)] && before == Launching(true).log + [StartReturned]
    ensures steps <= more
    ensures Writes(true, more, [Entered, VmConfigured, VmInstantiated, StartReturned, MicroVmExited])
  {
    more := TakeAndRecord(steps, s);
    ExitEvents(before);
    Wrote(true, more, s.(main := Returned, token := false, log := s.log + [MicroVmExited]),
          [Entered, VmConfigured, VmInstantiated, StartReturned, MicroVmExited]);
  }

  lemma MicroVmCanExit()
    ensures Happens(true, [Entered, VmConfigured, VmInstantiated, StartReturned, MicroVmExited])
  {
    var steps, s := CanSelect();
    steps := CanStop(Start(true), steps, s);
    steps := ExitAfterToken(steps, s.(log := s.log + [State(Stopped)], token := true, sent := s.sent + 1), s.log);
  }

  /** A signal arrives while main is in the select, and main asks the guest to stop. */
  lemma CanBeSignalled(s0: Sys, steps: seq<Step>, s: Sys)
    requires Run(s0, steps) == Some(s) && s.alive && s.main.Selecting? && !s.signal
    ensures Run(s0, steps + [SignalArrives] + [TakeSignal] + [EndRequestStop]) == Some(s.(main := Waiting))
  {
    var more := steps + [SignalArrives];
    Then(s0, steps, s, SignalArrives, s.(signal := true));
    Then(s0, more, s.(signal := true), TakeSignal, s.(main := Stopping));
    Then(s0, more + [TakeSignal], s.(main := Stopping), EndRequestStop, s.(main := Waiting));
  }

  /** A headless VM whose main thread was woken by a signal and waits for the VM to stop. */
  lemma CanWait() returns (steps: seq<Step>, s: Sys)
    ensures Run(Start(true), steps) == Some(s)
    ensures s.alive && s.main.Waiting? && s.queue == [] && s.logger.Idle? && !s.token
    ensures s.log == Launching(true).log + [StartReturned]
    ensures TakeSignal in steps && EndRequestStop in steps
  {
    var t;
    steps, t := CanSelect();
    CanBeSignalled(Start(true), steps, t);
    s := t.(main := Waiting);
    var n := |steps|;
    steps := steps + [SignalArrives] + [TakeSignal] + [EndRequestStop];
    assert steps[n + 1] == TakeSignal && steps[n + 2] == EndRequestStop;
  }

  lemma StillIn(steps: seq<Step>, more: seq<Step>, step: Step)
    requires steps <= more && step in steps
    ensures step in more
  {
  }

  lemma WaitingVmCanStop() returns (steps: seq<Step>, s: Sys)
    ensures Run(Start(true), steps) == Some(s) && s.alive && s.main.Waiting? && s.token
    ensures s.log == Launching(true).log + [StartReturned] + [State(Stopped)]
    ensures TakeSignal in steps && EndRequestStop in steps
  {
    var asked, t := CanWait();
    steps := CanStop(Start(true), asked, t);
    s := t.(log := t.log + [State(Stopped)], token := true, sent := t.sent + 1);
    StillIn(asked, steps, TakeSignal);
    StillIn(asked, steps, EndRequestStop);
  }

  /** A signal in the select: main asks the guest to stop, waits, and comes to the same end. */
  lemma SignalledVmCanExit() returns (steps: seq<Step>)
    ensures Writes(true, steps, [Entered, VmConfigured, VmInstantiated, StartReturned, MicroVmExited])
    ensures TakeSignal in steps && EndRequestStop in steps
  {
    var waited, s := WaitingVmCanStop();
    steps := ExitAfterToken(waited, s, Launching(true).log + [StartReturned]);
    StillIn(waited, steps, TakeSignal);
    StillIn(waited, steps, EndRequestStop);
  }

  /** What the world and the watcher can do to a living process, and when: it can be killed at any
      moment; a signal reaches it once it has subscribed; the VM changes state once Start was called;
      and marks are recorded while the goroutines run. */
  lemma WorldMayAct(s: Sys, st: VmState, stage: Bytes)
    requires s.alive
    ensures Next(s, Die) == Some(s.(alive := false))
    ensures Next(s, SignalArrives)
            == if s.main.Selecting? || s.main.Stopping? || s.main.Waiting? || s.main.Exiting?
               then Some(s.(signal := true)) else None
    ensures var started := !s.main.Begin? && !s.main.Building? && !s.main.Creating? && !s.main.Launched?;
            Next(s, Transition(st)) == if started then Some(s.(queue := s.queue + [st])) else None
    ensures var launched := !s.main.Begin? && !s.main.Building? && !s.main.Creating?;
            Next(s, LogGuest(stage)) == if launched then Some(s.(log := s.log + [Guest(stage)])) else None
  {
  }

  /** Each of the legal words is written by some run to its end. */
  lemma EveryLegalWordHappens(micro: bool, w: seq<Event>)
    requires LegalWord(micro, w)
    ensures Happens(micro, w)
  {
    if w == [Entered, ConfigFailed] {
      ConfigCanFail(micro);
    } else if w == [Entered, VmConfigured, NewVmFailed] {
      NewVmCanFail(micro);
    } else if w == [Entered, VmConfigured, VmInstantiated, StartFailed] {
      StartCanFail(micro);
    } else if micro {
      MicroVmCanExit();
      assert w == [Entered, VmConfigured, VmInstantiated, StartReturned, MicroVmExited];
    } else {
      GraphicCanEnd();
      assert w == [Entered, VmConfigured, VmInstantiated, StartReturned];
    }
  }

  // -- The signal ----------------------------------------------------------------------------

  function Count(steps: seq<Step>, step: Step): nat {
    if steps == [] then 0
    else Count(steps[..|steps| - 1], step) + if steps[|steps| - 1] == step then 1 else 0
  }

  /** How often main has taken a signal and asked the guest to stop, by where it is. */
  predicate Asked(m: MainPc, signals: nat, requests: nat) {
    && requests <= signals <= 1
    && (m.Stopping? ==> signals == 1 && requests == 0)
    && (m.Waiting? ==> signals == 1 && requests == 1)
    && (m.Exiting? || m.Returned? ==> requests == signals)
    && (signals == 1 ==> m.Stopping? || m.Waiting? || m.Exiting? || m.Returned?)
  }

  lemma AskedStep(s: Sys, step: Step, signals: nat, requests: nat)
    requires Asked(s.main, signals, requests) && MainNext(s, step).Some?
    ensures Asked(MainNext(s, step).value.main, signals + (if step.TakeSignal? then 1 else 0),
                  requests + if step.EndRequestStop? then 1 else 0)
  {
  }

  lemma {:induction false} AskedInRuns(micro: bool, steps: seq<Step>)
    requires Run(Start(micro), steps).Some?
    ensures Asked(Run(Start(micro), steps).value.main, Count(steps, TakeSignal), Count(steps, EndRequestStop))
  {
    if steps != [] {
      var front, step := steps[..|steps| - 1], steps[|steps| - 1];
      AskedInRuns(micro, front);
      var s := Run(Start(micro), front).value;
      if IsMainStep(step) {
        AskedStep(s, step, Count(front, TakeSignal), Count(front, EndRequestStop));
      } else {
        StepFacts(s, step);
      }
    }
  }

  /** Main asks the guest to stop exactly once if it took a signal, before it waits for the VM to stop,
      and never otherwise. */
  lemma {:induction false} SignalAsksGuestToStop(micro: bool, steps: seq<Step>)
    requires Run(Start(micro), steps).Some?
    ensures var m := Run(Start(micro), steps).value.main;
            var signals, requests := Count(steps, TakeSignal), Count(steps, EndRequestStop);
            && requests <= signals <= 1
            && (m.Stopping? ==> signals == 1 && requests == 0)
            && (m.Waiting? ==> signals == 1 && requests == 1)
            && (m.Exiting? || m.Returned? ==> requests == signals)
            && (signals == 1 ==> m.Stopping? || m.Waiting? || m.Exiting? || m.Returned?)
  {
    AskedInRuns(micro, steps);
  }

  lemma ParentGoesOn(s0: Sys, steps: seq<Step>, s: Sys, step: Step, t: Sys)
    requires Run(s0, steps) == Some(s) && (step.Reap? || step.RemovePidFile? || step.Report?)
    requires ParentNext(s, step) == Some(t)
    ensures Run(s0, steps + [step]) == Some(t)
  {
    Then(s0, steps, s, step, t);
  }

  lemma CanReport(s0: Sys, steps: seq<Step>, s: Sys) returns (more: seq<Step>)
    requires Run(s0, steps) == Some(s) && s.parent.Removed?
    ensures steps <= more && Run(s0, more) == Some(s.(parent := Reported, log := s.log + [Exited]))
  {
    more := steps + [Report];
    ParentGoesOn(s0, steps, s, Report, s.(parent := Reported, log := s.log + [Exited]));
  }

  lemma CanRemove(s0: Sys, steps: seq<Step>, s: Sys)
    requires Run(s0, steps) == Some(s) && s.parent.Reaped?
    ensures Run(s0, steps + [RemovePidFile]) == Some(s.(parent := Removed))
  {
    ParentGoesOn(s0, steps, s, RemovePidFile, s.(parent := Removed));
  }

  lemma CanReap(s0: Sys, steps: seq<Step>, s: Sys)
    requires Run(s0, steps) == Some(s) && !s.alive && s.parent.InWait?
    ensures Run(s0, steps + [Reap]) == Some(s.(parent := Reaped))
  {
    ParentGoesOn(s0, steps, s, Reap, s.(parent := Reaped));
  }

  lemma CanCleanUp(s0: Sys, steps: seq<Step>, s: Sys) returns (more: seq<Step>)
    requires Run(s0, steps) == Some(s) && !s.alive && (s.parent.InWait? || s.parent.Reaped?)
    ensures steps <= more && Run(s0, more) == Some(s.(parent := Removed))
  {
    more := steps;
    if s.parent.InWait? {
      CanReap(s0, steps, s);
      more := more + [Reap];
    }
    CanRemove(s0, more, s.(parent := Reaped));
    more := more + [RemovePidFile];
  }

  /** Once the process is gone, by itself or killed at any point, the parent can reap it, clean up and
      report, and its record comes last. */
  lemma ParentCanReport(micro: bool, steps: seq<Step>) returns (more: seq<Step>)
    requires Run(Start(micro), steps).Some?
    requires var s := Run(Start(micro), steps).value; !s.alive && !s.parent.Reported?
    ensures steps <= more && Run(Start(micro), more).Some?
    ensures var s, t := Run(Start(micro), steps).value, Run(Start(micro), more).value;
            t.parent.Reported? && t.log == s.log + [Exited]
  {
    var s := Run(Start(micro), steps).value;
    more := steps;
    if !s.parent.Removed? { more := CanCleanUp(Start(micro), steps, s); }
    more := CanReport(Start(micro), more, s.(parent := Removed));
  }
}
