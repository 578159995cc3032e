/** Many goroutines and processes append to one timings.jsonl. Each writer marshals a record, and
    appends it in a single O_APPEND write that either happens whole or not at all. */
module SharedLog {
  import opened Basics
  import opened Subsequences
  import opened TimingLog
  import Lines

  /** One call of recordTimingEvent that a writer is going to make. */
  datatype Call = Call(kind: Bytes, meta: Option<map<Bytes, Bytes>>)

  /** A writer: the calls it has not begun, and the record it has marshalled but not written. */
  datatype Writer = Writer(todo: seq<Call>, staged: Option<TimingEvent>)

  /** A record that reached the file, and who wrote it. */
  datatype Entry = Entry(writer: nat, event: TimingEvent)

  datatype State = State(file: Bytes, writers: map<nat, Writer>, written: seq<Entry>)

  datatype Step =
    | Stage(w: nat, now: int) // an event without a kind is dropped here
    | Write(w: nat)
    | Lose(w: nat) // the file could not be opened or written

  function Line(e: TimingEvent): Bytes { EncodeEvent(e) + "\n" }

  function Next(s: State, step: Step): Option<State> {
    if step.w !in s.writers then None
    else
      var me := s.writers[step.w];
      match step
      case Stage(w, now) =>
        if me.staged.Some? || me.todo == [] then None
        else
          var c := me.todo[0];
          var staged := if c.kind == "" then None else Some(TimingEvent(c.kind, now, c.meta));
          Some(s.(writers := s.writers[w := Writer(me.todo[1..], staged)]))
      case Write(w) =>
        if me.staged.None? then None
        else
          Some(State(s.file + Line(me.staged.value), s.writers[w := me.(staged := None)],
                     s.written + [Entry(w, me.staged.value)]))
      case Lose(w) =>
        if me.staged.None? then None else Some(s.(writers := s.writers[w := me.(staged := None)]))
  }

  /** The state after a run of steps, or None if some step was not possible. */
  function Run(s: State, steps: seq<Step>): Option<State> {
    if steps == [] then Some(s)
    else
      match Run(s, steps[..|steps| - 1])
      case None => None
      case Some(t) => Next(t, steps[|steps| - 1])
  }

  function Start(file: Bytes, plans: map<nat, seq<Call>>): State {
    State(file, map w | w in plans :: Writer(plans[w], None), [])
  }

  function Records(written: seq<Entry>): seq<Bytes> {
    seq(|written|, k requires 0 <= k < |written| => EncodeEvent(written[k].event))
  }

  lemma AppendRecord(file: Bytes, e: TimingEvent)
    requires Lines.Tail(file) == []
    ensures Lines.Tail(file + Line(e)) == []
    ensures Lines.Complete(file + Line(e)) == Lines.Complete(file) + [EncodeEvent(e)]
  {
    RecordIsOneLine(e);
    Lines.NoNewlineNoLine(EncodeEvent(e));
    Lines.SplitOfSnoc(EncodeEvent(e), '\n');
    Lines.SplitResumes(file, Line(e));
    assert [] + Line(e) == Line(e);
  }

  /** However the writers interleave, the file splits at its newlines into whole records: those
      that were there, then those written, in the order of the writes. */
  lemma {:induction false} LogIsWholeRecords(file: Bytes, plans: map<nat, seq<Call>>, steps: seq<Step>)
    requires Lines.Tail(file) == [] && Run(Start(file, plans), steps).Some?
    ensures var s := Run(Start(file, plans), steps).value;
            && Lines.Tail(s.file) == []
            && Lines.Complete(s.file) == Lines.Complete(file) + Records(s.written)
  {
    if steps != [] {
      var front, step := steps[..|steps| - 1], steps[|steps| - 1];
      LogIsWholeRecords(file, plans, front);
      var t := Run(Start(file, plans), front).value;
      if step.Write? {
        var e := t.writers[step.w].staged.value;
        AppendRecord(t.file, e);
        var entry := Entry(step.w, e);
        assert Records(t.written + [entry]) == Records(t.written) + [EncodeEvent(e)];
      }
    } else {
      assert Lines.Complete(file) + [] == Lines.Complete(file);
    }
  }

  function CallOf(e: TimingEvent): Call { Call(e.name, e.meta) }

  /** The calls of writer `w` that reached the file, in file order. */
  function Own(written: seq<Entry>, w: nat): seq<Call> {
    if written == [] then []
    else
      var last := written[|written| - 1];
      Own(written[..|written| - 1], w) + if last.writer == w then [CallOf(last.event)] else []
  }

  function Staged(me: Writer): seq<Call> { if me.staged.Some? then [CallOf(me.staged.value)] else [] }

  /** What writer `w` has written, is writing, and will write. */
  function Story(s: State, w: nat): seq<Call>
    requires w in s.writers
  {
    Own(s.written, w) + (Staged(s.writers[w]) + s.writers[w].todo)
  }

  lemma OwnOfSnoc(written: seq<Entry>, e: Entry, w: nat)
    ensures Own(written + [e], w) == Own(written, w) + if e.writer == w then [CallOf(e.event)] else []
  {
    assert (written + [e])[..|written|] == written;
  }

  /** Leaving out the one at `k` when it sits right after the first part. */
  lemma DropMiddle<T>(a: seq<T>, x: T, b: seq<T>)
    ensures var s := a + ([x] + b); s[..|a|] + s[|a| + 1..] == a + b
  {
  }

  lemma WriteStory(s: State, v: nat, w: nat)
    requires w in s.writers && Next(s, Write(v)).Some?
    ensures w in Next(s, Write(v)).value.writers && Story(Next(s, Write(v)).value, w) == Story(s, w)
  {
    var own, me := Own(s.written, w), s.writers[w];
    OwnOfSnoc(s.written, Entry(v, s.writers[v].staged.value), w);
    if v == w {
      Reassociate(own, Staged(me), me.todo);
      assert [] + me.todo == me.todo;
    } else {
      assert own + [] == own;
    }
  }

  lemma LoseStory(s: State, v: nat, w: nat)
    requires w in s.writers && Next(s, Lose(v)).Some?
    ensures var t, k := Next(s, Lose(v)).value, |Own(s.written, w)|;
            && w in t.writers
            && if v == w then k < |Story(s, w)| && Story(t, w) == Story(s, w)[..k] + Story(s, w)[k + 1..]
               else Story(t, w) == Story(s, w)
  {
    var me := s.writers[w];
    if v == w {
      DropMiddle(Own(s.written, w), CallOf(me.staged.value), me.todo);
      assert [] + me.todo == me.todo;
    }
  }

  lemma StageStory(s: State, v: nat, now: int, w: nat)
    requires w in s.writers && Next(s, Stage(v, now)).Some?
    ensures var t, k := Next(s, Stage(v, now)).value, |Own(s.written, w)|;
            && w in t.writers
            && if v == w && s.writers[w].todo[0].kind == "" then
                 k < |Story(s, w)| && Story(t, w) == Story(s, w)[..k] + Story(s, w)[k + 1..]
               else Story(t, w) == Story(s, w)
  {
    var me := s.writers[w];
    if v == w {
      var rest := me.todo[1..];
      assert me.todo == [me.todo[0]] + rest;
      assert [] + me.todo == me.todo && [] + rest == rest;
      DropMiddle(Own(s.written, w), me.todo[0], rest);
    }
  }

  /** A step leaves every writer's story alone, or drops one call from the story of the writer
      that lost a record or was handed an event without a kind. */
  lemma StoryStep(s: State, step: Step, w: nat)
    requires w in s.writers && Next(s, step).Some?
    ensures var t := Next(s, step).value;
            && w in t.writers
            && var k := |Own(s.written, w)|;
            var dropped := step.w == w && (step.Lose? || (step.Stage? && s.writers[w].todo[0].kind == ""));
            if dropped then k < |Story(s, w)| && Story(t, w) == Story(s, w)[..k] + Story(s, w)[k + 1..]
            else Story(t, w) == Story(s, w)
  {
    match step
    case Write(v) => WriteStory(s, v, w);
    case Lose(v) => LoseStory(s, v, w);
    case Stage(v, now) => StageStory(s, v, now, w);
  }

  /** No record of writer `w` is lost; others may lose theirs. */
  ghost predicate KeepsAllOf(steps: seq<Step>, w: nat) {
    forall k | 0 <= k < |steps| && steps[k].Lose? :: steps[k].w != w
  }

  ghost predicate AllNamed(calls: seq<Call>) { forall k | 0 <= k < |calls| :: calls[k].kind != "" }

  /** Each writer's records reach the file in the order of its calls: the file is a merge of the
      writers' own sequences, short of what was lost, and complete for a writer that lost nothing. */
  lemma {:induction false} OwnOrderKept(file: Bytes, plans: map<nat, seq<Call>>, steps: seq<Step>, w: nat)
    requires w in plans && Run(Start(file, plans), steps).Some?
    ensures var s := Run(Start(file, plans), steps).value;
            && w in s.writers
            && IsSubsequence(Story(s, w), plans[w])
            && (KeepsAllOf(steps, w) && AllNamed(plans[w]) ==> Story(s, w) == plans[w])
  {
    if steps == [] {
      var s := Start(file, plans);
      assert Story(s, w) == plans[w];
      Itself(plans[w]);
    } else {
      var front, step := steps[..|steps| - 1], steps[|steps| - 1];
      OwnOrderKept(file, plans, front, w);
      var s := Run(Start(file, plans), front).value;
      var t := Next(s, step).value;
      StoryStep(s, step, w);
      var k := |Own(s.written, w)|;
      if Story(t, w) != Story(s, w) {
        Drop(Story(s, w), k, plans[w]);
      }
      if KeepsAllOf(steps, w) && AllNamed(plans[w]) {
        assert steps[|steps| - 1].Lose? ==> step.w != w;
        assert step.Stage? && step.w == w ==> Story(s, w)[k] == s.writers[w].todo[0];
      }
    }
  }

  lemma RunSnoc(s: State, steps: seq<Step>, step: Step)
    ensures Run(s, steps + [step]) == match Run(s, steps) case None => None case Some(t) => Next(t, step)
  {
    assert (steps + [step])[..|steps|] == steps;
  }

  /** One call of recordTimingEvent by writer `w`, on a file that shows the state: its write happens
      whole or is lost, and the file shows the state after the writer's steps. */
  method PerformCall(log: TimingsFile, ghost s: State, ghost w: nat, call: Call, vmDir: Bytes, now: int, opens: bool)
    returns (ghost steps: seq<Step>)
    requires log.data == s.file && vmDir != ""
    requires w in s.writers && s.writers[w].staged.None? && s.writers[w].todo != [] && s.writers[w].todo[0] == call
    modifies log
    ensures Run(s, steps).Some? && log.data == Run(s, steps).value.file
    ensures w in Run(s, steps).value.writers
            && Run(s, steps).value.writers[w] == Writer(s.writers[w].todo[1..], None)
    ensures steps == [Stage(w, now)] + if call.kind == "" then [] else [if opens then Write(w) else Lose(w)]
  {
    var room := |EncodeEvent(TimingEvent(call.kind, now, call.meta))| + 1;
    log.RecordTimingEvent(vmDir, call.kind, call.meta, now, opens, room);
    steps := [Stage(w, now)];
    RunSnoc(s, [], Stage(w, now));
    if call.kind != "" {
      var last := if opens then Write(w) else Lose(w);
      RunSnoc(s, steps, last);
      steps := steps + [last];
    }
  }
}
