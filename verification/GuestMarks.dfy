/** From a line the guest prints to a record in timings.jsonl. */
module GuestMarks {
  import opened Basics
  import opened ConsoleMarks
  import opened ConsoleWatcher
  import opened TimingLog
  import opened SharedLog
  import opened WatcherExit
  import Lines
  import Utf8

  /** The watcher finds the marks of a log in order; those of a line in the middle of it come
      right after those of the lines before. */
  lemma MarkOfLine(before: Bytes, line: Bytes, after: Bytes, m: Mark)
    requires Lines.Tail(before) == [] && '\n' !in line && ParseMark(line) == Some(m)
    ensures Marks(before + (line + "\n" + after)) == Marks(before) + ([m] + Marks(after))
  {
    MarksResume(before, line + "\n" + after);
    assert [] + (line + "\n" + after) == line + "\n" + after;
    Lines.SplitOfCons(line, after);
    CollectAppend(MarkIn, [line], Lines.Complete(after));
    assert Collect(MarkIn, [line]) == MarkIn(line);
  }

  /** A mark as the guest prints it: after some noise, with blanks between its fields. */
  datatype Printed =
    Printed(noise: Bytes, lead: Bytes, stage: Bytes, items: seq<Item>, trail: Bytes, cr: bool)

  function LineOf(p: Printed): Bytes { PrintMark(p.noise, PrintBody(p.lead, p.stage, p.items, p.trail), p.cr) }

  /** The noise is free of the prefix, the fields are what their names say, and the line is one line
      of valid UTF-8. */
  ghost predicate GoodMark(p: Printed) {
    && (forall k :: !OccursAt(p.noise, PREFIX, k))
    && Blanks(p.lead) && p.stage != [] && BlankFree(p.stage) && Blanks(p.trail)
    && (forall k | 0 <= k < |p.items| :: GoodItem(p.items[k]))
    && (var body := PrintBody(p.lead, p.stage, p.items, p.trail); p.cr || body == [] || body[|body| - 1] != '\r')
    && '\n' !in LineOf(p) && Utf8.Valid(LineOf(p))
  }

  /** What a record of the mark is to be read back as. */
  function Expected(p: Printed, ts: int): Decoded { Decoded("guest." + p.stage, ts, LastWins(p.items)) }

  lemma DecodedEvent(m: Mark, ts: int)
    requires ValidMark(m)
    ensures var e := EventOf(m);
            DecodeEvent(EncodeEvent(TimingEvent(e.kind, ts, e.meta)))
            == Some(Decoded("guest." + m.stage, ts, if m.meta.Some? then m.meta.value else map[]))
  {
    Utf8.ValidAfterAscii("guest.", m.stage);
    EventRoundTrip(TimingEvent("guest." + m.stage, ts, m.meta));
  }

  function MarkOf(p: Printed): Mark {
    Mark(p.stage, if p.items == [] then None else Some(LastWins(p.items)))
  }

  lemma MarkOfGood(p: Printed)
    requires GoodMark(p)
    ensures ParseMark(LineOf(p)) == Some(MarkOf(p)) && ValidMark(MarkOf(p))
  {
    ParsePrintedMark(p.noise, p.lead, p.stage, p.items, p.trail, p.cr);
    ValidLineGivesValidMark(LineOf(p));
  }

  lemma EventAtItsPlace(before: Bytes, line: Bytes, after: Bytes, m: Mark)
    requires Lines.Tail(before) == [] && '\n' !in line && ParseMark(line) == Some(m)
    ensures var events, n := EventsOf(Marks(before + (line + "\n" + after))), |Marks(before)|;
            n < |events| && events[n] == EventOf(m)
  {
    MarkOfLine(before, line, after, m);
  }

  /** A mark the guest prints on a console line of valid UTF-8, after any noise free of the prefix,
      becomes the event at its place in the sequence the watcher records; and the record of that
      event, whatever time stamps it, is read back as `guest.<stage>` with the last value printed
      for each key. */
  lemma GuestMarkFidelity(before: Bytes, p: Printed, after: Bytes, ts: int)
    requires Lines.Tail(before) == [] && GoodMark(p)
    ensures var events := EventsOf(Marks(before + (LineOf(p) + "\n" + after)));
            var n := |Marks(before)|;
            && n < |events|
            && DecodeEvent(EncodeEvent(TimingEvent(events[n].kind, ts, events[n].meta))) == Some(Expected(p, ts))
  {
    var m := MarkOf(p);
    MarkOfGood(p);
    EventAtItsPlace(before, LineOf(p), after, m);
    DecodedEvent(m, ts);
  }

  // -- All the way into the shared file ------------------------------------------------------

  /** The calls of recordTimingEvent the watcher makes for its events. */
  function CallsOf(events: seq<ConsoleWatcher.Event>): seq<Call> {
    seq(|events|, k requires 0 <= k < |events| => Call(events[k].kind, events[k].meta))
  }

  /** The `n`th call of a writer that reached the file is one of the records written. */
  lemma {:induction false} OwnIsWritten(written: seq<Entry>, w: nat, n: nat) returns (i: nat)
    requires n < |Own(written, w)|
    ensures i < |written| && written[i].writer == w && CallOf(written[i].event) == Own(written, w)[n]
  {
    var front := written[..|written| - 1];
    if n < |Own(front, w)| {
      i := OwnIsWritten(front, w, n);
    } else {
      i := |written| - 1;
    }
  }

  /** At any moment the records of a writer that lost none are the first of its calls, in order, and
      once it has finished they are all of them. */
  lemma WrittenSoFar(file: Bytes, plans: map<nat, seq<Call>>, steps: seq<Step>, w: nat)
    requires w in plans && SharedLog.Run(Start(file, plans), steps).Some?
    requires KeepsAllOf(steps, w) && AllNamed(plans[w])
    ensures var s := SharedLog.Run(Start(file, plans), steps).value;
            && Own(s.written, w) <= plans[w]
            && w in s.writers
            && (s.writers[w] == Writer([], None) ==> Own(s.written, w) == plans[w])
  {
    OwnOrderKept(file, plans, steps, w);
    var s := SharedLog.Run(Start(file, plans), steps).value;
    assert Story(s, w) == plans[w];
  }

  /** A call that the writer has made by now is a whole line of the file, stamped with some time. */
  lemma CallIsALine(file: Bytes, plans: map<nat, seq<Call>>, steps: seq<Step>, w: nat, n: nat) returns (k: nat, ts: int)
    requires Lines.Tail(file) == []
    requires w in plans && SharedLog.Run(Start(file, plans), steps).Some?
    requires KeepsAllOf(steps, w) && AllNamed(plans[w])
    requires n < |Own(SharedLog.Run(Start(file, plans), steps).value.written, w)|
    ensures var lines := Lines.Complete(SharedLog.Run(Start(file, plans), steps).value.file);
            && n < |plans[w]| && k < |lines|
            && lines[k] == EncodeEvent(TimingEvent(plans[w][n].kind, ts, plans[w][n].meta))
  {
    var s := SharedLog.Run(Start(file, plans), steps).value;
    WrittenSoFar(file, plans, steps, w);
    var i := OwnIsWritten(s.written, w, n);
    var e := s.written[i].event;
    LogIsWholeRecords(file, plans, steps);
    k, ts := |Lines.Complete(file)| + i, e.ts;
    assert Lines.Complete(s.file)[k] == Records(s.written)[i] == EncodeEvent(e);
    assert CallOf(e) == plans[w][n];
  }

  lemma EventsAreNamed(events: seq<ConsoleWatcher.Event>, marks: seq<Mark>)
    requires events == EventsOf(marks)
    ensures AllNamed(CallsOf(events))
  {
    forall k | 0 <= k < |events|
      ensures CallsOf(events)[k].kind != ""
    {
      assert |"guest." + marks[k].stage| > 0;
    }
  }

  /** What the watcher has read of the log by the end of these polls. */
  ghost function ReadBy(start: int, polls: seq<Poll>): Bytes
    requires AppendOnly(polls)
  {
    OffWithinLog(start, polls);
    Log(polls)[..ConsoleWatcher.Run(start, polls).off]
  }

  /** What has been read of a log of which more than `before line` was read. */
  lemma ReadPastLine(start: int, polls: seq<Poll>, before: Bytes, line: Bytes, after: Bytes) returns (rest: Bytes)
    requires AppendOnly(polls) && Log(polls) == before + (line + "\n" + after)
    requires |ReadBy(start, polls)| > |before| + |line|
    ensures ReadBy(start, polls) == before + (line + "\n" + rest)
  {
    OffWithinLog(start, polls);
    assert |ReadBy(start, polls)| == ConsoleWatcher.Run(start, polls).off;
    rest := after[..|ReadBy(start, polls)| - |before| - |line| - 1];
  }

  /** The watcher tails a console log in which the guest has printed a mark, in any pieces, next to
      any number of other writers of the same timings.jsonl. As soon as it has read past the line and
      written one record more than there are marks before it, some line of that file is read back as
      the guest's stage and pairs: whatever noise and blanks surrounded the mark, however the writers
      interleaved, and whatever the others lost. */
  lemma GuestMarkReachesTheFile(start: int, polls: seq<Poll>, before: Bytes, p: Printed, after: Bytes,
                                file: Bytes, plans: map<nat, seq<Call>>, steps: seq<Step>, w: nat)
    returns (k: nat, ts: int)
    requires Lines.Tail(before) == [] && GoodMark(p)
    requires AppendOnly(polls) && Log(polls) == before + (LineOf(p) + "\n" + after)
    requires |ReadBy(start, polls)| > |before| + |LineOf(p)|
    requires w in plans && plans[w] == CallsOf(EventsOf(Marks(ReadBy(start, polls))))
    requires Lines.Tail(file) == [] && SharedLog.Run(Start(file, plans), steps).Some? && KeepsAllOf(steps, w)
    requires |Own(SharedLog.Run(Start(file, plans), steps).value.written, w)| > |Marks(before)|
    ensures var lines := Lines.Complete(SharedLog.Run(Start(file, plans), steps).value.file);
            k < |lines| && DecodeEvent(lines[k]) == Some(Expected(p, ts))
  {
    var rest := ReadPastLine(start, polls, before, LineOf(p), after);
    var marks, n := Marks(before + (LineOf(p) + "\n" + rest)), |Marks(before)|;
    EventsAreNamed(EventsOf(marks), marks);
    k, ts := CallIsALine(file, plans, steps, w, n);
    GuestMarkFidelity(before, p, rest, ts);
  }
}
