/** The polling loop that tails console.log and records the marks it finds. */
module ConsoleWatcher {
  import opened Basics
  import opened Lines
  import opened ConsoleMarks
  import opened ConsoleParser

  const IDLE_QUIT: int := 30 * SECOND
  const BUF_SIZE: nat := 64 * 1024

  /** One call of the `record` closure. */
  datatype Event = Event(kind: Bytes, meta: Option<map<Bytes, Bytes>>)

  function EventOf(m: Mark): Event { Event("guest." + m.stage, m.meta) }

  function EventsOf(marks: seq<Mark>): seq<Event> {
    seq(|marks|, k requires 0 <= k < |marks| => EventOf(marks[k]))
  }

  /** What the world does to one turn of the outer loop: whether the file opens, what it holds,
      how many bytes the kernel is willing to hand over, and the turn's one clock reading. */
  datatype Poll = Poll(isOpen: bool, file: Bytes, want: nat, now: int)

  function Min(a: int, b: int): int { if a < b then a else b }

  function ReadCount(p: Poll, off: nat): (n: nat)
    ensures n <= BUF_SIZE && (n > 0 ==> off + n <= |p.file|)
  {
    if off < |p.file| then Min(Min(p.want, BUF_SIZE), |p.file| - off) else 0
  }

  /** The console log only ever grows at its end. */
  ghost predicate AppendOnly(polls: seq<Poll>) {
    forall k | 1 <= k < |polls| :: polls[k - 1].file <= polls[k].file
  }

  ghost function Log(polls: seq<Poll>): Bytes {
    if polls == [] then [] else polls[|polls| - 1].file
  }

  // -- The control state: what has been consumed, since when nothing came, and whether to stop

  datatype Control = Control(off: nat, idle: int, quit: bool)

  function Turn(c: Control, p: Poll): Control {
    if p.isOpen && ReadCount(p, c.off) > 0 then Control(c.off + ReadCount(p, c.off), p.now, false)
    else c.(quit := p.now - c.idle > IDLE_QUIT)
  }

  /** The control state after a run of polls; once it has quit the loop takes no more. */
  function Run(start: int, polls: seq<Poll>): Control {
    if polls == [] then Control(0, start, false)
    else
      var c := Run(start, polls[..|polls| - 1]);
      if c.quit then c else Turn(c, polls[|polls| - 1])
  }

  // -- The loop itself -----------------------------------------------------------------------

  /** `f.Read(buf)` at an offset: the first `n` bytes of the buffer are the file's, the others
      may have been used as scratch space. */
  method Read(p: Poll, off: nat, buf: array<byte>) returns (n: nat)
    requires buf.Length == BUF_SIZE
    modifies buf
    ensures n == ReadCount(p, off)
    ensures n <= p.want && n <= 65536 && (n == p.want || n == 65536 || off + n >= |p.file|)
    ensures n > 0 ==> off + n <= |p.file| && buf[..n] == p.file[off..off + n]
  {
    n := 0;
    if off < |p.file| {
      n := Min(Min(p.want, BUF_SIZE), |p.file| - off);
      for i := 0 to n
        invariant buf[..i] == p.file[off..off + i]
      {
        buf[i] := p.file[off + i];
      }
    }
  }

  /** Go's `copy`. */
  method Copy(src: array<byte>, from: nat, n: nat, dst: array<byte>, at: nat)
    requires src != dst && from + n <= src.Length && at + n <= dst.Length
    modifies dst
    ensures dst[..at] == old(dst[..at])
    ensures dst[at..at + n] == src[from..from + n]
  {
    for i := 0 to n
      invariant dst[..at] == old(dst[..at])
      invariant dst[at..at + i] == src[from..from + i]
    {
      dst[at + i] := src[from + i];
    }
  }

  /** `append(s, src[:n]...)`: in place when the backing array has room, otherwise in a new and
      possibly larger array. Either way what `s` held stays where it was. */
  method Append(s: Slice, src: array<byte>, n: nat) returns (r: Slice)
    requires s.Ok() && n <= src.Length && s.arr != src
    modifies s.arr
    ensures r.Ok() && (r.arr == s.arr || fresh(r.arr))
    ensures r.Contents() == old(s.Contents()) + src[..n]
    ensures s.arr[..s.hi] == old(s.arr[..s.hi])
  {
    if s.hi + n <= s.arr.Length {
      Copy(src, 0, n, s.arr, s.hi);
      r := Slice(s.arr, s.lo, s.hi + n);
      assert s.arr[s.lo..s.hi] == s.arr[..s.hi][s.lo..];
      assert r.Contents() == s.arr[s.lo..s.hi] + s.arr[s.hi..s.hi + n];
    } else {
      var len := s.hi - s.lo;
      var cap :| cap >= len + n;
      var grown := new byte[cap];
      Copy(s.arr, s.lo, len, grown, 0);
      Copy(src, 0, n, grown, len);
      r := Slice(grown, 0, len + n);
      assert r.Contents() == grown[..len] + grown[len..len + n];
    }
  }

  lemma MarksOfFirstLine(chunk: Bytes, i: nat)
    requires i == FirstByte(chunk, '\n')
    ensures Tail(chunk) == Tail(chunk[i + 1..])
    ensures Marks(chunk) == MarkIn(chunk[..i]) + Marks(chunk[i + 1..])
  {
    assert chunk == chunk[..i] + "\n" + chunk[i + 1..];
    SplitOfCons(chunk[..i], chunk[i + 1..]);
    CollectAppend(MarkIn, [chunk[..i]], Complete(chunk[i + 1..]));
    assert Collect(MarkIn, [chunk[..i]]) == MarkIn(chunk[..i]);
  }

  lemma EventsAppend(done: seq<Event>, first: seq<Mark>, rest: seq<Mark>)
    requires |first| <= 1
    ensures done + EventsOf(first + rest)
            == (if first == [] then done else done + [EventOf(first[0])]) + EventsOf(rest)
  {
  }

  /** What taking the first line off a chunk leaves to be recorded. */
  lemma FirstLineOff(chunk: Bytes, i: nat, stage: Bytes, meta: Option<map<Bytes, Bytes>>, ok: bool,
                     done: seq<Event>, all: seq<Event>)
    requires i == FirstByte(chunk, '\n')
    requires ParseMark(chunk[..i]) == if ok then Some(Mark(stage, meta)) else None
    requires done + EventsOf(Marks(chunk)) == all
    ensures Tail(chunk) == Tail(chunk[i + 1..])
    ensures (if ok then done + [Event("guest." + stage, meta)] else done)
            + EventsOf(Marks(chunk[i + 1..])) == all
  {
    MarksOfFirstLine(chunk, i);
    var mark := if ok then [Mark(stage, meta)] else [];
    EventsAppend(done, mark, Marks(chunk[i + 1..]));
  }

  /** The inner loop: takes complete lines off the front of the chunk and keeps the rest. */
  method RecordLines(whole: Slice) returns (pending: Slice, events: seq<Event>)
    requires whole.Ok()
    ensures pending.Ok() && pending.arr == whole.arr
    ensures pending.Contents() == Tail(whole.Contents())
    ensures events == EventsOf(Marks(whole.Contents()))
  {
    events := [];
    var chunk := whole;
    ghost var left := whole.Contents();
    ghost var all := EventsOf(Marks(left));
    while true
      invariant chunk.Ok() && chunk.arr == whole.arr && chunk.Contents() == left
      invariant Tail(left) == Tail(whole.Contents())
      invariant events + EventsOf(Marks(left)) == all
      decreases chunk.hi - chunk.lo
    {
      var i := IndexNL(chunk);
      if i < 0 {
        NoNewlineNoLine(left);
        return chunk, events;
      }
      var line := chunk.To(i);
      CutSlice(chunk, i);
      CutSlice(chunk, i + 1);
      var stage, meta, ok := ParseNCLMark(line);
      FirstLineOff(left, i, stage, meta, ok, events, all);
      chunk, left := chunk.From(i + 1), left[i + 1..];
      if ok {
        events := events + [Event("guest." + stage, meta)];
      }
    }
  }

  lemma CutPiece(file: Bytes, off: nat, n: nat)
    requires off + n <= |file|
    ensures file[..off + n] == file[..off] + file[off..off + n]
  {
  }

  lemma EventsJoin(a: seq<Mark>, b: seq<Mark>)
    ensures EventsOf(a + b) == EventsOf(a) + EventsOf(b)
  {
  }

  /** Consuming one more piece of the log. */
  lemma PieceConsumed(seen: Bytes, piece: Bytes)
    ensures Tail(seen + piece) == Tail(Tail(seen) + piece)
    ensures EventsOf(Marks(seen + piece)) == EventsOf(Marks(seen)) + EventsOf(Marks(Tail(seen) + piece))
  {
    MarksResume(seen, piece);
    SplitResumes(seen, piece);
    EventsJoin(Marks(seen), Marks(Tail(seen) + piece));
  }

  /** One piece taken in: what the bytes just read add to the events, and the new carry-over. */
  method TakePiece(pending: Slice, buf: array<byte>, n: nat, ghost seen: Bytes)
    returns (rest: Slice, events: seq<Event>)
    requires pending.Ok() && n <= buf.Length && pending.arr != buf
    requires pending.Contents() == Tail(seen)
    modifies pending.arr
    ensures rest.Ok() && (rest.arr == pending.arr || fresh(rest.arr))
    ensures rest.Contents() == Tail(seen + buf[..n])
    ensures EventsOf(Marks(seen)) + events == EventsOf(Marks(seen + buf[..n]))
  {
    var chunk := Append(pending, buf, n);
    PieceConsumed(seen, buf[..n]);
    rest, events := RecordLines(chunk);
  }

  /** One more poll changes nothing about the bytes already consumed. */
  lemma GrowsAtItsEnd(start: int, polls: seq<Poll>, used: nat, off: nat)
    requires AppendOnly(polls) && used < |polls| && off <= |Log(polls[..used])|
    ensures Log(polls[..used + 1]) == polls[used].file
    ensures off <= |polls[used].file| && polls[used].file[..off] == Log(polls[..used])[..off]
    ensures !Run(start, polls[..used]).quit
            ==> Run(start, polls[..used + 1]) == Turn(Run(start, polls[..used]), polls[used])
  {
    assert polls[..used + 1][..used] == polls[..used];
    if used > 0 {
      assert polls[used - 1].file <= polls[used].file;
    }
  }

  /** What is carried and recorded is right for the bytes seen. */
  ghost predicate UpToDate(seen: Bytes, pending: Slice, events: seq<Event>)
    reads pending.arr
  {
    pending.Ok() && pending.Contents() == Tail(seen) && events == EventsOf(Marks(seen))
  }

  /** One turn on an open file: what can be read of it is read and taken in. */
  method TakeTurn(p: Poll, off: nat, buf: array<byte>, pending: Slice, events: seq<Event>)
    returns (n: nat, rest: Slice, all: seq<Event>)
    requires off <= |p.file| && buf.Length == BUF_SIZE && pending.arr != buf
    requires UpToDate(p.file[..off], pending, events)
    modifies buf, pending.arr
    ensures n == ReadCount(p, off) && off + n <= |p.file|
    ensures rest.arr == pending.arr || fresh(rest.arr)
    ensures UpToDate(p.file[..off + n], rest, all)
  {
    n := Read(p, off, buf);
    rest, all := pending, events;
    if n > 0 {
      CutPiece(p.file, off, n);
      var found;
      rest, found := TakePiece(pending, buf, n, p.file[..off]);
      all := events + found;
    }
  }

  /** One turn of the outer loop. Nothing is known of the other turns but that the bytes consumed so
      far are still at the front of the file. */
  method WatchOnce(p: Poll, off: nat, idleStart: int, buf: array<byte>, pending: Slice, events: seq<Event>)
    returns (newOff: nat, newIdle: int, quit: bool, rest: Slice, all: seq<Event>)
    requires off <= |p.file| && buf.Length == BUF_SIZE && pending.arr != buf
    requires UpToDate(p.file[..off], pending, events)
    modifies buf, pending.arr
    ensures Control(newOff, newIdle, quit) == Turn(Control(off, idleStart, false), p) && newOff <= |p.file|
    ensures rest.arr == pending.arr || fresh(rest.arr)
    ensures UpToDate(p.file[..newOff], rest, all)
  {
    newOff, newIdle, quit, rest, all := off, idleStart, false, pending, events;
    if !p.isOpen {
      quit := p.now - idleStart > IDLE_QUIT;
      return;
    }
    var n;
    n, rest, all := TakeTurn(p, off, buf, pending, events);
    if n > 0 {
      newOff, newIdle := off + n, p.now;
    } else {
      quit := p.now - idleStart > IDLE_QUIT;
    }
  }

  /** Whatever pieces the polls cut the log into, at every turn the recorded events are exactly
      the marks of the complete lines among the bytes consumed so far, and what is carried over is
      exactly the unterminated tail. `polls` is any prefix of the polls of a run; the loop stops early
      when it decides to quit. */
  method WatchConsoleForMarks(start: int, polls: seq<Poll>)
    returns (events: seq<Event>, off: nat, used: nat, quit: bool, pending: Slice)
    requires AppendOnly(polls)
    ensures used <= |polls| && (quit || used == |polls|)
    ensures Run(start, polls[..used]).off == off && Run(start, polls[..used]).quit == quit
    ensures off <= |Log(polls[..used])|
    ensures events == EventsOf(Marks(Log(polls[..used])[..off]))
    ensures pending.Ok() && pending.Contents() == Tail(Log(polls[..used])[..off])
  {
    off := 0;
    var idleStart := start;
    var buf := new byte[BUF_SIZE];
    var empty := new byte[0];
    pending := Slice(empty, 0, 0);
    events, used, quit := [], 0, false;
    ghost var seen: Bytes := [];
    while used < |polls| && !quit
      invariant used <= |polls|
      invariant Run(start, polls[..used]) == Control(off, idleStart, quit)
      invariant buf.Length == BUF_SIZE && fresh(buf) && fresh(pending.arr) && pending.arr != buf
      invariant off <= |Log(polls[..used])| && seen == Log(polls[..used])[..off]
      invariant UpToDate(seen, pending, events)
      decreases |polls| - used
    {
      var p := polls[used];
      GrowsAtItsEnd(start, polls, used, off);
      off, idleStart, quit, pending, events := WatchOnce(p, off, idleStart, buf, pending, events);
      used, seen := used + 1, p.file[..off];
    }
  }
}
