/** Searching byte strings, and splitting them at newlines. */
module Lines {
  import opened Basics

  /** The first index of `c` in `s`, or -1. */
  function FirstByte(s: Bytes, c: byte): (r: int)
    ensures -1 <= r < |s|
    ensures r >= 0 ==> s[r] == c && forall k | 0 <= k < r :: s[k] != c
    ensures r < 0 ==> c !in s
  {
    if s == [] then -1
    else if s[0] == c then 0
    else
      var r := FirstByte(s[1..], c);
      if r < 0 then -1 else r + 1
  }

  function Front(b: Bytes): Bytes
    requires b != []
  {
    b[..|b| - 1]
  }

  function Last(b: Bytes): byte
    requires b != []
  {
    b[|b| - 1]
  }

  /** What follows the last newline of `b`. */
  function Tail(b: Bytes): (r: Bytes)
    ensures '\n' !in r
  {
    if b == [] || Last(b) == '\n' then [] else Tail(Front(b)) + [Last(b)]
  }

  /** The newline-terminated lines of `b`, without their newlines. */
  function Complete(b: Bytes): seq<Bytes> {
    if b == [] then []
    else if Last(b) == '\n' then Complete(Front(b)) + [Tail(Front(b))]
    else Complete(Front(b))
  }

  predicate NewlineFree(lines: seq<Bytes>) { forall k | 0 <= k < |lines| :: '\n' !in lines[k] }

  /** Puts a newline after every line. */
  function Unlines(lines: seq<Bytes>): Bytes {
    if lines == [] then [] else Unlines(lines[..|lines| - 1]) + (lines[|lines| - 1] + "\n")
  }

  lemma SplitOfSnoc(b: Bytes, c: byte)
    ensures Tail(b + [c]) == if c == '\n' then [] else Tail(b) + [c]
    ensures Complete(b + [c]) == if c == '\n' then Complete(b) + [Tail(b)] else Complete(b)
  {
    assert Front(b + [c]) == b;
  }

  lemma UnlinesOfSnoc(lines: seq<Bytes>, line: Bytes)
    ensures Unlines(lines + [line]) == Unlines(lines) + (line + "\n")
  {
    assert (lines + [line])[..|lines|] == lines;
  }

  lemma {:induction false} NoNewlineNoLine(b: Bytes)
    requires '\n' !in b
    ensures Complete(b) == [] && Tail(b) == b
  {
    if b != [] {
      NoNewlineNoLine(Front(b));
    }
  }

  /** Only the tail of what was read matters for the lines still to come: whatever was cut off
      earlier, reading `b` after `a` splits as if both had been read at once. */
  lemma {:induction false} SplitResumes(a: Bytes, b: Bytes)
    ensures Complete(a + b) == Complete(a) + Complete(Tail(a) + b)
    ensures Tail(a + b) == Tail(Tail(a) + b)
  {
    if b == [] {
      assert a + b == a && Tail(a) + b == Tail(a);
      NoNewlineNoLine(Tail(a));
    } else {
      var f, c := Front(b), [Last(b)];
      SplitResumes(a, f);
      assert b == f + c;
      Reassociate(a, f, c);
      Reassociate(Tail(a), f, c);
      SplitOfSnoc(a + f, Last(b));
      SplitOfSnoc(Tail(a) + f, Last(b));
      Reassociate(Complete(a), Complete(Tail(a) + f), [Tail(Tail(a) + f)]);
    }
  }

  /** Peeling the first line off, as the watcher's inner loop does. */
  lemma SplitOfCons(line: Bytes, rest: Bytes)
    requires '\n' !in line
    ensures Complete(line + "\n" + rest) == [line] + Complete(rest)
    ensures Tail(line + "\n" + rest) == Tail(rest)
  {
    SplitOfSnoc(line, '\n');
    NoNewlineNoLine(line);
    SplitResumes(line + "\n", rest);
    assert [] + rest == rest;
  }

  lemma UnlinesStep(f: Bytes, c: byte, lines: seq<Bytes>, tail: Bytes)
    requires Unlines(lines) + tail == f
    ensures Unlines(lines + [tail]) == f + "\n"
    ensures Unlines(lines) + (tail + [c]) == f + [c]
  {
    UnlinesOfSnoc(lines, tail);
    Reassociate(Unlines(lines), tail, "\n");
    Reassociate(Unlines(lines), tail, [c]);
  }

  /** Splitting loses nothing. */
  lemma {:induction false} UnlinesOfComplete(b: Bytes)
    ensures Unlines(Complete(b)) + Tail(b) == b
    ensures NewlineFree(Complete(b))
  {
    if b != [] {
      var f, c := Front(b), Last(b);
      UnlinesOfComplete(f);
      UnlinesStep(f, c, Complete(f), Tail(f));
      assert b == f + [c] && (c == '\n' ==> [c] == "\n");
      assert Unlines(Complete(b)) + [] == Unlines(Complete(b));
    }
  }

  lemma OneMoreLine(text: Bytes, line: Bytes, front: seq<Bytes>)
    requires Complete(text + line) == front && Tail(text + line) == line
    ensures Complete(text + (line + "\n")) == front + [line] && Tail(text + (line + "\n")) == []
  {
    Reassociate(text, line, "\n");
    SplitOfSnoc(text + line, '\n');
  }

  lemma UnfinishedLine(text: Bytes, tail: Bytes)
    requires Tail(text) == [] && '\n' !in tail
    ensures Complete(text + tail) == Complete(text) && Tail(text + tail) == tail
  {
    SplitResumes(text, tail);
    assert [] + tail == tail && Complete(text) + [] == Complete(text);
    NoNewlineNoLine(tail);
  }

  /** Splitting is the only way to undo joining. */
  lemma {:induction false} CompleteOfUnlines(lines: seq<Bytes>, tail: Bytes)
    requires NewlineFree(lines) && '\n' !in tail
    ensures Complete(Unlines(lines) + tail) == lines
    ensures Tail(Unlines(lines) + tail) == tail
  {
    if lines == [] {
      assert Unlines(lines) + tail == tail;
      NoNewlineNoLine(tail);
    } else {
      var front, line := lines[..|lines| - 1], lines[|lines| - 1];
      CompleteOfUnlines(front, line);
      OneMoreLine(Unlines(front), line, front);
      assert lines == front + [line];
      UnfinishedLine(Unlines(lines), tail);
    }
  }

  lemma AppendStep(l1: seq<Bytes>, front: seq<Bytes>, line: Bytes)
    requires Unlines(l1 + front) == Unlines(l1) + Unlines(front)
    ensures Unlines(l1 + (front + [line])) == Unlines(l1) + Unlines(front + [line])
  {
    Reassociate(l1, front, [line]);
    UnlinesOfSnoc(l1 + front, line);
    UnlinesOfSnoc(front, line);
    Reassociate(Unlines(l1), Unlines(front), line + "\n");
  }

  lemma {:induction false} UnlinesAppend(l1: seq<Bytes>, l2: seq<Bytes>)
    ensures Unlines(l1 + l2) == Unlines(l1) + Unlines(l2)
  {
    if l2 == [] {
      assert l1 + l2 == l1;
    } else {
      var front, line := l2[..|l2| - 1], l2[|l2| - 1];
      UnlinesAppend(l1, front);
      assert l2 == front + [line];
      AppendStep(l1, front, line);
    }
  }
}
