/** The console window: every 0.2 s it reads what console.log has grown by, strips the terminal
    escapes from it, and appends the rest to the text on screen. */
module ConsolePane {
  import opened Basics
  import opened Utf8
  import opened ConsoleWatcher
  import opened AnsiEscapes
  import opened EscapeCuts
  import opened PieceDecoding
  import opened DecodedStripping
  import ConsoleMarks

  function Shown(piece: Bytes): string { Strip(Decoded(piece)) }

  // -- One poll ------------------------------------------------------------------------------

  datatype Pane = Pane(offset: nat, text: string)

  predicate Reads(c: Pane, p: Poll) { p.isOpen && c.offset < |p.file| }

  function Polled(c: Pane, p: Poll): Pane {
    if Reads(c, p) then Pane(|p.file|, c.text + Shown(p.file[c.offset..])) else c
  }

  class ConsoleTab {
    var lastReadOffset: nat
    var textStorage: string

    function Now(): Pane
      reads this
    {
      Pane(lastReadOffset, textStorage)
    }

    constructor ()
      ensures Now() == Pane(0, "")
    {
      lastReadOffset, textStorage := 0, "";
    }

    method PollConsole(p: Poll)
      modifies this
      ensures Now() == Polled(old(Now()), p)
    {
      if !p.isOpen {
        return;
      }
      var data := if lastReadOffset <= |p.file| then p.file[lastReadOffset..] else [];
      if |data| == 0 {
        return;
      }
      lastReadOffset := lastReadOffset + |data|;
      var str := Strip(Decoded(data));
      if |str| == 0 {
        assert textStorage + str == textStorage;
        return;
      }
      textStorage := textStorage + str;
    }
  }

  // -- Whole runs ----------------------------------------------------------------------------

  function After(polls: seq<Poll>): Pane {
    if polls == [] then Pane(0, "") else Polled(After(polls[..|polls| - 1]), polls[|polls| - 1])
  }

  /** The pieces of the log that the polls have read, in order. */
  function Pieces(polls: seq<Poll>): seq<Bytes> {
    if polls == [] then []
    else
      var c, p := After(polls[..|polls| - 1]), polls[|polls| - 1];
      Pieces(polls[..|polls| - 1]) + if Reads(c, p) then [p.file[c.offset..]] else []
  }

  lemma FrontAppends(polls: seq<Poll>)
    requires polls != [] && AppendOnly(polls)
    ensures AppendOnly(polls[..|polls| - 1]) && Log(polls[..|polls| - 1]) <= Log(polls)
  {
    if |polls| > 1 {
      assert polls[|polls| - 2].file <= polls[|polls| - 1].file;
    }
  }

  lemma CutAt(file: Bytes, off: nat)
    requires off <= |file|
    ensures file[..off] + file[off..] == file
  {
  }

  lemma CollectSnoc<A, B>(f: A -> seq<B>, s: seq<A>, x: A)
    ensures ConsoleMarks.Collect(f, s + [x]) == ConsoleMarks.Collect(f, s) + f(x)
  {
    assert (s + [x])[..|s|] == s;
  }

  lemma JoinedSnoc(pieces: seq<Bytes>, piece: Bytes)
    ensures Joined(pieces + [piece]) == Joined(pieces) + piece
  {
    assert (pieces + [piece])[..|pieces|] == pieces;
  }

  lemma {:induction false} PiecesAreTheLog(polls: seq<Poll>)
    requires AppendOnly(polls)
    ensures After(polls).offset <= |Log(polls)| && Joined(Pieces(polls)) == Log(polls)[..After(polls).offset]
  {
    if polls != [] {
      var front, p := polls[..|polls| - 1], polls[|polls| - 1];
      FrontAppends(polls);
      PiecesAreTheLog(front);
      var off := After(front).offset;
      assert Log(front)[..off] == p.file[..off];
      if Reads(After(front), p) {
        CutAt(p.file, off);
        JoinedSnoc(Pieces(front), p.file[off..]);
        assert p.file[..|p.file|] == p.file;
      } else {
        assert Pieces(front) + [] == Pieces(front);
      }
    }
  }

  lemma {:induction false} TextOfPieces(polls: seq<Poll>)
    ensures After(polls).text == ConsoleMarks.Collect(Shown, Pieces(polls))
  {
    if polls != [] {
      var front, p := polls[..|polls| - 1], polls[|polls| - 1];
      TextOfPieces(front);
      if Reads(After(front), p) {
        CollectSnoc(Shown, Pieces(front), p.file[After(front).offset..]);
      } else {
        assert Pieces(front) + [] == Pieces(front);
      }
    }
  }

  lemma {:induction false} NothingLeftOut(polls: seq<Poll>)
    ensures forall k | 0 <= k < |polls| && polls[k].isOpen :: |polls[k].file| <= After(polls).offset
  {
    if polls != [] {
      var front := polls[..|polls| - 1];
      NothingLeftOut(front);
      assert forall k | 0 <= k < |front| :: polls[k] == front[k];
    }
  }

  /** However the polls cut the log, every byte up to the offset is read exactly once and in order,
      nothing that an opened file held is left out, and the text is what the pieces show. */
  lemma EveryByteReadOnce(polls: seq<Poll>)
    requires AppendOnly(polls)
    ensures var c := After(polls);
            && c.offset <= |Log(polls)|
            && Joined(Pieces(polls)) == Log(polls)[..c.offset]
            && c.text == ConsoleMarks.Collect(Shown, Pieces(polls))
            && forall k | 0 <= k < |polls| && polls[k].isOpen :: |polls[k].file| <= c.offset
  {
    PiecesAreTheLog(polls);
    TextOfPieces(polls);
    NothingLeftOut(polls);
  }

  // -- What is on screen ---------------------------------------------------------------------

  lemma {:induction false} TextIsStripped(pieces: seq<Bytes>)
    ensures ConsoleMarks.Collect(Shown, pieces) == StripEach(Decodings(pieces))
  {
    if pieces != [] {
      var n := |pieces| - 1;
      TextIsStripped(pieces[..n]);
      assert Decodings(pieces)[..n] == Decodings(pieces[..n]);
    }
  }

  /** The part of the log that has been read. */
  ghost function Seen(polls: seq<Poll>): Bytes
    requires AppendOnly(polls)
  {
    EveryByteReadOnce(polls);
    Log(polls)[..After(polls).offset]
  }

  lemma {:induction false} PiecesAreNotEmpty(polls: seq<Poll>)
    ensures forall k | 0 <= k < |Pieces(polls)| :: Pieces(polls)[k] != []
  {
    if polls != [] {
      PiecesAreNotEmpty(polls[..|polls| - 1]);
    }
  }

  lemma NotContinued(piece: Bytes)
    requires piece != [] && Valid(piece)
    ensures !Continuation(piece[0])
  {
  }

  /** A piece shows at least the characters that its stripped bytes hold, and more if it begins inside
      a character. */
  lemma ShownCharacters(piece: Bytes)
    ensures |Shown(piece)| >= Characters(Strip(piece))
    ensures piece != [] && Continuation(piece[0]) ==> |Shown(piece)| > Characters(Strip(piece))
  {
    CharactersAtMost(Strip(piece));
    if Valid(piece) {
      StripCommutes(piece);
      CharactersOfRunes(Strip(piece));
      if piece != [] { NotContinued(piece); }
    }
  }

  lemma CutKeepsCharacters(a: string, b: string)
    ensures Characters(Strip(a + b)) <= Characters(Strip(a)) + Characters(Strip(b))
  {
    var x, y, z := CutLeaves(a, b);
    CharactersJoin(Strip(a), Strip(b));
    CharactersJoin(x, y + z);
    CharactersJoin(y, z);
    CharactersJoin(x, z);
  }

  /** What one more piece adds to the characters on screen and to those of the stripped whole. */
  lemma OnePieceMore(text: string, front: Bytes, piece: Bytes)
    requires |text| >= Characters(Strip(front))
    ensures |text + Shown(piece)| >= Characters(Strip(front + piece))
    ensures |text| > Characters(Strip(front)) || (piece != [] && Continuation(piece[0]))
            ==> |text + Shown(piece)| > Characters(Strip(front + piece))
  {
    ShownCharacters(piece);
    CutKeepsCharacters(front, piece);
  }

  lemma LastPiece(pieces: seq<Bytes>)
    requires pieces != []
    ensures var n := |pieces| - 1;
            && ConsoleMarks.Collect(Shown, pieces) == ConsoleMarks.Collect(Shown, pieces[..n]) + Shown(pieces[n])
            && Joined(pieces) == Joined(pieces[..n]) + pieces[n]
  {
  }

  lemma LastPieceMore(pieces: seq<Bytes>, more: bool)
    requires pieces != []
    requires var n := |pieces| - 1;
             var text, chars := ConsoleMarks.Collect(Shown, pieces[..n]), Characters(Strip(Joined(pieces[..n])));
             |text| >= chars && (more ==> |text| > chars || (pieces[n] != [] && Continuation(pieces[n][0])))
    ensures var text, chars := ConsoleMarks.Collect(Shown, pieces), Characters(Strip(Joined(pieces)));
            |text| >= chars && (more ==> |text| > chars)
  {
    var n := |pieces| - 1;
    LastPiece(pieces);
    OnePieceMore(ConsoleMarks.Collect(Shown, pieces[..n]), Joined(pieces[..n]), pieces[n]);
  }

  lemma {:induction false} ScreenCharacters(pieces: seq<Bytes>)
    ensures |ConsoleMarks.Collect(Shown, pieces)| >= Characters(Strip(Joined(pieces)))
  {
    if pieces != [] {
      ScreenCharacters(pieces[..|pieces| - 1]);
      LastPieceMore(pieces, false);
    }
  }

  predicate GoesOn(piece: Bytes) { piece != [] && Continuation(piece[0]) }

  lemma MoreAtLast(pieces: seq<Bytes>)
    requires pieces != [] && GoesOn(pieces[|pieces| - 1])
    ensures |ConsoleMarks.Collect(Shown, pieces)| > Characters(Strip(Joined(pieces)))
  {
    ScreenCharacters(pieces[..|pieces| - 1]);
    LastPieceMore(pieces, true);
  }

  lemma MoreBefore(pieces: seq<Bytes>, front: seq<Bytes>)
    requires pieces != [] && front == pieces[..|pieces| - 1]
    requires |ConsoleMarks.Collect(Shown, front)| > Characters(Strip(Joined(front)))
    ensures |ConsoleMarks.Collect(Shown, pieces)| > Characters(Strip(Joined(pieces)))
  {
    LastPieceMore(pieces, true);
  }

  lemma {:induction false} ScreenShowsMore(pieces: seq<Bytes>, k: nat)
    requires k < |pieces| && GoesOn(pieces[k])
    ensures |ConsoleMarks.Collect(Shown, pieces)| > Characters(Strip(Joined(pieces)))
  {
    var front := pieces[..|pieces| - 1];
    if k < |front| {
      ScreenShowsMore(front, k);
      MoreBefore(pieces, front);
    } else {
      MoreAtLast(pieces);
    }
  }

  /** Where a cut splits a character of valid text, the screen shows too much. */
  lemma SplitCharacterShows(pieces: seq<Bytes>)
    requires Valid(Joined(pieces)) && !AllValid(pieces)
    requires forall k | 0 <= k < |pieces| :: pieces[k] != []
    ensures |ConsoleMarks.Collect(Shown, pieces)| > |Shown(Joined(pieces))|
  {
    var k := SomePieceGoesOn(pieces);
    ScreenShowsMore(pieces, k);
    StripCommutes(Joined(pieces));
    CharactersOfRunes(Strip(Joined(pieces)));
  }

  lemma ValidPiecesShow(pieces: seq<Bytes>)
    requires AllValid(pieces)
    ensures Valid(Joined(pieces))
    ensures ConsoleMarks.Collect(Shown, pieces) == Shown(Joined(pieces)) <==> NoneTorn(Decodings(pieces))
  {
    ValidPiecesDecode(pieces);
    TextIsStripped(pieces);
    CutsShow(Decodings(pieces));
  }

  /** While the log is valid UTF-8 the screen shows the stripped log exactly when no poll has cut a
      character in two and none has torn an escape sequence. */
  lemma ScreenShowsStrippedLog(polls: seq<Poll>)
    requires AppendOnly(polls) && Valid(Seen(polls))
    ensures After(polls).text == Shown(Seen(polls))
            <==> AllValid(Pieces(polls)) && NoneTorn(Decodings(Pieces(polls)))
  {
    EveryByteReadOnce(polls);
    if AllValid(Pieces(polls)) {
      ValidPiecesShow(Pieces(polls));
    } else {
      PiecesAreNotEmpty(polls);
      SplitCharacterShows(Pieces(polls));
    }
  }

  /** Whatever the log holds, the screen shows the stripped text of the pieces read, each decoded by
      itself, exactly when no cut tears a sequence of that text. */
  lemma ScreenShowsStrippedPieces(polls: seq<Poll>)
    requires AppendOnly(polls)
    ensures After(polls).text == Strip(Joined(Decodings(Pieces(polls)))) <==> NoneTorn(Decodings(Pieces(polls)))
  {
    EveryByteReadOnce(polls);
    TextIsStripped(Pieces(polls));
    CutsShow(Decodings(Pieces(polls)));
  }

  lemma NextPoll(polls: seq<Poll>, next: Poll)
    requires AppendOnly(polls + [next])
    ensures AppendOnly(polls)
    ensures var c := After(polls);
            && After(polls + [next]) == Polled(c, next)
            && (Reads(c, next) ==>
                  && Pieces(polls + [next]) == Pieces(polls) + [next.file[c.offset..]]
                  && Seen(polls + [next]) == Seen(polls) + next.file[c.offset..])
            && (!Reads(c, next) ==> Pieces(polls + [next]) == Pieces(polls) && Seen(polls + [next]) == Seen(polls))
  {
    var all := polls + [next];
    assert all[..|polls|] == polls;
    FrontAppends(all);
    EveryByteReadOnce(polls);
    EveryByteReadOnce(all);
  }

  /** After text with nothing pending no poll can spoil the screen, whatever it reads. */
  lemma NextPollIsSafe(polls: seq<Poll>, next: Poll)
    requires AppendOnly(polls + [next]) && AppendOnly(polls)
    requires AllValid(Pieces(polls + [next])) && Valid(Seen(polls))
    requires After(polls).text == Shown(Seen(polls)) && !Pending(Runes(Seen(polls)))
    ensures After(polls + [next]).text == Shown(Seen(polls + [next]))
  {
    NextPoll(polls, next);
    var c, log := After(polls), Seen(polls);
    if Reads(c, next) {
      var piece := next.file[c.offset..];
      assert Pieces(polls + [next])[|Pieces(polls)|] == piece;
      RunesJoin(log, piece);
      CleanIsNotPending(Runes(log));
      assert Strip(Runes(log) + Runes(piece)) == Strip(Runes(log)) + Strip(Runes(piece));
    }
  }

  lemma AsciiDecodes(b: string)
    requires |b| == 1 && b[0] as int < 0x80
    ensures Valid(b) && Runes(b) == b
  {
    AsciiIsValid(b);
    DecodedAscii(b);
  }

  lemma LogGrows(polls: seq<Poll>, next: Poll)
    requires AppendOnly(polls) && Log(polls) <= next.file
    ensures AppendOnly(polls + [next])
  {
    var all := polls + [next];
    assert forall k | 0 <= k < |polls| :: all[k] == polls[k];
  }

  /** After text with something pending one more byte can. */
  lemma NextPollCanSpoil(polls: seq<Poll>) returns (next: Poll)
    requires AppendOnly(polls) && After(polls).offset == |Log(polls)|
    requires Valid(Log(polls)) && After(polls).text == Shown(Log(polls)) && Pending(Runes(Log(polls)))
    ensures AppendOnly(polls + [next]) && |next.file| == |Log(polls)| + 1 && Log(polls) <= next.file
    ensures Valid(next.file) && After(polls + [next]).text != Shown(next.file)
  {
    var log := Log(polls);
    var b := PendingCanBeTorn(Runes(log));
    next := Poll(true, log + b, 0, 0);
    assert next.file[|log|..] == b && next.file[..|log|] == log;
    LogGrows(polls, next);
    NextPoll(polls, next);
    AsciiDecodes(b);
    RunesJoin(log, b);
    CutShows(Runes(log), b);
  }

  lemma HalvesAreShown()
    ensures Shown([ESC, '[']) == [ESC, '['] && Shown(['m']) == ['m']
  {
    var first, second := [ESC, '['], ['m'];
    DecodedAscii(first);
    DecodedAscii(second);
    TextKept(['['], []);
    TextKept(second, []);
    assert ['['] + [] == ['['] && second + [] == second;
    assert EscapeEnd(first).None? && first[1..] == ['['] && first[..1] == [ESC];
  }

  /** A cut inside a sequence does leave one: both halves stay on the screen. */
  lemma CutSequenceIsShown() returns (polls: seq<Poll>)
    ensures AppendOnly(polls) && After(polls).offset == |Log(polls)|
    ensures Strip(Log(polls)) == [] && After(polls).text == Log(polls) != []
  {
    var first, second := [ESC, '['], ['m'];
    var p1, p2 := Poll(true, first, 0, 0), Poll(true, first + second, 0, 0);
    polls := [p1, p2];
    assert polls[..1] == [p1] && [p1][..0] == [];
    HalvesAreShown();
    assert (first + second)[2..] == second && first[0..] == first;
    assert After([p1]) == Polled(After([]), p1);
    assert After(polls) == Polled(After([p1]), p2) == Pane(3, [] + first + second);
    ControlDropped(Csi([], [], 'm'), []);
    assert Send(Csi([], [], 'm')) + [] == first + second;
  }
}
