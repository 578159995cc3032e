/** Cutting console text in two before its escapes are stripped: exactly when the cut shows. */
module EscapeCuts {
  import opened Basics
  import opened AnsiEscapes

  lemma RunJoined(p: CharSet, a: string, b: string, i: nat)
    requires i <= |a|
    ensures var j := Run(p, a, i);
            if j < |a| then Run(p, a + b, i) == j else Run(p, a + b, i) >= |a|
  {
    if Run(p, a, i) < |a| {
      RunIs(p, a + b, i, Run(p, a, i));
    }
  }

  // -- A sequence at the front of a joined text ----------------------------------------------

  /** What could still become a longer control sequence: ESC alone, or a CSI or OSC sequence that
      lacks its end. */
  predicate Open(s: string) {
    || s == [ESC]
    || ([ESC, '['] <= s && Run(IsIntermediate, s, Run(IsParam, s, 2)) == |s|)
    || ([ESC, ']'] <= s && var r := Run(IsOscText, s, 2); r == |s| || (r == |s| - 1 && s[r] == ESC))
  }

  /** A sequence at the front of `a + b` is one of `a` alone, or `a` is open and it ends in `b`. */
  predicate Decided(a: string, b: string) {
    match EscapeEnd(a + b)
    case None => EscapeEnd(a).None?
    case Some(e) => if e <= |a| then EscapeEnd(a) == Some(e) else Open(a)
  }

  lemma DecidedCsi(a: string, b: string)
    requires [ESC, '['] <= a
    ensures Decided(a, b)
  {
    var p := Run(IsParam, a, 2);
    assert a + b != [] && (a + b)[0] == ESC && (a + b)[1] == '[';
    RunJoined(IsParam, a, b, 2);
    if p < |a| {
      RunJoined(IsIntermediate, a, b, p);
      var q := Run(IsIntermediate, a, p);
      assert q < |a| ==> (a + b)[q] == a[q];
    }
  }

  lemma DecidedOsc(a: string, b: string)
    requires [ESC, ']'] <= a
    ensures Decided(a, b)
  {
    var r := Run(IsOscText, a, 2);
    assert (a + b)[0] == ESC && (a + b)[1] == ']';
    RunJoined(IsOscText, a, b, 2);
    assert r < |a| ==> (a + b)[r] == a[r];
    assert r + 1 < |a| ==> (a + b)[r + 1] == a[r + 1];
  }

  lemma FrontIsDecided(a: string, b: string)
    requires a != []
    ensures Decided(a, b)
  {
    assert (a + b)[0] == a[0];
    if |a| > 1 {
      assert (a + b)[1] == a[1];
      if [ESC, '['] <= a {
        DecidedCsi(a, b);
      } else if [ESC, ']'] <= a {
        DecidedOsc(a, b);
      }
    }
  }

  // -- A sequence that the cut tears apart ---------------------------------------------------

  /** Inside a sequence an ESC can only be the one of its string terminator. */
  lemma BodyOfSequence(s: string, e: nat)
    requires EscapeEnd(s) == Some(e)
    ensures forall k | 1 <= k < e && s[k] == ESC :: k == e - 2 && k >= 2 && s[1] == ']' && s[e - 1] == '\\'
  {
  }

  /** What stripping leaves of the first half of a torn sequence. */
  function FirstHalf(a: string): string { if [ESC, ']'] <= a then a[2..] else a }

  /** What it leaves of the second: the `m` characters at the front of `b`, less a terminator. */
  function SecondHalf(b: string, m: nat): string
    requires m <= |b|
  {
    if m >= 2 && b[m - 2] == ESC then b[..m - 2] else b[..m]
  }

  lemma EscapeStays(rest: string)
    requires ESC !in rest
    ensures EscapeEnd([ESC] + rest).None? ==> Strip([ESC] + rest) == [ESC] + rest
  {
    assert ([ESC] + rest)[1..] == rest && ([ESC] + rest)[..1] == [ESC] && rest + [] == rest;
    TextKept(rest, []);
  }

  lemma OpenCsiBody(a: string)
    requires Open(a) && !([ESC, ']'] <= a)
    ensures a == [ESC] + a[1..] && ESC !in a[1..] && EscapeEnd(a).None?
  {
    if |a| > 1 {
      var p := Run(IsParam, a, 2);
      assert forall k | 2 <= k < |a| :: if k < p then IsParam(a[k]) else IsIntermediate(a[k]);
    }
  }

  lemma OpenOscBody(a: string)
    requires Open(a) && [ESC, ']'] <= a
    ensures EscapeEnd(a) == Some(2)
    ensures ESC !in a[2..] || (ESC !in a[2..|a| - 1] && a[2..] == a[2..|a| - 1] + [ESC])
  {
    var r := Run(IsOscText, a, 2);
    assert forall k | 2 <= k < r :: IsOscText(a[k]);
  }

  lemma FirstHalfKept(a: string)
    requires Open(a)
    ensures Strip(a) == FirstHalf(a)
  {
    if [ESC, ']'] <= a {
      OpenOscBody(a);
      if ESC in a[2..] {
        TextKept(a[2..|a| - 1], [ESC]);
        EscapeStays([]);
        assert [ESC] + [] == [ESC];
      } else {
        TextKept(a[2..], []);
        assert a[2..] + [] == a[2..];
      }
    } else {
      OpenCsiBody(a);
      EscapeStays(a[1..]);
    }
  }

  lemma SecondHalfText(t: string, rest: string)
    requires ESC !in t
    ensures Strip(t + (Send(Single('\\')) + rest)) == t + Strip(rest)
  {
    TextKept(t, Send(Single('\\')) + rest);
    ControlDropped(Single('\\'), rest);
  }

  lemma SecondHalfParts(b: string, m: nat)
    requires 1 <= m <= |b|
    requires forall k | 0 <= k < m && b[k] == ESC :: k == m - 2 && b[m - 1] == '\\'
    ensures ESC !in SecondHalf(b, m)
    ensures b == if m >= 2 && b[m - 2] == ESC then SecondHalf(b, m) + (Send(Single('\\')) + b[m..])
                 else SecondHalf(b, m) + b[m..]
  {
    var t := SecondHalf(b, m);
    assert forall k | 0 <= k < |t| :: t[k] == b[k];
  }

  lemma SecondHalfKept(b: string, m: nat)
    requires 1 <= m <= |b|
    requires forall k | 0 <= k < m && b[k] == ESC :: k == m - 2 && b[m - 1] == '\\'
    ensures Strip(b) == SecondHalf(b, m) + Strip(b[m..])
  {
    SecondHalfParts(b, m);
    if m >= 2 && b[m - 2] == ESC {
      SecondHalfText(SecondHalf(b, m), b[m..]);
    } else {
      TextKept(SecondHalf(b, m), b[m..]);
    }
  }

  /** The one torn sequence that leaves nothing behind: an empty OSC cut before its terminator, each
      half of which is a sequence of its own. */
  predicate Traceless(a: string, b: string) { a == [ESC, ']'] && [ESC, '\\'] <= b }

  lemma TracelessOnly(a: string, b: string, e: nat)
    requires Open(a) && EscapeEnd(a + b) == Some(e) && e > |a|
    ensures FirstHalf(a) == [] && SecondHalf(b, e - |a|) == [] <==> Traceless(a, b)
  {
    var m, s := e - |a|, a + b;
    if Traceless(a, b) {
      assert s[0] == ESC && s[1] == ']' && s[2] == ESC && s[3] == '\\';
    } else {
      BodyOfSequence(s, e);
      assert m >= 2 && b[m - 2] == ESC ==> s[e - 2] == ESC;
    }
  }

  lemma TornApart(a: string, b: string, e: nat)
    requires a != [] && EscapeEnd(a + b) == Some(e) && e > |a|
    ensures Open(a)
    ensures var m := e - |a|;
            && Strip(a) == FirstHalf(a)
            && Strip(b) == SecondHalf(b, m) + Strip(b[m..])
            && Strip(a + b) == Strip(b[m..])
            && (FirstHalf(a) == [] && SecondHalf(b, m) == [] <==> Traceless(a, b))
  {
    var m, s := e - |a|, a + b;
    FrontIsDecided(a, b);
    BodyOfSequence(s, e);
    FirstHalfKept(a);
    forall k | 0 <= k < m && b[k] == ESC
      ensures k == m - 2 && b[m - 1] == '\\'
    {
      assert s[|a| + k] == b[k] && s[e - 1] == b[m - 1];
    }
    SecondHalfKept(b, m);
    assert s[e..] == b[m..];
    TracelessOnly(a, b, e);
  }

  // -- Every cut -----------------------------------------------------------------------------

  /** Some sequence of `a + b` begins in `a` and ends in `b`, and is not the traceless one. */
  predicate Torn(a: string, b: string)
    decreases |a|
  {
    a != [] &&
    match EscapeEnd(a + b)
    case Some(e) => if e <= |a| then Torn(a[e..], b) else !Traceless(a, b)
    case None => Torn(a[1..], b)
  }

  lemma FrontTaken(a: string, b: string, n: nat)
    requires n <= |a|
    ensures (a + b)[n..] == a[n..] + b
  {
  }

  lemma TornLeaves(a: string, b: string, e: nat) returns (x: string, y: string, z: string)
    requires a != [] && EscapeEnd(a + b) == Some(e) && e > |a|
    ensures Strip(a) + Strip(b) == x + (y + z) && Strip(a + b) == x + z
    ensures y == [] <==> Traceless(a, b)
  {
    TornApart(a, b, e);
    var m := e - |a|;
    x, y, z := [], FirstHalf(a) + SecondHalf(b, m), Strip(b[m..]);
    Reassociate(FirstHalf(a), SecondHalf(b, m), z);
  }

  lemma KeptInFront(a: string, b: string)
    requires a != [] && EscapeEnd(a + b).None? && EscapeEnd(a).None?
    ensures Strip(a) == a[..1] + Strip(a[1..]) && Strip(a + b) == a[..1] + Strip(a[1..] + b)
  {
    FrontTaken(a, b, 1);
    assert (a + b)[..1] == a[..1];
  }

  lemma KeptToo(c: string, p: string, q: string, w: string, x: string, y: string, z: string) returns (front: string)
    requires p + q == x + (y + z) && w == x + z
    ensures front == c + x && (c + p) + q == front + (y + z) && c + w == front + z
  {
    front := c + x;
    Reassociate(c, p, q);
    Reassociate(c, x, y + z);
    Reassociate(c, x, z);
  }

  lemma MiddleTaken(p: string, q: string, w: string, x: string, y: string, z: string)
    requires p + q == x + (y + z) && w == x + z
    ensures (w == p + q <==> y == []) && (y != [] <==> |w| < |p| + |q|) && |w| <= |p| + |q|
  {
    assert |p + q| == |x| + |y| + |z|;
    if y == [] { assert y + z == z; }
  }

  /** Stripping two parts apart leaves what stripping them together does, with some text more in the
      middle exactly when a sequence is torn. */
  lemma {:induction false} CutLeaves(a: string, b: string) returns (x: string, y: string, z: string)
    ensures Strip(a) + Strip(b) == x + (y + z) && Strip(a + b) == x + z
    ensures y == [] <==> !Torn(a, b)
    decreases |a|
  {
    if a == [] {
      x, y, z := [], [], Strip(b);
      assert a + b == b;
    } else {
      FrontIsDecided(a, b);
      match EscapeEnd(a + b)
      case Some(e) =>
        if e <= |a| {
          x, y, z := CutLeaves(a[e..], b);
          FrontTaken(a, b, e);
        } else {
          x, y, z := TornLeaves(a, b, e);
        }
      case None =>
        x, y, z := CutLeaves(a[1..], b);
        KeptInFront(a, b);
        x := KeptToo(a[..1], Strip(a[1..]), Strip(b), Strip(a[1..] + b), x, y, z);
    }
  }

  /** The two ways give the same exactly when no sequence is torn; otherwise apart leaves more. */
  lemma CutShows(a: string, b: string)
    ensures Strip(a + b) == Strip(a) + Strip(b) <==> !Torn(a, b)
    ensures Torn(a, b) <==> |Strip(a + b)| < |Strip(a)| + |Strip(b)|
    ensures |Strip(a + b)| <= |Strip(a)| + |Strip(b)|
  {
    var x, y, z := CutLeaves(a, b);
    MiddleTaken(Strip(a), Strip(b), Strip(a + b), x, y, z);
  }

  // -- Any number of cuts --------------------------------------------------------------------

  function StripEach(pieces: seq<string>): string {
    if pieces == [] then [] else StripEach(pieces[..|pieces| - 1]) + Strip(pieces[|pieces| - 1])
  }

  /** No piece is torn from the text before it. */
  predicate NoneTorn(pieces: seq<string>) {
    pieces == [] ||
    (NoneTorn(pieces[..|pieces| - 1]) && !Torn(Joined(pieces[..|pieces| - 1]), pieces[|pieces| - 1]))
  }

  /** Stripping piece by piece leaves what stripping the whole text does exactly when no cut tears a
      sequence; otherwise it leaves more. */
  lemma {:induction false} CutsShow(pieces: seq<string>)
    ensures StripEach(pieces) == Strip(Joined(pieces)) <==> NoneTorn(pieces)
    ensures !NoneTorn(pieces) ==> |Strip(Joined(pieces))| < |StripEach(pieces)|
  {
    if pieces != [] {
      var front, last := pieces[..|pieces| - 1], pieces[|pieces| - 1];
      CutsShow(front);
      CutShows(Joined(front), last);
    }
  }

  // -- What the first part alone can tell ----------------------------------------------------

  /** Scanning `a` from left to right meets a sequence that could still become longer. */
  predicate Pending(a: string)
    decreases |a|
  {
    a != [] &&
    (Open(a) || match EscapeEnd(a) case Some(e) => Pending(a[e..]) case None => Pending(a[1..]))
  }

  lemma {:induction false} OnlyPendingIsTorn(a: string, b: string)
    requires Torn(a, b)
    ensures Pending(a)
    decreases |a|
  {
    FrontIsDecided(a, b);
    match EscapeEnd(a + b)
    case Some(e) => if e <= |a| { OnlyPendingIsTorn(a[e..], b); }
    case None => OnlyPendingIsTorn(a[1..], b);
  }

  /** What to send after an open sequence to complete it in the first place it can end. */
  function Ending(a: string): string {
    if a == [ESC] then "M"
    else if [ESC, '['] <= a then "m"
    else if a != [] && a[|a| - 1] == ESC then "\\"
    else [BEL]
  }

  lemma EndingEnds(a: string)
    requires Open(a)
    ensures EscapeEnd(a + Ending(a)) == Some(|a| + 1)
  {
    var s := a + Ending(a);
    assert s[0] == ESC && s[|a|] == Ending(a)[0];
    assert forall k | 0 <= k < |a| :: s[k] == a[k];
    if [ESC, '['] <= a {
      var p := Run(IsParam, a, 2);
      RunIs(IsParam, s, 2, p);
      assert |a| >= 2 && a[1] == '[' && Ending(a) == "m";
      assert Run(IsIntermediate, a, p) == |a| && s[|a|] == 'm' && !IsIntermediate('m');
      assert forall k | p <= k < |a| :: IsIntermediate(a[k]);
      RunIs(IsIntermediate, s, p, |a|);
    } else if [ESC, ']'] <= a {
      RunIs(IsOscText, s, 2, Run(IsOscText, a, 2));
    }
  }

  /** Every pending text is followed by some text, a single character, that the cut then tears. */
  lemma {:induction false} PendingCanBeTorn(a: string) returns (b: string)
    requires Pending(a)
    ensures Torn(a, b) && |b| == 1 && b[0] as int < 0x80
    decreases |a|
  {
    if Open(a) {
      b := Ending(a);
      EndingEnds(a);
    } else {
      var end := EscapeEnd(a);
      var n := if end.Some? then end.value else 1;
      b := PendingCanBeTorn(a[n..]);
      FrontIsDecided(a, b);
    }
  }

  /** Whatever follows, cutting after `a` does not show. */
  ghost predicate Clean(a: string) { forall rest :: Strip(a + rest) == Strip(a) + Strip(rest) }

  /** A text can be cut off safely exactly when nothing in it is pending. */
  lemma CleanIsNotPending(a: string)
    ensures Clean(a) <==> !Pending(a)
  {
    if Pending(a) {
      var b := PendingCanBeTorn(a);
      CutShows(a, b);
      assert Strip(a + b) != Strip(a) + Strip(b);
    } else {
      forall rest
        ensures Strip(a + rest) == Strip(a) + Strip(rest)
      {
        if Torn(a, rest) { OnlyPendingIsTorn(a, rest); }
        CutShows(a, rest);
      }
    }
  }

  /** Whole tokens leave nothing pending. */
  lemma TokensAreNotPending(ts: seq<Token>)
    requires forall k | 0 <= k < |ts| :: WellFormed(ts[k])
    ensures !Pending(SendAll(ts))
  {
    forall rest
      ensures Strip(SendAll(ts) + rest) == Strip(SendAll(ts)) + Strip(rest)
    {
      StripRecoversText(ts);
      TokensStripped(ts, rest);
    }
    CleanIsNotPending(SendAll(ts));
  }
}
