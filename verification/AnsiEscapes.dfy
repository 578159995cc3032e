/** Stripping terminal escapes from console text before it is shown: the regular expression, with
    the order in which a backtracking matcher tries its alternatives, and a scanner that needs no
    backtracking. Character classes follow sections 5.3, 5.4 and 5.6 of ECMA-48. */
module AnsiEscapes {
  import opened Basics
  import opened Subsequences

  const ESC: char := 27 as char
  const BEL: char := 7 as char

  type CharSet = char -> bool

  // -- The regular expression ----------------------------------------------------------------

  datatype Re = One(p: CharSet) | Star(p: CharSet) | Cat(a: Re, b: Re) | Alt(a: Re, b: Re)

  /** All ends of matches that begin at `i`, in the order a backtracking matcher finds them: a star
      takes as much as it can first, and alternatives are tried from left to right. */
  function Ends(re: Re, s: string, i: nat): seq<nat>
    decreases re, 0, |s| - i
  {
    match re
    case One(p) => if i < |s| && p(s[i]) then [i + 1] else []
    case Star(p) => if i < |s| && p(s[i]) then Ends(re, s, i + 1) + [i] else [i]
    case Cat(a, b) => EndsFrom(b, s, Ends(a, s, i))
    case Alt(a, b) => Ends(a, s, i) + Ends(b, s, i)
  }

  function EndsFrom(re: Re, s: string, starts: seq<nat>): seq<nat>
    decreases re, 1, |starts|
  {
    if starts == [] then []
    else EndsFrom(re, s, starts[..|starts| - 1]) + Ends(re, s, starts[|starts| - 1])
  }

  predicate IsParam(c: char) { '0' <= c <= '?' }

  predicate IsIntermediate(c: char) { ' ' <= c <= '/' }

  predicate IsFinal(c: char) { '@' <= c <= '~' }

  predicate IsOscText(c: char) { c != BEL && c != ESC }

  predicate IsSingle(c: char) { '@' <= c <= 'Z' || '\\' <= c <= '_' }

  function Lit(x: char): Re { One(c => c == x) }

  function CsiTail(): Re { Cat(Star(IsIntermediate), One(IsFinal)) }

  function CsiRe(): Re {
    Cat(Lit('['), Cat(Star(IsParam), CsiTail()))
  }

  function OscRe(): Re {
    Cat(Lit(']'), Cat(Star(IsOscText), Alt(Lit(BEL), Cat(Lit(ESC), Lit('\\')))))
  }

  function Pattern(): Re { Cat(Lit(ESC), Alt(CsiRe(), Alt(OscRe(), One(IsSingle)))) }

  /** The match a regular-expression engine reports at `i`. */
  function Match(re: Re, s: string, i: nat): Option<nat> {
    var ends := Ends(re, s, i);
    if ends == [] then None else Some(ends[0])
  }

  /** Replacing matches by nothing, left to right: `found[i]` is the end of the one at `i`. */
  function ReplaceFrom(found: seq<Option<nat>>, s: string, i: nat): string
    requires |found| == |s|
    decreases |s| - i
  {
    if i >= |s| then []
    else if found[i].Some? && i < found[i].value then ReplaceFrom(found, s, found[i].value)
    else s[i..i + 1] + ReplaceFrom(found, s, i + 1)
  }

  function Matches(re: Re, s: string): seq<Option<nat>> {
    seq(|s|, i requires 0 <= i < |s| => Match(re, s, i))
  }

  function ReplaceAll(re: Re, s: string): string { ReplaceFrom(Matches(re, s), s, 0) }

  // -- The scanner ---------------------------------------------------------------------------

  /** The end of the run of characters of `p` that begins at `i`. */
  function Run(p: CharSet, s: string, i: nat): (j: nat)
    ensures i <= j && (i <= |s| ==> j <= |s|)
    ensures forall k | i <= k < j && k < |s| :: p(s[k])
    ensures j < |s| ==> !p(s[j])
    decreases |s| - i
  {
    if i < |s| && p(s[i]) then Run(p, s, i + 1) else i
  }

  /** The end of the escape sequence at the front of `s`, if there is one. An unterminated OSC
      still loses its two-character introducer. */
  function EscapeEnd(s: string): (r: Option<nat>)
    ensures r.Some? ==> 2 <= r.value <= |s| && s[0] == ESC
  {
    if |s| < 2 || s[0] != ESC then None
    else if s[1] == '[' then
      var q := Run(IsIntermediate, s, Run(IsParam, s, 2));
      if q < |s| && IsFinal(s[q]) then Some(q + 1) else None
    else if s[1] == ']' then
      var r := Run(IsOscText, s, 2);
      if r < |s| && s[r] == BEL then Some(r + 1)
      else if r + 1 < |s| && s[r] == ESC && s[r + 1] == '\\' then Some(r + 2)
      else Some(2)
    else if IsSingle(s[1]) then Some(2)
    else None
  }

  /** Removes the matches from left to right, as the engine's replace-all does. */
  function Strip(s: string): string
    decreases |s|
  {
    if s == [] then []
    else
      match EscapeEnd(s)
      case Some(e) => Strip(s[e..])
      case None => s[..1] + Strip(s[1..])
  }

  // -- The scanner finds what the regular expression matches ---------------------------------

  lemma EndsFromSnoc(re: Re, s: string, starts: seq<nat>, i: nat)
    ensures EndsFrom(re, s, starts + [i]) == EndsFrom(re, s, starts) + Ends(re, s, i)
  {
    assert (starts + [i])[..|starts|] == starts;
  }

  lemma EndsFromOne(re: Re, s: string, i: nat)
    ensures EndsFrom(re, s, [i]) == Ends(re, s, i)
  {
    EndsFromSnoc(re, s, [], i);
    assert [] + [i] == [i];
    assert [] + Ends(re, s, i) == Ends(re, s, i);
  }

  /** When what follows a starred class cannot begin inside the run, only the longest run counts. */
  lemma {:induction false} StarThen(p: CharSet, x: Re, s: string, i: nat)
    requires forall e | i <= e < Run(p, s, i) :: Ends(x, s, e) == []
    ensures Ends(Cat(Star(p), x), s, i) == Ends(x, s, Run(p, s, i))
    decreases |s| - i
  {
    if i < |s| && p(s[i]) {
      StarThen(p, x, s, i + 1);
      EndsFromSnoc(x, s, Ends(Star(p), s, i + 1), i);
    } else {
      EndsFromOne(x, s, i);
    }
  }

  lemma LitThen(c: char, x: Re, s: string, i: nat)
    ensures Ends(Cat(Lit(c), x), s, i) == if i < |s| && s[i] == c then Ends(x, s, i + 1) else []
  {
    if i < |s| && s[i] == c {
      EndsFromOne(x, s, i + 1);
    }
  }

  lemma CsiTailEnds(s: string, e: nat)
    ensures var q := Run(IsIntermediate, s, e);
            Ends(CsiTail(), s, e) == if q < |s| && IsFinal(s[q]) then [q + 1] else []
  {
    StarThen(IsIntermediate, One(IsFinal), s, e);
  }

  lemma NoTailAt(s: string, e: nat)
    requires e < |s| ==> IsParam(s[e])
    ensures Ends(CsiTail(), s, e) == []
  {
    CsiTailEnds(s, e);
    assert e < |s| ==> !IsIntermediate(s[e]) && !IsFinal(s[e]);
  }

  lemma NoTailBefore(s: string, tail: Re)
    requires tail == CsiTail()
    ensures forall e | 2 <= e < Run(IsParam, s, 2) :: Ends(tail, s, e) == []
  {
    forall e | 2 <= e < Run(IsParam, s, 2)
      ensures Ends(tail, s, e) == []
    {
      NoTailAt(s, e);
    }
  }

  lemma ParamsThen(s: string, tail: Re, ends: seq<nat>)
    requires forall e | 2 <= e < Run(IsParam, s, 2) :: Ends(tail, s, e) == []
    requires Ends(tail, s, Run(IsParam, s, 2)) == ends
    ensures Ends(Cat(Star(IsParam), tail), s, 2) == ends
  {
    StarThen(IsParam, tail, s, 2);
  }

  /** After the parameters: no intermediate or final can begin before the end of their run. */
  lemma CsiBodyEnds(s: string)
    ensures var q := Run(IsIntermediate, s, Run(IsParam, s, 2));
            Ends(Cat(Star(IsParam), CsiTail()), s, 2) == if q < |s| && IsFinal(s[q]) then [q + 1] else []
  {
    var p := Run(IsParam, s, 2);
    NoTailBefore(s, CsiTail());
    CsiTailEnds(s, p);
    ParamsThen(s, CsiTail(), Ends(CsiTail(), s, p));
  }

  lemma CsiEnds(s: string)
    ensures var q := Run(IsIntermediate, s, Run(IsParam, s, 2));
            Ends(CsiRe(), s, 1) == if |s| > 1 && s[1] == '[' && q < |s| && IsFinal(s[q]) then [q + 1] else []
  {
    LitThen('[', Cat(Star(IsParam), CsiTail()), s, 1);
    CsiBodyEnds(s);
  }

  lemma OscEnds(s: string)
    ensures var r := Run(IsOscText, s, 2);
            Ends(OscRe(), s, 1)
            == if |s| < 2 || s[1] != ']' then []
               else if r < |s| && s[r] == BEL then [r + 1]
               else if r + 1 < |s| && s[r] == ESC && s[r + 1] == '\\' then [r + 2]
               else []
  {
    var st := Cat(Lit(ESC), Lit('\\'));
    var tail := Alt(Lit(BEL), st);
    forall e | 0 <= e
      ensures Ends(st, s, e) == if e < |s| && s[e] == ESC then Ends(Lit('\\'), s, e + 1) else []
    {
      LitThen(ESC, Lit('\\'), s, e);
    }
    StarThen(IsOscText, tail, s, 2);
    LitThen(']', Cat(Star(IsOscText), tail), s, 1);
  }

  /** The first of three lists of which each has at most one element. */
  lemma FirstOfThree(a: seq<nat>, b: seq<nat>, c: seq<nat>)
    ensures var all := a + (b + c);
            && (all == [] <==> a == [] && b == [] && c == [])
            && (all != [] ==> all[0] == if a != [] then a[0] else if b != [] then b[0] else c[0])
  {
  }

  lemma MatchOfThree(a: Re, b: Re, c: Re, s: string, i: nat)
    ensures var m := Match(Alt(a, Alt(b, c)), s, i);
            m == if Ends(a, s, i) != [] then Some(Ends(a, s, i)[0])
                 else if Ends(b, s, i) != [] then Some(Ends(b, s, i)[0])
                 else Match(c, s, i)
  {
    assert Ends(Alt(b, c), s, i) == Ends(b, s, i) + Ends(c, s, i);
    FirstOfThree(Ends(a, s, i), Ends(b, s, i), Ends(c, s, i));
  }

  /** What the alternatives after ESC match, tried in order. */
  lemma BodyMatch(s: string)
    requires |s| >= 1 && s[0] == ESC
    ensures EscapeEnd(s) == Match(Alt(CsiRe(), Alt(OscRe(), One(IsSingle))), s, 1)
  {
    MatchOfThree(CsiRe(), OscRe(), One(IsSingle), s, 1);
    CsiEnds(s);
    OscEnds(s);
  }

  /** The scanner reports exactly the match the regular expression's first successful path gives. */
  lemma ScannerIsRegex(s: string)
    ensures EscapeEnd(s) == Match(Pattern(), s, 0)
  {
    LitThen(ESC, Alt(CsiRe(), Alt(OscRe(), One(IsSingle))), s, 0);
    if |s| >= 1 && s[0] == ESC {
      BodyMatch(s);
    }
  }

  function Shifted(ends: seq<nat>, k: nat): seq<nat> {
    seq(|ends|, j requires 0 <= j < |ends| => ends[j] + k)
  }

  lemma ShiftedSum(a: seq<nat>, b: seq<nat>, k: nat)
    ensures Shifted(a + b, k) == Shifted(a, k) + Shifted(b, k)
  {
  }

  lemma OneShift(p: CharSet, s: string, k: nat, i: nat)
    requires k <= |s|
    ensures Ends(One(p), s, k + i) == Shifted(Ends(One(p), s[k..], i), k)
  {
    assert k + i < |s| ==> s[k..][i] == s[k + i];
  }

  lemma StarStops(p: CharSet, s: string, k: nat, i: nat)
    requires k <= |s| && (k + i < |s| ==> !p(s[k + i]))
    ensures Ends(Star(p), s, k + i) == Shifted(Ends(Star(p), s[k..], i), k)
  {
    assert k + i < |s| ==> s[k..][i] == s[k + i];
  }

  lemma CatShift(a: Re, b: Re, s: string, k: nat, i: nat, ends: seq<nat>)
    requires k <= |s| && ends == Ends(a, s[k..], i) && Ends(a, s, k + i) == Shifted(ends, k)
    requires EndsFrom(b, s, Shifted(ends, k)) == Shifted(EndsFrom(b, s[k..], ends), k)
    ensures Ends(Cat(a, b), s, k + i) == Shifted(Ends(Cat(a, b), s[k..], i), k)
  {
  }

  lemma AltShift(a: Re, b: Re, s: string, k: nat, i: nat)
    requires k <= |s|
    requires Ends(a, s, k + i) == Shifted(Ends(a, s[k..], i), k)
    requires Ends(b, s, k + i) == Shifted(Ends(b, s[k..], i), k)
    ensures Ends(Alt(a, b), s, k + i) == Shifted(Ends(Alt(a, b), s[k..], i), k)
  {
    ShiftedSum(Ends(a, s[k..], i), Ends(b, s[k..], i), k);
  }

  lemma StarShift(p: CharSet, s: string, k: nat, i: nat)
    requires k + i < |s| && p(s[k + i])
    requires Ends(Star(p), s, k + (i + 1)) == Shifted(Ends(Star(p), s[k..], i + 1), k)
    ensures Ends(Star(p), s, k + i) == Shifted(Ends(Star(p), s[k..], i), k)
  {
    assert s[k..][i] == s[k + i];
    ShiftedSum(Ends(Star(p), s[k..], i + 1), [i], k);
  }

  /** What precedes a position has no say in the matches that begin there. */
  lemma {:induction false} EndsShift(re: Re, s: string, k: nat, i: nat)
    requires k <= |s|
    ensures Ends(re, s, k + i) == Shifted(Ends(re, s[k..], i), k)
    decreases re, 0, |s| - k - i
  {
    match re
    case One(p) => OneShift(p, s, k, i);
    case Star(p) =>
      if k + i < |s| && p(s[k + i]) {
        EndsShift(re, s, k, i + 1);
        StarShift(p, s, k, i);
      } else {
        StarStops(p, s, k, i);
      }
    case Cat(a, b) =>
      EndsShift(a, s, k, i);
      EndsFromShift(b, s, k, Ends(a, s[k..], i));
      CatShift(a, b, s, k, i, Ends(a, s[k..], i));
    case Alt(a, b) =>
      EndsShift(a, s, k, i);
      EndsShift(b, s, k, i);
      AltShift(a, b, s, k, i);
  }

  lemma {:induction false} EndsFromShift(re: Re, s: string, k: nat, starts: seq<nat>)
    requires k <= |s|
    ensures EndsFrom(re, s, Shifted(starts, k)) == Shifted(EndsFrom(re, s[k..], starts), k)
    decreases re, 1, |starts|
  {
    if starts != [] {
      var front, last := starts[..|starts| - 1], starts[|starts| - 1];
      EndsFromShift(re, s, k, front);
      EndsShift(re, s, k, last);
      assert Shifted(starts, k)[..|starts| - 1] == Shifted(front, k);
      ShiftedSum(EndsFrom(re, s[k..], front), Ends(re, s[k..], last), k);
    }
  }

  lemma MatchShift(re: Re, s: string, k: nat)
    requires k <= |s|
    ensures Match(re, s, k) == match Match(re, s[k..], 0) case None => None case Some(e) => Some(k + e)
  {
    EndsShift(re, s, k, 0);
  }

  lemma FoundAt(s: string, i: nat)
    requires i <= |s|
    ensures Match(Pattern(), s, i) == match EscapeEnd(s[i..]) case None => None case Some(e) => Some(i + e)
  {
    MatchShift(Pattern(), s, i);
    ScannerIsRegex(s[i..]);
  }

  /** What stripping does at `i`, where a match that ends at `end` begins or none does. */
  ghost predicate StripsAt(s: string, i: nat, end: Option<nat>)
    requires i < |s|
  {
    if end.Some? then i < end.value <= |s| && Strip(s[i..]) == Strip(s[end.value..])
    else Strip(s[i..]) == s[i..i + 1] + Strip(s[i + 1..])
  }

  lemma SequenceStep(rest: string, e: nat)
    requires EscapeEnd(rest) == Some(e)
    ensures e <= |rest| && Strip(rest) == Strip(rest[e..])
  {
  }

  lemma CharacterStep(rest: string)
    requires rest != [] && EscapeEnd(rest).None?
    ensures Strip(rest) == rest[..1] + Strip(rest[1..])
  {
  }

  lemma SequenceStrips(s: string, i: nat, e: nat, found: nat)
    requires i < |s| && EscapeEnd(s[i..]) == Some(e) && found == i + e
    ensures i < found <= |s| && Strip(s[i..]) == Strip(s[found..])
  {
    SequenceStep(s[i..], e);
    assert s[i..][e..] == s[found..];
  }

  lemma CharacterStrips(s: string, i: nat)
    requires i < |s| && EscapeEnd(s[i..]).None?
    ensures Strip(s[i..]) == s[i..i + 1] + Strip(s[i + 1..])
  {
    CharacterStep(s[i..]);
    assert s[i..][..1] == s[i..i + 1] && s[i..][1..] == s[i + 1..];
  }

  lemma StripStep(s: string, i: nat, found: Option<nat>)
    requires i < |s| && found == Match(Pattern(), s, i)
    ensures StripsAt(s, i, found)
  {
    FoundAt(s, i);
    if found.Some? {
      SequenceStrips(s, i, found.value - i, found.value);
    } else {
      CharacterStrips(s, i);
    }
  }

  lemma {:induction false} StripReplaces(found: seq<Option<nat>>, s: string, i: nat)
    requires |found| == |s| && i <= |s|
    requires forall k | 0 <= k < |s| :: StripsAt(s, k, found[k])
    ensures Strip(s[i..]) == ReplaceFrom(found, s, i)
    decreases |s| - i
  {
    if i < |s| {
      assert StripsAt(s, i, found[i]);
      StripReplaces(found, s, if found[i].Some? then found[i].value else i + 1);
    }
  }

  /** The scanner, which only ever looks at the rest of the string, strips exactly what the engine
      removes when it replaces every match of the regular expression. */
  lemma StripIsReplaceAll(s: string)
    ensures Strip(s) == ReplaceAll(Pattern(), s)
  {
    forall k | 0 <= k < |s|
      ensures StripsAt(s, k, Matches(Pattern(), s)[k])
    {
      StripStep(s, k, Match(Pattern(), s, k));
    }
    StripReplaces(Matches(Pattern(), s), s, 0);
    assert s[0..] == s;
  }

  // -- What stripping keeps ------------------------------------------------------------------

  /** Console output: text, and the control sequences a terminal program sends between it. */
  datatype Token =
    | Text(t: string)
    | Csi(params: string, intermediates: string, final: char)
    | Osc(text: string, bel: bool)
    | Single(c: char)

  predicate All(p: CharSet, s: string) { forall k | 0 <= k < |s| :: p(s[k]) }

  predicate WellFormed(t: Token) {
    match t
    case Text(s) => ESC !in s
    case Csi(ps, ms, f) => All(IsParam, ps) && All(IsIntermediate, ms) && IsFinal(f)
    case Osc(s, _) => All(IsOscText, s)
    case Single(c) => IsSingle(c) && c != ']'
  }

  function Send(t: Token): string {
    match t
    case Text(s) => s
    case Csi(ps, ms, f) => [ESC, '['] + ps + ms + [f]
    case Osc(s, bel) => [ESC, ']'] + s + if bel then [BEL] else [ESC, '\\']
    case Single(c) => [ESC, c]
  }

  function SendAll(ts: seq<Token>): string { if ts == [] then [] else Send(ts[0]) + SendAll(ts[1..]) }

  function Texts(ts: seq<Token>): string {
    if ts == [] then [] else (if ts[0].Text? then ts[0].t else []) + Texts(ts[1..])
  }

  lemma {:induction false} RunIs(p: CharSet, s: string, i: nat, j: nat)
    requires i <= j <= |s| && (forall k | i <= k < j :: p(s[k])) && (j < |s| ==> !p(s[j]))
    ensures Run(p, s, i) == j
    decreases j - i
  {
    if i < j {
      RunIs(p, s, i + 1, j);
    }
  }

  /** A control sequence is recognised whole, whatever follows it. */
  lemma ControlRecognised(t: Token, rest: string)
    requires WellFormed(t) && !t.Text?
    ensures EscapeEnd(Send(t) + rest) == Some(|Send(t)|)
  {
    var s := Send(t) + rest;
    match t
    case Csi(ps, ms, f) =>
      RunIs(IsParam, s, 2, 2 + |ps|);
      RunIs(IsIntermediate, s, 2 + |ps|, 2 + |ps| + |ms|);
    case Osc(text, bel) =>
      RunIs(IsOscText, s, 2, 2 + |text|);
    case Single(c) =>
  }

  /** Every code of `s` is from `lo` to `hi`. */
  predicate Codes(s: string, lo: int, hi: int) { forall k | 0 <= k < |s| :: lo <= s[k] as int <= hi }

  /** The forms by their codes: parameter bytes 3/0 to 3/15, intermediate bytes 2/0 to 2/15 and final
      bytes 4/0 to 7/14 after ESC 5/11 (section 5.4 of ECMA-48); a character string after ESC 5/13,
      closed by BEL or ESC 5/12 (section 5.6); and ESC with one of 4/0 to 5/15 (section 5.3). */
  lemma FormsByCode(t: Token)
    ensures WellFormed(t) <==> match t
                               case Text(s) => forall c | c in s :: c as int != 27
                               case Csi(ps, ms, f) =>
                                 Codes(ps, 0x30, 0x3F) && Codes(ms, 0x20, 0x2F) && Codes([f], 0x40, 0x7E)
                               case Osc(s, _) => forall c | c in s :: c as int != 27 && c as int != 7
                               case Single(c) => Codes([c], 0x40, 0x5F) && c as int != 0x5B && c as int != 0x5D
    ensures Send(t) == match t
                       case Text(s) => s
                       case Csi(ps, ms, f) => [27 as char, 0x5B as char] + ps + ms + [f]
                       case Osc(s, bel) =>
                         [27 as char, 0x5D as char] + s + if bel then [7 as char] else [27 as char, 0x5C as char]
                       case Single(c) => [27 as char, c]
  {
    match t
    case Text(s) =>
    case Csi(ps, ms, f) => assert Codes([f], 0x40, 0x7E) <==> 0x40 <= [f][0] as int <= 0x7E;
    case Osc(s, _) => assert All(IsOscText, s) <==> forall c | c in s :: IsOscText(c);
    case Single(c) => assert Codes([c], 0x40, 0x5F) <==> 0x40 <= [c][0] as int <= 0x5F;
  }

  lemma RunIsAll(p: CharSet, s: string, i: nat)
    requires i <= |s|
    ensures All(p, s[i..Run(p, s, i)])
  {
    assert forall k | 0 <= k < Run(p, s, i) - i :: s[i..Run(p, s, i)][k] == s[k + i];
  }

  lemma CsiFound(s: string, e: nat) returns (t: Token)
    requires EscapeEnd(s) == Some(e) && s[1] == '['
    ensures t.Csi? && Send(t) == s[..e] && WellFormed(t)
  {
    var p := Run(IsParam, s, 2);
    var q := Run(IsIntermediate, s, p);
    RunIsAll(IsParam, s, 2);
    RunIsAll(IsIntermediate, s, p);
    t := Csi(s[2..p], s[p..q], s[q]);
    assert s[..e] == [ESC, '['] + s[2..p] + s[p..q] + [s[q]];
  }

  lemma OscFound(s: string, e: nat) returns (t: Token)
    requires EscapeEnd(s) == Some(e) && s[1] == ']' && e > 2
    ensures t.Osc? && Send(t) == s[..e] && WellFormed(t)
  {
    var r := Run(IsOscText, s, 2);
    RunIsAll(IsOscText, s, 2);
    t := Osc(s[2..r], s[r] == BEL);
    assert s[r..e] == if s[r] == BEL then [BEL] else [ESC, '\\'];
    assert s[..e] == [ESC, ']'] + s[2..r] + s[r..e];
  }

  /** Nothing else is taken for a sequence: what the scanner finds is a well-formed one, or the bare
      introducer of an OSC that has no end. */
  lemma OnlyControlsFound(s: string, e: nat) returns (t: Token)
    requires EscapeEnd(s) == Some(e)
    ensures !t.Text? && Send(t) == s[..e] && (WellFormed(t) || t == Single(']'))
  {
    if s[1] == '[' {
      t := CsiFound(s, e);
    } else if s[1] == ']' && e > 2 {
      t := OscFound(s, e);
    } else {
      t := Single(s[1]);
      assert e == 2 && s[..2] == [s[0], s[1]];
    }
  }

  lemma ControlDropped(t: Token, rest: string)
    requires WellFormed(t) && !t.Text?
    ensures Strip(Send(t) + rest) == Strip(rest)
  {
    ControlRecognised(t, rest);
    assert (Send(t) + rest)[|Send(t)|..] == rest;
  }

  lemma {:induction false} TextKept(t: string, rest: string)
    requires ESC !in t
    ensures Strip(t + rest) == t + Strip(rest)
  {
    if t == [] {
      assert t + rest == rest && t + Strip(rest) == Strip(rest);
    } else {
      TextKept(t[1..], rest);
      assert t[0] in t && (t + rest)[1..] == t[1..] + rest && (t + rest)[..1] == t[..1];
      Reassociate(t[..1], t[1..], Strip(rest));
      assert t == t[..1] + t[1..];
    }
  }

  /** Well-formed tokens are dealt with on their own, whatever follows them. */
  lemma {:induction false} TokensStripped(ts: seq<Token>, rest: string)
    requires forall k | 0 <= k < |ts| :: WellFormed(ts[k])
    ensures Strip(SendAll(ts) + rest) == Texts(ts) + Strip(rest)
  {
    if ts == [] {
      assert [] + rest == rest && [] + Strip(rest) == Strip(rest);
    } else {
      var more := SendAll(ts[1..]) + rest;
      TokensStripped(ts[1..], rest);
      Reassociate(Send(ts[0]), SendAll(ts[1..]), rest);
      if ts[0].Text? {
        TextKept(ts[0].t, more);
        Reassociate(ts[0].t, Texts(ts[1..]), Strip(rest));
      } else {
        ControlDropped(ts[0], more);
        assert [] + Texts(ts[1..]) == Texts(ts[1..]);
      }
    }
  }

  /** Stripping recovers exactly the text from any mix of text and well-formed control sequences. */
  lemma StripRecoversText(ts: seq<Token>)
    requires forall k | 0 <= k < |ts| :: WellFormed(ts[k])
    ensures Strip(SendAll(ts)) == Texts(ts)
  {
    TokensStripped(ts, []);
    assert SendAll(ts) + [] == SendAll(ts) && Texts(ts) + Strip([]) == Texts(ts);
  }

  /** Stripping only ever removes characters. */
  lemma {:induction false} StripIsSubsequence(s: string)
    ensures IsSubsequence(Strip(s), s)
    decreases |s|
  {
    if s == [] {
      Itself(s);
    } else {
      match EscapeEnd(s)
      case Some(e) =>
        StripIsSubsequence(s[e..]);
        SequenceStep(s, e);
        InSuffix(Strip(s[e..]), s, e);
      case None =>
        StripIsSubsequence(s[1..]);
        CharacterStep(s);
        HeadKept(Strip(s[1..]), s);
    }
  }

  ghost predicate NoSequence(s: string) { forall i | 0 <= i < |s| :: EscapeEnd(s[i..]).None? }

  lemma NoSequenceCons(s: string, rest: string)
    requires s != [] && rest == s[1..]
    ensures NoSequence(s) <==> EscapeEnd(s).None? && NoSequence(rest)
  {
    assert s[0..] == s;
    assert forall i | 0 <= i < |rest| :: rest[i..] == s[i + 1..];
    if EscapeEnd(s).None? && NoSequence(rest) {
      forall i | 0 <= i < |s|
        ensures EscapeEnd(s[i..]).None?
      {
        if i > 0 { assert s[i..] == rest[i - 1..]; }
      }
    }
  }

  lemma {:induction false} StripIsNoLonger(s: string)
    ensures |Strip(s)| <= |s|
    decreases |s|
  {
    if s != [] {
      match EscapeEnd(s)
      case Some(e) => StripIsNoLonger(s[e..]);
      case None => StripIsNoLonger(s[1..]);
    }
  }

  lemma FirstCharacterKept(s: string)
    requires s != [] && EscapeEnd(s).None?
    ensures Strip(s) == s <==> Strip(s[1..]) == s[1..]
  {
    assert s == s[..1] + s[1..] && Strip(s) == s[..1] + Strip(s[1..]);
    assert Strip(s)[1..] == Strip(s[1..]);
  }

  /** It leaves a string alone exactly when no escape sequence begins anywhere in it. */
  lemma {:induction false} StripIsIdentity(s: string)
    ensures |Strip(s)| <= |s|
    ensures Strip(s) == s <==> NoSequence(s)
    decreases |s|
  {
    StripIsNoLonger(s);
    if s != [] {
      NoSequenceCons(s, s[1..]);
      match EscapeEnd(s)
      case Some(e) => StripIsNoLonger(s[e..]);
      case None =>
        FirstCharacterKept(s);
        StripIsIdentity(s[1..]);
    }
  }
}
