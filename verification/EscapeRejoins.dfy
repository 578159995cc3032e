/** Stripping twice: exactly when the first pass brings the parts of a new sequence together. */
module EscapeRejoins {
  import opened Basics
  import opened AnsiEscapes

  // -- An ESC that is left over --------------------------------------------------------------

  /** Scanning from left to right meets an ESC at which no sequence begins. */
  predicate Unrecognised(s: string)
    decreases |s|
  {
    s != [] &&
    match EscapeEnd(s)
    case Some(e) => Unrecognised(s[e..])
    case None => s[0] == ESC || Unrecognised(s[1..])
  }

  /** Exactly such an ESC is still there after stripping. */
  lemma {:induction false} OnlyUnrecognisedStays(s: string)
    ensures ESC in Strip(s) <==> Unrecognised(s)
    decreases |s|
  {
    if s != [] {
      match EscapeEnd(s)
      case Some(e) => OnlyUnrecognisedStays(s[e..]);
      case None =>
        OnlyUnrecognisedStays(s[1..]);
        assert Strip(s) == s[..1] + Strip(s[1..]) && s[..1] == [s[0]];
    }
  }

  // -- What follows an ESC -------------------------------------------------------------------

  /** What a sequence still waits for: the character after ESC, or a CSI parameter, intermediate or
      final character, or after an intermediate no more parameters. */
  datatype Wait = Introducer | Parameter | Intermediate

  /** What one more character makes of it: the sequence is complete, or waits on, or is none. */
  datatype Progress = Complete | Waits(wait: Wait) | Broken

  function After(wait: Wait, c: char): Progress {
    if wait.Introducer? then if IsSingle(c) then Complete else if c == '[' then Waits(Parameter) else Broken
    else if wait.Parameter? && IsParam(c) then Waits(Parameter)
    else if IsIntermediate(c) then Waits(Intermediate)
    else if IsFinal(c) then Complete
    else Broken
  }

  /** The characters of `s` complete a sequence of which `wait` is missing; an OSC counts as complete
      from its introducer on, since that alone is stripped already. */
  predicate Completes(wait: Wait, s: string)
    decreases |s|
  {
    s != [] &&
    match After(wait, s[0])
    case Complete => true
    case Waits(next) => Completes(next, s[1..])
    case Broken => false
  }

  lemma {:induction false} IntermediatesComplete(s: string, i: nat)
    requires i <= |s|
    ensures var q := Run(IsIntermediate, s, i); Completes(Intermediate, s[i..]) <==> q < |s| && IsFinal(s[q])
    decreases |s| - i
  {
    if i < |s| && IsIntermediate(s[i]) {
      assert s[i..][1..] == s[i + 1..];
      IntermediatesComplete(s, i + 1);
    }
  }

  lemma ParameterTaken(s: string, i: nat)
    requires i < |s| && IsParam(s[i])
    ensures Completes(Parameter, s[i..]) <==> Completes(Parameter, s[i + 1..])
    ensures Run(IsParam, s, i) == Run(IsParam, s, i + 1)
  {
    assert s[i..][1..] == s[i + 1..];
  }

  lemma NoParameterLeft(s: string)
    requires s != [] ==> !IsParam(s[0])
    ensures Completes(Parameter, s) <==> Completes(Intermediate, s)
  {
  }

  lemma {:induction false} ParametersComplete(s: string, i: nat)
    requires i <= |s|
    ensures var q := Run(IsIntermediate, s, Run(IsParam, s, i));
            Completes(Parameter, s[i..]) <==> q < |s| && IsFinal(s[q])
    decreases |s| - i
  {
    if i < |s| && IsParam(s[i]) {
      ParameterTaken(s, i);
      ParametersComplete(s, i + 1);
    } else {
      assert Run(IsParam, s, i) == i;
      NoParameterLeft(s[i..]);
      IntermediatesComplete(s, i);
    }
  }

  /** A sequence begins at an ESC exactly when what follows completes one. */
  lemma EscapeCompletes(rest: string)
    ensures EscapeEnd([ESC] + rest).Some? <==> Completes(Introducer, rest)
  {
    var s := [ESC] + rest;
    assert s[1..] == rest;
    if rest != [] && rest[0] == '[' {
      assert s[2..] == rest[1..];
      ParametersComplete(s, 2);
    }
  }

  // -- What follows it once the sequences in between are gone --------------------------------

  /** The characters of `s` outside its recognised sequences complete a sequence. */
  predicate Rejoins(wait: Wait, s: string)
    decreases |s|
  {
    s != [] &&
    match EscapeEnd(s)
    case Some(e) => Rejoins(wait, s[e..])
    case None =>
      match After(wait, s[0])
      case Complete => true
      case Waits(next) => Rejoins(next, s[1..])
      case Broken => false
  }

  lemma {:induction false} RejoinsIsCompletes(wait: Wait, s: string)
    ensures Rejoins(wait, s) <==> Completes(wait, Strip(s))
    decreases |s|
  {
    if s != [] {
      match EscapeEnd(s)
      case Some(e) => RejoinsIsCompletes(wait, s[e..]);
      case None =>
        assert Strip(s)[0] == s[0] && Strip(s)[1..] == Strip(s[1..]);
        match After(wait, s[0])
        case Complete =>
        case Waits(next) => RejoinsIsCompletes(next, s[1..]);
        case Broken =>
    }
  }

  /** Some ESC of `s` at which no sequence begins gets one from the characters that are left. */
  predicate HasRejoining(s: string)
    decreases |s|
  {
    s != [] &&
    match EscapeEnd(s)
    case Some(e) => HasRejoining(s[e..])
    case None => (s[0] == ESC && Rejoins(Introducer, s[1..])) || HasRejoining(s[1..])
  }

  lemma {:induction false} RejoiningIsFound(s: string)
    ensures NoSequence(Strip(s)) <==> !HasRejoining(s)
    decreases |s|
  {
    if s != [] {
      match EscapeEnd(s)
      case Some(e) => RejoiningIsFound(s[e..]);
      case None =>
        var c, rest := s[0], Strip(s[1..]);
        RejoiningIsFound(s[1..]);
        assert Strip(s) == [c] + rest;
        assert Strip(s)[1..] == rest;
        NoSequenceCons(Strip(s), rest);
        EscapeCompletes(rest);
        RejoinsIsCompletes(Introducer, s[1..]);
    }
  }

  /** Stripping twice is stripping once exactly when no left-over ESC is rejoined. */
  lemma StrippingTwice(s: string)
    ensures Strip(Strip(s)) == Strip(s) <==> !HasRejoining(s)
  {
    StripIsIdentity(Strip(s));
    RejoiningIsFound(s);
  }

  lemma {:induction false} RejoiningNeedsLeftOver(s: string)
    ensures HasRejoining(s) ==> Unrecognised(s)
    decreases |s|
  {
    if s != [] {
      match EscapeEnd(s)
      case Some(e) => RejoiningNeedsLeftOver(s[e..]);
      case None => RejoiningNeedsLeftOver(s[1..]);
    }
  }

  /** In particular it is when every ESC begins a sequence. */
  lemma {:induction false} RecognisedIsStable(s: string)
    requires !Unrecognised(s)
    ensures !HasRejoining(s) && ESC !in Strip(s) && Strip(Strip(s)) == Strip(s)
    decreases |s|
  {
    OnlyUnrecognisedStays(s);
    RejoiningNeedsLeftOver(s);
    StrippingTwice(s);
  }

  lemma ResetDropped(reset: string, rest: string)
    requires reset == [ESC, '[', 'm']
    ensures Strip(reset + rest) == Strip(rest)
  {
    ControlDropped(Csi([], [], 'm'), rest);
    assert Send(Csi([], [], 'm')) == reset;
  }

  /** Stripping is not idempotent: taking one sequence out can bring the parts of another together. */
  lemma StripIsNotIdempotent() returns (s: string)
    ensures Strip(Strip(s)) != Strip(s)
  {
    var reset, tail := [ESC, '[', 'm'], ['[', 'm'];
    s := [ESC] + (reset + tail);
    ResetDropped(reset, tail);
    ResetDropped(reset, []);
    TextKept(tail, []);
    assert tail + [] == tail && reset + [] == reset == [ESC] + tail;
    assert s[1..] == reset + tail && s[..1] == [ESC];
  }
}
