/** Stripping bytes and decoding what is left is the same as decoding first: no escape sequence ends
    inside a character. */
module DecodedStripping {
  import opened Basics
  import opened Utf8
  import opened AnsiEscapes
  import opened PieceDecoding

  // -- Runes and bytes side by side ----------------------------------------------------------

  predicate Ascii(c: char) { c as int < 0x80 }

  /** The first rune of a text is its first byte, or neither is ASCII. */
  lemma FirstRune(s: Bytes)
    requires s != [] && Valid(s)
    ensures Runes(s) != [] && (if Ascii(s[0]) then Runes(s)[0] == s[0] else !Ascii(Runes(s)[0]))
  {
    var r := DecodeRune(s);
    ValidTail(s, r);
    RunesCons(s, r, s[r.width..]);
  }

  lemma AsciiFront(s: Bytes, n: nat)
    requires Valid(s) && n <= |s| && IsAscii(s[..n])
    ensures Valid(s[..n]) && Valid(s[n..]) && Runes(s[..n]) == s[..n] && Runes(s) == s[..n] + Runes(s[n..])
  {
    assert s == s[..n] + s[n..];
    AsciiIsValid(s[..n]);
    ValidAfterAscii(s[..n], s[n..]);
    RunesJoin(s[..n], s[n..]);
    DecodedAscii(s[..n]);
  }

  lemma PartsAtAscii(a: Bytes, b: Bytes)
    requires Valid(a + b) && (b != [] ==> Ascii(b[0]))
    ensures Valid(a) && Valid(b) && Runes(a + b) == Runes(a) + Runes(b)
  {
    ValidSplitsAtAscii(a, b);
    RunesJoin(a, b);
  }

  lemma CutBeforeAscii(s: Bytes, n: nat)
    requires Valid(s) && n <= |s| && (n < |s| ==> Ascii(s[n]))
    ensures Valid(s[..n]) && Valid(s[n..]) && Runes(s) == Runes(s[..n]) + Runes(s[n..])
  {
    assert s == s[..n] + s[n..];
    PartsAtAscii(s[..n], s[n..]);
  }

  /** Runes of text without BEL and ESC are neither. */
  lemma {:induction false} TextRunes(s: Bytes)
    requires Valid(s) && All(IsOscText, s)
    ensures All(IsOscText, Runes(s))
  {
    if s != [] {
      var r := DecodeRune(s);
      var tail := s[r.width..];
      ValidTail(s, r);
      RunesCons(s, r, tail);
      TextRunes(tail);
      FirstRune(s);
      assert IsOscText(s[0]);
      assert Runes(s) == [Runes(s)[0]] + Runes(tail);
    }
  }

  // -- A sequence at the front ---------------------------------------------------------------

  /** `c` and `d` are the same ASCII character, or neither is one. */
  predicate Alike(c: char, d: char) { if Ascii(c) then d == c else !Ascii(d) }

  /** `s` and `t` are the same up to `n`, and go on alike or end there. */
  predicate AlikeUpTo(s: string, t: string, n: nat) {
    && n <= |s| && n <= |t| && t[..n] == s[..n]
    && (|s| == n <==> |t| == n)
    && (n < |s| && n < |t| ==> Alike(s[n], t[n]))
  }

  lemma CsiEndAlike(s: string, t: string, p: nat, q: nat)
    requires [ESC, '['] <= s && p == Run(IsParam, s, 2) && q == Run(IsIntermediate, s, p) && AlikeUpTo(s, t, q)
    ensures EscapeEnd(t) == EscapeEnd(s) == if q < |s| && IsFinal(s[q]) then Some(q + 1) else None
  {
    assert forall k | 0 <= k < q :: t[k] == t[..q][k] == s[..q][k] == s[k];
    assert s[0] == ESC && s[1] == '[';
    RunIs(IsParam, t, 2, p);
    RunIs(IsIntermediate, t, p, q);
  }

  lemma FrontAlike(s: Bytes, n: nat)
    requires Valid(s) && n <= |s| && IsAscii(s[..n])
    ensures AlikeUpTo(s, Runes(s), n)
  {
    AsciiFront(s, n);
    var t, rest := Runes(s), s[n..];
    if n < |s| {
      FirstRune(rest);
      assert t[n] == Runes(rest)[0] && s[n] == rest[0];
    }
  }

  /** The same sequence is found at the front of bytes and of what they decode to. */
  predicate SameEnd(s: Bytes, t: string) {
    match EscapeEnd(s)
    case None => EscapeEnd(t).None?
    case Some(e) => Valid(s[..e]) && EscapeEnd(t) == Some(|Runes(s[..e])|)
  }

  lemma CsiIsAscii(s: Bytes, p: nat, q: nat)
    requires [ESC, '['] <= s && p == Run(IsParam, s, 2) && q == Run(IsIntermediate, s, p)
    ensures q <= |s| && IsAscii(s[..q]) && (q < |s| && IsFinal(s[q]) ==> IsAscii(s[..q + 1]))
  {
    assert forall k | 2 <= k < q :: if k < p then IsParam(s[k]) else IsIntermediate(s[k]);
    assert s[0] == ESC && s[1] == '[';
  }

  lemma FoundAlike(s: Bytes, t: string, e: nat, n: nat)
    requires EscapeEnd(s) == Some(e) && EscapeEnd(t) == Some(n) && Valid(s[..e]) && |Runes(s[..e])| == n
    ensures SameEnd(s, t)
  {
  }

  lemma FoundAscii(s: Bytes, t: string, e: nat)
    requires EscapeEnd(s) == Some(e) && EscapeEnd(t) == Some(e) && IsAscii(s[..e])
    ensures SameEnd(s, t)
  {
    AsciiIsValid(s[..e]);
    DecodedAscii(s[..e]);
    FoundAlike(s, t, e, e);
  }

  lemma SameCsiEnd(s: Bytes, t: string)
    requires Valid(s) && [ESC, '['] <= s && t == Runes(s)
    ensures SameEnd(s, t)
  {
    var p := Run(IsParam, s, 2);
    var q := Run(IsIntermediate, s, p);
    CsiIsAscii(s, p, q);
    FrontAlike(s, q);
    CsiEndAlike(s, t, p, q);
    if q < |s| && IsFinal(s[q]) {
      FoundAscii(s, t, q + 1);
    }
  }

  /** How many characters end an OSC after its text; none when it has no end, and then only its
      two-character introducer is found. */
  function OscEnding(s: string, r: nat): (n: nat)
    ensures n <= 2 && (n > 0 ==> r + n <= |s| && IsAscii(s[r..r + n]))
  {
    if r < |s| && s[r] == BEL then 1
    else if r + 1 < |s| && s[r] == ESC && s[r + 1] == '\\' then 2
    else 0
  }

  /** An OSC introducer and text, and what follows, seen from the end of the text. */
  lemma OscEndAlike(s: string, r: nat, t: string, end: nat)
    requires [ESC, ']'] <= s && r == Run(IsOscText, s, 2)
    requires [ESC, ']'] <= t && 2 <= end <= |t| && forall k | 2 <= k < end :: IsOscText(t[k])
    requires |s| == r <==> |t| == end
    requires r < |s| ==> t[end] == s[r]
    requires r < |s| ==> (|s| == r + 1 <==> |t| == end + 1) && (r + 1 < |s| ==> Alike(s[r + 1], t[end + 1]))
    ensures var n := OscEnding(s, r);
            && EscapeEnd(s) == Some(if n == 0 then 2 else r + n)
            && EscapeEnd(t) == Some(if n == 0 then 2 else end + n)
  {
    assert s[0] == ESC && s[1] == ']' && t[0] == ESC && t[1] == ']';
    RunIs(IsOscText, t, 2, end);
  }

  lemma OscText(s: Bytes, u: Bytes, r: nat)
    requires [ESC, ']'] <= s && r == Run(IsOscText, s, 2) && u == s[2..]
    ensures 2 <= r <= |s| && All(IsOscText, u[..r - 2]) && (r < |s| ==> u[r - 2] == s[r] && Ascii(s[r]))
  {
    var text := u[..r - 2];
    assert forall k | 0 <= k < |text| :: text[k] == s[k + 2];
  }

  /** The runes of an OSC introducer, its text and what follows. */
  lemma OscParts(s: Bytes, u: Bytes, r: nat)
    requires Valid(s) && [ESC, ']'] <= s && r == Run(IsOscText, s, 2) && u == s[2..]
    ensures 2 <= r <= |s| && Valid(u) && Valid(u[..r - 2]) && Valid(u[r - 2..])
    ensures Runes(s) == [ESC, ']'] + Runes(u) && Runes(u) == Runes(u[..r - 2]) + Runes(u[r - 2..])
    ensures All(IsOscText, Runes(u[..r - 2]))
  {
    assert s[..2] == [ESC, ']'];
    AsciiFront(s, 2);
    OscText(s, u, r);
    CutBeforeAscii(u, r - 2);
    TextRunes(u[..r - 2]);
  }

  lemma JoinAscii(x: Bytes, n: Bytes)
    requires Valid(x) && IsAscii(n)
    ensures Valid(x + n) && Runes(x + n) == Runes(x) + n
  {
    AsciiIsValid(n);
    DecodedAscii(n);
    RunesJoin(x, n);
  }

  lemma AsciiJoin(n: Bytes, x: Bytes)
    requires Valid(x) && IsAscii(n)
    ensures Valid(n + x) && Runes(n + x) == n + Runes(x)
  {
    AsciiIsValid(n);
    DecodedAscii(n);
    RunesJoin(n, x);
  }

  lemma OscFront(s: Bytes, u: Bytes, r: nat, n: nat)
    requires [ESC, ']'] <= s && u == s[2..] && 2 <= r && r + n <= |s|
    ensures s[..r + n] == [ESC, ']'] + (u[..r - 2] + s[r..r + n])
  {
    assert s[..2] == [ESC, ']'] && u[..r - 2] == s[2..r];
    assert s[..r + n] == s[..2] + s[2..r] + s[r..r + n];
  }

  /** How long a front of the sequence is once decoded. */
  lemma OscLength(s: Bytes, u: Bytes, r: nat, n: nat)
    requires [ESC, ']'] <= s && u == s[2..] && 2 <= r && r + n <= |s| && Valid(u[..r - 2]) && IsAscii(s[r..r + n])
    ensures Valid(s[..r + n]) && |Runes(s[..r + n])| == 2 + |Runes(u[..r - 2])| + n
  {
    JoinAscii(u[..r - 2], s[r..r + n]);
    AsciiJoin([ESC, ']'], u[..r - 2] + s[r..r + n]);
    OscFront(s, u, r, n);
  }

  /** What follows the text of an OSC goes on alike in bytes and in runes. */
  lemma OscRest(rest: Bytes)
    requires Valid(rest) && (rest != [] ==> Ascii(rest[0]))
    ensures var t := Runes(rest);
            && (rest == [] <==> t == [])
            && (rest != [] ==> t[0] == rest[0] && (|rest| == 1 <==> |t| == 1) && (|rest| > 1 ==> Alike(rest[1], t[1])))
  {
    if rest != [] {
      assert rest[..1] == [rest[0]];
      FrontAlike(rest, 1);
    }
  }

  lemma OscAlike(s: Bytes, u: Bytes, r: nat, text: string, rest: string, t: string)
    requires [ESC, ']'] <= s && u == s[2..] && r == Run(IsOscText, s, 2)
    requires Valid(u[r - 2..]) && rest == Runes(u[r - 2..]) && All(IsOscText, text) && t == [ESC, ']'] + (text + rest)
    ensures var n := OscEnding(s, r);
            && EscapeEnd(s) == Some(if n == 0 then 2 else r + n)
            && EscapeEnd(t) == Some(if n == 0 then 2 else 2 + |text| + n)
  {
    OscText(s, u, r);
    OscRest(u[r - 2..]);
    var end := 2 + |text|;
    assert r < |s| ==> u[r - 2..][0] == s[r] && t[end] == rest[0];
    assert r + 1 < |s| ==> u[r - 2..][1] == s[r + 1] && t[end + 1] == rest[1];
    assert forall k | 2 <= k < end :: t[k] == text[k - 2];
    OscEndAlike(s, r, t, end);
  }

  lemma OscClosedEnd(s: Bytes, u: Bytes, r: nat, n: nat, t: string)
    requires [ESC, ']'] <= s && u == s[2..] && 2 <= r && r + n <= |s| && Valid(u[..r - 2]) && IsAscii(s[r..r + n])
    requires EscapeEnd(s) == Some(r + n) && EscapeEnd(t) == Some(2 + |Runes(u[..r - 2])| + n)
    ensures SameEnd(s, t)
  {
    OscLength(s, u, r, n);
    FoundAlike(s, t, r + n, 2 + |Runes(u[..r - 2])| + n);
  }

  lemma OscFound(s: Bytes, u: Bytes, r: nat, n: nat, t: string)
    requires [ESC, ']'] <= s && u == s[2..] && 2 <= r <= |s|
    requires n > 0 ==> r + n <= |s| && IsAscii(s[r..r + n])
    requires Valid(u[..r - 2])
    requires EscapeEnd(s) == Some(if n == 0 then 2 else r + n)
    requires EscapeEnd(t) == Some(if n == 0 then 2 else 2 + |Runes(u[..r - 2])| + n)
    ensures SameEnd(s, t)
  {
    if n == 0 {
      assert s[..2] == [ESC, ']'];
      FoundAscii(s, t, 2);
    } else {
      OscClosedEnd(s, u, r, n, t);
    }
  }

  lemma OscDecoded(s: Bytes, u: Bytes, r: nat, text: string, t: string)
    requires [ESC, ']'] <= s && u == s[2..] && 2 <= r <= |s| && Valid(u[..r - 2]) && text == Runes(u[..r - 2])
    requires EscapeEnd(s) == Some(if OscEnding(s, r) == 0 then 2 else r + OscEnding(s, r))
    requires EscapeEnd(t) == Some(if OscEnding(s, r) == 0 then 2 else 2 + |text| + OscEnding(s, r))
    ensures SameEnd(s, t)
  {
    OscFound(s, u, r, OscEnding(s, r), t);
  }

  lemma SameOscEnd(s: Bytes, t: string)
    requires Valid(s) && [ESC, ']'] <= s && t == Runes(s)
    ensures SameEnd(s, t)
  {
    var r, u := Run(IsOscText, s, 2), s[2..];
    OscParts(s, u, r);
    var text, rest := Runes(u[..r - 2]), Runes(u[r - 2..]);
    OscAlike(s, u, r, text, rest, t);
    OscDecoded(s, u, r, text, t);
  }

  lemma SameSingle(s: Bytes, t: string)
    requires |s| > 1 && s[0] == ESC && IsSingle(s[1]) && s[1] != ']' && Valid(s) && t == Runes(s)
    ensures SameEnd(s, t)
  {
    FrontAlike(s, 2);
    assert t[..2] == s[..2];
    assert t[0] == t[..2][0] == s[0] && t[1] == t[..2][1] == s[1];
    FoundAscii(s, t, 2);
  }

  lemma NoneFound(s: string, t: string)
    requires |s| > 0 && |t| > 0 && Alike(s[0], t[0]) && (|s| == 1 <==> |t| == 1)
    requires s[0] == ESC && |s| > 1 ==> Alike(s[1], t[1]) && s[1] != '[' && !IsSingle(s[1])
    ensures EscapeEnd(s).None? && EscapeEnd(t).None?
  {
  }

  lemma SecondRune(s: Bytes, t: string)
    requires Valid(s) && s != [] && s[0] == ESC && t == Runes(s)
    ensures t != [] && t[0] == ESC && (|s| == 1 <==> |t| == 1) && (|s| > 1 ==> Alike(s[1], t[1]))
  {
    assert s[..1] == [ESC];
    FrontAlike(s, 1);
    assert t[0] == t[..1][0];
  }

  lemma SameSequence(s: Bytes)
    requires Valid(s) && s != []
    ensures SameEnd(s, Runes(s))
  {
    var t := Runes(s);
    FirstRune(s);
    if s[0] == ESC {
      SecondRune(s, t);
      if |s| > 1 && s[1] == '[' {
        SameCsiEnd(s, t);
      } else if |s| > 1 && s[1] == ']' {
        SameOscEnd(s, t);
      } else if |s| > 1 && IsSingle(s[1]) {
        SameSingle(s, t);
      } else {
        NoneFound(s, t);
      }
    }
  }

  // -- The whole text ------------------------------------------------------------------------

  lemma SequenceSplits(s: Bytes, e: nat)
    requires Valid(s) && e <= |s| && Valid(s[..e])
    ensures Valid(s[e..]) && Runes(s) == Runes(s[..e]) + Runes(s[e..])
  {
    assert s == s[..e] + s[e..];
    StepsOfCut(s[..e], s[e..]);
    RunesJoin(s[..e], s[e..]);
  }

  /** Where no sequence begins the whole first rune is kept. */
  lemma RuneKept(s: Bytes, w: nat)
    requires s != [] && Valid(s) && EscapeEnd(s).None? && w == DecodeRune(s).width
    ensures Strip(s) == s[..w] + Strip(s[w..])
  {
    assert s == s[..w] + s[w..];
    if w > 1 {
      assert forall k | 0 <= k < w :: s[..w][k] == s[k] != ESC;
      TextKept(s[..w], s[w..]);
    }
  }

  lemma RuneAlone(s: Bytes, r: Rune, c: Bytes)
    requires s != [] && DecodeRune(s) == r && !IsInvalid(r) && c == s[..r.width]
    ensures Valid(c) && |Runes(c)| == 1
  {
    assert s == c + s[r.width..];
    RuneOfJoined(c, s[r.width..]);
    assert c[r.width..] == [];
    RunesCons(c, r, []);
  }

  lemma OneRune(s: Bytes, r: Rune)
    requires s != [] && Valid(s) && DecodeRune(s) == r
    ensures Valid(s[r.width..]) && Valid(s[..r.width]) && |Runes(s[..r.width])| == 1
    ensures Runes(s) == Runes(s[..r.width]) + Runes(s[r.width..])
  {
    ValidTail(s, r);
    RuneAlone(s, r, s[..r.width]);
    SequenceSplits(s, r.width);
  }

  lemma KeepsOne(t: string, first: string, rest: string)
    requires |first| == 1 && t == first + rest && EscapeEnd(t).None?
    ensures Strip(t) == first + Strip(rest)
  {
    assert t[..1] == first && t[1..] == rest;
  }

  /** Stripping commutes with decoding, and valid text stays valid. */
  lemma {:induction false} StripCommutes(s: Bytes)
    requires Valid(s)
    ensures Valid(Strip(s)) && Strip(Runes(s)) == Runes(Strip(s))
    decreases |s|
  {
    if s != [] {
      SameSequence(s);
      match EscapeEnd(s)
      case Some(e) =>
        SequenceSplits(s, e);
        StripCommutes(s[e..]);
        assert Runes(s)[|Runes(s[..e])|..] == Runes(s[e..]);
      case None =>
        var r := DecodeRune(s);
        OneRune(s, r);
        RuneKept(s, r.width);
        StripCommutes(s[r.width..]);
        RunesJoin(s[..r.width], Strip(s[r.width..]));
        KeepsOne(Runes(s), Runes(s[..r.width]), Runes(s[r.width..]));
    }
  }

  // -- Counting characters -------------------------------------------------------------------

  /** The bytes that do not continue a character. */
  function Characters(s: Bytes): nat {
    if s == [] then 0 else (if Continuation(s[0]) then 0 else 1) + Characters(s[1..])
  }

  lemma {:induction false} CharactersJoin(a: Bytes, b: Bytes)
    ensures Characters(a + b) == Characters(a) + Characters(b)
  {
    if a == [] {
      assert a + b == b;
    } else {
      assert (a + b)[1..] == a[1..] + b;
      CharactersJoin(a[1..], b);
    }
  }

  lemma {:induction false} CharactersAtMost(s: Bytes)
    ensures Characters(s) <= |s|
    ensures s != [] && Continuation(s[0]) ==> Characters(s) < |s|
  {
    if s != [] {
      CharactersAtMost(s[1..]);
    }
  }

  lemma {:induction false} NoCharacter(c: Bytes)
    requires forall k | 0 <= k < |c| :: Continuation(c[k])
    ensures Characters(c) == 0
  {
    if c != [] {
      NoCharacter(c[1..]);
    }
  }

  lemma RuneIsOneCharacter(s: Bytes, w: nat)
    requires s != [] && !IsInvalid(DecodeRune(s)) && w == DecodeRune(s).width
    ensures Characters(s[..w]) == 1
  {
    RuneBytes(s);
    var c := s[..w];
    assert c[0] == s[0] && forall k | 1 <= k < w :: c[k] == s[k];
    NoCharacter(c[1..]);
  }

  lemma {:induction false} CharactersOfRunes(s: Bytes)
    requires Valid(s)
    ensures |Runes(s)| == Characters(s)
  {
    if s != [] {
      var r := DecodeRune(s);
      ValidTail(s, r);
      RunesCons(s, r, s[r.width..]);
      CharactersOfRunes(s[r.width..]);
      RuneIsOneCharacter(s, r.width);
      CharactersJoin(s[..r.width], s[r.width..]);
      assert s == s[..r.width] + s[r.width..];
    }
  }
}
