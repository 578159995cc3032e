/** Decoding a byte stream piece by piece, as UTF-8 where a piece is valid and as Latin-1 otherwise:
    exactly when that gives the text of the whole. */
module PieceDecoding {
  import opened Basics
  import opened Utf8

  /** The code points of valid UTF-8. */
  function Runes(s: Bytes): string
    requires Valid(s)
  {
    if s == [] then []
    else
      EncodeOfDecode(s);
      var r := DecodeRune(s);
      [r.code as char] + Runes(s[r.width..])
  }

  /** UTF-8 if the piece is valid, and Latin-1 otherwise, where a byte is its own code point. */
  function Decoded(piece: Bytes): string { if Valid(piece) then Runes(piece) else piece }

  lemma {:induction false} DecodedAscii(piece: Bytes)
    requires IsAscii(piece)
    ensures Decoded(piece) == piece
  {
    AsciiIsValid(piece);
    if piece != [] {
      DecodedAscii(piece[1..]);
      AsciiIsValid(piece[1..]);
      assert piece == piece[..1] + piece[1..];
    }
  }

  // -- One cut -------------------------------------------------------------------------------

  /** A rune that lies in `a` is the same whatever follows; an invalid byte of `a + b` is one of `a`. */
  lemma RuneOfJoined(a: Bytes, b: Bytes)
    requires a != []
    ensures DecodeRune(a + b).width <= |a| ==> DecodeRune(a) == DecodeRune(a + b)
    ensures !IsInvalid(DecodeRune(a)) ==> DecodeRune(a) == DecodeRune(a + b)
  {
    var s := a + b;
    assert s[0] == a[0];
    assert |a| > 1 ==> s[1] == a[1];
    assert |a| > 2 ==> s[2] == a[2];
    assert |a| > 3 ==> s[3] == a[3];
  }

  lemma RunesCons(s: Bytes, r: Rune, tail: Bytes)
    requires s != [] && DecodeRune(s) == r && !IsInvalid(r) && s[r.width..] == tail && Valid(tail)
    ensures IsScalar(r.code) && Valid(s) && Runes(s) == [r.code as char] + Runes(tail)
  {
    EncodeOfDecode(s);
  }

  lemma ValidTail(s: Bytes, r: Rune)
    requires s != [] && Valid(s) && DecodeRune(s) == r
    ensures !IsInvalid(r) && Valid(s[r.width..])
  {
  }

  lemma JoinStep(a: Bytes, b: Bytes, r: Rune)
    requires a != [] && Valid(a) && DecodeRune(a) == r
    ensures DecodeRune(a + b) == r && !IsInvalid(r) && Valid(a[r.width..]) && (a + b)[r.width..] == a[r.width..] + b
  {
    ValidTail(a, r);
    RuneOfJoined(a, b);
  }

  /** Two valid pieces decode to the parts of what they decode to together. */
  lemma {:induction false} RunesJoin(a: Bytes, b: Bytes)
    requires Valid(a) && Valid(b)
    ensures Valid(a + b) && Runes(a + b) == Runes(a) + Runes(b)
  {
    if a == [] {
      assert a + b == b && [] + Runes(b) == Runes(b);
    } else {
      var r := DecodeRune(a);
      var tail := a[r.width..];
      JoinStep(a, b, r);
      RunesJoin(tail, b);
      RunesCons(a, r, tail);
      RunesCons(a + b, r, tail + b);
      Reassociate([r.code as char], Runes(tail), Runes(b));
    }
  }

  /** How many turns a `range` loop takes, counting every invalid byte as one. */
  function Steps(s: Bytes): nat {
    if s == [] then 0 else 1 + Steps(s[DecodeRune(s).width..])
  }

  lemma {:induction false} StepsAtMost(s: Bytes)
    ensures Steps(s) <= |Decoded(s)|
    ensures Valid(s) ==> Steps(s) == |Decoded(s)|
    ensures Steps(s) <= |s|
  {
    if s != [] {
      StepsAtMost(s[DecodeRune(s).width..]);
    }
  }

  predicate Continuation(c: byte) { Within(c, 0x80, 0xBF) }

  lemma {:induction false} ContinuationSteps(c: Bytes, rest: Bytes)
    requires forall k | 0 <= k < |c| :: Continuation(c[k])
    ensures Steps(c + rest) == |c| + Steps(rest)
  {
    if c == [] {
      assert c + rest == rest;
    } else {
      assert (c + rest)[0] == c[0] && IsInvalid(DecodeRune(c + rest));
      assert (c + rest)[1..] == c[1..] + rest;
      ContinuationSteps(c[1..], rest);
    }
  }

  /** All bytes of a rune but the first are continuation bytes. */
  lemma RuneBytes(s: Bytes)
    requires s != []
    ensures forall k | 1 <= k < DecodeRune(s).width :: Continuation(s[k])
  {
  }

  lemma FirstHalfSteps(a: Bytes)
    requires a != [] && IsInvalid(DecodeRune(a)) && forall k | 1 <= k < |a| :: Continuation(a[k])
    ensures !Valid(a) && Steps(a) == |a|
  {
    ContinuationSteps(a[1..], []);
    assert a[1..] + [] == a[1..];
  }

  lemma SecondHalfSteps(b: Bytes, m: nat)
    requires m <= |b| && forall k | 0 <= k < m :: Continuation(b[k])
    ensures Steps(b) == m + Steps(b[m..])
  {
    ContinuationSteps(b[..m], b[m..]);
    assert b[..m] + b[m..] == b;
  }

  /** A character cut in two is read as invalid bytes, one by one, on both sides. */
  lemma TornRune(a: Bytes, b: Bytes)
    requires a != [] && DecodeRune(a + b).width > |a|
    ensures var m := DecodeRune(a + b).width - |a|;
            && !Valid(a) && Steps(a) == |a| && m <= |b| && Steps(b) == m + Steps(b[m..])
  {
    var s, m := a + b, DecodeRune(a + b).width - |a|;
    RuneBytes(s);
    RuneOfJoined(a, b);
    assert forall k | 1 <= k < |a| :: a[k] == s[k];
    FirstHalfSteps(a);
    assert forall k | 0 <= k < m :: b[k] == s[|a| + k];
    SecondHalfSteps(b, m);
  }

  /** A cut never saves a turn, and in valid text it costs none exactly when it splits no character. */
  lemma {:induction false} StepsOfCut(a: Bytes, b: Bytes)
    ensures Steps(a + b) <= Steps(a) + Steps(b)
    ensures Valid(a + b) ==> (Steps(a + b) == Steps(a) + Steps(b) <==> Valid(a))
    ensures Valid(a + b) && Valid(a) ==> Valid(b)
    decreases |a|
  {
    if a == [] {
      assert a + b == b;
    } else {
      var w := DecodeRune(a + b).width;
      RuneOfJoined(a, b);
      if w <= |a| {
        assert (a + b)[w..] == a[w..] + b;
        StepsOfCut(a[w..], b);
      } else {
        TornRune(a, b);
        assert (a + b)[w..] == b[w - |a|..];
      }
    }
  }

  /** What follows a split character goes on with a continuation byte. */
  lemma {:induction false} SplitGoesOn(a: Bytes, b: Bytes)
    requires Valid(a + b) && !Valid(a) && b != []
    ensures Continuation(b[0])
    decreases |a|
  {
    var s := a + b;
    var w := DecodeRune(s).width;
    RuneOfJoined(a, b);
    if w <= |a| {
      assert s[w..] == a[w..] + b;
      SplitGoesOn(a[w..], b);
    } else {
      RuneBytes(s);
      assert s[|a|] == b[0];
    }
  }

  // -- Any number of pieces ------------------------------------------------------------------

  function Decodings(pieces: seq<Bytes>): seq<string> {
    seq(|pieces|, k requires 0 <= k < |pieces| => Decoded(pieces[k]))
  }

  predicate AllValid(pieces: seq<Bytes>) { forall k | 0 <= k < |pieces| :: Valid(pieces[k]) }

  lemma DecodingsSnoc(pieces: seq<Bytes>)
    requires pieces != []
    ensures var front, last := pieces[..|pieces| - 1], pieces[|pieces| - 1];
            Joined(Decodings(pieces)) == Joined(Decodings(front)) + Decoded(last)
  {
    assert Decodings(pieces)[..|pieces| - 1] == Decodings(pieces[..|pieces| - 1]);
  }

  lemma {:induction false} DecodingIsNoShorter(pieces: seq<Bytes>)
    ensures Steps(Joined(pieces)) <= |Joined(Decodings(pieces))|
  {
    if pieces != [] {
      var front, last := pieces[..|pieces| - 1], pieces[|pieces| - 1];
      DecodingIsNoShorter(front);
      DecodingsSnoc(pieces);
      StepsOfCut(Joined(front), last);
      StepsAtMost(last);
    }
  }

  /** Valid pieces decode to the text of the whole. */
  lemma {:induction false} ValidPiecesDecode(pieces: seq<Bytes>)
    requires AllValid(pieces)
    ensures Valid(Joined(pieces)) && Joined(Decodings(pieces)) == Runes(Joined(pieces))
  {
    if pieces != [] {
      ValidPiecesDecode(pieces[..|pieces| - 1]);
      DecodingsSnoc(pieces);
      RunesJoin(Joined(pieces[..|pieces| - 1]), pieces[|pieces| - 1]);
    }
  }

  /** The step of WholeTextNeedsValidPieces: nothing was lost on either side of the last cut. */
  lemma LastCutIsWhole(a: Bytes, b: Bytes, n: nat)
    requires Valid(a + b) && Steps(a) <= n && n + |Decoded(b)| == Steps(a + b)
    ensures Valid(a) && Valid(b) && n == Steps(a)
  {
    StepsOfCut(a, b);
    StepsAtMost(b);
  }

  lemma AllValidSnoc(pieces: seq<Bytes>)
    requires pieces != [] && AllValid(pieces[..|pieces| - 1]) && Valid(pieces[|pieces| - 1])
    ensures AllValid(pieces)
  {
    forall k | 0 <= k < |pieces|
      ensures Valid(pieces[k])
    {
      if k < |pieces| - 1 {
        assert pieces[k] == pieces[..|pieces| - 1][k];
      }
    }
  }

  lemma {:induction false} WholeTextNeedsValidPieces(pieces: seq<Bytes>)
    requires Valid(Joined(pieces)) && |Joined(Decodings(pieces))| == Steps(Joined(pieces))
    ensures AllValid(pieces)
  {
    if pieces != [] {
      var front, last := pieces[..|pieces| - 1], pieces[|pieces| - 1];
      DecodingIsNoShorter(front);
      DecodingsSnoc(pieces);
      var text, n := Joined(front), |Joined(Decodings(front))|;
      LastCutIsWhole(text, last, n);
      WholeTextNeedsValidPieces(front);
      AllValidSnoc(pieces);
    }
  }

  /** Pieces of valid text decode to the text of the whole exactly when no cut splits a character. */
  lemma PiecesDecode(pieces: seq<Bytes>)
    requires Valid(Joined(pieces))
    ensures Joined(Decodings(pieces)) == Runes(Joined(pieces)) <==> AllValid(pieces)
  {
    StepsAtMost(Joined(pieces));
    if AllValid(pieces) {
      ValidPiecesDecode(pieces);
    } else if Joined(Decodings(pieces)) == Runes(Joined(pieces)) {
      WholeTextNeedsValidPieces(pieces);
      assert false;
    }
  }

  /** If not every piece of valid text is valid, some piece begins inside a character. */
  lemma {:induction false} SomePieceGoesOn(pieces: seq<Bytes>) returns (k: nat)
    requires Valid(Joined(pieces)) && !AllValid(pieces)
    requires forall j | 0 <= j < |pieces| :: pieces[j] != []
    ensures k < |pieces| && Continuation(pieces[k][0])
  {
    var front, last := pieces[..|pieces| - 1], pieces[|pieces| - 1];
    if Valid(Joined(front)) {
      StepsOfCut(Joined(front), last);
      if AllValid(front) { AllValidSnoc(pieces); assert false; }
      k := SomePieceGoesOn(front);
    } else {
      SplitGoesOn(Joined(front), last);
      k := |pieces| - 1;
    }
  }
}
