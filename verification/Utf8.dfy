/** UTF-8 as Go's `range` loop over a string decodes it (section 4 of RFC 3629). */
module Utf8 {
  import opened Basics

  /** What one step of a `range` loop yields: a code point and how many bytes it took. */
  datatype Rune = Rune(code: int, width: nat)

  const RUNE_ERROR: int := 0xFFFD

  predicate Within(c: byte, lo: int, hi: int) { lo <= c as int <= hi }

  /** The first rune of `s`; a byte that starts no well-formed sequence is one RUNE_ERROR. */
  function DecodeRune(s: Bytes): (r: Rune)
    requires |s| > 0
    ensures 1 <= r.width <= |s| && r.width <= 4
    ensures s[0] as int < 0x80 ==> r == Rune(s[0] as int, 1)
    ensures s[0] as int >= 0x80 ==> r.code >= 0x80
    ensures r.width > 1 ==> forall k | 0 <= k < r.width :: s[k] as int >= 0x80
  {
    var b0 := s[0] as int;
    if b0 < 0x80 then Rune(b0, 1)
    else if 0xC2 <= b0 <= 0xDF && |s| >= 2 && Within(s[1], 0x80, 0xBF) then
      Rune((b0 - 0xC0) * 64 + (s[1] as int - 0x80), 2)
    else if 0xE0 <= b0 <= 0xEF && |s| >= 3
            && Within(s[1], if b0 == 0xE0 then 0xA0 else 0x80, if b0 == 0xED then 0x9F else 0xBF)
            && Within(s[2], 0x80, 0xBF) then
      Rune((b0 - 0xE0) * 4096 + (s[1] as int - 0x80) * 64 + (s[2] as int - 0x80), 3)
    else if 0xF0 <= b0 <= 0xF4 && |s| >= 4
            && Within(s[1], if b0 == 0xF0 then 0x90 else 0x80, if b0 == 0xF4 then 0x8F else 0xBF)
            && Within(s[2], 0x80, 0xBF) && Within(s[3], 0x80, 0xBF) then
      Rune((b0 - 0xF0) * 262144 + (s[1] as int - 0x80) * 4096
           + (s[2] as int - 0x80) * 64 + (s[3] as int - 0x80), 4)
    else Rune(RUNE_ERROR, 1)
  }

  predicate IsInvalid(r: Rune) { r == Rune(RUNE_ERROR, 1) }

  predicate IsScalar(v: int) { 0 <= v <= 0x10FFFF && !(0xD800 <= v <= 0xDFFF) }

  /** The UTF-8 form of a Unicode scalar value. */
  function EncodeRune(v: int): (r: Bytes)
    requires IsScalar(v)
    ensures 1 <= |r| <= 4
  {
    if v < 0x80 then [v as char]
    else if v < 0x800 then [(0xC0 + v / 64) as char, (0x80 + v % 64) as char]
    else if v < 0x10000 then
      [(0xE0 + v / 4096) as char, (0x80 + v / 64 % 64) as char, (0x80 + v % 64) as char]
    else
      [(0xF0 + v / 262144) as char, (0x80 + v / 4096 % 64) as char,
       (0x80 + v / 64 % 64) as char, (0x80 + v % 64) as char]
  }

  lemma Base64Digits(v: nat)
    ensures v == v / 64 * 64 + v % 64
    ensures v == v / 4096 * 4096 + v / 64 % 64 * 64 + v % 64
    ensures v == v / 262144 * 262144 + v / 4096 % 64 * 4096 + v / 64 % 64 * 64 + v % 64
  {
    assert v / 64 / 64 == v / 4096;
    assert v / 4096 / 64 == v / 262144;
  }

  lemma DecodeTwo(v: int, rest: Bytes)
    requires 0x80 <= v < 0x800
    ensures DecodeRune(EncodeRune(v) + rest) == Rune(v, 2)
  {
    Base64Digits(v);
    var s := EncodeRune(v) + rest;
    assert s[0] as int - 0xC0 == v / 64 && s[1] as int - 0x80 == v % 64;
  }

  lemma DecodeThree(v: int, rest: Bytes)
    requires 0x800 <= v < 0x10000 && IsScalar(v)
    ensures DecodeRune(EncodeRune(v) + rest) == Rune(v, 3)
  {
    Base64Digits(v);
    var s := EncodeRune(v) + rest;
    assert s[0] as int - 0xE0 == v / 4096 && s[1] as int - 0x80 == v / 64 % 64 && s[2] as int - 0x80 == v % 64;
  }

  lemma DecodeFour(v: int, rest: Bytes)
    requires 0x10000 <= v <= 0x10FFFF
    ensures DecodeRune(EncodeRune(v) + rest) == Rune(v, 4)
  {
    Base64Digits(v);
    var s := EncodeRune(v) + rest;
    assert s[0] as int - 0xF0 == v / 262144 && s[1] as int - 0x80 == v / 4096 % 64;
    assert s[2] as int - 0x80 == v / 64 % 64 && s[3] as int - 0x80 == v % 64;
  }

  /** Decoding inverts encoding, whatever follows. */
  lemma DecodeOfEncode(v: int, rest: Bytes)
    requires IsScalar(v)
    ensures DecodeRune(EncodeRune(v) + rest) == Rune(v, |EncodeRune(v)|)
  {
    if v < 0x80 {
      assert (EncodeRune(v) + rest)[0] as int == v;
    } else if v < 0x800 {
      DecodeTwo(v, rest);
    } else if v < 0x10000 {
      DecodeThree(v, rest);
    } else {
      DecodeFour(v, rest);
    }
  }

  lemma DigitOff(a: nat, b: nat)
    requires b < 64
    ensures (a * 64 + b) / 64 == a && (a * 64 + b) % 64 == b
  {
  }

  lemma DivideTwice(v: nat)
    ensures v / 64 / 64 == v / 4096 && v / 4096 / 64 == v / 262144
  {
  }

  lemma Base64Unique(a: nat, b: nat, c: nat, d: nat)
    requires b < 64 && c < 64 && d < 64
    ensures var v := a * 262144 + b * 4096 + c * 64 + d;
            v / 262144 == a && v / 4096 % 64 == b && v / 64 % 64 == c && v % 64 == d
            && v / 4096 == a * 64 + b && v / 64 == a * 4096 + b * 64 + c
  {
    var ab := a * 64 + b;
    var abc := ab * 64 + c;
    DigitOff(a, b);
    DigitOff(ab, c);
    DigitOff(abc, d);
    DivideTwice(abc * 64 + d);
  }

  lemma EncodeLong(s: Bytes)
    requires |s| > 0 && DecodeRune(s).width == 4
    ensures IsScalar(DecodeRune(s).code) && EncodeRune(DecodeRune(s).code) == s[..4]
  {
    Base64Unique(s[0] as int - 0xF0, s[1] as int - 0x80, s[2] as int - 0x80, s[3] as int - 0x80);
  }

  lemma EncodeThree(s: Bytes)
    requires |s| > 0 && DecodeRune(s).width == 3
    ensures IsScalar(DecodeRune(s).code) && EncodeRune(DecodeRune(s).code) == s[..3]
  {
    Base64Unique(0, s[0] as int - 0xE0, s[1] as int - 0x80, s[2] as int - 0x80);
  }

  /** Encoding inverts decoding: a rune that is not an error stands for exactly its own bytes. */
  lemma EncodeOfDecode(s: Bytes)
    requires |s| > 0 && !IsInvalid(DecodeRune(s))
    ensures IsScalar(DecodeRune(s).code)
    ensures EncodeRune(DecodeRune(s).code) == s[..DecodeRune(s).width]
  {
    var w := DecodeRune(s).width;
    if w == 2 {
      Base64Unique(0, 0, s[0] as int - 0xC0, s[1] as int - 0x80);
    } else if w == 3 {
      EncodeThree(s);
    } else if w == 4 {
      EncodeLong(s);
    }
  }

  predicate Valid(s: Bytes) {
    s == [] || (!IsInvalid(DecodeRune(s)) && Valid(s[DecodeRune(s).width..]))
  }

  /** `s` with every invalid byte replaced by U+FFFD, as encoding/json writes it. */
  function Sanitize(s: Bytes): Bytes {
    if s == [] then []
    else
      var r := DecodeRune(s);
      (if IsInvalid(r) then EncodeRune(RUNE_ERROR) else s[..r.width]) + Sanitize(s[r.width..])
  }

  /** Sanitizing leaves a string alone exactly when it is valid UTF-8. */
  lemma {:induction false} SanitizeFixesOnlyValid(s: Bytes)
    ensures Sanitize(s) == s <==> Valid(s)
  {
    if s != [] {
      var r := DecodeRune(s);
      SanitizeFixesOnlyValid(s[r.width..]);
      assert s == s[..r.width] + s[r.width..];
      if IsInvalid(r) {
        if Sanitize(s) == s {
          DecodeOfEncode(RUNE_ERROR, Sanitize(s[r.width..]));
          assert false;
        }
      } else if Sanitize(s) == s {
        assert Sanitize(s)[r.width..] == Sanitize(s[r.width..]);
      }
    }
  }

  lemma {:induction false} SanitizeIsValid(s: Bytes)
    ensures Valid(Sanitize(s))
  {
    if s != [] {
      var r := DecodeRune(s);
      var rest := Sanitize(s[r.width..]);
      SanitizeIsValid(s[r.width..]);
      var code := if IsInvalid(r) then RUNE_ERROR else r.code;
      if !IsInvalid(r) { EncodeOfDecode(s); }
      DecodeOfEncode(code, rest);
      assert Sanitize(s) == EncodeRune(code) + rest;
      assert Sanitize(s)[|EncodeRune(code)|..] == rest;
    }
  }

  /** What follows an ASCII byte has no say in how the bytes before it decode. */
  lemma DecodeRuneBeforeAscii(a: Bytes, b: Bytes)
    requires a != [] && (b == [] || b[0] as int < 0x80)
    ensures DecodeRune(a + b) == DecodeRune(a)
  {
    var s := a + b;
    assert s[0] == a[0];
    assert |a| > 1 ==> s[1] == a[1];
    assert |a| > 2 ==> s[2] == a[2];
    assert |a| > 3 ==> s[3] == a[3];
    assert b != [] ==> s[|a|] == b[0];
  }

  lemma ValidCons(s: Bytes, r: Rune, tail: Bytes)
    requires s != [] && DecodeRune(s) == r && s[r.width..] == tail
    ensures Valid(s) <==> !IsInvalid(r) && Valid(tail)
  {
  }

  lemma FrontDropped(a: Bytes, b: Bytes, n: nat)
    requires n <= |a|
    ensures (a + b)[n..] == a[n..] + b
  {
  }

  /** Cutting a string before an ASCII byte never cuts a multi-byte sequence. */
  lemma {:induction false} ValidSplitsAtAscii(a: Bytes, b: Bytes)
    requires b == [] || b[0] as int < 0x80
    ensures Valid(a + b) <==> Valid(a) && Valid(b)
  {
    if a == [] {
      assert a + b == b;
    } else {
      var r := DecodeRune(a);
      ValidSplitsAtAscii(a[r.width..], b);
      DecodeRuneBeforeAscii(a, b);
      FrontDropped(a, b, r.width);
      ValidCons(a, r, a[r.width..]);
      ValidCons(a + b, r, a[r.width..] + b);
    }
  }

  lemma {:induction false} ValidAfterAscii(a: Bytes, b: Bytes)
    requires forall k | 0 <= k < |a| :: a[k] as int < 0x80
    ensures Valid(a + b) <==> Valid(b)
  {
    if a == [] {
      assert a + b == b;
    } else {
      assert (a + b)[1..] == a[1..] + b;
      ValidAfterAscii(a[1..], b);
    }
  }

  predicate IsAscii(s: Bytes) { forall k | 0 <= k < |s| :: s[k] as int < 0x80 }

  lemma AsciiIsValid(s: Bytes)
    requires IsAscii(s)
    ensures Valid(s) && Sanitize(s) == s
  {
    ValidAfterAscii(s, []);
    assert s + [] == s;
    SanitizeFixesOnlyValid(s);
  }
}
