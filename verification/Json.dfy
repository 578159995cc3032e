/** The compact JSON that encoding/json writes for strings, integers and objects, and a reader
    for it (sections 4, 6 and 7 of RFC 8259, without insignificant whitespace). */
module Json {
  import opened Basics
  import opened Utf8
  import Decimal

  // -- Strings -------------------------------------------------------------------------------

  function HexDigit(d: int): byte
    requires 0 <= d < 16
  {
    if d < 10 then ('0' as int + d) as char else ('a' as int + d - 10) as char
  }

  function HexValue(c: byte): int {
    if '0' <= c <= '9' then c as int - '0' as int
    else if 'a' <= c <= 'f' then c as int - 'a' as int + 10
    else if 'A' <= c <= 'F' then c as int - 'A' as int + 10
    else -1
  }

  /** Four hexadecimal digits at `i`, or -1. */
  function Hex4(t: Bytes, i: nat): (h: int)
    ensures h < 0x10000
  {
    if i + 4 > |t| then -1
    else
      var a, b, c, d := HexValue(t[i]), HexValue(t[i + 1]), HexValue(t[i + 2]), HexValue(t[i + 3]);
      if a < 0 || b < 0 || c < 0 || d < 0 then -1 else a * 4096 + b * 256 + c * 16 + d
  }

  /** How an ASCII byte appears inside a string, with HTML characters escaped. */
  function EscapeAscii(b: byte): Bytes
    requires b as int < 0x80
  {
    if b == '\"' then "\\\""
    else if b == '\\' then "\\\\"
    else if b as int == 8 then "\\b"
    else if b as int == 12 then "\\f"
    else if b == '\n' then "\\n"
    else if b == '\r' then "\\r"
    else if b == '\t' then "\\t"
    else if b < ' ' || b == '<' || b == '>' || b == '&' then
      "\\u00" + [HexDigit(b as int / 16), HexDigit(b as int % 16)]
    else [b]
  }

  function EscapeRune(r: Rune, raw: Bytes): Bytes
    requires |raw| > 0
  {
    if raw[0] as int < 0x80 then EscapeAscii(raw[0])
    else if IsInvalid(r) then "\\ufffd"
    else if r.code == 0x2028 then "\\u2028"
    else if r.code == 0x2029 then "\\u2029"
    else raw
  }

  function Escape(s: Bytes): Bytes {
    if s == [] then []
    else
      var r := DecodeRune(s);
      EscapeRune(r, s[..r.width]) + Escape(s[r.width..])
  }

  /** What a reader has after a token: its value and the text that follows it. */
  datatype Read<T> = Fail | Got(value: T, rest: Bytes)

  function Prepend(p: Bytes, r: Read<Bytes>): Read<Bytes> {
    match r case Fail => Fail case Got(v, rest) => Got(p + v, rest)
  }

  function Unescaped(c: byte): Option<byte> {
    match c
    case '\"' => Some('\"')
    case '\\' => Some('\\')
    case '/' => Some('/')
    case 'b' => Some(8 as char)
    case 'f' => Some(12 as char)
    case 'n' => Some('\n')
    case 'r' => Some('\r')
    case 't' => Some('\t')
    case _ => None
  }

  /** Reads a string after its opening quote. */
  function ScanString(t: Bytes): (r: Read<Bytes>)
    ensures r.Got? ==> |r.rest| < |t|
  {
    if t == [] || t[0] < ' ' then Fail
    else if t[0] == '\"' then Got([], t[1..])
    else if t[0] != '\\' then Prepend(t[..1], ScanString(t[1..]))
    else if |t| < 2 then Fail
    else if t[1] != 'u' then
      match Unescaped(t[1])
      case None => Fail
      case Some(c) => Prepend([c], ScanString(t[2..]))
    else
      var h := Hex4(t, 2);
      if h < 0 then Fail
      else if IsScalar(h) then Prepend(EncodeRune(h), ScanString(t[6..]))
      else
        var low := if |t| >= 8 && t[6] == '\\' && t[7] == 'u' then Hex4(t, 8) else -1;
        if h < 0xDC00 && 0xDC00 <= low < 0xE000 then
          Prepend(EncodeRune(0x10000 + (h - 0xD800) * 1024 + (low - 0xDC00)), ScanString(t[12..]))
        else Prepend(EncodeRune(RUNE_ERROR), ScanString(t[6..]))
  }

  predicate Plain(c: byte) { c >= ' ' && c != '\"' && c != '\\' }

  lemma PrependTwice(a: Bytes, b: Bytes, r: Read<Bytes>)
    ensures Prepend(a, Prepend(b, r)) == Prepend(a + b, r)
  {
    if r.Got? { Reassociate(a, b, r.value); }
  }

  lemma ScanOnePlain(c: Bytes, tail: Bytes)
    requires |c| == 1 && Plain(c[0])
    ensures ScanString(c + tail) == Prepend(c, ScanString(tail))
  {
    assert (c + tail)[1..] == tail && (c + tail)[..1] == c;
  }

  lemma {:induction false} ScanPlain(raw: Bytes, tail: Bytes)
    requires forall k | 0 <= k < |raw| :: Plain(raw[k])
    ensures ScanString(raw + tail) == Prepend(raw, ScanString(tail))
  {
    if raw == [] {
      assert raw + tail == tail;
      var r := ScanString(tail);
      assert r.Got? ==> raw + r.value == r.value;
    } else {
      var first, rest := raw[..1], raw[1..];
      ScanPlain(rest, tail);
      ScanOnePlain(first, rest + tail);
      PrependTwice(first, rest, ScanString(tail));
      assert raw == first + rest;
      Reassociate(first, rest, tail);
    }
  }

  lemma ScanUnicode(h: int, digits: Bytes, tail: Bytes)
    requires |digits| == 4 && Hex4(digits, 0) == h && IsScalar(h)
    ensures ScanString("\\u" + digits + tail) == Prepend(EncodeRune(h), ScanString(tail))
  {
    var t := "\\u" + digits + tail;
    assert t[2] == digits[0] && t[3] == digits[1] && t[4] == digits[2] && t[5] == digits[3];
    assert Hex4(t, 2) == h;
    assert t[6..] == tail;
  }

  lemma ScanShort(c: byte, e: byte, tail: Bytes)
    requires e != 'u' && Unescaped(e) == Some(c)
    ensures ScanString(['\\', e] + tail) == Prepend([c], ScanString(tail))
  {
    assert (['\\', e] + tail)[2..] == tail;
  }

  lemma ScanAscii(b: byte, tail: Bytes)
    requires b as int < 0x80
    ensures ScanString(EscapeAscii(b) + tail) == Prepend([b], ScanString(tail))
  {
    var e := EscapeAscii(b);
    if |e| == 1 {
      ScanPlain(e, tail);
    } else if |e| == 2 {
      assert e == ['\\', e[1]];
      ScanShort(b, e[1], tail);
    } else {
      var digits := "00" + [HexDigit(b as int / 16), HexDigit(b as int % 16)];
      assert e == "\\u" + digits;
      assert Hex4(digits, 0) == b as int;
      ScanUnicode(b as int, digits, tail);
    }
  }

  lemma ScanValidRune(s: Bytes, tail: Bytes)
    requires s != [] && s[0] as int >= 0x80 && !IsInvalid(DecodeRune(s))
    ensures var r := DecodeRune(s);
            ScanString(EscapeRune(r, s[..r.width]) + tail) == Prepend(s[..r.width], ScanString(tail))
  {
    var r := DecodeRune(s);
    EncodeOfDecode(s);
    if r.code == 0x2028 {
      ScanUnicode(0x2028, "2028", tail);
      assert "\\u" + "2028" == "\\u2028";
    } else if r.code == 0x2029 {
      ScanUnicode(0x2029, "2029", tail);
      assert "\\u" + "2029" == "\\u2029";
    } else {
      ScanPlain(s[..r.width], tail);
    }
  }

  lemma ScanRune(s: Bytes, tail: Bytes)
    requires s != []
    ensures var r := DecodeRune(s);
            ScanString(EscapeRune(r, s[..r.width]) + tail)
            == Prepend(if IsInvalid(r) then EncodeRune(RUNE_ERROR) else s[..r.width], ScanString(tail))
  {
    var r := DecodeRune(s);
    if s[0] as int < 0x80 {
      assert s[..r.width] == [s[0]];
      ScanAscii(s[0], tail);
    } else if IsInvalid(r) {
      ScanUnicode(RUNE_ERROR, "fffd", tail);
      assert "\\u" + "fffd" == "\\ufffd";
    } else {
      ScanValidRune(s, tail);
    }
  }

  /** Whatever bytes a string holds, what is read back is the string with its invalid bytes
      replaced: nothing in it can end the string early or run on past its end. */
  lemma {:induction false} StringRoundTrip(s: Bytes, rest: Bytes)
    ensures ScanString(Escape(s) + ("\"" + rest)) == Got(Sanitize(s), rest)
  {
    var end := "\"" + rest;
    if s == [] {
      assert Escape(s) + end == end && end[1..] == rest;
    } else {
      var r := DecodeRune(s);
      var tail := s[r.width..];
      StringRoundTrip(tail, rest);
      ScanRune(s, Escape(tail) + end);
      Reassociate(EscapeRune(r, s[..r.width]), Escape(tail), end);
    }
  }

  // -- Values --------------------------------------------------------------------------------

  datatype Json = Str(s: Bytes) | Num(n: int) | Obj(members: Members)

  datatype Members = Empty | Member(key: Bytes, val: Json, tail: Members)

  function Quote(s: Bytes): Bytes { "\"" + (Escape(s) + "\"") }

  function Render(v: Json): Bytes {
    match v
    case Str(s) => Quote(s)
    case Num(n) => Decimal.Itoa(n)
    case Obj(ms) => "{" + RenderMembers(ms)
  }

  function MemberText(key: Bytes, val: Bytes, close: Bytes): Bytes { Quote(key) + (":" + (val + close)) }

  /** The members and the closing brace. */
  function RenderMembers(ms: Members): Bytes {
    match ms
    case Empty => "}"
    case Member(k, v, tail) =>
      MemberText(k, Render(v), if tail.Empty? then "}" else "," + RenderMembers(tail))
  }

  /** The value a reader sees: every string sanitized. */
  function Seen(v: Json): Json {
    match v
    case Str(s) => Str(Sanitize(s))
    case Num(n) => v
    case Obj(ms) => Obj(SeenMembers(ms))
  }

  function SeenMembers(ms: Members): Members {
    match ms
    case Empty => Empty
    case Member(k, v, tail) => Member(Sanitize(k), Seen(v), SeenMembers(tail))
  }

  function DigitRun(t: Bytes): (n: nat)
    ensures n <= |t| && (n < |t| ==> !Decimal.IsDigit(t[n]))
    ensures forall k | 0 <= k < n :: Decimal.IsDigit(t[k])
  {
    if t == [] || !Decimal.IsDigit(t[0]) then 0 else 1 + DigitRun(t[1..])
  }

  function ParseDigits(t: Bytes): (r: Read<int>)
    ensures r.Got? ==> |r.rest| < |t|
  {
    var n := DigitRun(t);
    if n == 0 || (n > 1 && t[0] == '0') then Fail else Got(Decimal.Value(t[..n]), t[n..])
  }

  function ParseValue(t: Bytes): (r: Read<Json>)
    ensures r.Got? ==> |r.rest| < |t|
    decreases |t|, 1
  {
    if t == [] then Fail
    else if t[0] == '\"' then
      match ScanString(t[1..]) case Fail => Fail case Got(s, rest) => Got(Str(s), rest)
    else if t[0] == '{' then
      if |t| > 1 && t[1] == '}' then Got(Obj(Empty), t[2..])
      else
        match ParseMembers(t[1..]) case Fail => Fail case Got(ms, rest) => Got(Obj(ms), rest)
    else if t[0] == '-' then
      match ParseDigits(t[1..]) case Fail => Fail case Got(n, rest) => Got(Num(-n), rest)
    else
      match ParseDigits(t) case Fail => Fail case Got(n, rest) => Got(Num(n), rest)
  }

  /** One or more members, up to and including the closing brace. */
  function ParseMembers(t: Bytes): (r: Read<Members>)
    ensures r.Got? ==> |r.rest| < |t|
    decreases |t|, 0
  {
    if t == [] || t[0] != '\"' then Fail
    else
      match ScanString(t[1..])
      case Fail => Fail
      case Got(k, t1) =>
        if t1 == [] || t1[0] != ':' then Fail
        else
          match ParseValue(t1[1..])
          case Fail => Fail
          case Got(v, t2) =>
            if t2 != [] && t2[0] == '}' then Got(Member(k, v, Empty), t2[1..])
            else if t2 != [] && t2[0] == ',' then
              match ParseMembers(t2[1..])
              case Fail => Fail
              case Got(ms, rest) => Got(Member(k, v, ms), rest)
            else Fail
  }

  lemma ReadQuoted(s: Bytes, rest: Bytes)
    ensures Quote(s) + rest != [] && (Quote(s) + rest)[0] == '\"'
    ensures ScanString((Quote(s) + rest)[1..]) == Got(Sanitize(s), rest)
  {
    assert (Quote(s) + rest)[1..] == Escape(s) + ("\"" + rest);
    StringRoundTrip(s, rest);
  }

  predicate EndsNumber(rest: Bytes) { rest == [] || !Decimal.IsDigit(rest[0]) }

  lemma ReadDigits(n: nat, rest: Bytes)
    requires EndsNumber(rest)
    ensures ParseDigits(Decimal.Digits(n) + rest) == Got(n, rest)
  {
    var d := Decimal.Digits(n);
    var t := d + rest;
    assert forall k | 0 <= k < |d| :: t[k] == d[k];
    assert rest != [] ==> t[|d|] == rest[0];
    assert DigitRun(t) == |d|;
    assert t[..|d|] == d && t[|d|..] == rest;
    Decimal.ValueOfDigits(n);
  }

  lemma ReadNatural(t: Bytes, n: int, rest: Bytes)
    requires t != [] && Decimal.IsDigit(t[0]) && ParseDigits(t) == Got(n, rest)
    ensures ParseValue(t) == Got(Num(n), rest)
  {
  }

  lemma ReadNegative(t: Bytes, n: int, rest: Bytes)
    requires ParseDigits(t) == Got(n, rest)
    ensures ParseValue("-" + t) == Got(Num(-n), rest)
  {
    assert ("-" + t)[1..] == t;
  }

  lemma ReadNumber(n: int, rest: Bytes)
    requires EndsNumber(rest)
    ensures ParseValue(Decimal.Itoa(n) + rest) == Got(Num(n), rest)
  {
    if n < 0 {
      ReadDigits(-n, rest);
      Reassociate("-", Decimal.Digits(-n), rest);
      ReadNegative(Decimal.Digits(-n) + rest, -n, rest);
    } else {
      ReadDigits(n, rest);
      assert Decimal.IsDigit(Decimal.Digits(n)[0]);
      ReadNatural(Decimal.Digits(n) + rest, n, rest);
    }
  }

  lemma ReadText(s: Bytes, rest: Bytes)
    ensures ParseValue(Quote(s) + rest) == Got(Str(Sanitize(s)), rest)
  {
    ReadQuoted(s, rest);
  }

  lemma ReadObject(t: Bytes, ms: Members, rest: Bytes)
    requires t != [] && t[0] == '\"' && ParseMembers(t) == Got(ms, rest)
    ensures ParseValue("{" + t) == Got(Obj(ms), rest)
  {
    assert ("{" + t)[1..] == t && ("{" + t)[1] == t[0];
  }

  lemma ReadEmptyObject(rest: Bytes)
    ensures ParseValue("{}" + rest) == Got(Obj(Empty), rest)
  {
    assert ("{}" + rest)[2..] == rest;
  }

  lemma MemberTextFollowed(key: Bytes, val: Bytes, close: Bytes, rest: Bytes)
    ensures MemberText(key, val, close) + rest == MemberText(key, val, close + rest)
    ensures MemberText(key, val, close)[0] == '\"'
  {
  }

  lemma ReadLastMember(key: Bytes, text: Bytes, val: Json, rest: Bytes)
    requires ParseValue(text + ("}" + rest)) == Got(val, "}" + rest)
    ensures ParseMembers(MemberText(key, text, "}" + rest)) == Got(Member(Sanitize(key), val, Empty), rest)
  {
    var t1 := ":" + (text + ("}" + rest));
    ReadQuoted(key, t1);
    assert t1[1..] == text + ("}" + rest) && ("}" + rest)[1..] == rest;
  }

  lemma ReadNextMember(key: Bytes, text: Bytes, val: Json, more: Bytes, ms: Members, rest: Bytes)
    requires ParseValue(text + ("," + more)) == Got(val, "," + more)
    requires ParseMembers(more) == Got(ms, rest)
    ensures ParseMembers(MemberText(key, text, "," + more)) == Got(Member(Sanitize(key), val, ms), rest)
  {
    var t1 := ":" + (text + ("," + more));
    ReadQuoted(key, t1);
    assert t1[1..] == text + ("," + more) && ("," + more)[1..] == more;
  }

  /** Rendering any value and reading it back gives the value, its strings sanitized, and exactly
      the text that followed. */
  lemma {:induction false} ValueRoundTrip(v: Json, rest: Bytes)
    requires EndsNumber(rest)
    ensures ParseValue(Render(v) + rest) == Got(Seen(v), rest)
    decreases v
  {
    match v
    case Str(s) => ReadText(s, rest);
    case Num(n) => ReadNumber(n, rest);
    case Obj(ms) =>
      if ms.Empty? {
        assert Render(v) == "{}";
        ReadEmptyObject(rest);
      } else {
        MembersRoundTrip(ms, rest);
        Reassociate("{", RenderMembers(ms), rest);
        ReadObject(RenderMembers(ms) + rest, SeenMembers(ms), rest);
      }
  }

  lemma {:induction false} MembersRoundTrip(ms: Members, rest: Bytes)
    requires ms.Member?
    ensures var t := RenderMembers(ms) + rest;
            t != [] && t[0] == '\"' && ParseMembers(t) == Got(SeenMembers(ms), rest)
    decreases ms
  {
    if ms.tail.Empty? {
      ValueRoundTrip(ms.val, "}" + rest);
      ReadLastMember(ms.key, Render(ms.val), Seen(ms.val), rest);
      MemberTextFollowed(ms.key, Render(ms.val), "}", rest);
    } else {
      var more := RenderMembers(ms.tail);
      MembersRoundTrip(ms.tail, rest);
      ValueRoundTrip(ms.val, "," + (more + rest));
      ReadNextMember(ms.key, Render(ms.val), Seen(ms.val), more + rest, SeenMembers(ms.tail), rest);
      MemberTextFollowed(ms.key, Render(ms.val), "," + more, rest);
      Reassociate(",", more, rest);
    }
  }

  // -- One record is one line ----------------------------------------------------------------

  predicate Printable(s: Bytes) {
    forall k | 0 <= k < |s| :: s[k] >= ' ' && s[k] != '<' && s[k] != '>' && s[k] != '&'
  }

  /** ASCII text without quotes, backslashes, control and HTML characters is written as it is. */
  lemma {:induction false} PlainTextUnescaped(s: Bytes)
    requires forall k | 0 <= k < |s| :: ' ' <= s[k] < 128 as char && s[k] !in "\"\\<>&"
    ensures Escape(s) == s
  {
    if s != [] {
      PlainTextUnescaped(s[1..]);
      assert s[..1] == [s[0]] && s == s[..1] + s[1..];
    }
  }

  lemma PrintableJoin(a: Bytes, b: Bytes)
    requires Printable(a) && Printable(b)
    ensures Printable(a + b)
  {
  }

  lemma RuneIsPrintable(r: Rune, raw: Bytes)
    requires |raw| > 0 && (raw[0] as int >= 0x80 ==> forall k | 0 <= k < |raw| :: raw[k] as int >= 0x80)
    ensures Printable(EscapeRune(r, raw))
  {
  }

  lemma {:induction false} EscapeIsPrintable(s: Bytes)
    ensures Printable(Escape(s))
  {
    if s != [] {
      var r := DecodeRune(s);
      EscapeIsPrintable(s[r.width..]);
      RuneIsPrintable(r, s[..r.width]);
      PrintableJoin(EscapeRune(r, s[..r.width]), Escape(s[r.width..]));
    }
  }

  lemma MemberIsPrintable(key: Bytes, val: Bytes, close: Bytes)
    requires Printable(val) && Printable(close)
    ensures Printable(MemberText(key, val, close))
  {
    EscapeIsPrintable(key);
    PrintableJoin(Escape(key), "\"");
    PrintableJoin("\"", Escape(key) + "\"");
    PrintableJoin(val, close);
    PrintableJoin(":", val + close);
    PrintableJoin(Quote(key), ":" + (val + close));
  }

  /** Rendered JSON holds no control character, so in particular no newline, and none that HTML
      would interpret. */
  lemma {:induction false} RenderIsPrintable(v: Json)
    ensures Printable(Render(v))
    decreases v
  {
    match v
    case Str(s) => EscapeIsPrintable(s);
    case Num(n) =>
      var d := Decimal.Digits(if n < 0 then -n else n);
      assert forall k | 0 <= k < |d| :: Decimal.IsDigit(d[k]);
    case Obj(ms) => MembersArePrintable(ms);
  }

  lemma {:induction false} MembersArePrintable(ms: Members)
    ensures Printable(RenderMembers(ms))
    decreases ms
  {
    if ms.Member? {
      RenderIsPrintable(ms.val);
      MembersArePrintable(ms.tail);
      PrintableJoin(",", RenderMembers(ms.tail));
      MemberIsPrintable(ms.key, Render(ms.val), if ms.tail.Empty? then "}" else "," + RenderMembers(ms.tail));
    }
  }
}
