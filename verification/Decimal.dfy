/** Decimal text: strconv.Itoa, strconv.Atoi and the ASCII part of strings.TrimSpace. */
module Decimal {
  import opened Basics

  const MAX_INT64: int := 0x7fff_ffff_ffff_ffff
  const MIN_INT64: int := -0x8000_0000_0000_0000

  predicate IsDigit(c: byte) { '0' <= c <= '9' }

  predicate AllDigits(s: Bytes) { forall k | 0 <= k < |s| :: IsDigit(s[k]) }

  function Digit(d: int): byte
    requires 0 <= d < 10
  {
    ('0' as int + d) as char
  }

  function Digits(n: nat): (r: Bytes)
    ensures |r| > 0 && AllDigits(r)
    ensures r[0] == '0' <==> n == 0
  {
    if n < 10 then [Digit(n)] else Digits(n / 10) + [Digit(n % 10)]
  }

  /** The number a string of digits denotes, most significant digit first. */
  function Value(s: Bytes): (n: int)
    requires AllDigits(s)
    ensures n >= 0
  {
    if s == [] then 0 else 10 * Value(s[..|s| - 1]) + (s[|s| - 1] as int - '0' as int)
  }

  lemma {:induction false} ValueOfDigits(n: nat)
    ensures Value(Digits(n)) == n
  {
    if n < 10 {
      assert Digits(n)[..0] == [];
    } else {
      ValueOfDigits(n / 10);
      assert Digits(n)[..|Digits(n)| - 1] == Digits(n / 10);
    }
  }

  function Itoa(n: int): (r: Bytes)
    ensures |r| > 0
  {
    if n < 0 then "-" + Digits(-n) else Digits(n)
  }

  /** strconv.Atoi on a 64-bit platform: an optional sign, digits, and a range check. */
  function Atoi(s: Bytes): Option<int> {
    var neg := |s| > 0 && s[0] == '-';
    var body := if |s| > 0 && (s[0] == '-' || s[0] == '+') then s[1..] else s;
    if body == [] || !AllDigits(body) then None
    else
      var n: int := if neg then -Value(body) else Value(body);
      if MIN_INT64 <= n <= MAX_INT64 then Some(n) else None
  }

  predicate IsSpace(c: byte) {
    c == ' ' || c == '\t' || c == '\n' || c == '\r' || c as int == 11 || c as int == 12
  }

  function TrimSpace(s: Bytes): Bytes {
    if |s| > 0 && IsSpace(s[0]) then TrimSpace(s[1..])
    else if |s| > 0 && IsSpace(s[|s| - 1]) then TrimSpace(s[..|s| - 1])
    else s
  }

  lemma TrimOfItoa(n: int)
    ensures TrimSpace(Itoa(n)) == Itoa(n)
  {
    var digits := Digits(if n < 0 then -n else n);
    assert IsDigit(digits[0]) && IsDigit(digits[|digits| - 1]);
    assert Itoa(n)[|Itoa(n)| - 1] == digits[|digits| - 1];
  }

  lemma AtoiOfNegative(digits: Bytes)
    requires digits != [] && AllDigits(digits)
    ensures Atoi("-" + digits) == if MIN_INT64 <= -Value(digits) then Some(-Value(digits)) else None
  {
    assert ("-" + digits)[1..] == digits;
  }

  lemma AtoiOfNatural(digits: Bytes)
    requires digits != [] && AllDigits(digits)
    ensures Atoi(digits) == if Value(digits) <= MAX_INT64 then Some(Value(digits)) else None
  {
    assert IsDigit(digits[0]);
  }

  /** A number that was printed is read back, and a number that does not fit 64 bits is refused. */
  lemma AtoiOfItoa(n: int)
    ensures TrimSpace(Itoa(n)) == Itoa(n)
    ensures Atoi(Itoa(n)) == if MIN_INT64 <= n <= MAX_INT64 then Some(n) else None
  {
    TrimOfItoa(n);
    if n < 0 {
      ValueOfDigits(-n);
      AtoiOfNegative(Digits(-n));
    } else {
      ValueOfDigits(n);
      AtoiOfNatural(Digits(n));
    }
  }

  lemma DigitsInjective(m: nat, n: nat)
    ensures Digits(m) == Digits(n) ==> m == n
  {
    ValueOfDigits(m);
    ValueOfDigits(n);
  }

  function Pow10(n: nat): nat { if n == 0 then 1 else 10 * Pow10(n - 1) }

  lemma ShiftPlaces(d: nat, power: nat, v: nat, x: nat)
    ensures 10 * (d * power + v) + x == d * (10 * power) + (10 * v + x)
  {
  }

  lemma ValueSnoc(s: Bytes, c: byte)
    requires AllDigits(s) && IsDigit(c)
    ensures AllDigits(s + [c]) && Value(s + [c]) == 10 * Value(s) + (c as int - 48)
  {
    assert (s + [c])[..|s|] == s;
  }

  /** Positional notation: a leading digit counts as many times ten as digits follow it. */
  lemma {:induction false} LeadingDigit(c: byte, s: Bytes)
    requires IsDigit(c) && AllDigits(s)
    ensures AllDigits([c] + s) && Value([c] + s) == (c as int - 48) * Pow10(|s|) + Value(s)
  {
    var d := c as int - 48;
    if s == [] {
      ValueSnoc([], c);
      assert [] + [c] == [c] + s && Value([]) == 0;
    } else {
      var front, last := s[..|s| - 1], s[|s| - 1];
      LeadingDigit(c, front);
      ValueSnoc(front, last);
      ValueSnoc([c] + front, last);
      ShiftPlaces(d, Pow10(|front|), Value(front), last as int - 48);
      assert s == front + [last];
      Reassociate([c], front, [last]);
    }
  }

  lemma AtoiOfPlus(digits: Bytes)
    requires digits != [] && AllDigits(digits)
    ensures Atoi("+" + digits) == if Value(digits) <= MAX_INT64 then Some(Value(digits)) else None
  {
    assert ("+" + digits)[1..] == digits;
  }

  /** What Atoi accepts: an optional sign, one or more digits and nothing else, in the range of 64 bits. */
  lemma AtoiAccepts(sign: Bytes, digits: Bytes)
    requires sign == "" || sign == "+" || sign == "-"
    requires digits != [] && AllDigits(digits)
    ensures var n := if sign == "-" then -Value(digits) else Value(digits);
            Atoi(sign + digits) == if -0x8000_0000_0000_0000 <= n <= 0x7fff_ffff_ffff_ffff then Some(n) else None
  {
    if sign == "" {
      AtoiOfNatural(digits);
      assert sign + digits == digits;
    } else if sign == "-" {
      AtoiOfNegative(digits);
    } else {
      AtoiOfPlus(digits);
    }
  }

  lemma AtoiRefuses(s: Bytes)
    ensures Atoi(s).Some? ==>
              exists sign: Bytes, digits: Bytes ::
                s == sign + digits && (sign == "" || sign == "+" || sign == "-") && digits != [] && AllDigits(digits)
  {
    if |s| > 0 && (s[0] == '-' || s[0] == '+') {
      assert s == s[..1] + s[1..] && s[..1] == [s[0]];
    } else {
      assert s == "" + s;
    }
  }

  lemma {:induction false} TrimFront(a: Bytes, s: Bytes)
    requires forall k | 0 <= k < |a| :: IsSpace(a[k])
    ensures TrimSpace(a + s) == TrimSpace(s)
  {
    if a == [] {
      assert a + s == s;
    } else {
      assert (a + s)[1..] == a[1..] + s;
      TrimFront(a[1..], s);
    }
  }

  lemma TrimLast(word: Bytes, b: Bytes, c: byte)
    requires IsSpace(c) && word != [] && !IsSpace(word[0])
    ensures TrimSpace(word + (b + [c])) == TrimSpace(word + b)
  {
    var s := word + (b + [c]);
    assert s[0] == word[0] && s[..|s| - 1] == word + b && s[|s| - 1] == c;
  }

  /** Blanks after a word that has none at its ends are taken off. */
  lemma {:induction false} TrimBack(word: Bytes, b: Bytes)
    requires forall k | 0 <= k < |b| :: IsSpace(b[k])
    requires word != [] && !IsSpace(word[0]) && !IsSpace(word[|word| - 1])
    ensures TrimSpace(word + b) == word
  {
    if b == [] {
      assert word + b == word;
    } else {
      var front := b[..|b| - 1];
      TrimBack(word, front);
      TrimLast(word, front, b[|b| - 1]);
      assert b == front + [b[|b| - 1]];
    }
  }

  /** Blanks around a word that has none at its ends are all that TrimSpace takes off. */
  lemma TrimTakesBlanks(a: Bytes, word: Bytes, b: Bytes)
    requires forall k | 0 <= k < |a| :: IsSpace(a[k])
    requires forall k | 0 <= k < |b| :: IsSpace(b[k])
    requires word != [] && !IsSpace(word[0]) && !IsSpace(word[|word| - 1])
    ensures TrimSpace(a + (word + b)) == word
  {
    TrimFront(a, word + b);
    TrimBack(word, b);
  }
}
