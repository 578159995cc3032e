/** The hand-written search and split loops of the console watcher, over byte slices. */
module ConsoleParser {
  import opened Basics
  import opened Lines
  import opened ConsoleMarks
  import opened Utf8

  /** A Go slice: a window on a backing array that runs on to the array's end. */
  datatype Slice = Slice(arr: array<byte>, lo: nat, hi: nat) {
    ghost predicate Ok() { lo <= hi <= arr.Length }

    ghost function Contents(): Bytes
      requires Ok()
      reads arr
    {
      arr[lo..hi]
    }

    /** The rest of the slice, `s[n:]`. */
    function From(n: nat): Slice { Slice(arr, lo + n, hi) }

    /** The front of the slice, `s[:n]`; it keeps the capacity of the whole. */
    function To(n: nat): Slice { Slice(arr, lo, lo + n) }
  }

  lemma CutSeq<T>(a: seq<T>, lo: nat, hi: nat, n: nat)
    requires lo <= hi <= |a| && n <= hi - lo
    ensures a[lo..hi][..n] == a[lo..lo + n] && a[lo..hi][n..] == a[lo + n..hi]
  {
    assert forall k | 0 <= k < n :: a[lo..hi][..n][k] == a[lo + k];
    assert forall k | 0 <= k < hi - lo - n :: a[lo..hi][n..][k] == a[lo + n + k];
  }

  lemma CutSlice(s: Slice, n: nat)
    requires s.Ok() && n <= s.hi - s.lo
    ensures s.To(n).Contents() == s.Contents()[..n] && s.From(n).Contents() == s.Contents()[n..]
  {
    CutSeq(s.arr[..], s.lo, s.hi, n);
    assert s.Contents() == s.arr[..][s.lo..s.hi];
    assert s.To(n).Contents() == s.arr[..][s.lo..s.lo + n];
    assert s.From(n).Contents() == s.arr[..][s.lo + n..s.hi];
  }

  method IndexNL(b: Slice) returns (r: int)
    requires b.Ok()
    ensures r == FirstByte(b.Contents(), '\n')
  {
    for i := 0 to b.hi - b.lo
      invariant forall k | 0 <= k < i :: b.Contents()[k] != '\n'
    {
      if b.arr[b.lo + i] == '\n' {
        return i;
      }
    }
    return -1;
  }

  method IndexByteStr(s: Bytes, c: byte) returns (r: int)
    ensures r == FirstByte(s, c)
  {
    for i := 0 to |s|
      invariant forall k | 0 <= k < i :: s[k] != c
    {
      if s[i] == c {
        return i;
      }
    }
    return -1;
  }

  method IndexSubstr(b: Slice, s: Bytes) returns (r: int)
    requires b.Ok()
    ensures r == FirstOccurrence(b.Contents(), s)
    ensures r >= 0 ==> r + |s| <= b.hi - b.lo
  {
    var n := b.hi - b.lo;
    if |s| == 0 || n < |s| {
      return -1;
    }
    var i := 0;
    while i + |s| <= n
      invariant 0 <= i
      invariant forall k | 0 <= k < i :: !OccursAt(b.Contents(), s, k)
    {
      var j := 0;
      while j < |s| && b.arr[b.lo + i + j] == s[j]
        invariant 0 <= j <= |s|
        invariant forall k | 0 <= k < j :: b.Contents()[i + k] == s[k]
      {
        j := j + 1;
      }
      if j == |s| {
        assert OccursAt(b.Contents(), s, i);
        return i;
      }
      assert b.Contents()[i..i + |s|][j] == b.Contents()[i + j] != s[j];
      i := i + 1;
    }
    return -1;
  }

  /** The word that ends at a blank, or at the end of the string, is one more field. */
  lemma WordEnds(s: Bytes, start: nat, i: nat)
    requires start < i <= |s| && (i < |s| ==> IsBlank(s[i]))
    requires forall k | start <= k < i :: !IsBlank(s[k])
    ensures Fields(s[start..]) == [s[start..i]] + Fields(s[i..])
  {
    assert s[start..] == s[start..i] + s[i..];
    FieldsTakeWord(s[start..i], s[i..]);
  }

  lemma BlankSkipped(s: Bytes, i: nat)
    requires i < |s| && IsBlank(s[i])
    ensures Fields(s[i..]) == Fields(s[i + 1..])
  {
    assert s[i..][1..] == s[i + 1..];
  }

  /** A rune is a blank exactly when it is the one blank byte; a longer or invalid one has none. */
  lemma RuneIsBlank(s: Bytes, i: nat)
    requires i < |s|
    ensures var c := DecodeRune(s[i..]);
            && i + c.width <= |s|
            && (c.code == ' ' as int || c.code == '\t' as int <==> IsBlank(s[i]))
            && (IsBlank(s[i]) ==> c.width == 1)
            && (!IsBlank(s[i]) ==> forall k | i <= k < i + c.width :: !IsBlank(s[k]))
  {
    var c := DecodeRune(s[i..]);
    assert s[i..][0] == s[i];
    assert forall k | i <= k < i + c.width :: s[k] == s[i..][k - i];
  }

  /** Splits at blanks rune by rune, and still gives what a split byte by byte gives, on valid
      and invalid UTF-8 alike. */
  method SplitFields(s: Bytes) returns (out: seq<Bytes>)
    ensures out == Fields(s)
  {
    out := [];
    var start := -1;
    var i := 0;
    while i < |s|
      invariant 0 <= i <= |s| && -1 <= start < i
      invariant start < 0 ==> Fields(s) == out + Fields(s[i..])
      invariant start >= 0 ==> Fields(s) == out + Fields(s[start..])
      invariant start >= 0 ==> forall k | start <= k < i :: !IsBlank(s[k])
    {
      var c := DecodeRune(s[i..]);
      RuneIsBlank(s, i);
      if c.code == ' ' as int || c.code == '\t' as int {
        BlankSkipped(s, i);
        if start >= 0 {
          WordEnds(s, start, i);
          Reassociate(out, [s[start..i]], Fields(s[i..]));
          out := out + [s[start..i]];
          start := -1;
        }
      } else if start < 0 {
        start := i;
      }
      i := i + c.width;
    }
    assert s[i..] == [];
    if start >= 0 {
      WordEnds(s, start, i);
      assert s[start..i] == s[start..];
      Reassociate(out, [s[start..]], Fields(s[i..]));
      out := out + [s[start..]];
    }
    assert out + [] == out;
  }

  /** The loop over the fields that follow the stage. */
  method CollectPairs(fields: seq<Bytes>) returns (meta: map<Bytes, Bytes>)
    ensures meta == MetaOf(fields)
    ensures forall key :: key in meta <==> exists j | 0 <= j < |fields| :: HasKey(fields[j], key)
    ensures forall key, j | LastWithKey(fields, j, key) :: key in meta && meta[key] == fields[j][|key| + 1..]
  {
    meta := map[];
    for n := 0 to |fields|
      invariant meta == MetaOf(fields[..n])
    {
      var p := fields[n];
      assert fields[..n + 1][..n] == fields[..n];
      var eq := IndexByteStr(p, '=');
      if eq > 0 {
        meta := meta[p[..eq] := p[eq + 1..]];
      }
    }
    assert fields[..|fields|] == fields;
    forall key
      ensures key in meta <==> exists j | 0 <= j < |fields| :: HasKey(fields[j], key)
      ensures forall j | LastWithKey(fields, j, key) :: key in meta && meta[key] == fields[j][|key| + 1..]
    {
      MetaOfIs(fields, key);
    }
  }

  /** What parseNCLMark does with the text after the prefix. */
  method ParseFields(rest: Bytes) returns (stage: Bytes, meta: Option<map<Bytes, Bytes>>, ok: bool)
    ensures MarkOfFields(Fields(rest)) == if ok then Some(Mark(stage, meta)) else None
  {
    var parts := SplitFields(rest);
    if |parts| == 0 {
      return "", None, false;
    }
    stage := parts[0];
    if |parts| > 1 {
      var m := CollectPairs(parts[1..]);
      return stage, Some(m), true;
    }
    return stage, None, true;
  }

  lemma MarkAfterAt(b: Bytes, p: Bytes, at: int)
    requires at == FirstOccurrence(b, p)
    ensures MarkAfter(b, p) == if at < 0 then None else MarkOfFields(Fields(b[at + |p|..]))
  {
  }

  /** The part of parseNCLMark that follows the removal of a carriage return. */
  method ParseAfter(l: Slice, prefix: Bytes) returns (stage: Bytes, meta: Option<map<Bytes, Bytes>>, ok: bool)
    requires l.Ok()
    ensures MarkAfter(l.Contents(), prefix) == if ok then Some(Mark(stage, meta)) else None
  {
    var idx := IndexSubstr(l, prefix);
    MarkAfterAt(l.Contents(), prefix, idx);
    if idx < 0 {
      return "", None, false;
    }
    var rest := l.From(idx + |prefix|);
    CutSlice(l, idx + |prefix|);
    stage, meta, ok := ParseFields(rest.arr[rest.lo..rest.hi]);
  }

  /** Drops a trailing carriage return. */
  method Chomped(line: Slice) returns (l: Slice)
    requires line.Ok()
    ensures l.Ok() && l.arr == line.arr && l.Contents() == Chomp(line.Contents())
  {
    l := line;
    if l.hi > l.lo && l.arr[l.hi - 1] == '\r' {
      l := l.To(l.hi - l.lo - 1);
      CutSlice(line, l.hi - l.lo);
    }
  }

  method ParseNCLMark(line: Slice) returns (stage: Bytes, meta: Option<map<Bytes, Bytes>>, ok: bool)
    requires line.Ok()
    ensures ParseMark(line.Contents()) == if ok then Some(Mark(stage, meta)) else None
  {
    var l := Chomped(line);
    stage, meta, ok := ParseAfter(l, PREFIX);
  }
}
