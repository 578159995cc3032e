/** What the console watcher is meant to find: the marks a guest writes to its console.
    The loops that find them are in ConsoleParser and ConsoleWatcher. */
module ConsoleMarks {
  import opened Basics
  import opened Lines
  import Utf8

  const PREFIX: Bytes := "WEFT_MARK "

  predicate IsBlank(c: byte) { c == ' ' || c == '\t' }

  predicate Blanks(s: Bytes) { forall k | 0 <= k < |s| :: IsBlank(s[k]) }

  predicate BlankFree(s: Bytes) { forall k | 0 <= k < |s| :: !IsBlank(s[k]) }

  predicate OccursAt(b: Bytes, p: Bytes, i: int) {
    0 <= i && i + |p| <= |b| && b[i..i + |p|] == p
  }

  lemma OccursInRest(b: Bytes, p: Bytes, i: int)
    requires b != [] && i >= 1
    ensures OccursAt(b, p, i) <==> OccursAt(b[1..], p, i - 1)
  {
    if i + |p| <= |b| {
      var here, there := b[i..i + |p|], b[1..][i - 1..i - 1 + |p|];
      assert |here| == |there| && forall k | 0 <= k < |p| :: here[k] == b[i + k] == there[k];
      assert here == there;
    }
  }

  /** The first occurrence of `p` in `b`, or -1; the empty pattern occurs nowhere. */
  function FirstOccurrence(b: Bytes, p: Bytes): (r: int)
    ensures r >= 0 ==> OccursAt(b, p, r) && forall k | 0 <= k < r :: !OccursAt(b, p, k)
    ensures r < 0 ==> r == -1 && (p == [] || forall k :: !OccursAt(b, p, k))
  {
    if p == [] || |b| < |p| then -1
    else if OccursAt(b, p, 0) then 0
    else
      assert forall k | k >= 1 :: OccursAt(b, p, k) <==> OccursAt(b[1..], p, k - 1) by {
        forall k | k >= 1
          ensures OccursAt(b, p, k) <==> OccursAt(b[1..], p, k - 1)
        {
          OccursInRest(b, p, k);
        }
      }
      var r := FirstOccurrence(b[1..], p);
      if r < 0 then -1 else r + 1
  }

  /** How many bytes at the front of `s` are not blank. */
  function WordLength(s: Bytes): (n: nat)
    ensures n <= |s| && (n < |s| ==> IsBlank(s[n]))
    ensures forall k | 0 <= k < n :: !IsBlank(s[k])
  {
    if s == [] || IsBlank(s[0]) then 0 else 1 + WordLength(s[1..])
  }

  /** The maximal runs of non-blank bytes, in order. */
  function Fields(s: Bytes): seq<Bytes> {
    if s == [] then []
    else if IsBlank(s[0]) then Fields(s[1..])
    else var n := WordLength(s); [s[..n]] + Fields(s[n..])
  }

  /** Later pairs win; a field with no '=' or with an empty key is skipped. */
  function MetaOf(fields: seq<Bytes>): map<Bytes, Bytes> {
    if fields == [] then map[]
    else
      var m := MetaOf(fields[..|fields| - 1]);
      var p := fields[|fields| - 1];
      var eq := FirstByte(p, '=');
      if eq <= 0 then m else m[p[..eq] := p[eq + 1..]]
  }

  /** A mark carries no map at all when nothing follows the stage. */
  datatype Mark = Mark(stage: Bytes, meta: Option<map<Bytes, Bytes>>)

  function Chomp(line: Bytes): Bytes {
    if |line| > 0 && line[|line| - 1] == '\r' then line[..|line| - 1] else line
  }

  /** The first field is the stage; the rest, if any, are pairs. */
  function MarkOfFields(parts: seq<Bytes>): Option<Mark> {
    if parts == [] then None
    else Some(Mark(parts[0], if |parts| == 1 then None else Some(MetaOf(parts[1..]))))
  }

  /** The mark after the first occurrence of `p` in `l`. */
  function MarkAfter(l: Bytes, p: Bytes): Option<Mark> {
    var at := FirstOccurrence(l, p);
    if at < 0 then None else MarkOfFields(Fields(l[at + |p|..]))
  }

  /** The mark in a line, if the prefix occurs anywhere in it and a stage follows. */
  function ParseMark(line: Bytes): Option<Mark> { MarkAfter(Chomp(line), PREFIX) }

  /** Applies `f` to every element and joins the results. */
  function Collect<A, B>(f: A -> seq<B>, s: seq<A>): seq<B> {
    if s == [] then [] else Collect(f, s[..|s| - 1]) + f(s[|s| - 1])
  }

  lemma {:induction false} CollectAppend<A, B>(f: A -> seq<B>, s: seq<A>, t: seq<A>)
    ensures Collect(f, s + t) == Collect(f, s) + Collect(f, t)
  {
    if t == [] {
      assert s + t == s;
    } else {
      CollectAppend(f, s, t[..|t| - 1]);
      assert (s + t)[..|s + t| - 1] == s + t[..|t| - 1];
    }
  }

  function MarkIn(line: Bytes): seq<Mark> {
    match ParseMark(line) case None => [] case Some(m) => [m]
  }

  /** One-shot parsing: the marks of the newline-terminated lines of a whole log. */
  function Marks(log: Bytes): seq<Mark> { Collect(MarkIn, Complete(log)) }

  /** Parsing can be resumed from the unterminated tail alone. */
  lemma MarksResume(a: Bytes, b: Bytes)
    ensures Marks(a + b) == Marks(a) + Marks(Tail(a) + b)
  {
    SplitResumes(a, b);
    CollectAppend(MarkIn, Complete(a), Complete(Tail(a) + b));
  }

  // -- Fields are exactly the words between blanks -------------------------------------------

  datatype Piece = Piece(gap: Bytes, word: Bytes)

  function Layout(ps: seq<Piece>, trail: Bytes): Bytes {
    if ps == [] then trail else ps[0].gap + (ps[0].word + Layout(ps[1..], trail))
  }

  /** Words are non-empty and blank-free, gaps and trail are blanks, and only the first gap may
      be empty. */
  predicate WellSpaced(ps: seq<Piece>, trail: Bytes) {
    && Blanks(trail)
    && (forall k | 0 <= k < |ps| :: Blanks(ps[k].gap) && ps[k].word != [] && BlankFree(ps[k].word))
    && (forall k | 1 <= k < |ps| :: ps[k].gap != [])
  }

  function Words(ps: seq<Piece>): seq<Bytes> { seq(|ps|, k requires 0 <= k < |ps| => ps[k].word) }

  lemma {:induction false} FieldsSkipBlanks(gap: Bytes, s: Bytes)
    requires Blanks(gap)
    ensures Fields(gap + s) == Fields(s)
  {
    if gap == [] {
      assert gap + s == s;
    } else {
      assert (gap + s)[1..] == gap[1..] + s;
      FieldsSkipBlanks(gap[1..], s);
    }
  }

  lemma FieldsTakeWord(word: Bytes, s: Bytes)
    requires word != [] && BlankFree(word) && (s == [] || IsBlank(s[0]))
    ensures Fields(word + s) == [word] + Fields(s)
  {
    var all := word + s;
    assert all[..|word|] == word && all[|word|..] == s;
    assert forall k | 0 <= k < |word| :: all[k] == word[k];
    assert s != [] ==> all[|word|] == s[0];
    assert WordLength(all) == |word|;
  }

  /** Splitting a well-spaced line gives back its words. */
  lemma {:induction false} FieldsOfLayout(ps: seq<Piece>, trail: Bytes)
    requires WellSpaced(ps, trail)
    ensures Fields(Layout(ps, trail)) == Words(ps)
  {
    if ps == [] {
      FieldsSkipBlanks(trail, []);
      assert trail + [] == trail;
    } else {
      var rest := Layout(ps[1..], trail);
      assert rest == [] || IsBlank(rest[0]) by {
        assert |ps| > 1 ==> ps[1..][0] == ps[1];
      }
      FieldsSkipBlanks(ps[0].gap, ps[0].word + rest);
      FieldsTakeWord(ps[0].word, rest);
      FieldsOfLayout(ps[1..], trail);
      assert Words(ps) == [ps[0].word] + Words(ps[1..]);
    }
  }

  /** Every byte string is a well-spaced line, so FieldsOfLayout says what Fields is everywhere. */
  lemma {:induction false} EveryStringIsALayout(s: Bytes) returns (ps: seq<Piece>, trail: Bytes)
    ensures WellSpaced(ps, trail) && Layout(ps, trail) == s
    ensures s != [] && IsBlank(s[0]) && ps != [] ==> ps[0].gap != []
  {
    if s == [] {
      ps, trail := [], [];
    } else if IsBlank(s[0]) {
      ps, trail := EveryStringIsALayout(s[1..]);
      if ps == [] {
        trail := s;
      } else {
        var first := Piece([s[0]] + ps[0].gap, ps[0].word);
        var rest := ps[1..];
        ps := [first] + rest;
        assert ps[1..] == rest;
      }
    } else {
      var n := WordLength(s);
      var rest;
      rest, trail := EveryStringIsALayout(s[n..]);
      ps := [Piece([], s[..n])] + rest;
      assert ps[1..] == rest;
      assert s == s[..n] + s[n..];
    }
  }

  /** What is left of `s` without spaces and tabs. */
  function Unspaced(s: Bytes): Bytes {
    if s == [] then []
    else (if s[0] as int == 32 || s[0] as int == 9 then [] else [s[0]]) + Unspaced(s[1..])
  }

  lemma {:induction false} UnspacedJoin(a: Bytes, b: Bytes)
    ensures Unspaced(a + b) == Unspaced(a) + Unspaced(b)
  {
    if a == [] {
      assert a + b == b;
    } else {
      assert (a + b)[1..] == a[1..] + b;
      UnspacedJoin(a[1..], b);
    }
  }

  lemma {:induction false} UnspacedWord(word: Bytes)
    requires forall k | 0 <= k < |word| :: word[k] as int != 32 && word[k] as int != 9
    ensures Unspaced(word) == word
  {
    if word != [] {
      UnspacedWord(word[1..]);
      assert word == [word[0]] + word[1..];
    }
  }

  lemma {:induction false} JoinedCons(first: Bytes, rest: seq<Bytes>)
    ensures Joined([first] + rest) == first + Joined(rest)
  {
    var all := [first] + rest;
    if rest == [] {
      assert all[..0] == [];
    } else {
      var n := |rest| - 1;
      JoinedCons(first, rest[..n]);
      assert all[..|all| - 1] == [first] + rest[..n];
      Reassociate(first, Joined(rest[..n]), rest[n]);
    }
  }

  /** Spaces and tabs separate fields and nothing else does: no field holds one or is empty, and the
      fields put together are the string without them. */
  lemma {:induction false} FieldsAreUnspaced(s: Bytes)
    ensures forall f | f in Fields(s) :: f != [] && ' ' !in f && '\t' !in f
    ensures Joined(Fields(s)) == Unspaced(s)
    decreases |s|
  {
    if s != [] {
      if IsBlank(s[0]) {
        FieldsAreUnspaced(s[1..]);
      } else {
        var n := WordLength(s);
        FieldsAreUnspaced(s[n..]);
        assert s == s[..n] + s[n..] && forall k | 0 <= k < n :: s[..n][k] == s[k] && !IsBlank(s[k]);
        UnspacedJoin(s[..n], s[n..]);
        UnspacedWord(s[..n]);
        JoinedCons(s[..n], Fields(s[n..]));
      }
    }
  }

  // -- Printing a mark and parsing it back ---------------------------------------------------

  /** One ` key=val` of a printed mark. */
  datatype Item = Item(gap: Bytes, key: Bytes, val: Bytes)

  predicate GoodItem(i: Item) {
    && i.gap != [] && Blanks(i.gap)
    && i.key != [] && BlankFree(i.key) && '=' !in i.key
    && BlankFree(i.val)
  }

  function PieceOf(i: Item): Piece { Piece(i.gap, i.key + "=" + i.val) }

  function Pieces(items: seq<Item>): seq<Piece> {
    seq(|items|, k requires 0 <= k < |items| => PieceOf(items[k]))
  }

  /** What the last pair with each key says. */
  function LastWins(items: seq<Item>): map<Bytes, Bytes> {
    if items == [] then map[]
    else LastWins(items[..|items| - 1])[items[|items| - 1].key := items[|items| - 1].val]
  }

  lemma {:induction false} LastWinsIsLast(items: seq<Item>, k: nat)
    requires k < |items| && forall j | k < j < |items| :: items[j].key != items[k].key
    ensures items[k].key in LastWins(items) && LastWins(items)[items[k].key] == items[k].val
  {
    if k < |items| - 1 {
      LastWinsIsLast(items[..|items| - 1], k);
    }
  }

  lemma {:induction false} LastWinsKeys(items: seq<Item>)
    ensures forall key | key in LastWins(items) :: exists j | 0 <= j < |items| :: items[j].key == key
  {
    if items != [] {
      var front := items[..|items| - 1];
      LastWinsKeys(front);
      forall key | key in LastWins(items)
        ensures exists j | 0 <= j < |items| :: items[j].key == key
      {
        if key != items[|front|].key {
          assert key in LastWins(front);
          var j :| 0 <= j < |front| && front[j].key == key;
          assert items[j].key == key;
        }
      }
    }
  }

  /** A printed pair splits at its '='. */
  lemma ItemSplits(i: Item, field: Bytes)
    requires GoodItem(i) && field == i.key + "=" + i.val
    ensures FirstByte(field, '=') == |i.key| > 0 && field[..|i.key|] == i.key && field[|i.key| + 1..] == i.val
  {
    assert field[|i.key|] == '=' && forall k | 0 <= k < |i.key| :: field[k] == i.key[k];
  }

  lemma {:induction false} MetaOfItems(items: seq<Item>)
    requires forall k | 0 <= k < |items| :: GoodItem(items[k])
    ensures MetaOf(Words(Pieces(items))) == LastWins(items)
  {
    if items != [] {
      var n := |items| - 1;
      var fields := Words(Pieces(items));
      MetaOfItems(items[..n]);
      assert fields[..n] == Words(Pieces(items[..n]));
      ItemSplits(items[n], fields[n]);
    }
  }

  /** The body of a printed mark: a stage and its pairs, with any blanks between them. */
  function PrintBody(lead: Bytes, stage: Bytes, items: seq<Item>, trail: Bytes): Bytes {
    Layout([Piece(lead, stage)] + Pieces(items), trail)
  }

  function PrintMark(noise: Bytes, body: Bytes, cr: bool): Bytes {
    noise + PREFIX + body + (if cr then "\r" else "")
  }

  /** Printing the prefix adds no earlier occurrence: its first letter occurs in it only once, so
      it can neither overlap itself nor straddle its own start. */
  lemma NoEarlierOccurrence(noise: Bytes, body: Bytes, j: nat)
    requires j < |noise| && !OccursAt(noise, PREFIX, j)
    ensures !OccursAt(noise + PREFIX + body, PREFIX, j)
  {
    var s := noise + PREFIX + body;
    assert s[|noise|] == 'W';
    if j + |PREFIX| <= |noise| {
      assert noise[j..j + |PREFIX|] == s[j..j + |PREFIX|];
    } else {
      var d := |noise| - j;
      assert PREFIX[d] != 'W';
      assert s[j..j + |PREFIX|][d] == s[|noise|];
    }
  }

  /** The prefix is found where it was printed exactly when the noise before it is free of it. */
  lemma PrefixFoundWherePrinted(noise: Bytes, body: Bytes)
    ensures FirstOccurrence(noise + PREFIX + body, PREFIX) == |noise|
            <==> forall k :: !OccursAt(noise, PREFIX, k)
  {
    var s := noise + PREFIX + body;
    assert s[|noise|..|noise| + |PREFIX|] == PREFIX;
    assert OccursAt(s, PREFIX, |noise|);
    if k :| OccursAt(noise, PREFIX, k) {
      assert s[k..k + |PREFIX|] == noise[k..k + |PREFIX|];
      assert OccursAt(s, PREFIX, k);
    } else {
      forall j | 0 <= j < |noise|
        ensures !OccursAt(s, PREFIX, j)
      {
        NoEarlierOccurrence(noise, body, j);
      }
    }
  }

  /** The text of a printed mark. */
  lemma PrintedText(noise: Bytes, body: Bytes)
    ensures PrintMark(noise, body, false) == noise + "WEFT_MARK " + body
    ensures PrintMark(noise, body, true) == noise + "WEFT_MARK " + body + [13 as char]
  {
  }

  lemma ChompPrinted(noise: Bytes, body: Bytes, cr: bool)
    requires cr || body == [] || body[|body| - 1] != '\r'
    ensures Chomp(PrintMark(noise, body, cr)) == noise + PREFIX + body
  {
    var line := noise + PREFIX + body;
    assert line[|line| - 1] == if body == [] then ' ' else body[|body| - 1];
    assert PrintMark(noise, body, cr) == line + (if cr then "\r" else "");
  }

  lemma MarkIsWellSpaced(lead: Bytes, stage: Bytes, items: seq<Item>, trail: Bytes)
    requires Blanks(lead) && stage != [] && BlankFree(stage) && Blanks(trail)
    requires forall k | 0 <= k < |items| :: GoodItem(items[k])
    ensures WellSpaced([Piece(lead, stage)] + Pieces(items), trail)
  {
    var ps := [Piece(lead, stage)] + Pieces(items);
    forall k | 1 <= k < |ps|
      ensures ps[k] == PieceOf(items[k - 1]) && BlankFree(ps[k].word)
    {
    }
  }

  lemma WordsOfMark(lead: Bytes, stage: Bytes, items: seq<Item>)
    ensures Words([Piece(lead, stage)] + Pieces(items)) == [stage] + Words(Pieces(items))
  {
  }

  lemma MarkOfWords(parts: seq<Bytes>, stage: Bytes, items: seq<Item>)
    requires forall k | 0 <= k < |items| :: GoodItem(items[k])
    requires parts == [stage] + Words(Pieces(items))
    ensures MarkOfFields(parts)
            == Some(Mark(stage, if items == [] then None else Some(LastWins(items))))
  {
    assert parts[1..] == Words(Pieces(items));
    MetaOfItems(items);
  }

  lemma MarkOfPrintedBody(lead: Bytes, stage: Bytes, items: seq<Item>, trail: Bytes)
    requires Blanks(lead) && stage != [] && BlankFree(stage) && Blanks(trail)
    requires forall k | 0 <= k < |items| :: GoodItem(items[k])
    ensures MarkOfFields(Fields(PrintBody(lead, stage, items, trail)))
            == Some(Mark(stage, if items == [] then None else Some(LastWins(items))))
  {
    var ps := [Piece(lead, stage)] + Pieces(items);
    MarkIsWellSpaced(lead, stage, items, trail);
    FieldsOfLayout(ps, trail);
    WordsOfMark(lead, stage, items);
    MarkOfWords(Fields(Layout(ps, trail)), stage, items);
  }

  /** A printed mark is parsed back, after any noise free of the prefix, with any blanks between
      the fields and with one optional trailing carriage return. */
  lemma ParsePrintedMark(noise: Bytes, lead: Bytes, stage: Bytes, items: seq<Item>, trail: Bytes, cr: bool)
    requires forall k :: !OccursAt(noise, PREFIX, k)
    requires Blanks(lead) && stage != [] && BlankFree(stage) && Blanks(trail)
    requires forall k | 0 <= k < |items| :: GoodItem(items[k])
    requires var body := PrintBody(lead, stage, items, trail);
             cr || body == [] || body[|body| - 1] != '\r'
    ensures ParseMark(PrintMark(noise, PrintBody(lead, stage, items, trail), cr))
            == Some(Mark(stage, if items == [] then None else Some(LastWins(items))))
  {
    var body := PrintBody(lead, stage, items, trail);
    ChompPrinted(noise, body, cr);
    PrefixFoundWherePrinted(noise, body);
    assert (noise + PREFIX + body)[|noise| + |PREFIX|..] == body;
    MarkOfPrintedBody(lead, stage, items, trail);
  }

  // -- Any line at all -----------------------------------------------------------------------

  /** The field starts with this key and an '='. */
  predicate HasKey(field: Bytes, key: Bytes) {
    key != [] && '=' !in key && |key| < |field| && field[..|key|] == key && field[|key|] == '='
  }

  lemma KeyEndsAtFirst(field: Bytes, key: Bytes)
    ensures HasKey(field, key) <==> FirstByte(field, '=') == |key| > 0 && field[..|key|] == key
  {
    var eq := FirstByte(field, '=');
    assert HasKey(field, key) ==> forall k | 0 <= k < |key| :: field[k] == key[k] != '=';
    assert eq >= 0 ==> forall k | 0 <= k < eq :: field[..eq][k] == field[k];
  }

  /** No later field has the key. */
  predicate LastWithKey(fields: seq<Bytes>, j: int, key: Bytes) {
    && 0 <= j < |fields| && HasKey(fields[j], key)
    && forall i | j < i < |fields| :: !HasKey(fields[i], key)
  }

  lemma OneMoreField(front: seq<Bytes>, p: Bytes, key: Bytes)
    ensures var m, all := MetaOf(front), MetaOf(front + [p]);
            if HasKey(p, key) then key in all && all[key] == p[|key| + 1..]
            else (key in all <==> key in m) && (key in m ==> all[key] == m[key])
  {
    KeyEndsAtFirst(p, key);
    assert (front + [p])[..|front|] == front;
    if FirstByte(p, '=') > 0 { KeyEndsAtFirst(p, p[..FirstByte(p, '=')]); }
  }

  lemma {:induction false} KeysOfMeta(fields: seq<Bytes>, key: Bytes)
    ensures key in MetaOf(fields) <==> exists j | 0 <= j < |fields| :: HasKey(fields[j], key)
  {
    if fields != [] {
      var n := |fields| - 1;
      KeysOfMeta(fields[..n], key);
      OneMoreField(fields[..n], fields[n], key);
      assert fields == fields[..n] + [fields[n]];
    }
  }

  lemma {:induction false} ValueOfMeta(fields: seq<Bytes>, key: Bytes, j: int)
    requires LastWithKey(fields, j, key)
    ensures key in MetaOf(fields) && MetaOf(fields)[key] == fields[j][|key| + 1..]
  {
    var n := |fields| - 1;
    OneMoreField(fields[..n], fields[n], key);
    assert fields == fields[..n] + [fields[n]];
    if j < n { ValueOfMeta(fields[..n], key, j); }
  }

  /** Whatever the fields are, the map has the keys of those that are a non-empty key, an '=' and a
      value, each with the value of the last such field; every other field leaves no trace. */
  lemma MetaOfIs(fields: seq<Bytes>, key: Bytes)
    ensures key in MetaOf(fields) <==> exists j | 0 <= j < |fields| :: HasKey(fields[j], key)
    ensures forall j | LastWithKey(fields, j, key) ::
              key in MetaOf(fields) && MetaOf(fields)[key] == fields[j][|key| + 1..]
  {
    KeysOfMeta(fields, key);
    forall j | LastWithKey(fields, j, key)
      ensures key in MetaOf(fields) && MetaOf(fields)[key] == fields[j][|key| + 1..]
    {
      ValueOfMeta(fields, key, j);
    }
  }

  /** What is read from any line with the prefix: no mark if only blanks follow it, and otherwise the
      first word and the pairs among the others. */
  lemma ParseAnyMark(noise: Bytes, ps: seq<Piece>, trail: Bytes, cr: bool)
    requires forall k :: !OccursAt(noise, PREFIX, k)
    requires WellSpaced(ps, trail)
    requires var body := Layout(ps, trail); cr || body == [] || body[|body| - 1] != '\r'
    ensures ParseMark(PrintMark(noise, Layout(ps, trail), cr))
            == if ps == [] then None
               else Some(Mark(ps[0].word, if |ps| == 1 then None else Some(MetaOf(Words(ps)[1..]))))
  {
    var body := Layout(ps, trail);
    ChompPrinted(noise, body, cr);
    PrefixFoundWherePrinted(noise, body);
    assert (noise + PREFIX + body)[|noise| + |PREFIX|..] == body;
    FieldsOfLayout(ps, trail);
  }

  lemma CutAtFirst(l: Bytes, p: Bytes, at: nat)
    requires p != [] && OccursAt(l, p, at) && forall k | 0 <= k < at :: !OccursAt(l, p, k)
    ensures l == l[..at] + p + l[at + |p|..]
    ensures forall k :: !OccursAt(l[..at], p, k)
  {
    forall k
      ensures !OccursAt(l[..at], p, k)
    {
      if OccursAt(l[..at], p, k) {
        assert l[k..k + |p|] == l[..at][k..k + |p|];
        assert OccursAt(l, p, k);
      }
    }
  }

  lemma ChompBack(line: Bytes)
    ensures line == Chomp(line) + (if |Chomp(line)| < |line| then "\r" else "")
    ensures |Chomp(line)| == |line| > 0 ==> line[|line| - 1] != '\r'
  {
    if |Chomp(line)| == |line| { assert Chomp(line) + "" == line; }
  }

  /** Every line has one of the two forms: without the prefix, when it is no mark, or with it. */
  lemma EveryLineIsPrinted(line: Bytes) returns (noise: Bytes, ps: seq<Piece>, trail: Bytes, cr: bool)
    ensures (forall k :: !OccursAt(Chomp(line), PREFIX, k)) ==> ParseMark(line).None?
    ensures (exists k :: OccursAt(Chomp(line), PREFIX, k)) ==>
              && line == PrintMark(noise, Layout(ps, trail), cr)
              && WellSpaced(ps, trail) && (forall k :: !OccursAt(noise, PREFIX, k))
              && line != [] && (cr || line[|line| - 1] != '\r')
  {
    var l := Chomp(line);
    var at := FirstOccurrence(l, PREFIX);
    noise, ps, trail, cr := [], [], [], |l| < |line|;
    if at >= 0 {
      CutAtFirst(l, PREFIX, at);
      noise := l[..at];
      ps, trail := EveryStringIsALayout(l[at + |PREFIX|..]);
      ChompBack(line);
    }
  }

  // -- Marks of valid UTF-8 are valid UTF-8 --------------------------------------------------

  predicate ValidMark(m: Mark) {
    && Utf8.Valid(m.stage)
    && (m.meta.Some? ==> forall k | k in m.meta.value :: Utf8.Valid(k) && Utf8.Valid(m.meta.value[k]))
  }

  lemma ValidCut(s: Bytes, i: nat)
    requires Utf8.Valid(s) && i <= |s| && (i < |s| ==> s[i] as int < 0x80)
    ensures Utf8.Valid(s[..i]) && Utf8.Valid(s[i..])
    ensures i < |s| ==> Utf8.Valid(s[i + 1..])
  {
    assert s == s[..i] + s[i..];
    Utf8.ValidSplitsAtAscii(s[..i], s[i..]);
    assert i < |s| ==> s[i..][1..] == s[i + 1..];
  }

  lemma {:induction false} ValidFields(s: Bytes)
    requires Utf8.Valid(s)
    ensures forall k | 0 <= k < |Fields(s)| :: Utf8.Valid(Fields(s)[k])
  {
    if s != [] {
      if IsBlank(s[0]) {
        ValidCut(s, 0);
        ValidFields(s[1..]);
      } else {
        ValidCut(s, WordLength(s));
        ValidFields(s[WordLength(s)..]);
      }
    }
  }

  lemma {:induction false} ValidMeta(fields: seq<Bytes>)
    requires forall k | 0 <= k < |fields| :: Utf8.Valid(fields[k])
    ensures forall k | k in MetaOf(fields) :: Utf8.Valid(k) && Utf8.Valid(MetaOf(fields)[k])
  {
    if fields != [] {
      var p := fields[|fields| - 1];
      ValidMeta(fields[..|fields| - 1]);
      var eq := FirstByte(p, '=');
      if eq > 0 { ValidCut(p, eq); }
    }
  }

  lemma ValidMarkOfFields(parts: seq<Bytes>)
    requires forall k | 0 <= k < |parts| :: Utf8.Valid(parts[k])
    requires parts != []
    ensures ValidMark(MarkOfFields(parts).value)
  {
    ValidMeta(parts[1..]);
  }

  lemma ValidAfterOccurrence(l: Bytes, p: Bytes, at: nat)
    requires p != [] && (forall k | 0 <= k < |p| :: p[k] as int < 0x80)
    requires Utf8.Valid(l) && OccursAt(l, p, at)
    ensures Utf8.Valid(l[at + |p|..])
  {
    assert l[at..at + |p|][0] == l[at];
    ValidCut(l, at);
    assert l[at..] == p + l[at + |p|..];
    Utf8.ValidAfterAscii(p, l[at + |p|..]);
  }

  lemma ValidChomp(line: Bytes)
    requires Utf8.Valid(line)
    ensures Utf8.Valid(Chomp(line))
  {
    if Chomp(line) != line {
      ValidCut(line, |line| - 1);
    }
  }

  lemma ValidMarkAfter(l: Bytes, at: nat)
    requires Utf8.Valid(l) && OccursAt(l, PREFIX, at) && MarkOfFields(Fields(l[at + |PREFIX|..])).Some?
    ensures ValidMark(MarkOfFields(Fields(l[at + |PREFIX|..])).value)
  {
    ValidAfterOccurrence(l, PREFIX, at);
    ValidFields(l[at + |PREFIX|..]);
    ValidMarkOfFields(Fields(l[at + |PREFIX|..]));
  }

  /** A line of valid UTF-8 yields a stage, keys and values of valid UTF-8. */
  lemma ValidLineGivesValidMark(line: Bytes)
    requires Utf8.Valid(line) && ParseMark(line).Some?
    ensures ValidMark(ParseMark(line).value)
  {
    ValidChomp(line);
    ValidMarkAfter(Chomp(line), FirstOccurrence(Chomp(line), PREFIX));
  }
}
