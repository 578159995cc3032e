/** timings.jsonl: one event record, and the file that goroutines and processes share. */
module TimingLog {
  import opened Basics
  import opened Json
  import Utf8
  import Decimal
  import Lines

  // -- Map keys in the order encoding/json writes them ---------------------------------------

  predicate LexLe(a: Bytes, b: Bytes) {
    a == [] || (b != [] && (a[0] < b[0] || (a[0] == b[0] && LexLe(a[1..], b[1..]))))
  }

  lemma {:induction false} LexTotal(a: Bytes, b: Bytes)
    ensures LexLe(a, b) || LexLe(b, a)
    ensures LexLe(a, b) && LexLe(b, a) ==> a == b
  {
    if a != [] && b != [] && a[0] == b[0] {
      LexTotal(a[1..], b[1..]);
      assert a == a[..1] + a[1..] && b == b[..1] + b[1..];
    }
  }

  lemma {:induction false} LexTransitive(a: Bytes, b: Bytes, c: Bytes)
    requires LexLe(a, b) && LexLe(b, c)
    ensures LexLe(a, c)
  {
    if a != [] && a[0] == b[0] && b[0] == c[0] {
      LexTransitive(a[1..], b[1..], c[1..]);
    }
  }

  /** The two strings agree up to `k`, where `a` has the smaller byte. */
  predicate LessAt(a: Bytes, b: Bytes, k: nat) {
    k < |a| && k < |b| && a[..k] == b[..k] && a[k] as int < b[k] as int
  }

  lemma LessInRest(a: Bytes, b: Bytes, k: nat)
    requires a != [] && b != [] && a[0] == b[0]
    ensures LessAt(a, b, k + 1) <==> LessAt(a[1..], b[1..], k)
  {
    if k + 1 < |a| && k + 1 < |b| {
      assert a[..k + 1] == [a[0]] + a[1..][..k] && b[..k + 1] == [b[0]] + b[1..][..k];
      assert a[..k + 1] == b[..k + 1] <==> a[1..][..k] == b[1..][..k] by {
        assert a[..k + 1][1..] == a[1..][..k] && b[..k + 1][1..] == b[1..][..k];
      }
    }
  }

  ghost predicate Before(a: Bytes, b: Bytes) { a <= b || exists k: nat :: LessAt(a, b, k) }

  lemma BeforeCons(a: Bytes, b: Bytes)
    requires a != [] && b != [] && a[0] == b[0]
    ensures Before(a, b) <==> Before(a[1..], b[1..])
  {
    assert a == [a[0]] + a[1..] && b == [b[0]] + b[1..];
    forall k: nat
      ensures LessAt(a, b, k + 1) <==> LessAt(a[1..], b[1..], k)
    {
      LessInRest(a, b, k);
    }
    if k: nat :| LessAt(a, b, k) {
      LessInRest(a, b, k - 1);
    }
  }

  lemma SameHead(a: Bytes, b: Bytes, k: nat)
    requires k > 0 && LessAt(a, b, k)
    ensures a[0] == b[0]
  {
    assert a[..k][0] == b[..k][0];
  }

  lemma BeforeByHead(a: Bytes, b: Bytes)
    requires a == [] || b == [] || a[0] != b[0]
    ensures Before(a, b) <==> a == [] || (b != [] && a[0] as int < b[0] as int)
  {
    if a != [] && b != [] {
      assert a[0] as int < b[0] as int ==> LessAt(a, b, 0);
      if k: nat :| LessAt(a, b, k) {
        if k > 0 { SameHead(a, b, k); }
      }
    }
  }

  /** Byte order: one string comes before another that it begins, or that has the larger byte where
      they first differ. */
  lemma {:induction false} LexLeIs(a: Bytes, b: Bytes)
    ensures LexLe(a, b) <==> a <= b || exists k: nat :: LessAt(a, b, k)
  {
    if a != [] && b != [] && a[0] == b[0] {
      LexLeIs(a[1..], b[1..]);
      BeforeCons(a, b);
    } else {
      BeforeByHead(a, b);
    }
    assert Before(a, b) <==> a <= b || exists k: nat :: LessAt(a, b, k);
  }

  predicate IsFirst(k: Bytes, keys: set<Bytes>) {
    k in keys && forall j | j in keys :: LexLe(k, j)
  }

  lemma FirstUnique(keys: set<Bytes>, j: Bytes, k: Bytes)
    requires IsFirst(j, keys) && IsFirst(k, keys)
    ensures j == k
  {
    LexTotal(j, k);
  }

  lemma {:induction false} FirstExists(keys: set<Bytes>) returns (k: Bytes)
    requires keys != {}
    ensures IsFirst(k, keys)
    decreases |keys|
  {
    k :| k in keys;
    var rest := keys - {k};
    LexTotal(k, k);
    if rest != {} {
      var m := FirstExists(rest);
      LexTotal(k, m);
      if !LexLe(k, m) {
        k := m;
      } else {
        forall j | j in rest
          ensures LexLe(k, j)
        {
          LexTransitive(k, m, j);
        }
      }
    }
  }

  function First(keys: set<Bytes>): (k: Bytes)
    requires keys != {}
    ensures IsFirst(k, keys)
  {
    assert exists k :: IsFirst(k, keys) by {
      var k := FirstExists(keys);
    }
    assert forall j, k | IsFirst(j, keys) && IsFirst(k, keys) :: j == k by {
      forall j, k | IsFirst(j, keys) && IsFirst(k, keys)
        ensures j == k
      {
        FirstUnique(keys, j, k);
      }
    }
    var k :| k in keys && IsFirst(k, keys);
    k
  }

  // -- One record ----------------------------------------------------------------------------

  datatype TimingEvent = TimingEvent(name: Bytes, ts: int, meta: Option<map<Bytes, Bytes>>)

  /** What a reader of the log gets; an absent map and an empty one look the same. */
  datatype Decoded = Decoded(name: Bytes, ts: int, meta: map<Bytes, Bytes>)

  function Pairs(e: TimingEvent): map<Bytes, Bytes> { if e.meta.Some? then e.meta.value else map[] }

  function MetaMembers(m: map<Bytes, Bytes>): Members
    decreases |m|
  {
    if m == map[] then Empty
    else
      var k := First(m.Keys);
      assert |m - {k}| < |m| by { assert (m - {k}).Keys == m.Keys - {k}; assert |m.Keys - {k}| < |m.Keys|; }
      Member(k, Str(m[k]), MetaMembers(m - {k}))
  }

  predicate Ascending(ms: Members) {
    ms.Member? && ms.tail.Member? ==> ms.key != ms.tail.key && LexLe(ms.key, ms.tail.key) && Ascending(ms.tail)
  }

  /** Map keys are written in strictly ascending byte order. */
  lemma {:induction false} MetaIsAscending(m: map<Bytes, Bytes>)
    ensures Ascending(MetaMembers(m))
    decreases |m|
  {
    if m != map[] {
      var k := First(m.Keys);
      var rest := m - {k};
      assert rest.Keys == m.Keys - {k} && |m.Keys - {k}| < |m.Keys|;
      MetaIsAscending(rest);
      if rest != map[] {
        assert First(rest.Keys) in m.Keys;
      }
    }
  }

  const NAME: Bytes := "name"
  const TS: Bytes := "ts_unix_ns"
  const META: Bytes := "meta"

  function Fields(k1: Bytes, k2: Bytes, k3: Bytes, name: Bytes, ts: int, meta: Members): Members {
    Member(k1, Str(name), Member(k2, Num(ts), if meta.Empty? then Empty else Member(k3, Obj(meta), Empty)))
  }

  /** The record's fields in order; a nil or empty map is omitted. */
  function Record(name: Bytes, ts: int, meta: Members): Json { Obj(Fields(NAME, TS, META, name, ts, meta)) }

  function EventJson(e: TimingEvent): Json { Record(e.name, e.ts, MetaMembers(Pairs(e))) }

  /** json.Marshal of the record. */
  function EncodeEvent(e: TimingEvent): Bytes { Render(EventJson(e)) }

  /** The last member with this key, as a struct decoder keeps it. */
  function Lookup(ms: Members, key: Bytes): Option<Json> {
    match ms
    case Empty => None
    case Member(k, v, tail) =>
      var later := Lookup(tail, key);
      if later.Some? then later else if k == key then Some(v) else None
  }

  function StringMap(ms: Members): Option<map<Bytes, Bytes>> {
    match ms
    case Empty => Some(map[])
    case Member(k, Str(v), tail) =>
      (match StringMap(tail)
       case None => None
       case Some(m) => Some(if k in m then m else m[k := v]))
    case _ => None
  }

  function DecodeRecord(v: Json): Option<Decoded> {
    if !v.Obj? then None
    else
      match (Lookup(v.members, NAME), Lookup(v.members, TS), Lookup(v.members, META))
      case (Some(Str(n)), Some(Num(t)), None) => Some(Decoded(n, t, map[]))
      case (Some(Str(n)), Some(Num(t)), Some(Obj(mm))) =>
        (match StringMap(mm) case None => None case Some(m) => Some(Decoded(n, t, m)))
      case _ => None
  }

  function DecodeEvent(line: Bytes): Option<Decoded> {
    match ParseValue(line)
    case Got(v, rest) => if rest != [] then None else DecodeRecord(v)
    case Fail => None
  }

  predicate ValidMap(m: map<Bytes, Bytes>) {
    forall k | k in m :: Utf8.Valid(k) && Utf8.Valid(m[k])
  }

  lemma {:induction false} ValidMapIsSeen(m: map<Bytes, Bytes>)
    requires ValidMap(m)
    ensures StringMap(SeenMembers(MetaMembers(m))) == Some(m)
    decreases |m|
  {
    if m != map[] {
      var k := First(m.Keys);
      var rest := m - {k};
      assert rest.Keys == m.Keys - {k} && |m.Keys - {k}| < |m.Keys|;
      ValidMapIsSeen(rest);
      Utf8.SanitizeFixesOnlyValid(k);
      Utf8.SanitizeFixesOnlyValid(m[k]);
      assert rest[k := m[k]] == m;
    }
  }

  lemma {:induction false} SeenMapIsValid(ms: Members)
    requires StringMap(SeenMembers(ms)).Some?
    ensures ValidMap(StringMap(SeenMembers(ms)).value)
  {
    if ms.Member? {
      SeenMapIsValid(ms.tail);
      Utf8.SanitizeIsValid(ms.key);
      Utf8.SanitizeIsValid(ms.val.s);
    }
  }

  lemma {:induction false} SeenMapExists(m: map<Bytes, Bytes>)
    ensures StringMap(SeenMembers(MetaMembers(m))).Some?
    decreases |m|
  {
    if m != map[] {
      var k := First(m.Keys);
      assert (m - {k}).Keys == m.Keys - {k} && |m.Keys - {k}| < |m.Keys|;
      SeenMapExists(m - {k});
    }
  }

  lemma SeenFields(k1: Bytes, k2: Bytes, k3: Bytes, name: Bytes, ts: int, meta: Members)
    requires Utf8.IsAscii(k1) && Utf8.IsAscii(k2) && Utf8.IsAscii(k3)
    ensures SeenMembers(Fields(k1, k2, k3, name, ts, meta))
            == Fields(k1, k2, k3, Utf8.Sanitize(name), ts, SeenMembers(meta))
  {
    Utf8.AsciiIsValid(k1);
    Utf8.AsciiIsValid(k2);
    Utf8.AsciiIsValid(k3);
    var last := if meta.Empty? then Empty else Member(k3, Obj(meta), Empty);
    assert SeenMembers(last) == if meta.Empty? then Empty else Member(k3, Obj(SeenMembers(meta)), Empty);
    assert SeenMembers(Member(k2, Num(ts), last)) == Member(k2, Num(ts), SeenMembers(last));
  }

  lemma LookupFields(k1: Bytes, k2: Bytes, k3: Bytes, name: Bytes, ts: int, meta: Members)
    requires k1 != k2 && k2 != k3 && k1 != k3
    ensures var ms := Fields(k1, k2, k3, name, ts, meta);
            && Lookup(ms, k1) == Some(Str(name)) && Lookup(ms, k2) == Some(Num(ts))
            && Lookup(ms, k3) == if meta.Empty? then None else Some(Obj(meta))
  {
    var last := if meta.Empty? then Empty else Member(k3, Obj(meta), Empty);
    var mid := Member(k2, Num(ts), last);
    assert Lookup(last, k1) == None && Lookup(last, k2) == None;
    assert Lookup(last, k3) == if meta.Empty? then None else Some(Obj(meta));
    assert Lookup(mid, k1) == None && Lookup(mid, k2) == Some(Num(ts)) && Lookup(mid, k3) == Lookup(last, k3);
  }

  lemma DecodedRecord(name: Bytes, ts: int, meta: Members)
    requires StringMap(meta).Some?
    ensures DecodeRecord(Record(name, ts, meta)) == Some(Decoded(name, ts, StringMap(meta).value))
  {
    assert NAME[0] != TS[0] && TS[0] != META[0] && NAME[0] != META[0];
    LookupFields(NAME, TS, META, name, ts, meta);
  }

  lemma SeenRecord(name: Bytes, ts: int, meta: Members)
    ensures Seen(Record(name, ts, meta)) == Record(Utf8.Sanitize(name), ts, SeenMembers(meta))
  {
    SeenFields(NAME, TS, META, name, ts, meta);
  }

  lemma DecodeOfRender(v: Json)
    requires v.Obj?
    ensures DecodeEvent(Render(v)) == DecodeRecord(Seen(v))
  {
    ValueRoundTrip(v, []);
    assert Render(v) + [] == Render(v);
  }

  lemma FieldsText(k1: Bytes, k2: Bytes, k3: Bytes, name: Bytes, ts: int, meta: Members)
    ensures RenderMembers(Fields(k1, k2, k3, name, ts, meta))
            == MemberText(k1, Quote(name), "," + MemberText(k2, Decimal.Itoa(ts),
                 if meta.Empty? then "}" else "," + MemberText(k3, "{" + RenderMembers(meta), "}")))
  {
    var last := if meta.Empty? then Empty else Member(k3, Obj(meta), Empty);
    assert meta.Member? ==> RenderMembers(last) == MemberText(k3, "{" + RenderMembers(meta), "}");
    assert RenderMembers(Member(k2, Num(ts), last))
        == MemberText(k2, Decimal.Itoa(ts), if last.Empty? then "}" else "," + RenderMembers(last));
  }

  /** A member whose key needs no escapes. */
  lemma KeyText(key: Bytes, text: Bytes, val: Bytes, close: Bytes)
    requires forall k | 0 <= k < |key| :: 'A' <= key[k] <= 'z' && key[k] != '\\'
    requires text == "\"" + key + "\":"
    ensures MemberText(key, val, close) == text + (val + close)
  {
    PlainTextUnescaped(key);
    assert MemberText(key, val, close) == ("\"" + (key + "\"")) + (":" + (val + close));
    assert text == ("\"" + (key + "\"")) + ":";
    Reassociate("\"" + (key + "\""), ":", val + close);
  }

  lemma NameText(val: Bytes, close: Bytes)
    ensures MemberText(NAME, val, close) == "\"name\":" + (val + close)
  {
    KeyText(NAME, "\"name\":", val, close);
  }

  lemma TsText(val: Bytes, close: Bytes)
    ensures MemberText(TS, val, close) == "\"ts_unix_ns\":" + (val + close)
  {
    KeyText(TS, "\"ts_unix_ns\":", val, close);
  }

  lemma MetaText(val: Bytes, close: Bytes)
    ensures MemberText(META, val, close) == "\"meta\":" + (val + close)
  {
    KeyText(META, "\"meta\":", val, close);
  }

  /** The text of a record: the keys, their order, and that an empty map is left out. */
  lemma RecordText(e: TimingEvent)
    ensures var ms := MetaMembers(Pairs(e));
            var meta := if Pairs(e) == map[] then "}" else "," + ("\"meta\":" + (("{" + RenderMembers(ms)) + "}"));
            EncodeEvent(e)
            == "{" + ("\"name\":" + (Quote(e.name) + ("," + ("\"ts_unix_ns\":" + (Decimal.Itoa(e.ts) + meta)))))
  {
    var ms := MetaMembers(Pairs(e));
    FieldsText(NAME, TS, META, e.name, e.ts, ms);
    MetaText("{" + RenderMembers(ms), "}");
    var meta := if ms.Empty? then "}" else "," + MemberText(META, "{" + RenderMembers(ms), "}");
    TsText(Decimal.Itoa(e.ts), meta);
    NameText(Quote(e.name), "," + MemberText(TS, Decimal.Itoa(e.ts), meta));
  }

  /** What a record is read back as, whatever bytes it holds. */
  lemma DecodedForm(e: TimingEvent)
    ensures var seen := StringMap(SeenMembers(MetaMembers(Pairs(e))));
            seen.Some? && DecodeEvent(EncodeEvent(e)) == Some(Decoded(Utf8.Sanitize(e.name), e.ts, seen.value))
  {
    var ms := MetaMembers(Pairs(e));
    SeenMapExists(Pairs(e));
    DecodeOfRender(Record(e.name, e.ts, ms));
    SeenRecord(e.name, e.ts, ms);
    DecodedRecord(Utf8.Sanitize(e.name), e.ts, SeenMembers(ms));
  }

  /** A record is read back as it was written exactly when all its text is valid UTF-8. */
  lemma EventRoundTrip(e: TimingEvent)
    ensures DecodeEvent(EncodeEvent(e)) == Some(Decoded(e.name, e.ts, Pairs(e)))
            <==> Utf8.Valid(e.name) && ValidMap(Pairs(e))
  {
    DecodedForm(e);
    Utf8.SanitizeFixesOnlyValid(e.name);
    SeenMapExists(Pairs(e));
    SeenMapIsValid(MetaMembers(Pairs(e)));
    if ValidMap(Pairs(e)) {
      ValidMapIsSeen(Pairs(e));
    }
  }

  lemma RecordIsOneLine(e: TimingEvent)
    ensures '\n' !in EncodeEvent(e)
  {
    RenderIsPrintable(EventJson(e));
  }

  /** A record written after an unfinished line joins it; after a finished one it is a line. */
  lemma OneMoreLine(data: Bytes, record: Bytes)
    requires '\n' !in record
    ensures Lines.Complete(data + (record + "\n")) == Lines.Complete(data) + [Lines.Tail(data) + record]
    ensures Lines.Tail(data + (record + "\n")) == []
  {
    var line := Lines.Tail(data) + record;
    Lines.SplitResumes(data, record + "\n");
    Reassociate(Lines.Tail(data), record, "\n");
    Lines.SplitOfSnoc(line, '\n');
    Lines.NoNewlineNoLine(line);
  }

  /** A write that breaks off leaves an unfinished line, which the next record joins. */
  lemma NoMoreLines(data: Bytes, part: Bytes)
    requires '\n' !in part
    ensures Lines.Complete(data + part) == Lines.Complete(data)
    ensures Lines.Tail(data + part) == Lines.Tail(data) + part
  {
    Lines.SplitResumes(data, part);
    Lines.NoNewlineNoLine(Lines.Tail(data) + part);
    assert Lines.Complete(data) + [] == Lines.Complete(data);
  }

  // -- The file ------------------------------------------------------------------------------

  class TimingsFile {
    var data: Bytes

    constructor ()
      ensures data == []
    {
      data := [];
    }

    /** recordTimingEvent: an empty directory or kind is ignored, a file that cannot be opened loses
        the event, and otherwise one write appends the record and its newline, or the first `room`
        bytes of them where the kernel writes no more. */
    method RecordTimingEvent(vmDir: Bytes, kind: Bytes, meta: Option<map<Bytes, Bytes>>, now: int, opens: bool,
                             room: nat)
      modifies this
      ensures vmDir == "" || kind == "" || !opens ==> data == old(data)
      ensures vmDir != "" && kind != "" && opens
              ==> var record := EncodeEvent(TimingEvent(kind, now, meta));
                  if room > |record| then
                    && data == old(data) + (record + "\n")
                    && Lines.Complete(data) == Lines.Complete(old(data)) + [Lines.Tail(old(data)) + record]
                    && Lines.Tail(data) == []
                  else
                    && data == old(data) + record[..room]
                    && Lines.Complete(data) == Lines.Complete(old(data))
                    && Lines.Tail(data) == Lines.Tail(old(data)) + record[..room]
    {
      if vmDir == "" || kind == "" {
        return;
      }
      var b := EncodeEvent(TimingEvent(kind, now, meta));
      ghost var record := b;
      b := b + "\n";
      if !opens {
        return;
      }
      RecordIsOneLine(TimingEvent(kind, now, meta));
      if room < |b| {
        assert b[..room] == record[..room];
        NoMoreLines(data, record[..room]);
        data := data + b[..room];
        return;
      }
      OneMoreLine(data, record);
      data := data + b;
    }
  }
}
