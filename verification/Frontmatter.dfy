/** Parsing and serialising frontmatter (samia/core/frontmatter.py). */
module Frontmatter {
  import opened Options
  import opened Strings
  import opened Scalars
  import opened FrontmatterText
  import opened HeaderLines

  /** A header: the field dictionary, its keys in insertion order, and the key order list. */
  datatype Head = Head(fm: map<string, Val>, keys: seq<string>, order: seq<string>)

  datatype Parsed = NoHeader | Parsed(head: Head, body: string)

  // ---- the specification of parse -----------------------------------------------------------------

  const NOTHING := Head(map[], [], [])

  function Put(h: Head, k: string, v: Val): Head {
    Head(h.fm[k := v], if k in h.fm then h.keys else h.keys + [k], h.order + [k])
  }

  function ReadLine(h: Head, line: string, c: Codec): Head {
    match c.split(line)
    case None => h
    case Some((k, raw)) => Put(h, k, c.read(raw))
  }

  function ReadLines(lines: seq<string>, c: Codec): Head {
    if lines == [] then NOTHING else ReadLine(ReadLines(lines[..|lines| - 1], c), lines[|lines| - 1], c)
  }

  function ParseText(text: string, c: Codec): Parsed {
    if !StartsWith(text, FENCE) then NoHeader
    else
      var end := Find(text, CLOSE, 4);
      if end < 0 then NoHeader
      else Parsed(ReadLines(SplitLines(text[4..end]), c), DropNewlines(text[end + 4..]))
  }

  // ---- the specification of serialize ---------------------------------------------------------------

  /** The keys of `order` still present, each once. */
  function FirstOccurrences(order: seq<string>, fm: map<string, Val>): (ks: seq<string>)
    ensures forall k :: k in ks <==> k in order && k in fm
  {
    if order == [] then []
    else
      var k := order[|order| - 1];
      var before := FirstOccurrences(order[..|order| - 1], fm);
      assert order == order[..|order| - 1] + [k];
      if k in fm && k !in before then before + [k] else before
  }

  function Missing(keys: seq<string>, listed: seq<string>): seq<string> {
    if keys == [] then []
    else
      var k := keys[|keys| - 1];
      Missing(keys[..|keys| - 1], listed) + if k !in listed then [k] else []
  }

  /** The keys in the order they are emitted. */
  function EmittedKeys(h: Head): seq<string> {
    var listed := FirstOccurrences(h.order, h.fm);
    listed + Missing(h.keys, listed)
  }

  function FieldLine(k: string, v: Val, c: Codec): string {
    FieldText(k, c.show(v))
  }

  /** The line of key `k`; a key without a field prints nothing. */
  function LineOf(fm: map<string, Val>, k: string, c: Codec): string {
    if k in fm then FieldLine(k, fm[k], c) else ""
  }

  function FieldLines(ks: seq<string>, fm: map<string, Val>, c: Codec): (lines: seq<string>)
    ensures |lines| == |ks| && forall i :: 0 <= i < |ks| ==> lines[i] == LineOf(fm, ks[i], c)
  {
    seq(|ks|, i requires 0 <= i < |ks| => LineOf(fm, ks[i], c))
  }

  function TailOfBody(body: string): string {
    StripRight(body) + "\n"
  }

  function Fenced(lines: seq<string>, tail: string): string {
    "---\n" + Rendered(lines, tail)
  }

  function Serialized(h: Head, body: string, c: Codec): string {
    Fenced(FieldLines(EmittedKeys(h), h.fm, c), TailOfBody(body))
  }

  // ---- the loops ------------------------------------------------------------------------------------

  method Parse(text: string, c: Codec) returns (p: Parsed)
    ensures p == ParseText(text, c)
  {
    if !StartsWith(text, FENCE) { return NoHeader; }
    var end := Find(text, CLOSE, 4);
    if end < 0 { return NoHeader; }
    var head := ReadHeader(SplitLines(text[4..end]), c);
    p := Parsed(head, DropNewlines(text[end + 4..]));
  }

  /** `fm[k] = v; order.append(k)` */
  method PutField(before: Head, k: string, v: Val) returns (h: Head)
    ensures h == Put(before, k, v)
  {
    h := before;
    if k !in h.fm { h := h.(keys := h.keys + [k]); }
    h := h.(fm := h.fm[k := v]);
    h := h.(order := h.order + [k]);
  }

  /** The loop body of `parse`: lines without a colon are skipped. */
  method AddLine(before: Head, line: string, c: Codec) returns (h: Head)
    ensures h == ReadLine(before, line, c)
  {
    match c.split(line) {
      case None => h := before;
      case Some((k, raw)) => h := PutField(before, k, c.read(raw));
    }
  }

  method ReadHeader(lines: seq<string>, c: Codec) returns (head: Head)
    ensures head == ReadLines(lines, c)
  {
    head := NOTHING;
    for i := 0 to |lines|
      invariant head == ReadLines(lines[..i], c)
    {
      assert lines[..i + 1][..i] == lines[..i];
      head := AddLine(head, lines[i], c);
    }
    assert lines[..|lines|] == lines;
  }

  /** The dictionary's keys, each once. */
  ghost predicate IsDict(h: Head) {
    && (forall k :: k in h.keys <==> k in h.fm)
    && forall i, j :: 0 <= i < j < |h.keys| ==> h.keys[i] != h.keys[j]
  }

  /** The emission of the listed keys: each present key once. */
  method EmitListed(h: Head, c: Codec) returns (lines: seq<string>, seen: set<string>)
    ensures lines == FieldLines(FirstOccurrences(h.order, h.fm), h.fm, c)
    ensures forall k :: k in seen <==> k in FirstOccurrences(h.order, h.fm)
  {
    lines, seen := [], {};
    for i := 0 to |h.order|
      invariant lines == FieldLines(FirstOccurrences(h.order[..i], h.fm), h.fm, c)
      invariant forall k :: k in seen <==> k in FirstOccurrences(h.order[..i], h.fm)
    {
      assert h.order[..i + 1][..i] == h.order[..i];
      var k := h.order[i];
      if k in h.fm && k !in seen {
        lines := lines + [FieldLine(k, h.fm[k], c)];
        seen := seen + {k};
      }
    }
    assert h.order[..|h.order|] == h.order;
  }

  method EmitMissing(h: Head, seen: set<string>, ghost listed: seq<string>, c: Codec) returns (lines: seq<string>)
    requires IsDict(h) && forall k :: k in seen <==> k in listed
    ensures lines == FieldLines(Missing(h.keys, listed), h.fm, c)
  {
    lines := [];
    for i := 0 to |h.keys|
      invariant lines == FieldLines(Missing(h.keys[..i], listed), h.fm, c)
    {
      assert h.keys[..i + 1][..i] == h.keys[..i];
      var k := h.keys[i];
      assert k in h.keys;
      if k !in seen { lines := lines + [FieldLine(k, h.fm[k], c)]; }
    }
    assert h.keys[..|h.keys|] == h.keys;
  }

  method Serialize(h: Head, body: string, c: Codec) returns (text: string)
    requires IsDict(h)
    ensures text == Serialized(h, body, c)
  {
    var first, seen := EmitListed(h, c);
    ghost var listed := FirstOccurrences(h.order, h.fm);
    var more := EmitMissing(h, seen, listed, c);
    FieldLinesSum(listed, Missing(h.keys, listed), h.fm, c);
    text := WriteOut(first + more, body);
  }

  method WriteOut(lines: seq<string>, body: string) returns (text: string)
    ensures text == Fenced(lines, TailOfBody(body))
  {
    JoinIsFenced(lines, TailOfBody(body));
    text := Join("\n", [FENCE] + (lines + [FENCE, ""])) + TailOfBody(body);
  }

  lemma FieldLinesSum(a: seq<string>, b: seq<string>, fm: map<string, Val>, c: Codec)
    ensures FieldLines(a, fm, c) + FieldLines(b, fm, c) == FieldLines(a + b, fm, c)
  {
  }

  lemma JoinIsFenced(lines: seq<string>, tail: string)
    ensures Join("\n", [FENCE] + (lines + [FENCE, ""])) + tail == Fenced(lines, tail)
  {
    var rest := lines + [FENCE, ""];
    JoinIsRendered(lines, tail);
    assert ([FENCE] + rest)[1..] == rest;
    assert Join("\n", [FENCE] + rest) == FENCE + "\n" + Join("\n", rest);
  }

  lemma {:induction false} JoinIsRendered(lines: seq<string>, tail: string)
    ensures Join("\n", lines + [FENCE, ""]) + tail == Rendered(lines, tail)
  {
    if lines == [] {
      var end := [FENCE, ""];
      assert lines + end == end;
      assert end[1..] == [""];
      assert Join("\n", end) == FENCE + "\n" + Join("\n", [""]);
    } else {
      var rest := lines[1..] + [FENCE, ""];
      JoinIsRendered(lines[1..], tail);
      assert (lines + [FENCE, ""])[1..] == rest;
      assert Join("\n", lines + [FENCE, ""]) == lines[0] + "\n" + Join("\n", rest);
    }
  }

  // ---- reading printed fields -----------------------------------------------------------------------

  predicate KeysOk(ks: seq<string>) {
    forall i :: 0 <= i < |ks| ==> KeyOk(ks[i])
  }

  ghost predicate Distinct(ks: seq<string>) {
    forall i, j :: 0 <= i < j < |ks| ==> ks[i] != ks[j]
  }

  lemma ReadFieldLine(h: Head, k: string, v: Val, c: Codec)
    requires ReadsFields(c) && KeyOk(k)
    ensures ReadLine(h, FieldLine(k, v, c), c) == Put(h, k, c.read(c.show(v)))
  {
    var shown := c.show(v);
    assert c.split(FieldText(k, shown)) == Some((k, Spaced(shown)));
    assert c.read(Spaced(shown)) == c.read(shown);
  }

  /** Putting keys one after the other. */
  function PutAll(ks: seq<string>, value: string -> Val): Head {
    if ks == [] then NOTHING else Put(PutAll(ks[..|ks| - 1], value), ks[|ks| - 1], value(ks[|ks| - 1]))
  }

  function Table(ks: seq<string>, value: string -> Val): map<string, Val> {
    map k | k in ks :: value(k)
  }

  lemma PutOneMore(ks: seq<string>, k: string, value: string -> Val)
    requires k !in ks
    ensures Put(Head(Table(ks, value), ks, ks), k, value(k)) == Head(Table(ks + [k], value), ks + [k], ks + [k])
  {
    assert Table(ks, value)[k := value(k)] == Table(ks + [k], value);
  }

  lemma {:induction false} PutDistinct(ks: seq<string>, value: string -> Val)
    requires Distinct(ks)
    ensures PutAll(ks, value) == Head(Table(ks, value), ks, ks)
  {
    if ks == [] {
      assert Table(ks, value) == map[];
    } else {
      var n := |ks| - 1;
      PutDistinct(ks[..n], value);
      assert ks[n] !in ks[..n];
      PutOneMore(ks[..n], ks[n], value);
      assert ks[..n] + [ks[n]] == ks;
    }
  }

  /** The value of a field after printing and reading it. */
  function Again(fm: map<string, Val>, k: string, c: Codec): Val {
    if k in fm then c.read(c.show(fm[k])) else Str("")
  }

  lemma FieldLinesPrefix(ks: seq<string>, n: nat, fm: map<string, Val>, c: Codec)
    requires n <= |ks|
    ensures FieldLines(ks, fm, c)[..n] == FieldLines(ks[..n], fm, c)
  {
  }

  lemma ReadLastField(lines: seq<string>, h: Head, k: string, v: Val, c: Codec)
    requires ReadsFields(c) && lines != [] && KeyOk(k)
    requires ReadLines(lines[..|lines| - 1], c) == h && lines[|lines| - 1] == FieldLine(k, v, c)
    ensures ReadLines(lines, c) == Put(h, k, c.read(c.show(v)))
  {
    ReadFieldLine(h, k, v, c);
  }

  lemma {:induction false} ReadFieldLines(ks: seq<string>, fm: map<string, Val>, value: string -> Val, c: Codec)
    requires ReadsFields(c) && KeysOk(ks) && forall k :: k in ks ==> k in fm && value(k) == Again(fm, k, c)
    ensures ReadLines(FieldLines(ks, fm, c), c) == PutAll(ks, value)
  {
    if ks != [] {
      var n := |ks| - 1;
      assert ks[n] in ks;
      ReadFieldLines(ks[..n], fm, value, c);
      FieldLinesPrefix(ks, n, fm, c);
      ReadLastField(FieldLines(ks, fm, c), PutAll(ks[..n], value), ks[n], fm[ks[n]], c);
    }
  }

  /** The fields as they read back. */
  function Reread(ks: seq<string>, fm: map<string, Val>, c: Codec): map<string, Val> {
    Table(ks, AgainIn(fm, c))
  }

  function AgainIn(fm: map<string, Val>, c: Codec): string -> Val {
    k => Again(fm, k, c)
  }

  lemma ReadDistinctLines(ks: seq<string>, fm: map<string, Val>, c: Codec)
    requires ReadsFields(c) && Distinct(ks) && KeysOk(ks) && forall k :: k in ks ==> k in fm
    ensures ReadLines(FieldLines(ks, fm, c), c) == Head(Reread(ks, fm, c), ks, ks)
  {
    ReadFieldLines(ks, fm, AgainIn(fm, c), c);
    PutDistinct(ks, AgainIn(fm, c));
  }

  lemma {:induction false} FirstOccurrencesDistinct(order: seq<string>, fm: map<string, Val>)
    ensures Distinct(FirstOccurrences(order, fm))
  {
    if order != [] { FirstOccurrencesDistinct(order[..|order| - 1], fm); }
  }

  lemma {:induction false} MissingAre(keys: seq<string>, listed: seq<string>)
    ensures forall k :: k in Missing(keys, listed) <==> k in keys && k !in listed
    ensures Distinct(keys) ==> Distinct(Missing(keys, listed))
  {
    if keys != [] {
      MissingAre(keys[..|keys| - 1], listed);
      assert keys == keys[..|keys| - 1] + [keys[|keys| - 1]];
    }
  }

  /** Every field is emitted exactly once. */
  lemma EmittedAreFields(h: Head)
    requires IsDict(h)
    ensures Distinct(EmittedKeys(h))
    ensures forall k :: k in EmittedKeys(h) <==> k in h.fm
  {
    var listed := FirstOccurrences(h.order, h.fm);
    FirstOccurrencesDistinct(h.order, h.fm);
    MissingAre(h.keys, listed);
    DistinctSum(listed, Missing(h.keys, listed));
  }

  lemma DistinctSum(a: seq<string>, b: seq<string>)
    requires Distinct(a) && Distinct(b) && forall k :: k in b ==> k !in a
    ensures Distinct(a + b)
  {
    forall i, j | 0 <= i < |a| && 0 <= j < |b| ensures a[i] != b[j] { assert b[j] in b; }
  }

  // ---- parsing fenced lines ----------------------------------------------------------------------------

  lemma FencedParts(lines: seq<string>, tail: string, block: string, remaining: string)
    requires ClosesAfter(Rendered(lines, tail), block, remaining) && |remaining| >= 3
    ensures var text := Fenced(lines, tail);
      && StartsWith(text, FENCE)
      && Find(text, CLOSE, 4) == 4 + |block|
      && text[4..4 + |block|] == block
      && text[4 + |block| + 4..] == remaining[3..]
  {
    var text := Fenced(lines, tail);
    var r := Rendered(lines, tail);
    assert text[4..] == r;
    FindInTail(text, CLOSE, 4);
    assert text[4..4 + |block|] == r[..|block|] == block;
    assert text[4 + |block| + 4..] == r[|block| + 4..] == remaining[3..];
  }

  lemma ProperHasNoNewlines(lines: seq<string>)
    requires ProperLines(lines)
    ensures NoNewlines(lines)
  {
    forall i | 0 <= i < |lines| ensures '\n' !in lines[i] { NoNewline(lines[i]); }
  }

  lemma NoNewline(s: string)
    requires OneLine(s)
    ensures '\n' !in s
  {
  }

  lemma ParseFenced(lines: seq<string>, tail: string, c: Codec)
    requires lines != [] && ProperLines(lines)
    ensures var m := Cut(lines);
      && |Rendered(lines[m..], tail)| >= 3
      && ParseText(Fenced(lines, tail), c) == Parsed(ReadLines(lines[..m], c), DropNewlines(Rendered(lines[m..], tail)[3..]))
  {
    var m := Cut(lines);
    ProperHasNoNewlines(lines);
    CloseOfRendered(lines, tail);
    RenderedStart(lines[m..], tail);
    LinesOfBlock(lines[..m]);
    ParsesTo(lines, tail, Block(lines[..m]), Rendered(lines[m..], tail), c);
  }

  lemma ParsesTo(lines: seq<string>, tail: string, block: string, remaining: string, c: Codec)
    requires ClosesAfter(Rendered(lines, tail), block, remaining) && |remaining| >= 3
    ensures ParseText(Fenced(lines, tail), c) == Parsed(ReadLines(SplitLines(block), c), DropNewlines(remaining[3..]))
  {
    FencedParts(lines, tail, block, remaining);
  }

  lemma RenderedNothing(tail: string)
    ensures Rendered([], tail)[3..] == "\n" + tail
  {
  }

  // ---- parse undoes serialize ----------------------------------------------------------------------------

  /** The emitted keys can be read back: at least one, all clean, and none but the first
      starting like the closing fence. */
  predicate Readable(ks: seq<string>) {
    ks != [] && KeysOk(ks) && forall i :: 1 <= i < |ks| ==> !StartsWith(ks[i], FENCE)
  }

  ghost predicate Printable(fm: map<string, Val>, c: Codec) {
    forall k :: k in fm ==> OneLine(c.show(fm[k]))
  }

  /** Every value reads back as itself. */
  ghost predicate AllReadBack(fm: map<string, Val>, c: Codec) {
    forall k :: k in fm ==> c.read(c.show(fm[k])) == fm[k]
  }

  lemma FieldLineIsProper(k: string, v: Val, c: Codec)
    requires KeyOk(k) && OneLine(c.show(v))
    ensures var line := FieldLine(k, v, c); line != "" && OneLine(line) && ':' in line
  {
    var line := FieldLine(k, v, c);
    var fmt := c.show(v);
    assert line[|k|] == ':' && line[|k| + 1] == ' ';
    forall i | 0 <= i < |line| ensures !IsBreak(line[i]) {
      if i >= |k| + 2 { assert line[i] == fmt[i - |k| - 2]; }
    }
  }

  lemma FieldLineStart(k: string, v: Val, c: Codec)
    ensures StartsWith(FieldLine(k, v, c), FENCE) <==> StartsWith(k, FENCE)
  {
    var line := FieldLine(k, v, c);
    assert line[|k|] == ':' && line[|k| + 1] == ' ';
    if |k| >= 3 { assert line[..3] == k[..3]; }
  }

  lemma FieldLinesAreProper(ks: seq<string>, fm: map<string, Val>, c: Codec)
    requires KeysOk(ks) && Printable(fm, c) && forall k :: k in ks ==> k in fm
    ensures ProperLines(FieldLines(ks, fm, c))
    ensures forall i :: 0 <= i < |ks| ==> (StartsWith(FieldLines(ks, fm, c)[i], FENCE) <==> StartsWith(ks[i], FENCE))
  {
    forall i | 0 <= i < |ks|
      ensures var line := FieldLines(ks, fm, c)[i];
        line != "" && OneLine(line) && (StartsWith(line, FENCE) <==> StartsWith(ks[i], FENCE))
    {
      assert ks[i] in ks;
      FieldLineIsProper(ks[i], fm[ks[i]], c);
      FieldLineStart(ks[i], fm[ks[i]], c);
    }
  }

  lemma ParseGoodLines(ks: seq<string>, fm: map<string, Val>, body: string, c: Codec)
    requires ReadsFields(c) && Distinct(ks) && Readable(ks) && Printable(fm, c) && forall k :: k in ks ==> k in fm
    ensures ParseText(Fenced(FieldLines(ks, fm, c), TailOfBody(body)), c) == Parsed(Head(Reread(ks, fm, c), ks, ks), Trimmed(body))
  {
    var lines := FieldLines(ks, fm, c);
    FieldLinesAreProper(ks, fm, c);
    assert Cut(lines) == |lines|;
    assert lines[..|lines|] == lines && lines[|lines|..] == [];
    ParseFenced(lines, TailOfBody(body), c);
    RenderedNothing(TailOfBody(body));
    TrimmedIs(body);
    ReadDistinctLines(ks, fm, c);
  }

  /** A file with a single field. */
  lemma OneFieldParses(k: string, v: Val, body: string, c: Codec)
    requires ReadsFields(c) && KeyOk(k) && OneLine(c.show(v)) && c.read(c.show(v)) == v
    ensures ParseText(Fenced([FieldLine(k, v, c)], TailOfBody(body)), c) == Parsed(Head(map[k := v], [k], [k]), Trimmed(body))
  {
    var fm := map[k := v];
    assert FieldLines([k], fm, c) == [FieldLine(k, v, c)];
    ParseGoodLines([k], fm, body, c);
    assert Reread([k], fm, c) == fm;
  }

  /** Parse undoes serialize, for any reading and printing of values. */
  lemma ParseUndoesSerialize(h: Head, body: string, c: Codec)
    requires ReadsFields(c) && IsDict(h)
    requires Readable(EmittedKeys(h)) && Printable(h.fm, c) && AllReadBack(h.fm, c)
    ensures ParseText(Serialized(h, body, c), c) == Parsed(Head(h.fm, EmittedKeys(h), EmittedKeys(h)), Trimmed(body))
  {
    EmittedAreFields(h);
    ParseGoodLines(EmittedKeys(h), h.fm, body, c);
    RereadIsSame(EmittedKeys(h), h.fm, c);
  }

  lemma RereadIsSame(ks: seq<string>, fm: map<string, Val>, c: Codec)
    requires AllReadBack(fm, c) && forall k :: k in fm <==> k in ks
    ensures Reread(ks, fm, c) == fm
  {
  }

  /** Parse undoes serialize: the same fields, each key once in the order emitted, and the body
      up to its leading newlines and trailing white space, for every dictionary of surviving
      values under keys that can be read back. */
  lemma RoundTrip(h: Head, body: string, floats: FloatCodec)
    requires CodecOk(floats) && IsDict(h) && forall k :: k in h.fm ==> FloatValue(h.fm[k], floats)
    requires Readable(EmittedKeys(h)) && Printable(h.fm, Standard(floats))
    requires forall k :: k in h.fm ==> Survives(h.fm[k], floats)
    ensures var c := Standard(floats);
      ParseText(Serialized(h, body, c), c) == Parsed(Head(h.fm, EmittedKeys(h), EmittedKeys(h)), Trimmed(body))
  {
    var c := Standard(floats);
    StandardReadsFields(floats);
    forall k | k in h.fm ensures c.read(c.show(h.fm[k])) == h.fm[k] { SurvivesExactlyWhen(h.fm[k], floats); }
    ParseUndoesSerialize(h, body, c);
  }
}
