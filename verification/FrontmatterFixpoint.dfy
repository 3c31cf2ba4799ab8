/** Parsing and serialising again (samia/core/frontmatter.py): when a second pass changes
    nothing. */
module FrontmatterFixpoint {
  import opened Options
  import opened Strings
  import opened Scalars
  import opened FrontmatterText
  import opened Frontmatter
  import opened HeaderLines

  // ---- what a parsed header looks like ------------------------------------------------------------

  function Deduped(order: seq<string>): (ks: seq<string>)
    ensures forall k :: k in ks <==> k in order
  {
    if order == [] then []
    else
      var before := Deduped(order[..|order| - 1]);
      var k := order[|order| - 1];
      assert order == order[..|order| - 1] + [k];
      if k in before then before else before + [k]
  }

  lemma {:induction false} FirstOccurrencesAreDeduped(order: seq<string>, fm: map<string, Val>)
    requires forall k :: k in order ==> k in fm
    ensures FirstOccurrences(order, fm) == Deduped(order)
  {
    if order != [] {
      var n := |order| - 1;
      FirstOccurrencesAreDeduped(order[..n], fm);
      assert order[n] in order;
    }
  }

  ghost predicate AllSettled(fm: map<string, Val>, c: Codec) {
    forall k :: k in fm ==> Settled(fm[k], c)
  }

  /** The keys are those of `order`, each once, clean, and with settled values. */
  ghost predicate Proper(h: Head, c: Codec) {
    && h.keys == Deduped(h.order)
    && (forall k :: k in h.fm <==> k in h.order)
    && KeysOk(h.order)
    && AllSettled(h.fm, c)
  }

  lemma PutIsProper(h: Head, k: string, v: Val, c: Codec)
    requires Proper(h, c) && KeyOk(k) && Settled(v, c)
    ensures Proper(Put(h, k, v), c)
  {
    DedupedMore(h.order, k);
    KeysOkMore(h.order, k);
  }

  lemma DedupedMore(order: seq<string>, k: string)
    ensures Deduped(order + [k]) == if k in order then Deduped(order) else Deduped(order) + [k]
  {
    assert (order + [k])[..|order|] == order;
  }

  lemma KeysOkMore(order: seq<string>, k: string)
    requires KeysOk(order) && KeyOk(k)
    ensures KeysOk(order + [k])
  {
  }

  lemma PutReadIsProper(h: Head, k: string, raw: string, c: Codec)
    requires Lawful(c) && Proper(h, c) && KeyOk(k) && OneLine(raw)
    ensures Proper(Put(h, k, c.read(raw)), c)
  {
    assert Settled(c.read(raw), c);
    PutIsProper(h, k, c.read(raw), c);
  }

  lemma ReadLineIsProper(h: Head, line: string, c: Codec)
    requires Lawful(c) && Proper(h, c) && OneLine(line)
    ensures Proper(ReadLine(h, line, c), c)
  {
    match c.split(line)
    case None =>
    case Some((k, raw)) =>
      assert c.split(line).Some?;
      PutReadIsProper(h, k, raw, c);
  }

  lemma {:induction false} ReadLinesIsProper(lines: seq<string>, c: Codec)
    requires Lawful(c) && forall i :: 0 <= i < |lines| ==> OneLine(lines[i])
    ensures Proper(ReadLines(lines, c), c)
  {
    if lines != [] {
      ReadLinesIsProper(lines[..|lines| - 1], c);
      ReadLineIsProper(ReadLines(lines[..|lines| - 1], c), lines[|lines| - 1], c);
    }
  }

  lemma {:induction false} DedupedDistinct(order: seq<string>)
    ensures Distinct(Deduped(order))
    ensures KeysOk(order) ==> KeysOk(Deduped(order))
  {
    if order != [] { DedupedDistinct(order[..|order| - 1]); }
  }

  lemma {:induction false} DedupedOfDistinct(ks: seq<string>)
    requires Distinct(ks)
    ensures Deduped(ks) == ks
  {
    if ks != [] {
      var n := |ks| - 1;
      DedupedOfDistinct(ks[..n]);
      assert ks[..n] + [ks[n]] == ks;
    }
  }

  lemma {:induction false} NothingMissing(keys: seq<string>, listed: seq<string>)
    requires forall k :: k in keys ==> k in listed
    ensures Missing(keys, listed) == []
  {
    if keys != [] {
      NothingMissing(keys[..|keys| - 1], listed);
      assert keys[|keys| - 1] in keys;
    }
  }

  /** A parsed header is a dictionary that emits its keys in their own order. */
  lemma ProperEmitsKeys(h: Head, c: Codec)
    requires Proper(h, c)
    ensures EmittedKeys(h) == h.keys && IsDict(h) && KeysOk(h.keys)
  {
    FirstOccurrencesAreDeduped(h.order, h.fm);
    DedupedDistinct(h.order);
    NothingMissing(h.keys, h.keys);
  }

  lemma ParsedIsProper(text: string, c: Codec)
    requires Lawful(c) && ParseText(text, c).Parsed?
    ensures Proper(ParseText(text, c).head, c)
    ensures var b := ParseText(text, c).body; b == "" || b[0] != '\n'
  {
    ReadLinesIsProper(SplitLines(text[4..Find(text, CLOSE, 4)]), c);
  }

  // ---- one more pass ------------------------------------------------------------------------------

  /** Serialising what was parsed. */
  function Resaved(p: Parsed, c: Codec): string
    requires p.Parsed?
  {
    Serialized(p.head, p.body, c)
  }

  /** A second pass over the resaved text parses, and writes the same text. */
  predicate Stable(p: Parsed, c: Codec)
    requires p.Parsed?
  {
    var again := ParseText(Resaved(p, c), c);
    again.Parsed? && Resaved(again, c) == Resaved(p, c)
  }

  lemma SettledLines(ks: seq<string>, all: seq<string>, fm: map<string, Val>, c: Codec)
    requires AllSettled(fm, c) && forall k :: k in ks ==> k in fm && k in all
    ensures FieldLines(ks, Reread(all, fm, c), c) == FieldLines(ks, fm, c)
  {
    forall i | 0 <= i < |ks| ensures LineOf(Reread(all, fm, c), ks[i], c) == LineOf(fm, ks[i], c) {
      assert ks[i] in ks;
      assert Settled(fm[ks[i]], c);
    }
  }

  lemma SettledArePrintable(fm: map<string, Val>, c: Codec)
    requires AllSettled(fm, c)
    ensures Printable(fm, c)
  {
    forall k | k in fm ensures OneLine(c.show(fm[k])) { assert Settled(fm[k], c); }
  }

  lemma EmitsOwnKeys(ks: seq<string>, fm: map<string, Val>)
    requires Distinct(ks) && forall k :: k in ks ==> k in fm
    ensures EmittedKeys(Head(fm, ks, ks)) == ks
  {
    FirstOccurrencesAreDeduped(ks, fm);
    DedupedOfDistinct(ks);
    NothingMissing(ks, ks);
  }

  /** What resaving a header read from its own lines gives. */
  lemma ResavedLines(ks: seq<string>, fm: map<string, Val>, body: string, c: Codec)
    requires Distinct(ks) && AllSettled(fm, c) && forall k :: k in ks ==> k in fm
    ensures Serialized(Head(Reread(ks, fm, c), ks, ks), body, c) == Fenced(FieldLines(ks, fm, c), TailOfBody(body))
  {
    EmitsOwnKeys(ks, Reread(ks, fm, c));
    SettledLines(ks, ks, fm, c);
  }

  lemma ReadableIsStable(p: Parsed, c: Codec)
    requires Lawful(c) && p.Parsed? && Proper(p.head, c) && (p.body == "" || p.body[0] != '\n')
    requires Readable(p.head.keys)
    ensures Stable(p, c)
  {
    var ks, fm := p.head.keys, p.head.fm;
    ProperEmitsKeys(p.head, c);
    SettledArePrintable(fm, c);
    ParseGoodLines(ks, fm, p.body, c);
    ResavedLines(ks, fm, Trimmed(p.body), c);
    TrimmedAgain(p.body);
  }

  // ---- a later key that looks like the fence --------------------------------------------------------

  lemma SameAfterLine(f: string, x: string, y: string)
    requires f + ("\n" + x) == f + ("\n" + y)
    ensures x == y
  {
    assert (f + ("\n" + x))[|f| + 1..] == x;
    assert (f + ("\n" + y))[|f| + 1..] == y;
  }

  /** Cutting the lines at one that starts with the fence and goes on in the same line changes
      the text. */
  lemma {:induction false} CuttingShows(lines: seq<string>, m: nat, t: string, u: string)
    requires m < |lines| && |lines[m]| >= 4 && lines[m][3] != '\n'
    ensures Rendered(lines, t) != Rendered(lines[..m], u)
    decreases m
  {
    if m == 0 {
      assert Rendered(lines, t)[3] == lines[0][3];
      assert Rendered(lines[..0], u)[3] == '\n';
    } else {
      var x, y := Rendered(lines[1..], t), Rendered(lines[1..][..m - 1], u);
      CuttingShows(lines[1..], m - 1, t, u);
      assert lines[..m][1..] == lines[1..][..m - 1];
      if lines[0] + ("\n" + x) == lines[0] + ("\n" + y) { SameAfterLine(lines[0], x, y); }
    }
  }

  lemma FencedInjective(lines: seq<string>, t: string, other: seq<string>, u: string)
    requires Fenced(lines, t) == Fenced(other, u)
    ensures Rendered(lines, t) == Rendered(other, u)
  {
    assert Fenced(lines, t)[4..] == Rendered(lines, t);
    assert Fenced(other, u)[4..] == Rendered(other, u);
  }

  lemma LongEnough(line: string)
    requires StartsWith(line, FENCE) && OneLine(line) && ':' in line
    ensures |line| >= 4 && line[3] != '\n'
  {
    assert line == FENCE + line[3..];
  }

  lemma SettledLinesAreProper(ks: seq<string>, fm: map<string, Val>, c: Codec)
    requires KeysOk(ks) && AllSettled(fm, c) && forall k :: k in ks ==> k in fm
    ensures ProperLines(FieldLines(ks, fm, c))
  {
    SettledArePrintable(fm, c);
    FieldLinesAreProper(ks, fm, c);
  }

  /** A reader of the resaved text takes the fields up to the first such key. */
  lemma ReadsUpToCut(ks: seq<string>, fm: map<string, Val>, tail: string, m: nat, c: Codec) returns (body: string)
    requires ReadsFields(c)
    requires Distinct(ks) && KeysOk(ks) && AllSettled(fm, c) && forall k :: k in ks ==> k in fm
    requires ks != [] && m == Cut(FieldLines(ks, fm, c))
    ensures var again := ParseText(Fenced(FieldLines(ks, fm, c), tail), c);
      again.Parsed? && Resaved(again, c) == Fenced(FieldLines(ks, fm, c)[..m], TailOfBody(body))
  {
    var lines := FieldLines(ks, fm, c);
    SettledLinesAreProper(ks, fm, c);
    ParseFenced(lines, tail, c);
    FieldLinesPrefix(ks, m, fm, c);
    ReadDistinctLines(ks[..m], fm, c);
    body := DropNewlines(Rendered(lines[m..], tail)[3..]);
    ResavedLines(ks[..m], fm, body, c);
  }

  lemma CutLineGoesOn(ks: seq<string>, fm: map<string, Val>, m: nat, c: Codec)
    requires KeysOk(ks) && AllSettled(fm, c) && forall k :: k in ks ==> k in fm
    requires m < |ks| && StartsWith(FieldLines(ks, fm, c)[m], FENCE)
    ensures var line := FieldLines(ks, fm, c)[m]; |line| >= 4 && line[3] != '\n'
  {
    assert ks[m] in ks;
    assert Settled(fm[ks[m]], c);
    FieldLineIsProper(ks[m], fm[ks[m]], c);
    LongEnough(FieldLines(ks, fm, c)[m]);
  }

  lemma LaterFenceIsUnstable(p: Parsed, m: nat, c: Codec)
    requires Lawful(c) && p.Parsed? && Proper(p.head, c)
    requires p.head.keys != [] && m == Cut(FieldLines(p.head.keys, p.head.fm, c)) < |p.head.keys|
    ensures !Stable(p, c)
  {
    var ks, fm := p.head.keys, p.head.fm;
    var lines, tail := FieldLines(ks, fm, c), TailOfBody(p.body);
    ProperEmitsKeys(p.head, c);
    var body := ReadsUpToCut(ks, fm, tail, m, c);
    CutLineGoesOn(ks, fm, m, c);
    CuttingShows(lines, m, tail, TailOfBody(body));
    if Fenced(lines[..m], TailOfBody(body)) == Fenced(lines, tail) {
      FencedInjective(lines[..m], TailOfBody(body), lines, tail);
    }
  }

  // ---- an empty header --------------------------------------------------------------------------------

  lemma FenceIsNoField(line: string, x: string, t: string)
    requires ':' in line && OneLine(line)
    ensures line + ("\n" + x) != "---\n" + t
  {
    var s, z := line + ("\n" + x), "---\n" + t;
    assert s[|line|] == '\n';
    assert z[3] == '\n' && z[..3] == FENCE;
    if |line| < 3 {
      assert z[|line|] == '-';
    } else if |line| > 3 {
      assert s[3] == line[3];
    } else {
      assert s[..3] == line;
    }
  }

  lemma EmptyHeaderShrinks(t: string, c: Codec)
    requires ParseText(Fenced([], t), c).Parsed?
    ensures |ParseText(Fenced([], t), c).body| + 3 <= |t|
  {
    var text := Fenced([], t);
    assert text == "---\n" + ("---\n" + t);
    var end := Find(text, CLOSE, 4);
    CloseAt(text, end);
    assert text[4] == '-' && text[5] == '-' && text[6] == '-';
  }

  lemma EmptyIsUnstable(p: Parsed, c: Codec)
    requires Lawful(c) && p.Parsed? && Proper(p.head, c) && p.head.keys == []
    ensures !Stable(p, c)
  {
    ProperEmitsKeys(p.head, c);
    var t := TailOfBody(p.body);
    assert FieldLines([], p.head.fm, c) == [];
    var again := ParseText(Fenced([], t), c);
    if again.Parsed? {
      EmptyAgain(again, t, c);
    }
  }

  lemma EmptyAgain(again: Parsed, t: string, c: Codec)
    requires Lawful(c) && again == ParseText(Fenced([], t), c) && again.Parsed?
    ensures Resaved(again, c) != Fenced([], t)
  {
    EmptyHeaderShrinks(t, c);
    ParsedIsProper(Fenced([], t), c);
    ProperEmitsKeys(again.head, c);
    var ks, fm := again.head.keys, again.head.fm;
    var lines := FieldLines(ks, fm, c);
    var u := TailOfBody(again.body);
    if Resaved(again, c) == Fenced([], t) {
      FencedInjective(lines, u, [], t);
    }
    if ks == [] {
      assert lines == [];
      assert |Rendered([], u)| == 4 + |u| < 4 + |t| == |Rendered([], t)|;
    } else {
      assert ks[0] in fm;
      assert Settled(fm[ks[0]], c);
      FieldLineIsProper(ks[0], fm[ks[0]], c);
      FenceIsNoField(lines[0], Rendered(lines[1..], u), t);
    }
  }

  // ---- the theorem ----------------------------------------------------------------------------------

  lemma StableUnderLaws(text: string, c: Codec)
    requires Lawful(c) && ParseText(text, c).Parsed?
    ensures var p := ParseText(text, c);
      Stable(p, c) <==> p.head.keys != [] && forall i :: 1 <= i < |p.head.keys| ==> !StartsWith(p.head.keys[i], FENCE)
  {
    var p := ParseText(text, c);
    var ks := p.head.keys;
    ParsedIsProper(text, c);
    ProperEmitsKeys(p.head, c);
    if ks == [] {
      EmptyIsUnstable(p, c);
    } else if Readable(ks) {
      ReadableIsStable(p, c);
    } else {
      SettledArePrintable(p.head.fm, c);
      FieldLinesAreProper(ks, p.head.fm, c);
      LaterFenceIsUnstable(p, Cut(FieldLines(ks, p.head.fm, c)), c);
    }
  }

  /** Serialise-after-parse is a fixed point from the second pass on exactly when the header has
      a field and no later key starts like the closing fence. */
  lemma StableExactlyWhen(text: string, floats: FloatCodec)
    requires CodecOk(floats) && ParseText(text, Standard(floats)).Parsed?
    ensures var p := ParseText(text, Standard(floats));
      Stable(p, Standard(floats))
      <==> p.head.keys != [] && forall i :: 1 <= i < |p.head.keys| ==> !StartsWith(p.head.keys[i], FENCE)
  {
    StandardIsLawful(floats);
    StableUnderLaws(text, Standard(floats));
  }
}
