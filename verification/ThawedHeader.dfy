/** The header of a thawed node and what a reader finds in the written file (samia/core/ia.py,
    samia/core/frontmatter.py). */
module ThawedHeader {
  import opened Options
  import opened Strings
  import opened Scalars
  import opened FrontmatterText
  import opened HeaderLines
  import opened Frontmatter
  import opened FrontmatterFixpoint
  import opened NodeFields
  import Remnants
  import Segments

  /** No key but the first starts like the closing fence. */
  predicate NoLaterFence(ks: seq<string>) {
    forall i :: 1 <= i < |ks| ==> !StartsWith(ks[i], FENCE)
  }

  // ---- the fields thawing sets ------------------------------------------------------------------

  predicate IsWarmKey(k: string) {
    k == "tier" || k == "relevance" || k == "last_access"
  }

  /** `g` has the fields of `h` and perhaps the ones thawing sets, behind them. */
  ghost predicate Extended(h: Head, g: Head) {
    && g.order == h.order && h.keys <= g.keys && IsDict(g)
    && (forall k :: k in h.fm ==> k in g.fm)
    && forall i :: |h.keys| <= i < |g.keys| ==> IsWarmKey(g.keys[i])
  }

  lemma ExtendStep(h: Head, g: Head, k: string, v: Val)
    requires Extended(h, g) && IsWarmKey(k)
    ensures Extended(h, WithField(g, k, v))
  {
  }

  lemma WarmExtends(h: Head, today: string)
    requires IsDict(h)
    ensures Extended(h, WarmHead(h, today))
  {
    var a := WithField(h, "tier", Str("warm"));
    var b := WithField(a, "relevance", Float(0.5));
    ExtendStep(h, h, "tier", Str("warm"));
    ExtendStep(h, a, "relevance", Float(0.5));
    ExtendStep(h, b, "last_access", Str(today));
  }

  /** A thawed header is that of the frozen node, warm again and accessed today; all other
      fields are as they were. */
  lemma WarmFields(h: Head, today: string, k: string)
    ensures var warm := WarmHead(h, today);
      && Field(warm, "tier") == Some(Str("warm"))
      && Field(warm, "relevance") == Some(Float(0.5))
      && Field(warm, "last_access") == Some(Str(today))
      && (!IsWarmKey(k) ==> Field(warm, k) == Field(h, k))
  {
    assert "tier" != "relevance" && "tier" != "last_access" && "relevance" != "last_access";
  }

  lemma {:induction false} MissingTail(keys: seq<string>, n: nat)
    requires Distinct(keys) && n <= |keys|
    ensures Missing(keys, keys[..n]) == keys[n..]
  {
    if n == |keys| {
      NothingMissing(keys, keys[..n]);
    } else {
      var last := |keys| - 1;
      assert keys[..last][..n] == keys[..n];
      MissingTail(keys[..last], n);
      assert keys[last] !in keys[..n];
      assert keys[..last][n..] + [keys[last]] == keys[n..];
    }
  }

  lemma WarmKeyOk(k: string)
    requires IsWarmKey(k)
    ensures KeyOk(k) && !StartsWith(k, FENCE)
  {
    assert k != "" && k[0] != FENCE[0];
  }

  lemma ExtendedListed(h: Head, g: Head, c: Codec)
    requires Proper(h, c) && Extended(h, g)
    ensures FirstOccurrences(g.order, g.fm) == h.keys
  {
    FirstOccurrencesAreDeduped(h.order, g.fm);
  }

  lemma ExtendedKeysOk(h: Head, g: Head)
    requires KeysOk(h.keys) && Extended(h, g)
    ensures KeysOk(g.keys) && (NoLaterFence(g.keys) <==> NoLaterFence(h.keys))
  {
    forall i | 0 <= i < |h.keys| ensures g.keys[i] == h.keys[i] {}
    forall i | |h.keys| <= i < |g.keys| ensures KeyOk(g.keys[i]) && !StartsWith(g.keys[i], FENCE) { WarmKeyOk(g.keys[i]); }
  }

  /** The keys are emitted in their own order, and behind the old ones none looks like the fence. */
  lemma ExtendedEmits(h: Head, g: Head, c: Codec)
    requires Proper(h, c) && Extended(h, g)
    ensures EmittedKeys(g) == g.keys && KeysOk(g.keys)
    ensures NoLaterFence(g.keys) <==> NoLaterFence(h.keys)
  {
    ProperEmitsKeys(h, c);
    ExtendedListed(h, g, c);
    MissingTail(g.keys, |h.keys|);
    Prefix(h.keys, g.keys);
    ExtendedKeysOk(h, g);
  }

  lemma Prefix(a: seq<string>, b: seq<string>)
    requires a <= b
    ensures b[..|a|] == a && a + b[|a|..] == b
  {
  }

  lemma WarmPrintable(h: Head, today: string, floats: FloatCodec)
    requires AllSettled(h.fm, Standard(floats)) && CodecOk(floats) && IsFloat(0.5, floats) && OneLine(today)
    ensures Printable(WarmHead(h, today).fm, Standard(floats))
  {
    forall k | k in WarmHead(h, today).fm ensures OneLine(Standard(floats).show(WarmHead(h, today).fm[k])) {
      if IsWarmKey(k) { WarmValuePrints(h, today, k, floats); } else { OldValuePrints(h, today, k, floats); }
    }
  }

  lemma OldValuePrints(h: Head, today: string, k: string, floats: FloatCodec)
    requires AllSettled(h.fm, Standard(floats)) && k in WarmHead(h, today).fm && !IsWarmKey(k)
    ensures OneLine(Standard(floats).show(WarmHead(h, today).fm[k]))
  {
    WarmFields(h, today, k);
    assert Settled(h.fm[k], Standard(floats));
  }

  lemma WarmValuePrints(h: Head, today: string, k: string, floats: FloatCodec)
    requires CodecOk(floats) && IsFloat(0.5, floats) && OneLine(today) && k in WarmHead(h, today).fm && IsWarmKey(k)
    ensures OneLine(Standard(floats).show(WarmHead(h, today).fm[k]))
  {
    FloatPrints(0.5, floats);
    WarmFields(h, today, k);
  }

  // ---- values that were read ---------------------------------------------------------------------

  /** Every value was read from a line. */
  ghost predicate WereRead(fm: map<string, Val>, c: Codec) {
    forall k :: k in fm ==> exists raw :: fm[k] == c.read(raw)
  }

  lemma {:induction false} ReadValues(lines: seq<string>, c: Codec)
    ensures WereRead(ReadLines(lines, c).fm, c)
  {
    if lines != [] {
      ReadValues(lines[..|lines| - 1], c);
      OneMoreRead(ReadLines(lines[..|lines| - 1], c), lines[|lines| - 1], c);
    }
  }

  lemma OneMoreRead(h: Head, line: string, c: Codec)
    requires WereRead(h.fm, c)
    ensures WereRead(ReadLine(h, line, c).fm, c)
  {
  }

  /** A value that was read is the same to `str` after it was written and read again. */
  lemma ReadAgainSame(raw: string, t: Texts)
    requires CodecOk(t.floats)
    ensures var v := ParseVal(raw, t.floats); PyStr(ParseVal(FmtVal(v, t.floats), t.floats), t) == PyStr(v, t)
  {
    var v := ParseVal(raw, t.floats);
    ReadAgain(raw, t.floats);
    SameToStr(v, ParseVal(FmtVal(v, t.floats), t.floats), t);
  }

  lemma SameToStr(v: Val, u: Val, t: Texts)
    requires ReadsAgainAs(v, u, t.floats)
    ensures PyStr(u, t) == PyStr(v, t)
  {
  }

  // ---- the written lines ----------------------------------------------------------------------------

  lemma FieldLineInked(k: string, v: Val, c: Codec)
    requires KeyOk(k) && OneLine(c.show(v))
    ensures Remnants.Inked(FieldLine(k, v, c))
    ensures StartsWith(k, FENCE) ==> |FieldLine(k, v, c)| >= 4 && !AllSpace(FieldLine(k, v, c)[3..])
  {
    var line := FieldLine(k, v, c);
    FieldLineIsProper(k, v, c);
    NoNewline(line);
    assert line == k + (": " + c.show(v));
    assert line[|k|] == ':' && (k != "" ==> line[0] == k[0]);
    if StartsWith(k, FENCE) { assert line[3..][|k| - 3] == ':'; }
  }

  lemma LinesInked(ks: seq<string>, fm: map<string, Val>, c: Codec, m: nat)
    requires KeysOk(ks) && Printable(fm, c) && (forall k :: k in ks ==> k in fm) && m <= |ks|
    ensures Remnants.AllInked(FieldLines(ks, fm, c)[m..])
  {
    var lines := FieldLines(ks, fm, c);
    forall i | m <= i < |ks| ensures Remnants.Inked(lines[i]) {
      assert ks[i] in ks;
      FieldLineInked(ks[i], fm[ks[i]], c);
    }
  }

  /** A reader finds all fields and the segments. */
  lemma ReadComplete(ks: seq<string>, fm: map<string, Val>, parts: seq<string>, c: Codec) returns (body: string)
    requires ReadsFields(c) && ks != [] && Distinct(ks) && KeysOk(ks) && Printable(fm, c)
    requires (forall k :: k in ks ==> k in fm) && NoLaterFence(ks) && Segments.AllParagraphs(parts)
    ensures ParseText(Fenced(FieldLines(ks, fm, c), TailOfBody(Segments.Joined(parts))), c)
         == Parsed(Head(Reread(ks, fm, c), ks, ks), body)
    ensures Segments.Paragraphs(body) == parts
  {
    body := Trimmed(Segments.Joined(parts));
    ParseGoodLines(ks, fm, Segments.Joined(parts), c);
    Remnants.TrimmedSegments(parts);
  }

  lemma CutBefore(ks: seq<string>, fm: map<string, Val>, c: Codec)
    requires ks != [] && KeysOk(ks) && Printable(fm, c) && forall k :: k in ks ==> k in fm
    ensures ProperLines(FieldLines(ks, fm, c))
    ensures Cut(FieldLines(ks, fm, c)) < |ks| <==> !NoLaterFence(ks)
    ensures var m := Cut(FieldLines(ks, fm, c)); m < |ks| ==> StartsWith(ks[m], FENCE)
  {
    FieldLinesAreProper(ks, fm, c);
  }

  lemma LeftInked(ks: seq<string>, fm: map<string, Val>, c: Codec, m: nat)
    requires KeysOk(ks) && Printable(fm, c) && (forall k :: k in ks ==> k in fm) && m < |ks| && StartsWith(ks[m], FENCE)
    ensures CutLines(FieldLines(ks, fm, c)[m..])
  {
    LinesInked(ks, fm, c, m);
    assert ks[m] in ks;
    FieldLineInked(ks[m], fm[ks[m]], c);
    assert FieldLines(ks, fm, c)[m..][0] == FieldLine(ks[m], fm[ks[m]], c);
  }

  /** The lines left when the reader stops at one that looks like the fence and goes on. */
  predicate CutLines(left: seq<string>) {
    left != [] && Remnants.AllInked(left) && |left[0]| >= 4 && !AllSpace(left[0][3..])
  }

  lemma ParseCut(lines: seq<string>, tail: string, m: nat, c: Codec)
    requires lines != [] && ProperLines(lines) && m == Cut(lines) && CutLines(lines[m..])
    ensures ParseText(Fenced(lines, tail), c) == Parsed(ReadLines(lines[..m], c), Remnants.Remnant(lines[m..]) + tail)
  {
    ParseFenced(lines, tail, c);
    Remnants.RemnantAndRest(lines[m..], tail);
    Remnants.RemnantStays(lines[m..], tail);
  }

  lemma ReadBeforeCut(ks: seq<string>, m: nat, fm: map<string, Val>, c: Codec)
    requires ReadsFields(c) && Distinct(ks) && KeysOk(ks) && (forall k :: k in ks ==> k in fm) && m <= |ks|
    ensures ReadLines(FieldLines(ks, fm, c)[..m], c) == Head(Reread(ks[..m], fm, c), ks[..m], ks[..m])
  {
    FieldLinesPrefix(ks, m, fm, c);
    ReadDistinctLines(ks[..m], fm, c);
  }

  /** With a key that looks like the fence, the reader finds the fields before it, and the rest of
      the header in front of the first segment. */
  lemma ReadCutShort(ks: seq<string>, fm: map<string, Val>, parts: seq<string>, c: Codec) returns (m: nat, body: string)
    requires ReadsFields(c) && ks != [] && Distinct(ks) && KeysOk(ks) && Printable(fm, c)
    requires (forall k :: k in ks ==> k in fm) && !NoLaterFence(ks) && Segments.AllParagraphs(parts)
    ensures m <= |ks|
    ensures ParseText(Fenced(FieldLines(ks, fm, c), TailOfBody(Segments.Joined(parts))), c)
         == Parsed(Head(Reread(ks[..m], fm, c), ks[..m], ks[..m]), body)
    ensures parts == [] ==> Segments.Paragraphs(body) != []
    ensures parts != [] ==> exists y :: !AllSpace(y) && Segments.Paragraphs(body) == [y + parts[0]] + parts[1..]
  {
    CutBefore(ks, fm, c);
    m := Cut(FieldLines(ks, fm, c));
    body := Remnants.CutBody(FieldLines(ks, fm, c)[m..], parts);
    LeftInked(ks, fm, c, m);
    ReadBeforeCut(ks, m, fm, c);
    ParseCut(FieldLines(ks, fm, c), TailOfBody(Segments.Joined(parts)), m, c);
    CutSegments(FieldLines(ks, fm, c)[m..], parts);
  }

  lemma CutSegments(left: seq<string>, parts: seq<string>)
    requires CutLines(left) && Segments.AllParagraphs(parts)
    ensures var segments := Segments.Paragraphs(Remnants.CutBody(left, parts));
      && (parts == [] ==> segments != [])
      && (parts != [] ==> exists y :: !AllSpace(y) && segments == [y + parts[0]] + parts[1..])
  {
    if parts == [] {
      Remnants.CutBodyAlone(left);
    } else {
      Remnants.CutBodyGlued(left, parts);
    }
  }

  // ---- the tier -----------------------------------------------------------------------------------

  lemma WarmReads(floats: FloatCodec)
    ensures ParseVal("warm", floats) == Str("warm")
  {
    var s := "warm";
    assert s[0] == 'w' && s[3] == 'm' && !IsSpace('w') && !IsSpace('m');
    assert ParseInt(s).None?;
    WordReads(s, floats);
  }

  /** Whatever part of the fields is read back, the node is not hot. */
  lemma RereadIsNotHot(ks: seq<string>, fm: map<string, Val>, floats: FloatCodec)
    requires "tier" in fm && fm["tier"] == Str("warm") && forall k :: k in ks ==> k in fm
    ensures !IsHot(Head(Reread(ks, fm, Standard(floats)), ks, ks))
  {
    WarmReads(floats);
    assert "warm" != "hot";
  }
}
