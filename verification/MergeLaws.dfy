/** What a merge keeps (samia/core/ia.py): the file it writes can be read, and holds every segment
    of the two nodes. */
module MergeLaws {
  import opened Options
  import opened LifecycleData
  import opened LifecycleLaws
  import opened NodeFields
  import Frontmatter
  import FrontmatterFixpoint
  import FrontmatterText
  import HeaderLines
  import MergedNode
  import Refreeze
  import Remnants
  import Scalars
  import SegmentSums
  import Segments
  import Strings
  import ThawedHeader

  function FoldedHead(w: World, a: string, b: string, env: Env): Frontmatter.Head
    requires CanMerge(w, a, b, env)
  {
    MergedParts(w, a, b, env).0
  }

  function FoldedBody(w: World, a: string, b: string, env: Env): string
    requires CanMerge(w, a, b, env)
  {
    MergedParts(w, a, b, env).1
  }

  /** What they are by the code's own merge. */
  lemma PartsAre(w: World, a: string, b: string, env: Env) returns (na: MergedNode.Numbers, nb: MergedNode.Numbers)
    requires IsStandard(env) && CanMerge(w, a, b, env)
    ensures var pa, pb := ParsedNode(w, a, env), ParsedNode(w, b, env);
      && FoldedHead(w, a, b, env) == MergedNode.MergedHead(a, pa.head, na, b, pb.head, nb, env.texts)
      && FoldedBody(w, a, b, env) == MergedNode.MergedBody(a, pa.body, b, pb.body)
  {
    var pa, pb := ParsedNode(w, a, env), ParsedNode(w, b, env);
    assert env.merged(a, pa, b, pb) == MergedNode.MergedFile(a, pa, b, pb, env.texts);
    na := MergedNode.NumbersOf(pa.head, env.texts).value;
    nb := MergedNode.NumbersOf(pb.head, env.texts).value;
  }

  lemma WrittenFile(w: World, a: string, b: string, env: Env)
    requires CanMerge(w, a, b, env)
    ensures var v := Merged(w, a, b, env);
      var path := PathOf(MergedName(a, b));
      path in v.nodes && v.nodes[path] == env.write(FoldedHead(w, a, b, env), FoldedBody(w, a, b, env))
  {
    WrittenText(w, a, b, env);
    MergedPathIsNew(a, b);
    FoldedKeeps(w, a, b, FoldedText(w, a, b, env));
  }

  lemma FoldedKeeps(w: World, a: string, b: string, text: string)
    requires PathOf(MergedName(a, b)) != PathOf(a) && PathOf(MergedName(a, b)) != PathOf(b)
    ensures var v := Folded(w, a, b, text);
      PathOf(MergedName(a, b)) in v.nodes && v.nodes[PathOf(MergedName(a, b))] == text
  {
  }

  lemma WrittenText(w: World, a: string, b: string, env: Env)
    requires CanMerge(w, a, b, env)
    ensures FoldedText(w, a, b, env) == env.write(FoldedHead(w, a, b, env), FoldedBody(w, a, b, env))
  {
  }

  // ---- the body --------------------------------------------------------------------------------

  lemma BodyStart(a: string, bodyA: string, b: string, bodyB: string)
    ensures var body := MergedNode.MergedBody(a, bodyA, b, bodyB);
      body != "" && body[0] != '\n' && !Strings.AllSpace(body)
  {
    TitleFirst(MergedNode.BehindTitle(a, bodyA, b, bodyB));
    StartsVisibly(MergedNode.MergedBody(a, bodyA, b, bodyB));
  }

  lemma TitleFirst(rest: string)
    ensures var body := MergedNode.Beside(MergedNode.TITLE, rest) + "\n"; body != "" && body[0] == '#'
  {
    assert MergedNode.TITLE[0] == '#';
  }

  lemma StartsVisibly(s: string)
    requires s != "" && s[0] == '#'
    ensures s[0] != '\n' && !Strings.AllSpace(s)
  {
  }

  lemma TrimmedSegments(body: string)
    requires body != "" && body[0] != '\n' && !Strings.AllSpace(body)
    ensures Segments.Paragraphs(FrontmatterText.Trimmed(body)) == Segments.Paragraphs(body)
  {
    Strings.StripRightToNothing(body);
    FrontmatterText.TrimmedNonEmpty(body);
    SegmentSums.EndKeepsParagraphs(body);
  }

  // ---- the tier ----------------------------------------------------------------------------------

  lemma HotHasNoDigit()
    ensures !Scalars.HasDigit("hot")
  {
  }

  lemma CoolAgain(raw: string, floats: Scalars.FloatCodec)
    requires Scalars.CodecOk(floats) && Scalars.ParseVal(raw, floats) != Scalars.Str("hot")
    ensures Scalars.ParseVal(Scalars.FmtVal(Scalars.ParseVal(raw, floats), floats), floats) != Scalars.Str("hot")
  {
    Scalars.ReadAgain(raw, floats);
    HotHasNoDigit();
  }

  lemma TierWasRead(w: World, a: string, b: string, env: Env)
    requires IsStandard(env) && Scalars.CodecOk(env.texts.floats) && CanMerge(w, a, b, env)
    ensures Cool(FoldedHead(w, a, b, env), env.texts.floats)
  {
    CoolHead(w.nodes[PathOf(a)], env);
    CoolHead(w.nodes[PathOf(b)], env);
    FoldedTier(w, a, b, env);
    CoolTier(ParsedNode(w, a, env).head, ParsedNode(w, b, env).head, FoldedHead(w, a, b, env), env.texts.floats);
  }

  lemma FoldedTier(w: World, a: string, b: string, env: Env)
    requires IsStandard(env) && CanMerge(w, a, b, env)
    ensures var ha, hb := ParsedNode(w, a, env).head, ParsedNode(w, b, env).head;
      Field(FoldedHead(w, a, b, env), "tier") == if Field(ha, "tier").Some? then Field(ha, "tier") else Field(hb, "tier")
  {
    var na, nb := PartsAre(w, a, b, env);
    MergedNode.MergedTier(a, ParsedNode(w, a, env).head, na, b, ParsedNode(w, b, env).head, nb, env.texts);
  }

  /** A tier that was read and is not hot. */
  ghost predicate Cool(h: Frontmatter.Head, floats: Scalars.FloatCodec) {
    "tier" in h.fm ==> exists raw :: h.fm["tier"] == Scalars.ParseVal(raw, floats) && h.fm["tier"] != Scalars.Str("hot")
  }

  lemma CoolHead(text: string, env: Env)
    requires IsStandard(env) && Scalars.CodecOk(env.texts.floats) && env.parse(text).Parsed? && !IsHot(env.parse(text).head)
    ensures Cool(env.parse(text).head, env.texts.floats)
  {
    var h := env.parse(text).head;
    Refreeze.ParsedHeadIsGood(text, env);
    if "tier" in h.fm {
      var raw :| h.fm["tier"] == Values(env).read(raw);
      assert h.fm["tier"] == Scalars.ParseVal(raw, env.texts.floats);
    }
  }

  lemma CoolTier(ha: Frontmatter.Head, hb: Frontmatter.Head, m: Frontmatter.Head, floats: Scalars.FloatCodec)
    requires Cool(ha, floats) && Cool(hb, floats)
    requires Field(m, "tier") == if Field(ha, "tier").Some? then Field(ha, "tier") else Field(hb, "tier")
    ensures Cool(m, floats)
  {
  }

  lemma RereadIsCool(ks: seq<string>, fm: map<string, Scalars.Val>, raw: string, floats: Scalars.FloatCodec)
    requires Scalars.CodecOk(floats) && forall k :: k in ks ==> k in fm
    requires "tier" in fm ==> fm["tier"] == Scalars.ParseVal(raw, floats) && fm["tier"] != Scalars.Str("hot")
    ensures !IsHot(Frontmatter.Head(Frontmatter.Reread(ks, fm, HeaderLines.Standard(floats)), ks, ks))
  {
    if "tier" in fm { CoolAgain(raw, floats); }
  }

  // ---- the header ----------------------------------------------------------------------------------

  lemma FoldedIsDict(w: World, a: string, b: string, env: Env)
    requires IsStandard(env) && Scalars.CodecOk(env.texts.floats) && CanMerge(w, a, b, env)
    ensures Frontmatter.IsDict(FoldedHead(w, a, b, env))
  {
    var na, nb := PartsAre(w, a, b, env);
    Refreeze.ParsedHeadIsDict(w.nodes[PathOf(a)], env);
    Refreeze.ParsedHeadIsDict(w.nodes[PathOf(b)], env);
    MergedNode.MergedIsDict(a, ParsedNode(w, a, env).head, na, b, ParsedNode(w, b, env).head, nb, env.texts);
  }

  predicate CleanKeys(h: Frontmatter.Head) {
    forall k :: k in h.fm ==> HeaderLines.KeyOk(k)
  }

  lemma ParsedKeysAreClean(text: string, env: Env)
    requires IsStandard(env) && Scalars.CodecOk(env.texts.floats) && env.parse(text).Parsed?
    ensures CleanKeys(env.parse(text).head)
  {
    var h := env.parse(text).head;
    Refreeze.ParsedHeadIsGood(text, env);
    FrontmatterFixpoint.ProperEmitsKeys(h, Values(env));
    forall k | k in h.fm ensures HeaderLines.KeyOk(k) {
      assert k in h.keys;
      var i :| 0 <= i < |h.keys| && h.keys[i] == k;
    }
  }

  lemma MergeKeyOk(k: string)
    requires MergedNode.IsMergeKey(k)
    ensures HeaderLines.KeyOk(k)
  {
  }

  lemma FoldedField(w: World, a: string, b: string, env: Env, k: string)
    requires IsStandard(env) && CanMerge(w, a, b, env) && !MergedNode.IsMergeKey(k)
    ensures var ha, hb := ParsedNode(w, a, env).head, ParsedNode(w, b, env).head;
      Field(FoldedHead(w, a, b, env), k) == if Field(ha, k).Some? then Field(ha, k) else Field(hb, k)
  {
    var na, nb := PartsAre(w, a, b, env);
    MergedNode.MergedOther(a, ParsedNode(w, a, env).head, na, b, ParsedNode(w, b, env).head, nb, env.texts, k);
  }

  lemma FoldedKeysAreClean(w: World, a: string, b: string, env: Env)
    requires IsStandard(env) && Scalars.CodecOk(env.texts.floats) && CanMerge(w, a, b, env)
    ensures CleanKeys(FoldedHead(w, a, b, env))
  {
    ParsedKeysAreClean(w.nodes[PathOf(a)], env);
    ParsedKeysAreClean(w.nodes[PathOf(b)], env);
    forall k | k in FoldedHead(w, a, b, env).fm ensures HeaderLines.KeyOk(k) {
      if MergedNode.IsMergeKey(k) { MergeKeyOk(k); } else { FoldedField(w, a, b, env, k); }
    }
  }

  lemma FoldedHasKeys(w: World, a: string, b: string, env: Env)
    requires IsStandard(env) && CanMerge(w, a, b, env)
    ensures "name" in FoldedHead(w, a, b, env).fm
  {
    var na, nb := PartsAre(w, a, b, env);
    MergedNode.MergedTexts(a, ParsedNode(w, a, env).head, na, b, ParsedNode(w, b, env).head, nb, env.texts);
  }

  /** What holds of the merged header, and of the keys in the order they are written. */
  lemma FoldedKeys(w: World, a: string, b: string, env: Env) returns (ks: seq<string>)
    requires IsStandard(env) && Scalars.CodecOk(env.texts.floats) && CanMerge(w, a, b, env)
    ensures ks == Frontmatter.EmittedKeys(FoldedHead(w, a, b, env)) && Frontmatter.IsDict(FoldedHead(w, a, b, env))
    ensures ks != [] && Frontmatter.Distinct(ks) && Frontmatter.KeysOk(ks)
    ensures forall k :: k in ks <==> k in FoldedHead(w, a, b, env).fm
  {
    var m := FoldedHead(w, a, b, env);
    ks := Frontmatter.EmittedKeys(m);
    FoldedIsDict(w, a, b, env);
    FoldedKeysAreClean(w, a, b, env);
    FoldedHasKeys(w, a, b, env);
    Frontmatter.EmittedAreFields(m);
    assert "name" in ks;
    forall i | 0 <= i < |ks| ensures HeaderLines.KeyOk(ks[i]) { assert ks[i] in ks; }
  }

  // ---- reading the written file ----------------------------------------------------------------------

  /** The text of the file with a header of these keys. */
  function KeyedText(ks: seq<string>, m: Frontmatter.Head, body: string, env: Env): string {
    Frontmatter.Fenced(Frontmatter.FieldLines(ks, m.fm, Values(env)), Frontmatter.TailOfBody(body))
  }

  lemma FoldedIsWritten(w: World, a: string, b: string, env: Env)
    requires IsStandard(env) && CanMerge(w, a, b, env)
    ensures var m, body := FoldedHead(w, a, b, env), FoldedBody(w, a, b, env);
      ParsedNode(Merged(w, a, b, env), MergedName(a, b), env)
      == Frontmatter.ParseText(KeyedText(Frontmatter.EmittedKeys(m), m, body, env), Values(env))
  {
    var m, body := FoldedHead(w, a, b, env), FoldedBody(w, a, b, env);
    WrittenFile(w, a, b, env);
    assert env.write(m, body) == Frontmatter.Serialized(m, body, Values(env));
    assert env.parse(env.write(m, body)) == Frontmatter.ParseText(env.write(m, body), Values(env));
  }

  ghost predicate GoodKeys(ks: seq<string>, m: Frontmatter.Head, env: Env) {
    && ks != [] && Frontmatter.Distinct(ks) && Frontmatter.KeysOk(ks) && (forall k :: k in ks ==> k in m.fm)
    && Frontmatter.Printable(m.fm, Values(env)) && Cool(m, env.texts.floats) && Scalars.CodecOk(env.texts.floats)
  }

  lemma RereadIsNotHot(ks: seq<string>, m: Frontmatter.Head, env: Env)
    requires Cool(m, env.texts.floats) && Scalars.CodecOk(env.texts.floats) && forall k :: k in ks ==> k in m.fm
    ensures !IsHot(Frontmatter.Head(Frontmatter.Reread(ks, m.fm, Values(env)), ks, ks))
  {
    var raw: string := "";
    if "tier" in m.fm {
      raw :| m.fm["tier"] == Scalars.ParseVal(raw, env.texts.floats) && m.fm["tier"] != Scalars.Str("hot");
    }
    RereadIsCool(ks, m.fm, raw, env.texts.floats);
  }

  /** Without a later key that looks like the fence the body comes back. */
  lemma ReadsWhole(ks: seq<string>, m: Frontmatter.Head, body: string, env: Env)
    requires GoodKeys(ks, m, env) && ThawedHeader.NoLaterFence(ks)
    ensures var p := Frontmatter.ParseText(KeyedText(ks, m, body, env), Values(env));
      p.Parsed? && !IsHot(p.head) && p.body == FrontmatterText.Trimmed(body)
  {
    HeaderLines.StandardReadsFields(env.texts.floats);
    Frontmatter.ParseGoodLines(ks, m.fm, body, Values(env));
    RereadIsNotHot(ks, m, env);
  }

  /** With one, the rest of the header comes in front of the body. */
  lemma ReadsCut(ks: seq<string>, m: Frontmatter.Head, body: string, env: Env) returns (left: seq<string>)
    requires GoodKeys(ks, m, env) && !ThawedHeader.NoLaterFence(ks)
    ensures ThawedHeader.CutLines(left)
    ensures var p := Frontmatter.ParseText(KeyedText(ks, m, body, env), Values(env));
      p.Parsed? && !IsHot(p.head) && p.body == Remnants.Remnant(left) + Frontmatter.TailOfBody(body)
  {
    var c := Values(env);
    ThawedHeader.CutBefore(ks, m.fm, c);
    var n := FrontmatterText.Cut(Frontmatter.FieldLines(ks, m.fm, c));
    left := Frontmatter.FieldLines(ks, m.fm, c)[n..];
    ThawedHeader.LeftInked(ks, m.fm, c, n);
    HeaderLines.StandardReadsFields(env.texts.floats);
    ThawedHeader.ReadBeforeCut(ks, n, m.fm, c);
    ThawedHeader.ParseCut(Frontmatter.FieldLines(ks, m.fm, c), Frontmatter.TailOfBody(body), n, c);
    RereadIsNotHot(ks[..n], m, env);
  }

  // ---- the segments ----------------------------------------------------------------------------------

  lemma TitleIsParagraph()
    ensures Segments.IsParagraph(MergedNode.TITLE)
  {
    var t := MergedNode.TITLE;
    assert t[0] == '#' && t[|t| - 1] == 'e' && '\n' !in t;
  }

  lemma {:induction false} StripRightBehind(x: string, y: string)
    requires !Strings.AllSpace(y)
    ensures Strings.StripRight(x + y) == x + Strings.StripRight(y)
  {
    var n := |y| - 1;
    assert (x + y)[|x| + n] == y[n];
    if Strings.IsSpace(y[n]) {
      assert (x + y)[..|x| + n] == x + y[..n];
      assert y == y[..n] + [y[n]];
      StripRightBehind(x, y[..n]);
    }
  }

  /** The end of a merged body. */
  lemma TailBehindTitle(rest: string)
    requires rest != "" && rest[0] == '#'
    ensures Frontmatter.TailOfBody(MergedNode.Beside(MergedNode.TITLE, rest) + "\n")
         == MergedNode.TITLE + ("\n\n" + (Strings.StripRight(rest) + "\n"))
    ensures Strings.StripRight(rest) != "" && Strings.StripRight(rest)[0] == '#'
  {
    StartsVisibly(rest);
    Strings.StripRightToNothing(rest);
    StripBeside(MergedNode.TITLE, rest);
    BesideEnd(MergedNode.TITLE, Strings.StripRight(rest));
  }

  lemma BesideEnd(t: string, y: string)
    ensures MergedNode.Beside(t, y) + "\n" == t + ("\n\n" + (y + "\n"))
  {
  }

  lemma StripBeside(t: string, rest: string)
    requires !Strings.AllSpace(rest)
    ensures Strings.StripRight(MergedNode.Beside(t, rest) + "\n") == MergedNode.Beside(t, Strings.StripRight(rest))
  {
    StripRightOnce(MergedNode.Beside(t, rest));
    BesideLeft(t, rest);
    BesideLeft(t, Strings.StripRight(rest));
    StripRightBehind(t + "\n\n", rest);
  }

  lemma BesideLeft(t: string, y: string)
    ensures MergedNode.Beside(t, y) == (t + "\n\n") + y
  {
  }

  lemma StripRightOnce(s: string)
    ensures Strings.StripRight(s + "\n") == Strings.StripRight(s)
  {
    assert (s + "\n")[..|s|] == s;
  }

  /** With a rest of the header in front, the first segment is not the title. */
  lemma TitleIsGlued(left: seq<string>, rest: string)
    requires ThawedHeader.CutLines(left) && rest != "" && rest[0] == '#'
    ensures var segments := Segments.Paragraphs(Remnants.Remnant(left)
                              + Frontmatter.TailOfBody(MergedNode.Beside(MergedNode.TITLE, rest) + "\n"));
      segments != [] && segments[0] != MergedNode.TITLE
  {
    var t, y := MergedNode.TITLE, Strings.StripRight(rest) + "\n";
    TailBehindTitle(rest);
    TitleIsParagraph();
    Remnants.RemnantIsInked(left);
    Remnants.RemnantSolid(left, t);
    Remnants.GluedStrip(Remnants.Remnant(left), t);
    Segments.FirstParagraph(Remnants.Remnant(left) + t, y);
    Remnants.Regroup(Remnants.Remnant(left), t, "\n\n" + y);
  }

  /** The segments a merge is to keep: its headings, and in between and in order those of the two
      nodes. */
  function KeptSegments(w: World, a: string, b: string, env: Env): seq<string>
    requires CanMerge(w, a, b, env)
  {
    [MergedNode.TITLE] + [Strings.Strip(MergedNode.Heading(a))] + env.paragraphs(ParsedNode(w, a, env).body)
    + [Strings.Strip(MergedNode.Heading(b))] + env.paragraphs(ParsedNode(w, b, env).body)
  }

  lemma FoldedSegments(w: World, a: string, b: string, env: Env)
    requires IsStandard(env) && CanMerge(w, a, b, env) && '\n' !in a && '\n' !in b
    ensures env.paragraphs(FrontmatterText.Trimmed(FoldedBody(w, a, b, env))) == KeptSegments(w, a, b, env)
  {
    var bodyA, bodyB := ParsedNode(w, a, env).body, ParsedNode(w, b, env).body;
    var na, nb := PartsAre(w, a, b, env);
    BodyStart(a, bodyA, b, bodyB);
    TrimmedSegments(FoldedBody(w, a, b, env));
    MergedNode.MergedSegments(a, bodyA, b, bodyB);
    assert env.paragraphs(bodyA) == Segments.Paragraphs(bodyA) && env.paragraphs(bodyB) == Segments.Paragraphs(bodyB);
    assert env.paragraphs(FrontmatterText.Trimmed(FoldedBody(w, a, b, env)))
        == Segments.Paragraphs(FrontmatterText.Trimmed(FoldedBody(w, a, b, env)));
  }

  lemma FoldedIsGlued(w: World, a: string, b: string, left: seq<string>, env: Env)
    requires IsStandard(env) && CanMerge(w, a, b, env) && ThawedHeader.CutLines(left)
    ensures env.paragraphs(Remnants.Remnant(left) + Frontmatter.TailOfBody(FoldedBody(w, a, b, env))) != KeptSegments(w, a, b, env)
  {
    var na, nb := PartsAre(w, a, b, env);
    var bodyA, bodyB := ParsedNode(w, a, env).body, ParsedNode(w, b, env).body;
    HeadingFirst(a, bodyA, b, bodyB);
    TitleIsGlued(left, MergedNode.BehindTitle(a, bodyA, b, bodyB));
    StandardParagraphs(Remnants.Remnant(left) + Frontmatter.TailOfBody(FoldedBody(w, a, b, env)), env);
    TitleFirstKept(w, a, b, env);
  }

  lemma HeadingFirst(a: string, bodyA: string, b: string, bodyB: string)
    ensures var rest := MergedNode.BehindTitle(a, bodyA, b, bodyB); rest != "" && rest[0] == '#'
  {
    assert MergedNode.Heading(a)[0] == "## From "[0];
  }

  lemma TitleFirstKept(w: World, a: string, b: string, env: Env)
    requires CanMerge(w, a, b, env)
    ensures KeptSegments(w, a, b, env) != [] && KeptSegments(w, a, b, env)[0] == MergedNode.TITLE
  {
  }

  // ---- the theorem -----------------------------------------------------------------------------------

  /** A merged node can always be frozen. Its segments are its headings and, in between and in order,
      exactly those of the two nodes, exactly when no key of its header but the first starts like
      the closing fence. */
  lemma MergeKeepsSegmentsExactlyWhen(w: World, a: string, b: string, env: Env)
    requires IsStandard(env) && Scalars.CodecOk(env.texts.floats) && CanMerge(w, a, b, env) && '\n' !in a && '\n' !in b
    requires Frontmatter.Printable(FoldedHead(w, a, b, env).fm, Values(env))
    ensures var v := Merged(w, a, b, env);
      && CanFreeze(v, MergedName(a, b), env)
      && (env.paragraphs(ParsedNode(v, MergedName(a, b), env).body) == KeptSegments(w, a, b, env)
          <==> ThawedHeader.NoLaterFence(Frontmatter.EmittedKeys(FoldedHead(w, a, b, env))))
  {
    var m, body := FoldedHead(w, a, b, env), FoldedBody(w, a, b, env);
    var ks := FoldedKeys(w, a, b, env);
    TierWasRead(w, a, b, env);
    FoldedIsWritten(w, a, b, env);
    if ThawedHeader.NoLaterFence(ks) {
      ReadsWhole(ks, m, body, env);
      FoldedSegments(w, a, b, env);
    } else {
      var left := ReadsCut(ks, m, body, env);
      FoldedIsGlued(w, a, b, left, env);
    }
  }
}
