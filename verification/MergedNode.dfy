/** The node file that a merge writes (samia/core/ia.py). */
module MergedNode {
  import opened Options
  import opened Strings
  import opened Scalars
  import opened Frontmatter
  import opened NodeFields
  import Segments
  import SegmentSums

  // ---- coercions ----------------------------------------------------------------------------

  /** `int(v)`; None where it raises. */
  function AsInt(v: Val): Option<int> {
    match v
    case Bool(b) => Some(if b then 1 else 0)
    case Int(n) => Some(n)
    case Float(x) => Some(Truncated(x))
    case List(_) => None
    case Str(s) => ParseInt(Strip(s))
  }

  /** `float(v)`; None where it raises. */
  function AsReal(v: Val, t: Texts): Option<real> {
    match v
    case Bool(b) => Some(if b then 1.0 else 0.0)
    case Int(n) => Some(n as real)
    case Float(x) => Some(x)
    case List(_) => None
    case Str(s) => t.floats.read(Strip(s))
  }

  function Numeric(v: Val): Option<real> {
    match v
    case Bool(b) => Some(if b then 1.0 else 0.0)
    case Int(n) => Some(n as real)
    case Float(x) => Some(x)
    case _ => None
  }

  /** `v == u`: booleans and numbers compare by value. */
  predicate PyEq(v: Val, u: Val) {
    if Numeric(v).Some? && Numeric(u).Some? then Numeric(v) == Numeric(u) else v == u
  }

  /** `x < y` on strings */
  predicate Less(x: string, y: string) {
    y != "" && (x == "" || x[0] < y[0] || (x[0] == y[0] && Less(x[1..], y[1..])))
  }

  function Latest(x: string, y: string): string {
    if Less(x, y) then y else x
  }

  function GetOr(h: Head, k: string, default: Val): Val {
    match Field(h, k) case Some(v) => v case None => default
  }

  // ---- the header ------------------------------------------------------------------------------

  /** `{**fm_b, **fm_a}` with the key order of `a`. */
  function Union(ha: Head, hb: Head): Head {
    Head(hb.fm + ha.fm, hb.keys + Missing(ha.keys, hb.keys), ha.order)
  }

  function MergedTitle(a: string, ha: Head, b: string, hb: Head, t: Texts): string {
    "[MERGED] " + PyStr(GetOr(ha, "name", Str(a)), t) + " + " + PyStr(GetOr(hb, "name", Str(b)), t)
  }

  /** The common runtime, or the default one. */
  function MergedRuntime(ha: Head, hb: Head): Val {
    var ra, rb := GetOr(ha, "runtime", Str("main")), GetOr(hb, "runtime", Str("main"));
    if PyEq(ra, rb) then ra else Str("main")
  }

  function MergedDescription(ha: Head, hb: Head, t: Texts): string {
    var d := "MERGED " + PyStr(GetOr(ha, "description", Str("")), t) + " | " + PyStr(GetOr(hb, "description", Str("")), t);
    if |d| <= 200 then d else d[..200]
  }

  function MergedAccess(ha: Head, hb: Head, t: Texts): string {
    Latest(PyStr(GetOr(ha, "last_access", Str("")), t), PyStr(GetOr(hb, "last_access", Str("")), t))
  }

  /** The coerced numbers of a header: access count and relevance. */
  datatype Numbers = Numbers(count: int, relevance: real)

  function NumbersOf(h: Head, t: Texts): Option<Numbers> {
    var count, relevance := AsInt(GetOr(h, "access_count", Int(0))), AsReal(GetOr(h, "relevance", Float(0.5)), t);
    if count.Some? && relevance.Some? then Some(Numbers(count.value, relevance.value)) else None
  }

  function Larger(x: real, y: real): real {
    if y > x then y else x
  }

  /** The combined fields, set one after the other. */
  function WithCombined(h: Head, title: Val, runtime: Val, description: Val, count: Val, relevance: Val, lastAccess: Val): Head {
    var h1 := WithField(h, "name", title);
    var h2 := WithField(h1, "runtime", runtime);
    var h3 := WithField(h2, "description", description);
    var h4 := WithField(h3, "access_count", count);
    var h5 := WithField(h4, "relevance", relevance);
    WithField(h5, "last_access", lastAccess)
  }

  function MergedHead(a: string, ha: Head, na: Numbers, b: string, hb: Head, nb: Numbers, t: Texts): Head {
    WithCombined(
      Union(ha, hb),
      Str(MergedTitle(a, ha, b, hb, t)),
      MergedRuntime(ha, hb),
      Str(MergedDescription(ha, hb, t)),
      Int(na.count + nb.count),
      Float(Larger(na.relevance, nb.relevance)),
      Str(MergedAccess(ha, hb, t)))
  }

  // ---- the body ----------------------------------------------------------------------------------

  const TITLE := "# Merged node"

  function Heading(name: string): string {
    "## From " + name
  }

  /** Two texts with a blank line in between. */
  function Beside(x: string, y: string): string {
    x + ("\n\n" + y)
  }

  /** What follows the title. */
  function BehindTitle(a: string, bodyA: string, b: string, bodyB: string): string {
    Beside(Heading(a), Beside(Strip(bodyA), Beside(Heading(b), Strip(bodyB))))
  }

  function MergedBody(a: string, bodyA: string, b: string, bodyB: string): string {
    Beside(TITLE, BehindTitle(a, bodyA, b, bodyB)) + "\n"
  }

  /** The header and the body of the file; None where a header is missing, or a number in one cannot
      be coerced. */
  function MergedFile(a: string, pa: Parsed, b: string, pb: Parsed, t: Texts): Option<(Head, string)> {
    if pa.Parsed? && pb.Parsed? then
      match (NumbersOf(pa.head, t), NumbersOf(pb.head, t))
      case (Some(na), Some(nb)) =>
        Some((MergedHead(a, pa.head, na, b, pb.head, nb, t), MergedBody(a, pa.body, b, pb.body)))
      case _ => None
    else None
  }

  // ---- what the header keeps ------------------------------------------------------------------------

  predicate IsMergeKey(k: string) {
    k == "name" || k == "runtime" || k == "description" || k == "access_count" || k == "relevance" || k == "last_access"
  }

  lemma FieldSet(h: Head, k: string, v: Val, j: string)
    ensures Field(WithField(h, k, v), j) == if j == k then Some(v) else Field(h, j)
  {
  }

  lemma FieldIsDict(h: Head, k: string, v: Val)
    requires IsDict(h)
    ensures IsDict(WithField(h, k, v))
  {
  }

  lemma CombinedOther(h: Head, title: Val, runtime: Val, description: Val, count: Val, relevance: Val, lastAccess: Val, j: string)
    requires !IsMergeKey(j)
    ensures var m := WithCombined(h, title, runtime, description, count, relevance, lastAccess);
      Field(m, j) == Field(h, j)
  {
    var h1 := WithField(h, "name", title);
    var h2 := WithField(h1, "runtime", runtime);
    var h3 := WithField(h2, "description", description);
    var h4 := WithField(h3, "access_count", count);
    var h5 := WithField(h4, "relevance", relevance);
    FieldSet(h, "name", title, j);
    FieldSet(h1, "runtime", runtime, j);
    FieldSet(h2, "description", description, j);
    FieldSet(h3, "access_count", count, j);
    FieldSet(h4, "relevance", relevance, j);
    FieldSet(h5, "last_access", lastAccess, j);
  }

  lemma CombinedIsDict(h: Head, title: Val, runtime: Val, description: Val, count: Val, relevance: Val, lastAccess: Val)
    requires IsDict(h)
    ensures IsDict(WithCombined(h, title, runtime, description, count, relevance, lastAccess))
  {
    var h1 := WithField(h, "name", title);
    var h2 := WithField(h1, "runtime", runtime);
    var h3 := WithField(h2, "description", description);
    var h4 := WithField(h3, "access_count", count);
    var h5 := WithField(h4, "relevance", relevance);
    FieldIsDict(h, "name", title);
    FieldIsDict(h1, "runtime", runtime);
    FieldIsDict(h2, "description", description);
    FieldIsDict(h3, "access_count", count);
    FieldIsDict(h4, "relevance", relevance);
    FieldIsDict(h5, "last_access", lastAccess);
  }

  lemma CombinedNumbers(h: Head, title: Val, runtime: Val, description: Val, count: Val, relevance: Val, lastAccess: Val)
    ensures var m := WithCombined(h, title, runtime, description, count, relevance, lastAccess);
      Field(m, "access_count") == Some(count) && Field(m, "relevance") == Some(relevance)
  {
    var h3 := WithField(WithField(WithField(h, "name", title), "runtime", runtime), "description", description);
    LastThree(h3, count, relevance, lastAccess);
  }

  lemma CombinedTexts(h: Head, title: Val, runtime: Val, description: Val, count: Val, relevance: Val, lastAccess: Val)
    ensures var m := WithCombined(h, title, runtime, description, count, relevance, lastAccess);
      && Field(m, "name") == Some(title) && Field(m, "runtime") == Some(runtime)
      && Field(m, "description") == Some(description) && Field(m, "last_access") == Some(lastAccess)
  {
    var h3 := WithField(WithField(WithField(h, "name", title), "runtime", runtime), "description", description);
    FirstThree(h, title, runtime, description);
    BehindThree(h3, count, relevance, lastAccess, "name");
    BehindThree(h3, count, relevance, lastAccess, "runtime");
    BehindThree(h3, count, relevance, lastAccess, "description");
  }

  lemma FirstThree(h: Head, title: Val, runtime: Val, description: Val)
    ensures var m := WithField(WithField(WithField(h, "name", title), "runtime", runtime), "description", description);
      Field(m, "name") == Some(title) && Field(m, "runtime") == Some(runtime) && Field(m, "description") == Some(description)
  {
    assert "name"[0] != "runtime"[0] && "name"[0] != "description"[0] && "runtime"[0] != "description"[0];
  }

  lemma BehindThree(h: Head, count: Val, relevance: Val, lastAccess: Val, k: string)
    requires k == "name" || k == "runtime" || k == "description"
    ensures var m := WithField(WithField(WithField(h, "access_count", count), "relevance", relevance), "last_access", lastAccess);
      Field(m, k) == Field(h, k) && Field(m, "last_access") == Some(lastAccess)
  {
    assert k[0] == 'n' || k[1] == 'u' || k[0] == 'd';
    assert "relevance"[0] == 'r' && "relevance"[1] == 'e' && "access_count"[0] == 'a' && "last_access"[0] == 'l';
  }

  lemma LastThree(h: Head, count: Val, relevance: Val, lastAccess: Val)
    ensures var m := WithField(WithField(WithField(h, "access_count", count), "relevance", relevance), "last_access", lastAccess);
      Field(m, "access_count") == Some(count) && Field(m, "relevance") == Some(relevance)
  {
    NumberKeysDiffer();
  }

  lemma NumberKeysDiffer()
    ensures "access_count" != "relevance" && "access_count" != "last_access" && "relevance" != "last_access"
  {
    assert "access_count"[0] != "relevance"[0] && "relevance"[0] != "last_access"[0];
  }

  lemma UnionIsDict(ha: Head, hb: Head)
    requires IsDict(ha) && IsDict(hb)
    ensures IsDict(Union(ha, hb))
  {
    MissingAre(ha.keys, hb.keys);
    DistinctSum(hb.keys, Missing(ha.keys, hb.keys));
  }

  lemma UnionField(ha: Head, hb: Head, k: string)
    ensures Field(Union(ha, hb), k) == if Field(ha, k).Some? then Field(ha, k) else Field(hb, k)
  {
  }

  lemma {:induction false} LessIsStrict(x: string, y: string)
    ensures !Less(x, x) && !(Less(x, y) && Less(y, x))
  {
    if x != "" {
      LessIsStrict(x[1..], if y != "" then y[1..] else "");
    }
  }

  /** The later of two texts is before neither. */
  lemma LatestIsLast(x: string, y: string)
    ensures !Less(Latest(x, y), x) && !Less(Latest(x, y), y) && (Latest(x, y) == x || Latest(x, y) == y)
  {
    LessIsStrict(x, y);
    LessIsStrict(y, x);
  }

  /** A merged header has every field of both, those of the first node where both have one, but
      for the six that are combined: counts add up, the larger relevance and the later day of
      access stay, and the runtime is the common one or the default. */
  lemma MergedFields(a: string, ha: Head, na: Numbers, b: string, hb: Head, nb: Numbers, t: Texts, k: string)
    requires IsDict(ha) && IsDict(hb)
    ensures var m := MergedHead(a, ha, na, b, hb, nb, t);
      && IsDict(m)
      && (!IsMergeKey(k) ==> Field(m, k) == if Field(ha, k).Some? then Field(ha, k) else Field(hb, k))
      && Field(m, "access_count") == Some(Int(na.count + nb.count))
      && Field(m, "relevance") == Some(Float(Larger(na.relevance, nb.relevance)))
      && Field(m, "name") == Some(Str(MergedTitle(a, ha, b, hb, t)))
      && Field(m, "runtime") == Some(MergedRuntime(ha, hb))
      && Field(m, "description") == Some(Str(MergedDescription(ha, hb, t)))
      && Field(m, "last_access") == Some(Str(MergedAccess(ha, hb, t)))
      && (!IsHot(ha) && !IsHot(hb) ==> !IsHot(m))
  {
    MergedIsDict(a, ha, na, b, hb, nb, t);
    if !IsMergeKey(k) { MergedOther(a, ha, na, b, hb, nb, t, k); }
    MergedTier(a, ha, na, b, hb, nb, t);
    MergedNumbers(a, ha, na, b, hb, nb, t);
    MergedTexts(a, ha, na, b, hb, nb, t);
  }

  lemma MergedOther(a: string, ha: Head, na: Numbers, b: string, hb: Head, nb: Numbers, t: Texts, k: string)
    requires !IsMergeKey(k)
    ensures Field(MergedHead(a, ha, na, b, hb, nb, t), k) == if Field(ha, k).Some? then Field(ha, k) else Field(hb, k)
  {
    UnionField(ha, hb, k);
    CombinedOther(Union(ha, hb), Str(MergedTitle(a, ha, b, hb, t)), MergedRuntime(ha, hb), Str(MergedDescription(ha, hb, t)),
                  Int(na.count + nb.count), Float(Larger(na.relevance, nb.relevance)), Str(MergedAccess(ha, hb, t)), k);
  }

  lemma TierIsKept()
    ensures !IsMergeKey("tier")
  {
    assert "tier"[0] == 't';
  }

  lemma MergedTier(a: string, ha: Head, na: Numbers, b: string, hb: Head, nb: Numbers, t: Texts)
    ensures Field(MergedHead(a, ha, na, b, hb, nb, t), "tier")
         == if Field(ha, "tier").Some? then Field(ha, "tier") else Field(hb, "tier")
  {
    TierIsKept();
    MergedOther(a, ha, na, b, hb, nb, t, "tier");
  }

  lemma MergedIsDict(a: string, ha: Head, na: Numbers, b: string, hb: Head, nb: Numbers, t: Texts)
    requires IsDict(ha) && IsDict(hb)
    ensures IsDict(MergedHead(a, ha, na, b, hb, nb, t))
  {
    UnionIsDict(ha, hb);
    CombinedIsDict(Union(ha, hb), Str(MergedTitle(a, ha, b, hb, t)), MergedRuntime(ha, hb), Str(MergedDescription(ha, hb, t)),
                   Int(na.count + nb.count), Float(Larger(na.relevance, nb.relevance)), Str(MergedAccess(ha, hb, t)));
  }

  lemma MergedTexts(a: string, ha: Head, na: Numbers, b: string, hb: Head, nb: Numbers, t: Texts)
    ensures var m := MergedHead(a, ha, na, b, hb, nb, t);
      && Field(m, "name") == Some(Str(MergedTitle(a, ha, b, hb, t)))
      && Field(m, "runtime") == Some(MergedRuntime(ha, hb))
      && Field(m, "description") == Some(Str(MergedDescription(ha, hb, t)))
      && Field(m, "last_access") == Some(Str(MergedAccess(ha, hb, t)))
  {
    CombinedTexts(Union(ha, hb), Str(MergedTitle(a, ha, b, hb, t)), MergedRuntime(ha, hb), Str(MergedDescription(ha, hb, t)),
                  Int(na.count + nb.count), Float(Larger(na.relevance, nb.relevance)), Str(MergedAccess(ha, hb, t)));
  }

  lemma MergedNumbers(a: string, ha: Head, na: Numbers, b: string, hb: Head, nb: Numbers, t: Texts)
    ensures var m := MergedHead(a, ha, na, b, hb, nb, t);
      && Field(m, "access_count") == Some(Int(na.count + nb.count))
      && Field(m, "relevance") == Some(Float(Larger(na.relevance, nb.relevance)))
  {
    CombinedNumbers(Union(ha, hb), Str(MergedTitle(a, ha, b, hb, t)), MergedRuntime(ha, hb), Str(MergedDescription(ha, hb, t)),
                    Int(na.count + nb.count), Float(Larger(na.relevance, nb.relevance)), Str(MergedAccess(ha, hb, t)));
  }

  // ---- what the body keeps ---------------------------------------------------------------------------

  lemma HeadingParagraph(name: string)
    requires '\n' !in name
    ensures Segments.Paragraphs(Heading(name)) == [Strip(Heading(name))]
  {
    var h := Heading(name);
    assert h[0] == '#' && '\n' !in h;
    StripToNothing(h);
    SegmentSums.LineParagraph(h);
  }

  lemma TitleParagraph()
    ensures Segments.Paragraphs(TITLE) == [TITLE]
  {
    assert TITLE[0] == '#' && TITLE[|TITLE| - 1] == 'e';
    StripOfStripped(TITLE);
    SegmentSums.LineParagraph(TITLE);
  }

  /** Texts a blank line apart have the paragraphs of all of them. */
  lemma FiveParts(z: string, h: string, x: string, k: string, y: string)
    ensures Segments.Paragraphs(Beside(z, Beside(h, Beside(x, Beside(k, y)))) + "\n")
         == Segments.Paragraphs(z) + Segments.Paragraphs(h) + Segments.Paragraphs(x) + Segments.Paragraphs(k)
            + Segments.Paragraphs(y)
  {
    SegmentSums.NewlineBehind(Beside(z, Beside(h, Beside(x, Beside(k, y)))));
    SegmentSums.BlankLineAdds(z, Beside(h, Beside(x, Beside(k, y))));
    SegmentSums.BlankLineAdds(h, Beside(x, Beside(k, y)));
    SegmentSums.BlankLineAdds(x, Beside(k, y));
    SegmentSums.BlankLineAdds(k, y);
    Chained(Segments.Paragraphs(z), Segments.Paragraphs(h), Segments.Paragraphs(x), Segments.Paragraphs(k),
            Segments.Paragraphs(y));
  }

  lemma Chained(a: seq<string>, b: seq<string>, c: seq<string>, d: seq<string>, e: seq<string>)
    ensures a + (b + (c + (d + e))) == a + b + c + d + e
  {
  }

  /** The segments of a merged node: its headings, and between them exactly the segments of the two
      nodes, in their order. */
  lemma MergedSegments(a: string, bodyA: string, b: string, bodyB: string)
    requires '\n' !in a && '\n' !in b
    ensures Segments.Paragraphs(MergedBody(a, bodyA, b, bodyB))
         == [TITLE] + [Strip(Heading(a))] + Segments.Paragraphs(bodyA) + [Strip(Heading(b))] + Segments.Paragraphs(bodyB)
  {
    FiveParts(TITLE, Heading(a), Strip(bodyA), Heading(b), Strip(bodyB));
    SegmentSums.StripKeepsParagraphs(bodyA);
    SegmentSums.StripKeepsParagraphs(bodyB);
    TitleParagraph();
    HeadingParagraph(a);
    HeadingParagraph(b);
  }
}
