/** The combined fields of a merged node (samia/core/ia.py), from the fields of the two headers. */
module MergedValues {
  import opened Filters
  import opened Frontmatter
  import opened HeaderLaws
  import opened MergedNode
  import opened NodeFields
  import opened Options
  import opened Scalars
  import opened WebLaws
  import Decimals
  import Strings

  /** The field of the header, or the default where it has none. */
  ghost predicate Reads(h: Head, k: string, default: Val, v: Val) {
    if k in h.fm then v == h.fm[k] else v == default
  }

  lemma ReadsExactly(h: Head, k: string, default: Val, v: Val)
    ensures v == GetOr(h, k, default) <==> Reads(h, k, default, v)
  {
  }

  // ---- orders ------------------------------------------------------------------------------------------

  lemma {:induction false} LessExactly(x: string, y: string)
    ensures Less(x, y) <==> Before(x, y)
  {
    if x == "" || y == "" || x[0] < y[0] {
      if y != "" { assert DiffersAt(x, y, 0); }
    } else if x[0] == y[0] {
      LessExactly(x[1..], y[1..]);
      BeforeInTail(x, y);
    } else {
      FirstDecides(x, y);
    }
  }

  /** One of the two, and no less than either. */
  ghost predicate GreaterOf(m: real, x: real, y: real) {
    (m == x || m == y) && m >= x && m >= y
  }

  /** One of the two, and before neither. */
  ghost predicate LaterOf(m: string, x: string, y: string) {
    (m == x || m == y) && !Before(m, x) && !Before(m, y)
  }

  lemma LatestExactly(x: string, y: string)
    ensures LaterOf(Latest(x, y), x, y)
  {
    LatestIsLast(x, y);
    LessExactly(Latest(x, y), x);
    LessExactly(Latest(x, y), y);
  }

  /** The first `n` characters of a text. */
  ghost predicate CutAt(cut: string, text: string, n: nat) {
    cut <= text && |cut| == if |text| <= n then |text| else n
  }

  // ---- numbers -----------------------------------------------------------------------------------------

  /** The whole number a value coerces to; a float loses its fraction, toward zero. */
  ghost predicate Counts(v: Val, n: int) {
    match v
    case Bool(b) => n == if b then 1 else 0
    case Int(m) => n == m
    case Float(x) =>
      && (x >= 0.0 ==> 0 <= n && n as real <= x < n as real + 1.0)
      && (x <= 0.0 ==> n <= 0 && n as real - 1.0 < x <= n as real)
    case List(_) => false
    case Str(s) => ParseInt(Strings.Strip(s)) == Some(n)
  }

  lemma CountsExactly(v: Val, n: int)
    ensures AsInt(v) == Some(n) <==> Counts(v, n)
  {
  }

  /** The number a value coerces to. */
  ghost predicate Weighs(v: Val, x: real, t: Texts) {
    match v
    case Bool(b) => x == if b then 1.0 else 0.0
    case Int(m) => x == m as real
    case Float(y) => x == y
    case List(_) => false
    case Str(s) => t.floats.read(Strings.Strip(s)) == Some(x)
  }

  lemma WeighsExactly(v: Val, x: real, t: Texts)
    ensures AsReal(v, t) == Some(x) <==> Weighs(v, x, t)
  {
    match v
    case Bool(b) =>
    case Int(m) =>
    case Float(y) =>
    case List(_) =>
    case Str(s) => assert AsReal(v, t) == t.floats.read(Strings.Strip(s));
  }

  /** A header without an access count counts 0, one without a relevance has 0.5; a merge fails
      where either cannot be coerced. */
  lemma NumbersExactly(h: Head, t: Texts, n: Numbers)
    ensures NumbersOf(h, t) == Some(n) <==>
      && (exists v :: Reads(h, "access_count", Int(0), v) && Counts(v, n.count))
      && (exists v :: Reads(h, "relevance", Float(0.5), v) && Weighs(v, n.relevance, t))
  {
    var count, relevance := GetOr(h, "access_count", Int(0)), GetOr(h, "relevance", Float(0.5));
    CountsExactly(count, n.count);
    WeighsExactly(relevance, n.relevance, t);
    assert Reads(h, "access_count", Int(0), count) && Reads(h, "relevance", Float(0.5), relevance);
  }

  /** The printed form of a value that is not a list or a float. */
  ghost predicate PrintsAs(v: Val, text: string) {
    match v
    case Bool(b) => text == if b then "True" else "False"
    case Int(n) => ParseInt(text) == Some(n) && (n >= 0 ==> Decimals.AllDigits(text))
    case Str(s) => text == s
    case _ => true
  }

  lemma PrintExactly(v: Val, t: Texts)
    ensures PrintsAs(v, PyStr(v, t))
  {
    if v.Int? { IntRoundTrip(v.n); }
  }

  // ---- the fields ----------------------------------------------------------------------------------------

  /** What a merge reads of a header besides its numbers. */
  datatype Sources = Sources(name: Val, runtime: Val, description: Val, lastAccess: Val)

  ghost predicate SourcesOf(s: Sources, node: string, h: Head) {
    && Reads(h, "name", Str(node), s.name) && Reads(h, "runtime", Str("main"), s.runtime)
    && Reads(h, "description", Str(""), s.description) && Reads(h, "last_access", Str(""), s.lastAccess)
  }

  /** Two values are the same, numbers and truth values by their number. */
  ghost predicate SameValue(v: Val, u: Val) {
    v == u || exists x :: IsNumber(v, x) && IsNumber(u, x)
  }

  ghost predicate IsNumber(v: Val, x: real) {
    match v
    case Bool(b) => x == if b then 1.0 else 0.0
    case Int(m) => x == m as real
    case Float(y) => x == y
    case _ => false
  }

  lemma SameExactly(v: Val, u: Val)
    ensures PyEq(v, u) <==> SameValue(v, u)
  {
    if Numeric(v).Some? { assert IsNumber(v, Numeric(v).value); }
    if Numeric(u).Some? { assert IsNumber(u, Numeric(u).value); }
  }

  /** A merged header has both names in its title, the common runtime or "main", the beginning of
      both descriptions, the sum of the counts, the greater relevance and the later day of access. */
  lemma CombinedExactly(a: string, ha: Head, na: Numbers, b: string, hb: Head, nb: Numbers, t: Texts, p: Sources, q: Sources)
    requires IsDict(ha) && IsDict(hb) && SourcesOf(p, a, ha) && SourcesOf(q, b, hb)
    ensures var m := MergedHead(a, ha, na, b, hb, nb, t);
      && Field(m, "name") == Some(Str("[MERGED] " + PyStr(p.name, t) + " + " + PyStr(q.name, t)))
      && Field(m, "runtime") == Some(if SameValue(p.runtime, q.runtime) then p.runtime else Str("main"))
      && (exists d :: Field(m, "description") == Some(Str(d))
            && CutAt(d, "MERGED " + PyStr(p.description, t) + " | " + PyStr(q.description, t), 200))
      && Field(m, "access_count") == Some(Int(na.count + nb.count))
      && (exists r :: Field(m, "relevance") == Some(Float(r)) && GreaterOf(r, na.relevance, nb.relevance))
      && (exists d :: Field(m, "last_access") == Some(Str(d)) && LaterOf(d, PyStr(p.lastAccess, t), PyStr(q.lastAccess, t)))
  {
    MergedFields(a, ha, na, b, hb, nb, t, "name");
    ReadsExactly(ha, "name", Str(a), p.name);
    ReadsExactly(hb, "name", Str(b), q.name);
    DescriptionExactly(ha, hb, t, p.description, q.description);
    RuntimeExactly(ha, hb, p.runtime, q.runtime);
    AccessExactly(ha, hb, t, p.lastAccess, q.lastAccess);
    assert GreaterOf(Larger(na.relevance, nb.relevance), na.relevance, nb.relevance);
  }

  lemma DescriptionExactly(ha: Head, hb: Head, t: Texts, x: Val, y: Val)
    requires Reads(ha, "description", Str(""), x) && Reads(hb, "description", Str(""), y)
    ensures CutAt(MergedDescription(ha, hb, t), "MERGED " + PyStr(x, t) + " | " + PyStr(y, t), 200)
  {
    ReadsExactly(ha, "description", Str(""), x);
    ReadsExactly(hb, "description", Str(""), y);
  }

  lemma RuntimeExactly(ha: Head, hb: Head, x: Val, y: Val)
    requires Reads(ha, "runtime", Str("main"), x) && Reads(hb, "runtime", Str("main"), y)
    ensures MergedRuntime(ha, hb) == if SameValue(x, y) then x else Str("main")
  {
    ReadsExactly(ha, "runtime", Str("main"), x);
    ReadsExactly(hb, "runtime", Str("main"), y);
    SameExactly(x, y);
  }

  lemma AccessExactly(ha: Head, hb: Head, t: Texts, x: Val, y: Val)
    requires Reads(ha, "last_access", Str(""), x) && Reads(hb, "last_access", Str(""), y)
    ensures LaterOf(MergedAccess(ha, hb, t), PyStr(x, t), PyStr(y, t))
  {
    ReadsExactly(ha, "last_access", Str(""), x);
    ReadsExactly(hb, "last_access", Str(""), y);
    LatestExactly(PyStr(x, t), PyStr(y, t));
  }

  // ---- the order of the fields -----------------------------------------------------------------------------

  /** Before the combined fields are set, the merged header lists the fields of the second node and
      then those that only the first has, each in their order, and is written in the order of the first. */
  lemma UnionExactly(ha: Head, hb: Head, only: string -> bool) returns (rest: seq<string>)
    requires forall k :: only(k) <==> k !in hb.keys
    ensures Union(ha, hb).keys == hb.keys + rest && IsFiltered(rest, ha.keys, only)
    ensures Union(ha, hb).order == ha.order
  {
    rest := Missing(ha.keys, hb.keys);
    MissingExactly(ha.keys, hb.keys, only);
  }

  // ---- the body --------------------------------------------------------------------------------------------

  lemma FiveJoined(z: string, h: string, x: string, k: string, y: string)
    ensures Strings.Join("\n\n", [z, h, x, k, y]) == Beside(z, Beside(h, Beside(x, Beside(k, y))))
  {
    var gap := "\n\n";
    assert [z, h, x, k, y][1..] == [h, x, k, y] && [h, x, k, y][1..] == [x, k, y];
    assert [x, k, y][1..] == [k, y] && [k, y][1..] == [y];
    assert Strings.Join(gap, [k, y]) == k + gap + Strings.Join(gap, [y]) == Beside(k, y);
    assert Strings.Join(gap, [x, k, y]) == x + gap + Strings.Join(gap, [k, y]) == Beside(x, Beside(k, y));
    assert Strings.Join(gap, [h, x, k, y]) == h + gap + Strings.Join(gap, [x, k, y]) == Beside(h, Beside(x, Beside(k, y)));
  }

  /** The body is a title and, for each node, a heading and its trimmed body, a blank line apart, and
      a final newline. */
  lemma BodyExactly(a: string, bodyA: string, b: string, bodyB: string) returns (x: string, y: string)
    ensures Trims(bodyA, x) && Trims(bodyB, y)
    ensures MergedBody(a, bodyA, b, bodyB)
         == Strings.Join("\n\n", ["# Merged node", "## From " + a, x, "## From " + b, y]) + "\n"
  {
    x, y := Strings.Strip(bodyA), Strings.Strip(bodyB);
    TrimExactly(bodyA, x);
    TrimExactly(bodyB, y);
    FiveJoined("# Merged node", "## From " + a, x, "## From " + b, y);
  }
}
