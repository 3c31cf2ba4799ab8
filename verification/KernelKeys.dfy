/** What the kernels of the successor walk (samia/core/successor.py) are in terms of the texts
    of the store keys: which way an arrow leads, what a pair joins, and what each counts for. */
module KernelKeys {
  import opened Options
  import opened RealMaps
  import opened Kernel
  import opened KeyTexts
  import Strings

  type Store = map<string, Entry>

  /** The key reads `x->y` with no other arrow, and x and y spell `a` and `b`. */
  ghost predicate IsArrow(key: string, x: string, y: string, a: string, b: string) {
    key == x + "->" + y && Lacks(x, "->") && Lacks(y, "->") && Spells(x, a) && Spells(y, b)
  }

  /** The key is an arrow from `a` to another node `b`. */
  ghost predicate Leads(key: string, a: string, b: string) {
    a != b && exists x, y :: IsArrow(key, x, y, a, b)
  }

  /** The key reads `a::b` with no other separator, for two nodes. */
  ghost predicate Joins(key: string, a: string, b: string) {
    a != b && key == a + "::" + b && EndsAt(a, "::") && Lacks(b, "::")
  }

  /** The positive number an entry holds, bare or in its field; else nothing. */
  function Amount(e: Entry): real {
    match e
    case Bare(Real(c)) => if c > 0.0 then c else 0.0
    case Record(Some(Real(c))) => if c > 0.0 then c else 0.0
    case _ => 0.0
  }

  ghost function ArrowCounts(counts: Store, a: string, b: string): map<string, real> {
    map k | k in counts && Leads(k, a, b) :: Amount(counts[k])
  }

  ghost function PairWeights(weights: Store, a: string, b: string): map<string, real> {
    map k | k in weights && (Joins(k, a, b) || Joins(k, b, a)) :: Amount(weights[k])
  }

  // ---- reading a key ----------------------------------------------------------------

  lemma ArrowAt(s: string, k: int)
    ensures Strings.MatchAt(s, "->", k) <==> 0 <= k < |s| - 1 && s[k] == '-' && s[k + 1] == '>'
  {
    if 0 <= k < |s| - 1 {
      var t := s[k..k + 2];
      assert t[0] == s[k] && t[1] == s[k + 1];
      assert t == "->" <==> t[0] == '-' && t[1] == '>';
    }
  }

  lemma ArrowBefore(x: string, k: int)
    requires 0 <= k < |x|
    ensures Strings.MatchAt(x + "->", "->", k) <==> Strings.MatchAt(x, "->", k)
  {
    var s := x + "->";
    ArrowAt(s, k);
    ArrowAt(x, k);
    assert s[k + 1] == if k + 1 < |x| then x[k + 1] else '-';
  }

  /** Two arrows cannot overlap, so the first one is at the end of what lacks one. */
  lemma BeforeArrow(x: string)
    ensures EndsAt(x, "->") <==> Lacks(x, "->")
  {
    forall k | 0 <= k < |x| ensures Strings.MatchAt(x + "->", "->", k) <==> Strings.MatchAt(x, "->", k) { ArrowBefore(x, k); }
    if EndsAt(x, "->") {
      forall k ensures !Strings.MatchAt(x, "->", k) {
        if 0 <= k < |x| { assert !Strings.MatchAt(x + "->", "->", k); }
      }
    }
  }

  lemma TwoParts(key: string, sep: string, x: string, y: string)
    requires sep != ""
    ensures Strings.Split(key, sep) == [x, y] <==> key == x + sep + y && EndsAt(x, sep) && Lacks(y, sep)
  {
    var parts := [x, y];
    SplitExactly(key, sep, parts);
    assert parts[1..] == [y];
    assert Strings.Join(sep, parts) == x + sep + y;
    assert parts[0] == x && parts[1] == y;
  }

  lemma DirectedKeyExactly(key: string, a: string, b: string)
    ensures SplitDirectedKey(key) == Some((a, b)) <==> Leads(key, a, b)
  {
    var parts := Strings.Split(key, "->");
    if |parts| == 2 {
      var x, y := parts[0], parts[1];
      assert parts == [x, y];
      TwoParts(key, "->", x, y);
      BeforeArrow(x);
      StripSpells(x, a);
      StripSpells(y, b);
      if SplitDirectedKey(key) == Some((a, b)) { assert IsArrow(key, x, y, a, b); }
    }
    if Leads(key, a, b) {
      var x, y :| IsArrow(key, x, y, a, b);
      TwoParts(key, "->", x, y);
      BeforeArrow(x);
      StripSpells(x, a);
      StripSpells(y, b);
    }
  }

  lemma PairExactly(key: string, a: string, b: string)
    ensures Joins(key, a, b) <==> a != b && Strings.Split(key, "::") == [a, b]
  {
    TwoParts(key, "::", a, b);
  }

  // ---- what a key carries -----------------------------------------------------------

  /** The arc an entry adds for given ends. */
  lemma ArcCarries(ends: Option<(string, string)>, e: Entry, a: string, b: string)
    requires ends.Some? ==> ends.value.0 != ends.value.1
    ensures ArcMass(ArcFromTo(ends, e, false), a, b) == if ends == Some((a, b)) then Amount(e) else 0.0
    ensures ArcMass(ArcFromTo(ends, e, true), b, a) == if ends == Some((a, b)) then Amount(e) else 0.0
  {
    if ends.Some? {
      var x, y := ends.value.0, ends.value.1;
      assert ends.value == (x, y);
      OneArc(Arc(x, y, Amount(e)), a, b);
      OneArc(Arc(y, x, Amount(e)), b, a);
    }
  }

  lemma ArrowCarries(key: string, e: Entry, a: string, b: string)
    ensures ArcMass(DirectedArcs(key, e, false), a, b) == if Leads(key, a, b) then Amount(e) else 0.0
    ensures ArcMass(DirectedArcs(key, e, true), b, a) == if Leads(key, a, b) then Amount(e) else 0.0
  {
    DirectedKeyExactly(key, a, b);
    ArcCarries(SplitDirectedKey(key), e, a, b);
  }

  lemma PairCarries(key: string, e: Entry, a: string, b: string)
    ensures ArcMass(UndirectedArcs(key, e), a, b) == if Joins(key, a, b) || Joins(key, b, a) then Amount(e) else 0.0
  {
    PairExactly(key, a, b);
    PairExactly(key, b, a);
    var ends := Strings.Split(key, "::");
    if |ends| == 2 && ends[0] != ends[1] {
      assert ends == [ends[0], ends[1]];
      var p, q := Arc(ends[0], ends[1], Amount(e)), Arc(ends[1], ends[0], Amount(e));
      TwoArcs(p, q, a, b);
      OneArc(p, a, b);
      OneArc(q, a, b);
    }
  }

  // ---- the tallies -------------------------------------------------------------------

  /** The forward out-mass from `a` to `b` is the sum of the positive counts of the arrows from
      `a` to `b`; the reverse out-mass is that of the arrows from `b` to `a`. */
  lemma ArrowMass(counts: Store, a: string, b: string)
    ensures OutMass(Directed(counts, false), a, b) == Sum(ArrowCounts(counts, a, b))
    ensures OutMass(Directed(counts, true), a, b) == Sum(ArrowCounts(counts, b, a))
  {
    var f, r := Directed(counts, false), Directed(counts, true);
    forall k | k in counts
      ensures ArcMass(f[k], a, b) == At(ArrowCounts(counts, a, b), k)
      ensures ArcMass(r[k], a, b) == At(ArrowCounts(counts, b, a), k)
    {
      ArrowCarries(k, counts[k], a, b);
      ArrowCarries(k, counts[k], b, a);
    }
    assert SameReadings(Shares(f, a, b), ArrowCounts(counts, a, b));
    assert SameReadings(Shares(r, a, b), ArrowCounts(counts, b, a));
    SumExtensional(Shares(f, a, b), ArrowCounts(counts, a, b));
    SumExtensional(Shares(r, a, b), ArrowCounts(counts, b, a));
  }

  /** The symmetric out-mass between two nodes is the sum of the positive weights of the keys
      that join them, in either order. */
  lemma PairMass(weights: Store, a: string, b: string)
    ensures OutMass(Undirected(weights), a, b) == Sum(PairWeights(weights, a, b))
  {
    var g := Undirected(weights);
    forall k | k in weights ensures ArcMass(g[k], a, b) == At(PairWeights(weights, a, b), k) {
      PairCarries(k, weights[k], a, b);
    }
    assert SameReadings(Shares(g, a, b), PairWeights(weights, a, b));
    SumExtensional(Shares(g, a, b), PairWeights(weights, a, b));
  }

  // ---- the kernels -------------------------------------------------------------------

  ghost predicate Steps(T: Matrix, a: string, b: string) {
    a in T && b in T[a]
  }

  ghost predicate CountedArrow(counts: Store, k: string, a: string, b: string) {
    k in counts && Leads(k, a, b) && Amount(counts[k]) > 0.0
  }

  ghost predicate WeightedPair(weights: Store, k: string, a: string, b: string) {
    k in weights && (Joins(k, a, b) || Joins(k, b, a)) && Amount(weights[k]) > 0.0
  }

  ghost predicate Arrow(counts: Store, a: string, b: string) {
    exists k :: CountedArrow(counts, k, a, b)
  }

  ghost predicate Pair(weights: Store, a: string, b: string) {
    exists k :: WeightedPair(weights, k, a, b)
  }

  lemma StepsWithMass(g: Arcs, a: string, b: string)
    requires Positive(g)
    ensures Steps(Stochastic(g), a, b) <==> OutMass(g, a, b) > 0.0
  {
    OutMassSign(g, a, b);
    RowSum(g, a);
    if OutMass(g, a, b) > 0.0 { assert b in RowOf(g, a); }
  }

  lemma StepQuotient(g: Arcs, a: string, b: string) returns (p: real, mass: real, total: real)
    requires Steps(Stochastic(g), a, b)
    ensures p == Stochastic(g)[a][b] && mass == OutMass(g, a, b) && total == Sum(RowOf(g, a))
    ensures total > 0.0 && p == mass / total
  {
    p, mass, total := Stochastic(g)[a][b], OutMass(g, a, b), Sum(RowOf(g, a));
  }

  /** The rows keep the proportions of the tally. */
  lemma RowProportions(g: Arcs, a: string, b: string, c: string) returns (p: real, q: real, x: real, y: real)
    requires Steps(Stochastic(g), a, b) && Steps(Stochastic(g), a, c)
    ensures p == Stochastic(g)[a][b] && q == Stochastic(g)[a][c]
    ensures x == OutMass(g, a, b) && y == OutMass(g, a, c)
    ensures p * y == q * x
  {
    var t, u;
    p, x, t := StepQuotient(g, a, b);
    q, y, u := StepQuotient(g, a, c);
    CrossQuotients(p, q, x, y, t);
  }

  lemma CrossQuotients(p: real, q: real, x: real, y: real, t: real)
    requires t > 0.0 && p == x / t && q == y / t
    ensures p * y == q * x
  {
    assert p * t == x && q * t == y;
    assert p * y == p * (q * t) == q * (p * t);
  }

  lemma ArrowsHaveMass(counts: Store, a: string, b: string)
    ensures Sum(ArrowCounts(counts, a, b)) > 0.0 <==> Arrow(counts, a, b)
  {
    var m := ArrowCounts(counts, a, b);
    SumNonNegative(m);
    if Sum(m) > 0.0 {
      var k :| k in m && m[k] > 0.0;
      assert CountedArrow(counts, k, a, b);
    }
    if Arrow(counts, a, b) {
      var k :| CountedArrow(counts, k, a, b);
      assert k in m && m[k] > 0.0;
    }
  }

  lemma PairsHaveMass(weights: Store, a: string, b: string)
    ensures Sum(PairWeights(weights, a, b)) > 0.0 <==> Pair(weights, a, b)
  {
    var m := PairWeights(weights, a, b);
    SumNonNegative(m);
    if Sum(m) > 0.0 {
      var k :| k in m && m[k] > 0.0;
      assert WeightedPair(weights, k, a, b);
    }
    if Pair(weights, a, b) {
      var k :| WeightedPair(weights, k, a, b);
      assert k in m && m[k] > 0.0;
    }
  }

  /** The forward kernel steps from `a` to `b` exactly when a key with a positive count is an
      arrow from `a` to `b`; the reverse kernel exactly when one leads from `b` to `a`. */
  lemma DirectedSteps(counts: Store, a: string, b: string)
    ensures Steps(Stochastic(Directed(counts, false)), a, b) <==> Arrow(counts, a, b)
    ensures Steps(Stochastic(Directed(counts, true)), a, b) <==> Arrow(counts, b, a)
  {
    StoresArePositive(counts, false);
    StoresArePositive(counts, true);
    ArrowMass(counts, a, b);
    ArrowsHaveMass(counts, a, b);
    ArrowsHaveMass(counts, b, a);
    StepsWithMass(Directed(counts, false), a, b);
    StepsWithMass(Directed(counts, true), a, b);
  }

  lemma SymmetricSteps(weights: Store, a: string, b: string)
    ensures Steps(Stochastic(Undirected(weights)), a, b) <==> Pair(weights, a, b)
  {
    StoresArePositive(weights, false);
    PairMass(weights, a, b);
    PairsHaveMass(weights, a, b);
    StepsWithMass(Undirected(weights), a, b);
  }
}
