/** The one-step kernels of the successor walk (samia/core/successor.py): row-normalised
    tallies of the undirected co-activation store and of the directed transition counts. */
module Kernel {
  import opened Options
  import opened RealMaps
  import Strings

  type Row = map<string, real>
  type Matrix = map<string, Row>

  /** What `float(...)` makes of a stored value; `NotANumber` is its TypeError/ValueError. */
  datatype Number = Real(x: real) | NotANumber

  /** A stored entry: a record with an optional numeric field, or a bare number. */
  datatype Entry = Record(field: Option<Number>) | Bare(number: Number)

  datatype Arc = Arc(src: string, dst: string, w: real)

  /** For each store key, the arcs that it adds to the graph. */
  type Arcs = map<string, seq<Arc>>

  function Read(e: Entry): Number {
    match e
    case Record(None) => Real(0.0)
    case Record(Some(n)) => n
    case Bare(n) => n
  }

  // ---- reading the two stores -----------------------------------------------------

  function ArcsBetween(ends: seq<string>, e: Entry): (arcs: seq<Arc>)
    ensures PositiveArcs(arcs)
  {
    if |ends| != 2 || ends[0] == ends[1] then []
    else match Read(e)
      case NotANumber => []
      case Real(w) => if w <= 0.0 then [] else [Arc(ends[0], ends[1], w), Arc(ends[1], ends[0], w)]
  }

  function UndirectedArcs(key: string, e: Entry): (arcs: seq<Arc>)
    ensures PositiveArcs(arcs)
  {
    ArcsBetween(Strings.Split(key, "::"), e)
  }

  function SplitDirectedKey(key: string): Option<(string, string)> {
    var parts := Strings.Split(key, "->");
    if |parts| != 2 then None
    else
      var a, b := Strings.Strip(parts[0]), Strings.Strip(parts[1]);
      if a == "" || b == "" || a == b then None else Some((a, b))
  }

  function ArcFromTo(ends: Option<(string, string)>, e: Entry, reverse: bool): (arcs: seq<Arc>)
    ensures PositiveArcs(arcs)
  {
    match (ends, Read(e))
    case (Some(p), Real(c)) =>
      if c <= 0.0 then [] else if reverse then [Arc(p.1, p.0, c)] else [Arc(p.0, p.1, c)]
    case _ => []
  }

  function DirectedArcs(key: string, e: Entry, reverse: bool): (arcs: seq<Arc>)
    ensures PositiveArcs(arcs)
  {
    ArcFromTo(SplitDirectedKey(key), e, reverse)
  }

  predicate PositiveArcs(arcs: seq<Arc>) {
    forall i :: 0 <= i < |arcs| ==> arcs[i].w > 0.0
  }

  function Undirected(weights: map<string, Entry>): Arcs {
    map k | k in weights :: UndirectedArcs(k, weights[k])
  }

  function Directed(counts: map<string, Entry>, reverse: bool): Arcs {
    map k | k in counts :: DirectedArcs(k, counts[k], reverse)
  }

  ghost predicate Positive(g: Arcs) {
    forall k :: k in g ==> PositiveArcs(g[k])
  }

  lemma StoresArePositive(weights: map<string, Entry>, reverse: bool)
    ensures Positive(Undirected(weights)) && Positive(Directed(weights, reverse))
  {
  }

  // ---- the tallies, stated as sums over the whole store ---------------------------

  /** What a list of arcs carries from `a` to `b`. */
  ghost function ArcMass(arcs: seq<Arc>, a: string, b: string): real {
    if arcs == [] then 0.0
    else (if arcs[0].src == a && arcs[0].dst == b then arcs[0].w else 0.0) + ArcMass(arcs[1..], a, b)
  }

  /** W[a][b]: the sum over every store entry of what it carries from `a` to `b`. */
  ghost function OutMass(g: Arcs, a: string, b: string): real {
    Sum(Shares(g, a, b))
  }

  ghost function Shares(g: Arcs, a: string, b: string): map<string, real> {
    map k | k in g :: ArcMass(g[k], a, b)
  }

  ghost function Targets(g: Arcs): set<string> {
    set k, i | k in g && 0 <= i < |g[k]| :: g[k][i].dst
  }

  ghost function Sources(g: Arcs): set<string> {
    set k, i | k in g && 0 <= i < |g[k]| :: g[k][i].src
  }

  ghost function RowOf(g: Arcs, a: string): Row {
    map b | b in Targets(g) && OutMass(g, a, b) > 0.0 :: OutMass(g, a, b)
  }

  ghost function Normalised(row: Row): Row
    requires Sum(row) > 0.0
  {
    map b | b in row :: row[b] / Sum(row)
  }

  /** T[a][b] = W[a][b] / sum_c W[a][c], a row only where there is out-mass. */
  ghost function Stochastic(g: Arcs): Matrix {
    map a | a in Sources(g) && Sum(RowOf(g, a)) > 0.0 :: Normalised(RowOf(g, a))
  }

  // ---- facts about tallies --------------------------------------------------------

  lemma {:induction false} ArcMassSign(arcs: seq<Arc>, a: string, b: string)
    requires PositiveArcs(arcs)
    ensures ArcMass(arcs, a, b) >= 0.0
    ensures ArcMass(arcs, a, b) > 0.0 <==> exists i :: 0 <= i < |arcs| && arcs[i].src == a && arcs[i].dst == b
  {
    if arcs != [] {
      ArcMassSign(arcs[1..], a, b);
      if ArcMass(arcs[1..], a, b) > 0.0 {
        var i :| 0 <= i < |arcs[1..]| && arcs[1..][i].src == a && arcs[1..][i].dst == b;
        assert arcs[i + 1].src == a && arcs[i + 1].dst == b;
      }
      forall i | 1 <= i < |arcs| && arcs[i].src == a && arcs[i].dst == b
        ensures ArcMass(arcs[1..], a, b) > 0.0
      {
        assert arcs[1..][i - 1] == arcs[i];
      }
    }
  }

  lemma OneArc(x: Arc, a: string, b: string)
    ensures ArcMass([x], a, b) == if x.src == a && x.dst == b then x.w else 0.0
  {
    assert [x][1..] == [];
  }

  lemma TwoArcs(x: Arc, y: Arc, a: string, b: string)
    ensures ArcMass([x, y], a, b) == ArcMass([x], a, b) + ArcMass([y], a, b)
  {
    assert [x, y][1..] == [y];
    OneArc(x, a, b);
  }

  /** Out-mass is positive exactly between the ends of some arc. */
  lemma OutMassSign(g: Arcs, a: string, b: string)
    requires Positive(g)
    ensures OutMass(g, a, b) >= 0.0
    ensures OutMass(g, a, b) > 0.0 <==>
            exists k, i :: k in g && 0 <= i < |g[k]| && g[k][i].src == a && g[k][i].dst == b
  {
    var m := Shares(g, a, b);
    forall k | k in g
      ensures m[k] >= 0.0
      ensures m[k] > 0.0 <==> exists i :: 0 <= i < |g[k]| && g[k][i].src == a && g[k][i].dst == b
    {
      ArcMassSign(g[k], a, b);
    }
    SumNonNegative(m);
  }

  lemma OutMassInsert(g: Arcs, k: string, arcs: seq<Arc>, a: string, b: string)
    requires k !in g
    ensures OutMass(g[k := arcs], a, b) == OutMass(g, a, b) + ArcMass(arcs, a, b)
  {
    SumUpdate(Shares(g, a, b), k, ArcMass(arcs, a, b));
    assert Shares(g[k := arcs], a, b) == Shares(g, a, b)[k := ArcMass(arcs, a, b)];
  }

  /** A row is present exactly when something leaves `a`. */
  lemma RowSum(g: Arcs, a: string)
    ensures Sum(RowOf(g, a)) > 0.0 <==> RowOf(g, a) != map[]
    ensures forall b :: b in RowOf(g, a) ==> RowOf(g, a)[b] > 0.0
  {
    SumNonNegative(RowOf(g, a));
    if RowOf(g, a) != map[] {
      var b :| b in RowOf(g, a);
      assert RowOf(g, a)[b] > 0.0;
    }
  }

  lemma DivideBounds(x: real, t: real)
    requires 0.0 < x <= t
    ensures 0.0 < x / t <= 1.0
  {
  }

  ghost predicate Distribution(row: Row) {
    row != map[] && Sum(row) == 1.0 && forall b :: b in row ==> 0.0 < row[b] <= 1.0
  }

  lemma QuotientIsAdditive(t: real, f: real -> real)
    requires t > 0.0 && forall x :: f(x) == x / t
    ensures Additive(f) && f(t) == 1.0
  {
    forall x, y ensures Adds(f, x, y) {
      assert (x + y) / t == x / t + y / t;
    }
  }

  lemma NormalisedSumsToOne(row: Row)
    requires Sum(row) > 0.0
    ensures Sum(Normalised(row)) == 1.0
  {
    var t := Sum(row);
    var f := (x: real) => x / t;
    assert Sum(Mapped(f, row)) == f(t) == 1.0 by {
      QuotientIsAdditive(t, f);
      SumMapped(f, row);
    }
    assert Normalised(row) == Mapped(f, row);
  }

  lemma NormalisedIsDistribution(row: Row)
    requires row != map[] && forall b :: b in row ==> row[b] > 0.0
    requires Sum(row) > 0.0
    ensures Distribution(Normalised(row))
  {
    NormalisedSumsToOne(row);
    SumNonNegative(row);
    assert Normalised(row).Keys == row.Keys;
    forall b | b in row ensures 0.0 < Normalised(row)[b] <= 1.0 { DivideBounds(row[b], Sum(row)); }
  }

  /** Every row is a probability distribution with positive entries. */
  ghost predicate IsKernel(T: Matrix) {
    forall a :: a in T ==> Distribution(T[a])
  }

  lemma StochasticIsKernel(g: Arcs)
    ensures IsKernel(Stochastic(g))
  {
    forall a | a in Stochastic(g)
      ensures Distribution(Stochastic(g)[a])
    {
      RowSum(g, a);
      NormalisedIsDistribution(RowOf(g, a));
    }
  }
}
