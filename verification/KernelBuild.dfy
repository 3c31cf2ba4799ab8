/** The loops of samia/core/successor.py that build the kernels, and what the kernels are. */
module KernelBuild {
  import opened Options
  import opened RealMaps
  import opened Kernel
  import opened KernelKeys
  import Strings

  // ---- the accumulator raw_out ----------------------------------------------------

  function At2(m: Matrix, a: string, b: string): real {
    if a in m then At(m[a], b) else 0.0
  }

  /** One accumulation `raw_out[src][dst] += w`. */
  function Deposit(raw: Matrix, arc: Arc): Matrix {
    var row := if arc.src in raw then raw[arc.src] else map[];
    raw[arc.src := row[arc.dst := At(row, arc.dst) + arc.w]]
  }

  ghost function DepositAll(raw: Matrix, arcs: seq<Arc>): Matrix
    decreases |arcs|
  {
    if arcs == [] then raw else DepositAll(Deposit(raw, arcs[0]), arcs[1..])
  }

  ghost predicate PositiveRow(row: Row) {
    row != map[] && forall b :: b in row ==> row[b] > 0.0
  }

  /** `raw` holds exactly the out-masses of the entries in `g`, and no zero. */
  ghost predicate Tallies(raw: Matrix, g: Arcs) {
    && (forall a :: a in raw ==> PositiveRow(raw[a]))
    && (forall a, b :: At2(raw, a, b) == OutMass(g, a, b))
  }

  lemma DepositAt(raw: Matrix, arc: Arc, a: string, b: string)
    ensures At2(Deposit(raw, arc), a, b) == At2(raw, a, b) + ArcMass([arc], a, b)
  {
    OneArc(arc, a, b);
  }

  lemma {:induction false} DepositAllAt(raw: Matrix, arcs: seq<Arc>, a: string, b: string)
    ensures At2(DepositAll(raw, arcs), a, b) == At2(raw, a, b) + ArcMass(arcs, a, b)
    decreases |arcs|
  {
    if arcs != [] {
      DepositAt(raw, arcs[0], a, b);
      DepositAllAt(Deposit(raw, arcs[0]), arcs[1..], a, b);
      OneArc(arcs[0], a, b);
    }
  }

  lemma DepositTwo(raw: Matrix, x: Arc, y: Arc)
    ensures DepositAll(raw, [x, y]) == Deposit(Deposit(raw, x), y)
  {
    var arcs := [x, y];
    assert arcs[1..] == [y] && [y][1..] == [];
    assert DepositAll(raw, arcs) == DepositAll(Deposit(raw, x), [y]);
  }

  lemma {:induction false} DepositAllPositive(raw: Matrix, arcs: seq<Arc>)
    requires forall a :: a in raw ==> PositiveRow(raw[a])
    requires PositiveArcs(arcs)
    ensures forall a :: a in DepositAll(raw, arcs) ==> PositiveRow(DepositAll(raw, arcs)[a])
    decreases |arcs|
  {
    if arcs != [] {
      var arc, next := arcs[0], Deposit(raw, arcs[0]);
      assert arc.w > 0.0;
      assert arc.src in raw ==> PositiveRow(raw[arc.src]);
      assert arc.dst in next[arc.src];
      DepositAllPositive(next, arcs[1..]);
    }
  }

  lemma TalliesEmpty()
    ensures Tallies(map[], map[])
  {
    forall a: string, b: string ensures OutMass(map[], a, b) == 0.0 {
      assert Shares(map[], a, b) == map[];
    }
  }

  lemma TalliesStep(raw: Matrix, g: Arcs, k: string, arcs: seq<Arc>)
    requires Tallies(raw, g) && k !in g && PositiveArcs(arcs)
    ensures Tallies(DepositAll(raw, arcs), g[k := arcs])
  {
    DepositAllPositive(raw, arcs);
    forall a, b ensures At2(DepositAll(raw, arcs), a, b) == OutMass(g[k := arcs], a, b) {
      DepositAllAt(raw, arcs, a, b);
      OutMassInsert(g, k, arcs, a, b);
    }
  }

  lemma TalliesCell(raw: Matrix, g: Arcs, a: string, b: string)
    requires Tallies(raw, g) && Positive(g)
    ensures b in RowOf(g, a) <==> a in raw && b in raw[a]
    ensures b in RowOf(g, a) ==> a in Sources(g) && RowOf(g, a)[b] == raw[a][b]
  {
    assert At2(raw, a, b) == OutMass(g, a, b);
    OutMassSign(g, a, b);
    assert a in raw ==> PositiveRow(raw[a]);
  }

  lemma TalliesRow(raw: Matrix, g: Arcs, a: string)
    requires Tallies(raw, g) && Positive(g)
    ensures RowOf(g, a) == if a in raw then raw[a] else map[]
    ensures a in raw ==> a in Sources(g)
  {
    forall b
      ensures b in RowOf(g, a) <==> a in raw && b in raw[a]
      ensures b in RowOf(g, a) ==> a in Sources(g) && RowOf(g, a)[b] == raw[a][b]
    {
      TalliesCell(raw, g, a, b);
    }
    if a in raw {
      assert PositiveRow(raw[a]);
    }
  }

  ghost function NormalisedRows(raw: Matrix): Matrix {
    map a | a in raw && Sum(raw[a]) > 0.0 :: Normalised(raw[a])
  }

  lemma TalliesNormalise(raw: Matrix, g: Arcs)
    requires Tallies(raw, g) && Positive(g)
    ensures NormalisedRows(raw) == Stochastic(g)
  {
    forall a
      ensures a in NormalisedRows(raw) <==> a in Stochastic(g)
      ensures a in NormalisedRows(raw) ==> NormalisedRows(raw)[a] == Stochastic(g)[a]
    {
      TalliesRow(raw, g, a);
      RowSum(g, a);
    }
  }

  // ---- the loops ------------------------------------------------------------------

  method TotalOf(row: Row) returns (t: real)
    ensures t == Sum(row)
  {
    var left := row;
    t := 0.0;
    while left != map[]
      invariant t + Sum(left) == Sum(row)
      decreases |left|
    {
      var k :| k in left;
      SumDrop(left, k);
      t := t + left[k];
      left := left - {k};
    }
  }

  method NormaliseRow(row: Row, total: real) returns (r: Row)
    requires total == Sum(row) > 0.0
    ensures r == Normalised(row)
  {
    r := map b | b in row :: row[b] / total;
  }

  method NormaliseRows(raw: Matrix) returns (out: Matrix)
    ensures out == NormalisedRows(raw)
  {
    var left := raw.Keys;
    out := map[];
    while left != {}
      invariant left <= raw.Keys
      invariant forall a :: a in out <==> a in raw && a !in left && Sum(raw[a]) > 0.0
      invariant forall a :: a in out ==> out[a] == Normalised(raw[a])
      decreases left
    {
      var src :| src in left;
      left := left - {src};
      var total := TotalOf(raw[src]);
      if total <= 0.0 { continue; }
      var r := NormaliseRow(raw[src], total);
      out := out[src := r];
    }
  }

  method AddUndirected(raw: Matrix, parts: seq<string>, e: Entry) returns (r: Matrix)
    ensures r == DepositAll(raw, ArcsBetween(parts, e))
  {
    r := raw;
    if |parts| != 2 || parts[0] == parts[1] { return; }
    var number := Read(e);
    if number.NotANumber? || number.x <= 0.0 { return; }
    var a, b := parts[0], parts[1];
    r := Deposit(r, Arc(a, b, number.x));
    r := Deposit(r, Arc(b, a, number.x));
    DepositTwo(raw, Arc(a, b, number.x), Arc(b, a, number.x));
  }

  method AddDirected(raw: Matrix, ends: Option<(string, string)>, e: Entry, reverse: bool) returns (r: Matrix)
    ensures r == DepositAll(raw, ArcFromTo(ends, e, reverse))
  {
    r := raw;
    if ends.None? { return; }
    var count := Read(e);
    if count.NotANumber? || count.x <= 0.0 { return; }
    var (a, b) := ends.value;
    var (src, dst) := if reverse then (b, a) else (a, b);
    r := Deposit(r, Arc(src, dst, count.x));
  }

  method BuildOutEdges(weights: Store) returns (out: Matrix)
    ensures out == Stochastic(Undirected(weights))
    ensures forall a, b :: Steps(out, a, b) <==> Pair(weights, a, b)
  {
    var left := weights.Keys;
    var raw: Matrix := map[];
    ghost var done: Arcs := map[];
    TalliesEmpty();
    while left != {}
      invariant left <= weights.Keys && done.Keys == weights.Keys - left
      invariant forall k :: k in done ==> done[k] == UndirectedArcs(k, weights[k])
      invariant Tallies(raw, done)
      decreases left
    {
      var key :| key in left;
      left := left - {key};
      TalliesStep(raw, done, key, UndirectedArcs(key, weights[key]));
      done := done[key := UndirectedArcs(key, weights[key])];
      var parts := Strings.Split(key, "::");
      raw := AddUndirected(raw, parts, weights[key]);
    }
    assert done == Undirected(weights);
    StoresArePositive(weights, false);
    TalliesNormalise(raw, done);
    out := NormaliseRows(raw);
    forall a, b ensures Steps(out, a, b) <==> Pair(weights, a, b) { SymmetricSteps(weights, a, b); }
  }

  method BuildDirectedOutEdges(transitions: Store, reverse: bool) returns (out: Matrix)
    ensures out == Stochastic(Directed(transitions, reverse))
    ensures forall a, b :: Steps(out, a, b) <==> if reverse then Arrow(transitions, b, a) else Arrow(transitions, a, b)
  {
    var left := transitions.Keys;
    var raw: Matrix := map[];
    ghost var done: Arcs := map[];
    TalliesEmpty();
    while left != {}
      invariant left <= transitions.Keys && done.Keys == transitions.Keys - left
      invariant forall k :: k in done ==> done[k] == DirectedArcs(k, transitions[k], reverse)
      invariant Tallies(raw, done)
      decreases left
    {
      var key :| key in left;
      left := left - {key};
      TalliesStep(raw, done, key, DirectedArcs(key, transitions[key], reverse));
      done := done[key := DirectedArcs(key, transitions[key], reverse)];
      var ends := SplitDirectedKey(key);
      raw := AddDirected(raw, ends, transitions[key], reverse);
    }
    assert done == Directed(transitions, reverse);
    StoresArePositive(transitions, reverse);
    TalliesNormalise(raw, done);
    out := NormaliseRows(raw);
    forall a, b
      ensures Steps(out, a, b) <==> if reverse then Arrow(transitions, b, a) else Arrow(transitions, a, b)
    {
      DirectedSteps(transitions, a, b);
    }
  }

  /** Per source row: the directed row where there is one, else the symmetric one. */
  ghost function Forward(transitions: Store, weights: Store): Matrix {
    Stochastic(Undirected(weights)) + Stochastic(Directed(transitions, false))
  }

  /** The per-row choice: `directed.get(src)`, and where that is missing or empty, `symmetric`. */
  method PreferRows<R(==)>(directed: map<string, R>, symmetric: map<string, R>, empty: R)
    returns (out: map<string, R>)
    requires forall a :: a in directed ==> directed[a] != empty
    requires forall a :: a in symmetric ==> symmetric[a] != empty
    ensures out == symmetric + directed
  {
    ghost var all := directed.Keys + symmetric.Keys;
    var left := directed.Keys + symmetric.Keys;
    out := map[];
    while left != {}
      invariant left <= all
      invariant forall a :: a in out <==> a in all && a !in left
      invariant forall a :: a in out ==> out[a] == if a in directed then directed[a] else symmetric[a]
      decreases left
    {
      var src :| src in left;
      left := left - {src};
      if src in directed && directed[src] != empty {
        out := out[src := directed[src]];
      } else if src in symmetric && symmetric[src] != empty {
        out := out[src := symmetric[src]];
      }
    }
    assert out.Keys == (symmetric + directed).Keys;
  }

  method BuildForwardKernel(transitions: Store, weights: Store) returns (out: Matrix)
    ensures out == Forward(transitions, weights)
  {
    var directed := BuildDirectedOutEdges(transitions, false);
    var symmetric := BuildOutEdges(weights);
    NoEmptyRow(Directed(transitions, false));
    NoEmptyRow(Undirected(weights));
    out := ChooseRows(directed, symmetric);
  }

  method ChooseRows(directed: Matrix, symmetric: Matrix) returns (out: Matrix)
    requires forall a :: a in directed ==> directed[a] != map[]
    requires forall a :: a in symmetric ==> symmetric[a] != map[]
    ensures out == symmetric + directed
  {
    if |directed| == 0 {
      out := symmetric;
      assert out == symmetric + directed;
    } else {
      out := PreferRows(directed, symmetric, map[]);
    }
  }

  lemma NoEmptyRow(g: Arcs)
    ensures forall a :: a in Stochastic(g) ==> Stochastic(g)[a] != map[]
  {
    StochasticIsKernel(g);
  }

  // ---- what the kernels are -------------------------------------------------------

  /** Some arrow with a positive count leads out of the node. */
  ghost predicate LeadsOut(transitions: Store, a: string) {
    exists b :: Arrow(transitions, a, b)
  }

  lemma DirectedRows(transitions: Store, a: string)
    ensures a in Stochastic(Directed(transitions, false)) <==> LeadsOut(transitions, a)
  {
    var T := Stochastic(Directed(transitions, false));
    NoEmptyRow(Directed(transitions, false));
    if a in T {
      var b :| b in T[a];
      DirectedSteps(transitions, a, b);
    }
    if LeadsOut(transitions, a) {
      var b :| Arrow(transitions, a, b);
      DirectedSteps(transitions, a, b);
    }
  }

  /** The walk steps from `a` to `b` exactly along the arrows out of `a` with a positive count,
      and from a node that no arrow leaves exactly along the pairs with a positive weight. */
  lemma ForwardStepsExactly(transitions: Store, weights: Store, a: string, b: string)
    ensures Steps(Forward(transitions, weights), a, b)
       <==> if LeadsOut(transitions, a) then Arrow(transitions, a, b) else Pair(weights, a, b)
  {
    DirectedRows(transitions, a);
    DirectedSteps(transitions, a, b);
    SymmetricSteps(weights, a, b);
  }

  /** What a step from `a` to `b` is weighed by: the counts of the arrows, or the weights of the pairs. */
  ghost function StepCount(transitions: Store, weights: Store, a: string, b: string): real {
    if LeadsOut(transitions, a) then Sum(ArrowCounts(transitions, a, b)) else Sum(PairWeights(weights, a, b))
  }

  lemma CountOfStep(transitions: Store, weights: Store, a: string, b: string)
    ensures StepCount(transitions, weights, a, b)
         == OutMass(if LeadsOut(transitions, a) then Directed(transitions, false) else Undirected(weights), a, b)
  {
    ArrowMass(transitions, a, b);
    PairMass(weights, a, b);
  }

  lemma ForwardRow(transitions: Store, weights: Store, a: string)
    ensures var T := Stochastic(if LeadsOut(transitions, a) then Directed(transitions, false) else Undirected(weights));
      && (a in Forward(transitions, weights) <==> a in T)
      && (a in T ==> Forward(transitions, weights)[a] == T[a])
  {
    DirectedRows(transitions, a);
    RowOfSum(Stochastic(Undirected(weights)), Stochastic(Directed(transitions, false)), a);
  }

  lemma RowOfSum(first: Matrix, second: Matrix, a: string)
    ensures a in first + second <==> a in first || a in second
    ensures a in second ==> (first + second)[a] == second[a]
    ensures a in first && a !in second ==> (first + second)[a] == first[a]
  {
  }

  /** The steps out of a node are taken in the proportions of their counts or weights. */
  lemma ForwardProportions(transitions: Store, weights: Store, a: string, b: string, c: string)
    returns (p: real, q: real, x: real, y: real)
    requires Steps(Forward(transitions, weights), a, b) && Steps(Forward(transitions, weights), a, c)
    ensures p == Forward(transitions, weights)[a][b] && q == Forward(transitions, weights)[a][c]
    ensures x == StepCount(transitions, weights, a, b) && y == StepCount(transitions, weights, a, c)
    ensures p * y == q * x
  {
    var g := if LeadsOut(transitions, a) then Directed(transitions, false) else Undirected(weights);
    ForwardRow(transitions, weights, a);
    p, q, x, y := RowProportions(g, a, b, c);
    CountOfStep(transitions, weights, a, b);
    CountOfStep(transitions, weights, a, c);
  }

  lemma ForwardIsKernel(transitions: Store, weights: Store)
    ensures IsKernel(Forward(transitions, weights))
  {
    StochasticIsKernel(Directed(transitions, false));
    StochasticIsKernel(Undirected(weights));
  }

  /** The undirected tally is symmetric with a zero diagonal. */
  lemma UndirectedIsSymmetric(weights: Store, a: string, b: string)
    ensures OutMass(Undirected(weights), a, b) == OutMass(Undirected(weights), b, a)
    ensures OutMass(Undirected(weights), a, a) == 0.0
  {
    var g := Undirected(weights);
    forall k | k in g
      ensures ArcMass(g[k], a, b) == ArcMass(g[k], b, a)
      ensures ArcMass(g[k], a, a) == 0.0
    {
      EntryIsSymmetric(Strings.Split(k, "::"), weights[k], a, b);
    }
    assert Shares(g, a, b) == Shares(g, b, a);
    assert SameReadings(Shares(g, a, a), map[]);
    SumExtensional(Shares(g, a, a), map[]);
  }

  lemma EntryIsSymmetric(ends: seq<string>, e: Entry, a: string, b: string)
    ensures var arcs := ArcsBetween(ends, e);
            ArcMass(arcs, a, b) == ArcMass(arcs, b, a) && ArcMass(arcs, a, a) == 0.0
  {
    var arcs := ArcsBetween(ends, e);
    if arcs != [] {
      var w := arcs[0].w;
      var x, y := Arc(ends[0], ends[1], w), Arc(ends[1], ends[0], w);
      assert arcs == [x, y];
      forall c, d ensures ArcMass(arcs, c, d) == ArcMass([x], c, d) + ArcMass([y], c, d) { TwoArcs(x, y, c, d); }
      forall c, d, z: Arc ensures ArcMass([z], c, d) == if z.src == c && z.dst == d then z.w else 0.0 { OneArc(z, c, d); }
    }
  }

  /** Detailed balance: the symmetric kernel weighs a step and its reverse equally once each
      row is scaled back by its node's total out-mass. */
  lemma SymmetricKernelIsReversible(weights: Store, a: string, b: string)
    returns (forth: real, massA: real, back: real, massB: real)
    requires var T := Stochastic(Undirected(weights)); a in T && b in T[a]
    ensures var T := Stochastic(Undirected(weights)); b in T && a in T[b] && forth == T[a][b] && back == T[b][a]
    ensures massA == Sum(RowOf(Undirected(weights), a)) && massB == Sum(RowOf(Undirected(weights), b))
    ensures forth * massA == back * massB
  {
    var g := Undirected(weights);
    StoresArePositive(weights, false);
    UndirectedIsSymmetric(weights, a, b);
    forth, massA := Stochastic(g)[a][b], Sum(RowOf(g, a));
    StepWeight(g, a, b, forth, massA);
    OutMassSign(g, b, a);
    assert a in RowOf(g, b);
    RowSum(g, b);
    assert b in Stochastic(g);
    back, massB := Stochastic(g)[b][a], Sum(RowOf(g, b));
    StepWeight(g, b, a, back, massB);
  }

  lemma StepWeight(g: Arcs, a: string, b: string, p: real, mass: real)
    requires a in Stochastic(g) && b in Stochastic(g)[a]
    requires p == Stochastic(g)[a][b] && mass == Sum(RowOf(g, a))
    ensures OutMass(g, a, b) > 0.0
    ensures p * mass == OutMass(g, a, b)
  {
    DivideBack(p, OutMass(g, a, b), mass);
  }

  lemma DivideBack(q: real, x: real, t: real)
    requires t > 0.0 && q == x / t
    ensures q * t == x
  {
  }

  /** The reverse kernel's tally is the transpose of the forward one's. */
  lemma ReverseIsTranspose(transitions: Store, a: string, b: string)
    ensures OutMass(Directed(transitions, true), a, b) == OutMass(Directed(transitions, false), b, a)
  {
    var f, r := Directed(transitions, false), Directed(transitions, true);
    forall k | k in transitions ensures ArcMass(r[k], a, b) == ArcMass(f[k], b, a) {
      EntryIsTransposed(SplitDirectedKey(k), transitions[k], a, b);
    }
    assert Shares(r, a, b) == Shares(f, b, a);
  }

  lemma DirectedHasNoLoops(transitions: Store, a: string)
    ensures OutMass(Directed(transitions, false), a, a) == 0.0
  {
    var f := Directed(transitions, false);
    forall k | k in transitions ensures ArcMass(f[k], a, a) == 0.0 {
      EntryIsTransposed(SplitDirectedKey(k), transitions[k], a, a);
    }
    assert SameReadings(Shares(f, a, a), map[]);
    SumExtensional(Shares(f, a, a), map[]);
  }

  lemma LoopHasMass(g: Arcs, a: string)
    requires a in Stochastic(g) && a in Stochastic(g)[a]
    ensures OutMass(g, a, a) > 0.0
  {
    StepWeight(g, a, a, Stochastic(g)[a][a], Sum(RowOf(g, a)));
  }

  /** The walk never stays where it is: no row of the forward kernel leads back to its own node. */
  lemma ForwardHasNoLoops(transitions: Store, weights: Store, a: string)
    ensures var T := Forward(transitions, weights); a in T ==> a !in T[a]
  {
    DirectedHasNoLoops(transitions, a);
    UndirectedIsSymmetric(weights, a, a);
    var directed, symmetric := Directed(transitions, false), Undirected(weights);
    if a in Stochastic(directed) {
      if a in Stochastic(directed)[a] { LoopHasMass(directed, a); }
    } else if a in Stochastic(symmetric) {
      if a in Stochastic(symmetric)[a] { LoopHasMass(symmetric, a); }
    }
  }

  lemma EntryIsTransposed(ends: Option<(string, string)>, e: Entry, a: string, b: string)
    requires ends.Some? ==> ends.value.0 != ends.value.1
    ensures ArcMass(ArcFromTo(ends, e, true), a, b) == ArcMass(ArcFromTo(ends, e, false), b, a)
    ensures ArcMass(ArcFromTo(ends, e, false), a, a) == 0.0
  {
    var f, r := ArcFromTo(ends, e, false), ArcFromTo(ends, e, true);
    if f != [] {
      assert f[1..] == [] && r[1..] == [];
    }
  }
}
