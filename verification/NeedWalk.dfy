/** The sparse walk of samia/core/successor.py: `_seed_distribution` and `need_vector`. */
module NeedWalk {
  import opened RealMaps
  import opened Kernel
  import opened KernelBuild
  import opened NeedSeries
  import opened NeedMass
  import ChainData

  /** One element of the active set; a bare node name comes with cosine 1.0. */
  datatype Seed = Seed(node: string, cos: Number)

  const GSR_MIN := 0.0
  const GSR_MAX := 0.8
  const L_MIN := 1
  const L_MAX := 4

  function ClampGsr(g: real): real {
    var low := if GSR_MIN < g then g else GSR_MIN;
    if low < GSR_MAX then low else GSR_MAX
  }

  function ClampDepth(l: int): nat {
    var low := if L_MIN < l then l else L_MIN;
    if low < L_MAX then low else L_MAX
  }

  // ---- the seed distribution ------------------------------------------------------

  /** max(cos, 0), an unreadable cosine counting as zero. */
  function Clipped(cos: Number): real {
    match cos
    case Real(c) => if c > 0.0 then c else 0.0
    case NotANumber => 0.0
  }

  ghost predicate Names(s: Seed, k: string) {
    s.node != "" && ChainData.FileName(s.node) == k
  }

  /** The keys the active set seeds; a nameless element seeds nothing. */
  ghost function Keys(items: seq<Seed>): set<string> {
    if items == [] then {}
    else
      var last := items[|items| - 1];
      Keys(items[..|items| - 1]) + if last.node == "" then {} else {ChainData.FileName(last.node)}
  }

  /** The greatest clipped cosine given for `k`. */
  ghost function Best(items: seq<Seed>, k: string): (b: real)
    ensures b >= 0.0
  {
    if items == [] then 0.0
    else
      var last := items[|items| - 1];
      var rest := Best(items[..|items| - 1], k);
      if Names(last, k) && Clipped(last.cos) > rest then Clipped(last.cos) else rest
  }

  /** It is the maximum: an upper bound that is attained unless it is zero. */
  lemma {:induction false} BestIsMax(items: seq<Seed>, k: string)
    ensures forall i :: 0 <= i < |items| && Names(items[i], k) ==> Clipped(items[i].cos) <= Best(items, k)
    ensures Best(items, k) > 0.0 ==>
              exists i :: 0 <= i < |items| && Names(items[i], k) && Clipped(items[i].cos) == Best(items, k)
  {
    if items != [] {
      var init := items[..|items| - 1];
      BestIsMax(init, k);
      if Best(init, k) > 0.0 {
        var i :| 0 <= i < |init| && Names(init[i], k) && Clipped(init[i].cos) == Best(init, k);
        assert items[i] == init[i];
      }
    }
  }

  ghost function BestOf(items: seq<Seed>): Row {
    map k | k in Keys(items) :: Best(items, k)
  }

  /** p0: the best cosines normalised, or uniform over the seeds when none is positive. */
  ghost function SeedOf(items: seq<Seed>): Row {
    var w := BestOf(items);
    if w == map[] then map[]
    else if Sum(w) <= 0.0 then (map k | k in w :: 1.0 / |w.Keys| as real)
    else Normalised(w)
  }

  method BestCosines(items: seq<Seed>) returns (seeds: Row)
    ensures seeds == BestOf(items)
  {
    seeds := map[];
    assert Keys(items[..0]) == {};
    for i := 0 to |items|
      invariant seeds == BestOf(items[..i])
    {
      var s := items[i];
      assert items[..i] + [s] == items[..i + 1];
      if s.node == "" {
        BestOfSkip(items[..i], s);
        continue;
      }
      var k, c := ChainData.FileName(s.node), Clipped(s.cos);
      var prior := At(seeds, k);
      BestOfUpdate(items[..i], s, k, if c > prior then c else prior);
      seeds := seeds[k := if c > prior then c else prior];
    }
    assert items[..|items|] == items;
  }

  lemma KeysAppend(items: seq<Seed>, s: Seed)
    ensures Keys(items + [s]) == Keys(items) + if s.node == "" then {} else {ChainData.FileName(s.node)}
  {
    assert (items + [s])[..|items|] == items;
  }

  lemma BestAppend(items: seq<Seed>, s: Seed, k: string)
    ensures Best(items + [s], k) ==
            if Names(s, k) && Clipped(s.cos) > Best(items, k) then Clipped(s.cos) else Best(items, k)
  {
    assert (items + [s])[..|items|] == items;
  }

  lemma BestOfSkip(items: seq<Seed>, s: Seed)
    requires s.node == ""
    ensures BestOf(items + [s]) == BestOf(items)
  {
    var w, z := BestOf(items), BestOf(items + [s]);
    KeysAppend(items, s);
    forall k | k in w ensures z[k] == w[k] { BestAppend(items, s, k); }
  }

  lemma BestOfUpdate(items: seq<Seed>, s: Seed, key: string, best: real)
    requires s.node != "" && key == ChainData.FileName(s.node)
    requires best == if Clipped(s.cos) > At(BestOf(items), key) then Clipped(s.cos) else At(BestOf(items), key)
    ensures BestOf(items + [s]) == BestOf(items)[key := best]
  {
    var w, z := BestOf(items), BestOf(items + [s]);
    KeysAppend(items, s);
    BestElsewhere(items, key);
    BestAppend(items, s, key);
    forall k | k in w && k != key ensures z[k] == w[k] { BestAppend(items, s, k); }
    assert z.Keys == w.Keys + {key};
  }

  lemma {:induction false} BestElsewhere(items: seq<Seed>, k: string)
    ensures k !in Keys(items) ==> Best(items, k) == 0.0
  {
    if items != [] {
      BestElsewhere(items[..|items| - 1], k);
    }
  }

  method SeedDistribution(items: seq<Seed>) returns (p: Row)
    ensures p == SeedOf(items)
  {
    var seeds := BestCosines(items);
    if seeds == map[] { return map[]; }
    var total := TotalOf(seeds);
    if total <= 0.0 {
      p := map k | k in seeds :: 1.0 / |seeds.Keys| as real;
    } else {
      p := NormaliseRow(seeds, total);
    }
  }

  lemma {:induction false} ConstantSum(m: Row, u: real)
    requires forall k :: k in m ==> m[k] == u
    ensures Sum(m) == Times(|m| as real, u)
    decreases |m|
  {
    if m != map[] {
      var k :| k in m;
      SumDrop(m, k);
      SmallerDrop(m, k);
      ConstantSum(m - {k}, u);
      CountUp(|m - {k}|, u);
    }
  }

  lemma CountUp(n: nat, u: real)
    ensures Times((n + 1) as real, u) == Times(n as real, u) + u
  {
  }

  lemma NTimesUnit(n: nat, u: real)
    requires n > 0 && u == 1.0 / n as real
    ensures Times(n as real, u) == 1.0 && u > 0.0
  {
  }

  /** p0 is a probability distribution over the seeds; a seed has positive weight exactly when
      its best cosine is positive, or no seed's is. */
  lemma SeedIsDistribution(items: seq<Seed>)
    ensures NonNegative(SeedOf(items)) && SeedOf(items).Keys == Keys(items)
    ensures Keys(items) != {} ==> Sum(SeedOf(items)) == 1.0
    ensures forall k :: At(SeedOf(items), k) > 0.0 <==>
                        k in Keys(items) && (Best(items, k) > 0.0 || forall j :: j in Keys(items) ==> Best(items, j) == 0.0)
  {
    var w := BestOf(items);
    assert w.Keys == Keys(items);
    SumNonNegative(w);
    if w == map[] {
      assert w.Keys == {};
    } else if Sum(w) <= 0.0 {
      UniformSeed(w, 1.0 / |w.Keys| as real, SeedOf(items));
      forall j | j in Keys(items) ensures Best(items, j) == 0.0 { assert w[j] == Best(items, j); }
    } else {
      NormalisedSumsToOne(w);
      forall k | k in w
        ensures SeedOf(items)[k] >= 0.0 && (SeedOf(items)[k] > 0.0 <==> Best(items, k) > 0.0)
      {
        QuotientSign(w[k], Sum(w));
      }
      var j :| j in w && w[j] > 0.0;
      assert Best(items, j) > 0.0;
    }
  }

  lemma UniformSeed(w: Row, u: real, p: Row)
    requires w != map[] && u == 1.0 / |w.Keys| as real
    requires p == map k | k in w :: u
    ensures Sum(p) == 1.0 && u > 0.0
  {
    assert p.Keys == w.Keys;
    NTimesUnit(|w.Keys|, u);
    ConstantSum(p, u);
    assert |p| == |p.Keys|;
  }

  lemma QuotientSign(x: real, t: real)
    requires x >= 0.0 && t > 0.0
    ensures x / t >= 0.0 && (x / t > 0.0 <==> x > 0.0)
  {
  }

  // ---- the walk -------------------------------------------------------------------

  /** `for dst, prob in row.items(): nxt[dst] += c * prob` */
  method AddRow(acc: Row, c: real, row: Row) returns (nxt: Row)
    ensures forall n :: At(nxt, n) == At(acc, n) + Times(c, At(row, n))
    ensures acc != map[] || row != map[] <==> nxt != map[]
  {
    nxt := acc;
    var left := row.Keys;
    TimesZero(c);
    while left != {}
      invariant left <= row.Keys
      invariant forall n :: At(nxt, n) == At(acc, n) + if n in left then 0.0 else Times(c, At(row, n))
      invariant nxt.Keys == acc.Keys + (row.Keys - left)
      decreases left
    {
      var dst :| dst in left;
      left := left - {dst};
      nxt := nxt[dst := At(nxt, dst) + Times(c, row[dst])];
    }
  }

  lemma TimesZero(c: real)
    ensures Times(c, 0.0) == 0.0 && Times(0.0, c) == 0.0
  {
  }

  /** One hop: every entry with mass and a row passes g times its mass along its row. */
  method Propagate(pk: Row, T: Matrix, g: real) returns (nxt: Row)
    requires g > 0.0
    ensures forall n :: At(nxt, n) == Flow(g, pk, T, n)
  {
    nxt := map[];
    var left := pk.Keys;
    ghost var done: Row := map[];
    forall n ensures Flow(g, done, T, n) == 0.0 { assert Flows(g, done, T, n) == map[]; }
    while left != {}
      invariant left <= pk.Keys && done.Keys == pk.Keys - left
      invariant forall s :: s in done ==> done[s] == pk[s]
      invariant forall n :: At(nxt, n) == Flow(g, done, T, n)
      decreases left
    {
      var src :| src in left;
      left := left - {src};
      var mass := pk[src];
      forall n ensures Flow(g, done[src := mass], T, n) ==
                       Flow(g, done, T, n) + if src in T then Portion(g, mass, At(T[src], n)) else 0.0
      {
        FlowInsert(g, done, T, src, mass, n);
        if src in T && mass == 0.0 { PortionOfNothing(g, At(T[src], n)); }
      }
      done := done[src := mass];
      if mass == 0.0 {
        forall n ensures At(nxt, n) == Flow(g, done, T, n) {
          if src in T { PortionOfNothing(g, At(T[src], n)); }
        }
        continue;
      }
      if src !in T { continue; }
      nxt := AddRow(nxt, Times(g, mass), T[src]);
    }
    assert done == pk;
  }

  method AddInto(need: Row, nxt: Row) returns (r: Row)
    ensures forall n :: At(r, n) == At(need, n) + At(nxt, n)
  {
    r := need;
    var left := nxt.Keys;
    while left != {}
      invariant left <= nxt.Keys
      invariant forall n :: At(r, n) == At(need, n) + if n in left then 0.0 else At(nxt, n)
      decreases left
    {
      var dst :| dst in left;
      left := left - {dst};
      r := r[dst := At(r, dst) + nxt[dst]];
    }
  }

  /** Once a hop carries nothing, no later hop does. */
  lemma {:induction false} NothingLeft(p: Row, T: Matrix, t: nat, u: nat, n: string)
    requires t <= u && forall s :: Dense(p, T, t, s) == 0.0
    ensures Dense(p, T, u, n) == 0.0
    decreases u
  {
    if t < u {
      forall s | s in T ensures Column(p, T, u - 1, n)[s] == 0.0 {
        NothingLeft(p, T, t, u - 1, s);
        TimesZero(At(T[s], n));
      }
      assert SameReadings(Column(p, T, u - 1, n), map[]);
      SumExtensional(Column(p, T, u - 1, n), map[]);
    }
  }

  lemma {:induction false} SeriesStops(p: Row, T: Matrix, g: real, t: nat, depth: nat, n: string)
    requires 0 < t && t - 1 <= depth && forall s :: Dense(p, T, t, s) == 0.0
    ensures Series(p, T, g, depth, n) == Series(p, T, g, t - 1, n)
    decreases depth
  {
    if t <= depth {
      SeriesStops(p, T, g, t, depth - 1, n);
      NothingLeft(p, T, t, depth, n);
      TimesZero(Pow(g, depth));
    }
  }

  lemma {:induction false} SeriesWithoutDiscount(p: Row, T: Matrix, depth: nat, n: string)
    ensures Series(p, T, 0.0, depth, n) == At(p, n)
  {
    if depth > 0 {
      SeriesWithoutDiscount(p, T, depth - 1, n);
      TimesZero(Pow(0.0, depth - 1));
      TimesZero(Dense(p, T, depth, n));
    }
  }

  lemma FactorOut(x: real, y: real)
    requires x > 0.0 && Times(x, y) == 0.0
    ensures y == 0.0
  {
  }

  /** A hop with no entries means a zero dense vector. */
  lemma EmptyHop(p: Row, T: Matrix, g: real, t: nat, v: Row)
    requires g > 0.0 && v == map[] && forall n :: At(v, n) == Times(Pow(g, t), Dense(p, T, t, n))
    ensures forall n :: Dense(p, T, t, n) == 0.0
  {
    PowSign(g, t);
    forall n ensures Dense(p, T, t, n) == 0.0 {
      assert At(v, n) == 0.0;
      FactorOut(Pow(g, t), Dense(p, T, t, n));
    }
  }

  /** The loop over hops, on a given kernel. */
  method Walk(p0: Row, T: Matrix, g: real, depth: nat) returns (need: Row)
    requires g > 0.0
    ensures forall n :: At(need, n) == Series(p0, T, g, depth, n)
  {
    need := p0;
    var pk := p0;
    forall n ensures At(p0, n) == Times(Pow(g, 0), Dense(p0, T, 0, n)) {}
    var t: nat := 0;
    while t < depth
      invariant t <= depth
      invariant forall n :: At(pk, n) == Times(Pow(g, t), Dense(p0, T, t, n))
      invariant forall n :: At(need, n) == Series(p0, T, g, t, n)
    {
      var nxt := Propagate(pk, T, g);
      forall n ensures At(nxt, n) == Times(Pow(g, t + 1), Dense(p0, T, t + 1, n)) {
        StepReadings(g, pk, p0, T, t, Pow(g, t), n);
      }
      if nxt == map[] {
        EmptyHop(p0, T, g, t + 1, nxt);
        forall n ensures At(need, n) == Series(p0, T, g, depth, n) { SeriesStops(p0, T, g, t + 1, depth, n); }
        break;
      }
      need := AddInto(need, nxt);
      pk := nxt;
      t := t + 1;
    }
  }

  /** `need_vector`: at every node the discounted dense series from p0 over the forward kernel. */
  method NeedVector(transitions: map<string, Entry>, weights: map<string, Entry>, active: seq<Seed>, gsr: real, l: int)
    returns (need: Row)
    ensures forall n :: At(need, n) ==
                        Series(SeedOf(active), Forward(transitions, weights), ClampGsr(gsr), ClampDepth(l), n)
  {
    var g := ClampGsr(gsr);
    var depth := ClampDepth(l);
    var p0 := SeedDistribution(active);
    ghost var T := Forward(transitions, weights);
    if p0 == map[] {
      forall n ensures Series(p0, T, g, depth, n) == 0.0 {
        SeriesFromNothing(T, g, depth, n);
      }
      return map[];
    }
    if g <= 0.0 {
      forall n ensures Series(p0, T, g, depth, n) == At(p0, n) { SeriesWithoutDiscount(p0, T, depth, n); }
      return p0;
    }
    var out := BuildForwardKernel(transitions, weights);
    if out == map[] {
      forall n ensures Series(p0, T, g, depth, n) == At(p0, n) {
        SeriesWithoutGraph(p0, g, depth, n);
      }
      return p0;
    }
    need := Walk(p0, out, g, depth);
  }

  lemma SeriesWithoutGraph(p: Row, g: real, depth: nat, n: string)
    ensures Series(p, map[], g, depth, n) == At(p, n)
  {
    forall s ensures Dense(p, map[], 1, s) == 0.0 { assert Column(p, map[], 0, s) == map[]; }
    SeriesStops(p, map[], g, 1, depth, n);
  }

  lemma SeriesFromNothing(T: Matrix, g: real, depth: nat, n: string)
    ensures Series(map[], T, g, depth, n) == 0.0
  {
    forall s ensures Dense(map[], T, 1, s) == 0.0 {
      var p: Row := map[];
      forall u ensures Dense(p, T, 0, u) == 0.0 {}
      NothingLeft(p, T, 0, 1, s);
    }
    SeriesStops(map[], T, g, 1, depth, n);
  }

  // ---- what a caller gets ---------------------------------------------------------

  /** For a non-empty active set: the result is at least p0 everywhere, is positive exactly at
      the nodes a walk of at most `depth` hops reaches from a positive seed, and totals at most
      1 + g + ... + g^depth <= 3.3616. */
  lemma NeedVectorMeaning(transitions: map<string, Entry>, weights: map<string, Entry>, active: seq<Seed>,
                          gsr: real, l: int, need: Row)
    requires Keys(active) != {}
    requires forall n :: At(need, n) ==
                         Series(SeedOf(active), Forward(transitions, weights), ClampGsr(gsr), ClampDepth(l), n)
    ensures var p, T, g, depth := SeedOf(active), Forward(transitions, weights), ClampGsr(gsr), ClampDepth(l);
            && (forall n :: At(need, n) >= At(p, n))
            && (g > 0.0 ==> forall n :: At(need, n) > 0.0 <==> exists t: nat :: t <= depth && WalkTo(p, T, t, n))
            && Sum(need) <= Geometric(g, depth) <= 3.3616
            && (NoDeadEnd(g, p, T, depth) ==> Sum(need) == Geometric(g, depth))
  {
    var p, T, g, depth := SeedOf(active), Forward(transitions, weights), ClampGsr(gsr), ClampDepth(l);
    SeedIsDistribution(active);
    ForwardIsKernel(transitions, weights);
    forall n ensures At(need, n) >= At(p, n) { SeriesMonotone(p, T, g, depth, depth, n); }
    if g > 0.0 {
      forall n ensures At(need, n) > 0.0 <==> exists t: nat :: t <= depth && WalkTo(p, T, t, n) {
        SeriesSupport(p, T, g, depth, n);
      }
    }
    TotalNeed(g, p, T, depth, need);
    GeometricBound(g, depth);
  }

  /** The walk collapses to the seed distribution exactly when g = 0 or no seed of positive
      weight has a row; a depth of 1 alone does not collapse it. */
  lemma ProxyExactlyWhen(p: Row, T: Matrix, g: real, depth: nat)
    requires NonNegative(p) && IsKernel(T) && g >= 0.0 && depth >= 1
    ensures (forall n :: Series(p, T, g, depth, n) == At(p, n)) <==>
            g == 0.0 || forall s :: At(p, s) > 0.0 ==> s !in T
  {
    if g == 0.0 {
      forall n ensures Series(p, T, g, depth, n) == At(p, n) { SeriesWithoutDiscount(p, T, depth, n); }
    } else if s :| At(p, s) > 0.0 && s in T {
      assert Distribution(T[s]);
      var n :| n in T[s];
      SeriesMonotone(p, T, g, 1, depth, n);
      assert NeedSeries.Walk(p, T, [s, n]) && [s, n][1] == n;
      DenseSupport(p, T, 1, n);
      PowSign(g, 1);
      ProductSign(Pow(g, 1), Dense(p, T, 1, n));
      assert Series(p, T, g, 1, n) == At(p, n) + Times(Pow(g, 1), Dense(p, T, 1, n));
    } else {
      forall n ensures Series(p, T, g, depth, n) == At(p, n) { NoSeedRow(p, T, g, depth, n); }
    }
  }

  lemma NoSeedRow(p: Row, T: Matrix, g: real, depth: nat, n: string)
    requires NonNegative(p) && IsKernel(T) && forall s :: At(p, s) > 0.0 ==> s !in T
    ensures Series(p, T, g, depth, n) == At(p, n)
  {
    forall u ensures Dense(p, T, 1, u) == 0.0 {
      DenseSupport(p, T, 1, u);
      WalkStep(p, T, 0, u);
      forall s ensures !(s in T && WalkTo(p, T, 0, s)) { DenseSupport(p, T, 0, s); }
    }
    SeriesStops(p, T, g, 1, depth, n);
  }
}
