/** The frontiers of the walk as sparse vectors: they read as the discounted dense vectors,
    and their total mass is bounded by the powers of the discount. */
module NeedMass {
  import opened RealMaps
  import opened Kernel
  import opened NeedSeries

  lemma DistributeTimes(c: real, x: real, y: real)
    ensures Times(c, x + y) == Times(c, x) + Times(c, y)
  {
  }

  lemma TimesMonotone(c: real, x: real, y: real)
    requires c >= 0.0 && x <= y
    ensures Times(c, x) <= Times(c, y)
  {
  }

  /** One sparse mat-vec: the rows of the entries of `v`, each scaled by g times its mass. */
  ghost function Spread(g: real, v: Row, T: Matrix): Row
    decreases |v|
  {
    if v == map[] then map[]
    else
      var s :| s in v;
      SmallerDrop(v, s);
      var rest := Spread(g, v - {s}, T);
      if s in T then Plus(rest, Scale(Times(g, v[s]), T[s])) else rest
  }

  /** v_t of the walk: v_0 = p and v_t = g v_(t-1) T. */
  ghost function Frontier(g: real, p: Row, T: Matrix, t: nat): Row {
    if t == 0 then p else Spread(g, Frontier(g, p, T, t - 1), T)
  }

  ghost function Accumulated(g: real, p: Row, T: Matrix, depth: nat): Row {
    if depth == 0 then p else Plus(Accumulated(g, p, T, depth - 1), Frontier(g, p, T, depth))
  }

  // ---- readings -------------------------------------------------------------------

  lemma {:induction false} SpreadAt(g: real, v: Row, T: Matrix, n: string)
    ensures At(Spread(g, v, T), n) == Flow(g, v, T, n)
    decreases |v|
  {
    if v == map[] {
      assert Flows(g, v, T, n) == map[];
    } else {
      var s :| s in v && Spread(g, v, T) ==
        if s in T then Plus(Spread(g, v - {s}, T), Scale(Times(g, v[s]), T[s])) else Spread(g, v - {s}, T);
      SmallerDrop(v, s);
      SpreadAt(g, v - {s}, T, n);
      FlowInsert(g, v - {s}, T, s, v[s], n);
      assert (v - {s})[s := v[s]] == v;
      if s in T {
        ScaleAt(Times(g, v[s]), T[s], n);
        PlusAt(Spread(g, v - {s}, T), Scale(Times(g, v[s]), T[s]), n);
      }
    }
  }

  lemma PortionOfNothing(g: real, e: real)
    ensures Portion(g, 0.0, e) == 0.0
  {
  }

  /** The flow, summed over the kernel's rows instead of the entries of `v`. */
  lemma FlowOverRows(g: real, v: Row, T: Matrix, n: string)
    ensures Flow(g, v, T, n) == Sum(map s | s in T :: Portion(g, At(v, s), At(T[s], n)))
  {
    var x := map s | s in T :: Portion(g, At(v, s), At(T[s], n));
    forall s ensures At(Flows(g, v, T, n), s) == At(x, s) {
      if s in T && s !in v { PortionOfNothing(g, At(T[s], n)); }
    }
    SumExtensional(Flows(g, v, T, n), x);
  }

  /** A step from c times the t-th dense vector reads as g c times the (t+1)-th. */
  lemma StepReadings(g: real, v: Row, p: Row, T: Matrix, t: nat, c: real, n: string)
    requires forall s :: At(v, s) == Times(c, Dense(p, T, t, s))
    ensures Flow(g, v, T, n) == Times(Times(g, c), Dense(p, T, t + 1, n))
  {
    var d := map s | s in T :: Dense(p, T, t, s);
    FlowOverRows(g, v, T, n);
    var col := Column(p, T, t, n);
    assert col == map s | s in T :: Times(d[s], At(T[s], n));
    StepScales(g, c, Times(g, c), v, d, col, T, n, Sum(col));
  }

  lemma {:induction false} FrontierReadings(g: real, p: Row, T: Matrix, t: nat, n: string)
    ensures At(Frontier(g, p, T, t), n) == Times(Pow(g, t), Dense(p, T, t, n))
    decreases t
  {
    if t > 0 {
      var u: nat, v := t - 1, Frontier(g, p, T, t - 1);
      forall s ensures At(v, s) == Times(Pow(g, u), Dense(p, T, u, s)) {
        FrontierReadings(g, p, T, u, s);
      }
      SpreadAt(g, v, T, n);
      StepReadings(g, v, p, T, u, Pow(g, u), n);
    }
  }

  lemma {:induction false} AccumulatedReadings(g: real, p: Row, T: Matrix, depth: nat, n: string)
    ensures At(Accumulated(g, p, T, depth), n) == Series(p, T, g, depth, n)
  {
    if depth > 0 {
      AccumulatedReadings(g, p, T, depth - 1, n);
      FrontierReadings(g, p, T, depth, n);
      PlusAt(Accumulated(g, p, T, depth - 1), Frontier(g, p, T, depth), n);
    }
  }

  // ---- mass -----------------------------------------------------------------------

  /** The part of `v` that sits on nodes with a row; the rest leaves the walk. */
  ghost function Live(v: Row, T: Matrix): Row {
    map s | s in v :: if s in T then v[s] else 0.0
  }

  lemma {:induction false} SpreadMass(g: real, v: Row, T: Matrix)
    requires IsKernel(T)
    ensures Sum(Spread(g, v, T)) == Times(g, Sum(Live(v, T)))
    decreases |v|
  {
    if v == map[] {
      assert Live(v, T) == map[];
    } else {
      var s :| s in v && Spread(g, v, T) ==
        if s in T then Plus(Spread(g, v - {s}, T), Scale(Times(g, v[s]), T[s])) else Spread(g, v - {s}, T);
      SmallerDrop(v, s);
      SpreadMass(g, v - {s}, T);
      LiveDrop(v, T, s);
      if s in T {
        assert Distribution(T[s]);
        SpreadMassStep(g, v[s], T[s], Spread(g, v - {s}, T), Sum(Live(v - {s}, T)));
      }
    }
  }

  lemma LiveDrop(v: Row, T: Matrix, s: string)
    requires s in v
    ensures Sum(Live(v, T)) == (if s in T then v[s] else 0.0) + Sum(Live(v - {s}, T))
  {
    SumDrop(Live(v, T), s);
    assert Live(v, T) - {s} == Live(v - {s}, T);
  }

  lemma SpreadMassStep(g: real, mass: real, row: Row, rest: Row, restMass: real)
    requires Distribution(row) && Sum(rest) == Times(g, restMass)
    ensures Sum(Plus(rest, Scale(Times(g, mass), row))) == Times(g, mass + restMass)
  {
    SumPlus(rest, Scale(Times(g, mass), row));
    SumScale(Times(g, mass), row);
    TimesOne(Times(g, mass));
    DistributeTimes(g, mass, restMass);
  }

  lemma TimesOne(c: real)
    ensures Times(c, 1.0) == c
  {
  }

  lemma FrontierNonNegative(g: real, p: Row, T: Matrix, t: nat)
    requires g >= 0.0 && NonNegative(p) && IsKernel(T)
    ensures NonNegative(Frontier(g, p, T, t))
  {
    forall n | n in Frontier(g, p, T, t) ensures Frontier(g, p, T, t)[n] >= 0.0 {
      FrontierReadings(g, p, T, t, n);
      PowSign(g, t);
      DenseSupport(p, T, t, n);
      ProductSign(Pow(g, t), Dense(p, T, t, n));
    }
  }

  /** No node that still carries mass before hop `t` lacks a row. */
  ghost predicate NoDeadEnd(g: real, p: Row, T: Matrix, t: nat) {
    forall u: nat, n :: u < t && At(Frontier(g, p, T, u), n) > 0.0 ==> n in T
  }

  /** The t-th frontier has mass at most g^t, exactly g^t when no mass met a dead end. */
  lemma {:induction false} FrontierMass(g: real, p: Row, T: Matrix, t: nat)
    requires g >= 0.0 && NonNegative(p) && Sum(p) == 1.0 && IsKernel(T)
    ensures Sum(Frontier(g, p, T, t)) <= Pow(g, t)
    ensures NoDeadEnd(g, p, T, t) ==> Sum(Frontier(g, p, T, t)) == Pow(g, t)
    decreases t
  {
    if t > 0 {
      var v := Frontier(g, p, T, t - 1);
      FrontierMass(g, p, T, t - 1);
      FrontierNonNegative(g, p, T, t - 1);
      SpreadMass(g, v, T);
      SumMonotone(Live(v, T), v);
      TimesMonotone(g, Sum(Live(v, T)), Sum(v));
      TimesMonotone(g, Sum(v), Pow(g, t - 1));
      if NoDeadEnd(g, p, T, t) {
        assert NoDeadEnd(g, p, T, t - 1);
        assert SameReadings(Live(v, T), v) by {
          forall n ensures At(Live(v, T), n) == At(v, n) {
            assert At(v, n) > 0.0 ==> n in T;
          }
        }
        SumExtensional(Live(v, T), v);
      }
    }
  }

  /** The total need is at most 1 + g + ... + g^L, with equality when no mass met a dead end
      before the last hop. */
  lemma TotalNeed(g: real, p: Row, T: Matrix, depth: nat, need: Row)
    requires g >= 0.0 && NonNegative(p) && Sum(p) == 1.0 && IsKernel(T)
    requires forall n :: At(need, n) == Series(p, T, g, depth, n)
    ensures Sum(need) <= Geometric(g, depth)
    ensures NoDeadEnd(g, p, T, depth) ==> Sum(need) == Geometric(g, depth)
  {
    AccumulatedMass(g, p, T, depth);
    forall n ensures At(need, n) == At(Accumulated(g, p, T, depth), n) {
      AccumulatedReadings(g, p, T, depth, n);
    }
    SumExtensional(need, Accumulated(g, p, T, depth));
  }

  lemma {:induction false} AccumulatedMass(g: real, p: Row, T: Matrix, depth: nat)
    requires g >= 0.0 && NonNegative(p) && Sum(p) == 1.0 && IsKernel(T)
    ensures Sum(Accumulated(g, p, T, depth)) <= Geometric(g, depth)
    ensures NoDeadEnd(g, p, T, depth) ==> Sum(Accumulated(g, p, T, depth)) == Geometric(g, depth)
  {
    if depth > 0 {
      AccumulatedMass(g, p, T, depth - 1);
      FrontierMass(g, p, T, depth);
      SumPlus(Accumulated(g, p, T, depth - 1), Frontier(g, p, T, depth));
      assert NoDeadEnd(g, p, T, depth) ==> NoDeadEnd(g, p, T, depth - 1);
    }
  }

  /** Within the clamped bounds (g <= 0.8, depth <= 4) the total is at most 3.3616. */
  lemma GeometricBound(g: real, depth: nat)
    requires 0.0 <= g <= 0.8 && depth <= 4
    ensures Geometric(g, depth) <= 3.3616
    ensures Geometric(0.8, 4) == 3.3616
  {
    PowersUpToFour(0.8);
    PowersUpToFour(g);
    PowerBound(g, 1);
    PowerBound(g, 2);
    PowerBound(g, 3);
    PowerBound(g, 4);
  }

  lemma PowersUpToFour(g: real)
    ensures Pow(g, 1) == g && Pow(g, 2) == Times(g, Pow(g, 1)) && Pow(g, 3) == Times(g, Pow(g, 2))
    ensures Pow(g, 4) == Times(g, Pow(g, 3))
    ensures Geometric(g, 0) == 1.0 && Geometric(g, 1) == 1.0 + Pow(g, 1)
    ensures Geometric(g, 2) == Geometric(g, 1) + Pow(g, 2)
    ensures Geometric(g, 3) == Geometric(g, 2) + Pow(g, 3) && Geometric(g, 4) == Geometric(g, 3) + Pow(g, 4)
  {
    TimesOne(g);
  }

  lemma {:induction false} PowerBound(g: real, t: nat)
    requires 0.0 <= g <= 0.8
    ensures 0.0 <= Pow(g, t) <= Pow(0.8, t)
  {
    if t > 0 {
      PowerBound(g, t - 1);
      TimesBoth(g, 0.8, Pow(g, t - 1), Pow(0.8, t - 1));
    }
  }

  lemma TimesBoth(a: real, b: real, x: real, y: real)
    requires 0.0 <= a <= b && 0.0 <= x <= y
    ensures 0.0 <= Times(a, x) <= Times(b, y)
  {
    assert a * x <= b * x <= b * y;
  }
}
