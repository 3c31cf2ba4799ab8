/** The dense truncated series that the sparse walk of samia/core/successor.py is to equal,
    its support and its mass. */
module NeedSeries {
  import opened RealMaps
  import opened Kernel

  ghost function Pow(g: real, t: nat): real {
    if t == 0 then 1.0 else Times(g, Pow(g, t - 1))
  }

  /** 1 + g + ... + g^L */
  ghost function Geometric(g: real, depth: nat): real {
    if depth == 0 then 1.0 else Geometric(g, depth - 1) + Pow(g, depth)
  }

  /** (p T^t)[n] by the dense rule: row vector times matrix, a missing row being a zero row. */
  ghost function Dense(p: Row, T: Matrix, t: nat, n: string): real
    decreases t, 0
  {
    if t == 0 then At(p, n) else Sum(Column(p, T, t - 1, n))
  }

  /** The summands (p T^t)[s] * T[s][n]. */
  ghost function Column(p: Row, T: Matrix, t: nat, n: string): Row
    decreases t, 1
  {
    map s | s in T :: Times(Dense(p, T, t, s), At(T[s], n))
  }


  /** need[n] = sum over t = 0..depth of g^t * (p T^t)[n] */
  ghost function Series(p: Row, T: Matrix, g: real, depth: nat, n: string): real {
    if depth == 0 then Dense(p, T, 0, n)
    else Series(p, T, g, depth - 1, n) + Times(Pow(g, depth), Dense(p, T, depth, n))
  }

  ghost predicate NonNegative(v: Row) {
    forall n :: n in v ==> v[n] >= 0.0
  }

  // ---- one sparse step ------------------------------------------------------------

  /** What one step carries from the entries of `v` to `n`. */
  ghost function Flow(g: real, v: Row, T: Matrix, n: string): real {
    Sum(Flows(g, v, T, n))
  }

  ghost function Flows(g: real, v: Row, T: Matrix, n: string): Row {
    map s | s in v && s in T :: Portion(g, v[s], At(T[s], n))
  }

  /** `g * mass * prob` */
  function Portion(g: real, mass: real, prob: real): real {
    Times(Times(g, mass), prob)
  }

  lemma FlowInsert(g: real, v: Row, T: Matrix, s: string, mass: real, n: string)
    requires s !in v
    ensures Flow(g, v[s := mass], T, n) ==
            Flow(g, v, T, n) + if s in T then Portion(g, mass, At(T[s], n)) else 0.0
  {
    var before, after := Flows(g, v, T, n), Flows(g, v[s := mass], T, n);
    forall j | j in after && j != s ensures j in before && after[j] == before[j] {
      assert v[s := mass][j] == v[j];
    }
    if s in T {
      var x := Portion(g, mass, At(T[s], n));
      assert after[s] == x;
      SumUpdate(before, s, x);
      assert after == before[s := x];
    } else {
      assert after == before;
    }
  }

  lemma PortionScales(g: real, c: real, k: real, d: real, e: real, v: real)
    requires k == Times(g, c) && v == Times(c, d)
    ensures Portion(g, v, e) == Times(k, Times(d, e))
  {
  }

  /** Vectors whose entries differ by the factor `k` have sums that do. */
  lemma ProportionalSums(x: Row, y: Row, k: real, sumY: real)
    requires x.Keys == y.Keys && sumY == Sum(y)
    requires forall s :: s in x ==> x[s] == Times(k, y[s])
    ensures Sum(x) == Times(k, sumY)
  {
    assert x == Scale(k, y);
    SumScale(k, y);
  }

  /** A step from `c` times the vector `d` gives `k = g * c` times what `d` gives. */
  lemma StepScales(g: real, c: real, k: real, v: Row, d: Row, col: Row, T: Matrix, n: string, sum: real)
    requires k == Times(g, c) && d.Keys == T.Keys
    requires forall s :: s in T ==> At(v, s) == Times(c, d[s])
    requires col == map s | s in T :: Times(d[s], At(T[s], n))
    requires sum == Sum(col)
    ensures Sum(map s | s in T :: Portion(g, At(v, s), At(T[s], n))) == Times(k, sum)
  {
    var x := map s | s in T :: Portion(g, At(v, s), At(T[s], n));
    forall s | s in T ensures x[s] == Times(k, col[s]) {
      PortionScales(g, c, k, d[s], At(T[s], n), At(v, s));
    }
    ProportionalSums(x, col, k, sum);
  }

  // ---- signs, order and support ---------------------------------------------------

  lemma PowSign(g: real, t: nat)
    requires g >= 0.0
    ensures Pow(g, t) >= 0.0
    ensures g > 0.0 ==> Pow(g, t) > 0.0
  {
  }

  lemma ProductSign(x: real, y: real)
    requires x >= 0.0 && y >= 0.0
    ensures Times(x, y) >= 0.0
    ensures Times(x, y) > 0.0 <==> x > 0.0 && y > 0.0
  {
  }

  /** A seed of positive weight followed by kernel steps. */
  ghost predicate Walk(p: Row, T: Matrix, path: seq<string>) {
    && path != []
    && At(p, path[0]) > 0.0
    && forall i :: 0 <= i < |path| - 1 ==> path[i] in T && path[i + 1] in T[path[i]]
  }

  ghost predicate WalkTo(p: Row, T: Matrix, t: nat, n: string) {
    exists path :: |path| == t + 1 && path[t] == n && Walk(p, T, path)
  }

  lemma WalkStep(p: Row, T: Matrix, t: nat, n: string)
    ensures WalkTo(p, T, t + 1, n) <==> exists s :: s in T && n in T[s] && WalkTo(p, T, t, s)
  {
    if WalkTo(p, T, t + 1, n) {
      var path :| |path| == t + 2 && path[t + 1] == n && Walk(p, T, path);
      var s := path[t];
      assert Walk(p, T, path[..t + 1]) && path[..t + 1][t] == s;
      assert s in T && path[t + 1] in T[s];
      assert WalkTo(p, T, t, s);
    }
    if s :| s in T && n in T[s] && WalkTo(p, T, t, s) {
      var path :| |path| == t + 1 && path[t] == s && Walk(p, T, path);
      assert Walk(p, T, path + [n]) && (path + [n])[t + 1] == n;
    }
  }

  lemma TermSign(row: Row, x: real, n: string)
    requires Distribution(row) && x >= 0.0
    ensures Times(x, At(row, n)) >= 0.0
    ensures Times(x, At(row, n)) > 0.0 <==> n in row && x > 0.0
  {
    ProductSign(x, At(row, n));
  }

  /** (p T^t)[n] is never negative, and positive exactly when a t-step walk ends at n. */
  lemma {:induction false} DenseSupport(p: Row, T: Matrix, t: nat, n: string)
    requires NonNegative(p) && IsKernel(T)
    ensures Dense(p, T, t, n) >= 0.0
    ensures Dense(p, T, t, n) > 0.0 <==> WalkTo(p, T, t, n)
    decreases t
  {
    if t == 0 {
      if At(p, n) > 0.0 {
        assert Walk(p, T, [n]);
      }
    } else {
      var col := Column(p, T, t - 1, n);
      forall s | s in T
        ensures col[s] >= 0.0
        ensures col[s] > 0.0 <==> n in T[s] && WalkTo(p, T, t - 1, s)
      {
        DenseSupport(p, T, t - 1, s);
        TermSign(T[s], Dense(p, T, t - 1, s), n);
      }
      SumNonNegative(col);
      WalkStep(p, T, t - 1, n);
    }
  }

  lemma SeriesStep(p: Row, T: Matrix, g: real, depth: nat, n: string)
    requires NonNegative(p) && IsKernel(T) && g >= 0.0 && depth > 0
    ensures Series(p, T, g, depth - 1, n) <= Series(p, T, g, depth, n)
  {
    PowSign(g, depth);
    DenseSupport(p, T, depth, n);
    ProductSign(Pow(g, depth), Dense(p, T, depth, n));
  }

  /** Deeper truncation only adds. */
  lemma {:induction false} SeriesMonotone(p: Row, T: Matrix, g: real, depth: nat, more: nat, n: string)
    requires NonNegative(p) && IsKernel(T) && g >= 0.0 && depth <= more
    ensures At(p, n) <= Series(p, T, g, depth, n) <= Series(p, T, g, more, n)
    decreases more
  {
    if more > 0 {
      SeriesMonotone(p, T, g, if depth < more then depth else depth - 1, more - 1, n);
      SeriesStep(p, T, g, more, n);
    }
  }

  /** For g > 0 the need is positive exactly at the nodes some walk of at most `depth`
      steps reaches. */
  lemma {:induction false} SeriesSupport(p: Row, T: Matrix, g: real, depth: nat, n: string)
    requires NonNegative(p) && IsKernel(T) && g > 0.0
    ensures Series(p, T, g, depth, n) >= 0.0
    ensures Series(p, T, g, depth, n) > 0.0 <==> exists t: nat :: t <= depth && WalkTo(p, T, t, n)
    decreases depth
  {
    DenseSupport(p, T, depth, n);
    PowSign(g, depth);
    if depth > 0 {
      SeriesSupport(p, T, g, depth - 1, n);
      ProductSign(Pow(g, depth), Dense(p, T, depth, n));
    }
  }
}
