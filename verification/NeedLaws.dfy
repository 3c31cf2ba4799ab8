/** The successor walk (samia/core/successor.py) from outside: its parameters, its seeds, and the
    equation between its depths. */
module NeedLaws {
  import opened FileTexts
  import opened Kernel
  import opened NeedSeries
  import opened NeedWalk
  import opened RealMaps

  // ---- parameters and seeds ----------------------------------------------------------------------

  /** Each parameter is taken as the nearest value in its range. */
  lemma ParametersExactly(g: real, l: int, x: real, n: int)
    requires 0.0 <= x <= 0.8 && 1 <= n <= 4
    ensures 0.0 <= ClampGsr(g) <= 0.8 && 1 <= ClampDepth(l) <= 4
    ensures (g <= x ==> ClampGsr(g) <= x) && (x <= g ==> x <= ClampGsr(g))
    ensures (l <= n ==> ClampDepth(l) <= n) && (n <= l ==> n <= ClampDepth(l))
  {
  }

  /** The files of the named elements, and no others, are seeded. */
  lemma {:induction false} KeysExactly(items: seq<Seed>, k: string)
    ensures k in Keys(items) <==> exists i :: 0 <= i < |items| && items[i].node != "" && IsFileOf(k, items[i].node)
  {
    if items != [] {
      var init, last := items[..|items| - 1], items[|items| - 1];
      KeysExactly(init, k);
      FileExactly(k, last.node);
      if i :| 0 <= i < |init| && init[i].node != "" && IsFileOf(k, init[i].node) {
        assert items[i] == init[i];
      }
      if i :| 0 <= i < |items| && items[i].node != "" && IsFileOf(k, items[i].node) {
        assert i < |init| ==> items[i] == init[i];
      }
    }
  }

  lemma SeedWeight(items: seq<Seed>, k: string) returns (p: real, x: real, total: real, n: nat)
    requires k in Keys(items)
    ensures p == At(SeedOf(items), k) && x == Best(items, k) && total == Sum(BestOf(items)) && n == |BestOf(items).Keys|
    ensures if total > 0.0 then p == x / total else n > 0 && p == 1.0 / n as real && x == 0.0
  {
    var w := BestOf(items);
    assert w.Keys == Keys(items);
    SumNonNegative(w);
    p, x, total, n := At(SeedOf(items), k), Best(items, k), Sum(w), |w.Keys|;
    assert k in w && w[k] == x && w[k] <= total;
  }

  lemma ZeroProducts(p: real, q: real, x: real, y: real)
    requires x == 0.0 && y == 0.0
    ensures p * y == q * x
  {
  }

  /** The weights of two seeds are as their best cosines. */
  lemma SeedProportions(items: seq<Seed>, j: string, k: string) returns (p: real, q: real, x: real, y: real)
    requires j in Keys(items) && k in Keys(items)
    ensures p == At(SeedOf(items), j) && q == At(SeedOf(items), k)
    ensures x == Best(items, j) && y == Best(items, k)
    ensures p * y == q * x
  {
    var t, u, m, n;
    p, x, t, m := SeedWeight(items, j);
    q, y, u, n := SeedWeight(items, k);
    if t > 0.0 { Quotients(p, q, x, y, t); } else { ZeroProducts(p, q, x, y); }
  }

  /** Where no cosine is positive, the seeds are weighted alike. */
  lemma SeedsAlike(items: seq<Seed>, j: string, k: string)
    requires j in Keys(items) && k in Keys(items)
    requires forall n :: n in Keys(items) ==> Best(items, n) == 0.0
    ensures At(SeedOf(items), j) == At(SeedOf(items), k)
  {
    SumNonNegative(BestOf(items));
    var p, x, t, m := SeedWeight(items, j);
    var q, y, u, n := SeedWeight(items, k);
  }

  lemma Quotients(p: real, q: real, x: real, y: real, t: real)
    requires t > 0.0 && p == x / t && q == y / t
    ensures p * y == q * x
  {
    assert p * t == x && q * t == y;
    assert p * y == p * (q * t) == q * (p * t);
  }

  // ---- one more hop --------------------------------------------------------------------------------

  /** What flows into `n` from the need of depth `depth`. */
  ghost function Inflow(p: Row, T: Matrix, g: real, depth: nat, n: string): Row {
    map s | s in T :: Times(Series(p, T, g, depth, s), At(T[s], n))
  }

  lemma InflowAt(p: Row, T: Matrix, g: real, depth: nat, n: string, f: real, s: string)
    requires depth > 0 && f == Pow(g, depth) && s in T
    ensures Inflow(p, T, g, depth, n)[s]
         == Inflow(p, T, g, depth - 1, n)[s] + Times(f, Column(p, T, depth, n)[s])
  {
    SplitProduct(Series(p, T, g, depth - 1, s), f, Dense(p, T, depth, s), At(T[s], n));
  }

  lemma InflowMore(p: Row, T: Matrix, g: real, depth: nat, n: string, f: real)
    requires depth > 0 && f == Pow(g, depth)
    ensures Inflow(p, T, g, depth, n) == Plus(Inflow(p, T, g, depth - 1, n), Scale(f, Column(p, T, depth, n)))
  {
    var more, less, col := Inflow(p, T, g, depth, n), Inflow(p, T, g, depth - 1, n), Column(p, T, depth, n);
    forall s | s in T ensures more[s] == less[s] + Times(f, col[s]) { InflowAt(p, T, g, depth, n, f, s); }
    ScaledSum(more, less, col, f);
  }

  lemma ScaledSum(more: Row, less: Row, col: Row, f: real)
    requires more.Keys == less.Keys == col.Keys
    requires forall s :: s in more ==> more[s] == less[s] + Times(f, col[s])
    ensures more == Plus(less, Scale(f, col))
  {
    var all := Plus(less, Scale(f, col));
    assert all.Keys == more.Keys;
    forall s | s in more ensures all[s] == more[s] { PlusAt(less, Scale(f, col), s); }
  }

  lemma SplitProduct(a: real, f: real, d: real, e: real)
    ensures Times(a + Times(f, d), e) == Times(a, e) + Times(f, Times(d, e))
  {
    assert (a + f * d) * e == a * e + f * d * e;
  }

  lemma AddTerm(g: real, a: real, f: real, c: real)
    ensures Times(g, a + Times(f, c)) == Times(g, a) + Times(Times(g, f), c)
  {
    assert g * (a + f * c) == g * a + g * f * c;
  }

  /** The need of one more hop is the seed weight plus the discounted need of the nodes that lead
      here, weighed by their transition probabilities. */
  lemma {:induction false} NeedEquation(p: Row, T: Matrix, g: real, depth: nat, n: string)
    ensures Series(p, T, g, depth + 1, n) == At(p, n) + Times(g, Sum(Inflow(p, T, g, depth, n)))
    decreases depth
  {
    var f := Pow(g, depth);
    var col := Column(p, T, depth, n);
    assert Pow(g, depth + 1) == Times(g, f) && Dense(p, T, depth + 1, n) == Sum(col);
    if depth == 0 {
      assert Inflow(p, T, g, 0, n) == col;
      assert Times(g, f) == g;
    } else {
      NeedEquation(p, T, g, depth - 1, n);
      var less := Inflow(p, T, g, depth - 1, n);
      InflowMore(p, T, g, depth, n, f);
      SumPlus(less, Scale(f, col));
      SumScale(f, col);
      AddTerm(g, Sum(less), f, Sum(col));
    }
  }
}
