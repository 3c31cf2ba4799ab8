/** Finite real-valued dictionaries read as sparse vectors, and sums over them. */
module RealMaps {

  /** A missing key reads as zero, as `d.get(k, 0.0)` does. */
  function At<K(==)>(m: map<K, real>, k: K): real {
    if k in m then m[k] else 0.0
  }

  /** The sum of the values; the order of the additions is left open. */
  ghost function Sum<K(!new)>(m: map<K, real>): real
    decreases |m|
  {
    if m == map[] then 0.0
    else
      var k :| k in m;
      assert (m - {k}).Keys == m.Keys - {k};
      m[k] + Sum(m - {k})
  }

  /** Any key may be split off first. */
  lemma {:induction false} SumRemove<K(!new)>(m: map<K, real>, k: K)
    requires k in m
    ensures Sum(m) == m[k] + Sum(m - {k})
    decreases |m|
  {
    assert (m - {k}).Keys == m.Keys - {k};
    var p :| p in m && Sum(m) == m[p] + Sum(m - {p});
    if p != k {
      assert (m - {p}).Keys == m.Keys - {p};
      SumRemove(m - {p}, k);
      SumRemove(m - {k}, p);
      assert m - {p} - {k} == m - {k} - {p};
    }
  }

  /** The same, for a key that may be missing. */
  lemma SumDrop<K(!new)>(m: map<K, real>, k: K)
    ensures Sum(m) == At(m, k) + Sum(m - {k})
    ensures k in m ==> |m - {k}| < |m|
  {
    if k in m {
      SumRemove(m, k);
      assert (m - {k}).Keys == m.Keys - {k};
    } else {
      assert m - {k} == m;
    }
  }

  lemma SumUpdate<K(!new)>(m: map<K, real>, k: K, v: real)
    ensures Sum(m[k := v]) == Sum(m) - At(m, k) + v
  {
    SumRemove(m[k := v], k);
    assert m[k := v] - {k} == m - {k};
    SumDrop(m, k);
  }

  ghost predicate SameReadings<K(!new)>(a: map<K, real>, b: map<K, real>) {
    forall k :: At(a, k) == At(b, k)
  }

  /** Stored zeros do not matter: vectors that read the same have the same sum. */
  lemma {:induction false} SumExtensional<K(!new)>(a: map<K, real>, b: map<K, real>)
    requires SameReadings(a, b)
    ensures Sum(a) == Sum(b)
    decreases |a| + |b|
  {
    if a != map[] || b != map[] {
      var k :| k in a || k in b;
      SumDrop(a, k);
      SumDrop(b, k);
      SmallerDrop(a, k);
      SmallerDrop(b, k);
      assert SameReadings(a - {k}, b - {k}) by {
        forall j ensures At(a - {k}, j) == At(b - {k}, j) {
          assert At(a, j) == At(b, j);
        }
      }
      SumExtensional(a - {k}, b - {k});
    }
  }

  lemma SmallerDrop<K>(m: map<K, real>, k: K)
    ensures |m - {k}| == if k in m then |m| - 1 else |m|
  {
    assert (m - {k}).Keys == m.Keys - {k};
    if k !in m { assert m - {k} == m; }
  }

  /** Pointwise order carries over to the sums. */
  lemma {:induction false} SumMonotone<K(!new)>(a: map<K, real>, b: map<K, real>)
    requires a.Keys == b.Keys
    requires forall k :: k in a ==> a[k] <= b[k]
    ensures Sum(a) <= Sum(b)
    decreases |a|
  {
    if a == map[] {
      assert b == map[];
    } else {
      var k :| k in a;
      assert (a - {k}).Keys == a.Keys - {k};
      assert (b - {k}).Keys == b.Keys - {k};
      SumMonotone(a - {k}, b - {k});
      SumRemove(a, k);
      SumRemove(b, k);
    }
  }

  lemma {:induction false} SumNonNegative<K(!new)>(m: map<K, real>)
    requires forall k :: k in m ==> m[k] >= 0.0
    ensures Sum(m) >= 0.0
    ensures forall k :: k in m ==> m[k] <= Sum(m)
    ensures Sum(m) > 0.0 <==> exists k :: k in m && m[k] > 0.0
    decreases |m|
  {
    forall k | k in m
      ensures 0.0 <= m[k] <= Sum(m)
    {
      assert (m - {k}).Keys == m.Keys - {k};
      SumRemove(m, k);
      SumNonNegative(m - {k});
    }
    if m != map[] {
      var k :| k in m;
      SumRemove(m, k);
      assert (m - {k}).Keys == m.Keys - {k};
      SumNonNegative(m - {k});
      if Sum(m) > 0.0 && m[k] == 0.0 {
        var j :| j in m - {k} && (m - {k})[j] > 0.0;
        assert m[j] > 0.0;
      }
    }
  }

  /** The vector sum, on the union of the keys. */
  ghost function Plus<K(!new)>(a: map<K, real>, b: map<K, real>): map<K, real> {
    map k | k in a.Keys + b.Keys :: At(a, k) + At(b, k)
  }

  /** Multiplication under a name, so that the prover matches products as terms. */
  function Times(x: real, y: real): real {
    x * y
  }

  ghost function Scale<K(!new)>(c: real, a: map<K, real>): map<K, real> {
    map k | k in a :: Times(c, a[k])
  }

  lemma PlusAt<K(!new)>(a: map<K, real>, b: map<K, real>, k: K)
    ensures At(Plus(a, b), k) == At(a, k) + At(b, k)
  {
  }

  lemma ScaleAt<K(!new)>(c: real, a: map<K, real>, k: K)
    ensures At(Scale(c, a), k) == Times(c, At(a, k))
  {
  }

  lemma PlusDrop<K(!new)>(a: map<K, real>, b: map<K, real>, k: K)
    ensures Plus(a, b) - {k} == Plus(a - {k}, b - {k})
  {
    assert (Plus(a, b) - {k}).Keys == Plus(a - {k}, b - {k}).Keys;
  }

  lemma {:induction false} SumPlus<K(!new)>(a: map<K, real>, b: map<K, real>)
    ensures Sum(Plus(a, b)) == Sum(a) + Sum(b)
    decreases |a| + |b|
  {
    if a != map[] || b != map[] {
      var k :| k in a || k in b;
      SumDrop(a, k);
      SumDrop(b, k);
      SmallerDrop(a, k);
      SmallerDrop(b, k);
      SumPlus(a - {k}, b - {k});
      SumDrop(Plus(a, b), k);
      PlusDrop(a, b, k);
      PlusAt(a, b, k);
    }
  }

  /** Sums commute with any additive map of the reals; `SumScale` is the case of a factor. */
  ghost predicate Additive(f: real -> real) {
    f(0.0) == 0.0 && forall x, y :: Adds(f, x, y)
  }

  ghost predicate Adds(f: real -> real, x: real, y: real) {
    f(x + y) == f(x) + f(y)
  }

  ghost function Mapped<K(!new)>(f: real -> real, a: map<K, real>): map<K, real> {
    map k | k in a :: f(a[k])
  }

  lemma SumMappedDrop<K(!new)>(f: real -> real, a: map<K, real>, k: K)
    requires k in a
    ensures Sum(Mapped(f, a)) == f(a[k]) + Sum(Mapped(f, a - {k}))
  {
    SumDrop(Mapped(f, a), k);
    assert Mapped(f, a) - {k} == Mapped(f, a - {k});
  }

  lemma {:induction false} SumMapped<K(!new)>(f: real -> real, a: map<K, real>)
    requires Additive(f)
    ensures Sum(Mapped(f, a)) == f(Sum(a))
    decreases |a|
  {
    if a == map[] {
      assert Mapped(f, a) == map[];
    } else {
      var k :| k in a;
      SumDrop(a, k);
      SumMappedDrop(f, a, k);
      SumMapped(f, a - {k});
      assert Adds(f, a[k], Sum(a - {k}));
    }
  }

  lemma FactorIsAdditive(c: real, f: real -> real)
    requires f == (x => Times(c, x))
    ensures Additive(f)
  {
    forall x, y ensures Adds(f, x, y) {}
  }

  lemma SumScale<K(!new)>(c: real, a: map<K, real>)
    ensures Sum(Scale(c, a)) == Times(c, Sum(a))
  {
    var f := x => Times(c, x);
    FactorIsAdditive(c, f);
    assert Sum(Mapped(f, a)) == f(Sum(a)) by { SumMapped(f, a); }
    assert Scale(c, a) == Mapped(f, a);
  }
}
