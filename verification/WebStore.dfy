/** The store behind edges.db (samia/core/web_store.py): forming, decaying, capping, forgetting
    and querying co-activation edges. */
module WebStore {
  import opened Options
  import opened WebData
  import ChainData

  // ---- sorting, as list.sort() ----------------------------------------------------

  ghost predicate AllIn(t: Table, s: seq<Key>) {
    forall i :: 0 <= i < |s| ==> s[i] in t
  }

  ghost predicate SortedBy(t: Table, s: seq<Key>)
    requires AllIn(t, s)
  {
    forall i, j :: 0 <= i < j < |s| ==> Leq(t, s[i], s[j])
  }

  lemma InsertKeepsSorted(t: Table, s: seq<Key>, k: Key, i: nat)
    requires k in t && AllIn(t, s) && SortedBy(t, s) && i <= |s|
    requires forall j :: 0 <= j < i ==> Leq(t, s[j], k)
    requires i < |s| ==> Leq(t, k, s[i])
    ensures AllIn(t, s[..i] + [k] + s[i..]) && SortedBy(t, s[..i] + [k] + s[i..])
  {
    var r := s[..i] + [k] + s[i..];
    forall j | i <= j < |s| ensures Leq(t, k, s[j]) {
      if j > i { LeqTransitive(t, k, s[i], s[j]); }
    }
    forall x | 0 <= x < |r| ensures r[x] == if x < i then s[x] else if x == i then k else s[x - 1] {}
  }

  method InsertKey(t: Table, s: seq<Key>, k: Key) returns (r: seq<Key>)
    requires k in t && AllIn(t, s) && SortedBy(t, s)
    ensures multiset(r) == multiset(s) + multiset{k}
    ensures AllIn(t, r) && SortedBy(t, r)
  {
    var i := 0;
    while i < |s| && Leq(t, s[i], k)
      invariant 0 <= i <= |s|
      invariant forall j :: 0 <= j < i ==> Leq(t, s[j], k)
    {
      i := i + 1;
    }
    if i < |s| { LeqTotal(t, s[i], k); }
    InsertKeepsSorted(t, s, k, i);
    r := s[..i] + [k] + s[i..];
    assert s == s[..i] + s[i..];
  }

  method SortKeys(t: Table, s: seq<Key>) returns (r: seq<Key>)
    requires AllIn(t, s)
    ensures multiset(r) == multiset(s)
    ensures AllIn(t, r) && SortedBy(t, r)
  {
    r := [];
    for i := 0 to |s|
      invariant multiset(r) == multiset(s[..i])
      invariant AllIn(t, r) && SortedBy(t, r)
    {
      r := InsertKey(t, r, s[i]);
      assert s[..i + 1] == s[..i] + [s[i]];
    }
    assert s[..|s|] == s;
  }

  // ---- the degree cap -------------------------------------------------------------

  ghost predicate DistinctKeys(s: seq<Key>) {
    forall i, j :: 0 <= i < j < |s| ==> s[i] != s[j]
  }

  /** `s` lists each co-activation edge at `v` once. */
  ghost predicate Lists(t: Table, v: string, s: seq<Key>) {
    DistinctKeys(s) && forall k :: k in s <==> k in WebAt(t, v)
  }

  ghost function Range(s: seq<Key>, from: nat): set<Key>
    requires from <= |s|
  {
    set i | from <= i < |s| :: s[i]
  }

  lemma {:induction false} RangeSize(s: seq<Key>, from: nat)
    requires DistinctKeys(s) && from <= |s|
    ensures |Range(s, from)| == |s| - from
    decreases |s| - from
  {
    if from == |s| {
      assert Range(s, from) == {};
    } else {
      RangeSize(s, from + 1);
      assert Range(s, from) == {s[from]} + Range(s, from + 1);
      assert s[from] !in Range(s, from + 1);
    }
  }

  /** In the sorted list of the edges at `v`, those that rank above the i-th come after it. */
  lemma RankInList(t: Table, v: string, s: seq<Key>, i: nat)
    requires Lists(t, v, s) && AllIn(t, s) && SortedBy(t, s) && i < |s|
    ensures TopAt(t, s[i], v) <==> |s| - i <= DEGREE_CAP
  {
    var k := s[i];
    assert k in s;
    forall j ensures j in StrongerAt(t, k, v) <==> j in Range(s, i + 1) {
      if j in StrongerAt(t, k, v) {
        assert j in WebAt(t, v);
        var x :| 0 <= x < |s| && s[x] == j;
        if x < i { LeqTotal(t, j, k); }
      }
      if j in Range(s, i + 1) {
        var x :| i + 1 <= x < |s| && s[x] == j;
        assert j in s;
      }
    }
    assert StrongerAt(t, k, v) == Range(s, i + 1);
    RangeSize(s, i + 1);
  }

  /** The edges at `v` that the cap drops on `v`'s account. */
  ghost function ExcessAt(t: Table, v: string): set<Key> {
    set k | k in t && IsWeb(k) && Touches(k, v) && !TopAt(t, k, v)
  }

  method Excess(t: Table, ghost v: string, edges: seq<Key>) returns (drop: set<Key>)
    requires Lists(t, v, edges) && AllIn(t, edges)
    ensures drop == ExcessAt(t, v)
  {
    if |edges| <= DEGREE_CAP {
      forall k | k in ExcessAt(t, v) ensures false {
        assert k in WebAt(t, v);
        SmallStarHasNoExcess(t, v, edges, k);
      }
      return {};
    }
    var sorted := SortKeys(t, edges);
    SortedLists(t, v, edges, sorted);
    var cut := |sorted| - DEGREE_CAP;
    drop := set i | 0 <= i < cut :: sorted[i];
    forall k ensures k in drop <==> k in ExcessAt(t, v) {
      if k in drop || k in ExcessAt(t, v) {
        assert k in WebAt(t, v) by { if k in drop { assert k in sorted; } }
        var i :| 0 <= i < |sorted| && sorted[i] == k;
        RankInList(t, v, sorted, i);
        if k in drop {
          var x :| 0 <= x < cut && sorted[x] == k;
          assert x == i;
        }
      }
    }
  }

  lemma SortedLists(t: Table, v: string, edges: seq<Key>, sorted: seq<Key>)
    requires Lists(t, v, edges) && multiset(sorted) == multiset(edges)
    ensures Lists(t, v, sorted) && |sorted| == |edges|
  {
    forall k ensures k in sorted <==> k in edges {
      assert k in multiset(sorted) <==> k in multiset(edges);
    }
    assert |sorted| == |multiset(sorted)| == |multiset(edges)|;
    DistinctByCount(edges, sorted);
  }

  lemma DistinctByCount(edges: seq<Key>, sorted: seq<Key>)
    requires DistinctKeys(edges) && multiset(sorted) == multiset(edges)
    ensures DistinctKeys(sorted)
  {
    forall i, j | 0 <= i < j < |sorted| ensures sorted[i] != sorted[j] {
      if sorted[i] == sorted[j] {
        TwiceCounted(sorted, i, j);
        OnceCounted(edges, sorted[i]);
      }
    }
  }

  lemma TwiceCounted(s: seq<Key>, i: nat, j: nat)
    requires i < j < |s| && s[i] == s[j]
    ensures multiset(s)[s[i]] >= 2
  {
    assert s == s[..i] + [s[i]] + s[i + 1..j] + [s[j]] + s[j + 1..];
  }

  lemma {:induction false} OnceCounted(s: seq<Key>, k: Key)
    requires DistinctKeys(s)
    ensures multiset(s)[k] <= 1
  {
    if s != [] {
      var init, last := s[..|s| - 1], s[|s| - 1];
      assert s == init + [last];
      OnceCounted(init, k);
      if k == last { assert k !in init; }
    }
  }

  lemma SmallStarHasNoExcess(t: Table, v: string, edges: seq<Key>, k: Key)
    requires Lists(t, v, edges) && |edges| <= DEGREE_CAP && k in WebAt(t, v)
    ensures TopAt(t, k, v)
  {
    RangeSize(edges, 0);
    forall j ensures j in Range(edges, 0) <==> j in WebAt(t, v) {
      if j in WebAt(t, v) {
        var x :| 0 <= x < |edges| && edges[x] == j;
      }
      if j in Range(edges, 0) {
        var x :| 0 <= x < |edges| && edges[x] == j;
        assert j in edges;
      }
    }
    assert WebAt(t, v) == Range(edges, 0);
    var s := StrongerAt(t, k, v);
    assert k in WebAt(t, v) && s <= WebAt(t, v) - {k};
    SubsetSize(s, WebAt(t, v) - {k});
    assert WebAt(t, v) == (WebAt(t, v) - {k}) + {k};
  }

  // ---- the loops over the rows ----------------------------------------------------

  ghost function TouchingAt(done: set<Key>, v: string): set<Key> {
    set k | k in done && Touches(k, v)
  }

  ghost predicate ListsSet(s: seq<Key>, keys: set<Key>) {
    DistinctKeys(s) && forall k :: k in s <==> k in keys
  }

  function Edges(deg: map<string, seq<Key>>, v: string): seq<Key> {
    if v in deg then deg[v] else []
  }

  lemma AppendLists(s: seq<Key>, keys: set<Key>, k: Key)
    requires ListsSet(s, keys) && k !in keys
    ensures ListsSet(s + [k], keys + {k})
  {
    assert k !in s;
  }

  /** The per-node edge lists; both endpoints count. */
  method Stars(t: Table) returns (deg: map<string, seq<Key>>)
    requires Canonical(t)
    ensures forall v :: Lists(t, v, Edges(deg, v))
    ensures forall k, v :: k in Web(t) && Touches(k, v) ==> v in deg
  {
    deg := map[];
    var left := set k | k in t && IsWeb(k);
    ghost var done: set<Key> := {};
    while left != {}
      invariant left <= Web(t) && done == Web(t) - left
      invariant forall v :: ListsSet(Edges(deg, v), TouchingAt(done, v))
      invariant forall k, v :: k in done && Touches(k, v) ==> v in deg
      decreases left
    {
      var k :| k in left;
      left := left - {k};
      assert k.src != k.dst && k !in done;
      forall v | Touches(k, v) ensures ListsSet(Edges(deg, v) + [k], TouchingAt(done + {k}, v)) {
        AppendLists(Edges(deg, v), TouchingAt(done, v), k);
        assert TouchingAt(done + {k}, v) == TouchingAt(done, v) + {k};
      }
      forall v | !Touches(k, v) ensures TouchingAt(done + {k}, v) == TouchingAt(done, v) {}
      ghost var before := deg;
      deg := deg[k.src := Edges(deg, k.src) + [k]];
      deg := deg[k.dst := Edges(deg, k.dst) + [k]];
      assert forall v :: Edges(deg, v) == if Touches(k, v) then Edges(before, v) + [k] else Edges(before, v);
      done := done + {k};
    }
    forall v ensures Lists(t, v, Edges(deg, v)) {
      assert TouchingAt(Web(t), v) == WebAt(t, v);
    }
  }

  /** The rows `_enforce_degree_cap` puts into to_drop. */
  ghost function Doomed(t: Table): set<Key> {
    set k | k in t && !Survives(t, k)
  }

  method EnforceDegreeCap(t: Table) returns (r: Table, capped: nat)
    requires Canonical(t)
    ensures r == Capped(t)
    ensures |Web(t)| == |Web(r)| + capped
  {
    var deg := Stars(t);
    var toDrop: set<Key> := {};
    var left := deg.Keys;
    while left != {}
      invariant left <= deg.Keys
      invariant forall k :: k in toDrop ==> k in Doomed(t)
      invariant forall k, v :: v in deg && v !in left && k in ExcessAt(t, v) ==> k in toDrop
      decreases left
    {
      var v :| v in left;
      left := left - {v};
      assert Lists(t, v, Edges(deg, v));
      ListedInTable(t, v, deg[v]);
      var drop := Excess(t, v, deg[v]);
      toDrop := toDrop + drop;
    }
    forall k ensures k in toDrop <==> k in Doomed(t) {
      if k in Doomed(t) {
        assert k in Web(t);
        assert k in ExcessAt(t, k.src) || k in ExcessAt(t, k.dst);
        assert Touches(k, k.src) && Touches(k, k.dst);
      }
    }
    r, capped := DropRows(t, toDrop);
    assert r == Capped(t);
  }

  lemma ListedInTable(t: Table, v: string, s: seq<Key>)
    requires Lists(t, v, s)
    ensures AllIn(t, s)
  {
    forall i | 0 <= i < |s| ensures s[i] in t { assert s[i] in s; }
  }

  method DropRows(t: Table, toDrop: set<Key>) returns (r: Table, n: nat)
    requires toDrop <= Web(t)
    ensures r == map k | k in t && k !in toDrop :: t[k]
    ensures |Web(t)| == |Web(r)| + n
  {
    r, n := t, 0;
    var left := toDrop;
    while left != {}
      invariant left <= toDrop
      invariant r == map k | k in t && (k !in toDrop || k in left) :: t[k]
      invariant |Web(t)| == |Web(r)| + n
      decreases left
    {
      var k :| k in left;
      left := left - {k};
      assert Web(r) == Web(r - {k}) + {k};
      r := r - {k};
      n := n + 1;
    }
  }

  /** The table while the rows in `left` are still to be faded. */
  ghost predicate FadedBut(t: Table, left: set<Key>, r: Table, today: int, dayOf: string -> Option<int>) {
    && r.Keys <= t.Keys
    && (forall k :: k in t && (k in left || !IsWeb(k)) ==> k in r && r[k] == t[k])
    && (forall k :: k in t && k !in left && IsWeb(k) ==>
          (k in r <==> FadedRow(t[k], today, dayOf).weight >= PRUNE_BELOW)
          && (k in r ==> r[k] == FadedRow(t[k], today, dayOf)))
  }

  lemma FadeStep(t: Table, left: set<Key>, r: Table, today: int, dayOf: string -> Option<int>, k: Key)
    requires FadedBut(t, left, r, today, dayOf) && left <= Web(t) && k in left
    ensures k in r && r[k] == t[k] && IsWeb(k)
    ensures var faded := FadedRow(t[k], today, dayOf);
      FadedBut(t, left - {k}, if faded.weight < PRUNE_BELOW then r - {k} else r[k := faded], today, dayOf)
  {
  }

  lemma WebRows(r: Table, k: Key, row: Row)
    requires k in r && IsWeb(k)
    ensures |Web(r)| == |Web(r - {k})| + 1 && Web(r[k := row]) == Web(r)
  {
    assert Web(r) == Web(r - {k}) + {k};
  }

  lemma FadedAll(t: Table, r: Table, today: int, dayOf: string -> Option<int>)
    requires FadedBut(t, {}, r, today, dayOf)
    ensures r == Decayed(t, today, dayOf)
  {
  }

  /** Fade every co-activation weight and delete what falls below the floor. */
  method DecayEdges(t: Table, today: int, dayOf: string -> Option<int>) returns (r: Table, pruned: nat)
    ensures r == Decayed(t, today, dayOf)
    ensures |Web(t)| == |Web(r)| + pruned
  {
    r, pruned := t, 0;
    var left := set k | k in t && IsWeb(k);
    while left != {}
      invariant left <= Web(t)
      invariant FadedBut(t, left, r, today, dayOf)
      invariant |Web(t)| == |Web(r)| + pruned
      decreases left
    {
      var k :| k in left;
      FadeStep(t, left, r, today, dayOf, k);
      left := left - {k};
      var faded := FadedRow(t[k], today, dayOf);
      WebRows(r, k, faded);
      if faded.weight < PRUNE_BELOW {
        r := r - {k};
        pruned := pruned + 1;
      } else {
        r := r[k := faded];
      }
    }
    FadedAll(t, r, today, dayOf);
  }

  // ---- neighbours -----------------------------------------------------------------

  function OtherEnd(k: Key, v: string): string {
    if k.src == v then k.dst else k.src
  }

  ghost function NeighbourSet(t: Table, v: string): set<string> {
    set k | k in WebAt(t, v) :: OtherEnd(k, v)
  }

  lemma NeighbourEdge(t: Table, v: string, x: string)
    requires Canonical(t)
    ensures x in NeighbourSet(t, v) <==> x != v && PairKey(v, x) in t
  {
    if x in NeighbourSet(t, v) {
      var k :| k in WebAt(t, v) && OtherEnd(k, v) == x;
      PairKeyCanonical(k.src, k.dst);
      assert k == PairKey(v, x);
    }
    if x != v && PairKey(v, x) in t {
      PairKeyCanonical(v, x);
      assert PairKey(v, x) in WebAt(t, v) && OtherEnd(PairKey(v, x), v) == x;
    }
  }

  /** The weight of the edge between `v` and `x`. */
  ghost function WeightBetween(t: Table, v: string, x: string): real {
    if PairKey(v, x) in t then t[PairKey(v, x)].weight else 0.0
  }

  lemma {:induction false} NeighbourCount(s: set<Key>, v: string)
    ensures |set k | k in s :: OtherEnd(k, v)| <= |s|
    decreases |s|
  {
    if s != {} {
      var x :| x in s;
      var rest := s - {x};
      NeighbourCount(rest, v);
      assert (set k | k in s :: OtherEnd(k, v)) == (set k | k in rest :: OtherEnd(k, v)) + {OtherEnd(x, v)};
    }
  }

  predicate Improves(best: map<string, real>, nb: string, w: real) {
    nb !in best || w > best[nb]
  }

  /** `best`: each neighbour with the greatest weight seen for it. */
  method BestWeights(t: Table, v: string) returns (best: map<string, real>)
    requires Canonical(t)
    ensures best.Keys == NeighbourSet(t, v)
    ensures forall x :: x in best ==> best[x] == WeightBetween(t, v, x)
  {
    best := map[];
    var left := set k | k in t && IsWeb(k) && Touches(k, v);
    assert left == WebAt(t, v);
    while left != {}
      invariant left <= WebAt(t, v)
      invariant best.Keys == set k | k in WebAt(t, v) - left :: OtherEnd(k, v)
      invariant forall x :: x in best ==> best[x] == WeightBetween(t, v, x)
      decreases left
    {
      var k :| k in left;
      assert WebAt(t, v) - (left - {k}) == (WebAt(t, v) - left) + {k};
      left := left - {k};
      var nb, w := OtherEnd(k, v), t[k].weight;
      PairKeyCanonical(k.src, k.dst);
      assert k == PairKey(v, nb);
      if Improves(best, nb, w) {
        best := best[nb := w];
      }
    }
  }

  ghost predicate Descending(best: map<string, real>, s: seq<string>)
    requires forall i :: 0 <= i < |s| ==> s[i] in best
  {
    forall i, j :: 0 <= i < j < |s| ==> best[s[i]] >= best[s[j]]
  }

  /** One step of sorting by weight, strongest first. */
  method InsertByWeight(best: map<string, real>, s: seq<string>, x: string)
    returns (r: seq<string>, i: nat)
    requires x in best && (forall i :: 0 <= i < |s| ==> s[i] in best) && Descending(best, s)
    ensures (forall i :: 0 <= i < |r| ==> r[i] in best) && Descending(best, r)
    ensures i <= |s| && r == s[..i] + [x] + s[i..]
  {
    i := 0;
    while i < |s| && best[s[i]] >= best[x]
      invariant 0 <= i <= |s|
      invariant forall j :: 0 <= j < i ==> best[s[j]] >= best[x]
    {
      i := i + 1;
    }
    r := s[..i] + [x] + s[i..];
    forall a | 0 <= a < |r| ensures r[a] == if a < i then s[a] else if a == i then x else s[a - 1] {}
  }

  ghost predicate DistinctNames(s: seq<string>) {
    forall i, j :: 0 <= i < j < |s| ==> s[i] != s[j]
  }

  lemma InsertedDistinct(s: seq<string>, x: string, r: seq<string>, i: nat)
    requires DistinctNames(s) && x !in s
    requires i <= |s| && r == s[..i] + [x] + s[i..]
    ensures DistinctNames(r) && forall y :: y in r <==> y in s || y == x
  {
    forall a | 0 <= a < |r| ensures r[a] == if a < i then s[a] else if a == i then x else s[a - 1] {}
    assert s == s[..i] + s[i..];
  }

  method SortByWeight(best: map<string, real>) returns (s: seq<string>)
    ensures DistinctNames(s) && |s| == |best|
    ensures forall x :: x in s <==> x in best
    ensures Descending(best, s)
  {
    s := [];
    var left := best.Keys;
    while left != {}
      invariant left <= best.Keys
      invariant DistinctNames(s) && |s| == |best.Keys - left|
      invariant forall x :: x in s <==> x in best && x !in left
      invariant forall i :: 0 <= i < |s| ==> s[i] in best
      invariant Descending(best, s)
      decreases left
    {
      var x :| x in left;
      assert best.Keys - (left - {x}) == (best.Keys - left) + {x};
      left := left - {x};
      ghost var before := s;
      var at;
      s, at := InsertByWeight(best, s, x);
      InsertedDistinct(before, x, s, at);
    }
    assert best.Keys - {} == best.Keys;
  }

  /** The answer of `coactivation_neighbors`: distinct neighbours, strongest first, as many as
      there are up to the limit, and none left out that is stronger than one returned. */
  ghost predicate IsNeighbourList(t: Table, v: string, limit: nat, r: seq<string>) {
    && DistinctNames(r)
    && (forall x :: x in r ==> x in NeighbourSet(t, v))
    && |r| == (if |NeighbourSet(t, v)| < limit then |NeighbourSet(t, v)| else limit)
    && (forall i, j :: 0 <= i < j < |r| ==> WeightBetween(t, v, r[i]) >= WeightBetween(t, v, r[j]))
    && (forall x, i :: x in NeighbourSet(t, v) && x !in r && 0 <= i < |r| ==>
          WeightBetween(t, v, x) <= WeightBetween(t, v, r[i]))
  }

  method NeighboursIn(t: Table, v: string, limit: nat) returns (r: seq<string>)
    requires Canonical(t)
    ensures IsNeighbourList(t, v, limit, r)
    ensures |NeighbourSet(t, v)| <= limit ==> forall x :: x in r <==> x in NeighbourSet(t, v)
  {
    var best := BestWeights(t, v);
    var ordered := SortByWeight(best);
    assert |ordered| == |best.Keys|;
    r := if |ordered| <= limit then ordered else ordered[..limit];
    forall x | x in r ensures x in NeighbourSet(t, v) { assert x in ordered; }
    forall i | 0 <= i < |r| ensures r[i] == ordered[i] && r[i] in best { assert ordered[i] in ordered; }
    forall x, i | x in NeighbourSet(t, v) && x !in r && 0 <= i < |r|
      ensures WeightBetween(t, v, x) <= WeightBetween(t, v, r[i])
    {
      assert x in ordered;
      var j :| 0 <= j < |ordered| && ordered[j] == x;
      assert j >= |r|;
    }
  }

  // ---- the store ------------------------------------------------------------------

  function Bumped(ms: Masses, node: string, amount: real, now: string): Masses {
    ms[node := if node in ms then MassRow(ms[node].mass + amount, now, ms[node].createdAt) else MassRow(amount, now, now)]
  }

  function BumpedAll(ms: Masses, counts: seq<(string, real)>, now: string): Masses {
    if counts == [] then ms
    else
      var last := counts[|counts| - 1];
      Bumped(BumpedAll(ms, counts[..|counts| - 1], now), last.0, last.1, now)
  }

  function MassesFaded(ms: Masses, today: int, dayOf: string -> Option<int>): Masses {
    map n | n in ms ::
      ms[n].(mass := Faded(ms[n].mass, MASS_DECAY_PER_DAY, DaysSince(ms[n].lastAccess, today, dayOf)))
  }

  datatype SyncStats = SyncStats(formed: nat, pruned: nat, degreeCapped: nat, deadKeys: seq<string>)

  /** The keys the guard reports: pairs with an endpoint that has no node file. */
  function DeadKeys(items: seq<Item>, live: Option<set<string>>): seq<string> {
    if items == [] then []
    else
      var rest, last := DeadKeys(items[..|items| - 1], live), items[|items| - 1];
      var ends := Ends(last.key);
      if ends.Some? && !Admitted(ends.value, live) then rest + [last.key] else rest
  }

  function FormedCount(items: seq<Item>, live: Option<set<string>>): nat {
    if items == [] then 0
    else
      var last := items[|items| - 1];
      var ends := Ends(last.key);
      FormedCount(items[..|items| - 1], live) +
      if ends.Some? && Admitted(ends.value, live) && Forms(ends.value.0, ends.value.1, last.w) then 1 else 0
  }

  class Store {
    var edges: Table
    var nodes: Masses

    ghost predicate Valid()
      reads this
    {
      Canonical(edges)
    }

    constructor ()
      ensures Valid() && edges == map[] && nodes == map[]
    {
      edges, nodes := map[], map[];
    }

    method UpsertEdge(a: string, b: string, weight: real, now: string) returns (written: bool)
      requires Valid()
      modifies this`edges
      ensures Valid()
      ensures edges == Upserted(old(edges), a, b, weight, now) && written == Forms(a, b, weight)
    {
      if weight < WEAK_FORM || a == b { return false; }
      var k := PairKey(a, b);
      PairKeyCanonical(a, b);
      if k in edges {
        edges := edges[k := Row(edges[k].count + 1, edges[k].firstSeen, now, weight)];
      } else {
        edges := edges[k := Row(1, now, now, weight)];
      }
      written := true;
    }

    method BumpMass(node: string, amount: real, now: string)
      modifies this`nodes
      ensures nodes == Bumped(old(nodes), node, amount, now)
    {
      if node in nodes {
        nodes := nodes[node := MassRow(nodes[node].mass + amount, now, nodes[node].createdAt)];
      } else {
        nodes := nodes[node := MassRow(amount, now, now)];
      }
    }

    /** `decay_prune`: fade and prune the edges, cap the degrees, fade the masses. */
    method DecayPrune(today: int, dayOf: string -> Option<int>) returns (pruned: nat, capped: nat)
      requires Valid()
      modifies this
      ensures Valid()
      ensures edges == Capped(Decayed(old(edges), today, dayOf))
      ensures nodes == MassesFaded(old(nodes), today, dayOf)
      ensures |Web(old(edges))| == |Web(edges)| + pruned + capped
      ensures forall v :: |WebAt(edges, v)| <= DEGREE_CAP
    {
      edges, pruned := DecayEdges(edges, today, dayOf);
      ghost var faded := edges;
      edges, capped := EnforceDegreeCap(edges);
      nodes := map n | n in nodes ::
        nodes[n].(mass := Faded(nodes[n].mass, MASS_DECAY_PER_DAY, DaysSince(nodes[n].lastAccess, today, dayOf)));
      forall v ensures |WebAt(edges, v)| <= DEGREE_CAP { CappedDegree(faded, v); }
    }

    /** `delete_node_edges` / `forget_node_edges`: every row at the node, of every kind. */
    method ForgetNode(v: string) returns (edgesDeleted: nat, rowsDeleted: nat)
      requires Valid()
      modifies this
      ensures Valid()
      ensures edges == WithoutNode(old(edges), v) && nodes == old(nodes) - {v}
      ensures edgesDeleted == |old(edges)| - |edges| && rowsDeleted == |old(nodes)| - |nodes|
    {
      var kept := map k | k in edges && !Touches(k, v) :: edges[k];
      assert kept.Keys <= edges.Keys;
      KeysShrink(kept.Keys, edges.Keys);
      edgesDeleted := |edges| - |kept|;
      edges := kept;
      assert (nodes - {v}).Keys == nodes.Keys - {v};
      rowsDeleted := if v in nodes then 1 else 0;
      nodes := nodes - {v};
      assert v !in old(nodes) ==> nodes == old(nodes);
    }

    /** `sync_from_consolidation`: upsert the admitted pairs, bump masses, decay, prune, cap. */
    method SyncFromConsolidation(items: seq<Item>, appearances: seq<(string, real)>, live: Option<set<string>>,
                                 now: string, today: int, dayOf: string -> Option<int>) returns (stats: SyncStats)
      requires Valid()
      modifies this
      ensures Valid()
      ensures edges == Synced(old(edges), items, live, now, today, dayOf)
      ensures nodes == MassesFaded(BumpedAll(old(nodes), appearances, now), today, dayOf)
      ensures stats.formed == FormedCount(items, live) && stats.deadKeys == DeadKeys(items, live)
      ensures |Web(Consolidated(old(edges), items, live, now))| == |Web(edges)| + stats.pruned + stats.degreeCapped
      ensures forall v :: |WebAt(edges, v)| <= DEGREE_CAP
    {
      var formed, dead := Consolidate(items, live, now);
      BumpAll(appearances, now);
      var pruned, capped := DecayPrune(today, dayOf);
      stats := SyncStats(formed, pruned, capped, dead);
    }

    /** The loop over the weights: live pairs are upserted, the keys of dead ones collected. */
    method Consolidate(items: seq<Item>, live: Option<set<string>>, now: string) returns (formed: nat, dead: seq<string>)
      requires Valid()
      modifies this
      ensures Valid() && nodes == old(nodes)
      ensures edges == Consolidated(old(edges), items, live, now)
      ensures formed == FormedCount(items, live) && dead == DeadKeys(items, live)
    {
      formed, dead := 0, [];
      for i := 0 to |items|
        invariant Valid() && nodes == old(nodes)
        invariant edges == Consolidated(old(edges), items[..i], live, now)
        invariant formed == FormedCount(items[..i], live) && dead == DeadKeys(items[..i], live)
      {
        assert items[..i + 1][..i] == items[..i];
        var ends := Ends(items[i].key);
        if ends.None? { continue; }
        if !Admitted(ends.value, live) {
          dead := dead + [items[i].key];
          continue;
        }
        var written := UpsertEdge(ends.value.0, ends.value.1, items[i].w, now);
        if written { formed := formed + 1; }
      }
      assert items[..|items|] == items;
    }

    method BumpAll(appearances: seq<(string, real)>, now: string)
      requires Valid()
      modifies this
      ensures Valid() && edges == old(edges)
      ensures nodes == BumpedAll(old(nodes), appearances, now)
    {
      for i := 0 to |appearances|
        invariant Valid() && edges == old(edges)
        invariant nodes == BumpedAll(old(nodes), appearances[..i], now)
      {
        assert appearances[..i + 1][..i] == appearances[..i];
        BumpMass(appearances[i].0, appearances[i].1, now);
      }
      assert appearances[..|appearances|] == appearances;
    }

    /** `coactivation_neighbors` */
    method CoactivationNeighbours(node: string, limit: nat) returns (r: seq<string>)
      requires Valid()
      ensures IsNeighbourList(edges, ChainData.FileName(node), limit, r)
      ensures |NeighbourSet(edges, ChainData.FileName(node))| <= limit ==>
                forall x :: x in r <==> x in NeighbourSet(edges, ChainData.FileName(node))
    {
      r := NeighboursIn(edges, ChainData.FileName(node), limit);
    }
  }

  lemma KeysShrink(a: set<Key>, b: set<Key>)
    requires a <= b
    ensures |a| <= |b|
  {
    SubsetSize(a, b);
  }

  // ---- what a pass guarantees -----------------------------------------------------

  /** After a decay pass: the degrees are capped, every weight is at least the floor and none
      grew, and of the faded edges exactly those among the strongest at both ends are left. */
  lemma DecayPruneMeaning(t: Table, today: int, dayOf: string -> Option<int>)
    ensures var r, faded := Capped(Decayed(t, today, dayOf)), Decayed(t, today, dayOf);
            && (forall v :: |WebAt(r, v)| <= DEGREE_CAP)
            && (forall k :: k in Web(r) ==> k in t && PRUNE_BELOW <= r[k].weight <= t[k].weight)
            && (forall k :: k in Web(faded) ==> (k in r <==> TopAt(faded, k, k.src) && TopAt(faded, k, k.dst)))
            && (forall k :: k in t && !IsWeb(k) ==> k in r && r[k] == t[k])
  {
    var faded := Decayed(t, today, dayOf);
    forall v ensures |WebAt(Capped(faded), v)| <= DEGREE_CAP { CappedDegree(faded, v); }
    forall k | k in Web(Capped(faded)) ensures k in t && PRUNE_BELOW <= Capped(faded)[k].weight <= t[k].weight {
      DecayedBounds(t, today, dayOf, k);
    }
  }

  /** After any pass the default limit loses nothing: the list holds each node that shares an
      edge, exactly once, and being listed is symmetric. */
  lemma NeighboursComplete(t: Table, v: string, x: string, ofV: seq<string>, ofX: seq<string>)
    requires Canonical(t) && forall n :: |WebAt(t, n)| <= DEGREE_CAP
    requires IsNeighbourList(t, v, DEGREE_CAP, ofV) && IsNeighbourList(t, x, DEGREE_CAP, ofX)
    ensures x in ofV <==> x != v && PairKey(v, x) in t
    ensures x in ofV <==> v in ofX
  {
    ListIsComplete(t, v, ofV, x);
    ListIsComplete(t, x, ofX, v);
    NeighbourEdge(t, v, x);
    NeighbourEdge(t, x, v);
    if v != x { PairKeyCanonical(v, x); }
  }

  lemma ListIsComplete(t: Table, v: string, r: seq<string>, x: string)
    requires Canonical(t) && |WebAt(t, v)| <= DEGREE_CAP && IsNeighbourList(t, v, DEGREE_CAP, r)
    ensures x in r <==> x in NeighbourSet(t, v)
  {
    NeighbourCount(WebAt(t, v), v);
    assert NeighbourSet(t, v) == set k | k in WebAt(t, v) :: OtherEnd(k, v);
    NamesFill(r, NeighbourSet(t, v));
  }

  lemma {:induction false} NamesFill(r: seq<string>, s: set<string>)
    requires DistinctNames(r) && |r| == |s| && forall x :: x in r ==> x in s
    ensures forall x :: x in s ==> x in r
    decreases |r|
  {
    if r != [] {
      var init, last := r[..|r| - 1], r[|r| - 1];
      assert r == init + [last];
      assert last in r;
      assert s == (s - {last}) + {last};
      forall x | x in init ensures x in s - {last} { assert x in r; }
      NamesFill(init, s - {last});
    }
  }
}
