/** The rows of edges.db that samia/core/web_store.py owns, and its operations on values. */
module WebData {
  import opened Options
  import Strings

  const COACTIVATION := "coactivation"
  const WEAK_FORM := 0.20
  const PRUNE_BELOW := 0.05
  const EDGE_DECAY_PER_DAY := 0.005
  const MASS_DECAY_PER_DAY := 0.01
  const DEGREE_CAP := 32

  datatype Key = Key(src: string, dst: string, kind: string)

  datatype Row = Row(count: nat, firstSeen: string, lastSeen: string, weight: real)

  type Table = map<Key, Row>

  datatype MassRow = MassRow(mass: real, lastAccess: string, createdAt: string)

  type Masses = map<string, MassRow>

  predicate IsWeb(k: Key) {
    k.kind == COACTIVATION
  }

  predicate Touches(k: Key, v: string) {
    k.src == v || k.dst == v
  }

  /** The canonical row of an undirected pair. */
  function PairKey(a: string, b: string): Key {
    if Strings.LexLeq(a, b) then Key(a, b, COACTIVATION) else Key(b, a, COACTIVATION)
  }

  /** Co-activation rows are canonically ordered and never self-loops. */
  ghost predicate Canonical(t: Table) {
    forall k :: k in t && IsWeb(k) ==> k.src != k.dst && k == PairKey(k.src, k.dst)
  }

  ghost function Web(t: Table): set<Key> {
    set k | k in t && IsWeb(k)
  }

  ghost function WebAt(t: Table, v: string): set<Key> {
    set k | k in t && IsWeb(k) && Touches(k, v)
  }

  // ---- writing --------------------------------------------------------------------

  predicate Forms(a: string, b: string, weight: real) {
    weight >= WEAK_FORM && a != b
  }

  function Upserted(t: Table, a: string, b: string, weight: real, now: string): Table {
    if !Forms(a, b, weight) then t
    else
      var k := PairKey(a, b);
      t[k := if k in t then Row(t[k].count + 1, t[k].firstSeen, now, weight) else Row(1, now, now, weight)]
  }

  lemma PairKeyCanonical(a: string, b: string)
    requires a != b
    ensures var k := PairKey(a, b); k.src != k.dst && k == PairKey(k.src, k.dst) == PairKey(b, a)
    ensures forall v :: Touches(PairKey(a, b), v) <==> v == a || v == b
  {
    Strings.LexTotal(a, b);
  }

  function WithoutNode(t: Table, v: string): Table {
    map k | k in t && !Touches(k, v) :: t[k]
  }

  // ---- decay ----------------------------------------------------------------------

  /** Days since a timestamp; an unreadable one counts as today. */
  function DaysSince(iso: string, today: int, dayOf: string -> Option<int>): nat {
    match dayOf(iso)
    case None => 0
    case Some(d) => if today > d then today - d else 0
  }

  /** `x * max(0.0, 1.0 - rate * days)` */
  function Faded(x: real, rate: real, days: nat): real {
    if days == 0 then x
    else
      var f := 1.0 - rate * days as real;
      x * if f > 0.0 then f else 0.0
  }

  function FadedRow(r: Row, today: int, dayOf: string -> Option<int>): Row {
    r.(weight := Faded(r.weight, EDGE_DECAY_PER_DAY, DaysSince(r.lastSeen, today, dayOf)))
  }

  /** Weights fade by age; what falls below the floor goes. */
  function Decayed(t: Table, today: int, dayOf: string -> Option<int>): Table {
    map k | k in t && (IsWeb(k) ==> FadedRow(t[k], today, dayOf).weight >= PRUNE_BELOW) ::
      if IsWeb(k) then FadedRow(t[k], today, dayOf) else t[k]
  }

  lemma FadedShrinks(x: real, rate: real, days: nat)
    requires x >= 0.0 && rate >= 0.0
    ensures 0.0 <= Faded(x, rate, days) <= x
  {
    if days > 0 {
      var f := 1.0 - rate * days as real;
      assert rate * days as real >= 0.0;
      assert x * f <= x * 1.0;
    }
  }

  lemma FadedNegative(x: real, rate: real, days: nat)
    requires x < 0.0
    ensures Faded(x, rate, days) <= 0.0
  {
    if days > 0 {
      var f := 1.0 - rate * days as real;
      if f > 0.0 { assert x * f <= 0.0; }
    }
  }

  /** After the decay every co-activation weight is at least the floor and none grew. */
  lemma DecayedBounds(t: Table, today: int, dayOf: string -> Option<int>, k: Key)
    requires k in Decayed(t, today, dayOf) && IsWeb(k)
    ensures PRUNE_BELOW <= Decayed(t, today, dayOf)[k].weight <= t[k].weight
  {
    var days := DaysSince(t[k].lastSeen, today, dayOf);
    if t[k].weight >= 0.0 {
      FadedShrinks(t[k].weight, EDGE_DECAY_PER_DAY, days);
    } else {
      FadedNegative(t[k].weight, EDGE_DECAY_PER_DAY, days);
    }
  }

  // ---- the degree cap -------------------------------------------------------------

  /** The order in which `edges.sort()` puts the tuples (weight, src, dst). */
  predicate Leq(t: Table, j: Key, k: Key)
    requires j in t && k in t
  {
    t[j].weight < t[k].weight ||
    (t[j].weight == t[k].weight &&
     if j.src == k.src then Strings.LexLeq(j.dst, k.dst) else Strings.LexLeq(j.src, k.src))
  }

  lemma LeqTotal(t: Table, j: Key, k: Key)
    requires j in t && k in t
    ensures Leq(t, j, k) || Leq(t, k, j)
    ensures Leq(t, j, k) && Leq(t, k, j) && j.kind == k.kind ==> j == k
  {
    Strings.LexTotal(j.src, k.src);
    Strings.LexTotal(j.dst, k.dst);
  }

  lemma LeqTransitive(t: Table, i: Key, j: Key, k: Key)
    requires i in t && j in t && k in t && Leq(t, i, j) && Leq(t, j, k)
    ensures Leq(t, i, k)
  {
    if t[i].weight == t[j].weight == t[k].weight {
      if i.src == j.src == k.src {
        Strings.LexTransitive(i.dst, j.dst, k.dst);
      } else if i.src != j.src && j.src != k.src {
        Strings.LexTransitive(i.src, j.src, k.src);
        if i.src == k.src { Strings.LexTotal(i.src, j.src); }
      }
    }
  }

  /** The co-activation edges at `v` that rank above `k`. */
  ghost function StrongerAt(t: Table, k: Key, v: string): set<Key>
    requires k in t
  {
    set j | j in t && IsWeb(j) && Touches(j, v) && j != k && Leq(t, k, j)
  }

  /** `k` is among the DEGREE_CAP strongest at `v`. */
  ghost predicate TopAt(t: Table, k: Key, v: string)
    requires k in t
  {
    |StrongerAt(t, k, v)| < DEGREE_CAP
  }

  ghost predicate Survives(t: Table, k: Key)
    requires k in t
  {
    IsWeb(k) ==> TopAt(t, k, k.src) && TopAt(t, k, k.dst)
  }

  /** Exactly the edges that are among the strongest DEGREE_CAP at both endpoints stay. */
  ghost function Capped(t: Table): Table {
    map k | k in t && Survives(t, k) :: t[k]
  }

  lemma {:induction false} WeakestOf(t: Table, s: set<Key>) returns (m: Key)
    requires s != {} && forall k :: k in s ==> k in t
    ensures m in s && forall k :: k in s ==> Leq(t, m, k)
    decreases |s|
  {
    var x :| x in s;
    LeqTotal(t, x, x);
    if s == {x} {
      m := x;
    } else {
      var rest := s - {x};
      assert s == rest + {x};
      var w := WeakestOf(t, rest);
      LeqTotal(t, x, w);
      if Leq(t, x, w) {
        m := x;
        forall k | k in s ensures Leq(t, m, k) {
          if k != x { LeqTransitive(t, x, w, k); }
        }
      } else {
        m := w;
      }
    }
  }

  lemma SubsetSize(a: set<Key>, b: set<Key>)
    requires a <= b
    ensures |a| <= |b|
  {
    assert b == a + (b - a);
  }

  /** After the cap no node has more than DEGREE_CAP co-activation edges. */
  lemma CappedDegree(t: Table, v: string)
    ensures |WebAt(Capped(t), v)| <= DEGREE_CAP
  {
    var s := WebAt(Capped(t), v);
    if s != {} {
      var m := WeakestOf(t, s);
      assert TopAt(t, m, v);
      assert s - {m} <= StrongerAt(t, m, v);
      SubsetSize(s - {m}, StrongerAt(t, m, v));
      assert s == (s - {m}) + {m};
    }
  }

  // ---- one consolidation pass -----------------------------------------------------

  /** An item of the consolidated weights: "a::b" and its weight. */
  datatype Item = Item(key: string, w: real)

  /** `key.split("::", 1)`, when the separator is there. */
  function Ends(key: string): Option<(string, string)> {
    var i := Strings.Find(key, "::", 0);
    if i < 0 then None else Some((key[..i], key[i + 2..]))
  }

  /** The guard: with a live-node set, both endpoints must be in it. */
  predicate Admitted(ends: (string, string), live: Option<set<string>>) {
    live.None? || (ends.0 in live.value && ends.1 in live.value)
  }

  function Consolidated(t: Table, items: seq<Item>, live: Option<set<string>>, now: string): Table {
    if items == [] then t
    else
      var before, last := Consolidated(t, items[..|items| - 1], live, now), items[|items| - 1];
      match Ends(last.key)
      case None => before
      case Some(ends) => if Admitted(ends, live) then Upserted(before, ends.0, ends.1, last.w, now) else before
  }

  ghost function Synced(t: Table, items: seq<Item>, live: Option<set<string>>, now: string, today: int,
                        dayOf: string -> Option<int>): Table {
    Capped(Decayed(Consolidated(t, items, live, now), today, dayOf))
  }

  lemma {:induction false} ConsolidatedFacts(t: Table, items: seq<Item>, live: Option<set<string>>, now: string)
    requires Canonical(t)
    ensures Canonical(Consolidated(t, items, live, now))
    ensures forall k :: k in Consolidated(t, items, live, now) ==>
              k in t || (IsWeb(k) && (live.Some? ==> k.src in live.value && k.dst in live.value))
  {
    if items != [] {
      var init, last := items[..|items| - 1], items[|items| - 1];
      ConsolidatedFacts(t, init, live, now);
      var ends := Ends(last.key);
      if ends.Some? && Forms(ends.value.0, ends.value.1, last.w) {
        PairKeyCanonical(ends.value.0, ends.value.1);
        assert Touches(PairKey(ends.value.0, ends.value.1), PairKey(ends.value.0, ends.value.1).src);
        assert Touches(PairKey(ends.value.0, ends.value.1), PairKey(ends.value.0, ends.value.1).dst);
      }
    }
  }

  /** A pass with the guard creates no edge at a dead node; a pass of either kind keeps the
      rows canonical. */
  lemma SyncCreatesNoGhost(t: Table, items: seq<Item>, live: Option<set<string>>, now: string, today: int,
                           dayOf: string -> Option<int>)
    requires Canonical(t)
    ensures Canonical(Synced(t, items, live, now, today, dayOf))
    ensures live.Some? ==> forall k, v :: k in Synced(t, items, live, now, today, dayOf) && k !in t && Touches(k, v) ==>
              v in live.value
  {
    ConsolidatedFacts(t, items, live, now);
  }
}
