/** What the operations of samia/core/web_store.py do to the stored rows, key by key. */
module WebLaws {
  import opened Filters
  import opened KeyTexts
  import opened Options
  import opened RealMaps
  import opened Strings
  import opened WebData
  import opened WebStore

  // ---- the text order and the canonical rows ---------------------------------------------------

  /** `a` comes before `b`: at the first difference it has the smaller character, or it ends there. */
  ghost predicate Before(a: string, b: string) {
    exists n :: DiffersAt(a, b, n)
  }

  ghost predicate DiffersAt(a: string, b: string, n: nat) {
    n <= |a| && n < |b| && (forall i :: 0 <= i < n ==> a[i] == b[i]) && (n == |a| || a[n] < b[n])
  }

  lemma DiffersInTail(a: string, b: string, n: nat)
    requires a != "" && b != "" && a[0] == b[0]
    ensures DiffersAt(a, b, n + 1) <==> DiffersAt(a[1..], b[1..], n)
    ensures !DiffersAt(a, b, 0)
  {
    if DiffersAt(a, b, n + 1) {
      forall i | 0 <= i < n ensures a[1..][i] == b[1..][i] { assert a[i + 1] == b[i + 1]; }
    }
    if DiffersAt(a[1..], b[1..], n) {
      forall i | 0 < i <= n ensures a[i] == b[i] { assert a[1..][i - 1] == b[1..][i - 1]; }
    }
  }

  lemma BeforeInTail(a: string, b: string)
    requires a != "" && b != "" && a[0] == b[0]
    ensures Before(a, b) <==> Before(a[1..], b[1..])
  {
    forall n: nat ensures DiffersAt(a, b, n + 1) <==> DiffersAt(a[1..], b[1..], n) { DiffersInTail(a, b, n); }
    DiffersInTail(a, b, 0);
    if n: nat :| DiffersAt(a, b, n) {
      assert DiffersAt(a[1..], b[1..], n - 1);
    }
    if n: nat :| DiffersAt(a[1..], b[1..], n) {
      assert DiffersAt(a, b, n + 1);
    }
  }

  lemma FirstDecides(a: string, b: string)
    requires a != "" && b != "" && a[0] > b[0]
    ensures !Before(a, b)
  {
    forall n: nat ensures !DiffersAt(a, b, n) {
      assert a[0] != b[0];
    }
  }

  lemma {:induction false} LexExactly(a: string, b: string)
    ensures LexLeq(a, b) <==> a == b || Before(a, b)
  {
    if a == "" || b == "" || a[0] < b[0] {
      if b != "" { assert DiffersAt(a, b, 0); }
    } else if a[0] == b[0] {
      LexExactly(a[1..], b[1..]);
      BeforeInTail(a, b);
      assert a == [a[0]] + a[1..] && b == [b[0]] + b[1..];
    } else {
      FirstDecides(a, b);
    }
  }

  /** The co-activation row of two nodes: the earlier name is the source. */
  ghost predicate RowOfPair(k: Key, a: string, b: string) {
    && k.kind == "coactivation" && Before(k.src, k.dst)
    && ((k.src == a && k.dst == b) || (k.src == b && k.dst == a))
  }

  lemma Asymmetric(a: string, b: string)
    requires Before(a, b)
    ensures a != b && !Before(b, a)
  {
    LexExactly(a, b);
    LexExactly(b, a);
    LexTotal(a, b);
    forall n: nat ensures !DiffersAt(a, a, n) {}
  }

  lemma PairKeyExactly(k: Key, a: string, b: string)
    requires a != b
    ensures k == PairKey(a, b) <==> RowOfPair(k, a, b)
  {
    LexExactly(a, b);
    LexExactly(b, a);
    LexTotal(a, b);
    if Before(k.src, k.dst) { Asymmetric(k.src, k.dst); }
  }

  // ---- writing a row -----------------------------------------------------------------------------

  /** The row after it was written `n` times, last with this weight. */
  ghost predicate Refreshed(before: Table, after: Table, k: Key, n: nat, weight: real, now: string) {
    && k in after && after[k].weight == weight && after[k].lastSeen == now
    && after[k].count == (if k in before then before[k].count else 0) + n
    && after[k].firstSeen == if k in before then before[k].firstSeen else now
  }

  ghost predicate Untouched(before: Table, after: Table, k: Key) {
    (k in after <==> k in before) && (k in before ==> after[k] == before[k])
  }

  /** Writing an edge takes the new weight, counts one more sighting, and keeps the first; it
      happens exactly from the forming weight on and between different nodes, and touches no
      other row. */
  lemma UpsertedExactly(t: Table, a: string, b: string, weight: real, now: string, k: Key)
    ensures var after := Upserted(t, a, b, weight, now);
      if weight >= 0.2 && a != b && RowOfPair(k, a, b) then Refreshed(t, after, k, 1, weight, now) else Untouched(t, after, k)
  {
    if a != b { PairKeyExactly(k, a, b); }
  }

  // ---- the pairs of a consolidation pass -----------------------------------------------------------

  /** The key is cut at its first "::". */
  ghost predicate Cuts(key: string, a: string, b: string) {
    key == a + "::" + b && EndsAt(a, "::")
  }

  lemma EndsExactly(key: string, a: string, b: string)
    ensures Ends(key) == Some((a, b)) <==> Cuts(key, a, b)
  {
    var i := Find(key, "::", 0);
    if Cuts(key, a, b) {
      assert key[|a|..|a| + 2] == "::";
      forall n | 0 <= n < |a| ensures !MatchAt(key, "::", n) { MatchWithin(a + "::", b, "::", n); }
      FindUnique(key, "::", 0, |a|);
      assert key[..|a|] == a && key[|a| + 2..] == b;
    }
    if Ends(key) == Some((a, b)) {
      assert key == a + "::" + b;
      forall n | 0 <= n < |a| ensures !MatchAt(a + "::", "::", n) { MatchWithin(a + "::", b, "::", n); }
    }
  }

  /** With a live set both ends must be in it. */
  ghost predicate Permitted(a: string, b: string, live: Option<set<string>>) {
    live.Some? ==> a in live.value && b in live.value
  }

  /** The item writes the row of `a` and `b`. */
  ghost predicate WritesPair(item: Item, a: string, b: string, live: Option<set<string>>) {
    Cuts(item.key, a, b) && Permitted(a, b, live) && item.w >= 0.2 && a != b
  }

  ghost predicate WritesRow(item: Item, k: Key, live: Option<set<string>>) {
    exists a, b :: WritesPair(item, a, b, live) && RowOfPair(k, a, b)
  }

  lemma NoPairNoWrite(t: Table, item: Item, live: Option<set<string>>, now: string, k: Key)
    requires Ends(item.key).None?
    ensures Consolidated(t, [item], live, now) == t && !WritesRow(item, k, live)
  {
    assert [item][..0] == [];
    if WritesRow(item, k, live) {
      var a, b :| WritesPair(item, a, b, live) && RowOfPair(k, a, b);
      EndsExactly(item.key, a, b);
    }
  }

  lemma OnePairWrites(t: Table, item: Item, a: string, b: string, live: Option<set<string>>, now: string, k: Key)
    requires Cuts(item.key, a, b)
    ensures Consolidated(t, [item], live, now) == if Permitted(a, b, live) then Upserted(t, a, b, item.w, now) else t
    ensures WritesRow(item, k, live) <==> WritesPair(item, a, b, live) && RowOfPair(k, a, b)
  {
    assert [item][..0] == [];
    EndsExactly(item.key, a, b);
    if WritesRow(item, k, live) {
      var c, d :| WritesPair(item, c, d, live) && RowOfPair(k, c, d);
      EndsExactly(item.key, c, d);
    }
  }

  lemma OneItem(t: Table, item: Item, live: Option<set<string>>, now: string, k: Key)
    ensures var after := Consolidated(t, [item], live, now);
      if WritesRow(item, k, live) then Refreshed(t, after, k, 1, item.w, now) else Untouched(t, after, k)
  {
    var ends := Ends(item.key);
    if ends.None? {
      NoPairNoWrite(t, item, live, now, k);
    } else {
      var a, b := ends.value.0, ends.value.1;
      EndsExactly(item.key, a, b);
      OnePairWrites(t, item, a, b, live, now, k);
      UpsertedExactly(t, a, b, item.w, now, k);
    }
  }

  lemma LastItem(t: Table, items: seq<Item>, live: Option<set<string>>, now: string)
    requires items != []
    ensures Consolidated(t, items, live, now)
         == Consolidated(Consolidated(t, items[..|items| - 1], live, now), [items[|items| - 1]], live, now)
  {
    var before := Consolidated(t, items[..|items| - 1], live, now);
    assert [items[|items| - 1]][..0] == [];
    assert Consolidated(before, [], live, now) == before;
  }

  /** The row after the writes at these places of the list. */
  ghost predicate WrittenAt(before: Table, after: Table, k: Key, items: seq<Item>, at: seq<int>, now: string) {
    if at == [] then Untouched(before, after, k)
    else
      0 <= at[|at| - 1] < |items| && Refreshed(before, after, k, |at|, items[at[|at| - 1]].w, now)
  }

  lemma WrittenMore(t: Table, before: Table, after: Table, k: Key, items: seq<Item>, last: Item, at: seq<int>, next: seq<int>,
                    writes: bool, now: string)
    requires WrittenAt(t, before, k, items, at, now)
    requires if writes then Refreshed(before, after, k, 1, last.w, now) else Untouched(before, after, k)
    requires next == if writes then at + [|items|] else at
    ensures WrittenAt(t, after, k, items + [last], next, now)
  {
  }

  /** After a pass a row has taken the weight of the last item that writes it, with one more
      sighting for each; a row that no item writes is as before. */
  lemma {:induction false} ConsolidatedExactly(t: Table, items: seq<Item>, live: Option<set<string>>, now: string, k: Key,
                                               writes: Item -> bool) returns (at: seq<int>)
    requires forall item :: writes(item) <==> WritesRow(item, k, live)
    ensures ArePlaces(at, items, writes)
    ensures WrittenAt(t, Consolidated(t, items, live, now), k, items, at, now)
  {
    if items == [] {
      at := [];
    } else {
      var init, last := items[..|items| - 1], items[|items| - 1];
      var before := ConsolidatedExactly(t, init, live, now, k, writes);
      at := OneMorePlace(before, init, writes, last);
      assert init + [last] == items;
      var c, d := Consolidated(t, init, live, now), Consolidated(t, items, live, now);
      LastItem(t, items, live, now);
      OneItem(c, last, live, now, k);
      WrittenMore(t, c, d, k, init, last, before, at, writes(last), now);
    }
  }

  ghost predicate WritesSome(item: Item, live: Option<set<string>>) {
    exists a, b :: WritesPair(item, a, b, live)
  }

  /** The item has a pair that the guard rejects. */
  ghost predicate Rejected(item: Item, live: Option<set<string>>) {
    exists a, b :: Cuts(item.key, a, b) && !Permitted(a, b, live)
  }

  lemma ItemExactly(item: Item, live: Option<set<string>>)
    ensures var ends := Ends(item.key);
      && (WritesSome(item, live) <==>
            ends.Some? && Admitted(ends.value, live) && Forms(ends.value.0, ends.value.1, item.w))
      && (Rejected(item, live) <==> ends.Some? && !Admitted(ends.value, live))
  {
    var ends := Ends(item.key);
    if ends.Some? {
      EndsExactly(item.key, ends.value.0, ends.value.1);
      if Admitted(ends.value, live) && Forms(ends.value.0, ends.value.1, item.w) {
        assert WritesPair(item, ends.value.0, ends.value.1, live);
      }
    }
    if a, b :| WritesPair(item, a, b, live) { EndsExactly(item.key, a, b); }
    if a, b :| Cuts(item.key, a, b) && !Permitted(a, b, live) { EndsExactly(item.key, a, b); }
  }

  lemma FormedLast(items: seq<Item>, live: Option<set<string>>)
    requires items != []
    ensures FormedCount(items, live)
         == FormedCount(items[..|items| - 1], live) + if WritesSome(items[|items| - 1], live) then 1 else 0
  {
    ItemExactly(items[|items| - 1], live);
  }

  /** The statistics count the items that write a row. */
  lemma {:induction false} FormedExactly(items: seq<Item>, live: Option<set<string>>, writes: Item -> bool) returns (at: seq<int>)
    requires forall item :: writes(item) <==> WritesSome(item, live)
    ensures ArePlaces(at, items, writes) && FormedCount(items, live) == |at|
  {
    if items == [] {
      at := [];
    } else {
      var init, last := items[..|items| - 1], items[|items| - 1];
      var before := FormedExactly(init, live, writes);
      at := OneMorePlace(before, init, writes, last);
      assert init + [last] == items;
      FormedLast(items, live);
    }
  }

  ghost predicate KeysOf(keys: seq<string>, items: seq<Item>) {
    |keys| == |items| && forall i :: 0 <= i < |keys| ==> keys[i] == items[i].key
  }

  /** The dead keys are those of the rejected items, in order. */
  lemma {:induction false} DeadExactly(items: seq<Item>, live: Option<set<string>>, dead: Item -> bool) returns (kept: seq<Item>)
    requires forall item :: dead(item) <==> Rejected(item, live)
    ensures IsFiltered(kept, items, dead) && KeysOf(DeadKeys(items, live), kept)
  {
    if items == [] {
      kept := [];
      NothingFiltered(dead);
    } else {
      var init, last := items[..|items| - 1], items[|items| - 1];
      var before := DeadExactly(init, live, dead);
      ItemExactly(last, live);
      FilterLast(before, items, dead, init);
      kept := if dead(last) then before + [last] else before;
    }
  }

  // ---- fading --------------------------------------------------------------------------------------

  /** Full days from the timestamp to today; none from one that is unreadable or in the future. */
  ghost predicate IsAge(days: nat, iso: string, today: int, dayOf: string -> Option<int>) {
    && (forall d :: dayOf(iso) == Some(d) && d <= today ==> d + days == today)
    && (dayOf(iso).None? || dayOf(iso).value > today ==> days == 0)
  }

  lemma AgeExactly(days: nat, iso: string, today: int, dayOf: string -> Option<int>)
    ensures days == DaysSince(iso, today, dayOf) <==> IsAge(days, iso, today, dayOf)
  {
  }

  /** `y` is what is left of `x` when each day takes the same part of it, until nothing is left. */
  ghost predicate IsLeft(y: real, x: real, part: real) {
    if part <= 1.0 then y == x - x * part else y == 0.0
  }

  lemma FadedExactly(x: real, rate: real, days: nat) returns (part: real)
    ensures part == rate * days as real && IsLeft(Faded(x, rate, days), x, part)
  {
    part := rate * days as real;
    if days == 0 {
      NoPart(x, part);
    } else {
      KeptOfPart(x, part);
    }
  }

  lemma NoPart(x: real, part: real)
    requires part == 0.0
    ensures IsLeft(x, x, part)
  {
  }

  lemma KeptOfPart(x: real, part: real)
    ensures var f := 1.0 - part; IsLeft(x * (if f > 0.0 then f else 0.0), x, part)
  {
    var f := 1.0 - part;
    assert x * f == x - x * part;
  }

  /** The row as it was, but for the part of its weight lost at 0.005 a day since it was last seen. */
  ghost predicate AgedRow(r: Row, aged: Row, today: int, dayOf: string -> Option<int>) {
    && aged == r.(weight := aged.weight)
    && exists days: nat, part ::
         IsAge(days, r.lastSeen, today, dayOf) && IsPart(part, 0.005, days) && IsLeft(aged.weight, r.weight, part)
  }

  ghost predicate IsPart(part: real, rate: real, days: nat) {
    part == rate * days as real
  }

  lemma AgedRowExactly(r: Row, today: int, dayOf: string -> Option<int>)
    ensures AgedRow(r, FadedRow(r, today, dayOf), today, dayOf)
  {
    var days := DaysSince(r.lastSeen, today, dayOf);
    AgeExactly(days, r.lastSeen, today, dayOf);
    var part := FadedExactly(r.weight, EDGE_DECAY_PER_DAY, days);
    assert IsPart(part, 0.005, days);
  }

  /** A co-activation row stays exactly when its faded weight is at least 0.05; rows of other kinds
      stay as they are. */
  lemma DecayedExactly(t: Table, today: int, dayOf: string -> Option<int>, k: Key) returns (aged: Row)
    requires k in t
    ensures AgedRow(t[k], aged, today, dayOf)
    ensures k.kind == "coactivation" ==>
              (k in Decayed(t, today, dayOf) <==> aged.weight >= 0.05)
              && (k in Decayed(t, today, dayOf) ==> Decayed(t, today, dayOf)[k] == aged)
    ensures k.kind != "coactivation" ==> k in Decayed(t, today, dayOf) && Decayed(t, today, dayOf)[k] == t[k]
  {
    aged := FadedRow(t[k], today, dayOf);
    AgedRowExactly(t[k], today, dayOf);
  }

  ghost predicate AgedMass(r: MassRow, aged: MassRow, today: int, dayOf: string -> Option<int>) {
    && aged == r.(mass := aged.mass)
    && exists days: nat, part ::
         IsAge(days, r.lastAccess, today, dayOf) && IsPart(part, 0.01, days) && IsLeft(aged.mass, r.mass, part)
  }

  /** Masses fade by 0.01 a day since the last access, and none goes. */
  lemma MassesExactly(ms: Masses, today: int, dayOf: string -> Option<int>, n: string)
    ensures n in MassesFaded(ms, today, dayOf) <==> n in ms
    ensures n in ms ==> AgedMass(ms[n], MassesFaded(ms, today, dayOf)[n], today, dayOf)
  {
    if n in ms {
      var days := DaysSince(ms[n].lastAccess, today, dayOf);
      AgeExactly(days, ms[n].lastAccess, today, dayOf);
      var part := FadedExactly(ms[n].mass, MASS_DECAY_PER_DAY, days);
      assert IsPart(part, 0.01, days);
    }
  }

  // ---- counting appearances ------------------------------------------------------------------------

  /** The amounts of the appearances of a node, by their places. */
  function Amounts(counts: seq<(string, real)>, n: string): map<int, real> {
    map i | 0 <= i < |counts| && counts[i].0 == n :: counts[i].1
  }

  lemma AmountsMore(counts: seq<(string, real)>, last: (string, real), n: string)
    ensures Sum(Amounts(counts + [last], n)) == Sum(Amounts(counts, n)) + if last.0 == n then last.1 else 0.0
    ensures Amounts(counts + [last], n) == map[] <==> Amounts(counts, n) == map[] && last.0 != n
  {
    var before, after := Amounts(counts, n), Amounts(counts + [last], n);
    if last.0 == n {
      assert after == before[|counts| := last.1];
      SumUpdate(before, |counts|, last.1);
    } else {
      assert after == before;
    }
  }

  /** The row of a node that appears gains all its amounts and is accessed now. */
  ghost predicate Grown(before: Masses, after: Masses, n: string, total: real, now: string) {
    && n in after
    && after[n].mass == (if n in before then before[n].mass else 0.0) + total
    && after[n].lastAccess == now
    && after[n].createdAt == if n in before then before[n].createdAt else now
  }

  ghost predicate MassUntouched(before: Masses, after: Masses, n: string) {
    (n in after <==> n in before) && (n in before ==> after[n] == before[n])
  }

  /** Each node gains the sum of the amounts it appears with, and only those that appear change. */
  lemma {:induction false} BumpedExactly(ms: Masses, counts: seq<(string, real)>, now: string, n: string)
    ensures if Amounts(counts, n) != map[] then Grown(ms, BumpedAll(ms, counts, now), n, Sum(Amounts(counts, n)), now)
            else MassUntouched(ms, BumpedAll(ms, counts, now), n)
  {
    if counts != [] {
      var init, last := counts[..|counts| - 1], counts[|counts| - 1];
      BumpedExactly(ms, init, now, n);
      AmountsMore(init, last, n);
      assert init + [last] == counts;
    }
  }

  // ---- the degree cap --------------------------------------------------------------------------------

  /** `j` ranks above `k`: it is heavier, or as heavy and later in the order of the names. */
  ghost predicate RanksAbove(t: Table, j: Key, k: Key)
    requires j in t && k in t
  {
    || t[j].weight > t[k].weight
    || (t[j].weight == t[k].weight && (Before(k.src, j.src) || (j.src == k.src && Before(k.dst, j.dst))))
  }

  lemma RankExactly(t: Table, j: Key, k: Key)
    requires j in t && k in t && j.kind == k.kind && j != k
    ensures Leq(t, k, j) <==> RanksAbove(t, j, k)
  {
    LexExactly(k.src, j.src);
    LexExactly(k.dst, j.dst);
    if Before(k.src, j.src) { Asymmetric(k.src, j.src); }
  }

  /** The co-activation edges at `v` that rank above the edge. */
  ghost function Above(t: Table, k: Key, v: string): set<Key>
    requires k in t
  {
    set j | j in t && j.kind == "coactivation" && (j.src == v || j.dst == v) && j != k && RanksAbove(t, j, k)
  }

  /** The cap drops exactly the co-activation edges with 32 or more that rank above them at one end;
      the rest stays as it is. */
  lemma CappedExactly(t: Table, k: Key)
    ensures k in Capped(t) <==>
      k in t && (k.kind == "coactivation" ==> |Above(t, k, k.src)| < 32 && |Above(t, k, k.dst)| < 32)
    ensures k in Capped(t) ==> Capped(t)[k] == t[k]
  {
    if k in t && k.kind == "coactivation" {
      forall j | j in t && IsWeb(j) && j != k ensures Leq(t, k, j) <==> RanksAbove(t, j, k) { RankExactly(t, j, k); }
      assert StrongerAt(t, k, k.src) == Above(t, k, k.src);
      assert StrongerAt(t, k, k.dst) == Above(t, k, k.dst);
    }
  }
}
