/** What it is to keep some elements of a list, stated by their places. */
module Filters {

  ghost predicate Rising(at: seq<int>) {
    forall i, j :: 0 <= i < j < |at| ==> at[i] < at[j]
  }

  /** The places are exactly those of the elements that satisfy `p`. */
  ghost predicate ArePlaces<T(!new)>(at: seq<int>, all: seq<T>, p: T -> bool) {
    Rising(at) && forall k :: k in at <==> 0 <= k < |all| && p(all[k])
  }

  /** `kept` lists the elements of `all` at these places. */
  ghost predicate Picks<T(!new)>(kept: seq<T>, all: seq<T>, at: seq<int>) {
    |at| == |kept| && forall i :: 0 <= i < |at| ==> 0 <= at[i] < |all| && kept[i] == all[at[i]]
  }

  /** `kept` lists, in order, exactly the elements of `all` that satisfy `p`. */
  ghost predicate IsFiltered<T(!new)>(kept: seq<T>, all: seq<T>, p: T -> bool) {
    exists at :: ArePlaces(at, all, p) && Picks(kept, all, at)
  }

  lemma NothingFiltered<T(!new)>(p: T -> bool)
    ensures IsFiltered([], [], p)
  {
    assert ArePlaces([], [], p) && Picks<T>([], [], []);
  }

  /** Only the truth of the condition matters. */
  lemma SameFilter<T(!new)>(kept: seq<T>, all: seq<T>, p: T -> bool, q: T -> bool)
    requires IsFiltered(kept, all, p) && forall x :: p(x) == q(x)
    ensures IsFiltered(kept, all, q)
  {
    var at :| ArePlaces(at, all, p) && Picks(kept, all, at);
    assert ArePlaces(at, all, q);
  }

  lemma FilteredElements<T(!new)>(kept: seq<T>, all: seq<T>, p: T -> bool)
    requires IsFiltered(kept, all, p)
    ensures forall x :: x in kept <==> x in all && p(x)
  {
    var at :| ArePlaces(at, all, p) && Picks(kept, all, at);
    forall x ensures x in kept <==> x in all && p(x) { FilteredElement(kept, all, p, at, x); }
  }

  lemma FilteredElement<T(!new)>(kept: seq<T>, all: seq<T>, p: T -> bool, at: seq<int>, x: T)
    requires ArePlaces(at, all, p) && Picks(kept, all, at)
    ensures x in kept <==> x in all && p(x)
  {
    if x in kept {
      var i :| 0 <= i < |kept| && kept[i] == x;
      var k := at[i];
      assert k in at;
    }
    if x in all && p(x) {
      var k :| 0 <= k < |all| && all[k] == x;
      assert k in at;
      var i :| 0 <= i < |at| && at[i] == k;
      assert kept[i] == x;
    }
  }

  /** Where nothing fails the condition, everything is kept. */
  lemma AllKept<T(!new)>(all: seq<T>, p: T -> bool)
    requires forall i :: 0 <= i < |all| ==> p(all[i])
    ensures IsFiltered(all, all, p)
  {
    var at := seq(|all|, i => i);
    forall k ensures k in at <==> 0 <= k < |all| && p(all[k]) {
      if 0 <= k < |all| { assert at[k] == k; }
    }
    assert ArePlaces(at, all, p) && Picks(all, all, at);
  }

  lemma OneMorePlace<T(!new)>(at: seq<int>, all: seq<T>, p: T -> bool, x: T) returns (next: seq<int>)
    requires ArePlaces(at, all, p)
    ensures next == if p(x) then at + [|all|] else at
    ensures ArePlaces(next, all + [x], p)
  {
    next := if p(x) then at + [|all|] else at;
    forall k ensures k in next <==> 0 <= k < |all + [x]| && p((all + [x])[k]) {
      assert k in next <==> k in at || (p(x) && k == |all|);
    }
    forall i | 0 <= i < |at| ensures at[i] < |all| {
      var k := at[i];
      assert k in at;
    }
  }

  lemma OneMorePick<T(!new)>(kept: seq<T>, all: seq<T>, at: seq<int>, x: T)
    requires Picks(kept, all, at)
    ensures Picks(kept, all + [x], at)
    ensures Picks(kept + [x], all + [x], at + [|all|])
  {
  }

  /** One more element at the end. */
  lemma FilterStep<T(!new)>(kept: seq<T>, all: seq<T>, p: T -> bool, x: T)
    requires IsFiltered(kept, all, p)
    ensures IsFiltered(if p(x) then kept + [x] else kept, all + [x], p)
  {
    var at :| ArePlaces(at, all, p) && Picks(kept, all, at);
    var next := OneMorePlace(at, all, p, x);
    OneMorePick(kept, all, at, x);
  }

  lemma FilterLast<T(!new)>(kept: seq<T>, all: seq<T>, p: T -> bool, init: seq<T>)
    requires all != [] && init == all[..|all| - 1]
    requires IsFiltered(kept, init, p)
    ensures IsFiltered(if p(all[|all| - 1]) then kept + [all[|all| - 1]] else kept, all, p)
  {
    var last := all[|all| - 1];
    assert all == init + [last];
    FilterStep(kept, init, p, last);
  }

  function Shifted(at: seq<int>): seq<int> {
    seq(|at|, i requires 0 <= i < |at| => at[i] + 1)
  }

  lemma ShiftedMembers(at: seq<int>, k: int)
    ensures k in Shifted(at) <==> k - 1 in at
  {
    if k - 1 in at {
      var i :| 0 <= i < |at| && at[i] == k - 1;
      assert Shifted(at)[i] == k;
    }
    if k in Shifted(at) {
      var i :| 0 <= i < |at| && Shifted(at)[i] == k;
      assert at[i] == k - 1;
    }
  }

  lemma ShiftedRises(at: seq<int>)
    requires Rising(at)
    ensures Rising(Shifted(at))
  {
  }

  lemma ZeroFirst(at: seq<int>)
    requires Rising(at) && forall i :: i in at ==> 1 <= i
    ensures Rising([0] + at) && forall i :: i in [0] + at <==> i == 0 || i in at
  {
    forall i | 0 <= i < |at| ensures 1 <= at[i] {
      var k := at[i];
      assert k in at;
    }
  }

  /** The places in a list from those in its tail, with or without the head. */
  lemma PlacesWithHead(at: seq<int>, head: bool) returns (all: seq<int>)
    requires Rising(at) && forall i :: i in at ==> 0 <= i
    ensures all == if head then [0] + Shifted(at) else Shifted(at)
    ensures Rising(all) && forall i :: i in all <==> (i == 0 && head) || i - 1 in at
  {
    all := Shifted(at);
    forall i ensures i in all <==> i - 1 in at { ShiftedMembers(at, i); }
    ShiftedRises(at);
    if head {
      ZeroFirst(all);
      all := [0] + all;
    }
  }

  /** One more element at the front. */
  lemma FilterFirst<T(!new)>(kept: seq<T>, all: seq<T>, p: T -> bool)
    requires all != [] && IsFiltered(kept, all[1..], p)
    ensures IsFiltered(if p(all[0]) then [all[0]] + kept else kept, all, p)
  {
    var at :| ArePlaces(at, all[1..], p) && Picks(kept, all[1..], at);
    var places := PlacesWithHead(at, p(all[0]));
    PlacesOfTail(all, p, at, places);
    PicksOfTail(kept, all, at);
  }

  lemma PlacesOfTail<T(!new)>(all: seq<T>, p: T -> bool, at: seq<int>, places: seq<int>)
    requires all != [] && ArePlaces(at, all[1..], p) && Rising(places)
    requires forall i :: i in places <==> (i == 0 && p(all[0])) || i - 1 in at
    ensures ArePlaces(places, all, p)
  {
    forall i ensures i in places <==> 0 <= i < |all| && p(all[i]) {
      if i > 0 { assert i - 1 in at <==> 0 <= i - 1 < |all[1..]| && p(all[1..][i - 1]); }
    }
  }

  lemma PicksOfTail<T(!new)>(kept: seq<T>, all: seq<T>, at: seq<int>)
    requires all != [] && Picks(kept, all[1..], at)
    ensures Picks(kept, all, Shifted(at)) && Picks([all[0]] + kept, all, [0] + Shifted(at))
  {
    forall i | 0 <= i < |at| ensures all[1..][at[i]] == all[Shifted(at)[i]] {}
  }

  lemma NoneOrSome(a: seq<int>, b: seq<int>)
    requires forall k :: k in a ==> k in b
    ensures b == [] ==> a == []
  {
    if a != [] {
      var k := a[0];
      assert k in a;
      assert k in b;
    }
  }

  /** A list of places leaves no choice. */
  lemma {:induction false} SamePlaces(a: seq<int>, b: seq<int>)
    requires Rising(a) && Rising(b)
    requires forall k :: k in a <==> k in b
    ensures a == b
    decreases |a|
  {
    NoneOrSome(a, b);
    NoneOrSome(b, a);
    if a != [] {
      var m, n := |a| - 1, |b| - 1;
      assert a[m] in a && b[n] in b;
      assert a[m] in b && b[n] in a;
      assert a[m] == b[n];
      forall k ensures k in a[..m] <==> k in b[..n] {
        assert k in a <==> k in a[..m] || k == a[m];
        assert k in b <==> k in b[..n] || k == b[n];
      }
      SamePlaces(a[..m], b[..n]);
      assert a == a[..m] + [a[m]] && b == b[..n] + [b[n]];
    }
  }

  /** There is only one such list. */
  lemma FilteredIsUnique<T(!new)>(kept: seq<T>, also: seq<T>, all: seq<T>, p: T -> bool)
    requires IsFiltered(kept, all, p) && IsFiltered(also, all, p)
    ensures kept == also
  {
    var a :| ArePlaces(a, all, p) && Picks(kept, all, a);
    var b :| ArePlaces(b, all, p) && Picks(also, all, b);
    SamePlaces(a, b);
  }
}
