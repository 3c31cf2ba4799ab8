/** Edge intervals (samia/core/chain.py): which days an edge is used on, what closing an edge
    does to it, and what that means for the walks of earlier and later days. */
module IntervalLaws {
  import opened ChainData
  import opened Filters
  import opened Options
  import opened Traversal

  type Parse = string -> Option<int>

  /** The edge has a readable first day. */
  ghost predicate Begins(e: Edge, day: int, parse: Parse) {
    e.validFrom.Some? && e.validFrom.value != "" && parse(e.validFrom.value) == Some(day)
  }

  /** The edge has a readable last day, other than the word "null". */
  ghost predicate Ends(e: Edge, day: int, parse: Parse) {
    e.validTo.Some? && e.validTo.value != "null" && parse(e.validTo.value) == Some(day)
  }

  /** The day is not before a readable first day and not after a readable last day; a bound that
      is missing or unreadable does not count. */
  ghost predicate InForce(e: Edge, at: int, parse: Parse) {
    (forall day :: Begins(e, day, parse) ==> day <= at) && (forall day :: Ends(e, day, parse) ==> at <= day)
  }

  lemma IntervalExactly(e: Edge, at: int, parse: Parse)
    ensures EdgeValidAt(e, at, parse) <==> InForce(e, at, parse)
  {
    if e.validFrom.Some? && e.validFrom.value != "" && parse(e.validFrom.value).Some? {
      assert Begins(e, parse(e.validFrom.value).value, parse);
    }
    if e.validTo.Some? && e.validTo.value != "null" && parse(e.validTo.value).Some? {
      assert Ends(e, parse(e.validTo.value).value, parse);
    }
  }

  /** With both days readable, an edge is in force exactly from the first to the last. */
  lemma FromFirstToLast(e: Edge, first: int, last: int, at: int, parse: Parse)
    requires Begins(e, first, parse) && Ends(e, last, parse)
    ensures EdgeValidAt(e, at, parse) <==> first <= at <= last
  {
  }

  lemma {:induction false} ValidInOrder(edges: seq<Edge>, at: int, parse: Parse, use: Edge -> bool)
    requires forall e :: use(e) <==> InForce(e, at, parse)
    ensures IsFiltered(ValidEdges(edges, at, parse), edges, use)
  {
    if edges == [] {
      NothingFiltered(use);
    } else {
      ValidInOrder(edges[1..], at, parse, use);
      IntervalExactly(edges[0], at, parse);
      FilterFirst(ValidEdges(edges[1..], at, parse), edges, use);
    }
  }

  // ---- closing edges -------------------------------------------------------------------------

  /** The edges that a call with these arguments closes: between the two ends, with the label if
      one is given, and without a last day. */
  ghost predicate Closes(e: Edge, frm: string, to: string, wanted: Option<string>) {
    && e.from == frm && e.to == to && (wanted == None || e.edgeLabel == wanted)
    && (e.validTo == None || e.validTo == Some("null"))
  }

  /** Exactly those get the closing day, nothing else of them changes, and no other edge does. */
  lemma ClosedExactly(edges: seq<Edge>, frm: string, to: string, on: string, wanted: Option<string>, i: int)
    requires 0 <= i < |edges|
    ensures var after := Closed(edges, frm, to, on, wanted);
      |after| == |edges| && after[i] == if Closes(edges[i], frm, to, wanted) then edges[i].(validTo := Some(on)) else edges[i]
  {
  }

  /** On the closing day and before, an edge is in force as if it had not been closed; after it,
      never. Edges that were not closed are not affected. */
  lemma ClosingEnds(e: Edge, frm: string, to: string, on: string, day: int, wanted: Option<string>, at: int, parse: Parse)
    requires on != "null" && parse(on) == Some(day)
    ensures var after := if Closes(e, frm, to, wanted) then e.(validTo := Some(on)) else e;
      EdgeValidAt(after, at, parse) <==> EdgeValidAt(e, at, parse) && (at <= day || !Closes(e, frm, to, wanted))
  {
  }

  // ---- what the walks see --------------------------------------------------------------------

  /** An edge from `a` to `b` is in force. */
  ghost predicate Link(edges: seq<Edge>, at: int, parse: Parse, a: string, b: string) {
    exists i :: LinkAt(edges, i, at, parse, a, b)
  }

  ghost predicate LinkAt(edges: seq<Edge>, i: int, at: int, parse: Parse, a: string, b: string) {
    0 <= i < |edges| && edges[i].from == a && edges[i].to == b && InForce(edges[i], at, parse)
  }

  lemma LinksExactly(edges: seq<Edge>, at: int, parse: Parse, a: string, b: string)
    ensures HasEdge(ValidEdges(edges, at, parse), a, b) <==> Link(edges, at, parse, a, b)
  {
    var valid := ValidEdges(edges, at, parse);
    if HasEdge(valid, a, b) {
      var j :| 0 <= j < |valid| && valid[j].from == a && valid[j].to == b;
      ValidEdgesExact(edges, at, parse, valid[j]);
      var i :| 0 <= i < |edges| && edges[i] == valid[j];
      IntervalExactly(edges[i], at, parse);
      assert LinkAt(edges, i, at, parse, a, b);
    }
    if Link(edges, at, parse, a, b) {
      var i :| LinkAt(edges, i, at, parse, a, b);
      IntervalExactly(edges[i], at, parse);
      ValidEdgesExact(edges, at, parse, edges[i]);
      var j :| 0 <= j < |valid| && valid[j] == edges[i];
    }
  }

  /** The link without the edges that the call closes. */
  ghost predicate LinkBeside(edges: seq<Edge>, at: int, parse: Parse, a: string, b: string, frm: string, to: string,
                             wanted: Option<string>) {
    exists i :: LinkAt(edges, i, at, parse, a, b) && !Closes(edges[i], frm, to, wanted)
  }

  lemma LinkAfterClosing(edges: seq<Edge>, frm: string, to: string, on: string, day: int, wanted: Option<string>,
                         at: int, parse: Parse, i: int, a: string, b: string)
    requires on != "null" && parse(on) == Some(day)
    ensures LinkAt(Closed(edges, frm, to, on, wanted), i, at, parse, a, b)
       <==> LinkAt(edges, i, at, parse, a, b) && (at <= day || !Closes(edges[i], frm, to, wanted))
  {
    if 0 <= i < |edges| {
      var after := Closed(edges, frm, to, on, wanted);
      ClosedExactly(edges, frm, to, on, wanted, i);
      ClosingEnds(edges[i], frm, to, on, day, wanted, at, parse);
      IntervalExactly(edges[i], at, parse);
      IntervalExactly(after[i], at, parse);
    }
  }

  /** Once the edges are closed on a readable day, the links of later days are those of the edges
      that were not closed, and the links of that day and earlier ones are as before. */
  lemma LinksAfterClosing(edges: seq<Edge>, frm: string, to: string, on: string, day: int, wanted: Option<string>,
                          at: int, parse: Parse, a: string, b: string)
    requires on != "null" && parse(on) == Some(day)
    ensures HasEdge(ValidEdges(Closed(edges, frm, to, on, wanted), at, parse), a, b)
       <==> if at <= day then Link(edges, at, parse, a, b) else LinkBeside(edges, at, parse, a, b, frm, to, wanted)
  {
    var after := Closed(edges, frm, to, on, wanted);
    LinksExactly(after, at, parse, a, b);
    forall i
      ensures LinkAt(after, i, at, parse, a, b)
         <==> LinkAt(edges, i, at, parse, a, b) && (at <= day || !Closes(edges[i], frm, to, wanted))
    {
      LinkAfterClosing(edges, frm, to, on, day, wanted, at, parse, i, a, b);
    }
  }

  ghost predicate SameLinks(edges: seq<Edge>, others: seq<Edge>) {
    forall a, b :: HasEdge(edges, a, b) <==> HasEdge(others, a, b)
  }

  lemma SameHops(edges: seq<Edge>, others: seq<Edge>, start: string, k: int, x: string)
    requires SameLinks(edges, others)
    ensures Hops(edges, start, k, x) <==> Hops(others, start, k, x)
  {
    if Hops(edges, start, k, x) {
      var walk :| |walk| == k + 1 && IsWalk(edges, walk) && walk[0] == start && walk[k] == x;
      assert IsWalk(others, walk);
    }
    if Hops(others, start, k, x) {
      var walk :| |walk| == k + 1 && IsWalk(others, walk) && walk[0] == start && walk[k] == x;
      assert IsWalk(edges, walk);
    }
  }

  lemma SameTraversals(edges: seq<Edge>, others: seq<Edge>, start: string, depth: int, order: seq<Visit>)
    requires SameLinks(edges, others) && IsTraversal(edges, start, depth, order)
    ensures IsTraversal(others, start, depth, order)
  {
    forall k, x ensures Hops(edges, start, k, x) <==> Hops(others, start, k, x) { SameHops(edges, others, start, k, x); }
  }

  /** Walks of the closing day and of earlier days are the walks from before the closing; walks of
      later days are those of the chain without the closed edges. */
  lemma WalksAfterClosing(edges: seq<Edge>, frm: string, to: string, on: string, day: int, wanted: Option<string>,
                          at: int, parse: Parse, rest: seq<Edge>, stays: Edge -> bool, start: string, depth: int,
                          order: seq<Visit>)
    requires on != "null" && parse(on) == Some(day)
    requires forall e :: stays(e) <==> !Closes(e, frm, to, wanted)
    requires IsFiltered(rest, edges, stays)
    ensures IsTraversal(ValidEdges(Closed(edges, frm, to, on, wanted), at, parse), start, depth, order)
       <==> IsTraversal(ValidEdges(if at <= day then edges else rest, at, parse), start, depth, order)
  {
    var after, before := ValidEdges(Closed(edges, frm, to, on, wanted), at, parse),
      ValidEdges(if at <= day then edges else rest, at, parse);
    forall a, b ensures HasEdge(after, a, b) <==> HasEdge(before, a, b) {
      LinksAfterClosing(edges, frm, to, on, day, wanted, at, parse, a, b);
      LinksExactly(if at <= day then edges else rest, at, parse, a, b);
      BesideExactly(edges, frm, to, wanted, at, parse, rest, stays, a, b);
    }
    if IsTraversal(after, start, depth, order) { SameTraversals(after, before, start, depth, order); }
    if IsTraversal(before, start, depth, order) { SameTraversals(before, after, start, depth, order); }
  }

  lemma BesideExactly(edges: seq<Edge>, frm: string, to: string, wanted: Option<string>, at: int, parse: Parse,
                      rest: seq<Edge>, stays: Edge -> bool, a: string, b: string)
    requires forall e :: stays(e) <==> !Closes(e, frm, to, wanted)
    requires IsFiltered(rest, edges, stays)
    ensures LinkBeside(edges, at, parse, a, b, frm, to, wanted) <==> Link(rest, at, parse, a, b)
  {
    FilteredElements(rest, edges, stays);
    if LinkBeside(edges, at, parse, a, b, frm, to, wanted) {
      var i :| LinkAt(edges, i, at, parse, a, b) && !Closes(edges[i], frm, to, wanted);
      assert edges[i] in edges && edges[i] in rest;
      var j :| 0 <= j < |rest| && rest[j] == edges[i];
      assert LinkAt(rest, j, at, parse, a, b);
    }
    if Link(rest, at, parse, a, b) {
      var j :| LinkAt(rest, j, at, parse, a, b);
      assert rest[j] in rest && rest[j] in edges;
      var i :| 0 <= i < |edges| && edges[i] == rest[j];
      assert LinkAt(edges, i, at, parse, a, b);
    }
  }
}
