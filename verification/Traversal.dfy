/** The time-anchored breadth-first walk `traverse_at` (samia/core/chain.py). */
module Traversal {
  import opened Options
  import opened ChainData

  /** An address with its hop count: a queue element, or an element of the result. */
  datatype Visit = Visit(addr: string, depth: int)

  // ---- walks along edges ----------------------------------------------------------

  ghost predicate HasEdge(edges: seq<Edge>, a: string, b: string) {
    exists i :: 0 <= i < |edges| && edges[i].from == a && edges[i].to == b
  }

  ghost predicate IsWalk(edges: seq<Edge>, walk: seq<string>) {
    walk != [] && forall i :: 0 <= i < |walk| - 1 ==> HasEdge(edges, walk[i], walk[i + 1])
  }

  /** `x` is at the end of a walk of exactly `k` edges from `start`. */
  ghost predicate Hops(edges: seq<Edge>, start: string, k: int, x: string) {
    exists walk :: |walk| == k + 1 && IsWalk(edges, walk) && walk[0] == start && walk[k] == x
  }

  lemma NoHops(edges: seq<Edge>, start: string)
    ensures Hops(edges, start, 0, start)
    ensures forall x :: Hops(edges, start, 0, x) ==> x == start
  {
    assert IsWalk(edges, [start]) && [start][0] == start;
  }

  lemma OneMoreHop(edges: seq<Edge>, start: string, k: nat, y: string, x: string)
    requires Hops(edges, start, k, y) && HasEdge(edges, y, x)
    ensures Hops(edges, start, k + 1, x)
  {
    var walk :| |walk| == k + 1 && IsWalk(edges, walk) && walk[0] == start && walk[k] == y;
    var longer := walk + [x];
    forall i | 0 <= i < |longer| - 1 ensures HasEdge(edges, longer[i], longer[i + 1]) {
      assert longer[i] == walk[i];
      if i < |walk| - 1 { assert longer[i + 1] == walk[i + 1]; }
    }
    assert IsWalk(edges, longer) && longer[0] == start && longer[k + 1] == x;
  }

  lemma LastHop(edges: seq<Edge>, start: string, k: nat, x: string) returns (y: string)
    requires Hops(edges, start, k + 1, x)
    ensures Hops(edges, start, k, y) && HasEdge(edges, y, x)
  {
    var walk :| |walk| == k + 2 && IsWalk(edges, walk) && walk[0] == start && walk[k + 1] == x;
    y := walk[k];
    var shorter := walk[..k + 1];
    assert IsWalk(edges, shorter) && shorter[0] == start && shorter[k] == y;
  }

  // ---- the invariant of the loop --------------------------------------------------

  ghost predicate Sound(edges: seq<Edge>, start: string, limit: nat, vs: seq<Visit>) {
    forall i :: 0 <= i < |vs| ==> 0 <= vs[i].depth <= limit && Hops(edges, start, vs[i].depth, vs[i].addr)
  }

  ghost predicate NonDecreasing(vs: seq<Visit>) {
    forall i, j :: 0 <= i < j < |vs| ==> vs[i].depth <= vs[j].depth
  }

  ghost predicate Distinct(vs: seq<Visit>) {
    forall i, j :: 0 <= i < j < |vs| ==> vs[i].addr != vs[j].addr
  }

  /** No walk is shorter than the recorded hop count. */
  ghost predicate Shortest(edges: seq<Edge>, start: string, vs: seq<Visit>) {
    forall i, k: nat :: 0 <= i < |vs| && Hops(edges, start, k, vs[i].addr) ==> vs[i].depth <= k
  }

  /** `x` is recorded in `vs` at most `k` hops away. */
  ghost predicate Within(vs: seq<Visit>, x: string, k: int) {
    exists i :: 0 <= i < |vs| && vs[i].addr == x && vs[i].depth <= k
  }

  /** Each successor of an expanded node is recorded or queued one hop further on at most. */
  ghost predicate Expanded(edges: seq<Edge>, limit: nat, order: seq<Visit>, queue: seq<Visit>) {
    forall i, u :: 0 <= i < |order| && order[i].depth < limit && HasEdge(edges, order[i].addr, u) ==>
      Within(order, u, order[i].depth + 1) || Within(queue, u, order[i].depth + 1)
  }

  ghost predicate QueueWindow(order: seq<Visit>, queue: seq<Visit>) {
    && NonDecreasing(queue)
    && (forall i :: 0 <= i < |queue| ==> queue[i].depth <= queue[0].depth + 1)
    && (forall i :: 0 <= i < |order| && queue != [] ==> order[i].depth <= queue[0].depth)
  }

  ghost predicate BfsInv(edges: seq<Edge>, start: string, limit: nat, order: seq<Visit>, queue: seq<Visit>) {
    && Sound(edges, start, limit, order) && Sound(edges, start, limit, queue)
    && NonDecreasing(order) && Distinct(order) && Shortest(edges, start, order)
    && QueueWindow(order, queue)
    && Expanded(edges, limit, order, queue)
    && (Within(order, start, 0) || Within(queue, start, 0))
  }

  function Addrs(vs: seq<Visit>): set<string> {
    set i | 0 <= i < |vs| :: vs[i].addr
  }

  /** Everything within `k <= limit` hops is recorded at its distance, or something at most as
      far is still queued. */
  lemma {:induction false} Frontier(edges: seq<Edge>, start: string, limit: nat, order: seq<Visit>, queue: seq<Visit>,
                                    k: nat, x: string)
    requires Expanded(edges, limit, order, queue)
    requires Within(order, start, 0) || Within(queue, start, 0)
    requires k <= limit && Hops(edges, start, k, x)
    ensures Within(order, x, k) || exists i :: 0 <= i < |queue| && queue[i].depth <= k
    decreases k
  {
    if k == 0 {
      NoHops(edges, start);
      if Within(queue, start, 0) {
        var i :| 0 <= i < |queue| && queue[i].addr == start && queue[i].depth <= 0;
      }
    } else {
      var y := LastHop(edges, start, k - 1, x);
      Frontier(edges, start, limit, order, queue, k - 1, y);
      if Within(order, y, k - 1) {
        var i :| 0 <= i < |order| && order[i].addr == y && order[i].depth <= k - 1;
        if Within(queue, x, order[i].depth + 1) {
          var j :| 0 <= j < |queue| && queue[j].addr == x && queue[j].depth <= order[i].depth + 1;
        } else {
          var j :| 0 <= j < |order| && order[j].addr == x && order[j].depth <= order[i].depth + 1;
        }
      }
    }
  }

  // ---- the steps of the loop ------------------------------------------------------

  lemma WithinTail(queue: seq<Visit>, order: seq<Visit>, x: string, k: int)
    requires queue != [] && Within(queue, x, k)
    requires x == queue[0].addr ==> Within(order, x, queue[0].depth)
    ensures Within(queue[1..], x, k) || Within(order, x, k)
  {
    var i :| 0 <= i < |queue| && queue[i].addr == x && queue[i].depth <= k;
    if i == 0 {
      var j :| 0 <= j < |order| && order[j].addr == x && order[j].depth <= queue[0].depth;
    } else {
      assert queue[1..][i - 1] == queue[i];
    }
  }

  /** Popping an address that is already recorded. */
  lemma SkipStep(edges: seq<Edge>, start: string, limit: nat, order: seq<Visit>, queue: seq<Visit>)
    requires BfsInv(edges, start, limit, order, queue) && queue != [] && queue[0].addr in Addrs(order)
    ensures BfsInv(edges, start, limit, order, queue[1..])
  {
    var j :| 0 <= j < |order| && order[j].addr == queue[0].addr;
    assert Within(order, queue[0].addr, queue[0].depth);
    forall i, u | 0 <= i < |order| && order[i].depth < limit && HasEdge(edges, order[i].addr, u)
      ensures Within(order, u, order[i].depth + 1) || Within(queue[1..], u, order[i].depth + 1)
    {
      if !Within(order, u, order[i].depth + 1) { WithinTail(queue, order, u, order[i].depth + 1); }
    }
    if !Within(order, start, 0) { WithinTail(queue, order, start, 0); }
  }

  /** A popped address that is not yet recorded is at its shortest distance. */
  lemma HeadIsShortest(edges: seq<Edge>, start: string, limit: nat, order: seq<Visit>, queue: seq<Visit>, k: nat)
    requires BfsInv(edges, start, limit, order, queue) && queue != [] && queue[0].addr !in Addrs(order)
    requires Hops(edges, start, k, queue[0].addr)
    ensures queue[0].depth <= k
  {
    if k < queue[0].depth {
      Frontier(edges, start, limit, order, queue, k, queue[0].addr);
    }
  }

  /** The entries pushed for the out-edges of a node at depth `d`. */
  function Pushes(out: seq<Edge>, visited: set<string>, d: int): seq<Visit> {
    if out == [] then []
    else (if out[0].to !in visited then [Visit(out[0].to, d + 1)] else []) + Pushes(out[1..], visited, d)
  }

  lemma {:induction false} PushesMembers(out: seq<Edge>, visited: set<string>, d: int)
    ensures forall i :: 0 <= i < |Pushes(out, visited, d)| ==>
              Pushes(out, visited, d)[i].depth == d + 1 &&
              exists j :: 0 <= j < |out| && out[j].to == Pushes(out, visited, d)[i].addr
    ensures forall j :: 0 <= j < |out| && out[j].to !in visited ==> Within(Pushes(out, visited, d), out[j].to, d + 1)
  {
    if out != [] {
      PushesMembers(out[1..], visited, d);
      var rest, all := Pushes(out[1..], visited, d), Pushes(out, visited, d);
      var off := |all| - |rest|;
      forall i | 0 <= i < |all|
        ensures all[i].depth == d + 1 && exists j :: 0 <= j < |out| && out[j].to == all[i].addr
      {
        if i < off {
          assert out[0].to == all[i].addr;
        } else {
          assert all[i] == rest[i - off];
          var j :| 0 <= j < |out[1..]| && out[1..][j].to == rest[i - off].addr;
          assert out[j + 1].to == all[i].addr;
        }
      }
      forall j | 0 <= j < |out| && out[j].to !in visited ensures Within(all, out[j].to, d + 1) {
        if j == 0 {
          assert all[0].addr == out[0].to;
        } else {
          assert out[j] == out[1..][j - 1];
          var i :| 0 <= i < |rest| && rest[i].addr == out[j].to && rest[i].depth <= d + 1;
          assert all[i + off] == rest[i];
        }
      }
    }
  }

  lemma WithinMore(vs: seq<Visit>, more: seq<Visit>, x: string, k: int)
    requires Within(vs, x, k) || Within(more, x, k)
    ensures Within(vs + more, x, k)
  {
    if Within(vs, x, k) {
      var i :| 0 <= i < |vs| && vs[i].addr == x && vs[i].depth <= k;
      assert (vs + more)[i] == vs[i];
    } else {
      var i :| 0 <= i < |more| && more[i].addr == x && more[i].depth <= k;
      assert (vs + more)[|vs| + i] == more[i];
    }
  }

  /** What was within reach of the old record and queue still is after the head is recorded. */
  lemma WithinAfterRecord(order: seq<Visit>, queue: seq<Visit>, pushed: seq<Visit>, x: string, k: int)
    requires queue != [] && (Within(order, x, k) || Within(queue, x, k))
    ensures Within(order + [queue[0]], x, k) || Within(queue[1..] + pushed, x, k)
  {
    if Within(order, x, k) {
      WithinMore(order, [queue[0]], x, k);
    } else {
      var i :| 0 <= i < |queue| && queue[i].addr == x && queue[i].depth <= k;
      if i == 0 {
        assert (order + [queue[0]])[|order|] == queue[0];
      } else {
        assert (queue[1..] + pushed)[i - 1] == queue[i];
      }
    }
  }

  /** Recording the head and pushing `pushed`, the unrecorded successors if it may be expanded. */
  ghost predicate Expands(edges: seq<Edge>, limit: nat, order: seq<Visit>, head: Visit, pushed: seq<Visit>) {
    && (forall i :: 0 <= i < |pushed| ==>
          head.depth < limit && pushed[i].depth == head.depth + 1 && HasEdge(edges, head.addr, pushed[i].addr))
    && (forall u :: head.depth < limit && HasEdge(edges, head.addr, u) ==>
          u in Addrs(order + [head]) || Within(pushed, u, head.depth + 1))
  }

  lemma RecordSound(edges: seq<Edge>, start: string, limit: nat, order: seq<Visit>, queue: seq<Visit>, pushed: seq<Visit>)
    requires BfsInv(edges, start, limit, order, queue) && queue != [] && queue[0].addr !in Addrs(order)
    requires Expands(edges, limit, order, queue[0], pushed)
    ensures Sound(edges, start, limit, order + [queue[0]]) && Sound(edges, start, limit, queue[1..] + pushed)
  {
    forall i | 0 <= i < |pushed|
      ensures 0 <= pushed[i].depth <= limit && Hops(edges, start, pushed[i].depth, pushed[i].addr)
    {
      OneMoreHop(edges, start, queue[0].depth, queue[0].addr, pushed[i].addr);
    }
  }

  lemma RecordDistinct(order: seq<Visit>, head: Visit)
    requires Distinct(order) && head.addr !in Addrs(order)
    ensures Distinct(order + [head])
  {
    forall i | 0 <= i < |order| ensures order[i].addr != head.addr { assert order[i].addr in Addrs(order); }
  }

  lemma RecordShortest(edges: seq<Edge>, start: string, limit: nat, order: seq<Visit>, queue: seq<Visit>)
    requires BfsInv(edges, start, limit, order, queue) && queue != [] && queue[0].addr !in Addrs(order)
    ensures Shortest(edges, start, order + [queue[0]])
  {
    var all := order + [queue[0]];
    forall i, k: nat | 0 <= i < |all| && Hops(edges, start, k, all[i].addr) ensures all[i].depth <= k {
      if i < |order| {
        assert all[i] == order[i];
      } else {
        HeadIsShortest(edges, start, limit, order, queue, k);
      }
    }
  }

  predicate AllAt(vs: seq<Visit>, d: int) {
    forall i :: 0 <= i < |vs| ==> vs[i].depth == d
  }

  lemma RecordWindow(order: seq<Visit>, queue: seq<Visit>, pushed: seq<Visit>)
    requires NonDecreasing(order) && queue != [] && QueueWindow(order, queue)
    requires AllAt(pushed, queue[0].depth + 1)
    ensures NonDecreasing(order + [queue[0]]) && QueueWindow(order + [queue[0]], queue[1..] + pushed)
  {
    var next := queue[1..] + pushed;
    forall i | 0 <= i < |next| ensures queue[0].depth <= next[i].depth <= queue[0].depth + 1 {
      if i < |queue| - 1 { assert next[i] == queue[i + 1]; }
    }
    forall i, j | 0 <= i < j < |next| ensures next[i].depth <= next[j].depth {
      if j < |queue| - 1 { assert next[i] == queue[i + 1] && next[j] == queue[j + 1]; }
    }
  }

  lemma RecordOrder(edges: seq<Edge>, start: string, limit: nat, order: seq<Visit>, queue: seq<Visit>, pushed: seq<Visit>)
    requires BfsInv(edges, start, limit, order, queue) && queue != [] && queue[0].addr !in Addrs(order)
    requires AllAt(pushed, queue[0].depth + 1)
    ensures NonDecreasing(order + [queue[0]]) && Distinct(order + [queue[0]])
    ensures Shortest(edges, start, order + [queue[0]])
    ensures QueueWindow(order + [queue[0]], queue[1..] + pushed)
  {
    RecordShortest(edges, start, limit, order, queue);
    RecordDistinct(order, queue[0]);
    RecordWindow(order, queue, pushed);
  }

  lemma RecordExpanded(edges: seq<Edge>, start: string, limit: nat, order: seq<Visit>, queue: seq<Visit>, pushed: seq<Visit>)
    requires BfsInv(edges, start, limit, order, queue) && queue != []
    requires Expands(edges, limit, order, queue[0], pushed)
    ensures Expanded(edges, limit, order + [queue[0]], queue[1..] + pushed)
    ensures Within(order + [queue[0]], start, 0) || Within(queue[1..] + pushed, start, 0)
  {
    var head, all, next := queue[0], order + [queue[0]], queue[1..] + pushed;
    WithinAfterRecord(order, queue, pushed, start, 0);
    forall i, u | 0 <= i < |all| && all[i].depth < limit && HasEdge(edges, all[i].addr, u)
      ensures Within(all, u, all[i].depth + 1) || Within(next, u, all[i].depth + 1)
    {
      if i < |order| {
        assert all[i] == order[i];
        WithinAfterRecord(order, queue, pushed, u, order[i].depth + 1);
      } else if u in Addrs(all) {
        var j :| 0 <= j < |all| && all[j].addr == u;
        assert all[j].depth <= head.depth;
      } else {
        WithinMore(queue[1..], pushed, u, head.depth + 1);
      }
    }
  }

  lemma RecordStep(edges: seq<Edge>, start: string, limit: nat, order: seq<Visit>, queue: seq<Visit>, pushed: seq<Visit>)
    requires BfsInv(edges, start, limit, order, queue) && queue != [] && queue[0].addr !in Addrs(order)
    requires Expands(edges, limit, order, queue[0], pushed)
    ensures BfsInv(edges, start, limit, order + [queue[0]], queue[1..] + pushed)
  {
    RecordSound(edges, start, limit, order, queue, pushed);
    RecordOrder(edges, start, limit, order, queue, pushed);
    RecordExpanded(edges, start, limit, order, queue, pushed);
  }

  // ---- the loop -------------------------------------------------------------------

  function ValidEdges(edges: seq<Edge>, at: int, parse: string -> Option<int>): seq<Edge> {
    if edges == [] then []
    else
      var rest := ValidEdges(edges[1..], at, parse);
      if EdgeValidAt(edges[0], at, parse) then [edges[0]] + rest else rest
  }

  /** Exactly the edges whose interval contains the date. */
  lemma {:induction false} ValidEdgesExact(edges: seq<Edge>, at: int, parse: string -> Option<int>, e: Edge)
    ensures e in ValidEdges(edges, at, parse) <==> e in edges && EdgeValidAt(e, at, parse)
  {
    if edges != [] {
      ValidEdgesExact(edges[1..], at, parse, e);
      assert edges == [edges[0]] + edges[1..];
    }
  }

  /** The out-edges of `a`, in order. */
  function OutOf(edges: seq<Edge>, a: string): seq<Edge> {
    if edges == [] then []
    else
      var rest := OutOf(edges[..|edges| - 1], a);
      if edges[|edges| - 1].from == a then rest + [edges[|edges| - 1]] else rest
  }

  lemma {:induction false} OutOfEdges(edges: seq<Edge>, a: string, b: string)
    ensures HasEdge(edges, a, b) <==> exists j :: 0 <= j < |OutOf(edges, a)| && OutOf(edges, a)[j].to == b
  {
    if edges != [] {
      var init, last := edges[..|edges| - 1], edges[|edges| - 1];
      OutOfEdges(init, a, b);
      var rest, all := OutOf(init, a), OutOf(edges, a);
      if HasEdge(edges, a, b) {
        var i :| 0 <= i < |edges| && edges[i].from == a && edges[i].to == b;
        if i < |init| {
          assert init[i] == edges[i];
          var j :| 0 <= j < |rest| && rest[j].to == b;
          assert all[j] == rest[j];
        } else {
          assert all[|all| - 1] == last;
        }
      }
      if j :| 0 <= j < |all| && all[j].to == b {
        if j < |rest| {
          assert rest[j] == all[j];
          var i :| 0 <= i < |init| && init[i].from == a && init[i].to == b;
          assert edges[i] == init[i];
        } else {
          assert edges[|edges| - 1] == all[j];
        }
      }
    }
  }

  method FilterValid(edges: seq<Edge>, at: int, parse: string -> Option<int>) returns (valid: seq<Edge>)
    ensures valid == ValidEdges(edges, at, parse)
  {
    valid := [];
    for i := 0 to |edges|
      invariant ValidEdges(edges, at, parse) == valid + ValidEdges(edges[i..], at, parse)
    {
      if EdgeValidAt(edges[i], at, parse) {
        valid := valid + [edges[i]];
      }
    }
  }

  ghost predicate IsAdjacency(fwd: map<string, seq<Edge>>, valid: seq<Edge>) {
    forall a :: OutOf(valid, a) == if a in fwd then fwd[a] else []
  }

  method ForwardAdjacency(valid: seq<Edge>) returns (fwd: map<string, seq<Edge>>)
    ensures IsAdjacency(fwd, valid)
  {
    fwd := map[];
    for i := 0 to |valid|
      invariant IsAdjacency(fwd, valid[..i])
    {
      var e := valid[i];
      assert valid[..i + 1][..i] == valid[..i];
      var row := if e.from in fwd then fwd[e.from] else [];
      fwd := fwd[e.from := row + [e]];
    }
    assert valid[..|valid|] == valid;
  }

  method PushSuccessors(queue: seq<Visit>, out: seq<Edge>, visited: set<string>, d: int) returns (r: seq<Visit>)
    ensures r == queue + Pushes(out, visited, d)
  {
    r := queue;
    for i := 0 to |out|
      invariant r + Pushes(out[i..], visited, d) == queue + Pushes(out, visited, d)
    {
      if out[i].to !in visited {
        r := r + [Visit(out[i].to, d + 1)];
      }
    }
  }

  ghost function Universe(edges: seq<Edge>, start: string): set<string> {
    {start} + set i | 0 <= i < |edges| :: edges[i].to
  }

  predicate AllIn(vs: seq<Visit>, universe: set<string>) {
    forall i :: 0 <= i < |vs| ==> vs[i].addr in universe
  }

  lemma HeadOfEdge(edges: seq<Edge>, start: string, a: string, b: string)
    requires HasEdge(edges, a, b)
    ensures b in Universe(edges, start)
  {
    var i :| 0 <= i < |edges| && edges[i].from == a && edges[i].to == b;
    assert edges[i].to in Universe(edges, start);
  }

  /** What the push loop adds are successors. */
  lemma PushedHasEdge(edges: seq<Edge>, a: string, visited: set<string>, d: int, i: nat)
    requires i < |Pushes(OutOf(edges, a), visited, d)|
    ensures var v := Pushes(OutOf(edges, a), visited, d)[i]; v.depth == d + 1 && HasEdge(edges, a, v.addr)
  {
    PushesMembers(OutOf(edges, a), visited, d);
    OutOfEdges(edges, a, Pushes(OutOf(edges, a), visited, d)[i].addr);
  }

  lemma SuccessorIsPushed(edges: seq<Edge>, a: string, visited: set<string>, d: int, u: string)
    requires HasEdge(edges, a, u) && u !in visited
    ensures Within(Pushes(OutOf(edges, a), visited, d), u, d + 1)
  {
    PushesMembers(OutOf(edges, a), visited, d);
    OutOfEdges(edges, a, u);
  }

  lemma PushedAreExpansion(edges: seq<Edge>, limit: nat, order: seq<Visit>, head: Visit)
    requires head.depth < limit
    ensures Expands(edges, limit, order, head, Pushes(OutOf(edges, head.addr), Addrs(order + [head]), head.depth))
  {
    var visited := Addrs(order + [head]);
    var pushed := Pushes(OutOf(edges, head.addr), visited, head.depth);
    forall i | 0 <= i < |pushed|
      ensures pushed[i].depth == head.depth + 1 && HasEdge(edges, head.addr, pushed[i].addr)
    {
      PushedHasEdge(edges, head.addr, visited, head.depth, i);
    }
    forall u | HasEdge(edges, head.addr, u) ensures u in visited || Within(pushed, u, head.depth + 1) {
      if u !in visited { SuccessorIsPushed(edges, head.addr, visited, head.depth, u); }
    }
  }

  lemma PushedInUniverse(edges: seq<Edge>, start: string, a: string, visited: set<string>, d: int)
    ensures AllIn(Pushes(OutOf(edges, a), visited, d), Universe(edges, start))
  {
    var pushed := Pushes(OutOf(edges, a), visited, d);
    forall i | 0 <= i < |pushed| ensures pushed[i].addr in Universe(edges, start) {
      PushedHasEdge(edges, a, visited, d, i);
      HeadOfEdge(edges, start, a, pushed[i].addr);
    }
  }

  lemma QueueInUniverse(queue: seq<Visit>, pushed: seq<Visit>, universe: set<string>)
    requires queue != [] && AllIn(queue, universe) && AllIn(pushed, universe)
    ensures AllIn(queue[1..] + pushed, universe)
  {
  }

  /** What `traverse_at` promises: exactly the addresses within `depth` hops along edges valid
      at the date, each once, at its shortest hop count, nearest first. */
  ghost predicate IsTraversal(edges: seq<Edge>, start: string, depth: int, order: seq<Visit>) {
    && Distinct(order) && NonDecreasing(order)
    && (forall a :: a in Addrs(order) <==> a == start || exists k: nat :: k <= depth && Hops(edges, start, k, a))
    && (forall i :: 0 <= i < |order| ==> order[i].depth >= 0 && Hops(edges, start, order[i].depth, order[i].addr))
    && Shortest(edges, start, order)
  }

  lemma FinishedIsTraversal(edges: seq<Edge>, start: string, depth: int, limit: nat, order: seq<Visit>)
    requires limit == if depth < 0 then 0 else depth
    requires BfsInv(edges, start, limit, order, [])
    ensures IsTraversal(edges, start, depth, order)
  {
    NoHops(edges, start);
    forall a
      ensures a in Addrs(order) <==> a == start || exists k: nat :: k <= depth && Hops(edges, start, k, a)
    {
      if a in Addrs(order) {
        var i :| 0 <= i < |order| && order[i].addr == a;
        assert Hops(edges, start, order[i].depth, a);
        if depth < 0 { assert order[i].depth == 0; }
      }
      if a == start {
        Frontier(edges, start, limit, order, [], 0, a);
      } else if k: nat :| k <= depth && Hops(edges, start, k, a) {
        Frontier(edges, start, limit, order, [], k, a);
      }
    }
  }

  lemma StartInv(edges: seq<Edge>, start: string, limit: nat)
    ensures BfsInv(edges, start, limit, [], [Visit(start, 0)])
  {
    NoHops(edges, start);
    var queue := [Visit(start, 0)];
    assert queue[0].addr == start && queue[0].depth == 0;
  }

  /** A head at the depth limit is recorded and not expanded. */
  lemma LeafStep(edges: seq<Edge>, start: string, limit: nat, order: seq<Visit>, queue: seq<Visit>)
    requires BfsInv(edges, start, limit, order, queue) && queue != [] && queue[0].addr !in Addrs(order)
    requires queue[0].depth >= limit
    ensures BfsInv(edges, start, limit, order + [queue[0]], queue[1..])
  {
    RecordStep(edges, start, limit, order, queue, []);
    assert queue[1..] + [] == queue[1..];
  }

  /** A nearer head is recorded and its unvisited successors are queued. */
  lemma PushStep(edges: seq<Edge>, start: string, limit: nat, order: seq<Visit>, queue: seq<Visit>, visited: set<string>)
    requires BfsInv(edges, start, limit, order, queue) && queue != [] && queue[0].addr !in Addrs(order)
    requires queue[0].depth < limit && visited == Addrs(order + [queue[0]])
    ensures var pushed := Pushes(OutOf(edges, queue[0].addr), visited, queue[0].depth);
      BfsInv(edges, start, limit, order + [queue[0]], queue[1..] + pushed)
  {
    PushedAreExpansion(edges, limit, order, queue[0]);
    RecordStep(edges, start, limit, order, queue, Pushes(OutOf(edges, queue[0].addr), visited, queue[0].depth));
  }

  /** The rest of the queue after its head was recorded. */
  function NextQueue(edges: seq<Edge>, queue: seq<Visit>, visited: set<string>, depth: int): seq<Visit>
    requires queue != []
  {
    if queue[0].depth >= depth then queue[1..]
    else queue[1..] + Pushes(OutOf(edges, queue[0].addr), visited, queue[0].depth)
  }

  lemma HeadIsDeep(edges: seq<Edge>, start: string, limit: nat, order: seq<Visit>, queue: seq<Visit>)
    requires BfsInv(edges, start, limit, order, queue) && queue != []
    ensures 0 <= queue[0].depth <= limit
  {
  }

  lemma VisitStep(edges: seq<Edge>, start: string, depth: int, limit: nat, order: seq<Visit>, queue: seq<Visit>,
                  visited: set<string>)
    requires limit == if depth < 0 then 0 else depth
    requires BfsInv(edges, start, limit, order, queue) && queue != [] && queue[0].addr !in Addrs(order)
    requires visited == Addrs(order + [queue[0]])
    ensures BfsInv(edges, start, limit, order + [queue[0]], NextQueue(edges, queue, visited, depth))
  {
    HeadIsDeep(edges, start, limit, order, queue);
    if queue[0].depth >= depth {
      LeafStep(edges, start, limit, order, queue);
    } else {
      PushStep(edges, start, limit, order, queue, visited);
    }
  }

  lemma NextInUniverse(edges: seq<Edge>, start: string, queue: seq<Visit>, visited: set<string>, depth: int)
    requires queue != [] && AllIn(queue, Universe(edges, start))
    ensures AllIn(NextQueue(edges, queue, visited, depth), Universe(edges, start))
  {
    PushedInUniverse(edges, start, queue[0].addr, visited, queue[0].depth);
    QueueInUniverse(queue, Pushes(OutOf(edges, queue[0].addr), visited, queue[0].depth), Universe(edges, start));
  }

  /** The tail of the loop body, for a head just recorded. */
  method Expand(ghost valid: seq<Edge>, fwd: map<string, seq<Edge>>, queue: seq<Visit>, visited: set<string>, depth: int)
    returns (next: seq<Visit>)
    requires queue != [] && IsAdjacency(fwd, valid)
    ensures next == NextQueue(valid, queue, visited, depth)
  {
    var head := queue[0];
    next := queue[1..];
    if head.depth < depth {
      next := PushSuccessors(next, if head.addr in fwd then fwd[head.addr] else [], visited, head.depth);
    }
  }

  /** What the walk reports of an address: the node file it resolves to, and the name in that
      file, or the address itself. */
  datatype Reached = Reached(addr: string, depth: int, title: string, node: Option<string>)

  /** The file `member_node_path` finds for an address: that of its first member. */
  function NodeOf(members: seq<Member>, addr: string): Option<string> {
    if members == [] then None
    else if members[0].addr == Some(addr) then
      if HasFile(members[0]) then Some(NodePath(members[0].file.value)) else None
    else NodeOf(members[1..], addr)
  }

  /** `nameOf` is the name field of a node file, if the file is there and has one. */
  function Report(chain: Chain, v: Visit, nameOf: string -> Option<string>): Reached {
    var path := NodeOf(chain.members, v.addr);
    Reached(v.addr, v.depth,
            if path.Some? && nameOf(path.value).Some? then nameOf(path.value).value else v.addr,
            if path.Some? then Some(BaseName(path.value)) else None)
  }

  function Visits(reached: seq<Reached>): (vs: seq<Visit>)
    ensures |vs| == |reached| && forall i :: 0 <= i < |vs| ==> vs[i] == Visit(reached[i].addr, reached[i].depth)
  {
    seq(|reached|, i requires 0 <= i < |reached| => Visit(reached[i].addr, reached[i].depth))
  }

  ghost predicate Reports(chain: Chain, order: seq<Visit>, reached: seq<Reached>, nameOf: string -> Option<string>) {
    |reached| == |order| && forall i :: 0 <= i < |reached| ==> reached[i] == Report(chain, order[i], nameOf)
  }

  lemma ReportedVisits(chain: Chain, order: seq<Visit>, reached: seq<Reached>, nameOf: string -> Option<string>)
    requires Reports(chain, order, reached, nameOf)
    ensures Visits(reached) == order
  {
  }

  lemma ReportNext(chain: Chain, order: seq<Visit>, reached: seq<Reached>, v: Visit, nameOf: string -> Option<string>)
    requires Reports(chain, order, reached, nameOf)
    ensures Reports(chain, order + [v], reached + [Report(chain, v, nameOf)], nameOf)
  {
  }

  method TraverseAt(chain: Chain, start: string, at: int, depth: int, parse: string -> Option<int>,
                    nameOf: string -> Option<string>) returns (reached: seq<Reached>)
    ensures IsTraversal(ValidEdges(chain.edges, at, parse), start, depth, Visits(reached))
    ensures Reports(chain, Visits(reached), reached, nameOf)
  {
    var valid := FilterValid(chain.edges, at, parse);
    var fwd := ForwardAdjacency(valid);
    ghost var limit: nat := if depth < 0 then 0 else depth;
    ghost var universe := Universe(valid, start);
    var visited: set<string> := {};
    ghost var order: seq<Visit> := [];
    reached := [];
    var queue := [Visit(start, 0)];
    StartInv(valid, start, limit);
    while queue != []
      invariant BfsInv(valid, start, limit, order, queue)
      invariant Reports(chain, order, reached, nameOf)
      invariant visited == Addrs(order) && visited <= universe
      invariant AllIn(queue, universe)
      decreases universe - visited, |queue|
    {
      var head := queue[0];
      if head.addr in visited {
        SkipStep(valid, start, limit, order, queue);
        queue := queue[1..];
        continue;
      }
      visited := visited + {head.addr};
      RecordedAddrs(order, head);
      VisitStep(valid, start, depth, limit, order, queue, visited);
      NextInUniverse(valid, start, queue, visited, depth);
      ReportNext(chain, order, reached, head, nameOf);
      reached := reached + [Report(chain, head, nameOf)];
      queue := Expand(valid, fwd, queue, visited, depth);
      order := order + [head];
    }
    FinishedIsTraversal(valid, start, depth, limit, order);
    ReportedVisits(chain, order, reached, nameOf);
  }

  lemma RecordedAddrs(order: seq<Visit>, head: Visit)
    ensures Addrs(order + [head]) == Addrs(order) + {head.addr}
  {
    forall a | a in Addrs(order) + {head.addr} ensures a in Addrs(order + [head]) { RecordedAddr(order, head, a); }
  }

  lemma RecordedAddr(order: seq<Visit>, head: Visit, a: string)
    requires a == head.addr || a in Addrs(order)
    ensures a in Addrs(order + [head])
  {
    var all := order + [head];
    if a == head.addr {
      assert all[|order|].addr == a;
    } else {
      var i :| 0 <= i < |order| && order[i].addr == a;
      assert all[i].addr == a;
    }
  }
}
