/** The store of chain manifests and the operations that change it (samia/core/chain.py). */
module ChainStore {
  import opened Options
  import opened ChainData

  datatype Outcome<T> = Done(value: T) | ChainNotFound | NotAMember

  type Manifests = map<string, Chain>

  ghost predicate AllIntact(cs: Manifests) {
    forall n :: n in cs ==> Intact(cs[n])
  }

  function StrippedAll(cs: Manifests, fname: string): Manifests {
    map n | n in cs :: Stripped(cs[n], fname)
  }

  function MigratedAll(cs: Manifests, dated: (string, string) -> Option<int>, iso: int -> string): Manifests {
    map n | n in cs :: Migrated(cs[n], a => dated(n, a), iso)
  }

  ghost function Changed(before: Manifests, after: Manifests): set<string> {
    set n | n in before && n in after && before[n] != after[n]
  }

  // ---- counting over all chains ---------------------------------------------------

  /** The places in the named chains. */
  ghost function Places(names: set<string>, at: map<string, set<Place>>): set<Place> {
    set n, x | n in names && n in at && x in at[n] :: x
  }

  /** Where the node's entries are, chain by chain. */
  ghost function Entries(cs: Manifests, fname: string): map<string, set<Place>> {
    map n | n in cs :: EntryPlaces(n, cs[n].members, fname)
  }

  /** Where the edges at an address of one of the node's entries are. */
  ghost function Links(cs: Manifests, fname: string): map<string, set<Place>> {
    map n | n in cs :: EdgePlaces(n, cs[n].edges, DeadAddrs(cs[n].members, fname))
  }

  ghost predicate OwnPlaces(at: map<string, set<Place>>) {
    forall n, x :: n in at && x in at[n] ==> x.chain == n
  }

  lemma OneMoreRow(names: set<string>, at: map<string, set<Place>>, n: string)
    requires n in at && n !in names && OwnPlaces(at)
    ensures |Places(names + {n}, at)| == |Places(names, at)| + |at[n]|
  {
    assert Places(names + {n}, at) == Places(names, at) + at[n];
    forall x | x in at[n] ensures x !in Places(names, at) { assert x.chain == n; }
  }

  lemma OneMoreChain(names: set<string>, cs: Manifests, fname: string, n: string)
    requires n in cs && n !in names
    ensures |Places(names + {n}, Entries(cs, fname))|
         == |Places(names, Entries(cs, fname))| + |EntryPlaces(n, cs[n].members, fname)|
    ensures |Places(names + {n}, Links(cs, fname))|
         == |Places(names, Links(cs, fname))| + |EdgePlaces(n, cs[n].edges, DeadAddrs(cs[n].members, fname))|
  {
    OneMoreRow(names, Entries(cs, fname), n);
    OneMoreRow(names, Links(cs, fname), n);
  }

  /** What sweeping one chain takes away. */
  lemma ChainCounts(n: string, c: Chain, fname: string)
    ensures |EntryPlaces(n, c.members, fname)| == |c.members| - |KeptMembers(c.members, fname)|
    ensures |EdgePlaces(n, c.edges, DeadAddrs(c.members, fname))|
         == |c.edges| - |KeptEdges(c.edges, DeadAddrs(c.members, fname))|
  {
    EntriesRemoved(n, c.members, fname);
    EdgesRemoved(n, c.edges, DeadAddrs(c.members, fname));
  }

  lemma UntouchedCounts(n: string, c: Chain, fname: string)
    requires forall i :: 0 <= i < |c.members| ==> !IsEntryOf(c.members[i], fname)
    ensures Stripped(c, fname) == c
    ensures |EntryPlaces(n, c.members, fname)| == 0 && |EdgePlaces(n, c.edges, DeadAddrs(c.members, fname))| == 0
  {
    assert EntryPlaces(n, c.members, fname) == {};
    assert DeadAddrs(c.members, fname) == {};
    assert EdgePlaces(n, c.edges, {}) == {};
  }

  lemma TouchedCounts(n: string, c: Chain, fname: string)
    requires |KeptMembers(c.members, fname)| < |c.members|
    ensures var d := Stripped(c, fname);
      && d == Chain(KeptMembers(c.members, fname), KeptEdges(c.edges, DeadAddrs(c.members, fname))) && d != c
      && |EntryPlaces(n, c.members, fname)| == |c.members| - |d.members|
      && |EdgePlaces(n, c.edges, DeadAddrs(c.members, fname))| == |c.edges| - |d.edges|
  {
    ChainCounts(n, c, fname);
    if forall i :: 0 <= i < |c.members| ==> !IsEntryOf(c.members[i], fname) { UntouchedCounts(n, c, fname); }
  }

  /** Where the strip is once it has visited `done`. */
  ghost predicate StrippedTo(done: set<string>, before: Manifests, fname: string, now: Manifests) {
    && done <= now.Keys == before.Keys
    && forall n :: n in now ==> now[n] == if n in done then Stripped(before[n], fname) else before[n]
  }

  ghost predicate CountedTo(done: set<string>, before: Manifests, fname: string, members: int, edges: int) {
    members == |Places(done, Entries(before, fname))| && edges == |Places(done, Links(before, fname))|
  }

  lemma StripNext(done: set<string>, before: Manifests, fname: string, now: Manifests, members: int, edges: int, n: string)
    requires StrippedTo(done, before, fname, now) && CountedTo(done, before, fname, members, edges)
    requires n in now && n !in done
    ensures StrippedTo(done + {n}, before, fname, now[n := Stripped(now[n], fname)])
    ensures CountedTo(done + {n}, before, fname, members + |EntryPlaces(n, now[n].members, fname)|,
                      edges + |EdgePlaces(n, now[n].edges, DeadAddrs(now[n].members, fname))|)
    ensures now[n] == before[n]
  {
    OneMoreChain(done, before, fname, n);
  }

  lemma ChangedNext(before: Manifests, now: Manifests, n: string, d: Chain)
    requires n in now && n in before && now[n] == before[n]
    ensures |Changed(before, now[n := d])| == |Changed(before, now)| + if d != now[n] then 1 else 0
  {
    assert Changed(before, now[n := d]) == Changed(before, now) + if d != now[n] then {n} else {};
  }

  lemma StripStarts(before: Manifests, fname: string)
    ensures StrippedTo({}, before, fname, before) && CountedTo({}, before, fname, 0, 0) && |Changed(before, before)| == 0
  {
    assert Places({}, Entries(before, fname)) == {} && Places({}, Links(before, fname)) == {};
    assert Changed(before, before) == {};
  }

  lemma StripEnds(done: set<string>, before: Manifests, fname: string, now: Manifests, members: int, edges: int)
    requires StrippedTo(done, before, fname, now) && CountedTo(done, before, fname, members, edges) && before.Keys <= done
    ensures now == StrippedAll(before, fname)
    ensures members == |Places(before.Keys, Entries(before, fname))| && edges == |Places(before.Keys, Links(before, fname))|
  {
    assert done == before.Keys;
  }

  class Store {
    var chains: Manifests

    constructor ()
      ensures chains == map[]
    {
      chains := map[];
    }

    /** `strip_member`: drop the node's entries and their edges from every chain that has any;
        the results count the chains that were rewritten, the entries and the edges. */
    method StripMember(node: string) returns (touched: nat, membersRemoved: int, edgesRemoved: int)
      modifies this
      ensures chains == StrippedAll(old(chains), FileName(node))
      ensures touched == |Changed(old(chains), chains)|
      ensures membersRemoved == |Places(old(chains).Keys, Entries(old(chains), FileName(node)))|
      ensures edgesRemoved == |Places(old(chains).Keys, Links(old(chains), FileName(node)))|
    {
      var fname := FileName(node);
      var left := chains.Keys;
      ghost var before, done: set<string> := chains, {};
      touched, membersRemoved, edgesRemoved := 0, 0, 0;
      StripStarts(before, fname);
      while left != {}
        invariant StrippedTo(done, before, fname, chains) && CountedTo(done, before, fname, membersRemoved, edgesRemoved)
        invariant touched == |Changed(before, chains)|
        invariant left <= before.Keys && done == before.Keys - left
        decreases left
      {
        var name :| name in left;
        StripNext(done, before, fname, chains, membersRemoved, edgesRemoved, name);
        ChangedNext(before, chains, name, Stripped(chains[name], fname));
        var rewritten, entries, links := StripChain(name, fname);
        if rewritten { touched := touched + 1; }
        membersRemoved, edgesRemoved := membersRemoved + entries, edgesRemoved + links;
        left, done := left - {name}, done + {name};
      }
      StripEnds(done, before, fname, chains, membersRemoved, edgesRemoved);
    }

    /** The body of the loop: one chain, saved only when it had an entry of the node. */
    method StripChain(name: string, fname: string) returns (rewritten: bool, entries: int, links: int)
      requires name in chains
      modifies this
      ensures var c := old(chains)[name];
        && chains == old(chains)[name := Stripped(c, fname)]
        && rewritten == (Stripped(c, fname) != c)
        && entries == |EntryPlaces(name, c.members, fname)|
        && links == |EdgePlaces(name, c.edges, DeadAddrs(c.members, fname))|
    {
      var chain := chains[name];
      var kept, dead, removed := SweepMembers(chain.members, fname);
      rewritten, entries, links := removed != 0, removed, 0;
      if !rewritten {
        UntouchedCounts(name, chain, fname);
        assert chains == chains[name := chain];
      } else {
        var keptEdges := SweepEdges(chain.edges, dead);
        TouchedCounts(name, chain, fname);
        chains := chains[name := Chain(kept, keptEdges)];
        links := |chain.edges| - |keptEdges|;
      }
    }

    /** `add_edge` */
    method AddEdge(name: string, edge: Edge) returns (r: Outcome<Edge>)
      modifies this
      ensures name !in old(chains) ==> r.ChainNotFound?
      ensures name in old(chains) && !EndsAreMembers(old(chains)[name], edge) ==> r.NotAMember?
      ensures r.Done? ==> r.value == edge && name in old(chains) && EndsAreMembers(old(chains)[name], edge)
      ensures chains == Added(old(chains), name, edge)
    {
      if name !in chains { return ChainNotFound; }
      var chain := chains[name];
      var addrs := MemberAddrs(chain.members);
      if edge.from !in addrs || edge.to !in addrs { return NotAMember; }
      chains := chains[name := chain.(edges := chain.edges + [edge])];
      r := Done(edge);
    }

    /** `invalidate_edge` */
    method InvalidateEdge(name: string, frm: string, to: string, on: string, wanted: Option<string>)
      returns (r: Outcome<nat>)
      modifies this
      ensures name !in old(chains) ==> r.ChainNotFound? && chains == old(chains)
      ensures name in old(chains) ==>
                var c := old(chains)[name];
                && r == Done(OpenMatches(c.edges, frm, to, wanted))
                && chains == old(chains)[name := c.(edges := Closed(c.edges, frm, to, on, wanted))]
    {
      if name !in chains { return ChainNotFound; }
      var chain := chains[name];
      var edges, closed := CloseEdges(chain.edges, frm, to, on, wanted);
      chains := chains[name := chain.(edges := edges)];
      r := Done(closed);
    }

    /** `set_edge`: amend the latest matching edge, or add one when there is none. */
    method SetEdge(name: string, frm: string, to: string, validFrom: Option<string>, validTo: Option<string>,
                   newLabel: Option<string>, confidence: Option<real>) returns (r: Outcome<Edge>)
      modifies this
      ensures name !in old(chains) ==> r.ChainNotFound?
      ensures chains == SetIn(old(chains), name, frm, to, validFrom, validTo, newLabel, confidence)
    {
      if name !in chains { return ChainNotFound; }
      var chain := chains[name];
      var i := LatestMatch(chain.edges, frm, to, newLabel);
      if i < 0 {
        r := AddEdge(name, FreshEdge(frm, to, validFrom, validTo, newLabel, confidence));
        return;
      }
      var target := Amended(chain.edges[i], validFrom, validTo, newLabel, confidence);
      chains := chains[name := chain.(edges := chain.edges[i := target])];
      r := Done(target);
    }

    /** `migrate_linear_edges`; `dated` reads a member node's valid_from. */
    method MigrateLinearEdges(dated: (string, string) -> Option<int>, iso: int -> string)
      modifies this
      ensures chains == MigratedAll(old(chains), dated, iso)
    {
      var left := chains.Keys;
      while left != {}
        invariant left <= chains.Keys == old(chains).Keys
        invariant forall n :: n in left ==> chains[n] == old(chains)[n]
        invariant forall n :: n in chains && n !in left ==> chains[n] == Migrated(old(chains)[n], a => dated(n, a), iso)
        decreases left
      {
        var name :| name in left;
        left := left - {name};
        var chain := chains[name];
        if chain.edges != [] { continue; }
        var dates := a => dated(name, a);
        var edges := Neighbours(MemberAddrs(chain.members), dates, iso);
        chains := chains[name := chain.(edges := edges)];
      }
    }
  }

  // ---- the loops over one chain ---------------------------------------------------

  method SweepMembers(members: seq<Member>, fname: string) returns (kept: seq<Member>, dead: set<string>, removed: nat)
    ensures kept == KeptMembers(members, fname) && dead == DeadAddrs(members, fname)
    ensures removed == |members| - |kept|
    ensures removed == 0 <==> forall i :: 0 <= i < |members| ==> !IsEntryOf(members[i], fname)
  {
    kept, dead, removed := [], {}, 0;
    for i := 0 to |members|
      invariant kept == KeptMembers(members[..i], fname) && dead == DeadAddrs(members[..i], fname)
      invariant removed == i - |kept|
      invariant removed == 0 <==> forall j :: 0 <= j < i ==> !IsEntryOf(members[j], fname)
    {
      assert members[..i + 1][..i] == members[..i];
      DeadAddrsStep(members, i, fname);
      if IsEntryOf(members[i], fname) {
        if HasAddr(members[i]) { dead := dead + {members[i].addr.value}; }
        removed := removed + 1;
      } else {
        kept := kept + [members[i]];
      }
    }
    assert members[..|members|] == members;
  }

  lemma DeadAddrsStep(members: seq<Member>, i: nat, fname: string)
    requires i < |members|
    ensures DeadAddrs(members[..i + 1], fname) == DeadAddrs(members[..i], fname) +
              if IsEntryOf(members[i], fname) && HasAddr(members[i]) then {members[i].addr.value} else {}
  {
    var a, b := members[..i], members[..i + 1];
    forall x
      ensures x in DeadAddrs(b, fname) <==>
              x in DeadAddrs(a, fname) || (IsEntryOf(members[i], fname) && HasAddr(members[i]) && members[i].addr.value == x)
    {
      if x in DeadAddrs(a, fname) {
        var j :| 0 <= j < |a| && IsEntryOf(a[j], fname) && HasAddr(a[j]) && a[j].addr.value == x;
        assert b[j] == a[j];
      }
      assert b[i] == members[i];
      if x in DeadAddrs(b, fname) {
        var j :| 0 <= j < |b| && IsEntryOf(b[j], fname) && HasAddr(b[j]) && b[j].addr.value == x;
        if j < i { assert a[j] == b[j]; }
      }
    }
  }

  method SweepEdges(edges: seq<Edge>, dead: set<string>) returns (kept: seq<Edge>)
    ensures kept == KeptEdges(edges, dead)
    ensures |kept| <= |edges|
  {
    kept := [];
    for i := 0 to |edges|
      invariant kept == KeptEdges(edges[..i], dead) && |kept| <= i
    {
      assert edges[..i + 1][..i] == edges[..i];
      if edges[i].from !in dead && edges[i].to !in dead {
        kept := kept + [edges[i]];
      }
    }
    assert edges[..|edges|] == edges;
  }

  method CloseEdges(given: seq<Edge>, frm: string, to: string, on: string, wanted: Option<string>)
    returns (edges: seq<Edge>, closed: nat)
    ensures edges == Closed(given, frm, to, on, wanted)
    ensures closed == OpenMatches(given, frm, to, wanted)
  {
    edges, closed := given, 0;
    for i := 0 to |given|
      invariant |edges| == |given| && edges[i..] == given[i..]
      invariant edges[..i] == Closed(given, frm, to, on, wanted)[..i]
      invariant closed == OpenMatches(given[..i], frm, to, wanted)
    {
      assert given[..i + 1][..i] == given[..i];
      assert edges[i] == given[i] by { assert edges[i..][0] == given[i..][0]; }
      if Matches(edges[i], frm, to, wanted) && IsOpen(edges[i]) {
        edges := edges[i := edges[i].(validTo := Some(on))];
        closed := closed + 1;
      }
    }
    assert given[..|given|] == given;
    assert edges[..|given|] == edges;
  }

  method Neighbours(addrs: seq<string>, dated: string -> Option<int>, iso: int -> string) returns (edges: seq<Edge>)
    ensures edges == LinearEdges(addrs, dated, iso)
  {
    edges := [];
    if |addrs| < 2 { return; }
    for i := 1 to |addrs|
      invariant edges == LinearEdges(addrs[..i], dated, iso)
    {
      assert addrs[..i + 1][..i] == addrs[..i];
      edges := edges + [LinearEdge(addrs[i - 1], addrs[i], dated, iso)];
    }
    assert addrs[..|addrs|] == addrs;
  }

  // ---- the operations on values, and what every run of them keeps ------------------

  predicate EndsAreMembers(c: Chain, edge: Edge) {
    edge.from in MemberAddrs(c.members) && edge.to in MemberAddrs(c.members)
  }

  function Added(cs: Manifests, name: string, edge: Edge): Manifests {
    if name in cs && EndsAreMembers(cs[name], edge)
    then cs[name := cs[name].(edges := cs[name].edges + [edge])] else cs
  }

  function FreshEdge(frm: string, to: string, validFrom: Option<string>, validTo: Option<string>,
                     newLabel: Option<string>, confidence: Option<real>): Edge {
    Edge(frm, to, validFrom, validTo, if newLabel.Some? && newLabel.value != "" then newLabel else Some("follows"),
         if confidence.Some? then confidence.value else 1.0)
  }

  function SetIn(cs: Manifests, name: string, frm: string, to: string, validFrom: Option<string>,
                 validTo: Option<string>, newLabel: Option<string>, confidence: Option<real>): Manifests {
    if name !in cs then cs
    else
      var c := cs[name];
      var i := LatestMatch(c.edges, frm, to, newLabel);
      if i < 0 then Added(cs, name, FreshEdge(frm, to, validFrom, validTo, newLabel, confidence))
      else cs[name := c.(edges := c.edges[i := Amended(c.edges[i], validFrom, validTo, newLabel, confidence)])]
  }

  datatype Op =
    | Strip(node: string)
    | Add(name: string, edge: Edge)
    | Invalidate(name: string, frm: string, to: string, on: string, wanted: Option<string>)
    | Set(name: string, frm: string, to: string, validFrom: Option<string>, validTo: Option<string>,
          newLabel: Option<string>, confidence: Option<real>)
    | Migrate(dated: (string, string) -> Option<int>, iso: int -> string)

  ghost function Apply(cs: Manifests, op: Op): Manifests {
    match op
    case Strip(node) => StrippedAll(cs, FileName(node))
    case Add(name, edge) => Added(cs, name, edge)
    case Invalidate(name, frm, to, on, wanted) =>
      if name !in cs then cs else cs[name := cs[name].(edges := Closed(cs[name].edges, frm, to, on, wanted))]
    case Set(name, frm, to, vf, vt, newLabel, confidence) => SetIn(cs, name, frm, to, vf, vt, newLabel, confidence)
    case Migrate(dated, iso) => MigratedAll(cs, dated, iso)
  }

  ghost function ApplyAll(cs: Manifests, ops: seq<Op>): Manifests {
    if ops == [] then cs else Apply(ApplyAll(cs, ops[..|ops| - 1]), ops[|ops| - 1])
  }

  lemma AddedKeepsIntact(cs: Manifests, name: string, edge: Edge)
    requires AllIntact(cs)
    ensures AllIntact(Added(cs, name, edge))
  {
    if name in cs && EndsAreMembers(cs[name], edge) {
      MemberAddrsExact(cs[name].members, edge.from);
      MemberAddrsExact(cs[name].members, edge.to);
      assert Intact(cs[name]);
      assert Intact(cs[name].(edges := cs[name].edges + [edge]));
    }
  }

  lemma ApplyKeepsIntact(cs: Manifests, op: Op)
    requires AllIntact(cs)
    ensures AllIntact(Apply(cs, op))
  {
    match op
    case Strip(node) =>
      forall n | n in cs ensures Intact(Stripped(cs[n], FileName(node))) { StripKeepsIntact(cs[n], FileName(node)); }
    case Add(name, edge) => AddedKeepsIntact(cs, name, edge);
    case Invalidate(name, frm, to, on, wanted) =>
      if name in cs { assert Intact(cs[name]); }
    case Set(name, frm, to, vf, vt, newLabel, confidence) =>
      if name in cs {
        assert Intact(cs[name]);
        AddedKeepsIntact(cs, name, FreshEdge(frm, to, vf, vt, newLabel, confidence));
      }
    case Migrate(dated, iso) =>
      forall n | n in cs ensures Intact(Migrated(cs[n], a => dated(n, a), iso)) {
        MigrationKeepsIntact(cs[n], a => dated(n, a), iso);
      }
  }

  /** In every run of chain operations each edge runs between member addresses. */
  lemma {:induction false} RunKeepsIntact(cs: Manifests, ops: seq<Op>)
    requires AllIntact(cs)
    ensures AllIntact(ApplyAll(cs, ops))
  {
    if ops != [] {
      RunKeepsIntact(cs, ops[..|ops| - 1]);
      ApplyKeepsIntact(ApplyAll(cs, ops[..|ops| - 1]), ops[|ops| - 1]);
    }
  }

  /** Stripping a node twice is stripping it once. */
  lemma StripAllIdempotent(cs: Manifests, fname: string)
    ensures StrippedAll(StrippedAll(cs, fname), fname) == StrippedAll(cs, fname)
  {
    forall n | n in cs ensures Stripped(Stripped(cs[n], fname), fname) == Stripped(cs[n], fname) {
      StripIdempotent(cs[n], fname);
    }
  }
}
