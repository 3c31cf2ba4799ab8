/** What the chain operations of samia/core/chain.py do to a manifest, edge by edge, and what a
    walk reports of an address. */
module ChainLaws {
  import opened ChainData
  import opened ChainStore
  import opened FileTexts
  import opened Filters
  import opened IntervalLaws
  import opened Options
  import Traversal

  // ---- members ---------------------------------------------------------------------------------

  ghost predicate IsAddress(c: Chain, a: string) {
    a != "" && exists m :: m in c.members && m.addr == Some(a)
  }

  lemma AddressOfMember(c: Chain, a: string)
    ensures a in MemberAddrs(c.members) <==> IsAddress(c, a)
  {
    MemberAddrsExact(c.members, a);
    if a in AddrSet(c.members) {
      var i :| 0 <= i < |c.members| && HasAddr(c.members[i]) && c.members[i].addr.value == a;
      assert c.members[i] in c.members;
    }
    if IsAddress(c, a) {
      var m :| m in c.members && m.addr == Some(a);
      var i :| 0 <= i < |c.members| && c.members[i] == m;
      assert HasAddr(c.members[i]);
    }
  }

  ghost predicate AddressesOf(addrs: seq<string>, members: seq<Member>) {
    |addrs| == |members| && forall i :: 0 <= i < |addrs| ==> members[i].addr == Some(addrs[i])
  }

  /** The addresses are those of the members that have one, in order. */
  lemma {:induction false} AddressesInOrder(members: seq<Member>, has: Member -> bool) returns (kept: seq<Member>)
    requires forall m :: has(m) <==> m.addr.Some? && m.addr.value != ""
    ensures IsFiltered(kept, members, has) && AddressesOf(MemberAddrs(members), kept)
  {
    if members == [] {
      kept := [];
      NothingFiltered(has);
    } else {
      var rest := AddressesInOrder(members[1..], has);
      FilterFirst(rest, members, has);
      kept := if has(members[0]) then [members[0]] + rest else rest;
    }
  }

  // ---- set_edge ----------------------------------------------------------------------------------

  /** An edge between the ends, with the label if one is given. */
  ghost predicate Fits(e: Edge, frm: string, to: string, wanted: Option<string>) {
    e.from == frm && e.to == to && (wanted == None || e.edgeLabel == wanted)
  }

  /** The last edge that fits is at this place. */
  ghost predicate LatestAt(edges: seq<Edge>, i: int, frm: string, to: string, wanted: Option<string>) {
    && 0 <= i < |edges| && Fits(edges[i], frm, to, wanted)
    && forall j :: i < j < |edges| ==> !Fits(edges[j], frm, to, wanted)
  }

  /** The word "null" in any mix of cases. */
  ghost predicate SpellsNull(s: string) {
    |s| == 4 && forall i :: 0 <= i < 4 ==> s[i] == "null"[i] || s[i] == "NULL"[i]
  }

  /** What is given replaces the old, a closing date of "null" clears it, and what is not given stays. */
  ghost predicate Changed(before: Edge, after: Edge, validFrom: Option<string>, validTo: Option<string>,
                          newLabel: Option<string>, confidence: Option<real>) {
    && after.from == before.from && after.to == before.to
    && (validFrom.Some? ==> after.validFrom == validFrom) && (validFrom.None? ==> after.validFrom == before.validFrom)
    && (validTo.Some? ==> after.validTo == if SpellsNull(validTo.value) then None else validTo)
    && (validTo.None? ==> after.validTo == before.validTo)
    && (newLabel.Some? ==> after.edgeLabel == newLabel) && (newLabel.None? ==> after.edgeLabel == before.edgeLabel)
    && (confidence.Some? ==> after.confidence == confidence.value)
    && (confidence.None? ==> after.confidence == before.confidence)
  }

  lemma AmendedExactly(e: Edge, validFrom: Option<string>, validTo: Option<string>, newLabel: Option<string>,
                       confidence: Option<real>)
    ensures Changed(e, Amended(e, validFrom, validTo, newLabel, confidence), validFrom, validTo, newLabel, confidence)
  {
    if validTo.Some? { assert SpellsNull(validTo.value) <==> IsNullWord(validTo.value); }
  }

  /** A new edge with the given fields; without a label it is a "follows" edge, without a confidence
      its confidence is 1. */
  ghost predicate Made(e: Edge, frm: string, to: string, validFrom: Option<string>, validTo: Option<string>,
                       newLabel: Option<string>, confidence: Option<real>) {
    && e.from == frm && e.to == to && e.validFrom == validFrom && e.validTo == validTo
    && (newLabel in {None, Some("")} ==> e.edgeLabel == Some("follows"))
    && (newLabel !in {None, Some("")} ==> e.edgeLabel == newLabel)
    && (confidence.Some? ==> e.confidence == confidence.value)
    && (confidence.None? ==> e.confidence == 1.0)
  }

  /** One manifest got these edges; its members and all other manifests are as before. */
  ghost predicate EdgesSet(cs: Manifests, after: Manifests, name: string, edges: seq<Edge>) {
    name in cs && after == cs[name := Chain(cs[name].members, edges)]
  }

  /** Setting an edge changes the last edge that fits, in its place; without one it adds an edge at
      the end, if both ends are addresses of members; else nothing changes. */
  lemma SetExactly(cs: Manifests, name: string, frm: string, to: string, validFrom: Option<string>, validTo: Option<string>,
                   newLabel: Option<string>, confidence: Option<real>, i: int)
    requires name in cs
    ensures var after := SetIn(cs, name, frm, to, validFrom, validTo, newLabel, confidence);
      var edges := cs[name].edges;
      && (LatestAt(edges, i, frm, to, newLabel) ==>
            exists e :: Changed(edges[i], e, validFrom, validTo, newLabel, confidence)
              && EdgesSet(cs, after, name, edges[i := e]))
      && ((forall j :: 0 <= j < |edges| ==> !Fits(edges[j], frm, to, newLabel)) ==>
            if IsAddress(cs[name], frm) && IsAddress(cs[name], to)
            then exists e :: Made(e, frm, to, validFrom, validTo, newLabel, confidence) && EdgesSet(cs, after, name, edges + [e])
            else after == cs)
  {
    var edges := cs[name].edges;
    var latest := LatestMatch(edges, frm, to, newLabel);
    if LatestAt(edges, i, frm, to, newLabel) {
      assert latest == i;
      AmendedExactly(edges[i], validFrom, validTo, newLabel, confidence);
      var e := Amended(edges[i], validFrom, validTo, newLabel, confidence);
      assert EdgesSet(cs, SetIn(cs, name, frm, to, validFrom, validTo, newLabel, confidence), name, edges[i := e]);
    }
    if forall j :: 0 <= j < |edges| ==> !Fits(edges[j], frm, to, newLabel) {
      AddressOfMember(cs[name], frm);
      AddressOfMember(cs[name], to);
      var e := FreshEdge(frm, to, validFrom, validTo, newLabel, confidence);
      assert Made(e, frm, to, validFrom, validTo, newLabel, confidence);
      if IsAddress(cs[name], frm) && IsAddress(cs[name], to) {
        assert EdgesSet(cs, SetIn(cs, name, frm, to, validFrom, validTo, newLabel, confidence), name, edges + [e]);
      }
    }
  }

  // ---- invalidate_edge -----------------------------------------------------------------------------

  lemma CountLast(edges: seq<Edge>, frm: string, to: string, wanted: Option<string>)
    requires edges != []
    ensures OpenMatches(edges, frm, to, wanted)
         == OpenMatches(edges[..|edges| - 1], frm, to, wanted) + if Closes(edges[|edges| - 1], frm, to, wanted) then 1 else 0
  {
  }

  /** The answer of a call is the number of edges it closes. */
  lemma {:induction false} CountExactly(edges: seq<Edge>, frm: string, to: string, wanted: Option<string>, closes: Edge -> bool)
    returns (at: seq<int>)
    requires forall e :: closes(e) <==> Closes(e, frm, to, wanted)
    ensures ArePlaces(at, edges, closes) && OpenMatches(edges, frm, to, wanted) == |at|
  {
    if edges == [] {
      at := [];
    } else {
      var init, last := edges[..|edges| - 1], edges[|edges| - 1];
      var before := CountExactly(init, frm, to, wanted, closes);
      at := OneMorePlace(before, init, closes, last);
      assert init + [last] == edges;
      CountLast(edges, frm, to, wanted);
    }
  }

  // ---- migrate_linear_edges --------------------------------------------------------------------------

  /** The start of an edge is the later of the days of its ends, as far as they are known. */
  ghost predicate StartsAt(start: Option<string>, a: Option<int>, b: Option<int>, iso: int -> string) {
    && (a.None? && b.None? ==> start.None?)
    && (a.Some? && (b.None? || b.value <= a.value) ==> start == Some(iso(a.value)))
    && (b.Some? && (a.None? || a.value <= b.value) ==> start == Some(iso(b.value)))
  }

  /** An open "follows" edge between neighbours. */
  ghost predicate Linear(e: Edge, a: string, b: string, dated: string -> Option<int>, iso: int -> string) {
    && e.from == a && e.to == b && e.validTo == None && e.edgeLabel == Some("follows") && e.confidence == 1.0
    && StartsAt(e.validFrom, dated(a), dated(b), iso)
  }

  /** One such edge between each two neighbours, in order. */
  ghost predicate AllLinear(edges: seq<Edge>, addrs: seq<string>, dated: string -> Option<int>, iso: int -> string) {
    && |edges| == (if addrs == [] then 0 else |addrs| - 1)
    && forall i :: 0 <= i < |edges| ==> Linear(edges[i], addrs[i], addrs[i + 1], dated, iso)
  }

  lemma {:induction false} LinearExactly(addrs: seq<string>, dated: string -> Option<int>, iso: int -> string)
    ensures AllLinear(LinearEdges(addrs, dated, iso), addrs, dated, iso)
  {
    if |addrs| >= 2 {
      var init := addrs[..|addrs| - 1];
      LinearExactly(init, dated, iso);
      var edges := LinearEdges(init, dated, iso);
      forall i | 0 <= i < |edges| ensures Linear(edges[i], addrs[i], addrs[i + 1], dated, iso) {
        assert Linear(edges[i], init[i], init[i + 1], dated, iso);
      }
    }
  }

  /** A chain without edges gets the linear ones; one with edges is left alone. */
  lemma MigratedExactly(c: Chain, dated: string -> Option<int>, iso: int -> string)
    ensures c.edges != [] ==> Migrated(c, dated, iso) == c
    ensures c.edges == [] ==>
              Migrated(c, dated, iso).members == c.members
              && AllLinear(Migrated(c, dated, iso).edges, MemberAddrs(c.members), dated, iso)
  {
    LinearExactly(MemberAddrs(c.members), dated, iso);
  }

  // ---- the file of a member and the report of a walk -------------------------------------------------

  /** The path without a leading "nodes/". */
  ghost predicate Inside(file: string, rel: string) {
    if "nodes/" <= file then file == "nodes/" + rel else file == rel
  }

  /** The path under nodes/ that a member's file stands for: ".md" is added to a name without extension. */
  ghost predicate FileUnderNodes(path: string, file: string) {
    exists rel, base :: IsUnder(path, file, rel, base)
  }

  ghost predicate IsUnder(path: string, file: string, rel: string, base: string) {
    Inside(file, rel) && IsPathTo(file, base) && path == if Extended(base) then rel else rel + ".md"
  }

  lemma NodePathExactly(file: string)
    ensures FileUnderNodes(NodePath(file), file)
  {
    var base, rel := BaseName(file), UnderNodes(file);
    BaseNameExactly(file, base);
    ExtendedExactly(base);
    InsideExactly(file);
    assert IsUnder(NodePath(file), file, rel, base);
  }

  lemma InsideExactly(file: string)
    ensures Inside(file, UnderNodes(file))
  {
  }

  /** The file of the first member with the address: none without one or without a file there. */
  ghost predicate FileOf(path: Option<string>, members: seq<Member>, addr: string) {
    && (forall i :: FirstWith(members, i, addr) ==> PathOfMember(path, members[i]))
    && ((forall i :: !FirstWith(members, i, addr)) ==> path.None?)
  }

  ghost predicate PathOfMember(path: Option<string>, m: Member) {
    if m.file in {None, Some("")} then path.None? else path.Some? && FileUnderNodes(path.value, m.file.value)
  }

  ghost predicate FirstWith(members: seq<Member>, i: int, addr: string) {
    0 <= i < |members| && members[i].addr == Some(addr) && forall j :: 0 <= j < i ==> members[j].addr != Some(addr)
  }

  lemma {:induction false} NodeOfExactly(members: seq<Member>, addr: string)
    ensures FileOf(Traversal.NodeOf(members, addr), members, addr)
  {
    if members != [] {
      var tail := members[1..];
      NodeOfExactly(tail, addr);
      forall i: int ensures FirstWith(members, i, addr) <==>
        if i == 0 then members[0].addr == Some(addr) else members[0].addr != Some(addr) && FirstWith(tail, i - 1, addr)
      {
        FirstInTail(members, i, addr);
      }
      if members[0].addr == Some(addr) {
        assert FirstWith(members, 0, addr);
        if HasFile(members[0]) { NodePathExactly(members[0].file.value); }
      } else {
        forall i | FirstWith(members, i, addr) ensures PathOfMember(Traversal.NodeOf(members, addr), members[i]) {
          assert FirstWith(tail, i - 1, addr) && tail[i - 1] == members[i];
        }
        if forall i :: !FirstWith(members, i, addr) {
          forall i ensures !FirstWith(tail, i, addr) { assert !FirstWith(members, i + 1, addr); }
        }
      }
    }
  }

  lemma FirstInTail(members: seq<Member>, i: int, addr: string)
    requires members != []
    ensures FirstWith(members, i, addr) <==>
      if i == 0 then members[0].addr == Some(addr) else members[0].addr != Some(addr) && FirstWith(members[1..], i - 1, addr)
  {
    var tail := members[1..];
    if FirstWith(tail, i - 1, addr) {
      forall j | 1 <= j < i ensures members[j].addr != Some(addr) { assert tail[j - 1] == members[j]; }
    }
    if FirstWith(members, i, addr) && i > 0 {
      forall j | 0 <= j < i - 1 ensures tail[j].addr != Some(addr) { assert members[j + 1] == tail[j]; }
    }
  }

  /** A walk reports an address with its hop count, the name of its file, and the name in that file;
      without a file or a name in it, the address itself. */
  lemma ReportExactly(c: Chain, v: Traversal.Visit, nameOf: string -> Option<string>) returns (path: Option<string>)
    ensures FileOf(path, c.members, v.addr)
    ensures var r := Traversal.Report(c, v, nameOf);
      && r.addr == v.addr && r.depth == v.depth
      && (path.None? ==> r.node.None? && r.title == v.addr)
      && (path.Some? ==> r.node.Some? && IsPathTo(path.value, r.node.value))
      && (path.Some? && nameOf(path.value).Some? ==> r.title == nameOf(path.value).value)
      && (path.Some? && nameOf(path.value).None? ==> r.title == v.addr)
  {
    path := Traversal.NodeOf(c.members, v.addr);
    NodeOfExactly(c.members, v.addr);
    if path.Some? { BaseNameExactly(path.value, BaseName(path.value)); }
  }
}
