/** Chain manifests (samia/core/chain.py): members, interval-carrying edges, and the pure
    helpers over them. */
module ChainData {
  import opened Filters
  import opened Options
  import Strings

  datatype Member = Member(addr: Option<string>, file: Option<string>)

  datatype Edge = Edge(from: string, to: string, validFrom: Option<string>, validTo: Option<string>,
                       edgeLabel: Option<string>, confidence: real)

  datatype Chain = Chain(members: seq<Member>, edges: seq<Edge>)

  /** `valid_to` is unset or the word "null". */
  predicate IsOpen(e: Edge) {
    e.validTo.None? || e.validTo.value == "null"
  }

  /** Is the day `at` inside the edge's interval? A missing or unreadable bound is unbounded;
      `parse` is the date parser. */
  predicate EdgeValidAt(e: Edge, at: int, parse: string -> Option<int>) {
    var vf := if e.validFrom.Some? && e.validFrom.value != "" then parse(e.validFrom.value) else None;
    var vt := if IsOpen(e) then None else parse(e.validTo.value);
    (vf.Some? ==> vf.value <= at) && (vt.Some? ==> at <= vt.value)
  }

  /** The addresses of the members that have one, in order. */
  function MemberAddrs(members: seq<Member>): seq<string> {
    if members == [] then []
    else
      var rest := MemberAddrs(members[1..]);
      if members[0].addr.Some? && members[0].addr.value != "" then [members[0].addr.value] + rest else rest
  }

  // ---- membership -----------------------------------------------------------------

  /** The node file a node name stands for. */
  function FileName(node: string): string {
    if Strings.EndsWith(node, ".md") then node else node + ".md"
  }

  /** `f.split("/")[-1]` */
  function BaseName(f: string): string {
    var parts := Strings.Split(f, "/");
    parts[|parts| - 1]
  }

  predicate HasFile(m: Member) {
    m.file.Some? && m.file.value != ""
  }

  /** A member entry of the node file `fname`, as `strip_member` recognises it. */
  predicate IsEntryOf(m: Member, fname: string) {
    HasFile(m) && BaseName(m.file.value) == fname
  }

  predicate HasAddr(m: Member) {
    m.addr.Some? && m.addr.value != ""
  }

  ghost function AddrSet(members: seq<Member>): set<string> {
    set i | 0 <= i < |members| && HasAddr(members[i]) :: members[i].addr.value
  }

  /** Every edge runs between member addresses. */
  ghost predicate Intact(c: Chain) {
    forall i :: 0 <= i < |c.edges| ==> c.edges[i].from in AddrSet(c.members) && c.edges[i].to in AddrSet(c.members)
  }

  lemma {:induction false} MemberAddrsExact(members: seq<Member>, a: string)
    ensures a in MemberAddrs(members) <==> a in AddrSet(members)
  {
    if members != [] {
      var rest := members[1..];
      MemberAddrsExact(rest, a);
      if a in AddrSet(members) {
        var i :| 0 <= i < |members| && HasAddr(members[i]) && members[i].addr.value == a;
        if i > 0 { assert rest[i - 1] == members[i]; }
      }
      if a in AddrSet(rest) {
        var i :| 0 <= i < |rest| && HasAddr(rest[i]) && rest[i].addr.value == a;
        assert members[i + 1] == rest[i];
      }
    }
  }

  // ---- stripping a dead node ------------------------------------------------------

  /** The addresses that go with the entries of `fname`. */
  function DeadAddrs(members: seq<Member>, fname: string): set<string> {
    set i | 0 <= i < |members| && IsEntryOf(members[i], fname) && HasAddr(members[i]) :: members[i].addr.value
  }

  function KeptMembers(members: seq<Member>, fname: string): seq<Member> {
    if members == [] then []
    else
      var rest := KeptMembers(members[..|members| - 1], fname);
      if IsEntryOf(members[|members| - 1], fname) then rest else rest + [members[|members| - 1]]
  }

  function KeptEdges(edges: seq<Edge>, dead: set<string>): seq<Edge> {
    if edges == [] then []
    else
      var last, rest := edges[|edges| - 1], KeptEdges(edges[..|edges| - 1], dead);
      if last.from in dead || last.to in dead then rest else rest + [last]
  }

  /** A chain without entries of `fname` stays as it is; another loses them and every edge at
      one of their addresses. */
  function Stripped(c: Chain, fname: string): Chain {
    if forall i :: 0 <= i < |c.members| ==> !IsEntryOf(c.members[i], fname) then c
    else Chain(KeptMembers(c.members, fname), KeptEdges(c.edges, DeadAddrs(c.members, fname)))
  }

  lemma {:induction false} KeptMembersExact(members: seq<Member>, fname: string, m: Member)
    ensures m in KeptMembers(members, fname) <==> m in members && !IsEntryOf(m, fname)
  {
    if members != [] {
      var init, last := members[..|members| - 1], members[|members| - 1];
      KeptMembersExact(init, fname, m);
      assert members == init + [last];
    }
  }

  lemma {:induction false} KeptEdgesExact(edges: seq<Edge>, dead: set<string>, e: Edge)
    ensures e in KeptEdges(edges, dead) <==> e in edges && e.from !in dead && e.to !in dead
  {
    if edges != [] {
      var init, last := edges[..|edges| - 1], edges[|edges| - 1];
      KeptEdgesExact(init, dead, e);
      assert edges == init + [last];
    }
  }

  /** A position in the member or edge list of a chain. */
  datatype Place = Place(chain: string, position: int)

  /** Where in chain `n` the node's entries are. */
  function EntryPlaces(n: string, members: seq<Member>, fname: string): set<Place> {
    set i | 0 <= i < |members| && IsEntryOf(members[i], fname) :: Place(n, i)
  }

  /** Where in chain `n` the edges at one of the addresses are. */
  function EdgePlaces(n: string, edges: seq<Edge>, dead: set<string>): set<Place> {
    set i | 0 <= i < |edges| && (edges[i].from in dead || edges[i].to in dead) :: Place(n, i)
  }

  lemma {:induction false} EntriesRemoved(n: string, members: seq<Member>, fname: string)
    ensures |members| == |KeptMembers(members, fname)| + |EntryPlaces(n, members, fname)|
  {
    if members != [] {
      var last := |members| - 1;
      EntriesRemoved(n, members[..last], fname);
      assert EntryPlaces(n, members, fname)
          == EntryPlaces(n, members[..last], fname) + if IsEntryOf(members[last], fname) then {Place(n, last)} else {};
    }
  }

  lemma {:induction false} EdgesRemoved(n: string, edges: seq<Edge>, dead: set<string>)
    ensures |edges| == |KeptEdges(edges, dead)| + |EdgePlaces(n, edges, dead)|
  {
    if edges != [] {
      var last := |edges| - 1;
      EdgesRemoved(n, edges[..last], dead);
      assert EdgePlaces(n, edges, dead)
          == EdgePlaces(n, edges[..last], dead)
             + if edges[last].from in dead || edges[last].to in dead then {Place(n, last)} else {};
    }
  }

  /** After the strip nothing of the node is left: no entry, and no edge at an address one of
      its entries had; everything else is still there. */
  lemma StrippedExact(c: Chain, fname: string)
    ensures var d := Stripped(c, fname);
            && (forall m :: m in d.members <==> m in c.members && !IsEntryOf(m, fname))
            && (forall e :: e in d.edges <==> e in c.edges && e.from !in DeadAddrs(c.members, fname)
                                                           && e.to !in DeadAddrs(c.members, fname))
  {
    forall m ensures m in KeptMembers(c.members, fname) <==> m in c.members && !IsEntryOf(m, fname) {
      KeptMembersExact(c.members, fname, m);
    }
    forall e ensures e in KeptEdges(c.edges, DeadAddrs(c.members, fname)) <==>
                     e in c.edges && e.from !in DeadAddrs(c.members, fname) && e.to !in DeadAddrs(c.members, fname) {
      KeptEdgesExact(c.edges, DeadAddrs(c.members, fname), e);
    }
    if forall i :: 0 <= i < |c.members| ==> !IsEntryOf(c.members[i], fname) {
      assert DeadAddrs(c.members, fname) == {};
    }
  }

  lemma {:induction false} KeptMembersOrder(members: seq<Member>, fname: string, keep: Member -> bool)
    requires forall m :: keep(m) <==> !IsEntryOf(m, fname)
    ensures IsFiltered(KeptMembers(members, fname), members, keep)
  {
    if members == [] {
      NothingFiltered(keep);
    } else {
      var init, last := members[..|members| - 1], members[|members| - 1];
      KeptMembersOrder(init, fname, keep);
      FilterLast(KeptMembers(init, fname), members, keep, init);
    }
  }

  lemma {:induction false} KeptEdgesOrder(edges: seq<Edge>, dead: set<string>, keep: Edge -> bool)
    requires forall e :: keep(e) <==> e.from !in dead && e.to !in dead
    ensures IsFiltered(KeptEdges(edges, dead), edges, keep)
  {
    if edges == [] {
      NothingFiltered(keep);
    } else {
      var init, last := edges[..|edges| - 1], edges[|edges| - 1];
      KeptEdgesOrder(init, dead, keep);
      FilterLast(KeptEdges(init, dead), edges, keep, init);
    }
  }

  ghost predicate Mentions(c: Chain, fname: string) {
    exists i :: 0 <= i < |c.members| && IsEntryOf(c.members[i], fname)
  }

  lemma NotMentioned(c: Chain, fname: string, keep: Member -> bool, hold: Edge -> bool)
    requires forall m :: keep(m) <==> !IsEntryOf(m, fname)
    requires forall e :: hold(e) <==> e.from !in DeadAddrs(c.members, fname) && e.to !in DeadAddrs(c.members, fname)
    requires !Mentions(c, fname)
    ensures IsFiltered(c.members, c.members, keep)
    ensures IsFiltered(c.edges, c.edges, hold)
  {
    assert DeadAddrs(c.members, fname) == {};
    AllKept(c.members, keep);
    AllKept(c.edges, hold);
  }

  lemma StrippedParts(c: Chain, fname: string)
    ensures Stripped(c, fname)
         == if Mentions(c, fname) then Chain(KeptMembers(c.members, fname), KeptEdges(c.edges, DeadAddrs(c.members, fname)))
            else c
  {
  }

  /** What the strip keeps stays in its order, repetitions included. */
  lemma StripKeepsOrder(c: Chain, fname: string, keep: Member -> bool, hold: Edge -> bool)
    requires forall m :: keep(m) <==> !IsEntryOf(m, fname)
    requires forall e :: hold(e) <==> e.from !in DeadAddrs(c.members, fname) && e.to !in DeadAddrs(c.members, fname)
    ensures IsFiltered(Stripped(c, fname).members, c.members, keep)
    ensures IsFiltered(Stripped(c, fname).edges, c.edges, hold)
  {
    StrippedParts(c, fname);
    if Mentions(c, fname) {
      KeptMembersOrder(c.members, fname, keep);
      KeptEdgesOrder(c.edges, DeadAddrs(c.members, fname), hold);
    } else {
      NotMentioned(c, fname, keep, hold);
    }
  }

  lemma AddrSurvives(c: Chain, fname: string, a: string)
    requires a in AddrSet(c.members) && a !in DeadAddrs(c.members, fname)
    ensures a in AddrSet(Stripped(c, fname).members)
  {
    StrippedExact(c, fname);
    var i :| 0 <= i < |c.members| && HasAddr(c.members[i]) && c.members[i].addr.value == a;
    var m, d := c.members[i], Stripped(c, fname);
    assert m in d.members;
    var j :| 0 <= j < |d.members| && d.members[j] == m;
  }

  lemma StripKeepsIntact(c: Chain, fname: string)
    requires Intact(c)
    ensures Intact(Stripped(c, fname))
  {
    StrippedExact(c, fname);
    var d := Stripped(c, fname);
    forall i | 0 <= i < |d.edges|
      ensures d.edges[i].from in AddrSet(d.members) && d.edges[i].to in AddrSet(d.members)
    {
      assert d.edges[i] in c.edges;
      AddrSurvives(c, fname, d.edges[i].from);
      AddrSurvives(c, fname, d.edges[i].to);
    }
  }

  /** A second strip changes nothing. */
  lemma StripIdempotent(c: Chain, fname: string)
    ensures Stripped(Stripped(c, fname), fname) == Stripped(c, fname)
  {
    StrippedExact(c, fname);
    var d := Stripped(c, fname);
    forall i | 0 <= i < |d.members| ensures !IsEntryOf(d.members[i], fname) {
      assert d.members[i] in d.members;
    }
  }

  // ---- closing, changing and backfilling edges ------------------------------------

  /** An open edge from `frm` to `to`, with the given label if one is given. */
  predicate Matches(e: Edge, frm: string, to: string, wanted: Option<string>) {
    e.from == frm && e.to == to && (wanted.None? || e.edgeLabel == wanted)
  }

  function Closed(edges: seq<Edge>, frm: string, to: string, on: string, wanted: Option<string>): seq<Edge> {
    seq(|edges|, i requires 0 <= i < |edges| =>
      if Matches(edges[i], frm, to, wanted) && IsOpen(edges[i]) then edges[i].(validTo := Some(on)) else edges[i])
  }

  /** How many edges `invalidate_edge` closes. */
  function OpenMatches(edges: seq<Edge>, frm: string, to: string, wanted: Option<string>): nat {
    if edges == [] then 0
    else
      OpenMatches(edges[..|edges| - 1], frm, to, wanted) +
      if Matches(edges[|edges| - 1], frm, to, wanted) && IsOpen(edges[|edges| - 1]) then 1 else 0
  }

  lemma {:induction false} OpenMatchesZero(edges: seq<Edge>, frm: string, to: string, wanted: Option<string>)
    ensures OpenMatches(edges, frm, to, wanted) == 0 <==>
            forall i :: 0 <= i < |edges| && Matches(edges[i], frm, to, wanted) ==> !IsOpen(edges[i])
  {
    if edges != [] {
      var init := edges[..|edges| - 1];
      OpenMatchesZero(init, frm, to, wanted);
      forall i | 0 <= i < |init| ensures init[i] == edges[i] {}
    }
  }

  /** Closing leaves no open match, unless the closing date is itself the word "null" and
      there was something to close. */
  lemma ClosedExactlyWhen(edges: seq<Edge>, frm: string, to: string, on: string, wanted: Option<string>)
    ensures OpenMatches(Closed(edges, frm, to, on, wanted), frm, to, wanted) == 0 <==>
            on != "null" || OpenMatches(edges, frm, to, wanted) == 0
  {
    var d := Closed(edges, frm, to, on, wanted);
    OpenMatchesZero(edges, frm, to, wanted);
    OpenMatchesZero(d, frm, to, wanted);
    forall i | 0 <= i < |edges|
      ensures Matches(d[i], frm, to, wanted) <==> Matches(edges[i], frm, to, wanted)
      ensures Matches(edges[i], frm, to, wanted) ==> (IsOpen(d[i]) <==> IsOpen(edges[i]) && on == "null")
    {
    }
  }

  /** The index of the last edge `set_edge` looks for, or -1. */
  function LatestMatch(edges: seq<Edge>, frm: string, to: string, wanted: Option<string>): (i: int)
    ensures -1 <= i < |edges|
    ensures i >= 0 ==> Matches(edges[i], frm, to, wanted)
    ensures forall j :: i < j < |edges| ==> !Matches(edges[j], frm, to, wanted)
  {
    if edges == [] then -1
    else if Matches(edges[|edges| - 1], frm, to, wanted) then |edges| - 1
    else LatestMatch(edges[..|edges| - 1], frm, to, wanted)
  }

  /** `valid_to.lower() == "null"` */
  predicate IsNullWord(s: string) {
    && |s| == 4 && s[0] in "nN" && s[1] in "uU" && s[2] in "lL" && s[3] in "lL"
  }

  function Amended(e: Edge, validFrom: Option<string>, validTo: Option<string>, newLabel: Option<string>,
                   confidence: Option<real>): Edge {
    Edge(e.from, e.to,
         if validFrom.Some? then validFrom else e.validFrom,
         if validTo.None? then e.validTo else if IsNullWord(validTo.value) then None else validTo,
         if newLabel.Some? then newLabel else e.edgeLabel,
         if confidence.Some? then confidence.value else e.confidence)
  }

  /** One "follows" edge between each two neighbours, dated by the later of their dates. */
  function LinearEdges(addrs: seq<string>, dated: string -> Option<int>, iso: int -> string): seq<Edge> {
    if |addrs| < 2 then []
    else
      LinearEdges(addrs[..|addrs| - 1], dated, iso) +
      [LinearEdge(addrs[|addrs| - 2], addrs[|addrs| - 1], dated, iso)]
  }

  function LinearEdge(a: string, b: string, dated: string -> Option<int>, iso: int -> string): Edge {
    Edge(a, b, LaterDate(dated(a), dated(b), iso), None, Some("follows"), 1.0)
  }

  function LaterDate(a: Option<int>, b: Option<int>, iso: int -> string): Option<string> {
    match (a, b)
    case (Some(x), Some(y)) => Some(iso(if x < y then y else x))
    case (Some(x), None) => Some(iso(x))
    case (None, Some(y)) => Some(iso(y))
    case (None, None) => None
  }

  function Migrated(c: Chain, dated: string -> Option<int>, iso: int -> string): Chain {
    if c.edges != [] then c else c.(edges := LinearEdges(MemberAddrs(c.members), dated, iso))
  }

  lemma {:induction false} LinearEdgesEnds(addrs: seq<string>, dated: string -> Option<int>, iso: int -> string)
    ensures |LinearEdges(addrs, dated, iso)| == if addrs == [] then 0 else |addrs| - 1
    ensures forall i :: 0 <= i < |addrs| - 1 ==>
              LinearEdges(addrs, dated, iso)[i].from == addrs[i] && LinearEdges(addrs, dated, iso)[i].to == addrs[i + 1]
  {
    if |addrs| >= 2 {
      LinearEdgesEnds(addrs[..|addrs| - 1], dated, iso);
    }
  }

  lemma MigrationKeepsIntact(c: Chain, dated: string -> Option<int>, iso: int -> string)
    requires Intact(c)
    ensures Intact(Migrated(c, dated, iso))
    ensures Migrated(Migrated(c, dated, iso), dated, iso) == Migrated(c, dated, iso)
  {
    var addrs := MemberAddrs(c.members);
    LinearEdgesEnds(addrs, dated, iso);
    if c.edges == [] {
      var edges := LinearEdges(addrs, dated, iso);
      forall i | 0 <= i < |edges|
        ensures edges[i].from in AddrSet(c.members) && edges[i].to in AddrSet(c.members)
      {
        assert edges[i].from == addrs[i] && edges[i].to == addrs[i + 1];
        MemberAddrsExact(c.members, edges[i].from);
        MemberAddrsExact(c.members, edges[i].to);
      }
    }
  }

  // ---- where the strip and the path resolution disagree ---------------------------

  /** `Path.suffix` of a file name is non-empty. */
  predicate HasSuffix(base: string) {
    exists i :: 0 < i < |base| - 1 && base[i] == '.' && forall j :: i < j < |base| ==> base[j] != '.'
  }

  function UnderNodes(f: string): string {
    if Strings.StartsWith(f, "nodes/") then f[6..] else f
  }

  /** The file under nodes/ that `member_node_path` finds for a member. */
  function NodePath(f: string): string {
    if HasSuffix(BaseName(f)) then UnderNodes(f) else UnderNodes(f) + ".md"
  }

  lemma NoSlashBase(x: string)
    requires '/' !in x
    ensures BaseName(x) == x && BaseName("nodes/" + x) == x
  {
    forall k ensures !Strings.MatchAt(x, "/", k) { Strings.MatchChar(x, '/', k); }
    assert Strings.Split(x, "/") == [x];
    var s := "nodes/" + x;
    forall k | 0 <= k < 5 ensures !Strings.MatchAt(s, "/", k) {
      Strings.MatchChar(s, '/', k);
      assert s[k] == "nodes"[k];
    }
    Strings.MatchChar(s, '/', 5);
    Strings.FindUnique(s, "/", 0, 5);
    assert s[6..] == x && s[..5] == "nodes";
    assert Strings.Split(s, "/") == ["nodes"] + [x];
  }

  /** A member that resolves to the node's file survives the strip exactly when its entry
      omits the suffix: the path resolution supplies ".md", the strip compares without it. */
  lemma SurvivesExactlyWhen(m: Member, fname: string)
    requires HasFile(m) && '/' !in UnderNodes(m.file.value)
    requires NodePath(m.file.value) == fname
    ensures !IsEntryOf(m, fname) <==> !HasSuffix(BaseName(m.file.value))
  {
    var f := m.file.value;
    var rel := UnderNodes(f);
    NoSlashBase(rel);
    if Strings.StartsWith(f, "nodes/") {
      assert f == "nodes/" + rel;
    }
    assert BaseName(f) == rel;
    if !HasSuffix(rel) {
      assert |fname| == |rel| + 3;
    }
  }
}
