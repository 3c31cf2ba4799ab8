/** Where the lifecycle falls short of its documentation (samia/core/ia.py), and exactly when;
    and what its reversals undo. */
module LifecycleFindings {
  import opened Options
  import opened GraphStores
  import opened LifecycleData
  import opened NodeFields
  import opened LifecycleLaws
  import ChainData
  import Frontmatter
  import FrontmatterText
  import HeaderLines
  import IndexData
  import MergedNode
  import P = PoolData
  import Scalars
  import Segments
  import Strings
  import WebData

  // ---- a node file to witness with ---------------------------------------------------------------

  const SAMPLE_CHAINS := Scalars.List(["c"])

  function Sample(env: Env): string {
    Frontmatter.Fenced([Frontmatter.FieldLine("chains", SAMPLE_CHAINS, Values(env))], Frontmatter.TailOfBody(""))
  }

  lemma SampleItem()
    ensures Scalars.AllClean(["c"]) && Scalars.OneLine(Scalars.Bracketed(["c"]))
  {
    assert Scalars.CleanItem("c");
    assert Strings.Join(", ", ["c"]) == "c";
    Scalars.BracketedOneLine("c");
  }

  lemma ListPrints(items: seq<string>, c: Scalars.FloatCodec)
    ensures HeaderLines.Standard(c).show(Scalars.List(items)) == Scalars.Bracketed(items)
  {
  }

  lemma ListReadsBack(items: seq<string>, c: Scalars.FloatCodec)
    requires Scalars.AllClean(items)
    ensures HeaderLines.Standard(c).read(Scalars.Bracketed(items)) == Scalars.List(items)
  {
    Scalars.CleanListSurvives(items, c);
  }

  lemma SampleParses(env: Env)
    ensures Frontmatter.ParseText(Sample(env), Values(env))
         == Frontmatter.Parsed(Frontmatter.Head(map["chains" := SAMPLE_CHAINS], ["chains"], ["chains"]), FrontmatterText.Trimmed(""))
  {
    assert HeaderLines.KeyOk("chains");
    SampleItem();
    ListPrints(["c"], env.texts.floats);
    ListReadsBack(["c"], env.texts.floats);
    HeaderLines.StandardReadsFields(env.texts.floats);
    Frontmatter.OneFieldParses("chains", SAMPLE_CHAINS, "", Values(env));
  }

  lemma SampleHead(h: Frontmatter.Head, env: Env)
    requires h.fm == map["chains" := SAMPLE_CHAINS]
    ensures !IsHot(h) && "c" in ChainNames(h) && MergedNode.NumbersOf(h, env.texts).Some?
  {
    assert "tier" !in h.fm && "access_count" !in h.fm && "relevance" !in h.fm;
    assert Field(h, "chains") == Some(SAMPLE_CHAINS);
  }

  /** A memory of two node files, each with a live vector entry. */
  function TwoNodes(a: string, b: string, env: Env): World {
    var entry := IndexData.Entry("", "", 0, false);
    START.(nodes := map[PathOf(a) := Sample(env), PathOf(b) := Sample(env)],
           graph := BARE.(index := IndexData.Stored(Some(map[PathOf(a) := entry, PathOf(b) := entry]), None)))
  }

  lemma TwoNodesHaveNoGhosts(a: string, b: string, env: Env)
    ensures NoGhosts(TwoNodes(a, b, env)) && P.Ordered(TwoNodes(a, b, env).pool)
  {
  }

  lemma TwoNodesParse(a: string, b: string, env: Env)
    requires IsStandard(env)
    ensures CanFreeze(TwoNodes(a, b, env), a, env) && CanMerge(TwoNodes(a, b, env), a, b, env)
  {
    var w := TwoNodes(a, b, env);
    SampleNode(w, a, env);
    SampleNode(w, b, env);
    CanBeMerged(a, ParsedNode(w, a, env), b, ParsedNode(w, b, env), env);
    assert ChainNames(ParsedNode(w, a, env).head) * ChainNames(ParsedNode(w, b, env).head) != {} by {
      assert "c" in ChainNames(ParsedNode(w, a, env).head) * ChainNames(ParsedNode(w, b, env).head);
    }
  }

  lemma CanBeMerged(a: string, pa: Frontmatter.Parsed, b: string, pb: Frontmatter.Parsed, env: Env)
    requires IsStandard(env) && pa.Parsed? && pb.Parsed?
    requires MergedNode.NumbersOf(pa.head, env.texts).Some? && MergedNode.NumbersOf(pb.head, env.texts).Some?
    ensures env.merged(a, pa, b, pb).Some?
  {
    assert env.merged(a, pa, b, pb) == MergedNode.MergedFile(a, pa, b, pb, env.texts);
  }

  lemma SampleNode(w: World, name: string, env: Env)
    requires IsStandard(env)
    requires PathOf(name) in w.nodes && w.nodes[PathOf(name)] == Sample(env)
    ensures var p := ParsedNode(w, name, env);
      p.Parsed? && !IsHot(p.head) && "c" in ChainNames(p.head) && MergedNode.NumbersOf(p.head, env.texts).Some?
  {
    SampleParses(env);
    SampleHead(ParsedNode(w, name, env).head, env);
  }

  /** An entry not forgotten stays live. */
  lemma StaysLive(g: Graph, node: string, path: string)
    requires path in IndexData.EntriesIn(g.index) && !IndexData.EntriesIn(g.index)[path].tombstoned
    requires path != ChainData.FileName(node)
    ensures var st := Forgotten(g, node).index;
      path in IndexData.EntriesIn(st) && !IndexData.EntriesIn(st)[path].tombstoned
  {
    FileNameIdempotent(node);
  }

  // ---- freeze --------------------------------------------------------------------------------------

  /** Freezing is safe in every memory whose chain entries name their files in full exactly when
      the node name does not itself end in ".md": otherwise the file removed is not the node
      forgotten. */
  lemma FreezeSafeExactlyWhen(name: string, env: Env)
    requires IsStandard(env)
    ensures (forall w :: NoGhosts(w) && FullyNamed(w.graph.chains) && P.Ordered(w.pool) ==> NoGhosts(Frozen(w, name, env)))
       <==> !Strings.EndsWith(name, ".md")
  {
    if Strings.EndsWith(name, ".md") {
      var w := TwoNodes(name, name, env);
      TwoNodesHaveNoGhosts(name, name, env);
      TwoNodesParse(name, name, env);
      StaysLive(w.graph, name, PathOf(name));
      assert !NoGhosts(Frozen(w, name, env));
    } else {
      forall w | NoGhosts(w) && FullyNamed(w.graph.chains) && P.Ordered(w.pool) ensures NoGhosts(Frozen(w, name, env)) {
        PlainIsSafe(w, Freeze(name), env);
        FreezeKeepsExactlyWhen(w, name, env);
      }
    }
  }

  // ---- chain entries that omit the suffix ----------------------------------------------------------

  /** No chain entry that resolves to the file omits its suffix. */
  ghost predicate NoBareEntry(g: Graph, file: string) {
    forall n, m :: n in g.chains && m in g.chains[n].members && ChainData.HasFile(m) && ChainData.NodePath(m.file.value) == file
      ==> ChainData.HasSuffix(ChainData.BaseName(m.file.value))
  }

  /** A file directly under nodes/, with a suffix. */
  predicate Flat(file: string) {
    '/' !in file && ChainData.HasSuffix(file)
  }

  lemma FlatPath(name: string)
    requires name != "" && '/' !in name
    ensures Flat(PathOf(name))
  {
    var f := PathOf(name);
    assert f[|name|] == '.' && f[|name| + 1] == 'm' && f[|name| + 2] == 'd';
  }

  lemma FlatEntry(m: ChainData.Member, files: set<string>)
    requires ChainData.HasFile(m) && ChainData.NodePath(m.file.value) in files && forall f :: f in files ==> Flat(f)
    ensures ChainData.BaseName(m.file.value) in files <==> ChainData.HasSuffix(ChainData.BaseName(m.file.value))
  {
    var file := ChainData.NodePath(m.file.value);
    assert Flat(file);
    assert ChainData.UnderNodes(m.file.value) <= file;
    ChainData.SurvivesExactlyWhen(m, file);
    if ChainData.BaseName(m.file.value) in files { assert Flat(ChainData.BaseName(m.file.value)); }
  }

  ghost predicate NoBareEntries(g: Graph, files: set<string>) {
    forall f :: f in files ==> NoBareEntry(g, f)
  }

  lemma NoBareEntryMeans(g: Graph, files: set<string>, n: string, m: ChainData.Member)
    requires NoBareEntries(g, files) && n in g.chains && m in g.chains[n].members
    requires ChainData.HasFile(m) && ChainData.NodePath(m.file.value) in files
    ensures ChainData.HasSuffix(ChainData.BaseName(m.file.value))
  {
    assert NoBareEntry(g, ChainData.NodePath(m.file.value));
  }

  /** When files go together with their own names, only a chain entry without the suffix is left. */
  lemma FlatCovered(g: Graph, files: set<string>)
    requires forall f :: f in files ==> Flat(f)
    ensures Covered(g, files, files) <==> NoBareEntries(g, files)
  {
    if NoBareEntries(g, files) {
      forall n, m | n in g.chains && m in g.chains[n].members ensures EntryCovered(m, files, files) {
        if ChainData.HasFile(m) && ChainData.NodePath(m.file.value) in files {
          NoBareEntryMeans(g, files, n, m);
          FlatEntry(m, files);
        }
      }
    }
    if Covered(g, files, files) {
      forall f, n, m | f in files && n in g.chains && m in g.chains[n].members
                       && ChainData.HasFile(m) && ChainData.NodePath(m.file.value) == f
        ensures ChainData.HasSuffix(ChainData.BaseName(m.file.value))
      {
        assert MembersCovered(g.chains[n], files, files);
        assert EntryCovered(m, files, files);
        FlatEntry(m, files);
      }
    }
  }

  /** For a plain name, in every memory: freezing leaves no ghost exactly when no chain entry that
      resolves to the file omits its suffix. */
  lemma PlainFreezeSafeExactlyWhen(w: World, name: string, env: Env)
    requires NoGhosts(w) && P.Ordered(w.pool) && CanFreeze(w, name, env)
    requires name != "" && '/' !in name && !Strings.EndsWith(name, ".md")
    ensures NoGhosts(Frozen(w, name, env)) <==> NoBareEntry(w.graph, PathOf(name))
  {
    PlainName(name);
    FlatPath(name);
    FreezeKeepsExactlyWhen(w, name, env);
    FlatCovered(w.graph, {PathOf(name)});
    assert PathOf(name) in {PathOf(name)};
  }

  lemma BothNoBare(g: Graph, x: string, y: string)
    ensures NoBareEntries(g, {x, y}) <==> NoBareEntry(g, x) && NoBareEntry(g, y)
  {
    assert x in {x, y} && y in {x, y};
  }

  lemma PlainPairCovered(g: Graph, a: string, b: string)
    requires a != "" && '/' !in a && !Strings.EndsWith(a, ".md")
    requires b != "" && '/' !in b && !Strings.EndsWith(b, ".md") && a != b
    ensures Covered(g, MergeGone(a, b), MergeForgets(a, b)) <==> NoBareEntry(g, PathOf(a)) && NoBareEntry(g, PathOf(b))
  {
    PlainName(a);
    PlainName(b);
    FlatPath(a);
    FlatPath(b);
    FlatCovered(g, MergeGone(a, b));
    BothNoBare(g, PathOf(a), PathOf(b));
  }

  lemma PlainMergeSafeExactlyWhen(w: World, a: string, b: string, env: Env)
    requires NoGhosts(w) && CanMerge(w, a, b, env) && a != b
    requires a != "" && '/' !in a && !Strings.EndsWith(a, ".md")
    requires b != "" && '/' !in b && !Strings.EndsWith(b, ".md")
    ensures NoGhosts(Merged(w, a, b, env)) <==> NoBareEntry(w.graph, PathOf(a)) && NoBareEntry(w.graph, PathOf(b))
  {
    PlainPairCovered(w.graph, a, b);
    MergeKeepsExactlyWhen(w, a, b, env);
  }

  lemma PlainSupersedeSafeExactlyWhen(w: World, node: string)
    requires NoGhosts(w) && StemOf(node) != "" && '/' !in StemOf(node) && PathOf(StemOf(node)) in w.nodes
    ensures NoGhosts(Superseded(w, node)) <==> NoBareEntry(w.graph, ChainData.FileName(node))
  {
    StemPath(node);
    FlatPath(StemOf(node));
    SupersedeKeepsExactlyWhen(w, node);
    FlatCovered(w.graph, {ChainData.FileName(node)});
    assert ChainData.FileName(node) in {ChainData.FileName(node)};
  }

  lemma PrefixHasSlash(name: string)
    requires Strings.StartsWith(name, "nodes/")
    ensures '/' in name
  {
    assert name[5] == "nodes/"[5];
  }

  /** A memory of one node file and a chain entry that omits its suffix. */
  function BareMember(name: string, env: Env): World {
    var chain := ChainData.Chain([ChainData.Member(Some("A"), Some(name))], []);
    START.(nodes := map[PathOf(name) := Sample(env)], graph := BARE.(chains := map["c" := chain]))
  }

  /** Freezing or superseding the node of such an entry leaves the entry behind, without a file. */
  lemma BareEntryHaunts(name: string, env: Env)
    requires IsStandard(env) && name != "" && '/' !in name && !ChainData.HasSuffix(name) && !Strings.EndsWith(name, ".md")
    ensures var w := BareMember(name, env);
      NoGhosts(w) && !NoGhosts(Frozen(w, name, env)) && !NoGhosts(Superseded(w, name))
  {
    var w := BareMember(name, env);
    var m := ChainData.Member(Some("A"), Some(name));
    ChainData.NoSlashBase(name);
    if Strings.StartsWith(name, "nodes/") { PrefixHasSlash(name); }
    assert w.graph.chains["c"].members == [m];
    assert ChainData.NodePath(name) == PathOf(name);
    SampleNode(w, name, env);
    PlainFreezeSafeExactlyWhen(w, name, env);
    PlainName(name);
    PlainSupersedeSafeExactlyWhen(w, name);
    assert m in w.graph.chains["c"].members && !ChainData.HasSuffix(ChainData.BaseName(name));
  }

  // ---- merge ---------------------------------------------------------------------------------------

  lemma PathsDiffer(x: string, y: string)
    requires x != y
    ensures PathOf(x) != PathOf(y)
  {
    assert PathOf(x)[..|PathOf(x)| - 3] == x;
    assert PathOf(y)[..|PathOf(y)| - 3] == y;
  }

  lemma SuffixedPath(a: string, b: string) returns (lost: string)
    requires a != b && (Strings.EndsWith(a, ".md") || Strings.EndsWith(b, ".md"))
    ensures lost == PathOf(a) || lost == PathOf(b)
    ensures lost != ChainData.FileName(a) && lost != ChainData.FileName(b)
  {
    var x, y := if Strings.EndsWith(a, ".md") then a else b, if Strings.EndsWith(a, ".md") then b else a;
    PathsDiffer(x, y);
    assert |PathOf(x)| == |x| + 3 && |PathOf(y)| == |y| + 3;
    lost := if ChainData.FileName(y) != PathOf(x) then PathOf(x) else PathOf(y);
  }

  predicate PlainPair(a: string, b: string) {
    a != b && !Strings.EndsWith(a, ".md") && !Strings.EndsWith(b, ".md")
  }

  lemma BadMerge(a: string, b: string, env: Env) returns (w: World)
    requires IsStandard(env) && !PlainPair(a, b)
    ensures NoGhosts(w) && FullyNamed(w.graph.chains) && !NoGhosts(Merged(w, a, b, env))
  {
    w := TwoNodes(a, b, env);
    TwoNodesHaveNoGhosts(a, b, env);
    TwoNodesParse(a, b, env);
    MergedPathIsNew(a, b);
    var v := Merged(w, a, b, env);
    if a == b {
      assert PathOf(a) in IndexData.EntriesIn(v.graph.index);
    } else {
      var lost := SuffixedPath(a, b);
      StaysLive(w.graph, a, lost);
      StaysLive(Forgotten(w.graph, a), b, lost);
    }
  }

  /** Merging is safe in every memory whose chain entries name their files in full exactly when
      the two names differ and neither ends in ".md". */
  lemma MergeSafeExactlyWhen(a: string, b: string, env: Env)
    requires IsStandard(env)
    ensures (forall w :: NoGhosts(w) && FullyNamed(w.graph.chains) ==> NoGhosts(Merged(w, a, b, env))) <==> PlainPair(a, b)
  {
    if PlainPair(a, b) {
      forall w | NoGhosts(w) && FullyNamed(w.graph.chains) ensures NoGhosts(Merged(w, a, b, env)) {
        PlainIsSafe(w, Merge(a, b), env);
        MergeKeepsExactlyWhen(w, a, b, env);
      }
    } else {
      var w := BadMerge(a, b, env);
    }
  }

  // ---- synchronisation -----------------------------------------------------------------------------

  const PAIR_KEY := WebData.Key("a.md", "b.md", WebData.COACTIVATION)

  lemma EndsOfPair(a: string, b: string)
    requires ':' !in a
    ensures WebData.Ends(a + "::" + b) == Some((a, b))
  {
    var s := a + "::" + b;
    assert s[|a|..|a| + 2] == "::";
    forall k | 0 <= k < |a| ensures !Strings.MatchAt(s, "::", k) {
      assert s[k] == a[k];
      if k + 2 <= |s| { assert s[k..k + 2][0] == s[k]; }
    }
    Strings.FindUnique(s, "::", 0, |a|);
    assert s[..|a|] == a && s[|a| + 2..] == b;
  }

  lemma PairForms(item: WebData.Item, now: string)
    requires item == WebData.Item("a.md" + "::" + "b.md", 1.0)
    ensures WebData.Consolidated(map[], [item], None, now) == map[PAIR_KEY := WebData.Row(1, now, now, 1.0)]
  {
    EndsOfPair("a.md", "b.md");
    assert [item][..0] == [];
    assert "a.md" != "b.md" by { assert "a.md"[0] != "b.md"[0]; }
    assert WebData.PairKey("a.md", "b.md") == PAIR_KEY;
  }

  lemma PairStays(t: WebData.Table, now: string, today: int, dayOf: string -> Option<int>)
    requires t == map[PAIR_KEY := WebData.Row(1, now, now, 1.0)]
    requires WebData.DaysSince(now, today, dayOf) == 0
    ensures PAIR_KEY in WebData.Capped(WebData.Decayed(t, today, dayOf))
  {
    var d := WebData.Decayed(t, today, dayOf);
    assert PAIR_KEY in d;
    assert WebData.StrongerAt(d, PAIR_KEY, "a.md") == {};
    assert WebData.StrongerAt(d, PAIR_KEY, "b.md") == {};
  }

  /** The pass over these items keeps this memory free of ghosts. */
  ghost predicate SyncKeeps(w: World, items: seq<WebData.Item>, guarded: bool, now: string, today: int,
                            dayOf: string -> Option<int>)
  {
    NoGhosts(w) && WebData.Canonical(w.graph.edges) ==>
      Within(SyncedGraph(w.graph, items, [], if guarded then Some(w.nodes.Keys) else None, now, today, dayOf), w.nodes.Keys)
  }

  lemma UnguardedSyncHaunts(now: string, today: int, dayOf: string -> Option<int>) returns (items: seq<WebData.Item>)
    requires WebData.DaysSince(now, today, dayOf) == 0
    ensures !SyncKeeps(START, items, false, now, today, dayOf)
  {
    var item := WebData.Item("a.md" + "::" + "b.md", 1.0);
    items := [item];
    PairForms(item, now);
    PairStays(WebData.Consolidated(map[], items, None, now), now, today, dayOf);
    assert PAIR_KEY in SyncedGraph(BARE, items, [], None, now, today, dayOf).edges;
    assert !EdgesWithin(SyncedGraph(BARE, items, [], None, now, today, dayOf).edges, {});
  }

  /** A consolidation pass dated today never re-creates an absent node's edges, whatever the
      weights, exactly when it is given the live-node guard. */
  lemma SyncSafeExactlyWhen(guarded: bool, now: string, today: int, dayOf: string -> Option<int>)
    requires WebData.DaysSince(now, today, dayOf) == 0
    ensures (forall w, items :: SyncKeeps(w, items, guarded, now, today, dayOf)) <==> guarded
  {
    if guarded {
      forall w, items ensures SyncKeeps(w, items, true, now, today, dayOf) {
        if NoGhosts(w) && WebData.Canonical(w.graph.edges) {
          GuardedSyncWithin(w.graph, items, [], w.nodes.Keys, now, today, dayOf);
        }
      }
    } else {
      var items := UnguardedSyncHaunts(now, today, dayOf);
    }
  }

  /** The pass gives a mass row to a node that has no file and had no row. */
  ghost predicate AddsDeadMass(w: World, items: seq<WebData.Item>, appearances: seq<(string, real)>, now: string,
                               today: int, dayOf: string -> Option<int>)
  {
    var after := SyncedGraph(w.graph, items, appearances, Some(w.nodes.Keys), now, today, dayOf).masses;
    exists n :: n in after && n !in w.nodes && n !in w.graph.masses
  }

  /** The guard does not cover the masses: a guarded pass gives an absent node a mass row exactly
      when one without a row is among the appearances. */
  lemma GuardedSyncAddsDeadMassExactlyWhen(w: World, items: seq<WebData.Item>, appearances: seq<(string, real)>,
                                           now: string, today: int, dayOf: string -> Option<int>)
    ensures AddsDeadMass(w, items, appearances, now, today, dayOf)
       <==> exists i :: 0 <= i < |appearances| && appearances[i].0 !in w.nodes && appearances[i].0 !in w.graph.masses
  {
    var live := Some(w.nodes.Keys);
    var after := SyncedGraph(w.graph, items, appearances, live, now, today, dayOf).masses;
    if AddsDeadMass(w, items, appearances, now, today, dayOf) {
      var n :| n in after && n !in w.nodes && n !in w.graph.masses;
      SyncedMasses(w.graph, items, appearances, live, now, today, dayOf, n);
      var i :| 0 <= i < |appearances| && appearances[i].0 == n;
      assert appearances[i].0 !in w.nodes;
    }
    if i :| 0 <= i < |appearances| && appearances[i].0 !in w.nodes && appearances[i].0 !in w.graph.masses {
      SyncedMasses(w.graph, items, appearances, live, now, today, dayOf, appearances[i].0);
      assert Appears(appearances[i].0, appearances);
    }
  }

  // ---- what the reversals undo -----------------------------------------------------------------------

  /** Restoring a node just superseded brings its file back byte for byte and its vector entry
      back into recall; its edges and chain entries stay gone. */
  lemma RestoreUndoesSupersede(w: World, name: string)
    requires PathOf(name) in w.nodes && !Strings.EndsWith(name, ".md")
    requires PathOf(name) in IndexData.EntriesIn(w.graph.index) ==> !IndexData.EntriesIn(w.graph.index)[PathOf(name)].tombstoned
    ensures var v := Restored(Superseded(w, name), name);
      && v.nodes == w.nodes
      && v.graph.index == w.graph.index
      && v.graph == Forgotten(w.graph, name).(index := w.graph.index)
  {
    PlainName(name);
    FileNameIdempotent(name);
    var path := PathOf(name);
    var s := Superseded(w, name);
    assert s.superseded[name] == SupersededRec(name, w.nodes[path], false);
    assert Restored(s, name).nodes == w.nodes;
    var before, after := w.graph.index, IndexData.Flagged(s.graph.index, path, false);
    if path in IndexData.EntriesIn(before) {
      assert after.manifest.value == before.manifest.value;
    }
  }

  lemma FrozenTombstones(w: World, name: string, env: Env)
    requires P.Ordered(w.pool) && CanFreeze(w, name, env) && !Strings.EndsWith(name, ".md")
    requires PathOf(name) in IndexData.EntriesIn(w.graph.index)
    ensures var st := Frozen(w, name, env).graph.index;
      PathOf(name) in IndexData.EntriesIn(st) && IndexData.EntriesIn(st)[PathOf(name)].tombstoned
  {
    PlainName(name);
    FileNameIdempotent(name);
  }

  lemma ThawsDirectly(v: World, id: string, today: string, env: Env)
    requires id in v.frozen && !v.frozen[id].resumed
    ensures var t := Thawed(v, id, today, env); PathOf(v.frozen[id].name) in t.nodes && t.graph == v.graph
  {
  }

  /** Thawing brings the file back, but not the vector entry: it stays tombstoned until a build. */
  lemma ThawLeavesTombstone(w: World, name: string, today: string, env: Env)
    requires P.Ordered(w.pool) && CanFreeze(w, name, env) && !Strings.EndsWith(name, ".md")
    requires PathOf(name) in IndexData.EntriesIn(w.graph.index)
    ensures var id := NodeId(ParsedNode(w, name, env).head, name, env);
      var v := Thawed(Frozen(w, name, env), id, today, env);
      && PathOf(name) in v.nodes
      && PathOf(name) in IndexData.EntriesIn(v.graph.index)
      && IndexData.EntriesIn(v.graph.index)[PathOf(name)].tombstoned
  {
    FrozenTombstones(w, name, env);
    ThawsDirectly(Frozen(w, name, env), NodeId(ParsedNode(w, name, env).head, name, env), today, env);
  }

  /** What a thawed body is, however much later: its paragraphs are the pooled contents, one for
      each segment that was frozen and of the same digest. */
  lemma ThawedBodyMatches(w: World, name: string, ops: seq<Op>, env: Env)
    requires IsStandard(env)
    requires ArchiveHeld(w, env) && CanFreeze(w, name, env)
    ensures var p := ParsedNode(w, name, env);
      var v := Frozen(w, name, env);
      var id := NodeId(p.head, name, env);
      && id in v.frozen
      && var addrs := v.frozen[id].addrs;
         var later := RunFrom(v, ops, env);
         var thawed := Segments.Paragraphs(P.Decompressed(later.pool, addrs));
         && thawed == P.Parts(later.pool, addrs)
         && P.Holds(later.pool, addrs, env.paragraphs(p.body), env.digest)
  {
    var p := ParsedNode(w, name, env);
    var id := NodeId(p.head, name, env);
    var v := Frozen(w, name, env);
    FrozenHolds(w, name, env);
    FrozenPlaces(w, name, env);
    ThawedPartsMatch(v, ops, env, v.frozen[id].addrs, env.paragraphs(p.body));
  }

  lemma FrozenPlaces(w: World, name: string, env: Env)
    requires IsStandard(env)
    requires ArchiveHeld(w, env) && CanFreeze(w, name, env)
    ensures var p := ParsedNode(w, name, env);
      var v := Frozen(w, name, env);
      var id := NodeId(p.head, name, env);
      id in v.frozen && P.Holds(v.pool, v.frozen[id].addrs, env.paragraphs(p.body), env.digest)
  {
    var p := ParsedNode(w, name, env);
    StandardParagraphs(p.body, env);
    P.PoolStep(w.pool, env.paragraphs(p.body), NodeId(p.head, name, env), env.digest);
  }

  lemma ThawedPartsMatch(v: World, ops: seq<Op>, env: Env, addrs: seq<string>, contents: seq<string>)
    requires IsStandard(env)
    requires ArchiveHeld(v, env) && P.Holds(v.pool, addrs, contents, env.digest)
    ensures var later := RunFrom(v, ops, env);
      && Segments.Paragraphs(P.Decompressed(later.pool, addrs)) == P.Parts(later.pool, addrs)
      && P.Holds(later.pool, addrs, contents, env.digest)
  {
    ArchiveReadsTheSame(v, ops, env, addrs);
    var later := RunFrom(v, ops, env);
    P.HoldsLater(v.pool, later.pool, addrs, contents, env.digest);
    P.FreezeThawFreeze(later.pool, addrs, "", env.digest);
  }
}
