/** The stores that mention a node besides its file (samia/core/ia.py): the co-activation web,
    the edge weights, the chain manifests and the vector index. */
module GraphStores {
  import opened Options
  import ChainData
  import ChainStore
  import IndexData
  import Strings
  import WebData
  import WebStore

  type Weights = map<string, real>

  datatype Graph = Graph(edges: WebData.Table, masses: WebData.Masses, weights: Weights, chains: ChainStore.Manifests,
                         index: IndexData.Stored)

  const BARE := Graph(map[], map[], map[], map[], IndexData.EMPTY)

  // ---- forgetting ---------------------------------------------------------------------------

  /** `forget_node_weights`: every pair with the node as a component goes. */
  function WeightsWithout(ws: Weights, fname: string): Weights {
    map k | k in ws && fname !in Strings.Split(k, "::") :: ws[k]
  }

  /** The cascade: web rows of every kind, the mass row, the weights, the chain entries with
      their edges, and the vector entry, which is tombstoned. */
  function Forgotten(g: Graph, node: string): Graph {
    var fname := ChainData.FileName(node);
    Graph(
      WebData.WithoutNode(g.edges, fname),
      g.masses - {fname},
      WeightsWithout(g.weights, fname),
      ChainStore.StrippedAll(g.chains, fname),
      IndexData.Flagged(g.index, fname, true)
    )
  }

  // ---- presence -----------------------------------------------------------------------------

  ghost predicate EdgesWithin(t: WebData.Table, live: set<string>) {
    forall k :: k in t && WebData.IsWeb(k) ==> k.src in live && k.dst in live
  }

  /** The file a chain entry resolves to is in `live`. */
  predicate Names(m: ChainData.Member, live: set<string>) {
    ChainData.HasFile(m) ==> ChainData.NodePath(m.file.value) in live
  }

  ghost predicate MembersWithin(c: ChainData.Chain, live: set<string>) {
    forall m :: m in c.members ==> Names(m, live)
  }

  ghost predicate ChainsWithin(cs: ChainStore.Manifests, live: set<string>) {
    forall n :: n in cs ==> MembersWithin(cs[n], live)
  }

  ghost predicate EntriesWithin(st: IndexData.Stored, live: set<string>) {
    forall rel :: rel in IndexData.EntriesIn(st) && !IndexData.EntriesIn(st)[rel].tombstoned ==> rel in live
  }

  /** Every co-activation edge, chain entry and live vector entry is of a file in `live`. */
  ghost predicate Within(g: Graph, live: set<string>) {
    EdgesWithin(g.edges, live) && ChainsWithin(g.chains, live) && EntriesWithin(g.index, live)
  }

  lemma WithinMore(g: Graph, a: set<string>, b: set<string>)
    requires Within(g, a) && a <= b
    ensures Within(g, b)
  {
    forall n | n in g.chains ensures MembersWithin(g.chains[n], b) {
      forall m | m in g.chains[n].members ensures Names(m, b) { assert Names(m, a); }
    }
  }

  /** Every chain entry names its file in full: the name the strip compares is the file the
      entry resolves to. */
  ghost predicate FullyNamed(cs: ChainStore.Manifests) {
    forall n, m :: n in cs && m in cs[n].members && ChainData.HasFile(m) ==>
      ChainData.BaseName(m.file.value) == ChainData.NodePath(m.file.value)
  }

  lemma FileNameIdempotent(node: string)
    ensures ChainData.FileName(ChainData.FileName(node)) == ChainData.FileName(node)
  {
    if !Strings.EndsWith(node, ".md") {
      var f := node + ".md";
      assert f[|f| - 3..] == ".md";
    }
  }

  // ---- what forgetting leaves -----------------------------------------------------------------

  ghost predicate EdgesCovered(t: WebData.Table, gone: set<string>, forgotten: set<string>) {
    forall k :: k in t && WebData.IsWeb(k) && (k.src in gone || k.dst in gone) ==> k.src in forgotten || k.dst in forgotten
  }

  /** An entry that resolves to a removed file carries a forgotten name. */
  predicate EntryCovered(m: ChainData.Member, gone: set<string>, forgotten: set<string>) {
    ChainData.HasFile(m) && ChainData.NodePath(m.file.value) in gone ==> ChainData.BaseName(m.file.value) in forgotten
  }

  ghost predicate MembersCovered(c: ChainData.Chain, gone: set<string>, forgotten: set<string>) {
    forall m :: m in c.members ==> EntryCovered(m, gone, forgotten)
  }

  ghost predicate ChainsCovered(cs: ChainStore.Manifests, gone: set<string>, forgotten: set<string>) {
    forall n :: n in cs ==> MembersCovered(cs[n], gone, forgotten)
  }

  predicate IsLive(st: IndexData.Stored, rel: string) {
    rel in IndexData.EntriesIn(st) && !IndexData.EntriesIn(st)[rel].tombstoned
  }

  ghost predicate EntriesCovered(st: IndexData.Stored, gone: set<string>, forgotten: set<string>) {
    forall rel :: IsLive(st, rel) && rel in gone ==> rel in forgotten
  }

  /** Whatever points at one of the files in `gone` carries one of the names in `forgotten`. */
  ghost predicate Covered(g: Graph, gone: set<string>, forgotten: set<string>) {
    EdgesCovered(g.edges, gone, forgotten) && ChainsCovered(g.chains, gone, forgotten) && EntriesCovered(g.index, gone, forgotten)
  }

  lemma StrippedCovered(c: ChainData.Chain, fname: string, gone: set<string>, forgotten: set<string>)
    ensures MembersCovered(ChainData.Stripped(c, fname), gone, forgotten) <==> MembersCovered(c, gone, forgotten + {fname})
  {
    ChainData.StrippedExact(c, fname);
    var d := ChainData.Stripped(c, fname);
    if MembersCovered(d, gone, forgotten) {
      forall m | m in c.members ensures EntryCovered(m, gone, forgotten + {fname}) {
        if !ChainData.IsEntryOf(m, fname) { assert EntryCovered(m, gone, forgotten); }
      }
    }
    if MembersCovered(c, gone, forgotten + {fname}) {
      forall m | m in d.members ensures EntryCovered(m, gone, forgotten) {
        assert EntryCovered(m, gone, forgotten + {fname});
      }
    }
  }

  lemma AllStrippedCovered(cs: ChainStore.Manifests, fname: string, gone: set<string>, forgotten: set<string>)
    ensures ChainsCovered(ChainStore.StrippedAll(cs, fname), gone, forgotten) <==> ChainsCovered(cs, gone, forgotten + {fname})
  {
    forall n | n in cs
      ensures MembersCovered(ChainData.Stripped(cs[n], fname), gone, forgotten)
         <==> MembersCovered(cs[n], gone, forgotten + {fname})
    {
      StrippedCovered(cs[n], fname, gone, forgotten);
    }
    var after := ChainStore.StrippedAll(cs, fname);
    forall n | n in cs ensures after[n] == ChainData.Stripped(cs[n], fname) {}
  }

  lemma EdgesWithoutCovered(t: WebData.Table, fname: string, gone: set<string>, forgotten: set<string>)
    ensures EdgesCovered(WebData.WithoutNode(t, fname), gone, forgotten) <==> EdgesCovered(t, gone, forgotten + {fname})
  {
    var after := WebData.WithoutNode(t, fname);
    if EdgesCovered(after, gone, forgotten) {
      forall k | k in t && WebData.IsWeb(k) && (k.src in gone || k.dst in gone)
        ensures k.src in forgotten + {fname} || k.dst in forgotten + {fname}
      {
        assert k in after || WebData.Touches(k, fname);
      }
    }
  }

  lemma LiveAfterFlag(st: IndexData.Stored, fname: string, rel: string)
    requires ChainData.FileName(fname) == fname
    ensures IsLive(IndexData.Flagged(st, fname, true), rel) <==> IsLive(st, rel) && rel != fname
  {
  }

  lemma FlaggedCovered(st: IndexData.Stored, fname: string, gone: set<string>, forgotten: set<string>)
    requires ChainData.FileName(fname) == fname
    ensures EntriesCovered(IndexData.Flagged(st, fname, true), gone, forgotten) <==> EntriesCovered(st, gone, forgotten + {fname})
  {
    var after := IndexData.Flagged(st, fname, true);
    forall rel ensures IsLive(after, rel) <==> IsLive(st, rel) && rel != fname { LiveAfterFlag(st, fname, rel); }
    if EntriesCovered(after, gone, forgotten) {
      forall rel | IsLive(st, rel) && rel in gone ensures rel in forgotten + {fname} {
        assert IsLive(after, rel) || rel == fname;
      }
    }
  }

  /** The cascade adds the forgotten name to the names that cover. */
  lemma ForgottenCovered(g: Graph, node: string, gone: set<string>, forgotten: set<string>)
    ensures Covered(Forgotten(g, node), gone, forgotten) <==> Covered(g, gone, forgotten + {ChainData.FileName(node)})
  {
    var fname := ChainData.FileName(node);
    FileNameIdempotent(node);
    EdgesWithoutCovered(g.edges, fname, gone, forgotten);
    AllStrippedCovered(g.chains, fname, gone, forgotten);
    FlaggedCovered(g.index, fname, gone, forgotten);
  }

  lemma FewerMembersWithin(c: ChainData.Chain, fname: string, live: set<string>)
    requires MembersWithin(c, live)
    ensures MembersWithin(ChainData.Stripped(c, fname), live)
  {
    ChainData.StrippedExact(c, fname);
  }

  /** Forgetting adds no presence. */
  lemma ForgottenAddsNothing(g: Graph, live: set<string>, node: string)
    requires Within(g, live)
    ensures Within(Forgotten(g, node), live)
  {
    var fname := ChainData.FileName(node);
    FileNameIdempotent(node);
    forall n | n in g.chains ensures MembersWithin(ChainData.Stripped(g.chains[n], fname), live) {
      FewerMembersWithin(g.chains[n], fname, live);
    }
    forall rel | IsLive(Forgotten(g, node).index, rel) ensures rel in live { LiveAfterFlag(g.index, fname, rel); }
  }

  lemma MembersWithinLess(c: ChainData.Chain, live: set<string>, gone: set<string>)
    requires MembersWithin(c, live)
    ensures MembersWithin(c, live - gone) <==> MembersCovered(c, gone, {})
  {
    if MembersWithin(c, live - gone) {
      forall m | m in c.members ensures EntryCovered(m, gone, {}) { assert Names(m, live - gone); }
    }
    if MembersCovered(c, gone, {}) {
      forall m | m in c.members ensures Names(m, live - gone) { assert EntryCovered(m, gone, {}) && Names(m, live); }
    }
  }

  /** Files can go without leaving a presence exactly when nothing points at them. */
  lemma WithinLess(g: Graph, live: set<string>, gone: set<string>)
    requires Within(g, live)
    ensures Within(g, live - gone) <==> Covered(g, gone, {})
  {
    forall n | n in g.chains
      ensures MembersWithin(g.chains[n], live - gone) <==> MembersCovered(g.chains[n], gone, {})
    {
      MembersWithinLess(g.chains[n], live, gone);
    }
    if EntriesWithin(g.index, live - gone) {
      forall rel | IsLive(g.index, rel) ensures rel !in gone { assert rel in live - gone; }
    }
    if EntriesCovered(g.index, gone, {}) {
      forall rel | IsLive(g.index, rel) ensures rel in live - gone { assert rel !in gone; }
    }
  }

  /** Forgetting a node lets the files in `gone` go without a trace exactly when everything that
      points at them, by the code's own resolution of chain entries, carries the node's name. */
  lemma ForgottenWithin(g: Graph, live: set<string>, node: string, gone: set<string>)
    requires Within(g, live)
    ensures Within(Forgotten(g, node), live)
    ensures Within(Forgotten(g, node), live - gone) <==> Covered(g, gone, {ChainData.FileName(node)})
  {
    ForgottenAddsNothing(g, live, node);
    WithinLess(Forgotten(g, node), live, gone);
    ForgottenCovered(g, node, gone, {});
    assert {} + {ChainData.FileName(node)} == {ChainData.FileName(node)};
  }

  lemma FullyNamedStays(g: Graph, node: string)
    requires FullyNamed(g.chains)
    ensures FullyNamed(Forgotten(g, node).chains)
  {
    var fname := ChainData.FileName(node);
    var after := Forgotten(g, node).chains;
    forall n, m | n in after && m in after[n].members && ChainData.HasFile(m)
      ensures ChainData.BaseName(m.file.value) == ChainData.NodePath(m.file.value)
    {
      ChainData.StrippedExact(g.chains[n], fname);
    }
  }

  /** With full names, what points at a file that goes is covered by the file's own name. */
  lemma FullNamesCover(g: Graph, gone: set<string>)
    requires FullyNamed(g.chains)
    ensures Covered(g, gone, gone)
  {
    forall n, m | n in g.chains && m in g.chains[n].members ensures EntryCovered(m, gone, gone) {}
  }

  /** A second cascade changes nothing. */
  lemma ForgottenTwice(g: Graph, node: string)
    ensures Forgotten(Forgotten(g, node), node) == Forgotten(g, node)
  {
    var fname := ChainData.FileName(node);
    FileNameIdempotent(node);
    ChainStore.StripAllIdempotent(g.chains, fname);
    var once := Forgotten(g, node);
    assert WebData.WithoutNode(once.edges, fname) == once.edges;
    assert WeightsWithout(once.weights, fname) == once.weights;
    assert once.masses - {fname} == once.masses;
    if fname in IndexData.EntriesIn(g.index) {
      assert once.index.manifest.value[fname := once.index.manifest.value[fname].(tombstoned := true)] == once.index.manifest.value;
    }
  }

  // ---- the other operations on the stores ------------------------------------------------------

  /** One consolidation pass; `live` is the guard. */
  ghost function SyncedGraph(g: Graph, items: seq<WebData.Item>, appearances: seq<(string, real)>, live: Option<set<string>>,
                             now: string, today: int, dayOf: string -> Option<int>): Graph {
    g.(edges := WebData.Synced(g.edges, items, live, now, today, dayOf),
       masses := WebStore.MassesFaded(WebStore.BumpedAll(g.masses, appearances, now), today, dayOf))
  }

  /** With the guard a pass keeps the web within the live files. */
  lemma GuardedSyncWithin(g: Graph, items: seq<WebData.Item>, appearances: seq<(string, real)>, live: set<string>,
                          now: string, today: int, dayOf: string -> Option<int>)
    requires Within(g, live) && WebData.Canonical(g.edges)
    ensures Within(SyncedGraph(g, items, appearances, Some(live), now, today, dayOf), live)
    ensures WebData.Canonical(SyncedGraph(g, items, appearances, Some(live), now, today, dayOf).edges)
  {
    WebData.SyncCreatesNoGhost(g.edges, items, Some(live), now, today, dayOf);
    var t := WebData.Synced(g.edges, items, Some(live), now, today, dayOf);
    forall k | k in t && WebData.IsWeb(k) ensures k.src in live && k.dst in live {
      if k !in g.edges {
        assert WebData.Touches(k, k.src) && WebData.Touches(k, k.dst);
      }
    }
  }

  predicate Appears(n: string, appearances: seq<(string, real)>) {
    exists i :: 0 <= i < |appearances| && appearances[i].0 == n
  }

  lemma {:induction false} BumpedKeys(ms: WebData.Masses, appearances: seq<(string, real)>, now: string, n: string)
    ensures n in WebStore.BumpedAll(ms, appearances, now) <==> n in ms || Appears(n, appearances)
  {
    if appearances != [] {
      var init, last := appearances[..|appearances| - 1], appearances[|appearances| - 1];
      BumpedKeys(ms, init, now, n);
      assert Appears(n, appearances) <==> Appears(n, init) || last.0 == n by {
        if Appears(n, init) {
          var i :| 0 <= i < |init| && init[i].0 == n;
          assert appearances[i].0 == n;
        }
        if Appears(n, appearances) {
          var i :| 0 <= i < |appearances| && appearances[i].0 == n;
          if i < |init| { assert init[i].0 == n; }
        }
      }
    }
  }

  /** The guard does not reach the masses: after a pass a node has a mass row exactly when it had
      one or appears in the pass, whether its file is there or not. */
  lemma SyncedMasses(g: Graph, items: seq<WebData.Item>, appearances: seq<(string, real)>, live: Option<set<string>>,
                     now: string, today: int, dayOf: string -> Option<int>, n: string)
    ensures n in SyncedGraph(g, items, appearances, live, now, today, dayOf).masses
       <==> n in g.masses || Appears(n, appearances)
  {
    BumpedKeys(g.masses, appearances, now, n);
  }

  lemma {:induction false} BuiltWithin(loaded: seq<IndexData.Loaded>, b: IndexData.Backend, live: set<string>)
    requires forall i :: 0 <= i < |loaded| ==> loaded[i].rel in live
    ensures forall rel :: rel in IndexData.EntriesOf(loaded, b) ==> rel in live
  {
    if loaded != [] { BuiltWithin(loaded[..|loaded| - 1], b, live); }
  }
}
