/** The lifecycle operations (samia/core/ia.py) on a memory directory whose stores are updated
    in place. */
module Lifecycle {
  import opened Options
  import opened GraphStores
  import opened LifecycleData
  import opened NodeFields
  import ChainData
  import ChainStore
  import Frontmatter
  import IndexData
  import P = PoolData
  import Pool
  import Segments
  import VectorIndex
  import WebData
  import WebStore

  lemma AddrsOfRefs(addrs: seq<string>)
    ensures seq(|Pool.Refs(addrs)|, i requires 0 <= i < |Pool.Refs(addrs)| => Pool.Refs(addrs)[i].poolAddr) == addrs
  {
  }

  /** The memory without the file, its body pooled and recorded, and the node forgotten. */
  function Retired(w: World, name: string, head: Frontmatter.Head, segments: seq<string>, id: string, env: Env): World
    requires P.Ordered(w.pool)
  {
    World(w.nodes - {PathOf(name)}, Forgotten(w.graph, name), P.AbsorbedAll(w.pool, segments, id, env.digest),
          w.frozen[id := FrozenRec(name, head, P.PlacedAll(w.pool, segments, id, env.digest), false)], w.superseded)
  }

  lemma FrozenIs(w: World, name: string, env: Env)
    requires P.Ordered(w.pool) && CanFreeze(w, name, env)
    ensures var p := ParsedNode(w, name, env);
      Frozen(w, name, env) == Retired(w, name, p.head, env.paragraphs(p.body), NodeId(p.head, name, env), env)
  {
  }

  lemma ThawedIs(w: World, id: string, today: string, env: Env)
    requires CanThaw(w, id)
    ensures var k := Lookup(w.frozen.Keys, id).value;
      && k in w.frozen
      && var r := w.frozen[k];
         Thawed(w, id, today, env)
         == w.(nodes := w.nodes[PathOf(r.name) := env.write(WarmHead(r.head, today), P.Decompressed(w.pool, r.addrs))],
               frozen := w.frozen[k := r.(resumed := true)])
  {
  }

  lemma TwoRemovals(m: map<string, string>, a: string, b: string)
    ensures m - {a} - {b} == m - {a, b}
  {
  }

  /** The addresses `compress_body` hands out, without the segment ids. */
  method CompressTo(pool: Pool.Store, body: string, id: string) returns (addrs: seq<string>)
    requires pool.Valid()
    modifies pool
    ensures pool.Valid()
    ensures pool.View() == P.AbsorbedAll(old(pool.View()), Segments.Paragraphs(body), id, pool.digest)
    ensures addrs == P.PlacedAll(old(pool.View()), Segments.Paragraphs(body), id, pool.digest)
  {
    var refs := pool.CompressBody(body, id);
    AddrsOfRefs(P.PlacedAll(old(pool.View()), Segments.Paragraphs(body), id, pool.digest));
    addrs := seq(|refs|, i requires 0 <= i < |refs| => refs[i].poolAddr);
  }

  method CompressFor(env: Env, pool: Pool.Store, body: string, id: string) returns (addrs: seq<string>)
    requires pool.Valid() && pool.digest == env.digest && IsStandard(env)
    modifies pool
    ensures pool.Valid()
    ensures pool.View() == P.AbsorbedAll(old(pool.View()), env.paragraphs(body), id, env.digest)
    ensures addrs == P.PlacedAll(old(pool.View()), env.paragraphs(body), id, env.digest)
  {
    assert env.paragraphs(body) == Segments.Paragraphs(body);
    addrs := CompressTo(pool, body, id);
  }

  class Memory {
    const env: Env
    const web: WebStore.Store
    const chains: ChainStore.Store
    const index: VectorIndex.Index
    const pool: Pool.Store
    var nodes: map<string, string>
    var weights: Weights
    var frozen: map<string, FrozenRec>
    var superseded: map<string, SupersededRec>

    constructor (e: Env, b: IndexData.Backend)
      requires IndexData.Injective(b) && IsStandard(e)
      ensures Valid() && env == e && index.backend == b && View() == START
      ensures fresh(web) && fresh(chains) && fresh(index) && fresh(pool)
    {
      env := e;
      web := new WebStore.Store();
      chains := new ChainStore.Store();
      index := new VectorIndex.Index(b);
      pool := new Pool.Store(e.digest);
      nodes, weights, frozen, superseded := map[], map[], map[], map[];
    }

    function GraphView(): Graph
      reads this, web, chains, index
    {
      Graph(web.edges, web.nodes, weights, chains.chains, index.View())
    }

    function View(): World
      reads this, web, chains, index, pool
    {
      World(nodes, GraphView(), pool.View(), frozen, superseded)
    }

    ghost predicate Valid()
      reads this, web, index, pool
    {
      web.Valid() && index.Valid() && pool.Valid() && pool.digest == env.digest && IsStandard(env)
    }

    /** The cascade over the four stores. */
    method Cascade(node: string)
      requires Valid()
      modifies this`weights, web, chains, index
      ensures Valid()
      ensures View() == old(View()).(graph := Forgotten(old(GraphView()), node))
    {
      var fname := ChainData.FileName(node);
      FileNameIdempotent(node);
      var edgesGone, rowsGone := web.ForgetNode(fname);
      weights := WeightsWithout(weights, fname);
      var touched, entriesGone, linksGone := chains.StripMember(fname);
      var tombstoned := index.TombstoneNode(fname);
    }

    /** `forget_node`: a superseding reason first archives the file that is still there. */
    method ForgetNode(node: string, superseding: bool)
      requires Valid()
      modifies this`nodes, this`weights, this`superseded, web, chains, index
      ensures Valid()
      ensures View() == if superseding then Superseded(old(View()), node) else ForgottenNode(old(View()), node)
    {
      var path := PathOf(StemOf(node));
      if superseding && path in nodes {
        superseded := superseded[StemOf(node) := SupersededRec(StemOf(node), nodes[path], false)];
        nodes := nodes - {path};
      }
      Cascade(node);
    }

    /** `freeze`: false when the file is missing, has no header, or is hot. */
    method Freeze(name: string) returns (done: bool)
      requires Valid()
      modifies this`nodes, this`weights, this`frozen, web, chains, index, pool
      ensures Valid()
      ensures done == CanFreeze(old(View()), name, env)
      ensures View() == Frozen(old(View()), name, env)
    {
      done := CanFreeze(View(), name, env);
      if done {
        FrozenIs(View(), name, env);
        assert env.parse(nodes[PathOf(name)]) == Frontmatter.ParseText(nodes[PathOf(name)], Values(env));
        var parsed := Frontmatter.Parse(nodes[PathOf(name)], Values(env));
        Retire(name, parsed.head, parsed.body, NodeId(parsed.head, name, env));
      }
    }

    /** The archiving part of a freeze: pool, archive record, removal of the file, cascade. */
    method Retire(name: string, head: Frontmatter.Head, body: string, id: string)
      requires Valid()
      modifies this`nodes, this`weights, this`frozen, web, chains, index, pool
      ensures Valid()
      ensures View() == Retired(old(View()), name, head, env.paragraphs(body), id, env)
    {
      var addrs := Pooled(body, id);
      FileAway(PathOf(name), id, FrozenRec(name, head, addrs, false));
      Cascade(name);
    }

    method FileAway(path: string, id: string, record: FrozenRec)
      requires Valid()
      modifies this`nodes, this`frozen
      ensures Valid()
      ensures View() == old(View()).(nodes := old(nodes) - {path}, frozen := old(frozen)[id := record])
    {
      frozen := frozen[id := record];
      nodes := nodes - {path};
    }

    /** The body's segments go into the pool; their addresses come back. */
    method Pooled(body: string, id: string) returns (addrs: seq<string>)
      requires Valid()
      modifies pool
      ensures Valid()
      ensures View() == old(View()).(pool := P.AbsorbedAll(old(pool.View()), env.paragraphs(body), id, env.digest))
      ensures addrs == P.PlacedAll(old(pool.View()), env.paragraphs(body), id, env.digest)
    {
      addrs := CompressFor(env, pool, body, id);
    }

    /** `thaw`: false without a unique archive, or when it has been thawed before. */
    method Thaw(id: string, today: string) returns (done: bool)
      requires Valid()
      modifies this`nodes, this`frozen
      ensures Valid()
      ensures View() == Thawed(old(View()), id, today, env)
      ensures done == CanThaw(old(View()), id)
    {
      done := CanThaw(View(), id);
      if done {
        ThawedIs(View(), id, today, env);
        var key := Lookup(frozen.Keys, id).value;
        var r := frozen[key];
        var body := P.Decompressed(pool.View(), r.addrs);
        WriteBack(PathOf(r.name), env.write(WarmHead(r.head, today), body), key, r.(resumed := true));
      }
    }

    method WriteBack(path: string, text: string, key: string, record: FrozenRec)
      requires Valid()
      modifies this`nodes, this`frozen
      ensures Valid()
      ensures View() == old(View()).(nodes := old(nodes)[path := text], frozen := old(frozen)[key := record])
    {
      nodes := nodes[path := text];
      frozen := frozen[key := record];
    }

    /** `merge`: true only when it ran to its end; with equal names it stops half-way. */
    method Merge(a: string, b: string) returns (done: bool)
      requires Valid()
      modifies this`nodes, this`weights, web, chains, index
      ensures Valid()
      ensures View() == Merged(old(View()), a, b, env)
      ensures done == (CanMerge(old(View()), a, b, env) && a != b)
    {
      done := false;
      if CanMerge(View(), a, b, env) {
        done := Fold(a, b, FoldedText(View(), a, b, env));
      }
    }

    /** Writing the merged file, removing the two, and forgetting them. */
    method Fold(a: string, b: string, text: string) returns (done: bool)
      requires Valid()
      modifies this`nodes, this`weights, web, chains, index
      ensures Valid()
      ensures View() == Folded(old(View()), a, b, text)
      ensures done == (a != b)
    {
      Replace(PathOf(MergedName(a, b)), text, PathOf(a), PathOf(b));
      done := a != b;
      if done {
        Cascade(a);
        Cascade(b);
      }
    }

    method Replace(path: string, text: string, first: string, second: string)
      requires Valid()
      modifies this`nodes
      ensures Valid()
      ensures View() == old(View()).(nodes := old(nodes)[path := text] - {first, second})
    {
      TwoRemovals(nodes[path := text], first, second);
      nodes := nodes[path := text];
      nodes := nodes - {first};
      nodes := nodes - {second};
    }

    /** `restore_node` */
    method RestoreNode(id: string) returns (done: bool)
      requires Valid()
      modifies this`nodes, this`superseded, index
      ensures Valid()
      ensures View() == Restored(old(View()), id)
      ensures done == CanRestore(old(View()), id)
    {
      done := CanRestore(View(), id);
      if done {
        var key := RestoreKey(View(), id).value;
        var r := superseded[key];
        nodes := nodes[PathOf(r.name) := r.text];
        SuffixedName(r.name);
        var cleared := index.UntombstoneNode(PathOf(r.name));
        superseded := superseded[key := r.(restored := true)];
      }
    }

    /** A build of the vector index from a listing of the node files. */
    method BuildIndex(listing: seq<string>, read: IndexData.Reader, rebuild: bool) returns (outcome: VectorIndex.BuildOutcome)
      requires Valid()
      requires IndexData.Distinct(IndexData.LoadAll(listing, read))
      modifies index
      ensures Valid()
      ensures index.View() == IndexData.Built(old(index.View()), IndexData.LoadAll(listing, read), rebuild, index.backend)
    {
      BuiltEither(index.View(), IndexData.LoadAll(listing, read), rebuild, index.backend);
      outcome := index.Build(listing, read, rebuild);
    }

    /** One consolidation pass, guarded by the present node files or not. */
    method Sync(items: seq<WebData.Item>, appearances: seq<(string, real)>, guarded: bool, now: string, day: int,
                dayOf: string -> Option<int>) returns (stats: WebStore.SyncStats)
      requires Valid()
      modifies web
      ensures Valid()
      ensures GraphView()
           == SyncedGraph(old(GraphView()), items, appearances, if guarded then Some(nodes.Keys) else None, now, day, dayOf)
    {
      stats := web.SyncFromConsolidation(items, appearances, if guarded then Some(nodes.Keys) else None, now, day, dayOf);
    }
  }

  /** A build writes what the loaded files give, cache or not. */
  lemma BuiltEither(st: IndexData.Stored, loaded: seq<IndexData.Loaded>, rebuild: bool, b: IndexData.Backend)
    requires IndexData.Coherent(st, b) && IndexData.Injective(b) && IndexData.Distinct(loaded)
    ensures IndexData.Built(st, loaded, rebuild, b) == if loaded == [] then st else IndexData.Rebuilt(loaded, b)
  {
    if loaded != [] { IndexData.IncrementalIsRebuild(st, loaded, rebuild, b); }
  }

  lemma SuffixedName(name: string)
    ensures ChainData.FileName(PathOf(name)) == PathOf(name)
  {
    assert PathOf(name)[|PathOf(name)| - 3..] == ".md";
  }
}
