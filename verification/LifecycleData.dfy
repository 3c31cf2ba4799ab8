/** The node lifecycle (samia/core/ia.py): what each operation makes of the memory. */
module LifecycleData {
  import opened Options
  import opened GraphStores
  import opened NodeFields
  import ChainData
  import ChainStore
  import Frontmatter
  import HeaderLines
  import IndexData
  import MergedNode
  import P = PoolData
  import Segments
  import Strings
  import WebData

  /** An archived node: its name, header, the pool addresses of its body, and whether it has
      been thawed. */
  datatype FrozenRec = FrozenRec(name: string, head: Frontmatter.Head, addrs: seq<string>, resumed: bool)

  /** A superseded node, kept verbatim. */
  datatype SupersededRec = SupersededRec(name: string, text: string, restored: bool)

  /** The memory directory: node files by file name, the graph stores, the pool, and the two
      kinds of archive. */
  datatype World = World(nodes: map<string, string>, graph: Graph, pool: P.Pool, frozen: map<string, FrozenRec>,
                         superseded: map<string, SupersededRec>)

  const START := World(map[], BARE, P.EMPTY, map[], map[])

  /** The texts of values, the segment digest, the splitting of bodies, the reading and writing of
      node files, and what a merge makes of two files. */
  datatype Env = Env(texts: Texts, digest: P.Digest, paragraphs: string -> seq<string>,
                     parse: string -> Frontmatter.Parsed, write: (Frontmatter.Head, string) -> string,
                     merged: (string, Frontmatter.Parsed, string, Frontmatter.Parsed) -> Option<(Frontmatter.Head, string)>)

  function Values(env: Env): HeaderLines.Codec {
    HeaderLines.Standard(env.texts.floats)
  }

  /** Bodies are split into paragraphs, node files are read and written as frontmatter with the
      standard values, and files are merged as the code does. */
  ghost predicate IsStandard(env: Env) {
    && (forall body :: env.paragraphs(body) == Segments.Paragraphs(body))
    && (forall text :: env.parse(text) == Frontmatter.ParseText(text, Values(env)))
    && (forall h, body :: env.write(h, body) == Frontmatter.Serialized(h, body, Values(env)))
    && (forall a, pa, b, pb :: env.merged(a, pa, b, pb) == MergedNode.MergedFile(a, pa, b, pb, env.texts))
  }

  function StandardEnv(texts: Texts, digest: P.Digest): (env: Env)
    ensures IsStandard(env) && env.texts == texts && env.digest == digest
  {
    var c := HeaderLines.Standard(texts.floats);
    Env(texts, digest, Segments.Paragraphs, text => Frontmatter.ParseText(text, c),
        (h, body) => Frontmatter.Serialized(h, body, c),
        (a, pa, b, pb) => MergedNode.MergedFile(a, pa, b, pb, texts))
  }

  function NodeId(h: Frontmatter.Head, name: string, env: Env): string {
    match Field(h, "address") case Some(v) => PyStr(v, env.texts) case None => name
  }

  // ---- freeze and thaw ------------------------------------------------------------------------

  function ParsedNode(w: World, name: string, env: Env): Frontmatter.Parsed {
    if PathOf(name) in w.nodes then env.parse(w.nodes[PathOf(name)]) else Frontmatter.NoHeader
  }

  /** The file is there, has a header, and is not hot. */
  predicate CanFreeze(w: World, name: string, env: Env) {
    ParsedNode(w, name, env).Parsed? && !IsHot(ParsedNode(w, name, env).head)
  }

  /** The body goes into the pool, and the header with the addresses into the archive. */
  function Archived(w: World, name: string, h: Frontmatter.Head, segments: seq<string>, env: Env): World
    requires P.Ordered(w.pool)
  {
    var id := NodeId(h, name, env);
    w.(pool := P.AbsorbedAll(w.pool, segments, id, env.digest),
       frozen := w.frozen[id := FrozenRec(name, h, P.PlacedAll(w.pool, segments, id, env.digest), false)])
  }

  function Frozen(w: World, name: string, env: Env): World
    requires P.Ordered(w.pool)
  {
    if !CanFreeze(w, name, env) then w
    else
      var p := ParsedNode(w, name, env);
      var a := Archived(w, name, p.head, env.paragraphs(p.body), env);
      a.(nodes := w.nodes - {PathOf(name)}, graph := Forgotten(w.graph, name))
  }

  predicate Contains(s: string, part: string) {
    Strings.Find(s, part, 0) >= 0
  }

  /** The archive key a name stands for: itself, or the only key that contains it. */
  function Lookup(keys: set<string>, id: string): Option<string> {
    if id in keys then Some(id) else OnlyMatch(set k | k in keys && Contains(k, id))
  }

  lemma OnlyElement(found: set<string>)
    requires |found| == 1
    ensures exists k :: k in found && found == {k}
  {
    var k :| k in found;
    assert |found - {k}| == 0;
    assert found == {k};
  }

  function OnlyMatch(found: set<string>): Option<string> {
    if |found| == 1 then
      OnlyElement(found);
      var k :| k in found && found == {k};
      Some(k)
    else None
  }

  /** There is one archive for the name, and it has not been thawed. */
  predicate CanThaw(w: World, id: string) {
    var k := Lookup(w.frozen.Keys, id);
    k.Some? && k.value in w.frozen && !w.frozen[k.value].resumed
  }

  function Thawed(w: World, id: string, today: string, env: Env): World {
    if !CanThaw(w, id) then w
    else
      var k := Lookup(w.frozen.Keys, id).value;
      var r := w.frozen[k];
      w.(nodes := w.nodes[PathOf(r.name) := env.write(WarmHead(r.head, today), P.Decompressed(w.pool, r.addrs))],
         frozen := w.frozen[k := r.(resumed := true)])
  }

  // ---- merge ------------------------------------------------------------------------------------

  /** The chains a header names; a text counts as the set of its characters. */
  function ChainNames(h: Frontmatter.Head): set<string> {
    match Field(h, "chains")
    case None => {}
    case Some(v) =>
      match v
      case List(items) => set c | c in items
      case Str(s) => set i | 0 <= i < |s| :: [s[i]]
      case _ => {}
  }

  /** Both files have headers of a common chain, neither is hot, and their numbers can be read. */
  predicate CanMerge(w: World, a: string, b: string, env: Env) {
    var pa, pb := ParsedNode(w, a, env), ParsedNode(w, b, env);
    && pa.Parsed? && pb.Parsed? && ChainNames(pa.head) * ChainNames(pb.head) != {} && !IsHot(pa.head) && !IsHot(pb.head)
    && env.merged(a, pa, b, pb).Some?
  }

  /** The header and the body a merge makes. */
  function MergedParts(w: World, a: string, b: string, env: Env): (Frontmatter.Head, string)
    requires CanMerge(w, a, b, env)
  {
    env.merged(a, ParsedNode(w, a, env), b, ParsedNode(w, b, env)).value
  }

  /** The text of the file a merge writes. */
  function FoldedText(w: World, a: string, b: string, env: Env): string
    requires CanMerge(w, a, b, env)
  {
    var p := MergedParts(w, a, b, env);
    env.write(p.0, p.1)
  }

  function MergedName(a: string, b: string): string {
    a + "__merged_" + b
  }

  /** Merging a node with itself stops at the second removal, before anything is forgotten. */
  function Folded(w: World, a: string, b: string, text: string): World {
    var files := w.nodes[PathOf(MergedName(a, b)) := text] - {PathOf(a), PathOf(b)};
    if a == b then w.(nodes := files) else w.(nodes := files, graph := Forgotten(Forgotten(w.graph, a), b))
  }

  function Merged(w: World, a: string, b: string, env: Env): World {
    if CanMerge(w, a, b, env) then Folded(w, a, b, FoldedText(w, a, b, env)) else w
  }

  // ---- supersede and restore ----------------------------------------------------------------------

  function StemOf(node: string): string {
    if Strings.EndsWith(node, ".md") then node[..|node| - 3] else node
  }

  function Superseded(w: World, node: string): World {
    var name := StemOf(node);
    var v := w.(graph := Forgotten(w.graph, node));
    if PathOf(name) in w.nodes then
      v.(nodes := w.nodes - {PathOf(name)},
         superseded := w.superseded[name := SupersededRec(name, w.nodes[PathOf(name)], false)])
    else v
  }

  /** `forget_node` for the other reasons: the cascade alone. */
  function ForgottenNode(w: World, node: string): World {
    w.(graph := Forgotten(w.graph, node))
  }

  function RestoreKey(w: World, id: string): Option<string> {
    if id in w.superseded then Some(id) else Lookup(w.superseded.Keys, StemOf(id))
  }

  /** There is one archive for the name, and it has not been restored. */
  predicate CanRestore(w: World, id: string) {
    var k := RestoreKey(w, id);
    k.Some? && k.value in w.superseded && !w.superseded[k.value].restored
  }

  function Restored(w: World, id: string): World {
    if !CanRestore(w, id) then w
    else
      var k := RestoreKey(w, id).value;
      var r := w.superseded[k];
      w.(nodes := w.nodes[PathOf(r.name) := r.text],
         superseded := w.superseded[k := r.(restored := true)],
         graph := w.graph.(index := IndexData.Flagged(w.graph.index, PathOf(r.name), false)))
  }

  // ---- runs ---------------------------------------------------------------------------------------

  /** What may happen to the memory. `Enrol` writes chain manifests from the present files,
      `Coactivate` writes a weight for any pair, dead or alive. */
  datatype Op =
    | Write(name: string, text: string)
    | Freeze(name: string)
    | Thaw(id: string, today: string)
    | Merge(a: string, b: string)
    | Supersede(node: string)
    | Forget(node: string)
    | Restore(id: string)
    | Coactivate(key: string, weight: real)
    | Enrol(chains: ChainStore.Manifests)
    | Sync(items: seq<WebData.Item>, appearances: seq<(string, real)>, guarded: bool, now: string, day: int,
           dayOf: string -> Option<int>)
    | Build(loaded: seq<IndexData.Loaded>, rebuild: bool, backend: IndexData.Backend)

  ghost predicate Possible(w: World, op: Op) {
    match op
    case Enrol(chains) => ChainsWithin(chains, w.nodes.Keys)
    case Build(loaded, _, _) => forall i :: 0 <= i < |loaded| ==> loaded[i].rel in w.nodes
    case _ => true
  }

  ghost function Step(w: World, op: Op, env: Env): (v: World)
    requires P.Ordered(w.pool)
    ensures P.Ordered(v.pool)
  {
    match op
    case Write(name, text) => w.(nodes := w.nodes[PathOf(name) := text])
    case Freeze(name) => Frozen(w, name, env)
    case Thaw(id, today) => Thawed(w, id, today, env)
    case Merge(a, b) => Merged(w, a, b, env)
    case Supersede(node) => Superseded(w, node)
    case Forget(node) => ForgottenNode(w, node)
    case Restore(id) => Restored(w, id)
    case Coactivate(key, weight) => w.(graph := w.graph.(weights := w.graph.weights[key := weight]))
    case Enrol(chains) => w.(graph := w.graph.(chains := chains))
    case Sync(items, appearances, guarded, now, day, dayOf) =>
      w.(graph := SyncedGraph(w.graph, items, appearances, if guarded then Some(w.nodes.Keys) else None, now, day, dayOf))
    case Build(loaded, rebuild, backend) =>
      w.(graph := w.graph.(index := IndexData.Built(w.graph.index, loaded, rebuild, backend)))
  }

  // ---- the invariants --------------------------------------------------------------------------------

  /** No file, no presence: every co-activation edge, chain entry and live vector entry is of a
      node that has its file. */
  ghost predicate NoGhosts(w: World) {
    Within(w.graph, w.nodes.Keys)
  }

  /** The pool is sound and holds every archived body. */
  ghost predicate ArchiveHeld(w: World, env: Env) {
    && P.Valid(w.pool, env.digest) && P.Clean(w.pool)
    && forall id :: id in w.frozen ==> P.AllHeld(w.pool, w.frozen[id].addrs)
  }

  ghost predicate Sound(w: World, env: Env) {
    NoGhosts(w) && WebData.Canonical(w.graph.edges) && ArchiveHeld(w, env)
  }

  /** The files a merge removes, and the names it forgets: none when a node is merged with itself. */
  function MergeGone(a: string, b: string): set<string> {
    {PathOf(a), PathOf(b)}
  }

  function MergeForgets(a: string, b: string): set<string> {
    if a == b then {} else {ChainData.FileName(a), ChainData.FileName(b)}
  }

  /** What a caller can check beforehand: whatever points at a file about to be removed carries
      a name about to be forgotten, and a synchronisation is guarded. */
  ghost predicate SafeIn(w: World, op: Op, env: Env) {
    match op
    case Freeze(name) =>
      CanFreeze(w, name, env) ==> Covered(w.graph, {PathOf(name)}, {ChainData.FileName(name)})
    case Merge(a, b) =>
      CanMerge(w, a, b, env) ==> Covered(w.graph, MergeGone(a, b), MergeForgets(a, b))
    case Supersede(node) =>
      PathOf(StemOf(node)) in w.nodes ==> Covered(w.graph, {ChainData.FileName(node)}, {ChainData.FileName(node)})
    case Sync(_, _, guarded, _, _, _) => guarded
    case _ => true
  }

  /** The part of that condition which can be read off the operation alone. */
  ghost predicate Plain(op: Op) {
    match op
    case Freeze(name) => !Strings.EndsWith(name, ".md")
    case Merge(a, b) => a != b && !Strings.EndsWith(a, ".md") && !Strings.EndsWith(b, ".md")
    case Sync(_, _, guarded, _, _, _) => guarded
    case Enrol(chains) => FullyNamed(chains)
    case _ => true
  }
}
