/** What every run of the node lifecycle keeps (samia/core/ia.py): no ghosts, readable
    archives, and reversible supersession. */
module LifecycleLaws {
  import opened Options
  import opened GraphStores
  import opened LifecycleData
  import opened NodeFields
  import ChainData
  import Frontmatter
  import IndexData
  import P = PoolData
  import Segments
  import Strings
  import WebData

  // ---- names and files ------------------------------------------------------------------------

  lemma PlainName(name: string)
    requires !Strings.EndsWith(name, ".md")
    ensures ChainData.FileName(name) == PathOf(name)
  {
  }

  lemma StemPath(node: string)
    ensures PathOf(StemOf(node)) == ChainData.FileName(node)
  {
    if Strings.EndsWith(node, ".md") { assert node == node[..|node| - 3] + node[|node| - 3..]; }
  }

  lemma MergedPathIsNew(a: string, b: string)
    ensures PathOf(MergedName(a, b)) != PathOf(a) && PathOf(MergedName(a, b)) != PathOf(b)
  {
    assert |MergedName(a, b)| == |a| + |b| + 9;
  }

  // ---- each operation keeps the invariant exactly when it is safe ---------------------------------

  /** Freezing leaves no ghost exactly when whatever points at the removed file, by the code's own
      resolution, carries the forgotten name. */
  lemma FreezeKeepsExactlyWhen(w: World, name: string, env: Env)
    requires NoGhosts(w) && P.Ordered(w.pool)
    ensures NoGhosts(Frozen(w, name, env)) <==> SafeIn(w, Freeze(name), env)
  {
    if CanFreeze(w, name, env) {
      ForgottenWithin(w.graph, w.nodes.Keys, name, {PathOf(name)});
      assert Frozen(w, name, env).nodes.Keys == w.nodes.Keys - {PathOf(name)};
    }
  }

  lemma MergedFiles(w: World, a: string, b: string, text: string)
    ensures Folded(w, a, b, text).nodes.Keys == w.nodes.Keys + {PathOf(MergedName(a, b))} - MergeGone(a, b)
  {
  }

  lemma TwoForgotten(g: Graph, live: set<string>, a: string, b: string, gone: set<string>)
    requires Within(g, live)
    ensures var after := Forgotten(Forgotten(g, a), b);
      Within(after, live - gone) <==> Covered(g, gone, {ChainData.FileName(a), ChainData.FileName(b)})
  {
    ForgottenAddsNothing(g, live, a);
    ForgottenWithin(Forgotten(g, a), live, b, gone);
    ForgottenCovered(g, a, gone, {ChainData.FileName(b)});
    assert {ChainData.FileName(b)} + {ChainData.FileName(a)} == {ChainData.FileName(a), ChainData.FileName(b)};
  }

  /** The same for a merge and its two files. */
  lemma MergeKeepsExactlyWhen(w: World, a: string, b: string, env: Env)
    requires NoGhosts(w)
    ensures NoGhosts(Merged(w, a, b, env)) <==> SafeIn(w, Merge(a, b), env)
  {
    if CanMerge(w, a, b, env) {
      var text := FoldedText(w, a, b, env);
      var more := w.nodes.Keys + {PathOf(MergedName(a, b))};
      MergedFiles(w, a, b, text);
      WithinMore(w.graph, w.nodes.Keys, more);
      if a == b {
        WithinLess(w.graph, more, MergeGone(a, b));
      } else {
        TwoForgotten(w.graph, more, a, b, MergeGone(a, b));
      }
    }
  }

  /** The same for a superseded node, whose file and name always agree: only a chain entry that
      omits the suffix can be left behind. */
  lemma SupersedeKeepsExactlyWhen(w: World, node: string)
    requires NoGhosts(w)
    ensures NoGhosts(Superseded(w, node)) <==>
      (PathOf(StemOf(node)) in w.nodes ==> Covered(w.graph, {ChainData.FileName(node)}, {ChainData.FileName(node)}))
  {
    StemPath(node);
    ForgottenWithin(w.graph, w.nodes.Keys, node, {ChainData.FileName(node)});
    if PathOf(StemOf(node)) in w.nodes {
      assert Superseded(w, node).nodes.Keys == w.nodes.Keys - {ChainData.FileName(node)};
    }
  }

  lemma MoreFilesKeep(w: World, v: World)
    requires NoGhosts(w) && v.graph == w.graph && w.nodes.Keys <= v.nodes.Keys
    ensures NoGhosts(v)
  {
    WithinMore(w.graph, w.nodes.Keys, v.nodes.Keys);
  }

  /** Forgetting alone removes no file, and adds no presence. */
  lemma ForgottenKeeps(w: World, node: string)
    requires NoGhosts(w)
    ensures NoGhosts(ForgottenNode(w, node))
  {
    ForgottenAddsNothing(w.graph, w.nodes.Keys, node);
  }

  lemma RestoredKeeps(w: World, id: string)
    requires NoGhosts(w)
    ensures NoGhosts(Restored(w, id))
  {
    var v := Restored(w, id);
    WithinMore(w.graph, w.nodes.Keys, v.nodes.Keys);
    if v != w {
      var r := w.superseded[RestoreKey(w, id).value];
      FlaggedWithin(w.graph.index, v.nodes.Keys, r.name);
    }
  }

  lemma FlaggedWithin(st: IndexData.Stored, live: set<string>, name: string)
    requires EntriesWithin(st, live) && PathOf(name) in live
    ensures EntriesWithin(IndexData.Flagged(st, PathOf(name), false), live)
  {
    assert PathOf(name)[|PathOf(name)| - 3..] == ".md";
  }

  lemma BuiltKeeps(w: World, loaded: seq<IndexData.Loaded>, rebuild: bool, backend: IndexData.Backend)
    requires NoGhosts(w) && forall i :: 0 <= i < |loaded| ==> loaded[i].rel in w.nodes
    ensures EntriesWithin(IndexData.Built(w.graph.index, loaded, rebuild, backend), w.nodes.Keys)
  {
    BuiltWithin(loaded, backend, w.nodes.Keys);
  }

  /** A consolidation pass that runs without the guard may or may not leave ghosts; every other
      operation leaves none exactly when it is safe. */
  lemma StepKeepsNoGhosts(w: World, op: Op, env: Env)
    requires NoGhosts(w) && WebData.Canonical(w.graph.edges) && P.Ordered(w.pool)
    requires Possible(w, op)
    ensures SafeIn(w, op, env) ==> NoGhosts(Step(w, op, env))
    ensures NoGhosts(Step(w, op, env)) && (op.Sync? ==> op.guarded) ==> SafeIn(w, op, env)
  {
    match op
    case Write(name, text) => MoreFilesKeep(w, Step(w, op, env));
    case Freeze(name) => FreezeKeepsExactlyWhen(w, name, env);
    case Thaw(id, today) => MoreFilesKeep(w, Step(w, op, env));
    case Merge(a, b) => MergeKeepsExactlyWhen(w, a, b, env);
    case Supersede(node) => SupersedeKeepsExactlyWhen(w, node);
    case Forget(node) => ForgottenKeeps(w, node);
    case Restore(id) => RestoredKeeps(w, id);
    case Coactivate(key, weight) =>
    case Enrol(chains) =>
    case Sync(items, appearances, guarded, now, day, dayOf) =>
      GuardedSyncWithin(w.graph, items, appearances, w.nodes.Keys, now, day, dayOf);
    case Build(loaded, rebuild, backend) => BuiltKeeps(w, loaded, rebuild, backend);
  }

  lemma StepKeepsCanonical(w: World, op: Op, env: Env)
    requires WebData.Canonical(w.graph.edges) && P.Ordered(w.pool)
    ensures WebData.Canonical(Step(w, op, env).graph.edges)
  {
    if op.Sync? {
      WebData.SyncCreatesNoGhost(w.graph.edges, op.items, if op.guarded then Some(w.nodes.Keys) else None, op.now, op.day, op.dayOf);
    }
  }

  // ---- the archive -----------------------------------------------------------------------------------

  lemma ArchivedHolds(w: World, name: string, h: Frontmatter.Head, segments: seq<string>, env: Env)
    requires ArchiveHeld(w, env) && Segments.AllParagraphs(segments)
    ensures ArchiveHeld(Archived(w, name, h, segments, env), env)
    ensures P.Extends(w.pool, Archived(w, name, h, segments, env).pool)
  {
    var id := NodeId(h, name, env);
    P.PoolStep(w.pool, segments, id, env.digest);
    var v := Archived(w, name, h, segments, env);
    forall k | k in v.frozen ensures P.AllHeld(v.pool, v.frozen[k].addrs) {
      if k != id { P.PartsStayTheSame(w.pool, v.pool, w.frozen[k].addrs); }
    }
  }

  lemma StandardParagraphs(body: string, env: Env)
    requires IsStandard(env)
    ensures env.paragraphs(body) == Segments.Paragraphs(body) && Segments.AllParagraphs(env.paragraphs(body))
  {
    Segments.SegmentsAreParagraphs(body);
  }

  lemma FrozenHolds(w: World, name: string, env: Env)
    requires IsStandard(env)
    requires ArchiveHeld(w, env)
    ensures ArchiveHeld(Frozen(w, name, env), env) && P.Extends(w.pool, Frozen(w, name, env).pool)
  {
    P.ExtendsReflexive(w.pool);
    if CanFreeze(w, name, env) {
      var p := ParsedNode(w, name, env);
      StandardParagraphs(p.body, env);
      ArchivedHolds(w, name, p.head, env.paragraphs(p.body), env);
    }
  }

  lemma SameArchive(w: World, v: World, env: Env)
    requires ArchiveHeld(w, env) && v.pool == w.pool && v.frozen == w.frozen
    ensures ArchiveHeld(v, env) && P.Extends(w.pool, v.pool)
  {
    P.ExtendsReflexive(w.pool);
  }

  lemma ThawedHolds(w: World, id: string, today: string, env: Env)
    requires ArchiveHeld(w, env)
    ensures ArchiveHeld(Thawed(w, id, today, env), env) && P.Extends(w.pool, Thawed(w, id, today, env).pool)
  {
    P.ExtendsReflexive(w.pool);
    var v := Thawed(w, id, today, env);
    forall k | k in v.frozen ensures P.AllHeld(v.pool, v.frozen[k].addrs) {
      assert v.frozen[k].addrs == w.frozen[k].addrs;
    }
  }

  lemma OtherStepsLeaveArchive(w: World, op: Op, env: Env)
    requires P.Ordered(w.pool) && !op.Freeze? && !op.Thaw?
    ensures Step(w, op, env).pool == w.pool && Step(w, op, env).frozen == w.frozen
  {
  }

  lemma StepHolds(w: World, op: Op, env: Env)
    requires IsStandard(env)
    requires ArchiveHeld(w, env)
    ensures ArchiveHeld(Step(w, op, env), env) && P.Extends(w.pool, Step(w, op, env).pool)
  {
    if op.Freeze? {
      FrozenHolds(w, op.name, env);
    } else if op.Thaw? {
      ThawedHolds(w, op.id, op.today, env);
    } else {
      OtherStepsLeaveArchive(w, op, env);
      SameArchive(w, Step(w, op, env), env);
    }
  }

  // ---- runs -----------------------------------------------------------------------------------------

  ghost function RunFrom(w: World, ops: seq<Op>, env: Env): (v: World)
    requires P.Ordered(w.pool)
    ensures P.Ordered(v.pool)
  {
    if ops == [] then w else Step(RunFrom(w, ops[..|ops| - 1], env), ops[|ops| - 1], env)
  }

  /** Each step is possible where it happens, and synchronisations are guarded. */
  ghost predicate PossibleRun(w: World, ops: seq<Op>, env: Env)
    requires P.Ordered(w.pool)
  {
    ops != [] ==>
      var before, op := ops[..|ops| - 1], ops[|ops| - 1];
      PossibleRun(w, before, env) && Possible(RunFrom(w, before, env), op) && (op.Sync? ==> op.guarded)
  }

  ghost predicate SafeRun(w: World, ops: seq<Op>, env: Env)
    requires P.Ordered(w.pool)
  {
    ops != [] ==>
      var before, op := ops[..|ops| - 1], ops[|ops| - 1];
      SafeRun(w, before, env) && SafeIn(RunFrom(w, before, env), op, env)
  }

  /** No ghost at any point of the run. */
  ghost predicate NeverHaunted(w: World, ops: seq<Op>, env: Env)
    requires P.Ordered(w.pool)
  {
    NoGhosts(RunFrom(w, ops, env)) && (ops != [] ==> NeverHaunted(w, ops[..|ops| - 1], env))
  }

  /** From a sound memory, at no point of a run does an absent node have an edge, a chain entry
      or a live vector entry exactly when every step is safe where it happens; and every archived
      body is still in the pool whether or not. */
  lemma {:induction false} RunIsSound(w: World, ops: seq<Op>, env: Env)
    requires IsStandard(env)
    requires Sound(w, env) && PossibleRun(w, ops, env)
    ensures NeverHaunted(w, ops, env) <==> SafeRun(w, ops, env)
    ensures var v := RunFrom(w, ops, env); WebData.Canonical(v.graph.edges) && ArchiveHeld(v, env)
    decreases |ops|
  {
    if ops != [] {
      var before, op := ops[..|ops| - 1], ops[|ops| - 1];
      RunIsSound(w, before, env);
      var v := RunFrom(w, before, env);
      if NeverHaunted(w, before, env) { StepKeepsNoGhosts(v, op, env); }
      StepKeepsCanonical(v, op, env);
      StepHolds(v, op, env);
    }
  }

  // ---- runs whose safety shows in the operations -----------------------------------------------------

  lemma PlainIsSafe(w: World, op: Op, env: Env)
    requires FullyNamed(w.graph.chains) && Plain(op)
    ensures SafeIn(w, op, env)
  {
    match op
    case Freeze(name) =>
      PlainName(name);
      FullNamesCover(w.graph, {PathOf(name)});
    case Merge(a, b) =>
      PlainName(a);
      PlainName(b);
      FullNamesCover(w.graph, MergeGone(a, b));
    case Supersede(node) =>
      FullNamesCover(w.graph, {ChainData.FileName(node)});
    case _ =>
  }

  lemma FullNamesStay(w: World, op: Op, env: Env)
    requires P.Ordered(w.pool) && FullyNamed(w.graph.chains) && Plain(op)
    ensures FullyNamed(Step(w, op, env).graph.chains)
  {
    match op
    case Freeze(name) => FullyNamedStays(w.graph, name);
    case Merge(a, b) =>
      FullyNamedStays(w.graph, a);
      FullyNamedStays(Forgotten(w.graph, a), b);
    case Supersede(node) => FullyNamedStays(w.graph, node);
    case Forget(node) => FullyNamedStays(w.graph, node);
    case _ =>
  }

  ghost predicate AllPlain(ops: seq<Op>) {
    forall i :: 0 <= i < |ops| ==> Plain(ops[i])
  }

  /** Where chain entries name their files in full, node names do not end in ".md", no node is
      merged with itself, and passes are guarded, every run is safe. */
  lemma {:induction false} PlainRunIsSafe(w: World, ops: seq<Op>, env: Env)
    requires P.Ordered(w.pool) && FullyNamed(w.graph.chains) && AllPlain(ops)
    ensures SafeRun(w, ops, env) && FullyNamed(RunFrom(w, ops, env).graph.chains)
    decreases |ops|
  {
    if ops != [] {
      var before, op := ops[..|ops| - 1], ops[|ops| - 1];
      PlainRunIsSafe(w, before, env);
      assert Plain(op);
      PlainIsSafe(RunFrom(w, before, env), op, env);
      FullNamesStay(RunFrom(w, before, env), op, env);
    }
  }

  /** Whatever happens later, safe or not, an archived body decompresses to the same text. */
  lemma {:induction false} ArchiveReadsTheSame(w: World, ops: seq<Op>, env: Env, addrs: seq<string>)
    requires IsStandard(env)
    requires ArchiveHeld(w, env) && P.AllHeld(w.pool, addrs)
    ensures ArchiveHeld(RunFrom(w, ops, env), env)
    ensures P.Extends(w.pool, RunFrom(w, ops, env).pool)
    ensures P.Decompressed(RunFrom(w, ops, env).pool, addrs) == P.Decompressed(w.pool, addrs)
    decreases |ops|
  {
    if ops == [] {
      P.ExtendsReflexive(w.pool);
    } else {
      var before, op := ops[..|ops| - 1], ops[|ops| - 1];
      ArchiveReadsTheSame(w, before, env, addrs);
      var v := RunFrom(w, before, env);
      StepHolds(v, op, env);
      P.ExtendsTransitive(w.pool, v.pool, Step(v, op, env).pool);
      P.PartsStayTheSame(w.pool, Step(v, op, env).pool, addrs);
    }
  }

  // ---- the record of an archived node ------------------------------------------------------------------

  /** The operation replaces the record: a freeze under the same id with anything else to record,
      or the thaw of it. */
  predicate Overwrites(w: World, op: Op, id: string, env: Env)
    requires P.Ordered(w.pool) && id in w.frozen
  {
    match op
    case Freeze(name) =>
      && CanFreeze(w, name, env)
      && var p := ParsedNode(w, name, env);
         && NodeId(p.head, name, env) == id
         && w.frozen[id] != FrozenRec(name, p.head, P.PlacedAll(w.pool, env.paragraphs(p.body), id, env.digest), false)
    case Thaw(given, _) => CanThaw(w, given) && Lookup(w.frozen.Keys, given).value == id
    case _ => false
  }

  lemma StepKeepsRecord(w: World, op: Op, id: string, env: Env)
    requires P.Ordered(w.pool) && id in w.frozen
    ensures id in Step(w, op, env).frozen
    ensures Step(w, op, env).frozen[id] == w.frozen[id] <==> !Overwrites(w, op, id, env)
  {
    if !op.Freeze? && !op.Thaw? { OtherStepsLeaveArchive(w, op, env); }
  }

  /** The record is the same at every point of the run. */
  ghost predicate RecordKept(w: World, ops: seq<Op>, id: string, r: FrozenRec, env: Env)
    requires P.Ordered(w.pool)
  {
    && id in RunFrom(w, ops, env).frozen && RunFrom(w, ops, env).frozen[id] == r
    && (ops != [] ==> RecordKept(w, ops[..|ops| - 1], id, r, env))
  }

  ghost predicate NeverOverwritten(w: World, ops: seq<Op>, id: string, env: Env)
    requires P.Ordered(w.pool)
  {
    ops != [] ==>
      var v := RunFrom(w, ops[..|ops| - 1], env);
      && NeverOverwritten(w, ops[..|ops| - 1], id, env)
      && id in v.frozen && !Overwrites(v, ops[|ops| - 1], id, env)
  }

  /** An archived node keeps its record, and so stays thawable as it was frozen, exactly when no
      step thaws it or freezes another state under its id; freezing warns of neither. */
  lemma {:induction false} RecordKeptExactlyWhen(w: World, ops: seq<Op>, id: string, env: Env)
    requires P.Ordered(w.pool) && id in w.frozen
    ensures RecordKept(w, ops, id, w.frozen[id], env) <==> NeverOverwritten(w, ops, id, env)
    decreases |ops|
  {
    if ops != [] {
      var before, op := ops[..|ops| - 1], ops[|ops| - 1];
      RecordKeptExactlyWhen(w, before, id, env);
      if RecordKept(w, before, id, w.frozen[id], env) {
        StepKeepsRecord(RunFrom(w, before, env), op, id, env);
      }
    }
  }
}
