/** What forgetting a node removes from each store (samia/core/ia.py), in terms of the stored
    texts, and what keeps a forgotten node out of the stores over a run. */
module Forgetting {
  import opened FileTexts
  import opened Filters
  import opened GraphStores
  import opened KeyTexts
  import opened LifecycleData
  import opened LifecycleLaws
  import opened Options
  import ChainData
  import ChainStore
  import IndexLaws
  import P = PoolData
  import Strings
  import WebData

  // ---- names in texts ------------------------------------------------------------------------

  /** One of the parts that "::" cuts the key into is the name. */
  ghost predicate Component(key: string, name: string) {
    exists parts :: IsSplit(key, "::", parts) && name in parts
  }

  lemma ComponentExactly(key: string, name: string)
    ensures Component(key, name) <==> name in Strings.Split(key, "::")
  {
    SplitExactly(key, "::", Strings.Split(key, "::"));
    if Component(key, name) {
      var parts :| IsSplit(key, "::", parts) && name in parts;
      SplitExactly(key, "::", parts);
    }
  }

  /** A chain entry of the file: its path, if it has one, leads to it. */
  ghost predicate EntryOf(m: ChainData.Member, fname: string) {
    m.file.Some? && m.file.value != "" && IsPathTo(m.file.value, fname)
  }

  lemma EntryExactly(m: ChainData.Member, fname: string)
    ensures ChainData.IsEntryOf(m, fname) <==> EntryOf(m, fname)
  {
    if m.file.Some? { BaseNameExactly(m.file.value, fname); }
  }

  /** The address belongs to an entry of the file. */
  ghost predicate AddressOf(c: ChainData.Chain, a: string, fname: string) {
    exists m :: m in c.members && EntryOf(m, fname) && m.addr == Some(a) && a != ""
  }

  lemma AddressExactly(c: ChainData.Chain, a: string, fname: string)
    ensures a in ChainData.DeadAddrs(c.members, fname) <==> AddressOf(c, a, fname)
  {
    if a in ChainData.DeadAddrs(c.members, fname) {
      var i :| 0 <= i < |c.members| && ChainData.IsEntryOf(c.members[i], fname) && ChainData.HasAddr(c.members[i])
        && c.members[i].addr.value == a;
      EntryExactly(c.members[i], fname);
    }
    if AddressOf(c, a, fname) {
      var m :| m in c.members && EntryOf(m, fname) && m.addr == Some(a) && a != "";
      EntryExactly(m, fname);
      var i :| 0 <= i < |c.members| && c.members[i] == m;
    }
  }

  // ---- what each store loses -----------------------------------------------------------------

  /** Rows of every kind, at either end, with the others as they were. */
  ghost predicate RowsGone(before: WebData.Table, after: WebData.Table, fname: string) {
    && (forall k :: k in after <==> k in before && k.src != fname && k.dst != fname)
    && (forall k :: k in after ==> after[k] == before[k])
  }

  ghost predicate MassGone(before: WebData.Masses, after: WebData.Masses, fname: string) {
    && (forall n :: n in after <==> n in before && n != fname)
    && (forall n :: n in after ==> after[n] == before[n])
  }

  ghost predicate WeightsGone(before: Weights, after: Weights, fname: string) {
    && (forall k :: k in after <==> k in before && !Component(k, fname))
    && (forall k :: k in after ==> after[k] == before[k])
  }

  /** The entries of the file go, and the edges at their addresses; the rest stays in order. */
  ghost predicate EntriesGone(before: ChainData.Chain, after: ChainData.Chain, fname: string) {
    && IsFiltered(after.members, before.members, (m: ChainData.Member) => !EntryOf(m, fname))
    && IsFiltered(after.edges, before.edges,
                  (e: ChainData.Edge) => !AddressOf(before, e.from, fname) && !AddressOf(before, e.to, fname))
  }

  ghost predicate ChainsGone(before: ChainStore.Manifests, after: ChainStore.Manifests, fname: string) {
    after.Keys == before.Keys && forall n :: n in before ==> EntriesGone(before[n], after[n], fname)
  }

  lemma WeightsExactly(ws: Weights, fname: string)
    ensures WeightsGone(ws, WeightsWithout(ws, fname), fname)
  {
    forall k ensures Component(k, fname) <==> fname in Strings.Split(k, "::") { ComponentExactly(k, fname); }
  }

  lemma ChainExactly(c: ChainData.Chain, fname: string)
    ensures EntriesGone(c, ChainData.Stripped(c, fname), fname)
  {
    var d := ChainData.Stripped(c, fname);
    var keep, hold := (m: ChainData.Member) => !ChainData.IsEntryOf(m, fname),
      (e: ChainData.Edge) => e.from !in ChainData.DeadAddrs(c.members, fname) && e.to !in ChainData.DeadAddrs(c.members, fname);
    ChainData.StripKeepsOrder(c, fname, keep, hold);
    forall m ensures ChainData.IsEntryOf(m, fname) <==> EntryOf(m, fname) { EntryExactly(m, fname); }
    forall a ensures a in ChainData.DeadAddrs(c.members, fname) <==> AddressOf(c, a, fname) { AddressExactly(c, a, fname); }
    SameFilter(d.members, c.members, keep, (m: ChainData.Member) => !EntryOf(m, fname));
    SameFilter(d.edges, c.edges, hold,
               (e: ChainData.Edge) => !AddressOf(c, e.from, fname) && !AddressOf(c, e.to, fname));
  }

  /** Forgetting removes the node from four stores and tombstones its vector entry, and changes
      nothing else. */
  lemma ForgottenExactly(g: Graph, node: string, fname: string)
    requires IsFileOf(fname, node)
    ensures var h := Forgotten(g, node);
      && RowsGone(g.edges, h.edges, fname) && MassGone(g.masses, h.masses, fname)
      && WeightsGone(g.weights, h.weights, fname) && ChainsGone(g.chains, h.chains, fname)
      && IndexLaws.FlagSet(g.index, h.index, fname, true)
  {
    FileExactly(fname, node);
    FileNameIdempotent(node);
    FileExactly(fname, fname);
    IndexLaws.FlaggedExactly(g.index, fname, fname, true);
    WeightsExactly(g.weights, fname);
    forall n | n in g.chains ensures EntriesGone(g.chains[n], ChainData.Stripped(g.chains[n], fname), fname) {
      ChainExactly(g.chains[n], fname);
    }
  }

  // ---- right after the node is forgotten -----------------------------------------------------

  ghost predicate NoRow(g: Graph, fname: string) {
    forall k :: k in g.edges ==> k.src != fname && k.dst != fname
  }

  ghost predicate NoWeight(g: Graph, fname: string) {
    forall k :: k in g.weights ==> !Component(k, fname)
  }

  ghost predicate NoEntry(c: ChainData.Chain, fname: string) {
    forall m :: m in c.members ==> !EntryOf(m, fname)
  }

  /** No store mentions the file, but for a tombstoned vector entry. */
  ghost predicate Absent(g: Graph, fname: string) {
    && NoRow(g, fname) && fname !in g.masses && NoWeight(g, fname)
    && (forall n :: n in g.chains ==> NoEntry(g.chains[n], fname))
    && !IsLive(g.index, fname)
  }

  lemma ForgottenEntries(g: Graph, node: string, fname: string, n: string)
    requires n in g.chains
    ensures ChainData.FileName(node) == fname || NoEntry(g.chains[n], fname) ==>
              NoEntry(Forgotten(g, node).chains[n], fname)
  {
    var gone := ChainData.FileName(node);
    ChainData.StrippedExact(g.chains[n], gone);
    forall m | m in Forgotten(g, node).chains[n].members && (gone == fname || NoEntry(g.chains[n], fname))
      ensures !EntryOf(m, fname)
    {
      EntryExactly(m, fname);
    }
  }

  /** The node that is forgotten is absent, and who was absent stays so. */
  lemma AbsentOnceForgotten(g: Graph, node: string, fname: string)
    requires IsFileOf(fname, node) || Absent(g, fname)
    ensures Absent(Forgotten(g, node), fname)
  {
    var gone := ChainData.FileName(node);
    FileExactly(fname, node);
    FileNameIdempotent(node);
    WeightsExactly(g.weights, gone);
    forall n | n in g.chains ensures NoEntry(Forgotten(g, node).chains[n], fname) { ForgottenEntries(g, node, fname, n); }
    LiveAfterFlag(g.index, gone, fname);
  }

  /** The operation forgets the node of this file. */
  ghost predicate Forgets(w: World, op: Op, env: Env, fname: string) {
    match op
    case Freeze(name) => CanFreeze(w, name, env) && IsFileOf(fname, name)
    case Merge(a, b) => CanMerge(w, a, b, env) && a != b && (IsFileOf(fname, a) || IsFileOf(fname, b))
    case Supersede(node) => IsFileOf(fname, node)
    case Forget(node) => IsFileOf(fname, node)
    case _ => false
  }

  /** Right after a node is frozen, merged, superseded or forgotten, no store mentions it. */
  lemma AbsentAfter(w: World, op: Op, env: Env, fname: string)
    requires P.Ordered(w.pool) && Forgets(w, op, env, fname)
    ensures Absent(Step(w, op, env).graph, fname)
  {
    match op
    case Freeze(name) => AbsentOnceForgotten(w.graph, name, fname);
    case Merge(a, b) =>
      if IsFileOf(fname, a) { AbsentOnceForgotten(w.graph, a, fname); }
      AbsentOnceForgotten(Forgotten(w.graph, a), b, fname);
    case Supersede(node) => AbsentOnceForgotten(w.graph, node, fname);
    case Forget(node) => AbsentOnceForgotten(w.graph, node, fname);
  }

  // ---- over a run ----------------------------------------------------------------------------

  /** No weight and no mass of the file. */
  ghost predicate Clear(g: Graph, fname: string) {
    NoWeight(g, fname) && fname !in g.masses
  }

  /** The operation writes a weight for a key with the file as a component, or counts an
      appearance of it. */
  ghost predicate Mentions(op: Op, fname: string) {
    match op
    case Coactivate(key, _) => Component(key, fname)
    case Sync(_, appearances, _, _, _, _) => Appears(fname, appearances)
    case _ => false
  }

  lemma ClearOnceForgotten(g: Graph, node: string, fname: string)
    requires Clear(g, fname)
    ensures Clear(Forgotten(g, node), fname)
  {
  }

  lemma WeightWritten(g: Graph, key: string, weight: real, fname: string)
    requires Clear(g, fname)
    ensures Clear(g.(weights := g.weights[key := weight]), fname) <==> !Component(key, fname)
  {
    assert key in g.weights[key := weight];
  }

  lemma StepKeepsClear(w: World, op: Op, env: Env, fname: string)
    requires P.Ordered(w.pool) && Clear(w.graph, fname)
    ensures Clear(Step(w, op, env).graph, fname) <==> !Mentions(op, fname)
  {
    match op
    case Freeze(name) => ClearOnceForgotten(w.graph, name, fname);
    case Merge(a, b) =>
      ClearOnceForgotten(w.graph, a, fname);
      ClearOnceForgotten(Forgotten(w.graph, a), b, fname);
    case Supersede(node) => ClearOnceForgotten(w.graph, node, fname);
    case Forget(node) => ClearOnceForgotten(w.graph, node, fname);
    case Coactivate(key, weight) => WeightWritten(w.graph, key, weight, fname);
    case Sync(items, appearances, guarded, now, day, dayOf) =>
      SyncedMasses(w.graph, items, appearances, if guarded then Some(w.nodes.Keys) else None, now, day, dayOf, fname);
    case _ =>
  }

  /** At every point of the run. */
  ghost predicate StaysClear(w: World, ops: seq<Op>, env: Env, fname: string)
    requires P.Ordered(w.pool)
  {
    Clear(RunFrom(w, ops, env).graph, fname) && (ops != [] ==> StaysClear(w, ops[..|ops| - 1], env, fname))
  }

  /** A forgotten node gets neither weight nor mass exactly until a co-activation is written for
      one of its keys or a synchronisation counts an appearance of it; neither looks for its file. */
  lemma {:induction false} ClearUntilMentioned(w: World, ops: seq<Op>, env: Env, fname: string)
    requires P.Ordered(w.pool) && Clear(w.graph, fname)
    ensures StaysClear(w, ops, env, fname) <==> forall i :: 0 <= i < |ops| ==> !Mentions(ops[i], fname)
    decreases |ops|
  {
    if ops != [] {
      var init, op := ops[..|ops| - 1], ops[|ops| - 1];
      ClearUntilMentioned(w, init, env, fname);
      if StaysClear(w, init, env, fname) {
        StepKeepsClear(RunFrom(w, init, env), op, env, fname);
        assert forall i :: 0 <= i < |init| ==> !Mentions(init[i], fname);
      }
      assert forall i :: 0 <= i < |init| ==> init[i] == ops[i];
    }
  }
}
