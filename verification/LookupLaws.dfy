/** Which nodes and archives the lifecycle operations of samia/core/ia.py act on, in terms of the
    headers and of the archive names. */
module LookupLaws {
  import opened LifecycleData
  import opened NodeFields
  import opened Options
  import FileTexts
  import Frontmatter
  import GraphStores
  import IndexLaws
  import PoolData
  import Scalars
  import Strings

  // ---- names in archive names ------------------------------------------------------------------------

  /** The text occurs in the name. */
  ghost predicate PartOf(part: string, name: string) {
    exists u, v :: Around(name, u, part, v)
  }

  ghost predicate Around(name: string, u: string, part: string, v: string) {
    name == u + part + v
  }

  lemma ContainsExactly(name: string, part: string)
    ensures Contains(name, part) <==> PartOf(part, name)
  {
    var i := Strings.Find(name, part, 0);
    if i >= 0 {
      assert Around(name, name[..i], part, name[i + |part|..]);
    }
    if PartOf(part, name) {
      var u, v :| Around(name, u, part, v);
      assert name[|u|..|u| + |part|] == part;
      assert Strings.MatchAt(name, part, |u|);
    }
  }

  /** The archive a given id stands for: the one of that name, or else the only one whose name
      contains it. */
  ghost predicate Picks(keys: set<string>, id: string, k: string) {
    && k in keys
    && (k == id || (id !in keys && PartOf(id, k) && forall j :: j in keys && PartOf(id, j) ==> j == k))
  }

  lemma LookupExactly(keys: set<string>, id: string, k: string)
    ensures Lookup(keys, id) == Some(k) <==> Picks(keys, id, k)
  {
    if id !in keys {
      var found := set j | j in keys && Contains(j, id);
      forall j ensures j in found <==> j in keys && PartOf(id, j) { ContainsExactly(j, id); }
      OnlyMatchExactly(found, k);
      if Picks(keys, id, k) { assert found == {k}; }
      if found == {k} { assert k in found && forall j :: j in found ==> j == k; }
    }
  }

  lemma OnlyMatchExactly(found: set<string>, k: string)
    ensures OnlyMatch(found) == Some(k) <==> found == {k}
  {
    if |found| == 1 { OnlyElement(found); }
  }

  /** The name without a final ".md". */
  ghost predicate IsStem(stem: string, node: string) {
    (node == stem + ".md") || (stem == node && forall s :: node != s + ".md")
  }

  lemma StemExactly(node: string)
    ensures IsStem(StemOf(node), node)
  {
    if Strings.EndsWith(node, ".md") {
      assert node == node[..|node| - 3] + ".md";
    } else {
      forall s ensures node != s + ".md" {
        var t := s + ".md";
        assert t[|t| - 3..] == ".md";
      }
    }
  }

  lemma RestoreKeyExactly(w: World, id: string, k: string)
    ensures RestoreKey(w, id) == Some(k) <==>
      if id in w.superseded then k == id else Picks(w.superseded.Keys, StemOf(id), k)
  {
    LookupExactly(w.superseded.Keys, StemOf(id), k);
  }

  /** A thaw goes ahead exactly when the id picks an archive that has not been thawed. */
  lemma ThawsExactlyWhen(w: World, id: string)
    ensures CanThaw(w, id) <==> exists k :: Picks(w.frozen.Keys, id, k) && !w.frozen[k].resumed
  {
    forall k ensures Lookup(w.frozen.Keys, id) == Some(k) <==> Picks(w.frozen.Keys, id, k) {
      LookupExactly(w.frozen.Keys, id, k);
    }
    if CanThaw(w, id) {
      var k := Lookup(w.frozen.Keys, id).value;
      assert Picks(w.frozen.Keys, id, k) && !w.frozen[k].resumed;
    }
  }

  /** A restore goes ahead exactly when the id, with or without ".md", picks a superseded node that
      has not been restored. */
  lemma RestoresExactlyWhen(w: World, id: string)
    ensures CanRestore(w, id) <==>
      if id in w.superseded then !w.superseded[id].restored
      else exists k :: Picks(w.superseded.Keys, StemOf(id), k) && !w.superseded[k].restored
  {
    forall k ensures Lookup(w.superseded.Keys, StemOf(id)) == Some(k) <==> Picks(w.superseded.Keys, StemOf(id), k) {
      LookupExactly(w.superseded.Keys, StemOf(id), k);
    }
    if id !in w.superseded && CanRestore(w, id) {
      var k := RestoreKey(w, id).value;
      assert Picks(w.superseded.Keys, StemOf(id), k) && !w.superseded[k].restored;
    }
  }

  // ---- headers -----------------------------------------------------------------------------------------

  /** The header says that the node is hot. */
  ghost predicate SaysHot(h: Frontmatter.Head) {
    "tier" in h.fm && h.fm["tier"] == Scalars.Str("hot")
  }

  /** The node has a file whose header can be read and does not say hot. */
  ghost predicate HasCoolFile(w: World, name: string, env: Env) {
    && name + ".md" in w.nodes && env.parse(w.nodes[name + ".md"]).Parsed?
    && !SaysHot(env.parse(w.nodes[name + ".md"]).head)
  }

  /** A freeze goes ahead exactly for a node with a readable file that is not hot. */
  lemma FreezesExactlyWhen(w: World, name: string, env: Env)
    ensures CanFreeze(w, name, env) <==> HasCoolFile(w, name, env)
  {
  }

  /** The chains of a header: the items of a list, or the characters of a text. */
  ghost predicate NamesChain(h: Frontmatter.Head, c: string) {
    && "chains" in h.fm
    && match h.fm["chains"]
       case List(items) => c in items
       case Str(s) => |c| == 1 && c[0] in s
       case _ => false
  }

  lemma ChainsExactly(h: Frontmatter.Head, c: string)
    ensures c in ChainNames(h) <==> NamesChain(h, c)
  {
    if NamesChain(h, c) && h.fm["chains"].Str? {
      var s := h.fm["chains"].s;
      var i :| 0 <= i < |s| && s[i] == c[0];
      assert [s[i]] == c;
    }
  }

  ghost predicate ShareChain(h: Frontmatter.Head, g: Frontmatter.Head) {
    exists c :: NamesChain(h, c) && NamesChain(g, c)
  }

  /** A merge goes ahead exactly for two nodes with readable files that are not hot, of a common
      chain, with numbers that can be coerced. */
  lemma MergesExactlyWhen(w: World, a: string, b: string, env: Env)
    ensures CanMerge(w, a, b, env) <==>
      && HasCoolFile(w, a, env) && HasCoolFile(w, b, env)
      && var pa, pb := env.parse(w.nodes[a + ".md"]), env.parse(w.nodes[b + ".md"]);
         ShareChain(pa.head, pb.head) && env.merged(a, pa, b, pb).Some?
  {
    if ParsedNode(w, a, env).Parsed? && ParsedNode(w, b, env).Parsed? {
      CommonChain(ParsedNode(w, a, env).head, ParsedNode(w, b, env).head);
    }
  }

  lemma CommonChain(h: Frontmatter.Head, g: Frontmatter.Head)
    ensures ChainNames(h) * ChainNames(g) != {} <==> ShareChain(h, g)
  {
    forall c ensures c in ChainNames(h) <==> NamesChain(h, c) { ChainsExactly(h, c); }
    forall c ensures c in ChainNames(g) <==> NamesChain(g, c) { ChainsExactly(g, c); }
    if ChainNames(h) * ChainNames(g) != {} {
      var c :| c in ChainNames(h) * ChainNames(g);
      assert NamesChain(h, c) && NamesChain(g, c);
    }
    if ShareChain(h, g) {
      var c :| NamesChain(h, c) && NamesChain(g, c);
      assert c in ChainNames(h) * ChainNames(g);
    }
  }

  /** The file of the node with a header that can be read: its text parses to `p`. */
  ghost predicate HasFile(w: World, name: string, env: Env, p: Frontmatter.Parsed) {
    name + ".md" in w.nodes && p == env.parse(w.nodes[name + ".md"]) && p.Parsed?
  }

  /** The id of a node is the address of its header, or else its name. */
  ghost predicate IsIdOf(id: string, h: Frontmatter.Head, name: string, env: Env) {
    if "address" in h.fm then id == PyStr(h.fm["address"], env.texts) else id == name
  }

  /** A freeze counts the segments for the id of the node and archives the header under it, with
      their addresses; no other record changes, and only this file goes. */
  lemma FrozenUnder(w: World, name: string, env: Env, p: Frontmatter.Parsed, id: string)
    requires PoolData.Ordered(w.pool) && HasFile(w, name, env, p) && !SaysHot(p.head) && IsIdOf(id, p.head, name, env)
    ensures var v := Frozen(w, name, env);
      && v.frozen.Keys == w.frozen.Keys + {id} && (forall k :: k in w.frozen && k != id ==> v.frozen[k] == w.frozen[k])
      && v.frozen[id].name == name && v.frozen[id].head == p.head && !v.frozen[id].resumed
      && v.frozen[id].addrs == PoolData.PlacedAll(w.pool, env.paragraphs(p.body), id, env.digest)
      && v.pool == PoolData.AbsorbedAll(w.pool, env.paragraphs(p.body), id, env.digest)
      && v.nodes == w.nodes - {name + ".md"} && v.superseded == w.superseded
  {
  }

  /** A thaw writes the file of the archived name and marks the record; no other file or record
      changes, and neither do the pool and the graph. */
  lemma ThawedUnder(w: World, id: string, today: string, env: Env, k: string)
    requires Picks(w.frozen.Keys, id, k) && !w.frozen[k].resumed
    ensures var v, file := Thawed(w, id, today, env), w.frozen[k].name + ".md";
      && v.nodes.Keys == w.nodes.Keys + {file} && (forall n :: n in w.nodes && n != file ==> v.nodes[n] == w.nodes[n])
      && v.nodes[file] == env.write(WarmHead(w.frozen[k].head, today), PoolData.Decompressed(w.pool, w.frozen[k].addrs))
      && v == w.(nodes := v.nodes, frozen := w.frozen[k := w.frozen[k].(resumed := true)])
  {
    LookupExactly(w.frozen.Keys, id, k);
  }

  /** Superseding archives the text of the file verbatim under the name of the node, if there is one,
      and forgets the node in any case. */
  lemma SupersededUnder(w: World, node: string, name: string)
    requires IsStem(name, node)
    ensures var v, file := Superseded(w, node), name + ".md";
      && v.graph == GraphStores.Forgotten(w.graph, node) && v.pool == w.pool && v.frozen == w.frozen
      && v.nodes == w.nodes - {file}
      && v.superseded == if file in w.nodes then w.superseded[name := SupersededRec(name, w.nodes[file], false)] else w.superseded
  {
    StemExactly(node);
    OneStem(name, StemOf(node), node);
  }

  lemma OneStem(s: string, t: string, node: string)
    requires IsStem(s, node) && IsStem(t, node)
    ensures s == t
  {
    if node == s + ".md" && node == t + ".md" {
      assert s == node[..|node| - 3] == t;
    }
  }

  /** A restore writes the archived text back and marks the record; of the graph only the vector
      entry of the file changes, which is live again. */
  lemma RestoredUnder(w: World, id: string, k: string)
    requires if id in w.superseded then k == id else Picks(w.superseded.Keys, StemOf(id), k)
    requires !w.superseded[k].restored
    ensures var v, r := Restored(w, id), w.superseded[k];
      && v.nodes == w.nodes[r.name + ".md" := r.text] && v.superseded == w.superseded[k := r.(restored := true)]
      && v.pool == w.pool && v.frozen == w.frozen && v.graph == w.graph.(index := v.graph.index)
      && IndexLaws.FlagSet(w.graph.index, v.graph.index, r.name + ".md", false)
  {
    RestoreKeyExactly(w, id, k);
    var file := w.superseded[k].name + ".md";
    FileTexts.FileExactly(file, file);
    IndexLaws.FlaggedExactly(w.graph.index, file, file, false);
  }

  lemma MergedFileName(a: string, b: string)
    ensures var file := a + "__merged_" + b + ".md"; file == PathOf(MergedName(a, b)) && file != a + ".md" && file != b + ".md"
  {
    assert |a + "__merged_" + b + ".md"| == |a| + |b| + 12;
  }

  lemma FoldedUnder(w: World, a: string, b: string, text: string, file: string)
    requires file == PathOf(MergedName(a, b)) && file != a + ".md" && file != b + ".md"
    ensures var v := Folded(w, a, b, text);
      && v.nodes.Keys == w.nodes.Keys + {file} - {a + ".md", b + ".md"} && v.nodes[file] == text
      && (forall n :: n in v.nodes && n != file ==> n in w.nodes && v.nodes[n] == w.nodes[n])
      && v == w.(nodes := v.nodes, graph := v.graph)
      && (a == b ==> v.graph == w.graph)
      && (a != b ==> v.graph == GraphStores.Forgotten(GraphStores.Forgotten(w.graph, a), b))
  {
  }

  /** A merge writes one file, named by both nodes, and removes theirs; archives and pool stay, and
      where the names differ the graph has forgotten both. */
  lemma MergedUnder(w: World, a: string, b: string, env: Env, file: string)
    requires CanMerge(w, a, b, env) && file == a + "__merged_" + b + ".md"
    ensures var v := Merged(w, a, b, env);
      && v.nodes.Keys == w.nodes.Keys + {file} - {a + ".md", b + ".md"} && file in v.nodes
      && (forall n :: n in v.nodes && n != file ==> n in w.nodes && v.nodes[n] == w.nodes[n])
      && v == w.(nodes := v.nodes, graph := v.graph)
      && (a == b ==> v.graph == w.graph)
      && (a != b ==> v.graph == GraphStores.Forgotten(GraphStores.Forgotten(w.graph, a), b))
  {
    MergedFileName(a, b);
    FoldedUnder(w, a, b, FoldedText(w, a, b, env), file);
  }
}
