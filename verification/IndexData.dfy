/** The vector index as stored (samia/core/vector.py): a manifest of entries beside a matrix of
    embeddings, and what a build makes of them. */
module IndexData {
  import opened Options
  import ChainData

  type Vec = seq<real>

  /** The digest of a text, and the embedding of one text under the active model. */
  datatype Backend = Backend(sha: string -> string, embed: string -> Vec)

  ghost predicate Injective(b: Backend) {
    forall x, y :: b.sha(x) == b.sha(y) ==> x == y
  }

  datatype Entry = Entry(sha: string, title: string, row: nat, tombstoned: bool)

  type Entries = map<string, Entry>

  /** Either file may be missing. */
  datatype Stored = Stored(manifest: Option<Entries>, matrix: Option<seq<Vec>>)

  /** One node file as loaded for embedding. */
  datatype Loaded = Loaded(rel: string, title: string, content: string)

  /** What reading a listed file gives: None when it has vanished meanwhile. */
  type Reader = string -> Option<Loaded>

  /** The loaded files, in listing order. */
  function LoadAll(listing: seq<string>, read: Reader): seq<Loaded> {
    if listing == [] then []
    else
      var n := |listing| - 1;
      LoadAll(listing[..n], read) + if read(listing[n]).Some? then [read(listing[n]).value] else []
  }

  ghost predicate Distinct(loaded: seq<Loaded>) {
    forall i, j :: 0 <= i < j < |loaded| ==> loaded[i].rel != loaded[j].rel
  }

  // ---- a rebuild from nothing ---------------------------------------------------------

  function EntriesOf(loaded: seq<Loaded>, b: Backend): Entries {
    if loaded == [] then map[]
    else
      var n := |loaded| - 1;
      EntriesOf(loaded[..n], b)[loaded[n].rel := Entry(b.sha(loaded[n].content), loaded[n].title, n, false)]
  }

  function MatrixOf(loaded: seq<Loaded>, b: Backend): seq<Vec> {
    seq(|loaded|, i requires 0 <= i < |loaded| => b.embed(loaded[i].content))
  }

  function Rebuilt(loaded: seq<Loaded>, b: Backend): Stored {
    Stored(Some(EntriesOf(loaded, b)), Some(MatrixOf(loaded, b)))
  }

  // ---- the incremental build ----------------------------------------------------------

  /** The row an incremental build may reuse. */
  function CachedRow(st: Stored, l: Loaded, b: Backend): Option<Vec> {
    if st.manifest.Some? && l.rel in st.manifest.value && st.manifest.value[l.rel].sha == b.sha(l.content)
      && st.matrix.Some? && st.manifest.value[l.rel].row < |st.matrix.value|
    then Some(st.matrix.value[st.manifest.value[l.rel].row])
    else None
  }

  function RowFor(st: Stored, l: Loaded, b: Backend): Vec {
    match CachedRow(st, l, b) case Some(v) => v case None => b.embed(l.content)
  }

  /** What the build has to look at: nothing, when everything is to be rebuilt. */
  function Cache(st: Stored, rebuild: bool): Stored {
    if rebuild then Stored(None, None) else st
  }

  /** The index after a build over the loaded files; with none, nothing is written. */
  function Built(st: Stored, loaded: seq<Loaded>, rebuild: bool, b: Backend): Stored {
    if loaded == [] then st
    else
      var cache := Cache(st, rebuild);
      Stored(Some(EntriesOf(loaded, b)), Some(seq(|loaded|, i requires 0 <= i < |loaded| => RowFor(cache, loaded[i], b))))
  }

  // ---- tombstones ---------------------------------------------------------------------

  function EntriesIn(st: Stored): Entries {
    if st.manifest.Some? then st.manifest.value else map[]
  }

  /** Setting or clearing the flag of an entry; nothing else changes. */
  function Flagged(st: Stored, node: string, flag: bool): Stored {
    var fname := ChainData.FileName(node);
    if fname in EntriesIn(st) then
      st.(manifest := Some(st.manifest.value[fname := st.manifest.value[fname].(tombstoned := flag)]))
    else st
  }

  // ---- the invariant and the main theorem ----------------------------------------------

  /** Every row an entry points to is the embedding of any text with the entry's digest. */
  ghost predicate Coherent(st: Stored, b: Backend) {
    st.matrix.Some? ==>
      forall rel, text ::
        rel in EntriesIn(st) && EntriesIn(st)[rel].row < |st.matrix.value| && b.sha(text) == EntriesIn(st)[rel].sha
        ==> st.matrix.value[EntriesIn(st)[rel].row] == b.embed(text)
  }

  lemma {:induction false} EntryAt(loaded: seq<Loaded>, b: Backend, i: nat)
    requires Distinct(loaded) && i < |loaded|
    ensures loaded[i].rel in EntriesOf(loaded, b)
    ensures EntriesOf(loaded, b)[loaded[i].rel] == Entry(b.sha(loaded[i].content), loaded[i].title, i, false)
  {
    var n := |loaded| - 1;
    if i < n {
      EntryAt(loaded[..n], b, i);
    }
  }

  /** An entry of a rebuilt index belongs to the loaded file at its row. */
  lemma {:induction false} EntryOfFile(loaded: seq<Loaded>, b: Backend, rel: string) returns (i: nat)
    requires Distinct(loaded) && rel in EntriesOf(loaded, b)
    ensures i < |loaded| && loaded[i].rel == rel
    ensures EntriesOf(loaded, b)[rel] == Entry(b.sha(loaded[i].content), loaded[i].title, i, false)
  {
    var n := |loaded| - 1;
    if rel == loaded[n].rel {
      i := n;
    } else {
      i := EntryOfFile(loaded[..n], b, rel);
    }
  }

  lemma RebuiltIsCoherent(loaded: seq<Loaded>, b: Backend)
    requires Injective(b) && Distinct(loaded)
    ensures Coherent(Rebuilt(loaded, b), b)
  {
    var st := Rebuilt(loaded, b);
    forall rel, text | rel in EntriesIn(st) && b.sha(text) == EntriesIn(st)[rel].sha
      ensures EntriesIn(st)[rel].row < |loaded| && st.matrix.value[EntriesIn(st)[rel].row] == b.embed(text)
    {
      var i := EntryOfFile(loaded, b, rel);
      assert b.sha(text) == b.sha(loaded[i].content);
    }
  }

  lemma ReusedRowIsRight(st: Stored, l: Loaded, b: Backend)
    requires Coherent(st, b)
    ensures RowFor(st, l, b) == b.embed(l.content)
  {
    if CachedRow(st, l, b).Some? {
      assert l.rel in EntriesIn(st) && b.sha(l.content) == EntriesIn(st)[l.rel].sha;
    }
  }

  /** Over a coherent index an incremental build gives exactly what a full rebuild gives:
      dense rows, row i the embedding of the i-th file, and no tombstone. */
  lemma IncrementalIsRebuild(st: Stored, loaded: seq<Loaded>, rebuild: bool, b: Backend)
    requires Coherent(st, b) && Injective(b) && Distinct(loaded)
    requires loaded != []
    ensures Built(st, loaded, rebuild, b) == Rebuilt(loaded, b)
    ensures Coherent(Built(st, loaded, rebuild, b), b)
  {
    var cache := Cache(st, rebuild);
    assert Coherent(cache, b);
    forall i | 0 <= i < |loaded| ensures RowFor(cache, loaded[i], b) == b.embed(loaded[i].content) {
      ReusedRowIsRight(cache, loaded[i], b);
    }
    assert Built(st, loaded, rebuild, b).matrix.value == MatrixOf(loaded, b);
    RebuiltIsCoherent(loaded, b);
  }

  /** A file the last build saw with the same text is not embedded again, even if tombstoned
      since. */
  lemma UnchangedIsReused(loaded: seq<Loaded>, i: nat, again: Loaded, node: string, flag: bool, b: Backend)
    requires Distinct(loaded) && i < |loaded|
    requires again.rel == loaded[i].rel && again.content == loaded[i].content
    ensures CachedRow(Flagged(Rebuilt(loaded, b), node, flag), again, b).Some?
  {
    EntryAt(loaded, b, i);
  }

  lemma FlaggedIsCoherent(st: Stored, node: string, flag: bool, b: Backend)
    requires Coherent(st, b)
    ensures Coherent(Flagged(st, node, flag), b)
  {
    var after := Flagged(st, node, flag);
    assert forall rel :: rel in EntriesIn(after) ==>
      rel in EntriesIn(st) && EntriesIn(after)[rel].row == EntriesIn(st)[rel].row && EntriesIn(after)[rel].sha == EntriesIn(st)[rel].sha;
  }

  // ---- runs ---------------------------------------------------------------------------

  /** What may happen to the index. A build sees whatever the files, and for the contextual
      index the chains, are by then. */
  datatype Op =
    | Tombstone(node: string)
    | Untombstone(node: string)
    | Build(loaded: seq<Loaded>, rebuild: bool)

  predicate IsBuild(op: Op) {
    op.Build? && op.loaded != []
  }

  function Step(st: Stored, op: Op, b: Backend): Stored {
    match op
    case Tombstone(node) => Flagged(st, node, true)
    case Untombstone(node) => Flagged(st, node, false)
    case Build(loaded, rebuild) => Built(st, loaded, rebuild, b)
  }

  function Run(st: Stored, ops: seq<Op>, b: Backend): Stored {
    if ops == [] then st else Step(Run(st, ops[..|ops| - 1], b), ops[|ops| - 1], b)
  }

  ghost predicate FileListings(ops: seq<Op>) {
    forall k :: 0 <= k < |ops| && ops[k].Build? ==> Distinct(ops[k].loaded)
  }

  const EMPTY := Stored(None, None)

  lemma {:induction false} RunIsCoherent(ops: seq<Op>, b: Backend)
    requires Injective(b) && FileListings(ops)
    ensures Coherent(Run(EMPTY, ops, b), b)
  {
    if ops != [] {
      var before := ops[..|ops| - 1];
      var op := ops[|ops| - 1];
      assert forall k :: 0 <= k < |before| ==> before[k] == ops[k];
      RunIsCoherent(before, b);
      var st := Run(EMPTY, before, b);
      match op
      case Tombstone(node) => FlaggedIsCoherent(st, node, true, b);
      case Untombstone(node) => FlaggedIsCoherent(st, node, false, b);
      case Build(loaded, rebuild) => if loaded != [] { IncrementalIsRebuild(st, loaded, rebuild, b); }
    }
  }

  /** After any run of edits, removals, tombstonings and builds, a non-empty build leaves
      exactly the index a rebuild of the present files would leave. */
  lemma EveryBuildIsARebuild(ops: seq<Op>, b: Backend)
    requires Injective(b) && FileListings(ops)
    requires ops != [] && IsBuild(ops[|ops| - 1])
    ensures Run(EMPTY, ops, b) == Rebuilt(ops[|ops| - 1].loaded, b)
  {
    var before := ops[..|ops| - 1];
    assert forall k :: 0 <= k < |before| ==> before[k] == ops[k];
    RunIsCoherent(before, b);
    IncrementalIsRebuild(Run(EMPTY, before, b), ops[|ops| - 1].loaded, ops[|ops| - 1].rebuild, b);
  }
}
