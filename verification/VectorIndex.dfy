/** The vector index (samia/core/vector.py): incremental build, tombstones, and the
    tombstone-aware top-k query, as operations that update the stored files in place. */
module VectorIndex {
  import opened Options
  import opened IndexData
  import ChainData

  const BATCH := 16

  datatype BuildOutcome = NothingListed | NothingLoaded | Wrote(count: nat)

  // ---- the pieces of a build -----------------------------------------------------------

  method ReadAll(listing: seq<string>, read: Reader) returns (loaded: seq<Loaded>)
    ensures loaded == LoadAll(listing, read)
  {
    loaded := [];
    for i := 0 to |listing|
      invariant loaded == LoadAll(listing[..i], read)
    {
      assert listing[..i + 1][..i] == listing[..i];
      match read(listing[i]) {
        case Some(l) => loaded := loaded + [l];
        case None =>
      }
    }
    assert listing[..|listing|] == listing;
  }

  /** The first pass: entries for every file, cached rows where they may be reused, and the
      indices still to be embedded. */
  method Plan(loaded: seq<Loaded>, cache: Stored, b: Backend)
    returns (entries: Entries, rows: seq<Option<Vec>>, todo: seq<nat>)
    ensures entries == EntriesOf(loaded, b)
    ensures |rows| == |loaded| && forall i :: 0 <= i < |rows| ==> rows[i] == CachedRow(cache, loaded[i], b)
    ensures forall i :: i in todo <==> 0 <= i < |rows| && rows[i].None?
    ensures forall j, k :: 0 <= j < k < |todo| ==> todo[j] < todo[k]
  {
    entries, rows, todo := map[], [], [];
    for i := 0 to |loaded|
      invariant entries == EntriesOf(loaded[..i], b)
      invariant |rows| == i && forall j :: 0 <= j < i ==> rows[j] == CachedRow(cache, loaded[j], b)
      invariant forall j :: j in todo <==> 0 <= j < i && rows[j].None?
      invariant forall j, k :: 0 <= j < k < |todo| ==> todo[j] < todo[k]
    {
      assert loaded[..i + 1][..i] == loaded[..i];
      var l := loaded[i];
      entries := entries[l.rel := Entry(b.sha(l.content), l.title, i, false)];
      var row := CachedRow(cache, l, b);
      if row.None? {
        assert forall j :: 0 <= j < |todo| ==> todo[j] in todo;
        todo := todo + [i];
      }
      rows := rows + [row];
    }
    assert loaded[..|loaded|] == loaded;
  }

  /** Embedding in batches; each text has its own embedding. */
  method EmbedBatches(texts: seq<string>, b: Backend) returns (vectors: seq<Vec>)
    ensures |vectors| == |texts| && forall k :: 0 <= k < |texts| ==> vectors[k] == b.embed(texts[k])
  {
    vectors := [];
    var s := 0;
    while s < |texts|
      invariant 0 <= s
      invariant |vectors| == if s < |texts| then s else |texts|
      invariant forall k :: 0 <= k < |vectors| ==> vectors[k] == b.embed(texts[k])
    {
      var chunk := texts[s..if s + BATCH < |texts| then s + BATCH else |texts|];
      vectors := vectors + seq(|chunk|, k requires 0 <= k < |chunk| => b.embed(chunk[k]));
      s := s + BATCH;
    }
  }

  /** The second pass: the missing rows are filled with the new vectors. */
  method FillRows(loaded: seq<Loaded>, cache: Stored, b: Backend, planned: seq<Option<Vec>>, todo: seq<nat>)
    returns (matrix: seq<Vec>)
    requires |planned| == |loaded| && forall i :: 0 <= i < |planned| ==> planned[i] == CachedRow(cache, loaded[i], b)
    requires forall i :: i in todo <==> 0 <= i < |planned| && planned[i].None?
    ensures |matrix| == |loaded| && forall i :: 0 <= i < |loaded| ==> matrix[i] == RowFor(cache, loaded[i], b)
  {
    assert forall k :: 0 <= k < |todo| ==> todo[k] in todo;
    var texts := [];
    for k := 0 to |todo|
      invariant |texts| == k && forall j :: 0 <= j < k ==> texts[j] == loaded[todo[j]].content
    {
      texts := texts + [loaded[todo[k]].content];
    }
    var vectors := EmbedBatches(texts, b);
    var rows := planned;
    for k := 0 to |todo|
      invariant |rows| == |loaded|
      invariant forall i :: 0 <= i < |rows| ==>
        rows[i] == Some(RowFor(cache, loaded[i], b)) || (rows[i].None? && planned[i].None? && i in todo[k..])
    {
      assert todo[k..] == [todo[k]] + todo[k + 1..];
      rows := rows[todo[k] := Some(vectors[k])];
    }
    matrix := [];
    for i := 0 to |rows|
      invariant |matrix| == i && forall j :: 0 <= j < i ==> matrix[j] == RowFor(cache, loaded[j], b)
    {
      matrix := matrix + [rows[i].value];
    }
  }

  // ---- queries ------------------------------------------------------------------------

  datatype Hit = Hit(score: real, node: string, title: string)

  function Dot(u: Vec, v: Vec): real {
    if u == [] || v == [] then 0.0 else u[0] * v[0] + Dot(u[1..], v[1..])
  }

  /** The order of `argsort` on the negated similarities: every row once, best first. */
  ghost predicate IsRanking(ranking: seq<nat>, scores: seq<real>) {
    && |ranking| == |scores|
    && (forall i :: 0 <= i < |ranking| ==> ranking[i] < |scores|)
    && (forall i, j :: 0 <= i < j < |ranking| ==> ranking[i] != ranking[j])
    && (forall i, j :: 0 <= i < j < |ranking| ==> scores[ranking[i]] >= scores[ranking[j]])
    && (forall r :: 0 <= r < |scores| ==> r in ranking)
  }

  /** The entry of a row that a query may serve. */
  ghost predicate Serves(entries: Entries, r: nat, rel: string) {
    rel in entries && entries[rel].row == r && !entries[rel].tombstoned
  }

  /** No two entries share a row. */
  ghost predicate RowsDistinct(entries: Entries) {
    forall x, y :: x in entries && y in entries && entries[x].row == entries[y].row ==> x == y
  }

  /** Reading the manifest by row, skipping tombstones. */
  method ByRow(entries: Entries) returns (byRow: map<nat, string>)
    requires RowsDistinct(entries)
    ensures forall r :: r in byRow ==> Serves(entries, r, byRow[r])
    ensures forall rel :: rel in entries && !entries[rel].tombstoned ==> entries[rel].row in byRow && byRow[entries[rel].row] == rel
  {
    byRow := map[];
    var left := entries.Keys;
    while left != {}
      invariant left <= entries.Keys
      invariant forall r :: r in byRow ==> Serves(entries, r, byRow[r])
      invariant forall rel :: rel in entries && rel !in left && !entries[rel].tombstoned ==>
        entries[rel].row in byRow && byRow[entries[rel].row] == rel
      decreases left
    {
      var rel :| rel in left;
      if !entries[rel].tombstoned { byRow := byRow[entries[rel].row := rel]; }
      left := left - {rel};
    }
  }

  function ScoresOf(matrix: seq<Vec>, query: Vec): seq<real> {
    seq(|matrix|, r requires 0 <= r < |matrix| => Dot(matrix[r], query))
  }

  /** A live entry with a row in the matrix. */
  ghost predicate Live(entries: Entries, rows: nat, rel: string) {
    rel in entries && !entries[rel].tombstoned && entries[rel].row < rows
  }

  ghost predicate Listed(hits: seq<Hit>, rel: string) {
    exists i :: 0 <= i < |hits| && hits[i].node == rel
  }

  /** What a query answers: at most `k` live entries, each once, with its own title and score,
      best first, and no live entry left out that is better than one listed, or while there
      is room. */
  ghost predicate TopLive(hits: seq<Hit>, entries: Entries, scores: seq<real>, k: int) {
    && |hits| <= (if k > 0 then k else 0)
    && (forall i :: 0 <= i < |hits| ==>
      && Live(entries, |scores|, hits[i].node)
      && hits[i] == Hit(scores[entries[hits[i].node].row], hits[i].node, entries[hits[i].node].title))
    && (forall i, j :: 0 <= i < j < |hits| ==> hits[i].node != hits[j].node && hits[i].score >= hits[j].score)
    && (forall rel :: Live(entries, |scores|, rel) && !Listed(hits, rel) ==>
      && |hits| >= k
      && forall i :: 0 <= i < |hits| ==> hits[i].score >= scores[entries[rel].row])
  }

  /** The state of the answer after the first `i` rows of the ranking; `at` are the positions
      the hits came from. */
  ghost predicate Answered(hits: seq<Hit>, at: seq<nat>, i: nat, ranking: seq<nat>, entries: Entries, scores: seq<real>)
    requires i <= |ranking| && IsRanking(ranking, scores)
  {
    && |at| == |hits|
    && (forall m :: 0 <= m < |at| ==>
      && at[m] < i
      && Serves(entries, ranking[at[m]], hits[m].node)
      && hits[m] == Hit(scores[ranking[at[m]]], hits[m].node, entries[hits[m].node].title))
    && (forall m, n :: 0 <= m < n < |at| ==> at[m] < at[n])
    && (forall j, rel :: 0 <= j < i && Serves(entries, ranking[j], rel) ==> Listed(hits, rel))
  }

  lemma ListedGrows(hits: seq<Hit>, h: Hit)
    ensures forall rel :: Listed(hits + [h], rel) <==> Listed(hits, rel) || rel == h.node
  {
    var more := hits + [h];
    assert more[|hits|] == h;
    forall rel | Listed(hits, rel) ensures Listed(more, rel) {
      var i :| 0 <= i < |hits| && hits[i].node == rel;
      assert more[i].node == rel;
    }
  }

  lemma AnswerIsTop(hits: seq<Hit>, at: seq<nat>, i: nat, ranking: seq<nat>, entries: Entries, scores: seq<real>, k: int)
    requires i <= |ranking| && IsRanking(ranking, scores)
    requires Answered(hits, at, i, ranking, entries, scores)
    requires |hits| <= (if k > 0 then k else 0)
    requires i == |ranking| || |hits| >= k
    ensures TopLive(hits, entries, scores, k)
  {
    forall rel | Live(entries, |scores|, rel) && !Listed(hits, rel)
      ensures |hits| >= k && forall m :: 0 <= m < |hits| ==> hits[m].score >= scores[entries[rel].row]
    {
      var r := entries[rel].row;
      assert r in ranking;
      var j :| 0 <= j < |ranking| && ranking[j] == r;
      assert Serves(entries, ranking[j], rel);
      assert j >= i;
    }
  }

  lemma RebuiltRowsDistinct(loaded: seq<Loaded>, b: Backend)
    requires Distinct(loaded)
    ensures RowsDistinct(EntriesOf(loaded, b))
  {
    var entries := EntriesOf(loaded, b);
    forall x, y | x in entries && y in entries && entries[x].row == entries[y].row ensures x == y {
      var i := EntryOfFile(loaded, b, x);
      var j := EntryOfFile(loaded, b, y);
    }
  }

  /** The hit of one file, scored by the embedding of its text. */
  ghost predicate HitOf(h: Hit, l: Loaded, b: Backend, query: Vec) {
    h == Hit(Dot(b.embed(l.content), query), l.rel, l.title)
  }

  ghost predicate HitAmong(h: Hit, loaded: seq<Loaded>, b: Backend, query: Vec) {
    exists i :: 0 <= i < |loaded| && HitOf(h, loaded[i], b, query)
  }

  /** Right after a build, every hit is scored by the embedding of its file's present text, and
      a query with room for all files lists every one of them. */
  lemma FreshIndexLosesNothing(hits: seq<Hit>, loaded: seq<Loaded>, b: Backend, query: Vec, k: int)
    requires Distinct(loaded)
    requires TopLive(hits, EntriesOf(loaded, b), ScoresOf(MatrixOf(loaded, b), query), k)
    ensures |hits| < k ==> forall i :: 0 <= i < |loaded| ==> Listed(hits, loaded[i].rel)
    ensures forall m :: 0 <= m < |hits| ==> HitAmong(hits[m], loaded, b, query)
  {
    var entries := EntriesOf(loaded, b);
    forall i | 0 <= i < |loaded| ensures Live(entries, |loaded|, loaded[i].rel) { EntryAt(loaded, b, i); }
    forall m | 0 <= m < |hits| ensures HitAmong(hits[m], loaded, b, query) {
      var i := EntryOfFile(loaded, b, hits[m].node);
      assert MatrixOf(loaded, b)[i] == b.embed(loaded[i].content);
      assert HitOf(hits[m], loaded[i], b, query);
    }
  }

  class Index {
    const backend: Backend
    var manifest: Option<Entries>
    var matrix: Option<seq<Vec>>

    constructor (b: Backend)
      requires Injective(b)
      ensures Valid() && backend == b && View() == EMPTY
    {
      backend, manifest, matrix := b, None, None;
    }

    function View(): Stored
      reads this
    {
      Stored(manifest, matrix)
    }

    ghost predicate Valid()
      reads this
    {
      Injective(backend) && Coherent(View(), backend) && RowsDistinct(EntriesIn(View()))
    }

    /** `build`: with no listed file, or none left to read, nothing is written; otherwise the
        index becomes that of a rebuild, cache or not. */
    method Build(listing: seq<string>, read: Reader, rebuild: bool) returns (outcome: BuildOutcome)
      requires Valid()
      requires Distinct(LoadAll(listing, read))
      modifies this
      ensures Valid()
      ensures var loaded := LoadAll(listing, read);
        if loaded == [] then View() == old(View()) && outcome == (if listing == [] then NothingListed else NothingLoaded)
        else View() == Rebuilt(loaded, backend) && outcome == Wrote(|loaded|)
    {
      if listing == [] { return NothingListed; }
      var loaded := ReadAll(listing, read);
      if loaded == [] { return NothingLoaded; }
      ghost var before := View();
      var cache := Cache(View(), rebuild);
      var entries, planned, todo := Plan(loaded, cache, backend);
      var rows := FillRows(loaded, cache, backend, planned, todo);
      matrix := Some(rows);
      manifest := Some(entries);
      assert rows == Built(before, loaded, rebuild, backend).matrix.value;
      IncrementalIsRebuild(before, loaded, rebuild, backend);
      RebuiltRowsDistinct(loaded, backend);
      outcome := Wrote(|loaded|);
    }

    method TombstoneNode(node: string) returns (tombstoned: bool)
      requires Valid()
      modifies this`manifest
      ensures Valid()
      ensures View() == Flagged(old(View()), node, true)
      ensures tombstoned == (ChainData.FileName(node) in EntriesIn(old(View())))
    {
      FlaggedIsCoherent(View(), node, true, backend);
      var fname := ChainData.FileName(node);
      tombstoned := fname in EntriesIn(View());
      if tombstoned {
        manifest := Some(manifest.value[fname := manifest.value[fname].(tombstoned := true)]);
      }
    }

    method UntombstoneNode(node: string) returns (untombstoned: bool)
      requires Valid()
      modifies this`manifest
      ensures Valid()
      ensures View() == Flagged(old(View()), node, false)
      ensures untombstoned == (ChainData.FileName(node) in EntriesIn(old(View())) && EntriesIn(old(View()))[ChainData.FileName(node)].tombstoned)
    {
      FlaggedIsCoherent(View(), node, false, backend);
      var fname := ChainData.FileName(node);
      untombstoned := fname in EntriesIn(View()) && EntriesIn(View())[fname].tombstoned;
      if untombstoned {
        manifest := Some(manifest.value[fname := manifest.value[fname].(tombstoned := false)]);
      } else if fname in EntriesIn(View()) {
        assert manifest.value[fname := manifest.value[fname].(tombstoned := false)] == manifest.value;
      }
    }

    /** `query`: None without an index on disk. `argsort` orders rows by falling score. */
    method Query(text: string, topK: int, argsort: seq<real> -> seq<nat>) returns (answer: Option<seq<Hit>>)
      requires Valid()
      requires forall scores :: IsRanking(argsort(scores), scores)
      ensures answer.None? <==> manifest.None? || matrix.None?
      ensures answer.Some? ==> TopLive(answer.value, manifest.value, ScoresOf(matrix.value, backend.embed(text)), topK)
    {
      if manifest.None? || matrix.None? { return None; }
      var entries := manifest.value;
      var scores := ScoresOf(matrix.value, backend.embed(text));
      var byRow := ByRow(entries);
      var ranking := argsort(scores);
      var hits: seq<Hit> := [];
      ghost var at: seq<nat> := [];
      var i := 0;
      while i < |ranking| && |hits| < topK
        invariant 0 <= i <= |ranking|
        invariant |hits| <= if topK > 0 then topK else 0
        invariant Answered(hits, at, i, ranking, entries, scores)
      {
        var r := ranking[i];
        if r in byRow {
          var h := Hit(scores[r], byRow[r], entries[byRow[r]].title);
          ListedGrows(hits, h);
          hits := hits + [h];
          at := at + [i];
        }
        i := i + 1;
      }
      AnswerIsTop(hits, at, i, ranking, entries, scores, topK);
      answer := Some(hits);
    }
  }
}
