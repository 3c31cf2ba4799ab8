/** The vector index (samia/core/vector.py) entry by entry: what is loaded, what a flag changes,
    and what a score is. */
module IndexLaws {
  import opened FileTexts
  import opened Filters
  import opened IndexData
  import opened Options
  import opened RealMaps
  import VectorIndex

  ghost predicate LoadedFrom(loaded: seq<Loaded>, names: seq<string>, read: Reader) {
    |loaded| == |names| && forall i :: 0 <= i < |loaded| ==> read(names[i]) == Some(loaded[i])
  }

  lemma LoadedNext(loaded: seq<Loaded>, names: seq<string>, last: string, read: Reader)
    requires LoadedFrom(loaded, names, read)
    ensures if read(last).Some? then LoadedFrom(loaded + [read(last).value], names + [last], read)
            else LoadedFrom(loaded + [], names, read)
  {
  }

  /** The loaded files are those of the listing that can be read, in its order. */
  lemma {:induction false} LoadedInOrder(listing: seq<string>, read: Reader, readable: string -> bool)
    returns (names: seq<string>)
    requires forall n :: readable(n) <==> read(n).Some?
    ensures IsFiltered(names, listing, readable) && LoadedFrom(LoadAll(listing, read), names, read)
  {
    if listing == [] {
      names := [];
      NothingFiltered(readable);
    } else {
      var init, last := listing[..|listing| - 1], listing[|listing| - 1];
      var before := LoadedInOrder(init, read, readable);
      FilterLast(before, listing, readable, init);
      names := if readable(last) then before + [last] else before;
      LoadedNext(LoadAll(init, read), before, last, read);
    }
  }

  /** The entry of the file, if there is one, gets the flag; its other fields, all other entries and
      the rows stay. */
  ghost predicate FlagSet(before: Stored, after: Stored, fname: string, flag: bool) {
    && after.matrix == before.matrix && after.manifest.Some? == before.manifest.Some?
    && (before.manifest.Some? ==>
          && after.manifest.value.Keys == before.manifest.value.Keys
          && forall rel :: rel in before.manifest.value ==>
               after.manifest.value[rel]
               == if rel == fname then before.manifest.value[rel].(tombstoned := flag) else before.manifest.value[rel])
  }

  lemma FlaggedExactly(st: Stored, node: string, fname: string, flag: bool)
    requires IsFileOf(fname, node)
    ensures FlagSet(st, Flagged(st, node, flag), fname, flag)
  {
    FileExactly(fname, node);
  }

  /** A rebuilt index has one live entry per loaded file, with its digest, title and place, and
      behind it the embedding of its text. */
  lemma RebuiltExactly(loaded: seq<Loaded>, b: Backend, rel: string)
    requires Distinct(loaded)
    ensures var st := Rebuilt(loaded, b);
      && st.manifest.Some? && st.matrix.Some? && |st.matrix.value| == |loaded|
      && (rel in st.manifest.value <==> exists i :: 0 <= i < |loaded| && loaded[i].rel == rel)
      && forall i :: 0 <= i < |loaded| ==>
           && loaded[i].rel in st.manifest.value
           && st.manifest.value[loaded[i].rel] == Entry(b.sha(loaded[i].content), loaded[i].title, i, false)
           && st.matrix.value[i] == b.embed(loaded[i].content)
  {
    forall i | 0 <= i < |loaded|
      ensures loaded[i].rel in EntriesOf(loaded, b)
      ensures EntriesOf(loaded, b)[loaded[i].rel] == Entry(b.sha(loaded[i].content), loaded[i].title, i, false)
    {
      EntryAt(loaded, b, i);
    }
    if rel in EntriesOf(loaded, b) { var i := EntryOfFile(loaded, b, rel); }
  }

  /** The row that an index already has for a text under a name. */
  ghost predicate HasRow(st: Stored, rel: string, sha: string, row: nat) {
    && st.manifest.Some? && rel in st.manifest.value && st.manifest.value[rel].sha == sha && st.manifest.value[rel].row == row
    && st.matrix.Some? && row < |st.matrix.value|
  }

  /** A build keeps the row of a file whose digest is that of its entry, wherever this is, and embeds
      every other file; a rebuild embeds all, whatever is stored. */
  lemma BuiltExactly(st: Stored, loaded: seq<Loaded>, rebuild: bool, b: Backend, i: int)
    requires 0 <= i < |loaded|
    ensures var after, l := Built(st, loaded, rebuild, b), loaded[i];
      && after.manifest == Some(EntriesOf(loaded, b)) && after.matrix.Some? && |after.matrix.value| == |loaded|
      && (rebuild ==> after.matrix.value[i] == b.embed(l.content))
      && (!rebuild ==>
            && (forall row: nat :: HasRow(st, l.rel, b.sha(l.content), row) ==> after.matrix.value[i] == st.matrix.value[row])
            && ((forall row: nat :: !HasRow(st, l.rel, b.sha(l.content), row)) ==> after.matrix.value[i] == b.embed(l.content)))
  {
    var l := loaded[i];
    if CachedRow(st, l, b).Some? { assert HasRow(st, l.rel, b.sha(l.content), st.manifest.value[l.rel].row); }
  }

  /** Digests without collisions are possible: the text itself is one. */
  lemma SomeBackend(embed: string -> Vec) returns (b: Backend)
    ensures Injective(b) && b.embed == embed
  {
    b := Backend((text: string) => text, embed);
  }

  /** The products of the coordinates that both vectors have. */
  function Products(u: Vec, v: Vec): map<int, real> {
    map i | 0 <= i < |u| && 0 <= i < |v| :: Times(u[i], v[i])
  }

  lemma ProductsMore(u: Vec, v: Vec, x: real, y: real)
    requires |u| == |v|
    ensures Sum(Products(u + [x], v + [y])) == Sum(Products(u, v)) + Times(x, y)
  {
    var before, after := Products(u, v), Products(u + [x], v + [y]);
    assert after == before[|u| := Times(x, y)];
    SumUpdate(before, |u|, Times(x, y));
  }

  lemma {:induction false} DotMore(u: Vec, v: Vec, x: real, y: real)
    requires |u| == |v|
    ensures VectorIndex.Dot(u + [x], v + [y]) == VectorIndex.Dot(u, v) + Times(x, y)
  {
    if u != [] {
      DotMore(u[1..], v[1..], x, y);
      assert (u + [x])[1..] == u[1..] + [x] && (v + [y])[1..] == v[1..] + [y];
    } else {
      assert u + [x] == [x] && v + [y] == [y];
    }
  }

  lemma OneMoreProduct(u: Vec, v: Vec, a: Vec, b: Vec, x: real, y: real)
    requires u == a + [x] && v == b + [y] && |a| == |b|
    requires VectorIndex.Dot(a, b) == Sum(Products(a, b))
    ensures VectorIndex.Dot(u, v) == Sum(Products(u, v))
  {
    DotMore(a, b, x, y);
    ProductsMore(a, b, x, y);
  }

  /** The score of a row is the sum of the products of its coordinates with those of the query. */
  lemma {:induction false} DotExactly(u: Vec, v: Vec)
    requires |u| == |v|
    ensures VectorIndex.Dot(u, v) == Sum(Products(u, v))
  {
    if u == [] {
      assert Products(u, v) == map[];
    } else {
      var a, b, x, y := u[..|u| - 1], v[..|v| - 1], u[|u| - 1], v[|v| - 1];
      DotExactly(a, b);
      OneMoreProduct(u, v, a, b, x, y);
    }
  }
}
