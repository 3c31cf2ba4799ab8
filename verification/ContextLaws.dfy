/** The contexts of the contextual index (samia/core/vector_contextual.py) in terms of the
    manifests, and when two contexts give different texts. */
module ContextLaws {
  import opened FileTexts
  import opened Filters
  import opened KeyTexts
  import opened Options
  import opened VectorContextual
  import Strings

  // ---- names in paths ------------------------------------------------------------------------------

  /** The name is the last part of the path, but for parts that are empty or ".". */
  ghost predicate IsNameOf(name: string, path: string) {
    exists front, back :: NamedBetween(name, path, front, back)
  }

  ghost predicate NamedBetween(name: string, path: string, front: seq<string>, back: seq<string>) {
    && name !in {"", "."} && IsSplit(path, "/", front + [name] + back)
    && forall i :: 0 <= i < |back| ==> back[i] in {"", "."}
  }

  lemma {:induction false} LastPartExactly(parts: seq<string>) returns (front: seq<string>, back: seq<string>)
    ensures forall i :: 0 <= i < |back| ==> back[i] in {"", "."}
    ensures LastPart(parts) != "" ==> LastPart(parts) != "." && parts == front + [LastPart(parts)] + back
    ensures LastPart(parts) == "" ==> parts == back
  {
    if parts == [] {
      front, back := [], [];
    } else {
      var init, last := parts[..|parts| - 1], parts[|parts| - 1];
      assert parts == init + [last];
      if last != "" && last != "." {
        front, back := init, [];
      } else {
        front, back := LastPartExactly(init);
        back := back + [last];
      }
    }
  }

  lemma {:induction false} LastPartUnique(front: seq<string>, name: string, back: seq<string>)
    requires name !in {"", "."} && forall i :: 0 <= i < |back| ==> back[i] in {"", "."}
    ensures LastPart(front + [name] + back) == name
    decreases |back|
  {
    var parts := front + [name] + back;
    if back == [] {
      assert parts == front + [name];
    } else {
      var init := back[..|back| - 1];
      LastPartUnique(front, name, init);
      assert parts[..|parts| - 1] == front + [name] + init;
      assert parts[|parts| - 1] == back[|back| - 1];
    }
  }

  lemma NameExactly(path: string, name: string)
    requires name != ""
    ensures PathName(path) == name <==> IsNameOf(name, path)
  {
    var parts := Strings.Split(path, "/");
    SplitExactly(path, "/", parts);
    if PathName(path) == name {
      var front, back := LastPartExactly(parts);
      assert NamedBetween(name, path, front, back);
    }
    if IsNameOf(name, path) {
      var front, back :| NamedBetween(name, path, front, back);
      SplitExactly(path, "/", front + [name] + back);
      LastPartUnique(front, name, back);
    }
  }

  /** The name without its extension, if it has one. */
  ghost predicate IsStemOf(stem: string, name: string) {
    if Extended(name) then exists ext :: IsExtended(name, stem, ext) else stem == name
  }

  lemma {:induction false} LastDotExactly(name: string)
    ensures var i := LastDot(name);
      && (i >= 0 ==> name[i] == '.')
      && forall j :: i < j < |name| ==> name[j] != '.'
  {
    if name != "" && name[|name| - 1] != '.' { LastDotExactly(name[..|name| - 1]); }
  }

  lemma StemExactly(name: string)
    ensures IsStemOf(Stem(name), name)
  {
    var i := LastDot(name);
    LastDotExactly(name);
    if Extended(name) {
      var stem, ext :| IsExtended(name, stem, ext);
      DotOfExtended(name, stem, ext);
    }
    if 0 < i < |name| - 1 {
      assert name == name[..i] + "." + name[i + 1..];
      assert IsExtended(name, name[..i], name[i + 1..]);
    }
  }

  lemma DotOfExtended(name: string, stem: string, ext: string)
    requires IsExtended(name, stem, ext)
    ensures LastDot(name) == |stem| && 0 < |stem| < |name| - 1
  {
    LastDotExactly(name);
    var i := |stem|;
    assert name[i] == '.';
    forall j | i < j < |name| ensures name[j] != '.' { assert name[j] == ext[j - i - 1]; }
  }

  // ---- the chain of a node ---------------------------------------------------------------------------

  /** Some member's path ends in the name. */
  ghost predicate HasMember(c: ChainFile, fname: string) {
    c.ChainFile? && exists path :: Some(path) in c.files && path != "" && IsNameOf(fname, path)
  }

  lemma MemberExactly(c: ChainFile, fname: string)
    requires fname != ""
    ensures Mentions(c, fname) <==> HasMember(c, fname)
  {
    if Mentions(c, fname) {
      var i :| 0 <= i < |c.files| && HasFile(c.files[i]) && PathName(c.files[i].value) == fname;
      NameExactly(c.files[i].value, fname);
      assert c.files[i] == Some(c.files[i].value) && c.files[i] in c.files;
    }
    if HasMember(c, fname) {
      var path :| Some(path) in c.files && path != "" && IsNameOf(fname, path);
      NameExactly(path, fname);
      var i :| 0 <= i < |c.files| && c.files[i] == Some(path);
    }
  }

  ghost predicate LastWith(chains: seq<ChainFile>, k: int, fname: string) {
    0 <= k < |chains| && HasMember(chains[k], fname) && forall j :: k < j < |chains| ==> !HasMember(chains[j], fname)
  }

  lemma LastInInit(chains: seq<ChainFile>, k: int, fname: string)
    requires chains != []
    ensures var n := |chains| - 1;
      LastWith(chains, k, fname) <==>
        if k == n then HasMember(chains[n], fname) else LastWith(chains[..n], k, fname) && !HasMember(chains[n], fname)
  {
    var n := |chains| - 1;
    var init := chains[..n];
    if LastWith(init, k, fname) && !HasMember(chains[n], fname) {
      forall j | k < j < |chains| ensures !HasMember(chains[j], fname) { if j < n { assert init[j] == chains[j]; } }
    }
    if LastWith(chains, k, fname) && k < n {
      forall j | k < j < n ensures !HasMember(init[j], fname) { assert init[j] == chains[j]; }
    }
  }

  lemma {:induction false} ContextOfLast(chains: seq<ChainFile>, k: int, fname: string)
    requires fname != "" && LastWith(chains, k, fname)
    ensures ContextOf(chains, fname) == Some(ContextIn(chains[k], fname))
  {
    var n := |chains| - 1;
    MemberExactly(chains[n], fname);
    if k < n {
      LastInInit(chains, k, fname);
      ContextOfLast(chains[..n], k, fname);
    }
  }

  lemma {:induction false} NoContext(chains: seq<ChainFile>, fname: string)
    requires fname != "" && forall k :: 0 <= k < |chains| ==> !HasMember(chains[k], fname)
    ensures ContextOf(chains, fname) == None
  {
    if chains != [] {
      var n := |chains| - 1;
      MemberExactly(chains[n], fname);
      NoContext(chains[..n], fname);
    }
  }

  /** A node has the context of the last readable chain it is a member of, and none outside chains. */
  lemma ContextExactly(chains: seq<ChainFile>, fname: string)
    requires fname != ""
    ensures forall k :: LastWith(chains, k, fname) ==> ContextOf(chains, fname) == Some(ContextIn(chains[k], fname))
    ensures (forall k :: 0 <= k < |chains| ==> !HasMember(chains[k], fname)) ==> ContextOf(chains, fname) == None
  {
    forall k | LastWith(chains, k, fname) ensures ContextOf(chains, fname) == Some(ContextIn(chains[k], fname)) {
      ContextOfLast(chains, k, fname);
    }
    if forall k :: 0 <= k < |chains| ==> !HasMember(chains[k], fname) { NoContext(chains, fname); }
  }

  // ---- the siblings ------------------------------------------------------------------------------------

  ghost predicate StemsOf(stems: seq<string>, files: seq<Option<string>>) {
    && |stems| == |files|
    && forall i :: 0 <= i < |stems| ==>
         files[i].Some? && exists name :: NameOrNone(name, files[i].value) && IsStemOf(stems[i], name)
  }

  ghost predicate NameOrNone(name: string, path: string) {
    name == PathName(path) && (name != "" ==> IsNameOf(name, path))
  }

  lemma {:induction false} StemsInOrder(files: seq<Option<string>>, has: Option<string> -> bool)
    returns (kept: seq<Option<string>>)
    requires forall f :: has(f) <==> f.Some? && f.value != ""
    ensures IsFiltered(kept, files, has) && StemsOf(MemberStems(files), kept)
  {
    if files == [] {
      kept := [];
      NothingFiltered(has);
    } else {
      var init, last := files[..|files| - 1], files[|files| - 1];
      var before := StemsInOrder(init, has);
      FilterLast(before, files, has, init);
      kept := if has(last) then before + [last] else before;
      if has(last) { StemNext(MemberStems(init), before, last); } else { assert MemberStems(init) + [] == MemberStems(init); }
    }
  }

  lemma StemNext(stems: seq<string>, files: seq<Option<string>>, last: Option<string>)
    requires StemsOf(stems, files) && last.Some?
    ensures StemsOf(stems + [Stem(PathName(last.value))], files + [last])
  {
    var name := PathName(last.value);
    if name != "" { NameExactly(last.value, name); }
    StemExactly(name);
    assert NameOrNone(name, last.value) && IsStemOf(Stem(name), name);
  }

  lemma {:induction false} OthersInOrder(stems: seq<string>, own: string, other: string -> bool)
    requires forall s :: other(s) <==> s != own
    ensures IsFiltered(Others(stems, own), stems, other)
  {
    if stems == [] {
      NothingFiltered(other);
    } else {
      var init, last := stems[..|stems| - 1], stems[|stems| - 1];
      OthersInOrder(init, own, other);
      FilterLast(Others(init, own), stems, other, init);
      assert Others(init, own) + [] == Others(init, own);
    }
  }

  lemma FirstSix(others: seq<string>)
    ensures Leading(others) <= others && |Leading(others)| == if |others| < 6 then |others| else 6
  {
  }

  lemma IdExactly(c: ChainFile)
    requires c.ChainFile?
    ensures c.chainId in {None, Some("")} ==> ChainIdOf(c) == c.stem
    ensures c.chainId !in {None, Some("")} ==> c.chainId == Some(ChainIdOf(c))
  {
  }

  /** The siblings are the first six of the stems of the members' files that are not the node's own,
      in manifest order; the chain goes by its id, or else by its file. */
  lemma SiblingsExactly(c: ChainFile, fname: string, has: Option<string> -> bool, other: string -> bool)
    returns (kept: seq<Option<string>>, stems: seq<string>, others: seq<string>)
    requires c.ChainFile?
    requires forall f :: has(f) <==> f.Some? && f.value != ""
    requires forall s :: other(s) <==> s != Stem(fname)
    ensures IsStemOf(Stem(fname), fname)
    ensures IsFiltered(kept, c.files, has) && StemsOf(stems, kept) && IsFiltered(others, stems, other)
    ensures ContextIn(c, fname).neighbours <= others
    ensures |ContextIn(c, fname).neighbours| == if |others| < 6 then |others| else 6
    ensures c.chainId in {None, Some("")} ==> ContextIn(c, fname).chainId == c.stem
    ensures c.chainId !in {None, Some("")} ==> c.chainId == Some(ContextIn(c, fname).chainId)
  {
    stems := MemberStems(c.files);
    others := Others(stems, Stem(fname));
    kept := StemsInOrder(c.files, has);
    StemExactly(fname);
    OthersInOrder(stems, Stem(fname), other);
    FirstSix(others);
    IdExactly(c);
  }

  // ---- the texts -----------------------------------------------------------------------------------------

  ghost predicate NoComma(names: seq<string>) {
    forall i :: 0 <= i < |names| ==> ',' !in names[i]
  }

  /** The printed fields can be told apart: an id without quotes, and sibling names without commas
      that are not taken for the note on having none. */
  ghost predicate Distinguishable(c: Context) {
    && c.chainId != "" && '\'' !in c.chainId
    && NoComma(c.neighbours) && NO_SIBLINGS !in c.neighbours
  }

  lemma Regroup(a: string, b: string, q: char, c: string, d: string, e: string)
    ensures a + b + ([q] + c) + d + e == a + (b + [q] + (c + (d + e)))
  {
  }

  lemma PrefixParts(c: Context, rest: string)
    requires c.chainId != "" && LISTED == ['\''] + rest
    ensures Prefix(Some(c)) == CHAINED + (c.chainId + ['\''] + (rest + (Listing(c.neighbours) + ". ")))
  {
    Regroup(CHAINED, c.chainId, '\'', rest, Listing(c.neighbours), ". ");
  }

  lemma SameHead(a: string, b: string, q: char, x: string, y: string)
    requires q !in a && q !in b && a + [q] + x == b + [q] + y
    ensures a == b && x == y
  {
    Strings.SplitHead(a, q, x);
    Strings.SplitHead(b, q, y);
    assert a == Strings.Split(a + [q] + x, [q])[0] == b;
    assert x == (a + [q] + x)[|a| + 1..] == y;
  }

  lemma SameTail(a: string, b: string, e: string)
    requires a + e == b + e
    ensures a == b
  {
    assert |a| == |b|;
    assert a == (a + e)[..|a|] && b == (b + e)[..|b|];
  }

  lemma SameRest(e: string, a: string, b: string)
    requires e + a == e + b
    ensures a == b
  {
    assert a == (e + a)[|e|..] && b == (e + b)[|e|..];
  }

  lemma CommaAt(s: string, k: int)
    ensures Strings.MatchAt(s, ", ", k) ==> 0 <= k < |s| && s[k] == ','
  {
    if Strings.MatchAt(s, ", ", k) { assert s[k] == s[k..k + 2][0]; }
  }

  lemma NoCommaIn(name: string)
    requires ',' !in name
    ensures Lacks(name, ", ") && EndsAt(name, ", ")
  {
    forall k ensures !Strings.MatchAt(name, ", ", k) { CommaAt(name, k); }
    forall k | 0 <= k < |name| ensures !Strings.MatchAt(name + ", ", ", ", k) {
      CommaAt(name + ", ", k);
      assert (name + ", ")[k] == name[k];
    }
  }

  lemma CommaSplit(names: seq<string>)
    requires names != [] && NoComma(names)
    ensures IsSplit(Strings.Join(", ", names), ", ", names)
  {
    forall i | 0 <= i < |names| ensures Lacks(names[i], ", ") && EndsAt(names[i], ", ") { NoCommaIn(names[i]); }
  }

  lemma SameNames(a: seq<string>, b: seq<string>)
    requires a != [] && b != [] && NoComma(a) && NoComma(b) && Strings.Join(", ", a) == Strings.Join(", ", b)
    ensures a == b
  {
    CommaSplit(a);
    CommaSplit(b);
    SplitExactly(Strings.Join(", ", a), ", ", a);
    SplitExactly(Strings.Join(", ", a), ", ", b);
  }

  /** A list of names that reads like one text without a comma is that text alone. */
  lemma OneName(a: seq<string>, text: string)
    requires a != [] && NoComma(a) && ',' !in text && Strings.Join(", ", a) == text
    ensures a == [text]
  {
    var one := [text];
    assert NoComma(one) && Strings.Join(", ", one) == text;
    SameNames(a, one);
  }

  lemma SameListing(a: seq<string>, b: seq<string>)
    requires NoComma(a) && NoComma(b) && NO_SIBLINGS !in a && NO_SIBLINGS !in b && Listing(a) == Listing(b)
    ensures a == b
  {
    if a != [] && b != [] {
      SameNames(a, b);
    } else if a != [] {
      OneName(a, NO_SIBLINGS);
    } else if b != [] {
      OneName(b, NO_SIBLINGS);
    }
  }

  lemma SameParts(a: string, x: string, b: string, y: string, rest: string)
    requires '\'' !in a && '\'' !in b
    requires CHAINED + (a + ['\''] + (rest + (x + ". "))) == CHAINED + (b + ['\''] + (rest + (y + ". ")))
    ensures a == b && x == y
  {
    SameRest(CHAINED, a + ['\''] + (rest + (x + ". ")), b + ['\''] + (rest + (y + ". ")));
    SameHead(a, b, '\'', rest + (x + ". "), rest + (y + ". "));
    SameRest(rest, x + ". ", y + ". ");
    SameTail(x, y, ". ");
  }

  lemma SamePrefix(c: Context, d: Context)
    requires Distinguishable(c) && Distinguishable(d) && Prefix(Some(c)) == Prefix(Some(d))
    ensures c == d
  {
    var rest := LISTED[1..];
    assert LISTED == ['\''] + rest;
    PrefixParts(c, rest);
    PrefixParts(d, rest);
    SameParts(c.chainId, Listing(c.neighbours), d.chainId, Listing(d.neighbours), rest);
    SameListing(c.neighbours, d.neighbours);
  }

  /** A node outside chains never reads like one in a chain, whatever the ids and names. */
  lemma SingletonsDiffer(c: Context, a: string, b: string)
    ensures Prefix(None) + a != Prefix(Some(c)) + b
  {
    assert (Prefix(None) + a)[13] == 'a';
    assert (Prefix(Some(c)) + b)[13] == 'i';
  }

  /** The same body in another context is another text, so the digest of the cached row no longer
      fits and the node is embedded anew. */
  lemma ContextChangesText(x: Option<Context>, y: Option<Context>, body: string)
    requires x.Some? ==> Distinguishable(x.value)
    requires y.Some? ==> Distinguishable(y.value)
    ensures Prefix(x) + body == Prefix(y) + body ==> x == y
  {
    if Prefix(x) + body == Prefix(y) + body {
      SameTail(Prefix(x), Prefix(y), body);
      match (x, y)
      case (Some(c), Some(d)) => SamePrefix(c, d);
      case (None, Some(d)) => SingletonsDiffer(d, body, body);
      case (Some(c), None) => SingletonsDiffer(c, body, body);
      case (None, None) =>
    }
  }
}
