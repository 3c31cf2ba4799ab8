/** The pool of samia/core/ia.py entry by entry: whom it counts, what it stores of a new segment,
    and when two segments are taken for the same. */
module PoolLaws {
  import opened Filters
  import opened KeyTexts
  import opened PoolData
  import opened Strings
  import Segments

  // ---- references --------------------------------------------------------------------------------------

  function Repeated(node: string, n: nat): seq<string> {
    seq(n, i => node)
  }

  /** The first eighty characters on one line, without the white space around them. */
  ghost predicate Describes(description: string, content: string) {
    exists line, left, right :: OneLine(line, content) && Padded(line, left, description, right) && Stripped(description)
  }

  ghost predicate OneLine(line: string, content: string) {
    && |line| == (if |content| <= 80 then |content| else 80)
    && forall i :: 0 <= i < |line| ==> line[i] == if content[i] == '\n' then ' ' else content[i]
  }

  lemma DescribedExactly(content: string)
    ensures Describes(Described(content), content)
  {
    var line := Flat(if |content| <= 80 then content else content[..80]);
    var left, right := StripIsPadded(line);
    assert OneLine(line, content);
  }

  /** The entry after segments from these places were counted for the node. */
  ghost predicate CountedAt(before: Pool, after: Pool, a: string, contents: seq<string>, at: seq<int>, node: string,
                            digest: Digest) {
    if at == [] then
      (a in after.entries <==> a in before.entries) && (a in before.entries ==> after.entries[a] == before.entries[a])
    else
      && a in after.entries
      && var e := after.entries[a];
         if a in before.entries then
           var o := before.entries[a];
           e == o.(refs := o.refs + |at|, refNodes := o.refNodes + Repeated(node, |at|))
         else
           && 0 <= at[0] < |contents| && e.content == contents[at[0]] && e.contentHash == digest(e.content)
           && e.refs == |at| && e.refNodes == Repeated(node, |at|) && Describes(e.description, e.content)
  }

  lemma RepeatedMore(node: string, n: nat, before: seq<string>)
    ensures Repeated(node, n + 1) == Repeated(node, n) + [node]
    ensures before + Repeated(node, n) + [node] == before + Repeated(node, n + 1)
  {
  }

  /** One segment counts at its own address only. */
  lemma OneCounts(p: Pool, content: string, node: string, digest: Digest, a: string)
    requires Valid(p, digest)
    ensures var q := Absorbed(p, content, node, digest);
      if a == Placed(p, content, digest) then
        && a in q.entries
        && q.entries[a] == if a in p.entries then Bumped(p.entries[a], node) else NewEntry(content, node, digest)
      else (a in q.entries <==> a in p.entries) && (a in p.entries ==> q.entries[a] == p.entries[a])
  {
    FindMeans(p.entries, p.order, digest(content));
    NextAddrIsFresh(p, digest);
  }

  lemma CountsMore(p: Pool, q: Pool, r: Pool, a: string, contents: seq<string>, at: seq<int>, content: string, node: string,
                   digest: Digest)
    requires CountedAt(p, q, a, contents, at, node, digest)
    requires a in r.entries
    requires r.entries[a] == if a in q.entries then Bumped(q.entries[a], node) else NewEntry(content, node, digest)
    requires forall i :: 0 <= i < |at| ==> at[i] < |contents|
    ensures CountedAt(p, r, a, contents + [content], at + [|contents|], node, digest)
  {
    if at == [] {
      DescribedExactly(content);
      if a in p.entries { RepeatedMore(node, 0, p.entries[a].refNodes); }
    } else {
      RepeatedMore(node, |at|, if a in p.entries then p.entries[a].refNodes else []);
    }
  }

  lemma CountsSame(p: Pool, q: Pool, r: Pool, a: string, contents: seq<string>, at: seq<int>, content: string, node: string,
                   digest: Digest)
    requires CountedAt(p, q, a, contents, at, node, digest)
    requires (a in r.entries <==> a in q.entries) && (a in q.entries ==> r.entries[a] == q.entries[a])
    ensures CountedAt(p, r, a, contents + [content], at, node, digest)
  {
  }

  /** Each segment of a node counts once, for that node, at the address it gets; a new address holds
      the first segment that got it. */
  lemma {:induction false} CountsExactly(p: Pool, contents: seq<string>, node: string, digest: Digest, a: string,
                                         here: string -> bool) returns (at: seq<int>)
    requires Valid(p, digest) && forall x :: here(x) <==> x == a
    ensures ArePlaces(at, PlacedAll(p, contents, node, digest), here)
    ensures CountedAt(p, AbsorbedAll(p, contents, node, digest), a, contents, at, node, digest)
  {
    if contents == [] {
      at := [];
    } else {
      var init, last := contents[..|contents| - 1], contents[|contents| - 1];
      var before := CountsExactly(p, init, node, digest, a, here);
      AbsorbAllKeeps(p, init, node, digest);
      var q, addrs := AbsorbedAll(p, init, node, digest), PlacedAll(p, init, node, digest);
      var addr := Placed(q, last, digest);
      at := OneMorePlace(before, addrs, here, addr);
      OneCounts(q, last, node, digest, a);
      Rejoined(contents);
      PlacesBelow(before, addrs, here);
      if here(addr) {
        CountsMore(p, q, Absorbed(q, last, node, digest), a, init, before, last, node, digest);
      } else {
        CountsSame(p, q, Absorbed(q, last, node, digest), a, init, before, last, node, digest);
      }
    }
  }

  lemma PlacesBelow(at: seq<int>, all: seq<string>, p: string -> bool)
    requires ArePlaces(at, all, p)
    ensures forall i :: 0 <= i < |at| ==> at[i] < |all|
  {
    forall i | 0 <= i < |at| ensures at[i] < |all| {
      var k := at[i];
      assert k in at;
    }
  }

  // ---- normal forms --------------------------------------------------------------------------------------

  ghost predicate Inked(word: string) {
    forall i :: 0 <= i < |word| ==> !IsSpace(word[i])
  }

  /** Words with white space between them. */
  function Weave(words: seq<string>, gaps: seq<string>): string
    requires |words| == |gaps| + 1
  {
    if gaps == [] then words[0] else words[0] + (gaps[0] + Weave(words[1..], gaps[1..]))
  }

  /** Only the first and the last word may be empty. */
  ghost predicate Woven(words: seq<string>, gaps: seq<string>) {
    && |words| == |gaps| + 1
    && (forall i :: 0 <= i < |words| ==> Inked(words[i]))
    && (forall i :: 0 < i < |words| - 1 ==> words[i] != "")
    && (forall i :: 0 <= i < |gaps| ==> gaps[i] != "" && AllSpace(gaps[i]))
  }

  lemma {:induction false} CollapseWord(word: string, rest: string)
    requires Inked(word)
    ensures Collapse(word + rest) == word + Collapse(rest)
  {
    if word == "" {
      assert word + rest == rest;
    } else {
      var s := word + rest;
      assert s[0] == word[0] && s[1..] == word[1..] + rest;
      CollapseWord(word[1..], rest);
    }
  }

  lemma CollapseGap(gap: string, rest: string)
    requires gap != "" && AllSpace(gap) && (rest == "" || !IsSpace(rest[0]))
    ensures Collapse(gap + rest) == " " + Collapse(rest)
  {
    var s := gap + rest;
    var e := Segments.SpaceEnd(s, 1);
    forall k | 0 <= k < |gap| ensures IsSpace(s[k]) { assert s[k] == gap[k]; }
    assert rest != "" ==> s[|gap|] == rest[0];
    assert e == |gap| && s[e..] == rest;
  }

  lemma WeaveTail(words: seq<string>, gaps: seq<string>)
    requires Woven(words, gaps) && gaps != []
    ensures Woven(words[1..], gaps[1..])
    ensures var rest := Weave(words[1..], gaps[1..]); rest == "" || !IsSpace(rest[0])
  {
    var w, g := words[1..], gaps[1..];
    if g != [] {
      assert w[0] == words[1] && words[1] != "";
      assert Weave(w, g)[0] == words[1][0];
    }
  }

  /** However much white space stands between the words, the normal form has one space there. */
  lemma {:induction false} CollapseExactly(words: seq<string>, gaps: seq<string>)
    requires Woven(words, gaps)
    ensures Collapse(Weave(words, gaps)) == Join(" ", words)
    decreases |gaps|
  {
    if gaps == [] {
      CollapseWord(words[0], "");
      assert words[0] + "" == words[0];
    } else {
      var rest := Weave(words[1..], gaps[1..]);
      WeaveTail(words, gaps);
      CollapseExactly(words[1..], gaps[1..]);
      CollapseWord(words[0], gaps[0] + rest);
      CollapseGap(gaps[0], rest);
      assert words[0] + (" " + Join(" ", words[1..])) == words[0] + " " + Join(" ", words[1..]);
    }
  }

  /** Every text is such a weave. */
  lemma {:induction false} EveryTextIsWoven(s: string) returns (words: seq<string>, gaps: seq<string>)
    ensures Woven(words, gaps) && Weave(words, gaps) == s
    decreases |s|
  {
    if s == "" {
      words, gaps := [""], [];
    } else if IsSpace(s[0]) {
      var e := Segments.SpaceEnd(s, 1);
      var w, g := EveryTextIsWoven(s[e..]);
      words, gaps := [""] + w, [s[..e]] + g;
      assert words[1..] == w && gaps[1..] == g;
      assert "" + (s[..e] + s[e..]) == s;
      FirstWord(w, g);
    } else {
      var w, g := EveryTextIsWoven(s[1..]);
      words, gaps := [[s[0]] + w[0]] + w[1..], g;
      assert words[1..] == w[1..];
      assert s == [s[0]] + s[1..];
      if g != [] {
        var rest := gaps[0] + Weave(w[1..], g[1..]);
        assert [s[0]] + (w[0] + rest) == words[0] + rest;
      }
    }
  }

  /** A weave that does not begin with white space, and goes on, begins with a word. */
  lemma FirstWord(w: seq<string>, g: seq<string>)
    requires Woven(w, g)
    ensures Weave(w, g) != "" && !IsSpace(Weave(w, g)[0]) ==> w[0] != ""
    ensures Weave(w, g) == "" ==> |w| == 1
  {
    if g != [] && w[0] == "" {
      assert Weave(w, g)[0] == g[0][0];
    }
  }

  /** A segment is hashed by the words of its lower-cased text, one space apart, whatever white space
      surrounds it or stands between them. */
  lemma HashExactly(text: string, left: string, inner: string, right: string, words: seq<string>, gaps: seq<string>,
                    lower: string -> string, sha: string -> string)
    requires Padded(text, left, inner, right) && inner != "" && !IsSpace(inner[0]) && !IsSpace(inner[|inner| - 1])
    requires Woven(words, gaps) && lower(inner) == Weave(words, gaps)
    ensures SegmentHash(lower, sha)(text) == sha(Join(" ", words))
  {
    StripOfPadded(text, left, inner, right);
    CollapseExactly(words, gaps);
    assert Normalised(text, lower) == Collapse(lower(inner)) == Collapse(Weave(words, gaps));
    assert SegmentHash(lower, sha)(text) == sha(Normalised(text, lower));
  }

  // ---- decompression -------------------------------------------------------------------------------------

  /** The contents at the addresses, and a marker for each unknown one. */
  ghost predicate ContentsAt(parts: seq<string>, p: Pool, addrs: seq<string>) {
    && |parts| == |addrs|
    && forall i :: 0 <= i < |addrs| ==>
         parts[i] == if addrs[i] in p.entries then p.entries[addrs[i]].content else "<MISSING POOL ENTRY " + addrs[i] + ">"
  }

  /** A body is decompressed to the contents, a blank line apart, and a final newline. */
  lemma TextExactly(p: Pool, addrs: seq<string>) returns (parts: seq<string>)
    ensures ContentsAt(parts, p, addrs) && Decompressed(p, addrs) == Join("\n\n", parts) + "\n"
  {
    parts := Parts(p, addrs);
  }
}
