/** Freezing a node, thawing it, and freezing it again (samia/core/ia.py). */
module Refreeze {
  import opened Options
  import opened LifecycleData
  import opened NodeFields
  import opened LifecycleLaws
  import opened ThawedHeader
  import Frontmatter
  import FrontmatterFixpoint
  import FrontmatterText
  import HeaderLines
  import P = PoolData
  import Scalars
  import Segments
  import Strings
  import WholeFloats

  // ---- digests ------------------------------------------------------------------------------------

  /** The number of characters that are not white space. */
  function Ink(s: string): nat {
    if s == "" then 0 else (if Strings.IsSpace(s[0]) then 0 else 1) + Ink(s[1..])
  }

  lemma {:induction false} InkAdds(a: string, b: string)
    ensures Ink(a + b) == Ink(a) + Ink(b)
  {
    if a == "" {
      assert a + b == b;
    } else {
      assert (a + b)[1..] == a[1..] + b;
      InkAdds(a[1..], b);
    }
  }

  lemma {:induction false} NoInk(s: string)
    ensures Ink(s) == 0 <==> Strings.AllSpace(s)
  {
    if s != "" {
      NoInk(s[1..]);
      assert s == [s[0]] + s[1..];
    }
  }

  lemma {:induction false} InkOfCollapsed(s: string)
    ensures Ink(P.Collapse(s)) == Ink(s)
    decreases |s|
  {
    if s != "" {
      if Strings.IsSpace(s[0]) {
        var e := Segments.SpaceEnd(s, 1);
        InkOfCollapsed(s[e..]);
        assert s == s[..e] + s[e..];
        InkAdds(s[..e], s[e..]);
        NoInk(s[..e]);
        InkAdds(" ", P.Collapse(s[e..]));
      } else {
        InkOfCollapsed(s[1..]);
        InkAdds([s[0]], P.Collapse(s[1..]));
      }
    }
  }

  /** A measure that adds up over the parts of a text and is zero for white space only. */
  ghost predicate Measures(weight: string -> nat) {
    && (forall a, b :: weight(a + b) == weight(a) + weight(b))
    && (forall s :: weight(s) == 0 <==> Strings.AllSpace(s))
  }

  function InkAfter(lower: string -> string): string -> nat {
    s => Ink(lower(s))
  }

  /** Lower-casing works character by character, whatever number of characters each becomes, and
      neither hides one nor makes one of white space. */
  ghost predicate KeepsInk(lower: string -> string) {
    Measures(InkAfter(lower))
  }

  lemma {:induction false} WeightOfLeft(s: string, weight: string -> nat)
    requires Measures(weight)
    ensures weight(Strings.StripLeft(s)) == weight(s)
  {
    if s != "" && Strings.IsSpace(s[0]) {
      WeightOfLeft(s[1..], weight);
      assert Strings.AllSpace([s[0]]) && [s[0]] + s[1..] == s;
      assert weight([s[0]] + s[1..]) == weight([s[0]]) + weight(s[1..]);
    }
  }

  lemma {:induction false} WeightOfRight(s: string, weight: string -> nat)
    requires Measures(weight)
    ensures weight(Strings.StripRight(s)) == weight(s)
  {
    if s != "" && Strings.IsSpace(s[|s| - 1]) {
      var init, last := s[..|s| - 1], [s[|s| - 1]];
      WeightOfRight(init, weight);
      assert Strings.AllSpace(last) && init + last == s;
      assert weight(init + last) == weight(init) + weight(last);
    }
  }

  lemma WeightOfStripped(s: string, weight: string -> nat)
    requires Measures(weight)
    ensures weight(Strings.Strip(s)) == weight(s)
  {
    WeightOfLeft(s, weight);
    WeightOfRight(Strings.StripLeft(s), weight);
  }

  lemma InkOfNormalised(s: string, lower: string -> string)
    requires KeepsInk(lower)
    ensures Ink(P.Normalised(s, lower)) == InkAfter(lower)(s)
  {
    InkOfCollapsed(lower(Strings.Strip(s)));
    WeightOfStripped(s, InkAfter(lower));
  }

  lemma HeavierWithPrefix(y: string, x: string, weight: string -> nat)
    requires Measures(weight) && !Strings.AllSpace(y)
    ensures weight(y + x) != weight(x)
  {
  }

  /** Something visible in front shows in the normalised text. */
  lemma PrefixShows(y: string, x: string, lower: string -> string)
    requires KeepsInk(lower) && !Strings.AllSpace(y)
    ensures P.Normalised(y + x, lower) != P.Normalised(x, lower)
  {
    InkOfNormalised(y + x, lower);
    InkOfNormalised(x, lower);
    HeavierWithPrefix(y, x, InkAfter(lower));
  }

  /** Of these texts, only those with the same normalised form have the same hash. */
  ghost predicate NoCollision(lower: string -> string, sha: string -> string, xs: seq<string>, ys: seq<string>) {
    forall i, j :: 0 <= i < |xs| && 0 <= j < |ys| && sha(P.Normalised(xs[i], lower)) == sha(P.Normalised(ys[j], lower))
      ==> P.Normalised(xs[i], lower) == P.Normalised(ys[j], lower)
  }

  lemma IdentityKeepsInk()
    ensures KeepsInk(s => s)
  {
    var weight := InkAfter(s => s);
    forall s ensures weight(s) == Ink(s) && (weight(s) == 0 <==> Strings.AllSpace(s)) { NoInk(s); }
    forall a, b ensures weight(a + b) == weight(a) + weight(b) { InkAdds(a, b); }
  }

  /** What the theorem below asks of floats, digests and files can be met together. */
  lemma SomeEnvironment() returns (env: Env, lower: string -> string, sha: string -> string)
    ensures IsStandard(env) && env.digest == P.SegmentHash(lower, sha) && KeepsInk(lower)
    ensures forall xs, ys :: NoCollision(lower, sha, xs, ys)
    ensures Scalars.CodecOk(env.texts.floats) && Scalars.IsFloat(0.5, env.texts.floats)
  {
    lower, sha := s => s, s => s;
    IdentityKeepsInk();
    WholeFloats.CodecIsOk();
    env := StandardEnv(Texts(WholeFloats.Codec(), items => ""), P.SegmentHash(lower, sha));
  }

  // ---- addresses ------------------------------------------------------------------------------------

  lemma {:induction false} FirstPlaced(p: P.Pool, contents: seq<string>, node: string, digest: P.Digest)
    requires P.Ordered(p) && contents != []
    ensures P.PlacedAll(p, contents, node, digest)[0] == P.Placed(p, contents[0], digest)
  {
    var n := |contents| - 1;
    if n > 0 { FirstPlaced(p, contents[..n], node, digest); }
  }

  lemma OtherAddress(p: P.Pool, a: string, content: string, digest: P.Digest)
    requires P.Valid(p, digest) && a in p.entries && digest(content) != digest(p.entries[a].content)
    ensures P.Placed(p, content, digest) != a
  {
    P.FindMeans(p.entries, p.order, digest(content));
    P.NextAddrIsFresh(p, digest);
    assert P.EntryOk(p.entries[a], digest);
  }

  /** Segments of which the first has another digest do not get the same addresses. */
  lemma OtherAddresses(p: P.Pool, addrs: seq<string>, contents: seq<string>, node: string, digest: P.Digest)
    requires P.Valid(p, digest) && P.AllHeld(p, addrs)
    requires contents != []
    requires addrs != [] ==> digest(contents[0]) != digest(P.Parts(p, addrs)[0])
    ensures P.PlacedAll(p, contents, node, digest) != addrs
  {
    FirstPlaced(p, contents, node, digest);
    if addrs != [] {
      assert addrs[0] in p.entries;
      OtherAddress(p, addrs[0], contents[0], digest);
    }
  }

  // ---- the thawed file --------------------------------------------------------------------------------

  /** What a parsed header is like. */
  ghost predicate GoodHead(h: Frontmatter.Head, env: Env) {
    FrontmatterFixpoint.Proper(h, Values(env)) && WereRead(h.fm, Values(env))
  }

  lemma ParsedHeadIsGood(text: string, env: Env)
    requires IsStandard(env) && Scalars.CodecOk(env.texts.floats) && env.parse(text).Parsed?
    ensures GoodHead(env.parse(text).head, env)
  {
    var c := Values(env);
    assert env.parse(text) == Frontmatter.ParseText(text, c);
    HeaderLines.StandardIsLawful(env.texts.floats);
    FrontmatterFixpoint.ParsedIsProper(text, c);
    ReadValues(FrontmatterText.SplitLines(text[4..Strings.Find(text, FrontmatterText.CLOSE, 4)]), c);
  }

  lemma ParsedHeadIsDict(text: string, env: Env)
    requires IsStandard(env) && Scalars.CodecOk(env.texts.floats) && env.parse(text).Parsed?
    ensures Frontmatter.IsDict(env.parse(text).head)
  {
    ParsedHeadIsGood(text, env);
    FrontmatterFixpoint.ProperEmitsKeys(env.parse(text).head, Values(env));
  }

  /** The text of a thawed file. */
  function ThawedText(h: Frontmatter.Head, today: string, parts: seq<string>, env: Env): string {
    var warm := WarmHead(h, today);
    Frontmatter.Fenced(Frontmatter.FieldLines(warm.keys, warm.fm, Values(env)), Frontmatter.TailOfBody(Segments.Joined(parts)))
  }

  ghost predicate Writable(h: Frontmatter.Head, today: string, env: Env) {
    && GoodHead(h, env)
    && Scalars.CodecOk(env.texts.floats) && Scalars.IsFloat(0.5, env.texts.floats) && Scalars.OneLine(today)
  }

  /** What holds of the header that is written. */
  ghost predicate WarmReady(warm: Frontmatter.Head, env: Env) {
    && warm.keys != [] && Frontmatter.Distinct(warm.keys) && Frontmatter.KeysOk(warm.keys)
    && Frontmatter.Printable(warm.fm, Values(env)) && (forall k :: k in warm.keys ==> k in warm.fm)
    && Field(warm, "tier") == Some(Scalars.Str("warm"))
  }

  lemma WarmIsReady(h: Frontmatter.Head, today: string, env: Env)
    requires Writable(h, today, env)
    ensures var warm := WarmHead(h, today);
      && WarmReady(warm, env)
      && Frontmatter.EmittedKeys(warm) == warm.keys
      && (NoLaterFence(warm.keys) <==> NoLaterFence(h.keys))
  {
    FrontmatterFixpoint.ProperEmitsKeys(h, Values(env));
    WarmExtends(h, today);
    ExtendedEmits(h, WarmHead(h, today), Values(env));
    WarmPrintable(h, today, env.texts.floats);
    WarmFields(h, today, "tier");
    assert "tier" in WarmHead(h, today).keys;
  }

  lemma WrittenText(h: Frontmatter.Head, today: string, parts: seq<string>, env: Env)
    requires IsStandard(env) && Writable(h, today, env)
    ensures env.write(WarmHead(h, today), Segments.Joined(parts)) == ThawedText(h, today, parts, env)
  {
    WarmIsReady(h, today, env);
    var warm := WarmHead(h, today);
    assert env.write(warm, Segments.Joined(parts)) == Frontmatter.Serialized(warm, Segments.Joined(parts), Values(env));
  }

  /** The id a node has once its header was written and read again. */
  lemma IdFromField(h: Frontmatter.Head, g: Frontmatter.Head, name: string, env: Env)
    requires "address" in h.fm <==> "address" in g.fm
    requires "address" in h.fm ==> PyStr(g.fm["address"], env.texts) == PyStr(h.fm["address"], env.texts)
    ensures NodeId(g, name, env) == NodeId(h, name, env)
  {
  }

  lemma AddressAgain(h: Frontmatter.Head, env: Env)
    requires WereRead(h.fm, Values(env)) && Scalars.CodecOk(env.texts.floats) && "address" in h.fm
    ensures PyStr(Values(env).read(Values(env).show(h.fm["address"])), env.texts) == PyStr(h.fm["address"], env.texts)
  {
    var raw :| h.fm["address"] == Values(env).read(raw);
    ReadAgainSame(raw, env.texts);
  }

  lemma AddressStays(h: Frontmatter.Head, today: string)
    ensures var warm := WarmHead(h, today);
      ("address" in warm.fm <==> "address" in h.fm) && ("address" in h.fm ==> warm.fm["address"] == h.fm["address"])
  {
    WarmFields(h, today, "address");
    assert !IsWarmKey("address");
  }

  lemma AddressReread(g: Frontmatter.Head, c: HeaderLines.Codec)
    requires Frontmatter.IsDict(g)
    ensures var again := Frontmatter.Reread(g.keys, g.fm, c);
      && ("address" in again <==> "address" in g.fm)
      && ("address" in g.fm ==> again["address"] == c.read(c.show(g.fm["address"])))
  {
  }

  lemma SameId(h: Frontmatter.Head, today: string, name: string, env: Env)
    requires Writable(h, today, env)
    ensures var warm := WarmHead(h, today);
      var again := Frontmatter.Head(Frontmatter.Reread(warm.keys, warm.fm, Values(env)), warm.keys, warm.keys);
      NodeId(again, name, env) == NodeId(h, name, env)
  {
    var warm, c := WarmHead(h, today), Values(env);
    FrontmatterFixpoint.ProperEmitsKeys(h, c);
    WarmExtends(h, today);
    AddressStays(h, today);
    AddressReread(warm, c);
    if "address" in h.fm { AddressAgain(h, env); }
    IdFromField(h, Frontmatter.Head(Frontmatter.Reread(warm.keys, warm.fm, c), warm.keys, warm.keys), name, env);
  }

  /** Read back, a thawed file is a node that is not hot; its segments are the pooled ones exactly
      when no later key looks like the fence, and otherwise the first has something in front. */
  lemma ReadThawed(h: Frontmatter.Head, today: string, parts: seq<string>, env: Env)
    requires IsStandard(env) && Writable(h, today, env) && Segments.AllParagraphs(parts)
    ensures var p := env.parse(ThawedText(h, today, parts, env));
      && p.Parsed? && !IsHot(p.head)
      && (NoLaterFence(h.keys) ==>
            env.paragraphs(p.body) == parts && forall name :: NodeId(p.head, name, env) == NodeId(h, name, env))
      && (!NoLaterFence(h.keys) ==> GluedTo(env.paragraphs(p.body), parts))
  {
    WarmIsReady(h, today, env);
    HeaderLines.StandardReadsFields(env.texts.floats);
    if NoLaterFence(h.keys) {
      ReadThawedComplete(h, today, parts, env);
    } else {
      ReadThawedCutShort(h, today, parts, env);
    }
  }

  ghost predicate GluedTo(segments: seq<string>, parts: seq<string>) {
    && segments != []
    && (parts != [] ==> exists y :: !Strings.AllSpace(y) && segments[0] == y + parts[0])
  }

  lemma ReadThawedComplete(h: Frontmatter.Head, today: string, parts: seq<string>, env: Env)
    requires IsStandard(env) && Writable(h, today, env) && Segments.AllParagraphs(parts)
    requires WarmReady(WarmHead(h, today), env) && HeaderLines.ReadsFields(Values(env))
    requires NoLaterFence(WarmHead(h, today).keys)
    ensures var p := env.parse(ThawedText(h, today, parts, env));
      && p.Parsed? && !IsHot(p.head) && env.paragraphs(p.body) == parts
      && forall name :: NodeId(p.head, name, env) == NodeId(h, name, env)
  {
    var warm, c := WarmHead(h, today), Values(env);
    var body := ReadComplete(warm.keys, warm.fm, parts, c);
    assert env.parse(ThawedText(h, today, parts, env)) == Frontmatter.ParseText(ThawedText(h, today, parts, env), c);
    assert env.paragraphs(body) == Segments.Paragraphs(body);
    RereadIsNotHot(warm.keys, warm.fm, env.texts.floats);
    var again := Frontmatter.Head(Frontmatter.Reread(warm.keys, warm.fm, c), warm.keys, warm.keys);
    forall name ensures NodeId(again, name, env) == NodeId(h, name, env) {
      SameId(h, today, name, env);
    }
  }

  lemma ReadThawedCutShort(h: Frontmatter.Head, today: string, parts: seq<string>, env: Env)
    requires IsStandard(env) && Segments.AllParagraphs(parts)
    requires WarmReady(WarmHead(h, today), env) && HeaderLines.ReadsFields(Values(env))
    requires !NoLaterFence(WarmHead(h, today).keys)
    ensures var p := env.parse(ThawedText(h, today, parts, env));
      p.Parsed? && !IsHot(p.head) && GluedTo(env.paragraphs(p.body), parts)
  {
    var warm, c := WarmHead(h, today), Values(env);
    var m, body := ReadCutShort(warm.keys, warm.fm, parts, c);
    assert env.parse(ThawedText(h, today, parts, env)) == Frontmatter.ParseText(ThawedText(h, today, parts, env), c);
    assert env.paragraphs(body) == Segments.Paragraphs(body);
    RereadIsNotHot(warm.keys[..m], warm.fm, env.texts.floats);
  }

  // ---- freezing again -----------------------------------------------------------------------------------

  lemma PartsAreParagraphs(p: P.Pool, addrs: seq<string>)
    requires P.Clean(p) && P.AllHeld(p, addrs)
    ensures Segments.AllParagraphs(P.Parts(p, addrs))
  {
  }

  /** Compressing the segments read from the thawed file gives the same addresses, and no new entry,
      exactly when they are the pooled ones. */
  lemma PlacedAgain(p: P.Pool, addrs: seq<string>, segments: seq<string>, same: bool, node: string,
                    lower: string -> string, sha: string -> string)
    requires KeepsInk(lower) && P.Valid(p, P.SegmentHash(lower, sha)) && P.Clean(p) && P.AllHeld(p, addrs)
    requires NoCollision(lower, sha, segments, P.Parts(p, addrs))
    requires same ==> segments == P.Parts(p, addrs)
    requires !same ==> GluedTo(segments, P.Parts(p, addrs))
    ensures P.PlacedAll(p, segments, node, P.SegmentHash(lower, sha)) == addrs <==> same
    ensures same ==> P.AbsorbedAll(p, segments, node, P.SegmentHash(lower, sha)).order == p.order
  {
    if same {
      P.ContentsFindThemselves(p, addrs, node, P.SegmentHash(lower, sha));
    } else {
      if addrs != [] { GluedDigest(segments, P.Parts(p, addrs), lower, sha); }
      OtherAddresses(p, addrs, segments, node, P.SegmentHash(lower, sha));
    }
  }

  lemma GluedDigest(segments: seq<string>, parts: seq<string>, lower: string -> string, sha: string -> string)
    requires KeepsInk(lower) && NoCollision(lower, sha, segments, parts) && GluedTo(segments, parts) && parts != []
    ensures P.SegmentHash(lower, sha)(segments[0]) != P.SegmentHash(lower, sha)(parts[0])
  {
    var y :| !Strings.AllSpace(y) && segments[0] == y + parts[0];
    PrefixShows(y, parts[0], lower);
  }

  /** The archive record a freeze of the node writes, if it can be frozen. */
  function RecordOf(w: World, name: string, env: Env): Option<FrozenRec>
    requires P.Ordered(w.pool)
  {
    if CanFreeze(w, name, env) then
      var h := ParsedNode(w, name, env).head;
      var after := Frozen(w, name, env).frozen;
      if NodeId(h, name, env) in after then Some(after[NodeId(h, name, env)]) else None
    else None
  }

  lemma FreezeRecords(w: World, name: string, env: Env)
    requires P.Ordered(w.pool) && CanFreeze(w, name, env)
    ensures var p := ParsedNode(w, name, env);
      var id := NodeId(p.head, name, env);
      var f := Frozen(w, name, env);
      && RecordOf(w, name, env)
         == Some(FrozenRec(name, p.head, P.PlacedAll(w.pool, env.paragraphs(p.body), id, env.digest), false))
      && id in f.frozen && RecordOf(w, name, env) == Some(f.frozen[id])
      && f.pool == P.AbsorbedAll(w.pool, env.paragraphs(p.body), id, env.digest)
  {
  }

  lemma ThawWrites(f: World, id: string, today: string, env: Env)
    requires id in f.frozen && !f.frozen[id].resumed
    ensures var v := Thawed(f, id, today, env);
      var r := f.frozen[id];
      && v.pool == f.pool
      && PathOf(r.name) in v.nodes
      && v.nodes[PathOf(r.name)] == env.write(WarmHead(r.head, today), P.Decompressed(f.pool, r.addrs))
  {
  }

  /** The same addresses as before, and no entry the pool did not have. */
  predicate SameAgain(r: FrozenRec, again: Option<FrozenRec>, before: P.Pool, after: P.Pool) {
    again.Some? && again.value.addrs == r.addrs && after.order == before.order
  }

  /** The segments of the node file, as it is now. */
  function SegmentsOf(w: World, name: string, env: Env): seq<string> {
    match ParsedNode(w, name, env)
    case NoHeader => []
    case Parsed(_, body) => env.paragraphs(body)
  }

  /** The thawed node of record `r` can be frozen; that gives the same addresses and no new pool entry,
      under the same id, exactly when no key of the header but the first starts like the closing
      fence. */
  ghost predicate FreezesAgain(f: World, r: FrozenRec, v: World, env: Env)
    requires P.Ordered(v.pool)
  {
    && CanFreeze(v, r.name, env)
    && (SameAgain(r, RecordOf(v, r.name, env), f.pool, Frozen(v, r.name, env).pool) <==> NoLaterFence(r.head.keys))
    && (NoLaterFence(r.head.keys) ==> NodeId(ParsedNode(v, r.name, env).head, r.name, env) == NodeId(r.head, r.name, env))
  }

  /** The code's own digest and values. */
  ghost predicate Faithful(env: Env, lower: string -> string, sha: string -> string) {
    && IsStandard(env) && env.digest == P.SegmentHash(lower, sha) && KeepsInk(lower)
    && Scalars.CodecOk(env.texts.floats) && Scalars.IsFloat(0.5, env.texts.floats)
  }

  /** The archive holds an unthawed node whose file can be written and whose body is pooled. */
  ghost predicate Ready(f: World, id: string, today: string, env: Env) {
    && P.Valid(f.pool, env.digest) && P.Clean(f.pool)
    && id in f.frozen && !f.frozen[id].resumed && P.AllHeld(f.pool, f.frozen[id].addrs)
    && Writable(f.frozen[id].head, today, env)
  }

  /** No collisions between the segments read from the thawed file and the pooled ones. */
  ghost predicate CollisionFree(f: World, id: string, v: World, env: Env, lower: string -> string, sha: string -> string) {
    id in f.frozen ==>
      NoCollision(lower, sha, SegmentsOf(v, f.frozen[id].name, env), P.Parts(f.pool, f.frozen[id].addrs))
  }

  /** A frozen node that is thawed can always be frozen again. The second freeze gives the same
      addresses and no new pool entry, under the same id, exactly when no key of the header but
      the first starts like the closing fence; the hash must not have collisions between the
      segments then read and the pooled ones. */
  lemma RefreezeSameExactlyWhen(w: World, name: string, today: string, env: Env, lower: string -> string, sha: string -> string)
    requires Faithful(env, lower, sha) && Scalars.OneLine(today)
    requires ArchiveHeld(w, env) && CanFreeze(w, name, env)
    requires var id := NodeId(ParsedNode(w, name, env).head, name, env);
      var f := Frozen(w, name, env);
      CollisionFree(f, id, Thawed(f, id, today, env), env, lower, sha)
    ensures var p := ParsedNode(w, name, env);
      var id := NodeId(p.head, name, env);
      var f := Frozen(w, name, env);
      && id in f.frozen && f.frozen[id].name == name && f.frozen[id].head == p.head
      && FreezesAgain(f, f.frozen[id], Thawed(f, id, today, env), env)
  {
    FrozenIsReady(w, name, today, env);
    RefreezeThawed(Frozen(w, name, env), NodeId(ParsedNode(w, name, env).head, name, env), today, env, lower, sha);
  }

  lemma FrozenIsReady(w: World, name: string, today: string, env: Env)
    requires IsStandard(env) && Scalars.CodecOk(env.texts.floats) && Scalars.IsFloat(0.5, env.texts.floats) && Scalars.OneLine(today)
    requires ArchiveHeld(w, env) && CanFreeze(w, name, env)
    ensures var p := ParsedNode(w, name, env);
      var id := NodeId(p.head, name, env);
      var f := Frozen(w, name, env);
      Ready(f, id, today, env) && f.frozen[id].name == name && f.frozen[id].head == p.head
  {
    FreezeRecords(w, name, env);
    FrozenHolds(w, name, env);
    ParsedHeadIsGood(w.nodes[PathOf(name)], env);
  }

  lemma ThawedFile(f: World, id: string, today: string, env: Env)
    requires IsStandard(env) && id in f.frozen && !f.frozen[id].resumed && Writable(f.frozen[id].head, today, env)
    ensures var r := f.frozen[id];
      var v := Thawed(f, id, today, env);
      v.pool == f.pool && ParsedNode(v, r.name, env) == env.parse(ThawedText(r.head, today, P.Parts(f.pool, r.addrs), env))
  {
    var r := f.frozen[id];
    ThawWrites(f, id, today, env);
    WrittenText(r.head, today, P.Parts(f.pool, r.addrs), env);
  }

  /** What the second freeze of a thawed file gives. */
  lemma FrozenAgain(v: World, r: FrozenRec, today: string, env: Env, lower: string -> string, sha: string -> string)
    requires IsStandard(env) && env.digest == P.SegmentHash(lower, sha) && KeepsInk(lower)
    requires P.Valid(v.pool, env.digest) && P.Clean(v.pool) && P.AllHeld(v.pool, r.addrs) && Writable(r.head, today, env)
    requires ParsedNode(v, r.name, env) == env.parse(ThawedText(r.head, today, P.Parts(v.pool, r.addrs), env))
    requires NoCollision(lower, sha, SegmentsOf(v, r.name, env), P.Parts(v.pool, r.addrs))
    ensures FreezesAgain(v, r, v, env)
  {
    PartsAreParagraphs(v.pool, r.addrs);
    ReadThawed(r.head, today, P.Parts(v.pool, r.addrs), env);
    var q := ParsedNode(v, r.name, env);
    FreezeRecords(v, r.name, env);
    PlacedAgain(v.pool, r.addrs, env.paragraphs(q.body), NoLaterFence(r.head.keys), NodeId(q.head, r.name, env), lower, sha);
  }

  /** The same from the archive on. */
  lemma RefreezeThawed(f: World, id: string, today: string, env: Env, lower: string -> string, sha: string -> string)
    requires Faithful(env, lower, sha) && Ready(f, id, today, env)
    requires CollisionFree(f, id, Thawed(f, id, today, env), env, lower, sha)
    ensures FreezesAgain(f, f.frozen[id], Thawed(f, id, today, env), env)
  {
    ThawedFile(f, id, today, env);
    FrozenAgain(Thawed(f, id, today, env), f.frozen[id], today, env, lower, sha);
  }
}
