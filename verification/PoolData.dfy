/** The content-addressed pool (samia/core/ia.py): entries, what absorbing a segment does to
    them, and why archived bodies stay readable. */
module PoolData {
  import opened Options
  import opened Strings
  import opened Segments
  import Decimals

  datatype PoolEntry = PoolEntry(contentHash: string, content: string, refs: nat, description: string, refNodes: seq<string>)

  /** The entries, and their keys in insertion order. */
  datatype Pool = Pool(entries: map<string, PoolEntry>, order: seq<string>)

  const EMPTY := Pool(map[], [])

  // ---- digests ------------------------------------------------------------------------------

  /** `re.sub(r"\s+", " ", s)` */
  function Collapse(s: string): string
    decreases |s|
  {
    if s == "" then ""
    else if IsSpace(s[0]) then " " + Collapse(s[SpaceEnd(s, 1)..])
    else [s[0]] + Collapse(s[1..])
  }

  /** The text a segment is identified by, for a given lower-casing. */
  function Normalised(content: string, lower: string -> string): string {
    Collapse(lower(Strip(content)))
  }

  /** The digest of a segment. */
  type Digest = string -> string

  /** `segment_hash`: the sha of the normalised text. */
  function SegmentHash(lower: string -> string, sha: string -> string): Digest {
    (content: string) => sha(Normalised(content, lower))
  }

  // ---- addresses ----------------------------------------------------------------------------

  function Address(n: nat): string {
    "POOL-" + Decimals.Padded(n, 4)
  }

  lemma AddressInjective(m: nat, n: nat)
    requires Address(m) == Address(n)
    ensures m == n
  {
    assert Address(m)[5..] == Decimals.Padded(m, 4);
    assert Address(n)[5..] == Decimals.Padded(n, 4);
    Decimals.PaddedInjective(m, n, 4);
  }

  /** The first `n` addresses. */
  function Addresses(n: nat): (addrs: seq<string>)
    ensures |addrs| == n
  {
    if n == 0 then [] else Addresses(n - 1) + [Address(n)]
  }

  lemma {:induction false} LaterAddressIsNew(n: nat, m: nat)
    requires n < m
    ensures Address(m) !in Addresses(n)
  {
    if n > 0 {
      LaterAddressIsNew(n - 1, m);
      if Address(m) == Address(n) { AddressInjective(m, n); }
    }
  }

  function NextAddr(p: Pool): string {
    Address(|p.entries| + 1)
  }

  // ---- absorbing segments -------------------------------------------------------------------

  /** The first address, in insertion order, whose entry has the digest. */
  function Find(entries: map<string, PoolEntry>, order: seq<string>, hash: string): Option<string>
    requires forall a :: a in order ==> a in entries
  {
    if order == [] then None
    else if entries[order[0]].contentHash == hash then Some(order[0])
    else Find(entries, order[1..], hash)
  }

  function Bumped(e: PoolEntry, node: string): PoolEntry {
    e.(refs := e.refs + 1, refNodes := e.refNodes + [node])
  }

  function Flat(s: string): string {
    seq(|s|, i requires 0 <= i < |s| => if s[i] == '\n' then ' ' else s[i])
  }

  function Described(content: string): string {
    Strip(Flat(if |content| <= 80 then content else content[..80]))
  }

  function NewEntry(content: string, node: string, digest: Digest): PoolEntry {
    PoolEntry(digest(content), content, 1, Described(content), [node])
  }

  predicate Ordered(p: Pool) {
    forall a :: a in p.order ==> a in p.entries
  }

  /** The address a segment gets: that of the entry with its digest, or the next one. */
  function Placed(p: Pool, content: string, digest: Digest): string
    requires Ordered(p)
  {
    match Find(p.entries, p.order, digest(content)) case Some(a) => a case None => NextAddr(p)
  }

  function Absorbed(p: Pool, content: string, node: string, digest: Digest): Pool
    requires Ordered(p)
    ensures Ordered(Absorbed(p, content, node, digest))
  {
    match Find(p.entries, p.order, digest(content))
    case Some(a) => if a in p.entries then p.(entries := p.entries[a := Bumped(p.entries[a], node)]) else p
    case None =>
      var a := NextAddr(p);
      Pool(p.entries[a := NewEntry(content, node, digest)], if a in p.entries then p.order else p.order + [a])
  }

  function AbsorbedAll(p: Pool, contents: seq<string>, node: string, digest: Digest): (q: Pool)
    requires Ordered(p)
    ensures Ordered(q)
  {
    if contents == [] then p
    else
      var n := |contents| - 1;
      Absorbed(AbsorbedAll(p, contents[..n], node, digest), contents[n], node, digest)
  }

  /** The addresses of the segments, in order. */
  function PlacedAll(p: Pool, contents: seq<string>, node: string, digest: Digest): (addrs: seq<string>)
    requires Ordered(p)
    ensures |addrs| == |contents|
  {
    if contents == [] then []
    else
      var n := |contents| - 1;
      PlacedAll(p, contents[..n], node, digest) + [Placed(AbsorbedAll(p, contents[..n], node, digest), contents[n], digest)]
  }

  lemma AbsorbedNext(p: Pool, contents: seq<string>, i: nat, node: string, digest: Digest)
    requires Ordered(p) && i < |contents|
    ensures var q := AbsorbedAll(p, contents[..i], node, digest);
      && AbsorbedAll(p, contents[..i + 1], node, digest) == Absorbed(q, contents[i], node, digest)
      && PlacedAll(p, contents[..i + 1], node, digest)
         == PlacedAll(p, contents[..i], node, digest) + [Placed(q, contents[i], digest)]
  {
    assert contents[..i + 1][..i] == contents[..i];
  }

  // ---- the invariant --------------------------------------------------------------------------

  ghost predicate EntryOk(e: PoolEntry, digest: Digest) {
    e.contentHash == digest(e.content) && e.refs >= 1 && |e.refNodes| == e.refs
  }

  ghost predicate Valid(p: Pool, digest: Digest) {
    && (forall a :: a in p.entries <==> a in p.order)
    && p.order == Addresses(|p.entries|)
    && (forall a :: a in p.entries ==> EntryOk(p.entries[a], digest))
    && (forall a, b :: a in p.entries && b in p.entries && p.entries[a].contentHash == p.entries[b].contentHash ==> a == b)
  }

  ghost predicate Grown(before: PoolEntry, after: PoolEntry) {
    after.content == before.content && after.contentHash == before.contentHash && after.refs >= before.refs
  }

  /** Later pools keep every address with its content, and never lose a reference. */
  ghost predicate Extends(p: Pool, q: Pool) {
    && p.order <= q.order
    && forall a :: a in p.entries ==>
      a in q.entries && Grown(p.entries[a], q.entries[a])
  }

  lemma NextAddrIsFresh(p: Pool, digest: Digest)
    requires Valid(p, digest)
    ensures NextAddr(p) !in p.entries
  {
    LaterAddressIsNew(|p.entries|, |p.entries| + 1);
  }

  lemma {:induction false} FindMeans(entries: map<string, PoolEntry>, order: seq<string>, hash: string)
    requires forall a :: a in order ==> a in entries
    ensures var r := Find(entries, order, hash);
      && (r.Some? ==> r.value in order && entries[r.value].contentHash == hash)
      && (r.None? ==> forall a :: a in order ==> entries[a].contentHash != hash)
  {
    if order != [] {
      FindMeans(entries, order[1..], hash);
      assert order == [order[0]] + order[1..];
    }
  }

  lemma BumpKeeps(p: Pool, a: string, node: string, digest: Digest)
    requires Valid(p, digest) && a in p.entries
    ensures var q := p.(entries := p.entries[a := Bumped(p.entries[a], node)]); Valid(q, digest) && Extends(p, q)
  {
  }

  lemma InsertKeeps(p: Pool, content: string, node: string, digest: Digest)
    requires Valid(p, digest)
    requires forall a :: a in p.entries ==> p.entries[a].contentHash != digest(content)
    ensures var a := NextAddr(p);
      var q := Pool(p.entries[a := NewEntry(content, node, digest)], p.order + [a]);
      a !in p.entries && Valid(q, digest) && Extends(p, q)
  {
    NextAddrIsFresh(p, digest);
    EntryIsOk(NewEntry(content, node, digest), content, node, digest);
    InsertIsValid(p, NextAddr(p), NewEntry(content, node, digest), digest);
  }

  lemma EntryIsOk(e: PoolEntry, content: string, node: string, digest: Digest)
    requires e == NewEntry(content, node, digest)
    ensures EntryOk(e, digest) && e.contentHash == digest(content)
  {
  }

  lemma InsertIsValid(p: Pool, a: string, e: PoolEntry, digest: Digest)
    requires Valid(p, digest) && a == NextAddr(p) && a !in p.entries && EntryOk(e, digest)
    requires forall b :: b in p.entries ==> p.entries[b].contentHash != e.contentHash
    ensures var q := Pool(p.entries[a := e], p.order + [a]); Valid(q, digest) && Extends(p, q)
  {
    var q := Pool(p.entries[a := e], p.order + [a]);
    assert forall b :: b in q.entries <==> b in p.entries || b == a;
    assert forall b :: b in p.entries ==> q.entries[b] == p.entries[b];
    assert q.entries[a] == e;
  }

  /** One segment: the pool stays valid, keeps all it had, and its address holds an entry of the
      same digest. */
  lemma AbsorbKeeps(p: Pool, content: string, node: string, digest: Digest)
    requires Valid(p, digest)
    ensures var q := Absorbed(p, content, node, digest);
      var a := Placed(p, content, digest);
      && Valid(q, digest) && Extends(p, q)
      && a in q.entries && q.entries[a].contentHash == digest(content)
  {
    var hash := digest(content);
    FindMeans(p.entries, p.order, hash);
    match Find(p.entries, p.order, hash)
    case Some(a) => BumpKeeps(p, a, node, digest);
    case None => InsertKeeps(p, content, node, digest);
  }

  lemma ExtendsReflexive(p: Pool)
    ensures Extends(p, p)
  {
  }

  lemma ExtendsTransitive(p: Pool, q: Pool, r: Pool)
    requires Extends(p, q) && Extends(q, r)
    ensures Extends(p, r)
  {
  }

  ghost predicate Holds(p: Pool, addrs: seq<string>, contents: seq<string>, digest: Digest) {
    && |addrs| == |contents|
    && forall i :: 0 <= i < |addrs| ==> addrs[i] in p.entries && p.entries[addrs[i]].contentHash == digest(contents[i])
  }

  lemma Rejoined<T>(s: seq<T>)
    requires s != []
    ensures s[..|s| - 1] + [s[|s| - 1]] == s
  {
  }

  lemma HoldsStep(p: Pool, q: Pool, addrs: seq<string>, contents: seq<string>, a: string, content: string, digest: Digest)
    requires Holds(p, addrs, contents, digest) && Extends(p, q)
    requires a in q.entries && q.entries[a].contentHash == digest(content)
    ensures Holds(q, addrs + [a], contents + [content], digest)
  {
    forall i | 0 <= i < |addrs| ensures addrs[i] in q.entries && q.entries[addrs[i]].contentHash == digest(contents[i]) {
      assert addrs[i] in p.entries;
    }
  }

  lemma HoldsLater(p: Pool, q: Pool, addrs: seq<string>, contents: seq<string>, digest: Digest)
    requires Holds(p, addrs, contents, digest) && Extends(p, q)
    ensures Holds(q, addrs, contents, digest)
  {
    forall i | 0 <= i < |addrs| ensures addrs[i] in q.entries && q.entries[addrs[i]].contentHash == digest(contents[i]) {
      assert Grown(p.entries[addrs[i]], q.entries[addrs[i]]);
    }
  }

  lemma {:induction false} AbsorbAllKeeps(p: Pool, contents: seq<string>, node: string, digest: Digest)
    requires Valid(p, digest)
    ensures var q := AbsorbedAll(p, contents, node, digest);
      Valid(q, digest) && Extends(p, q) && Holds(q, PlacedAll(p, contents, node, digest), contents, digest)
  {
    if contents != [] {
      var n := |contents| - 1;
      var before := AbsorbedAll(p, contents[..n], node, digest);
      AbsorbAllKeeps(p, contents[..n], node, digest);
      AbsorbKeeps(before, contents[n], node, digest);
      var after := Absorbed(before, contents[n], node, digest);
      ExtendsTransitive(p, before, after);
      HoldsStep(before, after, PlacedAll(p, contents[..n], node, digest), contents[..n], Placed(before, contents[n], digest),
                contents[n], digest);
      Rejoined(contents);
    } else {
      ExtendsReflexive(p);
    }
  }

  // ---- reference counts and density -------------------------------------------------------------

  /** The references of the listed entries. */
  function Total(entries: map<string, PoolEntry>, order: seq<string>): nat
    requires forall a :: a in order ==> a in entries
  {
    if order == [] then 0 else Total(entries, order[..|order| - 1]) + entries[order[|order| - 1]].refs
  }

  function TotalRefs(p: Pool): nat
    requires Ordered(p)
  {
    Total(p.entries, p.order)
  }

  lemma {:induction false} TotalElsewhere(entries: map<string, PoolEntry>, n: nat, a: string, e: PoolEntry)
    requires forall b :: b in Addresses(n) ==> b in entries
    requires a !in Addresses(n)
    ensures Total(entries[a := e], Addresses(n)) == Total(entries, Addresses(n))
  {
    if n > 0 { TotalElsewhere(entries, n - 1, a, e); }
  }

  lemma {:induction false} TotalBumped(entries: map<string, PoolEntry>, n: nat, a: string, e: PoolEntry)
    requires forall b :: b in Addresses(n) ==> b in entries
    requires a in Addresses(n) && e.refs == entries[a].refs + 1
    ensures Total(entries[a := e], Addresses(n)) == Total(entries, Addresses(n)) + 1
  {
    if a == Address(n) {
      LaterAddressIsNew(n - 1, n);
      TotalElsewhere(entries, n - 1, a, e);
    } else {
      TotalBumped(entries, n - 1, a, e);
    }
  }

  lemma {:induction false} TotalIsEnough(entries: map<string, PoolEntry>, order: seq<string>)
    requires forall a :: a in order ==> a in entries && entries[a].refs >= 1
    ensures Total(entries, order) >= |order|
  {
    if order != [] { TotalIsEnough(entries, order[..|order| - 1]); }
  }

  /** A segment adds exactly one reference. */
  lemma AbsorbCounts(p: Pool, content: string, node: string, digest: Digest)
    requires Valid(p, digest)
    ensures TotalRefs(Absorbed(p, content, node, digest)) == TotalRefs(p) + 1
  {
    var n := |p.entries|;
    FindMeans(p.entries, p.order, digest(content));
    match Find(p.entries, p.order, digest(content))
    case Some(a) => TotalBumped(p.entries, n, a, Bumped(p.entries[a], node));
    case None =>
      NextAddrIsFresh(p, digest);
      TotalElsewhere(p.entries, n, NextAddr(p), NewEntry(content, node, digest));
      assert (Addresses(n) + [Address(n + 1)])[..n] == Addresses(n);
  }

  lemma {:induction false} AbsorbAllCounts(p: Pool, contents: seq<string>, node: string, digest: Digest)
    requires Valid(p, digest)
    ensures TotalRefs(AbsorbedAll(p, contents, node, digest)) == TotalRefs(p) + |contents|
  {
    if contents != [] {
      var n := |contents| - 1;
      AbsorbAllCounts(p, contents[..n], node, digest);
      AbsorbAllKeeps(p, contents[..n], node, digest);
      AbsorbCounts(AbsorbedAll(p, contents[..n], node, digest), contents[n], node, digest);
    }
  }

  /** The share of references that needed no entry of their own. */
  function Saved(unique: nat, total: nat): real {
    if unique == 0 || total == 0 then 0.0
    else
      var d := 1.0 - unique as real / total as real;
      if d > 0.0 then d else 0.0
  }

  function Density(p: Pool): real
    requires Ordered(p)
  {
    Saved(|p.entries|, TotalRefs(p))
  }

  lemma SavedBounds(unique: nat, total: nat)
    requires unique <= total
    ensures 0.0 <= Saved(unique, total) < 1.0
    ensures unique > 0 ==> Saved(unique, total) == 1.0 - unique as real / total as real
  {
    if unique > 0 {
      assert 0.0 < unique as real / total as real <= 1.0;
    }
  }

  /** The density is a share, and its guard against negative values is never needed. */
  lemma DensityBounds(p: Pool, digest: Digest)
    requires Valid(p, digest)
    ensures 0.0 <= Density(p) < 1.0
    ensures |p.entries| > 0 ==> Density(p) == 1.0 - |p.entries| as real / TotalRefs(p) as real
  {
    RefsCoverEntries(p, digest);
    SavedBounds(|p.entries|, TotalRefs(p));
  }

  lemma RefsCoverEntries(p: Pool, digest: Digest)
    requires Valid(p, digest)
    ensures TotalRefs(p) >= |p.entries|
  {
    forall a | a in p.order ensures p.entries[a].refs >= 1 { assert EntryOk(p.entries[a], digest); }
    TotalIsEnough(p.entries, p.order);
  }

  // ---- decompression --------------------------------------------------------------------------

  function Part(p: Pool, addr: string): string {
    if addr in p.entries then p.entries[addr].content else "<MISSING POOL ENTRY " + addr + ">"
  }

  function Parts(p: Pool, addrs: seq<string>): (parts: seq<string>)
    ensures |parts| == |addrs| && forall i :: 0 <= i < |addrs| ==> parts[i] == Part(p, addrs[i])
  {
    seq(|addrs|, i requires 0 <= i < |addrs| => Part(p, addrs[i]))
  }

  /** `decompress_body` */
  function Decompressed(p: Pool, addrs: seq<string>): string {
    Joined(Parts(p, addrs))
  }

  ghost predicate AllHeld(p: Pool, addrs: seq<string>) {
    forall i :: 0 <= i < |addrs| ==> addrs[i] in p.entries
  }

  lemma PartsStayTheSame(p: Pool, q: Pool, addrs: seq<string>)
    requires Extends(p, q) && AllHeld(p, addrs)
    ensures AllHeld(q, addrs) && Parts(q, addrs) == Parts(p, addrs)
  {
  }

  /** Every stored content is a segment. */
  ghost predicate Clean(p: Pool) {
    forall a :: a in p.entries ==> IsParagraph(p.entries[a].content)
  }

  lemma {:induction false} AbsorbAllClean(p: Pool, contents: seq<string>, node: string, digest: Digest)
    requires Ordered(p) && Clean(p) && AllParagraphs(contents)
    ensures Clean(AbsorbedAll(p, contents, node, digest))
  {
    if contents != [] {
      var n := |contents| - 1;
      AbsorbAllClean(p, contents[..n], node, digest);
      AbsorbClean(AbsorbedAll(p, contents[..n], node, digest), contents[n], node, digest);
    }
  }

  lemma AbsorbClean(p: Pool, content: string, node: string, digest: Digest)
    requires Ordered(p) && Clean(p) && IsParagraph(content)
    ensures Clean(Absorbed(p, content, node, digest))
  {
    var q := Absorbed(p, content, node, digest);
    forall a | a in q.entries ensures IsParagraph(q.entries[a].content) {
      if a in p.entries { assert IsParagraph(p.entries[a].content); }
    }
  }

  // ---- freeze, thaw, freeze -------------------------------------------------------------------

  /** A stored content finds its own entry again. */
  lemma ContentFindsItself(p: Pool, a: string, node: string, digest: Digest)
    requires Valid(p, digest) && a in p.entries
    ensures Placed(p, p.entries[a].content, digest) == a
    ensures Absorbed(p, p.entries[a].content, node, digest).order == p.order
  {
    FindMeans(p.entries, p.order, digest(p.entries[a].content));
    assert EntryOk(p.entries[a], digest);
  }

  lemma {:induction false} ContentsFindThemselves(p: Pool, addrs: seq<string>, node: string, digest: Digest)
    requires Valid(p, digest) && AllHeld(p, addrs)
    ensures PlacedAll(p, Parts(p, addrs), node, digest) == addrs
    ensures AbsorbedAll(p, Parts(p, addrs), node, digest).order == p.order
  {
    if addrs != [] {
      var n := |addrs| - 1;
      var parts := Parts(p, addrs);
      assert parts[..n] == Parts(p, addrs[..n]);
      ContentsFindThemselves(p, addrs[..n], node, digest);
      AbsorbAllKeeps(p, parts[..n], node, digest);
      var q := AbsorbedAll(p, parts[..n], node, digest);
      assert addrs[n] in p.entries && Grown(p.entries[addrs[n]], q.entries[addrs[n]]);
      ContentFindsItself(q, addrs[n], node, digest);
      Rejoined(addrs);
    }
  }

  /** Freeze, thaw, freeze again is stable: the thawed text splits into exactly the pooled
      contents, and compressing it again yields the same addresses and no new entry. */
  lemma FreezeThawFreeze(p: Pool, addrs: seq<string>, node: string, digest: Digest)
    requires Valid(p, digest) && Clean(p) && AllHeld(p, addrs)
    ensures var thawed := Paragraphs(Decompressed(p, addrs));
      && thawed == Parts(p, addrs)
      && PlacedAll(p, thawed, node, digest) == addrs
      && AbsorbedAll(p, thawed, node, digest).order == p.order
  {
    SplitOfJoined(Parts(p, addrs));
    ContentsFindThemselves(p, addrs, node, digest);
  }

  /** Unless their hashes collide, a pooled part equals the original segment up to case and white
      space. */
  lemma SameNormalisation(p: Pool, addrs: seq<string>, contents: seq<string>, lower: string -> string, sha: string -> string)
    requires Valid(p, SegmentHash(lower, sha)) && Holds(p, addrs, contents, SegmentHash(lower, sha))
    requires forall i :: 0 <= i < |addrs| && sha(Normalised(Parts(p, addrs)[i], lower)) == sha(Normalised(contents[i], lower))
               ==> Normalised(Parts(p, addrs)[i], lower) == Normalised(contents[i], lower)
    ensures forall i :: 0 <= i < |addrs| ==> Normalised(Parts(p, addrs)[i], lower) == Normalised(contents[i], lower)
  {
    forall i | 0 <= i < |addrs| ensures Normalised(Parts(p, addrs)[i], lower) == Normalised(contents[i], lower) {
      var e := p.entries[addrs[i]];
      assert EntryOk(e, SegmentHash(lower, sha));
      assert sha(Normalised(e.content, lower)) == sha(Normalised(contents[i], lower));
    }
  }

  // ---- runs -------------------------------------------------------------------------------------

  /** `Compress` only feeds the pool; `Freeze` also archives the addresses under an id. */
  datatype Op = Compress(body: string, node: string) | Freeze(id: string, body: string, node: string)

  /** An archived state, with the segments it was made from and the text it decompressed to. */
  datatype Frozen = Frozen(addrs: seq<string>, segments: seq<string>, text: string)

  datatype Memory = Memory(pool: Pool, archive: map<string, Frozen>, absorbed: nat)

  const START := Memory(EMPTY, map[], 0)

  function Step(m: Memory, op: Op, digest: Digest): (n: Memory)
    requires Ordered(m.pool)
    ensures Ordered(n.pool)
  {
    StepWith(m, op, Paragraphs(op.body), digest)
  }

  function StepWith(m: Memory, op: Op, segments: seq<string>, digest: Digest): (n: Memory)
    requires Ordered(m.pool)
    ensures Ordered(n.pool)
  {
    var pool := AbsorbedAll(m.pool, segments, op.node, digest);
    var addrs := PlacedAll(m.pool, segments, op.node, digest);
    Memory(
      pool,
      if op.Freeze? then m.archive[op.id := Frozen(addrs, segments, Decompressed(pool, addrs))] else m.archive,
      m.absorbed + |segments|
    )
  }

  function Run(ops: seq<Op>, digest: Digest): (m: Memory)
    ensures Ordered(m.pool)
  {
    if ops == [] then START else Step(Run(ops[..|ops| - 1], digest), ops[|ops| - 1], digest)
  }

  ghost predicate Readable(p: Pool, f: Frozen, digest: Digest) {
    AllHeld(p, f.addrs) && Holds(p, f.addrs, f.segments, digest) && Decompressed(p, f.addrs) == f.text
  }

  ghost predicate Sound(m: Memory, digest: Digest) {
    && Valid(m.pool, digest) && Clean(m.pool)
    && TotalRefs(m.pool) == m.absorbed
    && forall id :: id in m.archive ==> Readable(m.pool, m.archive[id], digest)
  }

  lemma ReadableLater(p: Pool, q: Pool, f: Frozen, digest: Digest)
    requires Readable(p, f, digest) && Extends(p, q)
    ensures Readable(q, f, digest)
  {
    PartsStayTheSame(p, q, f.addrs);
    HoldsLater(p, q, f.addrs, f.segments, digest);
  }

  lemma PoolStep(p: Pool, segments: seq<string>, node: string, digest: Digest)
    requires Valid(p, digest) && Clean(p) && AllParagraphs(segments)
    ensures var q := AbsorbedAll(p, segments, node, digest);
      && Valid(q, digest) && Clean(q) && Extends(p, q)
      && TotalRefs(q) == TotalRefs(p) + |segments|
      && Holds(q, PlacedAll(p, segments, node, digest), segments, digest)
  {
    AbsorbAllKeeps(p, segments, node, digest);
    AbsorbAllClean(p, segments, node, digest);
    AbsorbAllCounts(p, segments, node, digest);
  }

  lemma ArchiveStaysReadable(p: Pool, q: Pool, archive: map<string, Frozen>, digest: Digest)
    requires Extends(p, q)
    requires forall id :: id in archive ==> Readable(p, archive[id], digest)
    ensures forall id :: id in archive ==> Readable(q, archive[id], digest)
  {
    forall id | id in archive ensures Readable(q, archive[id], digest) {
      ReadableLater(p, q, archive[id], digest);
    }
  }

  lemma StepWithIsSound(m: Memory, op: Op, segments: seq<string>, digest: Digest)
    requires Sound(m, digest) && AllParagraphs(segments)
    ensures Sound(StepWith(m, op, segments, digest), digest)
    ensures Extends(m.pool, StepWith(m, op, segments, digest).pool)
  {
    PoolStep(m.pool, segments, op.node, digest);
    ArchiveStaysReadable(m.pool, AbsorbedAll(m.pool, segments, op.node, digest), m.archive, digest);
  }

  lemma StepIsSound(m: Memory, op: Op, digest: Digest)
    requires Sound(m, digest)
    ensures Sound(Step(m, op, digest), digest) && Extends(m.pool, Step(m, op, digest).pool)
  {
    SegmentsAreParagraphs(op.body);
    StepWithIsSound(m, op, Paragraphs(op.body), digest);
  }

  /** In every run the pool is valid, its references are the segments ever compressed, and
      every archived state decompresses now to what it did when it was frozen. */
  lemma {:induction false} RunIsSound(ops: seq<Op>, digest: Digest)
    ensures Sound(Run(ops, digest), digest)
  {
    if ops != [] {
      RunIsSound(ops[..|ops| - 1], digest);
      StepIsSound(Run(ops[..|ops| - 1], digest), ops[|ops| - 1], digest);
    }
  }
}
