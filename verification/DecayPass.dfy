/** `decay_pass` (samia/core/tier.py): one decay tick over the node directory, with its
    deferred automatic freezing. */
module DecayPass {
  import opened Options
  import opened TierDecay

  const SALIENCE_FREEZE_EXEMPT := 0.85

  /** A node file as the pass reads it; `Malformed` has no parsable header. An absent or
      non-numeric salience or capture score reads as 0, an absent capture time as 0 and a
      non-numeric one as None; `targetState` is lower-cased. */
  datatype NodeFile =
    | Malformed
    | NodeFile(address: Option<string>, relevance: Option<real>, tier: Option<string>, grade: Option<string>,
               salience: real, captureScore: real, capturedAt: Option<real>, lastAccess: string, targetState: string)

  /** The outside world of one pass: the date, the days since a date, the half-life
      attenuation at that moment of a capture score by its capture time, and rounding. */
  datatype Clock = Clock(today: string, elapsed: string -> int, attenuate: (real, real) -> real, round: Rounding)

  datatype Transition = Transition(node: string, oldRelevance: real, newRelevance: real, oldTier: string, newTier: string)

  function StoredOf(f: NodeFile): Stored
    requires f.NodeFile?
  {
    Stored(if f.relevance.Some? then f.relevance.value else NEUTRAL, if f.tier.Some? then f.tier.value else "warm")
  }

  function GradeOf(f: NodeFile): string
    requires f.NodeFile?
  {
    if f.grade.Some? then f.grade.value else "natural"
  }

  function CaptureAt(f: NodeFile, c: Clock): real
    requires f.NodeFile?
  {
    if f.captureScore > 0.0 && f.capturedAt.Some? then c.attenuate(f.captureScore, f.capturedAt.value) else 0.0
  }

  function NextRelevance(f: NodeFile, c: Clock): real
    requires f.NodeFile?
  {
    var touched := f.lastAccess == c.today;
    StepRelevance(StoredOf(f).relevance, touched, if touched then 0 else c.elapsed(f.lastAccess), GradeOf(f), f.salience,
                  CaptureAt(f, c))
  }

  /** The pass looks at the file at all. */
  predicate Eligible(f: NodeFile) {
    f.NodeFile? && f.targetState != "frozen" && f.targetState != "archived"
  }

  predicate Moves(f: NodeFile, c: Clock) {
    Eligible(f) && Changes(StoredOf(f), NextRelevance(f, c))
  }

  /** The file after the pass. */
  function Aged(f: NodeFile, c: Clock): NodeFile {
    if Moves(f, c) then
      var s := Written(StoredOf(f), NextRelevance(f, c), c.round);
      f.(relevance := Some(s.relevance), tier := Some(s.tier), grade := Some(GradeOf(f)))
    else f
  }

  /** The pass hands the node to the freezer. */
  predicate Evicted(f: NodeFile, c: Clock) {
    Moves(f, c) && TierFor(NextRelevance(f, c)) == FROZEN && StoredOf(f).tier != FROZEN && f.salience < SALIENCE_FREEZE_EXEMPT
  }

  function TransitionOf(name: string, f: NodeFile, c: Clock): Transition
    requires f.NodeFile?
  {
    var s := StoredOf(f);
    var next := NextRelevance(f, c);
    Transition(name, Grid(c.round(s.relevance)), Grid(c.round(next)), s.tier, TierFor(next))
  }

  /** What the pass makes of one file: its new content, the transition it reports if any, and
      whether it goes on the freeze queue. */
  datatype Verdict = Verdict(after: NodeFile, moved: seq<Transition>, evict: bool)

  type Judge = (string, NodeFile) -> Verdict

  function Judgement(name: string, f: NodeFile, dry: bool, autoFreeze: bool, c: Clock): Verdict {
    Verdict(
      if dry then f else Aged(f, c),
      if Moves(f, c) then [TransitionOf(name, f, c)] else [],
      !dry && autoFreeze && Evicted(f, c)
    )
  }

  /** The verdicts' transitions, in listing order. */
  function Transitions(listing: seq<string>, files: map<string, NodeFile>, judge: Judge): seq<Transition>
    requires forall n :: n in listing ==> n in files
  {
    if listing == [] then []
    else
      var last := |listing| - 1;
      Transitions(listing[..last], files, judge) + judge(listing[last], files[listing[last]]).moved
  }

  ghost predicate Distinct(names: seq<string>) {
    forall i, j :: 0 <= i < j < |names| ==> names[i] != names[j]
  }

  ghost predicate IsListing(listing: seq<string>, names: set<string>) {
    && (forall n :: n in listing <==> n in names)
    && Distinct(listing)
  }

  // ---- runs of passes -----------------------------------------------------------------

  /** The file after a run of passes that does not touch or remove it otherwise. */
  function Later(f: NodeFile, clocks: seq<Clock>): NodeFile
    decreases clocks
  {
    if clocks == [] then f else Later(Aged(f, clocks[0]), clocks[1..])
  }

  /** Seen from this clock, the file has not been accessed for more than the freshness window. */
  ghost predicate StaleAt(f: NodeFile, c: Clock) {
    f.NodeFile? && c.today != f.lastAccess && c.elapsed(f.lastAccess) > WARM_FRESHNESS_DAYS && Nearest(c.round)
  }

  /** The pass acts on a stale file as one stale tick at its effective rate. */
  lemma AgedIsTick(f: NodeFile, c: Clock)
    requires StaleAt(f, c) && Eligible(f)
    ensures var rate := EffectiveRate(GradeOf(f), f.salience, CaptureAt(f, c));
      && NextRelevance(f, c) == Sunk(StoredOf(f).relevance, rate)
      && StoredOf(Aged(f, c)) == Tick(StoredOf(f), rate, c.round)
  {
    StaleStep(StoredOf(f).relevance, c.elapsed(f.lastAccess), GradeOf(f), f.salience, CaptureAt(f, c));
  }

  lemma AgedKeeps(f: NodeFile, c: Clock)
    requires Eligible(f)
    ensures var g := Aged(f, c);
      && Eligible(g) && GradeOf(g) == GradeOf(f) && g.salience == f.salience && g.lastAccess == f.lastAccess
  {
  }

  lemma OnePassTowardFreezing(f: NodeFile, n: nat, c: Clock) returns (m: nat)
    requires Eligible(f) && StaleAt(f, c) && StoredOf(f).relevance == Grid(n)
    requires StoredOf(f).tier != FROZEN && f.salience < SALIENCE_FREEZE_EXEMPT && GradeOf(f) != "enriched"
    ensures Evicted(f, c) || (StoredOf(Aged(f, c)).tier != FROZEN && StoredOf(Aged(f, c)).relevance == Grid(m) && m < n && n > 2500)
  {
    var rate := EffectiveRate(GradeOf(f), f.salience, CaptureAt(f, c));
    RateBounds(GradeOf(f), f.salience, CaptureAt(f, c));
    AgedIsTick(f, c);
    m := TickTowardFrozen(StoredOf(f), n, rate, c.round);
    TickLabel(StoredOf(f), rate, c.round);
  }

  lemma TickLabel(s: Stored, rate: real, round: Rounding)
    ensures TierFor(Sunk(s.relevance, rate)) == Tick(s, rate, round).tier
    ensures s.tier != FROZEN && Tick(s, rate, round).tier == FROZEN ==> Changes(s, Sunk(s.relevance, rate))
  {
  }

  /** Forgetting is certain for ordinary nodes: one that is never touched again, of any grade
      but enriched and below the exemption salience, is handed to the freezer by one of the
      first n - 2499 passes, whatever its captures. */
  lemma {:induction false} OrdinaryNodeIsEvicted(f: NodeFile, n: nat, clocks: seq<Clock>) returns (i: nat)
    requires Eligible(f) && StoredOf(f).relevance == Grid(n)
    requires StoredOf(f).tier != FROZEN && f.salience < SALIENCE_FREEZE_EXEMPT && GradeOf(f) != "enriched"
    requires forall k :: 0 <= k < |clocks| ==> StaleAt(f, clocks[k])
    requires |clocks| >= 1 && |clocks| >= n - 2499
    ensures i < |clocks| && Evicted(Later(f, clocks[..i]), clocks[i])
    decreases clocks
  {
    var c := clocks[0];
    var m := OnePassTowardFreezing(f, n, c);
    if Evicted(f, c) {
      i := 0;
    } else {
      AgedKeeps(f, c);
      var g := Aged(f, c);
      assert forall k :: 0 <= k < |clocks[1..]| ==> StaleAt(g, clocks[1..][k]);
      var j := OrdinaryNodeIsEvicted(g, m, clocks[1..]);
      i := j + 1;
      assert clocks[..i][0] == c && clocks[..i][1..] == clocks[1..][..j];
    }
  }

  // ---- the freeze queue and the archive ---------------------------------------------------

  /** The nodes handed to the freezer, in listing order. */
  function Queue(listing: seq<string>, files: map<string, NodeFile>, gone: set<string>, judge: Judge): seq<string>
    requires forall n :: n in listing ==> n in files
  {
    if listing == [] then []
    else
      var last := listing[|listing| - 1];
      Queue(listing[..|listing| - 1], files, gone, judge)
      + if last !in gone && judge(last, files[last]).evict then [last] else []
  }

  /** The archive record of a node: its name, and the file it was. */
  datatype Archived = Archived(name: string, file: NodeFile)

  /** The name of the archive record: the address of the node, or else its name. */
  function IdOf(name: string, f: NodeFile): string {
    if f.NodeFile? && f.address.Some? then f.address.value else name
  }

  /** The archive once the queued nodes are filed, each under its id. */
  function Filed(archive: map<string, Archived>, queue: seq<string>, files: map<string, NodeFile>): map<string, Archived>
    requires forall n :: n in queue ==> n in files
  {
    if queue == [] then archive
    else
      var last := queue[|queue| - 1];
      Filed(archive, queue[..|queue| - 1], files)[IdOf(last, files[last]) := Archived(last, files[last])]
  }

  predicate IdsDiffer(queue: seq<string>, files: map<string, NodeFile>)
    requires forall n :: n in queue ==> n in files
  {
    forall i, j :: 0 <= i < j < |queue| ==> IdOf(queue[i], files[queue[i]]) != IdOf(queue[j], files[queue[j]])
  }

  predicate RecordOf(archive: map<string, Archived>, name: string, f: NodeFile) {
    IdOf(name, f) in archive && archive[IdOf(name, f)] == Archived(name, f)
  }

  ghost predicate EachHasRecord(archive: map<string, Archived>, queue: seq<string>, files: map<string, NodeFile>)
    requires forall n :: n in queue ==> n in files
  {
    forall n :: n in queue ==> RecordOf(archive, n, files[n])
  }

  lemma {:induction false} FiledKeepsAll(archive: map<string, Archived>, queue: seq<string>, files: map<string, NodeFile>)
    requires (forall n :: n in queue ==> n in files) && IdsDiffer(queue, files)
    ensures EachHasRecord(Filed(archive, queue, files), queue, files)
  {
    if queue != [] {
      var init, last := queue[..|queue| - 1], queue[|queue| - 1];
      FiledKeepsAll(archive, init, files);
      forall n | n in queue ensures RecordOf(Filed(archive, queue, files), n, files[n]) {
        var i :| 0 <= i < |queue| && queue[i] == n;
        if i < |init| {
          assert n == init[i];
          assert RecordOf(Filed(archive, init, files), n, files[n]);
        }
      }
    }
  }

  /** Every evicted node keeps an archive record of its own exactly when no two of them have the
      same id: of two with one address the later overwrites the earlier. */
  lemma FiledExactlyWhen(archive: map<string, Archived>, queue: seq<string>, files: map<string, NodeFile>)
    requires (forall n :: n in queue ==> n in files) && Distinct(queue)
    ensures EachHasRecord(Filed(archive, queue, files), queue, files) <==> IdsDiffer(queue, files)
  {
    if IdsDiffer(queue, files) {
      FiledKeepsAll(archive, queue, files);
    } else {
      var i, j :| 0 <= i < j < |queue| && IdOf(queue[i], files[queue[i]]) == IdOf(queue[j], files[queue[j]]);
      var m, n := queue[i], queue[j];
      assert m in queue && n in queue && m != n;
      assert !(RecordOf(Filed(archive, queue, files), m, files[m]) && RecordOf(Filed(archive, queue, files), n, files[n]));
    }
  }

  /** Older records stay, but for those whose id is used again. */
  lemma {:induction false} FiledElsewhere(archive: map<string, Archived>, queue: seq<string>, files: map<string, NodeFile>,
                                          id: string)
    requires forall n :: n in queue ==> n in files
    requires forall i :: 0 <= i < |queue| ==> IdOf(queue[i], files[queue[i]]) != id
    ensures id in Filed(archive, queue, files) <==> id in archive
    ensures id in archive ==> Filed(archive, queue, files)[id] == archive[id]
  {
    if queue != [] { FiledElsewhere(archive, queue[..|queue| - 1], files, id); }
  }

  lemma {:induction false} FiledSame(archive: map<string, Archived>, queue: seq<string>, files: map<string, NodeFile>,
                                     others: map<string, NodeFile>)
    requires forall n :: n in queue ==> n in files && n in others && files[n] == others[n]
    ensures Filed(archive, queue, files) == Filed(archive, queue, others)
  {
    if queue != [] {
      assert queue[|queue| - 1] in queue;
      FiledSame(archive, queue[..|queue| - 1], files, others);
    }
  }

  lemma QueueStep(listing: seq<string>, i: nat, files: map<string, NodeFile>, gone: set<string>, judge: Judge)
    requires forall n :: n in listing ==> n in files
    requires i < |listing|
    ensures Queue(listing[..i + 1], files, gone, judge)
         == Queue(listing[..i], files, gone, judge)
            + if listing[i] !in gone && judge(listing[i], files[listing[i]]).evict then [listing[i]] else []
  {
    assert listing[..i + 1][..i] == listing[..i];
  }

  lemma {:induction false} QueueMembers(listing: seq<string>, files: map<string, NodeFile>, gone: set<string>, judge: Judge)
    requires Distinct(listing) && forall n :: n in listing ==> n in files
    ensures var q := Queue(listing, files, gone, judge);
      Distinct(q) && forall n :: n in q <==> n in listing && n !in gone && judge(n, files[n]).evict
  {
    if listing != [] {
      var init, last := listing[..|listing| - 1], listing[|listing| - 1];
      QueueMembers(init, files, gone, judge);
      assert listing == init + [last];
      assert last !in init;
      NewName(Queue(init, files, gone, judge), last);
    }
  }

  // ---- the pass -----------------------------------------------------------------------

  function Names(names: seq<string>): set<string> {
    set n | n in names
  }

  function AllAged(files: map<string, NodeFile>, c: Clock): map<string, NodeFile> {
    map n | n in files :: Aged(files[n], c)
  }

  lemma NextName(names: seq<string>, i: nat)
    requires Distinct(names) && i < |names|
    ensures names[i] !in Names(names[..i])
    ensures Names(names[..i + 1]) == Names(names[..i]) + {names[i]}
  {
    assert names[..i + 1] == names[..i] + [names[i]];
  }

  lemma NewName(names: seq<string>, name: string)
    requires Distinct(names) && name !in names
    ensures Distinct(names + [name])
    ensures forall n :: n in names + [name] <==> n in names || n == name
  {
  }

  /** The files once the walk has visited `done`. */
  ghost predicate SweptTo(done: set<string>, before: map<string, NodeFile>, gone: set<string>, judge: Judge,
                          nodes: map<string, NodeFile>)
  {
    && nodes.Keys == before.Keys - done * gone
    && (forall n :: n in nodes ==> nodes[n] == if n in done then judge(n, before[n]).after else before[n])
  }

  lemma SweepStep(done: set<string>, name: string, before: map<string, NodeFile>, gone: set<string>, judge: Judge,
                  nodes: map<string, NodeFile>)
    requires SweptTo(done, before, gone, judge, nodes)
    requires name in before && name !in done
    ensures name in nodes && nodes[name] == before[name]
    ensures SweptTo(done + {name}, before, gone, judge,
                    if name in gone then nodes - {name} else nodes[name := judge(name, before[name]).after])
  {
  }

  lemma TransitionsStep(listing: seq<string>, i: nat, files: map<string, NodeFile>, judge: Judge)
    requires forall n :: n in listing ==> n in files
    requires i < |listing|
    ensures Transitions(listing[..i + 1], files, judge)
         == Transitions(listing[..i], files, judge) + judge(listing[i], files[listing[i]]).moved
  {
    assert listing[..i + 1][..i] == listing[..i];
  }

  /** Where the walk is after the first `i` files. */
  ghost predicate Walked(listing: seq<string>, i: nat, before: map<string, NodeFile>, gone: set<string>, judge: Judge,
                         nodes: map<string, NodeFile>, transitions: seq<Transition>, queue: seq<string>)
    requires i <= |listing| && forall n :: n in listing ==> n in before
  {
    && SweptTo(Names(listing[..i]), before, gone, judge, nodes)
    && transitions == Transitions(listing[..i], before, judge)
    && queue == Queue(listing[..i], before, gone, judge)
  }

  lemma WalkStep(listing: seq<string>, i: nat, before: map<string, NodeFile>, gone: set<string>, judge: Judge,
                 nodes: map<string, NodeFile>, transitions: seq<Transition>, queue: seq<string>)
    requires i < |listing| && Distinct(listing) && forall n :: n in listing ==> n in before
    requires Walked(listing, i, before, gone, judge, nodes, transitions, queue)
    ensures var name := listing[i];
      && name in nodes && nodes[name] == before[name]
      && var v := judge(name, before[name]);
         Walked(listing, i + 1, before, gone, judge, if name in gone then nodes - {name} else nodes[name := v.after],
                transitions + v.moved, if name !in gone && v.evict then queue + [name] else queue)
  {
    NextName(listing, i);
    TransitionsStep(listing, i, before, judge);
    QueueStep(listing, i, before, gone, judge);
    SweepStep(Names(listing[..i]), listing[i], before, gone, judge, nodes);
    assert queue + [] == queue;
  }

  lemma WalkEnds(listing: seq<string>, before: map<string, NodeFile>, gone: set<string>, judge: Judge,
                 nodes: map<string, NodeFile>, transitions: seq<Transition>, queue: seq<string>)
    requires IsListing(listing, before.Keys) && Walked(listing, |listing|, before, gone, judge, nodes, transitions, queue)
    ensures transitions == Transitions(listing, before, judge) && queue == Queue(listing, before, gone, judge)
    ensures nodes.Keys == before.Keys - gone && forall n :: n in nodes ==> nodes[n] == judge(n, before[n]).after
  {
    assert listing[..|listing|] == listing;
    assert Names(listing) == before.Keys;
  }

  class NodeDirectory {
    var nodes: map<string, NodeFile>
    var archive: map<string, Archived>

    constructor ()
      ensures nodes == map[] && archive == map[]
    {
      nodes, archive := map[], map[];
    }

    /** The walk over a listing, rewriting files and filling the transition list and the freeze
        queue. `gone` are the files some other process removes after this one has read them. */
    method Sweep(listing: seq<string>, gone: set<string>, judge: Judge)
      returns (transitions: seq<Transition>, queue: seq<string>)
      requires IsListing(listing, nodes.Keys)
      modifies this`nodes
      ensures transitions == Transitions(listing, old(nodes), judge)
      ensures nodes.Keys == old(nodes.Keys) - gone
      ensures forall n :: n in nodes ==> nodes[n] == judge(n, old(nodes)[n]).after
      ensures queue == Queue(listing, old(nodes), gone, judge)
    {
      ghost var before := nodes;
      transitions, queue := [], [];
      assert listing[..0] == [];
      for i := 0 to |listing|
        invariant Walked(listing, i, before, gone, judge, nodes, transitions, queue)
      {
        var name := listing[i];
        WalkStep(listing, i, before, gone, judge, nodes, transitions, queue);
        var verdict := judge(name, nodes[name]);
        transitions := transitions + verdict.moved;
        if name in gone {
          nodes := nodes - {name};
        } else {
          nodes := nodes[name := verdict.after];
          if verdict.evict { queue := queue + [name]; }
        }
      }
      WalkEnds(listing, before, gone, judge, nodes, transitions, queue);
    }

    /** The deferred freezes: each queued file moves to the archive, under its id. */
    method FreezeAll(queue: seq<string>)
      requires Distinct(queue) && forall n :: n in queue ==> n in nodes
      modifies this
      ensures nodes == old(nodes) - Names(queue)
      ensures archive == Filed(old(archive), queue, old(nodes))
    {
      ghost var files := nodes;
      assert queue[..0] == [];
      for i := 0 to |queue|
        invariant nodes == files - Names(queue[..i])
        invariant archive == Filed(old(archive), queue[..i], files)
      {
        var name := queue[i];
        NextName(queue, i);
        assert queue[..i + 1][..i] == queue[..i];
        archive := archive[IdOf(name, nodes[name]) := Archived(name, nodes[name])];
        nodes := nodes - {name};
      }
      assert queue[..|queue|] == queue;
    }

    /** One pass. Files removed meanwhile by another process are reported, but neither re-created
        nor frozen; every other file is aged in place or moved to the archive, under its address
        or else its name, in listing order. */
    method DecayPass(listing: seq<string>, gone: set<string>, dry: bool, autoFreeze: bool, c: Clock)
      returns (transitions: seq<Transition>)
      requires IsListing(listing, nodes.Keys)
      modifies this
      ensures var judge: Judge := (n, f) => Judgement(n, f, dry, autoFreeze, c);
        var queue := Queue(listing, old(nodes), gone, judge);
        && transitions == Transitions(listing, old(nodes), judge)
        && nodes.Keys == old(nodes.Keys) - gone - Names(queue)
        && (forall n :: n in nodes ==> nodes[n] == if dry then old(nodes)[n] else Aged(old(nodes)[n], c))
        && (forall n :: n in queue ==> n in old(nodes))
        && archive == Filed(old(archive), queue, AllAged(old(nodes), c))
    {
      ghost var judge: Judge := (n, f) => Judgement(n, f, dry, autoFreeze, c);
      ghost var before := nodes;
      var queue;
      transitions, queue := Sweep(listing, gone, (n, f) => Judgement(n, f, dry, autoFreeze, c));
      QueueMembers(listing, before, gone, judge);
      FiledSame(archive, queue, nodes, AllAged(before, c));
      FreezeAll(queue);
    }
  }
}
