/** What one decay pass does to a file (samia/core/tier.py), in terms of the stored fields. */
module DecayLaws {
  import opened DecayPass
  import opened Filters
  import opened Options
  import opened TierDecay

  /** The relevance and the label a file has for the pass; a missing one counts as 0.5 and "warm". */
  ghost predicate Reads(f: NodeFile, relevance: real, tier: string)
    requires f.NodeFile?
  {
    && (f.relevance == Some(relevance) || (f.relevance.None? && relevance == 0.5))
    && (f.tier == Some(tier) || (f.tier.None? && tier == "warm"))
  }

  lemma ReadsStored(f: NodeFile, relevance: real, tier: string)
    requires f.NodeFile?
    ensures Reads(f, relevance, tier) <==> StoredOf(f) == Stored(relevance, tier)
  {
  }

  /** A file with a header whose target state leaves it to the pass. */
  ghost predicate Automated(f: NodeFile) {
    f.NodeFile? && f.targetState !in {"frozen", "archived"}
  }

  /** Every other file is left alone: not rewritten, not reported, not frozen. */
  lemma ProtectedIsKept(name: string, f: NodeFile, dry: bool, autoFreeze: bool, c: Clock)
    requires !Automated(f)
    ensures Judgement(name, f, dry, autoFreeze, c) == Verdict(f, [], false)
  {
  }

  /** The label of a relevance. */
  ghost predicate IsLabel(tier: string, relevance: real) {
    && (tier == "hot" <==> relevance >= 0.75)
    && (tier == "warm" <==> 0.5 <= relevance < 0.75)
    && (tier == "cold" <==> 0.25 <= relevance < 0.5)
    && (tier == "frozen" <==> relevance < 0.25)
  }

  lemma LabelExactly(tier: string, relevance: real)
    ensures tier == TierFor(relevance) <==> IsLabel(tier, relevance)
  {
  }

  /** At most 0.00005 apart: the two agree to four decimals. */
  ghost predicate Near(x: real, y: real) {
    -0.00005 <= x - y <= 0.00005
  }

  /** The file after it was rewritten with these two fields; a missing grade becomes "natural". */
  ghost predicate Rewritten(f: NodeFile, g: NodeFile, relevance: real, tier: string)
    requires f.NodeFile?
  {
    && g.NodeFile? && g.relevance.Some? && Near(g.relevance.value, relevance) && g.tier == Some(tier)
    && g.grade == Some(if f.grade.Some? then f.grade.value else "natural")
    && g == f.(relevance := g.relevance, tier := g.tier, grade := g.grade)
  }

  /** A file is rewritten exactly when its label is not that of the next relevance or the
      relevance moves by more than 0.0001. */
  lemma AgedExactly(f: NodeFile, c: Clock, relevance: real, tier: string)
    requires Automated(f) && Nearest(c.round) && Reads(f, relevance, tier)
    ensures var next := NextRelevance(f, c);
      && (Moves(f, c) <==> !IsLabel(tier, next) || next - relevance > 0.0001 || relevance - next > 0.0001)
      && (Moves(f, c) ==> exists named :: IsLabel(named, next) && Rewritten(f, Aged(f, c), next, named))
      && (!Moves(f, c) ==> Aged(f, c) == f)
  {
    var next := NextRelevance(f, c);
    ReadsStored(f, relevance, tier);
    LabelExactly(tier, next);
    if Moves(f, c) {
      LabelExactly(TierFor(next), next);
      assert -0.5 <= c.round(next) as real - 10000.0 * next <= 0.5;
      assert Rewritten(f, Aged(f, c), next, TierFor(next));
    }
  }

  // ---- a node accessed today -----------------------------------------------------------------

  /** A node accessed on the day of the pass keeps its relevance, whatever its grade, salience and
      captures: only a label that disagrees with it is rewritten, and the value then only rounded. */
  lemma TouchedIsKept(f: NodeFile, c: Clock, relevance: real, tier: string)
    requires Automated(f) && Nearest(c.round) && Reads(f, relevance, tier)
    requires f.lastAccess == c.today
    ensures NextRelevance(f, c) == relevance
    ensures IsLabel(tier, relevance) ==> Aged(f, c) == f
    ensures !IsLabel(tier, relevance) ==>
              exists named :: IsLabel(named, relevance) && Rewritten(f, Aged(f, c), relevance, named)
  {
    ReadsStored(f, relevance, tier);
    AgedExactly(f, c, relevance, tier);
  }

  // ---- any other node ------------------------------------------------------------------------

  /** What a plain node keeps of its relevance in one pass. */
  ghost predicate KeptPart(f: NodeFile, kept: real)
    requires f.NodeFile?
  {
    var grade := if f.grade.Some? then f.grade.value else "natural";
    && (grade == "enriched" ==> kept == 0.999)
    && (grade == "fertile" ==> kept == 0.99)
    && (grade == "depleted" ==> kept == 0.9)
    && (grade == "waste" ==> kept == 0.8)
    && (grade !in {"enriched", "fertile", "depleted", "waste"} ==> kept == 0.95)
  }

  /** `y` is `x` cut to the unit interval. */
  ghost predicate CutToUnit(x: real, y: real) {
    0.0 <= y <= 1.0 && (y < x ==> y == 1.0) && (x < y ==> y == 0.0)
  }

  /** Nine tenths of the salience and half of the capture, together at most 0.95. */
  ghost predicate IsDamping(salience: real, capture: real, d: real) {
    exists s, k :: CutToUnit(salience, s) && CutToUnit(capture, k) && d <= 0.95 && d <= 0.9 * s + 0.5 * k
      && (d == 0.95 || d == 0.9 * s + 0.5 * k)
  }

  /** The capture the pass counts: none without a positive score and a time. */
  ghost predicate IsCapture(f: NodeFile, c: Clock, capture: real)
    requires f.NodeFile?
  {
    if f.captureScore > 0.0 && f.capturedAt.Some? then capture == c.attenuate(f.captureScore, f.capturedAt.value)
    else capture == 0.0
  }

  lemma DampingExactly(salience: real, capture: real)
    ensures IsDamping(salience, capture, Damping(salience, capture))
  {
    assert CutToUnit(salience, Clamped(salience)) && CutToUnit(capture, Clamped(capture));
  }

  /** The part of its distance to the resting point that a file loses in the pass. */
  ghost predicate Loses(f: NodeFile, c: Clock, part: real)
    requires f.NodeFile?
  {
    exists kept, capture, d ::
      && KeptPart(f, kept) && IsCapture(f, c, capture) && IsDamping(f.salience, capture, d)
      && part == (1.0 - kept) * (1.0 - d)
  }

  lemma RateIsLost(f: NodeFile, c: Clock)
    requires f.NodeFile?
    ensures Loses(f, c, EffectiveRate(GradeOf(f), f.salience, CaptureAt(f, c)))
  {
    DampingExactly(f.salience, CaptureAt(f, c));
    var kept, capture, d := 1.0 - Rate(GradeOf(f)), CaptureAt(f, c), Damping(f.salience, CaptureAt(f, c));
    assert KeptPart(f, kept) && IsCapture(f, c, capture);
  }

  lemma PulledToRest(f: NodeFile, c: Clock, relevance: real, tier: string) returns (part: real, rest: real)
    requires f.NodeFile? && Reads(f, relevance, tier)
    requires f.lastAccess != c.today
    ensures part == EffectiveRate(GradeOf(f), f.salience, CaptureAt(f, c))
    ensures rest == if c.elapsed(f.lastAccess) <= 7 then 0.5 else 0.0
    ensures NextRelevance(f, c) == relevance + (rest - relevance) * part
  {
    ReadsStored(f, relevance, tier);
    part := EffectiveRate(GradeOf(f), f.salience, CaptureAt(f, c));
    rest := if c.elapsed(f.lastAccess) <= 7 then 0.5 else 0.0;
    assert NextRelevance(f, c) == Pull(relevance, rest, part);
  }

  /** Within seven days of the last access the relevance moves toward 0.5, later toward 0, by the
      same part of the distance that is left. */
  lemma OthersMove(f: NodeFile, c: Clock, relevance: real, tier: string) returns (part: real, rest: real)
    requires Automated(f) && Reads(f, relevance, tier)
    requires f.lastAccess != c.today
    ensures Loses(f, c, part) && 0.0 < part <= 0.2
    ensures rest == if c.elapsed(f.lastAccess) <= 7 then 0.5 else 0.0
    ensures NextRelevance(f, c) == relevance + (rest - relevance) * part
  {
    part, rest := PulledToRest(f, c, relevance, tier);
    RateIsLost(f, c);
    RateBounds(GradeOf(f), f.salience, CaptureAt(f, c));
  }

  // ---- whom the pass hands to the freezer ----------------------------------------------------

  /** Exactly the rewritten files that come to be labelled frozen and were not, with a salience
      below 0.85. */
  lemma EvictedExactly(f: NodeFile, c: Clock, relevance: real, tier: string)
    requires Automated(f) && Nearest(c.round) && Reads(f, relevance, tier)
    ensures Evicted(f, c) <==> NextRelevance(f, c) < 0.25 && tier != "frozen" && f.salience < 0.85
  {
    ReadsStored(f, relevance, tier);
  }

  // ---- what the pass reports -----------------------------------------------------------------

  /** The report of one file: its name, and both fields before and after to four decimals. */
  ghost predicate Reports(t: Transition, name: string, f: NodeFile, c: Clock)
    requires f.NodeFile?
  {
    exists relevance, tier :: Reads(f, relevance, tier) && ReportsFrom(t, name, relevance, tier, NextRelevance(f, c))
  }

  ghost predicate ReportsFrom(t: Transition, name: string, relevance: real, tier: string, next: real) {
    && t.node == name && t.oldTier == tier && IsLabel(t.newTier, next)
    && Near(t.oldRelevance, relevance) && Near(t.newRelevance, next)
  }

  lemma ReportExactly(name: string, f: NodeFile, c: Clock)
    requires f.NodeFile? && Nearest(c.round)
    ensures Reports(TransitionOf(name, f, c), name, f, c)
  {
    var s, next := StoredOf(f), NextRelevance(f, c);
    ReadsStored(f, s.relevance, s.tier);
    LabelExactly(TierFor(next), next);
    assert -0.5 <= c.round(next) as real - 10000.0 * next <= 0.5;
    assert -0.5 <= c.round(s.relevance) as real - 10000.0 * s.relevance <= 0.5;
    assert ReportsFrom(TransitionOf(name, f, c), name, s.relevance, s.tier, next);
  }

  /** The reports of the named files, in that order. */
  ghost predicate ReportsAll(ts: seq<Transition>, names: seq<string>, files: map<string, NodeFile>, c: Clock) {
    && |ts| == |names|
    && forall i :: 0 <= i < |ts| ==>
         names[i] in files && files[names[i]].NodeFile? && Reports(ts[i], names[i], files[names[i]], c)
  }

  lemma ReportsNext(ts: seq<Transition>, names: seq<string>, files: map<string, NodeFile>, c: Clock, name: string)
    requires ReportsAll(ts, names, files, c) && name in files && files[name].NodeFile? && Nearest(c.round)
    ensures ReportsAll(ts + [TransitionOf(name, files[name], c)], names + [name], files, c)
  {
    ReportExactly(name, files[name], c);
  }

  /** The pass reports exactly the files it finds moved, in listing order. */
  lemma {:induction false} TransitionsInOrder(listing: seq<string>, files: map<string, NodeFile>, dry: bool, autoFreeze: bool,
                                              c: Clock, judge: Judge, moved: string -> bool)
    returns (names: seq<string>)
    requires forall n :: n in listing ==> n in files
    requires forall n, f :: judge(n, f) == Judgement(n, f, dry, autoFreeze, c)
    requires forall n :: moved(n) <==> n in files && Moves(files[n], c)
    requires Nearest(c.round)
    ensures IsFiltered(names, listing, moved)
    ensures ReportsAll(Transitions(listing, files, judge), names, files, c)
  {
    if listing == [] {
      names := [];
      NothingFiltered(moved);
    } else {
      var init, last := listing[..|listing| - 1], listing[|listing| - 1];
      var before := TransitionsInOrder(init, files, dry, autoFreeze, c, judge, moved);
      FilterLast(before, listing, moved, init);
      names := if moved(last) then before + [last] else before;
      if moved(last) { ReportsNext(Transitions(init, files, judge), before, files, c, last); }
    }
  }

  /** The freezer gets exactly the evicted files that are still there, in listing order. */
  lemma {:induction false} QueueInOrder(listing: seq<string>, files: map<string, NodeFile>, gone: set<string>, judge: Judge,
                                        evicted: string -> bool)
    requires forall n :: n in listing ==> n in files
    requires forall n :: evicted(n) <==> n in files && n !in gone && judge(n, files[n]).evict
    ensures IsFiltered(Queue(listing, files, gone, judge), listing, evicted)
  {
    if listing == [] {
      NothingFiltered(evicted);
    } else {
      var init, last := listing[..|listing| - 1], listing[|listing| - 1];
      QueueInOrder(init, files, gone, judge, evicted);
      FilterLast(Queue(init, files, gone, judge), listing, evicted, init);
      assert Queue(init, files, gone, judge) + [] == Queue(init, files, gone, judge);
    }
  }

  // ---- the archive ---------------------------------------------------------------------------

  /** A node is filed under its address, or under its name where it has none. */
  ghost predicate IsIdOf(id: string, name: string, f: NodeFile) {
    if f.NodeFile? && f.address.Some? then f.address == Some(id) else id == name
  }

  ghost predicate LastFiled(queue: seq<string>, files: map<string, NodeFile>, i: int, id: string)
    requires forall n :: n in queue ==> n in files
  {
    && 0 <= i < |queue| && IsIdOf(id, queue[i], files[queue[i]])
    && forall j :: i < j < |queue| ==> !IsIdOf(id, queue[j], files[queue[j]])
  }

  lemma FiledLast(archive: map<string, Archived>, queue: seq<string>, files: map<string, NodeFile>)
    requires queue != [] && forall n :: n in queue ==> n in files
    ensures var last := queue[|queue| - 1];
      IsIdOf(IdOf(last, files[last]), last, files[last])
      && Filed(archive, queue, files)
         == Filed(archive, queue[..|queue| - 1], files)[IdOf(last, files[last]) := Archived(last, files[last])]
  {
  }

  lemma OneId(id: string, name: string, f: NodeFile)
    ensures IsIdOf(id, name, f) <==> IdOf(name, f) == id
  {
  }

  /** Each id holds the last of the queued nodes that is filed under it. */
  lemma {:induction false} FiledExactly(archive: map<string, Archived>, queue: seq<string>, files: map<string, NodeFile>,
                                        i: int, id: string)
    requires forall n :: n in queue ==> n in files
    requires LastFiled(queue, files, i, id)
    ensures id in Filed(archive, queue, files) && Filed(archive, queue, files)[id] == Archived(queue[i], files[queue[i]])
  {
    var n := |queue| - 1;
    FiledLast(archive, queue, files);
    OneId(id, queue[n], files[queue[n]]);
    if i < n {
      var init := queue[..n];
      forall j | i < j < n ensures !IsIdOf(id, init[j], files[init[j]]) { assert init[j] == queue[j]; }
      FiledExactly(archive, init, files, i, id);
    }
  }
}
