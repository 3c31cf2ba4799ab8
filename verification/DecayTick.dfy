/** The 6-hour decay subscriber `decay_tick` (samia/core/tier.py): concurrent sessions, a
    non-blocking lock, and an interval gate read inside it. */
module DecayTick {
  import opened Options

  type Sid = nat

  const INTERVAL := 21600.0

  /** The state file: `Unusable` parses but makes `float(state.get(...))` raise. */
  datatype StateFile = Missing | Unparsable | Unusable | Tick(last: Option<real>)

  /** `guarded` is false for a session whose lock file could not be opened. */
  datatype PC =
    | Outside
    | Opened
    | Deciding(guarded: bool)
    | InPass(guarded: bool, last: real, now: real, force: bool)    // running decay_pass
    | TempWritten(guarded: bool, last: real, now: real, force: bool)
    | Leaving(guarded: bool)                                       // in the finally block

  datatype Sys = Sys(file: StateFile, lock: Option<Sid>, procs: map<Sid, PC>)

  datatype Step =
    | Open(p: Sid) | OpenFails(p: Sid) | TryLock(p: Sid) | Decide(p: Sid, now: real, force: bool)
    | FinishPass(p: Sid) | Replace(p: Sid) | Leave(p: Sid) | Crash(p: Sid)

  /** A committed `last_tick_unix` and whether the call was forced. */
  datatype Record = Record(at: real, forced: bool)

  function PcOf(s: Sys, p: Sid): PC {
    if p in s.procs then s.procs[p] else Outside
  }

  function LastTick(f: StateFile): real {
    if f.Tick? && f.last.Some? then f.last.value else 0.0
  }

  /** The gate: forced, or no earlier tick, or the interval has elapsed. */
  predicate Due(last: real, now: real, force: bool) {
    force || last <= 0.0 || now - last >= INTERVAL
  }

  predicate CanStep(s: Sys, step: Step) {
    match step
    case Open(p) => PcOf(s, p).Outside?
    case OpenFails(p) => PcOf(s, p).Outside?
    case TryLock(p) => PcOf(s, p).Opened?
    case Decide(p, _, _) => PcOf(s, p).Deciding?
    case FinishPass(p) => PcOf(s, p).InPass?
    case Replace(p) => PcOf(s, p).TempWritten?
    case Leave(p) => PcOf(s, p).Leaving?
    case Crash(p) => !PcOf(s, p).Outside?
  }

  function Goto(s: Sys, p: Sid, pc: PC): (t: Sys)
    ensures t.file == s.file && t.lock == s.lock
    ensures forall q :: PcOf(t, q) == if q == p then pc else PcOf(s, q)
  {
    s.(procs := s.procs[p := pc])
  }

  function Do(s: Sys, step: Step): Sys
    requires CanStep(s, step)
  {
    match step
    case Open(p) => Goto(s, p, Opened)
    case OpenFails(p) => Goto(s, p, Deciding(false))
    case TryLock(p) =>
      if s.lock.None? then Goto(s, p, Deciding(true)).(lock := Some(p)) else Goto(s, p, Outside)
    case Decide(p, now, force) =>
      var g, last := PcOf(s, p).guarded, LastTick(s.file);
      if s.file.Unusable? || !Due(last, now, force) then Goto(s, p, Leaving(g))
      else Goto(s, p, InPass(g, last, now, force))
    case FinishPass(p) =>
      var pc := PcOf(s, p);
      Goto(s, p, TempWritten(pc.guarded, pc.last, pc.now, pc.force))
    case Replace(p) =>
      var pc := PcOf(s, p);
      Goto(s, p, Leaving(pc.guarded)).(file := Tick(Some(pc.now)))
    case Leave(p) => Unlock(Goto(s, p, Outside), p)
    case Crash(p) => Unlock(Goto(s, p, Outside), p)
  }

  function Unlock(s: Sys, p: Sid): Sys {
    s.(lock := if s.lock == Some(p) then None else s.lock)
  }

  predicate CanRun(s: Sys, steps: seq<Step>)
    decreases |steps|
  {
    steps == [] || (CanStep(s, steps[0]) && CanRun(Do(s, steps[0]), steps[1..]))
  }

  function After(s: Sys, steps: seq<Step>): Sys
    requires CanRun(s, steps)
    decreases |steps|
  {
    if steps == [] then s else After(Do(s, steps[0]), steps[1..])
  }

  /** The ticks committed during a run, in order. */
  function Records(s: Sys, steps: seq<Step>): seq<Record>
    requires CanRun(s, steps)
    decreases |steps|
  {
    if steps == [] then []
    else
      var rest := Records(Do(s, steps[0]), steps[1..]);
      if steps[0].Replace? then [Record(PcOf(s, steps[0].p).now, PcOf(s, steps[0].p).force)] + rest else rest
  }

  predicate LocksOpen(steps: seq<Step>) {
    forall i :: 0 <= i < |steps| ==> !steps[i].OpenFails?
  }

  ghost predicate AtRest(s: Sys) {
    s.lock.None? && forall p :: PcOf(s, p).Outside?
  }

  predicate Working(pc: PC) {
    pc.Deciding? || pc.InPass? || pc.TempWritten? || pc.Leaving?
  }

  ghost predicate SysInv(s: Sys) {
    && (forall p: Sid :: Working(PcOf(s, p)) <==> s.lock == Some(p))
    && (forall p: Sid :: PcOf(s, p).InPass? || PcOf(s, p).TempWritten? ==>
          PcOf(s, p).last == LastTick(s.file) && Due(PcOf(s, p).last, PcOf(s, p).now, PcOf(s, p).force))
  }

  lemma SysInvStep(s: Sys, step: Step)
    requires SysInv(s) && CanStep(s, step) && !step.OpenFails?
    ensures SysInv(Do(s, step))
  {
    var t := Do(s, step);
    assert Working(PcOf(s, step.p)) <==> s.lock == Some(step.p);
    forall p: Sid
      ensures Working(PcOf(t, p)) <==> t.lock == Some(p)
      ensures PcOf(t, p).InPass? || PcOf(t, p).TempWritten? ==>
                PcOf(t, p).last == LastTick(t.file) && Due(PcOf(t, p).last, PcOf(t, p).now, PcOf(t, p).force)
    {
      assert Working(PcOf(s, p)) <==> s.lock == Some(p);
    }
  }

  lemma {:induction false} SysInvRun(s: Sys, steps: seq<Step>)
    requires SysInv(s) && CanRun(s, steps) && LocksOpen(steps)
    ensures SysInv(After(s, steps))
    decreases |steps|
  {
    if steps != [] {
      SysInvStep(s, steps[0]);
      SysInvRun(Do(s, steps[0]), steps[1..]);
    }
  }

  ghost predicate OnePass(s: Sys) {
    forall p, q :: PcOf(s, p).InPass? && PcOf(s, q).InPass? ==> p == q
  }

  /** While every lock file opens, at most one session is inside the pass. */
  lemma OnePassAtATime(s: Sys, steps: seq<Step>)
    requires AtRest(s) && CanRun(s, steps) && LocksOpen(steps)
    ensures OnePass(After(s, steps))
  {
    SysInvRun(s, steps);
    var t := After(s, steps);
    forall p, q | PcOf(t, p).InPass? && PcOf(t, q).InPass? ensures p == q {
      assert Working(PcOf(t, p)) && Working(PcOf(t, q));
    }
  }

  /** `at` may follow a recorded `last`. */
  predicate Spaced(last: real, r: Record) {
    r.forced || last <= 0.0 || r.at >= last + INTERVAL
  }

  predicate AllSpaced(last: real, log: seq<Record>)
    decreases |log|
  {
    log == [] || (Spaced(last, log[0]) && AllSpaced(log[0].at, log[1..]))
  }

  lemma {:induction false} SpacedNeighbours(last: real, log: seq<Record>, i: nat)
    requires AllSpaced(last, log) && i < |log|
    ensures Spaced(if i == 0 then last else log[i - 1].at, log[i])
    decreases i
  {
    if i > 0 {
      SpacedNeighbours(log[0].at, log[1..], i - 1);
    }
  }

  lemma {:induction false} RunIsSpaced(s: Sys, steps: seq<Step>)
    requires SysInv(s) && CanRun(s, steps) && LocksOpen(steps)
    ensures AllSpaced(LastTick(s.file), Records(s, steps))
    decreases |steps|
  {
    if steps != [] {
      var next := Do(s, steps[0]);
      SysInvStep(s, steps[0]);
      RunIsSpaced(next, steps[1..]);
      if steps[0].Replace? {
        assert Records(s, steps)[1..] == Records(next, steps[1..]);
      }
    }
  }

  /** Each recorded tick that was not forced is at least the interval after the positive tick
      recorded before it. */
  ghost predicate TicksSpaced(s: Sys, steps: seq<Step>)
    requires CanRun(s, steps)
  {
    var log := Records(s, steps);
    forall i :: 0 <= i < |log| && !log[i].forced ==>
      var before := if i == 0 then LastTick(s.file) else log[i - 1].at;
      before > 0.0 ==> log[i].at >= before + INTERVAL
  }

  /** While every lock file opens the ticks are spaced, whatever the clocks of the sessions say
      and whoever crashes. */
  lemma TicksAreSpaced(s: Sys, steps: seq<Step>)
    requires AtRest(s) && CanRun(s, steps) && LocksOpen(steps)
    ensures TicksSpaced(s, steps)
  {
    RunIsSpaced(s, steps);
    forall i | 0 <= i < |Records(s, steps)|
      ensures Spaced(if i == 0 then LastTick(s.file) else Records(s, steps)[i - 1].at, Records(s, steps)[i])
    {
      SpacedNeighbours(LastTick(s.file), Records(s, steps), i);
    }
  }

  // ---- who gets to work ---------------------------------------------------------------------

  /** The last tick on record, if there is one after the epoch. */
  ghost predicate Recorded(f: StateFile, last: real) {
    f == Tick(Some(last)) && last > 0.0
  }

  /** What lets a session into the pass: force, no tick on record, or six hours since the last. */
  ghost predicate MayWork(f: StateFile, now: real, force: bool) {
    f != Unusable && (force || forall last :: Recorded(f, last) ==> now - last >= 21600.0)
  }

  /** A deciding session enters the pass exactly when it may, and else leaves. */
  lemma EntersExactlyWhen(s: Sys, p: Sid, now: real, force: bool)
    requires PcOf(s, p).Deciding?
    ensures var after := PcOf(Do(s, Decide(p, now, force)), p);
      if MayWork(s.file, now, force) then after.InPass? && after.now == now else after.Leaving?
  {
    var last := LastTick(s.file);
    if last > 0.0 { assert Recorded(s.file, last); }
    forall l | Recorded(s.file, l) ensures l == last {}
  }

  /** The steps of an undisturbed call. */
  function Call(p: Sid, now: real, force: bool, works: bool): seq<Step> {
    [Open(p)] + ([TryLock(p)] + ([Decide(p, now, force)] + Ending(p, works)))
  }

  function Ending(p: Sid, works: bool): seq<Step> {
    if works then [FinishPass(p)] + ([Replace(p)] + ([Leave(p)] + [])) else [Leave(p)] + []
  }

  lemma RunFirst(s: Sys, step: Step, rest: seq<Step>)
    requires CanStep(s, step) && CanRun(Do(s, step), rest)
    ensures CanRun(s, [step] + rest) && After(s, [step] + rest) == After(Do(s, step), rest)
  {
    assert ([step] + rest)[1..] == rest;
  }

  /** A step moves its own session only. */
  lemma OthersStay(s: Sys, step: Step)
    requires CanStep(s, step)
    ensures forall q :: q != step.p ==> PcOf(Do(s, step), q) == PcOf(s, q)
  {
    forall q | q != step.p ensures PcOf(Do(s, step), q) == PcOf(s, q) {}
  }

  lemma EndingRuns(s: Sys, p: Sid, works: bool)
    requires if works then PcOf(s, p).InPass? else PcOf(s, p).Leaving?
    requires s.lock == Some(p) && forall q :: q != p ==> PcOf(s, q).Outside?
    ensures CanRun(s, Ending(p, works))
    ensures var t := After(s, Ending(p, works));
      AtRest(t) && t.file == if works then Tick(Some(PcOf(s, p).now)) else s.file
  {
    if works {
      var s1 := Do(s, FinishPass(p));
      var s2 := Do(s1, Replace(p));
      OthersStay(s, FinishPass(p));
      OthersStay(s1, Replace(p));
      OthersStay(s2, Leave(p));
      RunFirst(s2, Leave(p), []);
      RunFirst(s1, Replace(p), [Leave(p)] + []);
      RunFirst(s, FinishPass(p), [Replace(p)] + ([Leave(p)] + []));
    } else {
      OthersStay(s, Leave(p));
      RunFirst(s, Leave(p), []);
    }
  }

  /** An undisturbed call does the pass and records its time exactly when it may, leaves the record
      alone otherwise, and gives the lock back. */
  lemma UndisturbedCall(s: Sys, p: Sid, now: real, force: bool)
    requires AtRest(s)
    ensures var works := MayWork(s.file, now, force);
      && CanRun(s, Call(p, now, force, works))
      && var t := After(s, Call(p, now, force, works));
         AtRest(t) && t.file == if works then Tick(Some(now)) else s.file
  {
    var works := MayWork(s.file, now, force);
    var s1 := Do(s, Open(p));
    var s2 := Do(s1, TryLock(p));
    EntersExactlyWhen(s2, p, now, force);
    var s3 := Do(s2, Decide(p, now, force));
    OthersStay(s, Open(p));
    OthersStay(s1, TryLock(p));
    OthersStay(s2, Decide(p, now, force));
    EndingRuns(s3, p, works);
    RunFirst(s2, Decide(p, now, force), Ending(p, works));
    RunFirst(s1, TryLock(p), [Decide(p, now, force)] + Ending(p, works));
    RunFirst(s, Open(p), [TryLock(p)] + ([Decide(p, now, force)] + Ending(p, works)));
  }

  // ---- lock files that do not open ----------------------------------------------------------

  /** Only the lock files of the sessions in `failing` ever fail to open. */
  predicate FailuresIn(steps: seq<Step>, failing: set<Sid>) {
    forall i :: 0 <= i < |steps| && steps[i].OpenFails? ==> steps[i].p in failing
  }

  lemma {:induction false} OneMore(s: Sys, steps: seq<Step>, step: Step)
    requires CanRun(s, steps) && CanStep(After(s, steps), step)
    ensures CanRun(s, steps + [step]) && After(s, steps + [step]) == Do(After(s, steps), step)
    ensures Records(s, steps + [step]) == Records(s, steps) + Records(After(s, steps), [step])
    decreases |steps|
  {
    if steps == [] {
      assert [] + [step] == [step];
      assert [step][1..] == [];
    } else {
      OneMore(Do(s, steps[0]), steps[1..], step);
      assert (steps + [step])[1..] == steps[1..] + [step];
    }
  }

  lemma RecordOf(s: Sys, step: Step)
    requires CanStep(s, step)
    ensures Records(s, [step]) == if step.Replace? then [Record(PcOf(s, step.p).now, PcOf(s, step.p).force)] else []
  {
    assert [step][1..] == [];
  }

  lemma Then(s: Sys, t: Sys, steps: seq<Step>, step: Step) returns (u: Sys, more: seq<Step>)
    requires CanRun(s, steps) && t == After(s, steps) && CanStep(t, step)
    ensures more == steps + [step] && CanRun(s, more) && u == After(s, more) && u == Do(t, step)
    ensures Records(s, more) ==
            Records(s, steps) + if step.Replace? then [Record(PcOf(t, step.p).now, PcOf(t, step.p).force)] else []
  {
    OneMore(s, steps, step);
    RecordOf(t, step);
    u, more := Do(t, step), steps + [step];
  }

  /** A store whose last tick was an interval ago. */
  function Stale(now: real): Sys {
    Sys(Tick(Some(now - INTERVAL)), None, map[])
  }

  /** One session without a lock, and one with it: both get into the pass. */
  lemma UnguardedOverlaps(f: Sid, q: Sid, now: real) returns (steps: seq<Step>)
    requires f != q
    ensures CanRun(Stale(now), steps) && FailuresIn(steps, {f}) && Records(Stale(now), steps) == []
    ensures var t := After(Stale(now), steps);
      PcOf(t, f) == InPass(false, now - INTERVAL, now, false) && PcOf(t, q) == InPass(true, now - INTERVAL, now, false)
  {
    var s := Stale(now);
    var t := s;
    t, steps := Then(s, t, [], OpenFails(f));
    t, steps := Then(s, t, steps, Decide(f, now, false));
    t, steps := Then(s, t, steps, Open(q));
    t, steps := Then(s, t, steps, TryLock(q));
    t, steps := Then(s, t, steps, Decide(q, now, false));
  }

  /** And both record a tick of the same moment. */
  lemma UnguardedRecordsTwice(f: Sid, q: Sid, now: real) returns (steps: seq<Step>)
    requires f != q && now > 0.0
    ensures CanRun(Stale(now), steps) && FailuresIn(steps, {f}) && !TicksSpaced(Stale(now), steps)
  {
    var s := Stale(now);
    steps := UnguardedOverlaps(f, q, now);
    var t := After(s, steps);
    t, steps := Then(s, t, steps, FinishPass(f));
    t, steps := Then(s, t, steps, FinishPass(q));
    t, steps := Then(s, t, steps, Replace(f));
    t, steps := Then(s, t, steps, Replace(q));
    assert Records(s, steps)[0] == Record(now, false) && Records(s, steps)[1] == Record(now, false);
  }

  /** Every run in which only the lock files of sessions in `failing` fail to open. */
  ghost predicate AlwaysOnePass(failing: set<Sid>) {
    forall s, steps :: AtRest(s) && CanRun(s, steps) && FailuresIn(steps, failing) ==> OnePass(After(s, steps))
  }

  ghost predicate AlwaysSpaced(failing: set<Sid>) {
    forall s, steps :: AtRest(s) && CanRun(s, steps) && FailuresIn(steps, failing) ==> TicksSpaced(s, steps)
  }

  /** Mutual exclusion and spacing hold exactly when no lock file may fail to open: a single
      session without its lock is enough to break both. */
  lemma LockedExactlyWhen(failing: set<Sid>)
    ensures AlwaysOnePass(failing) <==> failing == {}
    ensures AlwaysSpaced(failing) <==> failing == {}
  {
    if failing == {} {
      forall s, steps | AtRest(s) && CanRun(s, steps) && FailuresIn(steps, failing)
        ensures OnePass(After(s, steps)) && TicksSpaced(s, steps)
      {
        OnePassAtATime(s, steps);
        TicksAreSpaced(s, steps);
      }
    } else {
      var f :| f in failing;
      var overlap := UnguardedOverlaps(f, f + 1, 1.0);
      assert AtRest(Stale(1.0)) && FailuresIn(overlap, failing);
      assert !OnePass(After(Stale(1.0), overlap));
      var twice := UnguardedRecordsTwice(f, f + 1, 1.0);
      assert FailuresIn(twice, failing);
    }
  }
}
