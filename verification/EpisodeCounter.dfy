/** `locked_update_json` (samia/core/atomic_state.py) as used by `next_episode_seq`
    (samia/core/temporal_substrate.py): the steps of concurrent, crash-prone processes. */
module EpisodeCounter {
  import opened Options
  import opened AtomicCounter

  /** What parsing a complete file gives: an error, a value that is not an object, or an object
      whose "seq" coerces to an integer or does not. */
  datatype Doc = Unparsable | NotAnObject | Object(seqField: Option<int>)

  /** A file on disk; `Partial` is between the truncation and the end of a write. */
  datatype File = Missing | Partial | Complete(doc: Doc)

  /** Where a process is inside the call. */
  datatype PC =
    | Outside
    | Opened                 // the sidecar lock file is open, flock still to be granted
    | Locked                 // flock granted, state not read yet
    | Failing                // the state is no object: the exception is on its way out
    | Incremented(n: int)    // state read, st["seq"] = current + 1 = n
    | TempOpen(n: int)       // <path>.tmp.<pid> truncated
    | TempWritten(n: int)    // <path>.tmp.<pid> complete
    | Replaced(n: int)       // os.replace done
    | Unlocked(n: int)       // lock released, value still to be returned

  datatype Sys = Sys(file: File, lock: Option<Pid>, temps: map<Pid, File>, procs: map<Pid, PC>)

  datatype Step =
    | Open(p: Pid) | Acquire(p: Pid) | ReadState(p: Pid) | OpenTemp(p: Pid) | FinishTemp(p: Pid)
    | Replace(p: Pid) | Unlock(p: Pid) | Return(p: Pid) | Raise(p: Pid) | Crash(p: Pid)

  function PcOf(s: Sys, p: Pid): PC {
    if p in s.procs then s.procs[p] else Outside
  }

  /** The committed value: 0 for a missing, unparsable or non-integer counter. A half-written
      file would parse as nothing and read as 0 too. */
  function Committed(f: File): int {
    if f.Complete? && f.doc.Object? && f.doc.seqField.Some? then f.doc.seqField.value else 0
  }

  predicate InLock(pc: PC) {
    pc.Locked? || pc.Failing? || pc.Incremented? || pc.TempOpen? || pc.TempWritten? || pc.Replaced?
  }

  predicate CanStep(s: Sys, step: Step) {
    match step
    case Open(p) => PcOf(s, p).Outside?
    case Acquire(p) => PcOf(s, p).Opened? && s.lock.None?
    case ReadState(p) => PcOf(s, p).Locked?
    case OpenTemp(p) => PcOf(s, p).Incremented?
    case FinishTemp(p) => PcOf(s, p).TempOpen?
    case Replace(p) => PcOf(s, p).TempWritten? && p in s.temps
    case Unlock(p) => PcOf(s, p).Replaced?
    case Return(p) => PcOf(s, p).Unlocked?
    case Raise(p) => PcOf(s, p).Failing?
    case Crash(p) => !PcOf(s, p).Outside?
  }

  function Goto(s: Sys, p: Pid, pc: PC): Sys {
    s.(procs := s.procs[p := pc])
  }

  function Do(s: Sys, step: Step): Sys
    requires CanStep(s, step)
  {
    match step
    case Open(p) => Goto(s, p, Opened)
    case Acquire(p) => Goto(s, p, Locked).(lock := Some(p))
    case ReadState(p) =>
      if s.file == Complete(NotAnObject) then Goto(s, p, Failing)
      else Goto(s, p, Incremented(Committed(s.file) + 1))
    case OpenTemp(p) => Goto(s, p, TempOpen(PcOf(s, p).n)).(temps := s.temps[p := Partial])
    case FinishTemp(p) =>
      var n := PcOf(s, p).n;
      Goto(s, p, TempWritten(n)).(temps := s.temps[p := Complete(Object(Some(n)))])
    case Replace(p) =>
      Goto(s, p, Replaced(PcOf(s, p).n)).(file := s.temps[p], temps := s.temps - {p})
    case Unlock(p) => Goto(s, p, Unlocked(PcOf(s, p).n)).(lock := None)
    case Return(p) => Goto(s, p, Outside)
    case Raise(p) => Goto(s, p, Outside).(lock := None)
    case Crash(p) => Goto(s, p, Outside).(lock := if s.lock == Some(p) then None else s.lock)
  }

  predicate CanRun(s: Sys, steps: seq<Step>)
    decreases |steps|
  {
    steps == [] || (CanStep(s, steps[0]) && CanRun(Do(s, steps[0]), steps[1..]))
  }

  function After(s: Sys, steps: seq<Step>): Sys
    requires CanRun(s, steps)
    decreases |steps|
  {
    if steps == [] then s else After(Do(s, steps[0]), steps[1..])
  }

  /** The values `next_episode_seq` returned during the run, in order. */
  function Returned(s: Sys, steps: seq<Step>): seq<int>
    requires CanRun(s, steps)
    decreases |steps|
  {
    if steps == [] then []
    else
      var rest := Returned(Do(s, steps[0]), steps[1..]);
      if steps[0].Return? then [PcOf(s, steps[0].p).n] + rest else rest
  }

  /** Any store with no call under way; stale temp files of crashed processes may lie around. */
  ghost predicate AtRest(s: Sys) {
    s.file != Partial && s.lock.None? && forall p :: PcOf(s, p).Outside?
  }

  // ---- the invariant --------------------------------------------------------------

  /** What a process knows, given the committed state. */
  ghost predicate Knows(s: Sys, p: Pid) {
    match PcOf(s, p)
    case Failing => s.file == Complete(NotAnObject)
    case Incremented(n) => n == Committed(s.file) + 1 && s.file != Complete(NotAnObject)
    case TempOpen(n) => n == Committed(s.file) + 1 && s.file != Complete(NotAnObject)
    case TempWritten(n) =>
      && n == Committed(s.file) + 1 && s.file != Complete(NotAnObject)
      && p in s.temps && s.temps[p] == Complete(Object(Some(n)))
    case Replaced(n) => n == Committed(s.file)
    case _ => true
  }

  ghost predicate SysInv(s: Sys) {
    && s.file != Partial
    && (forall p: Pid :: InLock(PcOf(s, p)) <==> s.lock == Some(p))
    && (forall p :: Knows(s, p))
    && Inv(Abstract(s))
  }

  // ---- refinement -----------------------------------------------------------------

  function AbstractCall(pc: PC): Call {
    match pc
    case Outside => Idle
    case Replaced(n) => Done(n)
    case Unlocked(n) => Done(n)
    case _ => Pending
  }

  function Abstract(s: Sys): Counter {
    Counter(Committed(s.file), map p | p in s.procs :: AbstractCall(s.procs[p]))
  }

  function AbstractOp(step: Step): Op {
    match step
    case Open(p) => Invoke(p)
    case Replace(p) => Bump(p)
    case Return(p) => Respond(p)
    case Raise(p) => Abandon(p)
    case Crash(p) => Abandon(p)
    case _ => Stutter
  }

  function AbstractOps(steps: seq<Step>): seq<Op> {
    seq(|steps|, i requires 0 <= i < |steps| => AbstractOp(steps[i]))
  }

  lemma AbstractCallOf(s: Sys, p: Pid)
    ensures CallOf(Abstract(s), p) == AbstractCall(PcOf(s, p))
  {
  }

  lemma AbstractGoto(s: Sys, p: Pid, pc: PC)
    ensures Abstract(Goto(s, p, pc)).calls == Abstract(s).calls[p := AbstractCall(pc)]
  {
  }

  /** A step of the protocol is a step of the atomic counter: the replace is the instant at
      which the call takes effect, and steps before and after it change nothing abstract. */
  lemma StepRefines(s: Sys, step: Step)
    requires SysInv(s) && CanStep(s, step)
    ensures Enabled(Abstract(s), AbstractOp(step))
    ensures Abstract(Do(s, step)) == Apply(Abstract(s), AbstractOp(step))
  {
    AbstractCallOf(s, step.p);
    assert Knows(s, step.p);
    AbstractGoto(s, step.p, PcOf(Do(s, step), step.p));
    assert Abstract(s).calls[step.p := AbstractCall(PcOf(s, step.p))] == Abstract(s).calls || step.p !in s.procs;
  }

  lemma SysInvStep(s: Sys, step: Step)
    requires SysInv(s) && CanStep(s, step)
    ensures SysInv(Do(s, step))
  {
    var t := Do(s, step);
    StepRefines(s, step);
    InvStep(Abstract(s), AbstractOp(step));
    assert Knows(s, step.p);
    forall p: Pid
      ensures InLock(PcOf(t, p)) <==> t.lock == Some(p)
      ensures Knows(t, p)
    {
      assert InLock(PcOf(s, p)) <==> s.lock == Some(p);
      assert InLock(PcOf(s, step.p)) <==> s.lock == Some(step.p);
      assert Knows(s, p) && Knows(s, step.p);
    }
  }

  /** At rest the invariant holds, so it holds throughout every run. */
  lemma AtRestInv(s: Sys)
    requires AtRest(s)
    ensures SysInv(s) && Quiet(Abstract(s))
  {
    forall p ensures CallOf(Abstract(s), p).Idle? { AbstractCallOf(s, p); }
  }

  /** Every run of the protocol, under any interleaving and any crashes, is a run of the atomic
      counter: same committed value at the end, same values returned in the same order. */
  lemma {:induction false} RunRefines(s: Sys, steps: seq<Step>)
    requires SysInv(s) && CanRun(s, steps)
    ensures SysInv(After(s, steps))
    ensures Possible(Abstract(s), AbstractOps(steps))
    ensures Abstract(After(s, steps)) == Run(Abstract(s), AbstractOps(steps))
    ensures Returned(s, steps) == Outputs(Abstract(s), AbstractOps(steps))
    decreases |steps|
  {
    if steps != [] {
      StepRefines(s, steps[0]);
      SysInvStep(s, steps[0]);
      RunRefines(Do(s, steps[0]), steps[1..]);
      assert AbstractOps(steps)[0] == AbstractOp(steps[0]);
      assert AbstractOps(steps)[1..] == AbstractOps(steps[1..]);
      AbstractCallOf(s, steps[0].p);
    }
  }

  // ---- what callers and readers may rely on ---------------------------------------

  /** At most one process is between taking and releasing the lock. */
  lemma MutualExclusion(s: Sys, steps: seq<Step>, p: Pid, q: Pid)
    requires AtRest(s) && CanRun(s, steps)
    requires InLock(PcOf(After(s, steps), p)) && InLock(PcOf(After(s, steps), q))
    ensures p == q
  {
    AtRestInv(s);
    RunRefines(s, steps);
    var e := After(s, steps);
    assert e.lock == Some(p) && e.lock == Some(q);
  }

  /** A reader that takes no lock always finds a complete file or none, never a partial one,
      and the committed value never falls. */
  lemma ReadersSeeCompleteFiles(s: Sys, before: seq<Step>, more: seq<Step>)
    requires AtRest(s) && CanRun(s, before) && CanRun(After(s, before), more)
    ensures After(s, before).file != Partial
    ensures Committed(After(s, before).file) <= Committed(After(After(s, before), more).file)
  {
    AtRestInv(s);
    RunRefines(s, before);
    var m := After(s, before);
    RunRefines(m, more);
    ValueMonotone(Abstract(m), AbstractOps(more));
  }

  /** No two calls return the same number, whatever crashed. */
  lemma ReturnedDistinct(s: Sys, steps: seq<Step>)
    requires AtRest(s) && CanRun(s, steps)
    ensures forall i, j :: 0 <= i < j < |Returned(s, steps)| ==> Returned(s, steps)[i] != Returned(s, steps)[j]
  {
    AtRestInv(s);
    RunRefines(s, steps);
    OutputsDistinct(Abstract(s), AbstractOps(steps));
  }

  /** A call that starts after another returned gets a larger number. */
  lemma RealTimeOrder(s: Sys, before: seq<Step>, q: Pid, between: seq<Step>, p: Pid, during: seq<Step>)
    requires AtRest(s) && CanRun(s, before) && CanStep(After(s, before), Return(q))
    requires var s1 := Do(After(s, before), Return(q));
             CanRun(s1, between) && CanStep(After(s1, between), Open(p))
    requires var s2 := Do(After(Do(After(s, before), Return(q)), between), Open(p));
             CanRun(s2, during) && CanStep(After(s2, during), Return(p))
    ensures var s2 := Do(After(Do(After(s, before), Return(q)), between), Open(p));
            PcOf(After(s2, during), p).n > PcOf(After(s, before), q).n
  {
    AtRestInv(s);
    RunRefines(s, before);
    var s0 := After(s, before);
    StepRefines(s0, Return(q));
    SysInvStep(s0, Return(q));
    var s1 := Do(s0, Return(q));
    RunRefines(s1, between);
    var m := After(s1, between);
    StepRefines(m, Open(p));
    SysInvStep(m, Open(p));
    var s2 := Do(m, Open(p));
    RunRefines(s2, during);
    var e := After(s2, during);
    StepRefines(e, Return(p));
    AbstractCallOf(s0, q);
    AbstractCallOf(e, p);
    LaterCallsGetMore(Abstract(s0), q, AbstractOps(between), p, AbstractOps(during));
  }

  function Calls(steps: seq<Step>): nat {
    if steps == [] then 0 else (if steps[0].Open? then 1 else 0) + Calls(steps[1..])
  }

  lemma {:induction false} CallsAreInvocations(steps: seq<Step>)
    ensures Calls(steps) == Invocations(AbstractOps(steps))
  {
    if steps != [] {
      CallsAreInvocations(steps[1..]);
      assert AbstractOps(steps)[1..] == AbstractOps(steps[1..]);
      assert AbstractOps(steps)[0] == AbstractOp(steps[0]);
    }
  }

  predicate NoCrash(steps: seq<Step>) {
    forall i :: 0 <= i < |steps| ==> !steps[i].Crash?
  }

  /** A counter that is an object, unparsable or missing never makes a call fail. */
  lemma {:induction false} NoFailure(s: Sys, steps: seq<Step>)
    requires SysInv(s) && s.file != Complete(NotAnObject) && CanRun(s, steps)
    ensures forall i :: 0 <= i < |steps| ==> !steps[i].Raise?
    decreases |steps|
  {
    if steps != [] {
      assert Knows(s, steps[0].p);
      SysInvStep(s, steps[0]);
      NoFailure(Do(s, steps[0]), steps[1..]);
      forall i | 0 <= i < |steps| ensures !steps[i].Raise? {
        if i > 0 { assert steps[i] == steps[1..][i - 1]; }
      }
    }
  }

  /** Without crashes the n calls of a completed run return exactly the next n numbers, each
      once: 1..n from an empty store. */
  lemma DenseWithoutCrashes(s: Sys, steps: seq<Step>)
    requires AtRest(s) && s.file != Complete(NotAnObject)
    requires CanRun(s, steps) && NoCrash(steps) && AtRest(After(s, steps))
    ensures var out, n, c := Returned(s, steps), Calls(steps), Committed(s.file);
            && |out| == n && Committed(After(s, steps).file) == c + n
            && (forall i, j :: 0 <= i < j < |out| ==> out[i] != out[j])
            && (forall v :: v in out <==> c < v <= c + n)
    ensures s.file.Missing? ==> forall v :: v in Returned(s, steps) <==> 1 <= v <= Calls(steps)
  {
    AtRestInv(s);
    AtRestInv(After(s, steps));
    RunRefines(s, steps);
    NoFailure(s, steps);
    CallsAreInvocations(steps);
    forall i | 0 <= i < |steps| ensures !AbstractOps(steps)[i].Abandon? {
      assert !steps[i].Crash? && !steps[i].Raise?;
    }
    DenseOutputs(Abstract(s), AbstractOps(steps));
  }

  ghost predicate OthersOutside(s: Sys, p: Pid) {
    forall q: Pid :: q != p ==> PcOf(s, q).Outside?
  }

  /** Lock, read and increment, and the new state complete in the temp file: nothing committed. */
  method Prepare(s: Sys, p: Pid) returns (t: Sys, ghost steps: seq<Step>)
    requires AtRest(s) && s.file != Complete(NotAnObject)
    ensures |steps| == 5 && CanRun(s, steps) && t == After(s, steps) && Returned(s, steps) == []
    ensures t.file == s.file && t.lock == Some(p) && OthersOutside(t, p)
    ensures PcOf(t, p) == TempWritten(Committed(s.file) + 1)
    ensures p in t.temps && t.temps[p] == Complete(Object(Some(Committed(s.file) + 1)))
  {
    t, steps := s, [];
    t, steps := Extend(s, t, Open(p), steps);
    t, steps := Extend(s, t, Acquire(p), steps);
    t, steps := Extend(s, t, ReadState(p), steps);
    t, steps := Extend(s, t, OpenTemp(p), steps);
    t, steps := Extend(s, t, FinishTemp(p), steps);
    forall q: Pid | q != p ensures PcOf(t, q).Outside? { assert PcOf(s, q).Outside?; }
  }

  /** One undisturbed process: the call commits and returns the committed value plus one. */
  method SoloCall(s: Sys, p: Pid) returns (t: Sys, v: int, ghost steps: seq<Step>)
    requires AtRest(s) && s.file != Complete(NotAnObject)
    ensures |steps| == 8 && CanRun(s, steps) && t == After(s, steps)
    ensures v == Committed(s.file) + 1 == Committed(t.file) && AtRest(t)
    ensures Returned(s, steps) == [v]
  {
    t, steps := Prepare(s, p);
    ghost var ready := t;
    t, steps := Extend(s, t, Replace(p), steps);
    t, steps := Extend(s, t, Unlock(p), steps);
    v := PcOf(t, p).n;
    t, steps := Extend(s, t, Return(p), steps);
    forall q: Pid ensures PcOf(t, q).Outside? { assert q != p ==> PcOf(ready, q).Outside?; }
  }

  method Extend(ghost s: Sys, t: Sys, step: Step, ghost steps: seq<Step>) returns (u: Sys, ghost more: seq<Step>)
    requires CanRun(s, steps) && t == After(s, steps) && CanStep(t, step)
    ensures more == steps + [step] && CanRun(s, more) && u == After(s, more) && u == Do(t, step)
    ensures Returned(s, more) == Returned(s, steps) + if step.Return? then [PcOf(t, step.p).n] else []
  {
    u, more := Do(t, step), steps + [step];
    Append(s, steps, step);
  }

  lemma {:induction false} Append(s: Sys, steps: seq<Step>, step: Step)
    requires CanRun(s, steps) && CanStep(After(s, steps), step)
    ensures CanRun(s, steps + [step])
    ensures After(s, steps + [step]) == Do(After(s, steps), step)
    ensures Returned(s, steps + [step]) ==
            Returned(s, steps) + if step.Return? then [PcOf(After(s, steps), step.p).n] else []
    decreases |steps|
  {
    if steps != [] {
      Append(Do(s, steps[0]), steps[1..], step);
      assert (steps + [step])[1..] == steps[1..] + [step];
    } else {
      assert [step][1..] == [];
    }
  }

  // ---- why each half of the mechanism is there ------------------------------------

  /** The number of the process is committed and not returned yet. */
  predicate Committing(s: Sys, p: Pid) {
    PcOf(s, p).Replaced? || PcOf(s, p).Unlocked?
  }

  /** A crash between the replace and the return loses its number for good. */
  lemma CrashLeavesGap(s: Sys, p: Pid)
    requires SysInv(s) && Committing(s, p)
    ensures var t := Do(s, Crash(p));
            SysInv(t) && t.file == s.file && forall steps :: CanRun(t, steps) ==> PcOf(s, p).n !in Returned(t, steps)
  {
    var t, n := Do(s, Crash(p)), PcOf(s, p).n;
    SysInvStep(s, Crash(p));
    AbstractCallOf(s, p);
    forall q | CallOf(Abstract(t), q).Done? ensures CallOf(Abstract(t), q).v != n {
      AbstractCallOf(t, q);
      AbstractCallOf(s, q);
    }
    forall steps | CanRun(t, steps) ensures n !in Returned(t, steps) {
      RunRefines(t, steps);
      SpentStays(Abstract(t), AbstractOps(steps), n);
    }
  }

  /** No process crashes between its replace and its return. */
  predicate NoLateCrash(s: Sys, steps: seq<Step>)
    requires CanRun(s, steps)
    decreases |steps|
  {
    steps == [] || (!(steps[0].Crash? && Committing(s, steps[0].p)) && NoLateCrash(Do(s, steps[0]), steps[1..]))
  }

  lemma {:induction false} LateCrashesAreLosses(s: Sys, steps: seq<Step>)
    requires SysInv(s) && CanRun(s, steps) && Possible(Abstract(s), AbstractOps(steps))
    ensures NoLateCrash(s, steps) <==> NoLoss(Abstract(s), AbstractOps(steps))
    decreases |steps|
  {
    if steps != [] {
      StepRefines(s, steps[0]);
      SysInvStep(s, steps[0]);
      AbstractCallOf(s, steps[0].p);
      assert AbstractOps(steps)[0] == AbstractOp(steps[0]);
      assert AbstractOps(steps)[1..] == AbstractOps(steps[1..]);
      LateCrashesAreLosses(Do(s, steps[0]), steps[1..]);
    }
  }

  /** Between rest states every number up to the committed one is returned to some caller exactly
      when no process crashed between its replace and its return: that is the only source of gaps,
      and it always leaves one. */
  lemma GaplessRunExactlyWhen(s: Sys, steps: seq<Step>)
    requires AtRest(s) && CanRun(s, steps) && AtRest(After(s, steps))
    ensures (forall v :: Committed(s.file) < v <= Committed(After(s, steps).file) ==> v in Returned(s, steps))
       <==> NoLateCrash(s, steps)
  {
    AtRestInv(s);
    AtRestInv(After(s, steps));
    RunRefines(s, steps);
    LateCrashesAreLosses(s, steps);
    GaplessExactlyWhen(Abstract(s), AbstractOps(steps));
  }
}
