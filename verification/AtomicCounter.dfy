/** The specification of the episode counter: an atomic counter with concurrent callers. */
module AtomicCounter {
  import opened Options

  type Pid = nat

  datatype Call = Idle | Pending | Done(v: int)

  datatype Counter = Counter(value: int, calls: map<Pid, Call>)

  /** A call starts, takes effect at one instant, and returns; it may be abandoned by a crash. */
  datatype Op = Invoke(p: Pid) | Bump(p: Pid) | Respond(p: Pid) | Abandon(p: Pid) | Stutter

  function CallOf(a: Counter, p: Pid): Call {
    if p in a.calls then a.calls[p] else Idle
  }

  predicate Enabled(a: Counter, op: Op) {
    match op
    case Invoke(p) => CallOf(a, p).Idle?
    case Bump(p) => CallOf(a, p).Pending?
    case Respond(p) => CallOf(a, p).Done?
    case Abandon(p) => !CallOf(a, p).Idle?
    case Stutter => true
  }

  function Apply(a: Counter, op: Op): (b: Counter)
    requires Enabled(a, op)
    ensures forall p :: op.Stutter? || p != op.p ==> CallOf(b, p) == CallOf(a, p)
    ensures a.value <= b.value
  {
    match op
    case Invoke(p) => a.(calls := a.calls[p := Pending])
    case Bump(p) => Counter(a.value + 1, a.calls[p := Done(a.value + 1)])
    case Respond(p) => a.(calls := a.calls[p := Idle])
    case Abandon(p) => a.(calls := a.calls[p := Idle])
    case Stutter => a
  }

  /** The value a step hands to its caller. */
  function Output(a: Counter, op: Op): Option<int> {
    if op.Respond? && CallOf(a, op.p).Done? then Some(CallOf(a, op.p).v) else None
  }

  // ---- runs -----------------------------------------------------------------------

  predicate Possible(a: Counter, ops: seq<Op>)
    decreases |ops|
  {
    ops == [] || (Enabled(a, ops[0]) && Possible(Apply(a, ops[0]), ops[1..]))
  }

  function Run(a: Counter, ops: seq<Op>): Counter
    requires Possible(a, ops)
    decreases |ops|
  {
    if ops == [] then a else Run(Apply(a, ops[0]), ops[1..])
  }

  /** The values returned during a run, in the order they were returned. */
  function Outputs(a: Counter, ops: seq<Op>): seq<int>
    requires Possible(a, ops)
    decreases |ops|
  {
    if ops == [] then []
    else
      var rest := Outputs(Apply(a, ops[0]), ops[1..]);
      match Output(a, ops[0])
      case None => rest
      case Some(v) => [v] + rest
  }

  /** No call is under way. */
  ghost predicate Quiet(a: Counter) {
    forall p :: CallOf(a, p).Idle?
  }

  // ---- invariants -----------------------------------------------------------------

  /** Calls that took effect hold distinct values not above the counter. */
  ghost predicate Inv(a: Counter) {
    && (forall p :: CallOf(a, p).Done? ==> CallOf(a, p).v <= a.value)
    && (forall p, q :: p != q && CallOf(a, p).Done? && CallOf(a, q).Done? ==> CallOf(a, p).v != CallOf(a, q).v)
  }

  lemma InvStep(a: Counter, op: Op)
    requires Inv(a) && Enabled(a, op)
    ensures Inv(Apply(a, op))
    ensures a.value <= Apply(a, op).value
  {
  }

  /** `u` was returned: no later return can give it again. */
  ghost predicate Spent(a: Counter, u: int) {
    u <= a.value && forall p :: CallOf(a, p).Done? ==> CallOf(a, p).v != u
  }

  /** Whatever the calls of `p` that are under way or still to come return exceeds `u`. */
  ghost predicate Exceeds(a: Counter, p: Pid, u: int) {
    u <= a.value && (CallOf(a, p).Done? ==> CallOf(a, p).v > u)
  }

  lemma {:induction false} SpentStays(a: Counter, ops: seq<Op>, u: int)
    requires Inv(a) && Possible(a, ops) && Spent(a, u)
    ensures u !in Outputs(a, ops)
    decreases |ops|
  {
    if ops != [] {
      InvStep(a, ops[0]);
      SpentStays(Apply(a, ops[0]), ops[1..], u);
    }
  }

  /** No two returns of a run carry the same value. */
  lemma {:induction false} OutputsDistinct(a: Counter, ops: seq<Op>)
    requires Inv(a) && Possible(a, ops)
    ensures forall i, j :: 0 <= i < j < |Outputs(a, ops)| ==> Outputs(a, ops)[i] != Outputs(a, ops)[j]
    decreases |ops|
  {
    if ops != [] {
      var next := Apply(a, ops[0]);
      InvStep(a, ops[0]);
      OutputsDistinct(next, ops[1..]);
      if Output(a, ops[0]).Some? {
        var u := Output(a, ops[0]).value;
        assert Spent(next, u);
        SpentStays(next, ops[1..], u);
      }
    }
  }

  /** The counter never falls. */
  lemma {:induction false} ValueMonotone(a: Counter, ops: seq<Op>)
    requires Inv(a) && Possible(a, ops)
    ensures Inv(Run(a, ops)) && a.value <= Run(a, ops).value
    decreases |ops|
  {
    if ops != [] {
      InvStep(a, ops[0]);
      ValueMonotone(Apply(a, ops[0]), ops[1..]);
    }
  }

  lemma {:induction false} ExceedsStays(a: Counter, ops: seq<Op>, p: Pid, u: int)
    requires Inv(a) && Possible(a, ops) && Exceeds(a, p, u)
    ensures Inv(Run(a, ops)) && Exceeds(Run(a, ops), p, u)
    decreases |ops|
  {
    if ops != [] {
      InvStep(a, ops[0]);
      ExceedsStays(Apply(a, ops[0]), ops[1..], p, u);
    }
  }

  /** A call of `p` that starts after `q`'s call returned gets a larger value, whatever
      happens in between. */
  lemma LaterCallsGetMore(a: Counter, q: Pid, between: seq<Op>, p: Pid, during: seq<Op>)
    requires Inv(a) && Enabled(a, Respond(q))
    requires var a1 := Apply(a, Respond(q));
             Possible(a1, between) && Enabled(Run(a1, between), Invoke(p))
    requires var a2 := Apply(Run(Apply(a, Respond(q)), between), Invoke(p));
             Possible(a2, during) && Enabled(Run(a2, during), Respond(p))
    ensures var end := Run(Apply(Run(Apply(a, Respond(q)), between), Invoke(p)), during);
            Output(end, Respond(p)).value > Output(a, Respond(q)).value
  {
    var u := CallOf(a, q).v;
    var a1 := Apply(a, Respond(q));
    InvStep(a, Respond(q));
    ValueMonotone(a1, between);
    var mid := Run(a1, between);
    InvStep(mid, Invoke(p));
    ExceedsStays(Apply(mid, Invoke(p)), during, p, u);
  }

  // ---- runs without crashes -------------------------------------------------------

  predicate NoAbandon(ops: seq<Op>) {
    forall i :: 0 <= i < |ops| ==> !ops[i].Abandon?
  }

  function Invocations(ops: seq<Op>): nat {
    if ops == [] then 0 else (if ops[0].Invoke? then 1 else 0) + Invocations(ops[1..])
  }

  ghost function Active(a: Counter): set<Pid> {
    set p | p in a.calls && !CallOf(a, p).Idle?
  }

  lemma OthersUnaffected(a: Counter, op: Op)
    requires Enabled(a, op) && !op.Stutter?
    ensures Active(Apply(a, op)) - {op.p} == Active(a) - {op.p}
  {
    var next := Apply(a, op);
    forall q | q != op.p ensures q in Active(next) <==> q in Active(a) {
      assert CallOf(next, q) == CallOf(a, q);
    }
  }

  lemma ActiveStep(a: Counter, op: Op)
    requires Enabled(a, op) && !op.Abandon?
    ensures |Active(a)| + (if op.Invoke? then 1 else 0) ==
            (if Output(a, op).Some? then 1 else 0) + |Active(Apply(a, op))|
  {
    if !op.Stutter? {
      OthersUnaffected(a, op);
      SizeSplit(Active(a), op.p);
      SizeSplit(Active(Apply(a, op)), op.p);
    }
  }

  lemma SizeSplit(s: set<Pid>, p: Pid)
    ensures |s| == |s - {p}| + if p in s then 1 else 0
  {
    if p in s { assert s == (s - {p}) + {p}; } else { assert s == s - {p}; }
  }

  /** Every call is accounted for: returned or still under way. */
  lemma {:induction false} CallsAreConserved(a: Counter, ops: seq<Op>)
    requires Possible(a, ops) && NoAbandon(ops)
    ensures |Active(a)| + Invocations(ops) == |Outputs(a, ops)| + |Active(Run(a, ops))|
    decreases |ops|
  {
    if ops != [] {
      ActiveStep(a, ops[0]);
      CallsAreConserved(Apply(a, ops[0]), ops[1..]);
    }
  }

  /** No call is abandoned after it took effect. */
  predicate NoLoss(a: Counter, ops: seq<Op>)
    requires Possible(a, ops)
    decreases |ops|
  {
    ops == [] || (!(ops[0].Abandon? && CallOf(a, ops[0].p).Done?) && NoLoss(Apply(a, ops[0]), ops[1..]))
  }

  lemma {:induction false} NoAbandonNoLoss(a: Counter, ops: seq<Op>)
    requires Possible(a, ops) && NoAbandon(ops)
    ensures NoLoss(a, ops)
    decreases |ops|
  {
    if ops != [] { NoAbandonNoLoss(Apply(a, ops[0]), ops[1..]); }
  }

  /** Every value the counter passes is returned or still held by a call. */
  lemma {:induction false} NoGaps(a: Counter, ops: seq<Op>, v: int)
    requires Inv(a) && Possible(a, ops) && NoLoss(a, ops)
    requires a.value < v <= Run(a, ops).value || exists p :: CallOf(a, p) == Done(v)
    ensures v in Outputs(a, ops) || exists p :: CallOf(Run(a, ops), p) == Done(v)
    decreases |ops|
  {
    if ops != [] {
      var op, next := ops[0], Apply(a, ops[0]);
      InvStep(a, op);
      var head, rest := Output(a, op), Outputs(next, ops[1..]);
      if head == Some(v) {
        assert Outputs(a, ops)[0] == v;
      } else {
        if p :| CallOf(a, p) == Done(v) {
          assert CallOf(next, p) == Done(v);
        } else if op.Bump? && v == a.value + 1 {
          assert CallOf(next, op.p) == Done(v);
        }
        NoGaps(next, ops[1..], v);
        assert v in rest || exists p :: CallOf(Run(next, ops[1..]), p) == Done(v);
        assert v in rest ==> v in Outputs(a, ops);
        assert Run(a, ops) == Run(next, ops[1..]);
        assert v in Outputs(a, ops) || exists p :: CallOf(Run(a, ops), p) == Done(v);
      }
    } else {
      assert Run(a, ops) == a;
    }
  }

  /** An abandoned call that took effect leaves a value that is never returned. */
  lemma {:induction false} LostValue(a: Counter, ops: seq<Op>) returns (v: int)
    requires Inv(a) && Possible(a, ops) && !NoLoss(a, ops)
    ensures v !in Outputs(a, ops)
    ensures a.value < v <= Run(a, ops).value || exists p :: CallOf(a, p) == Done(v)
    decreases |ops|
  {
    var op, next := ops[0], Apply(a, ops[0]);
    InvStep(a, op);
    if op.Abandon? && CallOf(a, op.p).Done? {
      v := CallOf(a, op.p).v;
      assert Spent(next, v);
      SpentStays(next, ops[1..], v);
    } else {
      v := LostValue(next, ops[1..]);
      ValueMonotone(next, ops[1..]);
      LostEarlier(a, op, v, Run(next, ops[1..]).value);
    }
  }

  lemma LostEarlier(a: Counter, op: Op, v: int, end: int)
    requires Inv(a) && Enabled(a, op) && Apply(a, op).value <= end
    requires Apply(a, op).value < v <= end || exists p :: CallOf(Apply(a, op), p) == Done(v)
    ensures a.value < v <= end || exists p :: CallOf(a, p) == Done(v)
    ensures Output(a, op) != Some(v)
  {
    var next := Apply(a, op);
    if p :| CallOf(next, p) == Done(v) {
      if CallOf(a, p) != Done(v) { assert op == Bump(p); }
    }
  }

  /** Between quiet states every value the counter passes is returned exactly when no call is
      abandoned after it took effect. */
  lemma GaplessExactlyWhen(a: Counter, ops: seq<Op>)
    requires Quiet(a) && Possible(a, ops) && Quiet(Run(a, ops))
    ensures (forall v :: a.value < v <= Run(a, ops).value ==> v in Outputs(a, ops)) <==> NoLoss(a, ops)
  {
    if NoLoss(a, ops) {
      forall v | a.value < v <= Run(a, ops).value ensures v in Outputs(a, ops) { NoGaps(a, ops, v); }
    } else {
      var v := LostValue(a, ops);
    }
  }

  lemma {:induction false} OutputsInRange(a: Counter, ops: seq<Op>, low: int)
    requires Inv(a) && Possible(a, ops) && low <= a.value
    requires forall p :: CallOf(a, p).Done? ==> CallOf(a, p).v > low
    ensures forall v :: v in Outputs(a, ops) ==> low < v <= Run(a, ops).value
    decreases |ops|
  {
    if ops != [] {
      InvStep(a, ops[0]);
      OutputsInRange(Apply(a, ops[0]), ops[1..], low);
      ValueMonotone(Apply(a, ops[0]), ops[1..]);
    }
  }

  lemma HasElement(s: seq<int>)
    ensures s == [] || exists v :: v in s
  {
    if s != [] {
      var x := s[0];
      assert x in s;
    }
  }

  lemma {:induction false} DistinctRangeLength(s: seq<int>, low: int, n: nat)
    requires forall i, j :: 0 <= i < j < |s| ==> s[i] != s[j]
    requires forall v :: v in s <==> low < v <= low + n
    ensures |s| == n
    decreases n
  {
    if n == 0 {
      HasElement(s);
    } else {
      var top := low + n;
      assert top in s;
      var k :| 0 <= k < |s| && s[k] == top;
      var t := s[..k] + s[k + 1..];
      forall v ensures v in t <==> low < v <= low + n - 1 {
        if v in t { assert v in s; }
        if v in s && v != top {
          var i :| 0 <= i < |s| && s[i] == v;
          assert v == if i < k then t[i] else t[i - 1];
        }
      }
      DistinctRangeLength(t, low, n - 1);
    }
  }

  /** From a quiet counter to a quiet counter, without crashes: the n calls return exactly the
      n next values, each once. */
  lemma DenseOutputs(a: Counter, ops: seq<Op>)
    requires Quiet(a) && Possible(a, ops) && NoAbandon(ops) && Quiet(Run(a, ops))
    ensures var outs, n := Outputs(a, ops), Invocations(ops);
            && |outs| == n && Run(a, ops).value == a.value + n
            && (forall i, j :: 0 <= i < j < |outs| ==> outs[i] != outs[j])
            && (forall v :: v in outs <==> a.value < v <= a.value + n)
  {
    var outs, end := Outputs(a, ops), Run(a, ops);
    OutputsDistinct(a, ops);
    OutputsInRange(a, ops, a.value);
    ValueMonotone(a, ops);
    NoAbandonNoLoss(a, ops);
    forall v | a.value < v <= end.value ensures v in outs { NoGaps(a, ops, v); }
    DistinctRangeLength(outs, a.value, end.value - a.value);
    CallsAreConserved(a, ops);
    forall p ensures p !in Active(a) && p !in Active(end) {
      assert CallOf(a, p).Idle? && CallOf(end, p).Idle?;
    }
    assert Active(a) == {} && Active(end) == {};
  }
}
