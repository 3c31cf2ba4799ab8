/** Relevance decay and tier labels (samia/core/tier.py): the rounded dynamics of one node. */
module TierDecay {

  const NEUTRAL := 0.5
  const WARM_FRESHNESS_DAYS := 7
  const SALIENCE_DECAY_DAMPING := 0.9
  const STC_DECAY_DAMPING := 0.5
  const DAMP_CAP := 0.95
  const FROZEN := "frozen"

  /** An unknown grade decays at the rate of "natural". */
  function Rate(grade: string): real {
    if grade == "enriched" then 0.001
    else if grade == "fertile" then 0.01
    else if grade == "depleted" then 0.1
    else if grade == "waste" then 0.2
    else 0.05
  }

  function Clamped(x: real): real {
    if x < 0.0 then 0.0 else if x > 1.0 then 1.0 else x
  }

  /** Salience and capture add up, then the sum is capped. */
  function Damping(salience: real, capture: real): real {
    var d := SALIENCE_DECAY_DAMPING * Clamped(salience) + STC_DECAY_DAMPING * Clamped(capture);
    if d > DAMP_CAP then DAMP_CAP else d
  }

  function EffectiveRate(grade: string, salience: real, capture: real): real {
    Rate(grade) * (1.0 - Damping(salience, capture))
  }

  function StepRelevance(before: real, touched: bool, days: int, grade: string, salience: real, capture: real): real {
    if touched then before
    else
      var target := if days <= WARM_FRESHNESS_DAYS then NEUTRAL else 0.0;
      Pull(before, target, EffectiveRate(grade, salience, capture))
  }

  function Pull(before: real, target: real, rate: real): real {
    before + (target - before) * rate
  }

  function TierFor(relevance: real): string {
    if relevance >= 0.75 then "hot"
    else if relevance >= 0.5 then "warm"
    else if relevance >= 0.25 then "cold"
    else FROZEN
  }

  /** Rounding to four decimals, counted in units of 0.0001: some nearest grid point. */
  type Rounding = real -> int

  ghost predicate Nearest(round: Rounding) {
    forall x: real :: -0.5 <= round(x) as real - 10000.0 * x <= 0.5
  }

  function Grid(units: int): real {
    units as real / 10000.0
  }

  /** The two fields a tick may rewrite. */
  datatype Stored = Stored(relevance: real, tier: string)

  function Magnitude(x: real): real {
    if x < 0.0 then -x else x
  }

  predicate Changes(s: Stored, next: real) {
    TierFor(next) != s.tier || Magnitude(next - s.relevance) > 0.0001
  }

  /** What a pass writes back: the label of the unrounded value beside the rounded value. */
  function Written(s: Stored, next: real, round: Rounding): Stored {
    if Changes(s, next) then Stored(Grid(round(next)), TierFor(next)) else s
  }

  /** A tick of a stale node at effective rate `rate`. */
  function Tick(s: Stored, rate: real, round: Rounding): Stored {
    Written(s, Sunk(s.relevance, rate), round)
  }

  function Sunk(relevance: real, rate: real): real {
    relevance - relevance * rate
  }

  // ---- one tick ---------------------------------------------------------------------

  /** However salient and captured, a node keeps decaying at a twentieth of its grade's rate
      at least; every grade but enriched keeps at least 0.0005. */
  lemma RateBounds(grade: string, salience: real, capture: real)
    ensures 0.0 < Rate(grade) / 20.0 <= EffectiveRate(grade, salience, capture) <= Rate(grade) <= 0.2
    ensures grade != "enriched" ==> EffectiveRate(grade, salience, capture) >= 0.0005
    ensures EffectiveRate(grade, 0.0, 0.0) == Rate(grade)
  {
    var d := Damping(salience, capture);
    assert 0.0 <= d <= 0.95;
    Scaled(Rate(grade), d);
  }

  lemma Scaled(rate: real, d: real)
    requires 0.0 < rate && 0.0 <= d <= 0.95
    ensures rate / 20.0 <= rate * (1.0 - d) <= rate
  {
    var kept := 1.0 - d;
    assert rate * kept >= rate * 0.05 by { assert rate * (kept - 0.05) >= 0.0; }
    assert rate * kept <= rate by { assert rate * (1.0 - kept) >= 0.0; }
  }

  /** A more salient or more strongly captured node decays no faster, and at equal salience and
      capture the grades decay in their order. */
  lemma RateOrder(grade: string, s: real, s': real, c: real, c': real)
    requires s <= s' && c <= c'
    ensures EffectiveRate(grade, s', c') <= EffectiveRate(grade, s, c)
    ensures EffectiveRate("enriched", s, c) < EffectiveRate("fertile", s, c) < EffectiveRate("natural", s, c)
    ensures EffectiveRate("natural", s, c) < EffectiveRate("depleted", s, c) < EffectiveRate("waste", s, c)
  {
    var kept, kept' := 1.0 - Damping(s, c), 1.0 - Damping(s', c');
    assert 0.05 <= kept' <= kept;
    Smaller(Rate(grade), kept', kept);
    GradeSteps(kept);
  }

  lemma Smaller(rate: real, x: real, y: real)
    requires 0.0 < rate && x <= y
    ensures rate * x <= rate * y
  {
    assert rate * (y - x) >= 0.0;
  }

  lemma GradeSteps(kept: real)
    requires kept >= 0.05
    ensures Rate("enriched") * kept < Rate("fertile") * kept < Rate("natural") * kept
    ensures Rate("natural") * kept < Rate("depleted") * kept < Rate("waste") * kept
  {
  }

  lemma StaleStep(before: real, days: int, grade: string, salience: real, capture: real)
    requires days > WARM_FRESHNESS_DAYS
    ensures StepRelevance(before, false, days, grade, salience, capture)
         == Sunk(before, EffectiveRate(grade, salience, capture))
  {
  }

  /** The amount, in grid units, a tick takes from a stored relevance of `n` units. */
  function Loss(n: nat, rate: real): real {
    n as real * rate
  }

  lemma LossBounds(n: nat, rate: real)
    requires 0.0 < rate <= 0.2
    ensures 0.0 <= Loss(n, rate) <= n as real
    ensures n > 0 ==> Loss(n, rate) > 0.0
  {
    if n > 0 {
      assert n as real * (0.2 - rate) >= 0.0;
      assert n as real * rate > 0.0;
    }
  }

  lemma SunkUnits(n: nat, rate: real, round: Rounding)
    requires Nearest(round)
    ensures var next := Sunk(Grid(n), rate);
      && 10000.0 * next == n as real - Loss(n, rate)
      && n as real - Loss(n, rate) - 0.5 <= round(next) as real <= n as real - Loss(n, rate) + 0.5
  {
    var next := Sunk(Grid(n), rate);
    assert Grid(n) * rate == Loss(n, rate) / 10000.0;
    assert -0.5 <= round(next) as real - 10000.0 * next <= 0.5;
  }

  /** The label a tick gives to a node of `n` units whose loss is at most one unit: that of
      the open interval below `n`. */
  function LabelBelow(n: nat): string {
    if n > 7500 then "hot" else if n > 5000 then "warm" else if n > 2500 then "cold" else FROZEN
  }

  /** What a stale tick does on the grid: it never raises the stored relevance, takes at least
      one unit while the loss exceeds one, and otherwise only settles the label. */
  lemma TickOnGrid(s: Stored, n: nat, rate: real, round: Rounding) returns (m: nat)
    requires Nearest(round) && 0.0 < rate <= 0.2
    requires s.relevance == Grid(n)
    ensures m <= n && Tick(s, rate, round).relevance == Grid(m)
    ensures Loss(n, rate) > 1.0 ==> m <= n - 1 && Changes(s, Sunk(s.relevance, rate))
    ensures Loss(n, rate) <= 1.0 ==> m >= n - 1 && Tick(s, rate, round).tier == LabelBelow(n)
    ensures Loss(n, rate) <= 1.0 ==> (Changes(s, Sunk(s.relevance, rate)) <==> s.tier != LabelBelow(n))
    ensures Tick(s, rate, round).tier == TierFor(Sunk(s.relevance, rate))
  {
    var next := Sunk(s.relevance, rate);
    LossBounds(n, rate);
    SunkUnits(n, rate, round);
    assert Loss(n, rate) <= 1.0 ==> TierFor(next) == LabelBelow(n);
    if Changes(s, next) {
      m := round(next);
    } else {
      m := n;
    }
  }

  // ---- runs of ticks ----------------------------------------------------------------

  /** The stored fields after a run of stale ticks, one effective rate per tick. */
  function Run(s: Stored, rates: seq<real>, round: Rounding): Stored
    decreases rates
  {
    if rates == [] then s else Run(Tick(s, rates[0], round), rates[1..], round)
  }

  /** How many ticks of the run rewrote the node. */
  function Rewrites(s: Stored, rates: seq<real>, round: Rounding): nat
    decreases rates
  {
    if rates == [] then 0
    else
      (if Changes(s, Sunk(s.relevance, rates[0])) then 1 else 0)
      + Rewrites(Tick(s, rates[0], round), rates[1..], round)
  }

  predicate Rates(rates: seq<real>, least: real) {
    forall i :: 0 <= i < |rates| ==> least <= rates[i] <= 0.2
  }

  function Unsettled(s: Stored, n: nat): nat {
    2 * n + if s.tier == LabelBelow(n) then 0 else 1
  }

  lemma TickSettles(s: Stored, n: nat, rate: real, round: Rounding) returns (m: nat)
    requires Nearest(round) && 0.0 < rate <= 0.2 && s.relevance == Grid(n)
    ensures Tick(s, rate, round).relevance == Grid(m)
    ensures Changes(s, Sunk(s.relevance, rate)) ==> Unsettled(Tick(s, rate, round), m) < Unsettled(s, n)
    ensures !Changes(s, Sunk(s.relevance, rate)) ==> Tick(s, rate, round) == s && m == n
  {
    m := TickOnGrid(s, n, rate, round);
  }

  /** Whatever the rates, a stale node is rewritten finitely often: at most twice per unit. */
  lemma {:induction false} RewritesAreFinite(s: Stored, n: nat, rates: seq<real>, least: real, round: Rounding)
    requires Nearest(round) && s.relevance == Grid(n)
    requires 0.0 < least && Rates(rates, least)
    ensures Rewrites(s, rates, round) <= Unsettled(s, n)
    decreases rates
  {
    if rates != [] {
      var m := TickSettles(s, n, rates[0], round);
      RewritesAreFinite(Tick(s, rates[0], round), m, rates[1..], least, round);
    }
  }

  lemma LossGrows(n: nat, m: nat, rate: real)
    requires m <= n && 0.0 <= rate
    ensures Loss(m, rate) <= Loss(n, rate)
  {
    assert (n - m) as real * rate >= 0.0;
  }

  /** The effective rate at which a node just above the cold threshold still loses more than
      the resolution of the stored value. */
  predicate Sinking(rate: real) {
    2501.0 * rate > 1.0
  }

  /** One stale tick at such a rate freezes a node of at most 2500 units, and takes a unit from
      any larger one. */
  lemma TickTowardFrozen(s: Stored, n: nat, rate: real, round: Rounding) returns (m: nat)
    requires Nearest(round) && 0.0 < rate <= 0.2 && Sinking(rate) && s.relevance == Grid(n)
    ensures Tick(s, rate, round).relevance == Grid(m) && m <= n
    ensures n <= 2500 ==> Tick(s, rate, round).tier == FROZEN
    ensures n > 2500 ==> m < n
  {
    m := TickOnGrid(s, n, rate, round);
    LossBounds(n, rate);
    SunkUnits(n, rate, round);
    if n > 2500 { LossGrows(n, 2501, rate); }
  }

  /** At 0.0005 or more per tick, a stale node carries the label "frozen" after as many ticks
      as it has units above 2499. */
  lemma {:induction false} ReachesFrozen(s: Stored, n: nat, rates: seq<real>, round: Rounding)
    requires Nearest(round) && s.relevance == Grid(n)
    requires Rates(rates, 0.0005)
    requires |rates| >= 1 && |rates| >= n - 2499
    ensures Run(s, rates, round).tier == FROZEN
    decreases rates
  {
    assert Sinking(rates[0]);
    var m := TickTowardFrozen(s, n, rates[0], round);
    var t := Tick(s, rates[0], round);
    if |rates| == 1 {
      assert Run(t, rates[1..], round) == t;
    } else {
      ReachesFrozen(t, m, rates[1..], round);
    }
  }

  /** Every grade but enriched sinks to "frozen", whatever its salience and captures. */
  lemma {:induction false} EveryOrdinaryGradeFreezes(s: Stored, n: nat, grade: string, salience: real, captures: seq<real>, round: Rounding)
    requires Nearest(round) && s.relevance == Grid(n)
    requires grade != "enriched"
    requires |captures| >= 1 && |captures| >= n - 2499
    ensures Run(s, seq(|captures|, i requires 0 <= i < |captures| => EffectiveRate(grade, salience, captures[i])), round).tier == FROZEN
  {
    var rates := seq(|captures|, i requires 0 <= i < |captures| => EffectiveRate(grade, salience, captures[i]));
    forall i | 0 <= i < |rates| ensures 0.0005 <= rates[i] <= 0.2 {
      RateBounds(grade, salience, captures[i]);
    }
    ReachesFrozen(s, n, rates, round);
  }

  // ---- the exact condition ------------------------------------------------------------

  /** The stored fields after `t` stale ticks at one effective rate. */
  function Steady(s: Stored, rate: real, t: nat, round: Rounding): Stored
    decreases t
  {
    if t == 0 then s else Steady(Tick(s, rate, round), rate, t - 1, round)
  }

  lemma {:induction false} SinkingFreezes(s: Stored, n: nat, rate: real, t: nat, round: Rounding)
    requires Nearest(round) && 0.0 < rate <= 0.2 && s.relevance == Grid(n)
    requires Sinking(rate)
    requires t >= 1 && t >= n - 2499
    ensures Steady(s, rate, t, round).tier == FROZEN
    decreases t
  {
    var m := TickTowardFrozen(s, n, rate, round);
    var next := Tick(s, rate, round);
    if t == 1 {
      assert Steady(next, rate, 0, round) == next;
    } else {
      SinkingFreezes(next, m, rate, t - 1, round);
    }
  }

  /** Above the cold threshold and not labelled frozen. */
  predicate Resting(s: Stored, n: nat) {
    s.relevance == Grid(n) && n >= 2501 && s.tier != FROZEN && (n == 2501 ==> s.tier == "cold")
  }

  lemma RestingStays(s: Stored, n: nat, rate: real, round: Rounding) returns (m: nat)
    requires Nearest(round) && 0.0 < rate <= 0.2 && !Sinking(rate)
    requires Resting(s, n)
    ensures Resting(Tick(s, rate, round), m)
  {
    m := TickOnGrid(s, n, rate, round);
    SunkUnits(n, rate, round);
    if n >= 2502 {
      StaysAbove(n, rate);
    }
  }

  lemma StaysAbove(n: nat, rate: real)
    requires n >= 2502 && 0.0 < rate && !Sinking(rate)
    ensures n as real - Loss(n, rate) > 2500.9
  {
    var kept := 1.0 - rate;
    assert n as real - Loss(n, rate) == n as real * kept;
    assert n as real * kept >= 2502.0 * kept by { assert (n - 2502) as real * kept >= 0.0; }
    assert rate <= 1.0 / 2501.0;
  }

  lemma {:induction false} NeverFreezes(s: Stored, n: nat, rate: real, t: nat, round: Rounding)
    requires Nearest(round) && 0.0 < rate <= 0.2 && !Sinking(rate)
    requires Resting(s, n)
    ensures Steady(s, rate, t, round).tier != FROZEN
    decreases t
  {
    if t > 0 {
      var m := RestingStays(s, n, rate, round);
      NeverFreezes(Tick(s, rate, round), m, rate, t - 1, round);
    }
  }

  /** A node stored above the cold threshold under its own label ever becomes frozen exactly
      when its effective rate exceeds 1/2501: only an enriched node can stop short. */
  lemma FreezesExactlyWhen(s: Stored, n: nat, grade: string, salience: real, capture: real, round: Rounding)
    requires Nearest(round)
    requires s == Stored(Grid(n), TierFor(Grid(n))) && n > 2500
    ensures (exists t: nat :: Steady(s, EffectiveRate(grade, salience, capture), t, round).tier == FROZEN)
       <==> Sinking(EffectiveRate(grade, salience, capture))
    ensures grade != "enriched" ==> Sinking(EffectiveRate(grade, salience, capture))
  {
    var rate := EffectiveRate(grade, salience, capture);
    RateBounds(grade, salience, capture);
    if Sinking(rate) {
      SinkingFreezes(s, n, rate, n, round);
    } else {
      forall t: nat ensures Steady(s, rate, t, round).tier != FROZEN { NeverFreezes(s, n, rate, t, round); }
    }
  }

  /** The documentation promises that salience never stops decay, but an enriched node of full
      salience rests in "cold" for ever. */
  lemma {:induction false} EnrichedCanRest(t: nat, round: Rounding)
    requires Nearest(round)
    ensures Steady(Stored(Grid(3000), "cold"), EffectiveRate("enriched", 1.0, 0.0), t, round).tier != FROZEN
  {
    NeverFreezes(Stored(Grid(3000), "cold"), 3000, EffectiveRate("enriched", 1.0, 0.0), t, round);
  }

  /** The label may lag the stored value: exactly when rounding lifts the value onto a
      threshold it had not reached. */
  lemma LabelLagsExactlyWhen(next: real, round: Rounding)
    requires Nearest(round) && 0.0 <= next
    ensures TierFor(next) != TierFor(Grid(round(next)))
       <==> next < Grid(round(next)) && round(next) in {2500, 5000, 7500}
  {
    var u := round(next);
    assert -0.5 <= u as real - 10000.0 * next <= 0.5;
  }

  /** A fresh node is pulled toward the neutral relevance and never past it. */
  lemma FreshTowardNeutral(before: real, days: int, grade: string, salience: real, capture: real)
    requires days <= WARM_FRESHNESS_DAYS
    ensures var next := StepRelevance(before, false, days, grade, salience, capture);
      && Magnitude(next - NEUTRAL) <= Magnitude(before - NEUTRAL)
      && (before >= NEUTRAL <==> next >= NEUTRAL)
  {
    RateBounds(grade, salience, capture);
    Pulled(before, EffectiveRate(grade, salience, capture));
  }

  lemma Pulled(before: real, rate: real)
    requires 0.0 < rate <= 0.2
    ensures var next := Pull(before, NEUTRAL, rate);
      && Magnitude(next - NEUTRAL) <= Magnitude(before - NEUTRAL)
      && (before >= NEUTRAL <==> next >= NEUTRAL)
  {
    var step := PullBounds(NEUTRAL - before, rate);
    assert Pull(before, NEUTRAL, rate) == before + step;
  }

  lemma PullBounds(gap: real, rate: real) returns (step: real)
    requires 0.0 < rate <= 0.2
    ensures step == gap * rate
    ensures gap > 0.0 ==> 0.0 <= step < gap
    ensures gap <= 0.0 ==> gap <= step <= 0.0
  {
    step := gap * rate;
    var kept := 1.0 - rate;
    assert step + gap * kept == gap;
    if gap > 0.0 {
      ProductPositive(gap, rate);
      ProductPositive(gap, kept);
    } else if gap < 0.0 {
      ProductPositive(-gap, rate);
      ProductPositive(-gap, kept);
    }
  }

  lemma ProductPositive(x: real, y: real)
    requires x > 0.0 && y > 0.0
    ensures x * y > 0.0
  {
  }
}
