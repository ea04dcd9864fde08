/**
 * Runs in which selections race: for every number of callers, one in which each of them dispatches a
 * trial to the same unhealthy backend within one cooldown, so the bound on racing trials is exact.
 */
module RacingTrials {
  import opened MachineInts
  import opened Upstream
  import opened HealthRaces
  import Sums

  // ----- building runs -----

  function Last(r: Trace): Backend
    requires r.states != []
  {
    r.states[|r.states| - 1]
  }

  function Performed(cfg: Config, r: Trace, a: Step): Trace
    requires r.states != [] && Enabled(Last(r), a)
  {
    Trace(r.states + [Apply(cfg, Last(r), a)], r.steps + [a])
  }

  lemma PerformedIsRun(cfg: Config, r: Trace, a: Step)
    requires IsRun(cfg, r) && Enabled(Last(r), a)
    ensures IsRun(cfg, Performed(cfg, r, a)) && Last(Performed(cfg, r, a)) == Apply(cfg, Last(r), a)
  {
    var more := Performed(cfg, r, a);
    forall k, l | 0 <= k < |more.steps| && l == k + 1
      ensures IsStep(cfg, more.states[k], more.steps[k], more.states[l])
    {
      assert k < |r.steps| ==> IsStep(cfg, r.states[k], r.steps[k], r.states[l]);
    }
  }

  /** The newest caller performs its next operation. */
  lemma NewestActs(cfg: Config, r: Trace, others: seq<Caller>, c: Caller) returns (more: Trace)
    requires IsRun(cfg, r) && Last(r).callers == others + [c] && !c.Done?
    ensures IsRun(cfg, more)
    ensures var b := Last(r);
            Last(more) == Backend(Effect(cfg, b.health, b.clock, c), b.clock,
                                  others + [Advance(cfg, b.health, b.clock, c, true)])
  {
    var a := Act(|others|, true);
    PerformedIsRun(cfg, r, a);
    more := Performed(cfg, r, a);
  }

  lemma NewArrives(cfg: Config, r: Trace, c: Caller) returns (more: Trace)
    requires IsRun(cfg, r) && Enabled(Last(r), Arrive(c))
    ensures IsRun(cfg, more) && Last(more) == Last(r).(callers := Last(r).callers + [c])
  {
    PerformedIsRun(cfg, r, Arrive(c));
    more := Performed(cfg, r, Arrive(c));
  }

  // ----- an ejected backend -----

  /** Nobody holds an answer that the backend is eligible. */
  predicate NobodyHolds(callers: seq<Caller>)
  {
    forall i :: 0 <= i < |callers| ==> !PastEligibility(callers[i])
  }

  /** A failure report that stays below the threshold. */
  lemma FailureCounted(cfg: Config, r: Trace, f: uint32) returns (more: Trace)
    requires IsRun(cfg, r) && f + 1 < cfg.unhealthyAt
    requires Last(r).health == Health(f, 0, true, 0) && Last(r).clock == 0 && NobodyHolds(Last(r).callers)
    ensures IsRun(cfg, more)
    ensures Last(more).health == Health(f + 1, 0, true, 0) && Last(more).clock == 0 && NobodyHolds(Last(more).callers)
  {
    var others := Last(r).callers;
    more := NewArrives(cfg, r, ClearSuccesses);
    more := NewestActs(cfg, more, others, ClearSuccesses);
    more := NewestActs(cfg, more, others, CountFailure);
  }

  lemma {:induction false} FailuresCounted(cfg: Config, f: uint32) returns (r: Trace)
    requires f < cfg.unhealthyAt
    ensures IsRun(cfg, r)
    ensures Last(r).health == Health(f, 0, true, 0) && Last(r).clock == 0 && NobodyHolds(Last(r).callers)
    decreases f
  {
    if f == 0 {
      r := Trace([Backend(FRESH, 0, [])], []);
    } else {
      r := FailuresCounted(cfg, f - 1);
      r := FailureCounted(cfg, r, f - 1);
    }
  }

  /** Enough failures at time 0 eject the backend, and its cooldown passes. */
  lemma EjectedAndReady(cfg: Config) returns (r: Trace)
    requires cfg.unhealthyAt >= 1
    ensures IsRun(cfg, r) && NobodyHolds(Last(r).callers)
    ensures !Last(r).health.healthy && Last(r).health.until == Last(r).clock == cfg.cooldown
  {
    r := FailuresCounted(cfg, cfg.unhealthyAt - 1);
    var others := Last(r).callers;
    r := NewArrives(cfg, r, ClearSuccesses);
    r := NewestActs(cfg, r, others, ClearSuccesses);
    r := NewestActs(cfg, r, others, CountFailure);
    r := NewestActs(cfg, r, others, SwapHealthy);
    r := NewestActs(cfg, r, others, ArmEjection);
    PerformedIsRun(cfg, r, Tick(cfg.cooldown));
    r := Performed(cfg, r, Tick(cfg.cooldown));
  }

  // ----- callers that race -----

  /** The first `base` callers hold nothing; `m` more are about to dispatch a trial. */
  predicate Gathered(callers: seq<Caller>, base: nat, m: nat)
  {
    && |callers| == base + m && NobodyHolds(callers[..base])
    && forall i :: base <= i < |callers| ==> callers[i] == ArmTrial
  }

  /** One more caller reads the backend as eligible, wins, and finds it unhealthy. */
  lemma OneMoreGathers(cfg: Config, r: Trace, base: nat, m: nat) returns (more: Trace)
    requires IsRun(cfg, r) && Gathered(Last(r).callers, base, m)
    requires !Last(r).health.healthy && Last(r).health.until == Last(r).clock
    ensures IsRun(cfg, more) && Gathered(Last(more).callers, base, m + 1)
    ensures Last(more).health == Last(r).health && Last(more).clock == Last(r).clock
  {
    var others := Last(r).callers;
    more := NewArrives(cfg, r, LoadHealthy);
    more := NewestActs(cfg, more, others, LoadHealthy);
    more := NewestActs(cfg, more, others, ReloadHealthy);
    more := NewestActs(cfg, more, others, ReadClock);
    more := NewestActs(cfg, more, others, LoadUntil(Last(r).clock));
    more := NewestActs(cfg, more, others, AwaitChoice);
    more := NewestActs(cfg, more, others, CheckWinner);
    assert Last(more).callers[..base] == others[..base];
  }

  lemma {:induction false} AllGather(cfg: Config, m: nat) returns (r: Trace, base: nat)
    requires cfg.unhealthyAt >= 1
    ensures IsRun(cfg, r) && Gathered(Last(r).callers, base, m)
    ensures !Last(r).health.healthy && Last(r).health.until == Last(r).clock == cfg.cooldown
  {
    if m == 0 {
      r := EjectedAndReady(cfg);
      base := |Last(r).callers|;
      assert Last(r).callers[..base] == Last(r).callers;
    } else {
      r, base := AllGather(cfg, m - 1);
      r := OneMoreGathers(cfg, r, base, m - 1);
    }
  }

  /** From step `p` on, `k` of the gathered callers dispatch one after another, and time stands still. */
  ghost predicate Dispatching(cfg: Config, r: Trace, p: nat, base: nat, m: nat, k: nat)
  {
    && IsRun(cfg, r) && |r.steps| == p + k && k <= m && Gathered(r.states[p].callers, base, m)
    && (forall l :: p <= l <= p + k ==> r.states[l].clock == cfg.cooldown && !r.states[l].health.healthy)
    && (forall l :: p <= l < p + k ==> Does(r.states[l], r.steps[l], ArmTrial))
    && |Last(r).callers| == base + m && forall i :: base + k <= i < base + m ==> Last(r).callers[i] == ArmTrial
  }

  lemma NextDispatches(cfg: Config, r: Trace, p: nat, base: nat, m: nat, k: nat) returns (more: Trace)
    requires Dispatching(cfg, r, p, base, m, k) && k < m
    ensures Dispatching(cfg, more, p, base, m, k + 1)
  {
    var a := Act(base + k, true);
    PerformedIsRun(cfg, r, a);
    more := Performed(cfg, r, a);
    assert more.states[p + k] == Last(r) && more.states[p + k + 1] == Last(more);
    assert forall l :: 0 <= l <= p + k ==> more.states[l] == r.states[l];
    assert forall l :: 0 <= l < p + k ==> more.steps[l] == r.steps[l];
  }

  lemma {:induction false} AllDispatch(cfg: Config, m: nat, k: nat) returns (r: Trace, p: nat, base: nat)
    requires cfg.unhealthyAt >= 1 && k <= m
    ensures Dispatching(cfg, r, p, base, m, k)
  {
    if k == 0 {
      r, base := AllGather(cfg, m);
      p := |r.steps|;
    } else {
      r, p, base := AllDispatch(cfg, m, k - 1);
      r := NextDispatches(cfg, r, p, base, m, k - 1);
    }
  }

  // ----- the bound is attained -----

  lemma {:induction false} DispatchedTrials(r: Trace, p: nat, q: nat)
    requires p < q <= |r.steps| && |r.states| == |r.steps| + 1
    requires forall l :: p <= l < q ==> Does(r.states[l], r.steps[l], ArmTrial)
    ensures Trials(r, p, q) == q - p - 1
    decreases q
  {
    if q == p + 1 {
    } else {
      DispatchedTrials(r, p, q - 1);
    }
  }

  lemma {:induction false} RangeSize(base: nat, m: nat, s: set<int>)
    requires forall i :: i in s <==> base <= i < base + m
    ensures |s| == m
  {
    if m == 0 {
      assert forall i :: i !in s;
      assert s == {};
    } else {
      var last := base + m - 1;
      assert last in s;
      RangeSize(base, m - 1, s - {last});
    }
  }

  /**
   * For every `m` there is a run in which `m` selections hold their answer when the cooldown is armed and
   * all `m` dispatch a trial within that cooldown: with two or more, the promise of one trial per window fails.
   */
  lemma RacingTrialsAttainBound(cfg: Config, m: nat) returns (r: Trace, p: nat, q: nat)
    requires cfg.unhealthyAt >= 1 && 1 <= cfg.cooldown < U64_MAX && m >= 1
    ensures IsRun(cfg, r) && p < q <= |r.steps|
    ensures Does(r.states[p], r.steps[p], ArmTrial) && !r.states[p + 1].health.healthy && NoPromotionBetween(r, p, q)
    ensures forall k :: p < k < q ==> r.states[k].clock < SaturatingAddU64(r.states[p].clock, cfg.cooldown)
    ensures Trials(r, p, q) + 1 == m == |HoldingAnswer(r.states[p])|
  {
    var base: nat;
    r, p, base := AllDispatch(cfg, m, m);
    q := p + m;
    DispatchedTrials(r, p, q);
    var callers := r.states[p].callers;
    forall i | 0 <= i < base
      ensures !PastEligibility(callers[i])
    {
      assert callers[..base][i] == callers[i];
    }
    RangeSize(base, m, HoldingAnswer(r.states[p]));
  }
}
