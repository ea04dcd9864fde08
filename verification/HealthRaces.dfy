/**
 * One backend under concurrent selections and outcome reports, split at every atomic operation.
 * Only arming the cooldown (a clock reading and a store) is one step.
 */
module HealthRaces {
  import opened MachineInts
  import opened Upstream
  import Balancer
  import Sums

  /** Where a caller stands: the next atomic operation it will perform. */
  datatype Caller =
    // a selection, as far as it concerns this backend
    | LoadHealthy            // is_eligible: first look at the flag
    | ReloadHealthy          // trial_ready: second look at the flag
    | ReadClock              // trial_ready: the clock
    | LoadUntil(now: uint64) // trial_ready: the end of the cooldown
    | AwaitChoice            // eligible; the rest of the scan decides whether this backend wins
    | CheckWinner            // won: look at the flag once more
    | ArmTrial               // won while unhealthy: re-arm, then dispatch the trial
    // record_failure
    | ClearSuccesses
    | CountFailure
    | SwapHealthy
    | ArmEjection            // this caller will report the ejection
    // record_success
    | ClearFailures
    | LookHealthy
    | ForgetSuccesses
    | CountSuccess
    | ResetSuccesses
    | ClearCooldown
    | StoreHealthy           // this caller will report the promotion
    | Done

  datatype Backend = Backend(health: Health, clock: uint64, callers: seq<Caller>)

  datatype Config = Config(cooldown: uint64, unhealthyAt: uint32, healthyAt: uint32)

  /** A caller arrives, time passes, or a caller performs its next operation (`chosen`: the scan's verdict). */
  datatype Step =
    | Arrive(caller: Caller)
    | Tick(now: uint64)
    | Act(id: nat, chosen: bool)

  predicate Enabled(b: Backend, a: Step)
  {
    match a
    case Arrive(caller) => caller.LoadHealthy? || caller.ClearSuccesses? || caller.ClearFailures?
    case Tick(now) => now >= b.clock
    case Act(id, _) => id < |b.callers| && !b.callers[id].Done?
  }

  /** The shared fields after caller `c` performs its operation. */
  function Effect(cfg: Config, h: Health, clock: uint64, c: Caller): Health
  {
    match c
    case ArmTrial => h.Armed(clock, cfg.cooldown)
    case ArmEjection => h.Armed(clock, cfg.cooldown)
    case ClearSuccesses => h.(successes := 0)
    case CountFailure => h.(failures := WrappingIncrement(h.failures))
    case SwapHealthy => h.(healthy := false)
    case ClearFailures => h.(failures := 0)
    case ForgetSuccesses => h.(successes := 0)
    case CountSuccess => h.(successes := WrappingIncrement(h.successes))
    case ResetSuccesses => h.(successes := 0)
    case ClearCooldown => h.(until := 0)
    case StoreHealthy => h.(healthy := true)
    case _ => h
  }

  /** Where caller `c` stands after its operation found the shared fields as `h`. */
  function Advance(cfg: Config, h: Health, clock: uint64, c: Caller, chosen: bool): Caller
  {
    match c
    case LoadHealthy => if h.healthy then AwaitChoice else ReloadHealthy
    case ReloadHealthy => if h.healthy then Done else ReadClock
    case ReadClock => LoadUntil(clock)
    case LoadUntil(now) => if now >= h.until then AwaitChoice else Done
    case AwaitChoice => if chosen then CheckWinner else Done
    case CheckWinner => if h.healthy then Done else ArmTrial
    case ArmTrial => Done
    case ClearSuccesses => CountFailure
    case CountFailure => if SaturatingIncrement(h.failures) >= cfg.unhealthyAt then SwapHealthy else Done
    case SwapHealthy => if h.healthy then ArmEjection else Done
    case ArmEjection => Done
    case ClearFailures => LookHealthy
    case LookHealthy => if h.healthy then ForgetSuccesses else CountSuccess
    case ForgetSuccesses => Done
    case CountSuccess => if SaturatingIncrement(h.successes) >= cfg.healthyAt then ResetSuccesses else Done
    case ResetSuccesses => ClearCooldown
    case ClearCooldown => StoreHealthy
    case StoreHealthy => Done
    case Done => Done
  }

  function Apply(cfg: Config, b: Backend, a: Step): Backend
    requires Enabled(b, a)
  {
    match a
    case Arrive(caller) => b.(callers := b.callers + [caller])
    case Tick(now) => b.(clock := now)
    case Act(id, chosen) =>
      var c := b.callers[id];
      b.(health := Effect(cfg, b.health, b.clock, c),
         callers := b.callers[id := Advance(cfg, b.health, b.clock, c, chosen)])
  }

  datatype Trace = Trace(states: seq<Backend>, steps: seq<Step>)

  predicate IsStep(cfg: Config, b: Backend, a: Step, t: Backend)
  {
    Enabled(b, a) && t == Apply(cfg, b, a)
  }

  ghost predicate IsRun(cfg: Config, r: Trace)
  {
    && |r.states| == |r.steps| + 1
    && r.states[0] == Backend(FRESH, 0, [])
    && forall k, l :: 0 <= k < |r.steps| && l == k + 1 ==> IsStep(cfg, r.states[k], r.steps[k], r.states[l])
  }

  /** In state `b`, step `a` is caller `id` performing operation `c`. */
  predicate Performs(b: Backend, a: Step, id: nat, c: Caller)
  {
    a.Act? && a.id == id && id < |b.callers| && b.callers[id] == c
  }

  /** In state `b`, step `a` is some caller performing operation `c`. */
  predicate Does(b: Backend, a: Step, c: Caller)
  {
    a.Act? && a.id < |b.callers| && b.callers[a.id] == c
  }

  // ----- ejection reports -----

  /** Step `a` is the `swap` that takes the backend from healthy to unhealthy: its caller returns true. */
  predicate Ejection(b: Backend, a: Step)
  {
    Does(b, a, SwapHealthy) && b.health.healthy
  }

  predicate Promotion(b: Backend, a: Step)
  {
    Does(b, a, StoreHealthy)
  }

  ghost function Ejections(r: Trace, k: nat): nat
    requires k <= |r.steps| && |r.states| == |r.steps| + 1
  {
    if k == 0 then 0 else Ejections(r, k - 1) + if Ejection(r.states[k - 1], r.steps[k - 1]) then 1 else 0
  }

  ghost function Promotions(r: Trace, k: nat): nat
    requires k <= |r.steps| && |r.states| == |r.steps| + 1
  {
    if k == 0 then 0 else Promotions(r, k - 1) + if Promotion(r.states[k - 1], r.steps[k - 1]) then 1 else 0
  }

  /** However many failing callers race, reported ejections never exceed promotions written by more than one. */
  lemma {:induction false} EjectionsCounted(cfg: Config, r: Trace, k: nat)
    requires IsRun(cfg, r) && k <= |r.steps|
    ensures Ejections(r, k) + (if r.states[k].health.healthy then 1 else 0) <= 1 + Promotions(r, k)
  {
    if k == 0 {
    } else {
      EjectionsCounted(cfg, r, k - 1);
      assert IsStep(cfg, r.states[k - 1], r.steps[k - 1], r.states[k]);
    }
  }

  lemma {:induction false} UnhealthyUntilPromoted(cfg: Config, r: Trace, p: nat, q: nat)
    requires IsRun(cfg, r) && p < q <= |r.steps| && Ejection(r.states[p], r.steps[p])
    requires forall k :: p < k < q ==> !Promotion(r.states[k], r.steps[k])
    ensures !r.states[q].health.healthy
    decreases q
  {
    assert IsStep(cfg, r.states[q - 1], r.steps[q - 1], r.states[q]);
    if q == p + 1 {
    } else {
      UnhealthyUntilPromoted(cfg, r, p, q - 1);
    }
  }

  /** Two reported ejections always have a promotion written between them. */
  lemma EjectionsSeparated(cfg: Config, r: Trace, p: nat, q: nat)
    requires IsRun(cfg, r) && p < q < |r.steps|
    requires Ejection(r.states[p], r.steps[p]) && Ejection(r.states[q], r.steps[q])
    ensures exists k :: p < k < q && Promotion(r.states[k], r.steps[k])
  {
    if forall k :: p < k < q ==> !Promotion(r.states[k], r.steps[k]) {
      UnhealthyUntilPromoted(cfg, r, p, q);
    }
  }

  // ----- every ejection is earned -----

  /** The failures counted in the first `k` steps since the failure counter was last cleared. */
  ghost function FailuresSinceCleared(r: Trace, k: nat): nat
    requires k <= |r.steps| && |r.states| == |r.steps| + 1
  {
    if k == 0 || Does(r.states[k - 1], r.steps[k - 1], ClearFailures) then 0
    else FailuresSinceCleared(r, k - 1) + if Does(r.states[k - 1], r.steps[k - 1], CountFailure) then 1 else 0
  }

  lemma FailureCounterStep(cfg: Config, b: Backend, a: Step)
    requires Enabled(b, a)
    ensures Apply(cfg, b, a).health.failures ==
            if Does(b, a, ClearFailures) then 0
            else if Does(b, a, CountFailure) then WrappingIncrement(b.health.failures)
            else b.health.failures
  {
  }

  lemma {:induction false} FailureCounter(cfg: Config, r: Trace, k: nat)
    requires IsRun(cfg, r) && k <= |r.steps|
    ensures r.states[k].health.failures == FailuresSinceCleared(r, k) % (U32_MAX + 1)
  {
    if k == 0 {
    } else {
      FailureCounter(cfg, r, k - 1);
      assert IsStep(cfg, r.states[k - 1], r.steps[k - 1], r.states[k]);
      FailureCounterStep(cfg, r.states[k - 1], r.steps[k - 1]);
      WrappedCount(FailuresSinceCleared(r, k - 1), r.states[k - 1].health.failures);
    }
  }

  /** Caller `id` counted a failure before step `k` that was at least the threshold's worth in a row. */
  ghost predicate Earned(cfg: Config, r: Trace, k: nat, id: nat)
    requires k <= |r.steps| && |r.states| == |r.steps| + 1
  {
    exists j :: 0 <= j < k && Performs(r.states[j], r.steps[j], id, CountFailure)
                && FailuresSinceCleared(r, j + 1) >= cfg.unhealthyAt
  }

  lemma EarnedNow(cfg: Config, r: Trace, k: nat, id: nat)
    requires IsRun(cfg, r) && k < |r.steps| && Performs(r.states[k], r.steps[k], id, CountFailure)
    requires SaturatingIncrement(r.states[k].health.failures) >= cfg.unhealthyAt
    ensures Earned(cfg, r, k + 1, id)
  {
    FailureCounter(cfg, r, k);
    assert FailuresSinceCleared(r, k) >= r.states[k].health.failures;
    assert FailuresSinceCleared(r, k + 1) == FailuresSinceCleared(r, k) + 1;
  }

  lemma {:induction false} SwapEarned(cfg: Config, r: Trace, k: nat, id: nat)
    requires IsRun(cfg, r) && k <= |r.steps| && id < |r.states[k].callers| && r.states[k].callers[id].SwapHealthy?
    ensures Earned(cfg, r, k, id)
  {
    if k == 0 {
    } else {
      var b, a := r.states[k - 1], r.steps[k - 1];
      assert IsStep(cfg, b, a, r.states[k]);
      if a.Act? && a.id == id {
        EarnedNow(cfg, r, k - 1, id);
      } else {
        SwapEarned(cfg, r, k - 1, id);
      }
    }
  }

  /** Every reported ejection follows a full threshold of failures counted in a row, however callers interleave. */
  lemma EjectionEarned(cfg: Config, r: Trace, q: nat)
    requires IsRun(cfg, r) && q < |r.steps| && Ejection(r.states[q], r.steps[q])
    ensures Earned(cfg, r, q, r.steps[q].id)
  {
    SwapEarned(cfg, r, q, r.steps[q].id);
  }

  // ----- concurrent trials -----

  /** The caller has already been told that this backend is eligible. */
  predicate PastEligibility(c: Caller)
  {
    c.AwaitChoice? || c.CheckWinner? || c.ArmTrial?
  }

  /** Step `a` arms the cooldown: an ejection's, or a trial's. */
  predicate Arms(b: Backend, a: Step)
  {
    Does(b, a, ArmTrial) || Does(b, a, ArmEjection)
  }

  /** No step after `p` and before `q` clears the cooldown or writes a promotion. */
  ghost predicate NoPromotionBetween(r: Trace, p: nat, q: nat)
    requires q <= |r.steps| && |r.states| == |r.steps| + 1
  {
    forall k :: p < k < q ==> !Does(r.states[k], r.steps[k], ClearCooldown) && !Promotion(r.states[k], r.steps[k])
  }

  /** After an arm at `t`: held out, and whoever is past eligibility read it before the arm or after the cooldown. */
  predicate Guarded(cfg: Config, at: Backend, b: Backend, t: uint64)
  {
    && !b.health.healthy && b.clock >= t && b.health.until >= SaturatingAddU64(t, cfg.cooldown)
    && |at.callers| <= |b.callers|
    && (forall id :: 0 <= id < |b.callers| && b.callers[id].LoadUntil? ==> b.callers[id].now <= b.clock)
    && (b.clock < SaturatingAddU64(t, cfg.cooldown) ==>
          forall id :: 0 <= id < |b.callers| && PastEligibility(b.callers[id]) ==>
            id < |at.callers| && PastEligibility(at.callers[id]))
  }

  predicate ReadsInPast(b: Backend)
  {
    forall id :: 0 <= id < |b.callers| && b.callers[id].LoadUntil? ==> b.callers[id].now <= b.clock
  }

  lemma {:induction false} ReadsStayInPast(cfg: Config, r: Trace, k: nat)
    requires IsRun(cfg, r) && k <= |r.steps|
    ensures ReadsInPast(r.states[k])
  {
    if k == 0 {
    } else {
      ReadsStayInPast(cfg, r, k - 1);
      assert IsStep(cfg, r.states[k - 1], r.steps[k - 1], r.states[k]);
    }
  }

  lemma GuardedStep(cfg: Config, at: Backend, b: Backend, a: Step, t: uint64)
    requires Enabled(b, a) && Guarded(cfg, at, b, t)
    requires !Does(b, a, ClearCooldown) && !Promotion(b, a)
    ensures Guarded(cfg, at, Apply(cfg, b, a), t)
  {
  }

  lemma {:induction false} GuardedThroughout(cfg: Config, r: Trace, p: nat, k: nat)
    requires IsRun(cfg, r) && p < k <= |r.steps|
    requires Arms(r.states[p], r.steps[p]) && !r.states[p + 1].health.healthy && NoPromotionBetween(r, p, k)
    ensures Guarded(cfg, r.states[p], r.states[k], r.states[p].clock)
    decreases k
  {
    assert IsStep(cfg, r.states[k - 1], r.steps[k - 1], r.states[k]);
    if k == p + 1 {
      ReadsStayInPast(cfg, r, p);
    } else {
      GuardedThroughout(cfg, r, p, k - 1);
      GuardedStep(cfg, r.states[p], r.states[k - 1], r.steps[k - 1], r.states[p].clock);
    }
  }

  /**
   * Concurrent half-open bound: after an arm at `t` that leaves the backend unhealthy, and with no
   * promotion in between, every trial dispatched before `t + cooldown` comes from a caller that had
   * read the backend as eligible before that arm.
   */
  lemma TrialsReadBeforeArm(cfg: Config, r: Trace, p: nat, q: nat)
    requires IsRun(cfg, r) && p < q < |r.steps|
    requires Arms(r.states[p], r.steps[p]) && !r.states[p + 1].health.healthy && NoPromotionBetween(r, p, q)
    requires Does(r.states[q], r.steps[q], ArmTrial)
    requires r.states[q].clock < SaturatingAddU64(r.states[p].clock, cfg.cooldown)
    ensures r.steps[q].id < |r.states[p].callers| && PastEligibility(r.states[p].callers[r.steps[q].id])
  {
    GuardedThroughout(cfg, r, p, q);
  }

  lemma {:induction false} DoneStaysDone(cfg: Config, r: Trace, p: nat, q: nat, id: nat)
    requires IsRun(cfg, r) && p <= q <= |r.steps| && id < |r.states[p].callers| && r.states[p].callers[id].Done?
    ensures id < |r.states[q].callers| && r.states[q].callers[id].Done?
    decreases q
  {
    if p == q {
    } else {
      DoneStaysDone(cfg, r, p, q - 1, id);
      assert IsStep(cfg, r.states[q - 1], r.steps[q - 1], r.states[q]);
    }
  }

  /** A call dispatches at most one trial; so a window holds at most one per call then in flight. */
  lemma OneTrialPerCall(cfg: Config, r: Trace, p: nat, q: nat)
    requires IsRun(cfg, r) && p < q < |r.steps|
    requires Does(r.states[p], r.steps[p], ArmTrial) && Does(r.states[q], r.steps[q], ArmTrial)
    ensures r.steps[p].id != r.steps[q].id
  {
    assert IsStep(cfg, r.states[p], r.steps[p], r.states[p + 1]);
    DoneStaysDone(cfg, r, p + 1, q, r.steps[p].id);
  }

  /** The number of trials dispatched after step `p` and before step `q`. */
  ghost function Trials(r: Trace, p: nat, q: nat): nat
    requires q <= |r.steps| && |r.states| == |r.steps| + 1
    decreases q
  {
    if q <= p + 1 then 0
    else Trials(r, p, q - 1) + if Does(r.states[q - 1], r.steps[q - 1], ArmTrial) then 1 else 0
  }

  /** The callers that dispatched them. */
  ghost function Dispatchers(r: Trace, p: nat, q: nat): set<int>
    requires q <= |r.steps| && |r.states| == |r.steps| + 1
    decreases q
  {
    if q <= p + 1 then {}
    else Dispatchers(r, p, q - 1)
         + if Does(r.states[q - 1], r.steps[q - 1], ArmTrial) then {r.steps[q - 1].id} else {}
  }

  lemma {:induction false} DispatcherFound(r: Trace, p: nat, q: nat, id: int) returns (k: nat)
    requires q <= |r.steps| && |r.states| == |r.steps| + 1 && id in Dispatchers(r, p, q)
    ensures p < k < q && Does(r.states[k], r.steps[k], ArmTrial) && r.steps[k].id == id
    decreases q
  {
    if Does(r.states[q - 1], r.steps[q - 1], ArmTrial) && r.steps[q - 1].id == id {
      k := q - 1;
    } else {
      k := DispatcherFound(r, p, q - 1, id);
    }
  }

  lemma FreshDispatcher(cfg: Config, r: Trace, p: nat, q: nat)
    requires IsRun(cfg, r) && q < |r.steps| && Does(r.states[q], r.steps[q], ArmTrial)
    ensures r.steps[q].id !in Dispatchers(r, p, q)
  {
    if r.steps[q].id in Dispatchers(r, p, q) {
      var k := DispatcherFound(r, p, q, r.steps[q].id);
      OneTrialPerCall(cfg, r, k, q);
    }
  }

  lemma DispatchersStep(r: Trace, p: nat, q: nat, earlier: set<int>)
    requires p + 1 < q <= |r.steps| && |r.states| == |r.steps| + 1 && earlier == Dispatchers(r, p, q - 1)
    requires Does(r.states[q - 1], r.steps[q - 1], ArmTrial) ==> r.steps[q - 1].id !in earlier
    ensures |Dispatchers(r, p, q)| == |earlier| + if Does(r.states[q - 1], r.steps[q - 1], ArmTrial) then 1 else 0
  {
    if Does(r.states[q - 1], r.steps[q - 1], ArmTrial) {
      assert Dispatchers(r, p, q) == earlier + {r.steps[q - 1].id};
    } else {
      assert Dispatchers(r, p, q) == earlier;
    }
  }

  lemma TrialStep(cfg: Config, r: Trace, p: nat, q: nat)
    requires IsRun(cfg, r) && p + 1 < q <= |r.steps| && Trials(r, p, q - 1) == |Dispatchers(r, p, q - 1)|
    ensures Trials(r, p, q) == |Dispatchers(r, p, q)|
  {
    if Does(r.states[q - 1], r.steps[q - 1], ArmTrial) {
      FreshDispatcher(cfg, r, p, q - 1);
    }
    DispatchersStep(r, p, q, Dispatchers(r, p, q - 1));
  }

  lemma {:induction false} TrialsAreDistinctCallers(cfg: Config, r: Trace, p: nat, q: nat)
    requires IsRun(cfg, r) && q <= |r.steps|
    ensures Trials(r, p, q) == |Dispatchers(r, p, q)|
    decreases q
  {
    if q <= p + 1 {
    } else {
      TrialsAreDistinctCallers(cfg, r, p, q - 1);
      TrialStep(cfg, r, p, q);
    }
  }

  /** The callers that hold an answer that the backend is eligible. */
  ghost function HoldingAnswer(b: Backend): (s: set<int>)
    ensures forall id :: id in s <==> 0 <= id < |b.callers| && PastEligibility(b.callers[id])
  {
    set id | 0 <= id < |b.callers| && PastEligibility(b.callers[id])
  }

  /** The callers that dispatch after step `p` held an answer then, and are not the one that armed at `p`. */
  lemma DispatchersHeld(cfg: Config, r: Trace, p: nat, q: nat, id: int)
    requires IsRun(cfg, r) && p < q <= |r.steps|
    requires Arms(r.states[p], r.steps[p]) && !r.states[p + 1].health.healthy && NoPromotionBetween(r, p, q)
    requires forall k :: p < k < q ==> r.states[k].clock < SaturatingAddU64(r.states[p].clock, cfg.cooldown)
    requires id in Dispatchers(r, p, q)
    ensures id in HoldingAnswer(r.states[p])
    ensures Does(r.states[p], r.steps[p], ArmTrial) ==> id != r.steps[p].id
  {
    var k := DispatcherFound(r, p, q, id);
    TrialsReadBeforeArm(cfg, r, p, k);
    if Does(r.states[p], r.steps[p], ArmTrial) {
      OneTrialPerCall(cfg, r, p, k);
    }
  }

  /**
   * So within one cooldown of an arm, and with no promotion in between, the backend receives at most one
   * trial for each selection that already held its answer when the cooldown was armed - the trial that
   * armed it included.
   */
  lemma TrialsBoundedByCallsInFlight(cfg: Config, r: Trace, p: nat, q: nat)
    requires IsRun(cfg, r) && p < q <= |r.steps|
    requires Arms(r.states[p], r.steps[p]) && !r.states[p + 1].health.healthy && NoPromotionBetween(r, p, q)
    requires forall k :: p < k < q ==> r.states[k].clock < SaturatingAddU64(r.states[p].clock, cfg.cooldown)
    ensures Trials(r, p, q) + (if Does(r.states[p], r.steps[p], ArmTrial) then 1 else 0) <= |HoldingAnswer(r.states[p])|
  {
    TrialsAreDistinctCallers(cfg, r, p, q);
    forall id | id in Dispatchers(r, p, q)
      ensures id in HoldingAnswer(r.states[p])
      ensures Does(r.states[p], r.steps[p], ArmTrial) ==> id != r.steps[p].id
    {
      DispatchersHeld(cfg, r, p, q, id);
    }
    if Does(r.states[p], r.steps[p], ArmTrial) {
      Sums.SubsetSize(Dispatchers(r, p, q) + {r.steps[p].id}, HoldingAnswer(r.states[p]));
    } else {
      Sums.SubsetSize(Dispatchers(r, p, q), HoldingAnswer(r.states[p]));
    }
  }

  // ----- uninterrupted callers -----

  /** How many operations a caller has left at most. */
  function Remaining(c: Caller): nat
  {
    match c
    case LoadHealthy => 8
    case ReloadHealthy => 7
    case ReadClock => 6
    case LoadUntil(_) => 5
    case AwaitChoice => 4
    case CheckWinner => 3
    case ArmTrial => 2
    case ClearSuccesses => 5
    case CountFailure => 4
    case SwapHealthy => 3
    case ArmEjection => 2
    case ClearFailures => 7
    case LookHealthy => 6
    case ForgetSuccesses => 2
    case CountSuccess => 5
    case ResetSuccesses => 4
    case ClearCooldown => 3
    case StoreHealthy => 2
    case Done => 0
  }

  /** The shared fields after caller `c` performs all its operations with nobody in between. */
  function Finish(cfg: Config, h: Health, clock: uint64, c: Caller, chosen: bool): Health
    decreases Remaining(c)
  {
    if c.Done? then h
    else Finish(cfg, Effect(cfg, h, clock, c), clock, Advance(cfg, h, clock, c, chosen), chosen)
  }

  /** The operations it performs, in order. */
  function Operations(cfg: Config, h: Health, clock: uint64, c: Caller, chosen: bool): seq<Caller>
    decreases Remaining(c)
  {
    if c.Done? then []
    else [c] + Operations(cfg, Effect(cfg, h, clock, c), clock, Advance(cfg, h, clock, c, chosen), chosen)
  }

  /** A failure report that nobody interrupts is the atomic one, operation by operation. */
  lemma UninterruptedFailure(cfg: Config, h: Health, clock: uint64, chosen: bool)
    ensures Finish(cfg, h, clock, ClearSuccesses, chosen) == h.AfterFailure(cfg.unhealthyAt, clock, cfg.cooldown)
    ensures Operations(cfg, h, clock, ClearSuccesses, chosen) ==
            [ClearSuccesses, CountFailure]
            + (if SaturatingIncrement(h.failures) < cfg.unhealthyAt then []
               else if h.healthy then [SwapHealthy, ArmEjection] else [SwapHealthy])
  {
    var h1 := h.(successes := 0);
    var h2 := h1.(failures := WrappingIncrement(h.failures));
    assert Finish(cfg, h, clock, ClearSuccesses, chosen) == Finish(cfg, h1, clock, CountFailure, chosen);
    if SaturatingIncrement(h.failures) >= cfg.unhealthyAt {
      assert Finish(cfg, h1, clock, CountFailure, chosen) == Finish(cfg, h2, clock, SwapHealthy, chosen);
    }
  }

  /** So is a success report: it clears the cooldown before it declares the backend healthy. */
  lemma UninterruptedSuccess(cfg: Config, h: Health, clock: uint64, chosen: bool)
    ensures Finish(cfg, h, clock, ClearFailures, chosen) == h.AfterSuccess(cfg.healthyAt)
    ensures Operations(cfg, h, clock, ClearFailures, chosen) ==
            [ClearFailures, LookHealthy]
            + (if h.healthy then [ForgetSuccesses]
               else if SaturatingIncrement(h.successes) < cfg.healthyAt then [CountSuccess]
               else [CountSuccess, ResetSuccesses, ClearCooldown, StoreHealthy])
  {
    var h1 := h.(failures := 0);
    assert Finish(cfg, h, clock, ClearFailures, chosen) == Finish(cfg, h1, clock, LookHealthy, chosen);
    if h.healthy {
      assert Finish(cfg, h1, clock, LookHealthy, chosen) == Finish(cfg, h1, clock, ForgetSuccesses, chosen);
    } else {
      var h2 := h1.(successes := WrappingIncrement(h.successes));
      assert Finish(cfg, h1, clock, LookHealthy, chosen) == Finish(cfg, h1, clock, CountSuccess, chosen);
      if SaturatingIncrement(h.successes) >= cfg.healthyAt {
        assert Finish(cfg, h1, clock, CountSuccess, chosen) == Finish(cfg, h2, clock, ResetSuccesses, chosen);
      }
    }
  }

  lemma PickOperations(cfg: Config, h: Health, clock: uint64, chosen: bool)
    ensures Operations(cfg, h, clock, AwaitChoice, chosen) ==
            if !chosen then [AwaitChoice]
            else if h.healthy then [AwaitChoice, CheckWinner] else [AwaitChoice, CheckWinner, ArmTrial]
  {
    if chosen {
      assert Operations(cfg, h, clock, AwaitChoice, chosen) == [AwaitChoice] + Operations(cfg, h, clock, CheckWinner, chosen);
    }
  }

  lemma AnswerOperations(cfg: Config, h: Health, clock: uint64, chosen: bool, picked: seq<Caller>)
    requires !h.healthy && picked == Operations(cfg, h, clock, AwaitChoice, chosen)
    ensures Operations(cfg, h, clock, LoadHealthy, chosen) ==
            [LoadHealthy, ReloadHealthy, ReadClock, LoadUntil(clock)] + if clock >= h.until then picked else []
  {
    var last := Operations(cfg, h, clock, LoadUntil(clock), chosen);
    if clock >= h.until {
      assert last == [LoadUntil(clock)] + picked;
    } else {
      assert last == [LoadUntil(clock)] + Operations(cfg, h, clock, Done, chosen);
    }
    var third := Operations(cfg, h, clock, ReadClock, chosen);
    assert third == [ReadClock] + last;
    var second := Operations(cfg, h, clock, ReloadHealthy, chosen);
    assert second == [ReloadHealthy] + third;
    assert Operations(cfg, h, clock, LoadHealthy, chosen) == [LoadHealthy] + second;
  }

  /**
   * A selection that nobody interrupts holds the answer that this backend may be picked exactly when the
   * flag is set or the clock has reached the end of the cooldown, and looks at the flag again exactly when
   * the scan then picks it.
   */
  lemma UninterruptedEligibility(cfg: Config, h: Health, clock: uint64, chosen: bool)
    ensures Operations(cfg, h, clock, LoadHealthy, chosen) ==
            (if h.healthy then [LoadHealthy] else [LoadHealthy, ReloadHealthy, ReadClock, LoadUntil(clock)])
            + (if !h.healthy && clock < h.until then []
               else if !chosen then [AwaitChoice]
               else if h.healthy then [AwaitChoice, CheckWinner] else [AwaitChoice, CheckWinner, ArmTrial])
    ensures AwaitChoice in Operations(cfg, h, clock, LoadHealthy, chosen) <==> h.healthy || clock >= h.until
  {
    PickOperations(cfg, h, clock, chosen);
    var picked := Operations(cfg, h, clock, AwaitChoice, chosen);
    if h.healthy {
      assert Operations(cfg, h, clock, LoadHealthy, chosen) == [LoadHealthy] + picked;
    } else {
      AnswerOperations(cfg, h, clock, chosen, picked);
    }
  }

  /** It re-arms exactly an unhealthy pick, as the atomic selection does. */
  lemma UninterruptedSelection(cfg: Config, h: Health, clock: uint64, chosen: bool)
    ensures Finish(cfg, h, clock, LoadHealthy, chosen) ==
            if chosen && (h.healthy || clock >= h.until) then Balancer.AfterSelection(h, clock, cfg.cooldown) else h
  {
    assert Finish(cfg, h, clock, AwaitChoice, chosen) ==
           if chosen then Balancer.AfterSelection(h, clock, cfg.cooldown) else h;
    if !h.healthy {
      assert Finish(cfg, h, clock, LoadHealthy, chosen) == Finish(cfg, h, clock, ReloadHealthy, chosen)
          == Finish(cfg, h, clock, ReadClock, chosen) == Finish(cfg, h, clock, LoadUntil(clock), chosen);
    }
  }

  // ----- every operation is one access to one field -----

  /**
   * Who writes which field, whatever the state the operation meets: each operation writes at most one
   * field, and the ones that only read write none.
   */
  lemma FieldWriters(cfg: Config, h: Health, clock: uint64, c: Caller)
    ensures var e := Effect(cfg, h, clock, c);
            && e.failures == (if c.ClearFailures? then 0
                              else if c.CountFailure? then (h.failures + 1) % (U32_MAX + 1) else h.failures)
            && e.successes == (if c.ClearSuccesses? || c.ForgetSuccesses? || c.ResetSuccesses? then 0
                               else if c.CountSuccess? then (h.successes + 1) % (U32_MAX + 1) else h.successes)
            && e.healthy == (c.StoreHealthy? || (h.healthy && !c.SwapHealthy?))
            && e.until == (if c.ClearCooldown? then 0
                           else if !(c.ArmTrial? || c.ArmEjection?) then h.until
                           else if clock + cfg.cooldown > U64_MAX then U64_MAX else clock + cfg.cooldown)
  {
  }

  /**
   * What interruption changes: a backend promoted between the two looks at its flag is passed over, one
   * promoted before the last look is picked without a re-arm, and the end of the cooldown is compared with
   * the caller's own clock reading, however old that is.
   */
  lemma InterruptedAnswers(cfg: Config, h: Health, clock: uint64, now: uint64, chosen: bool)
    ensures h.healthy ==> Advance(cfg, h, clock, ReloadHealthy, chosen) == Done
    ensures h.healthy ==> Advance(cfg, h, clock, CheckWinner, chosen) == Done
    ensures Advance(cfg, h, clock, LoadUntil(now), chosen) == (if now >= h.until then AwaitChoice else Done)
  {
  }

  /** Nobody ever blocks: selections and reports may arrive, time may pass, and every unfinished caller may go on. */
  lemma NobodyBlocks(cfg: Config, b: Backend, id: nat, chosen: bool, now: uint64)
    ensures Enabled(b, Arrive(LoadHealthy)) && Enabled(b, Arrive(ClearSuccesses)) && Enabled(b, Arrive(ClearFailures))
    ensures now >= b.clock ==> Enabled(b, Tick(now)) && Apply(cfg, b, Tick(now)) == b.(clock := now)
    ensures Enabled(b, Act(id, chosen)) <==> id < |b.callers| && b.callers[id] != Done
  {
  }
}
