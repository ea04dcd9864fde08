/**
 * Whole runs of the proxy's routing core with atomic calls: selections, reported outcomes, active
 * probes and abandoned requests in any order, on per-backend clocks that never go back.
 */
module PoolRuns {
  import opened MachineInts
  import opened Sums
  import opened RoundRobin
  import opened Wrappers
  import opened Upstream
  import opened HealthHistory
  import Balancer
  import Rotation
  import Runs

  /** Validated configuration: positive weights and thresholds of at least 1. */
  datatype Config = Config(weights: seq<int>, cooldown: uint64, unhealthyAt: uint32, healthyAt: uint32) {
    predicate Valid()
    {
      PositiveWeights(weights) && unhealthyAt >= 1 && healthyAt >= 1
    }
  }

  /** `pending[i]` requests were routed to backend `i` and have not ended; `clock[i]` is its last reading. */
  datatype System = System(running: seq<int>, health: seq<Health>, pending: seq<nat>, clock: seq<uint64>)

  datatype Action =
    | Route(now: seq<uint64>, armed: uint64)
    | Respond(i: int, at: uint64)
    | Fail(i: int, at: uint64)
    | Abandon(i: int, at: uint64)
    | ProbeOk(i: int, at: uint64)
    | ProbeFailed(i: int, at: uint64)

  predicate Shaped(cfg: Config, s: System)
  {
    |s.running| == |s.health| == |s.pending| == |s.clock| == |cfg.weights|
  }

  function Fresh(cfg: Config): (s: System)
    ensures Shaped(cfg, s)
  {
    var n := |cfg.weights|;
    System(Zeros(n), seq(n, i => FRESH), seq(n, i => 0), seq(n, i => 0))
  }

  function EligibleAt(cfg: Config, s: System, now: seq<uint64>): (e: set<int>)
    requires Shaped(cfg, s) && |now| == |cfg.weights|
    ensures forall i :: i in e <==> 0 <= i < |now| && s.health[i].Eligible(now[i])
  {
    set i | 0 <= i < |now| && s.health[i].Eligible(now[i])
  }

  /** The backend a routing action selects. */
  function Selected(cfg: Config, s: System, a: Action): (j: Option<int>)
    requires Shaped(cfg, s)
    ensures j.Some? ==> a.Route? && |a.now| == |cfg.weights| && 0 <= j.value < |cfg.weights|
    ensures j.Some? ==> s.health[j.value].Eligible(a.now[j.value])
  {
    if a.Route? && |a.now| == |cfg.weights| then Winner(cfg.weights, EligibleAt(cfg, s, a.now), s.running) else None
  }

  /** Clocks do not go back, and a request's end needs a request. */
  predicate Enabled(cfg: Config, s: System, a: Action)
    requires Shaped(cfg, s)
  {
    match a
    case Route(now, armed) =>
      && |now| == |cfg.weights|
      && (forall i :: 0 <= i < |now| ==> now[i] >= s.clock[i])
      && (var j := Selected(cfg, s, a); j.Some? ==> armed >= now[j.value])
    case ProbeOk(i, at) => 0 <= i < |cfg.weights| && at >= s.clock[i]
    case ProbeFailed(i, at) => 0 <= i < |cfg.weights| && at >= s.clock[i]
    case _ => 0 <= a.i < |cfg.weights| && a.at >= s.clock[a.i] && s.pending[a.i] > 0
  }

  function Ends(s: System, i: int): System
    requires 0 <= i < |s.pending| && s.pending[i] > 0
  {
    s.(pending := s.pending[i := s.pending[i] - 1])
  }

  function Reported(s: System, i: int, h: Health, at: uint64): System
    requires 0 <= i < |s.health| == |s.clock|
  {
    s.(health := s.health[i := h], clock := s.clock[i := at])
  }

  function Apply(cfg: Config, s: System, a: Action): (t: System)
    requires Shaped(cfg, s) && Enabled(cfg, s, a)
    ensures Shaped(cfg, t)
  {
    match a
    case Route(now, armed) =>
      var running := Next(cfg.weights, EligibleAt(cfg, s, now), s.running);
      (match Selected(cfg, s, a)
       case None => s.(running := running, clock := now)
       case Some(j) =>
         System(running, s.health[j := Balancer.AfterSelection(s.health[j], armed, cfg.cooldown)],
                s.pending[j := s.pending[j] + 1], now[j := armed]))
    case Respond(i, at) => Reported(Ends(s, i), i, s.health[i].AfterSuccess(cfg.healthyAt), at)
    case Fail(i, at) => Reported(Ends(s, i), i, s.health[i].AfterFailure(cfg.unhealthyAt, at, cfg.cooldown), at)
    case Abandon(i, at) => Reported(Ends(s, i), i, s.health[i], at)
    case ProbeOk(i, at) => Reported(s, i, s.health[i].AfterSuccess(cfg.healthyAt), at)
    case ProbeFailed(i, at) => Reported(s, i, s.health[i].AfterFailure(cfg.unhealthyAt, at, cfg.cooldown), at)
  }

  /** A run: its states, and the actions between them, from a fresh system. */
  datatype Trace = Trace(states: seq<System>, actions: seq<Action>)

  predicate IsStep(cfg: Config, s: System, a: Action, t: System)
    requires Shaped(cfg, s)
  {
    Enabled(cfg, s, a) && t == Apply(cfg, s, a)
  }

  ghost predicate IsRun(cfg: Config, r: Trace)
  {
    && |r.states| == |r.actions| + 1
    && r.states[0] == Fresh(cfg)
    && (forall k :: 0 <= k < |r.states| ==> Shaped(cfg, r.states[k]))
    && (forall k, l :: 0 <= k < |r.actions| && l == k + 1 ==> IsStep(cfg, r.states[k], r.actions[k], r.states[l]))
  }

  /** A run goes on with any enabled action. */
  lemma RunGoesOn(cfg: Config, r: Trace, a: Action, more: Trace)
    requires IsRun(cfg, r) && Enabled(cfg, r.states[|r.actions|], a)
    requires more == Trace(r.states + [Apply(cfg, r.states[|r.actions|], a)], r.actions + [a])
    ensures IsRun(cfg, more)
  {
    forall k, l | 0 <= k < |more.actions| && l == k + 1
      ensures IsStep(cfg, more.states[k], more.actions[k], more.states[l])
    {
      assert k < |r.actions| ==> IsStep(cfg, r.states[k], r.actions[k], r.states[l]);
    }
  }

  /** Nobody ever blocks: in any state every caller with readings that do not go back may act. */
  lemma AnyoneMayAct(cfg: Config, s: System, now: seq<uint64>, armed: uint64, i: int, at: uint64)
    requires Shaped(cfg, s)
    ensures |now| == |cfg.weights| && (forall j :: 0 <= j < |now| ==> armed >= now[j] >= s.clock[j]) ==>
              Enabled(cfg, s, Route(now, armed))
    ensures 0 <= i < |cfg.weights| && at >= s.clock[i] ==>
              && Enabled(cfg, s, ProbeOk(i, at)) && Enabled(cfg, s, ProbeFailed(i, at))
              && (s.pending[i] > 0 ==>
                    Enabled(cfg, s, Respond(i, at)) && Enabled(cfg, s, Fail(i, at)) && Enabled(cfg, s, Abandon(i, at)))
  {
  }

  /** The clock reading that action `a` takes of backend `i`, if any. */
  function Reading(cfg: Config, s: System, a: Action, i: int): Option<uint64>
    requires Shaped(cfg, s)
  {
    if a.Route? then
      if |a.now| != |cfg.weights| || !(0 <= i < |a.now|) then None
      else if Selected(cfg, s, a) == Some(i) then Some(a.armed) else Some(a.now[i])
    else if a.i == i then Some(a.at) else None
  }

  /** The clock of a backend is its last reading. */
  lemma ClockIsLastReading(cfg: Config, s: System, a: Action, i: int)
    requires Shaped(cfg, s) && Enabled(cfg, s, a) && 0 <= i < |cfg.weights|
    ensures var reading := Reading(cfg, s, a, i);
            Apply(cfg, s, a).clock[i] == (if reading.Some? then reading.value else s.clock[i]) >= s.clock[i]
  {
  }

  lemma {:induction false} ClockNeverGoesBack(cfg: Config, r: Trace, p: nat, q: nat, i: int)
    requires IsRun(cfg, r) && p <= q <= |r.actions| && 0 <= i < |cfg.weights|
    ensures r.states[p].clock[i] <= r.states[q].clock[i]
    decreases q
  {
    if p == q {
    } else {
      ClockNeverGoesBack(cfg, r, p, q - 1, i);
      assert IsStep(cfg, r.states[q - 1], r.actions[q - 1], r.states[q]);
      ClockIsLastReading(cfg, r.states[q - 1], r.actions[q - 1], i);
    }
  }

  /** The requests routed to backend `i` by the first `k` actions. */
  ghost function Routed(cfg: Config, r: Trace, k: nat, i: int): nat
    requires IsRun(cfg, r) && k <= |r.actions|
  {
    if k == 0 then 0
    else Routed(cfg, r, k - 1, i) + if Selected(cfg, r.states[k - 1], r.actions[k - 1]) == Some(i) then 1 else 0
  }

  /** The requests to backend `i` that ended: answered, failed or abandoned. */
  ghost function Ended(r: Trace, k: nat, i: int): nat
    requires k <= |r.actions|
  {
    if k == 0 then 0
    else
      var a := r.actions[k - 1];
      Ended(r, k - 1, i) + if (a.Respond? || a.Fail? || a.Abandon?) && a.i == i then 1 else 0
  }

  lemma PendingStep(cfg: Config, s: System, a: Action, i: int)
    requires Shaped(cfg, s) && Enabled(cfg, s, a) && 0 <= i < |cfg.weights|
    ensures Apply(cfg, s, a).pending[i] ==
            s.pending[i] + (if Selected(cfg, s, a) == Some(i) then 1 else 0)
            - (if (a.Respond? || a.Fail? || a.Abandon?) && a.i == i then 1 else 0)
  {
  }

  /** Every routed request is either pending or has ended, once. */
  lemma {:induction false} RequestsConserved(cfg: Config, r: Trace, k: nat, i: int)
    requires IsRun(cfg, r) && k <= |r.actions| && 0 <= i < |cfg.weights|
    ensures r.states[k].pending[i] + Ended(r, k, i) == Routed(cfg, r, k, i)
  {
    if k == 0 {
    } else {
      RequestsConserved(cfg, r, k - 1, i);
      assert IsStep(cfg, r.states[k - 1], r.actions[k - 1], r.states[k]);
      PendingStep(cfg, r.states[k - 1], r.actions[k - 1], i);
    }
  }

  // ----- a pool run is a run of the selection -----

  function OfferedBy(cfg: Config, s: System, a: Action): seq<set<int>>
    requires Shaped(cfg, s)
  {
    if a.Route? && |a.now| == |cfg.weights| then [EligibleAt(cfg, s, a.now)] else []
  }

  /** The eligible sets of the routing actions among the first `k`, in order. */
  ghost function OfferedSets(cfg: Config, r: Trace, k: nat): seq<set<int>>
    requires IsRun(cfg, r) && k <= |r.actions|
  {
    if k == 0 then [] else OfferedSets(cfg, r, k - 1) + OfferedBy(cfg, r.states[k - 1], r.actions[k - 1])
  }

  lemma RunningAfter(cfg: Config, s: System, a: Action)
    requires Shaped(cfg, s) && Enabled(cfg, s, a)
    ensures Apply(cfg, s, a).running ==
            if a.Route? then Next(cfg.weights, EligibleAt(cfg, s, a.now), s.running) else s.running
  {
  }

  lemma RunningStep(cfg: Config, s: System, a: Action, es: seq<set<int>>, c: seq<int>)
    requires Shaped(cfg, s) && Enabled(cfg, s, a) && |c| == |cfg.weights|
    requires s.running == Runs.Run(cfg.weights, es, c)
    ensures Apply(cfg, s, a).running == Runs.Run(cfg.weights, es + OfferedBy(cfg, s, a), c)
  {
    RunningAfter(cfg, s, a);
    if a.Route? {
      Runs.RunAppend(cfg.weights, es, EligibleAt(cfg, s, a.now), c);
    } else {
      assert es + [] == es;
    }
  }

  lemma OfferedStep(cfg: Config, r: Trace, k: nat, before: seq<set<int>>, after: seq<set<int>>, c: seq<int>)
    requires IsRun(cfg, r) && 0 < k <= |r.actions| && |c| == |cfg.weights|
    requires before == OfferedSets(cfg, r, k - 1) && after == OfferedSets(cfg, r, k)
    requires r.states[k - 1].running == Runs.Run(cfg.weights, before, c)
    ensures r.states[k].running == Runs.Run(cfg.weights, after, c)
  {
    assert IsStep(cfg, r.states[k - 1], r.actions[k - 1], r.states[k]);
    RunningStep(cfg, r.states[k - 1], r.actions[k - 1], before, c);
  }

  lemma {:induction false} PoolRunIsRun(cfg: Config, r: Trace, k: nat, es: seq<set<int>>, c: seq<int>)
    requires IsRun(cfg, r) && k <= |r.actions| && es == OfferedSets(cfg, r, k) && c == Zeros(|cfg.weights|)
    ensures r.states[k].running == Runs.Run(cfg.weights, es, c)
  {
    if k == 0 {
    } else {
      PoolRunIsRun(cfg, r, k - 1, OfferedSets(cfg, r, k - 1), c);
      OfferedStep(cfg, r, k, OfferedSets(cfg, r, k - 1), es, c);
    }
  }

  /** Hence, in every reachable state, health never pushes a running weight out of its bounds. */
  lemma ReachableBalanced(cfg: Config, r: Trace, k: nat)
    requires cfg.Valid() && IsRun(cfg, r) && k <= |r.actions|
    ensures Balanced(cfg.weights, r.states[k].running)
  {
    PoolRunIsRun(cfg, r, k, OfferedSets(cfg, r, k), Zeros(|cfg.weights|));
    Runs.FreshRunBalanced(cfg.weights, OfferedSets(cfg, r, k));
  }

  /** The system keeps its requests waiting, and nothing fails. */
  predicate AllHealthy(cfg: Config, s: System)
    requires Shaped(cfg, s)
  {
    (forall i :: 0 <= i < |s.health| ==> s.health[i] == FRESH) && s.clock == Zeros(|cfg.weights|)
  }

  lemma HealthyRoute(cfg: Config, s: System, a: Action)
    requires Shaped(cfg, s) && AllHealthy(cfg, s) && a == Route(Zeros(|cfg.weights|), 0)
    ensures Enabled(cfg, s, a) && AllHealthy(cfg, Apply(cfg, s, a))
    ensures Apply(cfg, s, a).running == Next(cfg.weights, Indices(|cfg.weights|), s.running)
  {
    assert EligibleAt(cfg, s, a.now) == Indices(|cfg.weights|);
  }

  lemma HealthyRunGoesOn(cfg: Config, before: Trace) returns (r: Trace)
    requires IsRun(cfg, before) && AllHealthy(cfg, before.states[|before.actions|])
    ensures IsRun(cfg, r) && |r.actions| == |before.actions| + 1 && AllHealthy(cfg, r.states[|r.actions|])
    ensures r.states[|r.actions|].running ==
            Next(cfg.weights, Indices(|cfg.weights|), before.states[|before.actions|].running)
  {
    var s, a := before.states[|before.actions|], Route(Zeros(|cfg.weights|), 0);
    HealthyRoute(cfg, s, a);
    r := Trace(before.states + [Apply(cfg, s, a)], before.actions + [a]);
    RunGoesOn(cfg, before, a, r);
  }

  lemma HealthyFresh(cfg: Config) returns (r: Trace)
    ensures IsRun(cfg, r) && |r.actions| == 0 && AllHealthy(cfg, r.states[0])
    ensures r.states[0].running == Zeros(|cfg.weights|)
  {
    r := Trace([Fresh(cfg)], []);
  }

  /** Requests routed one after another to a pool that stays healthy: the selection with a fixed eligible set. */
  lemma {:induction false} HealthyPoolRun(cfg: Config, k: nat) returns (r: Trace)
    ensures IsRun(cfg, r) && |r.actions| == k && AllHealthy(cfg, r.states[k])
    ensures r.states[k].running == Rotation.State(cfg.weights, Indices(|cfg.weights|), k)
  {
    if k == 0 {
      r := HealthyFresh(cfg);
    } else {
      var before := HealthyPoolRun(cfg, k - 1);
      r := HealthyRunGoesOn(cfg, before);
    }
  }

  // ----- bounded waiting for a trial -----

  /** Action `k` is a selection that finds backend `i` eligible. */
  predicate Offers(cfg: Config, s: System, a: Action, i: int)
    requires Shaped(cfg, s)
  {
    a.Route? && |a.now| == |cfg.weights| && i in EligibleAt(cfg, s, a.now)
  }

  /** The number of selections among actions `p` to `q` that find backend `i` eligible. */
  ghost function OffersBetween(cfg: Config, r: Trace, p: nat, q: nat, i: int): nat
    requires IsRun(cfg, r) && p <= q <= |r.actions|
    decreases q
  {
    if p == q then 0
    else OffersBetween(cfg, r, p, q - 1, i) + if Offers(cfg, r.states[q - 1], r.actions[q - 1], i) then 1 else 0
  }

  /** No action between `p` and `q` selects backend `i`. */
  ghost predicate PassedOver(cfg: Config, r: Trace, p: nat, q: nat, i: int)
    requires IsRun(cfg, r) && q <= |r.actions|
  {
    forall k :: p <= k < q ==> Selected(cfg, r.states[k], r.actions[k]) != Some(i)
  }

  lemma PassedOverStep(cfg: Config, s: System, a: Action, i: int)
    requires Shaped(cfg, s) && Enabled(cfg, s, a) && 0 <= i < |cfg.weights| && Selected(cfg, s, a) != Some(i)
    ensures Apply(cfg, s, a).running[i] == s.running[i] + if Offers(cfg, s, a, i) then cfg.weights[i] else 0
  {
    if a.Route? {
      NextEntry(cfg.weights, EligibleAt(cfg, s, a.now), s.running, i);
    }
  }

  /** What those selections owe backend `i`: its weight `x` each. */
  ghost function OwedBetween(cfg: Config, r: Trace, p: nat, q: nat, i: int, x: int): int
    requires IsRun(cfg, r) && p <= q <= |r.actions|
    decreases q
  {
    if p == q then 0
    else OwedBetween(cfg, r, p, q - 1, i, x) + if Offers(cfg, r.states[q - 1], r.actions[q - 1], i) then x else 0
  }

  lemma {:induction false} OwedIsProduct(cfg: Config, r: Trace, p: nat, q: nat, i: int, x: int)
    requires IsRun(cfg, r) && p <= q <= |r.actions|
    ensures OwedBetween(cfg, r, p, q, i, x) == x * OffersBetween(cfg, r, p, q, i)
    decreases q
  {
    if p == q {
    } else {
      OwedIsProduct(cfg, r, p, q - 1, i, x);
      OneMore(x, OffersBetween(cfg, r, p, q - 1, i));
    }
  }

  /** While it is passed over, a backend's running weight grows by its weight per offer. */
  lemma {:induction false} PassedOverGrows(cfg: Config, r: Trace, p: nat, q: nat, i: int)
    requires IsRun(cfg, r) && p <= q <= |r.actions| && 0 <= i < |cfg.weights| && PassedOver(cfg, r, p, q, i)
    ensures r.states[q].running[i] == r.states[p].running[i] + OwedBetween(cfg, r, p, q, i, cfg.weights[i])
    decreases q
  {
    if p == q {
    } else {
      var s, a := r.states[q - 1], r.actions[q - 1];
      assert IsStep(cfg, s, a, r.states[q]);
      PassedOverStep(cfg, s, a, i);
      PassedOverGrows(cfg, r, p, q - 1, i);
    }
  }

  /**
   * Bounded waiting over pool runs: from any reachable state, whatever health does to the others, a
   * backend of weight `w` - an ejected one waiting for its trial included - is passed over by at most
   * `(n - 1) * W / w` of the selections that find it eligible.
   */
  lemma TrialComes(cfg: Config, r: Trace, p: nat, q: nat, i: int)
    requires cfg.Valid() && IsRun(cfg, r) && p <= q <= |r.actions| && 0 <= i < |cfg.weights|
    requires PassedOver(cfg, r, p, q, i)
    ensures cfg.weights[i] * OffersBetween(cfg, r, p, q, i) <= Total(cfg.weights) * (|cfg.weights| - 1)
  {
    PassedOverGrows(cfg, r, p, q, i);
    OwedIsProduct(cfg, r, p, q, i, cfg.weights[i]);
    ReachableBalanced(cfg, r, p);
    ReachableBalanced(cfg, r, q);
    BalancedEntry(cfg.weights, r.states[p].running, i);
    BalancedEntry(cfg.weights, r.states[q].running, i);
  }

  // ----- health is what the reported outcomes make it -----

  /** The outcome that action `a` reports on backend `i`: of a routed request or of a probe. */
  function Reports(a: Action, i: int): seq<Outcome>
  {
    match a
    case Respond(j, at) => if j == i then [Succeeded] else []
    case ProbeOk(j, at) => if j == i then [Succeeded] else []
    case Fail(j, at) => if j == i then [Failed(at)] else []
    case ProbeFailed(j, at) => if j == i then [Failed(at)] else []
    case _ => []
  }

  /** The outcomes reported on backend `i` by the first `k` actions, in order. */
  ghost function OutcomesOf(r: Trace, k: nat, i: int): seq<Outcome>
    requires k <= |r.actions|
  {
    if k == 0 then [] else OutcomesOf(r, k - 1, i) + Reports(r.actions[k - 1], i)
  }

  lemma ExplainedByFields(history: seq<Outcome>, f: uint32, s: uint32, h: Health, g: Health)
    requires Explained(history, f, s, h)
    requires g.failures == h.failures && g.successes == h.successes && g.healthy == h.healthy
    ensures Explained(history, f, s, g)
  {
  }

  /** One action: a report on the backend is explained by one more outcome, anything else leaves all three fields alone. */
  lemma ActionExplained(cfg: Config, s: System, a: Action, i: int, history: seq<Outcome>)
    requires cfg.Valid() && Shaped(cfg, s) && Enabled(cfg, s, a) && 0 <= i < |cfg.weights|
    requires Explained(history, cfg.unhealthyAt, cfg.healthyAt, s.health[i])
    ensures Explained(history + Reports(a, i), cfg.unhealthyAt, cfg.healthyAt, Apply(cfg, s, a).health[i])
  {
    var f, h := cfg.unhealthyAt, cfg.healthyAt;
    if Reports(a, i) == [] {
      assert history + [] == history;
      ExplainedByFields(history, f, h, s.health[i], Apply(cfg, s, a).health[i]);
    } else if Reports(a, i)[0].Failed? {
      FailureExplained(history, Reports(a, i)[0], f, h, s.health[i], cfg.cooldown);
    } else {
      SuccessExplained(history, Reports(a, i)[0], f, h, s.health[i]);
    }
  }

  /**
   * In every run, after any number of actions, the flag and both counters of a backend are what the
   * outcomes reported on it say: selections, abandoned requests, re-armed cooldowns and everything that
   * happens to other backends change none of the three.
   */
  lemma {:induction false} HealthFollowsOutcomes(cfg: Config, r: Trace, k: nat, i: int)
    requires cfg.Valid() && IsRun(cfg, r) && k <= |r.actions| && 0 <= i < |cfg.weights|
    ensures Explained(OutcomesOf(r, k, i), cfg.unhealthyAt, cfg.healthyAt, r.states[k].health[i])
  {
    if k == 0 {
      NothingEjected(cfg.unhealthyAt, cfg.healthyAt);
    } else {
      HealthFollowsOutcomes(cfg, r, k - 1, i);
      assert IsStep(cfg, r.states[k - 1], r.actions[k - 1], r.states[k]);
      ActionExplained(cfg, r.states[k - 1], r.actions[k - 1], i, OutcomesOf(r, k - 1, i));
    }
  }

  // ----- one trial per cooldown -----

  /** The reading at which action `a` starts a cooldown of backend `i`: its ejection, or a trial routed to it. */
  function ArmTime(cfg: Config, s: System, a: Action, i: int): Option<uint64>
    requires Shaped(cfg, s) && 0 <= i < |cfg.weights|
  {
    if a.Route? then
      if Selected(cfg, s, a) == Some(i) && !s.health[i].healthy then Some(a.armed) else None
    else if (a.Fail? || a.ProbeFailed?) && a.i == i && s.health[i].Ejects(cfg.unhealthyAt) then Some(a.at)
    else None
  }

  /**
   * A cooldown armed at `t` ends exactly when `cooldown` has passed, except that a clock at its last
   * representable reading ends every cooldown that saturated.
   */
  lemma CooldownEnds(h: Health, t: uint64, cooldown: uint64, now: uint64)
    requires !h.healthy
    ensures h.Armed(t, cooldown).Eligible(now) <==>
            now >= t + cooldown || (now == U64_MAX && t + cooldown > U64_MAX)
  {
  }

  /** So at the end of the clock two trials can be closer than the cooldown. */
  lemma CooldownCutShort()
    ensures var h := FRESH.(healthy := false).Armed(U64_MAX - 1, 10);
            h.Eligible(U64_MAX) && U64_MAX < (U64_MAX - 1) + 10
  {
    CooldownEnds(FRESH.(healthy := false), U64_MAX - 1, 10, U64_MAX);
  }

  /** The reading at which the last cooldown of backend `i` was armed, if it has not been promoted since. */
  ghost function LastArm(cfg: Config, r: Trace, k: nat, i: int): Option<uint64>
    requires IsRun(cfg, r) && k <= |r.actions| && 0 <= i < |cfg.weights|
  {
    if k == 0 then None
    else if ArmTime(cfg, r.states[k - 1], r.actions[k - 1], i).Some? then ArmTime(cfg, r.states[k - 1], r.actions[k - 1], i)
    else if r.states[k].health[i].healthy then None
    else LastArm(cfg, r, k - 1, i)
  }

  /** One action arms the cooldown, clears it by a promotion, or leaves it. */
  lemma UntilStep(cfg: Config, s: System, a: Action, i: int, h: Health, g: Health)
    requires Shaped(cfg, s) && Enabled(cfg, s, a) && 0 <= i < |cfg.weights|
    requires h == s.health[i] && g == Apply(cfg, s, a).health[i]
    ensures match ArmTime(cfg, s, a, i)
            case Some(t) => !g.healthy && g.until == SaturatingAddU64(t, cfg.cooldown)
            case None => if g.healthy && !h.healthy then g.until == 0 else g.until == h.until && g.healthy == h.healthy
  {
  }

  /** A healthy backend has no cooldown; an unhealthy one has the one last armed. */
  lemma {:induction false} UntilFollowsArms(cfg: Config, r: Trace, k: nat, i: int)
    requires cfg.Valid() && IsRun(cfg, r) && k <= |r.actions| && 0 <= i < |cfg.weights|
    ensures var h, arm := r.states[k].health[i], LastArm(cfg, r, k, i);
            && (h.healthy <==> arm.None?)
            && h.until == if arm.None? then 0 else SaturatingAddU64(arm.value, cfg.cooldown)
  {
    if k == 0 {
    } else {
      UntilFollowsArms(cfg, r, k - 1, i);
      assert IsStep(cfg, r.states[k - 1], r.actions[k - 1], r.states[k]);
      UntilStep(cfg, r.states[k - 1], r.actions[k - 1], i, r.states[k - 1].health[i], r.states[k].health[i]);
    }
  }

  /**
   * Exactly when a backend may be picked, in every reachable state: its reported outcomes do not leave it
   * ejected, or a full cooldown has passed since its ejection or its last trial, whichever is later - or the
   * clock is at its last reading and that cooldown saturated.
   */
  lemma EligibleExactly(cfg: Config, r: Trace, k: nat, i: int, now: seq<uint64>)
    requires cfg.Valid() && IsRun(cfg, r) && k <= |r.actions| && 0 <= i < |cfg.weights| == |now|
    ensures LastArm(cfg, r, k, i).None? <==> !Ejected(OutcomesOf(r, k, i), cfg.unhealthyAt, cfg.healthyAt)
    ensures i in EligibleAt(cfg, r.states[k], now) <==>
            match LastArm(cfg, r, k, i)
            case None => true
            case Some(t) => now[i] >= t + cfg.cooldown || (now[i] == U64_MAX && t + cfg.cooldown > U64_MAX)
  {
    HealthFollowsOutcomes(cfg, r, k, i);
    UntilFollowsArms(cfg, r, k, i);
  }

  /** Backend `i` is held out until `t` plus the cooldown. */
  predicate HeldFrom(cfg: Config, s: System, i: int, t: uint64)
    requires Shaped(cfg, s) && 0 <= i < |cfg.weights|
  {
    !s.health[i].healthy && s.clock[i] >= t && s.health[i].until >= SaturatingAddU64(t, cfg.cooldown)
  }

  lemma ArmHolds(cfg: Config, s: System, a: Action, i: int, t: uint64)
    requires Shaped(cfg, s) && Enabled(cfg, s, a) && 0 <= i < |cfg.weights|
    requires ArmTime(cfg, s, a, i) == Some(t)
    ensures HeldFrom(cfg, Apply(cfg, s, a), i, t)
  {
  }

  lemma StaysHeld(cfg: Config, s: System, a: Action, i: int, t: uint64)
    requires Shaped(cfg, s) && Enabled(cfg, s, a) && 0 <= i < |cfg.weights|
    requires HeldFrom(cfg, s, i, t) && !Apply(cfg, s, a).health[i].healthy
    ensures HeldFrom(cfg, Apply(cfg, s, a), i, t)
  {
  }

  /** Backend `i` is unhealthy in every state after action `p` up to the one before action `q`. */
  ghost predicate UnhealthyBetween(cfg: Config, r: Trace, p: nat, q: nat, i: int)
    requires IsRun(cfg, r) && q <= |r.actions| && 0 <= i < |cfg.weights|
  {
    forall k :: p < k <= q ==> !r.states[k].health[i].healthy
  }

  lemma {:induction false} HeldThroughout(cfg: Config, r: Trace, p: nat, k: nat, i: int, t: uint64)
    requires IsRun(cfg, r) && p < k <= |r.actions| && 0 <= i < |cfg.weights|
    requires UnhealthyBetween(cfg, r, p, k, i) && ArmTime(cfg, r.states[p], r.actions[p], i) == Some(t)
    ensures HeldFrom(cfg, r.states[k], i, t)
    decreases k
  {
    assert IsStep(cfg, r.states[k - 1], r.actions[k - 1], r.states[k]);
    if k == p + 1 {
      ArmHolds(cfg, r.states[p], r.actions[p], i, t);
    } else {
      HeldThroughout(cfg, r, p, k - 1, i, t);
      StaysHeld(cfg, r.states[k - 1], r.actions[k - 1], i, t);
    }
  }

  /**
   * Trial spacing over whole runs: while a backend stays unhealthy, a selection at reading `now` comes
   * at least one cooldown after its ejection and after every earlier trial - whatever successes below
   * the threshold, failures, probes and other selections come between - unless the clock has run out.
   */
  lemma TrialsSpaced(cfg: Config, r: Trace, p: nat, q: nat, i: int, t: uint64)
    requires IsRun(cfg, r) && p < q < |r.actions| && 0 <= i < |cfg.weights|
    requires UnhealthyBetween(cfg, r, p, q, i) && ArmTime(cfg, r.states[p], r.actions[p], i) == Some(t)
    requires Selected(cfg, r.states[q], r.actions[q]) == Some(i)
    ensures r.actions[q].now[i] >= t + cfg.cooldown || r.actions[q].now[i] == U64_MAX
  {
    HeldThroughout(cfg, r, p, q, i, t);
  }

  // ----- passive recovery -----

  /**
   * Since an ejection at `t` that left `left` requests pending, each of the `successes + pending - left`
   * trials since has used up one more cooldown, unless the clock has run out.
   */
  predicate Paced(cfg: Config, s: System, i: int, t: uint64, left: nat)
    requires Shaped(cfg, s) && 0 <= i < |cfg.weights|
  {
    var trials := s.health[i].successes + s.pending[i] - left;
    && !s.health[i].healthy
    && (s.health[i].until >= t + cfg.cooldown * trials + cfg.cooldown || s.health[i].until == U64_MAX)
    && (s.clock[i] >= t + cfg.cooldown * trials || s.clock[i] == U64_MAX)
  }

  /** Backend `i` hears only of requests that were routed to it. */
  predicate Passive(a: Action, i: int)
  {
    (a.ProbeOk? || a.ProbeFailed?) ==> a.i != i
  }

  lemma Cooldowns(cooldown: nat, n: int, m: int)
    ensures n <= m ==> cooldown * n <= cooldown * m
    ensures cooldown * (n + 1) == cooldown * n + cooldown
  {
  }

  lemma EjectionPaced(cfg: Config, s: System, a: Action, i: int, t: uint64)
    requires Shaped(cfg, s) && Enabled(cfg, s, a) && 0 <= i < |cfg.weights|
    requires a == Fail(i, t) && s.health[i].Ejects(cfg.unhealthyAt)
    ensures Paced(cfg, Apply(cfg, s, a), i, t, Apply(cfg, s, a).pending[i])
  {
    assert cfg.cooldown * 0 == 0;
  }

  lemma StaysPaced(cfg: Config, s: System, a: Action, i: int, t: uint64, left: nat)
    requires Shaped(cfg, s) && Enabled(cfg, s, a) && 0 <= i < |cfg.weights| && Passive(a, i)
    requires Paced(cfg, s, i, t, left) && !Apply(cfg, s, a).health[i].healthy
    ensures Paced(cfg, Apply(cfg, s, a), i, t, left)
  {
    var next := Apply(cfg, s, a);
    var trials, after := s.health[i].successes + s.pending[i] - left, next.health[i].successes + next.pending[i] - left;
    Cooldowns(cfg.cooldown, trials, after);
    Cooldowns(cfg.cooldown, after, trials);
    if a.Route? && Selected(cfg, s, a) == Some(i) {
      assert after == trials + 1;
    } else {
      assert after <= trials;
    }
  }

  /** Action `p` is a failed request that ejects backend `i` at `t`, leaving `left` requests pending. */
  ghost predicate EjectedBy(cfg: Config, r: Trace, p: nat, i: int, t: uint64, left: nat)
    requires IsRun(cfg, r) && p < |r.actions| && 0 <= i < |cfg.weights|
  {
    && r.actions[p] == Fail(i, t) && r.states[p].health[i].Ejects(cfg.unhealthyAt)
    && left == r.states[p + 1].pending[i]
  }

  lemma {:induction false} PacedThroughout(cfg: Config, r: Trace, p: nat, k: nat, i: int, t: uint64, left: nat)
    requires IsRun(cfg, r) && p < k <= |r.actions| && 0 <= i < |cfg.weights|
    requires UnhealthyBetween(cfg, r, p, k, i) && EjectedBy(cfg, r, p, i, t, left)
    requires forall l :: p < l < k ==> Passive(r.actions[l], i)
    ensures Paced(cfg, r.states[k], i, t, left)
    decreases k
  {
    assert IsStep(cfg, r.states[k - 1], r.actions[k - 1], r.states[k]);
    if k == p + 1 {
      EjectionPaced(cfg, r.states[p], r.actions[p], i, t);
    } else {
      PacedThroughout(cfg, r, p, k - 1, i, t, left);
      StaysPaced(cfg, r.states[k - 1], r.actions[k - 1], i, t, left);
    }
  }

  /**
   * Passive recovery time: a backend ejected at `t` with `left` requests still pending and no active
   * probes is promoted no earlier than `t + (healthyAt - left) * cooldown`. With requests that end one
   * at a time nothing is left pending, and the wait is `healthyAt` cooldowns.
   */
  lemma PassiveRecoveryTime(cfg: Config, r: Trace, p: nat, q: nat, i: int, t: uint64, left: nat)
    requires IsRun(cfg, r) && p < q < |r.actions| && 0 <= i < |cfg.weights|
    requires UnhealthyBetween(cfg, r, p, q, i) && EjectedBy(cfg, r, p, i, t, left)
    requires forall l :: p < l < q ==> Passive(r.actions[l], i)
    requires r.actions[q].Respond? && r.actions[q].i == i && r.states[q].health[i].Promotes(cfg.healthyAt)
    ensures r.actions[q].at >= t + cfg.cooldown * (cfg.healthyAt - left) || r.actions[q].at == U64_MAX
  {
    PacedThroughout(cfg, r, p, q, i, t, left);
    assert IsStep(cfg, r.states[q], r.actions[q], r.states[q + 1]);
    Cooldowns(cfg.cooldown, cfg.healthyAt - left, r.states[q].health[i].successes + r.states[q].pending[i] - left);
  }

  /** Requests are handled one at a time: one is routed only when none is pending. */
  ghost predicate OneAtATime(cfg: Config, r: Trace)
    requires IsRun(cfg, r)
  {
    forall k, i :: 0 <= k < |r.actions| && r.actions[k].Route? && 0 <= i < |cfg.weights| ==> r.states[k].pending[i] == 0
  }

  lemma {:induction false} AtMostOnePending(cfg: Config, r: Trace, k: nat, i: int)
    requires IsRun(cfg, r) && OneAtATime(cfg, r) && k <= |r.actions| && 0 <= i < |cfg.weights|
    ensures r.states[k].pending[i] <= 1
  {
    if k == 0 {
    } else {
      AtMostOnePending(cfg, r, k - 1, i);
      assert IsStep(cfg, r.states[k - 1], r.actions[k - 1], r.states[k]);
    }
  }

  /** So with requests handled one at a time the ejecting failure leaves none pending: `healthyAt` full cooldowns. */
  lemma SequentialRecoveryTime(cfg: Config, r: Trace, p: nat, q: nat, i: int, t: uint64)
    requires IsRun(cfg, r) && OneAtATime(cfg, r) && p < q < |r.actions| && 0 <= i < |cfg.weights|
    requires r.actions[p] == Fail(i, t) && r.states[p].health[i].Ejects(cfg.unhealthyAt)
    requires UnhealthyBetween(cfg, r, p, q, i)
    requires forall l :: p < l < q ==> Passive(r.actions[l], i)
    requires r.actions[q].Respond? && r.actions[q].i == i && r.states[q].health[i].Promotes(cfg.healthyAt)
    ensures r.actions[q].at >= t + cfg.cooldown * cfg.healthyAt || r.actions[q].at == U64_MAX
  {
    AtMostOnePending(cfg, r, p, i);
    assert IsStep(cfg, r.states[p], r.actions[p], r.states[p + 1]);
    PassiveRecoveryTime(cfg, r, p, q, i, t, 0);
  }
}
