/**
 * Runs in which a backend is ejected and recovers by its own trials, as early as the bound on passive
 * recovery allows: the bound is exact, and recovery does happen.
 */
module RecoveryRuns {
  import opened MachineInts
  import opened Upstream
  import opened PoolRuns
  import opened Wrappers
  import RoundRobin
  import Balancer
  import Sums

  /** A pool of one backend. */
  predicate Alone(cfg: Config)
  {
    cfg.Valid() && |cfg.weights| == 1
  }

  function Last(r: Trace): System
    requires r.states != []
  {
    r.states[|r.states| - 1]
  }

  function Then(cfg: Config, r: Trace, a: Action): Trace
    requires r.states != [] && Shaped(cfg, Last(r)) && Enabled(cfg, Last(r), a)
  {
    Trace(r.states + [Apply(cfg, Last(r), a)], r.actions + [a])
  }

  /** The backend is in health `h` with `pending` requests, read last at `clock`. */
  ghost predicate Standing(cfg: Config, r: Trace, h: Health, pending: nat, clock: uint64)
  {
    IsRun(cfg, r) && Alone(cfg) && Last(r).health == [h] && Last(r).pending == [pending] && Last(r).clock == [clock]
  }

  /** A request is routed to it, if it may be picked. */
  lemma RouteAlone(cfg: Config, r: Trace, h: Health, pending: nat, clock: uint64, now: uint64) returns (more: Trace)
    requires Standing(cfg, r, h, pending, clock) && now >= clock && (h.healthy || now >= h.until)
    ensures Enabled(cfg, Last(r), Route([now], now)) && more == Then(cfg, r, Route([now], now))
    ensures Standing(cfg, more, if h.healthy then h else h.Armed(now, cfg.cooldown), pending + 1, now)
  {
    var s, a := Last(r), Route([now], now);
    assert 0 in EligibleAt(cfg, s, [now]);
    assert Selected(cfg, s, a) == Some(0);
    more := Then(cfg, r, a);
    RunGoesOn(cfg, r, a, more);
  }

  lemma RespondAlone(cfg: Config, r: Trace, h: Health, pending: nat, clock: uint64) returns (more: Trace)
    requires Standing(cfg, r, h, pending, clock) && pending > 0
    ensures Enabled(cfg, Last(r), Respond(0, clock)) && more == Then(cfg, r, Respond(0, clock))
    ensures Standing(cfg, more, h.AfterSuccess(cfg.healthyAt), pending - 1, clock)
  {
    more := Then(cfg, r, Respond(0, clock));
    RunGoesOn(cfg, r, Respond(0, clock), more);
  }

  lemma FailAlone(cfg: Config, r: Trace, h: Health, pending: nat, clock: uint64) returns (more: Trace)
    requires Standing(cfg, r, h, pending, clock) && pending > 0
    ensures Enabled(cfg, Last(r), Fail(0, clock)) && more == Then(cfg, r, Fail(0, clock))
    ensures Standing(cfg, more, h.AfterFailure(cfg.unhealthyAt, clock, cfg.cooldown), pending - 1, clock)
  {
    more := Then(cfg, r, Fail(0, clock));
    RunGoesOn(cfg, r, Fail(0, clock), more);
  }

  // ----- ejection at time 0 -----

  lemma {:induction false} FailuresAlone(cfg: Config, f: uint32) returns (r: Trace)
    requires Alone(cfg) && f < cfg.unhealthyAt
    ensures Standing(cfg, r, Health(f, 0, true, 0), 0, 0) && OneAtATime(cfg, r)
    decreases f
  {
    if f == 0 {
      r := HealthyFresh(cfg);
      assert Last(r).health == [FRESH] && Last(r).pending == [0] && Last(r).clock == [0];
    } else {
      var before := FailuresAlone(cfg, f - 1);
      var routed := RouteAlone(cfg, before, Health(f - 1, 0, true, 0), 0, 0, 0);
      r := FailAlone(cfg, routed, Health(f - 1, 0, true, 0), 1, 0);
    }
  }

  // ----- recovery by trials -----

  /** Ejected at time 0 by action `p`, with `j` trials that succeeded since, the last of them at `time`. */
  ghost predicate Recovering(cfg: Config, r: Trace, p: nat, h: Health, j: nat, time: uint64)
  {
    && Standing(cfg, r, h, 0, time) && OneAtATime(cfg, r)
    && !h.healthy && h.successes == j && h.until == SaturatingAddU64(time, cfg.cooldown)
    && p < |r.actions| && r.actions[p] == Fail(0, 0) && r.states[p].health[0].Ejects(cfg.unhealthyAt)
    && UnhealthyBetween(cfg, r, p, |r.actions|, 0)
    && forall l :: p < l < |r.actions| ==> Passive(r.actions[l], 0)
  }

  lemma EjectedAlone(cfg: Config) returns (r: Trace, p: nat, h: Health)
    requires Alone(cfg)
    ensures Recovering(cfg, r, p, h, 0, 0)
  {
    var f := cfg.unhealthyAt - 1;
    var before := FailuresAlone(cfg, f);
    var routed := RouteAlone(cfg, before, Health(f, 0, true, 0), 0, 0, 0);
    p := |routed.actions|;
    r := FailAlone(cfg, routed, Health(f, 0, true, 0), 1, 0);
    h := Health(f, 0, true, 0).AfterFailure(cfg.unhealthyAt, 0, cfg.cooldown);
    assert r.states[p] == Last(routed);
  }

  /** The next trial is routed as soon as the cooldown ends. */
  lemma TrialAlone(cfg: Config, r: Trace, p: nat, h: Health, j: nat, time: uint64, next: uint64)
    returns (more: Trace)
    requires Recovering(cfg, r, p, h, j, time) && next == time + cfg.cooldown
    ensures Enabled(cfg, Last(r), Route([next], next)) && more == Then(cfg, r, Route([next], next))
    ensures Standing(cfg, more, h.Armed(next, cfg.cooldown), 1, next) && OneAtATime(cfg, more)
    ensures UnhealthyBetween(cfg, more, p, |more.actions|, 0)
  {
    more := RouteAlone(cfg, r, h, 0, time, next);
    forall k | p < k <= |more.actions|
      ensures !more.states[k].health[0].healthy
    {
      assert k <= |r.actions| ==> more.states[k] == r.states[k];
    }
  }

  /** Its success below the threshold is counted. */
  lemma TrialCounted(cfg: Config, r: Trace, p: nat, h: Health, j: nat, time: uint64, next: uint64)
    returns (more: Trace, g: Health)
    requires Recovering(cfg, r, p, h, j, time) && next == time + cfg.cooldown && j + 1 < cfg.healthyAt
    ensures Recovering(cfg, more, p, g, j + 1, next)
  {
    var routed := TrialAlone(cfg, r, p, h, j, time, next);
    more := RespondAlone(cfg, routed, h.Armed(next, cfg.cooldown), 1, next);
    g := h.Armed(next, cfg.cooldown).AfterSuccess(cfg.healthyAt);
    forall k | p < k <= |more.actions|
      ensures !more.states[k].health[0].healthy
    {
      assert k <= |routed.actions| ==> more.states[k] == routed.states[k];
    }
    forall l | p < l < |more.actions|
      ensures Passive(more.actions[l], 0)
    {
      assert l < |r.actions| ==> more.actions[l] == r.actions[l];
    }
    assert more.states[p] == r.states[p] && more.actions[p] == r.actions[p];
  }

  lemma {:induction false} TrialsCounted(cfg: Config, j: nat, time: uint64) returns (r: Trace, p: nat, h: Health)
    requires Alone(cfg) && j < cfg.healthyAt && time == cfg.cooldown * j
    ensures Recovering(cfg, r, p, h, j, time)
  {
    if j == 0 {
      r, p, h := EjectedAlone(cfg);
    } else {
      Sums.OneMore(cfg.cooldown, j - 1);
      assert 0 <= cfg.cooldown * (j - 1);
      r, p, h := TrialsCounted(cfg, j - 1, time - cfg.cooldown);
      r, h := TrialCounted(cfg, r, p, h, j - 1, time - cfg.cooldown, time);
    }
  }

  /** Without probes, one request at a time: ejected at 0 by action `p`, promoted at `end` by action `q`. */
  ghost predicate Promoted(cfg: Config, r: Trace, p: nat, q: nat, end: uint64)
  {
    && Alone(cfg) && IsRun(cfg, r) && OneAtATime(cfg, r) && p < q < |r.actions|
    && r.actions[p] == Fail(0, 0) && r.states[p].health[0].Ejects(cfg.unhealthyAt)
    && UnhealthyBetween(cfg, r, p, q, 0) && (forall l :: p < l < q ==> Passive(r.actions[l], 0))
    && r.actions[q] == Respond(0, end) && r.states[q].health[0].Promotes(cfg.healthyAt)
    && r.states[q + 1].health[0] == FRESH
  }

  /** The success that reaches the threshold promotes it. */
  lemma TrialPromotes(cfg: Config, before: Trace, p: nat, h: Health, j: nat, time: uint64, end: uint64)
    returns (r: Trace, q: nat)
    requires Recovering(cfg, before, p, h, j, time) && end == time + cfg.cooldown && j + 1 == cfg.healthyAt
    ensures Promoted(cfg, r, p, q, end)
  {
    var routed := TrialAlone(cfg, before, p, h, j, time, end);
    q := |routed.actions|;
    r := RespondAlone(cfg, routed, h.Armed(end, cfg.cooldown), 1, end);
    assert r.states[q] == Last(routed) && r.states[q + 1] == Last(r);
    assert forall k :: 0 <= k <= q ==> r.states[k] == routed.states[k];
    assert r.states[p] == before.states[p] && r.actions[p] == before.actions[p];
    forall l | p < l < q
      ensures Passive(r.actions[l], 0)
    {
      assert l < |before.actions| ==> r.actions[l] == before.actions[l];
    }
  }

  /**
   * Passive recovery happens, and no later than it must: for every cooldown and all thresholds there is a
   * run without probes, one request at a time, in which a backend ejected at 0 is promoted at exactly
   * `healthyAt` cooldowns and is then as good as new.
   */
  lemma RecoveryAttained(cfg: Config, end: uint64) returns (r: Trace, p: nat, q: nat)
    requires Alone(cfg) && end == cfg.cooldown * cfg.healthyAt
    ensures Promoted(cfg, r, p, q, end)
  {
    var j := cfg.healthyAt - 1;
    Sums.OneMore(cfg.cooldown, j);
    assert 0 <= cfg.cooldown * j;
    var before, first, h := TrialsCounted(cfg, j, end - cfg.cooldown);
    p := first;
    r, q := TrialPromotes(cfg, before, p, h, j, end - cfg.cooldown, end);
  }
}
