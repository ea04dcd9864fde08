/** Per-backend health: consecutive-outcome counters, ejection, cooldown and half-open trials. */
module Upstream {
  import opened MachineInts

  /** The atomic fields of one backend, read together. */
  datatype Health = Health(failures: uint32, successes: uint32, healthy: bool, until: uint64) {

    /** Unhealthy, with the cooldown elapsed. */
    predicate TrialReady(now: uint64)
    {
      !healthy && now >= until
    }

    predicate Eligible(now: uint64)
    {
      healthy || TrialReady(now)
    }

    /** The cooldown restarted at `now`. */
    function Armed(now: uint64, cooldown: uint64): Health
    {
      this.(until := SaturatingAddU64(now, cooldown))
    }

    /** Whether a success promotes the backend. */
    predicate Promotes(threshold: uint32)
    {
      !healthy && SaturatingIncrement(successes) >= threshold
    }

    /** A promoted backend is as good as new. */
    function AfterSuccess(threshold: uint32): (h: Health)
      ensures !healthy && h.healthy ==> h == FRESH
      ensures h.until == if h.healthy && !healthy then 0 else until
    {
      if healthy then this.(failures := 0, successes := 0)
      else if Promotes(threshold) then Health(0, 0, true, 0)
      else this.(failures := 0, successes := WrappingIncrement(successes))
    }

    /** Whether a failure ejects the backend. */
    predicate Ejects(threshold: uint32)
    {
      healthy && SaturatingIncrement(failures) >= threshold
    }

    /** Only the failure that ejects moves the end of the cooldown. */
    function AfterFailure(threshold: uint32, now: uint64, cooldown: uint64): (h: Health)
      ensures h.until == if healthy && !h.healthy then SaturatingAddU64(now, cooldown) else until
    {
      var counted := this.(failures := WrappingIncrement(failures), successes := 0);
      if Ejects(threshold) then counted.(healthy := false).Armed(now, cooldown) else counted
    }
  }

  const FRESH := Health(0, 0, true, 0)

  /** Runtime state of a single backend. Every clock reading is a parameter. */
  class UpstreamState {
    const weight: uint32
    const cooldown: uint64
    var consecutiveFailures: uint32
    var consecutiveSuccesses: uint32
    var healthy: bool
    var cooldownUntil: uint64

    /** The abstract state. */
    function State(): Health
      reads this
    {
      Health(consecutiveFailures, consecutiveSuccesses, healthy, cooldownUntil)
    }

    constructor (weight: uint32, cooldown: uint64)
      ensures State() == FRESH && this.weight == weight && this.cooldown == cooldown
    {
      this.weight, this.cooldown := weight, cooldown;
      consecutiveFailures, consecutiveSuccesses, healthy, cooldownUntil := 0, 0, true, 0;
    }

    method IsEligible(now: uint64) returns (eligible: bool)
      ensures eligible == State().Eligible(now)
      ensures eligible <==> healthy || now >= cooldownUntil
    {
      if healthy {
        return true;
      }
      eligible := TrialReady(now);
    }

    method TrialReady(now: uint64) returns (ready: bool)
      ensures ready == State().TrialReady(now)
      ensures ready <==> !healthy && now >= cooldownUntil
    {
      ready := !healthy && now >= cooldownUntil;
    }

    method ArmCooldown(now: uint64)
      modifies this
      ensures State() == old(State()).Armed(now, cooldown)
      ensures cooldownUntil == if now + cooldown > U64_MAX then U64_MAX else now + cooldown
      ensures healthy == old(healthy)
      ensures consecutiveFailures == old(consecutiveFailures) && consecutiveSuccesses == old(consecutiveSuccesses)
    {
      cooldownUntil := SaturatingAddU64(now, cooldown);
    }

    method RecordSuccess(healthyThreshold: uint32) returns (recovered: bool)
      modifies this
      ensures State() == old(State()).AfterSuccess(healthyThreshold)
      ensures recovered <==> !old(State()).healthy && State().healthy
      ensures recovered <==> old(State()).Promotes(healthyThreshold)
    {
      consecutiveFailures := 0;
      if healthy {
        consecutiveSuccesses := 0;
        return false;
      }
      var prev := consecutiveSuccesses;
      consecutiveSuccesses := WrappingIncrement(prev);
      var newCount := SaturatingIncrement(prev);
      if newCount >= healthyThreshold {
        consecutiveSuccesses := 0;
        cooldownUntil := 0;
        healthy := true;
        return true;
      }
      recovered := false;
    }

    method RecordFailure(threshold: uint32, now: uint64) returns (ejected: bool)
      modifies this
      ensures State() == old(State()).AfterFailure(threshold, now, cooldown)
      ensures ejected <==> old(State()).healthy && !State().healthy
      ensures ejected <==> old(State()).Ejects(threshold)
    {
      consecutiveSuccesses := 0;
      var prev := consecutiveFailures;
      consecutiveFailures := WrappingIncrement(prev);
      var newCount := SaturatingIncrement(prev);
      if newCount >= threshold {
        var was := healthy;
        healthy := false;
        if was {
          ArmCooldown(now);
          return true;
        }
      }
      ejected := false;
    }
  }
}
