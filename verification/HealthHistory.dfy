/**
 * What the wrapping outcome counters mean: a backend is unhealthy exactly when its history holds a
 * full run of failures that no full run of successes has followed.
 */
module HealthHistory {
  import opened MachineInts
  import opened Upstream
  import opened Wrappers

  /** A reported outcome; a failure carries the clock reading at which it was recorded. */
  datatype Outcome = Succeeded | Failed(now: uint64)

  /** The state after a history of outcomes, from a fresh backend. */
  function After(history: seq<Outcome>, unhealthyAt: uint32, healthyAt: uint32, cooldown: uint64): Health
  {
    if history == [] then FRESH
    else
      var h := After(history[..|history| - 1], unhealthyAt, healthyAt, cooldown);
      match history[|history| - 1]
      case Succeeded => h.AfterSuccess(healthyAt)
      case Failed(now) => h.AfterFailure(unhealthyAt, now, cooldown)
  }

  predicate AllFailed(history: seq<Outcome>, from: int, n: int)
  {
    0 <= from && from + n <= |history| && forall k :: from <= k < from + n ==> history[k].Failed?
  }

  predicate AllSucceeded(history: seq<Outcome>, from: int, n: int)
  {
    0 <= from && from + n <= |history| && forall k :: from <= k < from + n ==> history[k].Succeeded?
  }

  ghost predicate EjectedFrom(history: seq<Outcome>, a: int, unhealthyAt: uint32, healthyAt: uint32)
  {
    AllFailed(history, a, unhealthyAt) && forall b :: a + unhealthyAt <= b ==> !AllSucceeded(history, b, healthyAt)
  }

  /** Some `unhealthyAt` failures in a row have no `healthyAt` successes in a row after them. */
  ghost predicate Ejected(history: seq<Outcome>, unhealthyAt: uint32, healthyAt: uint32)
  {
    exists a :: EjectedFrom(history, a, unhealthyAt, healthyAt)
  }

  function TrailingFailures(history: seq<Outcome>): nat
  {
    if history == [] || history[|history| - 1].Succeeded? then 0
    else 1 + TrailingFailures(history[..|history| - 1])
  }

  function TrailingSuccesses(history: seq<Outcome>): nat
  {
    if history == [] || history[|history| - 1].Failed? then 0
    else 1 + TrailingSuccesses(history[..|history| - 1])
  }

  lemma {:induction false} TrailingFailuresRun(history: seq<Outcome>, n: nat)
    ensures TrailingFailures(history) >= n <==> AllFailed(history, |history| - n, n)
  {
    if n == 0 || history == [] {
    } else {
      var prefix := history[..|history| - 1];
      TrailingFailuresRun(prefix, n - 1);
      if AllFailed(history, |history| - n, n) {
        assert AllFailed(prefix, |prefix| - (n - 1), n - 1);
      }
    }
  }

  lemma {:induction false} TrailingSuccessesRun(history: seq<Outcome>, n: nat)
    ensures TrailingSuccesses(history) >= n <==> AllSucceeded(history, |history| - n, n)
  {
    if n == 0 || history == [] {
    } else {
      var prefix := history[..|history| - 1];
      TrailingSuccessesRun(prefix, n - 1);
      if AllSucceeded(history, |history| - n, n) {
        assert AllSucceeded(prefix, |prefix| - (n - 1), n - 1);
      }
    }
  }

  /** A failure ejects, or keeps ejected, by completing a run of failures. */
  lemma FailureEjects(h: seq<Outcome>, o: Outcome, f: uint32, s: uint32)
    requires f >= 1 && s >= 1 && o.Failed?
    ensures Ejected(h + [o], f, s) <==> Ejected(h, f, s) || TrailingFailures(h) + 1 >= f
  {
    var g := h + [o];
    assert g[|h|] == o && forall k :: 0 <= k < |h| ==> g[k] == h[k];
    TrailingFailuresRun(h, f - 1);
    if Ejected(h, f, s) {
      var a :| EjectedFrom(h, a, f, s);
      forall b | a + f <= b
        ensures !AllSucceeded(g, b, s)
      {
        if AllSucceeded(g, b, s) {
          assert b + s <= |h|;
          assert AllSucceeded(h, b, s);
        }
      }
      assert EjectedFrom(g, a, f, s);
    }
    if TrailingFailures(h) + 1 >= f {
      assert EjectedFrom(g, |h| - (f - 1), f, s);
    }
    if Ejected(g, f, s) {
      var a :| EjectedFrom(g, a, f, s);
      if a + f <= |h| {
        forall b | a + f <= b
          ensures !AllSucceeded(h, b, s)
        {
          assert AllSucceeded(h, b, s) ==> AllSucceeded(g, b, s);
        }
        assert EjectedFrom(h, a, f, s);
      } else {
        assert AllFailed(h, |h| - (f - 1), f - 1);
      }
    }
  }

  /** A success keeps a backend ejected exactly when it does not complete a run of successes. */
  lemma SuccessKeepsEjected(h: seq<Outcome>, o: Outcome, f: uint32, s: uint32)
    requires f >= 1 && s >= 1 && o.Succeeded?
    ensures Ejected(h + [o], f, s) <==> Ejected(h, f, s) && TrailingSuccesses(h) + 1 < s
  {
    var g := h + [o];
    assert g[|h|] == o && forall k :: 0 <= k < |h| ==> g[k] == h[k];
    TrailingSuccessesRun(h, s - 1);
    if Ejected(g, f, s) {
      var a :| EjectedFrom(g, a, f, s);
      assert g[a + f - 1].Failed?;
      forall b | a + f <= b
        ensures !AllSucceeded(h, b, s)
      {
        assert AllSucceeded(h, b, s) ==> AllSucceeded(g, b, s);
      }
      assert EjectedFrom(h, a, f, s);
      assert TrailingSuccesses(h) + 1 >= s ==> AllSucceeded(g, |h| - (s - 1), s);
    }
    if Ejected(h, f, s) && TrailingSuccesses(h) + 1 < s {
      var a :| EjectedFrom(h, a, f, s);
      forall b | a + f <= b
        ensures !AllSucceeded(g, b, s)
      {
        assert AllSucceeded(g, b, s) && b + s <= |h| ==> AllSucceeded(h, b, s);
        assert AllSucceeded(g, b, s) && b + s > |h| ==> AllSucceeded(h, |h| - (s - 1), s - 1);
      }
      assert EjectedFrom(g, a, f, s);
    }
  }

  /** The counters as the history explains them; while ejected the failure counter may have wrapped. */
  ghost predicate Explained(history: seq<Outcome>, f: uint32, s: uint32, h: Health)
  {
    && (h.healthy <==> !Ejected(history, f, s))
    && h.failures == TrailingFailures(history) % (U32_MAX + 1)
    && (h.healthy ==> h.failures == TrailingFailures(history) < f && h.successes == 0)
    && (!h.healthy ==> h.successes == TrailingSuccesses(history) < s)
  }

  lemma NothingEjected(f: uint32, s: uint32)
    requires f >= 1
    ensures !Ejected([], f, s)
  {
    forall a
      ensures !EjectedFrom([], a, f, s)
    {
    }
  }

  lemma FailureExplained(h: seq<Outcome>, o: Outcome, f: uint32, s: uint32, state: Health, cooldown: uint64)
    requires f >= 1 && s >= 1 && o.Failed? && Explained(h, f, s, state)
    ensures Explained(h + [o], f, s, state.AfterFailure(f, o.now, cooldown))
  {
    FailureEjects(h, o, f, s);
    WrappedCount(TrailingFailures(h), state.failures);
    assert (h + [o])[..|h|] == h;
  }

  lemma SuccessExplained(h: seq<Outcome>, o: Outcome, f: uint32, s: uint32, state: Health)
    requires f >= 1 && s >= 1 && o.Succeeded? && Explained(h, f, s, state)
    ensures Explained(h + [o], f, s, state.AfterSuccess(s))
  {
    SuccessKeepsEjected(h, o, f, s);
    assert (h + [o])[..|h|] == h;
  }

  /** Whatever the history, and however often the failure counter wraps, the counters mean what the history says. */
  lemma {:induction false} CountersRefineHistory(history: seq<Outcome>, f: uint32, s: uint32, cooldown: uint64)
    requires f >= 1 && s >= 1
    ensures Explained(history, f, s, After(history, f, s, cooldown))
  {
    if history == [] {
      NothingEjected(f, s);
    } else {
      var prefix, o := history[..|history| - 1], history[|history| - 1];
      assert history == prefix + [o];
      CountersRefineHistory(prefix, f, s, cooldown);
      if o.Failed? {
        FailureExplained(prefix, o, f, s, After(prefix, f, s, cooldown), cooldown);
      } else {
        SuccessExplained(prefix, o, f, s, After(prefix, f, s, cooldown));
      }
    }
  }

  /** When the failure was recorded that left the backend ejected. */
  ghost function EjectedAt(history: seq<Outcome>, f: uint32, s: uint32): Option<uint64>
  {
    if history == [] || !Ejected(history, f, s) then None
    else
      var prefix, last := history[..|history| - 1], history[|history| - 1];
      if !Ejected(prefix, f, s) && last.Failed? then Some(last.now) else EjectedAt(prefix, f, s)
  }

  /** Reports alone leave the cooldown of an ejected backend where its ejection put it, and a healthy one without any. */
  lemma {:induction false} UntilRefinesHistory(history: seq<Outcome>, f: uint32, s: uint32, cooldown: uint64)
    requires f >= 1 && s >= 1
    ensures EjectedAt(history, f, s).None? <==> !Ejected(history, f, s)
    ensures After(history, f, s, cooldown).until ==
            match EjectedAt(history, f, s)
            case None => 0
            case Some(t) => SaturatingAddU64(t, cooldown)
  {
    if history == [] {
      NothingEjected(f, s);
    } else {
      var prefix, o := history[..|history| - 1], history[|history| - 1];
      assert history == prefix + [o];
      UntilRefinesHistory(prefix, f, s, cooldown);
      CountersRefineHistory(prefix, f, s, cooldown);
      CountersRefineHistory(history, f, s, cooldown);
      if o.Succeeded? {
        SuccessKeepsEjected(prefix, o, f, s);
      }
    }
  }
}
