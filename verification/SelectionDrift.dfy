/**
 * What concurrent selections get right under every interleaving: each call picks the largest of the
 * values it read, and while at most a fixed number of calls are in flight no accumulator drifts away.
 */
module SelectionDrift {
  import opened MachineInts
  import opened Sums
  import opened Wrappers
  import opened SelectionRaces
  import RoundRobin

  // ----- what a call has credited -----

  function CreditOf(s: Shared, a: Step, id: nat): set<int>
  {
    if a == Credit(id) && id < |s.calls| && s.calls[id].Scanning? then {s.calls[id].idx} else {}
  }

  /** The backends that call `id` found eligible and credited in the first `t` steps. */
  ghost function CreditedBy(r: Trace, t: nat, id: nat): set<int>
    requires |r.states| == |r.steps| + 1 && t <= |r.steps|
  {
    if t == 0 then {} else CreditedBy(r, t - 1, id) + CreditOf(r.states[t - 1], r.steps[t - 1], id)
  }

  /** The books of one call agree with what it credited. */
  ghost predicate Accounted(w: seq<uint32>, call: Call, credited: set<int>)
  {
    call.Scanning? ==>
      && (forall i :: i in credited ==> 0 <= i < call.idx)
      && call.idx <= |w| && call.total == Sum(w, credited)
      && (call.best.None? <==> credited == {})
      && (call.best.Some? ==> call.best.value in credited)
      && (call.best.None? ==> call.bestWeight == I64_MIN)
  }

  lemma CreditAccounted(w: seq<uint32>, call: Call, credited: set<int>, held: int64)
    requires RoundRobin.PositiveWeights(w) && RoundRobin.Total(w) <= I64_MAX
    requires call.Scanning? && call.idx < |w| && Accounted(w, call, credited)
    ensures Accounted(w, Credited(w, call, held), credited + {call.idx})
  {
    SumInsert(w, credited, call.idx);
    SumMonotone(w, credited + {call.idx}, Indices(|w|));
    assert call.idx in credited + {call.idx};
  }

  lemma StepAccounted(w: seq<uint32>, s: Shared, a: Step, id: nat, credited: set<int>)
    requires RoundRobin.PositiveWeights(w) && RoundRobin.Total(w) <= I64_MAX && Enabled(w, s, a)
    requires id < |s.calls| && Accounted(w, s.calls[id], credited)
    ensures Accounted(w, Apply(w, s, a).calls[id], credited + CreditOf(s, a, id))
  {
    if a == Credit(id) {
      CreditAccounted(w, s.calls[id], credited, s.weights[s.calls[id].idx]);
    } else {
      assert credited + CreditOf(s, a, id) == credited;
    }
  }

  lemma {:induction false} NothingBeforeBegin(w: seq<uint32>, r: Trace, t: nat, id: nat)
    requires IsRun(w, r) && t <= |r.steps| && id >= |r.states[t].calls|
    ensures CreditedBy(r, t, id) == {}
  {
    if t == 0 {
    } else {
      assert IsStep(w, r.states[t - 1], r.steps[t - 1], r.states[t]);
      NothingBeforeBegin(w, r, t - 1, id);
    }
  }

  lemma {:induction false} AlwaysAccounted(w: seq<uint32>, r: Trace, t: nat, id: nat)
    requires RoundRobin.PositiveWeights(w) && RoundRobin.Total(w) <= I64_MAX
    requires IsRun(w, r) && t <= |r.steps| && id < |r.states[t].calls|
    ensures Accounted(w, r.states[t].calls[id], CreditedBy(r, t, id))
  {
    if t == 0 {
    } else {
      assert IsStep(w, r.states[t - 1], r.steps[t - 1], r.states[t]);
      if id < |r.states[t - 1].calls| {
        AlwaysAccounted(w, r, t - 1, id);
        StepAccounted(w, r.states[t - 1], r.steps[t - 1], id, CreditedBy(r, t - 1, id));
      } else {
        NothingBeforeBegin(w, r, t - 1, id);
        SumToZero(w, {}, |w|);
      }
    }
  }

  /**
   * Under every interleaving, and whatever wraps: a call gives up exactly when none of its own
   * eligibility reads was positive, and otherwise charges a backend that it credited itself, with
   * exactly the weights that it credited.
   */
  lemma CallEndsByItsOwnReads(w: seq<uint32>, r: Trace, k: nat, id: nat)
    requires RoundRobin.PositiveWeights(w) && RoundRobin.Total(w) <= I64_MAX && IsRun(w, r) && k < |r.steps|
    requires r.steps[k] == GiveUp(id) || r.steps[k] == Charge(id)
    ensures id < |r.states[k].calls| && r.states[k].calls[id].Scanning?
    ensures r.steps[k] == GiveUp(id) <==> CreditedBy(r, k, id) == {}
    ensures r.steps[k] == Charge(id) ==>
              && r.states[k].calls[id].best.Some? && r.states[k].calls[id].best.value in CreditedBy(r, k, id)
              && r.states[k].calls[id].total == Sum(w, CreditedBy(r, k, id))
    ensures r.states[k + 1].calls[id].Returned?
  {
    assert IsStep(w, r.states[k], r.steps[k], r.states[k + 1]);
    AlwaysAccounted(w, r, k, id);
  }

  // ----- what a call has read -----

  /** The step at which call `id` credited backend `i`. */
  ghost function ReadStep(r: Trace, t: nat, id: nat, i: int): (k: nat)
    requires |r.states| == |r.steps| + 1 && t <= |r.steps| && i in CreditedBy(r, t, id)
    ensures k < t && i in CreditOf(r.states[k], r.steps[k], id)
  {
    if i in CreditOf(r.states[t - 1], r.steps[t - 1], id) then t - 1 else ReadStep(r, t - 1, id, i)
  }

  ghost predicate Wide(w: seq<uint32>, r: Trace)
  {
    forall k :: 0 <= k < |r.states| ==> |r.states[k].weights| == |w|
  }

  lemma AlwaysWide(w: seq<uint32>, r: Trace)
    requires IsRun(w, r)
    ensures Wide(w, r)
  {
    forall k | 0 <= k < |r.states|
      ensures |r.states[k].weights| == |w|
    {
      WidthKept(w, r, k);
    }
  }

  /** What call `id` compared for backend `i`, as the program computes it. */
  ghost function ReadValue(w: seq<uint32>, r: Trace, t: nat, id: nat, i: int): int64
    requires |r.states| == |r.steps| + 1 && Wide(w, r) && t <= |r.steps|
    requires i in CreditedBy(r, t, id) && 0 <= i < |w|
  {
    SaturatingAdd64(r.states[ReadStep(r, t, id, i)].weights[i], w[i])
  }

  /** The best weight is the largest value read, and the best backend's. */
  ghost predicate BestOfReads(w: seq<uint32>, r: Trace, t: nat, id: nat, call: Call)
    requires |r.states| == |r.steps| + 1 && Wide(w, r) && t <= |r.steps|
    requires call.Scanning? && Accounted(w, call, CreditedBy(r, t, id))
  {
    && (forall i :: i in CreditedBy(r, t, id) ==> ReadValue(w, r, t, id, i) <= call.bestWeight)
    && (call.best.Some? ==> ReadValue(w, r, t, id, call.best.value) == call.bestWeight)
  }

  lemma ReadKept(w: seq<uint32>, r: Trace, t: nat, id: nat, i: int)
    requires |r.states| == |r.steps| + 1 && Wide(w, r) && 0 < t <= |r.steps| && 0 <= i < |w|
    requires i in CreditedBy(r, t - 1, id) && i !in CreditOf(r.states[t - 1], r.steps[t - 1], id)
    ensures i in CreditedBy(r, t, id) && ReadValue(w, r, t, id, i) == ReadValue(w, r, t - 1, id, i)
  {
  }

  lemma LatestRead(w: seq<uint32>, r: Trace, t: nat, id: nat, i: int)
    requires |r.states| == |r.steps| + 1 && Wide(w, r) && 0 < t <= |r.steps| && 0 <= i < |w|
    requires CreditOf(r.states[t - 1], r.steps[t - 1], id) == {i}
    ensures CreditedBy(r, t, id) == CreditedBy(r, t - 1, id) + {i}
    ensures ReadValue(w, r, t, id, i) == SaturatingAdd64(r.states[t - 1].weights[i], w[i])
  {
  }

  lemma BestAfterCredit(w: seq<uint32>, r: Trace, t: nat, id: nat, call: Call, after: Call, i: int)
    requires |r.states| == |r.steps| + 1 && Wide(w, r) && 0 < t <= |r.steps|
    requires call.Scanning? && i == call.idx < |w| && CreditOf(r.states[t - 1], r.steps[t - 1], id) == {i}
    requires after == Credited(w, call, r.states[t - 1].weights[i])
    requires Accounted(w, call, CreditedBy(r, t - 1, id)) && Accounted(w, after, CreditedBy(r, t, id))
    requires BestOfReads(w, r, t - 1, id, call)
    ensures BestOfReads(w, r, t, id, after)
  {
    LatestRead(w, r, t, id, i);
    forall x | x in CreditedBy(r, t - 1, id)
      ensures ReadValue(w, r, t, id, x) == ReadValue(w, r, t - 1, id, x)
    {
      ReadKept(w, r, t, id, x);
    }
  }

  lemma BestKept(w: seq<uint32>, r: Trace, t: nat, id: nat, call: Call)
    requires IsRun(w, r) && Wide(w, r) && 0 < t <= |r.steps| && r.steps[t - 1] != Credit(id)
    requires call.Scanning? && Accounted(w, call, CreditedBy(r, t - 1, id))
    requires BestOfReads(w, r, t - 1, id, call)
    ensures CreditedBy(r, t, id) == CreditedBy(r, t - 1, id) && BestOfReads(w, r, t, id, call)
  {
    assert CreditedBy(r, t, id) == CreditedBy(r, t - 1, id);
    forall i | i in CreditedBy(r, t - 1, id)
      ensures ReadValue(w, r, t, id, i) == ReadValue(w, r, t - 1, id, i)
    {
      ReadKept(w, r, t, id, i);
    }
  }

  /**
   * Under every interleaving a call in flight holds as its best the backend of the largest value that
   * it read, each at the moment it read it.
   */
  lemma {:induction false} BestIsLargestRead(w: seq<uint32>, r: Trace, t: nat, id: nat)
    requires RoundRobin.PositiveWeights(w) && RoundRobin.Total(w) <= I64_MAX && IsRun(w, r) && Wide(w, r)
    requires t <= |r.steps| && id < |r.states[t].calls| && r.states[t].calls[id].Scanning?
    ensures Accounted(w, r.states[t].calls[id], CreditedBy(r, t, id))
    ensures BestOfReads(w, r, t, id, r.states[t].calls[id])
  {
    AlwaysAccounted(w, r, t, id);
    if t == 0 {
    } else {
      var a := r.steps[t - 1];
      assert IsStep(w, r.states[t - 1], a, r.states[t]);
      if id < |r.states[t - 1].calls| {
        assert r.states[t - 1].calls[id].Scanning?;
        BestIsLargestRead(w, r, t - 1, id);
        if a == Credit(id) {
          var call := r.states[t - 1].calls[id];
          BestAfterCredit(w, r, t, id, call, r.states[t].calls[id], call.idx);
        } else {
          BestKept(w, r, t, id, r.states[t - 1].calls[id]);
        }
      } else {
        NothingBeforeBegin(w, r, t - 1, id);
      }
    }
  }
}
