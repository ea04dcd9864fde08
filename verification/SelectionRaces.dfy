/**
 * Concurrent selections, split at every atomic operation on the shared accumulators: what survives is
 * conservation, since every call gives back exactly what it added.
 */
module SelectionRaces {
  import opened MachineInts
  import opened Sums
  import opened RoundRobin
  import opened Wrappers
  import Balancer

  /** A call in flight with its loop variables, or one that has returned. */
  datatype Call =
    | Scanning(idx: nat, total: int64, best: Option<int>, bestWeight: int64)
    | Returned

  /** The shared accumulators and every call ever begun. */
  datatype Shared = Shared(weights: seq<int64>, calls: seq<Call>)

  datatype Step =
    | Begin
    | Skip(id: nat)
    | Credit(id: nat)
    | Charge(id: nat)
    | GiveUp(id: nat)

  predicate Enabled(w: seq<uint32>, s: Shared, a: Step)
  {
    a.Begin? ||
    (&& a.id < |s.calls| && s.calls[a.id].Scanning?
     && var call := s.calls[a.id];
        match a
        case Charge(_) => call.idx == |w| && call.best.Some? && 0 <= call.best.value < |s.weights|
        case GiveUp(_) => call.idx == |w| && call.best.None?
        case _ => call.idx < |w| == |s.weights|)
  }

  /** One `fetch_add` with the local updates that follow it. */
  function Credited(w: seq<uint32>, call: Call, held: int64): Call
    requires call.Scanning? && call.idx < |w|
  {
    var current := SaturatingAdd64(held, w[call.idx]);
    var better := current > call.bestWeight;
    Scanning(call.idx + 1, SaturatingAdd64(call.total, w[call.idx]),
             if better then Some(call.idx) else call.best, if better then current else call.bestWeight)
  }

  function Apply(w: seq<uint32>, s: Shared, a: Step): Shared
    requires Enabled(w, s, a)
  {
    if a.Begin? then s.(calls := s.calls + [Scanning(0, 0, None, I64_MIN)])
    else
      var call := s.calls[a.id];
      match a
      case Skip(id) => s.(calls := s.calls[id := call.(idx := call.idx + 1)])
      case Credit(id) =>
        var held: int := s.weights[call.idx];
        Shared(s.weights[call.idx := Wrap64(held + w[call.idx])],
               s.calls[id := Credited(w, call, s.weights[call.idx])])
      case Charge(id) =>
        var held: int := s.weights[call.best.value];
        Shared(s.weights[call.best.value := Wrap64(held - call.total)], s.calls[id := Returned])
      case GiveUp(id) => s.(calls := s.calls[id := Returned])
  }

  datatype Trace = Trace(states: seq<Shared>, steps: seq<Step>)

  predicate IsStep(w: seq<uint32>, s: Shared, a: Step, t: Shared)
  {
    Enabled(w, s, a) && t == Apply(w, s, a)
  }

  ghost predicate IsRun(w: seq<uint32>, r: Trace)
  {
    && |r.states| == |r.steps| + 1
    && r.states[0] == Shared(Zeros(|w|), [])
    && forall k, l :: 0 <= k < |r.steps| && l == k + 1 ==> IsStep(w, r.states[k], r.steps[k], r.states[l])
  }

  function Debt(call: Call): int
  {
    if call.Scanning? then call.total else 0
  }

  /** What each call still owes. */
  function Debts(calls: seq<Call>): (d: seq<int>)
    ensures |d| == |calls|
    ensures forall i :: 0 <= i < |calls| ==> d[i] == Debt(calls[i])
  {
    seq(|calls|, i requires 0 <= i < |calls| => Debt(calls[i]))
  }

  function InFlight(calls: seq<Call>): int
  {
    Sum(Debts(calls), Indices(|calls|))
  }

  /** Equal up to a multiple of 2^64, the most that wrapping accumulators can promise. */
  predicate Congruent(x: int, y: int)
  {
    (x - y) % TWO_TO_THE_64 == 0
  }

  /** A call's total is the sum of what it credited, never saturated, and is zero while it has no winner. */
  predicate Honest(w: seq<uint32>, call: Call)
  {
    call.Scanning? ==>
      && call.idx <= |w| && 0 <= call.total <= SumTo(w, Indices(|w|), call.idx)
      && (call.best.None? ==> call.total == 0 && call.bestWeight == I64_MIN)
      && (call.best.Some? ==> 0 <= call.best.value < |w|)
  }

  predicate Booked(w: seq<uint32>, s: Shared)
  {
    |s.weights| == |w| && forall i :: 0 <= i < |s.calls| ==> Honest(w, s.calls[i])
  }

  ghost predicate Conserved(w: seq<uint32>, s: Shared)
  {
    Booked(w, s) && Congruent(Sum(s.weights, Indices(|w|)), InFlight(s.calls))
  }

  lemma CongruentShift(x: int, y: int, before: int, after: int, exact: int)
    requires Congruent(x, y) && (after - exact) % TWO_TO_THE_64 == 0
    ensures Congruent(x + (after - before), y + (exact - before))
  {
  }

  lemma DebtUpdate(calls: seq<Call>, id: nat, call: Call)
    requires id < |calls|
    ensures InFlight(calls[id := call]) == InFlight(calls) + Debt(call) - Debt(calls[id])
  {
    assert Debts(calls[id := call]) == Debts(calls)[id := Debt(call)];
    SumUpdate(Debts(calls), Indices(|calls|), id, Debt(call));
  }

  lemma DebtBegin(calls: seq<Call>)
    ensures InFlight(calls + [Scanning(0, 0, None, I64_MIN)]) == InFlight(calls)
  {
    var more := calls + [Scanning(0, 0, None, I64_MIN)];
    SumToAgree(Debts(more), Indices(|more|), Debts(calls), Indices(|calls|), |calls|);
  }

  lemma {:induction false} PartialAtMostTotal(w: seq<int>, n: nat)
    requires n <= |w| && PositiveWeights(w)
    ensures 0 <= SumTo(w, Indices(|w|), n) <= Total(w)
    ensures n < |w| ==> SumTo(w, Indices(|w|), n) + w[n] <= Total(w)
    decreases |w| - n
  {
    SumToBelow(Zeros(|w|), w, Indices(|w|), n);
    SumToZero(Zeros(|w|), Indices(|w|), n);
    if n == |w| {
    } else {
      PartialAtMostTotal(w, n + 1);
    }
  }

  lemma CreditHonest(w: seq<uint32>, call: Call, held: int64)
    requires PositiveWeights(w) && Total(w) <= I64_MAX && call.Scanning? && call.idx < |w| && Honest(w, call)
    ensures Honest(w, Credited(w, call, held)) && Credited(w, call, held).total == call.total + w[call.idx]
  {
    PartialAtMostTotal(w, call.idx);
  }

  lemma AccumulatorUpdate(w: seq<uint32>, s: Shared, j: nat, exact: int)
    requires |s.weights| == |w| && j < |w| && Congruent(Sum(s.weights, Indices(|w|)), InFlight(s.calls))
    ensures Congruent(Sum(s.weights[j := Wrap64(exact)], Indices(|w|)), InFlight(s.calls) + exact - s.weights[j])
  {
    SumUpdate(s.weights, Indices(|w|), j, Wrap64(exact));
    CongruentShift(Sum(s.weights, Indices(|w|)), InFlight(s.calls), s.weights[j], Wrap64(exact), exact);
  }

  lemma StepBooked(w: seq<uint32>, s: Shared, a: Step)
    requires PositiveWeights(w) && Total(w) <= I64_MAX && Booked(w, s) && Enabled(w, s, a)
    ensures Booked(w, Apply(w, s, a))
  {
    if a.Credit? {
      CreditHonest(w, s.calls[a.id], s.weights[s.calls[a.id].idx]);
    } else if a.Skip? {
      PartialAtMostTotal(w, s.calls[a.id].idx);
    }
  }

  /** What a step does to the sum of debts: exactly what it did, before wrapping, to one accumulator. */
  lemma CreditOwed(w: seq<uint32>, s: Shared, id: nat)
    requires PositiveWeights(w) && Total(w) <= I64_MAX && Booked(w, s) && Enabled(w, s, Credit(id))
    ensures InFlight(Apply(w, s, Credit(id)).calls) == InFlight(s.calls) + w[s.calls[id].idx]
  {
    var call := s.calls[id];
    CreditHonest(w, call, s.weights[call.idx]);
    DebtUpdate(s.calls, id, Credited(w, call, s.weights[call.idx]));
  }

  lemma ChargeOwed(w: seq<uint32>, s: Shared, id: nat)
    requires Enabled(w, s, Charge(id))
    ensures InFlight(Apply(w, s, Charge(id)).calls) == InFlight(s.calls) - s.calls[id].total
  {
    DebtUpdate(s.calls, id, Returned);
  }

  lemma OtherOwed(w: seq<uint32>, s: Shared, a: Step)
    requires Booked(w, s) && Enabled(w, s, a) && !a.Credit? && !a.Charge?
    ensures InFlight(Apply(w, s, a).calls) == InFlight(s.calls) && Apply(w, s, a).weights == s.weights
  {
    if a.Begin? {
      DebtBegin(s.calls);
    } else {
      DebtUpdate(s.calls, a.id, Apply(w, s, a).calls[a.id]);
    }
  }

  lemma CreditConserves(w: seq<uint32>, s: Shared, id: nat, idx: nat, exact: int)
    requires PositiveWeights(w) && Total(w) <= I64_MAX && Conserved(w, s) && Enabled(w, s, Credit(id))
    requires idx == s.calls[id].idx && exact == s.weights[idx] as int + w[idx]
    ensures Conserved(w, Apply(w, s, Credit(id)))
  {
    StepBooked(w, s, Credit(id));
    CreditOwed(w, s, id);
    AccumulatorUpdate(w, s, idx, exact);
    assert Apply(w, s, Credit(id)).weights == s.weights[idx := Wrap64(exact)];
  }

  lemma ChargeConserves(w: seq<uint32>, s: Shared, id: nat, j: int, exact: int)
    requires PositiveWeights(w) && Total(w) <= I64_MAX && Conserved(w, s) && Enabled(w, s, Charge(id))
    requires j == s.calls[id].best.value && exact == s.weights[j] as int - s.calls[id].total
    ensures Conserved(w, Apply(w, s, Charge(id)))
  {
    StepBooked(w, s, Charge(id));
    ChargeOwed(w, s, id);
    AccumulatorUpdate(w, s, j, exact);
    assert Apply(w, s, Charge(id)).weights == s.weights[j := Wrap64(exact)];
  }

  lemma StepConserves(w: seq<uint32>, s: Shared, a: Step)
    requires PositiveWeights(w) && Total(w) <= I64_MAX && Conserved(w, s) && Enabled(w, s, a)
    ensures Conserved(w, Apply(w, s, a))
  {
    if a.Credit? {
      var idx := s.calls[a.id].idx;
      CreditConserves(w, s, a.id, idx, s.weights[idx] as int + w[idx]);
    } else if a.Charge? {
      var call := s.calls[a.id];
      ChargeConserves(w, s, a.id, call.best.value, s.weights[call.best.value] as int - call.total);
    } else {
      StepBooked(w, s, a);
      OtherOwed(w, s, a);
    }
  }

  /**
   * Conservation under every interleaving: after any number of steps of any number of concurrent calls
   * the accumulators sum to what the calls in flight still owe, up to wrap-around.
   */
  lemma {:induction false} EveryInterleavingConserves(w: seq<uint32>, r: Trace, k: nat)
    requires PositiveWeights(w) && Total(w) <= I64_MAX && IsRun(w, r) && k < |r.states|
    ensures Conserved(w, r.states[k])
  {
    if k == 0 {
      SumOfZeros(|w|, Indices(|w|));
    } else {
      EveryInterleavingConserves(w, r, k - 1);
      assert IsStep(w, r.states[k - 1], r.steps[k - 1], r.states[k]);
      StepConserves(w, r.states[k - 1], r.steps[k - 1]);
    }
  }

  lemma NothingOwed(calls: seq<Call>)
    requires forall i :: 0 <= i < |calls| ==> calls[i].Returned?
    ensures InFlight(calls) == 0
  {
    SumToZero(Debts(calls), Indices(|calls|), |calls|);
  }

  lemma SmallMultiple(x: int)
    requires -TWO_TO_THE_64 < x < TWO_TO_THE_64
    ensures Congruent(x, 0) ==> x == 0
  {
  }

  /** With nobody in flight the accumulators cancel out, exactly unless their sum leaves the 64-bit range. */
  lemma QuietSumsToZero(w: seq<uint32>, r: Trace, k: nat)
    requires PositiveWeights(w) && Total(w) <= I64_MAX && IsRun(w, r) && k < |r.states|
    requires forall i :: 0 <= i < |r.states[k].calls| ==> r.states[k].calls[i].Returned?
    ensures var sum := Sum(r.states[k].weights, Indices(|w|));
            Congruent(sum, 0) && (-TWO_TO_THE_64 < sum < TWO_TO_THE_64 ==> sum == 0)
  {
    EveryInterleavingConserves(w, r, k);
    NothingOwed(r.states[k].calls);
    var sum := Sum(r.states[k].weights, Indices(|w|));
    if -TWO_TO_THE_64 < sum < TWO_TO_THE_64 {
      SmallMultiple(sum);
    }
  }

  // ----- exactness -----

  /** No accumulator is further from zero than `reach`. */
  predicate Within(c: seq<int64>, reach: int)
  {
    forall i :: 0 <= i < |c| ==> -reach <= c[i] <= reach
  }

  /** No accumulator ever wrapped: the books balance exactly. */
  ghost predicate Exact(w: seq<uint32>, s: Shared, reach: int)
  {
    Booked(w, s) && Within(s.weights, reach) && Sum(s.weights, Indices(|w|)) == InFlight(s.calls)
  }

  /** One accumulator changed by at most `total`, without wrapping. */
  lemma AccumulatorExact(c: seq<int64>, all: set<int>, j: nat, exact: int, reach: int, total: int, after: seq<int64>)
    requires j < |c| && j in all && Within(c, reach) && 0 <= reach && 0 <= total && reach + total <= I64_MAX
    requires -total <= exact - c[j] <= total && after == c[j := Wrap64(exact)]
    ensures Within(after, reach + total) && Sum(after, all) == Sum(c, all) + exact - c[j]
  {
    SumUpdate(c, all, j, exact);
  }

  lemma CreditExact(w: seq<uint32>, s: Shared, id: nat, reach: int, total: int)
    requires PositiveWeights(w) && Exact(w, s, reach) && Enabled(w, s, Credit(id)) && total == Total(w)
    requires 0 <= reach && reach + total <= I64_MAX
    ensures Exact(w, Apply(w, s, Credit(id)), reach + total)
  {
    StepBooked(w, s, Credit(id));
    var idx, t := s.calls[id].idx, Apply(w, s, Credit(id));
    CreditOwed(w, s, id);
    PartialAtMostTotal(w, idx);
    AccumulatorExact(s.weights, Indices(|w|), idx, s.weights[idx] as int + w[idx], reach, total, t.weights);
  }

  lemma ChargeExact(w: seq<uint32>, s: Shared, id: nat, reach: int, total: int)
    requires PositiveWeights(w) && Exact(w, s, reach) && Enabled(w, s, Charge(id)) && total == Total(w)
    requires 0 <= reach && reach + total <= I64_MAX
    ensures Exact(w, Apply(w, s, Charge(id)), reach + total)
  {
    StepBooked(w, s, Charge(id));
    var call, t := s.calls[id], Apply(w, s, Charge(id));
    ChargeOwed(w, s, id);
    PartialAtMostTotal(w, |w|);
    var j := call.best.value;
    AccumulatorExact(s.weights, Indices(|w|), j, s.weights[j] as int - call.total, reach, total, t.weights);
  }

  lemma StepExact(w: seq<uint32>, s: Shared, a: Step, reach: int, total: int)
    requires PositiveWeights(w) && Exact(w, s, reach) && Enabled(w, s, a) && total == Total(w)
    requires 0 <= reach && reach + total <= I64_MAX
    ensures Exact(w, Apply(w, s, a), reach + total)
  {
    if a.Credit? {
      CreditExact(w, s, a.id, reach, total);
    } else if a.Charge? {
      ChargeExact(w, s, a.id, reach, total);
    } else {
      TotalPositive(w);
      StepBooked(w, s, a);
      OtherOwed(w, s, a);
    }
  }

  lemma ReachGrows(k: nat, total: int)
    requires k > 0 && total >= 0
    ensures 0 <= (k - 1) * total == k * total - total
  {
  }

  /** While steps times the configured total fit in an `i64`, no interleaving wraps and the sums are equal outright. */
  lemma {:induction false} ExactWhileShort(w: seq<uint32>, r: Trace, k: nat, total: int, reach: int)
    requires PositiveWeights(w) && IsRun(w, r) && k < |r.states|
    requires total == Total(w) && reach == k * total && reach <= I64_MAX
    ensures Exact(w, r.states[k], reach)
  {
    if k == 0 {
      SumOfZeros(|w|, Indices(|w|));
    } else {
      TotalPositive(w);
      ReachGrows(k, total);
      ExactWhileShort(w, r, k - 1, total, reach - total);
      assert IsStep(w, r.states[k - 1], r.steps[k - 1], r.states[k]);
      StepExact(w, r.states[k - 1], r.steps[k - 1], reach - total, total);
    }
  }

  // ----- an uninterrupted call -----

  /** What call `id` does next when it finds the backends of `e` eligible. */
  function ScanStep(e: set<int>, id: nat, idx: nat): Step
  {
    if idx in e then Credit(id) else Skip(id)
  }

  /** Call `id` stands where the atomic scan of `c` stands after `n` backends. */
  predicate AtScan(w: seq<uint32>, e: set<int>, c: seq<int64>, s: Shared, id: nat, n: nat)
    requires n <= |w| == |c|
  {
    var scan := Balancer.ScanTo(w, e, c, n);
    && id < |s.calls| && s.weights == scan.weights
    && s.calls[id] == Scanning(n, scan.total, scan.best, scan.bestWeight)
  }

  lemma ScanStepAdvances(w: seq<uint32>, e: set<int>, c: seq<int64>, s: Shared, id: nat, n: nat)
    requires n < |w| == |c| && AtScan(w, e, c, s, id, n)
    ensures Enabled(w, s, ScanStep(e, id, n)) && AtScan(w, e, c, Apply(w, s, ScanStep(e, id, n)), id, n + 1)
  {
  }

  /** From step `p` on, one call begins, scans and ends with nobody in between. */
  ghost predicate Uninterrupted(w: seq<uint32>, e: set<int>, r: Trace, p: nat)
    requires |r.states| == |r.steps| + 1 && p + |w| + 1 < |r.steps|
  {
    var id := |r.states[p].calls|;
    && r.steps[p] == Begin
    && (forall n, k :: 0 <= n < |w| && k == p + 1 + n ==> r.steps[k] == ScanStep(e, id, n))
    && (r.steps[p + 1 + |w|] == Charge(id) || r.steps[p + 1 + |w|] == GiveUp(id))
  }

  lemma {:induction false} WidthKept(w: seq<uint32>, r: Trace, k: nat)
    requires IsRun(w, r) && k < |r.states|
    ensures |r.states[k].weights| == |w|
  {
    if k == 0 {
    } else {
      WidthKept(w, r, k - 1);
      assert IsStep(w, r.states[k - 1], r.steps[k - 1], r.states[k]);
    }
  }

  lemma {:induction false} UninterruptedScan(w: seq<uint32>, e: set<int>, r: Trace, p: nat, n: nat, k: nat)
    requires IsRun(w, r) && p + |w| + 1 < |r.steps| && Uninterrupted(w, e, r, p)
    requires n <= |w| && k == p + 1 + n
    ensures |r.states[p].weights| == |w|
    ensures AtScan(w, e, r.states[p].weights, r.states[k], |r.states[p].calls|, n)
  {
    WidthKept(w, r, p);
    assert IsStep(w, r.states[k - 1], r.steps[k - 1], r.states[k]);
    if n == 0 {
    } else {
      UninterruptedScan(w, e, r, p, n - 1, k - 1);
      assert r.steps[k - 1] == ScanStep(e, |r.states[p].calls|, n - 1);
      ScanStepAdvances(w, e, r.states[p].weights, r.states[k - 1], |r.states[p].calls|, n - 1);
    }
  }

  /** A call that nobody interrupts is the atomic call, whatever other calls are suspended around it. */
  lemma UninterruptedIsAtomic(w: seq<uint32>, e: set<int>, r: Trace, p: nat)
    requires IsRun(w, r) && p + |w| + 1 < |r.steps| && Uninterrupted(w, e, r, p)
    ensures |r.states[p].weights| == |w|
    ensures r.states[p + |w| + 2].weights == Balancer.MachineNext(w, e, r.states[p].weights)
    ensures r.steps[p + |w| + 1].GiveUp? <==> Balancer.MachineWinner(w, e, r.states[p].weights).None?
  {
    var k := p + 1 + |w|;
    UninterruptedScan(w, e, r, p, |w|, k);
    assert IsStep(w, r.states[k], r.steps[k], r.states[k + 1]);
  }

  // ----- nobody waits -----

  lemma {:induction false} CallsInBounds(w: seq<uint32>, r: Trace, k: nat, id: nat)
    requires IsRun(w, r) && k < |r.states| && id < |r.states[k].calls| && r.states[k].calls[id].Scanning?
    ensures var call := r.states[k].calls[id];
            call.idx <= |w| && (call.best.Some? ==> 0 <= call.best.value < |w|)
  {
    if k == 0 {
    } else {
      assert IsStep(w, r.states[k - 1], r.steps[k - 1], r.states[k]);
      if id < |r.states[k - 1].calls| {
        CallsInBounds(w, r, k - 1, id);
      }
    }
  }

  /**
   * Selection never blocks: in every reachable state a new call may begin, whoever else is in flight; a
   * call in the middle of its scan may find the next backend eligible or not; and at the end of its scan it
   * may charge its best backend or, if it has none, give up. A call that has returned does nothing more.
   */
  lemma NobodyWaits(w: seq<uint32>, r: Trace, k: nat, id: nat)
    requires IsRun(w, r) && k < |r.states|
    ensures var s := r.states[k];
            && Enabled(w, s, Begin) && Apply(w, s, Begin) == s.(calls := s.calls + [Scanning(0, 0, None, I64_MIN)])
            && (id < |s.calls| && s.calls[id].Scanning? ==>
                  && (s.calls[id].idx < |w| ==> Enabled(w, s, Credit(id)) && Enabled(w, s, Skip(id)))
                  && (s.calls[id].idx >= |w| ==>
                        && (Enabled(w, s, Charge(id)) <==> s.calls[id].best.Some?)
                        && (Enabled(w, s, GiveUp(id)) <==> s.calls[id].best.None?)))
            && (id >= |s.calls| || s.calls[id].Returned? ==>
                  !Enabled(w, s, Credit(id)) && !Enabled(w, s, Skip(id)) && !Enabled(w, s, Charge(id)) && !Enabled(w, s, GiveUp(id)))
  {
    WidthKept(w, r, k);
    if id < |r.states[k].calls| && r.states[k].calls[id].Scanning? {
      CallsInBounds(w, r, k, id);
    }
  }

  lemma RunGoesOn(w: seq<uint32>, r: Trace, a: Step, more: Trace)
    requires IsRun(w, r) && Enabled(w, r.states[|r.steps|], a)
    requires more == Trace(r.states + [Apply(w, r.states[|r.steps|], a)], r.steps + [a])
    ensures IsRun(w, more)
  {
    forall k, l | 0 <= k < |more.steps| && l == k + 1
      ensures IsStep(w, more.states[k], more.steps[k], more.states[l])
    {
      assert k < |r.steps| ==> IsStep(w, r.states[k], r.steps[k], r.states[l]);
    }
  }

  lemma WrapAgain(x: int, y: int)
    ensures Wrap64(Wrap64(x) + y) == Wrap64(x + y)
  {
  }

  /** `m` calls have begun, each has credited the first backend, and none has charged anything. */
  predicate AllMidway(w: seq<uint32>, s: Shared, m: nat, credited: int)
  {
    && |w| > 0 && s.weights == Zeros(|w|)[0 := Wrap64(credited)] && |s.calls| == m
    && forall id :: 0 <= id < m ==> s.calls[id].Scanning? && s.calls[id].idx == 1 && s.calls[id].total == w[0]
  }

  lemma OneMoreMidway(w: seq<uint32>, r: Trace, m: nat, credited: int) returns (more: Trace)
    requires IsRun(w, r) && AllMidway(w, r.states[|r.steps|], m, credited)
    ensures IsRun(w, more) && AllMidway(w, more.states[|more.steps|], m + 1, credited + w[0])
  {
    var s := r.states[|r.steps|];
    var began := Trace(r.states + [Apply(w, s, Begin)], r.steps + [Begin]);
    RunGoesOn(w, r, Begin, began);
    var t := began.states[|began.steps|];
    assert t == Apply(w, s, Begin);
    more := Trace(began.states + [Apply(w, t, Credit(m))], began.steps + [Credit(m)]);
    RunGoesOn(w, began, Credit(m), more);
    WrapAgain(credited, w[0]);
  }

  /**
   * For every `m` there is a run in which `m` calls are in flight at once, each of them past a credit of
   * the first backend before any has charged: its accumulator holds `m` times the weight, wrapped.
   */
  lemma {:induction false} ManyCallsMidway(w: seq<uint32>, m: nat, credited: int) returns (r: Trace)
    requires |w| > 0 && credited == w[0] * m
    ensures IsRun(w, r) && AllMidway(w, r.states[|r.steps|], m, credited)
  {
    if m == 0 {
      r := Trace([Shared(Zeros(|w|), [])], []);
    } else {
      OneMore(w[0], m - 1);
      r := ManyCallsMidway(w, m - 1, credited - w[0]);
      r := OneMoreMidway(w, r, m - 1, credited - w[0]);
    }
  }
}
