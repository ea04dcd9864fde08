/**
 * Concurrent selections do not drift: while at most a fixed number of calls are in flight, every group of
 * accumulators stays below a cap, under every interleaving, however long the run and whatever is eligible.
 */
module DriftBound {
  import opened MachineInts
  import opened Sums
  import opened Wrappers
  import opened SelectionRaces
  import opened SelectionDrift
  import RoundRobin

  // ----- the caps -----

  /** The cap on `k` of `n` accumulators; `load` is the most that the calls in flight can hold. */
  function Cap(load: int, n: int, k: int): int
  {
    2 * (load * (k * (n - k))) + load
  }

  predicate GroupCapped(c: seq<int>, load: int, s: set<int>)
  {
    Sum(c, s) <= Cap(load, |c|, |s|)
  }

  ghost predicate Capped(c: seq<int>, load: int)
  {
    forall s :: s <= Indices(|c|) ==> GroupCapped(c, load, s)
  }

  lemma CapAtLeast(load: int, n: int, k: int)
    requires load >= 0 && 0 <= k <= n
    ensures Cap(load, n, k) >= load
    ensures 0 < k < n ==> Cap(load, n, k) >= 3 * load
  {
    assert k * (n - k) >= 0;
    if 0 < k < n {
      assert k * (n - k) >= 1;
      assert load * (k * (n - k)) >= load * 1;
    }
  }

  /** The caps are concave in the size of the group, by four loads. */
  lemma CapConcave(load: int, n: int, k: int)
    ensures 2 * Cap(load, n, k) == Cap(load, n, k - 1) + Cap(load, n, k + 1) + 4 * load
  {
    var f, f0, f1 := k * (n - k), (k - 1) * (n - (k - 1)), (k + 1) * (n - (k + 1));
    assert f0 + f1 == 2 * f - 2;
    assert load * f0 + load * f1 == load * (2 * f - 2);
    assert load * (2 * f - 2) == 2 * (load * f) - 2 * load;
  }

  /** The group is within two loads of its cap. */
  predicate High(c: seq<int>, load: int, s: set<int>)
  {
    Sum(c, s) > Cap(load, |c|, |s|) - 2 * load
  }

  lemma MemberAtLeast(c: seq<int>, load: int, s: set<int>, i: int)
    requires Capped(c, load) && s <= Indices(|c|) && i in s
    ensures c[i] >= Sum(c, s) - Cap(load, |c|, |s| - 1)
  {
    SumRemove(c, s, i);
    assert GroupCapped(c, load, s - {i});
    assert |s - {i}| == |s| - 1;
  }

  lemma OutsiderAtMost(c: seq<int>, load: int, s: set<int>, j: int)
    requires Capped(c, load) && s <= Indices(|c|) && 0 <= j < |c| && j !in s
    ensures c[j] <= Cap(load, |c|, |s| + 1) - Sum(c, s)
  {
    SumInsert(c, s, j);
    assert GroupCapped(c, load, s + {j});
    assert |s + {j}| == |s| + 1;
  }

  /**
   * At any two moments at which a group is high, each of its members is above each backend outside it,
   * even when the member is looked at in one moment and the outsider in the other.
   */
  lemma HighGroupLeadsAcrossTime(x: seq<int>, y: seq<int>, load: int, s: set<int>, i: int, j: int)
    requires |x| == |y| && Capped(x, load) && Capped(y, load) && High(x, load, s) && High(y, load, s)
    requires s <= Indices(|x|) && i in s && 0 <= j < |y| && j !in s
    ensures y[j] < x[i]
  {
    MemberAtLeast(x, load, s, i);
    OutsiderAtMost(y, load, s, j);
    CapConcave(load, |x|, |s|);
  }

  // ----- what the calls in flight hold -----

  /** The calls in flight. */
  function Active(calls: seq<Call>): (ids: set<int>)
    ensures forall id :: id in ids <==> 0 <= id < |calls| && calls[id].Scanning?
  {
    set id | 0 <= id < |calls| && calls[id].Scanning?
  }

  /** What each call in flight has credited to the group `s`. */
  ghost function Holdings(w: seq<int>, r: Trace, t: nat, s: set<int>): (h: seq<int>)
    requires |r.states| == |r.steps| + 1 && t <= |r.steps|
    ensures |h| == |r.states[t].calls|
    ensures forall id :: 0 <= id < |h| ==>
              h[id] == if r.states[t].calls[id].Scanning? then Sum(w, CreditedBy(r, t, id) * s) else 0
  {
    seq(|r.states[t].calls|, id requires 0 <= id < |r.states[t].calls| =>
          if r.states[t].calls[id].Scanning? then Sum(w, CreditedBy(r, t, id) * s) else 0)
  }

  ghost function Pending(w: seq<int>, r: Trace, t: nat, s: set<int>): int
    requires |r.states| == |r.steps| + 1 && t <= |r.steps|
  {
    Sum(Holdings(w, r, t, s), Indices(|r.states[t].calls|))
  }

  /** What a group holds apart from the credits of the calls in flight. */
  ghost function Settled(w: seq<int>, r: Trace, t: nat, s: set<int>): int
    requires |r.states| == |r.steps| + 1 && t <= |r.steps|
  {
    Sum(r.states[t].weights, s) - Pending(w, r, t, s)
  }

  lemma HoldingsSum(h: seq<int>, ids: set<int>, total: int)
    requires ids <= Indices(|h|) && forall id :: 0 <= id < |h| ==> 0 <= h[id] && (id in ids ==> h[id] <= total)
    requires forall id :: 0 <= id < |h| && id !in ids ==> h[id] == 0
    ensures 0 <= Sum(h, Indices(|h|)) <= |ids| * total
  {
    var rest := Indices(|h|) - ids;
    assert ids + rest == Indices(|h|);
    SumUnion(h, ids, rest);
    SumToZero(h, rest, |h|);
    SumAtMost(h, ids, total);
    SumMonotone(h, {}, Indices(|h|));
    SumToZero(h, {}, |h|);
  }

  /** Calls in flight hold at most the configured total each. */
  lemma PendingBounded(w: seq<uint32>, r: Trace, t: nat, s: set<int>, total: int)
    requires RoundRobin.PositiveWeights(w) && IsRun(w, r) && t <= |r.steps| && total == RoundRobin.Total(w)
    requires total <= I64_MAX
    ensures 0 <= Pending(w, r, t, s) <= |Active(r.states[t].calls)| * total
  {
    var h, calls := Holdings(w, r, t, s), r.states[t].calls;
    forall id | 0 <= id < |h|
      ensures 0 <= h[id] && (id in Active(calls) ==> h[id] <= total)
    {
      if calls[id].Scanning? {
        AlwaysAccounted(w, r, t, id);
        SumMonotone(w, CreditedBy(r, t, id) * s, Indices(|w|));
      }
    }
    HoldingsSum(h, Active(calls), total);
  }

  // ----- what a step does to a group -----

  /** The step does not wrap an accumulator. */
  predicate NoWrap(w: seq<uint32>, s: Shared, a: Step)
    requires Enabled(w, s, a)
  {
    match a
    case Credit(id) => s.weights[s.calls[id].idx] + w[s.calls[id].idx] <= I64_MAX
    case Charge(id) => s.weights[s.calls[id].best.value] - s.calls[id].total >= I64_MIN
    case _ => true
  }

  /** What a charge changes for the group `s` apart from the credits of calls in flight. */
  ghost function Gain(w: seq<int>, r: Trace, t: nat, s: set<int>): int
    requires |r.states| == |r.steps| + 1 && t < |r.steps|
  {
    match r.steps[t]
    case Charge(id) =>
      if id < |r.states[t].calls| && r.states[t].calls[id].Scanning? && r.states[t].calls[id].best.Some? then
        var call := r.states[t].calls[id];
        Sum(w, CreditedBy(r, t, id) * s) - if call.best.value in s then call.total else 0
      else 0
    case _ => 0
  }

  lemma HoldingsOfOthers(w: seq<uint32>, r: Trace, t: nat, s: set<int>, id: nat)
    requires IsRun(w, r) && t < |r.steps| && id < |r.states[t].calls|
    requires r.steps[t].Begin? || r.steps[t].id != id
    ensures id < |r.states[t + 1].calls| && Holdings(w, r, t + 1, s)[id] == Holdings(w, r, t, s)[id]
  {
    assert IsStep(w, r.states[t], r.steps[t], r.states[t + 1]);
    assert CreditedBy(r, t + 1, id) == CreditedBy(r, t, id);
  }

  lemma PendingAfterBegin(w: seq<uint32>, r: Trace, t: nat, s: set<int>)
    requires IsRun(w, r) && t < |r.steps| && r.steps[t].Begin?
    ensures Pending(w, r, t + 1, s) == Pending(w, r, t, s)
  {
    assert IsStep(w, r.states[t], r.steps[t], r.states[t + 1]);
    var before, after, n := Holdings(w, r, t, s), Holdings(w, r, t + 1, s), |r.states[t].calls|;
    forall id | 0 <= id < n
      ensures after[id] == before[id]
    {
      HoldingsOfOthers(w, r, t, s, id);
    }
    NothingBeforeBegin(w, r, t, n);
    assert CreditedBy(r, t + 1, n) == {} && {} * s == {};
    SumToZero(w, {}, |w|);
    SumToAgree(after, Indices(n + 1), before, Indices(n), n);
  }

  lemma PendingAfterAct(w: seq<uint32>, r: Trace, t: nat, s: set<int>, id: nat)
    requires IsRun(w, r) && t < |r.steps| && !r.steps[t].Begin? && r.steps[t].id == id
    ensures id < |r.states[t].calls| == |r.states[t + 1].calls|
    ensures Pending(w, r, t + 1, s) ==
            Pending(w, r, t, s) - Holdings(w, r, t, s)[id] + Holdings(w, r, t + 1, s)[id]
  {
    assert IsStep(w, r.states[t], r.steps[t], r.states[t + 1]);
    var before, after := Holdings(w, r, t, s), Holdings(w, r, t + 1, s);
    forall x | 0 <= x < |before| && x != id
      ensures after[x] == before[x]
    {
      HoldingsOfOthers(w, r, t, s, x);
    }
    assert after == before[id := after[id]];
    SumUpdate(before, Indices(|before|), id, after[id]);
  }

  lemma HoldingAfterCredit(w: seq<uint32>, r: Trace, t: nat, s: set<int>, id: nat, i: int)
    requires RoundRobin.PositiveWeights(w) && RoundRobin.Total(w) <= I64_MAX
    requires IsRun(w, r) && t < |r.steps| && r.steps[t] == Credit(id)
    requires id < |r.states[t].calls| && r.states[t].calls[id].Scanning? && i == r.states[t].calls[id].idx < |w|
    ensures id < |r.states[t + 1].calls|
    ensures Holdings(w, r, t + 1, s)[id] == Holdings(w, r, t, s)[id] + if i in s then w[i] else 0
  {
    assert IsStep(w, r.states[t], r.steps[t], r.states[t + 1]);
    AlwaysAccounted(w, r, t, id);
    var credited := CreditedBy(r, t, id);
    assert CreditedBy(r, t + 1, id) == credited + {i};
    if i in s {
      assert (credited + {i}) * s == credited * s + {i};
      SumInsert(w, credited * s, i);
    } else {
      assert (credited + {i}) * s == credited * s;
    }
  }

  lemma GroupAfterCredit(w: seq<uint32>, s: Shared, id: nat, group: set<int>)
    requires Enabled(w, s, Credit(id)) && NoWrap(w, s, Credit(id)) && |s.weights| == |w|
    ensures var i := s.calls[id].idx;
            Sum(Apply(w, s, Credit(id)).weights, group) == Sum(s.weights, group) + if i in group then w[i] else 0
  {
    var i := s.calls[id].idx;
    SumUpdate(s.weights, group, i, s.weights[i] + w[i]);
  }

  lemma GroupAfterCharge(w: seq<uint32>, s: Shared, id: nat, group: set<int>)
    requires Enabled(w, s, Charge(id)) && NoWrap(w, s, Charge(id)) && s.calls[id].total >= 0
    ensures var call := s.calls[id];
            Sum(Apply(w, s, Charge(id)).weights, group) ==
            Sum(s.weights, group) - if call.best.value in group then call.total else 0
  {
    var call := s.calls[id];
    SumUpdate(s.weights, group, call.best.value, s.weights[call.best.value] - call.total);
  }

  lemma SettledAfterCredit(w: seq<uint32>, r: Trace, t: nat, s: set<int>, id: nat)
    requires RoundRobin.PositiveWeights(w) && RoundRobin.Total(w) <= I64_MAX
    requires IsRun(w, r) && t < |r.steps| && r.steps[t] == Credit(id)
    requires Enabled(w, r.states[t], r.steps[t]) && NoWrap(w, r.states[t], r.steps[t])
    ensures Settled(w, r, t + 1, s) == Settled(w, r, t, s)
  {
    assert IsStep(w, r.states[t], r.steps[t], r.states[t + 1]);
    WidthKept(w, r, t);
    PendingAfterAct(w, r, t, s, id);
    HoldingAfterCredit(w, r, t, s, id, r.states[t].calls[id].idx);
    GroupAfterCredit(w, r.states[t], id, s);
  }

  lemma SettledAfterCharge(w: seq<uint32>, r: Trace, t: nat, s: set<int>, id: nat)
    requires IsRun(w, r) && t < |r.steps| && r.steps[t] == Charge(id)
    requires Enabled(w, r.states[t], r.steps[t]) && NoWrap(w, r.states[t], r.steps[t])
    requires r.states[t].calls[id].total >= 0
    ensures Settled(w, r, t + 1, s) == Settled(w, r, t, s) + Gain(w, r, t, s)
  {
    assert IsStep(w, r.states[t], r.steps[t], r.states[t + 1]);
    PendingAfterAct(w, r, t, s, id);
    GroupAfterCharge(w, r.states[t], id, s);
  }

  lemma SettledOtherwise(w: seq<uint32>, r: Trace, t: nat, s: set<int>)
    requires RoundRobin.PositiveWeights(w) && RoundRobin.Total(w) <= I64_MAX
    requires IsRun(w, r) && t < |r.steps| && !r.steps[t].Credit? && !r.steps[t].Charge?
    ensures Settled(w, r, t + 1, s) == Settled(w, r, t, s)
  {
    assert IsStep(w, r.states[t], r.steps[t], r.states[t + 1]);
    if r.steps[t].Begin? {
      PendingAfterBegin(w, r, t, s);
    } else {
      var id := r.steps[t].id;
      PendingAfterAct(w, r, t, s, id);
      AlwaysAccounted(w, r, t, id);
      assert CreditedBy(r, t + 1, id) == CreditedBy(r, t, id);
      if r.steps[t].GiveUp? {
        assert CreditedBy(r, t, id) * s == {};
        SumToZero(w, {}, |w|);
      }
    }
  }

  /** Only charges change what a group holds apart from the credits of the calls in flight. */
  lemma SettledStep(w: seq<uint32>, r: Trace, t: nat, s: set<int>)
    requires RoundRobin.PositiveWeights(w) && RoundRobin.Total(w) <= I64_MAX && IsRun(w, r) && t < |r.steps|
    requires Enabled(w, r.states[t], r.steps[t]) && NoWrap(w, r.states[t], r.steps[t])
    ensures Settled(w, r, t + 1, s) == Settled(w, r, t, s) + Gain(w, r, t, s)
  {
    match r.steps[t]
    case Credit(id) => SettledAfterCredit(w, r, t, s, id);
    case Charge(id) =>
      AlwaysAccounted(w, r, t, id);
      SumMonotone(w, CreditedBy(r, t, id), CreditedBy(r, t, id));
      SettledAfterCharge(w, r, t, s, id);
    case _ => SettledOtherwise(w, r, t, s);
  }

  // ----- calls that begin while a group is high -----

  predicate ExactAt(w: seq<uint32>, s: Shared, a: Step)
  {
    Enabled(w, s, a) && NoWrap(w, s, a)
  }

  ghost predicate Exact(w: seq<uint32>, r: Trace, t: nat)
    requires |r.states| == |r.steps| + 1 && t <= |r.steps|
  {
    forall l :: 0 <= l < t ==> ExactAt(w, r.states[l], r.steps[l])
  }

  lemma {:induction false} CallsOnlyGrow(w: seq<uint32>, r: Trace, k: nat, t: nat)
    requires IsRun(w, r) && k <= t <= |r.steps|
    ensures |r.states[k].calls| <= |r.states[t].calls|
    decreases t
  {
    if k == t {
    } else {
      CallsOnlyGrow(w, r, k, t - 1);
      assert IsStep(w, r.states[t - 1], r.steps[t - 1], r.states[t]);
    }
  }

  /** A call that begins after `k` reads after `k`, and what it compares is what it leaves in the accumulator. */
  lemma ReadAfter(w: seq<uint32>, r: Trace, k: nat, t: nat, id: nat, i: int, step: nat)
    requires IsRun(w, r) && Wide(w, r) && k <= t <= |r.steps| && Exact(w, r, t)
    requires id >= |r.states[k].calls| && i in CreditedBy(r, t, id) && 0 <= i < |w|
    requires step == ReadStep(r, t, id, i)
    ensures k < step < t && ReadValue(w, r, t, id, i) == r.states[step + 1].weights[i]
  {
    assert IsStep(w, r.states[step], r.steps[step], r.states[step + 1]);
    assert ExactAt(w, r.states[step], r.steps[step]);
    if step <= k {
      CallsOnlyGrow(w, r, step, k);
    }
  }

  /** The group has been high, and all groups capped, in every state after `k` up to `t`. */
  ghost predicate HighSince(r: Trace, k: nat, t: nat, load: int, s: set<int>)
    requires t < |r.states|
  {
    forall l :: k < l <= t ==> Capped(r.states[l].weights, load) && High(r.states[l].weights, load, s)
  }

  /** Its own reads then send such a call into the group, if it credits any of it at all. */
  lemma NewCallPicksMember(w: seq<uint32>, r: Trace, k: nat, t: nat, id: nat, load: int, s: set<int>, i: int, j: int)
    requires IsRun(w, r) && Wide(w, r) && k <= t <= |r.steps| && Exact(w, r, t)
    requires s <= Indices(|w|) && HighSince(r, k, t, load, s) && id >= |r.states[k].calls|
    requires i in CreditedBy(r, t, id) && 0 <= i < |w| && i in s
    requires j in CreditedBy(r, t, id) && 0 <= j < |w| && ReadValue(w, r, t, id, i) <= ReadValue(w, r, t, id, j)
    ensures j in s
  {
    var x, y := ReadStep(r, t, id, i), ReadStep(r, t, id, j);
    ReadAfter(w, r, k, t, id, i, x);
    ReadAfter(w, r, k, t, id, j, y);
    if j !in s {
      HighGroupLeadsAcrossTime(r.states[x + 1].weights, r.states[y + 1].weights, load, s, i, j);
    }
  }

  lemma GainOfPart(w: seq<uint32>, credited: set<int>, s: set<int>)
    requires RoundRobin.PositiveWeights(w)
    ensures 0 <= Sum(w, credited * s) <= Sum(w, credited)
    ensures credited * s == {} ==> Sum(w, credited * s) == 0
  {
    SumMonotone(w, credited * s, credited);
    SumToZero(w, {}, |w|);
  }

  lemma NewCallGainsNothing(w: seq<uint32>, r: Trace, k: nat, t: nat, id: nat, load: int, s: set<int>)
    requires RoundRobin.PositiveWeights(w) && RoundRobin.Total(w) <= I64_MAX
    requires IsRun(w, r) && k <= t < |r.steps| && Exact(w, r, t) && r.steps[t] == Charge(id)
    requires s <= Indices(|w|) && HighSince(r, k, t, load, s) && id >= |r.states[k].calls|
    ensures Gain(w, r, t, s) <= 0
  {
    assert IsStep(w, r.states[t], r.steps[t], r.states[t + 1]);
    AlwaysWide(w, r);
    BestIsLargestRead(w, r, t, id);
    var call, credited := r.states[t].calls[id], CreditedBy(r, t, id);
    GainOfPart(w, credited, s);
    if credited * s != {} {
      var i :| i in credited * s;
      NewCallPicksMember(w, r, k, t, id, load, s, i, call.best.value);
    }
  }

  /** No charge at all gains a group more than the configured total. */
  lemma GainAtMostTotal(w: seq<uint32>, r: Trace, t: nat, s: set<int>)
    requires RoundRobin.PositiveWeights(w) && RoundRobin.Total(w) <= I64_MAX && IsRun(w, r) && t < |r.steps|
    ensures Gain(w, r, t, s) <= RoundRobin.Total(w)
    ensures !r.steps[t].Charge? ==> Gain(w, r, t, s) == 0
  {
    assert IsStep(w, r.states[t], r.steps[t], r.states[t + 1]);
    SumMonotone(w, {}, Indices(|w|));
    if r.steps[t].Charge? {
      var id := r.steps[t].id;
      AlwaysAccounted(w, r, t, id);
      GainOfPart(w, CreditedBy(r, t, id), s);
      SumMonotone(w, CreditedBy(r, t, id), Indices(|w|));
    }
  }

  // ----- a stretch in which a group is high -----

  /** The calls in flight at `t` that were already there at `k`. */
  ghost function StillThere(r: Trace, k: nat, t: nat): (ids: set<int>)
    requires k < |r.states| && t < |r.states|
    ensures forall id :: id in ids <==> id in Active(r.states[t].calls) && id < |r.states[k].calls|
  {
    set id | id in Active(r.states[t].calls) && id < |r.states[k].calls|
  }

  lemma StillThereShrinks(w: seq<uint32>, r: Trace, k: nat, t: nat)
    requires IsRun(w, r) && k <= t < |r.steps|
    ensures StillThere(r, k, t + 1) <= StillThere(r, k, t)
    ensures r.steps[t].Charge? && r.steps[t].id < |r.states[k].calls| ==>
              StillThere(r, k, t + 1) == StillThere(r, k, t) - {r.steps[t].id} && r.steps[t].id in StillThere(r, k, t)
  {
    assert IsStep(w, r.states[t], r.steps[t], r.states[t + 1]);
    CallsOnlyGrow(w, r, k, t);
  }

  lemma Fewer(total: int, before: set<int>, after: set<int>)
    requires total >= 0 && after <= before
    ensures 0 <= total * |after| <= total * |before|
    ensures after != before ==> total * |after| + total <= total * |before|
  {
    SubsetSize(after, before);
    assert total * |after| <= total * |before|;
    if after != before {
      assert before == after + (before - after);
      assert |before| == |after| + |before - after| && |before - after| >= 1;
      assert total * (|after| + 1) <= total * |before|;
    }
  }

  lemma StretchStep(w: seq<uint32>, r: Trace, k: nat, t: nat, load: int, s: set<int>, total: int)
    requires RoundRobin.PositiveWeights(w) && total == RoundRobin.Total(w) <= I64_MAX
    requires IsRun(w, r) && k <= t < |r.steps| && Exact(w, r, t) && s <= Indices(|w|) && HighSince(r, k, t, load, s)
    ensures Gain(w, r, t, s) + total * |StillThere(r, k, t + 1)| <= total * |StillThere(r, k, t)|
  {
    GainAtMostTotal(w, r, t, s);
    StillThereShrinks(w, r, k, t);
    SumMonotone(w, {}, Indices(|w|));
    SumToZero(w, {}, |w|);
    Fewer(total, StillThere(r, k, t), StillThere(r, k, t + 1));
    if r.steps[t].Charge? && r.steps[t].id >= |r.states[k].calls| {
      NewCallGainsNothing(w, r, k, t, r.steps[t].id, load, s);
    }
  }

  /** From `k` on only the calls that were already there can raise the group, each once. */
  lemma {:induction false} StretchGains(w: seq<uint32>, r: Trace, k: nat, t: nat, load: int, s: set<int>, total: int)
    requires RoundRobin.PositiveWeights(w) && total == RoundRobin.Total(w) <= I64_MAX
    requires IsRun(w, r) && k <= t <= |r.steps| && Exact(w, r, t) && s <= Indices(|w|)
    requires t > k ==> HighSince(r, k, t - 1, load, s)
    ensures Settled(w, r, t, s) + total * |StillThere(r, k, t)| <= Settled(w, r, k, s) + total * |StillThere(r, k, k)|
    decreases t
  {
    if t == k {
    } else {
      StretchGains(w, r, k, t - 1, load, s, total);
      assert ExactAt(w, r.states[t - 1], r.steps[t - 1]);
      SettledStep(w, r, t - 1, s);
      StretchStep(w, r, k, t - 1, load, s, total);
    }
  }

  // ----- the bound -----

  /** At most `limit` calls are in flight in every state, and the caps leave room in an `i64`. */
  ghost predicate Limited(w: seq<uint32>, r: Trace, limit: nat, total: int, load: int)
  {
    && RoundRobin.PositiveWeights(w) && IsRun(w, r)
    && total == RoundRobin.Total(w) && load == limit * total
    && (forall t :: 0 <= t < |r.states| ==> |Active(r.states[t].calls)| <= limit)
    && (2 * |w| - 1) * load + total <= I64_MAX && total <= I64_MAX
  }

  lemma LoadArithmetic(active: int, limit: int, total: int, load: int)
    requires 0 <= active <= limit && 0 <= total && load == limit * total
    ensures 0 <= active * total == total * active <= load
  {
  }

  lemma TotalNotNegative(w: seq<int>)
    requires RoundRobin.PositiveWeights(w)
    ensures 0 <= RoundRobin.Total(w)
  {
    SumMonotone(w, {}, Indices(|w|));
  }

  lemma LoadHeld(w: seq<uint32>, r: Trace, limit: nat, total: int, load: int, t: nat, s: set<int>)
    requires Limited(w, r, limit, total, load) && t <= |r.steps|
    ensures 0 <= Pending(w, r, t, s) <= load && 0 <= total
    ensures 0 <= total * |Active(r.states[t].calls)| <= load
  {
    TotalNotNegative(w);
    PendingBounded(w, r, t, s, total);
    LoadArithmetic(|Active(r.states[t].calls)|, limit, total, load);
  }

  /** All backends together hold exactly what the calls in flight have credited. */
  lemma {:induction false} AllSettled(w: seq<uint32>, r: Trace, t: nat)
    requires RoundRobin.PositiveWeights(w) && RoundRobin.Total(w) <= I64_MAX
    requires IsRun(w, r) && t <= |r.steps| && Exact(w, r, t)
    ensures Settled(w, r, t, Indices(|w|)) == 0
  {
    if t == 0 {
      SumOfZeros(|w|, Indices(|w|));
      SumToZero(Holdings(w, r, 0, Indices(|w|)), Indices(0), 0);
    } else {
      AllSettled(w, r, t - 1);
      assert ExactAt(w, r.states[t - 1], r.steps[t - 1]);
      SettledStep(w, r, t - 1, Indices(|w|));
      if r.steps[t - 1].Charge? {
        var id := r.steps[t - 1].id;
        AlwaysAccounted(w, r, t - 1, id);
        assert CreditedBy(r, t - 1, id) * Indices(|w|) == CreditedBy(r, t - 1, id);
      }
    }
  }

  /** The last state up to `t` in which the group was not high. */
  ghost function LastLow(r: Trace, t: nat, load: int, s: set<int>): (k: nat)
    requires t < |r.states|
    ensures k <= t && (k > 0 ==> !High(r.states[k].weights, load, s))
    ensures forall l :: k < l <= t ==> High(r.states[l].weights, load, s)
  {
    if t == 0 || !High(r.states[t].weights, load, s) then t else LastLow(r, t - 1, load, s)
  }

  ghost predicate CappedUpTo(r: Trace, t: nat, load: int)
    requires t < |r.states|
  {
    forall l :: 0 <= l <= t ==> Capped(r.states[l].weights, load)
  }

  /** Nothing is high at the start. */
  lemma LowAtStart(w: seq<uint32>, r: Trace, load: int, s: set<int>)
    requires IsRun(w, r) && load >= 0 && s <= Indices(|w|) && 0 < |s| < |w|
    ensures !High(r.states[0].weights, load, s)
  {
    SumOfZeros(|w|, s);
    CapAtLeast(load, |w|, |s|);
  }

  lemma LowMeans(c: seq<int>, load: int, s: set<int>, cap: int)
    requires !High(c, load, s) && cap == Cap(load, |c|, |s|)
    ensures Sum(c, s) <= cap - 2 * load
  {
  }

  /** From the last state in which the group was low, it rises by at most two loads. */
  lemma RiseBounded(w: seq<uint32>, r: Trace, limit: nat, total: int, load: int, k: nat, t: nat, s: set<int>)
    requires Limited(w, r, limit, total, load) && k < t <= |r.steps| && Exact(w, r, t)
    requires s <= Indices(|w|) && HighSince(r, k, t - 1, load, s)
    ensures Sum(r.states[t].weights, s) <= Sum(r.states[k].weights, s) + 2 * load
  {
    LoadHeld(w, r, limit, total, load, t, s);
    LoadHeld(w, r, limit, total, load, k, s);
    StretchGains(w, r, k, t, load, s, total);
    assert StillThere(r, k, k) == Active(r.states[k].calls);
    Fewer(total, StillThere(r, k, t), StillThere(r, k, t));
  }

  /** A group of some but not all backends keeps its cap. */
  lemma GroupStaysCapped(w: seq<uint32>, r: Trace, limit: nat, total: int, load: int, t: nat, s: set<int>, cap: int)
    requires Limited(w, r, limit, total, load) && 0 < t <= |r.steps| && Exact(w, r, t)
    requires CappedUpTo(r, t - 1, load) && s <= Indices(|w|) && 0 < |s| < |w| && cap == Cap(load, |w|, |s|)
    ensures Sum(r.states[t].weights, s) <= cap
  {
    LoadHeld(w, r, limit, total, load, t, s);
    LowAtStart(w, r, load, s);
    AlwaysWide(w, r);
    var k := LastLow(r, t, load, s);
    LowMeans(r.states[k].weights, load, s, cap);
    if k < t {
      RiseBounded(w, r, limit, total, load, k, t, s);
    }
  }

  lemma FullGroup(n: nat, s: set<int>)
    requires s <= Indices(n) && |s| >= n
    ensures s == Indices(n)
  {
    if s != Indices(n) {
      assert !(Indices(n) <= s);
      var x :| x in Indices(n) && x !in s;
      SubsetSize(s, Indices(n) - {x});
    }
  }

  lemma StateStaysCapped(w: seq<uint32>, r: Trace, limit: nat, total: int, load: int, t: nat)
    requires Limited(w, r, limit, total, load) && 0 < t <= |r.steps| && Exact(w, r, t)
    requires CappedUpTo(r, t - 1, load)
    ensures Capped(r.states[t].weights, load)
  {
    WidthKept(w, r, t);
    var c := r.states[t].weights;
    forall s | s <= Indices(|c|)
      ensures GroupCapped(c, load, s)
    {
      SubsetSize(s, Indices(|c|));
      LoadHeld(w, r, limit, total, load, t, s);
      CapAtLeast(load, |w|, |s|);
      if |s| == 0 {
        SumToZero(c, s, |c|);
      } else if |s| < |w| {
        GroupStaysCapped(w, r, limit, total, load, t, s, Cap(load, |w|, |s|));
      } else {
        FullGroup(|w|, s);
        AllSettled(w, r, t);
      }
    }
  }

  lemma CapOfOne(load: int, n: int, reach: int)
    requires reach == (2 * n - 1) * load
    ensures Cap(load, n, 1) == reach == Cap(load, n, n - 1)
  {
    assert 1 * (n - 1) == n - 1 == (n - 1) * (n - (n - 1));
    assert 2 * (load * (n - 1)) + load == (2 * n - 1) * load;
  }

  /** Every accumulator of a capped state, whose sum is not negative, is within `(2n - 1)` loads. */
  lemma CappedEntry(c: seq<int>, load: int, i: int, reach: int)
    requires Capped(c, load) && 0 <= i < |c| && Sum(c, Indices(|c|)) >= 0 && reach == (2 * |c| - 1) * load
    ensures -reach <= c[i] <= reach
  {
    var all := Indices(|c|);
    SumToSingle(c, i, |c|);
    SumRemove(c, all, i);
    assert GroupCapped(c, load, {i}) && GroupCapped(c, load, all - {i});
    assert |{i}| == 1 && |all - {i}| == |c| - 1;
    CapOfOne(load, |c|, reach);
  }

  lemma AccumulatorsWithin(w: seq<uint32>, r: Trace, limit: nat, total: int, load: int, t: nat)
    requires Limited(w, r, limit, total, load) && t <= |r.steps| && Exact(w, r, t) && Capped(r.states[t].weights, load)
    ensures |r.states[t].weights| == |w| && Within(r.states[t].weights, (2 * |w| - 1) * load)
  {
    WidthKept(w, r, t);
    LoadHeld(w, r, limit, total, load, t, Indices(|w|));
    AllSettled(w, r, t);
    var c := r.states[t].weights;
    forall i | 0 <= i < |c|
      ensures -((2 * |w| - 1) * load) <= c[i] <= (2 * |w| - 1) * load
    {
      CappedEntry(c, load, i, (2 * |w| - 1) * load);
    }
  }

  /** Within the caps the next step does not wrap. */
  lemma NextExact(w: seq<uint32>, r: Trace, limit: nat, total: int, load: int, t: nat)
    requires Limited(w, r, limit, total, load) && t < |r.steps| && Exact(w, r, t) && Capped(r.states[t].weights, load)
    ensures ExactAt(w, r.states[t], r.steps[t])
  {
    assert IsStep(w, r.states[t], r.steps[t], r.states[t + 1]);
    AccumulatorsWithin(w, r, limit, total, load, t);
    if r.steps[t].Credit? {
      var idx := r.states[t].calls[r.steps[t].id].idx;
      PartialAtMostTotal(w, idx);
    } else if r.steps[t].Charge? {
      AlwaysAccounted(w, r, t, r.steps[t].id);
      SumMonotone(w, CreditedBy(r, t, r.steps[t].id), Indices(|w|));
    }
  }

  lemma CappedAtStart(w: seq<uint32>, r: Trace, load: int)
    requires IsRun(w, r) && load >= 0
    ensures Capped(r.states[0].weights, load)
  {
    forall s | s <= Indices(|w|)
      ensures GroupCapped(r.states[0].weights, load, s)
    {
      SubsetSize(s, Indices(|w|));
      SumOfZeros(|w|, s);
      CapAtLeast(load, |w|, |s|);
    }
  }

  lemma {:induction false} AlwaysCapped(w: seq<uint32>, r: Trace, limit: nat, total: int, load: int, t: nat)
    requires Limited(w, r, limit, total, load) && t <= |r.steps|
    ensures Exact(w, r, t) && CappedUpTo(r, t, load)
  {
    if t == 0 {
      LoadHeld(w, r, limit, total, load, 0, {});
      CappedAtStart(w, r, load);
    } else {
      AlwaysCapped(w, r, limit, total, load, t - 1);
      NextExact(w, r, limit, total, load, t - 1);
      StateStaysCapped(w, r, limit, total, load, t);
    }
  }

  /**
   * With at most `C` calls in flight at a time, `n` backends and configured total `W`: under every
   * interleaving, in runs of any length and whatever each call finds eligible, any `k` accumulators sum
   * to at most `(2k(n - k) + 1) * C * W`, each of them stays within `(2n - 1) * C * W` on either side,
   * none ever wraps, and together they equal what the calls in flight still owe.
   */
  lemma ConcurrentDriftBounded(w: seq<uint32>, r: Trace, limit: nat, total: int, load: int, t: nat)
    requires Limited(w, r, limit, total, load) && t <= |r.steps|
    ensures |r.states[t].weights| == |w| && Within(r.states[t].weights, (2 * |w| - 1) * load)
    ensures forall s :: s <= Indices(|w|) ==> Sum(r.states[t].weights, s) <= Cap(load, |w|, |s|)
    ensures Sum(r.states[t].weights, Indices(|w|)) == Pending(w, r, t, Indices(|w|))
  {
    AlwaysCapped(w, r, limit, total, load, t);
    AccumulatorsWithin(w, r, limit, total, load, t);
    AllSettled(w, r, t);
    forall s | s <= Indices(|w|)
      ensures Sum(r.states[t].weights, s) <= Cap(load, |w|, |s|)
    {
      assert GroupCapped(r.states[t].weights, load, s);
    }
  }

  // ----- nobody starves -----

  predicate CreditsBackend(s: Shared, a: Step, i: int)
  {
    a.Credit? && a.id < |s.calls| && s.calls[a.id].Scanning? && s.calls[a.id].idx == i
  }

  /** The number of credits backend `i` receives from step `p` to step `q`. */
  ghost function Credits(r: Trace, p: nat, q: nat, i: int): nat
    requires p <= q <= |r.steps| && |r.states| == |r.steps| + 1
    decreases q
  {
    if p == q then 0 else Credits(r, p, q - 1, i) + if CreditsBackend(r.states[q - 1], r.steps[q - 1], i) then 1 else 0
  }

  predicate ChargesBackend(s: Shared, a: Step, i: int)
  {
    a.Charge? && a.id < |s.calls| && s.calls[a.id].Scanning? && s.calls[a.id].best == Some(i)
  }

  lemma UnchargedStep(w: seq<uint32>, s: Shared, a: Step, i: int)
    requires ExactAt(w, s, a) && 0 <= i < |w| == |s.weights| && !ChargesBackend(s, a, i)
    ensures Apply(w, s, a).weights[i] == s.weights[i] + if CreditsBackend(s, a, i) then w[i] else 0
  {
  }

  /** What those credits add up to. */
  ghost function Owed(x: int, r: Trace, p: nat, q: nat, i: int): int
    requires p <= q <= |r.steps| && |r.states| == |r.steps| + 1
    decreases q
  {
    if p == q then 0 else Owed(x, r, p, q - 1, i) + if CreditsBackend(r.states[q - 1], r.steps[q - 1], i) then x else 0
  }

  lemma {:induction false} OwedIsProduct(x: int, r: Trace, p: nat, q: nat, i: int)
    requires p <= q <= |r.steps| && |r.states| == |r.steps| + 1
    ensures Owed(x, r, p, q, i) == x * Credits(r, p, q, i)
    decreases q
  {
    if p == q {
    } else {
      OwedIsProduct(x, r, p, q - 1, i);
      OneMore(x, Credits(r, p, q - 1, i));
    }
  }

  lemma {:induction false} UnchargedGrows(w: seq<uint32>, r: Trace, p: nat, q: nat, i: int)
    requires IsRun(w, r) && Wide(w, r) && p <= q <= |r.steps| && Exact(w, r, q) && 0 <= i < |w|
    requires forall k :: p <= k < q ==> !ChargesBackend(r.states[k], r.steps[k], i)
    ensures r.states[q].weights[i] == r.states[p].weights[i] + Owed(w[i], r, p, q, i)
    decreases q
  {
    if p == q {
    } else {
      var s, a := r.states[q - 1], r.steps[q - 1];
      assert IsStep(w, s, a, r.states[q]) && ExactAt(w, s, a);
      UnchargedStep(w, s, a, i);
      UnchargedGrows(w, r, p, q - 1, i);
    }
  }

  /**
   * Bounded waiting under concurrency: with at most `C` calls in flight, a backend of weight `w` that no
   * call picks in some stretch of steps is found eligible in it at most `2(2n - 1) * C * W / w` times.
   */
  lemma ConcurrentBoundedWaiting(w: seq<uint32>, r: Trace, limit: nat, total: int, load: int, p: nat, q: nat, i: int)
    requires Limited(w, r, limit, total, load) && p <= q <= |r.steps| && 0 <= i < |w|
    requires forall k :: p <= k < q ==> !ChargesBackend(r.states[k], r.steps[k], i)
    ensures w[i] * Credits(r, p, q, i) <= 2 * ((2 * |w| - 1) * load)
  {
    AlwaysCapped(w, r, limit, total, load, q);
    AlwaysWide(w, r);
    ConcurrentDriftBounded(w, r, limit, total, load, p);
    ConcurrentDriftBounded(w, r, limit, total, load, q);
    UnchargedGrows(w, r, p, q, i);
    OwedIsProduct(w[i], r, p, q, i);
  }
}
