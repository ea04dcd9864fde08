/** The load balancer: the selection loop on its machine-integer array, and its refinement of the ideal rule. */
module Balancer {
  import opened MachineInts
  import opened Sums
  import opened RoundRobin
  import opened Wrappers
  import opened Upstream
  import Runs

  // ----- the scan in machine arithmetic -----

  /** The variables of the selection loop. */
  datatype Scan = Scan(weights: seq<int64>, total: int64, best: Option<int>, bestWeight: int64)

  /** The loop after `n` backends, with wrapping accumulators and saturating locals. */
  function ScanTo(w: seq<uint32>, e: set<int>, c: seq<int64>, n: nat): (s: Scan)
    requires n <= |w| == |c|
    ensures |s.weights| == |c|
    ensures s.best.Some? ==> 0 <= s.best.value < n && s.best.value in e
  {
    if n == 0 then Scan(c, 0, None, I64_MIN)
    else
      var s, i := ScanTo(w, e, c, n - 1), n - 1;
      if i !in e then s
      else
        var current := SaturatingAdd64(s.weights[i], w[i]);
        var better := current > s.bestWeight;
        Scan(s.weights[i := Wrap64(s.weights[i] + w[i])], SaturatingAdd64(s.total, w[i]),
             if better then Some(i) else s.best, if better then current else s.bestWeight)
  }

  function MachineWinner(w: seq<uint32>, e: set<int>, c: seq<int64>): (best: Option<int>)
    requires |w| == |c|
    ensures best.Some? ==> 0 <= best.value < |c| && best.value in e
  {
    ScanTo(w, e, c, |c|).best
  }

  /** The running weights one call leaves behind, in machine arithmetic. */
  function MachineNext(w: seq<uint32>, e: set<int>, c: seq<int64>): (r: seq<int64>)
    requires |w| == |c|
    ensures |r| == |c|
  {
    var s := ScanTo(w, e, c, |c|);
    match s.best
    case None => s.weights
    case Some(j) => s.weights[j := Wrap64(s.weights[j] - s.total)]
  }

  /**
   * Starting the comparison from `i64::MIN` is safe in any state: a credited weight is above it even
   * after saturation, so a call finds nobody exactly when nobody is eligible.
   */
  lemma {:induction false} NobodyFoundIffNobodyEligible(w: seq<uint32>, e: set<int>, c: seq<int64>, n: nat)
    requires n <= |w| == |c| && PositiveWeights(w)
    ensures ScanTo(w, e, c, n).best.None? <==> forall i :: 0 <= i < n ==> i !in e
    ensures ScanTo(w, e, c, n).best.None? ==> ScanTo(w, e, c, n).bestWeight == I64_MIN
  {
    if n == 0 {
    } else {
      NobodyFoundIffNobodyEligible(w, e, c, n - 1);
      assert n - 1 in e ==> ScanTo(w, e, c, n).best.Some?;
    }
  }

  /** The pool is small enough: half of `(n + 1) * W` fits in an `i64`. */
  predicate Fits(w: seq<int>)
  {
    (|w| + 1) * Total(w) <= 2 * I64_MAX
  }

  /** Up to 65535 backends fit, whatever their `u32` weights. */
  lemma SmallPoolsFit(w: seq<int>)
    requires |w| <= 65535 && forall i :: 0 <= i < |w| ==> 1 <= w[i] <= U32_MAX
    ensures Fits(w)
  {
    SumAtMost(w, Indices(|w|), U32_MAX);
    assert Total(w) <= |w| * U32_MAX;
    assert (|w| + 1) * Total(w) <= (|w| + 1) * (|w| * U32_MAX);
    assert (|w| + 1) * |w| <= 65536 * 65535;
  }

  /** Accumulators reached by a run of a pool that fits. */
  ghost predicate Sound(w: seq<int>, c: seq<int>)
  {
    PositiveWeights(w) && Fits(w) && Balanced(w, c)
  }

  lemma EntryBelowTotal(w: seq<int>, i: int)
    requires PositiveWeights(w) && 0 <= i < |w|
    ensures 0 < w[i] <= Total(w)
  {
    SumRemove(w, Indices(|w|), i);
    SumMonotone(w, {}, Indices(|w|) - {i});
    SumToZero(w, {}, |w|);
  }

  lemma RangeArithmetic(n: int, total: int, x: int, weight: int)
    requires n >= 1 && 0 < weight <= total && (n + 1) * total <= 2 * I64_MAX
    requires -(total * (n - 1)) <= 2 * x <= total * (n - 1)
    ensures I64_MIN < x && x + weight <= I64_MAX
  {
    assert (n + 1) * total == total * (n - 1) + 2 * total;
  }

  /** No accumulator, credited or not, comes near either end of the `i64` range. */
  lemma InRange(w: seq<int>, c: seq<int>, i: int)
    requires Sound(w, c) && 0 <= i < |c|
    ensures I64_MIN < c[i] + w[i] <= I64_MAX && I64_MIN < c[i]
  {
    BalancedEntry(w, c, i);
    EntryBelowTotal(w, i);
    RangeArithmetic(|w|, Total(w), c[i], w[i]);
  }

  lemma {:induction false} TailZero(w: seq<int>, s: set<int>, n: nat, m: nat)
    requires n <= m <= |w| && forall i :: n <= i < m ==> i !in s
    ensures SumTo(w, s, m) == SumTo(w, s, n)
  {
    if n == m {
    } else {
      TailZero(w, s, n, m - 1);
    }
  }

  lemma PartialTotal(w: seq<int>, e: set<int>, n: nat)
    requires PositiveWeights(w) && n <= |w|
    ensures 0 <= SumTo(w, e, n) <= Total(w)
  {
    var s := e * Indices(n);
    SumToAgree(w, e, w, s, n);
    SumToAgree(w, s, w, s, n);
    SumMonotone(w, s, Indices(|w|));
    TailZero(w, s, n, |w|);
  }

  lemma TotalFits(w: seq<int>)
    requires PositiveWeights(w) && Fits(w)
    ensures 0 <= Total(w) <= I64_MAX
  {
    TotalPositive(w);
    if |w| > 0 {
      assert 2 * Total(w) <= (|w| + 1) * Total(w);
    } else {
      assert Total(w) == 0;
    }
  }

  lemma TotalInRange(w: seq<int>, e: set<int>, n: nat)
    requires PositiveWeights(w) && Fits(w) && n <= |w|
    ensures 0 <= SumTo(w, e, n) <= I64_MAX
  {
    PartialTotal(w, e, n);
    TotalFits(w);
  }

  /** In a sound state the machine scan never wraps or saturates: it is the ideal scan. */
  lemma {:induction false} ScanIsIdeal(w: seq<uint32>, e: set<int>, c: seq<int64>, n: nat)
    requires n <= |w| == |c| && Sound(w, c)
    ensures var s, r := ScanTo(w, e, c, n), Credited(w, e, c);
            && s.total == SumTo(w, e, n)
            && s.best == Leader(r, e, n)
            && s.bestWeight == (if s.best.Some? then r[s.best.value] else I64_MIN)
            && forall i :: 0 <= i < |c| ==> s.weights[i] == if i < n then r[i] else c[i]
  {
    if n == 0 {
    } else {
      ScanIsIdeal(w, e, c, n - 1);
      InRange(w, c, n - 1);
      TotalInRange(w, e, n);
    }
  }

  /**
   * No overflow over any run: in a sound state a call in machine arithmetic is the ideal call, it finds
   * nobody exactly when nobody is eligible, and the state it leaves is sound again.
   */
  lemma MachineNextIsIdeal(w: seq<uint32>, e: set<int>, c: seq<int64>)
    requires |w| == |c| && Sound(w, c)
    ensures MachineNext(w, e, c) == Next(w, e, c) && MachineWinner(w, e, c) == Winner(w, e, c)
    ensures MachineWinner(w, e, c).None? <==> forall i :: 0 <= i < |c| ==> i !in e
    ensures Sound(w, MachineNext(w, e, c))
  {
    ScanIsIdeal(w, e, c, |c|);
    NextKeepsBalanced(w, e, c);
    var j := Winner(w, e, c);
    if j.Some? {
      InRange(w, Next(w, e, c), j.value);
      TotalInRange(w, e, |w|);
      InRange(w, c, j.value);
    }
  }

  /** The running weights after one machine call per eligible set of `es`. */
  function MachineRun(w: seq<uint32>, es: seq<set<int>>, c: seq<int64>): (r: seq<int64>)
    requires |w| == |c|
    ensures |r| == |c|
  {
    if es == [] then c else MachineRun(w, es[1..], MachineNext(w, es[0], c))
  }

  lemma {:induction false} SoundRunIsIdeal(w: seq<uint32>, es: seq<set<int>>, c: seq<int64>)
    requires |w| == |c| && Sound(w, c)
    ensures MachineRun(w, es, c) == Runs.Run(w, es, c) && Sound(w, MachineRun(w, es, c))
    decreases |es|
  {
    if es == [] {
    } else {
      MachineNextIsIdeal(w, es[0], c);
      SoundRunIsIdeal(w, es[1..], MachineNext(w, es[0], c));
    }
  }

  /** No run of a fresh balancer over a pool that fits ever wraps or saturates, whatever is eligible when. */
  lemma MachineRunIsIdeal(w: seq<uint32>, es: seq<set<int>>)
    requires PositiveWeights(w) && Fits(w)
    ensures MachineRun(w, es, Zeros(|w|)) == Runs.Run(w, es, Zeros(|w|))
  {
    ZerosBalanced(w);
    SoundRunIsIdeal(w, es, Zeros(|w|));
  }

  // ----- the balancer object -----

  /** A selected backend that is unhealthy is on trial, and its cooldown restarts. */
  function AfterSelection(h: Health, now: uint64, cooldown: uint64): Health
  {
    if h.healthy then h else h.Armed(now, cooldown)
  }

  datatype Selection = Selected(backend: UpstreamState) | NoHealthyUpstream

  class LoadBalancer {
    const pool: seq<UpstreamState>
    const currentWeights: array<int64>

    /** One accumulator per backend, and no backend listed twice. */
    ghost predicate Valid()
      reads this
    {
      && currentWeights.Length == |pool|
      && forall i, j :: 0 <= i < j < |pool| ==> pool[i] != pool[j]
    }

    ghost function Weights(): (w: seq<uint32>)
      ensures |w| == |pool| && forall i :: 0 <= i < |pool| ==> w[i] == pool[i].weight
    {
      seq(|pool|, i requires 0 <= i < |pool| => pool[i].weight)
    }

    ghost function Running(): (c: seq<int64>)
      reads this, currentWeights
    {
      currentWeights[..]
    }

    /** The backends that are eligible when backend `i` is looked at on its clock's reading `now[i]`. */
    ghost function EligibleSet(now: seq<uint64>): (e: set<int>)
      requires |now| == |pool|
      reads pool
    {
      set i | 0 <= i < |pool| && pool[i].State().Eligible(now[i])
    }

    /** What the arithmetic of the running weights relies on. */
    ghost predicate InBounds()
      requires Valid()
      reads this, currentWeights
    {
      Sound(Weights(), Running())
    }

    constructor (pool: seq<UpstreamState>)
      requires forall i, j :: 0 <= i < j < |pool| ==> pool[i] != pool[j]
      ensures Valid() && this.pool == pool && fresh(currentWeights)
      ensures Running() == Zeros(|pool|)
      ensures PositiveWeights(Weights()) && Fits(Weights()) ==> InBounds()
    {
      this.pool := pool;
      currentWeights := new int64[|pool|](i => 0);
      new;
      assert currentWeights[..] == Zeros(|pool|);
      if PositiveWeights(Weights()) {
        ZerosBalanced(Weights());
      }
    }

    /** The selection loop: credits every eligible backend and tracks the first maximum. */
    method ScanBackends(now: seq<uint64>) returns (total: int64, best: Option<int>, bestWeight: int64)
      requires Valid() && |now| == |pool|
      modifies currentWeights
      ensures Scan(Running(), total, best, bestWeight) ==
              ScanTo(Weights(), old(EligibleSet(now)), old(Running()), |pool|)
    {
      ghost var w, e, c := Weights(), EligibleSet(now), Running();
      total, best, bestWeight := 0, None, I64_MIN;
      for idx := 0 to |pool|
        invariant Scan(currentWeights[..], total, best, bestWeight) == ScanTo(w, e, c, idx)
      {
        var eligible := pool[idx].IsEligible(now[idx]);
        assert eligible <==> idx in e;
        if eligible {
          var weight := pool[idx].weight;
          total := SaturatingAdd64(total, weight);
          var current := SaturatingAdd64(currentWeights[idx], weight);
          currentWeights[idx] := Wrap64(currentWeights[idx] + weight);
          if current > bestWeight {
            bestWeight := current;
            best := Some(idx);
          }
        }
      }
    }

    /** Scans, charges the winner, and re-arms the cooldown of an unhealthy winner. */
    method ScanAndCharge(now: seq<uint64>, armed: uint64) returns (selection: Selection)
      requires Valid() && |now| == |pool|
      modifies currentWeights, pool
      ensures Running() == MachineNext(Weights(), old(EligibleSet(now)), old(Running()))
      ensures var winner := MachineWinner(Weights(), old(EligibleSet(now)), old(Running()));
              && selection == (if winner.Some? then Selected(pool[winner.value]) else NoHealthyUpstream)
              && forall i :: 0 <= i < |pool| ==>
                   pool[i].State() == if winner == Some(i) then AfterSelection(old(pool[i].State()), armed, pool[i].cooldown)
                                      else old(pool[i].State())
    {
      var total, best, bestWeight := ScanBackends(now);
      if best.Some? {
        var idx := best.value;
        var held: int := currentWeights[idx];
        currentWeights[idx] := Wrap64(held - total);
        var selected := pool[idx];
        if !selected.healthy {
          selected.ArmCooldown(armed);
        }
        selection := Selected(selected);
      } else {
        selection := NoHealthyUpstream;
      }
    }

    /**
     * Selects the next backend. `now[i]` is backend `i`'s clock when the scan looks at it and `armed`
     * the winner's clock when its cooldown is re-armed. In bounds the call is the ideal one, stays in
     * bounds, and fails exactly when every backend is unhealthy and still cooling down; so any healthy
     * backend, whatever its counters, makes it succeed.
     */
    method Next(now: seq<uint64>, armed: uint64) returns (selection: Selection)
      requires Valid() && |now| == |pool| && InBounds()
      modifies currentWeights, pool
      ensures InBounds()
      ensures Running() == RoundRobin.Next(Weights(), old(EligibleSet(now)), old(Running()))
      ensures selection.NoHealthyUpstream? <==>
              forall i :: 0 <= i < |pool| ==> !old(pool[i].healthy) && now[i] < old(pool[i].cooldownUntil)
      ensures selection.Selected? ==>
              selection.backend in pool
              && exists i :: 0 <= i < |pool| && pool[i] == selection.backend
                             && (old(pool[i].healthy) || now[i] >= old(pool[i].cooldownUntil))
      ensures var winner := Winner(Weights(), old(EligibleSet(now)), old(Running()));
              && (winner.Some? ==> selection == Selected(pool[winner.value]))
              && forall i :: 0 <= i < |pool| ==>
                   pool[i].State() == if winner == Some(i) then AfterSelection(old(pool[i].State()), armed, pool[i].cooldown)
                                      else old(pool[i].State())
    {
      MachineNextIsIdeal(Weights(), EligibleSet(now), Running());
      selection := ScanAndCharge(now, armed);
    }
  }
}
