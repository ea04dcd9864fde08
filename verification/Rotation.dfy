/**
 * The selection while the eligible set stays the same: how far any backend can be ahead of or
 * behind its exact share, and how often in a row one backend can be picked.
 */
module Rotation {
  import opened Sums
  import opened RoundRobin
  import opened Wrappers
  import Runs

  /** A non-empty set of backends that stays eligible. */
  predicate Steady(w: seq<int>, e: set<int>)
  {
    PositiveWeights(w) && e <= Indices(|w|) && e != {}
  }

  /** The running weights of a fresh balancer after `k` calls that all find `e` eligible. */
  function State(w: seq<int>, e: set<int>, k: nat): (c: seq<int>)
    ensures |c| == |w|
  {
    if k == 0 then Zeros(|w|) else Next(w, e, State(w, e, k - 1))
  }

  /** The backend that call number `k` picks (counting from 0). */
  function Pick(w: seq<int>, e: set<int>, k: nat): Option<int>
  {
    Winner(w, e, State(w, e, k))
  }

  /** How often the first `k` calls pick backend `i`. */
  function Count(w: seq<int>, e: set<int>, k: nat, i: int): nat
  {
    if k == 0 then 0 else Count(w, e, k - 1, i) + if Pick(w, e, k - 1) == Some(i) then 1 else 0
  }

  /** A steady stretch is a run in the general sense. */
  lemma {:induction false} StateIsRun(w: seq<int>, e: set<int>, k: nat)
    ensures State(w, e, k) == Runs.Run(w, seq(k, n => e), Zeros(|w|))
  {
    if k == 0 {
    } else {
      StateIsRun(w, e, k - 1);
      assert seq(k, n => e) == seq(k - 1, n => e) + [e];
      Runs.RunAppend(w, seq(k - 1, n => e), e, Zeros(|w|));
    }
  }

  lemma EligibleTotalPositive(w: seq<int>, e: set<int>)
    requires Steady(w, e)
    ensures Sum(w, e) > 0
  {
    var i :| i in e;
    SumRemove(w, e, i);
    SumMonotone(w, {}, e - {i});
    SumToZero(w, {}, |w|);
  }

  // ----- the ledger -----

  /** What the picks of backend `i` cost it in the first `k` calls: the eligible total each. */
  function Paid(w: seq<int>, e: set<int>, k: nat, i: int): int
  {
    if k == 0 then 0 else Paid(w, e, k - 1, i) + if Pick(w, e, k - 1) == Some(i) then Sum(w, e) else 0
  }

  lemma {:induction false} PaidIsProduct(w: seq<int>, e: set<int>, k: nat, i: int, total: int)
    requires total == Sum(w, e)
    ensures Paid(w, e, k, i) == total * Count(w, e, k, i)
  {
    if k == 0 {
    } else {
      PaidIsProduct(w, e, k - 1, i, total);
      OneMore(total, Count(w, e, k - 1, i));
    }
  }

  /** The running weight is what `k` calls owed the backend less what its picks cost. */
  lemma {:induction false} StateLedger(w: seq<int>, e: set<int>, k: nat, i: int, owed: int)
    requires Steady(w, e) && 0 <= i < |w| && owed == w[i] * k
    ensures i in e ==> State(w, e, k)[i] == owed - Paid(w, e, k, i)
    ensures i !in e ==> State(w, e, k)[i] == 0
  {
    if k == 0 {
    } else {
      OneMore(w[i], k - 1);
      StateLedger(w, e, k - 1, i, owed - w[i]);
      NextEntry(w, e, State(w, e, k - 1), i);
    }
  }

  lemma StateFromCount(w: seq<int>, e: set<int>, k: nat, i: int, total: int, owed: int)
    requires Steady(w, e) && i in e && total == Sum(w, e) && owed == w[i] * k
    ensures State(w, e, k)[i] == owed - total * Count(w, e, k, i)
  {
    StateLedger(w, e, k, i, owed);
    PaidIsProduct(w, e, k, i, total);
  }

  lemma {:induction false} StateSum(w: seq<int>, e: set<int>, k: nat)
    requires Steady(w, e)
    ensures Sum(State(w, e, k), e) == 0
  {
    if k == 0 {
      SumOfZeros(|w|, e);
    } else {
      StateSum(w, e, k - 1);
      NextSum(w, e, State(w, e, k - 1), e);
      assert e * e == e;
      var i :| i in e;
      assert Pick(w, e, k - 1).Some?;
    }
  }

  // ----- nobody runs ahead by a whole pick -----

  /** The winner's credited weight is above zero, since the credited weights add up to the total. */
  lemma WinnerPositive(w: seq<int>, e: set<int>, c: seq<int>, j: int)
    requires Steady(w, e) && |c| == |w| && Sum(c, e) == 0
    requires Winner(w, e, c) == Some(j)
    ensures Credited(w, e, c)[j] > 0
  {
    var r := Credited(w, e, c);
    EligibleTotalPositive(w, e);
    CreditedSum(w, e, c, e);
    assert e * e == e;
    if r[j] <= 0 {
      SumAtMost(r, e, 0);
    }
  }

  lemma NextAbove(w: seq<int>, e: set<int>, c: seq<int>, i: int)
    requires Steady(w, e) && |c| == |w| && Sum(c, e) == 0
    requires i in e && c[i] > -Sum(w, e)
    ensures Next(w, e, c)[i] > -Sum(w, e)
  {
    NextEntry(w, e, c, i);
    if Winner(w, e, c) == Some(i) {
      WinnerPositive(w, e, c, i);
    }
  }

  lemma {:induction false} StateAbove(w: seq<int>, e: set<int>, k: nat, i: int)
    requires Steady(w, e) && i in e
    ensures State(w, e, k)[i] > -Sum(w, e)
  {
    if k == 0 {
      EligibleTotalPositive(w, e);
    } else {
      StateAbove(w, e, k - 1, i);
      StateSum(w, e, k - 1);
      NextAbove(w, e, State(w, e, k - 1), i);
    }
  }

  // ----- how far a backend can fall behind -----

  ghost predicate ProfileStep(k: real, here: real, wider: real)
  {
    k * (wider + 1.0) <= (k + 1.0) * here
  }

  /**
   * A profile for `m` backends: `g[k]` eligible totals is as far as any `k` of them may be behind.
   * The condition is what the exchange argument needs.
   */
  ghost predicate Profile(g: seq<real>, m: nat)
  {
    && |g| == m + 1
    && (forall k :: 0 <= k <= m ==> g[k] >= 0.0)
    && (forall k, l :: 0 <= k < m && l == k + 1 ==> ProfileStep(k as real, g[k], g[l]))
  }

  lemma ShareArithmetic(a: int, x: int, z: int, y: int)
    requires x <= a * z && y == x + z
    ensures (a + 1) * x <= a * y
  {
    assert a * y == a * x + a * z;
  }

  /** A group without the winner, together with the winner, shares the credited weights. */
  lemma GroupShare(r: seq<int>, s: set<int>, j: int)
    requires s <= Indices(|r|) && 0 <= j < |r| && j !in s
    requires forall x :: x in s ==> r[x] <= r[j]
    ensures (|s| + 1) * Sum(r, s) <= |s| * Sum(r, s + {j})
  {
    SumAtMost(r, s, r[j]);
    SumInsert(r, s, j);
    ShareArithmetic(|s|, Sum(r, s), r[j], Sum(r, s + {j}));
  }

  /** `held` is at most `g` totals. */
  ghost predicate Behind(held: int, total: int, g: real)
  {
    held as real <= total as real * g
  }

  lemma ProfileReals(x: real, held: real, wider: real, t: real, here: real, next: real)
    requires t >= 0.0 && x >= 0.0
    requires (x + 1.0) * held <= x * (wider + t)
    requires wider <= t * next && x * (next + 1.0) <= (x + 1.0) * here
    ensures held <= t * here
  {
    assert x * (wider + t) <= x * (t * next + t);
    assert x * (t * next + t) == t * (x * (next + 1.0));
    assert t * (x * (next + 1.0)) <= t * ((x + 1.0) * here);
    assert (x + 1.0) * held <= (x + 1.0) * (t * here);
  }

  lemma ProfileExchange(k: nat, held: int, both: int, wider: int, total: int, here: real, next: real)
    requires total >= 0 && (k + 1) * held <= k * both && both <= wider + total
    requires Behind(wider, total, next) && ProfileStep(k as real, here, next)
    ensures Behind(held, total, here)
  {
    assert k * both <= k * (wider + total);
    var x, t := k as real, total as real;
    assert ((k + 1) * held) as real == (x + 1.0) * held as real;
    assert (k * (wider + total)) as real == x * (wider as real + t);
    ProfileReals(x, held as real, wider as real, t, here, next);
  }

  lemma LoserBehind(w: seq<int>, e: set<int>, c: seq<int>, s: set<int>, j: int, total: int, here: real, next: real)
    requires Steady(w, e) && |c| == |w| && s <= e && total == Sum(w, e)
    requires Winner(w, e, c) == Some(j) && j !in s
    requires Behind(Sum(c, s + {j}), total, next) && ProfileStep(|s| as real, here, next)
    ensures Behind(Sum(Credited(w, e, c), s), total, here)
  {
    var r := Credited(w, e, c);
    GroupShare(r, s, j);
    CreditedSum(w, e, c, s + {j});
    SumMonotone(w, (s + {j}) * e, e);
    EligibleTotalPositive(w, e);
    ProfileExchange(|s|, Sum(r, s), Sum(r, s + {j}), Sum(c, s + {j}), total, here, next);
  }

  /** One call keeps the profile. */
  lemma NextProfile(w: seq<int>, e: set<int>, c: seq<int>, s: set<int>, j: int, total: int, here: real, next: real)
    requires Steady(w, e) && |c| == |w| && s <= e && total == Sum(w, e) && Winner(w, e, c) == Some(j)
    requires j in s ==> Behind(Sum(c, s), total, here)
    requires j !in s ==> Behind(Sum(c, s + {j}), total, next) && ProfileStep(|s| as real, here, next)
    ensures Behind(Sum(Next(w, e, c), s), total, here)
  {
    NextSum(w, e, c, s);
    if j in s {
      SumMonotone(w, s * e, e);
    } else {
      CreditedSum(w, e, c, s);
      LoserBehind(w, e, c, s, j, total, here, next);
    }
  }

  lemma SomeoneWins(w: seq<int>, e: set<int>, c: seq<int>)
    requires Steady(w, e) && |c| == |w|
    ensures Winner(w, e, c).Some? && Winner(w, e, c).value in e
  {
    var i :| i in e;
  }

  /** Any `k` of the `m` eligible backends are behind by at most `g[k]` eligible totals together. */
  lemma {:induction false} StateProfile(w: seq<int>, e: set<int>, k: nat, s: set<int>, total: int, g: seq<real>)
    requires Steady(w, e) && s <= e && total == Sum(w, e) && Profile(g, |e|)
    ensures |s| <= |e| && Behind(Sum(State(w, e, k), s), total, g[|s|])
  {
    SubsetSize(s, e);
    if k == 0 {
      EligibleTotalPositive(w, e);
      SumOfZeros(|w|, s);
    } else {
      var c := State(w, e, k - 1);
      SomeoneWins(w, e, c);
      var j := Winner(w, e, c).value;
      if j in s {
        StateProfile(w, e, k - 1, s, total, g);
        NextProfile(w, e, c, s, j, total, g[|s|], 0.0);
      } else {
        StateProfile(w, e, k - 1, s + {j}, total, g);
        assert |s + {j}| == |s| + 1;
        NextProfile(w, e, c, s, j, total, g[|s|], g[|s| + 1]);
      }
    }
  }

  lemma StateBehind(w: seq<int>, e: set<int>, k: nat, i: int, total: int, g: seq<real>)
    requires Steady(w, e) && i in e && total == Sum(w, e) && Profile(g, |e|) && |g| > 1
    ensures Behind(State(w, e, k)[i], total, g[1])
  {
    StateProfile(w, e, k, {i}, total, g);
    SumToSingle(State(w, e, k), i, |w|);
    assert |{i}| == 1;
  }

  // ----- the harmonic profile -----

  ghost function Harmonic(n: nat): real
  {
    if n == 0 then 0.0 else Harmonic(n - 1) + 1.0 / (n as real)
  }

  lemma {:induction false} HarmonicMonotone(k: nat, m: nat)
    requires k <= m
    ensures Harmonic(k) <= Harmonic(m)
  {
    if k == m {
    } else {
      HarmonicMonotone(k, m - 1);
    }
  }

  lemma InverseStep(x: real, h: real, inv: real)
    requires inv * (x + 1.0) == 1.0
    ensures x * ((x + 1.0) * (h - inv) + 1.0) == (x + 1.0) * (x * h)
  {
    assert (x + 1.0) * (h - inv) == (x + 1.0) * h - 1.0;
  }

  /** `k * (H(m) - H(k))` meets the exchange condition with equality. */
  lemma HarmonicStep(k: nat, m: nat)
    ensures ProfileStep(k as real, k as real * (Harmonic(m) - Harmonic(k)),
                        (k + 1) as real * (Harmonic(m) - Harmonic(k + 1)))
  {
    var x, h := k as real, Harmonic(m) - Harmonic(k);
    var inv := 1.0 / (x + 1.0);
    assert Harmonic(k + 1) == Harmonic(k) + inv;
    InverseStep(x, h, inv);
  }

  lemma HarmonicProfile(m: nat) returns (g: seq<real>)
    requires m >= 1
    ensures Profile(g, m) && g[1] == Harmonic(m) - 1.0
  {
    g := seq(m + 1, k requires 0 <= k <= m => k as real * (Harmonic(m) - Harmonic(k)));
    forall k | 0 <= k <= m
      ensures g[k] >= 0.0
    {
      HarmonicMonotone(k, m);
    }
    forall k, l | 0 <= k < m && l == k + 1
      ensures ProfileStep(k as real, g[k], g[l])
    {
      HarmonicStep(k, m);
    }
    assert Harmonic(1) == Harmonic(0) + 1.0 / 1.0 == 1.0;
  }

  /**
   * With a fixed eligible set of `m` backends and eligible total `T`, after any `k` calls backend `i`
   * has had fewer than one pick more than its exact share `k * w / T`, and is short of it by at most
   * `H(m) - 1` picks.
   */
  lemma NeverOverServed(w: seq<int>, e: set<int>, k: nat, i: int, total: int)
    requires Steady(w, e) && i in e && total == Sum(w, e)
    ensures total * Count(w, e, k, i) < w[i] * k + total
    ensures Behind(w[i] * k - total * Count(w, e, k, i), total, Harmonic(|e|) - 1.0)
  {
    var g := HarmonicProfile(|e|);
    StateBehind(w, e, k, i, total, g);
    StateAbove(w, e, k, i);
    StateFromCount(w, e, k, i, total, w[i] * k);
  }

  // ----- repeated picks -----

  lemma PickCost(w: seq<int>, e: set<int>, c: seq<int>, d: seq<int>, i: int, others: int)
    requires |w| == |c| && 0 <= i < |c| && i in e && others == Sum(w, e) - w[i]
    requires Winner(w, e, c) == Some(i) && d == Next(w, e, c)
    ensures d[i] == c[i] - others
  {
    NextEntry(w, e, c, i);
  }

  /** What `n` picks in a row cost a backend: the others' weights each time. */
  function StreakCharge(others: int, n: nat): int
  {
    if n == 0 then 0 else StreakCharge(others, n - 1) + others
  }

  lemma {:induction false} StreakChargeIsProduct(others: int, n: nat)
    ensures StreakCharge(others, n) == others * n
  {
    if n == 0 {
    } else {
      StreakChargeIsProduct(others, n - 1);
      OneMore(others, n - 1);
    }
  }

  predicate PicksInto(w: seq<int>, e: set<int>, c: seq<int>, d: seq<int>, i: int)
  {
    |w| == |c| && d == Next(w, e, c) && Winner(w, e, c) == Some(i)
  }

  /** Each state is the next of the one before, by a call that picks `i`. */
  ghost predicate EveryCallPicks(w: seq<int>, e: set<int>, states: seq<seq<int>>, i: int)
  {
    && (forall x :: 0 <= x < |states| ==> |states[x]| == |w|)
    && (forall x, y :: 0 <= x && y == x + 1 < |states| ==> PicksInto(w, e, states[x], states[y], i))
  }

  lemma {:induction false} StreakCost(w: seq<int>, e: set<int>, states: seq<seq<int>>, n: nat, i: int, others: int)
    requires n < |states| && 0 <= i < |w| && i in e && others == Sum(w, e) - w[i]
    requires EveryCallPicks(w, e, states, i)
    ensures states[n][i] == states[0][i] - StreakCharge(others, n)
  {
    if n == 0 {
    } else {
      StreakCost(w, e, states, n - 1, i, others);
      assert PicksInto(w, e, states[n - 1], states[n], i);
      PickCost(w, e, states[n - 1], states[n], i, others);
    }
  }

  /** The states of `n` calls from call number `k` on. */
  function Stretch(w: seq<int>, e: set<int>, k: nat, n: nat): (states: seq<seq<int>>)
    ensures |states| == n + 1
    ensures forall x :: 0 <= x <= n ==> states[x] == State(w, e, k + x) && |states[x]| == |w|
  {
    seq(n + 1, x requires 0 <= x => State(w, e, k + x))
  }

  lemma StretchStep(w: seq<int>, e: set<int>, k: nat, c: seq<int>, d: seq<int>, i: int)
    requires c == State(w, e, k) && d == State(w, e, k + 1) && Pick(w, e, k) == Some(i)
    ensures PicksInto(w, e, c, d, i)
  {
  }

  lemma StretchPicks(w: seq<int>, e: set<int>, k: nat, n: nat, i: int, states: seq<seq<int>>)
    requires states == Stretch(w, e, k, n) && forall x :: k <= x < k + n ==> Pick(w, e, x) == Some(i)
    ensures EveryCallPicks(w, e, states, i)
  {
    forall x, y | 0 <= x && y == x + 1 < |states|
      ensures PicksInto(w, e, states[x], states[y], i)
    {
      StretchStep(w, e, k + x, states[x], states[y], i);
    }
  }

  lemma AboveAt(w: seq<int>, e: set<int>, l: nat, c: seq<int>, i: int)
    requires Steady(w, e) && i in e && c == State(w, e, l)
    ensures c[i] > -Sum(w, e)
  {
    StateAbove(w, e, l, i);
  }

  lemma StreakFrom(w: seq<int>, e: set<int>, k: nat, n: nat, i: int, others: int, states: seq<seq<int>>)
    requires Steady(w, e) && i in e && others == Sum(w, e) - w[i] && states == Stretch(w, e, k, n)
    requires forall x :: k <= x < k + n ==> Pick(w, e, x) == Some(i)
    ensures states[0][i] - StreakCharge(others, n) > -Sum(w, e)
  {
    StretchPicks(w, e, k, n, i, states);
    AboveAt(w, e, k + n, states[n], i);
    StreakCost(w, e, states, n, i, others);
  }

  lemma StreakEnds(w: seq<int>, e: set<int>, k: nat, n: nat, i: int, total: int, cost: int)
    requires Steady(w, e) && i in e && total == Sum(w, e) && cost == (total - w[i]) * n
    requires forall l :: k <= l < k + n ==> Pick(w, e, l) == Some(i)
    ensures State(w, e, k)[i] - cost > -total
  {
    StreakFrom(w, e, k, n, i, total - w[i], Stretch(w, e, k, n));
    StreakChargeIsProduct(total - w[i], n);
  }

  lemma StreakReals(cost: int, start: int, total: int, h: real)
    requires start - cost > -total && Behind(start, total, h - 1.0)
    ensures Behind(cost + 1, total, h)
  {
    assert total as real * (h - 1.0) == total as real * h - total as real;
  }

  /** So the cost of a streak of `n` picks in a row stays below `H(m)` totals: `n * (T - w) < T * H(m)`. */
  lemma StreakBounded(w: seq<int>, e: set<int>, k: nat, n: nat, i: int, total: int, cost: int)
    requires Steady(w, e) && i in e && total == Sum(w, e) && cost == (total - w[i]) * n
    requires forall l :: k <= l < k + n ==> Pick(w, e, l) == Some(i)
    ensures Behind(cost + 1, total, Harmonic(|e|))
  {
    StreakEnds(w, e, k, n, i, total, cost);
    var g := HarmonicProfile(|e|);
    StateBehind(w, e, k, i, total, g);
    StreakReals(cost, State(w, e, k)[i], total, Harmonic(|e|));
  }
}
