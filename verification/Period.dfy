/**
 * Exact proportionality: with a fixed eligible set the selection returns to its initial state after
 * exactly the multiples of (eligible total) / (greatest common divisor of the eligible weights) calls,
 * and every window of that length, at any offset, serves each backend exactly weight / gcd times.
 */
module Period {
  import opened Sums
  import opened RoundRobin
  import opened Rotation

  // ----- greatest common divisor -----

  function Gcd(a: nat, b: nat): nat
    decreases b
  {
    if b == 0 then a else Gcd(b, a % b)
  }

  predicate Product(x: int, d: int, q: int)
  {
    x == d * q
  }

  ghost predicate Divides(d: int, x: int)
  {
    exists q :: Product(x, d, q)
  }

  /** The greatest common divisor of the weights of `s` below `n`. */
  function GcdTo(w: seq<int>, s: set<int>, n: nat): nat
    requires n <= |w| && PositiveWeights(w)
  {
    if n == 0 then 0
    else if n - 1 in s then Gcd(GcdTo(w, s, n - 1), w[n - 1])
    else GcdTo(w, s, n - 1)
  }

  function CommonDivisor(w: seq<int>, e: set<int>): nat
    requires PositiveWeights(w)
  {
    GcdTo(w, e, |w|)
  }

  lemma DividesSum(d: int, x: int, y: int)
    requires Divides(d, x) && Divides(d, y)
    ensures Divides(d, x + y) && Divides(d, x - y)
  {
    var p :| Product(x, d, p);
    var q :| Product(y, d, q);
    assert Product(x + y, d, p + q);
    assert Product(x - y, d, p - q);
  }

  lemma DividesMultiple(d: int, x: int, k: int)
    requires Divides(d, x)
    ensures Divides(d, k * x)
  {
    var p :| Product(x, d, p);
    assert Product(k * x, d, k * p);
  }

  lemma DividesDividend(d: int, a: nat, b: nat)
    requires b > 0 && Divides(d, b) && Divides(d, a % b)
    ensures Divides(d, a)
  {
    DividesMultiple(d, b, a / b);
    DividesSum(d, (a / b) * b, a % b);
    assert a == (a / b) * b + a % b;
  }

  /** The Euclidean step: `a` is a combination of `b` and `a % b`. */
  lemma {:induction false} GcdDivides(a: nat, b: nat)
    ensures Divides(Gcd(a, b), a) && Divides(Gcd(a, b), b)
    decreases b
  {
    if b == 0 {
      assert Product(a, a, 1) && Product(0, a, 0);
    } else {
      GcdDivides(b, a % b);
      DividesDividend(Gcd(a, b), a, b);
    }
  }

  lemma RemainderScaled(k: int, a: nat, b: nat)
    requires b > 0
    ensures k * (a % b) == k * a - (a / b) * (k * b)
  {
    assert a % b == a - (a / b) * b;
    assert k * ((a / b) * b) == (a / b) * (k * b);
  }

  /** What divides `k * a` and `k * b` divides `k` times their greatest common divisor. */
  lemma {:induction false} GcdScaled(t: int, k: int, a: nat, b: nat)
    requires Divides(t, k * a) && Divides(t, k * b)
    ensures Divides(t, k * Gcd(a, b))
    decreases b
  {
    if b == 0 {
    } else {
      DividesMultiple(t, k * b, a / b);
      DividesSum(t, k * a, (a / b) * (k * b));
      RemainderScaled(k, a, b);
      GcdScaled(t, k, b, a % b);
    }
  }

  lemma {:induction false} GcdPositive(a: nat, b: nat)
    requires a > 0 || b > 0
    ensures Gcd(a, b) > 0
    decreases b
  {
    if b == 0 {
    } else {
      GcdPositive(b, a % b);
    }
  }

  lemma DividesTransitive(d: int, x: int, y: int)
    requires Divides(d, x) && Divides(x, y)
    ensures Divides(d, y)
  {
    var p :| Product(x, d, p);
    var q :| Product(y, x, q);
    assert Product(y, d, p * q);
  }

  /** It divides every eligible weight and their sum. */
  lemma {:induction false} GcdToDivides(w: seq<int>, s: set<int>, n: nat)
    requires n <= |w| && PositiveWeights(w)
    ensures forall i :: 0 <= i < n && i in s ==> Divides(GcdTo(w, s, n), w[i])
    ensures Divides(GcdTo(w, s, n), SumTo(w, s, n))
  {
    var d := GcdTo(w, s, n);
    if n == 0 {
      assert Product(0, d, 0);
    } else {
      GcdToDivides(w, s, n - 1);
      if n - 1 in s {
        GcdDivides(GcdTo(w, s, n - 1), w[n - 1]);
        forall i | 0 <= i < n - 1 && i in s
          ensures Divides(d, w[i])
        {
          DividesTransitive(d, GcdTo(w, s, n - 1), w[i]);
        }
        DividesTransitive(d, GcdTo(w, s, n - 1), SumTo(w, s, n - 1));
        DividesSum(d, SumTo(w, s, n - 1), w[n - 1]);
      }
    }
  }

  /** What divides `k` times every eligible weight divides `k` times their greatest common divisor. */
  lemma {:induction false} GcdToScaled(w: seq<int>, s: set<int>, n: nat, t: int, k: int)
    requires n <= |w| && PositiveWeights(w)
    requires forall i :: 0 <= i < n && i in s ==> Divides(t, k * w[i])
    ensures Divides(t, k * GcdTo(w, s, n))
  {
    if n == 0 {
      assert Product(k * 0, t, 0);
    } else {
      GcdToScaled(w, s, n - 1, t, k);
      if n - 1 in s {
        GcdScaled(t, k, GcdTo(w, s, n - 1), w[n - 1]);
      }
    }
  }

  lemma {:induction false} GcdToPositive(w: seq<int>, s: set<int>, n: nat)
    requires n <= |w| && PositiveWeights(w)
    requires exists i :: 0 <= i < n && i in s
    ensures GcdTo(w, s, n) > 0
  {
    if n - 1 in s {
      GcdPositive(GcdTo(w, s, n - 1), w[n - 1]);
    } else {
      GcdToPositive(w, s, n - 1);
    }
  }

  // ----- the period -----

  /** `total` is the eligible total, `d` a common divisor of the eligible weights and `p` their quotient. */
  ghost predicate Cycle(w: seq<int>, e: set<int>, total: int, d: nat, p: nat)
  {
    && Steady(w, e) && total == Sum(w, e) && Product(total, d, p) && d > 0 && p > 0
    && forall i :: i in e ==> Divides(d, w[i])
  }

  lemma PositiveFactor(x: int, d: int, q: int)
    requires x == d * q && x > 0 && d > 0
    ensures q > 0
  {
    assert q <= 0 ==> d * q <= 0;
  }

  /** The greatest common divisor gives such a cycle. */
  lemma CycleExists(w: seq<int>, e: set<int>) returns (total: int, d: nat, p: nat)
    requires Steady(w, e)
    ensures Cycle(w, e, total, d, p) && d == CommonDivisor(w, e)
  {
    total, d := Sum(w, e), CommonDivisor(w, e);
    SomeoneWins(w, e, Zeros(|w|));
    GcdToPositive(w, e, |w|);
    GcdToDivides(w, e, |w|);
    EligibleTotalPositive(w, e);
    var q :| Product(total, d, q);
    assert q > 0 by {
      PositiveFactor(total, d, q);
    }
    p := q;
  }

  /** A multiple of the total that is above minus the total is not negative. */
  lemma WholePicks(total: int, q: int, n: int)
    requires total > 0 && total * q - total * n > -total
    ensures q >= n
  {
    assert q <= n - 1 ==> total * q <= total * (n - 1);
  }

  lemma {:induction false} NonNegativeToZero(v: seq<int>, s: set<int>, n: nat, i: int)
    requires n <= |v| && (forall l :: 0 <= l < n && l in s ==> v[l] >= 0)
    ensures SumTo(v, s, n) >= 0
    ensures 0 <= i < n && i in s && SumTo(v, s, n) == 0 ==> v[i] == 0
  {
    if n == 0 {
    } else {
      NonNegativeToZero(v, s, n - 1, i);
    }
  }

  lemma SwapFactors(x: int, d: int, q: int, p: int, total: int)
    requires x == d * q && total == d * p
    ensures x * p == total * q
  {
    assert x * p == (d * q) * p == (d * p) * q;
  }

  /** After one period a backend of weight `d * q` has been picked at most `q` times. */
  lemma PicksAtMost(w: seq<int>, e: set<int>, total: int, d: nat, p: nat, i: int, q: int)
    requires Cycle(w, e, total, d, p) && i in e && Product(w[i], d, q)
    ensures Count(w, e, p, i) <= q
    ensures State(w, e, p)[i] == total * q - total * Count(w, e, p, i)
  {
    SwapFactors(w[i], d, q, p, total);
    StateLedger(w, e, p, i, w[i] * p);
    PaidIsProduct(w, e, p, i, total);
    StateAbove(w, e, p, i);
    EligibleTotalPositive(w, e);
    WholePicks(total, q, Count(w, e, p, i));
  }

  lemma NonNegativeDifference(total: int, q: int, n: int)
    requires total > 0 && q >= n
    ensures total * q - total * n >= 0
  {
    assert total * (q - n) >= 0;
  }

  lemma PicksState(w: seq<int>, e: set<int>, total: int, d: nat, p: nat, i: int)
    requires Cycle(w, e, total, d, p) && i in e
    ensures State(w, e, p)[i] >= 0
  {
    assert Divides(d, w[i]);
    var q :| Product(w[i], d, q);
    PicksAtMost(w, e, total, d, p, i, q);
    EligibleTotalPositive(w, e);
    NonNegativeDifference(total, q, Count(w, e, p, i));
  }

  /** After one period every running weight is zero again. */
  lemma ReturnsToZero(w: seq<int>, e: set<int>, total: int, d: nat, p: nat)
    requires Cycle(w, e, total, d, p)
    ensures State(w, e, p) == Zeros(|w|)
  {
    var c := State(w, e, p);
    StateSum(w, e, p);
    forall i | i in e
      ensures c[i] >= 0
    {
      PicksState(w, e, total, d, p, i);
    }
    forall i | 0 <= i < |w|
      ensures c[i] == 0
    {
      if i in e {
        NonNegativeToZero(c, e, |w|, i);
      } else {
        StateLedger(w, e, p, i, w[i] * p);
      }
    }
  }

  /** A return to zero after `p` calls makes the run repeat: `p` calls later the state is the same. */
  lemma {:induction false} Repeats(w: seq<int>, e: set<int>, p: nat, k: nat, l: nat)
    requires State(w, e, p) == Zeros(|w|) && l == p + k
    ensures State(w, e, l) == State(w, e, k)
  {
    if k == 0 {
    } else {
      Repeats(w, e, p, k - 1, l - 1);
    }
  }

  lemma CountedState(w: seq<int>, e: set<int>, k: nat, i: int, total: int, x: int, n: int, held: int)
    requires Steady(w, e) && total == Sum(w, e) && i in e
    requires x == w[i] && n == Count(w, e, k, i) && held == State(w, e, k)[i]
    ensures held == x * k - total * n
  {
    StateFromCount(w, e, k, i, total, x * k);
  }

  lemma CostSplit(total: int, m: int, n: int)
    ensures total * (m - n) == total * m - total * n
  {
  }

  lemma WindowCost(total: int, after: int, before: int, x: int, k: int, l: int, held: int)
    requires held == x * k - total * before && held == x * l - total * after
    ensures total * (after - before) == x * (l - k)
  {
    CostSplit(x, l, k);
    CostSplit(total, after, before);
  }

  /** Between two equal states the picks of a backend cost exactly what it was owed. */
  lemma EqualStatesCount(w: seq<int>, e: set<int>, total: int, k: nat, l: nat, i: int, before: int, after: int, x: int)
    requires Steady(w, e) && total == Sum(w, e) && i in e && x == w[i]
    requires State(w, e, l) == State(w, e, k)
    requires before == Count(w, e, k, i) && after == Count(w, e, l, i)
    ensures total * (after - before) == x * (l - k)
  {
    var held := State(w, e, k)[i];
    CountedState(w, e, k, i, total, x, before, held);
    CountedState(w, e, l, i, total, x, after, held);
    WindowCost(total, after, before, x, k, l, held);
  }

  lemma CancelTotal(total: int, d: int, p: int, n: int, x: int, window: int)
    requires total > 0 && p > 0 && total == d * p && window == p && total * n == x * window
    ensures Product(x, d, n)
  {
    assert (d * n - x) * p == 0;
  }

  /** The running weights and the picks repeat with the period. */
  lemma PicksRepeat(w: seq<int>, e: set<int>, total: int, d: nat, p: nat, k: nat, l: nat)
    requires Cycle(w, e, total, d, p) && l == p + k
    ensures State(w, e, l) == State(w, e, k) && Pick(w, e, l) == Pick(w, e, k)
  {
    ReturnsToZero(w, e, total, d, p);
    Repeats(w, e, p, k, l);
  }

  lemma WindowShare(w: seq<int>, e: set<int>, total: int, d: nat, p: nat, k: nat, l: nat, i: int,
                    before: int, after: int, x: int)
    requires Steady(w, e) && total == Sum(w, e) && Product(total, d, p) && p > 0 && l == p + k && i in e && x == w[i]
    requires State(w, e, l) == State(w, e, k)
    requires before == Count(w, e, k, i) && after == Count(w, e, l, i)
    ensures Product(x, d, after - before)
  {
    EqualStatesCount(w, e, total, k, l, i, before, after, x);
    EligibleTotalPositive(w, e);
    CancelTotal(total, d, p, after - before, x, l - k);
  }

  /** Every window of one period, from `k` to `l`, picks an eligible backend exactly weight / divisor times. */
  lemma WindowExact(w: seq<int>, e: set<int>, total: int, d: nat, p: nat, k: nat, l: nat, i: int,
                    before: int, after: int, x: int)
    requires Cycle(w, e, total, d, p) && i in e && l == p + k && x == w[i]
    requires before == Count(w, e, k, i) && after == Count(w, e, l, i)
    ensures Product(x, d, after - before)
  {
    PicksRepeat(w, e, total, d, p, k, l);
    WindowShare(w, e, total, d, p, k, l, i, before, after, x);
  }

  function Quotient(x: int, d: int): int
  {
    if d == 0 then 0 else x / d
  }

  lemma NoRemainder(d: int, y: int, r: int)
    requires 0 <= r < d && d * y == r
    ensures y == 0
  {
    assert y >= 1 ==> d * y >= d;
    assert y <= -1 ==> d * y <= -d;
  }

  lemma QuotientIsFactor(x: int, d: int, q: int)
    requires Product(x, d, q) && d > 0
    ensures Quotient(x, d) == q
  {
    var n := x / d;
    NoRemainder(d, q - n, x - d * n);
  }

  lemma WindowQuotient(w: seq<int>, e: set<int>, total: int, d: nat, p: nat, k: nat, l: nat, i: int,
                       before: int, after: int, x: int)
    requires Cycle(w, e, total, d, p) && i in e && l == p + k && x == w[i]
    requires before == Count(w, e, k, i) && after == Count(w, e, l, i)
    ensures Divides(d, x) && Quotient(x, d) == after - before
  {
    WindowExact(w, e, total, d, p, k, l, i, before, after, x);
    QuotientIsFactor(x, d, after - before);
  }

  /** The number of calls after which a steady selection starts over. */
  function CycleLength(w: seq<int>, e: set<int>): int
    requires PositiveWeights(w)
  {
    Quotient(Sum(w, e), CommonDivisor(w, e))
  }

  /**
   * Exact proportionality: with a fixed eligible set, a window of (eligible total) / gcd calls, at any
   * offset `k`, picks each eligible backend exactly weight / gcd times and ends where it started.
   */
  lemma ExactProportions(w: seq<int>, e: set<int>, k: nat, l: nat, i: int)
    requires Steady(w, e) && i in e && l == k + CycleLength(w, e)
    ensures CycleLength(w, e) > 0 && Divides(CommonDivisor(w, e), w[i])
    ensures Count(w, e, l, i) - Count(w, e, k, i) == Quotient(w[i], CommonDivisor(w, e))
    ensures State(w, e, l) == State(w, e, k)
  {
    var total, d, p := CycleExists(w, e);
    QuotientIsFactor(total, d, p);
    PicksRepeat(w, e, total, d, p, k, l);
    WindowQuotient(w, e, total, d, p, k, l, i, Count(w, e, k, i), Count(w, e, l, i), w[i]);
  }

  lemma PeelPeriod(k: int, p: nat, t: nat)
    requires Product(k, p, t) && t > 0
    ensures k - p >= 0 && Product(k - p, p, t - 1)
  {
    assert p * (t - 1) >= 0;
  }

  lemma {:induction false} MultiplesReturn(w: seq<int>, e: set<int>, p: nat, t: nat, k: nat)
    requires State(w, e, p) == Zeros(|w|) && Product(k, p, t)
    ensures State(w, e, k) == Zeros(|w|)
    decreases t
  {
    if t == 0 {
    } else {
      PeelPeriod(k, p, t);
      MultiplesReturn(w, e, p, t - 1, k - p);
      Repeats(w, e, p, k - p, k);
    }
  }

  /** A return to zero after `k` calls makes the total divide `k` times every eligible weight. */
  lemma ZeroDivides(w: seq<int>, e: set<int>, total: int, k: nat, i: int)
    requires Steady(w, e) && total == Sum(w, e) && i in e && State(w, e, k) == Zeros(|w|)
    ensures Divides(total, k * w[i])
  {
    StateLedger(w, e, k, i, w[i] * k);
    PaidIsProduct(w, e, k, i, total);
    assert Product(k * w[i], total, Count(w, e, k, i));
  }

  lemma NaturalFactor(k: nat, p: nat, t: int)
    requires p > 0 && Product(k, p, t)
    ensures t >= 0
  {
    assert t < 0 ==> p * t < 0;
  }

  lemma CancelDivisor(k: int, d: int, p: int, q: int)
    requires d > 0 && k * d == (d * p) * q
    ensures k == p * q
  {
    assert (k - p * q) * d == 0;
  }

  lemma ReturnsOnlyAtMultiples(w: seq<int>, e: set<int>, total: int, d: nat, p: nat, k: nat)
    requires Cycle(w, e, total, d, p) && d == CommonDivisor(w, e) && State(w, e, k) == Zeros(|w|)
    ensures Divides(p, k)
  {
    forall i | 0 <= i < |w| && i in e
      ensures Divides(total, k * w[i])
    {
      ZeroDivides(w, e, total, k, i);
    }
    GcdToScaled(w, e, |w|, total, k);
    var q :| Product(k * d, total, q);
    CancelDivisor(k, d, p, q);
    assert Product(k, p, q);
  }

  /** The selection is back at its initial state after exactly the multiples of the cycle length. */
  lemma ReturnsExactlyAtMultiples(w: seq<int>, e: set<int>, k: nat)
    requires Steady(w, e)
    ensures State(w, e, k) == Zeros(|w|) <==> Divides(CycleLength(w, e), k)
  {
    var total, d, p := CycleExists(w, e);
    QuotientIsFactor(total, d, p);
    if State(w, e, k) == Zeros(|w|) {
      ReturnsOnlyAtMultiples(w, e, total, d, p, k);
    }
    if Divides(p, k) {
      var t :| Product(k, p, t);
      NaturalFactor(k, p, t);
      ReturnsToZero(w, e, total, d, p);
      MultiplesReturn(w, e, p, t, k);
    }
  }
}
