/**
 * One call of the smooth weighted round-robin selection as a function of the configured weights,
 * the eligible set and the running weights, over unbounded integers.
 */
module RoundRobin {
  import opened Sums
  import opened Wrappers

  /** Configured weights are positive (validated when the configuration is loaded). */
  predicate PositiveWeights(w: seq<int>)
  {
    forall i :: 0 <= i < |w| ==> w[i] > 0
  }

  function Total(w: seq<int>): int
  {
    Sum(w, Indices(|w|))
  }

  /** The running weights after the scan has credited every eligible backend. */
  function Credited(w: seq<int>, e: set<int>, c: seq<int>): (r: seq<int>)
    requires |w| == |c|
    ensures |r| == |c|
    ensures forall i :: 0 <= i < |c| ==> r[i] == c[i] + if i in e then w[i] else 0
  {
    seq(|c|, i requires 0 <= i < |c| => c[i] + if i in e then w[i] else 0)
  }

  /** `j` is the first of the eligible backends whose credited weight is largest. */
  predicate FirstMaximum(r: seq<int>, e: set<int>, j: int, n: nat)
    requires n <= |r|
  {
    && 0 <= j < n && j in e
    && (forall i :: 0 <= i < n && i in e ==> r[i] <= r[j])
    && (forall i :: 0 <= i < j && i in e ==> r[i] < r[j])
  }

  /** The winner among the first `n` backends, as the scan holds it after `n` iterations. */
  function Leader(r: seq<int>, e: set<int>, n: nat): (best: Option<int>)
    requires n <= |r|
    ensures best.None? <==> forall i :: 0 <= i < n ==> i !in e
    ensures best.Some? ==> FirstMaximum(r, e, best.value, n)
  {
    if n == 0 then None
    else
      var b := Leader(r, e, n - 1);
      if n - 1 in e && (b.None? || r[n - 1] > r[b.value]) then Some(n - 1) else b
  }

  function Winner(w: seq<int>, e: set<int>, c: seq<int>): (best: Option<int>)
    requires |w| == |c|
    ensures best.Some? ==> FirstMaximum(Credited(w, e, c), e, best.value, |c|)
  {
    Leader(Credited(w, e, c), e, |c|)
  }

  /** The running weights after one call: everyone eligible credited, the winner charged the total. */
  function Next(w: seq<int>, e: set<int>, c: seq<int>): (r: seq<int>)
    requires |w| == |c|
    ensures |r| == |c|
  {
    var credited := Credited(w, e, c);
    match Winner(w, e, c)
    case None => credited
    case Some(j) => credited[j := credited[j] - Sum(w, e)]
  }

  /** A first maximum is unique, so the selection rule determines the winner. */
  lemma FirstMaximumUnique(r: seq<int>, e: set<int>, j: int, k: int)
    requires FirstMaximum(r, e, j, |r|) && FirstMaximum(r, e, k, |r|)
    ensures j == k
  {
  }

  lemma CreditedSum(w: seq<int>, e: set<int>, c: seq<int>, s: set<int>)
    requires |w| == |c|
    ensures Sum(Credited(w, e, c), s) == Sum(c, s) + Sum(w, s * e)
  {
    var d := seq(|c|, i requires 0 <= i < |c| => if i in e then w[i] else 0);
    SumToLinear(c, d, Credited(w, e, c), s, |c|);
    assert s == s * e + (s - e);
    SumUnion(d, s * e, s - e);
    SumToZero(d, s - e, |d|);
    SumToAgree(d, s * e, w, s * e, |c|);
  }

  /** What one call adds to any group of backends: their eligible weights, less the charge if the winner is among them. */
  lemma NextSum(w: seq<int>, e: set<int>, c: seq<int>, s: set<int>)
    requires |w| == |c|
    ensures var j := Winner(w, e, c);
            Sum(Next(w, e, c), s) ==
            Sum(c, s) + Sum(w, s * e) - if j.Some? && j.value in s then Sum(w, e) else 0
  {
    CreditedSum(w, e, c, s);
    var j := Winner(w, e, c);
    if j.Some? {
      var r := Credited(w, e, c);
      SumUpdate(r, s, j.value, r[j.value] - Sum(w, e));
    }
  }

  /** What one call does to one backend. */
  lemma NextEntry(w: seq<int>, e: set<int>, c: seq<int>, i: int)
    requires |w| == |c| && 0 <= i < |c|
    ensures Next(w, e, c)[i] ==
            c[i] + (if i in e then w[i] else 0) - if Winner(w, e, c) == Some(i) then Sum(w, e) else 0
  {
  }

  /** The call is determined by its first maximum. */
  lemma NextFromWinner(w: seq<int>, e: set<int>, c: seq<int>, j: int)
    requires |w| == |c| && FirstMaximum(Credited(w, e, c), e, j, |c|)
    ensures Winner(w, e, c) == Some(j)
    ensures Next(w, e, c) == Credited(w, e, c)[j := Credited(w, e, c)[j] - Sum(w, e)]
  {
    FirstMaximumUnique(Credited(w, e, c), e, j, Winner(w, e, c).value);
  }

  lemma IneligibleSum(w: seq<int>, e: set<int>, s: set<int>)
    requires forall i :: 0 <= i < |w| ==> i !in e
    ensures Sum(w, s * e) == 0
  {
    SumToZero(w, s * e, |w|);
  }

  // ----- the subset bound -----

  /** `held` is at most half of `k * (n - k)` times `total`. */
  predicate AtMostHalf(held: int, total: int, k: int, n: int)
  {
    2 * held <= total * (k * (n - k))
  }

  predicate GroupBound(w: seq<int>, c: seq<int>, s: set<int>)
  {
    AtMostHalf(Sum(c, s), Total(w), |s|, |c|)
  }

  /**
   * The invariant of every run: the running weights cancel out, and any `k` of the `n` backends
   * together hold at most half of `k * (n - k)` times the configured total.
   */
  ghost predicate Balanced(w: seq<int>, c: seq<int>)
  {
    && |w| == |c|
    && Sum(c, Indices(|c|)) == 0
    && forall s :: s <= Indices(|c|) ==> GroupBound(w, c, s)
  }

  lemma ZeroAtMostHalf(total: int, k: int, n: int)
    requires total >= 0 && 0 <= k <= n
    ensures AtMostHalf(0, total, k, n)
  {
    assert k * (n - k) >= 0;
  }

  lemma {:induction false} SumOfOnes(m: nat, n: nat)
    requires n <= m
    ensures SumTo(seq(m, i => 1), Indices(m), n) == n
  {
    if n == 0 {
    } else {
      SumOfOnes(m, n - 1);
    }
  }

  lemma TotalPositive(w: seq<int>)
    requires PositiveWeights(w)
    ensures Total(w) >= |w|
  {
    var ones := seq(|w|, i => 1);
    SumToBelow(ones, w, Indices(|w|), |w|);
    SumOfOnes(|w|, |w|);
  }

  lemma ZerosBalanced(w: seq<int>)
    requires PositiveWeights(w)
    ensures Balanced(w, Zeros(|w|))
  {
    var c := Zeros(|w|);
    SumOfZeros(|w|, Indices(|w|));
    TotalPositive(w);
    forall s | s <= Indices(|c|)
      ensures GroupBound(w, c, s)
    {
      SumOfZeros(|w|, s);
      SubsetSize(s, Indices(|c|));
      ZeroAtMostHalf(Total(w), |s|, |c|);
    }
  }

  /** Concavity of `k * (n - k)`: the group of `k` lies between `k - a` and `k + 1`. */
  lemma Concave(n: int, k: int, a: int)
    requires a >= 1
    ensures a * ((k + 1) * (n - (k + 1))) + 2 * a + (k - a) * (n - (k - a)) <= (a + 1) * (k * (n - k))
  {
    assert (k + 1) * (n - (k + 1)) == k * (n - k) + n - 2 * k - 1;
    assert a * ((k + 1) * (n - (k + 1))) == a * (k * (n - k)) + a * (n - 2 * k - 1);
    assert (k - a) * (n - (k - a)) == k * (n - k) - a * (n - 2 * k) - a * a;
    assert a * (n - 2 * k - 1) == a * (n - 2 * k) - a;
    assert a <= a * a;
  }

  lemma ScaledSum(total: int, a: int, f1: int, f0: int, f: int)
    requires total >= 0
    requires a * f1 + 2 * a + f0 <= (a + 1) * f
    ensures a * (total * f1) + 2 * (a * total) + total * f0 <= (a + 1) * (total * f)
  {
    assert total * (a * f1 + 2 * a + f0) <= total * ((a + 1) * f);
    assert total * (a * f1 + 2 * a + f0) == a * (total * f1) + 2 * (a * total) + total * f0;
    assert total * ((a + 1) * f) == (a + 1) * (total * f);
  }

  lemma ExchangeHalves(a: int, total: int, held: int, wider: int, rest: int, g1: int, g0: int, g: int)
    requires a >= 1
    requires 2 * wider <= g1 && 2 * rest <= g0
    requires (a + 1) * held <= a * (wider + total) + rest
    requires a * g1 + 2 * (a * total) + g0 <= (a + 1) * g
    ensures 2 * held <= g
  {
    assert a * (2 * wider) <= a * g1;
    assert (a + 1) * (2 * held) <= (a + 1) * g;
  }

  lemma ExchangeStep(a: int, x: int, y: int, z: int, held: int, top: int)
    requires a >= 0 && x <= a * z && held == x + y && held + z <= top
    ensures (a + 1) * held <= a * top + y
  {
    assert a * (held + z) <= a * top;
  }

  /** A group of `k` holding `held`, of which the `a` members the winner beats hold `x`, the rest `y`. */
  lemma ExchangeArithmetic(n: int, k: int, k0: int, k1: int, total: int,
                           held: int, x: int, y: int, z: int, wider: int)
    requires 0 <= k0 < k && k1 == k + 1 && total >= 0
    requires x <= (k - k0) * z && held == x + y && held + z <= wider + total
    requires AtMostHalf(wider, total, k1, n) && AtMostHalf(y, total, k0, n)
    ensures AtMostHalf(held, total, k, n)
  {
    var a, f, f1, f0 := k - k0, k * (n - k), k1 * (n - k1), k0 * (n - k0);
    Concave(n, k, a);
    ScaledSum(total, a, f1, f0, f);
    ExchangeStep(a, x, y, z, held, wider + total);
    ExchangeHalves(a, total, held, wider, y, total * f1, total * f0, total * f);
  }

  /** The members of a group that the winner's credited weight is not below. */
  ghost function Beaten(r: seq<int>, s: set<int>, j: int): (b: set<int>)
    requires s <= Indices(|r|) && 0 <= j < |r|
    ensures b <= s && forall x :: x in s ==> (x in b <==> r[x] <= r[j])
  {
    set x | x in s && r[x] <= r[j]
  }

  /** The group and the winner together were credited at most the configured total. */
  lemma CreditedWithWinner(w: seq<int>, e: set<int>, c: seq<int>, s: set<int>, j: int)
    requires PositiveWeights(w) && |w| == |c| && s <= Indices(|c|)
    requires 0 <= j < |c| && j !in s
    ensures var r := Credited(w, e, c); Sum(r, s) + r[j] <= Sum(c, s + {j}) + Total(w)
  {
    var r := Credited(w, e, c);
    SumInsert(r, s, j);
    CreditedSum(w, e, c, s + {j});
    SumMonotone(w, (s + {j}) * e, Indices(|c|));
  }

  /**
   * The exchange: a group without the winner splits into the members the winner beats, whose credited
   * weights are at most the winner's, and the rest, which are not eligible and so unchanged.
   */
  lemma SplitByWinner(w: seq<int>, e: set<int>, c: seq<int>, s: set<int>, j: int, r: seq<int>, b: set<int>)
    requires PositiveWeights(w) && |w| == |c| && s <= Indices(|c|)
    requires r == Credited(w, e, c) && FirstMaximum(r, e, j, |r|) && j !in s
    requires b == Beaten(r, s, j)
    ensures Sum(r, s) == Sum(r, b) + Sum(c, s - b)
    ensures Sum(r, s) + r[j] <= Sum(c, s + {j}) + Total(w)
    ensures |s - b| == |s| - |b| && Sum(r, b) <= (|s| - |s - b|) * r[j]
  {
    CreditedWithWinner(w, e, c, s, j);
    assert s == b + (s - b);
    SumUnion(r, b, s - b);
    SumToAgree(r, s - b, c, s - b, |c|);
    SumAtMost(r, b, r[j]);
  }

  /** A group that does not hold the winner keeps the bound. */
  lemma LoserGroupBound(w: seq<int>, e: set<int>, c: seq<int>, s: set<int>, j: int, r: seq<int>, b: set<int>)
    requires PositiveWeights(w) && |w| == |c| && s <= Indices(|c|)
    requires r == Credited(w, e, c) && FirstMaximum(r, e, j, |r|) && j !in s
    requires b == Beaten(r, s, j)
    requires GroupBound(w, c, s - b) && GroupBound(w, c, s + {j}) && GroupBound(w, c, s)
    ensures GroupBound(w, r, s)
  {
    if b == {} {
      CreditedSum(w, e, c, s);
      assert s * e == {};
      SumToZero(w, {}, |c|);
    } else {
      SplitByWinner(w, e, c, s, j, r, b);
      TotalPositive(w);
      ExchangeArithmetic(|c|, |s|, |s - b|, |s + {j}|, Total(w),
                         Sum(r, s), Sum(r, b), Sum(c, s - b), r[j], Sum(c, s + {j}));
    }
  }

  /** The three groups the exchange compares. */
  lemma LoserKeepsBound(w: seq<int>, e: set<int>, c: seq<int>, s: set<int>, j: int)
    requires PositiveWeights(w) && |w| == |c| && s <= Indices(|c|)
    requires forall t :: t <= Indices(|c|) ==> GroupBound(w, c, t)
    requires FirstMaximum(Credited(w, e, c), e, j, |c|) && j !in s
    ensures GroupBound(w, Credited(w, e, c), s)
  {
    var r := Credited(w, e, c);
    var b := Beaten(r, s, j);
    assert s - b <= Indices(|c|) && s + {j} <= Indices(|c|);
    LoserGroupBound(w, e, c, s, j, r, b);
  }

  /** Every call keeps the bound, whatever the eligible set. */
  lemma NextKeepsBalanced(w: seq<int>, e: set<int>, c: seq<int>)
    requires PositiveWeights(w) && Balanced(w, c)
    ensures Balanced(w, Next(w, e, c))
  {
    var n, d := |c|, Next(w, e, c);
    var all := Indices(n);
    NextSum(w, e, c, all);
    var j := Winner(w, e, c);
    SumToAgree(w, all * e, w, e, n);
    if j.None? {
      IneligibleSum(w, e, all);
    }
    forall s | s <= Indices(|d|)
      ensures GroupBound(w, d, s)
    {
      assert GroupBound(w, c, s);
      NextSum(w, e, c, s);
      if j.None? {
        IneligibleSum(w, e, s);
      } else if j.value in s {
        SumMonotone(w, s * e, e);
      } else {
        LoserKeepsBound(w, e, c, s, j.value);
        CreditedSum(w, e, c, s);
      }
    }
  }

  /** Hence no running weight leaves half of `(n - 1)` times the configured total, on either side. */
  lemma BalancedEntry(w: seq<int>, c: seq<int>, i: int)
    requires Balanced(w, c) && 0 <= i < |c|
    ensures -(Total(w) * (|c| - 1)) <= 2 * c[i] <= Total(w) * (|c| - 1)
  {
    var all := Indices(|c|);
    var others := all - {i};
    assert |others| == |c| - 1;
    SumToSingle(c, i, |c|);
    SumRemove(c, all, i);
    assert GroupBound(w, c, {i}) && GroupBound(w, c, others);
    assert Total(w) * ((|c| - 1) * 1) == Total(w) * (|c| - 1) == Total(w) * (1 * (|c| - 1));
  }
}
