/** Sums of a vector over a set of indices, the arithmetic every balancer proof rests on. */
module Sums {
  /** The indices of a vector of length `n`. */
  function Indices(n: nat): (s: set<int>)
    ensures forall i :: i in s <==> 0 <= i < n
    ensures |s| == n
  {
    if n == 0 then {} else Indices(n - 1) + {n - 1}
  }

  /** The sum of `v[i]` over the indices `i` of `s` that are below `n`. */
  function SumTo(v: seq<int>, s: set<int>, n: nat): int
    requires n <= |v|
  {
    if n == 0 then 0 else SumTo(v, s, n - 1) + if n - 1 in s then v[n - 1] else 0
  }

  /** The sum of `v` over the index set `s`. */
  function Sum(v: seq<int>, s: set<int>): int
  {
    SumTo(v, s, |v|)
  }

  function Zeros(n: nat): (v: seq<int>)
    ensures |v| == n && forall i :: 0 <= i < n ==> v[i] == 0
  {
    seq(n, i => 0)
  }

  lemma {:induction false} SumToLinear(u: seq<int>, v: seq<int>, t: seq<int>, s: set<int>, n: nat)
    requires n <= |u| == |v| == |t|
    requires forall i :: 0 <= i < n && i in s ==> t[i] == u[i] + v[i]
    ensures SumTo(t, s, n) == SumTo(u, s, n) + SumTo(v, s, n)
  {
    if n == 0 {
    } else {
      SumToLinear(u, v, t, s, n - 1);
    }
  }

  /** Vectors that agree on the summed indices have the same sum. */
  lemma {:induction false} SumToAgree(u: seq<int>, s: set<int>, v: seq<int>, t: set<int>, n: nat)
    requires n <= |u| && n <= |v|
    requires forall i :: 0 <= i < n ==> (i in s <==> i in t)
    requires forall i :: 0 <= i < n && i in s ==> u[i] == v[i]
    ensures SumTo(u, s, n) == SumTo(v, t, n)
  {
    if n == 0 {
    } else {
      SumToAgree(u, s, v, t, n - 1);
    }
  }

  lemma {:induction false} SumToUnion(v: seq<int>, s: set<int>, t: set<int>, n: nat)
    requires n <= |v| && s !! t
    ensures SumTo(v, s + t, n) == SumTo(v, s, n) + SumTo(v, t, n)
  {
    if n == 0 {
    } else {
      SumToUnion(v, s, t, n - 1);
    }
  }

  lemma SumUnion(v: seq<int>, s: set<int>, t: set<int>)
    requires s !! t
    ensures Sum(v, s + t) == Sum(v, s) + Sum(v, t)
  {
    SumToUnion(v, s, t, |v|);
  }

  lemma {:induction false} SumToSingle(v: seq<int>, j: int, n: nat)
    requires 0 <= j && n <= |v|
    ensures SumTo(v, {j}, n) == if j < n then v[j] else 0
  {
    if n == 0 {
    } else {
      SumToSingle(v, j, n - 1);
    }
  }

  lemma SumInsert(v: seq<int>, s: set<int>, j: int)
    requires 0 <= j < |v| && j !in s
    ensures Sum(v, s + {j}) == Sum(v, s) + v[j]
  {
    SumUnion(v, s, {j});
    SumToSingle(v, j, |v|);
  }

  lemma SumRemove(v: seq<int>, s: set<int>, j: int)
    requires 0 <= j < |v| && j in s
    ensures Sum(v, s) == Sum(v, s - {j}) + v[j]
  {
    assert (s - {j}) + {j} == s;
    SumInsert(v, s - {j}, j);
  }

  /** Replacing one entry moves the sum by the difference exactly when that entry is summed. */
  lemma SumUpdate(v: seq<int>, s: set<int>, j: int, x: int)
    requires 0 <= j < |v|
    ensures Sum(v[j := x], s) == Sum(v, s) + if j in s then x - v[j] else 0
  {
    var t := s - {j};
    SumToAgree(v[j := x], t, v, t, |v|);
    if j in s {
      SumRemove(v, s, j);
      SumRemove(v[j := x], s, j);
    } else {
      assert t == s;
    }
  }

  lemma {:induction false} SumToBelow(u: seq<int>, v: seq<int>, s: set<int>, n: nat)
    requires n <= |u| && n <= |v|
    requires forall i :: 0 <= i < n && i in s ==> u[i] <= v[i]
    ensures SumTo(u, s, n) <= SumTo(v, s, n)
  {
    if n == 0 {
    } else {
      SumToBelow(u, v, s, n - 1);
    }
  }

  lemma {:induction false} SumToZero(v: seq<int>, s: set<int>, n: nat)
    requires n <= |v|
    requires forall i :: 0 <= i < n && i in s ==> v[i] == 0
    ensures SumTo(v, s, n) == 0
  {
    if n == 0 {
    } else {
      SumToZero(v, s, n - 1);
    }
  }

  lemma SumOfZeros(n: nat, s: set<int>)
    ensures Sum(Zeros(n), s) == 0
  {
    SumToZero(Zeros(n), s, n);
  }

  /** A sum of non-negative entries only grows with the index set. */
  lemma SumMonotone(v: seq<int>, s: set<int>, t: set<int>)
    requires s <= t
    requires forall i :: 0 <= i < |v| ==> v[i] >= 0
    ensures 0 <= Sum(v, s) <= Sum(v, t)
  {
    assert s + (t - s) == t;
    SumUnion(v, s, t - s);
    SumToBelow(Zeros(|v|), v, t - s, |v|);
    SumToBelow(Zeros(|v|), v, s, |v|);
    SumOfZeros(|v|, s);
    SumOfZeros(|v|, t - s);
  }

  /** A sum of `|s|` entries, none above `top`, is at most `|s| * top`. */
  lemma {:induction false} SumAtMost(v: seq<int>, s: set<int>, top: int)
    requires s <= Indices(|v|)
    requires forall i :: i in s ==> v[i] <= top
    ensures Sum(v, s) <= |s| * top
    decreases |s|
  {
    if s == {} {
      SumToZero(v, s, |v|);
    } else {
      var j :| j in s;
      SumAtMost(v, s - {j}, top);
      SumRemove(v, s, j);
      assert |s| * top == |s - {j}| * top + top;
    }
  }

  lemma SubsetSize(s: set<int>, t: set<int>)
    requires s <= t
    ensures |s| <= |t|
  {
    assert s + (t - s) == t;
    assert |s + (t - s)| == |s| + |t - s|;
  }

  lemma OneMore(x: int, n: int)
    ensures x * (n + 1) == x * n + x
  {
  }
}
