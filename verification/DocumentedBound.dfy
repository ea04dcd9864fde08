/**
 * The field comment of `current_weights`, that running weights stay within plus or minus the total
 * weight: for which pools it is true, with eligible sets that change and with a pool that stays healthy.
 */
module DocumentedBound {
  import opened MachineInts
  import opened Sums
  import opened RoundRobin
  import opened Rotation
  import PoolRuns
  import Runs

  predicate ConfiguredWeights(w: seq<int>)
  {
    forall i :: 0 <= i < |w| ==> 1 <= w[i] <= U32_MAX
  }

  /** The running weights of the backends in `e` lie within plus or minus `total`. */
  predicate Within(c: seq<int>, e: set<int>, total: int)
  {
    forall i :: 0 <= i < |c| && i in e ==> -total <= c[i] <= total
  }

  /** The comment, for all pools of `n` backends, whatever becomes eligible when. */
  ghost predicate DocumentedBoundHolds(n: nat)
  {
    forall w: seq<int>, es: seq<set<int>> ::
      |w| == n && ConfiguredWeights(w) ==> Within(Runs.Run(w, es, Zeros(n)), Indices(n), Total(w))
  }

  /** The comment, for all eligible sets of `m` backends that never change, with their own total. */
  ghost predicate SteadyBoundHolds(m: nat)
  {
    forall w: seq<int>, e: set<int>, k: nat ::
      ConfiguredWeights(w) && Steady(w, e) && |e| == m ==> Within(State(w, e, k), e, Sum(w, e))
  }

  // ----- up to three backends -----

  lemma AtMostTwice(total: int, m: int, x: int)
    requires total >= 0 && m <= 2 && -(total * m) <= 2 * x <= total * m
    ensures -total <= x <= total
  {
    assert total * m <= total * 2;
  }

  lemma SmallPoolsWithinTotal(n: nat)
    requires n <= 3
    ensures DocumentedBoundHolds(n)
  {
    forall w: seq<int>, es: seq<set<int>> | |w| == n && ConfiguredWeights(w)
      ensures Within(Runs.Run(w, es, Zeros(n)), Indices(n), Total(w))
    {
      Runs.FreshRunBalanced(w, es);
      TotalPositive(w);
      forall i | 0 <= i < n
        ensures -Total(w) <= Runs.Run(w, es, Zeros(n))[i] <= Total(w)
      {
        BalancedEntry(w, Runs.Run(w, es, Zeros(n)), i);
        AtMostTwice(Total(w), n - 1, Runs.Run(w, es, Zeros(n))[i]);
      }
    }
  }

  lemma HarmonicSmall(m: nat)
    requires 1 <= m <= 3
    ensures Harmonic(m) - 1.0 <= 1.0
  {
    assert Harmonic(1) == Harmonic(0) + 1.0;
    assert Harmonic(2) == Harmonic(1) + 0.5;
    assert Harmonic(3) <= Harmonic(2) + 0.5;
  }

  lemma BehindWithin(held: int, total: int, g: real)
    requires total >= 0 && g <= 1.0 && Behind(held, total, g)
    ensures held <= total
  {
    assert total as real * g <= total as real * 1.0;
  }

  lemma SmallSteadyWithin(w: seq<int>, e: set<int>, k: nat, i: int)
    requires Steady(w, e) && |e| <= 3 && i in e
    ensures -Sum(w, e) <= State(w, e, k)[i] <= Sum(w, e)
  {
    var g := HarmonicProfile(|e|);
    StateBehind(w, e, k, i, Sum(w, e), g);
    StateAbove(w, e, k, i);
    EligibleTotalPositive(w, e);
    HarmonicSmall(|e|);
    BehindWithin(State(w, e, k)[i], Sum(w, e), g[1]);
  }

  // ----- from four backends on: a pool that stays healthy -----

  /** A number for each of the first four backends. */
  datatype Four = Four(a: int, b: int, c: int, d: int) {
    function At(i: int): int
    {
      if i == 0 then a else if i == 1 then b else if i == 2 then c else d
    }

    function Plus(other: Four): Four
    {
      Four(a + other.a, b + other.b, c + other.c, d + other.d)
    }

    /** `x` taken from the one at `j`. */
    function Less(j: int, x: int): Four
    {
      Four(if j == 0 then a - x else a, if j == 1 then b - x else b,
           if j == 2 then c - x else c, if j == 3 then d - x else d)
    }

    predicate Same(other: Four)
    {
      a == other.a && b == other.b && c == other.c && d == other.d
    }

    /** `j` is the first maximum, and above `x`. */
    predicate Led(j: int, x: int)
    {
      0 <= j < 4 && At(j) > x && Behind(0, j) && Behind(1, j) && Behind(2, j) && Behind(3, j)
    }

    predicate Behind(i: int, j: int)
    {
      if i < j then At(i) < At(j) else At(i) <= At(j)
    }
  }

  // ----- one call, in terms of the four -----

  /** The first four entries are `v`, all others are `x`. */
  function Entries(n: nat, v: Four, x: int): (s: seq<int>)
    ensures |s| == n && forall i :: 0 <= i < n ==> s[i] == if i < 4 then v.At(i) else x
  {
    seq(n, i => if i < 4 then v.At(i) else x)
  }

  lemma {:induction false} OnesSum(w: seq<int>, m: nat)
    requires 4 <= m <= |w| && forall i :: 4 <= i < m ==> w[i] == 1
    ensures SumTo(w, Indices(|w|), m) == SumTo(w, Indices(|w|), 4) + (m - 4)
  {
    if m == 4 {
    } else {
      OnesSum(w, m - 1);
    }
  }

  lemma EntriesTotal(n: nat, v: Four)
    requires n >= 4
    ensures Sum(Entries(n, v, 1), Indices(n)) == v.a + v.b + v.c + v.d + (n - 4)
  {
    var w, s := Entries(n, v, 1), Indices(n);
    OnesSum(w, n);
    assert SumTo(w, s, 0) == 0;
    assert SumTo(w, s, 1) == SumTo(w, s, 0) + w[0];
    assert SumTo(w, s, 2) == SumTo(w, s, 1) + w[1];
    assert SumTo(w, s, 3) == SumTo(w, s, 2) + w[2];
    assert SumTo(w, s, 4) == SumTo(w, s, 3) + w[3];
  }

  /** Everybody is eligible. */
  predicate Everybody(e: set<int>, n: nat)
  {
    forall i :: 0 <= i < n ==> i in e
  }

  lemma EntriesCredited(n: nat, weights: Four, v: Four, r: Four, k: int, e: set<int>)
    requires n >= 4 && r == v.Plus(weights) && Everybody(e, n)
    ensures Credited(Entries(n, weights, 1), e, Entries(n, v, k)) == Entries(n, r, k + 1)
  {
    var credited := Credited(Entries(n, weights, 1), e, Entries(n, v, k));
    forall i | 0 <= i < n
      ensures credited[i] == if i < 4 then r.At(i) else k + 1
    {
      assert v.At(i) + weights.At(i) == r.At(i);
    }
  }

  lemma EntriesMaximum(n: nat, r: Four, x: int, j: int, e: set<int>)
    requires n >= 4 && r.Led(j, x) && Everybody(e, n)
    ensures FirstMaximum(Entries(n, r, x), e, j, n)
  {
    forall i | 0 <= i < n
      ensures Entries(n, r, x)[i] <= r.At(j) && (i < j ==> Entries(n, r, x)[i] < r.At(j))
    {
      assert i < 4 ==> r.Behind(i, j);
    }
  }

  lemma EntriesCharged(n: nat, r: Four, x: int, j: int, total: int, credited: seq<int>, out: seq<int>)
    requires n >= 4 && 0 <= j < 4 && credited == Entries(n, r, x) && out == Entries(n, r.Less(j, total), x)
    ensures out == credited[j := credited[j] - total]
  {
  }

  lemma WinnerCharged(n: nat, w: seq<int>, e: set<int>, c: seq<int>, r: seq<int>, j: int, total: int, out: seq<int>)
    requires |w| == |c| == n && r == Credited(w, e, c) && FirstMaximum(r, e, j, n) && total == Sum(w, e)
    requires out == r[j := r[j] - total]
    ensures Next(w, e, c) == out
  {
    NextFromWinner(w, e, c, j);
  }

  lemma EntriesWinner(n: nat, weights: Four, v: Four, r: Four, k: int, j: int,
                      w: seq<int>, e: set<int>, c: seq<int>, credited: seq<int>)
    requires n >= 4 && r == v.Plus(weights) && r.Led(j, k + 1) && credited == Entries(n, r, k + 1)
    requires w == Entries(n, weights, 1) && Everybody(e, n) && c == Entries(n, v, k)
    ensures credited == Credited(w, e, c) && FirstMaximum(credited, e, j, n) && 0 <= j < 4
  {
    EntriesCredited(n, weights, v, r, k, e);
    EntriesMaximum(n, r, k + 1, j, e);
  }

  /** One call on a healthy pool in which the four lead and the others have weight 1. */
  lemma EntriesNext(n: nat, weights: Four, v: Four, r: Four, k: int, j: int, total: int,
                    w: seq<int>, e: set<int>, c: seq<int>, credited: seq<int>, out: seq<int>)
    requires n >= 4 && r == v.Plus(weights) && r.Led(j, k + 1)
    requires credited == Entries(n, r, k + 1) && out == Entries(n, r.Less(j, total), k + 1)
    requires w == Entries(n, weights, 1) && Everybody(e, n) && c == Entries(n, v, k) && total == Sum(w, e)
    ensures Next(w, e, c) == out
  {
    EntriesWinner(n, weights, v, r, k, j, w, e, c, credited);
    assert out == credited[j := credited[j] - total] by {
      EntriesCharged(n, r, k + 1, j, total, credited, out);
    }
    WinnerCharged(n, w, e, c, credited, j, total, out);
  }

  // ----- a run, in units -----

  const SKEWED := Four(1, 5, 37, 37)

  /** What each of four backends has left, how often each was picked, and whose turn is next. */
  datatype Tally = Tally(left: Four, picks: Four, turn: int)

  /** `j` is ahead of `i`: strictly, or `i` is a later backend that was picked at least as often. */
  predicate Ahead(left: Four, q: Four, j: int, i: int)
  {
    i == j || left.At(i) < left.At(j) || (left.At(i) == left.At(j) && j < i && q.At(j) <= q.At(i))
  }

  predicate Leads(left: Four, q: Four, j: int)
  {
    && 0 <= j < 4 && left.At(j) >= 1 && q.At(j) <= 12
    && q.a >= 0 && q.b >= 0 && q.c >= 0 && q.d >= 0
    && Ahead(left, q, j, 0) && Ahead(left, q, j, 1) && Ahead(left, q, j, 2) && Ahead(left, q, j, 3)
  }

  /** The run of the four weights, call by call. */
  function Turns(k: nat): Tally
  {
    if k == 0 then Tally(Four(0, 0, 0, 0), Four(0, 0, 0, 0), 2)
    else if k == 1 then Tally(Four(1, 5, -43, 37), Four(0, 0, 1, 0), 3)
    else if k == 2 then Tally(Four(2, 10, -6, -6), Four(0, 0, 1, 1), 2)
    else if k == 3 then Tally(Four(3, 15, -49, 31), Four(0, 0, 2, 1), 3)
    else if k == 4 then Tally(Four(4, 20, -12, -12), Four(0, 0, 2, 2), 1)
    else if k == 5 then Tally(Four(5, -55, 25, 25), Four(0, 1, 2, 2), 2)
    else if k == 6 then Tally(Four(6, -50, -18, 62), Four(0, 1, 3, 2), 3)
    else if k == 7 then Tally(Four(7, -45, 19, 19), Four(0, 1, 3, 3), 2)
    else if k == 8 then Tally(Four(8, -40, -24, 56), Four(0, 1, 4, 3), 3)
    else if k == 9 then Tally(Four(9, -35, 13, 13), Four(0, 1, 4, 4), 2)
    else if k == 10 then Tally(Four(10, -30, -30, 50), Four(0, 1, 5, 4), 3)
    else if k == 11 then Tally(Four(11, -25, 7, 7), Four(0, 1, 5, 5), 2)
    else if k == 12 then Tally(Four(12, -20, -36, 44), Four(0, 1, 6, 5), 3)
    else if k == 13 then Tally(Four(13, -15, 1, 1), Four(0, 1, 6, 6), 2)
    else if k == 14 then Tally(Four(14, -10, -42, 38), Four(0, 1, 7, 6), 3)
    else if k == 15 then Tally(Four(15, -5, -5, -5), Four(0, 1, 7, 7), 2)
    else if k == 16 then Tally(Four(16, 0, -48, 32), Four(0, 1, 8, 7), 3)
    else if k == 17 then Tally(Four(17, 5, -11, -11), Four(0, 1, 8, 8), 2)
    else if k == 18 then Tally(Four(18, 10, -54, 26), Four(0, 1, 9, 8), 3)
    else if k == 19 then Tally(Four(19, 15, -17, -17), Four(0, 1, 9, 9), 0)
    else if k == 20 then Tally(Four(-60, 20, 20, 20), Four(1, 1, 9, 9), 2)
    else if k == 21 then Tally(Four(-59, 25, -23, 57), Four(1, 1, 10, 9), 3)
    else if k == 22 then Tally(Four(-58, 30, 14, 14), Four(1, 1, 10, 10), 2)
    else if k == 23 then Tally(Four(-57, 35, -29, 51), Four(1, 1, 11, 10), 3)
    else if k == 24 then Tally(Four(-56, 40, 8, 8), Four(1, 1, 11, 11), 1)
    else if k == 25 then Tally(Four(-55, -35, 45, 45), Four(1, 2, 11, 11), 2)
    else Tally(Four(-54, -30, 2, 82), Four(1, 2, 12, 11), 2)
  }

  /** In each row the one whose turn it is leads, and its pick gives the next row. */
  predicate TurnTaken(t: Tally, next: Tally)
  {
    && Leads(t.left.Plus(SKEWED), t.picks, t.turn)
    && next.left.Same(t.left.Plus(SKEWED).Less(t.turn, 80))
    && next.picks.Same(t.picks.Less(t.turn, -1))
  }

  lemma Turns0To2(k: nat)
    requires k < 2
    ensures TurnTaken(Turns(k), Turns(k + 1))
  {
  }

  lemma Turns2To5(k: nat)
    requires 2 <= k < 5
    ensures TurnTaken(Turns(k), Turns(k + 1))
  {
  }

  lemma Turns5To9(k: nat)
    requires 5 <= k < 9
    ensures TurnTaken(Turns(k), Turns(k + 1))
  {
  }

  lemma Turns9To14(k: nat)
    requires 9 <= k < 14
    ensures TurnTaken(Turns(k), Turns(k + 1))
  {
  }

  lemma Turns14To18(k: nat)
    requires 14 <= k < 18
    ensures TurnTaken(Turns(k), Turns(k + 1))
  {
  }

  lemma Turns18To22(k: nat)
    requires 18 <= k < 22
    ensures TurnTaken(Turns(k), Turns(k + 1))
  {
  }

  lemma Turns22To26(k: nat)
    requires 22 <= k < 26
    ensures TurnTaken(Turns(k), Turns(k + 1))
  {
  }

  lemma TurnsTaken(k: nat)
    requires k < 26
    ensures TurnTaken(Turns(k), Turns(k + 1))
  {
    if k < 2 {
      Turns0To2(k);
    } else if k < 5 {
      Turns2To5(k);
    } else if k < 9 {
      Turns5To9(k);
    } else if k < 14 {
      Turns9To14(k);
    } else if k < 18 {
      Turns14To18(k);
    } else if k < 22 {
      Turns18To22(k);
    } else {
      Turns22To26(k);
    }
  }

  // ----- the turns in full -----

  /** In full, a pick costs 80 units `u` and `d` for all others. */
  function Held(u: int, d: int, left: int, picks: int): int
  {
    u * left - d * picks
  }

  function Scaled(u: int, d: int, left: Four, q: Four): Four
  {
    Four(Held(u, d, left.a, q.a), Held(u, d, left.b, q.b), Held(u, d, left.c, q.c), Held(u, d, left.d, q.d))
  }

  /** The unit is large enough for the others not to matter. */
  predicate Outweighs(u: int, d: int)
  {
    0 <= d && 13 * d + 26 < u
  }

  lemma StrictlyAhead(u: int, d: int, x: int, y: int, p: int, q: int)
    requires Outweighs(u, d) && 0 <= p && 0 <= q <= 12 && x < y
    ensures Held(u, d, x, p) < Held(u, d, y, q)
  {
    assert u * (x + 1) <= u * y;
    assert u * (x + 1) == u * x + u;
    assert d * q <= d * 12;
    assert d * p >= 0;
  }

  lemma EquallyAhead(u: int, d: int, x: int, p: int, q: int)
    requires Outweighs(u, d) && q <= p
    ensures Held(u, d, x, p) <= Held(u, d, x, q)
  {
    assert d * q <= d * p;
  }

  lemma AheadOfOthers(u: int, d: int, y: int, q: int)
    requires Outweighs(u, d) && 0 <= q <= 12 && y >= 1
    ensures 26 < Held(u, d, y, q)
  {
    assert u * 1 <= u * y;
    assert d * q <= d * 12;
  }

  lemma ScaledAhead(u: int, d: int, left: Four, q: Four, j: int, i: int)
    requires Outweighs(u, d) && Leads(left, q, j) && 0 <= i < 4 && Ahead(left, q, j, i)
    ensures Scaled(u, d, left, q).Behind(i, j)
  {
    if left.At(i) < left.At(j) {
      StrictlyAhead(u, d, left.At(i), left.At(j), q.At(i), q.At(j));
    } else if i != j {
      EquallyAhead(u, d, left.At(j), q.At(i), q.At(j));
    }
  }

  lemma ScaledLeads(u: int, d: int, left: Four, q: Four, j: int, k: nat)
    requires Outweighs(u, d) && Leads(left, q, j) && k <= 26
    ensures Scaled(u, d, left, q).Led(j, k)
  {
    AheadOfOthers(u, d, left.At(j), q.At(j));
    ScaledAhead(u, d, left, q, j, 0);
    ScaledAhead(u, d, left, q, j, 1);
    ScaledAhead(u, d, left, q, j, 2);
    ScaledAhead(u, d, left, q, j, 3);
  }

  lemma CreditedHeld(u: int, d: int, left: int, x: int, picks: int)
    ensures Held(u, d, left, picks) + u * x == Held(u, d, left + x, picks)
  {
    assert u * (left + x) == u * left + u * x;
  }

  lemma ChargedHeld(u: int, d: int, x: int, p: int)
    ensures Held(u, d, x, p) - (u * 80 + d) == Held(u, d, x - 80, p + 1)
  {
    assert u * (x - 80) == u * x - u * 80;
    assert d * (p + 1) == d * p + d;
  }

  function Skewed(u: int): Four
  {
    Four(u, 5 * u, 37 * u, 37 * u)
  }

  lemma ScaledCredit(u: int, d: int, left: Four, q: Four)
    ensures Scaled(u, d, left, q).Plus(Skewed(u)) == Scaled(u, d, left.Plus(SKEWED), q)
  {
    CreditedHeld(u, d, left.a, 1, q.a);
    CreditedHeld(u, d, left.b, 5, q.b);
    CreditedHeld(u, d, left.c, 37, q.c);
    CreditedHeld(u, d, left.d, 37, q.d);
  }

  lemma ScaledCharge(u: int, d: int, left: Four, q: Four, j: int, total: int)
    requires 0 <= j < 4 && total == u * 80 + d
    ensures Scaled(u, d, left, q).Less(j, total) == Scaled(u, d, left.Less(j, 80), q.Less(j, -1))
  {
    ChargedHeld(u, d, left.At(j), q.At(j));
  }

  /** The four in full. */
  function Values(u: int, d: int, t: Tally): Four
  {
    Scaled(u, d, t.left, t.picks)
  }

  lemma ValuesStep(u: int, d: int, t: Tally, next: Tally, k: nat, r: Four, total: int)
    requires Outweighs(u, d) && TurnTaken(t, next) && k < 26 && total == u * 80 + d
    requires r == Values(u, d, t).Plus(Skewed(u))
    ensures r.Led(t.turn, k + 1) && r.Less(t.turn, total) == Values(u, d, next)
  {
    ScaledCredit(u, d, t.left, t.picks);
    ScaledLeads(u, d, t.left.Plus(SKEWED), t.picks, t.turn, k + 1);
    ScaledCharge(u, d, t.left.Plus(SKEWED), t.picks, t.turn, total);
  }

  lemma ClimbStep(n: nat, u: int, t: Tally, next: Tally, k: nat, total: int, w: seq<int>, e: set<int>)
    requires n >= 4 && Outweighs(u, n - 4) && TurnTaken(t, next) && k < 26 && total == u * 80 + (n - 4)
    requires w == Entries(n, Skewed(u), 1) && e == Indices(n)
    ensures Next(w, e, Entries(n, Values(u, n - 4, t), k)) == Entries(n, Values(u, n - 4, next), k + 1)
  {
    var v, r, after := Values(u, n - 4, t), Values(u, n - 4, t).Plus(Skewed(u)), Values(u, n - 4, next);
    ValuesStep(u, n - 4, t, next, k, r, total);
    EntriesTotal(n, Skewed(u));
    EntriesNext(n, Skewed(u), v, r, k, t.turn, total, w, e, Entries(n, v, k),
                Entries(n, r, k + 1), Entries(n, after, k + 1));
  }

  /** A sequence of states, each the next of the one before, is the run. */
  lemma {:induction false} StatesOfRun(w: seq<int>, e: set<int>, states: seq<seq<int>>, k: nat)
    requires k < |states| && (forall l :: 0 <= l < |states| ==> |states[l]| == |w|) && states[0] == Zeros(|w|)
    requires forall l, m :: 0 <= l && m == l + 1 < |states| ==> states[m] == Next(w, e, states[l])
    ensures State(w, e, k) == states[k]
  {
    if k == 0 {
    } else {
      StatesOfRun(w, e, states, k - 1);
    }
  }

  lemma ClimbStart(n: nat, u: int, d: int, v: Four)
    requires v == Values(u, d, Turns(0))
    ensures Entries(n, v, 0) == Zeros(n)
  {
    assert v.a == 0 && v.b == 0 && v.c == 0 && v.d == 0;
  }

  /** A healthy pool of such weights takes the turns of such a table. */
  lemma ClimbTable(n: nat, u: int, table: seq<Tally>, k: nat, w: seq<int>, e: set<int>)
    requires n >= 4 && Outweighs(u, n - 4) && k < |table| <= 27
    requires w == Entries(n, Skewed(u), 1) && e == Indices(n)
    requires Entries(n, Values(u, n - 4, table[0]), 0) == Zeros(n)
    requires forall l, m :: 0 <= l && m == l + 1 < |table| ==> TurnTaken(table[l], table[m])
    ensures State(w, e, k) == Entries(n, Values(u, n - 4, table[k]), k)
  {
    var states := seq(|table|, l requires 0 <= l < |table| => Entries(n, Values(u, n - 4, table[l]), l));
    forall l, m | 0 <= l && m == l + 1 < |table|
      ensures states[m] == Next(w, e, states[l])
    {
      ClimbStep(n, u, table[l], table[m], l, u * 80 + (n - 4), w, e);
    }
    StatesOfRun(w, e, states, k);
  }

  lemma Climb(n: nat, u: int, k: nat, w: seq<int>, e: set<int>)
    requires n >= 4 && Outweighs(u, n - 4) && k <= 26 && w == Entries(n, Skewed(u), 1) && e == Indices(n)
    ensures State(w, e, k) == Entries(n, Values(u, n - 4, Turns(k)), k)
  {
    var table := seq(27, l requires 0 <= l => Turns(l));
    forall l, m | 0 <= l && m == l + 1 < 27
      ensures TurnTaken(table[l], table[m])
    {
      TurnsTaken(l);
    }
    ClimbStart(n, u, n - 4, Values(u, n - 4, Turns(0)));
    ClimbTable(n, u, table, k, w, e);
  }

  /** The pool of `n` whose fourth backend falls behind. */
  function Weights(n: nat): (w: seq<int>)
    ensures |w| == n
  {
    Entries(n, Skewed(27 * n), 1)
  }

  lemma EntriesConfigured(n: nat, v: Four, w: seq<int>)
    requires n >= 4 && w == Entries(n, v, 1) && forall i :: 0 <= i < 4 ==> 1 <= v.At(i) <= U32_MAX
    ensures ConfiguredWeights(w)
  {
  }

  lemma WeightsConfigured(n: nat, u: int, v: Four)
    requires 4 <= n && 1 <= u && 37 * u <= U32_MAX && v == Skewed(u)
    ensures ConfiguredWeights(Entries(n, v, 1)) && Steady(Entries(n, v, 1), Indices(n))
  {
    EntriesConfigured(n, v, Entries(n, v, 1));
    assert 0 in Indices(n);
  }

  lemma LastValue(u: int, d: int, v: Four)
    requires Outweighs(u, d) && v == Values(u, d, Turns(26))
    ensures v.d > u * 80 + d
  {
    assert v.d == Held(u, d, 82, 11);
  }

  /** With every backend healthy and eligible all along, the fourth passes the total after 26 calls. */
  lemma HealthyPoolPassesTotal(n: nat, k: nat, w: seq<int>, e: set<int>)
    requires 4 <= n <= 65535 && k == 26 && w == Weights(n) && e == Indices(n)
    ensures |w| == n && ConfiguredWeights(w) && Steady(w, e)
    ensures State(w, e, k)[3] > Sum(w, e)
  {
    WeightsConfigured(n, 27 * n, Skewed(27 * n));
    var v := Values(27 * n, n - 4, Turns(k));
    Climb(n, 27 * n, k, w, e);
    LastValue(27 * n, n - 4, v);
    EntriesTotal(n, Skewed(27 * n));
    assert Entries(n, v, k)[3] == v.d;
  }

  /** For an eligible set that never changes the bound holds exactly when it has at most three members. */
  lemma SteadyBoundIffSmall(m: nat)
    requires m <= 65535
    ensures SteadyBoundHolds(m) <==> m <= 3
  {
    if m <= 3 {
      forall w: seq<int>, e: set<int>, k: nat, i | Steady(w, e) && |e| == m && 0 <= i < |w| && i in e
        ensures -Sum(w, e) <= State(w, e, k)[i] <= Sum(w, e)
      {
        SmallSteadyWithin(w, e, k, i);
      }
    } else {
      HealthyPoolPassesTotal(m, 26, Weights(m), Indices(m));
      assert !Within(State(Weights(m), Indices(m), 26), Indices(m), Sum(Weights(m), Indices(m)));
    }
  }

  lemma HealthyRunPassesTotal(n: nat, k: nat, w: seq<int>, e: set<int>, es: seq<set<int>>)
    requires 4 <= n <= 65535 && k == 26 && w == Weights(n) && e == Indices(n) && es == seq(k, l => e)
    ensures |w| == n && ConfiguredWeights(w)
    ensures !Within(Runs.Run(w, es, Zeros(n)), e, Total(w))
  {
    HealthyPoolPassesTotal(n, k, w, e);
    StateIsRun(w, e, k);
  }

  /** Whatever becomes eligible when, the bound holds for all pools of `n` exactly when `n <= 3`. */
  lemma DocumentedBoundIffSmall(n: nat)
    requires n <= 65535
    ensures DocumentedBoundHolds(n) <==> n <= 3
  {
    if n <= 3 {
      SmallPoolsWithinTotal(n);
    } else {
      HealthyRunPassesTotal(n, 26, Weights(n), Indices(n), seq(26, l => Indices(n)));
    }
  }

  /** The whole system gets there from its fresh state by 26 routed requests, with no backend ever unhealthy. */
  lemma SystemPassesTotal(n: nat, cfg: PoolRuns.Config) returns (r: PoolRuns.Trace)
    requires 4 <= n <= 65535 && cfg.weights == Weights(n)
    ensures ConfiguredWeights(cfg.weights) && PoolRuns.IsRun(cfg, r) && |r.actions| == 26
    ensures r.states[26].running[3] > Total(cfg.weights)
  {
    HealthyPoolPassesTotal(n, 26, Weights(n), Indices(n));
    r := PoolRuns.HealthyPoolRun(cfg, 26);
  }
}
