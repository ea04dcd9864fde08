/**
 * Whole runs of the selection, in which the eligible set may change between any two calls:
 * the bound on the running weights, fair shares and bounded waiting.
 */
module Runs {
  import opened Sums
  import opened RoundRobin
  import opened Wrappers

  /** The running weights after one call per eligible set of `es`. */
  function Run(w: seq<int>, es: seq<set<int>>, c: seq<int>): (r: seq<int>)
    requires |w| == |c|
    ensures |r| == |c|
  {
    if es == [] then c else Run(w, es[1..], Next(w, es[0], c))
  }

  /** The number of calls at which backend `i` is eligible. */
  function Offers(es: seq<set<int>>, i: int): nat
  {
    if es == [] then 0 else (if i in es[0] then 1 else 0) + Offers(es[1..], i)
  }

  /** The number of calls that pick backend `i`. */
  function Picks(w: seq<int>, es: seq<set<int>>, c: seq<int>, i: int): nat
    requires |w| == |c|
  {
    if es == [] then 0
    else (if Winner(w, es[0], c) == Some(i) then 1 else 0) + Picks(w, es[1..], Next(w, es[0], c), i)
  }

  /** What backend `i` was charged: the eligible total of every call that picks it. */
  function Charges(w: seq<int>, es: seq<set<int>>, c: seq<int>, i: int): int
    requires |w| == |c|
  {
    if es == [] then 0
    else (if Winner(w, es[0], c) == Some(i) then Sum(w, es[0]) else 0)
         + Charges(w, es[1..], Next(w, es[0], c), i)
  }

  lemma {:induction false} RunKeepsBalanced(w: seq<int>, es: seq<set<int>>, c: seq<int>)
    requires PositiveWeights(w) && Balanced(w, c)
    ensures Balanced(w, Run(w, es, c))
    decreases |es|
  {
    if es == [] {
    } else {
      NextKeepsBalanced(w, es[0], c);
      RunKeepsBalanced(w, es[1..], Next(w, es[0], c));
    }
  }

  /**
   * The subset bound over every run of a fresh balancer, whatever the eligible sets: the running
   * weights cancel out, any group of `k` backends holds at most `W * k * (n - k) / 2`, and no single
   * running weight leaves `W * (n - 1) / 2` on either side.
   */
  lemma RunningWeightsBounded(w: seq<int>, es: seq<set<int>>)
    requires PositiveWeights(w)
    ensures var c := Run(w, es, Zeros(|w|));
            && Sum(c, Indices(|w|)) == 0
            && (forall s :: s <= Indices(|w|) ==> 2 * Sum(c, s) <= Total(w) * (|s| * (|w| - |s|)))
            && (forall i :: 0 <= i < |w| ==> -(Total(w) * (|w| - 1)) <= 2 * c[i] <= Total(w) * (|w| - 1))
  {
    ZerosBalanced(w);
    RunKeepsBalanced(w, es, Zeros(|w|));
    var c := Run(w, es, Zeros(|w|));
    forall s | s <= Indices(|w|)
      ensures 2 * Sum(c, s) <= Total(w) * (|s| * (|w| - |s|))
    {
      assert GroupBound(w, c, s);
    }
    forall i | 0 <= i < |w|
      ensures -(Total(w) * (|w| - 1)) <= 2 * c[i] <= Total(w) * (|w| - 1)
    {
      BalancedEntry(w, c, i);
    }
  }

  /** What backend `i` is owed: its weight at every call that finds it eligible. */
  function Owed(w: seq<int>, es: seq<set<int>>, i: int): int
    requires 0 <= i < |w|
  {
    if es == [] then 0 else (if i in es[0] then w[i] else 0) + Owed(w, es[1..], i)
  }

  lemma {:induction false} OwedIsProduct(w: seq<int>, es: seq<set<int>>, i: int)
    requires 0 <= i < |w|
    ensures Owed(w, es, i) == w[i] * Offers(es, i)
  {
    if es == [] {
    } else {
      OwedIsProduct(w, es[1..], i);
      assert w[i] * (Offers(es[1..], i) + 1) == w[i] * Offers(es[1..], i) + w[i];
    }
  }

  /** A running weight is exactly what the backend was owed less what it was charged. */
  lemma {:induction false} Ledger(w: seq<int>, es: seq<set<int>>, c: seq<int>, i: int)
    requires |w| == |c| && 0 <= i < |c|
    ensures Run(w, es, c)[i] == c[i] + Owed(w, es, i) - Charges(w, es, c, i)
    decreases |es|
  {
    if es == [] {
    } else {
      NextEntry(w, es[0], c, i);
      Ledger(w, es[1..], Next(w, es[0], c), i);
    }
  }

  lemma FreshRunBalanced(w: seq<int>, es: seq<set<int>>)
    requires PositiveWeights(w)
    ensures Balanced(w, Run(w, es, Zeros(|w|)))
  {
    ZerosBalanced(w);
    RunKeepsBalanced(w, es, Zeros(|w|));
  }

  /**
   * Fair shares under any history of health: what a backend was charged never strays from what its
   * weight entitles it to by more than half of `(n - 1)` times the configured total.
   */
  lemma FairShare(w: seq<int>, es: seq<set<int>>, i: int)
    requires PositiveWeights(w) && 0 <= i < |w|
    ensures var drift := w[i] * Offers(es, i) - Charges(w, es, Zeros(|w|), i);
            -(Total(w) * (|w| - 1)) <= 2 * drift <= Total(w) * (|w| - 1)
  {
    Ledger(w, es, Zeros(|w|), i);
    OwedIsProduct(w, es, i);
    FreshRunBalanced(w, es);
    BalancedEntry(w, Run(w, es, Zeros(|w|)), i);
  }

  lemma {:induction false} UnpickedUncharged(w: seq<int>, es: seq<set<int>>, c: seq<int>, i: int)
    requires |w| == |c| && Picks(w, es, c, i) == 0
    ensures Charges(w, es, c, i) == 0
    decreases |es|
  {
    if es == [] {
    } else {
      UnpickedUncharged(w, es[1..], Next(w, es[0], c), i);
    }
  }

  /** Between two balanced states a running weight grows by at most `(n - 1) * W`. */
  lemma OwedWhileUnpicked(w: seq<int>, es: seq<set<int>>, c: seq<int>, i: int)
    requires PositiveWeights(w) && Balanced(w, c) && 0 <= i < |w|
    requires Picks(w, es, c, i) == 0
    ensures Owed(w, es, i) <= Total(w) * (|w| - 1)
  {
    RunKeepsBalanced(w, es, c);
    Ledger(w, es, c, i);
    UnpickedUncharged(w, es, c, i);
    BalancedEntry(w, c, i);
    BalancedEntry(w, Run(w, es, c), i);
  }

  /**
   * Bounded waiting: after any first part of a run, a backend that the calls of the second part keep
   * passing over is offered at most `(n - 1) * W / w` of them.
   */
  lemma BoundedWaiting(w: seq<int>, before: seq<set<int>>, es: seq<set<int>>, i: int)
    requires PositiveWeights(w) && 0 <= i < |w|
    requires Picks(w, es, Run(w, before, Zeros(|w|)), i) == 0
    ensures w[i] * Offers(es, i) <= Total(w) * (|w| - 1)
  {
    FreshRunBalanced(w, before);
    OwedWhileUnpicked(w, es, Run(w, before, Zeros(|w|)), i);
    OwedIsProduct(w, es, i);
  }

  /** Runs compose. */
  lemma {:induction false} RunConcat(w: seq<int>, es: seq<set<int>>, fs: seq<set<int>>, c: seq<int>)
    requires |w| == |c|
    ensures Run(w, es + fs, c) == Run(w, fs, Run(w, es, c))
    decreases |es|
  {
    if es == [] {
      assert es + fs == fs;
    } else {
      assert (es + fs)[1..] == es[1..] + fs;
      RunConcat(w, es[1..], fs, Next(w, es[0], c));
    }
  }

  lemma RunAppend(w: seq<int>, es: seq<set<int>>, e: set<int>, c: seq<int>)
    requires |w| == |c|
    ensures Run(w, es + [e], c) == Next(w, e, Run(w, es, c))
  {
    RunConcat(w, es, [e], c);
  }
}
