/** Repeating a partial step: a run goes on for ever exactly when it comes back to a state. */
module Iteration {
  import opened Bytes

  /** The state after n steps; None when the run has stopped before. */
  ghost function Iterate<S>(next: S -> Option<S>, s: S, n: nat): Option<S> {
    if n == 0 then Some(s)
    else
      match Iterate(next, s, n - 1)
      case None => None
      case Some(t) => next(t)
  }

  /** The first step can be split off. */
  lemma {:induction false} IterateFront<S>(next: S -> Option<S>, s: S, n: nat)
    ensures Iterate(next, s, n + 1) == if next(s).None? then None else Iterate(next, next(s).value, n)
  {
    if n == 0 {
      assert Iterate(next, s, 0) == Some(s);
    } else {
      IterateFront(next, s, n - 1);
    }
  }

  lemma {:induction false} StaysStopped<S>(next: S -> Option<S>, s: S, n: nat, m: nat)
    requires n <= m && Iterate(next, s, n).None?
    ensures Iterate(next, s, m).None?
    decreases m
  {
    if n < m {
      StaysStopped(next, s, n, m - 1);
    }
  }

  /** A state that recurs recurs for ever. */
  lemma {:induction false} RepeatNeverStops<S>(next: S -> Option<S>, s: S, i: nat, j: nat, n: nat)
    requires i < j && Iterate(next, s, i).Some? && Iterate(next, s, i) == Iterate(next, s, j)
    ensures Iterate(next, s, n).Some?
    ensures n >= j ==> Iterate(next, s, n) == Iterate(next, s, n - (j - i))
    decreases n
  {
    if n < j {
      if Iterate(next, s, n).None? {
        StaysStopped(next, s, n, j);
      }
    } else if n > j {
      RepeatNeverStops(next, s, i, j, n - 1);
      RepeatNeverStops(next, s, i, j, n - (j - i));
    }
  }

  /** Pigeonhole: distinct numbers below n are at most n many. */
  lemma {:induction false} DistinctBelow(c: seq<int>, n: nat)
    requires forall i | 0 <= i < |c| :: 0 <= c[i] < n
    requires forall i, j | 0 <= i < j < |c| :: c[i] != c[j]
    ensures |c| <= n
  {
    if c == [] {
    } else if exists i :: 0 <= i < |c| && c[i] == n - 1 {
      var i :| 0 <= i < |c| && c[i] == n - 1;
      var d := c[..i] + c[i + 1..];
      assert forall k | 0 <= k < |d| :: d[k] == c[if k < i then k else k + 1];
      DistinctBelow(d, n - 1);
    } else {
      assert c[0] < n;
      DistinctBelow(c, n - 1);
    }
  }

  /** The run has stopped before it took n steps. */
  ghost predicate StopsWithin<S>(next: S -> Option<S>, s: S, n: nat) {
    Iterate(next, s, n).None?
  }

  /** The run is in the same state after i steps and after j. */
  ghost predicate Recurs<S>(next: S -> Option<S>, s: S, i: nat, j: nat) {
    i < j && Iterate(next, s, i).Some? && Iterate(next, s, i) == Iterate(next, s, j)
  }

  /**
   * When states can be numbered below a bound, a run stops if and only if it never comes back to a
   * state.
   */
  lemma StopsUnlessRepeats<S(!new)>(next: S -> Option<S>, s: S, code: S -> int, bound: nat)
    requires forall t :: code(t) >= 0
    requires forall t, u :: code(t) == code(u) ==> t == u
    requires forall n: nat :: Iterate(next, s, n).Some? ==> code(Iterate(next, s, n).value) < bound
    ensures (exists n: nat :: StopsWithin(next, s, n)) <==> !exists i: nat, j: nat :: Recurs(next, s, i, j)
  {
    if forall n: nat :: !StopsWithin(next, s, n) {
      assert forall n: nat :: Iterate(next, s, n).Some? by {
        forall n: nat
          ensures Iterate(next, s, n).Some?
        {
          assert !StopsWithin(next, s, n);
        }
      }
      var i, j := LongRunRepeats(next, s, code, bound);
      assert Recurs(next, s, i, j);
    } else {
      var n: nat :| StopsWithin(next, s, n);
      forall i: nat, j: nat
        ensures !Recurs(next, s, i, j)
      {
        if Recurs(next, s, i, j) {
          RepeatNeverStops(next, s, i, j, n);
        }
      }
    }
  }

  lemma LongRunRepeats<S(!new)>(next: S -> Option<S>, s: S, code: S -> int, bound: nat) returns (i: nat, j: nat)
    requires forall t :: code(t) >= 0
    requires forall t, u :: code(t) == code(u) ==> t == u
    requires forall n: nat :: Iterate(next, s, n).Some? && code(Iterate(next, s, n).value) < bound
    ensures i < j && Iterate(next, s, i) == Iterate(next, s, j)
  {
    var codes := seq(bound + 1, k requires 0 <= k => code(Iterate(next, s, k).value));
    assert exists a, b :: 0 <= a < b < |codes| && codes[a] == codes[b] by {
      if forall a, b | 0 <= a < b < |codes| :: codes[a] != codes[b] {
        DistinctBelow(codes, bound);
      }
    }
    i, j :| 0 <= i < j < |codes| && codes[i] == codes[j];
  }
}
