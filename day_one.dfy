/**
 * The frequency calibration of day-one/src/main.rs over already-parsed
 * deltas: the total after one pass, and the first running total that is
 * seen twice while the deltas are applied over and over.
 */
module Frequencies {

  /** Sum of the deltas of one pass. */
  function Sum(deltas: seq<int>): int
  {
    if deltas == [] then 0 else Sum(deltas[..|deltas| - 1]) + deltas[|deltas| - 1]
  }

  /** The running total after `n` deltas, cycling through `deltas` from 0. */
  function Total(deltas: seq<int>, n: nat): int
    requires n == 0 || |deltas| > 0
  {
    if n < |deltas| || n == 0 then Sum(deltas[..n]) else Total(deltas, n - |deltas|) + Sum(deltas)
  }

  /**
   * The total after `n` steps equals a total reached earlier (`Seen` holds
   * exactly the earlier totals, by `SeenMeans`).
   */
  ghost predicate RepeatsAt(deltas: seq<int>, n: nat)
    requires |deltas| > 0
  {
    n >= 1 && Total(deltas, n) in Seen(deltas, n)
  }

  /** `n` is the first step whose total repeats an earlier one. */
  ghost predicate FirstRepeatAt(deltas: seq<int>, n: nat)
    requires |deltas| > 0
  {
    RepeatsAt(deltas, n) && forall m :: 1 <= m < n ==> !RepeatsAt(deltas, m)
  }

  /** No step from 1 to `n` repeats a total (step by step, for the loop). */
  ghost predicate NoRepeatUpTo(deltas: seq<int>, n: nat)
    requires |deltas| > 0
  {
    n == 0 || (NoRepeatUpTo(deltas, n - 1) && !RepeatsAt(deltas, n))
  }

  lemma {:induction false} NoRepeatMeans(deltas: seq<int>, n: nat)
    requires |deltas| > 0
    ensures NoRepeatUpTo(deltas, n) <==> forall m :: 1 <= m <= n ==> !RepeatsAt(deltas, m)
  {
    if n > 0 {
      NoRepeatMeans(deltas, n - 1);
    }
  }

  /**
   * The `while !found_final` loop of `main`, with at most `fuel` passes over
   * the deltas (the source loops forever when no total ever repeats). The
   * first pass always runs to its end, later passes stop at the repeat.
   */
  method Calibrate(deltas: seq<int>, fuel: nat) returns (firstResult: int, finalResult: int, foundFinal: bool)
    ensures fuel > 0 ==> firstResult == Sum(deltas)
    ensures fuel == 0 ==> firstResult == 0 && !foundFinal
    ensures foundFinal ==> |deltas| > 0 && exists n :: FirstRepeatAt(deltas, n) && finalResult == Total(deltas, n)
    ensures !foundFinal ==> finalResult == 0
    ensures !foundFinal && |deltas| > 0 ==> forall n :: 1 <= n <= fuel * |deltas| ==> !RepeatsAt(deltas, n)
  {
    var frequencies: set<int> := {};
    var firstIter := true;
    foundFinal := false;
    firstResult, finalResult := 0, 0;
    var result := 0;
    var passes := 0;
    ghost var start: nat := 0;
    ghost var steps := 0;
    ghost var foundAt := 0;
    while !foundFinal && passes < fuel
      invariant passes <= fuel && start == PassesLength(deltas, passes)
      invariant firstIter <==> passes == 0
      invariant firstIter ==> firstResult == 0 && !foundFinal
      invariant !firstIter ==> firstResult == Sum(deltas)
      invariant !foundFinal ==> steps == start && finalResult == 0
      invariant steps == 0 || |deltas| > 0
      invariant result == Total(deltas, steps)
      invariant frequencies == Seen(deltas, steps)
      invariant foundFinal ==>
        (|deltas| > 0 && FirstRepeatAt(deltas, foundAt) && finalResult == Total(deltas, foundAt))
      invariant !foundFinal && |deltas| > 0 ==> NoRepeatUpTo(deltas, steps)
      decreases fuel - passes
    {
      PassBoundary(deltas, passes);
      for i := 0 to |deltas|
        invariant steps == start + i
        invariant result == Total(deltas, steps)
        invariant frequencies == Seen(deltas, steps)
        invariant !foundFinal ==> finalResult == 0
        invariant foundFinal ==>
          (|deltas| > 0 && FirstRepeatAt(deltas, foundAt) && finalResult == Total(deltas, foundAt))
        invariant !foundFinal && |deltas| > 0 ==> NoRepeatUpTo(deltas, steps)
        invariant !firstIter ==> !foundFinal
      {
        frequencies := frequencies + {result};
        TotalWithinPass(deltas, start, i + 1);
        TotalWithinPass(deltas, start, i);
        assert deltas[..i + 1][..i] == deltas[..i];
        result := result + deltas[i];
        steps := steps + 1;
        if !foundFinal {
          RepeatStep(deltas, steps);
        }
        if result in frequencies && !foundFinal {
          foundFinal := true;
          finalResult := result;
          foundAt := steps;
        }
        if foundFinal && !firstIter {
          break;
        }
      }
      if firstIter {
        assert deltas[..|deltas|] == deltas;
        TotalWithinPass(deltas, 0, |deltas|);
        firstResult := result;
        firstIter := false;
      }
      start := start + |deltas|;
      passes := passes + 1;
    }
    if !foundFinal && |deltas| > 0 {
      NoRepeatMeans(deltas, steps);
      PassesLengthIsProduct(deltas, fuel);
    }
  }

  /** The set of running totals reached before step `n`. */
  ghost function Seen(deltas: seq<int>, n: nat): set<int>
    requires n == 0 || |deltas| > 0
  {
    if n == 0 then {} else Seen(deltas, n - 1) + {Total(deltas, n - 1)}
  }

  lemma {:induction false} SeenMeans(deltas: seq<int>, n: nat, x: int)
    requires n == 0 || |deltas| > 0
    ensures x in Seen(deltas, n) <==> exists m :: 0 <= m < n && Total(deltas, m) == x
  {
    if n > 0 {
      var last := n - 1;
      SeenMeans(deltas, last, x);
      assert Seen(deltas, n) == Seen(deltas, last) + {Total(deltas, last)};
      if x in Seen(deltas, n) {
        if x == Total(deltas, last) {
          assert 0 <= last < n && Total(deltas, last) == x;
        } else {
          var m :| 0 <= m < last && Total(deltas, m) == x;
          assert 0 <= m < n && Total(deltas, m) == x;
        }
      } else {
        forall m | 0 <= m < n
          ensures Total(deltas, m) != x
        {
          if m == last {
            assert x != Total(deltas, last);
          } else {
            assert !(0 <= m < last && Total(deltas, m) == x);
          }
        }
      }
    }
  }

  /** Whether step `n` is the first repeat is decided by the totals seen before it. */
  lemma RepeatStep(deltas: seq<int>, n: nat)
    requires |deltas| > 0 && n >= 1 && NoRepeatUpTo(deltas, n - 1)
    ensures Total(deltas, n) in Seen(deltas, n) ==> FirstRepeatAt(deltas, n)
    ensures Total(deltas, n) !in Seen(deltas, n) ==> NoRepeatUpTo(deltas, n)
  {
    NoRepeatMeans(deltas, n - 1);
  }

  /** `start` is where a pass begins: a whole number of passes into the cycle. */
  ghost predicate PassStart(deltas: seq<int>, start: nat)
    decreases start
  {
    start == 0 || (0 < |deltas| <= start && PassStart(deltas, start - |deltas|))
  }

  /** The number of steps taken by `passes` whole passes. */
  function PassesLength(deltas: seq<int>, passes: nat): nat
  {
    if passes == 0 then 0 else PassesLength(deltas, passes - 1) + |deltas|
  }

  lemma {:induction false} PassBoundary(deltas: seq<int>, passes: nat)
    ensures PassStart(deltas, PassesLength(deltas, passes))
  {
    if passes > 0 {
      PassBoundary(deltas, passes - 1);
    }
  }

  lemma {:induction false} PassesLengthIsProduct(deltas: seq<int>, passes: nat)
    ensures PassesLength(deltas, passes) == passes * |deltas|
  {
    if passes > 0 {
      PassesLengthIsProduct(deltas, passes - 1);
      assert passes * |deltas| == (passes - 1) * |deltas| + |deltas|;
    }
  }

  /** Within a pass, the running total grows by the deltas applied so far. */
  lemma {:induction false} TotalWithinPass(deltas: seq<int>, start: nat, j: nat)
    requires PassStart(deltas, start) && j <= |deltas|
    requires start == 0 || |deltas| > 0
    ensures Total(deltas, start + j) == Total(deltas, start) + Sum(deltas[..j])
    decreases start
  {
    if start > 0 {
      TotalWithinPass(deltas, start - |deltas|, j);
    } else if j == |deltas| && j > 0 {
      assert deltas[..j] == deltas;
      assert Total(deltas, j) == Total(deltas, 0) + Sum(deltas);
    }
  }

  /** Each further pass shifts every running total by the sum of the deltas: `p` passes shift it by `p` sums. */
  lemma {:induction false} TotalPeriodic(deltas: seq<int>, n: nat, passes: nat)
    requires |deltas| > 0
    ensures Total(deltas, n + passes * |deltas|) == Total(deltas, n) + passes * Sum(deltas)
  {
    if passes > 0 {
      TotalPeriodic(deltas, n, passes - 1);
      var len, sum := |deltas|, Sum(deltas);
      assert passes * len == (passes - 1) * len + len && passes * sum == (passes - 1) * sum + sum;
      var m := n + (passes - 1) * len;
      assert Total(deltas, m + len) == Total(deltas, m) + sum;
    }
  }

  /** Deltas that sum to zero bring the total back to 0 at the end of the first pass. */
  lemma ZeroSumRepeatsInFirstPass(deltas: seq<int>)
    requires |deltas| > 0 && Sum(deltas) == 0
    ensures RepeatsAt(deltas, |deltas|)
    ensures exists n :: 1 <= n <= |deltas| && FirstRepeatAt(deltas, n)
  {
    assert deltas[..0] == [];
    SeenMeans(deltas, |deltas|, Total(deltas, |deltas|));
    assert 0 <= 0 < |deltas| && Total(deltas, 0) == Total(deltas, |deltas|);
    FirstRepeatExists(deltas, |deltas|);
  }

  /**
   * A repeat at step `k` means there is a first repeat, no later than `k`:
   * the loop that stops at the first repeat then stops by step `k`.
   */
  lemma {:induction false} FirstRepeatExists(deltas: seq<int>, k: nat)
    requires |deltas| > 0 && RepeatsAt(deltas, k)
    ensures exists n :: 1 <= n <= k && FirstRepeatAt(deltas, n)
  {
    if forall m :: 1 <= m < k ==> !RepeatsAt(deltas, m) {
      assert FirstRepeatAt(deltas, k);
    } else {
      var m :| 1 <= m < k && RepeatsAt(deltas, m);
      FirstRepeatExists(deltas, m);
    }
  }
}
