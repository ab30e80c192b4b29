/**
 * The polymer reaction of day-five/src/main.rs over the bytes of the input
 * line (the trailing newline that is read with the line is a unit like any
 * other). A unit reacts with its neighbour when their byte values differ by
 * exactly 32, which for ASCII letters is a lower-case letter next to its
 * capital. The reaction keeps a stack of surviving units; a second pass
 * removes one letter, in both cases, before reacting the survivors again.
 */
module Polymer {

  /** Every unit is an ASCII byte, so the source's `as i8` keeps its value and `curr - prev` cannot overflow. */
  predicate AsciiUnits(units: seq<int>)
  {
    forall i :: 0 <= i < |units| ==> 0 <= units[i] < 128
  }

  /** Two units react: their byte values are exactly 32 apart. */
  predicate Reacts(a: int, b: int)
  {
    a - b == 32 || b - a == 32
  }

  function Abs(x: int): (r: nat)
    ensures r == x || r == -x
  {
    if x < 0 then -x else x
  }

  /** No two neighbouring units react: the polymer is fully reacted. */
  predicate Stable(units: seq<int>)
  {
    forall i :: 0 <= i < |units| - 1 ==> !Reacts(units[i], units[i + 1])
  }

  /** One unit arrives at the stack: it annihilates the top when they react, otherwise it is pushed. */
  function AddUnit(stack: seq<int>, u: int): seq<int>
  {
    if stack == [] then [u]
    else if Reacts(stack[|stack| - 1], u) then stack[..|stack| - 1]
    else stack + [u]
  }

  /** The stack after every unit of `units` has arrived, in order. */
  function Reduce(units: seq<int>): seq<int>
  {
    if units == [] then [] else AddUnit(Reduce(units[..|units| - 1]), units[|units| - 1])
  }

  /**
   * The reacted polymer is never longer than the input, shorter by an even
   * number of units (each reaction removes two), fully reacted, and made only
   * of input units.
   */
  lemma {:induction false} ReduceShape(units: seq<int>)
    ensures |Reduce(units)| <= |units| && (|units| - |Reduce(units)|) % 2 == 0
    ensures Stable(Reduce(units))
    ensures forall u :: u in Reduce(units) ==> u in units
  {
    if units != [] {
      var prefix, last := units[..|units| - 1], units[|units| - 1];
      ReduceShape(prefix);
      var stack := Reduce(prefix);
      assert units == prefix + [last];
      forall u | u in Reduce(units)
        ensures u in units
      {
        if u != last {
          assert u in stack;
        }
      }
      if stack != [] && !Reacts(stack[|stack| - 1], last) {
        var r := stack + [last];
        forall i | 0 <= i < |r| - 1
          ensures !Reacts(r[i], r[i + 1])
        {
          if i < |stack| - 1 {
            assert r[i] == stack[i] && r[i + 1] == stack[i + 1];
          }
        }
      }
    }
  }

  /** A unit that the filtered pass for letter `c` skips: `c` itself or its capital `c - 32`. */
  predicate Removed(u: int, c: char)
  {
    u == c as int || u == c as int - 32
  }

  /** The units that the filtered pass for `c` lets through, in order. */
  function Filter(units: seq<int>, c: char): seq<int>
  {
    if units == [] then []
    else
      var last := units[|units| - 1];
      var rest := Filter(units[..|units| - 1], c);
      if Removed(last, c) then rest else rest + [last]
  }

  /** The filtered pass keeps exactly the units that are neither the letter nor its capital. */
  lemma {:induction false} FilterMeans(units: seq<int>, c: char)
    ensures forall u :: u in Filter(units, c) <==> u in units && !Removed(u, c)
  {
    if units != [] {
      var prefix, last := units[..|units| - 1], units[|units| - 1];
      FilterMeans(prefix, c);
      assert units == prefix + [last];
    }
  }

  /** The length of the filtered, re-reacted polymer for letter `c`. */
  function FilteredLength(units: seq<int>, c: char): nat
  {
    |Reduce(Filter(units, c))|
  }

  /** The `j`-th letter of the alphabet the second loop runs over, `'a'` to `'z'`. */
  function Letter(j: int): (c: char)
    requires 0 <= j < 26
    ensures 'a' <= c <= 'z'
  {
    (('a' as int) + j) as char
  }

  /** The first reaction loop: `activated` is the stack once every unit of the polymer has arrived. */
  method Activate(polymer: seq<int>) returns (activated: seq<int>)
    requires AsciiUnits(polymer)
    ensures activated == Reduce(polymer)
  {
    activated := [];
    for i := 0 to |polymer|
      invariant activated == Reduce(polymer[..i])
    {
      ReduceSnoc(polymer[..i], polymer[i]);
      assert polymer[..i + 1] == polymer[..i] + [polymer[i]];
      if activated == [] {
        activated := [polymer[i]];
        continue;
      }
      var prev := activated[|activated| - 1];
      ghost var stack := activated;
      activated := activated[..|activated| - 1];
      var curr := polymer[i];
      var diff := curr - prev;
      if Abs(diff) == 32 {
        assert activated == AddUnit(stack, curr);
        continue;
      }
      activated := activated + [prev] + [curr];
      assert activated == stack + [curr] == AddUnit(stack, curr);
    }
    assert polymer[..|polymer|] == polymer;
  }

  /** Reacting one more unit is one more arrival at the stack. */
  lemma ReduceSnoc(units: seq<int>, u: int)
    ensures Reduce(units + [u]) == AddUnit(Reduce(units), u)
  {
    assert (units + [u])[..|units|] == units;
  }

  /** Filtering one more unit keeps it exactly when it is not the letter or its capital. */
  lemma FilterSnoc(units: seq<int>, u: int, c: char)
    ensures Filter(units + [u], c) == if Removed(u, c) then Filter(units, c) else Filter(units, c) + [u]
  {
    assert (units + [u])[..|units|] == units;
  }

  /** The filtered reaction loop for one letter `c`, run over the activated polymer. */
  method Reactivate(activated: seq<int>, c: char) returns (reactivated: seq<int>)
    requires AsciiUnits(activated) && 'a' <= c <= 'z'
    ensures reactivated == Reduce(Filter(activated, c))
  {
    reactivated := [];
    ghost var kept: seq<int> := [];
    for i := 0 to |activated|
      invariant kept == Filter(activated[..i], c)
      invariant reactivated == Reduce(kept)
    {
      FilterSnoc(activated[..i], activated[i], c);
      assert activated[..i + 1] == activated[..i] + [activated[i]];
      var lower := c as int;
      var upper := lower - 32;
      if activated[i] == lower || activated[i] == upper {
        continue;
      }
      ReduceSnoc(kept, activated[i]);
      kept := kept + [activated[i]];
      if reactivated == [] {
        reactivated := [activated[i]];
        continue;
      }
      var prev := reactivated[|reactivated| - 1];
      ghost var stack := reactivated;
      reactivated := reactivated[..|reactivated| - 1];
      var curr := activated[i];
      var diff := curr - prev;
      if Abs(diff) == 32 {
        assert reactivated == AddUnit(stack, curr);
        continue;
      }
      reactivated := reactivated + [prev] + [curr];
      assert reactivated == stack + [curr] == AddUnit(stack, curr);
    }
    assert activated[..|activated|] == activated;
  }

  /**
   * The loop over the alphabet: `minLength` is the shortest filtered length,
   * and `minChar` the earliest letter reaching it, or `'\0'` when no letter
   * shortens the activated polymer.
   */
  method BestRemoval(activated: seq<int>) returns (minLength: nat, minChar: char)
    requires AsciiUnits(activated)
    ensures minLength <= |activated|
    ensures forall j :: 0 <= j < 26 ==> minLength <= FilteredLength(activated, Letter(j))
    ensures minChar == '\0' <==> forall j :: 0 <= j < 26 ==> FilteredLength(activated, Letter(j)) >= |activated|
    ensures minChar == '\0' ==> minLength == |activated|
    ensures minChar != '\0' ==> 'a' <= minChar <= 'z' && minLength == FilteredLength(activated, minChar) < |activated|
    ensures forall j :: 0 <= j < 26 && Letter(j) < minChar ==> FilteredLength(activated, Letter(j)) > minLength
  {
    minLength := |activated|;
    minChar := '\0';
    ghost var minIndex := -1;
    for j := 0 to 26
      invariant -1 <= minIndex < j
      invariant minChar == (if minIndex < 0 then '\0' else Letter(minIndex))
      invariant minIndex < 0 ==> minLength == |activated|
      invariant minIndex >= 0 ==> minLength == FilteredLength(activated, Letter(minIndex)) < |activated|
      invariant forall k :: 0 <= k < j ==> minLength <= FilteredLength(activated, Letter(k))
      invariant forall k :: 0 <= k < j && k < minIndex ==> FilteredLength(activated, Letter(k)) > minLength
      invariant forall k :: 0 <= k < j && minIndex < 0 ==> FilteredLength(activated, Letter(k)) >= |activated|
    {
      var c := Letter(j);
      var reactivated := Reactivate(activated, c);
      if |reactivated| < minLength {
        minLength := |reactivated|;
        minChar := c;
        minIndex := j;
      }
    }
  }

  /** The filtered pass never keeps a unit equal to the letter or its capital. */
  lemma FilteredNeverKeeps(units: seq<int>, c: char)
    ensures forall u :: u in Reduce(Filter(units, c)) ==> u != c as int && u != c as int - 32
  {
    FilterMeans(units, c);
    ReduceShape(Filter(units, c));
  }

  /** A fully reacted polymer is left as it is: reacting the activated polymer again changes nothing. */
  lemma {:induction false} StableIsFixed(units: seq<int>)
    requires Stable(units)
    ensures Reduce(units) == units
  {
    if units != [] {
      var prefix := units[..|units| - 1];
      assert Stable(prefix) by {
        forall i | 0 <= i < |prefix| - 1
          ensures !Reacts(prefix[i], prefix[i + 1])
        {
          assert prefix[i] == units[i] && prefix[i + 1] == units[i + 1];
        }
      }
      StableIsFixed(prefix);
      if prefix != [] {
        assert !Reacts(units[|units| - 2], units[|units| - 1]);
      }
      assert prefix + [units[|units| - 1]] == units;
    }
  }

  /** Reacting twice is the same as reacting once. */
  lemma ReduceIdempotent(units: seq<int>)
    ensures Reduce(Reduce(units)) == Reduce(units)
  {
    ReduceShape(units);
    StableIsFixed(Reduce(units));
  }

  /** `kept` lists, in increasing order, the positions in `full` of the units of `sub`. */
  ghost predicate Embeds(kept: seq<int>, sub: seq<int>, full: seq<int>)
  {
    |kept| == |sub| &&
    (forall k :: 0 <= k < |kept| ==> 0 <= kept[k] < |full| && full[kept[k]] == sub[k]) &&
    (forall k, l :: 0 <= k < l < |kept| ==> kept[k] < kept[l])
  }

  /** The positions of the input units that survive the reaction, following the stack. */
  ghost function Survivors(units: seq<int>): (kept: seq<int>)
    ensures |kept| == |Reduce(units)|
  {
    if units == [] then []
    else
      var prefix := units[..|units| - 1];
      var stack := Reduce(prefix);
      var kept := Survivors(prefix);
      if stack == [] then [|units| - 1]
      else if Reacts(stack[|stack| - 1], units[|units| - 1]) then kept[..|kept| - 1]
      else kept + [|units| - 1]
  }

  /** The reacted polymer is an order-preserving subsequence of the input. */
  lemma {:induction false} ReduceIsSubsequence(units: seq<int>)
    ensures Embeds(Survivors(units), Reduce(units), units)
  {
    if units != [] {
      var prefix := units[..|units| - 1];
      ReduceIsSubsequence(prefix);
      var kept := Survivors(prefix);
      var stack := Reduce(prefix);
      forall k | 0 <= k < |kept|
        ensures 0 <= kept[k] < |units| && units[kept[k]] == stack[k]
      {
        assert units[kept[k]] == prefix[kept[k]];
      }
    }
  }

  /** `t` is `s` with the reacting pair at positions `i` and `i + 1` removed. */
  ghost predicate ReactedAt(s: seq<int>, i: int, t: seq<int>)
  {
    0 <= i < |s| - 1 && Reacts(s[i], s[i + 1]) && t == s[..i] + s[i + 2..]
  }

  /** `t` is reached from `s` by `n` reactions, each removing one neighbouring reacting pair. */
  ghost predicate ReactsTo(s: seq<int>, t: seq<int>, n: nat)
    decreases n
  {
    if n == 0 then s == t
    else exists m, i :: ReactsTo(s, m, n - 1) && ReactedAt(m, i, t)
  }

  /** Reactions inside a polymer still happen when a unit follows it. */
  lemma {:induction false} ReactsToExtend(s: seq<int>, t: seq<int>, n: nat, u: int)
    requires ReactsTo(s, t, n)
    ensures ReactsTo(s + [u], t + [u], n)
    decreases n
  {
    if n > 0 {
      var m, i :| ReactsTo(s, m, n - 1) && ReactedAt(m, i, t);
      ReactsToExtend(s, m, n - 1, u);
      assert (m + [u])[..i] + (m + [u])[i + 2..] == t + [u];
      assert ReactedAt(m + [u], i, t + [u]);
    }
  }

  /**
   * The stack reaction is a reaction sequence: the reacted polymer is what is
   * left after removing (|units| - |Reduce(units)|) / 2 reacting pairs.
   */
  lemma {:induction false} ReduceReachable(units: seq<int>)
    ensures |Reduce(units)| <= |units| && ReactsTo(units, Reduce(units), (|units| - |Reduce(units)|) / 2)
  {
    if units != [] {
      var prefix, u := units[..|units| - 1], units[|units| - 1];
      var stack := Reduce(prefix);
      assert prefix + [u] == units;
      assert Reduce(units) == AddUnit(stack, u);
      ReduceReachable(prefix);
      ReduceShape(prefix);
      ArrivalReacts(prefix, stack, (|prefix| - |stack|) / 2, u);
    }
  }

  /** One more unit arriving extends a reaction sequence by the stack's own step. */
  lemma ArrivalReacts(prefix: seq<int>, stack: seq<int>, n: nat, u: int)
    requires ReactsTo(prefix, stack, n) && |prefix| - |stack| == 2 * n
    ensures |AddUnit(stack, u)| <= |prefix + [u]|
    ensures ReactsTo(prefix + [u], AddUnit(stack, u), (|prefix + [u]| - |AddUnit(stack, u)|) / 2)
  {
    ReactsToExtend(prefix, stack, n, u);
    if stack != [] && Reacts(stack[|stack| - 1], u) {
      assert (stack + [u])[..|stack| - 1] + (stack + [u])[|stack| + 1..] == stack[..|stack| - 1];
      assert ReactedAt(stack + [u], |stack| - 1, AddUnit(stack, u));
      assert ReactsTo(prefix + [u], stack + [u], n);
      assert ReactsTo(prefix + [u], AddUnit(stack, u), n + 1);
      assert (|prefix + [u]| - |AddUnit(stack, u)|) / 2 == n + 1;
    } else {
      assert AddUnit(stack, u) == stack + [u];
      assert (|prefix + [u]| - |AddUnit(stack, u)|) / 2 == n;
    }
  }
}
