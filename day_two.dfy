/**
 * The box-ID scan of day-two/src/main.rs over already-read lines: the
 * letter-count checksum, and the search for two IDs that differ in one
 * position, driven through the trie (each line is matched against the
 * earlier lines before it is inserted).
 */
module BoxIds {
  import opened Options
  import opened PrefixTrie

  /** Some character occurs exactly `k` times in `line`. */
  ghost predicate HasLetterTimes(line: string, k: nat)
  {
    exists c :: c in line && multiset(line)[c] == k
  }

  /** How many of `lines` have some character exactly `k` times. */
  ghost function LinesWith(lines: seq<string>, k: nat): nat
  {
    if lines == [] then 0
    else LinesWith(lines[..|lines| - 1], k) + (if HasLetterTimes(lines[|lines| - 1], k) then 1 else 0)
  }

  /** The trie after inserting `lines` in order into an empty one. */
  function Build(lines: seq<string>): Node
  {
    if lines == [] then Empty
    else InsertAt(Build(lines[..|lines| - 1]), lines[|lines| - 1], lines[|lines| - 1])
  }

  /**
   * The part-2 result from line `i` on: match each line against the trie of
   * all lines before it (then insert it); the first successful match ends
   * the search.
   */
  function FirstMatch(lines: seq<string>, i: nat): Option<string>
    requires i <= |lines|
    decreases |lines| - i
  {
    if i == |lines| then None
    else if MatchAt(lines, i).Some? then MatchAt(lines, i)
    else FirstMatch(lines, i + 1)
  }

  /** `match_off_by_one` of line `i` against the trie of the lines before it. */
  function MatchAt(lines: seq<string>, i: nat): Option<string>
    requires i < |lines|
  {
    MatchSpec(Build(lines[..i]), lines[i])
  }

  /** The per-line `HashMap` of character counts. */
  method CountLetters(line: string) returns (counts: map<char, nat>)
    ensures forall c :: c in counts <==> c in line
    ensures forall c :: c in counts ==> counts[c] == multiset(line)[c]
  {
    counts := map[];
    for i := 0 to |line|
      invariant forall c :: c in counts <==> c in line[..i]
      invariant forall c :: c in counts ==> counts[c] == multiset(line[..i])[c]
    {
      assert line[..i + 1] == line[..i] + [line[i]];
      var c := line[i];
      var count := if c in counts then counts[c] else 0;
      counts := counts[c := count + 1];
    }
    assert line[..|line|] == line;
  }

  /** The scan over the count map, in no particular order, for counts of two and three. */
  method FindDoubleTriple(counts: map<char, nat>) returns (foundDouble: bool, foundTriple: bool)
    ensures foundDouble <==> exists c :: c in counts && counts[c] == 2
    ensures foundTriple <==> exists c :: c in counts && counts[c] == 3
  {
    foundDouble, foundTriple := false, false;
    var todo := counts.Keys;
    while todo != {}
      invariant todo <= counts.Keys
      invariant foundDouble <==> exists c :: c in counts.Keys - todo && counts[c] == 2
      invariant foundTriple <==> exists c :: c in counts.Keys - todo && counts[c] == 3
      decreases todo
    {
      var c :| c in todo;
      todo := todo - {c};
      if counts[c] == 2 {
        foundDouble := true;
      }
      if counts[c] == 3 {
        foundTriple := true;
      }
    }
  }

  /** Part 1 for one line: does some letter occur exactly twice, and does some occur exactly three times. */
  method LineFlags(line: string) returns (foundDouble: bool, foundTriple: bool)
    ensures foundDouble <==> HasLetterTimes(line, 2)
    ensures foundTriple <==> HasLetterTimes(line, 3)
  {
    var counts := CountLetters(line);
    foundDouble, foundTriple := FindDoubleTriple(counts);
  }

  /**
   * The whole of `main` after reading: the double and triple tallies, their
   * product, and the first off-by-one match. Every line must be non-empty
   * (an empty line would make `match_off_by_one` underflow on a non-empty
   * trie) and ASCII.
   */
  method Scan(lines: seq<string>) returns (doubleCount: nat, tripleCount: nat, checksum: nat, maybeMatch: Option<string>)
    requires forall i :: 0 <= i < |lines| ==> lines[i] != [] && IsAscii(lines[i])
    ensures doubleCount == LinesWith(lines, 2) && tripleCount == LinesWith(lines, 3)
    ensures checksum == LinesWith(lines, 2) * LinesWith(lines, 3)
    ensures maybeMatch == FirstMatch(lines, 0)
  {
    doubleCount, tripleCount := 0, 0;
    var trie := new Trie();
    maybeMatch := None;
    for i := 0 to |lines|
      invariant trie.Valid()
      invariant doubleCount == LinesWith(lines[..i], 2) && tripleCount == LinesWith(lines[..i], 3)
      invariant maybeMatch.None? ==> trie.root == Build(lines[..i])
      invariant maybeMatch.None? ==> FirstMatch(lines, 0) == FirstMatch(lines, i)
      invariant maybeMatch.Some? ==> maybeMatch == FirstMatch(lines, 0)
    {
      var line := lines[i];
      assert lines[..i + 1][..i] == lines[..i] && lines[..i + 1][i] == line;
      assert LinesWith(lines[..i + 1], 2) == LinesWith(lines[..i], 2) + (if HasLetterTimes(line, 2) then 1 else 0);
      assert LinesWith(lines[..i + 1], 3) == LinesWith(lines[..i], 3) + (if HasLetterTimes(line, 3) then 1 else 0);
      var foundDouble, foundTriple := LineFlags(line);
      if foundDouble {
        doubleCount := doubleCount + 1;
      }
      if foundTriple {
        tripleCount := tripleCount + 1;
      }
      if maybeMatch.None? {
        assert Build(lines[..i + 1]) == InsertAt(Build(lines[..i]), line, line);
        maybeMatch := trie.MatchOffByOne(line);
        assert maybeMatch == MatchAt(lines, i);
        trie.Insert(line);
      }
    }
    assert lines[..|lines|] == lines;
    checksum := doubleCount * tripleCount;
  }

  // ---------------------------------------------------------------------------
  // What the search finds

  /** Inserting `lines` into an empty trie stores exactly those lines. */
  lemma {:induction false} BuildWellFormed(lines: seq<string>)
    ensures WellFormed(Build(lines), set i | 0 <= i < |lines| :: lines[i])
  {
    if lines == [] {
      EmptyWellFormed();
    } else {
      var init := lines[..|lines| - 1];
      BuildWellFormed(init);
      InsertWellFormed(Build(init), set i | 0 <= i < |init| :: init[i], lines[|lines| - 1]);
      assert (set i | 0 <= i < |lines| :: lines[i]) ==
        (set i | 0 <= i < |init| :: init[i]) + {lines[|lines| - 1]};
    }
  }

  /**
   * The search result is the match of the first line that matches against
   * the trie of all lines before it; no earlier line matched.
   */
  lemma {:induction false} FirstMatchFinds(lines: seq<string>, i: nat)
    requires i <= |lines|
    ensures FirstMatch(lines, i).Some? ==>
      exists n :: i <= n < |lines| && FirstMatch(lines, i) == MatchAt(lines, n) &&
        forall j :: i <= j < n ==> MatchAt(lines, j) == None
    ensures FirstMatch(lines, i).None? ==>
      forall j :: i <= j < |lines| ==> MatchAt(lines, j) == None
    decreases |lines| - i
  {
    if i < |lines| {
      var here := MatchAt(lines, i);
      if here.Some? {
        assert FirstMatch(lines, i) == here;
        assert i <= i < |lines| && FirstMatch(lines, i) == MatchAt(lines, i);
      } else {
        var next := i + 1;
        FirstMatchFinds(lines, next);
        assert FirstMatch(lines, i) == FirstMatch(lines, next);
        if FirstMatch(lines, next).Some? {
          var n :| next <= n < |lines| && FirstMatch(lines, next) == MatchAt(lines, n) &&
            forall j :: next <= j < n ==> MatchAt(lines, j) == None;
          forall j | i <= j < n
            ensures MatchAt(lines, j) == None
          {
          }
          assert i <= n < |lines| && FirstMatch(lines, i) == MatchAt(lines, n) &&
            forall j :: i <= j < n ==> MatchAt(lines, j) == None;
        }
      }
    }
  }

  /**
   * When all IDs have the same length, a reported match is sound: it is a
   * line with the one character removed in which it differs from some
   * earlier line.
   */
  lemma FirstMatchSoundForEqualLengths(lines: seq<string>)
    requires forall i, j :: 0 <= i < |lines| && 0 <= j < |lines| ==> |lines[i]| == |lines[j]|
    requires FirstMatch(lines, 0).Some?
    ensures exists i, j, k ::
      (0 <= j < i < |lines| && OneOffAt(lines[j], lines[i], k) &&
       FirstMatch(lines, 0).value == lines[i][..k] + lines[i][k + 1..])
  {
    FirstMatchFinds(lines, 0);
    var i :| 0 <= i < |lines| && FirstMatch(lines, 0) == MatchAt(lines, i);
    var words := set j | 0 <= j < |lines[..i]| :: lines[..i][j];
    BuildWellFormed(lines[..i]);
    MatchSoundForEqualLengths(Build(lines[..i]), words, lines[i]);
    var w, k :| w in words && OneOffAt(w, lines[i], k) &&
      MatchSpec(Build(lines[..i]), lines[i]).value == lines[i][..k] + lines[i][k + 1..];
    var j :| 0 <= j < i && lines[j] == w;
  }
}
