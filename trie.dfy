/**
 * The character trie of trie/src/lib.rs.
 *
 * A `Node` is a value: its children are kept in a map keyed by the edge
 * character (the source's `HashMap<char, TrieNode>`), and `leaf` holds the
 * whole string that ends at the node, if one was inserted. The character
 * stored inside a Rust node (`val`) always equals its edge label and is not
 * kept here. `Trie` is a class that owns the root node and is updated in
 * place by `Insert`.
 */
module PrefixTrie {
  import opened Options

  datatype Node = Node(children: map<char, Node>, leaf: Option<string>)

  /** A node with no children and no string ending at it. */
  const Empty: Node := Node(map[], None)

  /** The child under `c`, or a fresh empty node (`entry(c).or_insert(..)`). */
  function Child(n: Node, c: char): Node
  {
    if c in n.children then n.children[c] else Empty
  }

  /** Walks the edges labelled by `s` from `n`; `None` as soon as one is missing. */
  function Lookup(n: Node, s: string): Option<Node>
    decreases |s|
  {
    if s == [] then Some(n)
    else if s[0] in n.children then Lookup(n.children[s[0]], s[1..])
    else None
  }

  predicate HasPath(n: Node, s: string)
  {
    Lookup(n, s).Some?
  }

  /** The terminal marker of the node reached by `s`, if that node exists. */
  function LeafAt(n: Node, s: string): Option<string>
  {
    match Lookup(n, s)
    case Some(m) => m.leaf
    case None => None
  }

  /** `n` with `rest` inserted below it and the final node marked with `val`. */
  function InsertAt(n: Node, rest: string, val: string): Node
    decreases |rest|
  {
    if rest == [] then n.(leaf := Some(val))
    else n.(children := n.children[rest[0] := InsertAt(Child(n, rest[0]), rest[1..], val)])
  }

  /**
   * The trie invariant: a string is marked exactly at the end of its own path
   * and only if it was inserted, and every non-empty path leads on to some
   * inserted string (nodes are only created by insertion).
   */
  ghost predicate WellFormed(root: Node, words: set<string>)
  {
    && (forall t :: LeafAt(root, t) == (if t in words then Some(t) else None))
    && (forall t :: t != [] && HasPath(root, t) ==> exists w :: w in words && t <= w)
  }

  // ---------------------------------------------------------------------------
  // Character width, as Rust's `String::len` counts it

  /** Number of UTF-8 bytes that encode `c`. */
  function Utf8Width(c: char): nat
  {
    if c < 0x80 as char then 1
    else if c < 0x800 as char then 2
    else if c < 0x10000 as char then 3
    else 4
  }

  /** Rust's `len()` of a string: its length in bytes, not in characters. */
  function ByteLen(s: string): nat
  {
    if s == [] then 0 else ByteLen(s[..|s| - 1]) + Utf8Width(s[|s| - 1])
  }

  predicate IsAscii(s: string)
  {
    forall i :: 0 <= i < |s| ==> s[i] < 0x80 as char
  }

  lemma {:induction false} AsciiByteLen(s: string)
    requires IsAscii(s)
    ensures ByteLen(s) == |s|
  {
    if s != [] {
      assert IsAscii(s[..|s| - 1]);
      AsciiByteLen(s[..|s| - 1]);
    }
  }

  // ---------------------------------------------------------------------------
  // Paths

  lemma LookupEmpty(s: string)
    ensures Lookup(Empty, s) == if s == [] then Some(Empty) else None
  {
  }

  /** Walking `a + b` is walking `a`, then `b` from where `a` ended. */
  lemma {:induction false} LookupAppend(n: Node, a: string, b: string)
    ensures Lookup(n, a + b) == match Lookup(n, a) case None => None case Some(m) => Lookup(m, b)
    decreases |a|
  {
    if a == [] {
      assert a + b == b;
    } else {
      assert (a + b)[0] == a[0];
      assert (a + b)[1..] == a[1..] + b;
      if a[0] in n.children {
        LookupAppend(n.children[a[0]], a[1..], b);
      }
    }
  }

  /** Paths are closed under prefixes. */
  lemma PrefixOfPath(n: Node, t: string, u: string)
    requires HasPath(n, t) && u <= t
    ensures HasPath(n, u)
  {
    assert t == u + t[|u|..];
    LookupAppend(n, u, t[|u|..]);
  }

  /**
   * What insertion does to every path: the paths of `InsertAt(n, r, v)` are the
   * old paths plus the prefixes of `r`; only the marker at `r` changes; paths
   * that are not prefixes of `r` lead to the very same subtrees as before.
   */
  lemma {:induction false} LookupInsert(n: Node, r: string, v: string, t: string)
    ensures HasPath(InsertAt(n, r, v), t) <==> HasPath(n, t) || t <= r
    ensures LeafAt(InsertAt(n, r, v), t) == if t == r then Some(v) else LeafAt(n, t)
    ensures !(t <= r) ==> Lookup(InsertAt(n, r, v), t) == Lookup(n, t)
    decreases |r|
  {
    if t == [] {
    } else if r == [] {
    } else if t[0] == r[0] {
      var c := r[0];
      assert t[1..] <= r[1..] <==> t <= r;
      assert t[1..] == r[1..] <==> t == r;
      LookupInsert(Child(n, c), r[1..], v, t[1..]);
      if c !in n.children {
        LookupEmpty(t[1..]);
      }
    } else {
      assert !(t <= r);
    }
  }

  /** Inserting a string that is already marked with `v` changes nothing. */
  lemma {:induction false} InsertMarkedUnchanged(n: Node, s: string, v: string)
    requires LeafAt(n, s) == Some(v)
    ensures InsertAt(n, s, v) == n
    decreases |s|
  {
    if s != [] {
      var c := s[0];
      InsertMarkedUnchanged(n.children[c], s[1..], v);
      assert n.children[c := n.children[c]] == n.children;
    }
  }

  /** Inserting the same string twice leaves the tree as inserting it once. */
  lemma InsertIdempotent(n: Node, s: string, v: string)
    ensures InsertAt(InsertAt(n, s, v), s, v) == InsertAt(n, s, v)
  {
    LookupInsert(n, s, v, s);
    InsertMarkedUnchanged(InsertAt(n, s, v), s, v);
  }

  lemma EmptyWellFormed()
    ensures WellFormed(Empty, {})
  {
    forall t ensures LeafAt(Empty, t) == None && (t != [] ==> !HasPath(Empty, t)) {
      LookupEmpty(t);
    }
  }

  /** Insertion keeps the trie invariant and adds exactly `v` to the stored strings. */
  lemma InsertWellFormed(root: Node, words: set<string>, v: string)
    requires WellFormed(root, words)
    ensures WellFormed(InsertAt(root, v, v), words + {v})
  {
    var root' := InsertAt(root, v, v);
    var words' := words + {v};
    forall t ensures LeafAt(root', t) == (if t in words' then Some(t) else None) {
      LookupInsert(root, v, v, t);
    }
    forall t | t != [] && HasPath(root', t) ensures exists w :: w in words' && t <= w {
      LookupInsert(root, v, v, t);
      if t <= v {
        assert v in words';
      } else {
        var w :| w in words && t <= w;
        assert w in words';
      }
    }
  }

  /**
   * `contains(s)` finds a node exactly when `s` is empty or a prefix of some
   * stored string.
   */
  lemma ContainsIffPrefixOfStored(root: Node, words: set<string>, s: string)
    requires WellFormed(root, words)
    ensures HasPath(root, s) <==> s == [] || exists w :: w in words && s <= w
  {
    if s != [] && !HasPath(root, s) {
      forall w | w in words ensures !(s <= w) {
        assert LeafAt(root, w) == Some(w);
        if s <= w {
          PrefixOfPath(root, w, s);
        }
      }
    }
  }

  /**
   * The node `contains(s)` returns carries `s` as its marker when `s` was
   * inserted, and no marker when `s` is only a prefix of stored strings.
   */
  lemma ContainsMarker(root: Node, words: set<string>, s: string)
    requires WellFormed(root, words) && HasPath(root, s)
    ensures Lookup(root, s).value.leaf == if s in words then Some(s) else None
  {
    assert LeafAt(root, s) == (if s in words then Some(s) else None);
  }

  // ---------------------------------------------------------------------------
  // The single-substitution match

  /**
   * The cursor walk of both phases of `match_off_by_one`: from `n`, follow
   * `s[i]`, `s[i + 1]`, ... while an edge exists. Returns the index where the
   * walk stopped and the node it stopped at.
   */
  function Walk(n: Node, s: string, i: nat): (r: (nat, Node))
    requires i <= |s|
    ensures i <= r.0 <= |s|
    decreases |s| - i
  {
    if i < |s| && s[i] in n.children then Walk(n.children[s[i]], s, i + 1) else (i, n)
  }

  /** The walk follows the slice it consumed to the node it returns, and stops only at a missing edge. */
  lemma {:induction false} WalkStops(n: Node, s: string, i: nat)
    requires i <= |s|
    ensures Lookup(n, s[i..Walk(n, s, i).0]) == Some(Walk(n, s, i).1)
    ensures Walk(n, s, i).0 < |s| ==> s[Walk(n, s, i).0] !in Walk(n, s, i).1.children
    decreases |s| - i
  {
    if i < |s| && s[i] in n.children {
      var r := Walk(n.children[s[i]], s, i + 1);
      WalkStops(n.children[s[i]], s, i + 1);
      assert s[i..r.0][0] == s[i] && s[i..r.0][1..] == s[i + 1..r.0];
    }
  }

  /** `s` is `v` with its character at `k` replaced by a different one. */
  ghost predicate OneOffAt(s: string, v: string, k: int)
  {
    |s| == |v| && 0 <= k < |v| && s[k] != v[k] && s[..k] == v[..k] && s[k + 1..] == v[k + 1..]
  }

  /**
   * What `match_off_by_one(val)` returns on a trie rooted at `root`: phase 1
   * stops at `p`; phase 2 succeeds when, below some child of the node reached,
   * the rest of `val` after position `p` can be walked to its end. Success is
   * decided by length alone, not by reaching a marked node.
   */
  function MatchSpec(root: Node, val: string): Option<string>
  {
    var stop := Walk(root, val, 0);
    if stop.0 < |val| && SomeChildCompletes(stop.1, val, stop.0)
    then Some(val[..stop.0] + val[stop.0 + 1..])
    else None
  }

  /** Phase 2's test: below some child of `node`, `val` after position `p` walks to its end. */
  predicate SomeChildCompletes(node: Node, val: string, p: nat)
    requires p < |val|
  {
    exists c :: c in node.children && Walk(node.children[c], val, p + 1).0 == |val|
  }

  /** A walk reaches the end of `s` exactly when the rest of `s` is a path. */
  lemma {:induction false} WalkFull(n: Node, s: string, i: nat)
    requires i <= |s|
    ensures Walk(n, s, i).0 == |s| <==> HasPath(n, s[i..])
    decreases |s| - i
  {
    if i < |s| {
      assert s[i..][0] == s[i] && s[i..][1..] == s[i + 1..];
      if s[i] in n.children {
        WalkFull(n.children[s[i]], s, i + 1);
      }
    }
  }

  /** Phase 1 stops at the unique `p` such that `val[..p]` is a path and `val[..p+1]` is not. */
  lemma FirstDivergence(root: Node, val: string, k: int)
    requires 0 <= k < |val| && HasPath(root, val[..k]) && !HasPath(root, val[..k + 1])
    ensures Walk(root, val, 0).0 == k
  {
    var (p, node) := Walk(root, val, 0);
    WalkStops(root, val, 0);
    assert val[0..p] == val[..p];
    if p < k {
      assert val[..p] + [val[p]] == val[..p + 1];
      PrefixOfPath(root, val[..k], val[..p + 1]);
      LookupAppend(root, val[..p], [val[p]]);
    } else if p > k {
      PrefixOfPath(root, val[..p], val[..k + 1]);
    }
  }

  /** A path through child `c` of the node reached by `a`. */
  lemma PathThroughChild(root: Node, a: string, node: Node, c: char, b: string)
    requires Lookup(root, a) == Some(node) && c in node.children
    ensures Lookup(root, a + [c] + b) == Lookup(node.children[c], b)
  {
    assert a + [c] + b == a + ([c] + b);
    LookupAppend(root, a, [c] + b);
    assert ([c] + b)[0] == c && ([c] + b)[1..] == b;
  }

  /** Where phase 1 stops, the next character of `val` leaves the trie. */
  lemma StopIsDivergence(root: Node, val: string)
    requires Walk(root, val, 0).0 < |val|
    ensures !HasPath(root, val[..Walk(root, val, 0).0 + 1])
  {
    var (p, node) := Walk(root, val, 0);
    WalkStops(root, val, 0);
    assert val[0..p] == val[..p];
    assert val[..p] + [val[p]] == val[..p + 1];
    LookupAppend(root, val[..p], [val[p]]);
  }

  /** A match comes from a path of the trie one substitution away from `val`. */
  lemma MatchFromPath(root: Node, val: string)
    requires MatchSpec(root, val).Some?
    ensures exists w, k ::
      (OneOffAt(w, val, k) && HasPath(root, w) && !HasPath(root, val[..k + 1]) &&
       MatchSpec(root, val).value == val[..k] + val[k + 1..])
  {
    var (p, node) := Walk(root, val, 0);
    WalkStops(root, val, 0);
    assert val[0..p] == val[..p];
    var c :| c in node.children && Walk(node.children[c], val, p + 1).0 == |val|;
    WalkFull(node.children[c], val, p + 1);
    var w := val[..p] + [c] + val[p + 1..];
    PathThroughChild(root, val[..p], node, c, val[p + 1..]);
    StopIsDivergence(root, val);
    assert w[..p] == val[..p] && w[p + 1..] == val[p + 1..] && w[p] == c;
    assert OneOffAt(w, val, p);
  }

  /** Every path one substitution away from `val` at its first divergence gives a match. */
  lemma MatchFromDivergence(root: Node, val: string, w: string, k: int)
    requires OneOffAt(w, val, k) && HasPath(root, w) && !HasPath(root, val[..k + 1])
    ensures MatchSpec(root, val) == Some(val[..k] + val[k + 1..])
  {
    var (p, node) := Walk(root, val, 0);
    WalkStops(root, val, 0);
    assert val[0..p] == val[..p];
    PrefixOfPath(root, w, w[..k]);
    FirstDivergence(root, val, k);
    assert w == w[..k] + ([w[k]] + w[k + 1..]);
    LookupAppend(root, w[..k], [w[k]] + w[k + 1..]);
    assert Lookup(node, [w[k]] + w[k + 1..]) ==
      if w[k] in node.children then Lookup(node.children[w[k]], w[k + 1..]) else None;
    WalkFull(node.children[w[k]], val, k + 1);
  }

  /**
   * The meaning of `match_off_by_one` as written: it succeeds exactly when some
   * PATH of the trie (not necessarily a stored string) has the length of `val`
   * and differs from it only at the position `k` where `val` first leaves the
   * trie; the result is then `val` without its character at `k`.
   */
  lemma MatchMeaning(root: Node, val: string)
    ensures MatchSpec(root, val).Some? <==>
      exists w, k :: OneOffAt(w, val, k) && HasPath(root, w) && !HasPath(root, val[..k + 1])
    ensures MatchSpec(root, val).Some? ==> |MatchSpec(root, val).value| == |val| - 1
  {
    if MatchSpec(root, val).Some? {
      MatchFromPath(root, val);
    }
    if exists w, k :: OneOffAt(w, val, k) && HasPath(root, w) && !HasPath(root, val[..k + 1]) {
      var w, k :| OneOffAt(w, val, k) && HasPath(root, w) && !HasPath(root, val[..k + 1]);
      MatchFromDivergence(root, val, w, k);
    }
  }

  /** An exact path of `val` (in particular a stored `val`) gives no match. */
  lemma MatchExactIsNone(root: Node, val: string)
    requires HasPath(root, val)
    ensures MatchSpec(root, val) == None
  {
    WalkFull(root, val, 0);
    assert val[0..] == val;
  }

  /** A trie with nothing in it matches nothing. */
  lemma MatchEmptyTrieIsNone(val: string)
    ensures MatchSpec(Empty, val) == None
  {
  }

  /**
   * When every stored string has the length of the query, a match is sound:
   * some stored string differs from `val` in exactly one position `k`, and
   * the result is `val` without that position.
   */
  lemma MatchSoundForEqualLengths(root: Node, words: set<string>, val: string)
    requires WellFormed(root, words)
    requires forall w :: w in words ==> |w| == |val|
    requires MatchSpec(root, val).Some?
    ensures exists w, k ::
      (w in words && OneOffAt(w, val, k) && MatchSpec(root, val).value == val[..k] + val[k + 1..])
  {
    MatchFromPath(root, val);
    var w, k :| OneOffAt(w, val, k) && HasPath(root, w) && !HasPath(root, val[..k + 1]) &&
      MatchSpec(root, val).value == val[..k] + val[k + 1..];
    var u :| u in words && w <= u;
    assert u == w;
  }

  // ---------------------------------------------------------------------------
  // The documented examples, and two consequences of how the match is built

  /** The paths of a trie holding one string are exactly that string's prefixes. */
  lemma SingleStringPaths(s: string, t: string)
    ensures HasPath(InsertAt(Empty, s, s), t) <==> t <= s
    ensures LeafAt(InsertAt(Empty, s, s), t) == if t == s then Some(s) else None
  {
    LookupInsert(Empty, s, s, t);
    LookupEmpty(t);
  }

  /** The three `contains` tests: a stored string, a prefix only, an absent string. */
  lemma ContainsExamples()
    ensures LeafAt(InsertAt(Empty, "hello", "hello"), "hello") == Some("hello")
    ensures HasPath(InsertAt(Empty, "hello world", "hello world"), "hello")
    ensures LeafAt(InsertAt(Empty, "hello world", "hello world"), "hello") == None
    ensures !HasPath(InsertAt(Empty, "hello", "hello"), "world")
  {
    SingleStringPaths("hello", "hello");
    SingleStringPaths("hello world", "hello");
    SingleStringPaths("hello", "world");
    assert "hello" <= "hello world";
    assert !("world" <= "hello");
  }

  /** Any path of length 6 in the trie holding "abcdef" is "abcdef" itself. */
  lemma AbcdefFullPath(w: string)
    requires HasPath(InsertAt(Empty, "abcdef", "abcdef"), w) && |w| == 6
    ensures w == "abcdef"
  {
    SingleStringPaths("abcdef", w);
  }

  /** No match when every same-length path that is one substitution away does not diverge there. */
  lemma NoMatchWhen(root: Node, val: string)
    requires forall w, k :: HasPath(root, w) && OneOffAt(w, val, k) ==> HasPath(root, val[..k + 1])
    ensures MatchSpec(root, val) == None
  {
    MatchMeaning(root, val);
  }

  /** Test: "abgdef" differs from "abcdef" in its third character only. */
  lemma MatchExampleMiddle()
    ensures MatchSpec(InsertAt(Empty, "abcdef", "abcdef"), "abgdef") == Some("abdef")
  {
    SingleStringPaths("abcdef", "abcdef");
    SingleStringPaths("abcdef", "abg");
    assert "abgdef"[..3] == "abg" && !("abg" <= "abcdef");
    assert OneOffAt("abcdef", "abgdef", 2);
    MatchFromDivergence(InsertAt(Empty, "abcdef", "abcdef"), "abgdef", "abcdef", 2);
    assert "abgdef"[..2] + "abgdef"[3..] == "abdef";
  }

  /** Test: "gbcdef" differs from "abcdef" in its first character only. */
  lemma MatchExampleStart()
    ensures MatchSpec(InsertAt(Empty, "abcdef", "abcdef"), "gbcdef") == Some("bcdef")
  {
    SingleStringPaths("abcdef", "abcdef");
    SingleStringPaths("abcdef", "g");
    assert "gbcdef"[..1] == "g" && !("g" <= "abcdef");
    assert OneOffAt("abcdef", "gbcdef", 0);
    MatchFromDivergence(InsertAt(Empty, "abcdef", "abcdef"), "gbcdef", "abcdef", 0);
    assert "gbcdef"[..0] + "gbcdef"[1..] == "bcdef";
  }

  /** Test: "abcdeg" differs from "abcdef" in its last character only. */
  lemma MatchExampleEnd()
    ensures MatchSpec(InsertAt(Empty, "abcdef", "abcdef"), "abcdeg") == Some("abcde")
  {
    SingleStringPaths("abcdef", "abcdef");
    SingleStringPaths("abcdef", "abcdeg");
    assert "abcdeg"[..6] == "abcdeg" && !("abcdeg" <= "abcdef");
    assert OneOffAt("abcdef", "abcdeg", 5);
    MatchFromDivergence(InsertAt(Empty, "abcdef", "abcdef"), "abcdeg", "abcdef", 5);
    assert "abcdeg"[..5] + "abcdeg"[6..] == "abcde";
  }

  /** Test: "hbgdef" differs from "abcdef" in two places, so nothing matches. */
  lemma MatchExampleTwoOff()
    ensures MatchSpec(InsertAt(Empty, "abcdef", "abcdef"), "hbgdef") == None
  {
    var t := InsertAt(Empty, "abcdef", "abcdef");
    var v := "hbgdef";
    forall w, k | HasPath(t, w) && |w| == |v| && 0 <= k < |v| ensures !OneOffAt(w, v, k) {
      AbcdefFullPath(w);
      if k == 0 {
        assert w[1..][1] != v[1..][1];
      } else {
        assert w[..k][0] != v[..k][0];
      }
    }
    NoMatchWhen(t, v);
  }

  /**
   * Success is judged by length alone: on the trie holding only "abcdef",
   * "xbc" matches (as "bc") because "abc" is a path, although no stored
   * string has three characters.
   */
  lemma MatchAcceptsUnstoredPath()
    ensures MatchSpec(InsertAt(Empty, "abcdef", "abcdef"), "xbc") == Some("bc")
    ensures forall w :: |w| == 3 ==> LeafAt(InsertAt(Empty, "abcdef", "abcdef"), w) == None
  {
    var t := InsertAt(Empty, "abcdef", "abcdef");
    SingleStringPaths("abcdef", "abc");
    SingleStringPaths("abcdef", "x");
    assert "abc" <= "abcdef";
    assert "xbc"[..1] == "x" && !("x" <= "abcdef");
    assert OneOffAt("abc", "xbc", 0);
    MatchFromDivergence(t, "xbc", "abc", 0);
    assert "xbc"[..0] + "xbc"[1..] == "bc";
    forall w | |w| == 3 ensures LeafAt(t, w) == None {
      SingleStringPaths("abcdef", w);
    }
  }

  /**
   * Phase 2 only skips the character where the query first leaves the trie.
   * With "abcd" and "xbzz" stored, "xbcd" differs from the stored "abcd" in
   * its first character only, yet the walk follows "xb" and the match fails.
   */
  lemma MatchOnlySkipsFirstDivergence()
    ensures LeafAt(InsertAt(InsertAt(Empty, "abcd", "abcd"), "xbzz", "xbzz"), "abcd") == Some("abcd")
    ensures OneOffAt("abcd", "xbcd", 0)
    ensures MatchSpec(InsertAt(InsertAt(Empty, "abcd", "abcd"), "xbzz", "xbzz"), "xbcd") == None
  {
    var t1 := InsertAt(Empty, "abcd", "abcd");
    var t := InsertAt(t1, "xbzz", "xbzz");
    SingleStringPaths("abcd", "abcd");
    LookupInsert(t1, "xbzz", "xbzz", "abcd");
    assert !("abcd" <= "xbzz");
    var v := "xbcd";
    forall w, k | HasPath(t, w) && |w| == |v| && 0 <= k < |v|
      ensures !OneOffAt(w, v, k) || HasPath(t, v[..k + 1])
    {
      LookupInsert(t1, "xbzz", "xbzz", w);
      SingleStringPaths("abcd", w);
      if w <= "xbzz" {
        assert w == "xbzz";
        if k < 3 {
          assert w[k + 1..][2 - k] != v[k + 1..][2 - k];
        } else {
          assert w[..k][2] != v[..k][2];
        }
      } else {
        assert w == "abcd";
        if k == 0 {
          LookupInsert(t1, "xbzz", "xbzz", "x");
          assert v[..1] == "x" && "x" <= "xbzz";
        } else {
          assert w[..k][0] != v[..k][0];
        }
      }
    }
    NoMatchWhen(t, v);
  }

  // ---------------------------------------------------------------------------
  // The trie object

  class Trie {
    var root: Node
    /** The strings inserted so far. */
    ghost var words: set<string>

    ghost predicate Valid()
      reads this
    {
      WellFormed(root, words)
    }

    /** `Trie::new`: a root with no children and no marker. */
    constructor ()
      ensures Valid() && root == Empty && words == {}
    {
      root := Empty;
      words := {};
      EmptyWellFormed();
    }

    /**
     * `insert`: walks down `val`, creating missing children, and marks the
     * final node with `val`. Nodes are values here, so the walk keeps the
     * nodes it passes (`spine`) and the updated nodes are put back from the
     * bottom up.
     */
    method Insert(val: string)
      requires Valid()
      modifies this
      ensures Valid()
      ensures root == InsertAt(old(root), val, val)
      ensures words == old(words) + {val}
    {
      var spine: seq<Node> := [];
      var cur := root;
      var i := 0;
      while i < |val|
        invariant 0 <= i <= |val| && |spine| == i
        invariant i > 0 ==> spine[0] == root
        invariant i == 0 ==> cur == root
        invariant forall k :: 0 <= k < i - 1 ==> spine[k + 1] == Child(spine[k], val[k])
        invariant i > 0 ==> cur == Child(spine[i - 1], val[i - 1])
      {
        spine := spine + [cur];
        cur := Child(cur, val[i]);
        i := i + 1;
      }
      ghost var bottom := cur;
      cur := cur.(leaf := Some(val));
      var j := |val|;
      while j > 0
        invariant 0 <= j <= |val|
        invariant cur == InsertAt(if j < |val| then spine[j] else bottom, val[j..], val)
      {
        j := j - 1;
        assert val[j..][0] == val[j] && val[j..][1..] == val[j + 1..];
        cur := spine[j].(children := spine[j].children[val[j] := cur]);
      }
      InsertWellFormed(root, words, val);
      root := cur;
      words := words + {val};
    }

    /**
     * `contains`: the node reached by walking `val` from the root, or `None`
     * at the first missing edge. Under the trie invariant a node is found
     * exactly for the empty string and the prefixes of stored strings.
     */
    method Contains(val: string) returns (r: Option<Node>)
      requires Valid()
      ensures r == Lookup(root, val)
      ensures r.Some? <==> val == [] || exists w :: w in words && val <= w
      ensures r.Some? ==> r.value.leaf == if val in words then Some(val) else None
    {
      var cur := root;
      var i := 0;
      while i < |val|
        invariant 0 <= i <= |val|
        invariant Lookup(root, val) == Lookup(cur, val[i..])
      {
        assert val[i..][0] == val[i] && val[i..][1..] == val[i + 1..];
        if val[i] in cur.children {
          cur := cur.children[val[i]];
        } else {
          ContainsIffPrefixOfStored(root, words, val);
          return None;
        }
        i := i + 1;
      }
      ContainsIffPrefixOfStored(root, words, val);
      ContainsMarker(root, words, val);
      r := Some(cur);
    }

    /**
     * `match_off_by_one`. Phase 1 walks the longest prefix of `val` that is a
     * path; phase 2 tries every child of the node reached, in no particular
     * order, skipping one character of `val` and walking the rest. Lengths
     * are compared in bytes, as Rust's `len()` does, and the characters are
     * skipped by count, which agree for ASCII text. The empty query is only
     * safe on a root without children: otherwise `val.len() - 1` underflows.
     */
    method MatchOffByOne(val: string) returns (r: Option<string>)
      requires Valid()
      requires IsAscii(val)
      requires val != [] || root.children == map[]
      ensures r == MatchSpec(root, val)
      ensures r.Some? ==> |r.value| == |val| - 1
      ensures val in words ==> r == None
    {
      if val in words {
        assert LeafAt(root, val) == Some(val);
        MatchExactIsNone(root, val);
      }
      AsciiByteLen(val);
      var p, cur, prefix := FollowEdges(root, val, 0);
      assert IsAscii(prefix);
      AsciiByteLen(prefix);
      if val == [] {
        LookupEmpty(val);
      }
      r := TryChildren(cur, val, prefix);
    }
  }

  /**
   * Phase 2 of `match_off_by_one`: below each child of the node where phase 1
   * stopped, skip one character of `val` and walk the rest; succeed on the
   * first child whose walk has the length `val.len() - 1` together with
   * `prefix`.
   */
  method TryChildren(cur: Node, val: string, prefix: string) returns (r: Option<string>)
    requires IsAscii(val) && prefix <= val && ByteLen(prefix) == |prefix| && ByteLen(val) == |val|
    requires val != [] || cur.children == map[]
    ensures r == if |prefix| < |val| && SomeChildCompletes(cur, val, |prefix|)
                 then Some(val[..|prefix|] + val[|prefix| + 1..]) else None
  {
    var p := |prefix|;
    var keys := cur.children.Keys;
    while keys != {}
      invariant keys <= cur.children.Keys
      invariant forall c :: c in cur.children.Keys - keys ==>
        p == |val| || Walk(cur.children[c], val, p + 1).0 != |val|
      decreases keys
    {
      var c :| c in keys;
      keys := keys - {c};
      var q, _, suffix := FollowEdges(cur.children[c], val, ByteLen(prefix) + 1);
      assert IsAscii(suffix);
      AsciiByteLen(suffix);
      if ByteLen(prefix) + ByteLen(suffix) == ByteLen(val) - 1 {
        assert p < |val| && q == |val| && suffix == val[p + 1..];
        assert SomeChildCompletes(cur, val, p);
        assert prefix == val[..p];
        r := Some(prefix + suffix);
        return;
      }
    }
    r := None;
  }

  /**
   * The cursor loop both phases of `match_off_by_one` run: from `n`, follow
   * the characters of `val` from index `start` while an edge exists, and
   * collect the characters followed. A start past the end walks nothing.
   */
  method FollowEdges(n: Node, val: string, start: nat) returns (stop: nat, node: Node, walked: string)
    ensures start <= |val| ==> (stop, node) == Walk(n, val, start) && walked == val[start..stop]
    ensures start > |val| ==> walked == []
  {
    stop, node, walked := start, n, [];
    if start > |val| {
      return;
    }
    while stop < |val|
      invariant start <= stop <= |val| && walked == val[start..stop]
      invariant Walk(node, val, stop) == Walk(n, val, start)
    {
      var c := val[stop];
      if c in node.children {
        node := node.children[c];
        walked := walked + [c];
        stop := stop + 1;
      } else {
        break;
      }
    }
  }
}
