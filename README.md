# Advent of Code 2018 (days one to five) and the character trie, in Dafny

This project models the character trie of the `trie` crate and the puzzle
drivers of days one to five. Each driver runs over input that has already
been parsed. The model proves what each of them computes.

- `trie.dfy`, module `PrefixTrie`: the trie.
  - A `Node` is a value. It has a map of children keyed by edge character, and `leaf`, the string that ends at the node.
  - The class `Trie` owns the root and is updated in place by `Insert`.
  - `Contains` walks the trie and returns the node at the end of the query.
  - `MatchOffByOne` runs the two-phase search "differs in exactly one position".
  - Each method is proved equal to a specification function (`InsertAt`, `Lookup`, `MatchSpec`). Lemmas then give those functions their meaning.
- `day_one.dfy`, module `Frequencies`: the cyclic running sum. It yields the total after one pass and the first total that repeats.
- `day_two.dfy`, module `BoxIds`:
  - the double/triple letter checksum;
  - the search for two box IDs that differ in one position, driven through the trie with match-before-insert.
- `day_three.dfy`, module `FabricClaims`:
  - the cell-marking loop over fabric claims;
  - the count of shared cells;
  - the set of claims that share no cell.
- `day_four.dfy`, module `GuardRecords`:
  - the timestamp ordering of guard entries;
  - the action-phrase parser;
  - the sleep tally over the sorted entries.
- `day_five.dfy`, module `Polymer`:
  - the stack-based polymer reaction;
  - the per-letter filtered re-reaction that picks the best letter to remove.
- `options.dfy`, module `Options`: the `Option` datatype.

How `match_off_by_one` behaves as written (trie/src/lib.rs:162-202), all proved in `PrefixTrie`:

- Phase 1 follows `val` down the trie as far as it goes. Phase 2 tries each child of the node where it stopped, skips one character of `val`, and follows the rest.
- Success is decided by the length test at line 197 alone. The node reached does not have to be a leaf.
- The result is therefore `val` with its character at `k` removed, where `k` is where `val` first leaves the trie. This holds exactly when some path of the trie differs from `val` at `k` only (`MatchMeaning`).
- A path is not necessarily a stored string. With only `"abcdef"` stored, `"xbc"` matches and gives `"bc"` (`MatchAcceptsUnstoredPath`). When all stored strings have the length of the query, a match is a true one-substitution neighbour (`MatchSoundForEqualLengths`).
- Only the first divergence is tried. With `"abcd"` and `"xbzz"` stored, `"xbcd"` finds no match, although it is one substitution away from `"abcd"` (`MatchOnlySkipsFirstDivergence`).
- `val.len()` counts bytes and `.chars().skip(..)` counts characters. The model requires ASCII queries, where the two agree (`ByteLen`, `AsciiByteLen`).
- The empty string is not special-cased. `insert("")` marks the root, and `contains("")` returns the root.

## Model

| member | source | states |
|---|---|---|
| PrefixTrie.Trie.constructor | trie/src/lib.rs:36-44 | A new trie has an empty root and stores no string. |
| PrefixTrie.Trie.Insert | trie/src/lib.rs:60-70 | The new root is the old root with the missing nodes along `val` created and `leaf` set to `val` at its end; `val` joins the stored strings and the trie stays well formed. |
| PrefixTrie.Trie.Contains | trie/src/lib.rs:106-115 | Returns the node at the end of `val`'s path. It is `Some` exactly when `val` is empty or a prefix of a stored string, and its `leaf` is `Some(val)` exactly when `val` was inserted. |
| PrefixTrie.Trie.MatchOffByOne | trie/src/lib.rs:162-202 | Equals `MatchSpec` (first divergence, one skipped character, length-only success). A result has length `|val|-1`. A stored `val` gives `None`. |
| PrefixTrie.FollowEdges | trie/src/lib.rs:164-176 | The walk loop stops where `val` first has no edge. It returns that index, the node reached and the characters walked (the `prefix` / `suffix` string). |
| PrefixTrie.TryChildren | trie/src/lib.rs:181-201 | Phase 2 from the stop node: the result is `val` without its character at the stop index exactly when some child's walk of the rest of `val` reaches its end, and `None` otherwise, in any order of the children. |
| PrefixTrie.Walk | trie/src/lib.rs:164-176 | The walk ends between the start and `|s|`. |
| PrefixTrie.WalkStops | trie/src/lib.rs:164-176 | The walked slice leads to the node returned. Before the end of `s`, the next character has no edge there. |
| PrefixTrie.LookupInsert | trie/src/lib.rs:62-69 | After inserting along `r`, paths are the old paths plus the prefixes of `r`. Leaves change only at `r`. Lookups off `r`'s path are unchanged. |
| PrefixTrie.InsertMarkedUnchanged | trie/src/lib.rs:62-69 | Inserting a string whose end already holds it leaves the tree unchanged. |
| PrefixTrie.InsertIdempotent | trie/src/lib.rs:62-69 | Inserting the same string twice gives the same tree as inserting it once. |
| PrefixTrie.EmptyWellFormed | trie/src/lib.rs:36-44 | The empty trie holds exactly the empty set of strings. |
| PrefixTrie.InsertWellFormed | trie/src/lib.rs:60-70 | Insertion keeps every earlier string stored and adds `val`. |
| PrefixTrie.ContainsIffPrefixOfStored | trie/src/lib.rs:106-115 | A path exists exactly for the empty string and the prefixes of stored strings. |
| PrefixTrie.ContainsMarker | trie/src/lib.rs:72-78 | The node found has `leaf == Some(s)` for a stored `s`. For a prefix that was never inserted, `leaf` is `None`. |
| PrefixTrie.LookupEmpty | trie/src/lib.rs:108-114 | On the empty trie, only the empty string is found. |
| PrefixTrie.LookupAppend | trie/src/lib.rs:108-113 | Following `a + b` is following `a`, then `b` from the node reached. |
| PrefixTrie.PrefixOfPath | trie/src/lib.rs:108-113 | Every prefix of a path is a path. |
| PrefixTrie.AsciiByteLen | trie/src/lib.rs:183-197 | For ASCII text, the byte length `len()` equals the character count. |
| PrefixTrie.WalkFull | trie/src/lib.rs:164-176 | The walk reaches the end of `s` exactly when the rest of `s` is a path. |
| PrefixTrie.FirstDivergence | trie/src/lib.rs:164-176 | The walk stops exactly at the first index where `val` leaves the trie. |
| PrefixTrie.StopIsDivergence | trie/src/lib.rs:172-174 | Where the walk stops short, the prefix one longer is not a path. |
| PrefixTrie.PathThroughChild | trie/src/lib.rs:181-193 | A suffix followed from a child of the stop node is a path through that child. |
| PrefixTrie.MatchFromPath | trie/src/lib.rs:181-199 | A match comes from a path one substitution away from `val`, at its first divergence. |
| PrefixTrie.MatchFromDivergence | trie/src/lib.rs:181-199 | Such a path always gives a match, whichever order the children are visited in. |
| PrefixTrie.MatchMeaning | trie/src/lib.rs:162-202 | `MatchSpec` is `Some` if and only if a same-length path differs from `val` only at its first divergence. The result has length `|val|-1`. |
| PrefixTrie.MatchExactIsNone | trie/src/lib.rs:130 | A query that is itself a path (for example a stored string) gives `None`. |
| PrefixTrie.MatchEmptyTrieIsNone | trie/src/lib.rs:181 | An empty trie matches nothing, because the root has no children. |
| PrefixTrie.MatchSoundForEqualLengths | trie/src/lib.rs:118-128 | With all stored strings as long as `val`, a match is a stored string differing in exactly one position, with that position removed. |
| PrefixTrie.NoMatchWhen | trie/src/lib.rs:197-201 | Without a qualifying path, the result is `None`. |
| PrefixTrie.SingleStringPaths | trie/src/lib.rs:60-70 | A trie holding one string has exactly that string's prefixes as paths, and a leaf only at its end. |
| PrefixTrie.ContainsExamples | trie/src/lib.rs:211-251 | `"hello"` is found with its leaf. `"hello"` in `"hello world"` is found without a leaf. `"world"` is not found. |
| PrefixTrie.AbcdefFullPath | trie/src/lib.rs:253-293 | With `"abcdef"` stored, the only length-6 path is `"abcdef"`. |
| PrefixTrie.MatchExampleMiddle | trie/src/lib.rs:254-262 | `"abgdef"` against `"abcdef"` gives `"abdef"`. |
| PrefixTrie.MatchExampleTwoOff | trie/src/lib.rs:264-268 | `"hbgdef"` against `"abcdef"` gives `None`. |
| PrefixTrie.MatchExampleStart | trie/src/lib.rs:271-281 | `"gbcdef"` against `"abcdef"` gives `"bcdef"`. |
| PrefixTrie.MatchExampleEnd | trie/src/lib.rs:283-293 | `"abcdeg"` against `"abcdef"` gives `"abcde"`. |
| PrefixTrie.MatchAcceptsUnstoredPath | trie/src/lib.rs:197 | The length-only test accepts a path that is not a stored string: with `"abcdef"` stored, `"xbc"` gives `"bc"`. |
| PrefixTrie.MatchOnlySkipsFirstDivergence | trie/src/lib.rs:181-199 | Only the first divergence is skipped: `"xbcd"` misses the stored neighbour `"abcd"` when `"xbzz"` is also stored. |
| Frequencies.Calibrate | day-one/src/main.rs:11-36 | After the first pass, the first result is the sum of the deltas. A found final result is the total at the first step that repeats an earlier total. When none is found within the fuel bound, no step up to there repeats. |
| Frequencies.NoRepeatMeans | day-one/src/main.rs:25-28 | The step-by-step "no repeat yet" predicate means no step from 1 to `n` repeats a total. |
| Frequencies.SeenMeans | day-one/src/main.rs:16-21 | `frequencies` holds exactly the running totals before each step. |
| Frequencies.RepeatStep | day-one/src/main.rs:21-28 | With no earlier repeat, step `n` is the first repeat exactly when its total was seen before. |
| Frequencies.PassBoundary | day-one/src/main.rs:17-20 | Each pass starts a whole number of passes into the cycle. |
| Frequencies.PassesLengthIsProduct | day-one/src/main.rs:17-20 | `p` passes take `p * |deltas|` steps. |
| Frequencies.TotalWithinPass | day-one/src/main.rs:20-24 | Within a pass, the running total grows by the deltas applied so far. |
| Frequencies.TotalPeriodic | day-one/src/main.rs:17-24 | `p` further passes shift every running total by `p` times the sum of the deltas. |
| Frequencies.ZeroSumRepeatsInFirstPass | day-one/src/main.rs:21-28 | Deltas summing to zero repeat the starting total 0 at the end of the first pass, so the first repeat comes within the first pass. |
| Frequencies.FirstRepeatExists | day-one/src/main.rs:17-28 | A total that repeats at step `k` means there is a first repeat at some step from 1 to `k`, where the loop sets `final_result`. |
| BoxIds.CountLetters | day-two/src/main.rs:24-28 | The count map holds exactly the characters of the line, each with its number of occurrences. |
| BoxIds.FindDoubleTriple | day-two/src/main.rs:29-38 | `found_double` / `found_triple` hold exactly when some count is 2 / 3, in any iteration order. |
| BoxIds.LineFlags | day-two/src/main.rs:24-38 | A line is flagged double (triple) exactly when some character occurs exactly twice (three times). |
| BoxIds.Scan | day-two/src/main.rs:16-54 | The counts are the numbers of lines with a double / triple letter, and the checksum is their product. `maybe_match` is the first line's match against the trie of the earlier lines. |
| BoxIds.BuildWellFormed | day-two/src/main.rs:47-49 | The trie built by the loop stores exactly the lines inserted so far. |
| BoxIds.FirstMatchFinds | day-two/src/main.rs:47-51 | A found match is the match of some line with no earlier line matching. Without one, no line matches. |
| BoxIds.FirstMatchSoundForEqualLengths | day-two/src/main.rs:47-50 | For IDs of equal length, a found match is a line minus the one position where it differs from some earlier line. |
| FabricClaims.Survey | day-three/src/main.rs:17-51 | It states the following, with each cell's count 1 or 2. With distinct ids, a claim is in `perfect_claims` exactly when no other claim covers any of its cells. (1) `fabric_map` holds exactly the covered cells. (2) A cell has count 2 exactly when two claims cover it. (3) Its owner is the last claim covering it. (4) `overlaps` is the number of count-2 cells. (5) Only read ids are kept. |
| FabricClaims.Initial | day-three/src/main.rs:17-19 | The empty `fabric_map`, zero `overlaps` and empty `perfect_claims` satisfy the invariant before any claim. |
| FabricClaims.MarkClaim | day-three/src/main.rs:33-50 | Reading one claim and marking all its rows keeps the invariant, now counting that claim as done. |
| FabricClaims.MarkRow | day-three/src/main.rs:35-49 | Marking one row of a claim's rectangle keeps the invariant, now counting that row as marked. |
| FabricClaims.RowDone | day-three/src/main.rs:35 | Reaching `x + width` ends the row: the invariant holds at the start of the next row. |
| FabricClaims.ClaimDone | day-three/src/main.rs:34 | Reaching `y + height` ends the claim: the invariant holds before the next claim. |
| FabricClaims.MarkCoverage | day-three/src/main.rs:36 | `entry(..).or_insert` puts the current cell in `fabric_map`, which stays the set of marked cells. |
| FabricClaims.FreshCells | day-three/src/main.rs:36-38 | A fresh cell with count 1 and the current claim as owner keeps every count and owner right. |
| FabricClaims.FreshPerfect | day-three/src/main.rs:36-38 | A fresh cell leaves `perfect_claims` unchanged and still right. |
| FabricClaims.SharedCells | day-three/src/main.rs:39-47 | A marked cell raised to count 2 with the current claim as owner keeps every count and owner right. |
| FabricClaims.SharedPerfect | day-three/src/main.rs:44-45 | Removing the old owner and the current claim from `perfect_claims` keeps it right. |
| FabricClaims.SharedAlone | day-three/src/main.rs:44-45 | With distinct ids, a read claim stays in `perfect_claims` after the two removals exactly when all its marked cells still have count 1. |
| FabricClaims.StartPerfect | day-three/src/main.rs:33 | Inserting the new claim's id keeps `perfect_claims` right before the claim marks any cell. |
| FabricClaims.MarkCell | day-three/src/main.rs:36-48 | A fresh cell gets count 1 and the current claim as owner. A marked cell gets count 2 and the current claim as owner, `overlaps` grows when its count was 1, and both its old owner and the claim leave `perfect_claims`. The loop invariant is kept. |
| FabricClaims.MarkFresh | day-three/src/main.rs:36-38 | The first claim to reach a cell keeps every invariant with count 1. |
| FabricClaims.MarkShared | day-three/src/main.rs:39-47 | A later claim reaching a marked cell keeps every invariant with the updated counts, `overlaps` and `perfect_claims`. |
| FabricClaims.SharedCount | day-three/src/main.rs:40-43 | Raising a cell to count 2 adds it to the shared cells exactly when its count was 1. |
| FabricClaims.StartClaim | day-three/src/main.rs:33 | Putting the new claim's id in `perfect_claims` keeps the invariant before its cells are marked. |
| FabricClaims.Finish | day-three/src/main.rs:33-50 | After all claims, the invariant gives the coverage, count, owner and perfect-claim meaning of the final state. |
| FabricClaims.AloneMeans | day-three/src/main.rs:44-45 | At the end, a claim all of whose cells have count 1 is one that shares no cell with another claim. |
| FabricClaims.OverlapExample | day-three/src/main.rs:33-48 | Surveying claims `1 @ 1,3: 4x4`, `2 @ 3,1: 4x4` and `3 @ 5,5: 2x2` gives cell (3, 3) the count 2, and leaves only `"3"` in `perfect_claims`. |
| GuardRecords.Eq | day-four/src/main.rs:49-56 | `eq` holds exactly when the two timestamps (year, month, day, hour, minute) are equal; guard and action are ignored. |
| GuardRecords.Cmp | day-four/src/main.rs:60-78 | `cmp` is `Equal` exactly when `eq` holds, and `Less` exactly when the timestamp is lexicographically smaller, field by field from the year. |
| GuardRecords.CmpInt | day-four/src/main.rs:61 | Integer `cmp` is `Less` / `Equal` exactly when `<` / `==`. |
| GuardRecords.CmpIsLexicographic | day-four/src/main.rs:60-78 | `cmp` orders entries lexicographically by (year, month, day, hour, minute), in all three outcomes. |
| GuardRecords.LexLessFields | day-four/src/main.rs:60-78 | Lexicographic order on the key spelled out field by field. |
| GuardRecords.CmpIgnoresGuardAndAction | day-four/src/main.rs:60-78 | Changing `guard` or `action` does not change `cmp`. |
| GuardRecords.EqIffCmpEqual | day-four/src/main.rs:49-78 | `eq` holds exactly when `cmp` is `Equal`, and `cmp` is antisymmetric. |
| GuardRecords.CmpLessTransitive | day-four/src/main.rs:60-78 | `Less` is transitive. |
| GuardRecords.ToAction | day-four/src/main.rs:86-97 | `Some` exactly for the three action phrases. |
| GuardRecords.ToActionRoundTrip | day-four/src/main.rs:86-97 | Each action's phrase parses back to it, and only that phrase does. |
| GuardRecords.TallyMinutes | day-four/src/main.rs:161-173 | `per_minute[m]` grows by one exactly on `[sleep, wake)`. The max guard's minute moves only for the max guard, to a strictly larger count. `max_minute` becomes the first strictly larger count. |
| GuardRecords.EmptySleep | day-four/src/main.rs:150-153 | A new record has total 0 and sixty zero minute counts. |
| GuardRecords.NoRecordNoSleep | day-four/src/main.rs:148-150 | A guard never tallied has total 0 and no minute counts. |
| GuardRecords.MinuteCountGrows | day-four/src/main.rs:161-162 | Minute counts never decrease along the entries. |
| GuardRecords.QuietStep | day-four/src/main.rs:144-148 | An entry that is not a Sleep→Wake pair changes no record and no maximum. |
| GuardRecords.RecordsStep | day-four/src/main.rs:149-162 | A pair updates the active guard's record to its new total and minute counts. |
| GuardRecords.RecordBefore | day-four/src/main.rs:150-153 | The record found or inserted by `or_insert` holds the guard's totals so far. |
| GuardRecords.MaxGuardStep | day-four/src/main.rs:154-159 | The max-guard update keeps `max_guard.1` the largest total so far, first reached by `max_guard.0`. |
| GuardRecords.MaxMinuteStep | day-four/src/main.rs:168-172 | The max-minute update keeps `max_minute` the first largest minute count so far. |
| GuardRecords.RecordPair | day-four/src/main.rs:149-173 | One Sleep→Wake pair keeps the records and both maximum invariants. |
| GuardRecords.Tally | day-four/src/main.rs:135-178 | Records exist exactly for guards that slept, with their totals and per-minute counts. `max_guard.1` is the largest total ever reached, first by `max_guard.0`. `max_minute` is the first largest minute count, with its minute and guard. |
| Polymer.Abs | day-five/src/main.rs:41 | `abs` returns `x` or `-x`, and never a negative value. |
| Polymer.ReduceShape | day-five/src/main.rs:21-50 | The reduced polymer is no longer than the input and differs from it by an even number. No two adjacent units react. Every unit comes from the input. |
| Polymer.ReduceSnoc | day-five/src/main.rs:21-50 | Reacting one more unit is one more step of the stack: push it, or pop a top that reacts with it. |
| Polymer.Activate | day-five/src/main.rs:17-50 | The stack loop computes `Reduce` of the polymer. |
| Polymer.FilterMeans | day-five/src/main.rs:63-67 | Keeps exactly the units that are neither `c` nor `c - 32`. |
| Polymer.FilterSnoc | day-five/src/main.rs:63-67 | One more unit is kept, in order at the end, exactly when it is neither `c` nor `c - 32`. |
| Polymer.Reactivate | day-five/src/main.rs:60-82 | The filtered loop computes `Reduce` of the polymer without `c` and its capital. |
| Polymer.Letter | day-five/src/main.rs:58-59 | The loop's letters are `'a'..'z'`. |
| Polymer.BestRemoval | day-five/src/main.rs:56-89 | `min_length` is at most the activated length and every letter's filtered length. `min_char` stays `'\0'` exactly when no letter strictly shortens the polymer; otherwise it is the earliest letter reaching the minimum. |
| Polymer.FilteredNeverKeeps | day-five/src/main.rs:63-67 | The filtered pass never keeps `c` or `c - 32`. |
| Polymer.StableIsFixed | day-five/src/main.rs:36-49 | A polymer with no reacting neighbours is left unchanged. |
| Polymer.ReduceIdempotent | day-five/src/main.rs:36-49 | Reducing twice is reducing once. |
| Polymer.ReduceIsSubsequence | day-five/src/main.rs:21-50 | The result is an order-preserving subsequence of the input. |
| Polymer.ReactsToExtend | day-five/src/main.rs:47-49 | Appending an unreacting unit to both sides keeps a reaction sequence valid. |
| Polymer.ReduceReachable | day-five/src/main.rs:21-50 | The result is reached from the input by removing adjacent reacting pairs, one pair per two units lost. |
| Polymer.ArrivalReacts | day-five/src/main.rs:36-49 | One stack step on an arriving unit extends a sequence of pair removals by at most one removal. |

## Left out

- Reading input files, command-line arguments, `read_line` and `println!`. Every driver takes its parsed input as a parameter, and its printed values are returned.
- Regular-expression parsing of claims (day three) and guard entries (day four). Claims and entries are already-parsed records.
- `sort_unstable` in day four. `GuardRecords.Tally` takes the entries in the order given. The ordering it would sort by is modelled by `Cmp`.
- `HashMap`/`HashSet` iteration order. Maps and sets are Dafny maps and sets, and every result is proved for any order of the children or keys.
- day-six, which is unfinished.
- The character `val` stored in each Rust `TrieNode`. It always equals the node's edge label.
- PrefixTrie.Trie.Insert: modelled on values. The root is rebuilt along the path, so the `&mut` cursor and its aliasing are not modelled.
- PrefixTrie.Trie.MatchOffByOne: requires an ASCII query, where byte length equals character count. It also requires a non-empty query when the root has children, because `val.len() - 1` underflows `usize` there.
- BoxIds.Scan: requires every line to be non-empty and ASCII. This is wider than the source needs. The source underflows only on an empty line matched against a trie with children, and only while `maybe_match` is still `None`. ASCII matters only to the match, where byte length and character count must agree. The checksum part needs neither.
- Frequencies.Calibrate: runs at most `fuel` passes. The source loops forever when no total repeats (for example on empty input). `i32` overflow of the running total is not modelled.
- Polymer.Activate: requires units in `0..128`, so the `u8` to `i8` cast and the `i8` subtraction neither change nor wrap a value.
- Polymer.Reactivate: requires the same ASCII units and a letter `'a'..'z'`.
- Polymer.BestRemoval: requires the same ASCII units.
- GuardRecords.Tally: requires, for each Sleep→Wake pair that spans some minutes, that `prev.minute..entry.minute` lies within `0..60` (`PairsInHour`). Those are exactly the indices the source reads from `per_minute`. A range outside the hour makes the source panic on the index.
- GuardRecords.Tally: `max_guard.2` is only bounded to `0..60`. The source never resets it when the max guard changes, so it is not in general that guard's most frequent minute. `i32` overflow of totals is not modelled.
- FabricClaims.Survey: the exact meaning of `perfect_claims` is stated only for distinct claim ids. With repeated ids, only "every kept id was read" is stated. `usize` overflow of `x + width` is not modelled.
- Integer widths: all integers are unbounded.
