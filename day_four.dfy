/**
 * The guard records of day-four/src/main.rs, over already-parsed entries:
 * the timestamp ordering of `GuardEntry`, the parser of action phrases, and
 * the sleep tally that runs over the sorted entries.
 */
module GuardRecords {
  import opened Options

  datatype Action = Start | Sleep | Wake

  /** One log line: its timestamp, the guard id (only on `Start` lines) and its action. */
  datatype GuardEntry = GuardEntry(year: int, month: int, day: int, hour: int, minute: int, guard: string, action: Action)

  /** `GuardEntry::new()`, the `prev` entry before the first one is read. */
  const NewEntry: GuardEntry := GuardEntry(0, 0, 0, 0, 0, "", Start)

  /** Sleep record of one guard: the total minutes asleep and a count for each of the 60 minutes. */
  datatype SleepTime = SleepTime(total: int, perMinute: seq<int>)

  datatype Ordering = Less | Equal | Greater

  /** Rust's `Ord::cmp` on integers. */
  function CmpInt(a: int, b: int): (o: Ordering)
    ensures o == Less <==> a < b
    ensures o == Equal <==> a == b
  {
    if a < b then Less else if a == b then Equal else Greater
  }

  /** `cmp`: year first, then month, day, hour and minute; the first field that differs decides. */
  function Cmp(a: GuardEntry, b: GuardEntry): (o: Ordering)
    ensures o == Equal <==> Eq(a, b)
    ensures o == Less <==>
      a.year < b.year || (a.year == b.year &&
      (a.month < b.month || (a.month == b.month &&
      (a.day < b.day || (a.day == b.day &&
      (a.hour < b.hour || (a.hour == b.hour && a.minute < b.minute)))))))
  {
    var yearOrder := CmpInt(a.year, b.year);
    if yearOrder != Equal then yearOrder
    else
      var monthOrder := CmpInt(a.month, b.month);
      if monthOrder != Equal then monthOrder
      else
        var dayOrder := CmpInt(a.day, b.day);
        if dayOrder != Equal then dayOrder
        else
          var hourOrder := CmpInt(a.hour, b.hour);
          if hourOrder != Equal then hourOrder
          else CmpInt(a.minute, b.minute)
  }

  /** `eq`: the five timestamp fields agree. */
  predicate Eq(a: GuardEntry, b: GuardEntry): (r: bool)
    ensures r <==> Key(a) == Key(b)
  {
    a.year == b.year && a.month == b.month && a.day == b.day && a.hour == b.hour && a.minute == b.minute
  }

  /** The timestamp of an entry as a sequence of its fields, most significant first. */
  function Key(e: GuardEntry): seq<int>
  {
    [e.year, e.month, e.day, e.hour, e.minute]
  }

  /** Strict lexicographic order on integer sequences of equal length. */
  predicate LexLess(a: seq<int>, b: seq<int>)
    requires |a| == |b|
  {
    |a| > 0 && (a[0] < b[0] || (a[0] == b[0] && LexLess(a[1..], b[1..])))
  }

  /** `cmp` is the lexicographic order on (year, month, day, hour, minute). */
  lemma CmpIsLexicographic(a: GuardEntry, b: GuardEntry)
    ensures Cmp(a, b) == Less <==> LexLess(Key(a), Key(b))
    ensures Cmp(a, b) == Equal <==> Key(a) == Key(b)
    ensures Cmp(a, b) == Greater <==> LexLess(Key(b), Key(a))
  {
    LexLessFields(a, b);
    LexLessFields(b, a);
    if Key(a) == Key(b) {
      assert Key(a)[0] == Key(b)[0] && Key(a)[1] == Key(b)[1] && Key(a)[2] == Key(b)[2];
      assert Key(a)[3] == Key(b)[3] && Key(a)[4] == Key(b)[4];
    }
  }

  /** `LexLess` on two keys, field by field. */
  lemma LexLessFields(a: GuardEntry, b: GuardEntry)
    ensures LexLess(Key(a), Key(b)) <==>
      (a.year < b.year || (a.year == b.year &&
      (a.month < b.month || (a.month == b.month &&
      (a.day < b.day || (a.day == b.day &&
      (a.hour < b.hour || (a.hour == b.hour && a.minute < b.minute))))))))
  {
    var ka, kb := Key(a), Key(b);
    assert ka[1..] == [a.month, a.day, a.hour, a.minute] && kb[1..] == [b.month, b.day, b.hour, b.minute];
    assert ka[1..][1..] == [a.day, a.hour, a.minute] && kb[1..][1..] == [b.day, b.hour, b.minute];
    assert ka[1..][1..][1..] == [a.hour, a.minute] && kb[1..][1..][1..] == [b.hour, b.minute];
    assert ka[1..][1..][1..][1..] == [a.minute] && kb[1..][1..][1..][1..] == [b.minute];
    assert ka[1..][1..][1..][1..][1..] == [] && kb[1..][1..][1..][1..][1..] == [];
    assert LexLess([a.minute], [b.minute]) <==> a.minute < b.minute;
    assert LexLess([a.hour, a.minute], [b.hour, b.minute]) <==> a.hour < b.hour || (a.hour == b.hour && a.minute < b.minute);
    assert LexLess([a.day, a.hour, a.minute], [b.day, b.hour, b.minute]) <==>
      a.day < b.day || (a.day == b.day && LexLess([a.hour, a.minute], [b.hour, b.minute]));
    assert LexLess([a.month, a.day, a.hour, a.minute], [b.month, b.day, b.hour, b.minute]) <==>
      a.month < b.month || (a.month == b.month && LexLess([a.day, a.hour, a.minute], [b.day, b.hour, b.minute]));
  }

  /** `cmp` looks only at the timestamp: the guard id and the action play no part. */
  lemma CmpIgnoresGuardAndAction(a: GuardEntry, b: GuardEntry, g: string, x: Action)
    ensures Cmp(a.(guard := g, action := x), b) == Cmp(a, b)
    ensures Cmp(a, b.(guard := g, action := x)) == Cmp(a, b)
  {
  }

  /** `eq` holds exactly when `cmp` answers `Equal`, and `cmp` is antisymmetric. */
  lemma EqIffCmpEqual(a: GuardEntry, b: GuardEntry)
    ensures Eq(a, b) <==> Cmp(a, b) == Equal
    ensures Cmp(a, b) == Less <==> Cmp(b, a) == Greater
  {
  }

  /** `cmp`'s `Less` is transitive, so it orders the entries for the sort. */
  lemma CmpLessTransitive(a: GuardEntry, b: GuardEntry, c: GuardEntry)
    requires Cmp(a, b) == Less && Cmp(b, c) == Less
    ensures Cmp(a, c) == Less
  {
  }

  /** `to_action`: the three action phrases of the log, and `None` for any other text. */
  function ToAction(action: string): (r: Option<Action>)
    ensures r.Some? <==> action in {"begins shift", "falls asleep", "wakes up"}
  {
    if action == "begins shift" then Some(Start)
    else if action == "falls asleep" then Some(Sleep)
    else if action == "wakes up" then Some(Wake)
    else None
  }

  /** The phrase the log writes for each action. */
  function ActionText(a: Action): string
  {
    match a
    case Start => "begins shift"
    case Sleep => "falls asleep"
    case Wake => "wakes up"
  }

  /** `to_action` reads back the phrase of every action, and only that phrase. */
  lemma ToActionRoundTrip(a: Action, s: string)
    ensures ToAction(ActionText(a)) == Some(a)
    ensures ToAction(s) == Some(a) ==> s == ActionText(a)
  {
  }

  // The tally loop, specified over the first `n` entries.

  /** The active guard once the first `n` entries are read: the id of the last `Start` among them. */
  function Active(entries: seq<GuardEntry>, n: nat): string
    requires n <= |entries|
  {
    if n == 0 then ""
    else if entries[n - 1].action == Start then entries[n - 1].guard
    else Active(entries, n - 1)
  }

  /** Entry `i` is a `Wake` right after a `Sleep`: the only entries that add sleep. */
  predicate IsPair(entries: seq<GuardEntry>, i: nat)
    requires i < |entries|
  {
    i >= 1 && entries[i - 1].action == Sleep && entries[i].action == Wake
  }

  /** Entry `i` adds sleep for guard `g`. */
  predicate SleepFor(entries: seq<GuardEntry>, i: nat, g: string)
    requires i < |entries|
  {
    IsPair(entries, i) && Active(entries, i) == g
  }

  /** Guard `g` has a sleep record after `n` entries. */
  predicate Slept(entries: seq<GuardEntry>, n: nat, g: string)
    requires n <= |entries|
  {
    n > 0 && (Slept(entries, n - 1, g) || SleepFor(entries, n - 1, g))
  }

  /** The minutes guard `g` slept over the first `n` entries. */
  function TotalUpTo(entries: seq<GuardEntry>, n: nat, g: string): int
    requires n <= |entries|
  {
    if n == 0 then 0
    else (TotalUpTo(entries, n - 1, g) +
          (if SleepFor(entries, n - 1, g) then entries[n - 1].minute - entries[n - 2].minute else 0))
  }

  /** How often guard `g` was asleep during minute `m`, over the first `n` entries. */
  function MinuteCount(entries: seq<GuardEntry>, n: nat, g: string, m: int): nat
    requires n <= |entries|
  {
    if n == 0 then 0
    else (MinuteCount(entries, n - 1, g, m) +
          (if SleepFor(entries, n - 1, g) && entries[n - 2].minute <= m < entries[n - 1].minute then 1 else 0))
  }

  /**
   * Every minute the tally indexes `per_minute` with lies in `0..60`: for each
   * Sleep-to-Wake pair that spans some minutes, the range `prev.minute..entry.minute`
   * lies within the hour.
   */
  predicate PairsInHour(entries: seq<GuardEntry>)
  {
    forall i :: 0 <= i < |entries| && IsPair(entries, i) && entries[i - 1].minute < entries[i].minute ==>
      0 <= entries[i - 1].minute && entries[i].minute <= 60
  }

  /** A guard without a sleep record has slept no minute. */
  lemma {:induction false} NoRecordNoSleep(entries: seq<GuardEntry>, n: nat, g: string, m: int)
    requires n <= |entries| && !Slept(entries, n, g)
    ensures TotalUpTo(entries, n, g) == 0 && MinuteCount(entries, n, g, m) == 0
  {
    if n > 0 {
      NoRecordNoSleep(entries, n - 1, g, m);
    }
  }

  /** Minute counts grow by one exactly over the new pair's minutes, for its guard only. */
  lemma MinuteCountStep(entries: seq<GuardEntry>, k: nat, g: string, m: int)
    requires k < |entries|
    ensures MinuteCount(entries, k + 1, g, m) == MinuteCount(entries, k, g, m) +
      (if SleepFor(entries, k, g) && entries[k - 1].minute <= m < entries[k].minute then 1 else 0)
  {
  }

  /** Counts only grow as entries are read. */
  lemma {:induction false} MinuteCountGrows(entries: seq<GuardEntry>, n: nat, n': nat, g: string, m: int)
    requires n <= n' <= |entries|
    ensures MinuteCount(entries, n, g, m) <= MinuteCount(entries, n', g, m)
    decreases n' - n
  {
    if n < n' {
      MinuteCountGrows(entries, n, n' - 1, g, m);
    }
  }

  /**
   * The inner loop over `prev.minute..entry.minute` for the active guard: each
   * of those minutes is counted once more, `max_guard.2` moves to a minute whose
   * count now strictly exceeds its own (only when the active guard is the max
   * guard), and `max_minute` moves to a minute whose count strictly exceeds it.
   */
  method TallyMinutes(perMinute: seq<int>, from: int, to: int, active: string, maxGuardId: string, guardMinute: int,
                      maxMinute: (int, int, string))
    returns (counts: seq<int>, newGuardMinute: int, newMaxMinute: (int, int, string))
    requires |perMinute| == 60 && 0 <= guardMinute < 60
    requires from < to ==> 0 <= from && to <= 60
    ensures |counts| == 60
    ensures forall m :: 0 <= m < 60 ==> counts[m] == perMinute[m] + (if from <= m < to then 1 else 0)
    ensures 0 <= newGuardMinute < 60
    ensures active != maxGuardId ==> newGuardMinute == guardMinute
    ensures newGuardMinute != guardMinute ==> from <= newGuardMinute < to && counts[newGuardMinute] > perMinute[guardMinute]
    ensures newMaxMinute.1 >= maxMinute.1
    ensures forall m :: from <= m < to ==> counts[m] <= newMaxMinute.1
    ensures newMaxMinute == maxMinute ||
      (newMaxMinute.1 > maxMinute.1 && newMaxMinute.2 == active && from <= newMaxMinute.0 < to &&
       counts[newMaxMinute.0] == newMaxMinute.1 && forall m :: from <= m < newMaxMinute.0 ==> counts[m] < newMaxMinute.1)
  {
    counts := perMinute;
    newGuardMinute := guardMinute;
    newMaxMinute := maxMinute;
    var min := from;
    while min < to
      invariant min == from || (0 <= from < min <= to <= 60)
      invariant |counts| == 60
      invariant forall m :: 0 <= m < 60 ==> counts[m] == perMinute[m] + (if from <= m < min then 1 else 0)
      invariant 0 <= newGuardMinute < 60
      invariant active != maxGuardId ==> newGuardMinute == guardMinute
      invariant newGuardMinute != guardMinute ==> from <= newGuardMinute < min && counts[newGuardMinute] > perMinute[guardMinute]
      invariant newMaxMinute.1 >= maxMinute.1
      invariant forall m :: from <= m < min ==> counts[m] <= newMaxMinute.1
      invariant newMaxMinute == maxMinute ||
        (newMaxMinute.1 > maxMinute.1 && newMaxMinute.2 == active && from <= newMaxMinute.0 < min &&
         counts[newMaxMinute.0] == newMaxMinute.1 && forall m :: from <= m < newMaxMinute.0 ==> counts[m] < newMaxMinute.1)
      decreases if to > min then to - min else 0
    {
      counts := counts[min := counts[min] + 1];
      if counts[min] > counts[newGuardMinute] && active == maxGuardId {
        newGuardMinute := min;
      }
      if counts[min] > newMaxMinute.1 {
        newMaxMinute := (min, counts[min], active);
      }
      min := min + 1;
    }
  }

  /** A fresh record, as `or_insert` creates it. */
  function EmptySleep(): (st: SleepTime)
    ensures st.total == 0 && |st.perMinute| == 60 && forall m :: 0 <= m < 60 ==> st.perMinute[m] == 0
  {
    SleepTime(0, seq(60, _ => 0))
  }

  /** `sleep_totals` holds a record for exactly the guards that slept, with their totals and counts. */
  ghost predicate RecordsMatch(entries: seq<GuardEntry>, k: nat, sleepTotals: map<string, SleepTime>)
    requires k <= |entries|
  {
    (forall g :: g in sleepTotals <==> Slept(entries, k, g)) &&
    (forall g :: g in sleepTotals ==>
      |sleepTotals[g].perMinute| == 60 && sleepTotals[g].total == TotalUpTo(entries, k, g)) &&
    (forall g, m :: g in sleepTotals && 0 <= m < 60 ==>
      sleepTotals[g].perMinute[m] == MinuteCount(entries, k, g, m))
  }

  /**
   * `max_guard.1` is the largest total any guard has had so far (at least 0),
   * first reached by guard `max_guard.0` after `guardAt` entries.
   */
  ghost predicate MaxGuardFacts(entries: seq<GuardEntry>, k: nat, maxGuard: (string, int, int), guardAt: nat)
    requires k <= |entries|
  {
    (forall n, g :: 0 <= n <= k ==> TotalUpTo(entries, n, g) <= maxGuard.1) &&
    0 <= maxGuard.1 && (maxGuard.1 == 0 ==> maxGuard.0 == "") &&
    (maxGuard.1 > 0 ==> (0 < guardAt <= k && TotalUpTo(entries, guardAt, maxGuard.0) == maxGuard.1 &&
      forall n', g :: 0 <= n' < guardAt ==> TotalUpTo(entries, n', g) < maxGuard.1)) &&
    0 <= maxGuard.2 < 60
  }

  /**
   * `max_minute.1` is the largest count so far, reached by guard `max_minute.2`
   * at minute `max_minute.0`; no count reached it before entry `minuteAt`, and
   * within that entry no earlier minute did.
   */
  ghost predicate MaxMinuteFacts(entries: seq<GuardEntry>, k: nat, maxMinute: (int, int, string), minuteAt: nat)
    requires k <= |entries|
  {
    (forall g, m :: 0 <= m < 60 ==> MinuteCount(entries, k, g, m) <= maxMinute.1) &&
    (maxMinute.1 == 0 ==> maxMinute == (0, 0, "")) &&
    (maxMinute.1 > 0 ==> (0 <= maxMinute.0 < 60 && MinuteCount(entries, k, maxMinute.2, maxMinute.0) == maxMinute.1)) &&
    (maxMinute.1 > 0 ==> FirstToReach(entries, minuteAt, maxMinute))
  }

  /** Entry `n` is the first at which some count reaches `maxMinute.1`, and it is the earliest such minute there. */
  ghost predicate FirstToReach(entries: seq<GuardEntry>, n: nat, maxMinute: (int, int, string))
  {
    0 < n <= |entries| && MinuteCount(entries, n, maxMinute.2, maxMinute.0) == maxMinute.1 &&
    (forall n', g, m :: 0 <= n' < n && 0 <= m < 60 ==> MinuteCount(entries, n', g, m) < maxMinute.1) &&
    (forall g, m :: 0 <= m < 60 && MinuteCount(entries, n, g, m) >= maxMinute.1 ==> g == maxMinute.2 && maxMinute.0 <= m)
  }

  /** An entry that is not a Sleep-to-Wake pair changes no total and no count. */
  lemma QuietStep(entries: seq<GuardEntry>, k: nat, sleepTotals: map<string, SleepTime>,
                  maxGuard: (string, int, int), guardAt: nat, maxMinute: (int, int, string), minuteAt: nat)
    requires k < |entries| && !IsPair(entries, k)
    requires RecordsMatch(entries, k, sleepTotals)
    requires MaxGuardFacts(entries, k, maxGuard, guardAt)
    requires MaxMinuteFacts(entries, k, maxMinute, minuteAt)
    ensures RecordsMatch(entries, k + 1, sleepTotals)
    ensures MaxGuardFacts(entries, k + 1, maxGuard, guardAt)
    ensures MaxMinuteFacts(entries, k + 1, maxMinute, minuteAt)
  {
    var next := k + 1;
    forall g, m
      ensures MinuteCount(entries, next, g, m) == MinuteCount(entries, k, g, m)
      ensures TotalUpTo(entries, next, g) == TotalUpTo(entries, k, g)
      ensures Slept(entries, next, g) == Slept(entries, k, g)
    {
      MinuteCountStep(entries, k, g, m);
    }
  }

  /** A Sleep-to-Wake pair changes the record of the active guard only. */
  lemma RecordsStep(entries: seq<GuardEntry>, k: nat, sleepTotals: map<string, SleepTime>, active: string, counts: seq<int>)
    requires k < |entries| && IsPair(entries, k) && active == Active(entries, k)
    requires RecordsMatch(entries, k, sleepTotals)
    requires |counts| == 60
    requires forall m :: 0 <= m < 60 ==>
      counts[m] == MinuteCount(entries, k, active, m) + (if entries[k - 1].minute <= m < entries[k].minute then 1 else 0)
    ensures RecordsMatch(entries, k + 1, sleepTotals[active := SleepTime(TotalUpTo(entries, k + 1, active), counts)])
  {
    var next := k + 1;
    forall g, m
      ensures MinuteCount(entries, next, g, m) ==
        MinuteCount(entries, k, g, m) + (if g == active && entries[k - 1].minute <= m < entries[k].minute then 1 else 0)
      ensures TotalUpTo(entries, next, g) ==
        TotalUpTo(entries, k, g) + (if g == active then entries[k].minute - entries[k - 1].minute else 0)
      ensures Slept(entries, next, g) == (Slept(entries, k, g) || g == active)
    {
      MinuteCountStep(entries, k, g, m);
    }
  }

  /** The record of `g` before an entry: its totals and counts so far, or a fresh one. */
  lemma RecordBefore(entries: seq<GuardEntry>, k: nat, sleepTotals: map<string, SleepTime>, g: string)
    requires k <= |entries| && RecordsMatch(entries, k, sleepTotals)
    ensures var st := if g in sleepTotals then sleepTotals[g] else EmptySleep();
      |st.perMinute| == 60 && st.total == TotalUpTo(entries, k, g) &&
      forall m :: 0 <= m < 60 ==> st.perMinute[m] == MinuteCount(entries, k, g, m)
  {
    if g !in sleepTotals {
      forall m | 0 <= m < 60
        ensures MinuteCount(entries, k, g, m) == 0 && TotalUpTo(entries, k, g) == 0
      {
        NoRecordNoSleep(entries, k, g, m);
      }
      NoRecordNoSleep(entries, k, g, 0);
    }
  }

  /** After a pair, `max_guard` still holds the first largest total. */
  lemma MaxGuardStep(entries: seq<GuardEntry>, k: nat, active: string, maxGuard: (string, int, int), guardAt: nat,
                     newMaxGuard: (string, int, int), newGuardAt: nat)
    requires k < |entries| && IsPair(entries, k) && active == Active(entries, k)
    requires MaxGuardFacts(entries, k, maxGuard, guardAt)
    requires 0 <= newMaxGuard.2 < 60
    requires var total := TotalUpTo(entries, k + 1, active);
      if maxGuard.1 < total then newMaxGuard.0 == active && newMaxGuard.1 == total && newGuardAt == k + 1
      else newMaxGuard.0 == maxGuard.0 && newMaxGuard.1 == maxGuard.1 && newGuardAt == guardAt
    ensures MaxGuardFacts(entries, k + 1, newMaxGuard, newGuardAt)
  {
    var next := k + 1;
    forall g
      ensures TotalUpTo(entries, next, g) == TotalUpTo(entries, k, g) + (if g == active then entries[k].minute - entries[k - 1].minute else 0)
    {
    }
  }

  /** After a pair, `max_minute` still holds the largest count, where it is reached. */
  lemma MaxMinuteStep(entries: seq<GuardEntry>, k: nat, active: string, maxMinute: (int, int, string), minuteAt: nat,
                      before: seq<int>, counts: seq<int>, newMaxMinute: (int, int, string), newMinuteAt: nat)
    requires k < |entries| && IsPair(entries, k) && active == Active(entries, k)
    requires MaxMinuteFacts(entries, k, maxMinute, minuteAt) && PairsInHour(entries)
    requires |before| == 60 && |counts| == 60
    requires forall m :: 0 <= m < 60 ==> before[m] == MinuteCount(entries, k, active, m)
    requires forall m :: 0 <= m < 60 ==> counts[m] == before[m] + (if entries[k - 1].minute <= m < entries[k].minute then 1 else 0)
    requires newMaxMinute.1 >= maxMinute.1
    requires forall m :: entries[k - 1].minute <= m < entries[k].minute ==> counts[m] <= newMaxMinute.1
    requires newMaxMinute == maxMinute ||
      (newMaxMinute.1 > maxMinute.1 && newMaxMinute.2 == active &&
       entries[k - 1].minute <= newMaxMinute.0 < entries[k].minute && counts[newMaxMinute.0] == newMaxMinute.1 &&
       forall m :: entries[k - 1].minute <= m < newMaxMinute.0 ==> counts[m] < newMaxMinute.1)
    requires newMinuteAt == if newMaxMinute == maxMinute then minuteAt else k + 1
    ensures MaxMinuteFacts(entries, k + 1, newMaxMinute, newMinuteAt)
  {
    var next := k + 1;
    forall g, m | 0 <= m < 60
      ensures MinuteCount(entries, next, g, m) == if g == active then counts[m] else MinuteCount(entries, k, g, m)
    {
      MinuteCountStep(entries, k, g, m);
    }
    if newMaxMinute == maxMinute && maxMinute.1 > 0 {
      MinuteCountStep(entries, k, maxMinute.2, maxMinute.0);
    } else if newMaxMinute != maxMinute {
      forall n', g, m | 0 <= n' < next && 0 <= m < 60
        ensures MinuteCount(entries, n', g, m) < newMaxMinute.1
      {
        MinuteCountGrows(entries, n', k, g, m);
      }
    }
  }

  /**
   * The body of the tally loop for a `Wake` right after a `Sleep`: the active
   * guard's record gains the minutes from `prev.minute` up to `entry.minute`,
   * and `max_guard` and `max_minute` are brought up to date.
   */
  method RecordPair(entries: seq<GuardEntry>, k: nat, prev: GuardEntry, entry: GuardEntry,
                    sleepTotals: map<string, SleepTime>, active: string,
                    maxGuard: (string, int, int), ghost guardAt: nat, maxMinute: (int, int, string), ghost minuteAt: nat)
    returns (sleepTotals': map<string, SleepTime>, maxGuard': (string, int, int), ghost guardAt': nat,
             maxMinute': (int, int, string), ghost minuteAt': nat)
    requires k < |entries| && PairsInHour(entries) && IsPair(entries, k)
    requires prev == entries[k - 1] && entry == entries[k] && active == Active(entries, k)
    requires RecordsMatch(entries, k, sleepTotals)
    requires MaxGuardFacts(entries, k, maxGuard, guardAt)
    requires MaxMinuteFacts(entries, k, maxMinute, minuteAt)
    ensures RecordsMatch(entries, k + 1, sleepTotals')
    ensures MaxGuardFacts(entries, k + 1, maxGuard', guardAt')
    ensures MaxMinuteFacts(entries, k + 1, maxMinute', minuteAt')
  {
    RecordBefore(entries, k, sleepTotals, active);
    var minsAsleep := entry.minute - prev.minute;
    var sleepTime := if active in sleepTotals then sleepTotals[active] else EmptySleep();
    ghost var before := sleepTime.perMinute;
    sleepTime := sleepTime.(total := sleepTime.total + minsAsleep);
    maxGuard', guardAt' := maxGuard, guardAt;
    if maxGuard'.1 < sleepTime.total {
      maxGuard' := (active, sleepTime.total, maxGuard'.2);
      guardAt' := k + 1;
    }
    var perMinute, guardMinute, newMaxMinute :=
      TallyMinutes(sleepTime.perMinute, prev.minute, entry.minute, active, maxGuard'.0, maxGuard'.2, maxMinute);
    MaxGuardStep(entries, k, active, maxGuard, guardAt, (maxGuard'.0, maxGuard'.1, guardMinute), guardAt');
    minuteAt' := if newMaxMinute == maxMinute then minuteAt else k + 1;
    MaxMinuteStep(entries, k, active, maxMinute, minuteAt, before, perMinute, newMaxMinute, minuteAt');
    RecordsStep(entries, k, sleepTotals, active, perMinute);
    sleepTime := sleepTime.(perMinute := perMinute);
    maxGuard' := (maxGuard'.0, maxGuard'.1, guardMinute);
    maxMinute' := newMaxMinute;
    sleepTotals' := sleepTotals[active := sleepTime];
  }

  /**
   * The tally loop of `main` over the (sorted) entries. It returns the sleep
   * record of every guard, `max_guard` as (guard id, total, minute) and
   * `max_minute` as (minute, count, guard id).
   */
  method Tally(entries: seq<GuardEntry>)
    returns (sleepTotals: map<string, SleepTime>, maxGuard: (string, int, int), maxMinute: (int, int, string))
    requires PairsInHour(entries)
    ensures forall g :: g in sleepTotals <==> Slept(entries, |entries|, g)
    ensures forall g :: g in sleepTotals ==>
      |sleepTotals[g].perMinute| == 60 && sleepTotals[g].total == TotalUpTo(entries, |entries|, g)
    ensures forall g, m :: g in sleepTotals && 0 <= m < 60 ==>
      sleepTotals[g].perMinute[m] == MinuteCount(entries, |entries|, g, m)
    ensures forall n, g :: 0 <= n <= |entries| ==> TotalUpTo(entries, n, g) <= maxGuard.1
    ensures maxGuard.1 == 0 ==> maxGuard.0 == ""
    ensures maxGuard.1 > 0 ==> exists n :: (0 < n <= |entries| && TotalUpTo(entries, n, maxGuard.0) == maxGuard.1 &&
      forall n', g :: 0 <= n' < n ==> TotalUpTo(entries, n', g) < maxGuard.1)
    ensures 0 <= maxGuard.2 < 60
    ensures forall g, m :: 0 <= m < 60 ==> MinuteCount(entries, |entries|, g, m) <= maxMinute.1
    ensures maxMinute.1 == 0 ==> maxMinute == (0, 0, "")
    ensures maxMinute.1 > 0 ==> (0 <= maxMinute.0 < 60 &&
      MinuteCount(entries, |entries|, maxMinute.2, maxMinute.0) == maxMinute.1)
    ensures maxMinute.1 > 0 ==> exists n :: FirstToReach(entries, n, maxMinute)
  {
    sleepTotals := map[];
    var prev := NewEntry;
    var active := "";
    maxGuard := ("", 0, 0);
    maxMinute := (0, 0, "");
    ghost var guardAt := 0;
    ghost var minuteAt := 0;
    for k := 0 to |entries|
      invariant active == Active(entries, k)
      invariant prev == if k == 0 then NewEntry else entries[k - 1]
      invariant RecordsMatch(entries, k, sleepTotals)
      invariant MaxGuardFacts(entries, k, maxGuard, guardAt)
      invariant MaxMinuteFacts(entries, k, maxMinute, minuteAt)
    {
      var entry := entries[k];
      if entry.action == Start {
        QuietStep(entries, k, sleepTotals, maxGuard, guardAt, maxMinute, minuteAt);
        active := entry.guard;
      } else if prev.action == Sleep && entry.action == Wake {
        sleepTotals, maxGuard, guardAt, maxMinute, minuteAt :=
          RecordPair(entries, k, prev, entry, sleepTotals, active, maxGuard, guardAt, maxMinute, minuteAt);
      } else {
        QuietStep(entries, k, sleepTotals, maxGuard, guardAt, maxMinute, minuteAt);
      }
      prev := entry;
    }
  }
}
