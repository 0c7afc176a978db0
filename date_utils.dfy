/**
 * The activity helpers: the intensity level of a count, the name of a
 * weekday, and the current and longest streaks of active days (which sort
 * their argument by date in place first).
 */
module DateUtils {

  import opened Wrappers
  import opened Calendar
  import opened Records

  // ---------------------------------------------------------------------
  // Intensity level

  /** `getActivityLevel`: 0 for no activity, else 1..4 by quarters of count / maxCount. */
  function ActivityLevel(count: nat, maxCount: nat): (level: int)
    ensures 0 <= level <= 4
    ensures level == 0 <==> count == 0 || maxCount == 0
    ensures count > 0 && maxCount > 0 ==>
      var p := count as real / maxCount as real;
      level == if p <= 0.25 then 1 else if p <= 0.5 then 2 else if p <= 0.75 then 3 else 4
  {
    if count == 0 then 0
    else if maxCount == 0 then 0
    else
      RatioBelow(count, maxCount, 1, 4);
      RatioBelow(count, maxCount, 1, 2);
      RatioBelow(count, maxCount, 3, 4);
      if 4 * count <= maxCount then 1
      else if 2 * count <= maxCount then 2
      else if 4 * count <= 3 * maxCount then 3
      else 4
  }

  lemma RatioBelow(c: nat, m: nat, a: nat, b: nat)
    requires m > 0 && b > 0
    ensures (c as real / m as real <= a as real / b as real) <==> b * c <= a * m
  {
    var p := c as real / m as real;
    var q := a as real / b as real;
    assert p * m as real == c as real;
    assert q * b as real == a as real;
    assert (b * c) as real == p * (m as real) * (b as real);
    assert (a * m) as real == q * (b as real) * (m as real);
    if p <= q {
      assert p * (m as real) * (b as real) <= q * (m as real) * (b as real);
    } else {
      assert p * (m as real) * (b as real) > q * (m as real) * (b as real);
    }
  }

  /** For a fixed maximum the level never drops as the count grows. */
  lemma ActivityLevelMonotone(c1: nat, c2: nat, maxCount: nat)
    requires c1 <= c2
    ensures ActivityLevel(c1, maxCount) <= ActivityLevel(c2, maxCount)
  {
  }

  /** The busiest day (count == maxCount > 0) always gets the top level. */
  lemma ActivityLevelOfMax(maxCount: nat)
    requires maxCount > 0
    ensures ActivityLevel(maxCount, maxCount) == 4
  {
  }

  lemma ActivityLevelExamples()
    ensures ActivityLevel(0, 10) == 0 && ActivityLevel(3, 0) == 0
    ensures ActivityLevel(2, 10) == 1 && ActivityLevel(3, 10) == 2 && ActivityLevel(5, 10) == 2
    ensures ActivityLevel(7, 10) == 3 && ActivityLevel(8, 10) == 4 && ActivityLevel(10, 10) == 4
  {
  }

  // ---------------------------------------------------------------------
  // Weekday names

  const WeekdayNames: seq<string> :=
    ["Sunday", "Monday", "Tuesday", "Wednesday", "Thursday", "Friday", "Saturday"]

  /** `getDayOfWeekName`: `days[index] || 'Unknown'`. */
  function DayOfWeekName(index: int): (name: string)
    ensures 0 <= index < 7 ==> name == WeekdayNames[index]
    ensures name == "Unknown" <==> !(0 <= index < 7)
  {
    if 0 <= index < |WeekdayNames| then WeekdayNames[index] else "Unknown"
  }

  /** Distinct weekday indices have distinct names. */
  lemma DayOfWeekNameInjective(i: int, j: int)
    requires 0 <= i < 7 && 0 <= j < 7 && DayOfWeekName(i) == DayOfWeekName(j)
    ensures i == j
  {
  }

  // ---------------------------------------------------------------------
  // Streaks

  /** The sort key of an entry: `new Date(entry.date).getTime()`, counted in
      days. A key that does not parse gets 0 here. */
  function TimeOf(e: DailyActivity): int {
    match ParseDateKey(e.date)
    case Some(d) => DayNumber(d)
    case None => 0
  }

  predicate KeysParse(s: seq<DailyActivity>) {
    forall i :: 0 <= i < |s| ==> ParseDateKey(s[i].date).Some?
  }

  predicate SortedByDate(s: seq<DailyActivity>) {
    SortedBy(s, TimeOf)
  }

  predicate AllActive(s: seq<DailyActivity>) {
    forall i :: 0 <= i < |s| ==> s[i].count > 0
  }

  function Max(a: int, b: int): int {
    if a < b then b else a
  }

  /** Number of active entries at the end of s, up to the last inactive one. */
  function TrailingRun(s: seq<DailyActivity>): nat {
    if s == [] || s[|s| - 1].count == 0 then 0 else TrailingRun(s[..|s| - 1]) + 1
  }

  /** Longest run of consecutive active entries in s. */
  function LongestRun(s: seq<DailyActivity>): nat {
    if s == [] then 0 else Max(LongestRun(s[..|s| - 1]), TrailingRun(s))
  }

  /** TrailingRun(s) is the length of the all-active suffix that is preceded by an inactive entry or by nothing. */
  lemma {:induction false} TrailingRunSuffix(s: seq<DailyActivity>)
    ensures TrailingRun(s) <= |s|
    ensures AllActive(s[|s| - TrailingRun(s)..])
    ensures TrailingRun(s) < |s| ==> s[|s| - TrailingRun(s) - 1].count == 0
  {
    if s != [] && s[|s| - 1].count != 0 {
      var init := s[..|s| - 1];
      TrailingRunSuffix(init);
      var c := TrailingRun(init);
      assert s[|s| - (c + 1)..] == init[|init| - c..] + [s[|s| - 1]];
    }
  }

  /** Every all-active suffix is at most TrailingRun long. */
  lemma {:induction false} ActiveSuffixWithinTrailingRun(s: seq<DailyActivity>, c: nat)
    requires c <= |s| && AllActive(s[|s| - c..])
    ensures c <= TrailingRun(s)
  {
    if c > 0 {
      var init := s[..|s| - 1];
      assert s[|s| - 1] == s[|s| - c..][c - 1];
      assert init[|init| - (c - 1)..] == s[|s| - c..|s| - 1];
      ActiveSuffixWithinTrailingRun(init, c - 1);
    }
  }

  /** s[i..i+n] is a window of n active entries. */
  predicate ActiveWindow(s: seq<DailyActivity>, i: int, n: nat) {
    0 <= i <= |s| - n && AllActive(s[i..i + n])
  }

  /** LongestRun(s) is achieved by some all-active window of s. */
  lemma {:induction false} LongestRunHasWindow(s: seq<DailyActivity>)
    ensures LongestRun(s) <= |s|
    ensures exists i :: ActiveWindow(s, i, LongestRun(s))
  {
    if s == [] {
      assert ActiveWindow(s, 0, 0);
    } else {
      var init := s[..|s| - 1];
      LongestRunHasWindow(init);
      TrailingRunSuffix(s);
      var t := TrailingRun(s);
      if LongestRun(init) >= t {
        var i :| ActiveWindow(init, i, LongestRun(init));
        WindowInPrefix(s, i, LongestRun(init));
      } else {
        assert s[|s| - t..|s| - t + t] == s[|s| - t..];
        assert ActiveWindow(s, |s| - t, LongestRun(s));
      }
    }
  }

  lemma WindowInPrefix(s: seq<DailyActivity>, i: int, n: nat)
    requires s != [] && ActiveWindow(s[..|s| - 1], i, n)
    ensures ActiveWindow(s, i, n)
  {
    assert s[i..i + n] == s[..|s| - 1][i..i + n];
  }

  /** No all-active window of s is longer than LongestRun(s). */
  lemma {:induction false} WindowWithinLongestRun(s: seq<DailyActivity>, i: int, j: int)
    requires 0 <= i <= j <= |s| && AllActive(s[i..j])
    ensures j - i <= LongestRun(s)
  {
    if j < |s| {
      var init := s[..|s| - 1];
      assert init[i..j] == s[i..j];
      WindowWithinLongestRun(init, i, j);
    } else if i < j {
      ActiveSuffixWithinTrailingRun(s, j - i);
    }
  }

  /** LongestRun(s) is the length of the longest all-active window of s. */
  lemma LongestRunIsLongestWindow(s: seq<DailyActivity>)
    ensures LongestRun(s) <= |s|
    ensures exists i :: ActiveWindow(s, i, LongestRun(s))
    ensures forall i, j :: 0 <= i <= j <= |s| && AllActive(s[i..j]) ==> j - i <= LongestRun(s)
  {
    LongestRunHasWindow(s);
    forall i, j | 0 <= i <= j <= |s| && AllActive(s[i..j])
      ensures j - i <= LongestRun(s)
    {
      WindowWithinLongestRun(s, i, j);
    }
  }

  /** current <= longest <= length. */
  lemma StreakBounds(s: seq<DailyActivity>)
    ensures TrailingRun(s) <= LongestRun(s) <= |s|
  {
    LongestRunIsLongestWindow(s);
  }

  function Counts(cs: seq<nat>): (s: seq<DailyActivity>)
    ensures |s| == |cs| && forall i :: 0 <= i < |cs| ==> s[i].count == cs[i]
  {
    seq(|cs|, i requires 0 <= i < |cs| => DailyActivity("", cs[i], []))
  }

  lemma WindowStopsBefore(s: seq<DailyActivity>, i: int, j: int, k: int)
    requires 0 <= i <= j <= |s| && AllActive(s[i..j])
    requires i <= k < |s| && s[k].count == 0
    ensures j <= k
  {
  }

  /** Counts [1,0,2,3,0,1,1,1] give current 3 and longest 3. */
  lemma StreakExample()
    ensures TrailingRun(Counts([1, 0, 2, 3, 0, 1, 1, 1])) == 3
    ensures LongestRun(Counts([1, 0, 2, 3, 0, 1, 1, 1])) == 3
  {
    var s := Counts([1, 0, 2, 3, 0, 1, 1, 1]);
    assert s[..7][..6][..5] == s[..5];
    assert TrailingRun(s[..5]) == 0;
    assert TrailingRun(s) == 3;
    LongestRunIsLongestWindow(s);
    assert AllActive(s[5..8]);
    forall i, j | 0 <= i <= j <= |s| && AllActive(s[i..j])
      ensures j - i <= 3
    {
      if i <= 1 {
        WindowStopsBefore(s, i, j, 1);
      } else if i <= 4 {
        WindowStopsBefore(s, i, j, 4);
      }
    }
  }

  /** s is ordered by key (ties in any order). */
  predicate SortedBy<T>(s: seq<T>, key: T -> int) {
    forall i, j :: 0 <= i < j < |s| ==> key(s[i]) <= key(s[j])
  }

  /** a[..i+1] is sorted by key except possibly at position j (the entry being moved). */
  predicate SortedExcept<T>(s: seq<T>, key: T -> int, i: int, j: int)
    requires 0 <= j <= i < |s|
  {
    forall k, l :: 0 <= k < l <= i && l != j ==> key(s[k]) <= key(s[l])
  }

  lemma SortedExceptStep<T>(s: seq<T>, key: T -> int, i: int, j: int)
    requires 0 < j <= i < |s| && SortedExcept(s, key, i, j) && key(s[j - 1]) > key(s[j])
    ensures SortedExcept(s[j - 1 := s[j]][j := s[j - 1]], key, i, j - 1)
  {
  }

  lemma SortedExceptDone<T>(s: seq<T>, key: T -> int, i: int, j: int)
    requires 0 <= j <= i < |s| && SortedExcept(s, key, i, j)
    requires j == 0 || key(s[j - 1]) <= key(s[j])
    ensures SortedBy(s[..i + 1], key)
  {
  }

  /** One step of insertion sort: moves a[i] left past the entries with a larger key. */
  method InsertStep<T(==)>(a: array<T>, key: T -> int, i: nat)
    requires i < a.Length && SortedBy(a[..i], key)
    modifies a
    ensures SortedBy(a[..i + 1], key)
    ensures multiset(a[..]) == multiset(old(a[..]))
    ensures forall k :: i < k < a.Length ==> a[k] == old(a[k])
    ensures SortedBy(old(a[..i + 1]), key) ==> a[..] == old(a[..])
  {
    var j := i;
    assert SortedExcept(a[..], key, i, j);
    while j > 0 && key(a[j - 1]) > key(a[j])
      invariant 0 <= j <= i
      invariant SortedExcept(a[..], key, i, j)
      invariant multiset(a[..]) == multiset(old(a[..]))
      invariant forall k :: i < k < a.Length ==> a[k] == old(a[k])
      invariant j < i ==> !SortedBy(old(a[..i + 1]), key)
      invariant j == i ==> a[..] == old(a[..])
    {
      SortedExceptStep(a[..], key, i, j);
      if j == i {
        assert old(a[..i + 1])[i - 1] == a[i - 1] && old(a[..i + 1])[i] == a[i];
      }
      SwapAdjacent(a, j);
      j := j - 1;
    }
    SortedExceptDone(a[..], key, i, j);
  }

  method SwapAdjacent<T(==)>(a: array<T>, j: int)
    requires 0 < j < a.Length
    modifies a
    ensures a[..] == old(a[..])[j - 1 := old(a[j])][j := old(a[j - 1])]
    ensures multiset(a[..]) == multiset(old(a[..]))
  {
    a[j - 1], a[j] := a[j], a[j - 1];
  }

  /** Sorts the entries by key in place: the result is sorted and a
      permutation of the input, and sorted input is left as it was. */
  method SortBy<T(==)>(a: array<T>, key: T -> int)
    modifies a
    ensures SortedBy(a[..], key)
    ensures multiset(a[..]) == multiset(old(a[..]))
    ensures SortedBy(old(a[..]), key) ==> a[..] == old(a[..])
  {
    for i := 0 to a.Length
      invariant SortedBy(a[..i], key)
      invariant multiset(a[..]) == multiset(old(a[..]))
      invariant forall k :: i <= k < a.Length ==> a[k] == old(a[k])
      invariant SortedBy(old(a[..]), key) ==> a[..] == old(a[..])
    {
      InsertStep(a, key, i);
    }
  }

  /** The two loops of `calculateStreak` over the sorted entries. */
  method RunLengths(a: array<DailyActivity>) returns (current: nat, longest: nat)
    ensures current == TrailingRun(a[..]) && longest == LongestRun(a[..])
  {
    ghost var s := a[..];
    longest := 0;
    var temp: nat := 0;
    for i := 0 to a.Length
      invariant temp == TrailingRun(s[..i]) && longest == LongestRun(s[..i])
    {
      assert s[..i + 1][..i] == s[..i];
      if a[i].count > 0 {
        temp := temp + 1;
        longest := Max(longest, temp);
      } else {
        temp := 0;
      }
    }
    assert s[..a.Length] == s;
    current := 0;
    var i := a.Length - 1;
    while i >= 0
      invariant -1 <= i < a.Length
      invariant current == a.Length - 1 - i
      invariant AllActive(s[i + 1..])
    {
      assert s[i..] == [s[i]] + s[i + 1..];
      if a[i].count > 0 {
        current := current + 1;
      } else {
        break;
      }
      i := i - 1;
    }
    TrailingRunExact(s, current);
  }

  lemma TrailingRunExact(s: seq<DailyActivity>, c: nat)
    requires c <= |s| && AllActive(s[|s| - c..])
    requires c < |s| ==> s[|s| - c - 1].count == 0
    ensures TrailingRun(s) == c
  {
    TrailingRunSuffix(s);
    ActiveSuffixWithinTrailingRun(s, c);
  }

  /** `calculateStreak`: sorts the caller's entries by date in place, then
      counts the trailing and the longest runs of active days. */
  method CalculateStreak(a: array<DailyActivity>) returns (current: nat, longest: nat)
    modifies a
    ensures SortedByDate(a[..]) && multiset(a[..]) == multiset(old(a[..]))
    ensures SortedByDate(old(a[..])) ==> a[..] == old(a[..])
    ensures current == TrailingRun(a[..]) && longest == LongestRun(a[..])
  {
    if a.Length == 0 {
      return 0, 0;
    }
    SortBy(a, TimeOf);
    current, longest := RunLengths(a);
  }
}
