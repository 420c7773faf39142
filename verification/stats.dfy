/** The progress statistics computed from a user's date-ordered daily logs
    (`useUserStats`) and the seven-day summary (`useWeeklyStats`).

    The reference definitions below are recursive over the sequence of
    drink counts and read the history from its most recent end;
    `ComputeUserStats` is the single-pass computation the hook performs,
    proved equal to them. */
module Stats {
  import opened Types

  /** Every count in `r` is within the goal. */
  predicate AllWithin(r: seq<nat>, goal: nat) {
    forall i :: 0 <= i < |r| ==> WithinGoal(r[i], goal)
  }

  /** `d[i..i + len]` is a stretch of consecutive within-goal entries. */
  predicate RunAt(d: seq<nat>, goal: nat, i: int, len: nat) {
    0 <= i && i + len <= |d| && AllWithin(d[i..i + len], goal)
  }

  /** Number of entries within the goal. */
  function CountWithin(d: seq<nat>, goal: nat): nat {
    if |d| == 0 then 0
    else CountWithin(d[..|d| - 1], goal) + (if WithinGoal(d[|d| - 1], goal) then 1 else 0)
  }

  /** Number of alcohol-free entries. */
  function CountZero(d: seq<nat>): nat {
    if |d| == 0 then 0
    else CountZero(d[..|d| - 1]) + (if d[|d| - 1] == 0 then 1 else 0)
  }

  /** Total number of drinks. */
  function Sum(d: seq<nat>): nat {
    if |d| == 0 then 0 else Sum(d[..|d| - 1]) + d[|d| - 1]
  }

  /** Points one entry earns: 10 when alcohol-free (whatever the goal),
      5 when otherwise within the goal, else nothing. */
  function EntryPoints(drinks: nat, goal: nat): nat {
    if drinks == 0 then 10 else if WithinGoal(drinks, goal) then 5 else 0
  }

  function TotalPoints(d: seq<nat>, goal: nat): nat {
    if |d| == 0 then 0 else TotalPoints(d[..|d| - 1], goal) + EntryPoints(d[|d| - 1], goal)
  }

  /** Length of the within-goal stretch at the end of the history. */
  function TrailingRun(d: seq<nat>, goal: nat): nat {
    if |d| == 0 || !WithinGoal(d[|d| - 1], goal) then 0
    else TrailingRun(d[..|d| - 1], goal) + 1
  }

  /** The largest trailing stretch over all prefixes of the history. */
  function LongestRun(d: seq<nat>, goal: nat): nat {
    if |d| == 0 then 0
    else
      var before := LongestRun(d[..|d| - 1], goal);
      var here := TrailingRun(d, goal);
      if here > before then here else before
  }

  /** The snapshot of an empty history. */
  const ZeroStats := UserStats(0, 0, 0, 0, 0, Ratio(0, 1), 0, 0)

  /** The snapshot the reference definitions give for drink counts `d`.
      Savings assume two drinks avoided per alcohol-free day, at 5 currency
      units and 150 calories per drink. */
  function Snapshot(d: seq<nat>, goal: nat): UserStats {
    if |d| == 0 then ZeroStats
    else
      var drinksAvoided := CountZero(d) * 2;
      UserStats(
        totalDays := |d|,
        streakDays := TrailingRun(d, goal),
        longestStreak := LongestRun(d, goal),
        totalPoints := TotalPoints(d, goal),
        daysWithinGoal := CountWithin(d, goal),
        averageDrinksPerWeek := Ratio(Sum(d) * 7, |d|),
        moneySaved := drinksAvoided * 5,
        caloriesSaved := drinksAvoided * 150)
  }

  function Max(a: nat, b: nat): nat {
    if a >= b then a else b
  }

  /** The hook's computation: counting passes, a backward scan for the
      current streak that stops at the first over-goal entry, and a forward
      scan keeping the running and the best streak. Only the drink counts
      are read; dates, notes and moods play no part. */
  method ComputeUserStats(logs: seq<DailyLog>, goal: nat) returns (st: UserStats)
    ensures st == Snapshot(DrinkCounts(logs), goal)
    ensures |logs| == 0 ==> st == ZeroStats
    ensures st.totalDays == |logs|
  {
    ghost var d := DrinkCounts(logs);
    if |logs| == 0 {
      return ZeroStats;
    }
    var totalDays := |logs|;

    var daysWithinGoal, totalDrinks, zeroDays, totalPoints := 0, 0, 0, 0;
    var i := 0;
    while i < |logs|
      invariant 0 <= i <= |logs|
      invariant daysWithinGoal == CountWithin(d[..i], goal)
      invariant totalDrinks == Sum(d[..i])
      invariant zeroDays == CountZero(d[..i])
      invariant totalPoints == TotalPoints(d[..i], goal)
    {
      assert d[..i + 1][..i] == d[..i];
      var n := logs[i].drinks;
      if n <= goal {
        daysWithinGoal := daysWithinGoal + 1;
      }
      totalDrinks := totalDrinks + n;
      if n == 0 {
        zeroDays := zeroDays + 1;
      }
      if n == 0 {
        totalPoints := totalPoints + 10;
      } else if n <= goal {
        totalPoints := totalPoints + 5;
      }
      i := i + 1;
    }
    assert d[..|logs|] == d;

    var streakDays := 0;
    var j := |logs| - 1;
    while j >= 0
      invariant -1 <= j < |logs|
      invariant streakDays == |logs| - 1 - j
      invariant AllWithin(d[j + 1..], goal)
    {
      if logs[j].drinks <= goal {
        streakDays := streakDays + 1;
        j := j - 1;
      } else {
        break;
      }
    }
    assert j == -1 || !WithinGoal(d[j], goal);
    TrailingRunUnique(d, goal, streakDays);

    var longestStreak, currentStreak := 0, 0;
    var k := 0;
    while k < |logs|
      invariant 0 <= k <= |logs|
      invariant currentStreak == TrailingRun(d[..k], goal)
      invariant longestStreak == LongestRun(d[..k], goal)
    {
      assert d[..k + 1][..k] == d[..k];
      if logs[k].drinks <= goal {
        currentStreak := currentStreak + 1;
        longestStreak := Max(longestStreak, currentStreak);
      } else {
        currentStreak := 0;
      }
      k := k + 1;
    }

    var drinksAvoided := zeroDays * 2;
    var moneySaved := drinksAvoided * 5;
    var caloriesSaved := drinksAvoided * 150;

    st := UserStats(totalDays, streakDays, longestStreak, totalPoints, daysWithinGoal,
                    Ratio(totalDrinks * 7, totalDays), moneySaved, caloriesSaved);
  }

  /** The trailing run is a within-goal suffix preceded by an over-goal
      entry, or the whole history. */
  lemma {:induction false} TrailingRunIsWithinSuffix(d: seq<nat>, goal: nat)
    ensures TrailingRun(d, goal) <= |d|
    ensures AllWithin(d[|d| - TrailingRun(d, goal)..], goal)
    ensures TrailingRun(d, goal) < |d| ==> !WithinGoal(d[|d| - TrailingRun(d, goal) - 1], goal)
  {
    if |d| > 0 && WithinGoal(d[|d| - 1], goal) {
      var p := d[..|d| - 1];
      TrailingRunIsWithinSuffix(p, goal);
      var k := TrailingRun(d, goal);
      assert d[|d| - k..] == p[|p| - (k - 1)..] + [d[|d| - 1]];
      if k < |d| {
        assert d[|d| - k - 1] == p[|p| - (k - 1) - 1];
      }
    }
  }

  /** Any within-goal suffix is at most as long as the trailing run. */
  lemma WithinSuffixAtMostTrailing(d: seq<nat>, goal: nat, m: nat)
    requires m <= |d| && AllWithin(d[|d| - m..], goal)
    ensures m <= TrailingRun(d, goal)
  {
    TrailingRunIsWithinSuffix(d, goal);
    var t := TrailingRun(d, goal);
    if t < |d| {
      forall j | |d| - m <= j < |d| ensures WithinGoal(d[j], goal) {
        assert d[j] == d[|d| - m..][j - (|d| - m)];
      }
      assert !WithinGoal(d[|d| - t - 1], goal);
    }
  }

  /** The current streak is exactly the length of the longest within-goal
      suffix: a suffix of length `k` that is all within the goal and is the
      whole history or follows an over-goal entry has `k == TrailingRun`. */
  lemma TrailingRunUnique(d: seq<nat>, goal: nat, k: nat)
    requires k <= |d| && AllWithin(d[|d| - k..], goal)
    requires k < |d| ==> !WithinGoal(d[|d| - k - 1], goal)
    ensures TrailingRun(d, goal) == k
  {
    TrailingRunIsWithinSuffix(d, goal);
    WithinSuffixAtMostTrailing(d, goal, k);
  }

  /** No within-goal stretch anywhere in the history is longer than the
      longest streak. */
  lemma {:induction false} LongestRunBoundsEveryRun(d: seq<nat>, goal: nat, i: nat, len: nat)
    requires RunAt(d, goal, i, len)
    ensures len <= LongestRun(d, goal)
  {
    if i + len == |d| {
      WithinSuffixAtMostTrailing(d, goal, len);
    } else {
      var p := d[..|d| - 1];
      assert p[i..i + len] == d[i..i + len];
      LongestRunBoundsEveryRun(p, goal, i, len);
    }
  }

  /** The longest streak is the length of some within-goal stretch. */
  lemma {:induction false} LongestRunIsAchieved(d: seq<nat>, goal: nat)
    ensures exists i :: RunAt(d, goal, i, LongestRun(d, goal))
  {
    if |d| == 0 {
      assert LongestRun(d, goal) == 0;
      assert RunAt(d, goal, 0, LongestRun(d, goal));
    } else {
      var p := d[..|d| - 1];
      var t := TrailingRun(d, goal);
      if t > LongestRun(p, goal) {
        TrailingRunIsWithinSuffix(d, goal);
        assert d[|d| - t..|d| - t + t] == d[|d| - t..];
        assert LongestRun(d, goal) == t;
        assert RunAt(d, goal, |d| - t, t);
      } else {
        LongestRunIsAchieved(p, goal);
        var i :| RunAt(p, goal, i, LongestRun(p, goal));
        assert p[i..i + LongestRun(p, goal)] == d[i..i + LongestRun(p, goal)];
        assert RunAt(d, goal, i, LongestRun(d, goal));
      }
    }
  }

  /** The longest streak is the maximum length of a contiguous within-goal
      stretch. */
  lemma LongestRunIsMaximum(d: seq<nat>, goal: nat)
    ensures exists i :: RunAt(d, goal, i, LongestRun(d, goal))
    ensures forall i: int, len: nat :: RunAt(d, goal, i, len) ==> len <= LongestRun(d, goal)
  {
    LongestRunIsAchieved(d, goal);
    forall i: int, len: nat | RunAt(d, goal, i, len) ensures len <= LongestRun(d, goal) {
      LongestRunBoundsEveryRun(d, goal, i, len);
    }
  }

  lemma {:induction false} TrailingRunAtMostCountWithin(d: seq<nat>, goal: nat)
    ensures TrailingRun(d, goal) <= CountWithin(d, goal)
  {
    if |d| > 0 {
      TrailingRunAtMostCountWithin(d[..|d| - 1], goal);
    }
  }

  lemma {:induction false} LongestRunAtMostCountWithin(d: seq<nat>, goal: nat)
    ensures LongestRun(d, goal) <= CountWithin(d, goal)
  {
    if |d| > 0 {
      LongestRunAtMostCountWithin(d[..|d| - 1], goal);
      TrailingRunAtMostCountWithin(d, goal);
    }
  }

  lemma {:induction false} CountWithinAtMostLength(d: seq<nat>, goal: nat)
    ensures CountWithin(d, goal) <= |d|
  {
    if |d| > 0 {
      CountWithinAtMostLength(d[..|d| - 1], goal);
    }
  }

  /** Alcohol-free entries are within every goal. */
  lemma {:induction false} CountZeroAtMostCountWithin(d: seq<nat>, goal: nat)
    ensures CountZero(d) <= CountWithin(d, goal)
  {
    if |d| > 0 {
      CountZeroAtMostCountWithin(d[..|d| - 1], goal);
    }
  }

  /** Each entry earns 5 for being within the goal and 5 more for being
      alcohol-free. */
  lemma {:induction false} PointsDecompose(d: seq<nat>, goal: nat)
    ensures TotalPoints(d, goal) == 5 * CountWithin(d, goal) + 5 * CountZero(d)
  {
    if |d| > 0 {
      PointsDecompose(d[..|d| - 1], goal);
    }
  }

  /** The order and bounds between the snapshot's fields. */
  lemma SnapshotBounds(d: seq<nat>, goal: nat)
    ensures var st := Snapshot(d, goal);
      && st.streakDays <= st.longestStreak <= st.daysWithinGoal <= st.totalDays == |d|
      && 5 * st.daysWithinGoal <= st.totalPoints <= 10 * st.totalDays
      && st.moneySaved == 10 * CountZero(d)
      && st.caloriesSaved == 30 * st.moneySaved
      && st.moneySaved <= 10 * st.totalDays
  {
    if |d| > 0 {
      LongestRunAtMostCountWithin(d, goal);
      CountWithinAtMostLength(d, goal);
      CountZeroAtMostCountWithin(d, goal);
      PointsDecompose(d, goal);
    }
  }

  /** The snapshot reads nothing of a log but its drink count: histories
      that differ only in dates, notes or moods give the same statistics. */
  lemma OnlyDrinkCountsMatter(a: seq<DailyLog>, b: seq<DailyLog>, goal: nat)
    requires |a| == |b|
    requires forall i :: 0 <= i < |a| ==> a[i].drinks == b[i].drinks
    ensures Snapshot(DrinkCounts(a), goal) == Snapshot(DrinkCounts(b), goal)
  {
    assert DrinkCounts(a) == DrinkCounts(b);
  }

  /** History 3, 2, 0, 1, 0 with goal 2: five days, four within goal, a
      current and longest streak of four, and 0 + 5 + 10 + 5 + 10 points. */
  lemma Example32010()
    ensures var st := Snapshot([3, 2, 0, 1, 0], 2);
      && st.totalDays == 5 && st.daysWithinGoal == 4
      && st.streakDays == 4 && st.longestStreak == 4
      && st.totalPoints == 30 && st.moneySaved == 20 && st.caloriesSaved == 600
  {
    var d1: seq<nat> := [3];
    var d2: seq<nat> := [3, 2];
    var d3: seq<nat> := [3, 2, 0];
    var d4: seq<nat> := [3, 2, 0, 1];
    var d5: seq<nat> := [3, 2, 0, 1, 0];
    assert d1[..0] == [] && d2[..1] == d1 && d3[..2] == d2 && d4[..3] == d3 && d5[..4] == d4;
    assert CountWithin(d1, 2) == 0 && TrailingRun(d1, 2) == 0 && LongestRun(d1, 2) == 0;
    assert TotalPoints(d1, 2) == 0 && CountZero(d1) == 0;
    assert CountWithin(d2, 2) == 1 && TrailingRun(d2, 2) == 1 && LongestRun(d2, 2) == 1;
    assert TotalPoints(d2, 2) == 5 && CountZero(d2) == 0;
    assert CountWithin(d3, 2) == 2 && TrailingRun(d3, 2) == 2 && LongestRun(d3, 2) == 2;
    assert TotalPoints(d3, 2) == 15 && CountZero(d3) == 1;
    assert CountWithin(d4, 2) == 3 && TrailingRun(d4, 2) == 3 && LongestRun(d4, 2) == 3;
    assert TotalPoints(d4, 2) == 20 && CountZero(d4) == 1;
    assert CountWithin(d5, 2) == 4 && TrailingRun(d5, 2) == 4 && LongestRun(d5, 2) == 4;
    assert TotalPoints(d5, 2) == 30 && CountZero(d5) == 2;
  }

  /** The seven-day summary returned by `useWeeklyStats`. */
  datatype WeeklyStats = WeeklyStats(totalDrinks: nat, daysLogged: nat, alcoholFreeDays: nat, averagePerDay: Ratio)

  /** Totals over the logs the store returned for the last seven days: the
      alcohol-free days are the logs with no drinks, the average is exact
      and 0 when nothing was logged. */
  function WeeklySummary(logs: seq<DailyLog>): (w: WeeklyStats)
    ensures w.daysLogged == |logs|
    ensures w.alcoholFreeDays <= w.daysLogged
    ensures w.alcoholFreeDays == multiset(DrinkCounts(logs))[0]
    ensures w.totalDrinks == Sum(DrinkCounts(logs))
    ensures w.daysLogged == 0 ==> w.averagePerDay.num == 0
    ensures w.daysLogged > 0 ==> w.averagePerDay == Ratio(w.totalDrinks, w.daysLogged)
  {
    var d := DrinkCounts(logs);
    CountZeroAtMostCountWithin(d, 0);
    CountWithinAtMostLength(d, 0);
    CountZeroIsOccurrences(d);
    WeeklyStats(Sum(d), |d|, CountZero(d),
                if |d| > 0 then Ratio(Sum(d), |d|) else Ratio(0, 1))
  }

  /** The alcohol-free count is the number of occurrences of 0. */
  lemma {:induction false} CountZeroIsOccurrences(d: seq<nat>)
    ensures CountZero(d) == multiset(d)[0]
  {
    if |d| > 0 {
      CountZeroIsOccurrences(d[..|d| - 1]);
      assert d == d[..|d| - 1] + [d[|d| - 1]];
    }
  }
}
