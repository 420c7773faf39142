/** The app's shared record types: moods, badge kinds, a daily log row and
    the progress snapshot that the statistics hook returns. */
module Types {
  import opened Wrappers

  /** How the user felt on a logged day. */
  datatype Mood = VeryBad | Bad | Neutral | Good | VeryGood

  /** The achievements a user can unlock, one per user at most. */
  datatype BadgeType =
    | FirstWeek | FirstMonth
    | Streak5 | Streak10 | Streak30 | Streak100
    | ZeroHero | GoalAchiever
    | VoiceJournaler | AiChatter

  /** The string a mood is stored and passed around as. */
  function MoodName(m: Mood): string {
    match m
    case VeryBad => "very_bad"
    case Bad => "bad"
    case Neutral => "neutral"
    case Good => "good"
    case VeryGood => "very_good"
  }

  /** One user's log for one calendar date. `date` is the `YYYY-MM-DD`
      text the store orders by; the user id and timestamps are not modelled. */
  datatype DailyLog = DailyLog(date: string, drinks: nat, notes: Option<string>, mood: Option<Mood>)

  /** An exact non-negative quotient `num / den`, standing in for a
      floating-point average; `den` is positive. */
  datatype Ratio = Ratio(num: nat, den: nat)

  /** The statistics shown on the dashboard. */
  datatype UserStats = UserStats(
    totalDays: nat,
    streakDays: nat,
    longestStreak: nat,
    totalPoints: nat,
    daysWithinGoal: nat,
    averageDrinksPerWeek: Ratio,
    moneySaved: nat,
    caloriesSaved: nat)

  /** The daily goal used when none is configured. */
  const DefaultGoal: nat := 2

  /** A day counts as within goal when it has at most `goal` drinks. */
  predicate WithinGoal(drinks: nat, goal: nat) {
    drinks <= goal
  }

  /** The drink counts of a history, in the same order. */
  function DrinkCounts(logs: seq<DailyLog>): (d: seq<nat>)
    ensures |d| == |logs|
    ensures forall i :: 0 <= i < |logs| ==> d[i] == logs[i].drinks
  {
    seq(|logs|, i requires 0 <= i < |logs| => logs[i].drinks)
  }
}
