/** The classification helpers of the log book's entry card (`LogEntry`):
    status, status colour, unit label and mood icon. */
module LogEntry {
  import opened Wrappers
  import opened Types

  /** The three statuses an entry can show ("Alcoholvrij", "Doel gehaald",
      "Over limiet"; the icon in front of each label is left out). */
  datatype Status = AlcoholFree | GoalMet | OverLimit

  function StatusLabel(s: Status): string {
    match s
    case AlcoholFree => "Alcoholvrij"
    case GoalMet => "Doel gehaald"
    case OverLimit => "Over limiet"
  }

  /** The card's goal: the one passed in, or the default of two. */
  function CardGoal(goal: Option<nat>): (g: nat)
    ensures goal.None? ==> g == DefaultGoal
    ensures goal.Some? ==> g == goal.value
  {
    goal.GetOr(DefaultGoal)
  }

  /** A zero-drink day is alcohol-free whatever the goal; any other day
      meets the goal exactly when it is within it. */
  function EntryStatus(drinks: nat, goal: nat): (s: Status)
    ensures s == AlcoholFree <==> drinks == 0
    ensures s == GoalMet <==> 0 < drinks && WithinGoal(drinks, goal)
    ensures s == OverLimit <==> !WithinGoal(drinks, goal)
  {
    if drinks == 0 then AlcoholFree
    else if WithinGoal(drinks, goal) then GoalMet
    else OverLimit
  }

  const SuccessColor := "text-success"
  const WarningColor := "text-warning"

  /** The status colour: the success colour for alcohol-free or
      within-goal days, the warning colour otherwise. */
  function StatusColor(drinks: nat, goal: nat): (c: string)
    ensures c == SuccessColor <==> drinks == 0 || WithinGoal(drinks, goal)
    ensures c == WarningColor <==> !(drinks == 0 || WithinGoal(drinks, goal))
  {
    if drinks == 0 then SuccessColor
    else if WithinGoal(drinks, goal) then SuccessColor
    else WarningColor
  }

  /** The colour and the status agree, and a card that is not over the
      limit is exactly a day the statistics count as within goal. */
  lemma ColourMatchesStatus(drinks: nat, goal: nat)
    ensures StatusColor(drinks, goal) == SuccessColor <==> EntryStatus(drinks, goal) != OverLimit
    ensures EntryStatus(drinks, goal) != OverLimit <==> WithinGoal(drinks, goal)
  {
  }

  /** The unit after the count: singular for exactly one glass. */
  function UnitLabel(drinks: nat): (u: string)
    ensures u == "glas" <==> drinks == 1
    ensures u == "glazen" <==> drinks != 1
  {
    if drinks == 1 then "glas" else "glazen"
  }

  /** The icon the card shows for a stored mood name; `NoIcon` stands for
      the empty string returned for an unknown name. */
  datatype MoodIcon = Icon(mood: Mood) | NoIcon

  function MoodEmoji(name: string): (r: MoodIcon)
    ensures r.Icon? ==> MoodName(r.mood) == name
    ensures r == NoIcon <==> forall m: Mood :: MoodName(m) != name
  {
    if name == "very_good" then Icon(VeryGood)
    else if name == "good" then Icon(Good)
    else if name == "neutral" then Icon(Neutral)
    else if name == "bad" then Icon(Bad)
    else if name == "very_bad" then Icon(VeryBad)
    else NoMoodNamed(name); NoIcon
  }

  lemma NoMoodNamed(name: string)
    requires name != "very_good" && name != "good" && name != "neutral"
    requires name != "bad" && name != "very_bad"
    ensures forall m: Mood :: MoodName(m) != name
  {
    forall m: Mood ensures MoodName(m) != name {
      match m
      case VeryBad =>
      case Bad =>
      case Neutral =>
      case Good =>
      case VeryGood =>
    }
  }

  /** Every mood has its own icon. */
  lemma MoodEmojiCoversAllMoods(m: Mood)
    ensures MoodEmoji(MoodName(m)) == Icon(m)
  {
    assert MoodEmoji(MoodName(m)).Icon?;
    MoodNameInjective(m, MoodEmoji(MoodName(m)).mood);
  }

  lemma MoodNameInjective(a: Mood, b: Mood)
    requires MoodName(a) == MoodName(b)
    ensures a == b
  {
    assert MoodName(a)[0] == MoodName(b)[0];
    assert |MoodName(a)| == |MoodName(b)|;
  }

  /** The mood part of the card: nothing without a mood, its icon otherwise. */
  function CardMood(log: DailyLog): (r: MoodIcon)
    ensures log.mood.None? ==> r == NoIcon
    ensures log.mood.Some? ==> r == Icon(log.mood.value)
  {
    match log.mood
    case None => NoIcon
    case Some(m) => MoodEmojiCoversAllMoods(m); MoodEmoji(MoodName(m))
  }
}
