/** Badge eligibility and the points ledger (`useGamification`): the rule
    table walked by `checkAndAwardBadges`, the conflict handling of
    `useEarnBadge` and the merge performed by `useUpdatePoints`. The
    store's replies are parameters. */
module Gamification {
  import opened Wrappers
  import opened Types

  /** The aggregate figures the badge check is given. */
  datatype BadgeInput = BadgeInput(
    totalDays: nat,
    streakDays: nat,
    longestStreak: nat,
    totalAlcoholFreeDays: nat,
    daysWithinGoal: nat)

  /** One row of the rule table: a badge and whether its condition holds. */
  datatype Rule = Rule(badge: BadgeType, holds: bool)

  /** The rule table, in the order it is checked. The 90% goal rate is
      compared by cross-multiplication instead of a floating-point quotient. */
  function RuleTable(s: BadgeInput): seq<Rule> {
    [ Rule(FirstWeek, s.totalDays >= 7),
      Rule(FirstMonth, s.totalDays >= 30),
      Rule(Streak5, s.streakDays >= 5),
      Rule(Streak10, s.streakDays >= 10),
      Rule(Streak30, s.streakDays >= 30),
      Rule(Streak100, s.streakDays >= 100),
      Rule(ZeroHero, s.totalAlcoholFreeDays >= 10),
      Rule(GoalAchiever, s.totalDays > 0 && 10 * s.daysWithinGoal >= 9 * s.totalDays) ]
  }

  /** The position of a badge's rule in the table; the two badges without
      a rule come after all of them. */
  function RankOf(b: BadgeType): nat {
    match b
    case FirstWeek => 0
    case FirstMonth => 1
    case Streak5 => 2
    case Streak10 => 3
    case Streak30 => 4
    case Streak100 => 5
    case ZeroHero => 6
    case GoalAchiever => 7
    case VoiceJournaler => 8
    case AiChatter => 8
  }

  /** Whether the badge check considers `b` earned by the figures `s`,
      stated per badge. The voice-journal and chat badges have no rule. */
  predicate Qualifies(b: BadgeType, s: BadgeInput) {
    match b
    case FirstWeek => s.totalDays >= 7
    case FirstMonth => s.totalDays >= 30
    case Streak5 => s.streakDays >= 5
    case Streak10 => s.streakDays >= 10
    case Streak30 => s.streakDays >= 30
    case Streak100 => s.streakDays >= 100
    case ZeroHero => s.totalAlcoholFreeDays >= 10
    case GoalAchiever => s.totalDays > 0 && 10 * s.daysWithinGoal >= 9 * s.totalDays
    case VoiceJournaler => false
    case AiChatter => false
  }

  /** `bs` lists badges in strictly increasing table position, so it has
      no duplicates. */
  predicate InTableOrder(bs: seq<BadgeType>) {
    forall i, j :: 0 <= i < j < |bs| ==> RankOf(bs[i]) < RankOf(bs[j])
  }

  /** What inserting an achievement row returned. */
  datatype InsertResult = Inserted | InsertError(code: string)

  /** The store's code for a unique-constraint violation. */
  const UniqueViolation := "23505"

  /** `useEarnBadge`: the inserted badge on success, nothing on a
      unique-constraint conflict (the badge was already earned), and the
      error itself for any other failure. */
  function EarnBadge(b: BadgeType, res: InsertResult): (r: Result<Option<BadgeType>, string>)
    ensures r == Success(Some(b)) <==> res.Inserted?
    ensures r == Success(None) <==> res == InsertError(UniqueViolation)
    ensures r.Failure? <==> res.InsertError? && res.code != UniqueViolation
    ensures r.Failure? ==> r.error == res.code
  {
    match res
    case Inserted => Success(Some(b))
    case InsertError(code) => if code == UniqueViolation then Success(None) else Failure(code)
  }

  /** The achievements cache is refreshed only after a successful call
      that returned a row. */
  predicate RefreshesAchievements(r: Result<Option<BadgeType>, string>) {
    r.Success? && r.value.Some?
  }

  /** A conflict is a silent no-op and any other error propagates. */
  lemma EarnBadgeConflictIsNoOp(b: BadgeType, res: InsertResult)
    ensures res == InsertError(UniqueViolation) ==>
              EarnBadge(b, res) == Success(None) && !RefreshesAchievements(EarnBadge(b, res))
    ensures RefreshesAchievements(EarnBadge(b, res)) <==> res.Inserted?
    ensures res.InsertError? && res.code != UniqueViolation ==> EarnBadge(b, res) == Failure(res.code)
  {
  }

  /** The loop of `checkAndAwardBadges` over `rules`: a badge whose rule
      holds and that is not yet unlocked is inserted, and reported when the
      insert returned a row; conflicts and errors are passed over. */
  function AwardRules(rules: seq<Rule>, unlocked: seq<BadgeType>, db: BadgeType -> InsertResult): (r: seq<BadgeType>)
    requires forall i, j :: 0 <= i < j < |rules| ==> RankOf(rules[i].badge) < RankOf(rules[j].badge)
    ensures forall b :: b in r <==>
              (exists i :: 0 <= i < |rules| && rules[i] == Rule(b, true)) && b !in unlocked && db(b).Inserted?
    ensures forall x :: x in r ==> exists i :: 0 <= i < |rules| && rules[i].badge == x
    ensures InTableOrder(r)
  {
    if |rules| == 0 then []
    else
      var rest := AwardRules(rules[1..], unlocked, db);
      var b := rules[0].badge;
      var reported :=
        rules[0].holds && b !in unlocked && EarnBadge(b, db(b)) == Success(Some(b));
      var r := if reported then [b] + rest else rest;
      AwardConsMembers(rules, unlocked, db, rest, r);
      AwardConsOrigin(rules, rest, r);
      AwardConsOrder(rules, rest, r);
      r
  }
  /** The step of `AwardRules`: the head badge is reported in front of the
      tail's result exactly when its rule holds, it is new and the insert
      went through. */
  lemma AwardConsMembers(rules: seq<Rule>, unlocked: seq<BadgeType>, db: BadgeType -> InsertResult,
                         rest: seq<BadgeType>, r: seq<BadgeType>)
    requires |rules| > 0
    requires forall b :: b in rest <==>
               (exists i :: 0 <= i < |rules[1..]| && rules[1..][i] == Rule(b, true)) && b !in unlocked && db(b).Inserted?
    requires var b := rules[0].badge;
      r == if rules[0].holds && b !in unlocked && db(b).Inserted? then [b] + rest else rest
    ensures forall b :: b in r <==>
              (exists i :: 0 <= i < |rules| && rules[i] == Rule(b, true)) && b !in unlocked && db(b).Inserted?
  {
    RuleSplit(rules);
    assert forall x :: x in [rules[0].badge] + rest <==> x == rules[0].badge || x in rest;
  }

  lemma AwardConsOrigin(rules: seq<Rule>, rest: seq<BadgeType>, r: seq<BadgeType>)
    requires |rules| > 0
    requires forall x :: x in rest ==> exists i :: 0 <= i < |rules[1..]| && rules[1..][i].badge == x
    requires r == rest || r == [rules[0].badge] + rest
    ensures forall x :: x in r ==> exists i :: 0 <= i < |rules| && rules[i].badge == x
  {
    forall x | x in r ensures exists i :: 0 <= i < |rules| && rules[i].badge == x {
      if x in rest {
        var i :| 0 <= i < |rules[1..]| && rules[1..][i].badge == x;
        assert rules[i + 1].badge == x;
      } else {
        assert rules[0].badge == x;
      }
    }
  }

  lemma AwardConsOrder(rules: seq<Rule>, rest: seq<BadgeType>, r: seq<BadgeType>)
    requires |rules| > 0
    requires forall i, j :: 0 <= i < j < |rules| ==> RankOf(rules[i].badge) < RankOf(rules[j].badge)
    requires forall x :: x in rest ==> exists i :: 0 <= i < |rules[1..]| && rules[1..][i].badge == x
    requires InTableOrder(rest)
    requires r == rest || r == [rules[0].badge] + rest
    ensures InTableOrder(r)
  {
    RestRanksAbove(rules, rest);
    if r != rest {
      forall i, j | 0 <= i < j < |r| ensures RankOf(r[i]) < RankOf(r[j]) {
        assert r[j] == rest[j - 1];
        if i > 0 {
          assert r[i] == rest[i - 1];
        } else {
          assert rest[j - 1] in rest;
        }
      }
    }
  }

  /** The badges of a table's tail rank above its head's. */
  lemma RestRanksAbove(rules: seq<Rule>, rest: seq<BadgeType>)
    requires |rules| > 0
    requires forall i, j :: 0 <= i < j < |rules| ==> RankOf(rules[i].badge) < RankOf(rules[j].badge)
    requires forall x :: x in rest ==> exists i :: 0 <= i < |rules[1..]| && rules[1..][i].badge == x
    ensures forall x :: x in rest ==> RankOf(rules[0].badge) < RankOf(x)
  {
    forall x | x in rest ensures RankOf(rules[0].badge) < RankOf(x) {
      var i :| 0 <= i < |rules[1..]| && rules[1..][i].badge == x;
      assert rules[i + 1].badge == x;
    }
  }

  /** A holding rule is the head or in the tail. */
  lemma RuleSplit(rules: seq<Rule>)
    requires |rules| > 0
    ensures forall x :: (exists i :: 0 <= i < |rules| && rules[i] == Rule(x, true)) <==>
              (rules[0] == Rule(x, true) || exists i :: 0 <= i < |rules[1..]| && rules[1..][i] == Rule(x, true))
  {
    forall x ensures (exists i :: 0 <= i < |rules| && rules[i] == Rule(x, true)) ==>
                       (rules[0] == Rule(x, true) || exists i :: 0 <= i < |rules[1..]| && rules[1..][i] == Rule(x, true)) {
      if i :| 0 <= i < |rules| && rules[i] == Rule(x, true) {
        if i > 0 {
          assert rules[1..][i - 1] == Rule(x, true);
        }
      }
    }
  }


  /** Every table row's badge sits at its own table position. */
  lemma RuleTableRanks(s: BadgeInput)
    ensures forall i :: 0 <= i < |RuleTable(s)| ==> RankOf(RuleTable(s)[i].badge) == i
  {
  }

  /** A row of the table holds exactly for the badges that qualify. */
  lemma RuleTableMeansQualifies(s: BadgeInput, b: BadgeType)
    ensures (exists i :: 0 <= i < |RuleTable(s)| && RuleTable(s)[i] == Rule(b, true)) <==> Qualifies(b, s)
  {
    var t := RuleTable(s);
    if Qualifies(b, s) {
      assert t[RankOf(b)] == Rule(b, true);
    }
  }

  /** `checkAndAwardBadges` as intended, consulting the badges already
      unlocked: the badges reported are exactly those that qualify, were not
      unlocked before and whose insert returned a row; in table order,
      without duplicates, and never the voice-journal or chat badge. The
      hook as written passes an empty list (`CheckAndAwardAsWritten`). */
  function CheckAndAwardBadges(s: BadgeInput, unlocked: seq<BadgeType>, db: BadgeType -> InsertResult): (r: seq<BadgeType>)
    ensures forall b :: b in r <==> Qualifies(b, s) && b !in unlocked && db(b).Inserted?
    ensures InTableOrder(r)
    ensures VoiceJournaler !in r && AiChatter !in r
  {
    RuleTableRanks(s);
    forall b ensures (exists i :: 0 <= i < |RuleTable(s)| && RuleTable(s)[i] == Rule(b, true)) <==> Qualifies(b, s) {
      RuleTableMeansQualifies(s, b);
    }
    AwardRules(RuleTable(s), unlocked, db)
  }

  /** The store accepting every insert. */
  function AllInserted(b: BadgeType): InsertResult {
    Inserted
  }

  /** When every insert succeeds, the check reports every qualifying badge
      that is not yet unlocked. */
  lemma AwardsAllNewlyQualified(s: BadgeInput, unlocked: seq<BadgeType>, b: BadgeType)
    ensures b in CheckAndAwardBadges(s, unlocked, AllInserted) <==> Qualifies(b, s) && b !in unlocked
  {
  }

  /** Running the check again with the first run's badges added to the
      unlocked list reports none of them again and, against the same store
      replies, reports nothing at all. */
  lemma CheckAndAwardIdempotent(s: BadgeInput, unlocked: seq<BadgeType>, db: BadgeType -> InsertResult,
                                db2: BadgeType -> InsertResult)
    ensures var first := CheckAndAwardBadges(s, unlocked, db);
      && (forall b :: b in CheckAndAwardBadges(s, unlocked + first, db2) ==> b !in first && b !in unlocked)
      && CheckAndAwardBadges(s, unlocked + first, db) == []
  {
    NoMemberMeansEmpty(CheckAndAwardBadges(s, unlocked + CheckAndAwardBadges(s, unlocked, db), db));
  }

  lemma NoMemberMeansEmpty(xs: seq<BadgeType>)
    requires forall x :: x !in xs
    ensures xs == []
  {
    if xs != [] {
      HeadIsMember(xs);
      assert false;
    }
  }

  lemma HeadIsMember(xs: seq<BadgeType>)
    requires |xs| > 0
    ensures xs[0] in xs
  {
  }

  /** `checkAndAwardBadges` as the hook wires it up. `useUnlockedBadges`
      returns the array of earned badges itself, but the hook reads a
      `data` field from it; an array has none, so the default `[]` is taken
      and the earned badges are never consulted. Every qualifying badge is
      inserted again, and reported whenever the store accepts the row. */
  function CheckAndAwardAsWritten(s: BadgeInput, earned: seq<BadgeType>, db: BadgeType -> InsertResult): (r: seq<BadgeType>)
    ensures forall b :: b in r <==> Qualifies(b, s) && db(b).Inserted?
    ensures InTableOrder(r)
  {
    CheckAndAwardBadges(s, [], db)
  }

  /** A first week already earned is reported again by the hook as written
      when the store accepts the row, while the intended check skips it. */
  lemma AsWrittenRetriesEarned(s: BadgeInput, earned: seq<BadgeType>)
    requires s == BadgeInput(7, 0, 0, 0, 0) && earned == [FirstWeek]
    ensures FirstWeek in CheckAndAwardAsWritten(s, earned, AllInserted)
    ensures FirstWeek !in CheckAndAwardBadges(s, earned, AllInserted)
  {
  }

  /** What the program relies on instead: when the store refuses every
      earned badge with a unique-constraint conflict, the hook as written
      reports exactly what the intended check reports. */
  lemma ConflictsHideEmptyList(s: BadgeInput, earned: seq<BadgeType>, db: BadgeType -> InsertResult)
    requires forall b :: b in earned ==> db(b) == InsertError(UniqueViolation)
    ensures CheckAndAwardAsWritten(s, earned, db) == CheckAndAwardBadges(s, earned, db)
  {
    RuleTableRanks(s);
    AwardIgnoresConflicting(RuleTable(s), earned, db);
  }

  /** Badges the store refuses are never reported, so leaving them out of
      the unlocked list changes nothing. */
  lemma {:induction false} AwardIgnoresConflicting(rules: seq<Rule>, unlocked: seq<BadgeType>, db: BadgeType -> InsertResult)
    requires forall i, j :: 0 <= i < j < |rules| ==> RankOf(rules[i].badge) < RankOf(rules[j].badge)
    requires forall b :: b in unlocked ==> db(b) == InsertError(UniqueViolation)
    ensures AwardRules(rules, [], db) == AwardRules(rules, unlocked, db)
  {
    if |rules| > 0 {
      AwardIgnoresConflicting(rules[1..], unlocked, db);
    }
  }

  /** A second run of the hook as written reports none of the first run's
      badges again, provided the store now answers each of them with the
      unique-constraint conflict. */
  lemma RerunReliesOnConflicts(s: BadgeInput, earned1: seq<BadgeType>, earned2: seq<BadgeType>,
                              db: BadgeType -> InsertResult, db2: BadgeType -> InsertResult)
    requires forall b :: b in CheckAndAwardAsWritten(s, earned1, db) ==> db2(b) == InsertError(UniqueViolation)
    ensures forall b :: b in CheckAndAwardAsWritten(s, earned2, db2) ==> b !in CheckAndAwardAsWritten(s, earned1, db)
  {
  }

  /** The thresholds nest: each streak badge implies the shorter ones, and
      the first month implies the first week. */
  lemma QualificationsNest(s: BadgeInput)
    ensures Qualifies(Streak100, s) ==> Qualifies(Streak30, s)
    ensures Qualifies(Streak30, s) ==> Qualifies(Streak10, s)
    ensures Qualifies(Streak10, s) ==> Qualifies(Streak5, s)
    ensures Qualifies(FirstMonth, s) ==> Qualifies(FirstWeek, s)
  {
  }

  /** 9 of 10 days within goal reaches the 90% rate, 8 of 10 does not. */
  lemma GoalAchieverBoundary()
    ensures Qualifies(GoalAchiever, BadgeInput(10, 0, 0, 0, 9))
    ensures !Qualifies(GoalAchiever, BadgeInput(10, 0, 0, 0, 8))
  {
  }

  /** The longest streak handed to the check is never consulted. */
  lemma LongestStreakIgnored(s: BadgeInput, longest: nat, unlocked: seq<BadgeType>, db: BadgeType -> InsertResult)
    ensures CheckAndAwardBadges(s.(longestStreak := longest), unlocked, db)
         == CheckAndAwardBadges(s, unlocked, db)
  {
    assert RuleTable(s.(longestStreak := longest)) == RuleTable(s);
  }

  /** A `user_points` row as read; every column may be null. */
  datatype PointsRow = PointsRow(points: Option<int>, streakDays: Option<int>, longestStreak: Option<int>)

  /** The store's reply to reading the row: the row, or an error code
      (`PGRST116` meaning that there is no row). */
  datatype FetchResult = Found(row: PointsRow) | FetchError(code: string)

  const NoRows := "PGRST116"

  /** The columns an update writes; `None` leaves a column out. */
  datatype PointsUpdate = PointsUpdate(points: Option<int>, streakDays: Option<int>, longestStreak: Option<int>)

  /** Either nothing is written and the current row is returned, or the
      update is upserted. */
  datatype UpdateOutcome = Unchanged(current: Option<PointsRow>) | Upserted(update: PointsUpdate)

  /** A null column reads as 0. */
  function OrZero(v: Option<int>): int {
    v.GetOr(0)
  }

  /** `useUpdatePoints`: points are added to the current total, the longest
      streak becomes the larger of the stored and the new one, the current
      streak is replaced, and with no field supplied nothing is written. */
  function UpdatePoints(fetched: FetchResult, pointsToAdd: Option<int>, newStreak: Option<int>,
                        newLongestStreak: Option<int>): (r: Result<UpdateOutcome, string>)
    ensures r.Failure? <==> fetched.FetchError? && fetched.code != NoRows
    ensures r.Success? ==>
      var current := if fetched.Found? then Some(fetched.row) else None;
      var stored := if fetched.Found? then fetched.row else PointsRow(None, None, None);
      if pointsToAdd.None? && newStreak.None? && newLongestStreak.None? then
        r.value == Unchanged(current)
      else
        && r.value.Upserted?
        && (pointsToAdd.Some? <==> r.value.update.points.Some?)
        && (pointsToAdd.Some? ==> r.value.update.points.value == OrZero(stored.points) + pointsToAdd.value)
        && r.value.update.streakDays == newStreak
        && (newLongestStreak.Some? <==> r.value.update.longestStreak.Some?)
        && (newLongestStreak.Some? ==>
              && r.value.update.longestStreak.value >= OrZero(stored.longestStreak)
              && r.value.update.longestStreak.value >= newLongestStreak.value
              && (r.value.update.longestStreak.value == OrZero(stored.longestStreak)
                  || r.value.update.longestStreak.value == newLongestStreak.value))
  {
    if fetched.FetchError? && fetched.code != NoRows then Failure(fetched.code)
    else
      var current := if fetched.Found? then Some(fetched.row) else None;
      var stored := if fetched.Found? then fetched.row else PointsRow(None, None, None);
      var points := if pointsToAdd.Some? then Some(OrZero(stored.points) + pointsToAdd.value) else None;
      var longest :=
        if newLongestStreak.Some? then
          var was := OrZero(stored.longestStreak);
          Some(if was >= newLongestStreak.value then was else newLongestStreak.value)
        else None;
      if points.None? && newStreak.None? && longest.None? then Success(Unchanged(current))
      else Success(Upserted(PointsUpdate(points, newStreak, longest)))
  }
}
