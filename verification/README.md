# Inzicht Coach — a Dafny model of the app's rules

Inzicht Coach is a mobile app for keeping a daily log of alcohol use, with
statistics, badges, a chat coach and a voice journal. Most of the app is
screens and calls to its Supabase back end. Under that sits a small set of
pure rules, and this project models them as immutable datatypes and pure
functions, with the properties they promise proved as contracts and lemmas.
The rules modelled are:

- **Statistics.** The progress figures computed from a user's date-ordered
  daily logs, and the seven-day summary (`stats.dfy`). `ComputeUserStats`
  is the hook's single pass with its two streak scans. It is proved equal to
  recursive reference definitions over the sequence of drink counts.
- **Badges and points.** The badge rule table of `checkAndAwardBadges`, the
  conflict handling of `useEarnBadge` and the points merge of
  `useUpdatePoints` (`gamification.dfy`).
- **Saving a log.** The per-save point award of `useCreateDailyLog`
  (`dailylogs.dfy`).
- **Validation.** `sanitizeString`, `validateRateLimit`, `validateAudioFile`
  and the explicit bounds of the form schemas (`validation.dfy`).
- **Edge functions.** The upload size gate and keyword sentiment classifier
  of the transcription function (`transcribe.dfy`), and the message check
  and context-window assembly of the chat function (`aichat.dfy`).
- **Screens.** The check chains of the login and registration screens
  (`login.dfy`, `register.dfy`).
- **Components.** The entry card's classification helpers (`logentry.dfy`),
  the detailed log form's submit logic and mood buttons (`logform.dfy`), and
  the voice recorder's duration text (`voicerecorder.dfy`).

Shared definitions live in `wrappers.dfy` (`Option`, `Result`), `text.dfy`
and `types.dfy`. `text.dfy` holds JavaScript's `\s` class, `trim`,
`toLowerCase` restricted to ASCII, and decimal digits. `types.dfy` holds
`Mood`, `BadgeType`, the log row and the statistics record.

The store, the clock and the remote services are parameters: the rows a
query returns, the store's reply to an insert, the time `now`, and the
transcription or chat model's reply. Amounts that the app keeps as
floating-point numbers are exact ratios. The 90% goal rate is compared by
cross-multiplication.

Some behaviours of the source are stated as proved facts rather than fixed:

- The save award uses a goal of 2 whatever the user configured. It differs
  from the statistics' points for every other goal.
- The save award is added again on every re-save of the same date.
- `sanitizeString` removes `<` and `>` after collapsing whitespace, so it
  can leave two spaces and is not idempotent.
- The registration screen and the detailed log form are laxer than the
  shared schemas.
- The badge check never sees the badges already earned. It reads a
  `data` field from the plain array that `useUnlockedBadges` returns, so it
  always works with an empty list and relies on the store's
  unique-constraint conflict to avoid reporting a badge twice. This is
  recorded under "## Findings".
- Pressing a mood button twice restores the earlier state only when no
  other mood was selected before. Starting from another mood, the two
  presses end with no mood at all (`LogForm.ToggleTwice`).

The password pattern `^(?=.*[a-z])(?=.*[A-Z])(?=.*\d)` is modelled as
written. Its lookaheads use `.`, which does not cross a line terminator, so
the three character classes must occur before the first line break. A
password that merely contains them somewhere is not enough
(`Validation.PasswordDigitAfterLineBreakRejected`).

## Model

| member | source | states |
|---|---|---|
| Stats.ComputeUserStats | src/hooks/useStats.ts:22-88 | The hook's counting passes, backward streak scan and forward longest-streak scan give exactly the reference snapshot of the drink counts; an empty history gives all zeros; totalDays is the number of logs |
| Stats.TrailingRunIsWithinSuffix | src/hooks/useStats.ts:41-49 | The current streak is a suffix of within-goal days that is the whole history or is preceded by an over-goal day |
| Stats.WithinSuffixAtMostTrailing | src/hooks/useStats.ts:41-49 | Any all-within-goal suffix is no longer than the current streak |
| Stats.TrailingRunUnique | src/hooks/useStats.ts:41-49 | A within-goal suffix that follows an over-goal day (or is everything) has exactly the current streak's length; dates play no part |
| Stats.LongestRunBoundsEveryRun | src/hooks/useStats.ts:51-62 | No contiguous within-goal stretch anywhere is longer than the longest streak |
| Stats.LongestRunIsAchieved | src/hooks/useStats.ts:51-62 | Some contiguous within-goal stretch has exactly the longest streak's length |
| Stats.LongestRunIsMaximum | src/hooks/useStats.ts:51-62 | The longest streak is the maximum length of a contiguous within-goal stretch |
| Stats.TrailingRunAtMostCountWithin | src/hooks/useStats.ts:37-49 | The current streak never exceeds the number of within-goal days |
| Stats.LongestRunAtMostCountWithin | src/hooks/useStats.ts:37-62 | The longest streak never exceeds the number of within-goal days |
| Stats.CountWithinAtMostLength | src/hooks/useStats.ts:36-37 | daysWithinGoal is at most totalDays |
| Stats.CountZeroAtMostCountWithin | src/hooks/useStats.ts:37-67 | Alcohol-free days are within every goal, so there are no more of them than within-goal days |
| Stats.PointsDecompose | src/hooks/useStats.ts:72-77 | Points are 5 per within-goal day plus 5 more per alcohol-free day (10, 5 or 0 per entry, zero checked first) |
| Stats.SnapshotBounds | src/hooks/useStats.ts:36-77 | streakDays <= longestStreak <= daysWithinGoal <= totalDays; 5 daysWithinGoal <= totalPoints <= 10 totalDays; moneySaved is 10 per alcohol-free day and caloriesSaved is 30 times moneySaved |
| Stats.OnlyDrinkCountsMatter | src/hooks/useStats.ts:36-77 | Histories that differ only in dates, notes or moods give the same statistics |
| Stats.Example32010 | src/hooks/useStats.ts:36-77 | Drink counts 3, 2, 0, 1, 0 with goal 2 give 5 days, 4 within goal, streaks of 4, 30 points, 20 saved and 600 calories |
| Stats.WeeklySummary | src/hooks/useStats.ts:114-124 | The weekly summary counts the logs, counts as alcohol-free exactly the logs with no drinks (the occurrences of 0 among the counts), totals the drinks and averages them, with average 0 when nothing was logged |
| Stats.CountZeroIsOccurrences | src/hooks/useStats.ts:117 | The recursive alcohol-free count equals the number of occurrences of 0 in the drink counts |
| Gamification.EarnBadge | src/hooks/useGamification.ts:110-128 | An insert yields the badge; a unique-constraint conflict (23505) yields nothing; any other error is raised with its code |
| Gamification.EarnBadgeConflictIsNoOp | src/hooks/useGamification.ts:120-133 | A conflict is a silent no-op that refreshes no cache; the cache is refreshed exactly when a row was inserted; other errors propagate |
| Gamification.AwardRules | src/hooks/useGamification.ts:219-237 | Over a rule list in strictly increasing table order, the reported badges are exactly those whose rule holds, that were not unlocked and whose insert returned a row, in table order and drawn from the rules |
| Gamification.RuleTableRanks | src/hooks/useGamification.ts:208-217 | The rule table lists its badges in table-position order |
| Gamification.RuleTableMeansQualifies | src/hooks/useGamification.ts:208-217 | A row of the table holds exactly for the badges whose threshold is met (7/30 days, streaks of 5/10/30/100, 10 alcohol-free days, a 90% goal rate) |
| Gamification.CheckAndAwardBadges | src/hooks/useGamification.ts:201-237 | The check as intended, consulting the unlocked badges: it returns exactly the qualifying, not yet unlocked, successfully inserted badges, without duplicates, in table order, and never the voice-journal or chat badge |
| Gamification.CheckAndAwardAsWritten | src/hooks/useGamification.ts:195-238 | The check as wired up: the earned badges are ignored, and it returns exactly the qualifying badges whose insert returned a row, in table order |
| Gamification.AsWrittenRetriesEarned | src/hooks/useGamification.ts:199-222 | With first_week already earned and seven days logged, the hook as written reports first_week again when the store accepts the row; the intended check does not |
| Gamification.ConflictsHideEmptyList | src/hooks/useGamification.ts:199-230 | When the store answers every earned badge with the 23505 conflict, the hook as written reports exactly what the intended check reports |
| Gamification.AwardIgnoresConflicting | src/hooks/useGamification.ts:221-230 | Over any rule list, badges the store refuses with a conflict can be left out of the unlocked list without changing the result |
| Gamification.RerunReliesOnConflicts | src/hooks/useGamification.ts:199-230 | A second run of the hook as written reports none of the first run's badges, provided the store answers each of them with the conflict |
| Gamification.AwardsAllNewlyQualified | src/hooks/useGamification.ts:221-230 | When every insert succeeds, every qualifying badge not yet unlocked is reported |
| Gamification.CheckAndAwardIdempotent | src/hooks/useGamification.ts:221-222 | For the intended check: re-running with the first result added to the unlocked list reports none of those badges again, and against the same store replies reports nothing |
| Gamification.QualificationsNest | src/hooks/useGamification.ts:209-214 | streak_100 implies streak_30 implies streak_10 implies streak_5, and first_month implies first_week |
| Gamification.GoalAchieverBoundary | src/hooks/useGamification.ts:216 | 9 of 10 days within goal earns goal_achiever and 8 of 10 does not |
| Gamification.LongestStreakIgnored | src/hooks/useGamification.ts:201-217 | The longestStreak input never influences the result |
| Gamification.UpdatePoints | src/hooks/useGamification.ts:148-187 | A fetch error other than "no rows" is raised; otherwise new points are the stored points (null as 0) plus the addition, the longest streak is the maximum of stored and new, the current streak is replaced, and with nothing supplied nothing is written and the current row is returned |
| DailyLogs.SaveAward | src/hooks/useDailyLogs.ts:75 | The save award is 10 for no drinks, 5 for one or two, 0 above two; it is always 0, 5 or 10 and equals the statistics' per-entry points at goal 2 |
| DailyLogs.SaveAwardDivergesFromStats | src/hooks/useDailyLogs.ts:75 | For every goal other than 2 some drink count is awarded differently on save than the statistics count it |
| DailyLogs.CreateDailyLog | src/hooks/useDailyLogs.ts:63-85 | A failed upsert raises its error and makes no ledger call; a successful one returns the stored row and calls the points update exactly when the award is positive, with the award |
| DailyLogs.RepeatedSavesAddEachTime | src/hooks/useDailyLogs.ts:63-83 | Saving the same log k times keeps one row for its date but adds the award k times |
| DailyLogs.LedgerOvercountsResaves | src/hooks/useDailyLogs.ts:63-83 | From nothing, k >= 2 saves of a within-goal log leave a ledger larger than the points recomputed from the stored row |
| Validation.RemoveAngles | src/utils/validation.ts:87 | Removing angle brackets leaves no `<` or `>`, adds no character, never lengthens, and changes nothing in text without them |
| Validation.RemoveAnglesKeepsOthers | src/utils/validation.ts:87 | Every character other than `<` and `>` is kept as often as it occurs, and every `<` and `>` is dropped |
| Validation.RemoveAnglesAppend | src/utils/validation.ts:87 | Removal works piece by piece: on a concatenation it gives the concatenation of the two results, so the kept characters stay in order |
| Validation.CollapseKeepsNonSpace | src/utils/validation.ts:86 | Collapsing whitespace runs keeps the non-whitespace characters in order |
| Validation.CollapseOnlyPlainSpace | src/utils/validation.ts:86 | After collapsing, the only whitespace character left is the plain space |
| Validation.CollapseNoAdjacentSpace | src/utils/validation.ts:86 | After collapsing, no two whitespace characters are adjacent |
| Validation.CollapseLast | src/utils/validation.ts:86 | The collapsed text ends in whitespace exactly when the input does |
| Validation.CollapseIsSingleSpaced | src/utils/validation.ts:86 | Collapsing equals splitting at whitespace runs and joining the pieces with one space each: each run between two words becomes exactly one space, and a leading or trailing run one leading or trailing space |
| Validation.SanitizeString | src/utils/validation.ts:83-88 | Sanitising never lengthens its input, and its non-whitespace characters are exactly the input's other than `<` and `>`, in their order |
| Validation.TrimKeepsNonSpace | src/utils/validation.ts:85 | Trimming keeps every non-whitespace character of the input |
| Validation.NonSpaceRemoveAngles | src/utils/validation.ts:86-87 | Dropping whitespace and removing angle brackets commute, so the collapse before the removal does not change which other characters survive |
| Validation.SanitizeStringCharset | src/utils/validation.ts:83-88 | The sanitised text holds no `<`, `>` or whitespace other than the plain space |
| Validation.SanitizeWithoutAngles | src/utils/validation.ts:84-87 | Without angle brackets in the input, sanitising is trimming and collapsing |
| Validation.SanitizeStringTidy | src/utils/validation.ts:84-87 | For input without angle brackets the result has no whitespace at either end and no two spaces in a row |
| Validation.SanitizeKeepsSpacesAroundAngle | src/utils/validation.ts:84-87 | "x < y" sanitises to "x  y" with two spaces, because the bracket is removed after collapsing |
| Validation.SanitizeCollapsesDoubleSpace | src/utils/validation.ts:84-87 | "x  y" sanitises to "x y", so sanitising is not idempotent |
| Validation.ValidateRateLimit | src/utils/validation.ts:127-146 | Allowed exactly when a full window has passed since the last attempt; then 0 time remains, otherwise the remaining time completes the window |
| Validation.RateLimitDefaults | src/utils/validation.ts:127-146 | With the default window of 60000 ms an attempt is allowed exactly a full minute after the last one, and one second after it 59000 ms remain |
| Validation.MaxAttemptsIgnored | src/utils/validation.ts:127-146 | The attempt limit has no effect on the result |
| Validation.ValidateAudioFile | src/utils/validation.ts:149-162 | Valid exactly when the size is at most 50 MiB and the type is one of the five audio types; an oversized file reports the size error whatever its type |
| Validation.FirstLine | src/utils/validation.ts:14 | The text a lookahead `.*` from the start can see: the prefix before the first line terminator |
| Validation.PasswordIssues | src/utils/validation.ts:10-14 | No issue exactly when the length is 8..128 and a lower-case letter, an upper-case letter and a digit occur before the first line break; too short, too long and the missing character class are each reported exactly when their check fails, in the order of the checks |
| Validation.PasswordSingleLine | src/utils/validation.ts:10-14 | A single-line password of allowed length passes exactly when it has a lower-case letter, an upper-case letter and a digit, and otherwise reports only the missing class |
| Validation.PasswordAccepted | src/utils/validation.ts:10-14 | "Abcdefg1" passes the password schema |
| Validation.PasswordWithoutUpperRejected | src/utils/validation.ts:10-14 | "abcdefgh" reports only the missing character class |
| Validation.PasswordDigitAfterLineBreakRejected | src/utils/validation.ts:10-14 | "Abcdefg\n1" is refused because its only digit follows a line break |
| Validation.RegisterSchemaNeedsMatch | src/utils/validation.ts:28-36 | Unequal password and confirmation are always refused; an accepted pair has 8..128 characters |
| Validation.ProfileUpdateFieldwise | src/utils/validation.ts:38-42 | The profile fields are checked independently: an update is accepted exactly when each of its fields is accepted alone, leaving a field out never turns acceptance into refusal, and the empty update is accepted |
| Validation.ProfileGoalExamples | src/utils/validation.ts:40-41 | The default goal of 2 is accepted for both goals, a fractional daily goal of 2.5 is accepted, and 10.5 drinks a day or -0.5 a week are refused |
| Validation.DailyLogSchemaExamples | src/utils/validation.ts:45-50 | "2024-13-45" passes the date shape (no calendar check), "2024-1-5" does not, 51 drinks is refused and 50 accepted |
| Validation.ChatMessageAccepts | src/utils/validation.ts:55-61 | A chat message is accepted exactly when it has 1 to 2000 characters and is not whitespace only |
| Transcribe.SplitWords | supabase/functions/transcribe-audio/index.ts:112 | Splitting on whitespace runs gives at least one word, no word holds whitespace, only the first and last word can be empty, and text that starts with a non-space starts with a non-empty word |
| Transcribe.SplitWordsRejoin | supabase/functions/transcribe-audio/index.ts:112 | Putting the removed whitespace runs (non-empty and blank, one between each two words) back between the words gives the text |
| Transcribe.SplitIsUnique | supabase/functions/transcribe-audio/index.ts:112 | Any cut of the text into whitespace-free pieces, non-empty except possibly the first and last, separated by non-empty whitespace runs, is the split |
| Transcribe.SplitWordsAreInfixes | supabase/functions/transcribe-audio/index.ts:112 | Every word of the split is a substring of the text |
| Transcribe.SingleWord | supabase/functions/transcribe-audio/index.ts:112 | A text without whitespace splits into itself alone |
| Transcribe.Score | supabase/functions/transcribe-audio/index.ts:113-119 | A score counts words that mention a keyword, so it never exceeds the number of words |
| Transcribe.ScoreZero | supabase/functions/transcribe-audio/index.ts:116-119 | A score is zero when no word contains a keyword |
| Transcribe.AnalyzeSentiment | supabase/functions/transcribe-audio/index.ts:108-124 | Positive exactly when the positive score is larger, negative exactly when the negative one is, neutral exactly on a tie; both scores are at most the number of words |
| Transcribe.SentimentIgnoresCase | supabase/functions/transcribe-audio/index.ts:112 | An upper-cased transcript gets the same sentiment as the original, which is what lower-casing before matching is for |
| Transcribe.NoKeywordsIsNeutral | supabase/functions/transcribe-audio/index.ts:108-124 | Text whose lower-cased form contains no keyword scores zero on both lists and is neutral |
| Transcribe.EmptyIsNeutral | supabase/functions/transcribe-audio/index.ts:108-124 | The empty transcript is neutral |
| Transcribe.OneWordCountsForBoth | supabase/functions/transcribe-audio/index.ts:116-118 | A lower-case word containing a positive and a negative keyword counts once on each list, and the text is a tie |
| Transcribe.BothKeywordsTie | supabase/functions/transcribe-audio/index.ts:116-123 | "goedslecht" is neutral |
| Transcribe.PrefixedKeywordCounts | supabase/functions/transcribe-audio/index.ts:117-118 | "stressvol" scores one on the negative list, since matching is by substring |
| Transcribe.LowerWord | supabase/functions/transcribe-audio/index.ts:112 | A lower-case text of letters is its own single word after lower-casing and splitting |
| Transcribe.LoneWordScore | supabase/functions/transcribe-audio/index.ts:116-119 | A lone word containing a keyword scores exactly one |
| Transcribe.HandleTranscription | supabase/functions/transcribe-audio/index.ts:41-85 | No file and a file over 25 MiB are refused before the service is consulted; a transcript is returned exactly for an allowed size and a non-empty service reply, with its sentiment and the size as duration |
| AiChat.RecentHistory | supabase/functions/ai-chat/index.ts:84 | The last min(10, length) history turns, in their original order |
| AiChat.AssembleMessages | supabase/functions/ai-chat/index.ts:82-86 | The list has 2 to 12 turns: the system prompt first, the user's message last, and the recent history in between |
| AiChat.NoHistoryGivesTwoTurns | supabase/functions/ai-chat/index.ts:75-86 | An empty or missing history gives exactly the system turn and the user turn |
| AiChat.OlderTurnsIgnored | supabase/functions/ai-chat/index.ts:84 | Turns older than the last ten have no influence on what is sent |
| AiChat.RecentTurnsKept | supabase/functions/ai-chat/index.ts:84 | Every turn within the last ten is passed on unchanged at its position |
| AiChat.HandleChat | supabase/functions/ai-chat/index.ts:75-115 | A missing, non-string or empty message is refused; otherwise the answer is returned exactly when the model replied with non-empty content for the assembled list |
| Login.MatchesIsWellFormed | app/auth/login.tsx:29 | An address the pattern accepts has no whitespace, exactly one `@` with something before it, and an inner dot after it |
| Login.WellFormedMatches | app/auth/login.tsx:29 | Every such well-formed address is accepted by the pattern |
| Login.EmailPatternMeansWellFormed | app/auth/login.tsx:29 | The email pattern accepts exactly the well-formed addresses |
| Login.HandleLogin | app/auth/login.tsx:27-42 | Sign-in happens exactly when the address is well formed and the password non-empty; a bad address is reported first, hiding a missing password |
| Register.HandleRegister | app/auth/register.tsx:17-35 | Missing fields are reported first, then a mismatch, then a password under 6 characters; sign-up happens exactly when all three pass, with the fields unchanged |
| Register.ShortMismatchReportsMismatch | app/auth/register.tsx:18-31 | A short pair that differs reports the mismatch, not the length |
| Register.ShortPasswordPassesScreen | app/auth/register.tsx:28-35 | A 6- or 7-character password reaches sign-up though the password schema finds it too short |
| Register.LowerCasePasswordPassesScreen | app/auth/register.tsx:28-35 | An all-lower-case password of 8..128 characters reaches sign-up though the password schema reports the missing character class |
| LogEntry.CardGoal | src/components/logbook/LogEntry.tsx:12 | The card's goal defaults to 2 |
| LogEntry.EntryStatus | src/components/logbook/LogEntry.tsx:13-35 | "Alcoholvrij" exactly for no drinks whatever the goal, "Doel gehaald" exactly for other within-goal days, "Over limiet" exactly above the goal |
| LogEntry.StatusColor | src/components/logbook/LogEntry.tsx:25-29 | The success colour exactly for alcohol-free or within-goal days, the warning colour otherwise |
| LogEntry.ColourMatchesStatus | src/components/logbook/LogEntry.tsx:13-35 | Colour and status agree, and "not over the limit" is the statistics' within-goal predicate |
| LogEntry.UnitLabel | src/components/logbook/LogEntry.tsx:68 | "glas" exactly for one drink, "glazen" otherwise |
| LogEntry.MoodEmoji | src/components/logbook/LogEntry.tsx:37-46 | A name gets the icon of the mood with that name, and no icon exactly when no mood has it |
| LogEntry.MoodEmojiCoversAllMoods | src/components/logbook/LogEntry.tsx:37-46 | Every one of the five moods has its own icon |
| LogEntry.CardMood | src/components/logbook/LogEntry.tsx:70-74 | A log without a mood shows no icon, one with a mood shows that mood's icon |
| LogForm.LeadingDigits | src/components/logbook/DetailedLogForm.tsx:36 | The longest prefix of decimal digits |
| LogForm.ParseSkipsSpaces | src/components/logbook/DetailedLogForm.tsx:36 | Leading whitespace does not change the number read |
| LogForm.ParseDigitPrefix | src/components/logbook/DetailedLogForm.tsx:36 | Digits followed by a non-digit read as the digits' value |
| LogForm.ParseNegativePrefix | src/components/logbook/DetailedLogForm.tsx:36 | A minus sign before digits reads as the negated value |
| LogForm.ParseNotANumber | src/components/logbook/DetailedLogForm.tsx:36 | Blank text, or text whose first non-space character is neither a sign nor a digit, is not a number |
| LogForm.ParseIntRoundTrip | src/components/logbook/DetailedLogForm.tsx:23-36 | Reading back the decimal text of a count gives the count |
| LogForm.CleanNotes | src/components/logbook/DetailedLogForm.tsx:44 | Notes are absent exactly when blank, and otherwise trimmed |
| LogForm.HandleSubmit | src/components/logbook/DetailedLogForm.tsx:35-47 | Submitted exactly when the text parses to a non-negative number, with that count, the cleaned notes and the selected mood; otherwise the count alert |
| LogForm.SubmitDigits | src/components/logbook/DetailedLogForm.tsx:36-46 | Text starting with digits submits the digits' value, with no upper bound |
| LogForm.SubmitReadsLeadingDigits | src/components/logbook/DetailedLogForm.tsx:36-37 | "3abc" submits 3 |
| LogForm.SubmitTruncatesFraction | src/components/logbook/DetailedLogForm.tsx:36-37 | "1.5" submits 1 |
| LogForm.SubmitRefusesNegative | src/components/logbook/DetailedLogForm.tsx:36-40 | "-1" is refused |
| LogForm.SubmitRefusesText | src/components/logbook/DetailedLogForm.tsx:36-40 | "abc" is refused |
| LogForm.FormLaxerThanSchema | src/components/logbook/DetailedLogForm.tsx:36-46 | "51" is submitted though the daily-log schema refuses 51 drinks |
| LogForm.SubmitMeetsSchemaExactly | src/components/logbook/DetailedLogForm.tsx:35-47 | A submitted count with the cleaned notes passes the daily-log schema exactly when the date has the required shape, the count is at most 50 and the trimmed notes are at most 1000 characters |
| LogForm.ToggleMood | src/components/logbook/DetailedLogForm.tsx:84 | Pressing the selected mood clears it; pressing any other selects it |
| LogForm.ToggleTwice | src/components/logbook/DetailedLogForm.tsx:84 | Two presses of one button restore the earlier state exactly when it was no mood or that mood; from another mood they end with none |
| LogForm.ToggleSelectsOnlyPressed | src/components/logbook/DetailedLogForm.tsx:84 | After a press, the only mood that can be selected is the pressed one |
| VoiceRecorder.Seconds | src/components/voice/VoiceRecorder.tsx:72-74 | The seconds are below 60 and minutes times 60 plus seconds is the whole number of seconds |
| VoiceRecorder.PadStart | src/components/voice/VoiceRecorder.tsx:75 | Padding keeps the text as a suffix, fills the front with the fill character and reaches the width |
| VoiceRecorder.TwoDigitSeconds | src/components/voice/VoiceRecorder.tsx:75 | The padded seconds are exactly two digits of the same value |
| VoiceRecorder.FormatDuration | src/components/voice/VoiceRecorder.tsx:71-76 | The text is decimal minutes without a leading zero, a colon and two digits; reading both parts back gives the minutes and the seconds |
| VoiceRecorder.FormatDurationSameSeconds | src/components/voice/VoiceRecorder.tsx:71-76 | Two durations show the same text exactly when they have the same whole number of seconds |
| VoiceRecorder.FormatDurationMonotone | src/components/voice/VoiceRecorder.tsx:72-74 | A longer recording never shows an earlier (minutes, seconds) pair |
| VoiceRecorder.FormatDurationExamples | src/components/voice/VoiceRecorder.tsx:71-76 | 75000 ms shows "1:15" and 5999 ms shows "0:05" |
| Text.Trim | src/utils/validation.ts:85 | Trimming leaves a piece of the text with only whitespace before and after it, which is empty exactly for blank text and otherwise starts and ends with non-whitespace |
| Text.TrimIsUnique | src/utils/validation.ts:85 | Any piece of the text with only whitespace around it that is empty or starts and ends with non-whitespace is the trimmed text |
| Text.NatToString | src/components/voice/VoiceRecorder.tsx:75 | The decimal text of a count is non-empty digits without a leading zero whose value is the count |
| Text.ToLowerAscii | supabase/functions/transcribe-audio/index.ts:112 | Lower-casing keeps the length, leaves no ASCII capital, changes no other character, and turns each capital into the small letter at the same place in the alphabet |
| Text.LowerIsIdempotent | supabase/functions/transcribe-audio/index.ts:112 | Lower-casing lower-cased text changes nothing |
| Text.LowerOfUpper | supabase/functions/transcribe-audio/index.ts:112 | Lower-casing forgets case: upper-casing first gives the same lower-cased text |

## Left out

- Supabase queries, upserts, the `update_user_points` call, auth, JWT checks and CORS are left out. Query results, insert replies and the clock are parameters.
- The speech-to-text and chat model calls are left out. Their replies are parameters, and the response JSON is not parsed.
- The coach system prompt text, the badge titles and descriptions, and the emoji glyphs are opaque: the status labels omit their icons and moods map to an `Icon` value.
- The date filter of the weekly summary runs in the database on the clock's date. `Stats.WeeklySummary` receives the rows already filtered.
- Floating-point averages are exact ratios. The 90% rate is compared by cross-multiplication, which differs from the double comparison only for totals beyond about 10^15 days.
- Drink counts and goals are natural numbers; negative values from the store are not modelled.
- Stats.ComputeUserStats: the daily goal is a natural number. The profile schema admits a fractional goal such as 2.5. For whole drink counts, such a goal acts as its integer part.
- DailyLogs.RepeatedSavesAddEachTime: the store is assumed to keep one row per date, with a re-save replacing it. The upsert at src/hooks/useDailyLogs.ts:63-70 passes neither `onConflict` nor an `id`, so the outcome depends on the table's constraints. With a unique constraint on user and date the re-save fails. Without one it adds a second row, which the statistics then count too. Neither alternative is modelled.
- DailyLogs.LedgerOvercountsResaves: rests on the same replace-by-date assumption. If a re-save adds a second row, the recomputed points grow with it.
- Text.ToLowerAscii: maps only A to Z. JavaScript's `toLowerCase` maps other letters too, and some of them to ASCII: U+212A KELVIN SIGN becomes `k`, and U+0130 becomes `i` followed by U+0307. So `moeilij` followed by U+212A is negative for the transcription function but neutral in the model.
- Lengths count characters (code points), not UTF-16 units, so characters outside the BMP count once.
- The `À-ÿ` range of the name pattern is taken as U+00C0..U+00FF.
- The `.email()` check of `emailSchema` and the error mapping of `validateAndSanitize` belong to a library whose code is not part of this model. Only explicit lengths, ranges, patterns and refinements are modelled.
- The voice-journal and motivation-card schemas are left out: they are plain length bounds like the ones modelled.
- `parseInt` reads arbitrary digit strings exactly. Precision loss beyond 2^53 is not modelled.
- `formatDuration` takes a non-negative duration. A negative one is not modelled.
- AiChat.HandleChat: `history` is taken to be an array of turns. A `null` history makes `history.slice` throw inside the handler's `try`, which answers 400 with the error message. A string history is sliced as text and spread into single characters. Neither case is modelled.
- The badge loop awaits each insert in turn. Inserts racing across sessions are left out, and the store's replies are fixed per badge.
- Register.ShortMismatchReportsMismatch: states one concrete short, mismatched pair rather than all of them. The general order is in `Register.HandleRegister`.

## Findings

| source | as written | input that shows it | evidently intended | confidence | as-written member | corrected member |
|---|---|---|---|---|---|---|
| src/hooks/useGamification.ts:199 | Destructuring `{ data: unlockedBadges = [] }` reads a `data` field from the plain array that `useUnlockedBadges` returns (lines 95-99), so the list is always the default `[]` | first_week already earned, seven days logged, the store accepting the insert: first_week is reported as new again | skip the badges already unlocked (`const unlockedBadges = useUnlockedBadges(userId)`) | high; not executed | Gamification.CheckAndAwardAsWritten, Gamification.AsWrittenRetriesEarned | Gamification.CheckAndAwardBadges, Gamification.CheckAndAwardIdempotent |
