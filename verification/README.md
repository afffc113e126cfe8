# Habit Hero — a Dafny model of the backend services

Habit Hero is a habit tracker. A user creates habits (daily or weekly, in one of six
categories), checks in on them (habit logs with an optional note), and is rewarded with
XP, levels and badges. Analytics aggregate the check-ins by weekday, by date and by
category. A rule-based assistant suggests habits and reads the mood of a note. On the
frontend, two utilities build the API base URL and a Google Calendar link for a habit.

This project models that core as pure Dafny functions over an immutable database value
`Db(habits, logs)` and proves what each operation promises:

- `Habits` (habits.dfy): the entities, enumerations and input validation of the request
  schemas. Unset, explicit-null and given fields are kept apart.
- `HabitService`, `HabitLogService`: create, get, list (ordered and paged), update,
  delete, the daily and weekly streak, and the success rate.
- `Gamification`, `GamificationRoutes`: badge definitions, XP and level arithmetic, badge
  checking with its per-section error handling, the stored badge list, and the two HTTP
  responses.
- `Analytics`: best days, check-ins by date, category statistics and overall statistics.
- `AiService`: habit suggestions, mood analysis and the motivational quote.
- `ApiConfig`, `CalendarSync`: the two frontend utilities, down to the characters they produce.
- Support modules: `Collections` (filter, find, replace, sort, page, dedup, group-by),
  `Text` (lower-casing, decimal rendering, zero padding, character removal) and
  `Calendar` (proleptic Gregorian ordinal days as Python's `date.toordinal` numbers them,
  weekdays, Monday of a week, ISO dates).

Time is modelled as integers. A `Day` is a proleptic ordinal (0001-01-01 is day 1, a
Monday). An `Instant` is a count of microseconds, and its date is `Instant / MicrosPerDay`.
JavaScript `Date` values are milliseconds. The database assigns ids, so every create
takes the fresh id as a parameter. "Now", "today" and the random quote index are
parameters. A database error in a `try` block is a boolean fault parameter that selects
the `except` branch.

## Model

| member | source | states |
|---|---|---|
| Habits.ParseFrequency | backend/app/models/habit.py:15-17 | only "daily" and "weekly" parse, and the parsed value renders back to the input |
| Habits.ParseCategory | backend/app/models/habit.py:20-26 | a string parses exactly when it is the value of a category, and then to that category |
| Habits.ParseHabitCreate | backend/app/schemas/habit.py:8-17 | accepted iff the name is given with 1..200 characters, the frequency and category are absent or valid, the start date is not null and the description has at most 1000 characters; each sent field becomes its parsed value; defaults are daily, health, today and no description |
| Habits.ParseHabitUpdate | backend/app/schemas/habit.py:20-25 | accepted iff every given field is valid; each sent field is written as its parsed value, an explicit null as a write of null, and an absent field is kept; the patch is empty iff no field was sent |
| Habits.ParseLogUpdate | backend/app/schemas/habit_log.py:24-26 | accepted iff the notes have at most 2000 characters; a sent field is written as its value, an explicit null as a write of null, and a field is kept iff it was not sent |
| HabitService.GetById | backend/app/services/habit_service.py:28-31 | the habit found has the id; none is found iff no habit has it |
| HabitService.Create | backend/app/services/habit_service.py:13-25 | the new row carries the validated fields with both timestamps set to now; it is found under its id; no other id changes; logs are untouched; unique ids and log ownership are preserved |
| HabitService.GetAll | backend/app/services/habit_service.py:34-37 | the page has min(limit, count - skip) habits, all from the table, newest first |
| HabitService.GetAllPages | backend/app/services/habit_service.py:36 | a page followed by the next page equals the page spanning both |
| HabitService.GetAllEverything | backend/app/services/habit_service.py:34-37 | a page from 0 with a limit of at least the table size is a permutation of the table |
| HabitService.Update | backend/app/services/habit_service.py:40-53 | not found iff the id is missing; an empty patch returns the row unchanged; sent fields are written and unsent ones kept; updated_at moves to now only when something was sent; a null for a NOT NULL column is an integrity error; other rows are untouched |
| HabitService.UpdateIdempotent | backend/app/services/habit_service.py:40-53 | applying the same successful patch twice gives the same result as once |
| HabitService.Delete | backend/app/services/habit_service.py:56-64 | returns true iff the habit existed; afterwards it is gone, other habits are unchanged and its logs are removed by the cascade |
| HabitService.CreateThenDelete | backend/app/services/habit_service.py:13-64 | deleting a habit just created restores the database and reports true |
| HabitLogService.GetLogById | backend/app/services/habit_log_service.py:27-30 | the log found has the id; none is found iff no log has it |
| HabitLogService.ParseLogCreate | backend/app/schemas/habit_log.py:6-12 | accepted iff habit_id is given, log_date is not null and the notes have at most 2000 characters; log_date defaults to now |
| HabitLogService.CreateLog | backend/app/services/habit_log_service.py:14-24 | the new log carries the input fields and created_at = now; it is found under its id; nothing else changes |
| HabitLogService.GetByHabitId | backend/app/services/habit_log_service.py:33-44 | with n logs of this habit, exactly min(limit, n - skip) logs, none once the offset reaches n; all of this habit, latest log date first |
| HabitLogService.GetByHabitIdPages | backend/app/services/habit_log_service.py:41-42 | a page followed by the next page equals the page spanning both, so paging neither skips nor repeats a log |
| HabitLogService.GetByHabitIdEverything | backend/app/services/habit_log_service.py:33-44 | with a large enough limit the result is a permutation of the habit's logs |
| HabitLogService.UpdateLog | backend/app/services/habit_log_service.py:47-60 | not found iff the id is missing; sent fields are set and unsent ones kept; id, habit and created_at never change; a null log_date is an integrity error; other logs are untouched |
| HabitLogService.DeleteLog | backend/app/services/habit_log_service.py:63-71 | returns true iff the log existed; afterwards it is gone and nothing else changes |
| HabitLogService.GetStreak | backend/app/services/habit_log_service.py:74-121 | 0 for a missing habit or a habit without logs; otherwise the daily or the weekly run, by the habit's frequency, over the set of logged dates from today back |
| HabitLogService.StreakZero | backend/app/services/habit_log_service.py:77-91 | the streak is 0 for a missing habit, for a habit without logs, and for a daily habit not checked in today |
| HabitLogService.DailyStreakRun | backend/app/services/habit_log_service.py:100-107 | every day of the counted run back from today is logged and on or after the start date; the day before the run is not |
| HabitLogService.DailyStreakUnique | backend/app/services/habit_log_service.py:100-107 | any run length with those two properties is the computed streak |
| HabitLogService.DailyStreakBound | backend/app/services/habit_log_service.py:102 | the daily streak never exceeds the number of days since the start date |
| HabitLogService.WeeklyStreakRun | backend/app/services/habit_log_service.py:109-119 | each counted week, going back Monday by Monday from this week, holds a log and starts its cursor on or after the start date; the first week not counted fails one of the two |
| HabitLogService.DailyStreakMonotone | backend/app/services/habit_log_service.py:100-107 | more logged days never shorten the daily streak |
| HabitLogService.WeeklyStreakMonotone | backend/app/services/habit_log_service.py:109-119 | more logged days never shorten the weekly streak |
| HabitLogService.SameDayLogKeepsStreak | backend/app/services/habit_log_service.py:94 | a second check-in on an already logged day leaves the streak unchanged |
| HabitLogService.StreakLoop | backend/app/services/habit_log_service.py:96-121 | the two while loops compute the daily and the weekly streak |
| HabitLogService.ExpectedPositive | backend/app/services/habit_log_service.py:135-143 | expected check-ins are positive iff today is on or after the start date, and at most one per day |
| HabitLogService.SuccessRate | backend/app/services/habit_log_service.py:124-154 | the rate is never negative; it is 0 for a missing habit and for a habit that has not started |
| HabitLogService.PercentScales | backend/app/services/habit_log_service.py:154 | the percentage times expected equals 100 times actual |
| HabitLogService.SuccessRateScales | backend/app/services/habit_log_service.py:131-154 | for a started habit the rate times the expected count equals 100 times the logs since the start date |
| HabitLogService.RateNotCapped | backend/app/services/habit_log_service.py:145-154 | two logs on the first day of a daily habit give a rate of 200, because every log counts |
| HabitLogService.SameDayLogCountsForRate | backend/app/services/habit_log_service.py:146-152 | unlike the streak, a second log on the same day raises the actual count by one |
| Gamification.LookupBadge | backend/app/services/gamification_service.py:12-34 | a string is found iff it is the id of a defined badge, and then that badge is returned |
| Gamification.XpForCheckin | backend/app/services/gamification_service.py:39-41 | a check-in is worth 5 XP |
| Gamification.XpForStreak | backend/app/services/gamification_service.py:44-52 | bonus XP is 0 iff the streak is under 7, 5 iff it is 7..29, 10 iff it is 30..99 and 20 iff it is at least 100 |
| Gamification.XpForStreakMonotone | backend/app/services/gamification_service.py:44-52 | a longer streak never earns less bonus XP |
| Gamification.StatsOrDefault | backend/app/services/gamification_service.py:57-67 | when the select succeeds, the stored row is used, and a missing row reads as 0 XP, level 1 and no badges |
| Gamification.AddXp | backend/app/services/gamification_service.py:77-90 | XP grows by the amount; the level never drops, is at least XP / 100 + 1, and is either unchanged or exactly that |
| Gamification.AddXpLevel | backend/app/services/gamification_service.py:83-85 | when the level already matches the XP, adding XP keeps level = XP / 100 + 1 |
| Gamification.BestTier | backend/app/services/gamification_service.py:119-129 | none iff no tier qualifies; otherwise a qualifying tier and no higher tier qualifies |
| Gamification.EarnedFromMembers | backend/app/services/gamification_service.py:108-170 | a badge is among those earned from a section onward iff its section awards exactly that badge |
| Gamification.Earned | backend/app/services/gamification_service.py:108-170 | no earned badge is already held; badges come in section order, at most one per section; a badge is earned iff its section awards it |
| Gamification.EarnedSingles | backend/app/services/gamification_service.py:109-170 | first-habit, perfect-week and category-master are earned iff their count qualifies and they are not held |
| Gamification.EarnedCheckinTier | backend/app/services/gamification_service.py:118-129 | the check-in badge earned is the highest unheld tier that qualifies, and one is earned whenever any qualifies |
| Gamification.EarnedStreakTier | backend/app/services/gamification_service.py:143-148 | the same for the streak tiers against the maximum streak |
| Gamification.TiersOnePerCall | backend/app/services/gamification_service.py:122-127 | with 60 check-ins, successive calls award checkin_50, then checkin_10, then nothing |
| Gamification.BadgeIds | backend/app/services/gamification_service.py:190-196 | the ids of a badge list, position by position |
| Gamification.BadgeXpPositive | backend/app/services/gamification_service.py:183-185 | every badge is worth at least 10 XP, so new badges always add XP |
| Gamification.UnionContents | backend/app/services/gamification_service.py:175-176 | the stored list holds exactly the old ids and the new ids |
| Gamification.MaxStreak | backend/app/services/gamification_service.py:132-141 | the result bounds the streak of every habit whose lookup did not fail, and is 0 or attained by one of them |
| Gamification.CategoryMasterMeansAll | backend/app/services/gamification_service.py:165-168 | six distinct categories means every category is used |
| Gamification.Measure | backend/app/services/gamification_service.py:108-170 | each count is the table size or set size the section reads, or absent when that section fails; the maximum streak bounds the streak of every habit whose lookup succeeded and is 0 or attained by one of them; the week count is the number of logs dated at or after the given week start |
| Gamification.MeasureWeekOrder | backend/app/services/gamification_service.py:152-158 | an earlier week start changes only the week count, and never lowers it |
| Gamification.Award | backend/app/services/gamification_service.py:172-201 | a stats failure returns nothing; new badges are unheld and in section order; XP grows by their value unless the XP step fails; the stored ids become the union; with no new badges the stats are unchanged |
| Gamification.AwardEarned | backend/app/services/gamification_service.py:172-201 | the badges awarded are those earned against the stored ids, and none when reading the stats or storing fails |
| Gamification.AwardFirstHabit | backend/app/services/gamification_service.py:108-116 | first-habit is awarded iff stats and storage succeed, the habit section succeeds, and there is a habit while the badge is not held |
| Gamification.AwardPerfectWeek | backend/app/services/gamification_service.py:152-162 | perfect-week is awarded iff stats and storage succeed, the week section succeeds, and the week count is at least 7 while the badge is not held |
| Gamification.CheckBadges | backend/app/services/gamification_service.py:93-201 | as written: a stats failure returns nothing and changes nothing; no held badge is awarded; first-habit needs a habit; perfect-week is awarded iff nothing on its path fails, it is not held and at least seven logs are dated at or after now minus the weekday in days, the clock time kept |
| Gamification.CheckBadgesIntended | backend/app/services/gamification_service.py:152-160 | the same with the week starting at Monday 00:00: perfect-week iff at least seven logs are dated on or after this week's Monday |
| Gamification.CheckBadgesAgainstIntended | backend/app/services/gamification_service.py:154 | whenever the code as written awards perfect-week the corrected code does too, and at midnight both give the same result |
| Gamification.PerfectWeekMissedOn | backend/app/services/gamification_service.py:154-159 | for any Monday, seven logs at 09:00 and a check on Wednesday at 15:00: the code as written does not award perfect-week, the corrected code does |
| Gamification.Known | backend/app/services/gamification_service.py:213-219 | the ids of the result are the stored ids that name defined badges, in order |
| Gamification.GetAllBadges | backend/app/services/gamification_service.py:204-221 | nothing for empty or malformed storage; otherwise the defined badges among the stored ids, in stored order |
| Gamification.AwardedAreListed | backend/app/services/gamification_service.py:172-221 | every badge just awarded is listed by get_all_badges afterwards |
| GamificationRoutes.XpToNextLevel | backend/app/api/routes/gamification.py:23 | between 1 and 100, it reaches the next multiple of 100 and no multiple lies before it |
| GamificationRoutes.XpToNextLevelUp | backend/app/api/routes/gamification.py:23 | adding it moves XP / 100 up by exactly one |
| GamificationRoutes.GetStats | backend/app/api/routes/gamification.py:13-26 | the count is the length of the badge list, the list is get_all_badges, XP and level are the stored ones |
| GamificationRoutes.CheckBadgesResponse | backend/app/api/routes/gamification.py:29-47 | on an exception no badges and the error message; otherwise the badges, and "No new badges" iff there are none, else "Awarded n new badge(s)!" with n the number of badges |
| GamificationRoutes.CheckBadgesMessageCount | backend/app/api/routes/gamification.py:34-36 | the message of a non-empty award holds, between "Awarded " and " new badge(s)!", digits that read as the number of badges returned |
| GamificationRoutes.AwardedMessageCount | backend/app/api/routes/gamification.py:36 | the number in the message is the decimal rendering of the badge count |
| Analytics.Tallied | backend/app/services/analytics_service.py:24-34 | one row per distinct key, exactly the keys present, each with its number of occurrences; the counts add up to the input size |
| Analytics.Grouped | backend/app/services/analytics_service.py:87-94 | one row per distinct key, exactly the keys present, each with its item count and weight sum; totals are preserved |
| Analytics.Selected | backend/app/services/analytics_service.py:16-17 | habit id absent or 0 selects all logs, otherwise exactly that habit's logs, each as often as in the table |
| Analytics.BestDays | backend/app/services/analytics_service.py:12-37 | on failure empty; otherwise the tally of weekday names of the selected logs, all names from Monday..Sunday, counts adding to the number of logs |
| Analytics.DayNamesFollowWeek | backend/app/services/analytics_service.py:25-31 | day 1 is a Monday, and one day later is the next name in the week |
| Analytics.DayNamesDistinct | backend/app/services/analytics_service.py:25-31 | two instants get the same name iff they share a weekday |
| Analytics.CheckinsByDate | backend/app/services/analytics_service.py:40-65 | on failure empty; otherwise the tally of ISO dates of the selected logs in the window; counts add to the window's size |
| Analytics.InWindowFilter | backend/app/services/analytics_service.py:44-46 | a log is in the window iff it is selected and no older than now minus the given days |
| Analytics.CheckinsByDateKeys | backend/app/services/analytics_service.py:40-62 | a date string is a key iff some selected log in the window falls on that date |
| Analytics.CategoryStats | backend/app/services/analytics_service.py:68-97 | on failure empty; one row per category that has habits, exactly those; each with its habit count and summed log count; habit counts add to the number of habits |
| Analytics.CountKeyCategory | backend/app/services/analytics_service.py:89-91 | a category's habit count is the number of habits in that category |
| Analytics.GetOverallStats | backend/app/services/analytics_service.py:100-131 | as written: on failure all zeros; otherwise the two table sizes, and the week count is the number of logs at or after now minus the weekday in days, the clock time kept, never more than the total |
| Analytics.GetOverallStatsIntended | backend/app/services/analytics_service.py:113-118 | the same with the week from Monday 00:00: the week count is the number of logs dated on or after this week's Monday |
| Analytics.OverallStatsAgainstIntended | backend/app/services/analytics_service.py:114 | the totals agree, the week count as written never exceeds the corrected one, and the two are equal at midnight |
| Analytics.ThisWeekByDate | backend/app/services/analytics_service.py:114-116 | a log counts for this week as written iff it is dated after this week's Monday, or on that Monday no earlier in the day than now |
| AiService.Table | backend/app/services/ai_service.py:21-51 | each category has at least two suggestions, all in that category |
| AiService.MissingCategoryPicksSpec | backend/app/services/ai_service.py:53-56 | picks come only from unused categories, both leading suggestions of every unused category are picked, and nothing else |
| AiService.FirstNew | backend/app/services/ai_service.py:62-66 | none iff every option's lower-cased name is taken; otherwise the first option whose name is free |
| AiService.ComplementsSpec | backend/app/services/ai_service.py:58-66 | each complement is the first free suggestion for one of the top habits, and every top habit with a free suggestion contributes it |
| AiService.Top3 | backend/app/services/ai_service.py:59 | the first min(3, n) habits |
| AiService.SuggestHabits | backend/app/services/ai_service.py:13-79 | the first five of the candidates deduplicated by (lower-cased name, category); at most five, distinct keys, all candidates |
| AiService.CandidatesFromTable | backend/app/services/ai_service.py:53-66 | every candidate is a suggestion from its own category's table |
| AiService.NoHabitsSuggestions | backend/app/services/ai_service.py:53-79 | with no habits the five suggestions are the two leading health, two leading work and first learning entries |
| AiService.AnalyzeMood | backend/app/services/ai_service.py:82-127 | empty notes are neutral with confidence 0; otherwise sentiment follows the larger keyword count, confidence is 0.5 for neutral and min(0.9, 0.5 + 0.1 count) otherwise; at most five keywords, each a listed keyword found in the notes |
| AiService.MoodKeywordsOrder | backend/app/services/ai_service.py:117-126 | keywords are the first five found, positive ones before negative ones, in list order |
| AiService.MoodIgnoresCase | backend/app/services/ai_service.py:87 | analysing lower-cased notes gives the same result |
| AiService.MotivationalQuote | backend/app/services/ai_service.py:130-168 | the quote is one of the fixed list |
| AiService.EveryQuoteChosen | backend/app/services/ai_service.py:168 | an index within the list picks exactly that quote, so every quote can be chosen |
| ApiConfig.StripProtocol | frontend/src/utils/apiConfig.ts:16 | a leading http:// or https:// in any letter case is removed and nothing else is |
| ApiConfig.DropTrailingSlash | frontend/src/utils/apiConfig.ts:22 | one trailing slash is removed, otherwise the string is unchanged |
| ApiConfig.CollapseClean | frontend/src/utils/apiConfig.ts:34 | after collapsing, a double slash appears only right after a colon |
| ApiConfig.CollapseIdempotent | frontend/src/utils/apiConfig.ts:34 | collapsing twice is collapsing once |
| ApiConfig.CollapseKeepsHttps | frontend/src/utils/apiConfig.ts:34 | collapsing keeps a leading https:// |
| ApiConfig.GetApiBaseUrl | frontend/src/utils/apiConfig.ts:5-41 | no usable host gives /api or /api/endpoint; otherwise an https:// URL with no double slash except after the colon, which without its slashes is the cleaned base and path without theirs |
| ApiConfig.CollapseOnlySlashes | frontend/src/utils/apiConfig.ts:34 | collapsing removes slashes and nothing else |
| ApiConfig.CollapseRun | frontend/src/utils/apiConfig.ts:34 | a run of two or more slashes after a character other than a colon becomes exactly one slash |
| ApiConfig.HostUrl | frontend/src/utils/apiConfig.ts:5-41 | for a host without slashes and an endpoint without a leading or double slash, http:// or https:// and the host give https://, the host, /api and the endpoint |
| ApiConfig.HostUrlFrom | frontend/src/utils/apiConfig.ts:14-34 | the same for any address whose protocol strip is such a host |
| ApiConfig.AsWrittenAgrees | frontend/src/utils/apiConfig.ts:14-34 | the function as written and the corrected one agree on every input except a protocol-only value |
| ApiConfig.RelativeAsWrittenMissesProtocolOnly | frontend/src/utils/apiConfig.ts:25 | the relative-path test as written fires for a non-empty value iff only a slash remains after the protocol |
| ApiConfig.LongAddressKeepsSlash | frontend/src/utils/apiConfig.ts:16 | for a value of at least 8 characters, an added trailing slash survives the protocol strip |
| ApiConfig.TrailingSlashIgnored | frontend/src/utils/apiConfig.ts:22 | a trailing slash added to a value that does not end in one, and that survives the protocol strip (as for any value of at least 8 characters), does not change the URL |
| ApiConfig.GetApiBaseUrlCollapsed | frontend/src/utils/apiConfig.ts:34 | the absolute URL is already collapsed |
| CalendarSync.ClockOf | frontend/src/utils/calendarSync.ts:16 | hour, minute, second and millisecond are in range and recompose the time of day |
| CalendarSync.FormatDate | frontend/src/utils/calendarSync.ts:15-17 | removing - and : from the ISO string and cutting at the dot gives the compact yyyymmddThhmmssZ form |
| CalendarSync.FormatDateShape | frontend/src/utils/calendarSync.ts:15-17 | the 16 characters read as the UTC year, month, day, hour, minute and second of the instant |
| CalendarSync.EndOf | frontend/src/utils/calendarSync.ts:20 | the end is the given one, or one hour after the start |
| CalendarSync.Dates | frontend/src/utils/calendarSync.ts:25 | the dates parameter is start and end in compact form separated by a slash |
| CalendarSync.CreateGoogleCalendarUrl | frontend/src/utils/calendarSync.ts:14-31 | the URL is the render address followed by the encoded parameters |
| CalendarSync.CheckInTitle | frontend/src/utils/calendarSync.ts:36 | the title is "Habit Check-in: " followed by the habit name |
| CalendarSync.CheckInDetails | frontend/src/utils/calendarSync.ts:37 | the description starts with the fixed phrase, carries the frequency and ends with " habit: " and the name |
| CalendarSync.HabitEvent | frontend/src/utils/calendarSync.ts:35-40 | the event has that title and description, the given start, no end and the app location |
| CalendarSync.HabitEventParams | frontend/src/utils/calendarSync.ts:20-40 | its parameters equal those of the same event with an explicit one-hour end |
| CalendarSync.SyncHabitUrl | frontend/src/utils/calendarSync.ts:33-43 | the URL opened is the render address with the encoded parameters of the habit event |
| Calendar.MondayOf | backend/app/services/habit_log_service.py:112 | the result is a Monday, at most six days before the day |
| Calendar.MondayOfWeek | backend/app/services/habit_log_service.py:112-114 | a Monday is the week start of a day iff the day lies in the seven days from it |
| Calendar.WeekStart | backend/app/services/gamification_service.py:154 | the corrected week start is a Monday midnight within the seven days before the instant |
| Calendar.WeekStartOffset | backend/app/services/gamification_service.py:154 | the week start as written is the corrected one plus the time of day, and equal only at midnight |
| Calendar.WeekStartCounts | backend/app/services/analytics_service.py:114-116 | an instant is on or after the corrected week start iff its date is on or after this week's Monday |
| Calendar.WeekStartAsWrittenCounts | backend/app/services/analytics_service.py:114-116 | an instant is on or after the week start as written iff its date is after this week's Monday, or on that Monday no earlier in the day than now |
| HabitLogService.CountSince | backend/app/services/analytics_service.py:115-118 | the number of logs at or after an instant is the number of their positions, at most the number of logs |
| HabitLogService.CountSinceExtremes | backend/app/services/analytics_service.py:115-118 | all logs at or after the instant are all counted; all before it give 0 |
| HabitLogService.CountSinceOrder | backend/app/services/analytics_service.py:115-118 | a later lower bound never counts more logs |
| HabitLogService.WeekByDate | backend/app/services/gamification_service.py:154-158 | counting from Monday 00:00 counts exactly the logs dated on or after this week's Monday |
| Calendar.WeekStartMissesEarlyLog | backend/app/services/analytics_service.py:114-116 | a Monday 09:00 log is before the as-written week start on Wednesday 15:00 of the same week |
| Calendar.FromOrdinal | backend/app/services/analytics_service.py:59 | the date of a day number is valid and maps back to it |
| Calendar.OrdinalRoundTrip | backend/app/services/analytics_service.py:59 | every valid date survives the trip to a day number and back |
| Calendar.IsoDateShape | backend/app/services/analytics_service.py:59 | the ISO date is YYYY-MM-DD whose digits read as the year, month and day |
| Calendar.IsoDateInjective | backend/app/services/analytics_service.py:59-60 | different days give different ISO date keys |
| Collections.SortDesc | backend/app/services/habit_service.py:36 | the result is sorted by descending key and is a permutation of the input |
| Collections.PagesConcat | backend/app/services/habit_log_service.py:41-42 | two consecutive offset/limit pages concatenate to one larger page |
| Collections.DedupProperties | backend/app/services/ai_service.py:68-77 | keys are distinct, every element comes from the input, the same keys are present, the first element of each key is kept, and input order is preserved |
| Collections.FilterMultiplicity | backend/app/services/analytics_service.py:16-17 | a filtered element occurs as often as in the input when it matches, and not at all otherwise |
| Collections.FilterCountsPositions | backend/app/services/analytics_service.py:115-118 | the length of a filter is the number of matching positions |
| Collections.DedupCapped | backend/app/services/ai_service.py:69-77 | the loop that stops at five equals the first five of the full deduplication |
| Collections.GroupByProperties | backend/app/services/analytics_service.py:87-94 | one row per distinct key, each with its count and sum, and totals preserved |
| Text.Lower | backend/app/services/ai_service.py:87 | lower-casing acts character by character and keeps the length |
| Text.NatToStringValue | backend/app/api/routes/gamification.py:36 | the decimal rendering reads back as the number |

## Left out

- Database plumbing: sessions, commits, refreshes and async calls are left out. Each service call is one atomic step on a `Db` value.
- Engine-assigned ids and timestamps: these are parameters of the create operations.
- Negative `skip` and `limit`: the routes pass any int, and under SQLite, the configured database (backend/app/core/config.py:12), a negative LIMIT means no limit and a negative OFFSET acts as 0. The model takes `nat`, so that behaviour is not modelled.
- Ties in ORDER BY: the order among rows with equal keys is left open. The contracts promise only sortedness and permutation.
- A log whose habit id names no habit: `CreateLog` does not check it, and neither does the configured SQLite database (backend/app/core/config.py:12), which enforces the foreign key of backend/app/models/habit_log.py:17 only after `PRAGMA foreign_keys=ON`, never issued. A database that enforces foreign keys would reject the insert; that rejection is not modelled.
- Deleting a habit: `Delete` removes its logs as the ORM relationship's `cascade="all, delete-orphan"` (backend/app/models/habit.py:42) does. The foreign key's ON DELETE CASCADE is inert under SQLite without foreign-key enforcement and plays no part.
- Floating point: the success rate is an exact real, and the mood confidence is an integer number of tenths.
- HabitLogService.SuccessRate: the rate is exact and not rounded to two decimals as `round(…, 2)` would round it. Its contract covers the zero cases, and `SuccessRateScales` states the value.
- `str.lower`: modelled for ASCII letters only. Unicode case mapping is not modelled.
- JSON: `badges_earned` is abstracted as absent, a parsed list of ids, or malformed. Undefined ids are kept in storage and dropped on listing.
- `json.dumps(list(set))` writes the union in an unspecified order. The model writes the old ids, deduplicated, followed by the new ones, and the contracts state only membership.
- Time zones: naive local `datetime.now()` and `date.today()` become the parameters "now" and "today", and everything is on one clock. JavaScript `Date` parsing of the habit start string is left out; the start is the parsed millisecond value.
- Validation errors: only whether validation fails and the first failing field are modelled, not pydantic's error messages or error lists.
- `URLSearchParams` percent-encoding: it is a function parameter. `window.open` and `console.log` are left out.
- Years: `toISOString` and `isoformat` are modelled for years 1..9999 (`InIsoRange`, `MinDay`..`MaxDay`). This is the range Python dates allow; the six-digit extended years of JavaScript are not modelled.
- Gamification.StatsOrDefault: models `get_user_stats` only when its select succeeds. When the select raises, the `except` branch (backend/app/services/gamification_service.py:68-74) inserts and returns a fresh row with 0 XP, level 1 and no badges, even if a row already exists. `check_badges` would then award held badges again into that second row, while `add_xp` reads whichever row its unordered `limit(1)` select returns. One optional stats row cannot express two rows, so this path is not modelled. The fault `statsFail` stands for the case where the fallback insert raises too, and the call then returns nothing.
- Row order of the analytics selects: the queries (backend/app/services/analytics_service.py:14, :46, :74) have no ORDER BY, so SQLite may return rows in any order, for instance index order. The model reads them in table order, which fixes the order of the keys in the returned dicts. Counts and key sets do not depend on it.
- Printing and tracebacks in the `except` branches are left out. Which `try` blocks fail is an input (`Faults`, or `fail` flags).
- `if log_date`: the guards in the analytics loops never skip, because `log_date` is NOT NULL.
- `MotivationalQuote`: `random.choice` is an index parameter, reduced modulo the number of quotes.
- Routes other than the gamification routes, the export service, configuration and the React components are not part of this model.

## Findings

| source | as written | input that shows it | evidently intended | confidence | as-written member | corrected member |
|---|---|---|---|---|---|---|
| backend/app/services/gamification_service.py:154, backend/app/services/analytics_service.py:114 | `now - timedelta(days=weekday)` keeps the current time of day, so "this week" starts on Monday at the current clock time and earlier Monday logs count neither for perfect-week nor for week_checkins | now = Wednesday 2025-01-08 15:00; seven logs at Monday 2025-01-06 09:00 do not earn perfect-week and are not counted | the week starts at Monday 00:00 | not executed | Gamification.CheckBadges / Analytics.GetOverallStats / Gamification.PerfectWeekMissedOn / Calendar.WeekStartMissesEarlyLog | Gamification.CheckBadgesIntended / Analytics.GetOverallStatsIntended / Gamification.CheckBadgesAgainstIntended / Analytics.OverallStatsAgainstIntended |
| frontend/src/utils/apiConfig.ts:22-26 | the protocol-only test compares with "https://" after the trailing slash is removed, so it matches only when a lone slash follows the protocol; an environment value of just a protocol builds a host-less absolute URL | VITE_API_URL = "http://" gives "https://api" | no host falls back to the relative "/api" | not executed | ApiConfig.GetApiBaseUrlAsWritten / ApiConfig.ProtocolOnlyAsWritten | ApiConfig.GetApiBaseUrl / ApiConfig.AsWrittenAgrees |
