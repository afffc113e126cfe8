/** XP, levels and badges (backend/app/services/gamification_service.py).
    The single user_stats row is an optional value (the service creates it
    on first use); the measurements badge checks read from the database are
    gathered first, with a failed query recorded as a missing measurement. */
module Gamification {
  import opened Collections
  import opened Calendar
  import opened Habits
  import HabitService
  import HabitLogService

  datatype Badge =
    | FirstHabit
    | Streak7 | Streak30 | Streak100
    | Checkin10 | Checkin50 | Checkin100
    | PerfectWeek
    | CategoryMaster

  function BadgeId(b: Badge): string
  {
    match b
    case FirstHabit => "first_habit"
    case Streak7 => "streak_7"
    case Streak30 => "streak_30"
    case Streak100 => "streak_100"
    case Checkin10 => "checkin_10"
    case Checkin50 => "checkin_50"
    case Checkin100 => "checkin_100"
    case PerfectWeek => "perfect_week"
    case CategoryMaster => "category_master"
  }

  datatype Definition = Definition(name: string, description: string, xp: nat)

  /** BADGE_DEFINITIONS. */
  function Def(b: Badge): Definition
  {
    match b
    case FirstHabit => Definition("Getting Started", "Created your first habit", 10)
    case Streak7 => Definition("Week Warrior", "7-day streak", 25)
    case Streak30 => Definition("Monthly Champion", "30-day streak", 50)
    case Streak100 => Definition("Century Streak", "100-day streak", 100)
    case Checkin10 => Definition("Consistent", "10 check-ins", 15)
    case Checkin50 => Definition("Dedicated", "50 check-ins", 40)
    case Checkin100 => Definition("Habit Master", "100 check-ins", 75)
    case PerfectWeek => Definition("Perfect Week", "7 check-ins in 7 days", 30)
    case CategoryMaster => Definition("Category Master", "Habits in all categories", 60)
  }

  /** `id in BADGE_DEFINITIONS`, with the badge it names. */
  function LookupBadge(id: string): (r: Option<Badge>)
    ensures r.Some? ==> BadgeId(r.value) == id
    ensures forall b :: BadgeId(b) == id ==> r == Some(b)
  {
    if id == "first_habit" then Some(FirstHabit)
    else if id == "streak_7" then Some(Streak7)
    else if id == "streak_30" then Some(Streak30)
    else if id == "streak_100" then Some(Streak100)
    else if id == "checkin_10" then Some(Checkin10)
    else if id == "checkin_50" then Some(Checkin50)
    else if id == "checkin_100" then Some(Checkin100)
    else if id == "perfect_week" then Some(PerfectWeek)
    else if id == "category_master" then Some(CategoryMaster)
    else None
  }

  /** Every badge is awarded when some measurement reaches its threshold. */
  function Threshold(b: Badge): nat
  {
    match b
    case FirstHabit => 1
    case Streak7 => 7
    case Streak30 => 30
    case Streak100 => 100
    case Checkin10 => 10
    case Checkin50 => 50
    case Checkin100 => 100
    case PerfectWeek => 7
    case CategoryMaster => 6
  }

  /** The two tier ladders, highest first, as the elif chains test them. */
  const CheckinTiers: seq<Badge> := [Checkin100, Checkin50, Checkin10]
  const StreakTiers: seq<Badge> := [Streak100, Streak30, Streak7]

  /** Which measurement a badge is about; tiers of one ladder share a kind. */
  function Kind(b: Badge): nat
  {
    match b
    case FirstHabit => 0
    case Checkin10 | Checkin50 | Checkin100 => 1
    case Streak7 | Streak30 | Streak100 => 2
    case PerfectWeek => 3
    case CategoryMaster => 4
  }

  const CheckinXp: nat := 5

  /** calculate_xp_for_checkin. */
  function XpForCheckin(): (r: nat)
    ensures r == CheckinXp
  {
    5
  }

  /** calculate_xp_for_streak: 20 from 100 days, 10 from 30, 5 from 7. */
  function XpForStreak(streak: int): (r: nat)
    ensures r in {0, 5, 10, 20}
    ensures r == 0 <==> streak < 7
    ensures r == 20 <==> streak >= 100
    ensures r == 10 <==> 30 <= streak < 100
    ensures r == 5 <==> 7 <= streak < 30
  {
    if streak >= 100 then 20
    else if streak >= 30 then 10
    else if streak >= 7 then 5
    else 0
  }

  /** A longer streak never earns less. */
  lemma XpForStreakMonotone(a: int, b: int)
    requires a <= b
    ensures XpForStreak(a) <= XpForStreak(b)
  {
  }

  /** The badges_earned column: NULL or empty, text that is not a JSON list
      of strings, or the decoded list. */
  datatype Stored = NotSet | Malformed | Parsed(ids: seq<string>)

  datatype UserStats = UserStats(totalXp: int, level: int, badges: Stored)

  /** get_user_stats when its select succeeds: the row, or the fresh one it
      creates when the table is empty. */
  function StatsOrDefault(s: Option<UserStats>): (r: UserStats)
    ensures s.None? ==> r.totalXp == 0 && r.level == 1 && r.badges == NotSet
    ensures s.Some? ==> r == s.value
  {
    if s.Some? then s.value else UserStats(0, 1, NotSet)
  }

  const XpPerLevel := 100

  /** add_xp: the total grows by exactly the amount; the level becomes
      total // 100 + 1 if that is higher, and is never lowered. */
  function AddXp(s: UserStats, amount: int): (r: UserStats)
    ensures r.totalXp == s.totalXp + amount
    ensures r.level >= s.level
    ensures r.level >= r.totalXp / XpPerLevel + 1
    ensures r.level == s.level || r.level == r.totalXp / XpPerLevel + 1
    ensures r.badges == s.badges
  {
    var total := s.totalXp + amount;
    var newLevel := total / XpPerLevel + 1;
    s.(totalXp := total, level := if newLevel > s.level then newLevel else s.level)
  }

  /** Starting from a level consistent with the total, adding XP leaves the
      level exactly total // 100 + 1 whenever the total does not drop. */
  lemma AddXpLevel(s: UserStats, amount: nat)
    requires s.level == s.totalXp / XpPerLevel + 1
    ensures AddXp(s, amount).level == AddXp(s, amount).totalXp / XpPerLevel + 1
  {
  }

  /** The set the service rebuilds from the column. */
  function Existing(b: Stored): set<string>
  {
    if b.Parsed? then set id | id in b.ids else {}
  }

  /** A badge is due when its measurement reaches the threshold and it is
      not already held. */
  predicate Qualifies(b: Badge, value: nat, existing: set<string>)
  {
    value >= Threshold(b) && BadgeId(b) !in existing
  }

  /** Tier ladders list strictly decreasing thresholds. */
  predicate Descending(tiers: seq<Badge>)
  {
    forall i, j :: 0 <= i < j < |tiers| ==> Threshold(tiers[i]) > Threshold(tiers[j])
  }

  /** An elif ladder: the first tier, highest first, that qualifies, which
      is the highest reached tier not yet held. */
  function BestTier(tiers: seq<Badge>, value: nat, existing: set<string>): (r: Option<Badge>)
    requires Descending(tiers)
    ensures r.None? <==> forall t :: t in tiers ==> !Qualifies(t, value, existing)
    ensures r.Some? ==> r.value in tiers && Qualifies(r.value, value, existing)
    ensures r.Some? ==> forall t :: t in tiers && Threshold(t) > Threshold(r.value) ==> !Qualifies(t, value, existing)
  {
    if |tiers| == 0 then None
    else if Qualifies(tiers[0], value, existing) then
      assert forall t :: t in tiers[1..] ==> Threshold(t) < Threshold(tiers[0]) by {
        forall t | t in tiers[1..] ensures Threshold(t) < Threshold(tiers[0]) {
          var j :| 0 <= j < |tiers[1..]| && tiers[1..][j] == t;
          assert tiers[j + 1] == t;
        }
      }
      assert tiers == [tiers[0]] + tiers[1..];
      Some(tiers[0])
    else
      assert tiers == [tiers[0]] + tiers[1..];
      BestTier(tiers[1..], value, existing)
  }

  /** What check_badges reads from the database.  None marks a measurement
      whose query raised: that badge check is skipped. */
  datatype Progress = Progress(
    habits: Option<nat>,
    checkins: Option<nat>,
    maxStreak: nat,
    weekCheckins: Option<nat>,
    categories: nat)

  /** The single-badge check for measurement `value`, if it was taken. */
  function Single(b: Badge, value: Option<nat>, existing: set<string>): Option<Badge>
  {
    if value.Some? && Qualifies(b, value.value, existing) then Some(b) else None
  }

  /** The outcome of the k-th check (first habit, check-ins, streaks,
      perfect week, categories): at most one badge, of kind k. */
  function Slot(k: nat, p: Progress, existing: set<string>): (r: Option<Badge>)
    ensures r.Some? ==> Kind(r.value) == k && BadgeId(r.value) !in existing
  {
    if k == 0 then Single(FirstHabit, p.habits, existing)
    else if k == 1 then (if p.checkins.Some? then BestTier(CheckinTiers, p.checkins.value, existing) else None)
    else if k == 2 then BestTier(StreakTiers, p.maxStreak, existing)
    else if k == 3 then Single(PerfectWeek, p.weekCheckins, existing)
    else if k == 4 then Single(CategoryMaster, Some(p.categories), existing)
    else None
  }

  function OptList(o: Option<Badge>): seq<Badge>
  {
    if o.Some? then [o.value] else []
  }

  /** The badges earned by checks k, k+1, ..., 4, in the order they run. */
  function EarnedFrom(k: nat, p: Progress, existing: set<string>): (r: seq<Badge>)
    ensures forall i :: 0 <= i < |r| ==> k <= Kind(r[i]) && BadgeId(r[i]) !in existing
    ensures forall i, j :: 0 <= i < j < |r| ==> Kind(r[i]) < Kind(r[j])
    decreases 5 - k
  {
    if k >= 5 then []
    else
      var rest := EarnedFrom(k + 1, p, existing);
      var r := OptList(Slot(k, p, existing)) + rest;
      assert forall i :: 0 <= i < |r| ==> r[i] in OptList(Slot(k, p, existing)) || r[i] == rest[i - |OptList(Slot(k, p, existing))|];
      r
  }

  /** A badge is among those earned by checks k..4 exactly when its own
      check, one of those, yields it. */
  lemma {:induction false} EarnedFromMembers(k: nat, p: Progress, existing: set<string>)
    ensures forall b :: b in EarnedFrom(k, p, existing) <==> k <= Kind(b) && Slot(Kind(b), p, existing) == Some(b)
    decreases 5 - k
  {
    if k < 5 {
      EarnedFromMembers(k + 1, p, existing);
      var head := OptList(Slot(k, p, existing));
      var rest := EarnedFrom(k + 1, p, existing);
      assert EarnedFrom(k, p, existing) == head + rest;
      forall b ensures b in head + rest <==> k <= Kind(b) && Slot(Kind(b), p, existing) == Some(b) {
        if b in head {
          assert Slot(k, p, existing) == Some(b);
        }
      }
    } else {
      forall b ensures Kind(b) <= 4 {
      }
    }
  }

  /** The badges one call earns, in the order the checks run: none already
      held, at most one per check (so at most one check-in tier and one
      streak tier), and a badge exactly when its check yields it. */
  function Earned(p: Progress, existing: set<string>): (r: seq<Badge>)
    ensures forall i :: 0 <= i < |r| ==> BadgeId(r[i]) !in existing
    ensures forall i, j :: 0 <= i < j < |r| ==> Kind(r[i]) < Kind(r[j])
    ensures forall b :: b in r <==> Slot(Kind(b), p, existing) == Some(b)
  {
    EarnedFromMembers(0, p, existing);
    EarnedFrom(0, p, existing)
  }

  /** The single-badge checks: each badge is earned exactly when its
      measurement was taken, reaches the threshold, and the badge is not
      held. */
  lemma EarnedSingles(p: Progress, existing: set<string>)
    ensures FirstHabit in Earned(p, existing) <==> p.habits.Some? && Qualifies(FirstHabit, p.habits.value, existing)
    ensures PerfectWeek in Earned(p, existing) <==> p.weekCheckins.Some? && Qualifies(PerfectWeek, p.weekCheckins.value, existing)
    ensures CategoryMaster in Earned(p, existing) <==> Qualifies(CategoryMaster, p.categories, existing)
  {
    assert Kind(FirstHabit) == 0 && Kind(PerfectWeek) == 3 && Kind(CategoryMaster) == 4;
  }

  /** The check-in ladder: the badge earned is the highest reached tier not
      yet held, and one is earned whenever some tier is due. */
  lemma EarnedCheckinTier(p: Progress, existing: set<string>)
    ensures forall b :: b in Earned(p, existing) && b in CheckinTiers ==>
              && p.checkins.Some? && Qualifies(b, p.checkins.value, existing)
              && forall t :: t in CheckinTiers && Threshold(t) > Threshold(b) ==> !Qualifies(t, p.checkins.value, existing)
    ensures p.checkins.Some? && (exists t :: t in CheckinTiers && Qualifies(t, p.checkins.value, existing)) ==>
              exists b :: b in Earned(p, existing) && b in CheckinTiers
  {
    assert forall b :: b in CheckinTiers ==> Kind(b) == 1;
    var c := Slot(1, p, existing);
    if c.Some? {
      assert c.value in Earned(p, existing);
    }
  }

  /** The streak ladder, likewise, on the longest current streak. */
  lemma EarnedStreakTier(p: Progress, existing: set<string>)
    ensures forall b :: b in Earned(p, existing) && b in StreakTiers ==>
              && Qualifies(b, p.maxStreak, existing)
              && forall t :: t in StreakTiers && Threshold(t) > Threshold(b) ==> !Qualifies(t, p.maxStreak, existing)
    ensures (exists t :: t in StreakTiers && Qualifies(t, p.maxStreak, existing)) ==>
              exists b :: b in Earned(p, existing) && b in StreakTiers
  {
    assert forall b :: b in StreakTiers ==> Kind(b) == 2;
    var c := Slot(2, p, existing);
    if c.Some? {
      assert c.value in Earned(p, existing);
    }
  }

  /** The ladders are cleared one tier per call: with 60 check-ins and no
      badges held, a first call awards only "Dedicated", the next one
      "Consistent", and the one after that nothing. */
  lemma TiersOnePerCall()
    ensures BestTier(CheckinTiers, 60, {}) == Some(Checkin50)
    ensures BestTier(CheckinTiers, 60, {"checkin_50"}) == Some(Checkin10)
    ensures BestTier(CheckinTiers, 60, {"checkin_50", "checkin_10"}) == None
  {
    var t := CheckinTiers;
    assert t[1..] == [Checkin50, Checkin10] && t[1..][1..] == [Checkin10];
    assert BadgeId(Checkin10) == "checkin_10" && BadgeId(Checkin50) == "checkin_50";
    assert "checkin_10" != "checkin_50" by { assert "checkin_10"[8] != "checkin_50"[8]; }
  }

  function BadgeIds(bs: seq<Badge>): (r: seq<string>)
    ensures |r| == |bs|
    ensures forall i :: 0 <= i < |bs| ==> r[i] == BadgeId(bs[i])
  {
    seq(|bs|, i requires 0 <= i < |bs| => BadgeId(bs[i]))
  }

  /** XP of a list of badges, from BADGE_DEFINITIONS. */
  function BadgeXp(bs: seq<Badge>): nat
  {
    if |bs| == 0 then 0 else Def(bs[0]).xp + BadgeXp(bs[1..])
  }

  /** Every badge is worth some XP, so a non-empty award adds XP. */
  lemma {:induction false} BadgeXpPositive(bs: seq<Badge>)
    ensures BadgeXp(bs) >= 10 * |bs|
  {
    if |bs| > 0 {
      BadgeXpPositive(bs[1..]);
    }
  }

  function Identity(s: string): string { s }

  /** The ids held before, once each, then the new ones: the union the
      service writes back (a Python set has no defined order, so this is one
      admissible order). */
  function Union(existing: Stored, earned: seq<Badge>): (r: seq<string>)
  {
    (if existing.Parsed? then Dedup(existing.ids, Identity) else []) + BadgeIds(earned)
  }

  lemma UnionContents(existing: Stored, earned: seq<Badge>)
    ensures forall id :: id in Union(existing, earned) <==> id in Existing(existing) || id in BadgeIds(earned)
  {
    if existing.Parsed? {
      var ids := existing.ids;
      var d := Dedup(ids, Identity);
      DedupSubset(ids, Identity);
      DedupKeys(ids, Identity);
      forall id | id in ids ensures id in d {
        var i :| 0 <= i < |ids| && ids[i] == id;
        assert KeysOf(ids, Identity)[i] == id;
        assert id in KeysOf(d, Identity);
        var j :| 0 <= j < |d| && KeysOf(d, Identity)[j] == id;
        assert d[j] == id;
      }
    }
  }

  /** Which steps of check_badges raise.  A failed badge query skips that
      check; a failure to store the award makes the whole call return
      nothing, and so does statsFail, which stands for get_user_stats
      raising: its select failed and the fallback insert failed as well.  A
      failure while adding XP is swallowed. */
  datatype Faults = Faults(
    statsFail: bool,
    habitsFail: bool,
    checkinsFail: bool,
    streakFails: set<int>,
    weekFail: bool,
    storeFail: bool,
    xpFail: bool)

  /** A habit's current streak on the day of `now`. */
  function StreakOn(db: Db, now: Instant): Habit -> nat
  {
    (h: Habit) => HabitLogService.GetStreak(db, h.id, DateOf(now))
  }

  /** The habits whose streak computation does not raise. */
  function StreakWorks(fails: set<int>): Habit -> bool
  {
    (h: Habit) => h.id !in fails
  }

  /** The longest current streak over the habits whose streak computation
      does not raise; 0 when there are none. */
  function MaxStreak(db: Db, hs: seq<Habit>, now: Instant, fails: set<int>): (r: nat)
    ensures forall i :: 0 <= i < |hs| && hs[i].id !in fails ==> HabitLogService.GetStreak(db, hs[i].id, DateOf(now)) <= r
    ensures r == 0 || exists i :: 0 <= i < |hs| && hs[i].id !in fails && HabitLogService.GetStreak(db, hs[i].id, DateOf(now)) == r
  {
    var r := MaxOf(hs, StreakOn(db, now), StreakWorks(fails));
    assert forall i :: 0 <= i < |hs| ==>
             StreakOn(db, now)(hs[i]) == HabitLogService.GetStreak(db, hs[i].id, DateOf(now)) &&
             (StreakWorks(fails)(hs[i]) <==> hs[i].id !in fails);
    r
  }

  function HabitCategory(h: Habit): Category { h.category }

  /** The distinct categories among the habits. */
  function CategoriesOf(hs: seq<Habit>): set<Category>
  {
    set h | h in hs :: h.category
  }

  const AllCategories: set<Category> := {Health, Work, Learning, Fitness, MentalHealth, Productivity}

  lemma {:induction false} SubsetCard<T>(a: set<T>, b: set<T>)
    requires a <= b
    ensures |a| <= |b|
    decreases |a|
  {
    if a != {} {
      var x :| x in a;
      SubsetCard(a - {x}, b - {x});
    }
  }

  /** Six distinct categories means every category is used. */
  lemma CategoryMasterMeansAll(hs: seq<Habit>)
    ensures |CategoriesOf(hs)| >= Threshold(CategoryMaster) <==> forall c: Category :: c in CategoriesOf(hs)
  {
    var cs := CategoriesOf(hs);
    forall c: Category ensures c in AllCategories {
      match c
      case Health =>
      case Work =>
      case Learning =>
      case Fitness =>
      case MentalHealth =>
      case Productivity =>
    }
    assert |AllCategories| == 6;
    if |cs| >= 6 {
      forall c: Category ensures c in cs {
        if c !in cs {
          SubsetCard(cs, AllCategories - {c});
        }
      }
    } else if forall c: Category :: c in cs {
      SubsetCard(AllCategories, cs);
    }
  }

  /** The measurements, each read as its query would read it; the perfect
      week counts the logs dated at or after `weekStart`. */
  function Measure(db: Db, now: Instant, weekStart: Instant, f: Faults): (p: Progress)
    ensures f.habitsFail ==> p.habits.None? && p.maxStreak == 0 && p.categories == 0
    ensures !f.habitsFail ==> p.habits == Some(|db.habits|) && p.categories == |CategoriesOf(db.habits)|
    ensures !f.habitsFail ==>
              forall i :: 0 <= i < |db.habits| && db.habits[i].id !in f.streakFails ==>
                HabitLogService.GetStreak(db, db.habits[i].id, DateOf(now)) <= p.maxStreak
    ensures p.maxStreak == 0 ||
              exists i :: 0 <= i < |db.habits| && db.habits[i].id !in f.streakFails &&
                HabitLogService.GetStreak(db, db.habits[i].id, DateOf(now)) == p.maxStreak
    ensures p.checkins == if f.checkinsFail then None else Some(|db.logs|)
    ensures p.weekCheckins.Some? <==> !f.weekFail
    ensures p.weekCheckins.Some? ==>
              p.weekCheckins.value == |HabitLogService.DatedFrom(db.logs, weekStart)|
  {
    var hs := if f.habitsFail then [] else db.habits;
    Progress(
      if f.habitsFail then None else Some(|hs|),
      if f.checkinsFail then None else Some(|db.logs|),
      MaxStreak(db, hs, now, f.streakFails),
      if f.weekFail then None else Some(HabitLogService.CountSince(db.logs, weekStart)),
      |CategoriesOf(hs)|)
  }

  /** Measuring from a later week start changes only the perfect-week count,
      and lowers it or leaves it. */
  lemma MeasureWeekOrder(db: Db, now: Instant, a: Instant, b: Instant, f: Faults)
    requires b <= a
    ensures Measure(db, now, a, f).(weekCheckins := Measure(db, now, b, f).weekCheckins) == Measure(db, now, b, f)
    ensures Measure(db, now, a, f).weekCheckins.Some? ==>
              Measure(db, now, a, f).weekCheckins.value <= Measure(db, now, b, f).weekCheckins.value
  {
    HabitLogService.CountSinceOrder(db.logs, a, b);
  }

  /** check_badges on measurements already taken: the badges newly awarded
      and the stats row afterwards. */
  function Award(stats: Option<UserStats>, p: Progress, f: Faults): (r: (seq<Badge>, Option<UserStats>))
    ensures f.statsFail ==> r == ([], stats)
    ensures !f.statsFail ==> r.1.Some?
    ensures var before := StatsOrDefault(stats);
            forall i :: 0 <= i < |r.0| ==> BadgeId(r.0[i]) !in Existing(before.badges)
    ensures forall i, j :: 0 <= i < j < |r.0| ==> Kind(r.0[i]) < Kind(r.0[j])
    ensures r.1.Some? ==> r.1.value.level >= StatsOrDefault(stats).level
    ensures r.1.Some? ==> r.1.value.totalXp == StatsOrDefault(stats).totalXp + (if f.xpFail then 0 else BadgeXp(r.0))
    ensures r.1.Some? && r.0 != [] ==>
              && r.1.value.badges.Parsed?
              && forall id :: id in r.1.value.badges.ids <==> id in Existing(StatsOrDefault(stats).badges) || id in BadgeIds(r.0)
    ensures r.1.Some? && r.0 == [] ==> r.1.value == StatsOrDefault(stats)
  {
    if f.statsFail then ([], stats)
    else
      var s := StatsOrDefault(stats);
      var earned := Earned(p, Existing(s.badges));
      if earned == [] || f.storeFail then ([], Some(s))
      else
        UnionContents(s.badges, earned);
        var stored := s.(badges := Parsed(Union(s.badges, earned)));
        var xp := BadgeXp(earned);
        var after := if f.xpFail || xp <= 0 then stored else AddXp(stored, xp);
        (earned, Some(after))
  }

  /** The badges an award reports are the ones earned on its measurements,
      or none when the stats cannot be loaded or the award cannot be
      stored. */
  lemma AwardEarned(stats: Option<UserStats>, p: Progress, f: Faults)
    ensures var earned := Earned(p, Existing(StatsOrDefault(stats).badges));
            Award(stats, p, f).0 == if f.statsFail || f.storeFail then [] else earned
  {
  }

  /** So a perfect week is reported exactly when the week's count reaches
      seven, the badge is not held, and the stats load and the award is
      stored. */
  lemma AwardPerfectWeek(stats: Option<UserStats>, p: Progress, f: Faults)
    ensures PerfectWeek in Award(stats, p, f).0 <==>
              && !f.statsFail && !f.storeFail && p.weekCheckins.Some?
              && Qualifies(PerfectWeek, p.weekCheckins.value, Existing(StatsOrDefault(stats).badges))
  {
    var existing := Existing(StatsOrDefault(stats).badges);
    AwardEarned(stats, p, f);
    EarnedSingles(p, existing);
    if f.statsFail || f.storeFail {
      assert Award(stats, p, f).0 == [];
    } else {
      assert Award(stats, p, f).0 == Earned(p, existing);
    }
  }

  lemma QualifiesPerfectWeek(v: nat, existing: set<string>)
    ensures Qualifies(PerfectWeek, v, existing) <==> v >= 7 && BadgeId(PerfectWeek) !in existing
  {
  }

  /** The same, stated on the number of logs the perfect-week query
      counts. */
  lemma AwardPerfectWeekCount(stats: Option<UserStats>, p: Progress, f: Faults, n: nat)
    requires p.weekCheckins.Some? <==> !f.weekFail
    requires p.weekCheckins.Some? ==> p.weekCheckins.value == n
    ensures PerfectWeek in Award(stats, p, f).0 <==>
              && !f.statsFail && !f.storeFail && !f.weekFail
              && BadgeId(PerfectWeek) !in Existing(StatsOrDefault(stats).badges)
              && n >= 7
  {
    AwardPerfectWeek(stats, p, f);
    if p.weekCheckins.Some? {
      QualifiesPerfectWeek(n, Existing(StatsOrDefault(stats).badges));
    }
  }

  /** Likewise the first-habit badge, on the number of habits. */
  lemma AwardFirstHabit(stats: Option<UserStats>, p: Progress, f: Faults)
    ensures FirstHabit in Award(stats, p, f).0 <==>
              && !f.statsFail && !f.storeFail && p.habits.Some?
              && Qualifies(FirstHabit, p.habits.value, Existing(StatsOrDefault(stats).badges))
  {
    var existing := Existing(StatsOrDefault(stats).badges);
    AwardEarned(stats, p, f);
    EarnedSingles(p, existing);
    if f.statsFail || f.storeFail {
      assert Award(stats, p, f).0 == [];
    } else {
      assert Award(stats, p, f).0 == Earned(p, existing);
    }
  }

  /** check_badges over the database at instant `now`, as the service
      computes it: the perfect week counts the logs from `now` minus
      weekday(now) whole days, which keeps now's time of day. */
  function CheckBadges(stats: Option<UserStats>, db: Db, now: Instant, f: Faults): (r: (seq<Badge>, Option<UserStats>))
    ensures f.statsFail ==> r == ([], stats)
    ensures forall i :: 0 <= i < |r.0| ==> BadgeId(r.0[i]) !in Existing(StatsOrDefault(stats).badges)
    ensures FirstHabit in r.0 ==> !f.habitsFail && |db.habits| >= 1
    ensures PerfectWeek in r.0 <==>
              && !f.statsFail && !f.storeFail && !f.weekFail
              && BadgeId(PerfectWeek) !in Existing(StatsOrDefault(stats).badges)
              && |HabitLogService.DatedFrom(db.logs, WeekStartAsWritten(now))| >= 7
  {
    var p := Measure(db, now, WeekStartAsWritten(now), f);
    AwardPerfectWeekCount(stats, p, f, |HabitLogService.DatedFrom(db.logs, WeekStartAsWritten(now))|);
    AwardFirstHabit(stats, p, f);
    Award(stats, p, f)
  }

  /** check_badges as evidently intended: the perfect week counts every log
      dated on or after this week's Monday. */
  function CheckBadgesIntended(stats: Option<UserStats>, db: Db, now: Instant, f: Faults): (r: (seq<Badge>, Option<UserStats>))
    ensures f.statsFail ==> r == ([], stats)
    ensures forall i :: 0 <= i < |r.0| ==> BadgeId(r.0[i]) !in Existing(StatsOrDefault(stats).badges)
    ensures FirstHabit in r.0 ==> !f.habitsFail && |db.habits| >= 1
    ensures PerfectWeek in r.0 <==>
              && !f.statsFail && !f.storeFail && !f.weekFail
              && BadgeId(PerfectWeek) !in Existing(StatsOrDefault(stats).badges)
              && |set i | 0 <= i < |db.logs| && DateOf(db.logs[i].logDate) >= MondayOf(DateOf(now))| >= 7
  {
    var p := Measure(db, now, WeekStart(now), f);
    HabitLogService.WeekByDate(db.logs, now);
    AwardPerfectWeekCount(stats, p, f, |HabitLogService.DatedFrom(db.logs, WeekStart(now))|);
    AwardFirstHabit(stats, p, f);
    Award(stats, p, f)
  }

  /** The computed week start is never earlier than Monday 00:00, so a
      perfect week awarded as written is awarded by the intended check too;
      at midnight the two checks agree on everything. */
  lemma CheckBadgesAgainstIntended(stats: Option<UserStats>, db: Db, now: Instant, f: Faults)
    ensures PerfectWeek in CheckBadges(stats, db, now, f).0 ==> PerfectWeek in CheckBadgesIntended(stats, db, now, f).0
    ensures now == Midnight(DateOf(now)) ==> CheckBadges(stats, db, now, f) == CheckBadgesIntended(stats, db, now, f)
  {
    WeekStartOffset(now);
    var existing := Existing(StatsOrDefault(stats).badges);
    var a := Measure(db, now, WeekStartAsWritten(now), f);
    var c := Measure(db, now, WeekStart(now), f);
    MeasureWeekOrder(db, now, WeekStartAsWritten(now), WeekStart(now), f);
    AwardPerfectWeek(stats, a, f);
    AwardPerfectWeek(stats, c, f);
    EarnedSingles(a, existing);
    EarnedSingles(c, existing);
  }

  /** Seven check-ins on a Monday at 09:00 (2025-01-06, say), checked on
      the Wednesday of that week at 15:00 by a new user: the intended check
      awards a perfect week, the computed one does not. */
  lemma PerfectWeekMissedOn(monday: Day)
    requires Weekday(monday) == 0
    ensures var log := Midnight(monday) + 9 * 3_600_000_000;
            var now := Midnight(monday + 2) + 15 * 3_600_000_000;
            var db := Db([], seq(7, i => HabitLog(i + 1, 1, log, None, log)));
            var f := Faults(false, false, false, {}, false, false, false);
            && PerfectWeek !in CheckBadges(None, db, now, f).0
            && PerfectWeek in CheckBadgesIntended(None, db, now, f).0
  {
    var log := Midnight(monday) + 9 * 3_600_000_000;
    var now := Midnight(monday + 2) + 15 * 3_600_000_000;
    var db := Db([], seq(7, i => HabitLog(i + 1, 1, log, None, log)));
    MidnightOrder(now, monday + 2);
    assert DateOf(now) == monday + 2;
    assert WeekStartAsWritten(now) == Midnight(monday) + 15 * 3_600_000_000;
    assert WeekStart(now) == Midnight(monday);
    forall i | 0 <= i < |db.logs| ensures db.logs[i].logDate == log {
    }
    HabitLogService.CountSinceExtremes(db.logs, WeekStartAsWritten(now));
    HabitLogService.CountSinceExtremes(db.logs, WeekStart(now));
    assert Existing(StatsOrDefault(None).badges) == {};
    HabitLogService.WeekByDate(db.logs, now);
  }

  /** get_all_badges: the stored ids that name a badge, in stored order
      (repeats kept); nothing for a missing or undecodable column. */
  function GetAllBadges(stats: Option<UserStats>): (r: seq<Badge>)
    ensures var b := StatsOrDefault(stats).badges;
            && (!b.Parsed? ==> r == [])
            && (b.Parsed? ==> BadgeIds(r) == Filter(b.ids, (id: string) => LookupBadge(id).Some?))
  {
    var b := StatsOrDefault(stats).badges;
    if b.Parsed? then Known(b.ids) else []
  }

  function Known(ids: seq<string>): (r: seq<Badge>)
    ensures BadgeIds(r) == Filter(ids, (id: string) => LookupBadge(id).Some?)
  {
    if |ids| == 0 then []
    else
      var rest := Known(ids[1..]);
      var l := LookupBadge(ids[0]);
      if l.Some? then
        assert BadgeIds([l.value] + rest) == [ids[0]] + BadgeIds(rest);
        [l.value] + rest
      else rest
  }

  /** After an award is stored, listing the earned badges shows every badge
      just awarded. */
  lemma AwardedAreListed(stats: Option<UserStats>, p: Progress, f: Faults, b: Badge)
    requires b in Award(stats, p, f).0
    ensures b in GetAllBadges(Award(stats, p, f).1)
  {
    var (earned, after) := Award(stats, p, f);
    var ids := after.value.badges.ids;
    assert BadgeId(b) in BadgeIds(earned) by {
      var i :| 0 <= i < |earned| && earned[i] == b;
      assert BadgeIds(earned)[i] == BadgeId(b);
    }
    assert BadgeId(b) in ids;
    var known := (id: string) => LookupBadge(id).Some?;
    var i :| 0 <= i < |ids| && ids[i] == BadgeId(b);
    assert known(ids[i]);
    assert BadgeId(b) in Filter(ids, known);
    var r := GetAllBadges(after);
    assert BadgeIds(r) == Filter(ids, known);
    var j :| 0 <= j < |BadgeIds(r)| && BadgeIds(r)[j] == BadgeId(b);
    assert LookupBadge(BadgeId(r[j])) == Some(b);
  }
}
