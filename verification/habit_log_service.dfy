/** Check-ins (backend/app/services/habit_log_service.py): log CRUD, the
    current streak and the success rate.  "Today" is a parameter; the
    log table is the sequence of rows in the database. */
module HabitLogService {
  import opened Collections
  import opened Calendar
  import opened Habits
  import HabitService

  /** get_by_id for logs. */
  function GetLogById(db: Db, id: int): (r: Option<HabitLog>)
    ensures r.Some? ==> r.value in db.logs && r.value.id == id
    ensures r.None? <==> forall i :: 0 <= i < |db.logs| ==> db.logs[i].id != id
  {
    Find(db.logs, LogId, id)
  }

  /** HabitLogCreate after validation. */
  datatype LogCreate = LogCreate(habitId: int, logDate: Instant, notes: Option<string>)

  datatype LogCreateInput = LogCreateInput(logDate: Raw<Instant>, notes: Raw<string>, habitId: Raw<int>)

  /** Validating a HabitLogCreate body: habit_id is required, log_date
      defaults to the current time, notes are optional and at most 2000
      characters.  The first failing field, in declaration order, is
      reported. */
  function ParseLogCreate(inp: LogCreateInput, now: Instant): (r: Result<LogCreate, ValidationError>)
    ensures r.Ok? <==>
              && !inp.logDate.Null?
              && (inp.notes.Given? ==> |inp.notes.value| <= NotesMax)
              && inp.habitId.Given?
    ensures r.Ok? ==> r.value.habitId == inp.habitId.value
    ensures r.Ok? ==> r.value.logDate == (if inp.logDate.Given? then inp.logDate.value else now)
    ensures r.Ok? ==> (r.value.notes.Some? <==> inp.notes.Given?)
    ensures r.Ok? && r.value.notes.Some? ==> r.value.notes.value == inp.notes.value
  {
    if inp.logDate.Null? then Err(NotNull("log_date"))
    else if inp.notes.Given? && |inp.notes.value| > NotesMax then Err(TooLong("notes"))
    else if inp.habitId.Absent? then Err(Missing("habit_id"))
    else if inp.habitId.Null? then Err(NotNull("habit_id"))
    else
      var date := if inp.logDate.Given? then inp.logDate.value else now;
      var notes := if inp.notes.Given? then Some(inp.notes.value) else None;
      Ok(LogCreate(inp.habitId.value, date, notes))
  }

  /** create: a new log row with the validated fields, stamped `now`. */
  function CreateLog(db: Db, c: LogCreate, id: int, now: Instant): (r: (Db, HabitLog))
    requires GetLogById(db, id).None?
    ensures r.1.id == id && r.1.habitId == c.habitId && r.1.logDate == c.logDate
    ensures r.1.notes == c.notes && r.1.createdAt == now
    ensures GetLogById(r.0, id) == Some(r.1)
    ensures forall k :: k != id ==> GetLogById(r.0, k) == GetLogById(db, k)
    ensures r.0.habits == db.habits
    ensures WellFormed(db) ==> WellFormed(r.0)
  {
    var l := HabitLog(id, c.habitId, c.logDate, c.notes, now);
    var db' := Db(db.habits, db.logs + [l]);
    forall k ensures GetLogById(db', k) == if k == id then Some(l) else GetLogById(db, k) {
      FindAppend(db.logs, l, LogId, k);
    }
    (db', l)
  }

  function ForHabit(habitId: int): HabitLog -> bool
  {
    (l: HabitLog) => l.habitId == habitId
  }

  function LogDate(l: HabitLog): int { l.logDate }

  /** The filter `log_date >= t`. */
  function Since(t: Instant): HabitLog -> bool
  {
    (l: HabitLog) => l.logDate >= t
  }

  /** The positions of the logs dated at or after t. */
  function DatedFrom(logs: seq<HabitLog>, t: Instant): set<int>
  {
    set i | 0 <= i < |logs| && logs[i].logDate >= t
  }

  /** How many logs a `log_date >= t` count query finds: the number of
      rows whose date is not before `t`. */
  function CountSince(logs: seq<HabitLog>, t: Instant): (n: nat)
    ensures n <= |logs|
    ensures n == |DatedFrom(logs, t)|
  {
    FilterCountsPositions(logs, Since(t));
    assert Positions(logs, Since(t)) == DatedFrom(logs, t);
    |Filter(logs, Since(t))|
  }

  /** Every log counts when all are dated at or after t; none when all are
      earlier. */
  lemma CountSinceExtremes(logs: seq<HabitLog>, t: Instant)
    ensures (forall i :: 0 <= i < |logs| ==> logs[i].logDate >= t) ==> CountSince(logs, t) == |logs|
    ensures (forall i :: 0 <= i < |logs| ==> logs[i].logDate < t) ==> CountSince(logs, t) == 0
  {
    if forall i :: 0 <= i < |logs| ==> logs[i].logDate >= t {
      FilterAll(logs, Since(t));
    }
    if forall i :: 0 <= i < |logs| ==> logs[i].logDate < t {
      var r := Filter(logs, Since(t));
      assert forall l :: l in logs ==> !Since(t)(l);
    }
  }

  /** Counting from Monday 00:00 counts the logs dated on or after this
      week's Monday. */
  lemma WeekByDate(logs: seq<HabitLog>, now: Instant)
    ensures DatedFrom(logs, WeekStart(now)) ==
            (set i | 0 <= i < |logs| && DateOf(logs[i].logDate) >= MondayOf(DateOf(now)))
  {
    forall i | 0 <= i < |logs|
      ensures logs[i].logDate >= WeekStart(now) <==> DateOf(logs[i].logDate) >= MondayOf(DateOf(now))
    {
      WeekStartCounts(now, logs[i].logDate);
    }
  }

  /** A later lower bound counts no more logs. */
  lemma CountSinceOrder(logs: seq<HabitLog>, a: Instant, b: Instant)
    requires b <= a
    ensures CountSince(logs, a) <= CountSince(logs, b)
  {
    FilterWeaker(logs, Since(a), Since(b));
  }

  /** get_by_habit_id: the habit's logs, latest first, then OFFSET/LIMIT. */
  function GetByHabitId(db: Db, habitId: int, skip: nat, limit: nat): (r: seq<HabitLog>)
    ensures var n := |Filter(db.logs, ForHabit(habitId))|;
            |r| == if n <= skip then 0 else HabitService.Min(limit, n - skip)
    ensures SortedDesc(r, LogDate)
    ensures forall i :: 0 <= i < |r| ==> r[i] in db.logs && r[i].habitId == habitId
  {
    var r := Take(Drop(SortDesc(Filter(db.logs, ForHabit(habitId)), LogDate), skip), limit);
    assert SortedDesc(r, LogDate) && forall i :: 0 <= i < |r| ==> r[i] in db.logs && r[i].habitId == habitId by {
      FilterPage(db.logs, ForHabit(habitId), LogDate, skip, limit);
    }
    r
  }

  /** One page of a habit's logs followed by the next one is the page
      spanning both, so paging neither skips nor repeats a log. */
  lemma GetByHabitIdPages(db: Db, habitId: int, skip: nat, a: nat, b: nat)
    ensures GetByHabitId(db, habitId, skip, a) + GetByHabitId(db, habitId, skip + a, b) ==
            GetByHabitId(db, habitId, skip, a + b)
  {
    PagesConcat(SortDesc(Filter(db.logs, ForHabit(habitId)), LogDate), skip, a, b);
  }

  /** With no offset and a large enough limit, every log of the habit is
      listed exactly once. */
  lemma GetByHabitIdEverything(db: Db, habitId: int, limit: nat)
    requires |db.logs| <= limit
    ensures multiset(GetByHabitId(db, habitId, 0, limit)) == multiset(Filter(db.logs, ForHabit(habitId)))
  {
  }

  /** update: a missing id is reported and nothing changes; an update that
      sets nothing returns the row as it was; otherwise the supplied
      attributes are assigned.  A NULL log_date violates NOT NULL. */
  function UpdateLog(db: Db, id: int, u: LogUpdate): (r: Outcome<HabitLog>)
    ensures r.NotFound? <==> GetLogById(db, id).None?
    ensures r.IntegrityError? <==> GetLogById(db, id).Some? && u.logDate == Put(None)
    ensures GetLogById(db, id).Some? && u.logDate.Keep? && u.notes.Keep? ==>
              r == Updated(db, GetLogById(db, id).value)
    ensures r.Updated? ==>
              var l := GetLogById(db, id).value;
              && r.row.id == id && r.row.habitId == l.habitId && r.row.createdAt == l.createdAt
              && (u.logDate.Keep? ==> r.row.logDate == l.logDate)
              && (u.logDate.Put? ==> u.logDate.value == Some(r.row.logDate))
              && (u.notes.Keep? ==> r.row.notes == l.notes)
              && (u.notes.Put? ==> u.notes.value == r.row.notes)
    ensures r.Updated? ==> GetLogById(r.db, id) == Some(r.row)
    ensures r.Updated? ==> forall k :: k != id ==> GetLogById(r.db, k) == GetLogById(db, k)
    ensures r.Updated? ==> r.db.habits == db.habits
    ensures r.Updated? && WellFormed(db) ==> WellFormed(r.db)
  {
    match GetLogById(db, id)
    case None => NotFound
    case Some(l) =>
      if u.logDate.Keep? && u.notes.Keep? then Updated(db, l)
      else if u.logDate == Put(None) then IntegrityError
      else
        var l' := l.(logDate := if u.logDate.Put? then u.logDate.value.value else l.logDate,
                     notes := if u.notes.Put? then u.notes.value else l.notes);
        var db' := Db(db.habits, Replace(db.logs, LogId, l'));
        forall k ensures GetLogById(db', k) == if k == id then Some(l') else GetLogById(db, k) {
          FindReplace(db.logs, LogId, l', k);
        }
        assert WellFormed(db) ==> WellFormed(db') by {
          if WellFormed(db) { ReplaceUnique(db.logs, LogId, l'); }
        }
        Updated(db', l')
  }

  function OtherLog(id: int): HabitLog -> bool
  {
    (l: HabitLog) => l.id != id
  }

  /** delete: false and no change for a missing id; otherwise true, the row
      is gone and every other row stays. */
  function DeleteLog(db: Db, id: int): (r: (Db, bool))
    ensures r.1 <==> GetLogById(db, id).Some?
    ensures !r.1 ==> r.0 == db
    ensures GetLogById(r.0, id).None?
    ensures forall k :: k != id ==> GetLogById(r.0, k) == GetLogById(db, k)
    ensures r.0.habits == db.habits
    ensures WellFormed(db) ==> WellFormed(r.0)
  {
    if GetLogById(db, id).None? then (db, false)
    else
      var db' := Db(db.habits, Filter(db.logs, OtherLog(id)));
      forall k | k != id ensures GetLogById(db', k) == GetLogById(db, k) {
        FindFilter(db.logs, OtherLog(id), LogId, k);
      }
      assert WellFormed(db) ==> WellFormed(db') by {
        if WellFormed(db) { FilterUnique(db.logs, OtherLog(id), LogId); }
      }
      (db', true)
  }

  /** The calendar days on which the habit has at least one log. */
  function LogDays(db: Db, habitId: int): set<Day>
  {
    set l | l in db.logs && l.habitId == habitId :: DateOf(l.logDate)
  }

  /** The daily loop: count back from `cur` while the day is on or after the
      start date and has a log. */
  function DailyStreak(days: set<Day>, cur: Day, start: Day): nat
    decreases cur - start
  {
    if cur >= start && cur in days then 1 + DailyStreak(days, cur - 1, start) else 0
  }

  /** Some log falls in the seven days from Monday m. */
  predicate WeekHasLog(days: set<Day>, m: Day)
  {
    exists d :: d in days && m <= d < m + 7
  }

  /** The weekly loop: while the cursor is on or after the start date and its
      week has a log, count the week and move to the Sunday before it. */
  function WeeklyStreak(days: set<Day>, cur: Day, start: Day): nat
    decreases cur - start
  {
    if cur >= start && WeekHasLog(days, MondayOf(cur)) then 1 + WeeklyStreak(days, MondayOf(cur) - 1, start)
    else 0
  }

  /** get_streak: 0 for a missing habit or one without logs, otherwise the
      daily or weekly run counted back from today. */
  function GetStreak(db: Db, habitId: int, today: Day): (r: nat)
    ensures HabitService.GetById(db, habitId).None? ==> r == 0
    ensures LogDays(db, habitId) == {} ==> r == 0
    ensures HabitService.GetById(db, habitId).Some? && LogDays(db, habitId) != {} ==>
              var h := HabitService.GetById(db, habitId).value;
              r == if h.frequency == Daily then DailyStreak(LogDays(db, habitId), today, h.startDate)
                   else WeeklyStreak(LogDays(db, habitId), today, h.startDate)
  {
    match HabitService.GetById(db, habitId)
    case None => 0
    case Some(h) =>
      var days := LogDays(db, habitId);
      if days == {} then 0
      else if h.frequency == Daily then DailyStreak(days, today, h.startDate)
      else WeeklyStreak(days, today, h.startDate)
  }

  /** The streak is 0 for a missing habit, a habit without logs, and (for a
      daily habit) a today without a log. */
  lemma StreakZero(db: Db, habitId: int, today: Day)
    ensures HabitService.GetById(db, habitId).None? ==> GetStreak(db, habitId, today) == 0
    ensures (forall i :: 0 <= i < |db.logs| ==> db.logs[i].habitId != habitId) ==> GetStreak(db, habitId, today) == 0
    ensures (HabitService.GetById(db, habitId).Some? && HabitService.GetById(db, habitId).value.frequency == Daily &&
             today !in LogDays(db, habitId)) ==> GetStreak(db, habitId, today) == 0
  {
    if forall i :: 0 <= i < |db.logs| ==> db.logs[i].habitId != habitId {
      forall l | l in db.logs ensures l.habitId != habitId {
        var i :| 0 <= i < |db.logs| && db.logs[i] == l;
      }
      assert LogDays(db, habitId) == {};
    }
  }

  /** Day d is on or after the start date and has a log. */
  predicate Logged(days: set<Day>, start: Day, d: Day)
  {
    d >= start && d in days
  }

  /** The daily streak r is exactly the run of logged days cur-r+1 .. cur,
      and the day before the run breaks it. */
  lemma {:induction false} DailyStreakRun(days: set<Day>, cur: Day, start: Day)
    ensures forall d :: cur - DailyStreak(days, cur, start) < d <= cur ==> Logged(days, start, d)
    ensures !Logged(days, start, cur - DailyStreak(days, cur, start))
    decreases cur - start
  {
    if Logged(days, start, cur) {
      DailyStreakRun(days, cur - 1, start);
      var r' := DailyStreak(days, cur - 1, start);
      assert DailyStreak(days, cur, start) == r' + 1;
      forall d | cur - (r' + 1) < d <= cur ensures Logged(days, start, d) {
        if d < cur {
          assert (cur - 1) - r' < d <= cur - 1;
        }
      }
    }
  }

  /** The run property pins the streak down: no other length has it. */
  lemma {:induction false} DailyStreakUnique(days: set<Day>, cur: Day, start: Day, n: nat)
    requires forall d :: cur - n < d <= cur ==> Logged(days, start, d)
    requires !Logged(days, start, cur - n)
    ensures n == DailyStreak(days, cur, start)
    decreases n
  {
    if n > 0 {
      assert Logged(days, start, cur);
      forall d | (cur - 1) - (n - 1) < d <= cur - 1 ensures Logged(days, start, d) {
        assert cur - n < d <= cur;
      }
      DailyStreakUnique(days, cur - 1, start, n - 1);
    }
  }

  /** No day before the start date is counted. */
  lemma DailyStreakBound(days: set<Day>, cur: Day, start: Day)
    ensures DailyStreak(days, cur, start) <= if cur >= start then cur - start + 1 else 0
  {
    DailyStreakRun(days, cur, start);
    var r := DailyStreak(days, cur, start);
    if r > 0 {
      var first := cur - r + 1;
      assert cur - r < first <= cur;
      assert Logged(days, start, first);
    }
  }

  /** Where the weekly loop's cursor is before its j-th step: today, then
      the Sunday before each counted week. */
  function Cursor(cur: Day, j: nat): Day
  {
    if j == 0 then cur else MondayOf(cur) - 7 * j + 6
  }

  /** The weekly streak r is the number of consecutive Monday-aligned weeks,
      starting with the current one, that contain a log, each visited while
      the cursor is on or after the start date. */
  lemma {:induction false} WeeklyStreakRun(days: set<Day>, cur: Day, start: Day)
    ensures var r := WeeklyStreak(days, cur, start);
              && (forall j :: 0 <= j < r ==> Cursor(cur, j) >= start && WeekHasLog(days, MondayOf(cur) - 7 * j))
              && (Cursor(cur, r) < start || !WeekHasLog(days, MondayOf(cur) - 7 * r))
    decreases cur - start
  {
    var m := MondayOf(cur);
    if cur >= start && WeekHasLog(days, m) {
      var prev := m - 1;
      WeeklyStreakRun(days, prev, start);
      var r := WeeklyStreak(days, cur, start);
      assert r == 1 + WeeklyStreak(days, prev, start);
      forall j | 0 <= j < r ensures Cursor(cur, j) >= start && WeekHasLog(days, m - 7 * j) {
        if j > 0 {
          CursorShift(cur, j);
        }
      }
      CursorShift(cur, r);
    }
  }

  /** One week further back from the current cursor is one step back from
      the Sunday before the current week. */
  lemma CursorShift(cur: Day, j: nat)
    requires j >= 1
    ensures var prev := MondayOf(cur) - 1;
            Cursor(cur, j) == Cursor(prev, j - 1) && MondayOf(cur) - 7 * j == MondayOf(prev) - 7 * (j - 1)
  {
    var m := MondayOf(cur);
    MondayOfWeek(m - 1, m - 7);
  }

  /** More log days never shorten a streak. */
  lemma {:induction false} DailyStreakMonotone(days: set<Day>, more: set<Day>, cur: Day, start: Day)
    requires days <= more
    ensures DailyStreak(days, cur, start) <= DailyStreak(more, cur, start)
    decreases cur - start
  {
    if cur >= start && cur in days {
      DailyStreakMonotone(days, more, cur - 1, start);
    }
  }

  lemma {:induction false} WeeklyStreakMonotone(days: set<Day>, more: set<Day>, cur: Day, start: Day)
    requires days <= more
    ensures WeeklyStreak(days, cur, start) <= WeeklyStreak(more, cur, start)
    decreases cur - start
  {
    if cur >= start && WeekHasLog(days, MondayOf(cur)) {
      var d :| d in days && MondayOf(cur) <= d < MondayOf(cur) + 7;
      assert d in more;
      WeeklyStreakMonotone(days, more, MondayOf(cur) - 1, start);
    }
  }

  /** A second log on an already logged day leaves the streak as it was:
      dates are collapsed to a set. */
  lemma SameDayLogKeepsStreak(db: Db, l: HabitLog, today: Day)
    requires DateOf(l.logDate) in LogDays(db, l.habitId)
    ensures GetStreak(Db(db.habits, db.logs + [l]), l.habitId, today) == GetStreak(db, l.habitId, today)
  {
    var db' := Db(db.habits, db.logs + [l]);
    assert LogDays(db', l.habitId) == LogDays(db, l.habitId);
  }

  /** The source's loops, step by step. */
  method StreakLoop(days: set<Day>, today: Day, start: Day, f: Frequency) returns (streak: nat)
    ensures f == Daily ==> streak == DailyStreak(days, today, start)
    ensures f == Weekly ==> streak == WeeklyStreak(days, today, start)
  {
    streak := 0;
    var cur := today;
    if f == Daily {
      while cur >= start
        invariant streak + DailyStreak(days, cur, start) == DailyStreak(days, today, start)
        decreases cur - start
      {
        if cur in days {
          streak := streak + 1;
          cur := cur - 1;
        } else {
          break;
        }
      }
    } else {
      while cur >= start
        invariant streak + WeeklyStreak(days, cur, start) == WeeklyStreak(days, today, start)
        decreases cur - start
      {
        var weekStart := cur - Weekday(cur);
        if exists d :: d in days && weekStart <= d < weekStart + 7 {
          streak := streak + 1;
          cur := weekStart - 1;
        } else {
          break;
        }
      }
    }
  }

  /** Expected check-ins from the start date through today: one per day, or
      one per started week (Python's floor division by 7). */
  function Expected(f: Frequency, start: Day, today: Day): int
  {
    if f == Daily then today - start + 1 else (today - start) / 7 + 1
  }

  /** Expected check-ins are positive exactly when the habit has started. */
  lemma ExpectedPositive(f: Frequency, start: Day, today: Day)
    ensures Expected(f, start, today) > 0 <==> today >= start
    ensures today >= start ==> Expected(f, start, today) <= today - start + 1
  {
    if f == Weekly && today < start {
      assert (today - start) / 7 < 0;
    }
  }

  function CountedFrom(habitId: int, start: Day): HabitLog -> bool
  {
    (l: HabitLog) => l.habitId == habitId && l.logDate >= Midnight(start)
  }

  /** Actual check-ins: every log of the habit at or after midnight of the
      start date, repeats and future dates included. */
  function Actual(db: Db, habitId: int, start: Day): nat
  {
    |Filter(db.logs, CountedFrom(habitId, start))|
  }

  /** get_success_rate, as an exact percentage: 0 for a missing habit or
      one that has not started, otherwise the percentage of actual over
      expected check-ins. */
  function SuccessRate(db: Db, habitId: int, today: Day): (r: real)
    ensures r >= 0.0
    ensures HabitService.GetById(db, habitId).None? ==> r == 0.0
    ensures HabitService.GetById(db, habitId).Some? && today < HabitService.GetById(db, habitId).value.startDate ==>
              r == 0.0
  {
    match HabitService.GetById(db, habitId)
    case None => 0.0
    case Some(h) =>
      var expected := Expected(h.frequency, h.startDate, today);
      ExpectedPositive(h.frequency, h.startDate, today);
      if expected == 0 then 0.0
      else
        var actual := Actual(db, habitId, h.startDate);
        if expected > 0 then Percent(actual, expected) else 0.0
  }

  /** actual / expected * 100. */
  function Percent(actual: nat, expected: int): (r: real)
    requires expected > 0
    ensures r >= 0.0
  {
    (actual as real / expected as real) * 100.0
  }

  /** The percentage applied to the expected count gives back a hundred
      times the actual count. */
  lemma PercentScales(actual: nat, expected: int)
    requires expected > 0
    ensures Percent(actual, expected) * expected as real == 100.0 * actual as real
  {
    var q := actual as real / expected as real;
    assert q * expected as real == actual as real;
  }

  /** Once the habit has started, the rate is the percentage of expected
      check-ins actually made. */
  lemma SuccessRateScales(db: Db, habitId: int, today: Day)
    requires HabitService.GetById(db, habitId).Some?
    requires today >= HabitService.GetById(db, habitId).value.startDate
    ensures var h := HabitService.GetById(db, habitId).value;
            SuccessRate(db, habitId, today) * Expected(h.frequency, h.startDate, today) as real
              == 100.0 * Actual(db, habitId, h.startDate) as real
  {
    var h := HabitService.GetById(db, habitId).value;
    var expected := Expected(h.frequency, h.startDate, today);
    var actual := Actual(db, habitId, h.startDate);
    ExpectedPositive(h.frequency, h.startDate, today);
    assert SuccessRate(db, habitId, today) == Percent(actual, expected);
    assert Percent(actual, expected) * expected as real == 100.0 * actual as real by {
      PercentScales(actual, expected);
    }
  }

  /** Repeated check-ins on one day all count, so the rate can pass 100: a
      daily habit started today with two logs today scores 200. */
  lemma RateNotCapped(now: Instant)
    requires DateOf(now) >= 1
    ensures var today := DateOf(now);
            var h := Habit(1, "Read", Daily, Learning, today, None, now, now);
            var db := Db([h], [HabitLog(1, 1, now, None, now), HabitLog(2, 1, now, None, now)]);
            SuccessRate(db, 1, today) == 200.0
  {
    var today := DateOf(now);
    var h := Habit(1, "Read", Daily, Learning, today, None, now, now);
    var db := Db([h], [HabitLog(1, 1, now, None, now), HabitLog(2, 1, now, None, now)]);
    assert now >= Midnight(today);
    assert Filter(db.logs, CountedFrom(1, today)) == db.logs;
  }

  /** The same repeated log that leaves the streak alone adds one to the
      actual count when it falls on or after the start date. */
  lemma SameDayLogCountsForRate(db: Db, l: HabitLog, start: Day)
    requires l.logDate >= Midnight(start)
    ensures Actual(Db(db.habits, db.logs + [l]), l.habitId, start) == Actual(db, l.habitId, start) + 1
  {
    FilterAppend(db.logs, [l], CountedFrom(l.habitId, start));
  }
}
