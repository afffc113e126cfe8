/** Check-in analytics (backend/app/services/analytics_service.py):
    group-by counts of log dates by weekday name and by calendar date,
    per-category habit and log totals, and the overall counters.  A failing
    query is a boolean parameter; every endpoint then answers with its
    fallback. */
module Analytics {
  import opened Collections
  import opened Calendar
  import opened Habits
  import opened HabitLogService

  /** Each key paired with weight 1. */
  function Ones<K>(keys: seq<K>): (r: seq<(K, nat)>)
    ensures |r| == |keys|
    ensures forall i :: 0 <= i < |keys| ==> r[i] == (keys[i], 1)
  {
    seq(|keys|, i requires 0 <= i < |keys| => (keys[i], 1))
  }

  /** A tally as the dictionary the service returns: key and count. */
  function Pairs<K>(ts: seq<Tally<K>>): (r: seq<(K, nat)>)
    ensures |r| == |ts|
    ensures forall i :: 0 <= i < |ts| ==> r[i] == (ts[i].key, ts[i].count)
  {
    seq(|ts|, i requires 0 <= i < |ts| => (ts[i].key, ts[i].count))
  }

  function Values<K>(r: seq<(K, nat)>): seq<int>
  {
    seq(|r|, i requires 0 <= i < |r| => r[i].1 as int)
  }

  predicate HasKey<K(==)>(r: seq<(K, nat)>, k: K)
  {
    exists i :: 0 <= i < |r| && r[i].0 == k
  }

  lemma {:induction false} CountKeyOnes<K>(keys: seq<K>, k: K)
    ensures CountKey(Ones(keys), k) == multiset(keys)[k]
  {
    if |keys| > 0 {
      var n := |keys| - 1;
      assert Ones(keys)[..n] == Ones(keys[..n]);
      CountKeyOnes(keys[..n], k);
      assert keys == keys[..n] + [keys[n]];
      assert multiset(keys) == multiset(keys[..n]) + multiset{keys[n]};
    }
  }

  predicate RowFor<K(==)>(g: seq<Tally<K>>, k: K)
  {
    exists i :: 0 <= i < |g| && g[i].key == k
  }

  predicate ItemFor<K(==)>(items: seq<(K, nat)>, k: K)
  {
    exists j :: 0 <= j < |items| && items[j].0 == k
  }

  /** The insertion-ordered group-by of weighted items, characterised: one
      row per distinct key, exactly the keys that occur, each row holding
      its key's item count and weight sum. */
  function Grouped<K(==,!new)>(items: seq<(K, nat)>): (g: seq<Tally<K>>)
    ensures forall i, j :: 0 <= i < j < |g| ==> g[i].key != g[j].key
    ensures forall k :: RowFor(g, k) <==> ItemFor(items, k)
    ensures forall i :: 0 <= i < |g| ==> g[i].count == CountKey(items, g[i].key) && g[i].total == SumKey(items, g[i].key)
    ensures Sum(Counts(g)) == |items| && Sum(Totals(g)) == Sum(Weights(items))
  {
    var g := GroupBy(items);
    GroupByProperties(items);
    var gk := KeysOf(g, TallyKey);
    var ik := KeysOf(items, ItemKey);
    forall i, j | 0 <= i < j < |g| ensures g[i].key != g[j].key {
      assert TallyKey(g[i]) != TallyKey(g[j]);
    }
    forall k ensures RowFor(g, k) <==> ItemFor(items, k) {
      if RowFor(g, k) {
        var i :| 0 <= i < |g| && g[i].key == k;
        assert gk[i] == k;
        assert k in ik;
        var j :| 0 <= j < |ik| && ik[j] == k;
        assert items[j].0 == k;
      }
      if ItemFor(items, k) {
        var j :| 0 <= j < |items| && items[j].0 == k;
        assert ik[j] == k;
        assert k in gk;
        var i :| 0 <= i < |gk| && gk[i] == k;
        assert g[i].key == k;
      }
    }
    forall i | 0 <= i < |g| ensures g[i].count == CountKey(items, g[i].key) && g[i].total == SumKey(items, g[i].key) {
      assert g[i] in g;
    }
    g
  }

  /** A defaultdict(int) counter filled in the order of `keys`: one entry per
      distinct key, in first-occurrence order, holding how often the key
      occurs; the counts add up to the number of keys. */
  function Tallied<K(==,!new)>(keys: seq<K>): (r: seq<(K, nat)>)
    ensures forall i, j :: 0 <= i < j < |r| ==> r[i].0 != r[j].0
    ensures forall k :: HasKey(r, k) <==> k in keys
    ensures forall i :: 0 <= i < |r| ==> r[i].1 == multiset(keys)[r[i].0]
    ensures Sum(Values(r)) == |keys|
  {
    var items := Ones(keys);
    var g := Grouped(items);
    var r := Pairs(g);
    forall k ensures HasKey(r, k) <==> k in keys {
      if HasKey(r, k) {
        var i :| 0 <= i < |r| && r[i].0 == k;
        assert RowFor(g, k);
        var j :| 0 <= j < |items| && items[j].0 == k;
        assert keys[j] == k;
      }
      if k in keys {
        var j :| 0 <= j < |keys| && keys[j] == k;
        assert ItemFor(items, k);
        var i :| 0 <= i < |g| && g[i].key == k;
        assert r[i].0 == k;
      }
    }
    forall i | 0 <= i < |r| ensures r[i].1 == multiset(keys)[r[i].0] {
      CountKeyOnes(keys, g[i].key);
    }
    assert Values(r) == Counts(g);
    r
  }

  /** The `if habit_id:` filter: None and 0 select every log. */
  function Selected(db: Db, habitId: Option<int>): (r: seq<HabitLog>)
    ensures habitId.None? || habitId.value == 0 ==> r == db.logs
    ensures habitId.Some? && habitId.value != 0 ==>
              forall l :: l in r <==> l in db.logs && l.habitId == habitId.value
    ensures habitId.Some? && habitId.value != 0 ==>
              forall l :: multiset(r)[l] == if l.habitId == habitId.value then multiset(db.logs)[l] else 0
  {
    if habitId.None? || habitId.value == 0 then db.logs
    else
      var r := Filter(db.logs, ForHabit(habitId.value));
      forall l | l in db.logs && l.habitId == habitId.value ensures l in r {
        var i :| 0 <= i < |db.logs| && db.logs[i] == l;
      }
      forall l ensures multiset(r)[l] == if l.habitId == habitId.value then multiset(db.logs)[l] else 0 {
        FilterMultiplicity(db.logs, ForHabit(habitId.value), l);
      }
      r
  }

  const DayNames: seq<string> := ["Monday", "Tuesday", "Wednesday", "Thursday", "Friday", "Saturday", "Sunday"]

  /** The English name of the weekday a log falls on. */
  function DayName(t: Instant): string
  {
    DayNames[Weekday(DateOf(t))]
  }

  function DayKeys(logs: seq<HabitLog>): (r: seq<string>)
    ensures |r| == |logs|
    ensures forall i :: 0 <= i < |logs| ==> r[i] == DayName(logs[i].logDate)
  {
    seq(|logs|, i requires 0 <= i < |logs| => DayName(logs[i].logDate))
  }

  /** get_best_days: check-ins per weekday name, only weekdays that occur. */
  function BestDays(db: Db, habitId: Option<int>, fail: bool): (r: seq<(string, nat)>)
    ensures fail ==> r == []
    ensures !fail ==> r == Tallied(DayKeys(Selected(db, habitId)))
    ensures forall i :: 0 <= i < |r| ==> r[i].0 in DayNames
    ensures !fail ==> Sum(Values(r)) == |Selected(db, habitId)|
  {
    if fail then []
    else
      var keys := DayKeys(Selected(db, habitId));
      var r := Tallied(keys);
      forall i | 0 <= i < |r| ensures r[i].0 in DayNames {
        assert HasKey(r, r[i].0);
      }
      r
  }

  /** Weekday 0 is Monday: day 1 (0001-01-01, a Monday) is named "Monday",
      and each following day takes the next name. */
  lemma DayNamesFollowWeek(t: Instant)
    ensures DayName(Midnight(1)) == "Monday"
    ensures DayName(t + MicrosPerDay) == DayNames[(Weekday(DateOf(t)) + 1) % 7]
  {
    assert DateOf(t + MicrosPerDay) == DateOf(t) + 1;
  }

  /** The seven names are distinct, so days with different weekdays are
      counted under different keys. */
  lemma DayNamesDistinct(a: Instant, b: Instant)
    ensures DayName(a) == DayName(b) <==> Weekday(DateOf(a)) == Weekday(DateOf(b))
  {
    var i, j := Weekday(DateOf(a)), Weekday(DateOf(b));
    if i != j {
      assert DayNames[i] != DayNames[j] by {
        assert DayNames[i][..2] != DayNames[j][..2] || DayNames[i][0] != DayNames[j][0] ||
               |DayNames[i]| != |DayNames[j]|;
      }
    }
  }

  /** The logs on or after `now - days`. */
  function InWindow(now: Instant, days: int): HabitLog -> bool
  {
    (l: HabitLog) => l.logDate >= now - days * MicrosPerDay
  }

  function DateKeys(logs: seq<HabitLog>): (r: seq<string>)
    ensures |r| == |logs|
    ensures forall i :: 0 <= i < |logs| ==> r[i] == IsoDate(DateOf(logs[i].logDate))
  {
    seq(|logs|, i requires 0 <= i < |logs| => IsoDate(DateOf(logs[i].logDate)))
  }

  /** get_checkins_by_date: check-ins per ISO date among the logs of the
      last `days` days. */
  function CheckinsByDate(db: Db, habitId: Option<int>, now: Instant, days: int, fail: bool): (r: seq<(string, nat)>)
    ensures fail ==> r == []
    ensures !fail ==> r == Tallied(DateKeys(Filter(Selected(db, habitId), InWindow(now, days))))
    ensures !fail ==> Sum(Values(r)) == |Filter(Selected(db, habitId), InWindow(now, days))|
  {
    if fail then [] else Tallied(DateKeys(Filter(Selected(db, habitId), InWindow(now, days))))
  }

  /** An ISO date is a key of the window's date list exactly when some log
      in the window falls on it. */
  lemma InDateKeys(w: seq<HabitLog>, k: string)
    ensures k in DateKeys(w) <==> exists l :: l in w && IsoDate(DateOf(l.logDate)) == k
  {
    var ks := DateKeys(w);
    if k in ks {
      var j :| 0 <= j < |ks| && ks[j] == k;
      assert w[j] in w;
    }
    if exists l :: l in w && IsoDate(DateOf(l.logDate)) == k {
      var l :| l in w && IsoDate(DateOf(l.logDate)) == k;
      var j :| 0 <= j < |w| && w[j] == l;
      assert ks[j] == k;
    }
  }

  /** A log is in the window exactly when it is selected and no older than
      `days` days. */
  lemma InWindowFilter(db: Db, habitId: Option<int>, now: Instant, days: int, l: HabitLog)
    ensures l in Filter(Selected(db, habitId), InWindow(now, days)) <==>
              l in Selected(db, habitId) && l.logDate >= now - days * MicrosPerDay
  {
    var xs := Selected(db, habitId);
    var w := Filter(xs, InWindow(now, days));
    if l in w {
      var j :| 0 <= j < |w| && w[j] == l;
    }
    if l in xs && l.logDate >= now - days * MicrosPerDay {
      var i :| 0 <= i < |xs| && xs[i] == l;
    }
  }

  /** An ISO date is reported exactly when some selected log no older than
      `days` days falls on it. */
  lemma CheckinsByDateKeys(db: Db, habitId: Option<int>, now: Instant, days: int, k: string)
    ensures HasKey(CheckinsByDate(db, habitId, now, days, false), k) <==>
              exists l :: l in Selected(db, habitId) && l.logDate >= now - days * MicrosPerDay &&
                          IsoDate(DateOf(l.logDate)) == k
  {
    var w := Filter(Selected(db, habitId), InWindow(now, days));
    InDateKeys(w, k);
    forall l ensures l in w <==> l in Selected(db, habitId) && l.logDate >= now - days * MicrosPerDay {
      InWindowFilter(db, habitId, now, days, l);
    }
  }

  /** Number of logs recorded for a habit: `log_counts.get(habit.id, 0)`. */
  function LogCount(db: Db, habitId: int): nat
  {
    |Filter(db.logs, ForHabit(habitId))|
  }

  /** Each habit as (its category, its log count), in table order. */
  function ItemsOf(db: Db, hs: seq<Habit>): (r: seq<(Category, nat)>)
    ensures |r| == |hs|
    ensures forall i :: 0 <= i < |r| ==> r[i] == (hs[i].category, LogCount(db, hs[i].id))
  {
    seq(|hs|, i requires 0 <= i < |hs| => (hs[i].category, LogCount(db, hs[i].id)))
  }

  function CategoryItems(db: Db): seq<(Category, nat)>
  {
    ItemsOf(db, db.habits)
  }

  /** The per-category entry: how many habits and how many logs. */
  datatype CategoryStat = CategoryStat(category: Category, habitCount: nat, totalLogs: nat)

  function ToStat(t: Tally<Category>): CategoryStat
  {
    CategoryStat(t.key, t.count, t.total)
  }

  predicate StatFor(r: seq<CategoryStat>, c: Category)
  {
    exists i :: 0 <= i < |r| && r[i].category == c
  }

  function HabitCounts(r: seq<CategoryStat>): seq<int>
  {
    seq(|r|, i requires 0 <= i < |r| => r[i].habitCount as int)
  }

  /** A category has a stat row exactly when one of the habits is in it. */
  lemma StatForCategory(db: Db, g: seq<Tally<Category>>, r: seq<CategoryStat>, c: Category)
    requires forall k :: RowFor(g, k) <==> ItemFor(CategoryItems(db), k)
    requires |r| == |g| && forall i :: 0 <= i < |g| ==> r[i] == ToStat(g[i])
    ensures StatFor(r, c) <==> HasCategory(db.habits, c)
  {
    var items := CategoryItems(db);
    if StatFor(r, c) {
      var i :| 0 <= i < |r| && r[i].category == c;
      assert RowFor(g, c);
      var j :| 0 <= j < |items| && items[j].0 == c;
      assert db.habits[j].category == c;
    }
    if HasCategory(db.habits, c) {
      var j :| 0 <= j < |db.habits| && db.habits[j].category == c;
      assert ItemFor(items, c);
      var i :| 0 <= i < |g| && g[i].key == c;
      assert r[i].category == c;
    }
  }

  /** get_category_stats: one entry per category that has habits, in the
      order categories first appear; habit_count counts its habits and
      total_logs adds up their log counts (0 for a habit without logs). */
  function CategoryStats(db: Db, fail: bool): (r: seq<CategoryStat>)
    ensures fail ==> r == []
    ensures forall i, j :: 0 <= i < j < |r| ==> r[i].category != r[j].category
    ensures !fail ==> forall c :: StatFor(r, c) <==> HasCategory(db.habits, c)
    ensures forall i :: 0 <= i < |r| ==>
              r[i].habitCount == CountKey(CategoryItems(db), r[i].category) &&
              r[i].totalLogs == SumKey(CategoryItems(db), r[i].category)
    ensures !fail ==> Sum(HabitCounts(r)) == |db.habits|
  {
    if fail then []
    else
      var items := CategoryItems(db);
      var g := Grouped(items);
      var r := seq(|g|, i requires 0 <= i < |g| => ToStat(g[i]));
      forall c ensures StatFor(r, c) <==> HasCategory(db.habits, c) {
        StatForCategory(db, g, r, c);
      }
      assert HabitCounts(r) == Counts(g);
      r
  }

  function InCategory(c: Category): Habit -> bool
  {
    (h: Habit) => h.category == c
  }

  /** habit_count counts exactly the habits of the category. */
  lemma CountKeyCategory(db: Db, c: Category)
    ensures CountKey(CategoryItems(db), c) == |Filter(db.habits, InCategory(c))|
  {
    HabitsOfCategory(db.habits, db, c);
  }

  lemma {:induction false} HabitsOfCategory(hs: seq<Habit>, db: Db, c: Category)
    ensures CountKey(ItemsOf(db, hs), c) == |Filter(hs, InCategory(c))|
  {
    if |hs| > 0 {
      var n := |hs| - 1;
      HabitsOfCategory(hs[..n], db, c);
      var items := ItemsOf(db, hs);
      assert items[..n] == ItemsOf(db, hs[..n]);
      assert items[n].0 == hs[n].category;
      assert CountKey(items, c) == CountKey(items[..n], c) + (if hs[n].category == c then 1 else 0);
      FilterLast(hs, InCategory(c));
    }
  }

  datatype OverallStats = OverallStats(totalHabits: nat, totalCheckins: nat, weekCheckins: nat)

  /** get_overall_stats as the service computes it: table sizes and the
      logs dated at or after `now` minus weekday(now) whole days (which
      keeps now's time of day), or all zeros when a query fails. */
  function GetOverallStats(db: Db, now: Instant, fail: bool): (r: OverallStats)
    ensures fail ==> r == OverallStats(0, 0, 0)
    ensures !fail ==> r.totalHabits == |db.habits| && r.totalCheckins == |db.logs|
    ensures !fail ==> r.weekCheckins == |DatedFrom(db.logs, WeekStartAsWritten(now))|
    ensures !fail ==> r.weekCheckins <= r.totalCheckins
  {
    if fail then OverallStats(0, 0, 0)
    else OverallStats(|db.habits|, |db.logs|, CountSince(db.logs, WeekStartAsWritten(now)))
  }

  /** get_overall_stats as evidently intended: this week's check-ins are
      the logs dated on or after this week's Monday. */
  function GetOverallStatsIntended(db: Db, now: Instant, fail: bool): (r: OverallStats)
    ensures fail ==> r == OverallStats(0, 0, 0)
    ensures !fail ==> r.totalHabits == |db.habits| && r.totalCheckins == |db.logs|
    ensures !fail ==> r.weekCheckins == |set i | 0 <= i < |db.logs| && DateOf(db.logs[i].logDate) >= MondayOf(DateOf(now))|
    ensures !fail ==> r.weekCheckins <= r.totalCheckins
  {
    if fail then OverallStats(0, 0, 0)
    else
      WeekByDate(db.logs, now);
      OverallStats(|db.habits|, |db.logs|, CountSince(db.logs, WeekStart(now)))
  }

  /** The computed week start is never before Monday 00:00, so the computed
      count never exceeds the intended one; the two agree at midnight, and
      the other counters always agree. */
  lemma OverallStatsAgainstIntended(db: Db, now: Instant, fail: bool)
    ensures var a := GetOverallStats(db, now, fail);
            var c := GetOverallStatsIntended(db, now, fail);
            && a.totalHabits == c.totalHabits && a.totalCheckins == c.totalCheckins
            && a.weekCheckins <= c.weekCheckins
            && (now == Midnight(DateOf(now)) ==> a == c)
  {
    WeekStartOffset(now);
    CountSinceOrder(db.logs, WeekStartAsWritten(now), WeekStart(now));
  }

  /** A log counts for the computed week exactly when it falls after this
      week's Monday, or on that Monday no earlier in the day than `now`;
      one dated on Monday before that time of day is missed. */
  lemma ThisWeekByDate(db: Db, now: Instant, i: int)
    requires 0 <= i < |db.logs|
    ensures var t := db.logs[i].logDate;
            i in DatedFrom(db.logs, WeekStartAsWritten(now)) <==>
              || DateOf(t) > MondayOf(DateOf(now))
              || (DateOf(t) == MondayOf(DateOf(now)) && TimeOfDay(t) >= TimeOfDay(now))
  {
    WeekStartAsWrittenCounts(now, db.logs[i].logDate);
  }
}
