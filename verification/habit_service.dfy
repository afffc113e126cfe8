/** Habit CRUD (backend/app/services/habit_service.py).  The habits table is
    a sequence of rows in insertion order with unique ids; the id the
    database would assign and the clock reading are parameters. */
module HabitService {
  import opened Collections
  import opened Calendar
  import opened Habits

  /** get_by_id: the row with the given primary key, if any. */
  function GetById(db: Db, id: int): (r: Option<Habit>)
    ensures r.Some? ==> r.value in db.habits && r.value.id == id
    ensures r.None? <==> forall i :: 0 <= i < |db.habits| ==> db.habits[i].id != id
  {
    Find(db.habits, HabitId, id)
  }

  /** Every log row points at an existing habit. */
  predicate Consistent(db: Db)
  {
    && WellFormed(db)
    && forall i :: 0 <= i < |db.logs| ==> GetById(db, db.logs[i].habitId).Some?
  }

  /** create: a new row holding exactly the validated fields, stamped with
      the creation time; nothing else in the database changes. */
  function Create(db: Db, c: HabitCreate, id: int, now: Instant): (r: (Db, Habit))
    requires GetById(db, id).None?
    ensures var h := r.1;
              && h.id == id && h.name == c.name && h.frequency == c.frequency
              && h.category == c.category && h.startDate == c.startDate
              && h.description == c.description
              && h.createdAt == now && h.updatedAt == now
    ensures GetById(r.0, id) == Some(r.1)
    ensures forall k :: k != id ==> GetById(r.0, k) == GetById(db, k)
    ensures r.0.logs == db.logs
    ensures WellFormed(db) ==> WellFormed(r.0)
    ensures Consistent(db) ==> Consistent(r.0)
  {
    var h := Habit(id, c.name, c.frequency, c.category, c.startDate, c.description, now, now);
    var db' := Db(db.habits + [h], db.logs);
    forall k ensures GetById(db', k) == if k == id then Some(h) else GetById(db, k) {
      FindAppend(db.habits, h, HabitId, k);
    }
    (db', h)
  }

  function CreatedAt(h: Habit): int { h.createdAt }

  /** get_all: newest first by creation time, then OFFSET skip LIMIT limit. */
  function GetAll(db: Db, skip: nat, limit: nat): (r: seq<Habit>)
    ensures |r| == if |db.habits| <= skip then 0 else Min(limit, |db.habits| - skip)
    ensures SortedDesc(r, CreatedAt)
    ensures forall i :: 0 <= i < |r| ==> r[i] in db.habits
  {
    var sorted := SortDesc(db.habits, CreatedAt);
    PageSorted(sorted, CreatedAt, skip, limit);
    var r := Take(Drop(sorted, skip), limit);
    forall i | 0 <= i < |r| ensures r[i] in db.habits {
      assert r[i] == sorted[skip + i];
      assert r[i] in multiset(sorted);
    }
    r
  }

  function Min(a: int, b: int): int { if a < b then a else b }

  /** One page followed by the next one is the page spanning both. */
  lemma GetAllPages(db: Db, skip: nat, a: nat, b: nat)
    ensures GetAll(db, skip, a) + GetAll(db, skip + a, b) == GetAll(db, skip, a + b)
  {
    PagesConcat(SortDesc(db.habits, CreatedAt), skip, a, b);
  }

  /** A page large enough to hold everything lists every habit exactly once. */
  lemma GetAllEverything(db: Db, limit: nat)
    requires |db.habits| <= limit
    ensures multiset(GetAll(db, 0, limit)) == multiset(db.habits)
  {
  }

  /** A NOT NULL column: keep it, write a value, or fail on NULL (None). */
  function Write<T>(p: Patch<Option<T>>, cur: T): Option<T>
  {
    match p
    case Keep => Some(cur)
    case Put(v) => v
  }

  /** A nullable column. */
  function WriteNullable<T>(p: Patch<Option<T>>, cur: Option<T>): Option<T>
  {
    match p
    case Keep => cur
    case Put(v) => v
  }

  /** A NULL sent for a column the table declares NOT NULL. */
  predicate WritesNull(u: HabitUpdate)
  {
    u.name == Put(None) || u.frequency == Put(None) || u.category == Put(None) || u.startDate == Put(None)
  }

  /** The row after an UPDATE that sets the supplied fields and updated_at. */
  function Apply(h: Habit, u: HabitUpdate, now: Instant): Option<Habit>
  {
    var name := Write(u.name, h.name);
    var freq := Write(u.frequency, h.frequency);
    var cat := Write(u.category, h.category);
    var start := Write(u.startDate, h.startDate);
    if name.None? || freq.None? || cat.None? || start.None? then None
    else Some(h.(name := name.value, frequency := freq.value, category := cat.value,
                 startDate := start.value, description := WriteNullable(u.description, h.description),
                 updatedAt := now))
  }

  /** update: a missing id is reported and nothing changes; an update that
      sets nothing returns the row untouched (updated_at included);
      otherwise exactly the supplied columns change, updated_at becomes
      `now`, and no other row moves.  A NULL for a NOT NULL column is
      rejected by the database. */
  function Update(db: Db, id: int, u: HabitUpdate, now: Instant): (r: Outcome<Habit>)
    ensures r.NotFound? <==> GetById(db, id).None?
    ensures r.IntegrityError? <==> GetById(db, id).Some? && WritesNull(u)
    ensures GetById(db, id).Some? && NothingSet(u) ==> r == Updated(db, GetById(db, id).value)
    ensures r.Updated? ==>
              var h := GetById(db, id).value;
              && r.row.id == id && r.row.createdAt == h.createdAt
              && (u.name.Keep? ==> r.row.name == h.name)
              && (u.name.Put? ==> u.name.value == Some(r.row.name))
              && (u.frequency.Keep? ==> r.row.frequency == h.frequency)
              && (u.frequency.Put? ==> u.frequency.value == Some(r.row.frequency))
              && (u.category.Keep? ==> r.row.category == h.category)
              && (u.category.Put? ==> u.category.value == Some(r.row.category))
              && (u.startDate.Keep? ==> r.row.startDate == h.startDate)
              && (u.startDate.Put? ==> u.startDate.value == Some(r.row.startDate))
              && (u.description.Keep? ==> r.row.description == h.description)
              && (u.description.Put? ==> u.description.value == r.row.description)
              && r.row.updatedAt == (if NothingSet(u) then h.updatedAt else now)
    ensures r.Updated? ==> GetById(r.db, id) == Some(r.row)
    ensures r.Updated? ==> forall k :: k != id ==> GetById(r.db, k) == GetById(db, k)
    ensures r.Updated? ==> r.db.logs == db.logs
    ensures r.Updated? && WellFormed(db) ==> WellFormed(r.db)
  {
    match GetById(db, id)
    case None => NotFound
    case Some(h) =>
      if NothingSet(u) then Updated(db, h)
      else
        match Apply(h, u, now)
        case None => IntegrityError
        case Some(h') =>
          var db' := Db(Replace(db.habits, HabitId, h'), db.logs);
          forall k ensures GetById(db', k) == if k == id then Some(h') else GetById(db, k) {
            FindReplace(db.habits, HabitId, h', k);
          }
          assert WellFormed(db) ==> WellFormed(db') by {
            if WellFormed(db) { ReplaceUnique(db.habits, HabitId, h'); }
          }
          Updated(db', h')
  }

  /** Sending the same update twice leaves the same row and table as
      sending it once (at the same clock reading). */
  lemma UpdateIdempotent(db: Db, id: int, u: HabitUpdate, now: Instant)
    requires Update(db, id, u, now).Updated?
    ensures Update(Update(db, id, u, now).db, id, u, now) == Update(db, id, u, now)
  {
    var r := Update(db, id, u, now);
    if !NothingSet(u) {
      ReplaceTwice(db.habits, HabitId, r.row);
    }
  }

  /** The rows a delete of habit `id` keeps. */
  function OtherHabit(id: int): Habit -> bool
  {
    (h: Habit) => h.id != id
  }

  function OtherHabitsLog(id: int): HabitLog -> bool
  {
    (l: HabitLog) => l.habitId != id
  }

  /** delete: false and no change for a missing id; otherwise true, the row
      is gone together with its logs (the ORM's delete-orphan cascade), and
      every other row stays. */
  function Delete(db: Db, id: int): (r: (Db, bool))
    ensures r.1 <==> GetById(db, id).Some?
    ensures !r.1 ==> r.0 == db
    ensures GetById(r.0, id).None?
    ensures forall k :: k != id ==> GetById(r.0, k) == GetById(db, k)
    ensures r.1 ==> forall l :: l in r.0.logs <==> l in db.logs && l.habitId != id
    ensures WellFormed(db) ==> WellFormed(r.0)
    ensures Consistent(db) ==> Consistent(r.0)
  {
    if GetById(db, id).None? then (db, false)
    else
      var keep := OtherHabit(id);
      var db' := Db(Filter(db.habits, keep), Filter(db.logs, OtherHabitsLog(id)));
      forall k | k != id ensures GetById(db', k) == GetById(db, k) {
        FindFilter(db.habits, keep, HabitId, k);
      }
      forall l | l in db.logs && l.habitId != id ensures l in db'.logs {
        var i :| 0 <= i < |db.logs| && db.logs[i] == l;
      }
      assert WellFormed(db) ==> WellFormed(db') by {
        if WellFormed(db) {
          FilterUnique(db.habits, keep, HabitId);
          FilterUnique(db.logs, OtherHabitsLog(id), LogId);
        }
      }
      (db', true)
  }

  /** Creating a habit and deleting it again restores the database. */
  lemma CreateThenDelete(db: Db, c: HabitCreate, id: int, now: Instant)
    requires Consistent(db) && GetById(db, id).None?
    ensures Delete(Create(db, c, id, now).0, id) == (db, true)
  {
    var r := Create(db, c, id, now);
    var db', h := r.0, r.1;
    assert db'.habits == db.habits + [h];
    var keep := OtherHabit(id);
    var keepLog := OtherHabitsLog(id);
    FilterAppend(db.habits, [h], keep);
    FilterAll(db.habits, keep);
    assert Filter([h], keep) == [];
    assert Filter(db'.habits, keep) == db.habits;
    forall i | 0 <= i < |db.logs| ensures keepLog(db.logs[i]) {
      assert GetById(db, db.logs[i].habitId).Some?;
    }
    FilterAll(db.logs, keepLog);
    assert Filter(db'.logs, keepLog) == db.logs;
    assert GetById(db', id).Some?;
    assert Delete(db', id).0 == Db(Filter(db'.habits, keep), Filter(db'.logs, keepLog));
  }
}
