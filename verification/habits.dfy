/** The habit and habit-log records (backend/app/models) and the request
    schemas that validate them (backend/app/schemas/habit.py and
    habit_log.py).  A request body is modelled field by field as absent,
    JSON null, or a value; validation turns it into a typed record or an
    error. */
module Habits {
  import opened Collections
  import opened Calendar

  datatype Frequency = Daily | Weekly

  /** The categories, in their declaration order. */
  datatype Category = Health | Work | Learning | Fitness | MentalHealth | Productivity

  const Categories: seq<Category> := [Health, Work, Learning, Fitness, MentalHealth, Productivity]

  function FrequencyValue(f: Frequency): string
  {
    match f
    case Daily => "daily"
    case Weekly => "weekly"
  }

  function CategoryValue(c: Category): string
  {
    match c
    case Health => "health"
    case Work => "work"
    case Learning => "learning"
    case Fitness => "fitness"
    case MentalHealth => "mental_health"
    case Productivity => "productivity"
  }

  /** Enum coercion of a JSON string: only the exact values are accepted. */
  function ParseFrequency(s: string): (r: Option<Frequency>)
    ensures r.Some? <==> s in {"daily", "weekly"}
    ensures r.Some? ==> FrequencyValue(r.value) == s
  {
    if s == "daily" then Some(Daily) else if s == "weekly" then Some(Weekly) else None
  }

  function ParseCategory(s: string): (r: Option<Category>)
    ensures r.Some? ==> CategoryValue(r.value) == s
    ensures forall c :: s == CategoryValue(c) ==> r == Some(c)
  {
    if s == "health" then Some(Health)
    else if s == "work" then Some(Work)
    else if s == "learning" then Some(Learning)
    else if s == "fitness" then Some(Fitness)
    else if s == "mental_health" then Some(MentalHealth)
    else if s == "productivity" then Some(Productivity)
    else None
  }

  /** A row of the habits table.  Dates are day numbers; timestamps are
      instants supplied by the caller's clock. */
  datatype Habit = Habit(
    id: int,
    name: string,
    frequency: Frequency,
    category: Category,
    startDate: Day,
    description: Option<string>,
    createdAt: Instant,
    updatedAt: Instant)

  /** A row of the habit_logs table: one check-in. */
  datatype HabitLog = HabitLog(
    id: int,
    habitId: int,
    logDate: Instant,
    notes: Option<string>,
    createdAt: Instant)

  function HabitId(h: Habit): int { h.id }
  function LogId(l: HabitLog): int { l.id }

  /** One field of a JSON request body. */
  datatype Raw<T> = Absent | Null | Given(value: T)

  /** A partial-update slot: leave the column alone, or write a value
      (None writes SQL NULL). */
  datatype Patch<T> = Keep | Put(value: T)

  datatype ValidationError =
    | Missing(field: string)
    | NotNull(field: string)
    | TooShort(field: string)
    | TooLong(field: string)
    | NotAnEnumValue(field: string)

  const NameMin := 1
  const NameMax := 200
  const DescriptionMax := 1000
  const NotesMax := 2000

  predicate ValidName(s: string)
  {
    NameMin <= |s| <= NameMax
  }

  predicate ValidDescription(d: Option<string>)
  {
    d.None? || |d.value| <= DescriptionMax
  }

  /** HabitCreate after validation. */
  datatype HabitCreate = HabitCreate(
    name: string,
    frequency: Frequency,
    category: Category,
    startDate: Day,
    description: Option<string>)

  predicate ValidCreate(c: HabitCreate)
  {
    ValidName(c.name) && ValidDescription(c.description)
  }

  datatype HabitInput = HabitInput(
    name: Raw<string>,
    frequency: Raw<string>,
    category: Raw<string>,
    startDate: Raw<Day>,
    description: Raw<string>)

  function CheckName(r: Raw<string>): Result<string, ValidationError>
  {
    match r
    case Absent => Err(Missing("name"))
    case Null => Err(NotNull("name"))
    case Given(s) =>
      if |s| < NameMin then Err(TooShort("name"))
      else if |s| > NameMax then Err(TooLong("name"))
      else Ok(s)
  }

  function CheckFrequency(r: Raw<string>): Result<Frequency, ValidationError>
  {
    match r
    case Absent => Ok(Daily)
    case Null => Err(NotNull("frequency"))
    case Given(s) => if ParseFrequency(s).Some? then Ok(ParseFrequency(s).value) else Err(NotAnEnumValue("frequency"))
  }

  function CheckCategory(r: Raw<string>): Result<Category, ValidationError>
  {
    match r
    case Absent => Ok(Health)
    case Null => Err(NotNull("category"))
    case Given(s) => if ParseCategory(s).Some? then Ok(ParseCategory(s).value) else Err(NotAnEnumValue("category"))
  }

  function CheckDescription(r: Raw<string>): Result<Option<string>, ValidationError>
  {
    match r
    case Absent => Ok(None)
    case Null => Ok(None)
    case Given(s) => if |s| > DescriptionMax then Err(TooLong("description")) else Ok(Some(s))
  }

  /** Validating a HabitCreate body: name is required, the other fields fall
      back to their defaults (daily, health, today, no description).  The
      first failing field, in declaration order, is reported. */
  function ParseHabitCreate(inp: HabitInput, today: Day): (r: Result<HabitCreate, ValidationError>)
    ensures r.Ok? <==>
              && inp.name.Given? && ValidName(inp.name.value)
              && (inp.frequency.Absent? || (inp.frequency.Given? && inp.frequency.value in {"daily", "weekly"}))
              && (inp.category.Absent? || (inp.category.Given? && ParseCategory(inp.category.value).Some?))
              && !inp.startDate.Null?
              && (inp.description.Given? ==> |inp.description.value| <= DescriptionMax)
    ensures r.Ok? ==> ValidCreate(r.value)
    ensures r.Ok? ==> r.value.name == inp.name.value
    ensures r.Ok? && inp.frequency.Absent? ==> r.value.frequency == Daily
    ensures r.Ok? && inp.frequency.Given? ==> FrequencyValue(r.value.frequency) == inp.frequency.value
    ensures r.Ok? && inp.category.Absent? ==> r.value.category == Health
    ensures r.Ok? && inp.category.Given? ==> CategoryValue(r.value.category) == inp.category.value
    ensures r.Ok? && inp.startDate.Absent? ==> r.value.startDate == today
    ensures r.Ok? && inp.startDate.Given? ==> r.value.startDate == inp.startDate.value
    ensures r.Ok? ==> (r.value.description.Some? <==> inp.description.Given?)
    ensures r.Ok? && inp.description.Given? ==> r.value.description == Some(inp.description.value)
  {
    var name := CheckName(inp.name);
    var freq := CheckFrequency(inp.frequency);
    var cat := CheckCategory(inp.category);
    var desc := CheckDescription(inp.description);
    if name.Err? then Err(name.error)
    else if freq.Err? then Err(freq.error)
    else if cat.Err? then Err(cat.error)
    else if inp.startDate.Null? then Err(NotNull("start_date"))
    else if desc.Err? then Err(desc.error)
    else
      var start := if inp.startDate.Given? then inp.startDate.value else today;
      Ok(HabitCreate(name.value, freq.value, cat.value, start, desc.value))
  }

  /** HabitUpdate after validation: only the fields the client sent. */
  datatype HabitUpdate = HabitUpdate(
    name: Patch<Option<string>>,
    frequency: Patch<Option<Frequency>>,
    category: Patch<Option<Category>>,
    startDate: Patch<Option<Day>>,
    description: Patch<Option<string>>)

  predicate NothingSet(u: HabitUpdate)
  {
    u.name.Keep? && u.frequency.Keep? && u.category.Keep? && u.startDate.Keep? && u.description.Keep?
  }

  /** A present field is validated, an explicit null is kept as a write of
      NULL, an absent field is left unset. */
  function PatchOf<T>(r: Raw<T>, ok: T -> bool, err: ValidationError): (p: Result<Patch<Option<T>>, ValidationError>)
    ensures p.Ok? <==> (r.Given? ==> ok(r.value))
    ensures r.Absent? ==> p == Ok(Keep)
    ensures r.Null? ==> p == Ok(Put(None))
    ensures r.Given? && p.Ok? ==> p.value == Put(Some(r.value))
  {
    match r
    case Absent => Ok(Keep)
    case Null => Ok(Put(None))
    case Given(v) => if ok(v) then Ok(Put(Some(v))) else Err(err)
  }

  /** The same for an enum field sent as a string: a present value must
      parse, and the parsed member is written. */
  function EnumPatch<T>(r: Raw<string>, parse: string -> Option<T>, field: string): (p: Result<Patch<Option<T>>, ValidationError>)
    ensures p.Ok? <==> (r.Given? ==> parse(r.value).Some?)
    ensures r.Absent? ==> p == Ok(Keep)
    ensures r.Null? ==> p == Ok(Put(None))
    ensures r.Given? && p.Ok? ==> p.value == Put(parse(r.value))
  {
    match r
    case Absent => Ok(Keep)
    case Null => Ok(Put(None))
    case Given(s) => if parse(s).Some? then Ok(Put(parse(s))) else Err(NotAnEnumValue(field))
  }

  function ParseHabitUpdate(inp: HabitInput): (r: Result<HabitUpdate, ValidationError>)
    ensures r.Ok? <==>
              && (inp.name.Given? ==> ValidName(inp.name.value))
              && (inp.frequency.Given? ==> inp.frequency.value in {"daily", "weekly"})
              && (inp.category.Given? ==> ParseCategory(inp.category.value).Some?)
              && (inp.description.Given? ==> |inp.description.value| <= DescriptionMax)
    ensures r.Ok? ==> (NothingSet(r.value) <==>
              inp.name.Absent? && inp.frequency.Absent? && inp.category.Absent? &&
              inp.startDate.Absent? && inp.description.Absent?)
    ensures r.Ok? && inp.name.Given? ==> r.value.name == Put(Some(inp.name.value))
    ensures r.Ok? && inp.frequency.Given? ==>
              && r.value.frequency.Put? && r.value.frequency.value.Some?
              && FrequencyValue(r.value.frequency.value.value) == inp.frequency.value
    ensures r.Ok? && inp.category.Given? ==>
              && r.value.category.Put? && r.value.category.value.Some?
              && CategoryValue(r.value.category.value.value) == inp.category.value
    ensures r.Ok? && inp.startDate.Given? ==> r.value.startDate == Put(Some(inp.startDate.value))
    ensures r.Ok? && inp.description.Given? ==> r.value.description == Put(Some(inp.description.value))
    ensures r.Ok? && inp.name.Null? ==> r.value.name == Put(None)
    ensures r.Ok? && inp.frequency.Null? ==> r.value.frequency == Put(None)
    ensures r.Ok? && inp.category.Null? ==> r.value.category == Put(None)
    ensures r.Ok? && inp.startDate.Null? ==> r.value.startDate == Put(None)
    ensures r.Ok? && inp.description.Null? ==> r.value.description == Put(None)
    ensures r.Ok? ==>
              && (inp.name.Absent? ==> r.value.name.Keep?)
              && (inp.frequency.Absent? ==> r.value.frequency.Keep?)
              && (inp.category.Absent? ==> r.value.category.Keep?)
              && (inp.startDate.Absent? ==> r.value.startDate.Keep?)
              && (inp.description.Absent? ==> r.value.description.Keep?)
    ensures r.Ok? && r.value.name.Put? && r.value.name.value.Some? ==> ValidName(r.value.name.value.value)
    ensures r.Ok? && r.value.description.Put? ==> ValidDescription(r.value.description.value)
  {
    var name := PatchOf(inp.name, ValidName, if inp.name.Given? && |inp.name.value| < NameMin then TooShort("name") else TooLong("name"));
    var freq := EnumPatch(inp.frequency, ParseFrequency, "frequency");
    var cat := EnumPatch(inp.category, ParseCategory, "category");
    var desc := PatchOf(inp.description, (s: string) => |s| <= DescriptionMax, TooLong("description"));
    var start := PatchOf(inp.startDate, (_: Day) => true, NotNull("start_date"));
    if name.Err? then Err(name.error)
    else if freq.Err? then Err(freq.error)
    else if cat.Err? then Err(cat.error)
    else if desc.Err? then Err(desc.error)
    else Ok(HabitUpdate(name.value, freq.value, cat.value, start.value, desc.value))
  }

  /** HabitLogUpdate after validation. */
  datatype LogUpdate = LogUpdate(logDate: Patch<Option<Instant>>, notes: Patch<Option<string>>)

  datatype LogInput = LogInput(logDate: Raw<Instant>, notes: Raw<string>)

  function ParseLogUpdate(inp: LogInput): (r: Result<LogUpdate, ValidationError>)
    ensures r.Ok? <==> (inp.notes.Given? ==> |inp.notes.value| <= NotesMax)
    ensures r.Ok? ==> (r.value.logDate.Keep? <==> inp.logDate.Absent?)
    ensures r.Ok? ==> (r.value.notes.Keep? <==> inp.notes.Absent?)
    ensures r.Ok? && inp.logDate.Given? ==> r.value.logDate == Put(Some(inp.logDate.value))
    ensures r.Ok? && inp.logDate.Null? ==> r.value.logDate == Put(None)
    ensures r.Ok? && inp.notes.Given? ==> r.value.notes == Put(Some(inp.notes.value))
    ensures r.Ok? && inp.notes.Null? ==> r.value.notes == Put(None)
  {
    var notes := PatchOf(inp.notes, (s: string) => |s| <= NotesMax, TooLong("notes"));
    var date := PatchOf(inp.logDate, (_: Instant) => true, NotNull("log_date"));
    if notes.Err? then Err(notes.error) else Ok(LogUpdate(date.value, notes.value))
  }

  /** Some habit of the list belongs to category c. */
  predicate HasCategory(hs: seq<Habit>, c: Category)
  {
    exists i :: 0 <= i < |hs| && hs[i].category == c
  }

  /** The two tables, each row sequence in insertion order. */
  datatype Db = Db(habits: seq<Habit>, logs: seq<HabitLog>)

  /** Primary keys are unique in both tables. */
  predicate WellFormed(db: Db)
  {
    UniqueIds(db.habits, HabitId) && UniqueIds(db.logs, LogId)
  }

  /** The result of an update by primary key: no such row, the updated
      database and row, or a write of NULL into a NOT NULL column, which the
      database rejects (the transaction is rolled back). */
  datatype Outcome<R> = NotFound | Updated(db: Db, row: R) | IntegrityError
}
