/** The Google Calendar link for a habit (frontend/src/utils/calendarSync.ts):
    instants are JavaScript time values (milliseconds since 1970-01-01T00:00Z),
    formatted in the compact UTC form the calendar expects; the query-string
    encoder is a parameter. */
module CalendarSync {
  import opened Collections
  import opened Text
  import opened Calendar

  /** A JavaScript time value. */
  type Millis = int

  const MsPerDay: int := 86_400_000
  const MsPerHour: int := 3_600_000

  /** Day number (0001-01-01 is 1) of 1970-01-01. */
  const EpochDay: Day := 719_163

  /** The day a time value falls on, as a day number. */
  function DayOf(ms: Millis): Day
  {
    ms / MsPerDay + EpochDay
  }

  /** Time values whose year is between 1 and 9999, where toISOString uses
      four year digits. */
  predicate InIsoRange(ms: Millis)
  {
    MinDay <= DayOf(ms) <= MaxDay
  }

  /** The clock fields of a time value: hours, minutes, seconds and
      milliseconds of its UTC day. */
  datatype Clock = Clock(hour: nat, minute: nat, second: nat, milli: nat)

  function ClockOf(ms: Millis): (c: Clock)
    ensures c.hour < 24 && c.minute < 60 && c.second < 60 && c.milli < 1000
    ensures ((c.hour * 60 + c.minute) * 60 + c.second) * 1000 + c.milli == ms % MsPerDay
  {
    var t := ms % MsPerDay;
    var inHour := t % MsPerHour;
    var inMinute := inHour % 60_000;
    var c := Clock(t / MsPerHour, inHour / 60_000, inMinute / 1000, inMinute % 1000);
    assert t == c.hour * 3_600_000 + inHour;
    assert inHour == c.minute * 60_000 + inMinute;
    assert inMinute == c.second * 1000 + c.milli;
    assert ((c.hour * 60 + c.minute) * 60 + c.second) * 1000 + c.milli
        == c.hour * 3_600_000 + c.minute * 60_000 + c.second * 1000 + c.milli;
    c
  }

  /** Date.prototype.toISOString: "YYYY-MM-DDTHH:mm:ss.sssZ". */
  function ToIsoString(ms: Millis): string
  {
    var c := ClockOf(ms);
    IsoDate(DayOf(ms)) + ("T" + (ZeroPad(c.hour, 2) + (":" + (ZeroPad(c.minute, 2) + (":" +
      (ZeroPad(c.second, 2) + ("." + (ZeroPad(c.milli, 3) + "Z"))))))))
  }

  /** The ISO 8601 basic form to the second: "YYYYMMDDTHHmmssZ". */
  function Basic(ms: Millis): string
    requires InIsoRange(ms)
  {
    var d := FromOrdinal(DayOf(ms));
    var c := ClockOf(ms);
    YearInRange(DayOf(ms));
    Fields(ZeroPad(d.year, 4), ZeroPad(d.month, 2), ZeroPad(d.day, 2),
           ZeroPad(c.hour, 2), ZeroPad(c.minute, 2), ZeroPad(c.second, 2)) + "Z"
  }

  /** Date and time fields side by side, 'T' between them. */
  function Fields(y: string, mo: string, dd: string, h: string, mi: string, s: string): string
  {
    y + (mo + (dd + ("T" + (h + (mi + s)))))
  }

  const Separators: set<char> := {'-', ':'}

  /** Removing the separators from "Y-M-D" followed by more text. */
  lemma CompactDate(y: string, mo: string, dd: string, rest: string)
    requires AllDigits(y) && AllDigits(mo) && AllDigits(dd)
    ensures RemoveAll(y + "-" + mo + "-" + dd + rest, Separators) == y + (mo + (dd + RemoveAll(rest, Separators)))
  {
    var drop := Separators;
    assert y + "-" + mo + "-" + dd + rest == y + ("-" + (mo + ("-" + (dd + rest))));
    RemoveAllKeep(dd, rest, drop);
    RemoveAllSkip('-', dd + rest, drop);
    RemoveAllKeep(mo, "-" + (dd + rest), drop);
    RemoveAllSkip('-', mo + ("-" + (dd + rest)), drop);
    RemoveAllKeep(y, "-" + (mo + ("-" + (dd + rest))), drop);
  }

  /** Removing the separators from ":s.fZ". */
  lemma CompactSeconds(s: string, f: string)
    requires AllDigits(s) && AllDigits(f)
    ensures RemoveAll(":" + (s + ("." + (f + "Z"))), Separators) == s + ("." + (f + "Z"))
  {
    var drop := Separators;
    var t := s + ("." + (f + "Z"));
    forall i | 0 <= i < |t| ensures t[i] !in drop {
      if i < |s| {
        assert t[i] == s[i];
      } else if |s| < i <= |s| + |f| {
        assert t[i] == f[i - |s| - 1];
      }
    }
    RemoveAllNone(t, drop);
    RemoveAllSkip(':', t, drop);
  }

  /** Digits are neither separators nor the '.' before the fraction. */
  lemma NoSeparators(x: string)
    requires AllDigits(x)
    ensures forall i :: 0 <= i < |x| ==> x[i] !in Separators && x[i] != '.'
  {
  }

  /** Removing the separators from "Th:m:s.fZ". */
  lemma CompactTime(h: string, mi: string, s: string, f: string)
    requires AllDigits(h) && AllDigits(mi) && AllDigits(s) && AllDigits(f)
    ensures RemoveAll("T" + (h + (":" + (mi + (":" + (s + ("." + (f + "Z"))))))), Separators) ==
            "T" + (h + (mi + (s + ("." + (f + "Z")))))
  {
    var drop := Separators;
    var t := ":" + (s + ("." + (f + "Z")));
    CompactSeconds(s, f);
    var a := RemoveAll(t, drop);
    NoSeparators(mi);
    NoSeparators(h);
    RemoveAllKeep(mi, t, drop);
    var b := RemoveAll(mi + t, drop);
    assert b == mi + a;
    RemoveAllSkip(':', mi + t, drop);
    var c := RemoveAll(":" + (mi + t), drop);
    assert c == b;
    RemoveAllKeep(h, ":" + (mi + t), drop);
    var d := RemoveAll(h + (":" + (mi + t)), drop);
    assert d == h + c;
    RemoveAllKeep("T", h + (":" + (mi + t)), drop);
  }

  /** Cutting at the '.' drops the fraction and the 'Z'. */
  lemma CompactCut(y: string, mo: string, dd: string, h: string, mi: string, s: string, f: string)
    requires AllDigits(y) && AllDigits(mo) && AllDigits(dd) && AllDigits(h) && AllDigits(mi) && AllDigits(s)
    ensures BeforeFirst(y + (mo + (dd + ("T" + (h + (mi + (s + ("." + (f + "Z")))))))), '.') ==
            Fields(y, mo, dd, h, mi, s)
  {
    var tail := "." + (f + "Z");
    assert BeforeFirst(tail, '.') == [];
    BeforeFirstKeep(s, tail, '.');
    assert s + [] == s;
    BeforeFirstKeep(mi, s + tail, '.');
    BeforeFirstKeep(h, mi + (s + tail), '.');
    BeforeFirstKeep("T", h + (mi + (s + tail)), '.');
    BeforeFirstKeep(dd, "T" + (h + (mi + (s + tail))), '.');
    BeforeFirstKeep(mo, dd + ("T" + (h + (mi + (s + tail)))), '.');
    BeforeFirstKeep(y, mo + (dd + ("T" + (h + (mi + (s + tail))))), '.');
  }

  /** formatDate: the ISO string without '-' and ':', cut at the '.', with
      'Z' appended; it is the basic form of the same instant. */
  function FormatDate(ms: Millis): (r: string)
    requires InIsoRange(ms)
    ensures r == Basic(ms)
  {
    var n := DayOf(ms);
    var d := FromOrdinal(n);
    var c := ClockOf(ms);
    YearInRange(n);
    var y, mo, dd := ZeroPad(d.year, 4), ZeroPad(d.month, 2), ZeroPad(d.day, 2);
    var h, mi, s, f := ZeroPad(c.hour, 2), ZeroPad(c.minute, 2), ZeroPad(c.second, 2), ZeroPad(c.milli, 3);
    var time := "T" + (h + (":" + (mi + (":" + (s + ("." + (f + "Z")))))));
    assert ToIsoString(ms) == y + "-" + mo + "-" + dd + time;
    CompactDate(y, mo, dd, time);
    CompactTime(h, mi, s, f);
    CompactCut(y, mo, dd, h, mi, s, f);
    BeforeFirst(RemoveAll(ToIsoString(ms), Separators), '.') + "Z"
  }

  /** Seven digit fields laid out as "YYYYMMDDTHHmmssZ". */
  lemma BasicLayout(y: string, mo: string, dd: string, h: string, mi: string, s: string)
    requires |y| == 4 && |mo| == 2 && |dd| == 2 && |h| == 2 && |mi| == 2 && |s| == 2
    ensures var r := Fields(y, mo, dd, h, mi, s) + "Z";
            && |r| == 16 && r[8] == 'T' && r[15] == 'Z'
            && r[..4] == y && r[4..6] == mo && r[6..8] == dd && r[..8] == y + mo + dd
            && r[9..11] == h && r[11..13] == mi && r[13..15] == s && r[9..15] == h + mi + s
  {
  }

  /** A field of digits that reads back as v. */
  predicate ReadsAs(f: string, v: nat)
  {
    AllDigits(f) && DecimalValue(f) == v
  }

  /** r is laid out as "YYYYMMDDTHHmmssZ" with the given field values. */
  predicate BasicForm(r: string, y: nat, mo: nat, d: nat, h: nat, mi: nat, s: nat)
  {
    && |r| == 16 && r[8] == 'T' && r[15] == 'Z'
    && ReadsAs(r[..4], y) && ReadsAs(r[4..6], mo) && ReadsAs(r[6..8], d)
    && ReadsAs(r[9..11], h) && ReadsAs(r[11..13], mi) && ReadsAs(r[13..15], s)
  }

  /** A field padded to its width reads back as its value. */
  lemma Padded(n: nat, k: nat)
    requires 1 <= k && n < Pow10(k)
    ensures |ZeroPad(n, k)| == k && ReadsAs(ZeroPad(n, k), n)
  {
    ZeroPadWidth(n, k);
    ZeroPadValue(n, k);
  }

  /** Fields of the right widths laid out in the basic form read back field
      by field. */
  lemma FieldsRead(y: string, mo: string, dd: string, h: string, mi: string, s: string,
                   vy: nat, vmo: nat, vdd: nat, vh: nat, vmi: nat, vs: nat)
    requires |y| == 4 && |mo| == 2 && |dd| == 2 && |h| == 2 && |mi| == 2 && |s| == 2
    requires ReadsAs(y, vy) && ReadsAs(mo, vmo) && ReadsAs(dd, vdd)
    requires ReadsAs(h, vh) && ReadsAs(mi, vmi) && ReadsAs(s, vs)
    ensures BasicForm(Fields(y, mo, dd, h, mi, s) + "Z", vy, vmo, vdd, vh, vmi, vs)
  {
    BasicLayout(y, mo, dd, h, mi, s);
  }

  /** The compact form is sixteen characters, 'T' at position 8 and 'Z' at
      the end, digits elsewhere, and the fields read back to the calendar
      date and the clock time of the instant. */
  lemma FormatDateShape(ms: Millis)
    requires InIsoRange(ms)
    ensures var d := FromOrdinal(DayOf(ms));
            var c := ClockOf(ms);
            d.year >= 0 && d.month >= 0 && d.day >= 0 &&
            BasicForm(FormatDate(ms), d.year, d.month, d.day, c.hour, c.minute, c.second)
  {
    var n := DayOf(ms);
    var d := FromOrdinal(n);
    var c := ClockOf(ms);
    YearInRange(n);
    assert Pow10(2) == 100 && Pow10(4) == 10000 by {
      assert Pow10(1) == 10;
      assert Pow10(3) == 1000;
    }
    Padded(d.year, 4); Padded(d.month, 2); Padded(d.day, 2);
    Padded(c.hour, 2); Padded(c.minute, 2); Padded(c.second, 2);
    var y, mo, dd := ZeroPad(d.year, 4), ZeroPad(d.month, 2), ZeroPad(d.day, 2);
    var h, mi, s := ZeroPad(c.hour, 2), ZeroPad(c.minute, 2), ZeroPad(c.second, 2);
    FieldsRead(y, mo, dd, h, mi, s, d.year, d.month, d.day, c.hour, c.minute, c.second);
    assert FormatDate(ms) == Fields(y, mo, dd, h, mi, s) + "Z";
  }

  datatype CalendarEvent = CalendarEvent(
    title: string,
    description: Option<string>,
    startDate: Millis,
    endDate: Option<Millis>,
    location: Option<string>)

  /** `value || ''` for an optional string. */
  function OrEmpty(s: Option<string>): (r: string)
    ensures s.Some? ==> r == s.value
    ensures s.None? ==> r == []
  {
    if s.Some? then s.value else []
  }

  /** The end of an event: its own end, or one hour after its start. */
  function EndOf(e: CalendarEvent): (r: Millis)
    ensures e.endDate.None? ==> r == e.startDate + MsPerHour
    ensures e.endDate.Some? ==> r == e.endDate.value
  {
    if e.endDate.Some? then e.endDate.value else e.startDate + MsPerHour
  }

  /** The dates parameter: two compact instants joined by '/'. */
  function Dates(start: Millis, end: Millis): (v: string)
    requires InIsoRange(start) && InIsoRange(end)
    ensures |v| == 33 && v[16] == '/'
    ensures v[..16] == Basic(start) && v[17..] == Basic(end)
  {
    var a, b := FormatDate(start), FormatDate(end);
    FormatDateLength(start);
    FormatDateLength(end);
    SlashJoin(a, b);
    a + "/" + b
  }

  /** Two sixteen-character forms joined by '/'. */
  lemma SlashJoin(a: string, b: string)
    requires |a| == 16 && |b| == 16
    ensures var v := a + "/" + b;
            |v| == 33 && v[16] == '/' && v[..16] == a && v[17..] == b
  {
  }

  /** The query parameters, in order. */
  function Params(e: CalendarEvent): seq<(string, string)>
    requires InIsoRange(e.startDate) && InIsoRange(EndOf(e))
  {
    [("action", "TEMPLATE"),
     ("text", e.title),
     ("dates", Dates(e.startDate, EndOf(e))),
     ("details", OrEmpty(e.description)),
     ("location", OrEmpty(e.location))]
  }

  const RenderUrl: string := "https://calendar.google.com/calendar/render?"

  /** createGoogleCalendarUrl, with URLSearchParams.toString as `encode`. */
  function CreateGoogleCalendarUrl(e: CalendarEvent, encode: seq<(string, string)> -> string): (r: string)
    requires InIsoRange(e.startDate) && InIsoRange(EndOf(e))
    ensures StartsWith(r, RenderUrl) && r[|RenderUrl|..] == encode(Params(e))
  {
    var r := RenderUrl + encode(Params(e));
    assert r[..|RenderUrl|] == RenderUrl;
    r
  }

  /** Every compact instant is sixteen characters long. */
  lemma FormatDateLength(ms: Millis)
    requires InIsoRange(ms)
    ensures |FormatDate(ms)| == 16
  {
    FormatDateShape(ms);
  }

  /** The title of a habit's check-in event. */
  function CheckInTitle(habitName: string): (r: string)
    ensures StartsWith(r, "Habit Check-in: ") && r[16..] == habitName
  {
    var r := "Habit Check-in: " + habitName;
    assert r[..16] == "Habit Check-in: ";
    r
  }

  /** The description of a habit's check-in event, naming its frequency. */
  function CheckInDetails(frequency: string, habitName: string): (r: string)
    ensures |r| == 33 + |frequency| + |habitName|
    ensures StartsWith(r, "Time to check in on your ")
    ensures EndsWith(r, " habit: " + habitName)
    ensures r[25..|r| - 8 - |habitName|] == frequency
  {
    var r := "Time to check in on your " + frequency + " habit: " + habitName;
    assert r[..25] == "Time to check in on your ";
    assert r[25..25 + |frequency|] == frequency;
    assert r[|r| - |" habit: " + habitName|..] == " habit: " + habitName;
    r
  }

  const AppLocation: string := "Habit Hero App"

  /** The event syncHabitToCalendar opens for a habit: a check-in starting
      at `start`, with no end of its own, at the app's location. */
  function HabitEvent(habitName: string, frequency: string, start: Millis): (e: CalendarEvent)
    ensures e.title == CheckInTitle(habitName)
    ensures e.description == Some(CheckInDetails(frequency, habitName))
    ensures e.endDate.None? && e.startDate == start
    ensures e.location == Some(AppLocation)
  {
    CalendarEvent(CheckInTitle(habitName), Some(CheckInDetails(frequency, habitName)), start, None, Some(AppLocation))
  }

  /** A habit's link carries the same parameters as an explicit one-hour
      event with the check-in title, description and location. */
  lemma HabitEventParams(habitName: string, frequency: string, start: Millis)
    requires InIsoRange(start) && InIsoRange(start + MsPerHour)
    ensures var explicit := CalendarEvent(CheckInTitle(habitName), Some(CheckInDetails(frequency, habitName)),
                                          start, Some(start + MsPerHour), Some(AppLocation));
            Params(HabitEvent(habitName, frequency, start)) == Params(explicit)
  {
    var e := HabitEvent(habitName, frequency, start);
    var explicit := CalendarEvent(CheckInTitle(habitName), Some(CheckInDetails(frequency, habitName)),
                                  start, Some(start + MsPerHour), Some(AppLocation));
    assert EndOf(e) == EndOf(explicit);
  }

  /** syncHabitToCalendar's link, before it is opened. */
  function SyncHabitUrl(habitName: string, frequency: string, start: Millis,
                        encode: seq<(string, string)> -> string): (r: string)
    requires InIsoRange(start) && InIsoRange(start + MsPerHour)
    ensures StartsWith(r, RenderUrl)
    ensures r[|RenderUrl|..] == encode(Params(HabitEvent(habitName, frequency, start)))
  {
    CreateGoogleCalendarUrl(HabitEvent(habitName, frequency, start), encode)
  }
}
