/**
 The shift factory: from a roster date and a shift label to a calendar
 event with a start, an optional ten-hour duration, a summary and a UID
 that is derived from the start alone.

 Two things come from outside and are parameters here:
 - UUID version 5, name-based with SHA-1, as in section 4.3 of RFC 4122;
 - the Australia/Sydney zone abbreviation (`%Z`) in force at a local date and time.
 */
module Shifts {
  import opened Roster
  import opened Seqs
  import opened Text

  const EmployerName := "SWSLHD"
  const EmployeeId := "60316064"
  /** The application's fixed UUID namespace. */
  const AppNamespace := "48f80ff6-3ddd-4b70-9ad0-24459b3219bc"
  /** Length of a timed shift. */
  const ShiftHours: nat := 10

  /** `Shift.LABEL_MEANING` */
  const LabelMeaning: map<string, string> := map[
    "D" := "Day",
    "MF" := "Morning Float",
    "F" := "Float",
    "E" := "Evening",
    "N" := "Night",
    "SR" := "Sick Relief",
    "T" := "Teaching Day",
    "AL" := "Annual Leave"
  ]

  /** `Shift.SHIFT_START_TIMES`, local Sydney time. */
  const StartTimes: map<string, Time> := map[
    "D" := Time(8, 0, 0),
    "MF" := Time(10, 0, 0),
    "F" := Time(12, 30, 0),
    "E" := Time(14, 0, 0),
    "N" := Time(22, 30, 0)
  ]

  /**
   The foreign functions the factory calls: `uuid.uuid5(namespace, name)`
   rendered with `str`, and the zone abbreviation of a local date and time.
   */
  datatype Env = Env(uuid5: (string, string) -> string, zoneName: (Date, Time) -> string)

  /** The date argument, which Python may pass as a `date` or a `datetime`. */
  datatype When = OnDate(day: Date) | At(stamp: DateTime)

  /** DTSTART: a local date and time, or a bare date for an all-day event. */
  datatype Start = Timed(date: Date, time: Time) | AllDay(date: Date)

  /** The properties a new `Shift` event carries. */
  datatype Shift = Shift(
    date: Date,
    start: Start,
    durationHours: Option<nat>,
    summary: string,
    uid: string,
    categories: seq<string>,
    classification: string,
    sequence: nat)

  /** `label.strip().upper()` */
  function NormalLabel(raw: string): string {
    Upper(Strip(raw))
  }

  /** A `datetime` argument is cut down to its date. */
  function DateOf(w: When): Date {
    match w
    case OnDate(d) => d
    case At(dt) => dt.date
  }

  function DigitChar(d: nat): (c: char)
    requires d < 10
    ensures IsDigit(c)
  {
    ('0' as int + d) as char
  }

  function DigitValue(c: char): int {
    c as int - '0' as int
  }

  /** `n` in two decimal digits, zero-padded (`%m`, `%d`, `%H`, `%M`, `%S`). */
  function Pad2(n: nat): (s: string)
    requires n < 100
    ensures |s| == 2
  {
    [DigitChar(n / 10), DigitChar(n % 10)]
  }

  /** `n` in four decimal digits, zero-padded (`%Y`). */
  function Pad4(n: nat): (s: string)
    requires n < 10000
    ensures |s| == 4
  {
    Pad2(n / 100) + Pad2(n % 100)
  }

  /** Reads back two digits. */
  function Read2(s: string): int
    requires |s| >= 2
  {
    10 * DigitValue(s[0]) + DigitValue(s[1])
  }

  /** Reads back four digits. */
  function Read4(s: string): int
    requires |s| >= 4
  {
    100 * Read2(s) + Read2(s[2..])
  }

  lemma Read2Pad2(n: nat)
    requires n < 100
    ensures Read2(Pad2(n)) == n
  {
  }

  lemma Read4Pad4(n: nat)
    requires n < 10000
    ensures Read4(Pad4(n)) == n
  {
    var s := Pad4(n);
    assert s[..2] == Pad2(n / 100) && s[2..] == Pad2(n % 100);
    Read2Pad2(n / 100);
    Read2Pad2(n % 100);
  }

  /** The six numbers a start's digits spell: date, then time (midnight for a bare date). */
  function StampFields(st: Start): (int, int, int, int, int, int) {
    match st
    case Timed(d, t) => (d.year, d.month, d.day, t.hour, t.minute, t.second)
    case AllDay(d) => (d.year, d.month, d.day, 0, 0, 0)
  }

  /** Fourteen digits: a four-digit year, then five two-digit fields. */
  function Digits14(y: nat, mo: nat, d: nat, h: nat, mi: nat, se: nat): (s: string)
    requires y < 10000 && mo < 100 && d < 100 && h < 100 && mi < 100 && se < 100
    ensures |s| == 14
  {
    Pad4(y) + Pad2(mo) + Pad2(d) + Pad2(h) + Pad2(mi) + Pad2(se)
  }

  /** Reads the six numbers back out of fourteen digits. */
  function ReadStamp(s: string): (int, int, int, int, int, int)
    requires |s| == 14
  {
    (Read4(s[..4]), Read2(s[4..6]), Read2(s[6..8]), Read2(s[8..10]), Read2(s[10..12]), Read2(s[12..]))
  }

  lemma ReadDigits14(y: nat, mo: nat, d: nat, h: nat, mi: nat, se: nat)
    requires y < 10000 && mo < 100 && d < 100 && h < 100 && mi < 100 && se < 100
    ensures ReadStamp(Digits14(y, mo, d, h, mi, se)) == (y, mo, d, h, mi, se)
  {
    var s := Digits14(y, mo, d, h, mi, se);
    assert s[..4] == Pad4(y);
    assert s[4..6] == Pad2(mo);
    assert s[6..8] == Pad2(d);
    assert s[8..10] == Pad2(h);
    assert s[10..12] == Pad2(mi);
    assert s[12..] == Pad2(se);
    Read4Pad4(y);
    Read2Pad2(mo);
    Read2Pad2(d);
    Read2Pad2(h);
    Read2Pad2(mi);
    Read2Pad2(se);
  }

  /** `start.strftime("%Y%m%d%H%M%S")`; a bare date reads its time as midnight. */
  function StampDigits(st: Start): (s: string)
    ensures |s| == 14
  {
    var f := StampFields(st);
    Digits14(f.0, f.1, f.2, f.3, f.4, f.5)
  }

  /** `start.strftime("%Y%m%d%H%M%S%Z")`: a bare date has no zone, so `%Z` is empty. */
  function FormatStart(st: Start, env: Env): string {
    match st
    case Timed(d, t) => StampDigits(st) + env.zoneName(d, t)
    case AllDay(_) => StampDigits(st)
  }

  /** The string the UID is hashed from: `EMPLOYER_NAME:EMPLOYEE_ID:` and the formatted start. */
  function UidName(st: Start, env: Env): (name: string)
    ensures |name| >= 30
    ensures name[..16] == EmployerName + ":" + EmployeeId + ":"
    ensures name[16..30] == StampDigits(st)
  {
    var prefix := EmployerName + ":" + EmployeeId + ":";
    assert |prefix| == 16;
    var f := FormatStart(st, env);
    assert f[..14] == StampDigits(st);
    prefix + f
  }

  /** `__generate_uid` */
  function GenerateUid(st: Start, env: Env): string {
    env.uuid5(AppNamespace, UidName(st, env))
  }

  /** `Shift(shift_date, shift_label)` */
  function MakeShift(when: When, raw: string, env: Env): (s: Shift)
    ensures s.date == DateOf(when)
    ensures NormalLabel(raw) in StartTimes ==>
      s.start == Timed(s.date, StartTimes[NormalLabel(raw)]) && s.durationHours == Some(ShiftHours)
    ensures NormalLabel(raw) !in StartTimes ==> s.start == AllDay(s.date) && s.durationHours.None?
    ensures NormalLabel(raw) in LabelMeaning ==> s.summary == LabelMeaning[NormalLabel(raw)]
    ensures NormalLabel(raw) !in LabelMeaning ==> s.summary == NormalLabel(raw)
    ensures s.uid == env.uuid5(AppNamespace, UidName(s.start, env))
    ensures s.categories == ["Work", "Shift"] && s.classification == "PRIVATE" && s.sequence == 0
  {
    var code := NormalLabel(raw);
    var date := DateOf(when);
    var start := if code in StartTimes then Timed(date, StartTimes[code]) else AllDay(date);
    var duration := if code in StartTimes then Some(ShiftHours) else None;
    var summary := if code in LabelMeaning then LabelMeaning[code] else code;
    Shift(date, start, duration, summary, GenerateUid(start, env), ["Work", "Shift"], "PRIVATE", 0)
  }

  /** Reads the six numbers back out of a UID name. */
  function ReadUidName(name: string): (int, int, int, int, int, int)
    requires |name| >= 30
  {
    ReadStamp(name[16..30])
  }

  /** The UID name carries the start's date and time: reading it back gives them. */
  lemma UidNameRoundTrip(st: Start, env: Env)
    ensures ReadUidName(UidName(st, env)) == StampFields(st)
  {
    var f := StampFields(st);
    ReadDigits14(f.0, f.1, f.2, f.3, f.4, f.5);
  }

  /** No two labels of the start-time table share a start time. */
  lemma StartTimesInjective()
    ensures forall a, b :: a in StartTimes && b in StartTimes && StartTimes[a] == StartTimes[b] ==> a == b
  {
  }

  /** A start the factory can produce: a table time, or a bare date. */
  predicate FactoryStart(st: Start) {
    st.AllDay? || st.time in StartTimes.Values
  }

  /**
   Two factory starts with the same UID name are the same start. Two shifts
   can only share a UID name, and so a UID, when they start at the same moment.
   */
  lemma UidNameInjective(a: Start, b: Start, env: Env)
    requires FactoryStart(a) && FactoryStart(b)
    requires UidName(a, env) == UidName(b, env)
    ensures a == b
  {
    UidNameRoundTrip(a, env);
    UidNameRoundTrip(b, env);
    assert StampFields(a) == StampFields(b);
    assert a.date == b.date;
    if a.Timed? {
      assert a.time.hour >= 8;
    }
    if b.Timed? {
      assert b.time.hour >= 8;
    }
  }

  /**
   Different timed labels on the same date give different UID names: the
   start-time table is injective and the name carries the time.
   */
  lemma TimedLabelsDistinctUidNames(w: When, x: string, y: string, env: Env)
    requires NormalLabel(x) in StartTimes && NormalLabel(y) in StartTimes
    requires NormalLabel(x) != NormalLabel(y)
    ensures UidName(MakeShift(w, x, env).start, env) != UidName(MakeShift(w, y, env).start, env)
  {
    var a := MakeShift(w, x, env).start;
    var b := MakeShift(w, y, env).start;
    if UidName(a, env) == UidName(b, env) {
      UidNameInjective(a, b, env);
      StartTimesInjective();
    }
  }

  /**
   Every label outside the start-time table becomes an all-day event at the
   date, so all such labels on one date share one UID.
   */
  lemma UntimedLabelsShareUid(w: When, x: string, y: string, env: Env)
    requires NormalLabel(x) !in StartTimes && NormalLabel(y) !in StartTimes
    ensures MakeShift(w, x, env).uid == MakeShift(w, y, env).uid
  {
  }

  /** Upper-casing leaves whitespace where it was. */
  lemma UpperKeepsSpace(s: string)
    ensures forall i :: 0 <= i < |s| ==> (IsSpace(Upper(s)[i]) <==> IsSpace(s[i]))
  {
  }

  /** A string already stripped and upper-cased normalises to itself. */
  lemma {:induction false} NormalLabelIdempotent(raw: string)
    ensures NormalLabel(NormalLabel(raw)) == NormalLabel(raw)
  {
    var t := Strip(raw);
    var u := Upper(t);
    StripEnds(raw);
    UpperKeepsSpace(t);
    assert LStrip(u) == u;
    assert RStrip(u) == u;
    assert Strip(u) == u;
    assert Upper(u) == u;
  }

  /** Labels that normalise alike (`" d "` and `"D"`) make the same shift. */
  lemma SameNormalLabelSameShift(w: When, x: string, y: string, env: Env)
    requires NormalLabel(x) == NormalLabel(y)
    ensures MakeShift(w, x, env) == MakeShift(w, y, env)
  {
  }

  /** Only the calendar date of a `datetime` argument matters. */
  lemma TimeOfDayIgnored(dt: DateTime, raw: string, env: Env)
    ensures MakeShift(At(dt), raw, env) == MakeShift(OnDate(dt.date), raw, env)
  {
  }

  /** Every timed label has a meaning, so a timed shift's summary is never the bare code. */
  lemma TimedLabelsHaveMeaning()
    ensures forall l :: l in StartTimes ==> l in LabelMeaning
  {
  }
}
