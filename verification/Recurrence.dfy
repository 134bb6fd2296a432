/** Expansion of recurring calendar events over a window, with Gregorian calendar arithmetic. */
module Recurrence {

  // ---------------------------------------------------------------- calendar

  const DAY_MICROS: nat := 86_400_000_000

  /** An instant in UTC: the day number counted from 0001-01-01 as day 1, and the microseconds since midnight. */
  datatype DateTime = DateTime(day: int, micros: int)

  predicate Le(a: DateTime, b: DateTime) {
    a.day < b.day || (a.day == b.day && a.micros <= b.micros)
  }

  /** Monday is 0; day 1 was a Monday. */
  function Weekday(day: int): nat {
    (day + 6) % 7
  }

  predicate IsLeap(y: int) {
    y % 4 == 0 && (y % 100 != 0 || y % 400 == 0)
  }

  function DaysBeforeYear(y: int): int {
    (y - 1) * 365 + (y - 1) / 4 - (y - 1) / 100 + (y - 1) / 400
  }

  const DAYS_BEFORE_MONTH := [0, 31, 59, 90, 120, 151, 181, 212, 243, 273, 304, 334]

  /** The day number of the first of a month. */
  function FirstOfMonth(y: int, mo: int): int
    requires 1 <= mo <= 12
  {
    DaysBeforeYear(y) + DAYS_BEFORE_MONTH[mo - 1] + (if mo > 2 && IsLeap(y) then 1 else 0) + 1
  }

  function NextMonth(y: int, mo: int): (int, int) {
    if mo + 1 > 12 then (y + 1, 1) else (y, mo + 1)
  }

  lemma QuotientStep(y: int)
    ensures y / 4 == (y - 1) / 4 + if y % 4 == 0 then 1 else 0
    ensures y / 100 == (y - 1) / 100 + if y % 100 == 0 then 1 else 0
    ensures y / 400 == (y - 1) / 400 + if y % 400 == 0 then 1 else 0
  {
  }

  lemma LeapNesting(y: int)
    ensures y % 400 == 0 ==> y % 100 == 0
    ensures y % 100 == 0 ==> y % 4 == 0
  {
  }

  lemma YearLength(y: int)
    ensures DaysBeforeYear(y + 1) == DaysBeforeYear(y) + if IsLeap(y) then 366 else 365
  {
    QuotientStep(y);
    LeapNesting(y);
  }

  function DaysInMonth(y: int, mo: int): (days: int)
    ensures 28 <= days <= 31
  {
    if mo == 2 then (if IsLeap(y) then 29 else 28)
    else if mo in {4, 6, 9, 11} then 30
    else 31
  }

  /** Months follow each other without a gap, across years too. */
  lemma MonthLength(y: int, mo: int)
    requires 1 <= mo <= 12
    ensures var (y', mo') := NextMonth(y, mo);
      1 <= mo' <= 12 && FirstOfMonth(y', mo') == FirstOfMonth(y, mo) + DaysInMonth(y, mo)
  {
    YearLength(y);
  }

  /** 1970-01-01 is day 719163 and was a Thursday. */
  lemma Epoch()
    ensures FirstOfMonth(1970, 1) == 719163 && Weekday(FirstOfMonth(1970, 1)) == 3
  {
  }

  /** A date as `datetime` holds it: year, month, day of the month, and time of day. */
  datatype Civil = Civil(year: int, month: int, dayOfMonth: int, micros: int)

  predicate ValidCivil(c: Civil) {
    1 <= c.month <= 12 && 0 <= c.micros < DAY_MICROS && 1 <= c.dayOfMonth <= DaysInMonth(c.year, c.month)
  }

  function At(c: Civil): DateTime
    requires ValidCivil(c)
  {
    DateTime(FirstOfMonth(c.year, c.month) + c.dayOfMonth - 1, c.micros)
  }

  // ---------------------------------------------------------------- event definitions

  datatype Cadence =
    | DailyWeekday
    | Weekly(weekday: int)
    | Biweekly(weekday: int, parity: int)
    | MonthlyFirstFriday
    | OtherCadence

  datatype EventDef = EventDef(cadence: Cadence, hour: int, minute: int, durationMins: int)

  predicate ValidTime(e: EventDef) {
    0 <= e.hour < 24 && 0 <= e.minute < 60
  }

  datatype Instance = Instance(start: DateTime, end: DateTime)

  function StartMicros(e: EventDef): int {
    (e.hour * 60 + e.minute) * 60_000_000
  }

  function PlusMinutes(t: DateTime, mins: int): DateTime {
    var total := t.micros + mins * 60_000_000;
    DateTime(t.day + total / DAY_MICROS, total % DAY_MICROS)
  }

  /** The instance that starts on `day`. */
  function On(e: EventDef, day: int): Instance {
    var start := DateTime(day, StartMicros(e));
    Instance(start, PlusMinutes(start, e.durationMins))
  }

  // ---------------------------------------------------------------- which days the cadence means

  /** The cursor that steps from the window start reaches this day before the window ends. */
  predicate Stepped(ws: DateTime, we: DateTime, day: int) {
    ws.day <= day && Le(DateTime(day, ws.micros), we)
  }

  predicate IsFirstFriday(y: int, mo: int, day: int) {
    1 <= mo <= 12 && Weekday(day) == 4 && FirstOfMonth(y, mo) <= day < FirstOfMonth(y, mo) + 7
  }

  /** The first day from `from` on that falls on the weekday. */
  function FirstMatch(from: int, weekday: int): int {
    from + (weekday - Weekday(from)) % 7
  }

  lemma FirstMatchIsFirst(from: int, weekday: int)
    ensures var day := FirstMatch(from, weekday);
      && from <= day < from + 7 && Weekday(day) == weekday % 7
      && forall d :: from <= d < day ==> Weekday(d) != weekday % 7
  {
  }

  lemma WeekStep(day: int)
    ensures Weekday(day + 7) == Weekday(day)
    ensures forall d :: day < d < day + 7 ==> Weekday(d) != Weekday(day)
  {
  }

  /** The cadence falls on this day, from the window start on; every second week is counted from the first match. */
  ghost predicate OnCadence(e: EventDef, ws: Civil, day: int)
    requires ValidCivil(ws)
  {
    match e.cadence
    case DailyWeekday => Weekday(day) < 5
    case Weekly(wd) => Weekday(day) == wd % 7
    case Biweekly(wd, parity) => Weekday(day) == wd % 7 && (day - FirstMatch(At(ws).day, wd)) / 7 % 2 == parity
    case MonthlyFirstFriday => exists y, mo :: IsFirstFriday(y, mo, day)
    case OtherCadence => false
  }

  predicate StartsInside(e: EventDef, ws: Civil, we: DateTime, day: int)
    requires ValidCivil(ws)
  {
    Le(At(ws), DateTime(day, StartMicros(e))) && Le(DateTime(day, StartMicros(e)), we)
  }

  /** Only the monthly cadence compares the start of the instance with the window; the others compare the cursor. */
  ghost predicate Meant(e: EventDef, ws: Civil, we: DateTime, day: int)
    requires ValidCivil(ws)
  {
    && OnCadence(e, ws, day)
    && if e.cadence.MonthlyFirstFriday? then StartsInside(e, ws, we, day) else Stepped(At(ws), we, day)
  }

  /** The instances of exactly the meant days below `bound`, in order and each once. */
  ghost predicate ExactlyMeant(e: EventDef, ws: Civil, we: DateTime, out: seq<Instance>, bound: int)
    requires ValidCivil(ws)
  {
    && (forall i :: 0 <= i < |out| ==>
          out[i] == On(e, out[i].start.day) && out[i].start.day < bound && Meant(e, ws, we, out[i].start.day))
    && (forall day :: day < bound && Meant(e, ws, we, day) ==> On(e, day) in out)
    && (forall i, j :: 0 <= i < j < |out| ==> out[i].start.day < out[j].start.day)
  }

  lemma Emit(e: EventDef, ws: Civil, we: DateTime, out: seq<Instance>, bound: int, day: int, bound': int)
    requires ValidCivil(ws) && ExactlyMeant(e, ws, we, out, bound)
    requires bound <= day < bound' && Meant(e, ws, we, day)
    requires forall d :: bound <= d < bound' && Meant(e, ws, we, d) ==> d == day
    ensures ExactlyMeant(e, ws, we, out + [On(e, day)], bound')
  {
  }

  lemma Skip(e: EventDef, ws: Civil, we: DateTime, out: seq<Instance>, bound: int, bound': int)
    requires ValidCivil(ws) && ExactlyMeant(e, ws, we, out, bound)
    requires bound <= bound' && forall d :: bound <= d < bound' ==> !Meant(e, ws, we, d)
    ensures ExactlyMeant(e, ws, we, out, bound')
  {
  }

  // ---------------------------------------------------------------- expansion

  /** The instances of all meant days, in order and each once. */
  ghost predicate Expansion(e: EventDef, ws: Civil, we: DateTime, out: seq<Instance>)
    requires ValidCivil(ws)
  {
    && (forall i :: 0 <= i < |out| ==> out[i] == On(e, out[i].start.day) && Meant(e, ws, we, out[i].start.day))
    && (forall day :: Meant(e, ws, we, day) ==> On(e, day) in out)
    && (forall i, j :: 0 <= i < j < |out| ==> out[i].start.day < out[j].start.day)
  }

  method ExpandDaily(e: EventDef, ws: Civil, we: DateTime) returns (instances: seq<Instance>)
    requires ValidTime(e) && ValidCivil(ws) && e.cadence.DailyWeekday?
    ensures Expansion(e, ws, we, instances)
  {
    instances := [];
    var cursor := At(ws);
    while Le(cursor, we)
      invariant cursor.micros == ws.micros && At(ws).day <= cursor.day
      invariant ExactlyMeant(e, ws, we, instances, cursor.day)
      decreases we.day - cursor.day + 1
    {
      if Weekday(cursor.day) < 5 {
        Emit(e, ws, we, instances, cursor.day, cursor.day, cursor.day + 1);
        instances := instances + [On(e, cursor.day)];
      } else {
        Skip(e, ws, we, instances, cursor.day, cursor.day + 1);
      }
      cursor := cursor.(day := cursor.day + 1);
    }
  }

  method ExpandWeekly(e: EventDef, ws: Civil, we: DateTime) returns (instances: seq<Instance>)
    requires ValidTime(e) && ValidCivil(ws) && e.cadence.Weekly?
    ensures Expansion(e, ws, we, instances)
  {
    instances := [];
    var cursor := At(ws);
    var daysAhead := (e.cadence.weekday - Weekday(cursor.day)) % 7;
    cursor := cursor.(day := cursor.day + daysAhead);
    FirstMatchIsFirst(At(ws).day, e.cadence.weekday);
    hide Weekday, FirstMatch;
    while Le(cursor, we)
      invariant cursor.micros == ws.micros && At(ws).day <= cursor.day && Weekday(cursor.day) == e.cadence.weekday % 7
      invariant ExactlyMeant(e, ws, we, instances, cursor.day)
      decreases we.day - cursor.day + 1
    {
      WeekStep(cursor.day);
      Emit(e, ws, we, instances, cursor.day, cursor.day, cursor.day + 7);
      instances := instances + [On(e, cursor.day)];
      cursor := cursor.(day := cursor.day + 7);
    }
  }

  method ExpandBiweekly(e: EventDef, ws: Civil, we: DateTime) returns (instances: seq<Instance>)
    requires ValidTime(e) && ValidCivil(ws) && e.cadence.Biweekly?
    ensures Expansion(e, ws, we, instances)
  {
    instances := [];
    var cursor := At(ws);
    var daysAhead := (e.cadence.weekday - Weekday(cursor.day)) % 7;
    cursor := cursor.(day := cursor.day + daysAhead);
    var weekNum := 0;
    ghost var first := FirstMatch(At(ws).day, e.cadence.weekday);
    FirstMatchIsFirst(At(ws).day, e.cadence.weekday);
    hide Weekday, FirstMatch;
    while Le(cursor, we)
      invariant cursor.micros == ws.micros && cursor.day == first + 7 * weekNum && 0 <= weekNum
      invariant Weekday(cursor.day) == e.cadence.weekday % 7
      invariant ExactlyMeant(e, ws, we, instances, cursor.day)
      decreases we.day - cursor.day + 1
    {
      assert (cursor.day - first) / 7 == weekNum;
      WeekStep(cursor.day);
      if weekNum % 2 == e.cadence.parity {
        Emit(e, ws, we, instances, cursor.day, cursor.day, cursor.day + 7);
        instances := instances + [On(e, cursor.day)];
      } else {
        Skip(e, ws, we, instances, cursor.day, cursor.day + 7);
      }
      cursor := cursor.(day := cursor.day + 7);
      weekNum := weekNum + 1;
    }
  }

  /** The search within the month: it stops on the month's first Friday, at the latest on the seventh. */
  method FirstFriday(e: EventDef, y: int, mo: int) returns (d: DateTime)
    requires 1 <= mo <= 12
    ensures d.micros == StartMicros(e) && IsFirstFriday(y, mo, d.day)
  {
    ghost var friday := FirstMatch(FirstOfMonth(y, mo), 4);
    FirstMatchIsFirst(FirstOfMonth(y, mo), 4);
    hide Weekday, FirstMatch, FirstOfMonth, StartMicros;
    d := DateTime(FirstOfMonth(y, mo), StartMicros(e));
    while Weekday(d.day) != 4
      invariant d.micros == StartMicros(e)
      invariant FirstOfMonth(y, mo) <= d.day <= friday
      decreases friday - d.day
    {
      d := d.(day := d.day + 1);
    }
  }

  function MonthIndex(y: int, mo: int): int {
    12 * y + mo
  }

  /** An earlier month is over before a later one begins. */
  lemma {:induction false} MonthOrder(y1: int, mo1: int, y2: int, mo2: int)
    requires 1 <= mo1 <= 12 && 1 <= mo2 <= 12 && MonthIndex(y1, mo1) < MonthIndex(y2, mo2)
    ensures FirstOfMonth(y1, mo1) + 28 <= FirstOfMonth(y2, mo2)
    ensures FirstOfMonth(NextMonth(y1, mo1).0, NextMonth(y1, mo1).1) <= FirstOfMonth(y2, mo2)
    decreases MonthIndex(y2, mo2) - MonthIndex(y1, mo1)
  {
    var (y, mo) := NextMonth(y1, mo1);
    MonthLength(y1, mo1);
    hide FirstOfMonth;
    assert MonthIndex(y, mo) == MonthIndex(y1, mo1) + 1;
    if MonthIndex(y, mo) < MonthIndex(y2, mo2) {
      MonthOrder(y, mo, y2, mo2);
    } else {
      assert y == y2 && mo == mo2;
    }
  }

  /** From the start of a month on, first Fridays begin with that month's, and the next is in a later month. */
  lemma FridaysFrom(y: int, mo: int, friday: int, y': int, mo': int, day: int)
    requires IsFirstFriday(y, mo, friday) && IsFirstFriday(y', mo', day)
    requires FirstOfMonth(y, mo) <= day
    ensures day == friday || (friday < day && FirstOfMonth(NextMonth(y, mo).0, NextMonth(y, mo).1) <= day)
  {
    hide FirstOfMonth;
    if MonthIndex(y', mo') < MonthIndex(y, mo) {
      MonthOrder(y', mo', y, mo);
    } else if MonthIndex(y, mo) < MonthIndex(y', mo') {
      MonthOrder(y, mo, y', mo');
    } else {
      assert y == y' && mo == mo';
      if day < friday { WeekStep(day); } else { WeekStep(friday); }
    }
  }

  /** One turn of the monthly loop: the month's only candidate is its first Friday. */
  lemma MonthDone(e: EventDef, ws: Civil, we: DateTime, out: seq<Instance>, y: int, mo: int, d: DateTime)
    requires ValidCivil(ws) && e.cadence.MonthlyFirstFriday?
    requires IsFirstFriday(y, mo, d.day) && d.micros == StartMicros(e) && Le(d, we)
    requires ExactlyMeant(e, ws, we, out, FirstOfMonth(y, mo))
    ensures var next := FirstOfMonth(NextMonth(y, mo).0, NextMonth(y, mo).1);
      ExactlyMeant(e, ws, we, if Le(At(ws), d) then out + [On(e, d.day)] else out, next)
  {
    var next := FirstOfMonth(NextMonth(y, mo).0, NextMonth(y, mo).1);
    MonthLength(y, mo);
    hide FirstOfMonth, Weekday;
    forall day | FirstOfMonth(y, mo) <= day < next && Meant(e, ws, we, day)
      ensures day == d.day
    {
      var y', mo' :| IsFirstFriday(y', mo', day);
      FridaysFrom(y, mo, d.day, y', mo', day);
    }
    assert d == DateTime(d.day, StartMicros(e));
    if Le(At(ws), d) {
      assert Meant(e, ws, we, d.day);
      Emit(e, ws, we, out, FirstOfMonth(y, mo), d.day, next);
    } else {
      assert !Meant(e, ws, we, d.day);
      Skip(e, ws, we, out, FirstOfMonth(y, mo), next);
    }
  }

  /** Once a month's first Friday is past the window, so are all that follow. */
  lemma MonthsOver(e: EventDef, ws: Civil, we: DateTime, out: seq<Instance>, y: int, mo: int, d: DateTime)
    requires ValidCivil(ws) && e.cadence.MonthlyFirstFriday?
    requires IsFirstFriday(y, mo, d.day) && d.micros == StartMicros(e) && !Le(d, we)
    requires ExactlyMeant(e, ws, we, out, FirstOfMonth(y, mo))
    ensures Expansion(e, ws, we, out)
  {
    hide FirstOfMonth, Weekday;
    forall day | Meant(e, ws, we, day)
      ensures day < FirstOfMonth(y, mo)
    {
      if FirstOfMonth(y, mo) <= day {
        var y', mo' :| IsFirstFriday(y', mo', day);
        FridaysFrom(y, mo, d.day, y', mo', day);
      }
    }
  }

  method ExpandMonthly(e: EventDef, ws: Civil, we: DateTime) returns (instances: seq<Instance>)
    requires ValidTime(e) && ValidCivil(ws) && e.cadence.MonthlyFirstFriday?
    ensures Expansion(e, ws, we, instances)
  {
    instances := [];
    var y, mo := ws.year, ws.month;
    while true
      invariant 1 <= mo <= 12
      invariant ExactlyMeant(e, ws, we, instances, FirstOfMonth(y, mo))
      decreases we.day - FirstOfMonth(y, mo)
    {
      var d := FirstFriday(e, y, mo);
      if !Le(d, we) {
        MonthsOver(e, ws, we, instances, y, mo, d);
        return;
      }
      MonthDone(e, ws, we, instances, y, mo, d);
      MonthLength(y, mo);
      hide FirstOfMonth, Weekday, ExactlyMeant;
      if Le(At(ws), d) {
        instances := instances + [On(e, d.day)];
      }
      mo := mo + 1;
      if mo > 12 {
        mo := 1;
        y := y + 1;
      }
    }
  }

  /** Expands a definition over a window; a cadence it does not know has no instances. */
  method ExpandRecurring(e: EventDef, ws: Civil, we: DateTime) returns (instances: seq<Instance>)
    requires ValidTime(e) && ValidCivil(ws)
    ensures Expansion(e, ws, we, instances)
  {
    match e.cadence
    case DailyWeekday => instances := ExpandDaily(e, ws, we);
    case Weekly(_) => instances := ExpandWeekly(e, ws, we);
    case Biweekly(_, _) => instances := ExpandBiweekly(e, ws, we);
    case MonthlyFirstFriday => instances := ExpandMonthly(e, ws, we);
    case OtherCadence => instances := [];
  }

  /** Which days a cadence falls on: no Saturday or Sunday, every seventh day, or every fourteenth. */
  lemma CadenceDays(e: EventDef, ws: Civil, day: int)
    requires ValidCivil(ws)
    ensures e.cadence.DailyWeekday? ==> (OnCadence(e, ws, day) <==> Weekday(day) != 5 && Weekday(day) != 6)
    ensures e.cadence.Weekly? ==>
      var first := FirstMatch(At(ws).day, e.cadence.weekday);
      OnCadence(e, ws, day) <==> (day - first) % 7 == 0
    ensures e.cadence.Biweekly? && 0 <= e.cadence.parity < 2 ==>
      var first := FirstMatch(At(ws).day, e.cadence.weekday);
      OnCadence(e, ws, day) <==> (day - first) % 14 == 7 * e.cadence.parity
    ensures e.cadence.Biweekly? && !(0 <= e.cadence.parity < 2) ==> !OnCadence(e, ws, day)
  {
    match e.cadence
    case Weekly(wd) => SameWeekday(At(ws).day, wd, day);
    case Biweekly(wd, parity) =>
      SameWeekday(At(ws).day, wd, day);
      EveryOtherWeek(day - FirstMatch(At(ws).day, wd));
    case _ =>
  }

  lemma SameWeekday(from: int, weekday: int, day: int)
    ensures Weekday(day) == weekday % 7 <==> (day - FirstMatch(from, weekday)) % 7 == 0
  {
    FirstMatchIsFirst(from, weekday);
  }

  lemma EveryOtherWeek(days: int)
    ensures days % 7 == 0 ==> days % 14 == 7 * (days / 7 % 2)
    ensures days % 14 in {0, 7} ==> days % 7 == 0
  {
  }

  // ---------------------------------------------------------------- instances and the window

  /** No instance on the first or the last day starts outside the window. */
  ghost predicate EndsFit(e: EventDef, ws: Civil, we: DateTime)
    requires ValidCivil(ws)
  {
    && (OnCadence(e, ws, At(ws).day) && Le(At(ws), we) ==> ws.micros <= StartMicros(e))
    && (OnCadence(e, ws, we.day) && At(ws).day <= we.day && ws.micros <= we.micros ==> StartMicros(e) <= we.micros)
  }

  /** A start on the last day that the cursor, at the window start's time of day, no longer reaches. */
  ghost predicate LastDayMissed(e: EventDef, ws: Civil, we: DateTime)
    requires ValidCivil(ws)
  {
    At(ws).day < we.day && OnCadence(e, ws, we.day) && StartMicros(e) <= we.micros < ws.micros
  }

  /** Every instance of a stepped cadence starts within the window exactly when those of the first and last day do. */
  lemma StartsWithinWindow(e: EventDef, ws: Civil, we: DateTime)
    requires ValidCivil(ws) && !e.cadence.MonthlyFirstFriday?
    ensures (forall day :: Meant(e, ws, we, day) ==> StartsInside(e, ws, we, day)) <==> EndsFit(e, ws, we)
  {
    hide OnCadence, StartMicros, FirstOfMonth;
    var first, last := At(ws).day, we.day;
    assert Meant(e, ws, we, first) <==> OnCadence(e, ws, first) && Stepped(At(ws), we, first);
    assert Meant(e, ws, we, last) <==> OnCadence(e, ws, last) && Stepped(At(ws), we, last);
  }

  /** And the instances are those of all starts within the window exactly when the cursor also reaches the last day. */
  lemma WindowIsExact(e: EventDef, ws: Civil, we: DateTime)
    requires ValidCivil(ws) && !e.cadence.MonthlyFirstFriday?
    ensures (forall day :: Meant(e, ws, we, day) <==> OnCadence(e, ws, day) && StartsInside(e, ws, we, day))
      <==> EndsFit(e, ws, we) && !LastDayMissed(e, ws, we)
  {
    hide OnCadence, StartMicros, FirstOfMonth;
    var first, last := At(ws).day, we.day;
    assert Meant(e, ws, we, first) <==> OnCadence(e, ws, first) && Stepped(At(ws), we, first);
    assert Meant(e, ws, we, last) <==> OnCadence(e, ws, last) && Stepped(At(ws), we, last);
  }

  // ---------------------------------------------------------------- times of an instance

  /** Microseconds since the start of day 0. */
  function Micros(t: DateTime): int {
    t.day * 86_400_000_000 + t.micros
  }

  /**
   An instance starts on its day at the event's hour and minute, and ends as many minutes later as the event
   lasts.
   */
  lemma InstanceTimes(e: EventDef, day: int)
    ensures On(e, day).start.day == day
    ensures On(e, day).start.micros == e.hour * 3_600_000_000 + e.minute * 60_000_000
    ensures Micros(On(e, day).end) == Micros(On(e, day).start) + e.durationMins * 60_000_000
    ensures 0 <= On(e, day).end.micros < 86_400_000_000
  {
  }
}
