/**
 * Civil time: the Gregorian date of a day number and back, over all integers, and the two-digit-year
 * `UtcDateTime` conversions built on it. The calendar itself (leap rule, month lengths, the day after)
 * is defined independently; the day-number formulas are proved to follow it.
 */
module Calendar {
  import opened Bytes
  import Bits

  // ---- The Gregorian calendar -----------------------------------------------------------

  datatype Date = Date(y: int, m: int, d: int)

  predicate Leap(y: int) { y % 4 == 0 && (y % 100 != 0 || y % 400 == 0) }

  function MonthLength(y: int, m: int): int
    requires 1 <= m <= 12
  {
    if m == 2 then (if Leap(y) then 29 else 28)
    else if m == 4 || m == 6 || m == 9 || m == 11 then 30
    else 31
  }

  predicate ValidDate(t: Date) { 1 <= t.m <= 12 && 1 <= t.d <= MonthLength(t.y, t.m) }

  function Tomorrow(t: Date): (u: Date)
    requires ValidDate(t)
    ensures ValidDate(u)
  {
    if t.d < MonthLength(t.y, t.m) then t.(d := t.d + 1)
    else if t.m < 12 then Date(t.y, t.m + 1, 1)
    else Date(t.y + 1, 1, 1)
  }

  // ---- The day-number formulas ------------------------------------------------------------

  /** Division that truncates toward zero. */
  function Quot(a: int, b: int): int
    requires b > 0
  {
    if a >= 0 then a / b else -((-a) / b)
  }

  function DaysFromCivil(y: int, m: nat, d: nat): int {
    var y := if m <= 2 then y - 1 else y;
    var era := Quot(if y >= 0 then y else y - 399, 400);
    var yoe := y - era * 400;
    var doy := (153 * (if m > 2 then m - 3 else m + 9) + 2) / 5 + d - 1;
    var doe := yoe * 365 + yoe / 4 - yoe / 100 + doy;
    era * 146097 + doe - 719468
  }

  function CivilFromDays(z: int): Date {
    var z := z + 719468;
    var era := Quot(if z >= 0 then z else z - 146096, 146097);
    CivilInEra(era, z - era * 146097)
  }

  function CivilInEra(era: int, doe: int): Date {
    var yoe := (doe - doe / 1460 + doe / 36524 - doe / 146096) / 365;
    CivilInYear(yoe + era * 400, doe - (365 * yoe + yoe / 4 - yoe / 100))
  }

  function CivilInYear(y: int, doy: int): Date {
    var mp := (5 * doy + 2) / 153;
    var d := doy - (153 * mp + 2) / 5 + 1;
    var m := if mp < 10 then mp + 3 else mp - 9;
    Date(if m <= 2 then y + 1 else y, m, d)
  }

  // ---- Years that start in March -------------------------------------------------------------

  /** The adjusted truncating division of both formulas is floor division. */
  lemma FloorQuot(a: int, b: int)
    requires b > 0
    ensures Quot(if a >= 0 then a else a - (b - 1), b) == a / b
  {
    if a < 0 {
      var q, r := a / b, a % b;
      var n := -(a - (b - 1));
      assert n == b * (-q) + (b - 1 - r);
      Bits.DivModUnique(n, b, -q, b - 1 - r);
    }
  }

  /** Days before year `yoe` of an era, counting years from March. */
  function YearStart(yoe: int): int { 365 * yoe + yoe / 4 - yoe / 100 }

  /** Days before month `mp` of such a year, March being 0. */
  function MonthStart(mp: int): int { (153 * mp + 2) / 5 }

  /** The length of month `mp` of March-year `yoe`: February, the last month, takes the leap day. */
  function MarchMonthLength(yoe: int, mp: int): int
    requires 0 <= mp < 12
  {
    MonthLength(if mp < 10 then yoe else yoe + 1, if mp < 10 then mp + 3 else mp - 9)
  }

  lemma MonthStarts(yoe: int, mp: int)
    requires 0 <= mp < 12
    ensures mp < 11 ==> MonthStart(mp + 1) == MonthStart(mp) + MarchMonthLength(yoe, mp)
    ensures mp == 11 ==> MonthStart(mp) + MarchMonthLength(yoe, mp) == 365 + (if Leap(yoe + 1) then 1 else 0)
  {
  }

  /** The month formula inverted: the month that holds a day of the year. */
  lemma MonthOfDay(doy: int, mp: int, d: int)
    requires 0 <= mp < 12 && 1 <= d && doy == MonthStart(mp) + d - 1
    requires if mp < 11 then doy < MonthStart(mp + 1) else doy <= 365
    ensures (5 * doy + 2) / 153 == mp
  {
  }

  lemma YearStarts(yoe: int)
    requires 0 <= yoe < 400
    ensures yoe < 399 ==> YearStart(yoe + 1) == YearStart(yoe) + 365 + (if Leap(yoe + 1) then 1 else 0)
    ensures yoe == 399 ==> YearStart(yoe) + 366 == 146097 && Leap(yoe + 1)
  {
  }

  /** The two century corrections cancel except for the century a day is in. */
  lemma CenturyOfDay(c: int, w: int)
    requires 0 <= c < 4 && 0 <= w && (w < 36524 || (w == 36524 && c == 3))
    ensures var doe := 36524 * c + w; doe / 36524 - doe / 146096 == c
  {
  }

  /** The four-year correction: one day per leap cycle passed. */
  lemma CyclesOfDay(c: int, q: int, r: int, doy: int)
    requires 0 <= c < 4 && 0 <= q < 25 && 0 <= r < 4 && 0 <= doy <= 365
    ensures var t := (36524 * c + 1461 * q + 365 * r + doy) / 1460 - 25 * c - q;
            0 <= t <= 1 && (t == 1 ==> r == 3 && doy > 0) && (r == 3 && doy == 365 ==> t == 1)
  {
    var rest := 24 * c + q + 365 * r + doy;
    assert 36524 * c + 1461 * q + 365 * r + doy == 1460 * (25 * c + q) + rest;
    if rest < 1460 {
      Bits.DivModUnique(1460 * (25 * c + q) + rest, 1460, 25 * c + q, rest);
    } else {
      Bits.DivModUnique(1460 * (25 * c + q) + rest, 1460, 25 * c + q + 1, rest - 1460);
    }
  }

  /** The year formula inverted: the year of the era that holds a day. */
  lemma YearOfDay(yoe: int, doy: int)
    requires 0 <= yoe < 400 && 0 <= doy < 365 + (if Leap(yoe + 1) then 1 else 0)
    ensures var doe := YearStart(yoe) + doy;
            0 <= doe < 146097 && (doe - doe / 1460 + doe / 36524 - doe / 146096) / 365 == yoe
  {
    var c, q, r := yoe / 100, yoe % 100 / 4, yoe % 4;
    assert yoe == 100 * c + 4 * q + r && yoe / 4 == 25 * c + q;
    var doe := YearStart(yoe) + doy;
    assert doe == 36524 * c + 1461 * q + 365 * r + doy;
    assert doy == 365 ==> r == 3 && (q == 24 ==> c == 3);
    CenturyOfDay(c, 1461 * q + 365 * r + doy);
    CyclesOfDay(c, q, r, doy);
    var t := doe / 1460 - 25 * c - q;
    assert doe - doe / 1460 + c == 365 * yoe + (doy - t);
    Bits.DivModUnique(365 * yoe + (doy - t), 365, yoe, doy - t);
  }

  // ---- Inverses -------------------------------------------------------------------------------

  lemma LeapPeriod(y: int, era: int)
    ensures Leap(y + 400 * era) == Leap(y)
  {
    assert (y + 400 * era) % 400 == y % 400 by { Bits.DivModUnique(y + 400 * era, 400, y / 400 + era, y % 400); }
    assert (y + 400 * era) % 100 == y % 100 by { Bits.DivModUnique(y + 400 * era, 100, y / 100 + 4 * era, y % 100); }
    assert (y + 400 * era) % 4 == y % 4 by { Bits.DivModUnique(y + 400 * era, 4, y / 4 + 100 * era, y % 4); }
  }

  /** A date in the formulas' own coordinates: era, March-year of the era, month from March, day of the month. */
  datatype Place = Place(era: int, yoe: int, mp: int, d: int)

  predicate ValidPlace(p: Place) {
    0 <= p.yoe < 400 && 0 <= p.mp < 12 && 1 <= p.d <= MarchMonthLength(p.yoe, p.mp)
  }

  function DateAt(p: Place): Date
    requires 0 <= p.mp < 12
  {
    var y := p.yoe + 400 * p.era;
    Date(if p.mp < 10 then y else y + 1, if p.mp < 10 then p.mp + 3 else p.mp - 9, p.d)
  }

  function PlaceOf(t: Date): Place {
    var y := if t.m <= 2 then t.y - 1 else t.y;
    Place(y / 400, y % 400, if t.m > 2 then t.m - 3 else t.m + 9, t.d)
  }

  function DayAt(p: Place): int { 146097 * p.era + YearStart(p.yoe) + MonthStart(p.mp) + p.d - 1 - 719468 }

  lemma PlaceOfDate(t: Date)
    requires ValidDate(t)
    ensures ValidPlace(PlaceOf(t)) && DateAt(PlaceOf(t)) == t && DaysFromCivil(t.y, t.m, t.d) == DayAt(PlaceOf(t))
  {
    var y := if t.m <= 2 then t.y - 1 else t.y;
    FloorQuot(y, 400);
    LeapPeriod(y % 400 + (if t.m <= 2 then 1 else 0), y / 400);
  }

  lemma DateOfPlace(p: Place)
    requires ValidPlace(p)
    ensures ValidDate(DateAt(p)) && PlaceOf(DateAt(p)) == p
  {
    LeapPeriod(p.yoe + (if p.mp < 10 then 0 else 1), p.era);
    Bits.DivModUnique(p.yoe + 400 * p.era, 400, p.era, p.yoe);
  }

  /** A day of the year, counted from March, stays within its year. */
  lemma {:induction false} WithinYear(yoe: int, mp: int, d: int)
    requires 0 <= mp < 12 && 1 <= d <= MarchMonthLength(yoe, mp)
    ensures 0 <= MonthStart(mp) + d - 1 < 365 + (if Leap(yoe + 1) then 1 else 0)
  {
    MonthStarts(yoe, mp);
  }

  lemma CivilOfEra(era: int, doe: int, z: int)
    requires 0 <= doe < 146097 && z == 146097 * era + doe - 719468
    ensures CivilFromDays(z) == CivilInEra(era, doe)
  {
    var w := z + 719468;
    FloorQuot(w, 146097);
    Bits.DivModUnique(w, 146097, era, doe);
    assert w - w / 146097 * 146097 == doe;
  }

  lemma CivilOfYear(era: int, yoe: int, doy: int, doe: int, y: int)
    requires 0 <= yoe < 400 && 0 <= doy < 365 + (if Leap(yoe + 1) then 1 else 0)
    requires doe == YearStart(yoe) + doy && y == yoe + 400 * era
    ensures CivilInEra(era, doe) == CivilInYear(y, doy) && 0 <= doe < 146097
  {
    YearOfDay(yoe, doy);
  }

  lemma CivilOfMonth(yoe: int, y: int, mp: int, d: int, doy: int)
    requires 0 <= mp < 12 && 1 <= d <= MarchMonthLength(yoe, mp) && doy == MonthStart(mp) + d - 1
    ensures CivilInYear(y, doy) == Date(if mp < 10 then y else y + 1, if mp < 10 then mp + 3 else mp - 9, d)
  {
    MonthStarts(yoe, mp);
    MonthOfDay(doy, mp, d);
  }

  /** The second formula undoes the first in the formulas' own coordinates. */
  lemma CivilOfPlace(p: Place)
    requires ValidPlace(p)
    ensures CivilFromDays(DayAt(p)) == DateAt(p)
  {
    var doy := MonthStart(p.mp) + p.d - 1;
    var doe, y := YearStart(p.yoe) + doy, p.yoe + 400 * p.era;
    WithinYear(p.yoe, p.mp, p.d);
    CivilOfYear(p.era, p.yoe, doy, doe, y);
    CivilOfEra(p.era, doe, DayAt(p));
    CivilOfMonth(p.yoe, y, p.mp, p.d, doy);
  }

  lemma {:induction false} YearExists(doe: int, yoe: int) returns (y: int)
    requires 0 <= yoe < 400 && YearStart(yoe) <= doe < 146097
    ensures yoe <= y < 400 && YearStart(y) <= doe < YearStart(y) + 365 + (if Leap(y + 1) then 1 else 0)
    decreases 400 - yoe
  {
    YearStarts(yoe);
    if doe < YearStart(yoe) + 365 + (if Leap(yoe + 1) then 1 else 0) { return yoe; }
    y := YearExists(doe, yoe + 1);
  }

  lemma {:induction false} MonthExists(yoe: int, doy: int, mp: int) returns (m: int)
    requires 0 <= mp < 12 && MonthStart(mp) <= doy < 365 + (if Leap(yoe + 1) then 1 else 0)
    ensures mp <= m < 12 && MonthStart(m) <= doy < MonthStart(m) + MarchMonthLength(yoe, m)
    decreases 12 - mp
  {
    MonthStarts(yoe, mp);
    if doy < MonthStart(mp) + MarchMonthLength(yoe, mp) { return mp; }
    m := MonthExists(yoe, doy, mp + 1);
  }

  lemma PlaceExists(z: int) returns (p: Place)
    ensures ValidPlace(p) && DayAt(p) == z
  {
    var era, doe := (z + 719468) / 146097, (z + 719468) % 146097;
    var yoe := YearExists(doe, 0);
    var doy := doe - YearStart(yoe);
    var mp := MonthExists(yoe, doy, 0);
    p := Place(era, yoe, mp, doy - MonthStart(mp) + 1);
  }

  /** Every valid date of every integer year comes back from its day number. */
  lemma DateRoundTrip(t: Date)
    requires ValidDate(t)
    ensures CivilFromDays(DaysFromCivil(t.y, t.m, t.d)) == t
  {
    PlaceOfDate(t);
    CivilOfPlace(PlaceOf(t));
  }

  /** Distinct dates have distinct day numbers. */
  lemma DistinctDays(t: Date, u: Date)
    requires ValidDate(t) && ValidDate(u)
    ensures DaysFromCivil(t.y, t.m, t.d) == DaysFromCivil(u.y, u.m, u.d) <==> t == u
  {
    DateRoundTrip(t);
    DateRoundTrip(u);
  }

  /** Every integer is the day number of the valid date it is turned into. */
  lemma DayRoundTrip(z: int)
    ensures var t := CivilFromDays(z); ValidDate(t) && DaysFromCivil(t.y, t.m, t.d) == z
  {
    var p := PlaceExists(z);
    CivilOfPlace(p);
    DateOfPlace(p);
    PlaceOfDate(DateAt(p));
  }

  function NextPlace(p: Place): Place
    requires 0 <= p.mp < 12
  {
    if p.d < MarchMonthLength(p.yoe, p.mp) then p.(d := p.d + 1)
    else if p.mp < 11 then p.(mp := p.mp + 1, d := 1)
    else if p.yoe < 399 then Place(p.era, p.yoe + 1, 0, 1)
    else Place(p.era + 1, 0, 0, 1)
  }

  lemma NextDate(p: Place)
    requires ValidPlace(p)
    ensures ValidPlace(NextPlace(p)) && ValidDate(DateAt(p)) && DateAt(NextPlace(p)) == Tomorrow(DateAt(p))
  {
    LeapPeriod(p.yoe + (if p.mp < 10 then 0 else 1), p.era);
  }

  lemma NextDay(p: Place)
    requires ValidPlace(p)
    ensures DayAt(NextPlace(p)) == DayAt(p) + 1
  {
    MonthStarts(p.yoe, p.mp);
    YearStarts(p.yoe);
  }

  /** The day numbers count days: one more for the next day, zero on 1 January 1970. */
  lemma CountsDays(t: Date)
    requires ValidDate(t)
    ensures var u := Tomorrow(t); DaysFromCivil(u.y, u.m, u.d) == DaysFromCivil(t.y, t.m, t.d) + 1
    ensures DaysFromCivil(1970, 1, 1) == 0
  {
    var p := PlaceOf(t);
    PlaceOfDate(t);
    PlaceOfDate(Tomorrow(t));
    NextDate(p);
    NextDay(p);
    DateOfPlace(NextPlace(p));
  }

  // ---- Year boundaries --------------------------------------------------------------------------

  /** The day number of 1 January. */
  function NewYear(y: int): int { MarchBase(y - 1) + 306 - 719468 }

  /** Days before 1 March of year `y`, from 1 March of year 0. */
  function MarchBase(y: int): int { 146097 * (y / 400) + YearStart(y % 400) }

  lemma MarchBaseStep(y: int)
    ensures MarchBase(y + 1) == MarchBase(y) + 365 + (if Leap(y + 1) then 1 else 0)
  {
    var era, yoe := y / 400, y % 400;
    YearStarts(yoe);
    LeapPeriod(yoe + 1, era);
    if yoe < 399 {
      Bits.DivModUnique(y + 1, 400, era, yoe + 1);
    } else {
      Bits.DivModUnique(y + 1, 400, era + 1, 0);
    }
  }

  lemma DayFromMarch(t: Date)
    requires ValidDate(t)
    ensures var y, mp := if t.m <= 2 then t.y - 1 else t.y, if t.m > 2 then t.m - 3 else t.m + 9;
            DaysFromCivil(t.y, t.m, t.d) == MarchBase(y) + MonthStart(mp) + t.d - 1 - 719468
  {
    PlaceOfDate(t);
  }

  /** A date lies between the first days of its year and of the next. */
  lemma WithinCivilYear(t: Date)
    requires ValidDate(t)
    ensures NewYear(t.y) <= DaysFromCivil(t.y, t.m, t.d) < NewYear(t.y + 1)
  {
    var mp := if t.m > 2 then t.m - 3 else t.m + 9;
    DayFromMarch(t);
    MarchBaseStep(t.y - 1);
    MonthBounds(t.y, t.m, t.d, mp);
  }

  lemma MonthBounds(y: int, m: int, d: int, mp: int)
    requires 1 <= m <= 12 && 1 <= d <= MonthLength(y, m) && mp == if m > 2 then m - 3 else m + 9
    ensures m > 2 ==> 0 <= MonthStart(mp) + d - 1 < 306
    ensures m <= 2 ==> 306 <= MonthStart(mp) + d - 1 < 365 + (if Leap(y) then 1 else 0)
  {
  }

  lemma {:induction false} NewYearsAscend(a: int, b: int)
    requires a <= b
    ensures NewYear(a) <= NewYear(b)
    decreases b - a
  {
    if a >= b {
    } else {
      MarchBaseStep(b - 2);
      NewYearsAscend(a, b - 1);
    }
  }

  lemma YearFrom(t: Date, y: int)
    requires ValidDate(t)
    ensures t.y >= y <==> DaysFromCivil(t.y, t.m, t.d) >= NewYear(y)
  {
    WithinCivilYear(t);
    if t.y >= y { NewYearsAscend(y, t.y); } else { NewYearsAscend(t.y + 1, y); }
  }

  // ---- Two-digit years ----------------------------------------------------------------------------

  datatype Utc = Utc(second: byte, minute: byte, hour: byte, day: byte, month: byte, year: byte)

  /** 2000-01-01 and 2070-01-01, in seconds since 1970-01-01. */
  const Y2000 := 946_684_800
  const Y2070 := 3_155_760_000

  /** A date and the seconds of its day as a date-time, when two digits are taken to hold the year. */
  function Pack(t: Date, rem: int): (r: Option<Utc>)
    requires ValidDate(t) && 0 <= rem < 86400
  {
    if 1970 <= t.y <= 2069 then Some(Utc(rem % 60, rem / 60 % 60, rem / 3600, t.d, t.m, t.y % 100)) else None
  }

  function UnixToUtc(secs: int): (r: Option<Utc>) {
    var days := secs / 86400;
    DayRoundTrip(days);
    Pack(CivilFromDays(days), secs % 86400)
  }

  function SecondsOf(days: int, dt: Utc): int {
    days * 86400 + dt.hour as int * 3600 + dt.minute as int * 60 + dt.second
  }

  function UtcToUnix(dt: Utc): int { SecondsOf(DaysFromCivil(2000 + dt.year, dt.month, dt.day), dt) }

  /** Year, month and day come back from the conversion to a day number. */
  predicate Survives(t: Date)
    requires t.m >= 0 && t.d >= 0
  {
    CivilFromDays(DaysFromCivil(t.y, t.m, t.d)) == t
  }

  predicate IsValidDateTime(dt: Utc) {
    && 1 <= dt.month <= 12
    && 1 <= dt.day <= 31
    && dt.hour <= 23 && dt.minute <= 59 && dt.second <= 60
    && Survives(Date(2000 + dt.year, dt.month, dt.day))
  }

  /** They do exactly when they are a date. */
  lemma SurvivesIffValid(t: Date)
    requires t.m >= 0 && t.d >= 0
    ensures Survives(t) <==> ValidDate(t)
  {
    DayRoundTrip(DaysFromCivil(t.y, t.m, t.d));
    if ValidDate(t) { DateRoundTrip(t); }
  }

  /** The round-trip check accepts exactly the dates of the Gregorian calendar (and a second 60). */
  lemma AcceptsCalendar(dt: Utc)
    ensures IsValidDateTime(dt) <==>
            ValidDate(Date(2000 + dt.year, dt.month, dt.day)) && dt.hour <= 23 && dt.minute <= 59 && dt.second <= 60
  {
    SurvivesIffValid(Date(2000 + dt.year, dt.month, dt.day));
  }

  lemma Epochs()
    ensures NewYear(1970) == 0 && NewYear(2000) == 10957 && NewYear(2070) == 36525
  {
  }

  lemma YearOfTime(secs: int, y: int)
    ensures CivilFromDays(secs / 86400).y >= y <==> secs / 86400 >= NewYear(y)
  {
    DayRoundTrip(secs / 86400);
    YearFrom(CivilFromDays(secs / 86400), y);
  }

  /** A time is representable exactly from 1970 through 2069. */
  lemma UtcRange(secs: int)
    ensures UnixToUtc(secs).Some? <==> 0 <= secs < Y2070
  {
    YearOfTime(secs, 1970);
    YearOfTime(secs, 2070);
    Epochs();
  }

  lemma PackSeconds(t: Date, secs: int, days: int)
    requires ValidDate(t) && 1970 <= t.y <= 2069
    ensures SecondsOf(days, Pack(t, secs % 86400).value) == secs <==> days == secs / 86400
  {
    var rem := secs % 86400;
    assert rem / 3600 * 3600 + rem / 60 % 60 * 60 + rem % 60 == rem;
  }

  /** Two digits, read as a year after 2000, name the year itself exactly from 2000 on. */
  lemma TwoDigits(t: Date)
    requires ValidDate(t) && 1970 <= t.y <= 2069
    ensures var u := Date(2000 + t.y % 100, t.m, t.d); ValidDate(u) && (u == t <==> t.y >= 2000)
  {
  }

  /** A representable time survives the conversion exactly from 2000 on: before, two digits name a later century. */
  lemma UtcRoundTrip(secs: int)
    requires 0 <= secs < Y2070
    ensures UnixToUtc(secs).Some? && (UtcToUnix(UnixToUtc(secs).value) == secs <==> secs >= Y2000)
  {
    UtcRange(secs);
    YearOfTime(secs, 2000);
    Epochs();
    var days := secs / 86400;
    DayRoundTrip(days);
    PackedDay(CivilFromDays(days), secs, days);
  }

  lemma PackedDay(t: Date, secs: int, days: int)
    requires ValidDate(t) && 1970 <= t.y <= 2069 && days == secs / 86400 && DaysFromCivil(t.y, t.m, t.d) == days
    ensures UtcToUnix(Pack(t, secs % 86400).value) == secs <==> t.y >= 2000
  {
    var u := Date(2000 + t.y % 100, t.m, t.d);
    TwoDigits(t);
    DistinctDays(t, u);
    PackSeconds(t, secs, DaysFromCivil(u.y, u.m, u.d));
  }

  lemma TimeOfDay(days: int, dt: Utc)
    requires dt.hour <= 23 && dt.minute <= 59 && dt.second <= 59
    ensures var secs := SecondsOf(days, dt);
            secs / 86400 == days && secs % 86400 % 60 == dt.second && secs % 86400 / 60 % 60 == dt.minute &&
            secs % 86400 / 3600 == dt.hour
  {
    Bits.DivModUnique(SecondsOf(days, dt), 86400, days, dt.hour as int * 3600 + dt.minute as int * 60 + dt.second);
  }

  lemma PackTime(t: Date, days: int, dt: Utc)
    requires ValidDate(t) && t == Date(2000 + dt.year, dt.month, dt.day)
    requires dt.hour <= 23 && dt.minute <= 59 && dt.second <= 59
    ensures Pack(t, SecondsOf(days, dt) % 86400) == Some(dt) <==> dt.year < 70
  {
    TimeOfDay(days, dt);
  }

  /** An accepted date-time survives the other way round exactly when it is before 2070 and has no second 60. */
  lemma DateTimeRoundTrip(dt: Utc)
    requires IsValidDateTime(dt)
    ensures UnixToUtc(UtcToUnix(dt)) == Some(dt) <==> dt.year < 70 && dt.second < 60
  {
    AcceptsCalendar(dt);
    var t := Date(2000 + dt.year, dt.month, dt.day);
    var days := DaysFromCivil(t.y, dt.month, dt.day);
    var secs := SecondsOf(days, dt);
    assert UtcToUnix(dt) == secs;
    if dt.second < 60 {
      TimeOfDay(days, dt);
      DateRoundTrip(t);
      PackTime(t, days, dt);
    } else {
      DayRoundTrip(secs / 86400);
      NoSecondSixty(CivilFromDays(secs / 86400), secs % 86400);
    }
  }

  lemma NoSecondSixty(t: Date, rem: int)
    requires ValidDate(t) && 0 <= rem < 86400
    ensures Pack(t, rem).Some? ==> Pack(t, rem).value.second < 60
  {
  }
}
