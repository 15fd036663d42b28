/**
 The build stamp's date arithmetic: a closed form from a day number to a Gregorian date.

 The closed form is compared with a calendar that only knows month lengths, leap years and how
 to step to the next day. The day number ranges over all integers, before and after the epoch.
 */
module CivilDate {
  import opened Base
  import opened Decimal

  datatype Date = Date(year: int, month: int, day: int)

  // ---- The closed form --------------------------------------------------------

  /** Division rounding towards zero, as the program's signed division does. */
  function TruncDiv(a: int, b: int): int
    requires b > 0
  {
    if a >= 0 then a / b else -((-a) / b)
  }

  function Era(z: int): int { TruncDiv(if z >= 0 then z else z - 146096, 146097) }

  function YearOfEra(doe: nat): int { (doe - doe / 1460 + doe / 36524 - doe / 146096) / 365 }

  function MonthIndex(doy: int): int { (5 * doy + 2) / 153 }

  function FromDays(days: int): Date {
    var z := days + 719468;
    var era := Era(z);
    var doe := z - era * 146097;
    EraIsFloor(z);
    var yoe := YearOfEra(doe);
    var y := yoe + era * 400;
    var doy := doe - (365 * yoe + yoe / 4 - yoe / 100);
    var mp := MonthIndex(doy);
    var d := doy - (153 * mp + 2) / 5 + 1;
    var m := if mp < 10 then mp + 3 else mp - 9;
    Date(if m <= 2 then y + 1 else y, m, d)
  }

  // ---- The reference calendar -------------------------------------------------

  predicate Leap(y: int) { y % 4 == 0 && (y % 100 != 0 || y % 400 == 0) }

  function DaysInMonth(y: int, m: int): int {
    if m == 2 then (if Leap(y) then 29 else 28)
    else if m == 4 || m == 6 || m == 9 || m == 11 then 30
    else 31
  }

  predicate Valid(d: Date) { 1 <= d.month <= 12 && 1 <= d.day <= DaysInMonth(d.year, d.month) }

  function NextDay(d: Date): Date {
    if d.day < DaysInMonth(d.year, d.month) then d.(day := d.day + 1)
    else if d.month < 12 then Date(d.year, d.month + 1, 1)
    else Date(d.year + 1, 1, 1)
  }

  const EPOCH := Date(1970, 1, 1)

  /** `n` steps from the epoch. */
  function Stepped(n: nat): Date { if n == 0 then EPOCH else NextDay(Stepped(n - 1)) }

  // ---- From day number to year and day of year --------------------------------

  lemma EraIsFloor(z: int)
    ensures Era(z) == z / 146097
    ensures 0 <= z - Era(z) * 146097 < 146097
  {
  }

  /** Days in an era before March 1 of its year `y`. */
  function YearStart(y: int): int { 365 * y + y / 4 - y / 100 }

  /** Days in an era before March 1 of its year `y + 1`; the 400th year has the quadricentennial day. */
  function YearEnd(y: int): int { if y == 399 then 146097 else YearStart(y + 1) }

  /** Inside a century: four-year block `j`, day `s` of the block, year `i` of the block. */
  lemma QuotientInCentury(b: nat, j: nat, s: nat, i: nat)
    requires b < 4 && j < 25 && s < 1461 && 36524 * b + 1461 * j + s < 36524 * (b + 1)
    requires i == if s == 1460 then 3 else s / 365
    ensures YearOfEra(36524 * b + 1461 * j + s) == 100 * b + 4 * j + i
  {
    var doe := 36524 * b + 1461 * j + s;
    var f := if j + s + 24 * b >= 1460 then 1 else 0;
    assert doe == 1460 * (25 * b + j + f) + (j + s + 24 * b - 1460 * f);
    assert doe / 1460 == 25 * b + j + f;
    assert doe / 36524 == b && doe / 146096 == 0;
    assert doe - doe / 1460 + doe / 36524 - doe / 146096 == 365 * (100 * b + 4 * j + i) + (s - f - 365 * i);
  }

  lemma YearOfEraInCentury(doe: nat, b: nat)
    requires b < 4 && 36524 * b <= doe < 36524 * (b + 1)
    ensures 100 * b <= YearOfEra(doe) < 100 * (b + 1)
    ensures YearStart(YearOfEra(doe)) <= doe < YearEnd(YearOfEra(doe))
  {
    hide YearOfEra;
    var r := doe - 36524 * b;
    var j, s := r / 1461, r % 1461;
    var i := if s == 1460 then 3 else s / 365;
    QuotientInCentury(b, j, s, i);
    var y := 100 * b + 4 * j + i;
    assert y / 4 == 25 * b + j && y / 100 == b;
    assert (y + 1) / 4 == 25 * b + j + (if i == 3 then 1 else 0);
    assert (y + 1) / 100 == b + (if 4 * j + i == 99 then 1 else 0);
  }

  lemma YearOfEraBounds(doe: nat)
    requires doe < 146097
    ensures 0 <= YearOfEra(doe) < 400
    ensures YearStart(YearOfEra(doe)) <= doe < YearEnd(YearOfEra(doe))
  {
    if doe == 146096 {
      assert YearOfEra(doe) == 399;
    } else {
      YearOfEraInCentury(doe, doe / 36524);
    }
  }

  lemma Shift4(y: int, k: int)
    ensures (y + 4 * k) % 4 == y % 4
  {
  }

  lemma Shift100(y: int, k: int)
    ensures (y + 100 * k) % 100 == y % 100
  {
  }

  lemma Shift400(y: int, k: int)
    ensures (y + 400 * k) % 400 == y % 400
  {
  }

  lemma LeapPeriodic(y: int, era: int)
    ensures Leap(y + era * 400) == Leap(y)
  {
    Shift4(y, 100 * era);
    Shift100(y, 4 * era);
    Shift400(y, era);
  }

  lemma CenturyYearLength(b: nat, k: nat)
    requires b < 4 && k < 100
    ensures YearEnd(100 * b + k) - YearStart(100 * b + k) == if Leap(100 * b + k + 1) then 366 else 365
  {
    var y := 100 * b + k;
    assert y / 100 == b && (y + 1) / 100 == b + (if k == 99 then 1 else 0);
    assert (y + 1) % 100 == if k == 99 then 0 else k + 1;
  }

  /** A March-based year of an era is as long as the leap rule for the following February says. */
  lemma YearLength(y: int, era: int)
    requires 0 <= y < 400
    ensures YearEnd(y) - YearStart(y) == if Leap(y + era * 400 + 1) then 366 else 365
  {
    LeapPeriodic(y + 1, era);
    CenturyYearLength(y / 100, y % 100);
  }

  // ---- From day of year to month and day --------------------------------------

  /** Days of a March-based year before its month `mp`. */
  function MonthStart(mp: int): int { (153 * mp + 2) / 5 }

  lemma MonthIndexBounds(doy: int)
    requires 0 <= doy < 366
    ensures 0 <= MonthIndex(doy) < 12
    ensures MonthStart(MonthIndex(doy)) <= doy < MonthStart(MonthIndex(doy) + 1)
  {
  }

  lemma MonthIndexIs(doy: int, mp: int)
    requires 0 <= mp < 12 && MonthStart(mp) <= doy < MonthStart(mp + 1)
    ensures MonthIndex(doy) == mp
  {
  }

  /** The calendar month of March-based month `mp`. */
  function MonthOf(mp: int): int { if mp < 10 then mp + 3 else mp - 9 }

  /** March-based months but the last are as long as their calendar months; February takes the rest. */
  lemma MonthSpans(y: int, mp: int)
    requires 0 <= mp < 12
    ensures mp < 11 ==> DaysInMonth(y, MonthOf(mp)) == DaysInMonth(y + 1, MonthOf(mp)) == MonthStart(mp + 1) - MonthStart(mp)
    ensures mp == 11 ==> DaysInMonth(y + 1, MonthOf(mp)) == LengthFrom(y) - MonthStart(mp)
    ensures LengthFrom(y) <= MonthStart(12)
  {
    MonthLengths();
  }

  lemma MonthLengths()
    ensures MonthStart(0) == 0 && MonthStart(1) == 31 && MonthStart(2) == 61 && MonthStart(3) == 92
    ensures MonthStart(4) == 122 && MonthStart(5) == 153 && MonthStart(6) == 184 && MonthStart(7) == 214
    ensures MonthStart(8) == 245 && MonthStart(9) == 275 && MonthStart(10) == 306 && MonthStart(11) == 337
  {
  }

  /** The date at day `doy` of the March-based year `y`. */
  function DateOf(y: int, doy: int): Date {
    var mp := MonthIndex(doy);
    var m := MonthOf(mp);
    Date(if m <= 2 then y + 1 else y, m, doy - MonthStart(mp) + 1)
  }

  function LengthFrom(y: int): int { if Leap(y + 1) then 366 else 365 }

  lemma DateOfValid(y: int, doy: int)
    requires 0 <= doy < LengthFrom(y)
    ensures Valid(DateOf(y, doy))
  {
    MonthIndexBounds(doy);
    MonthLengths();
  }

  /** Stepping inside a March-based year, and over its end. */
  lemma DateOfStep(y: int, doy: int)
    requires 0 <= doy < LengthFrom(y)
    ensures NextDay(DateOf(y, doy)) == if doy + 1 < LengthFrom(y) then DateOf(y, doy + 1) else DateOf(y + 1, 0)
  {
    hide MonthIndex, MonthStart, DaysInMonth, LengthFrom;
    var mp := MonthIndex(doy);
    DayOfYearBounds(y, doy);
    MonthSpans(y, mp);
    if mp < 11 {
      MonthGrows(y, mp + 1);
      if doy + 1 < MonthStart(mp + 1) { MonthIndexIs(doy + 1, mp); } else { MonthIndexIs(doy + 1, mp + 1); }
    } else if doy + 1 < LengthFrom(y) {
      MonthIndexIs(doy + 1, mp);
    } else {
      FirstOfMarch();
    }
  }

  lemma DayOfYearBounds(y: int, doy: int)
    requires 0 <= doy < LengthFrom(y)
    ensures 0 <= MonthIndex(doy) < 12
    ensures MonthStart(MonthIndex(doy)) <= doy < MonthStart(MonthIndex(doy) + 1)
  {
    MonthIndexBounds(doy);
  }

  lemma FirstOfMarch()
    ensures MonthIndex(0) == 0 && MonthStart(0) == 0
  {
  }

  lemma MonthGrows(y: int, mp: int)
    requires 0 <= mp <= 11
    ensures MonthStart(mp) < MonthStart(mp + 1) && MonthStart(mp) < LengthFrom(y)
  {
  }

  // ---- Every day number -------------------------------------------------------

  /** The day `doe` of era `era`. */
  function DateAt(era: int, doe: nat): Date {
    DateOf(YearOfEra(doe) + era * 400, doe - YearStart(YearOfEra(doe)))
  }

  lemma EraAt(z: int, era: int, doe: nat)
    requires z == era * 146097 + doe && doe < 146097
    ensures Era(z) == era
  {
    EraIsFloor(z);
  }

  lemma FromDaysAt(days: int, era: int, doe: nat)
    requires days + 719468 == era * 146097 + doe && doe < 146097
    ensures FromDays(days) == DateAt(era, doe)
  {
    hide Era, YearOfEra, MonthIndex;
    EraAt(days + 719468, era, doe);
  }

  lemma LengthIs(era: int, doe: nat)
    requires doe < 146097
    ensures LengthFrom(YearOfEra(doe) + era * 400) == YearEnd(YearOfEra(doe)) - YearStart(YearOfEra(doe))
    ensures 0 <= doe - YearStart(YearOfEra(doe)) < LengthFrom(YearOfEra(doe) + era * 400)
  {
    YearOfEraBounds(doe);
    YearLength(YearOfEra(doe), era);
  }

  /** The closed form always yields a Gregorian date. */
  lemma AlwaysValid(days: int)
    ensures Valid(FromDays(days))
  {
    hide DateOf, Valid, FromDays, LengthFrom, YearOfEra, YearStart;
    var z := days + 719468;
    var era, doe := z / 146097, z % 146097;
    FromDaysAt(days, era, doe);
    LengthIs(era, doe);
    DateOfValid(YearOfEra(doe) + era * 400, doe - YearStart(YearOfEra(doe)));
  }

  lemma YearStartMonotone(y: int, y': int)
    requires 0 <= y < y' < 400
    ensures YearEnd(y) <= YearStart(y')
  {
    var c, d := (y + 1) / 100, y' / 100;
    assert c <= d && 100 * d - 100 * c < y' - y + 99;
  }

  /** The year is the only one whose span holds the day. */
  lemma YearUnique(doe: nat, y: int)
    requires doe < 146097 && 0 <= y < 400 && YearStart(y) <= doe < YearEnd(y)
    ensures YearOfEra(doe) == y
  {
    YearOfEraBounds(doe);
    if YearOfEra(doe) < y { YearStartMonotone(YearOfEra(doe), y); }
    if y < YearOfEra(doe) { YearStartMonotone(y, YearOfEra(doe)); }
  }

  lemma YearOfNextDay(doe: nat)
    requires doe < 146096
    ensures YearOfEra(doe + 1) == YearOfEra(doe) + (if doe + 1 < YearEnd(YearOfEra(doe)) then 0 else 1)
    ensures doe + 1 >= YearEnd(YearOfEra(doe)) ==> doe + 1 == YearStart(YearOfEra(doe) + 1)
  {
    YearOfEraBounds(doe);
    var y := YearOfEra(doe);
    if doe + 1 < YearEnd(y) {
      YearUnique(doe + 1, y);
    } else {
      YearLength(y + 1, 0);
      YearUnique(doe + 1, y + 1);
    }
  }

  lemma StepInEra(era: int, doe: nat)
    requires doe < 146096
    ensures DateAt(era, doe + 1) == NextDay(DateAt(era, doe))
  {
    hide DateOf, NextDay, LengthFrom, YearOfEra, YearStart, YearEnd;
    LengthIs(era, doe);
    YearOfNextDay(doe);
    DateOfStep(YearOfEra(doe) + era * 400, doe - YearStart(YearOfEra(doe)));
  }

  lemma StepOverEra(era: int)
    ensures DateAt(era + 1, 0) == NextDay(DateAt(era, 146096))
  {
    hide DateOf, NextDay, LengthFrom, YearOfEra;
    YearUnique(146096, 399);
    YearUnique(0, 0);
    LengthIs(era, 146096);
    DateOfStep(399 + era * 400, 146096 - YearStart(399));
  }

  /** For every day number, the closed form of the next day is the calendar's next day. */
  lemma SuccessorDay(days: int)
    ensures FromDays(days + 1) == NextDay(FromDays(days))
  {
    hide *;
    var z := days + 719468;
    var era, doe := z / 146097, z % 146097;
    FromDaysAt(days, era, doe);
    if doe < 146096 {
      FromDaysAt(days + 1, era, doe + 1);
      StepInEra(era, doe);
    } else {
      FromDaysAt(days + 1, era + 1, 0);
      StepOverEra(era);
    }
  }

  lemma EpochDay()
    ensures FromDays(0) == EPOCH
  {
    assert Era(719468) == 4 && YearOfEra(135080) == 369 && MonthIndex(306) == 10;
  }

  lemma {:induction false} StepsAgree(f: int -> Date, n: nat)
    requires f(0) == EPOCH && forall k: nat :: f(k + 1) == NextDay(f(k))
    ensures f(n) == Stepped(n)
  {
    if n > 0 {
      StepsAgree(f, n - 1);
      assert f(n - 1 + 1) == NextDay(f(n - 1));
    }
  }

  /** The closed form is the calendar stepped day by day from 1970-01-01. */
  lemma ClosedFormIsCalendar(n: nat)
    ensures FromDays(n) == Stepped(n)
  {
    hide FromDays, NextDay;
    EpochDay();
    forall k: nat ensures FromDays(k + 1) == NextDay(FromDays(k)) {
      SuccessorDay(k);
    }
    StepsAgree(FromDays, n);
  }

  // ---- Order and the printed stamp --------------------------------------------

  /** Year, then month, then day. */
  predicate Before(d: Date, e: Date) {
    d.year < e.year || (d.year == e.year && (d.month < e.month || (d.month == e.month && d.day < e.day)))
  }

  lemma NextDayIsLater(d: Date)
    requires Valid(d)
    ensures Before(d, NextDay(d))
  {
  }

  lemma BeforeTransitive(c: Date, d: Date, e: Date)
    requires Before(c, d) && Before(d, e)
    ensures Before(c, e) && !Before(e, c) && c != e
  {
  }

  lemma {:induction false} DatesAdvance(m: int, n: int)
    requires m < n
    ensures Before(FromDays(m), FromDays(n))
    decreases n - m
  {
    hide FromDays, NextDay, Valid, Before;
    AlwaysValid(n - 1);
    SuccessorDay(n - 1);
    NextDayIsLater(FromDays(n - 1));
    if m < n - 1 {
      DatesAdvance(m, n - 1);
      BeforeTransitive(FromDays(m), FromDays(n - 1), FromDays(n));
    }
  }

  /** Days and their dates are in the same order, so no two days share a date. */
  lemma LaterDayLaterDate(m: int, n: int)
    ensures m < n <==> Before(FromDays(m), FromDays(n))
    ensures m == n <==> FromDays(m) == FromDays(n)
  {
    hide FromDays;
    if m < n { DatesAdvance(m, n); } else if n < m { DatesAdvance(n, m); }
  }

  lemma YearFromEpoch(n: nat)
    ensures FromDays(n).year >= 1970
  {
    hide FromDays;
    EpochDay();
    AlwaysValid(n);
    if n > 0 { LaterDayLaterDate(0, n); }
  }

  const SECS_PER_DAY := 86400

  function Hour(secs: nat): nat { secs % SECS_PER_DAY / 3600 }

  function Minute(secs: nat): nat { secs % SECS_PER_DAY % 3600 / 60 }

  /** `YYYY-MM-DD HH:MM UTC` of a Unix timestamp. */
  function FormatUtcDate(secs: u64): string {
    var d := FromDays(secs / SECS_PER_DAY);
    YearFromEpoch(secs / SECS_PER_DAY);
    AlwaysValid(secs / SECS_PER_DAY);
    Padded(4, d.year) + "-" + Padded(2, d.month) + "-" + Padded(2, d.day) + " "
    + Padded(2, Hour(secs)) + ":" + Padded(2, Minute(secs)) + " UTC"
  }

  /** Day, hour and minute determine the timestamp up to its second. */
  lemma ClockRecoversMinute(secs: nat)
    ensures Hour(secs) < 24 && Minute(secs) < 60
    ensures secs / 60 == secs / SECS_PER_DAY * 1440 + Hour(secs) * 60 + Minute(secs)
  {
    var days, today := secs / SECS_PER_DAY, secs % SECS_PER_DAY;
    var h, rest := today / 3600, today % 3600;
    assert today == 3600 * h + 60 * (rest / 60) + rest % 60;
    assert secs == 60 * (1440 * days + 60 * h + rest / 60) + rest % 60;
  }

  lemma TwoDigits(n: nat)
    requires n < 100
    ensures |Padded(2, n)| == 2
  {
    if n >= 10 { assert Print(n / 10) == [Digit(n / 10)]; }
  }

  lemma CutAtDash(a: string, r: string, b: string, t: string)
    requires '-' !in a && '-' !in b && a + "-" + r == b + "-" + t
    ensures a == b && r == t
  {
    var s := a + "-" + r;
    assert s[|a|] == '-' && (b + "-" + t)[|b|] == '-';
    assert |a| == |b|;
    assert s[..|a|] == a && s[..|b|] == b && s[|a| + 1..] == r && s[|b| + 1..] == t;
  }

  function Tail(month: nat, day: nat, h: nat, m: nat): string {
    Padded(2, month) + "-" + Padded(2, day) + " " + Padded(2, h) + ":" + Padded(2, m) + " UTC"
  }

  lemma TailDecides(mo: nat, d: nat, h: nat, m: nat, mo': nat, d': nat, h': nat, m': nat)
    requires mo < 100 && d < 100 && h < 100 && m < 100 && mo' < 100 && d' < 100 && h' < 100 && m' < 100
    requires Tail(mo, d, h, m) == Tail(mo', d', h', m')
    ensures mo == mo' && d == d' && h == h' && m == m'
  {
    TailFields(mo, d, h, m);
    TailFields(mo', d', h', m');
    ValuePadded(2, mo);
    ValuePadded(2, mo');
    ValuePadded(2, d);
    ValuePadded(2, d');
    ValuePadded(2, h);
    ValuePadded(2, h');
    ValuePadded(2, m);
    ValuePadded(2, m');
  }

  lemma TailFields(mo: nat, d: nat, h: nat, m: nat)
    requires mo < 100 && d < 100 && h < 100 && m < 100
    ensures |Tail(mo, d, h, m)| == 15
    ensures Tail(mo, d, h, m)[..2] == Padded(2, mo) && Tail(mo, d, h, m)[3..5] == Padded(2, d)
    ensures Tail(mo, d, h, m)[6..8] == Padded(2, h) && Tail(mo, d, h, m)[9..11] == Padded(2, m)
  {
    hide Padded;
    TwoDigits(mo);
    TwoDigits(d);
    TwoDigits(h);
    TwoDigits(m);
  }

  lemma StampParts(secs: u64)
    ensures FromDays(secs / SECS_PER_DAY).year >= 0 && Valid(FromDays(secs / SECS_PER_DAY))
    ensures var d := FromDays(secs / SECS_PER_DAY);
            FormatUtcDate(secs) == Padded(4, d.year) + "-" + Tail(d.month, d.day, Hour(secs), Minute(secs))
    ensures '-' !in Padded(4, FromDays(secs / SECS_PER_DAY).year)
  {
    hide FromDays, Padded;
    YearFromEpoch(secs / SECS_PER_DAY);
    AlwaysValid(secs / SECS_PER_DAY);
  }

  /** The number at a place of the stamp. */
  predicate Reads(s: string, i: int, j: int, n: int) {
    0 <= i <= j <= |s| && AllDigits(s[i..j]) && Value(s[i..j]) == n
  }

  lemma TailReads(mo: nat, d: nat, h: nat, m: nat)
    requires mo < 100 && d < 100 && h < 100 && m < 100
    ensures var t := Tail(mo, d, h, m);
            && |t| == 15 && Reads(t, 0, 2, mo) && Reads(t, 3, 5, d) && Reads(t, 6, 8, h) && Reads(t, 9, 11, m)
            && t[2] == '-' && t[5] == ' ' && t[8] == ':' && t[11..] == " UTC"
  {
    TailFields(mo, d, h, m);
    ValuePadded(2, mo);
    ValuePadded(2, d);
    ValuePadded(2, h);
    ValuePadded(2, m);
    TailMarks(mo, d, h, m);
    hide Padded, Tail, Value;
  }

  lemma TailMarks(mo: nat, d: nat, h: nat, m: nat)
    requires mo < 100 && d < 100 && h < 100 && m < 100
    ensures var t := Tail(mo, d, h, m);
            |t| == 15 && t[2] == '-' && t[5] == ' ' && t[8] == ':' && t[11..] == " UTC"
  {
    hide Padded;
    TwoDigits(mo);
    TwoDigits(d);
    TwoDigits(h);
    TwoDigits(m);
  }

  /**
   Reading a stamp back gives the date of the calendar stepped from 1970-01-01 and the hour and
   minute of the day, in the layout year-month-day hour:minute UTC with no zero before the year.
   */
  lemma StampReads(secs: u64)
    ensures
      var s, d := FormatUtcDate(secs), Stepped(secs / 86400);
      var y := |s| - 16;
      && y >= 4 && Reads(s, 0, y, d.year) && s[0] != '0' && s[y] == '-'
      && Reads(s, y + 1, y + 3, d.month) && s[y + 3] == '-' && Reads(s, y + 4, y + 6, d.day) && s[y + 6] == ' '
      && Reads(s, y + 7, y + 9, secs / 3600 % 24) && s[y + 9] == ':' && Reads(s, y + 10, y + 12, secs / 60 % 60)
      && s[y + 12..] == " UTC"
  {
    StampParts(secs);
    hide FormatUtcDate, FromDays, Stepped, Padded, Tail, Hour, Minute, Value, Reads;
    var n := secs / SECS_PER_DAY;
    var d := FromDays(n);
    ClosedFormIsCalendar(n);
    YearFromEpoch(n);
    YearReads(d.year);
    HourMinute(secs);
    TailReads(d.month, d.day, Hour(secs), Minute(secs));
    StampShift(Padded(4, d.year), Tail(d.month, d.day, Hour(secs), Minute(secs)), d, Hour(secs), Minute(secs));
  }

  lemma YearReads(year: nat)
    requires year >= 1000
    ensures var s := Padded(4, year); |s| >= 4 && s[0] != '0' && Reads(s, 0, |s|, year)
  {
    PrintLeads(year);
    ValuePadded(4, year);
    assert Padded(4, year)[0..|Padded(4, year)|] == Padded(4, year);
  }

  lemma HourMinute(secs: nat)
    ensures Hour(secs) == secs / 3600 % 24 && Minute(secs) == secs / 60 % 60
    ensures Hour(secs) < 24 && Minute(secs) < 60
  {
    ClockRecoversMinute(secs);
    var m := secs / 60;
    assert m == 1440 * (secs / SECS_PER_DAY) + 60 * Hour(secs) + Minute(secs);
    assert m % 60 == Minute(secs);
    assert secs / 3600 == m / 60 == 24 * (secs / SECS_PER_DAY) + Hour(secs);
  }

  lemma StampShift(year: string, t: string, d: Date, h: int, m: int)
    requires |year| >= 4 && Reads(year, 0, |year|, d.year) && |t| == 15
    requires Reads(t, 0, 2, d.month) && Reads(t, 3, 5, d.day) && Reads(t, 6, 8, h) && Reads(t, 9, 11, m)
    requires t[2] == '-' && t[5] == ' ' && t[8] == ':' && t[11..] == " UTC"
    ensures
      var s, y := year + "-" + t, |year|;
      && |s| == y + 16 && Reads(s, 0, y, d.year) && s[0] == year[0] && s[y] == '-'
      && Reads(s, y + 1, y + 3, d.month) && s[y + 3] == '-' && Reads(s, y + 4, y + 6, d.day) && s[y + 6] == ' '
      && Reads(s, y + 7, y + 9, h) && s[y + 9] == ':' && Reads(s, y + 10, y + 12, m)
      && s[y + 12..] == " UTC"
  {
    hide Value, AllDigits;
    var s, y := year + "-" + t, |year|;
    assert s[0..y] == year[0..y];
    assert s[y + 1..y + 3] == t[0..2] && s[y + 4..y + 6] == t[3..5];
    assert s[y + 7..y + 9] == t[6..8] && s[y + 10..y + 12] == t[9..11];
    assert s[y + 12..] == t[11..];
  }

  /** Two timestamps print alike exactly when they lie in the same minute. */
  lemma StampIdentifiesMinute(s: u64, t: u64)
    ensures FormatUtcDate(s) == FormatUtcDate(t) <==> s / 60 == t / 60
  {
    hide FormatUtcDate, FromDays, Padded, Tail, Hour, Minute, Before;
    ClockRecoversMinute(s);
    ClockRecoversMinute(t);
    StampParts(s);
    StampParts(t);
    var m, n := s / SECS_PER_DAY, t / SECS_PER_DAY;
    var d, e := FromDays(m), FromDays(n);
    if FormatUtcDate(s) == FormatUtcDate(t) {
      CutAtDash(Padded(4, d.year), Tail(d.month, d.day, Hour(s), Minute(s)),
                Padded(4, e.year), Tail(e.month, e.day, Hour(t), Minute(t)));
      ValuePadded(4, d.year);
      ValuePadded(4, e.year);
      TailDecides(d.month, d.day, Hour(s), Minute(s), e.month, e.day, Hour(t), Minute(t));
      assert d == e;
      LaterDayLaterDate(m, n);
    }
    if s / 60 == t / 60 { SameMinuteSameFields(s, t); }
  }

  lemma SameMinuteSameFields(s: nat, t: nat)
    requires s / 60 == t / 60
    ensures s / SECS_PER_DAY == t / SECS_PER_DAY && Hour(s) == Hour(t) && Minute(s) == Minute(t)
  {
    ClockRecoversMinute(s);
    ClockRecoversMinute(t);
  }
}
