/** The civil-date arithmetic of the command line tool against the Gregorian calendar. */
module Calendar {
  import opened Bits

  datatype Date = Date(y: int, m: int, d: int)

  // ---------- The calendar ----------

  /** RFC 3339, Appendix C. */
  predicate Leap(y: int) {
    y % 4 == 0 && (y % 100 != 0 || y % 400 == 0)
  }

  /** RFC 3339, section 5.7. */
  function DaysInMonth(y: int, m: int): int {
    if m == 2 then (if Leap(y) then 29 else 28) else if m in {4, 6, 9, 11} then 30 else 31
  }

  predicate IsDate(t: Date) {
    1 <= t.m <= 12 && 1 <= t.d <= DaysInMonth(t.y, t.m)
  }

  /** The next day of the calendar. */
  function NextDay(t: Date): Date {
    if t.d < DaysInMonth(t.y, t.m) then Date(t.y, t.m, t.d + 1)
    else if t.m < 12 then Date(t.y, t.m + 1, 1)
    else Date(t.y + 1, 1, 1)
  }

  predicate Earlier(a: Date, b: Date) {
    a.y < b.y || (a.y == b.y && (a.m < b.m || (a.m == b.m && a.d < b.d)))
  }

  // ---------- The closed forms ----------

  /** The closed form's year of the era. */
  function YoeOf(doe: int): int {
    (doe - doe / 1460 + doe / 36524 - doe / 146096) / 365
  }

  /** Days since 1970-01-01 to a civil date. */
  function CivilFromDays(days: nat): Date {
    var z := days + 719468;
    var era := z / 146097;
    var doe := z - era * 146097;
    var yoe := YoeOf(doe);
    var y := yoe + era * 400;
    var doy := doe - (365 * yoe + yoe / 4 - yoe / 100);
    var mp := (5 * doy + 2) / 153;
    var d := doy - (153 * mp + 2) / 5 + 1;
    var m := if mp < 10 then mp + 3 else mp - 9;
    Date(if m <= 2 then y + 1 else y, m, d)
  }

  /** Sakamoto's weekday formula; Sunday is 0. */
  function Weekday(t: Date): int
    requires 1 <= t.m <= 12
  {
    var table := [0, 3, 2, 5, 0, 3, 5, 1, 4, 6, 2, 4];
    var y := t.y - if t.m < 3 then 1 else 0;
    (y + y / 4 - y / 100 + y / 400 + table[t.m - 1] + t.d) % 7
  }

  /** The inverse: a civil date to days since 1970-01-01. */
  function DaysFromCivil(t: Date): int {
    var y := if t.m <= 2 then t.y - 1 else t.y;
    var era := y / 400;
    var mp := if t.m > 2 then t.m - 3 else t.m + 9;
    era * 146097 + YearStart(y - era * 400) + MonthStart(mp) + t.d - 1 - 719468
  }

  // ---------- Years and months counted from March ----------

  /** Days before year `yoe` of a 400-year era. */
  function YearStart(yoe: int): int {
    365 * yoe + yoe / 4 - yoe / 100
  }

  function YearLength(yoe: int): int {
    if yoe == 399 then 366 else YearStart(yoe + 1) - YearStart(yoe)
  }

  /** Days before month `mp` of a year that begins in March. */
  function MonthStart(mp: int): int {
    (153 * mp + 2) / 5
  }

  /** The two large divisions cancel on the last day of an era. */
  lemma {:induction false} CenturyOfDay(c: int, doe: int)
    requires 0 <= c <= 3 && 36524 * c <= doe && (doe < 36524 * (c + 1) || (c == 3 && doe == 146096))
    ensures doe / 36524 - doe / 146096 == c
  {
  }

  /** The year-of-era formula: century, four-year cycle, year and day of year are recovered exactly. */
  lemma {:induction false} YearOfEra(c: int, q: int, t: int, doy: int)
    requires 0 <= c <= 3 && 0 <= q <= 24 && 0 <= t <= 3 && 0 <= doy <= 364 + (if t == 3 then 1 else 0)
    requires c < 3 && q == 24 && t == 3 ==> doy <= 364
    ensures var doe := 36524 * c + 1461 * q + 365 * t + doy;
            YoeOf(doe) == 100 * c + 4 * q + t
  {
    var doe := 36524 * c + 1461 * q + 365 * t + doy;
    var x := 24 * c + q + 365 * t + doy;
    RemainderShift(x, 1460, 25 * c + q);
    CenturyOfDay(c, doe);
    assert 0 <= doy - x / 1460 <= 364;
  }

  /** The parts of a year number, and the length of the year from March. */
  lemma {:induction false} YearParts(c: int, q: int, t: int)
    requires 0 <= c <= 3 && 0 <= q <= 24 && 0 <= t <= 3
    ensures var yoe := 100 * c + 4 * q + t;
            && 0 <= yoe <= 399 && YearStart(yoe) == 36524 * c + 1461 * q + 365 * t
            && YearLength(yoe) == if t == 3 && (q < 24 || c == 3) then 366 else 365
  {
  }

  lemma {:induction false} LeapByEra(era: int, x: int)
    ensures Leap(era * 400 + x) <==> Leap(x)
  {
    RemainderShift(x, 4, 100 * era);
    RemainderShift(x, 100, 4 * era);
    RemainderShift(x, 400, era);
  }

  lemma {:induction false} RemainderShift(x: int, d: int, k: int)
    requires d > 0
    ensures (x + k * d) % d == x % d && (x + k * d) / d == x / d + k
  {
    DivModUnique(x + k * d, d, x / d + k, x % d);
  }

  /** The February that ends a March-based year is that of the next calendar year. */
  lemma {:induction false} LeapIsNextYear(era: int, yoe: int)
    requires 0 <= yoe <= 399
    ensures YearLength(yoe) == if Leap(era * 400 + yoe + 1) then 366 else 365
  {
    LeapByEra(era, yoe + 1);
    LeapInFirstEra(yoe);
    hide Leap, YearLength;
  }

  lemma {:induction false} LeapInFirstEra(yoe: int)
    requires 0 <= yoe <= 399
    ensures YearLength(yoe) == if Leap(yoe + 1) then 366 else 365
  {
  }

  /** Every day of an era lies in exactly one year of it, the one the closed form names. */
  lemma {:induction false} DayOfEra(doe: int)
    requires 0 <= doe <= 146096
    ensures var yoe := YoeOf(doe);
            0 <= yoe <= 399 && 0 <= doe - YearStart(yoe) < YearLength(yoe)
  {
    var c := if doe / 36524 == 4 then 3 else doe / 36524;
    var r := doe - 36524 * c;
    var q := if r / 1461 == 25 then 24 else r / 1461;
    var s := r - 1461 * q;
    var t := if s / 365 == 4 then 3 else s / 365;
    YearOfEra(c, q, t, s - 365 * t);
    YearParts(c, q, t);
    hide YearStart, YearLength;
  }

  lemma {:induction false} YearOfDay(yoe: int, doy: int)
    requires 0 <= yoe <= 399 && 0 <= doy < YearLength(yoe)
    ensures var doe := YearStart(yoe) + doy;
            0 <= doe <= 146096 && YoeOf(doe) == yoe
  {
    var c, q, t := yoe / 100, yoe % 100 / 4, yoe % 4;
    assert yoe == 100 * c + 4 * q + t;
    YearParts(c, q, t);
    hide YearStart, YearLength;
    YearOfEra(c, q, t, doy);
  }

  /** A day of the year lies in the month the closed form names, and the months have the calendar's lengths. */
  lemma {:induction false} MonthOfDay(doy: int)
    requires 0 <= doy <= 365
    ensures var mp := (5 * doy + 2) / 153; 0 <= mp <= 11 && MonthStart(mp) <= doy < MonthStart(mp + 1)
  {
  }

  lemma {:induction false} MonthLengths(mp: int, y: int)
    requires 0 <= mp <= 10
    ensures MonthStart(mp + 1) - MonthStart(mp) == DaysInMonth(y, if mp < 10 then mp + 3 else mp - 9)
    ensures MonthStart(11) == 337 && MonthStart(0) == 0
  {
  }

  // ---------- The closed form and its inverse ----------

  lemma {:induction false} CivilByParts(days: nat, era: int, doe: int, yoe: int)
    requires era == (days + 719468) / 146097 && doe == days + 719468 - era * 146097
    requires yoe == YoeOf(doe)
    ensures CivilFromDays(days) == CivilOf(era, yoe, doe - YearStart(yoe))
  {
    hide YoeOf;
  }

  /** A day number split into era, year of era, day of year. */
  lemma {:induction false} Split(days: nat) returns (era: int, yoe: int, doy: int)
    ensures 0 <= yoe <= 399 && 0 <= doy < YearLength(yoe)
    ensures days + 719468 == era * 146097 + YearStart(yoe) + doy
    ensures CivilFromDays(days) == CivilOf(era, yoe, doy)
  {
    hide CivilFromDays, CivilOf, YearStart, YearLength;
    era := (days + 719468) / 146097;
    var doe := days + 719468 - era * 146097;
    DayOfEra(doe);
    yoe := YoeOf(doe);
    doy := doe - YearStart(yoe);
    CivilByParts(days, era, doe, yoe);
  }

  function CivilOf(era: int, yoe: int, doy: int): Date {
    var mp := (5 * doy + 2) / 153;
    var m := if mp < 10 then mp + 3 else mp - 9;
    var y := yoe + era * 400;
    Date(if m <= 2 then y + 1 else y, m, doy - MonthStart(mp) + 1)
  }

  lemma {:induction false} SplitIsDate(era: int, yoe: int, doy: int)
    requires 0 <= yoe <= 399 && 0 <= doy < YearLength(yoe)
    ensures IsDate(CivilOf(era, yoe, doy))
  {
    MonthOfDay(doy);
    LeapIsNextYear(era, yoe);
    var y, mp := yoe + era * 400, (5 * doy + 2) / 153;
    hide YearStart, YearLength, MonthStart, Leap;
    if mp <= 10 {
      MonthLengths(mp, if mp < 10 then y else y + 1);
    } else {
      MonthLengths(10, y);
    }
  }

  lemma {:induction false} SplitIsCounted(era: int, yoe: int, doy: int)
    requires 0 <= yoe <= 399 && 0 <= doy <= 365
    ensures DaysFromCivil(CivilOf(era, yoe, doy)) == era * 146097 + YearStart(yoe) + doy - 719468
  {
    MonthOfDay(doy);
    DaysByYear(CivilOf(era, yoe, doy));
    BeforeByParts(era, yoe);
    hide YearStart, MonthStart, DaysFromCivil, Before;
  }

  /** The date of a split day number is a date of the calendar, and the inverse recovers the day number. */
  lemma {:induction false} CivilOfSplit(era: int, yoe: int, doy: int)
    requires 0 <= yoe <= 399 && 0 <= doy < YearLength(yoe)
    ensures IsDate(CivilOf(era, yoe, doy))
    ensures DaysFromCivil(CivilOf(era, yoe, doy)) == era * 146097 + YearStart(yoe) + doy - 719468
  {
    LeapIsNextYear(era, yoe);
    SplitIsDate(era, yoe, doy);
    hide YearStart, YearLength, DaysFromCivil, CivilOf, IsDate, Leap;
    SplitIsCounted(era, yoe, doy);
  }

  /** The closed form gives a date of the calendar, and different days different dates. */
  lemma {:induction false} CivilIsDate(days: nat)
    ensures IsDate(CivilFromDays(days)) && DaysFromCivil(CivilFromDays(days)) == days
  {
    var era, yoe, doy := Split(days);
    CivilOfSplit(era, yoe, doy);
    hide CivilFromDays, DaysFromCivil, CivilOf, IsDate, YearStart, YearLength;
  }

  /** A date's place in its March-based year. */
  lemma {:induction false} DateInYear(t: Date, era: int, yoe: int, mp: int)
    requires IsDate(t) && era * 400 + yoe == (if t.m <= 2 then t.y - 1 else t.y) && 0 <= yoe <= 399
    requires mp == if t.m > 2 then t.m - 3 else t.m + 9
    ensures 0 <= mp <= 11 && 1 <= t.d <= MonthStart(mp + 1) - MonthStart(mp)
    ensures 0 <= MonthStart(mp) + t.d - 1 < YearLength(yoe)
  {
    LeapIsNextYear(era, yoe);
    if mp <= 10 {
      MonthLengths(mp, t.y);
    } else {
      MonthLengths(10, t.y);
    }
    hide YearLength, Leap;
  }

  lemma {:induction false} CivilOfPlace(t: Date, era: int, yoe: int, mp: int)
    requires 1 <= t.m <= 12 && era * 400 + yoe == (if t.m <= 2 then t.y - 1 else t.y)
    requires mp == if t.m > 2 then t.m - 3 else t.m + 9
    requires 1 <= t.d <= MonthStart(mp + 1) - MonthStart(mp)
    ensures CivilOf(era, yoe, MonthStart(mp) + t.d - 1) == t
  {
  }

  lemma {:induction false} CivilAt(days: nat, t: Date, era: int, yoe: int, mp: int)
    requires IsDate(t) && 0 <= yoe <= 399 && era * 400 + yoe == (if t.m <= 2 then t.y - 1 else t.y)
    requires mp == if t.m > 2 then t.m - 3 else t.m + 9
    requires days + 719468 == era * 146097 + YearStart(yoe) + MonthStart(mp) + t.d - 1
    ensures CivilFromDays(days) == t
  {
    assert 1 <= t.m <= 12;
    hide *;
    DateInYear(t, era, yoe, mp);
    CivilOfPlace(t, era, yoe, mp);
    YearOfDay(yoe, MonthStart(mp) + t.d - 1);
    var doe := YearStart(yoe) + MonthStart(mp) + t.d - 1;
    DivModUnique(days + 719468, 146097, era, doe);
    CivilByParts(days, era, doe, yoe);
  }

  /** Every date from 1970-01-01 on is the date of its day number. */
  lemma {:induction false} CivilOfDate(t: Date)
    requires IsDate(t) && DaysFromCivil(t) >= 0
    ensures CivilFromDays(DaysFromCivil(t)) == t
  {
    var y := if t.m <= 2 then t.y - 1 else t.y;
    DaysByYear(t);
    hide CivilFromDays, DaysFromCivil, YearStart, MonthStart;
    CivilAt(DaysFromCivil(t), t, y / 400, y - y / 400 * 400, if t.m > 2 then t.m - 3 else t.m + 9);
  }

  // ---------- One day at a time ----------

  /** Days before the March-based year `y`. */
  function Before(y: int): int {
    y / 400 * 146097 + YearStart(y - y / 400 * 400)
  }

  lemma {:induction false} BeforeByParts(era: int, yoe: int)
    requires 0 <= yoe <= 399
    ensures Before(era * 400 + yoe) == era * 146097 + YearStart(yoe)
  {
    assert (era * 400 + yoe) / 400 == era;
    hide YearStart;
  }

  lemma {:induction false} YearStep(y: int)
    ensures Before(y + 1) == Before(y) + if Leap(y + 1) then 366 else 365
  {
    var era, yoe := y / 400, y - y / 400 * 400;
    LeapIsNextYear(era, yoe);
    BeforeByParts(era, yoe);
    if yoe == 399 {
      BeforeByParts(era + 1, 0);
    } else {
      BeforeByParts(era, yoe + 1);
    }
    hide Leap, Before;
  }

  lemma {:induction false} WithinMonth(y: int, m: int, d: int)
    ensures DaysFromCivil(Date(y, m, d + 1)) == DaysFromCivil(Date(y, m, d)) + 1
  {
  }

  lemma {:induction false} ToNextMonth(y: int, m: int)
    requires 1 <= m <= 11
    ensures DaysFromCivil(Date(y, m + 1, 1)) == DaysFromCivil(Date(y, m, DaysInMonth(y, m))) + 1
  {
    var mp := if m > 2 then m - 3 else m + 9;
    DaysByYear(Date(y, m + 1, 1));
    DaysByYear(Date(y, m, DaysInMonth(y, m)));
    MonthLengths(if m == 2 then 10 else mp, y);
    hide DaysFromCivil, Before, MonthStart, Leap;
    if m == 2 {
      YearStep(y - 1);
    }
  }

  lemma {:induction false} ToNextYear(y: int)
    ensures DaysFromCivil(Date(y + 1, 1, 1)) == DaysFromCivil(Date(y, 12, 31)) + 1
  {
  }

  /** The inverse counts days: the next day of the calendar is one more. */
  lemma {:induction false} DaysCountOneByOne(t: Date)
    requires IsDate(t)
    ensures IsDate(NextDay(t)) && DaysFromCivil(NextDay(t)) == DaysFromCivil(t) + 1
  {
    hide DaysFromCivil, Leap;
    if t.d < DaysInMonth(t.y, t.m) {
      WithinMonth(t.y, t.m, t.d);
    } else if t.m < 12 {
      ToNextMonth(t.y, t.m);
    } else {
      ToNextYear(t.y);
    }
  }

  lemma {:induction false} DaysByYear(t: Date)
    ensures DaysFromCivil(t) == Before(if t.m <= 2 then t.y - 1 else t.y)
                                + MonthStart(if t.m > 2 then t.m - 3 else t.m + 9) + t.d - 1 - 719468
  {
  }

  lemma {:induction false} DayZero()
    ensures CivilFromDays(0) == Date(1970, 1, 1)
  {
  }

  /**
   * The closed form steps through the Gregorian calendar: day 0 is 1970-01-01, and the date of each following
   * day is the next date.
   */
  lemma {:induction false} CivilSteps(days: nat)
    ensures CivilFromDays(0) == Date(1970, 1, 1)
    ensures CivilFromDays(days + 1) == NextDay(CivilFromDays(days))
  {
    DayZero();
    hide CivilFromDays, DaysFromCivil, NextDay, IsDate;
    var t := CivilFromDays(days);
    CivilIsDate(days);
    DaysCountOneByOne(t);
    CivilOfDate(NextDay(t));
  }

  lemma {:induction false} NextIsLater(t: Date)
    requires IsDate(t)
    ensures Earlier(t, NextDay(t))
  {
  }

  /** Later days have later dates. */
  lemma {:induction false} CivilIncreases(a: nat, b: nat)
    requires a < b
    ensures Earlier(CivilFromDays(a), CivilFromDays(b))
    decreases b - a
  {
    hide CivilFromDays, DaysFromCivil, NextDay, IsDate;
    CivilSteps(b - 1);
    CivilIsDate(b - 1);
    NextIsLater(CivilFromDays(b - 1));
    if a < b - 1 {
      CivilIncreases(a, b - 1);
    }
  }

  lemma {:induction false} SakamotoTable(mp: int)
    requires 0 <= mp <= 11
    ensures var m := if mp < 10 then mp + 3 else mp - 9;
            ([0, 3, 2, 5, 0, 3, 5, 1, 4, 6, 2, 4][m - 1] - MonthStart(mp) - 2) % 7 == 0
  {
  }

  /** The weekday formula, from the date alone, is the day count modulo 7: day 0 was a Thursday. */
  lemma {:induction false} WeekdayCounts(days: nat)
    ensures 1 <= CivilFromDays(days).m <= 12
    ensures Weekday(CivilFromDays(days)) == (days + 4) % 7
  {
    var era, yoe, doy := Split(days);
    MonthOfDay(doy);
    WeekdayOfPlace(era, yoe, (5 * doy + 2) / 153, doy);
    hide CivilFromDays, Weekday, MonthStart, YearStart, YearLength;
  }

  lemma {:induction false} WeekdayOfPlace(era: int, yoe: int, mp: int, doy: int)
    requires 0 <= yoe <= 399 && 0 <= mp <= 11 && mp == (5 * doy + 2) / 153
    ensures 1 <= CivilOf(era, yoe, doy).m <= 12
    ensures Weekday(CivilOf(era, yoe, doy)) == (era * 146097 + YearStart(yoe) + doy - 719464) % 7
  {
    SakamotoTable(mp);
    var m := if mp < 10 then mp + 3 else mp - 9;
    var y := yoe + era * 400;
    var entry := [0, 3, 2, 5, 0, 3, 5, 1, 4, 6, 2, 4][m - 1];
    YearSum(era, yoe);
    var a := y + y / 4 - y / 100 + y / 400 + entry + (doy - MonthStart(mp) + 1);
    var b := era * 146097 + YearStart(yoe) + doy - 719464;
    assert Weekday(CivilOf(era, yoe, doy)) == a % 7;
    hide MonthStart, YearStart, CivilOf, Weekday;
    SameRemainder(a, b, (entry - MonthStart(mp) - 2) / 7 + 102781 - 20800 * era - 52 * yoe);
  }

  lemma {:induction false} YearSum(era: int, yoe: int)
    requires 0 <= yoe <= 399
    ensures var y := yoe + era * 400; y + y / 4 - y / 100 + y / 400 == 497 * era + YearStart(yoe) - 364 * yoe
  {
    RemainderShift(yoe, 4, 100 * era);
    RemainderShift(yoe, 100, 4 * era);
    RemainderShift(yoe, 400, era);
    assert yoe / 400 == 0;
  }

  lemma {:induction false} SameRemainder(a: int, b: int, k: int)
    requires a - b == 7 * k
    ensures a % 7 == b % 7
  {
  }
}
