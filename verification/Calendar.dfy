/** The date arithmetic of log timestamps against a calendar that advances day by day. */
module Calendar {
  datatype Date = Date(year: nat, month: nat, day: nat)

  // ----- the program's arithmetic -----

  function YearOfEra(dayOfEra: nat): nat
    requires dayOfEra < 146097
  {
    (dayOfEra - dayOfEra / 1460 + dayOfEra / 36524 - dayOfEra / 146096) / 365
  }

  function DayOfYear(dayOfEra: nat): int
    requires dayOfEra < 146097
  {
    var yearOfEra := YearOfEra(dayOfEra);
    dayOfEra - (365 * yearOfEra + yearOfEra / 4 - yearOfEra / 100)
  }

  /** Years and days that begin on 1 March, turned into a calendar date. */
  function FromMarch(year: nat, dayOfYear: nat): Date
    requires dayOfYear <= 365
  {
    var month := (5 * dayOfYear + 2) / 153;
    var day := dayOfYear - (153 * month + 2) / 5 + 1;
    var month' := if month < 10 then month + 3 else month - 9;
    Date(if month' <= 2 then year + 1 else year, month', day)
  }

  function DaysToDate(daysSinceEpoch: nat): Date {
    var z := daysSinceEpoch + 719468;
    var era := z / 146097;
    var dayOfEra := z - era * 146097;
    DayOfYearInRange(dayOfEra);
    FromMarch(YearOfEra(dayOfEra) + era * 400, DayOfYear(dayOfEra))
  }

  // ----- the calendar -----

  predicate IsLeap(year: nat) {
    year % 4 == 0 && (year % 100 != 0 || year % 400 == 0)
  }

  function DaysInMonth(year: nat, month: nat): nat {
    if month == 2 then (if IsLeap(year) then 29 else 28)
    else if month == 4 || month == 6 || month == 9 || month == 11 then 30
    else 31
  }

  predicate IsDate(d: Date) {
    d.year >= 1 && 1 <= d.month <= 12 && 1 <= d.day <= DaysInMonth(d.year, d.month)
  }

  function Tomorrow(d: Date): Date {
    if d.day < DaysInMonth(d.year, d.month) then d.(day := d.day + 1)
    else if d.month < 12 then Date(d.year, d.month + 1, 1)
    else Date(d.year + 1, 1, 1)
  }

  /** The proleptic Gregorian calendar, stepped from 1 January 1970. */
  function DateAfter(days: nat): Date {
    if days == 0 then Date(1970, 1, 1) else Tomorrow(DateAfter(days - 1))
  }

  // ----- centuries, four-year cycles, years and days of an era -----

  /** A day of an era as century, cycle, year and day, 1 March first; the last day of a year
      that runs into a leap February has number 365. */
  predicate IsPosition(c: nat, q: nat, t: nat, u: nat) {
    c <= 3 && q <= 24 && t <= 3 && u <= 365 && (u == 365 ==> t == 3 && (q < 24 || c == 3))
  }

  function DayAt(c: nat, q: nat, t: nat, u: nat): nat {
    36524 * c + 1461 * q + 365 * t + u
  }

  function DayNumber(era: nat, c: nat, q: nat, t: nat, u: nat): nat {
    146097 * era + DayAt(c, q, t, u)
  }

  function YearAt(era: nat, c: nat, q: nat, t: nat): nat {
    400 * era + 100 * c + 4 * q + t
  }

  lemma FindPosition(dayOfEra: nat) returns (c: nat, q: nat, t: nat, u: nat)
    requires dayOfEra < 146097
    ensures IsPosition(c, q, t, u) && dayOfEra == DayAt(c, q, t, u)
  {
    c := if dayOfEra / 36524 < 3 then dayOfEra / 36524 else 3;
    var r := dayOfEra - 36524 * c;
    q := r / 1461;
    var s := r - 1461 * q;
    t := if s / 365 < 3 then s / 365 else 3;
    u := s - 365 * t;
  }

  lemma PositionFormula(c: nat, q: nat, t: nat, u: nat)
    requires IsPosition(c, q, t, u)
    ensures DayAt(c, q, t, u) < 146097
    ensures YearOfEra(DayAt(c, q, t, u)) == 100 * c + 4 * q + t
    ensures DayOfYear(DayAt(c, q, t, u)) == u
  {
    var d := DayAt(c, q, t, u);
    var rest := 24 * c + q + 365 * t + u;
    var e := if rest >= 1460 then 1 else 0;
    assert d == 1460 * (25 * c + q) + rest;
    assert d / 1460 == 25 * c + q + e;
    var last := if d == 146096 then 1 else 0;
    assert d / 36524 == c + last && d / 146096 == last;
    assert d - d / 1460 + d / 36524 - d / 146096 == 365 * (100 * c + 4 * q + t) + (u - e);
    var y := 100 * c + 4 * q + t;
    assert y / 4 == 25 * c + q && y / 100 == c;
  }

  lemma DayOfYearInRange(dayOfEra: nat)
    requires dayOfEra < 146097
    ensures 0 <= DayOfYear(dayOfEra) <= 365
  {
    var c, q, t, u := FindPosition(dayOfEra);
    PositionFormula(c, q, t, u);
  }

  lemma Mod4(k: nat, r: nat)
    requires r < 4
    ensures (4 * k + r) % 4 == r
  {
  }

  lemma Mod100(k: nat, r: nat)
    requires r < 100
    ensures (100 * k + r) % 100 == r
  {
  }

  lemma Mod400(k: nat, r: nat)
    requires r < 400
    ensures (400 * k + r) % 400 == r
  {
  }

  lemma LeapYears(era: nat, c: nat, q: nat, t: nat)
    requires c <= 3 && q <= 24 && t <= 3
    ensures IsLeap(YearAt(era, c, q, t) + 1) <==> t == 3 && (q < 24 || c == 3)
  {
    if t < 3 {
      Mod4(100 * era + 25 * c + q, t + 1);
    } else {
      Mod4(100 * era + 25 * c + q + 1, 0);
      if q < 24 {
        Mod100(4 * era + c, 4 * q + 4);
      } else {
        Mod100(4 * era + c + 1, 0);
        if c < 3 { Mod400(era, 100 * c + 100); } else { Mod400(era + 1, 0); }
      }
    }
  }

  /** The day of a March year on which its month `m` begins. */
  function FirstDay(m: nat): nat {
    match m
    case 0 => 0 case 1 => 31 case 2 => 61 case 3 => 92 case 4 => 122 case 5 => 153
    case 6 => 184 case 7 => 214 case 8 => 245 case 9 => 275 case 10 => 306 case 11 => 337
    case _ => 367
  }

  lemma FirstDayFormula(m: nat)
    requires m <= 11
    ensures (153 * m + 2) / 5 == FirstDay(m)
    ensures m < 11 ==> FirstDay(m + 1) - FirstDay(m) == DaysInMonth(0, if m < 10 then m + 3 else m - 9)
  {
  }

  function MonthOf(u: nat): (m: nat)
    requires u <= 365
    ensures m <= 11 && FirstDay(m) <= u < FirstDay(m + 1)
  {
    if u < 31 then 0 else if u < 61 then 1 else if u < 92 then 2 else if u < 122 then 3 else if u < 153 then 4
    else if u < 184 then 5 else if u < 214 then 6 else if u < 245 then 7 else if u < 275 then 8
    else if u < 306 then 9 else if u < 337 then 10 else 11
  }

  lemma MonthFormula(u: nat)
    requires u <= 365
    ensures (5 * u + 2) / 153 == MonthOf(u)
  {
    var m := MonthOf(u);
    assert 153 * m <= 5 * u + 2 < 153 * m + 153;
  }

  /** The date formula read off the table of months. */
  lemma FromMarchByTable(year: nat, u: nat)
    requires u <= 365
    ensures var m := MonthOf(u);
            FromMarch(year, u) == Date(if m < 10 then year else year + 1, if m < 10 then m + 3 else m - 9,
                                       u - FirstDay(m) + 1)
  {
    hide MonthOf, FirstDay;
    MonthFormula(u);
    FirstDayFormula(MonthOf(u));
  }

  /** Within one March year, the next day number is the next date. */
  lemma MarchTomorrow(year: nat, u: nat)
    requires u < 365 && (u == 364 ==> IsLeap(year + 1))
    ensures FromMarch(year, u + 1) == Tomorrow(FromMarch(year, u))
  {
    hide FromMarch, IsLeap;
    FromMarchByTable(year, u);
    FromMarchByTable(year, u + 1);
    FirstDayFormula(MonthOf(u));
  }

  /** From the last day of February to 1 March. */
  lemma MarchYearEnd(year: nat, u: nat)
    requires u == if IsLeap(year + 1) then 365 else 364
    ensures FromMarch(year + 1, 0) == Tomorrow(FromMarch(year, u))
  {
    hide FromMarch, IsLeap;
    FromMarchByTable(year, u);
    FromMarchByTable(year + 1, 0);
  }

  lemma EraOf(z: nat, era: nat, d: nat)
    requires z == 146097 * era + d && d < 146097
    ensures z / 146097 == era
  {
  }

  lemma DateAtPosition(n: nat, era: nat, c: nat, q: nat, t: nat, u: nat)
    requires IsPosition(c, q, t, u) && n + 719468 == DayNumber(era, c, q, t, u)
    ensures DaysToDate(n) == FromMarch(YearAt(era, c, q, t), u)
  {
    hide DayAt, FromMarch, YearOfEra, DayOfYear;
    PositionFormula(c, q, t, u);
    EraOf(n + 719468, era, DayAt(c, q, t, u));
  }

  lemma NextDay(n: nat)
    ensures DaysToDate(n + 1) == Tomorrow(DaysToDate(n))
  {
    hide FromMarch, Tomorrow, YearOfEra, DayOfYear, DaysToDate, IsLeap, DayAt;
    var era, d := (n + 719468) / 146097, (n + 719468) % 146097;
    var c, q, t, u := FindPosition(d);
    NextPosition(n, era, c, q, t, u);
  }

  lemma NextPosition(n: nat, era: nat, c: nat, q: nat, t: nat, u: nat)
    requires IsPosition(c, q, t, u) && n + 719468 == DayNumber(era, c, q, t, u)
    ensures DaysToDate(n + 1) == Tomorrow(DaysToDate(n))
  {
    hide FromMarch, Tomorrow, DaysToDate, IsLeap;
    var year := YearAt(era, c, q, t);
    DateAtPosition(n, era, c, q, t, u);
    LeapYears(era, c, q, t);
    if u < 364 || (u == 364 && IsLeap(year + 1)) {
      MarchTomorrow(year, u);
      DateAtPosition(n + 1, era, c, q, t, u + 1);
    } else {
      MarchYearEnd(year, u);
      NextMarch(n + 1, era, c, q, t, u + 1);
    }
  }

  lemma YearCarries(era: nat, c: nat, q: nat, t: nat)
    ensures YearAt(era, c, q, t + 1) == YearAt(era, c, q, t) + 1
    ensures t == 3 ==> YearAt(era, c, q + 1, 0) == YearAt(era, c, q, t) + 1
    ensures t == 3 && q == 24 ==> YearAt(era, c + 1, 0, 0) == YearAt(era, c, q, t) + 1
    ensures t == 3 && q == 24 && c == 3 ==> YearAt(era + 1, 0, 0, 0) == YearAt(era, c, q, t) + 1
  {
  }

  lemma DayCarriesYear(era: nat, c: nat, q: nat, t: nat, u: nat)
    requires u == 365
    ensures DayNumber(era, c, q, t + 1, 0) == DayNumber(era, c, q, t, u)
  {
  }

  lemma DayCarriesCycle(era: nat, c: nat, q: nat, t: nat, u: nat)
    requires t == 3 && u == 366
    ensures DayNumber(era, c, q + 1, 0, 0) == DayNumber(era, c, q, t, u)
  {
  }

  lemma DayCarriesCentury(era: nat, c: nat, q: nat, t: nat, u: nat)
    requires t == 3 && q == 24 && u == 365
    ensures DayNumber(era, c + 1, 0, 0, 0) == DayNumber(era, c, q, t, u)
  {
    assert 1461 * q == 35064 && 365 * t == 1095;
  }

  lemma EraStart()
    ensures DayAt(0, 0, 0, 0) == 0
  {
  }

  lemma EraEnd(c: nat, q: nat, t: nat, u: nat)
    requires c == 3 && q == 24 && t == 3 && u == 366
    ensures DayAt(c, q, t, u) == 146097
  {
  }

  lemma DayCarriesEra(era: nat, c: nat, q: nat, t: nat, u: nat)
    requires t == 3 && q == 24 && c == 3 && u == 366
    ensures DayNumber(era + 1, 0, 0, 0, 0) == DayNumber(era, c, q, t, u)
  {
    hide DayAt;
    EraStart();
    EraEnd(c, q, t, u);
  }

  /** The day after the last of a March year is the first of the next, across cycles,
      centuries and eras. */
  lemma NextMarch(n: nat, era: nat, c: nat, q: nat, t: nat, u: nat)
    requires c <= 3 && q <= 24 && t <= 3 && u == if t == 3 && (q < 24 || c == 3) then 366 else 365
    requires n + 719468 == DayNumber(era, c, q, t, u)
    ensures DaysToDate(n) == FromMarch(YearAt(era, c, q, t) + 1, 0)
  {
    hide FromMarch, DaysToDate, YearAt, DayNumber;
    YearCarries(era, c, q, t);
    if t < 3 {
      DayCarriesYear(era, c, q, t, u);
      DateAtPosition(n, era, c, q, t + 1, 0);
    } else if q < 24 {
      DayCarriesCycle(era, c, q, t, u);
      DateAtPosition(n, era, c, q + 1, 0, 0);
    } else if c < 3 {
      DayCarriesCentury(era, c, q, t, u);
      DateAtPosition(n, era, c + 1, 0, 0, 0);
    } else {
      DayCarriesEra(era, c, q, t, u);
      DateAtPosition(n, era + 1, 0, 0, 0, 0);
    }
  }

  lemma Epoch()
    ensures DaysToDate(0) == Date(1970, 1, 1)
  {
    hide DaysToDate;
    DateAtPosition(0, 4, 3, 17, 1, 306);
  }

  /** For every day count the formula gives the date that stepping the calendar gives. */
  lemma {:induction false} DaysToDateIsCalendar(n: nat)
    ensures DaysToDate(n) == DateAfter(n)
  {
    hide DaysToDate, Tomorrow;
    if n == 0 {
      Epoch();
    } else {
      DaysToDateIsCalendar(n - 1);
      NextDay(n - 1);
    }
  }

  // ----- back from dates to days -----

  function DaysBeforeMonth(year: nat, month: nat): nat {
    if month <= 1 then 0 else DaysBeforeMonth(year, month - 1) + DaysInMonth(year, month - 1)
  }

  function DaysBeforeYear(year: nat): int
    requires year >= 1
  {
    365 * (year - 1) + (year - 1) / 4 - (year - 1) / 100 + (year - 1) / 400
  }

  /** Days since 1 January 1970. */
  function DaysFromDate(d: Date): int
    requires d.year >= 1
  {
    DaysBeforeYear(d.year) + DaysBeforeMonth(d.year, d.month) + d.day - 1 - 719162
  }

  lemma YearLength(year: nat)
    requires year >= 1
    ensures DaysBeforeYear(year + 1) == DaysBeforeYear(year) + DaysBeforeMonth(year, 12) + 31
    ensures DaysBeforeMonth(year, 12) + 31 == if IsLeap(year) then 366 else 365
  {
    DaysBeforeDecember(year);
    hide DaysBeforeMonth;
    NextQuotient(year - 1, 4);
    NextQuotient(year - 1, 100);
    NextQuotient(year - 1, 400);
    LeapByDivisors(year);
  }

  /** A quotient goes up by one exactly at the multiples of the divisor. */
  lemma NextQuotient(y: nat, d: nat)
    requires d == 4 || d == 100 || d == 400
    ensures (y + 1) / d == y / d + Multiple(y + 1, d)
  {
  }

  function Multiple(y: nat, d: nat): int
    requires d > 0
  {
    if y % d == 0 then 1 else 0
  }

  lemma LeapByDivisors(year: nat)
    ensures (if IsLeap(year) then 1 else 0) == Multiple(year, 4) - Multiple(year, 100) + Multiple(year, 400)
  {
    Divides(year);
  }

  lemma Divides(year: nat)
    ensures year % 400 == 0 ==> year % 100 == 0
    ensures year % 100 == 0 ==> year % 4 == 0
  {
    if year % 400 == 0 { Mod100(4 * (year / 400), 0); }
    if year % 100 == 0 { Mod4(25 * (year / 100), 0); }
  }

  lemma DaysBeforeDecember(year: nat)
    ensures DaysBeforeMonth(year, 12) == if IsLeap(year) then 335 else 334
  {
    hide IsLeap;
    var february := if IsLeap(year) then 29 else 28;
    assert DaysBeforeMonth(year, 2) == 31;
    assert DaysBeforeMonth(year, 3) == 31 + february;
    assert DaysBeforeMonth(year, 5) == DaysBeforeMonth(year, 3) + 61;
    assert DaysBeforeMonth(year, 7) == DaysBeforeMonth(year, 5) + 61;
    assert DaysBeforeMonth(year, 9) == DaysBeforeMonth(year, 7) + 62;
    assert DaysBeforeMonth(year, 11) == DaysBeforeMonth(year, 9) + 61;
  }

  lemma TomorrowIsOneLater(d: Date)
    requires IsDate(d)
    ensures IsDate(Tomorrow(d)) && DaysFromDate(Tomorrow(d)) == DaysFromDate(d) + 1
  {
    hide IsLeap, DaysBeforeYear;
    if d.day == DaysInMonth(d.year, d.month) && d.month == 12 { YearLength(d.year); }
  }

  /** Every date is a valid one, and counting its days gives the day count back. */
  lemma {:induction false} DaysRoundtrip(n: nat)
    ensures IsDate(DaysToDate(n)) && DaysFromDate(DaysToDate(n)) == n
  {
    hide DaysToDate, Tomorrow;
    if n == 0 {
      Epoch();
    } else {
      DaysRoundtrip(n - 1);
      NextDay(n - 1);
      TomorrowIsOneLater(DaysToDate(n - 1));
    }
  }

  // ----- the time of day -----

  datatype Timestamp = Timestamp(date: Date, hours: nat, minutes: nat, seconds: nat)

  function TimestampOf(secs: nat): Timestamp {
    var timeOfDay := secs % 86400;
    Timestamp(DaysToDate(secs / 86400), timeOfDay / 3600, (timeOfDay % 3600) / 60, timeOfDay % 60)
  }

  /** The fields are in range and together recover the second they were computed from. */
  lemma TimestampRecoversSeconds(secs: nat)
    ensures var t := TimestampOf(secs);
            && IsDate(t.date) && t.hours < 24 && t.minutes < 60 && t.seconds < 60
            && secs == 86400 * DaysFromDate(t.date) + 3600 * t.hours + 60 * t.minutes + t.seconds
  {
    hide DaysToDate, IsDate, DaysFromDate;
    DaysRoundtrip(secs / 86400);
    var s := secs % 86400;
    assert s == 3600 * (s / 3600) + s % 3600;
    assert s % 60 == (s % 3600) % 60;
  }
}
