/** Civil dates of years 1 to 9999: stepping by days and the weekday formula,
    against a closed-form day number. */
module Calendar {
  import opened Wrappers

  const MAX_YEAR := 9999

  predicate IsLeapYear(year: int) { year % 4 == 0 && (year % 100 != 0 || year % 400 == 0) }

  const DAYS_IN_MONTH := [31, 28, 31, 30, 31, 30, 31, 31, 30, 31, 30, 31]
  const SAKAMOTO := [0, 3, 2, 5, 0, 3, 5, 1, 4, 6, 2, 4]

  function DaysInMonth(year: int, month: int): Option<int> {
    if !(1 <= month <= 12) then None
    else if month == 2 && IsLeapYear(year) then Some(29)
    else Some(DAYS_IN_MONTH[month - 1])
  }

  datatype CivilDate = CivilDate(year: int, month: int, day: int)

  predicate IsReal(d: CivilDate) {
    1 <= d.year <= MAX_YEAR && 1 <= d.month <= 12 && 1 <= d.day <= DaysInMonth(d.year, d.month).value
  }

  type Date = d: CivilDate | IsReal(d) witness CivilDate(1, 1, 1)

  /** from_ymd */
  function FromYmd(year: int, month: int, day: int): (r: Option<Date>)
    ensures r.Some? <==> IsReal(CivilDate(year, month, day))
    ensures r.Some? ==> r.value == CivilDate(year, month, day)
  {
    if !(1 <= year <= MAX_YEAR) || !(1 <= month <= 12) then None
    else if day <= 0 || day > DaysInMonth(year, month).value then None
    else Some(CivilDate(year, month, day))
  }

  function Successor(d: Date): Option<Date> {
    if d.day + 1 <= DaysInMonth(d.year, d.month).value then FromYmd(d.year, d.month, d.day + 1)
    else if d.month < 12 then FromYmd(d.year, d.month + 1, 1)
    else FromYmd(d.year + 1, 1, 1)
  }

  function Predecessor(d: Date): Option<Date> {
    if d.day > 1 then FromYmd(d.year, d.month, d.day - 1)
    else if d.month > 1 then FromYmd(d.year, d.month - 1, DaysInMonth(d.year, d.month - 1).value)
    else FromYmd(d.year - 1, 12, 31)
  }

  /** Sunday is 0. */
  function Weekday(d: Date): (w: nat)
    ensures w < 7
  {
    var year := if d.month < 3 then d.year - 1 else d.year;
    (YearTerm(year) + SAKAMOTO[d.month - 1] + d.day) % 7
  }

  function CompareYmd(a: CivilDate, b: CivilDate): int {
    if a.year != b.year then a.year - b.year
    else if a.month != b.month then a.month - b.month
    else a.day - b.day
  }

  // ------------------------------------------------------ the day number

  const FIRST_DAY := 1
  const LAST_DAY := 3_652_059

  /** Days of all years before this one. */
  function DaysBeforeYear(year: int): int {
    365 * (year - 1) + (year - 1) / 4 - (year - 1) / 100 + (year - 1) / 400
  }

  const DAYS_BEFORE_MONTH := [0, 31, 59, 90, 120, 151, 181, 212, 243, 273, 304, 334]

  function DaysBeforeMonth(year: int, month: int): int
    requires 1 <= month <= 12
  {
    DAYS_BEFORE_MONTH[month - 1] + if month > 2 && IsLeapYear(year) then 1 else 0
  }

  /** Day 1 is the first of January of year 1. */
  function DayNumber(d: Date): int { DaysBeforeYear(d.year) + DaysBeforeMonth(d.year, d.month) + d.day }

  function YearLength(year: int): int { if IsLeapYear(year) then 366 else 365 }

  lemma Fours(n: int)
    ensures (n + 1) / 4 == n / 4 + if (n + 1) % 4 == 0 then 1 else 0
  {}

  lemma Hundreds(n: int)
    ensures (n + 1) / 100 == n / 100 + if (n + 1) % 100 == 0 then 1 else 0
  {}

  lemma FourHundreds(n: int)
    ensures (n + 1) / 400 == n / 400 + if (n + 1) % 400 == 0 then 1 else 0
  {}

  lemma CenturiesNest(n: int)
    ensures n % 400 == 0 ==> n % 100 == 0
    ensures n % 100 == 0 ==> n % 4 == 0
  {}

  /** The closed form counts a leap day for each leap year. */
  lemma NextYear(year: int)
    ensures DaysBeforeYear(year + 1) == DaysBeforeYear(year) + YearLength(year)
  {
    Fours(year - 1);
    Hundreds(year - 1);
    FourHundreds(year - 1);
    CenturiesNest(year);
    assert DaysBeforeYear(year + 1) == 365 * year + year / 4 - year / 100 + year / 400;
  }

  lemma {:induction false} YearsGrow(a: int, b: int)
    requires a <= b
    ensures DaysBeforeYear(b) >= DaysBeforeYear(a) + 365 * (b - a)
    decreases b - a
  {
    if a < b {
      YearsGrow(a, b - 1);
      NextYear(b - 1);
    }
  }

  lemma NextMonth(year: int, month: int)
    requires 1 <= month < 12
    ensures DaysBeforeMonth(year, month + 1) == DaysBeforeMonth(year, month) + DaysInMonth(year, month).value
  {}

  lemma MonthStarts(year: int)
    ensures DaysBeforeMonth(year, 1) == 0 && DaysBeforeMonth(year, 12) + 31 == YearLength(year)
    ensures DaysInMonth(year, 1) == DaysInMonth(year, 12) == Some(31)
  {}

  lemma InYear(d: Date)
    ensures 1 <= DaysBeforeMonth(d.year, d.month) + d.day <= YearLength(d.year)
  {}

  lemma MonthsGrow(year: int, a: int, b: int)
    requires 1 <= a < b <= 12
    ensures DaysBeforeMonth(year, b) >= DaysBeforeMonth(year, a) + DaysInMonth(year, a).value
  {
    NextMonth(year, a);
  }

  /** The day number orders dates as cmp_ymd does, so no two dates share one. */
  lemma DayNumberOrders(a: Date, b: Date)
    ensures CompareYmd(a, b) < 0 <==> DayNumber(a) < DayNumber(b)
    ensures DayNumber(a) == DayNumber(b) <==> a == b
  {
    if CompareYmd(a, b) < 0 {
      Earlier(a, b);
    } else if CompareYmd(a, b) > 0 {
      Earlier(b, a);
    }
  }

  lemma Earlier(a: Date, b: Date)
    requires CompareYmd(a, b) < 0
    ensures DayNumber(a) < DayNumber(b)
  {
    hide DaysBeforeYear, DaysBeforeMonth;
    if a.year < b.year {
      YearsGrow(a.year + 1, b.year);
      NextYear(a.year);
      InYear(a);
      InYear(b);
    } else if a.month < b.month {
      MonthsGrow(a.year, a.month, b.month);
    }
  }

  const FIRST: Date := CivilDate(1, 1, 1)
  const LAST: Date := CivilDate(MAX_YEAR, 12, 31)

  lemma YearsBefore()
    ensures DaysBeforeYear(1) == 0 && DaysBeforeYear(MAX_YEAR) == 3_651_694
  {}

  lemma FirstAndLast()
    ensures DayNumber(FIRST) == FIRST_DAY && DayNumber(LAST) == LAST_DAY
  {
    hide DaysBeforeYear;
    YearsBefore();
    assert DaysBeforeMonth(MAX_YEAR, 12) == 334;
  }

  lemma DayNumberInRange(d: Date)
    ensures FIRST_DAY <= DayNumber(d) <= LAST_DAY
  {
    hide DayNumber;
    FirstAndLast();
    DayNumberOrders(FIRST, d);
    DayNumberOrders(d, LAST);
  }

  predicate IsMonthEnd(d: Date) { d.day == DaysInMonth(d.year, d.month).value }

  lemma SuccessorCases(d: Date)
    ensures !IsMonthEnd(d) ==> Successor(d) == Some(CivilDate(d.year, d.month, d.day + 1))
    ensures IsMonthEnd(d) && d.month < 12 ==> Successor(d) == Some(CivilDate(d.year, d.month + 1, 1))
    ensures d.day == 31 && d.month == 12 && d.year < MAX_YEAR ==> Successor(d) == Some(CivilDate(d.year + 1, 1, 1))
    ensures d.day == 31 && d.month == 12 && d.year == MAX_YEAR ==> Successor(d) == None
    ensures IsMonthEnd(d) && d.month == 12 ==> d.day == 31
  {}

  lemma PredecessorCases(d: Date)
    ensures d.day > 1 ==> Predecessor(d) == Some(CivilDate(d.year, d.month, d.day - 1))
    ensures d.day == 1 && d.month > 1 ==>
      Predecessor(d) == Some(CivilDate(d.year, d.month - 1, DaysInMonth(d.year, d.month - 1).value))
    ensures d.day == 1 && d.month == 1 && d.year > 1 ==> Predecessor(d) == Some(CivilDate(d.year - 1, 12, 31))
    ensures d.day == 1 && d.month == 1 && d.year == 1 ==> Predecessor(d) == None
  {}

  lemma LastIsLatest(d: Date)
    ensures d == LAST <==> DayNumber(d) == LAST_DAY
    ensures d == FIRST <==> DayNumber(d) == FIRST_DAY
    ensures FIRST_DAY <= DayNumber(d) <= LAST_DAY
  {
    hide DayNumber;
    DayNumberInRange(d);
    FirstAndLast();
    DayNumberOrders(d, LAST);
    DayNumberOrders(d, FIRST);
  }

  /** One step forward is one day later, and fails on the last day only. */
  lemma SuccessorIsNextDay(d: Date)
    ensures Successor(d).Some? <==> DayNumber(d) < LAST_DAY
    ensures Successor(d).Some? ==> DayNumber(Successor(d).value) == DayNumber(d) + 1
  {
    hide Successor, DaysBeforeYear, DaysBeforeMonth, DaysInMonth, YearLength, IsLeapYear;
    LastIsLatest(d);
    SuccessorCases(d);
    MonthStarts(d.year);
    if IsMonthEnd(d) {
      if d.month < 12 {
        NextMonth(d.year, d.month);
      } else {
        NextYear(d.year);
        MonthStarts(d.year + 1);
      }
    }
  }

  /** Back across the start of a month. */
  lemma PredecessorOfFirst(d: Date)
    requires d.day == 1 && d.month > 1
    ensures Predecessor(d).Some? && DayNumber(Predecessor(d).value) == DayNumber(d) - 1
  {
    hide Predecessor, DaysBeforeYear, DaysBeforeMonth, DaysInMonth, IsLeapYear;
    PredecessorCases(d);
    var month := d.month - 1;
    NextMonth(d.year, month);
    assert month + 1 == d.month;
  }

  /** Back across the start of a year. */
  lemma PredecessorOfNewYear(d: Date)
    requires d.day == 1 && d.month == 1 && d.year > 1
    ensures Predecessor(d).Some? && DayNumber(Predecessor(d).value) == DayNumber(d) - 1
  {
    hide Predecessor, DaysBeforeYear, DaysBeforeMonth, DaysInMonth, YearLength, IsLeapYear;
    PredecessorCases(d);
    var year := d.year - 1;
    NextYear(year);
    assert year + 1 == d.year;
    MonthStarts(year);
    MonthStarts(d.year);
  }

  lemma PredecessorInMonth(d: Date)
    requires d.day > 1
    ensures Predecessor(d).Some? && DayNumber(Predecessor(d).value) == DayNumber(d) - 1
  {
    hide Predecessor, DaysBeforeYear, DaysBeforeMonth, DaysInMonth, IsLeapYear;
    PredecessorCases(d);
  }

  lemma PredecessorIsPreviousDay(d: Date)
    ensures Predecessor(d).Some? <==> DayNumber(d) > FIRST_DAY
    ensures Predecessor(d).Some? ==> DayNumber(Predecessor(d).value) == DayNumber(d) - 1
  {
    hide Predecessor, DayNumber, DaysInMonth, IsLeapYear;
    LastIsLatest(d);
    if d.day > 1 {
      PredecessorInMonth(d);
    } else if d.month > 1 {
      PredecessorOfFirst(d);
    } else if d.year > 1 {
      PredecessorOfNewYear(d);
    } else {
      PredecessorCases(d);
    }
  }

  /** add_days: it lands on the day `days` later, and fails exactly when that
      day lies outside years 1 to 9999. */
  method AddDays(d: Date, days: int) returns (r: Option<Date>)
    ensures r.Some? <==> FIRST_DAY <= DayNumber(d) + days <= LAST_DAY
    ensures r.Some? ==> DayNumber(r.value) == DayNumber(d) + days
  {
    hide DayNumber, Successor, Predecessor;
    DayNumberInRange(d);
    var date := d;
    if days > 0 {
      for done := 0 to days
        invariant DayNumber(date) == DayNumber(d) + done <= LAST_DAY
      {
        SuccessorIsNextDay(date);
        var next := Successor(date);
        if next.None? { return None; }
        DayNumberInRange(next.value);
        date := next.value;
      }
    } else {
      for done := 0 to -days
        invariant DayNumber(date) == DayNumber(d) - done >= FIRST_DAY
      {
        PredecessorIsPreviousDay(date);
        var next := Predecessor(date);
        if next.None? { return None; }
        DayNumberInRange(next.value);
        date := next.value;
      }
    }
    r := Some(date);
  }

  /** Stepping forward and stepping back undo each other. */
  lemma StepsUndo(d: Date)
    ensures Successor(d).Some? ==> Predecessor(Successor(d).value) == Some(d)
    ensures Predecessor(d).Some? ==> Successor(Predecessor(d).value) == Some(d)
  {
    hide DayNumber, Successor, Predecessor;
    DayNumberInRange(d);
    SuccessorIsNextDay(d);
    PredecessorIsPreviousDay(d);
    if Successor(d).Some? {
      var next := Successor(d).value;
      PredecessorIsPreviousDay(next);
      DayNumberOrders(Predecessor(next).value, d);
    }
    if Predecessor(d).Some? {
      var previous := Predecessor(d).value;
      SuccessorIsNextDay(previous);
      DayNumberOrders(Successor(previous).value, d);
    }
  }

  lemma {:induction false} SameRemainder(a: int, b: int, k: int)
    requires a == b + 7 * k
    ensures a % 7 == b % 7
    decreases if k < 0 then -k else k
  {
    if k > 0 {
      SameRemainder(a - 7, b, k - 1);
    } else if k < 0 {
      SameRemainder(a + 7, b, k + 1);
    }
  }

  /** The part of the formula that depends on the year. */
  function YearTerm(year: int): int { year + year / 4 - year / 100 + year / 400 }

  lemma YearTermIsDays(year: int)
    ensures DaysBeforeYear(year + 1) == 364 * year + YearTerm(year)
  {}

  /** The month table, against the days before each month. */
  lemma MonthTerm(d: Date)
    ensures d.month < 3 ==> (DaysBeforeMonth(d.year, d.month) - SAKAMOTO[d.month - 1]) % 7 == 0
    ensures d.month >= 3 ==>
      (DaysBeforeMonth(d.year, d.month) - YearLength(d.year) - SAKAMOTO[d.month - 1]) % 7 == 0
  {}

  /** The weekday formula is the day number modulo seven. */
  lemma WeekdayOfDayNumber(d: Date)
    ensures Weekday(d) == DayNumber(d) % 7
  {
    hide DaysBeforeYear, DaysBeforeMonth, YearLength, YearTerm, DaysInMonth;
    var before, shift := DaysBeforeMonth(d.year, d.month), SAKAMOTO[d.month - 1];
    MonthTerm(d);
    if d.month < 3 {
      YearTermIsDays(d.year - 1);
      SameRemainder(DayNumber(d), YearTerm(d.year - 1) + shift + d.day, 52 * (d.year - 1) + (before - shift) / 7);
    } else {
      YearTermIsDays(d.year);
      NextYear(d.year);
      var rest := before - YearLength(d.year) - shift;
      SameRemainder(DayNumber(d), YearTerm(d.year) + shift + d.day, 52 * d.year + rest / 7);
    }
  }

  /** So weekdays advance with the days. */
  lemma WeekdaysAdvance(d: Date, e: Date, days: int)
    requires DayNumber(e) == DayNumber(d) + days
    ensures Weekday(e) == (Weekday(d) + days) % 7
  {
    hide Weekday, DayNumber;
    WeekdayOfDayNumber(d);
    WeekdayOfDayNumber(e);
    var n := DayNumber(d);
    SameRemainder(n + days, n % 7 + days, n / 7);
  }
}
