/** Japanese eras and the written forms of a date. */
module DateText {
  import opened Wrappers
  import opened Decimal
  import opened Calendar

  datatype Era = Era(name: string, start: CivilDate)

  const ERAS := [
    Era("令和", CivilDate(2019, 5, 1)), Era("平成", CivilDate(1989, 1, 8)), Era("昭和", CivilDate(1926, 12, 25)),
    Era("大正", CivilDate(1912, 7, 30)), Era("明治", CivilDate(1868, 1, 25))
  ]

  datatype EraYear = EraYear(name: string, year: int)

  /** Index of the first era in the table, from i on, that had begun. */
  function BegunFrom(d: Date, i: nat): (r: nat)
    requires i <= |ERAS|
    ensures i <= r <= |ERAS|
    ensures r < |ERAS| ==> CompareYmd(d, ERAS[r].start) >= 0
    ensures forall k :: i <= k < r ==> CompareYmd(d, ERAS[k].start) < 0
    decreases |ERAS| - i
  {
    if i == |ERAS| || CompareYmd(d, ERAS[i].start) >= 0 then i else BegunFrom(d, i + 1)
  }

  function JapaneseEra(d: Date): Option<EraYear> {
    var i := BegunFrom(d, 0);
    if i == |ERAS| then None
    else
      var year := d.year - ERAS[i].start.year + 1;
      if year > 0 then Some(EraYear(ERAS[i].name, year)) else None
  }

  /** The source's loop over the table. */
  method FindEra(d: Date) returns (r: Option<EraYear>)
    ensures r == JapaneseEra(d)
  {
    hide CompareYmd;
    for i := 0 to |ERAS|
      invariant BegunFrom(d, 0) == BegunFrom(d, i)
    {
      if CompareYmd(d, ERAS[i].start) >= 0 {
        var year := d.year - ERAS[i].start.year + 1;
        return if year > 0 then Some(EraYear(ERAS[i].name, year)) else None;
      }
    }
    r := None;
  }

  lemma ErasDescend(i: nat, k: nat)
    requires i < k < |ERAS|
    ensures CompareYmd(ERAS[k].start, ERAS[i].start) < 0
    ensures IsReal(ERAS[i].start) && IsReal(ERAS[k].start)
  {}

  /** Era i had begun by d, and every other era begun by then began earlier. */
  predicate LatestBegun(d: Date, i: int)
    requires 0 <= i < |ERAS|
  {
    && CompareYmd(d, ERAS[i].start) >= 0
    && forall k :: 0 <= k < |ERAS| && CompareYmd(d, ERAS[k].start) >= 0 ==>
         k == i || CompareYmd(ERAS[k].start, ERAS[i].start) < 0
  }

  /** A date has an era exactly from 25 January 1868 on; it is the latest era
      begun by then, and its years count from one. */
  lemma EraIsLatestBegun(d: Date)
    ensures JapaneseEra(d).Some? <==> CompareYmd(d, CivilDate(1868, 1, 25)) >= 0
    ensures JapaneseEra(d).Some? ==>
      var r := JapaneseEra(d).value;
      && r.year >= 1
      && exists i :: 0 <= i < |ERAS| && r == EraYear(ERAS[i].name, d.year - ERAS[i].start.year + 1) && LatestBegun(d, i)
  {
    hide IsReal;
    var i := BegunFrom(d, 0);
    if i < |ERAS| {
      if i < 4 {
        Later(d, ERAS[i].start, ERAS[4].start) by { ErasDescend(i, 4); }
      }
      forall k | 0 <= k < |ERAS| && CompareYmd(d, ERAS[k].start) >= 0
        ensures k == i || CompareYmd(ERAS[k].start, ERAS[i].start) < 0
      {
        if k > i { ErasDescend(i, k); }
      }
      assert LatestBegun(d, i);
    }
  }

  lemma Later(a: CivilDate, b: CivilDate, c: CivilDate)
    requires CompareYmd(a, b) >= 0 && CompareYmd(c, b) < 0
    ensures CompareYmd(a, c) >= 0
  {}

  // ------------------------------------------------------------ written forms

  datatype DateFormat = JapaneseEraForm | JapaneseEraWeekday | Gregorian | GregorianWeekday

  const WEEKDAYS := ["日", "月", "火", "水", "木", "金", "土"]

  predicate SupportedFor(f: DateFormat, d: Date) {
    (f.JapaneseEraForm? || f.JapaneseEraWeekday?) ==> JapaneseEra(d).Some?
  }

  function WeekdaySuffix(d: Date, shown: bool): string {
    if shown then "（" + WEEKDAYS[Weekday(d)] + "）" else ""
  }

  /** Month, day and weekday, which all forms share. */
  function Ending(d: Date, weekday: bool): string {
    "年" + (Digits(d.month) + ("月" + (Digits(d.day) + ("日" + WeekdaySuffix(d, weekday)))))
  }

  function EraYearText(year: nat): string { if year == 1 then "元" else Digits(year) }

  function ShowsWeekday(f: DateFormat): bool { f.JapaneseEraWeekday? || f.GregorianWeekday? }

  /** DateFormat::write */
  function Write(f: DateFormat, d: Date): Option<string> {
    if f.Gregorian? || f.GregorianWeekday? then Some(Digits(d.year) + Ending(d, ShowsWeekday(f)))
    else match JapaneseEra(d)
      case None => None
      case Some(era) =>
        if era.year <= 0 then None
        else Some(era.name + (EraYearText(era.year) + Ending(d, ShowsWeekday(f))))
  }

  /** Month, day and form can be read off the ending. */
  lemma EndingInjective(d: Date, weekday: bool, e: Date, other: bool)
    requires Ending(d, weekday) == Ending(e, other)
    ensures d.month == e.month && d.day == e.day && weekday == other
  {
    hide Digits, WeekdaySuffix;
    var c, f := "日" + WeekdaySuffix(d, weekday), "日" + WeekdaySuffix(e, other);
    var b, g := "月" + (Digits(d.day) + c), "月" + (Digits(e.day) + f);
    SamePrefix("年", Digits(d.month) + b, Digits(e.month) + g);
    NumeralSplits(Digits(d.month), b, Digits(e.month), g);
    SamePrefix("月", Digits(d.day) + c, Digits(e.day) + f);
    NumeralSplits(Digits(d.day), c, Digits(e.day), f);
    SamePrefix("日", WeekdaySuffix(d, weekday), WeekdaySuffix(e, other));
    DigitsInjective(d.month, e.month);
    DigitsInjective(d.day, e.day);
    SuffixShown(d, weekday);
    SuffixShown(e, other);
  }

  lemma SuffixShown(d: Date, shown: bool)
    ensures WeekdaySuffix(d, shown) != "" <==> shown
  {}

  lemma EraYearStarts(n: nat)
    ensures EraYearText(n) != "" && (IsDigit(EraYearText(n)[0]) <==> n != 1)
  {
    hide Digits;
    assert IsDigit(Digits(n)[0]);
  }

  lemma EraYearInjective(m: nat, x: string, n: nat, y: string)
    requires EraYearText(m) + x == EraYearText(n) + y
    requires x != "" && x[0] == '年' && y != "" && y[0] == '年'
    ensures m == n && x == y
  {
    hide Digits;
    EraYearStarts(m);
    EraYearStarts(n);
    assert (EraYearText(m) + x)[0] == EraYearText(m)[0] && (EraYearText(n) + y)[0] == EraYearText(n)[0];
    if m == 1 {
      SamePrefix("元", x, y);
    } else {
      NumeralSplits(Digits(m), x, Digits(n), y);
      DigitsInjective(m, n);
    }
  }

  lemma EraNames(i: nat, k: nat)
    requires i < |ERAS| && k < |ERAS|
    ensures |ERAS[i].name| == 2 && !IsDigit(ERAS[i].name[0])
    ensures ERAS[i].name == ERAS[k].name ==> i == k
  {
    assert ERAS[i].name[0] == ERAS[k].name[0] ==> i == k;
  }

  lemma EraOf(d: Date) returns (i: nat)
    requires JapaneseEra(d).Some?
    ensures i < |ERAS| && JapaneseEra(d).value == EraYear(ERAS[i].name, d.year - ERAS[i].start.year + 1)
    ensures JapaneseEra(d).value.year >= 1
  {
    i := BegunFrom(d, 0);
  }

  lemma EndingStarts(d: Date, weekday: bool)
    ensures Ending(d, weekday) != "" && Ending(d, weekday)[0] == '年'
  {}

  lemma GregorianInjective(d: Date, x: bool, e: Date, y: bool)
    requires Digits(d.year) + Ending(d, x) == Digits(e.year) + Ending(e, y)
    ensures d == e && x == y
  {
    hide Digits, Ending;
    EndingStarts(d, x);
    EndingStarts(e, y);
    NumeralSplits(Digits(d.year), Ending(d, x), Digits(e.year), Ending(e, y));
    DigitsInjective(d.year, e.year);
    EndingInjective(d, x, e, y);
  }

  lemma JapaneseInjective(d: Date, x: bool, e: Date, y: bool)
    requires JapaneseEra(d).Some? && JapaneseEra(e).Some?
    requires var a, b := JapaneseEra(d).value, JapaneseEra(e).value;
             a.year >= 1 && b.year >= 1 &&
             a.name + (EraYearText(a.year) + Ending(d, x)) == b.name + (EraYearText(b.year) + Ending(e, y))
    ensures d == e && x == y
  {
    hide IsReal, JapaneseEra, EraYearText, Ending;
    EndingStarts(d, x);
    EndingStarts(e, y);
    var i := EraOf(d);
    var k := EraOf(e);
    EraNames(i, k);
    EraNames(k, i);
    var a, b := JapaneseEra(d).value, JapaneseEra(e).value;
    var rest, other := EraYearText(a.year) + Ending(d, x), EraYearText(b.year) + Ending(e, y);
    assert (a.name + rest)[..2] == a.name && (b.name + other)[..2] == b.name;
    SamePrefix(a.name, rest, other);
    EraYearInjective(a.year, Ending(d, x), b.year, Ending(e, y));
    EndingInjective(d, x, e, y);
  }

  lemma FormsDiffer(d: Date, e: Date, tail: string, other: string)
    requires JapaneseEra(d).Some?
    ensures JapaneseEra(d).value.name + tail != Digits(e.year) + other
  {
    hide JapaneseEra, Digits;
    var i := EraOf(d);
    EraNames(i, i);
    assert (JapaneseEra(d).value.name + tail)[0] == ERAS[i].name[0];
    assert (Digits(e.year) + other)[0] == Digits(e.year)[0];
    assert IsDigit(Digits(e.year)[0]);
  }

  /** No two dates, and no two forms, are ever written alike. */
  lemma WritingInjective(f: DateFormat, d: Date, g: DateFormat, e: Date)
    requires Write(f, d).Some? && Write(f, d) == Write(g, e)
    ensures f == g && d == e
  {
    hide Digits, Ending, JapaneseEra, EraYearText, IsReal;
    var x, y := ShowsWeekday(f), ShowsWeekday(g);
    var gregorian, also := f.Gregorian? || f.GregorianWeekday?, g.Gregorian? || g.GregorianWeekday?;
    if gregorian && also {
      GregorianInjective(d, x, e, y);
    } else if !gregorian && !also {
      JapaneseInjective(d, x, e, y);
    } else if also {
      FormsDiffer(d, e, EraYearText(JapaneseEra(d).value.year) + Ending(d, x), Ending(e, y));
    } else {
      FormsDiffer(e, d, EraYearText(JapaneseEra(e).value.year) + Ending(e, y), Ending(d, x));
    }
  }

  /** A form is written exactly for the dates it supports. */
  lemma WrittenWhereSupported(f: DateFormat, d: Date)
    ensures Write(f, d).Some? <==> SupportedFor(f, d)
  {
    hide Digits, Ending, EraYearText, BegunFrom;
    if JapaneseEra(d).Some? { var _ := EraOf(d); }
  }
}
