/** ISO week dates, as they are printed with %G and %V and read back. */
module IsoWeeks {
  import opened Calendar
  import opened CivilDates
  import opened Weekdays

  const Monday: Byte := 1
  const Thursday: Byte := 4

  // ---------- ISO 8601:2004, section 4.1.4 ----------

  /** The Monday of the week of a day. */
  function MondayOf(days: int): int {
    days - (days + 3) % 7
  }

  function ThursdayOf(days: int): int {
    MondayOf(days) + 3
  }

  /** The year of a week is that of its Thursday. */
  predicate InIsoYear(days: int, g: int) {
    YearStart(g) <= ThursdayOf(days) < YearStart(g + 1)
  }

  /** The week's number is that of its Thursday among the Thursdays of the year. */
  function WeekNumber(days: int, g: int): int {
    (ThursdayOf(days) - YearStart(g)) / 7 + 1
  }

  /** The Monday of week 1, which has the fourth of January in it. */
  function WeekOne(g: int): int {
    MondayOf(YearStart(g) + 3)
  }

  function WeeksIn(g: int): int {
    (WeekOne(g + 1) - WeekOne(g)) / 7
  }

  lemma WeekNumberRange(days: int, g: int)
    requires InIsoYear(days, g)
    ensures 1 <= WeekNumber(days, g) <= 53
  {
    YearLength(g);
    hide YearStart, IsLeap;
  }

  lemma WeekOneNear(g: int)
    ensures YearStart(g) - 3 <= WeekOne(g) <= YearStart(g) + 3 && (WeekOne(g) + 3) % 7 == 0
  {
    hide YearStart;
  }

  /** A day is in the year whose first week is the last to begin by then. */
  lemma IsoYearIs(days: int, g: int)
    ensures InIsoYear(days, g) <==> WeekOne(g) <= days < WeekOne(g + 1)
  {
    WeekOneNear(g);
    WeekOneNear(g + 1);
    MondaysApart(days, WeekOne(g));
    MondaysApart(days, WeekOne(g + 1));
    hide YearStart, WeekOne;
  }

  lemma MondaysApart(days: int, monday: int)
    requires (monday + 3) % 7 == 0
    ensures days >= monday <==> MondayOf(days) >= monday
    ensures days < monday <==> MondayOf(days) <= monday - 7
    ensures (days - monday) / 7 == (MondayOf(days) - monday) / 7 && (MondayOf(days) - monday) % 7 == 0
  {
  }

  lemma WeekNumberIs(days: int, g: int)
    requires InIsoYear(days, g)
    ensures WeekNumber(days, g) == (days - WeekOne(g)) / 7 + 1
  {
    WeekOneNear(g);
    MondaysApart(days, WeekOne(g));
    hide YearStart, WeekOne;
  }

  // ---------- the formulas of the source ----------

  /** `local_days((y - years{1})/December/Thursday[last]) + (Monday - Thursday)` */
  function WeekStart(y: int): (days: int) {
    LastToDays(Short(y - 1), 12, Thursday) + Minus(Monday, Thursday)
  }

  lemma WeekStartIsWeekOne(y: int)
    requires -32767 <= y <= 32768
    ensures WeekStart(y) == WeekOne(y)
  {
    hide LastToDays, Number;
    ShortFits(y - 1);
    var off := LastOff(Short(y - 1), 12, Thursday);
    MinusIsFloored(Monday, Thursday);
    assert Number(y - 1, 12, 31) == YearStart(y) - 1 by {
      YearEnd(y - 1);
    }
    hide YearStart, Short;
    var e := YearStart(y) - 1;
    OneThursday(e, off);
  }

  lemma YearEnd(y: int)
    ensures Number(y, 12, 31) == YearStart(y + 1) - 1
  {
    YearLength(y);
  }

  lemma OneThursday(e: int, off: int)
    requires 0 <= off < 7 && (e - off + 4) % 7 == 4
    ensures e - off + 4 == MondayOf(e + 4)
  {
  }

  /** Where the formulas start: with the calendar year three days on. */
  lemma ThreeDaysOn(ld: int) returns (y: int)
    requires FirstDay <= ld <= FinalDay
    ensures -32767 <= y <= 32768 && FromDays(ld + 3).y == Short(y) && WeekStart(Short(y)) == WeekOne(y)
    ensures ld < WeekOne(y) ==> InIsoYear(ld, y - 1)
    ensures ld >= WeekOne(y) ==> InIsoYear(ld, y) && y < 32768
    ensures ld < WeekOne(y) && y == -32767 <==> ld < FirstDay + 2
  {
    hide YearStart, LastToDays, FromDays, Number, LastDay, Into, InIsoYear, WeekOne, Minus, Short;
    y := DayHasDate(ld + 3);
    var x := FromDays(ld + 3);
    Bounds();
    FinalWeek();
    YearOfDay(y, x.m, x.d, -32767, 32769);
    YearOfDay(y, x.m, x.d, y, y + 1);
    WeekStartIsWeekOne(y);
    ShortOfShort(y);
    WeekOneNear(y);
    WeekOneNear(y - 1);
    WeekOneNear(y + 1);
    YearLength(y - 1);
    YearDaysBound(y - 1);
    IsoYearIs(ld, y);
    IsoYearIs(ld, y - 1);
    if y >= -32766 {
      YearGrowsOrSame(-32766, y);
    }
  }

  lemma FinalWeek()
    ensures WeekOne(32768) == FinalDay + 1 && WeekOne(-32767) == FirstDay + 2
    ensures YearStart(32769) > FinalDay + 300 && YearStart(-32766) > FirstDay + 300
  {
    assert YearStart(32768) == FinalDay + 1;
    assert YearStart(-32767) == FirstDay;
    hide YearStart;
    YearLength(32768);
    YearLength(-32767);
  }

  lemma ShortOfShort(y: int)
    ensures Short(Short(y) - 1) == Short(y - 1)
    ensures -32768 <= y < 32768 ==> Short(y) == y
  {
  }

  /** %G: the ISO year; for the two days of it in year -32767, it is year -32768, which is not ok. */
  method IsoYear(ymd: YearMonthDay) returns (y: Year)
    requires Ok(ymd)
    ensures InIsoYear(ToDays(ymd), y)
    ensures y == -32768 <==> ToDays(ymd) < FirstDay + 2
  {
    var ld := ToDays(ymd);
    y := FromDays(ld + 3).y;
    var start := WeekStart(y);
    hide *;
    DateRoundTrip(ymd);
    var yy := ThreeDaysOn(ld);
    ShortOfShort(yy);
    ShortOfShort(yy - 1);
    if ld < start {
      y := Short(y - 1);
    }
  }

  lemma OneIsoYear(days: int, g: int, h: int)
    requires InIsoYear(days, g) && InIsoYear(days, h)
    ensures g == h
  {
    hide YearStart;
    if g < h {
      YearGrowsOrSame(g + 1, h);
    } else if h < g {
      YearGrowsOrSame(h + 1, g);
    }
  }

  /** The Monday from which the weeks are counted in the end. */
  lemma WeekStartBefore(y: int)
    requires -32767 <= y <= 32768
    ensures WeekStart(Short(Short(y) - 1)) == if y == -32767 then FinalDay + 1 else WeekOne(y - 1)
  {
    hide WeekOne, LastToDays, Minus;
    ShortOfShort(y);
    if y == -32767 {
      WeekStartIsWeekOne(32768);
      FinalWeek();
    } else {
      ShortFits(y - 1);
      WeekStartIsWeekOne(y - 1);
    }
  }

  /** %V: the week's number, or none at all for the same two days. */
  method IsoWeek(ymd: YearMonthDay) returns (wn: int)
    requires Ok(ymd)
    ensures ToDays(ymd) >= FirstDay + 2 ==>
      1 <= wn <= 53 && forall g :: InIsoYear(ToDays(ymd), g) ==> wn == WeekNumber(ToDays(ymd), g)
    ensures ToDays(ymd) < FirstDay + 2 ==> wn == -3419451
  {
    hide ToDays, FromDays, LastDay, WeekStart, WeekOne, Short, TruncDiv, InIsoYear, WeekNumber;
    var ld := ToDays(ymd);
    var y: int := FromDays(ld + 3).y;
    DateRoundTrip(ymd);
    ghost var yy := ThreeDaysOn(ld);
    WeekStartBefore(yy);
    FinalWeek();
    ghost var g := if ld < WeekOne(yy) then yy - 1 else yy;
    var st := WeekStart(y);
    if ld < st {
      y := Short(y - 1);
      st := WeekStart(y);
    }
    WeeksSince(ld, st, g);
    wn := TruncDiv(ld - st, 7) + 1;
    forall h | InIsoYear(ld, h) ensures h == g {
      OneIsoYear(ld, g, h);
    }
  }

  lemma WeeksSince(ld: int, st: int, g: int)
    requires FirstDay <= ld <= FinalDay && InIsoYear(ld, g)
    requires st == if ld < FirstDay + 2 then FinalDay + 1 else WeekOne(g)
    ensures ld < FirstDay + 2 ==> TruncDiv(ld - st, 7) + 1 == -3419451
    ensures ld >= FirstDay + 2 ==> TruncDiv(ld - st, 7) + 1 == WeekNumber(ld, g) && 1 <= WeekNumber(ld, g) <= 53
  {
    hide YearStart, WeekOne, InIsoYear, WeekNumber;
    WeekNumberRange(ld, g);
    WeekNumberIs(ld, g);
    IsoYearIs(ld, g);
  }

  // ---------- reading back ----------

  datatype Parsed = Broken | Date(y: int, m: int, d: int)

  datatype Option<T> = None | Some(value: T)

  /** The day that year, week and weekday name. */
  function NamedDay(g: int, v: int, wd: Nibble): (days: int) {
    LastToDays(Short(g - 1), 12, Thursday) + Minus(Monday, Thursday) + 7 * (v - 1) + Minus(Weekday(wd), Monday)
  }

  /** The block that makes a date of %G, %V and a weekday, and compares it with what else was read. */
  method ReadIso(g: int, v: int, wd: Nibble, yRead: Option<int>, mRead: Option<Byte>, dRead: Option<Byte>)
    returns (r: Parsed)
    ensures var x := FromDays(NamedDay(g, v, wd));
            r == if (yRead.Some? && Short(yRead.value) != x.y) || (mRead.Some? && mRead.value != x.m)
                    || (dRead.Some? && dRead.value != x.d) then Broken
                 else Date(if yRead.Some? then yRead.value else x.y, x.m, x.d)
  {
    hide *;
    var trial := FromDays(NamedDay(g, v, wd));
    var y, m, d := yRead, mRead, dRead;
    if y == None {
      y := Some(trial.y);
    } else if Short(y.value) != trial.y {
      return Broken;
    }
    if m == None {
      m := Some(trial.m);
    } else if m.value != trial.m {
      return Broken;
    }
    if d == None {
      d := Some(trial.d);
    } else if d.value != trial.d {
      return Broken;
    }
    return Date(y.value, m.value, d.value);
  }

  lemma NamedDayIs(g: int, v: int, wd: Nibble)
    requires -32767 <= g <= 32768
    ensures NamedDay(g, v, wd) == WeekOne(g) + 7 * (v - 1) + (Weekday(wd) - 1) % 7
  {
    hide WeekOne, LastToDays, Minus;
    WeekStartIsWeekOne(g);
    MinusIsFloored(Weekday(wd), Monday);
  }

  /** What is printed for a date with %G, %V and its weekday reads back as that date. */
  lemma PrintedReadsBack(x: YearMonthDay, g: int, v: int)
    requires Ok(x) && ToDays(x) >= FirstDay + 2 && InIsoYear(ToDays(x), g) && v == WeekNumber(ToDays(x), g)
    ensures -32767 <= g <= 32767 && FromDays(NamedDay(g, v, WeekdayFromDays(ToDays(x)) % 16)) == x
  {
    hide WeekOne, LastToDays, ToDays, FromDays, InIsoYear, WeekNumber, NamedDay, WeekdayFromDays, YearStart, LastDay;
    var days := ToDays(x);
    DateRoundTrip(x);
    IsoYearRange(days, g);
    WeekNumberIs(days, g);
    WeekdayIsFloored(days);
    NamedDayIs(g, v, WeekdayFromDays(days) % 16);
    WeekOneNear(g);
    WeekAndDay(days, WeekOne(g));
  }

  lemma WeekAndDay(days: int, monday: int)
    requires (monday + 3) % 7 == 0
    ensures monday + 7 * ((days - monday) / 7 + 1 - 1) + ((days + 4) % 7 - 1) % 7 == days
  {
    assert (days - monday) % 7 == (days + 3) % 7;
    assert ((days + 4) % 7 - 1) % 7 == (days + 3) % 7;
  }

  lemma IsoYearRange(days: int, g: int)
    requires FirstDay + 2 <= days <= FinalDay && InIsoYear(days, g)
    ensures -32767 <= g <= 32767
  {
    hide WeekOne, YearStart;
    FinalWeek();
    IsoYearIs(days, g);
    if g < -32767 {
      WeekOnesGrow(g + 1, -32767);
    } else if g > 32767 {
      WeekOnesGrow(32768, g);
    }
  }

  lemma WeekOnesGrow(g: int, h: int)
    requires g <= h
    ensures WeekOne(g) <= WeekOne(h)
  {
    hide WeekOne, YearStart;
    WeekOneNear(g);
    WeekOneNear(h);
    if g < h {
      YearsGrow(g, h);
      YearDaysBound(g);
    }
  }

  /** The day named has a date, and is of that year and that week. */
  predicate NamesWeek(g: int, v: int, wd: Nibble) {
    var days := NamedDay(g, v, wd);
    FirstDay <= days <= FinalDay && InIsoYear(days, g) && WeekNumber(days, g) == v
  }

  /** Of the years and weeks that can be read, exactly those that there are name days of that year
      and week within the range of dates; a year beyond 16 bits or a week too many does not. */
  lemma NamedIffThere(g: int, v: int, wd: Nibble)
    requires 0 <= v <= 99
    ensures NamesWeek(g, v, wd) <==> -32767 <= g <= 32767 && 1 <= v <= WeeksIn(g)
  {
    hide WeekOne, LastToDays, InIsoYear, WeekNumber, NamedDay, WeekdayFromDays, YearStart;
    var days := NamedDay(g, v, wd);
    if -32767 <= g <= 32767 {
      NamedWithin(g, v, wd);
      WeekOneNear(g);
      WeekOneNear(g + 1);
      assert (WeekOne(g + 1) - WeekOne(g)) % 7 == 0;
      DayOfWeek(WeekOne(g), v - 1, Weekday(wd));
    } else {
      NamedBeyond(g, v, wd);
    }
  }

  lemma NamedWithin(g: int, v: int, wd: Nibble)
    requires -32767 <= g <= 32767 && 0 <= v <= 99
    ensures var days := NamedDay(g, v, wd);
            && days == WeekOne(g) + 7 * (v - 1) + (Weekday(wd) - 1) % 7
            && (InIsoYear(days, g) <==> WeekOne(g) <= days < WeekOne(g + 1))
            && (InIsoYear(days, g) ==> FirstDay <= days <= FinalDay && WeekNumber(days, g) == (days - WeekOne(g)) / 7 + 1)
  {
    hide WeekOne, LastToDays, InIsoYear, WeekNumber, NamedDay, WeekdayFromDays, YearStart;
    var days := NamedDay(g, v, wd);
    NamedDayIs(g, v, wd);
    IsoYearIs(days, g);
    FinalWeek();
    WeekOnesGrow(-32767, g);
    WeekOnesGrow(g + 1, 32768);
    if InIsoYear(days, g) {
      WeekNumberIs(days, g);
    }
  }

  /** A year of more than 16 bits wraps to one of which the day named is. */
  lemma NamedBeyond(g: int, v: int, wd: Nibble)
    requires 0 <= v <= 99 && (g < -32767 || g > 32767)
    ensures !NamesWeek(g, v, wd)
  {
    hide WeekOne, LastToDays, InIsoYear, WeekNumber, NamedDay, WeekdayFromDays, YearStart;
    var days := NamedDay(g, v, wd);
    FinalWeek();
    IsoYearIs(days, g);
    if g == -32768 {
      SameNamed(v, wd);
      NamedDayIs(32768, v, wd);
    } else if g < -32768 {
      WeekOneNear(-32768);
      WeekOneNear(-32767);
      YearsGrow(-32768, -32767);
      YearDaysBound(-32768);
      WeekOnesGrow(g + 1, -32768);
    } else {
      WeekOnesGrow(32768, g);
    }
  }

  lemma SameNamed(v: int, wd: Nibble)
    ensures NamedDay(-32768, v, wd) == NamedDay(32768, v, wd)
  {
    hide LastToDays, Minus;
    assert Short(-32769) == Short(32767);
  }

  lemma DayOfWeek(monday: int, weeks: int, wd: int)
    requires (monday + 3) % 7 == 0
    ensures (monday + 7 * weeks + (wd - 1) % 7 - monday) / 7 == weeks
    ensures 0 <= wd <= 6 ==> (monday + 7 * weeks + (wd - 1) % 7 + 4) % 7 == wd
  {
  }
}
