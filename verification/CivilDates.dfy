/** Dates and day counts are two views of the same days. */
module CivilDates {
  import opened Calendar

  /** The first and the last day whose year fits: -32767-01-01 and 32767-12-31. */
  const FirstDay := -12687428
  const FinalDay := 11248737

  predicate Valid(y: int, m: int, d: int) {
    1 <= m <= 12 && 1 <= d <= LastDay(y, m)
  }

  predicate Earlier(y: int, m: int, d: int, y': int, m': int, d': int) {
    y < y' || (y == y' && (m < m' || (m == m' && d < d')))
  }

  lemma WithinYear(y: int, m: int, d: int)
    requires Valid(y, m, d)
    ensures YearStart(y) <= Number(y, m, d) < YearStart(y) + YearDays(y)
  {
    if m < 12 {
      IntoGrows(y, m, 12);
    }
  }

  lemma EarlierIsLess(y: int, m: int, d: int, y': int, m': int, d': int)
    requires Valid(y, m, d) && Valid(y', m', d') && Earlier(y, m, d, y', m', d')
    ensures Number(y, m, d) < Number(y', m', d')
  {
    hide YearStart, YearDays, Into, LastDay;
    if y < y' {
      WithinYear(y, m, d);
      WithinYear(y', m', d');
      YearsGrow(y, y');
    } else if m < m' {
      IntoGrows(y, m, m');
      WithinMonths(y, m, d, m', d');
    } else {
      SameMonth(y, m, d, d');
    }
  }

  lemma WithinMonths(y: int, m: int, d: int, m': int, d': int)
    requires Valid(y, m, d) && Valid(y, m', d') && Into(y, m) + LastDay(y, m) <= Into(y, m')
    ensures Number(y, m, d) < Number(y, m', d')
  {
    hide YearStart, Into, LastDay;
  }

  lemma SameMonth(y: int, m: int, d: int, d': int)
    requires 1 <= m <= 12
    ensures Number(y, m, d') - Number(y, m, d) == d' - d
  {
  }

  lemma NumberTellsDate(y: int, m: int, d: int, y': int, m': int, d': int)
    requires Valid(y, m, d) && Valid(y', m', d') && Number(y, m, d) == Number(y', m', d')
    ensures y == y' && m == m' && d == d'
  {
    hide Number, Valid;
    if Earlier(y, m, d, y', m', d') {
      EarlierIsLess(y, m, d, y', m', d');
    } else if Earlier(y', m', d', y, m, d) {
      EarlierIsLess(y', m', d', y, m, d);
    }
  }

  /** The years of the days between two year starts. */
  lemma YearOfDay(y: int, m: int, d: int, from: int, to: int)
    requires Valid(y, m, d)
    ensures from <= y < to <==> YearStart(from) <= Number(y, m, d) < YearStart(to)
  {
    hide YearStart, YearDays, Number, Valid;
    WithinYear(y, m, d);
    if y < from {
      YearsGrow(y, from);
    } else if y >= to {
      YearGrowsOrSame(to, y);
    } else {
      YearGrowsOrSame(from, y);
      YearsGrow(y, to);
    }
  }

  lemma YearGrowsOrSame(y: int, z: int)
    requires y <= z
    ensures YearStart(y) <= YearStart(z)
  {
    if y < z {
      YearsGrow(y, z);
      YearDaysBound(y);
    }
  }

  lemma Bounds()
    ensures YearStart(-32767) == FirstDay && YearStart(32768) == FinalDay + 1 && YearStart(-32768) == FirstDay - 366
  {
  }

  /** Every date has its own day: counting days loses nothing, not even in year -32768. */
  lemma DateRoundTrip(x: YearMonthDay)
    requires Valid(x.y, x.m, x.d)
    ensures FromDays(ToDays(x)) == x
    ensures FirstDay <= ToDays(x) <= FinalDay <==> Ok(x)
  {
    hide YearStart, Into, ToDays, FromDays, LastDay, Number, Short;
    ToDaysIsNumber(x);
    YearOfDay(x.y, x.m, x.d, -32767, 32768);
    Bounds();
    var y := DayHasDate(ToDays(x));
    NumberTellsDate(x.y, x.m, x.d, y, FromDays(ToDays(x)).m, FromDays(ToDays(x)).d);
    ShortFits(y);
  }

  lemma ShortFits(y: int)
    requires -32768 <= y < 32768
    ensures Short(y) == y
  {
  }

  /** The days that have a date are exactly those whose year fits its field. */
  lemma DayRoundTrip(days: int)
    ensures FirstDay <= days <= FinalDay <==> Ok(FromDays(days)) && ToDays(FromDays(days)) == days
    ensures FirstDay - 366 <= days <= FinalDay <==> ToDays(FromDays(days)) == days
  {
    hide YearStart, Into, ToDays, FromDays, LastDay, Number, Short;
    var y := DayHasDate(days);
    var x := FromDays(days);
    Bounds();
    YearOfDay(y, x.m, x.d, -32767, 32768);
    YearOfDay(y, x.m, x.d, -32768, 32768);
    ToDaysIsNumber(x);
    if -32768 <= y < 32768 {
      ShortFits(y);
    } else {
      OtherYear(x.y, y, x.m, x.d);
    }
  }

  lemma OtherYear(y: int, z: int, m: int, d: int)
    requires 1 <= m <= 12 && 1 <= d <= LastDay(z, m) && y != z
    ensures Number(y, m, d) != Number(z, m, d)
  {
    if y < z {
      YearsGrow(y, z);
    } else {
      YearsGrow(z, y);
    }
    hide YearStart;
  }

  /** The calendar's successor is the next day. */
  lemma NextIsOneMore(x: YearMonthDay)
    requires Ok(x) && x != YearMonthDay(32767, 12, 31)
    ensures Ok(Next(x)) && ToDays(Next(x)) == ToDays(x) + 1
  {
    ToDaysIsNumber(x);
    ToDaysIsNumber(Next(x));
    hide ToDays, YearStart;
    if x.d == LastDay(x.y, x.m) {
      if x.m < 12 {
        IntoGrows(x.y, x.m, x.m + 1);
      } else {
        YearLength(x.y);
      }
    }
  }

  lemma NextDay(days: int)
    requires FirstDay <= days < FinalDay
    ensures Ok(FromDays(days)) && FromDays(days + 1) == Next(FromDays(days))
  {
    hide FromDays, ToDays, Next, LastDay, Short;
    var x := FromDays(days);
    DayRoundTrip(days);
    FinalDate();
    NextIsOneMore(x);
    DateRoundTrip(Next(x));
  }

  lemma FinalDate()
    ensures ToDays(YearMonthDay(32767, 12, 31)) == FinalDay
  {
    hide ToDays;
    ToDaysIsNumber(YearMonthDay(32767, 12, 31));
  }

  /** Day 0 is 1970-01-01. */
  lemma Epoch()
    ensures FromDays(0) == YearMonthDay(1970, 1, 1)
  {
    hide FromDays, ToDays;
    ToDaysIsNumber(YearMonthDay(1970, 1, 1));
    DateRoundTrip(YearMonthDay(1970, 1, 1));
  }

  /** The date n days after x, by the calendar alone. */
  ghost function After(x: YearMonthDay, n: nat): YearMonthDay {
    if n == 0 then x else
      var y := After(x, n - 1);
      if MonthOk(y.m) && 1 <= y.d <= LastDay(y.y, y.m) then Next(y) else y
  }

  /** Counting on from 1970-01-01 day by day gives the same dates. */
  lemma {:induction false} DaysAreCounted(days: int, n: nat)
    requires FirstDay <= days && days + n <= FinalDay
    ensures FromDays(days + n) == After(FromDays(days), n)
  {
    hide FromDays, ToDays, Next, LastDay;
    if n > 0 {
      DaysAreCounted(days, n - 1);
      NextDay(days + n - 1);
      DayRoundTrip(days + n - 1);
    }
  }

  /** Dates compare as their days do. */
  lemma LessIsEarlier(a: YearMonthDay, b: YearMonthDay)
    requires Ok(a) && Ok(b)
    ensures Less(a, b) <==> ToDays(a) < ToDays(b)
  {
    hide ToDays, Number, LastDay;
    ToDaysIsNumber(a);
    ToDaysIsNumber(b);
    if Earlier(a.y, a.m, a.d, b.y, b.m, b.d) {
      EarlierIsLess(a.y, a.m, a.d, b.y, b.m, b.d);
    } else if Earlier(b.y, b.m, b.d, a.y, a.m, a.d) {
      EarlierIsLess(b.y, b.m, b.d, a.y, a.m, a.d);
    }
  }
}
