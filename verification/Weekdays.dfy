/** Weekdays, and dates told by the n-th or the last weekday of a month. */
module Weekdays {
  import opened Calendar
  import opened CivilDates

  predicate Int32(z: int) {
    -0x8000_0000 <= z < 0x8000_0000
  }

  function WeekdayFromDays(z: int): (wd: Byte) {
    var u := U32(z);
    if z >= -4 then U32(u + 4) % 7 else u % 7
  }

  /** The constructor: 7 is another name of Sunday. */
  function Weekday(wd: Byte): (r: Byte) {
    if wd != 7 then wd else 0
  }

  function Minus(x: Byte, y: Byte): (days: int) {
    var wdu := x - y;
    var wk := TruncDiv(if wdu >= 0 then wdu else wdu - 6, 7);
    wdu - wk * 7
  }

  function Plus(x: Byte, days: int): (wd: Byte) {
    var wdu := x + days;
    var wk := TruncDiv(if wdu >= 0 then wdu else wdu - 6, 7);
    FloorIdiom(wdu, 7);
    Weekday(wdu - wk * 7)
  }

  /** The two wrapped cases are one remainder of the unwrapped count. */
  lemma WeekdayIsFloored(z: int)
    requires Int32(z)
    ensures WeekdayFromDays(z) == (z + 4) % 7
  {
    if z < -4 {
      assert U32(z) == z + 0x1_0000_0000;
      assert (z + 0x1_0000_0000) % 7 == (z + 4) % 7 by {
        assert 0x1_0000_0000 == 7 * 613566756 + 4;
      }
    } else if z < 0 {
      assert U32(U32(z) + 4) == z + 4;
    }
  }

  lemma MinusIsFloored(x: Byte, y: Byte)
    ensures Minus(x, y) == (x - y) % 7
  {
    FloorIdiom(x - y, 7);
  }

  lemma PlusIsFloored(x: Byte, days: int)
    ensures Plus(x, days) == (x + days) % 7
  {
    FloorIdiom(x + days, 7);
  }

  lemma RemaindersAdd(a: int, b: int)
    ensures (a % 7 + b) % 7 == (a + b) % 7 && (b + a % 7) % 7 == (a + b) % 7 && (b - a % 7) % 7 == (b - a) % 7
  {
    var k := a / 7;
    assert a == 7 * k + a % 7;
    SevensAway(a + b, -k);
    SevensAway(b - a, k);
  }

  lemma SevensAway(x: int, k: int)
    ensures (x + 7 * k) % 7 == x % 7
  {
  }

  /** Adding back what was subtracted gives the weekday, exactly when it is one. */
  lemma PlusUndoesMinus(x: Byte, y: Byte)
    ensures Plus(y, Minus(x, y)) == x <==> x <= 6
  {
    hide Plus, Minus;
    MinusIsFloored(x, y);
    PlusIsFloored(y, Minus(x, y));
    RemaindersAdd(x - y, y);
  }

  /** Weekdays go on with the days. */
  lemma WeekdayGoesOn(z: int, n: int)
    requires Int32(z) && Int32(z + n)
    ensures Plus(WeekdayFromDays(z), n) == WeekdayFromDays(z + n)
  {
    hide Plus, WeekdayFromDays;
    WeekdayIsFloored(z);
    WeekdayIsFloored(z + n);
    PlusIsFloored(WeekdayFromDays(z), n);
    RemaindersAdd(z + 4, n);
  }

  lemma WeekdaysApart(a: int, b: int)
    requires Int32(a) && Int32(b)
    ensures Minus(WeekdayFromDays(a), WeekdayFromDays(b)) == (a - b) % 7
  {
    hide Minus, WeekdayFromDays;
    WeekdayIsFloored(a);
    WeekdayIsFloored(b);
    MinusIsFloored(WeekdayFromDays(a), WeekdayFromDays(b));
    RemaindersAdd(a + 4, -((b + 4) % 7));
    RemaindersAdd(b + 4, a + 4);
  }

  // ---------- the n-th weekday of a month ----------

  type Nibble = b: int | 0 <= b < 16

  datatype YearMonthWeekday = YearMonthWeekday(y: Year, m: Byte, wd: Nibble, index: Nibble)

  /** The comparison of the source, which reads the weekday through its constructor. */
  predicate Same(a: YearMonthWeekday, b: YearMonthWeekday) {
    a.y == b.y && a.m == b.m && Weekday(a.wd) == Weekday(b.wd) && a.index == b.index
  }

  predicate NthOk(x: YearMonthWeekday) {
    if !YearOk(x.y) || !MonthOk(x.m) || !(Weekday(x.wd) <= 6) || x.index < 1 then false
    else if x.index <= 4 then true
    else
      var d2 := Minus(Weekday(x.wd), WeekdayFromDays(ToDays(YearMonthDay(x.y, x.m, 1)))) + I32(U32((x.index - 1) * 7 + 1));
      U32(d2) <= LastDay(x.y, x.m)
  }

  function NthFromDays(days: int): (x: YearMonthWeekday) {
    var wd, ymd := WeekdayFromDays(days), FromDays(days);
    YearMonthWeekday(ymd.y, ymd.m, wd % 16, ((ymd.d - 1) / 7 + 1) % 16)
  }

  function NthToDays(x: YearMonthWeekday): (days: int) {
    var d := ToDays(YearMonthDay(x.y, x.m, 1));
    d + (Minus(Weekday(x.wd), WeekdayFromDays(d)) + I32(U32(U32(x.index - 1) * 7)))
  }

  /** What the n-th weekday is, for any index. */
  lemma NthDay(x: YearMonthWeekday) returns (off: int)
    requires MonthOk(x.m)
    ensures 0 <= off < 7 && NthToDays(x) == Number(x.y, x.m, 1) + off + (x.index - 1) * 7
    ensures (Number(x.y, x.m, 1) + off + 4 - Weekday(x.wd)) % 7 == 0
    ensures NthOk(x) <==> YearOk(x.y) && Weekday(x.wd) <= 6 && x.index >= 1 && off + (x.index - 1) * 7 + 1 <= LastDay(x.y, x.m)
  {
    hide Number, ToDays, Minus, WeekdayFromDays, LastDay;
    var first := ToDays(YearMonthDay(x.y, x.m, 1));
    ToDaysIsNumber(YearMonthDay(x.y, x.m, 1));
    FirstFits(x.y, x.m);
    WeekdayIsFloored(first);
    MinusIsFloored(Weekday(x.wd), WeekdayFromDays(first));
    off := Minus(Weekday(x.wd), WeekdayFromDays(first));
    RemaindersAdd(first + 4, Weekday(x.wd));
    RemaindersAdd(Weekday(x.wd) - first - 4, first + 4 - Weekday(x.wd));
    IndexWraps(x.index);
    if x.index >= 1 {
      FitsAlready(off + (x.index - 1) * 7 + 1);
    }
    AtLeast28(x.y, x.m);
  }

  lemma AtLeast28(y: int, m: int)
    requires 1 <= m <= 12
    ensures 28 <= LastDay(y, m) <= 31
  {
  }

  lemma IndexWraps(index: Nibble)
    ensures I32(U32(U32(index - 1) * 7)) == (index - 1) * 7
    ensures index >= 1 ==> I32(U32((index - 1) * 7 + 1)) == (index - 1) * 7 + 1
  {
  }

  lemma FirstFits(y: Year, m: Byte)
    requires MonthOk(m)
    ensures Int32(Number(y, m, 1) - 1000) && Int32(Number(y, m, 1) + 1000)
  {
  }

  /** The n-th weekday exists: it is not past the end of the month. */
  predicate InMonth(x: YearMonthWeekday) {
    MonthOk(x.m) && Weekday(x.wd) <= 6 && x.index >= 1 && NthToDays(x) < Number(x.y, x.m, 1) + LastDay(x.y, x.m)
  }

  lemma NthRoundTrips(x: YearMonthWeekday)
    requires InMonth(x)
    ensures Same(NthFromDays(NthToDays(x)), x)
  {
    hide Number, ToDays, FromDays, Minus, WeekdayFromDays, LastDay, NthOk, NthToDays;
    var off := NthDay(x);
    var k := off + (x.index - 1) * 7 + 1;
    AtLeast28(x.y, x.m);
    OfTheMonth(x.y, x.m, k);
    ToDaysIsNumber(YearMonthDay(x.y, x.m, k));
    DateRoundTrip(YearMonthDay(x.y, x.m, k));
    FirstFits(x.y, x.m);
    WeekdayIsFloored(NthToDays(x));
    var rest := Number(x.y, x.m, 1) + off + 4 - Weekday(x.wd);
    WeeksLater(rest / 7, x.index - 1, Weekday(x.wd));
    assert (k - 1) / 7 + 1 == x.index;
  }

  lemma NthOkIsInMonth(x: YearMonthWeekday)
    ensures NthOk(x) <==> YearOk(x.y) && InMonth(x)
  {
    if MonthOk(x.m) {
      var off := NthDay(x);
      hide NthOk, NthToDays, LastDay, Number;
    }
  }

  lemma WeeksLater(a: int, b: int, wd: int)
    requires 0 <= wd < 7
    ensures (7 * a + wd + b * 7) % 7 == wd
  {
  }

  lemma RoundTripIsOk(x: YearMonthWeekday)
    requires Same(NthFromDays(NthToDays(x)), x)
    ensures InMonth(x)
  {
    hide Number, ToDays, FromDays, Minus, WeekdayFromDays, LastDay, NthOk, NthToDays, Short;
    var days := NthToDays(x);
    var date := FromDays(days);
    var y := DayHasDate(days);
    var off := NthDay(x);
    OfTheMonth(y, x.m, date.d);
    if y == x.y {
      assert date.d == off + (x.index - 1) * 7 + 1;
      WeekdayRange(days);
    } else {
      FarAway(x.y, y, x.m);
      AtLeast28(y, x.m);
    }
  }

  lemma WeekdayRange(z: int)
    ensures WeekdayFromDays(z) <= 6
  {
  }

  /** Years that look alike in 16 bits are far apart. */
  lemma FarAway(x: Year, y: int, m: int)
    requires 1 <= m <= 12 && x == Short(y) && x != y
    ensures Number(y, m, 1) > Number(x, m, 1) + 1000 || Number(y, m, 1) < Number(x, m, 1) - 1000
  {
    if y < -32768 || y >= 32768 {
      if y < x {
        assert x - y >= 65536;
      } else {
        assert y - x >= 65536;
      }
    } else {
      ShortFits(y);
    }
  }

  /** `ok()` says whether going to days and back is the identity, but for year -32768. */
  lemma NthOkIffRoundTrip(x: YearMonthWeekday)
    ensures NthOk(x) <==> YearOk(x.y) && Same(NthFromDays(NthToDays(x)), x)
  {
    hide NthFromDays, NthToDays, NthOk, InMonth, Same;
    NthOkIsInMonth(x);
    if InMonth(x) {
      NthRoundTrips(x);
    } else if Same(NthFromDays(NthToDays(x)), x) {
      RoundTripIsOk(x);
    }
  }

  /** In year -32768, which is never ok, the round trip can be the identity all the same. */
  lemma YearMinimumRoundTrips()
    ensures var x := YearMonthWeekday(-32768, 6, 1, 1); !NthOk(x) && Same(NthFromDays(NthToDays(x)), x)
  {
    var x := YearMonthWeekday(-32768, 6, 1, 1);
    var off := NthDay(x);
    AtLeast28(x.y, x.m);
    NthRoundTrips(x);
  }

  /** Every day is the n-th some weekday of its month, exactly when its year fits. */
  lemma EveryDayIsSomeNth(days: int)
    requires Int32(days)
    ensures NthToDays(NthFromDays(days)) == days <==> FirstDay - 366 <= days <= FinalDay
  {
    hide Number, ToDays, FromDays, Minus, WeekdayFromDays, LastDay, NthToDays, NthOk, Short, NthFromDays;
    var x, y, d, off := SomeNth(days);
    Bounds();
    YearOfDay(y, x.m, d, -32768, 32768);
    if -32768 <= y < 32768 {
      ShortFits(y);
      SameWeekday(Number(y, x.m, 1) + 4 - x.wd, off, d - 1);
    } else {
      FarAway(x.y, y, x.m);
    }
  }

  /** The parts of a day told as the n-th of its weekday. */
  lemma SomeNth(days: int) returns (x: YearMonthWeekday, y: int, d: int, off: int)
    requires Int32(days)
    ensures x == NthFromDays(days) && x.y == Short(y) && MonthOk(x.m) && Valid(y, x.m, d) && d <= 31
    ensures days == Number(y, x.m, d) == Number(y, x.m, 1) + d - 1
    ensures x.wd <= 6 && (days + 4 - x.wd) % 7 == 0
    ensures 0 <= off < 7 && NthToDays(x) == Number(x.y, x.m, 1) + off + (d - 1) / 7 * 7
    ensures (Number(x.y, x.m, 1) + off + 4 - x.wd) % 7 == 0
  {
    hide Number, ToDays, FromDays, Minus, WeekdayFromDays, LastDay, NthToDays, NthOk, Short;
    x := NthFromDays(days);
    y := DayHasDate(days);
    d := FromDays(days).d;
    AtLeast28(y, x.m);
    WeekdayRange(days);
    WeekdayIsFloored(days);
    off := NthDay(x);
    OfTheMonth(y, x.m, d);
  }

  /** In any seven days only one falls on a given weekday. */
  lemma SameWeekday(a: int, i: int, j: int)
    requires 0 <= i < 7 && 0 <= j && (a + i) % 7 == 0 && (a + j) % 7 == 0
    ensures i + j / 7 * 7 == j
  {
  }

  // ---------- the last weekday of a month ----------

  function LastToDays(y: Year, m: Byte, wd: Nibble): (days: int)
    requires MonthOk(m)
  {
    var d := ToDays(YearMonthDay(y, m, LastDay(y, m)));
    d - Minus(WeekdayFromDays(d), Weekday(wd))
  }

  /** It is in its month, on its weekday, and no later day of the month is. */
  lemma LastWeekdayIsLast(y: Year, m: Byte, wd: Nibble)
    requires MonthOk(m) && Weekday(wd) <= 6
    ensures var days := LastToDays(y, m, wd); var date := FromDays(days);
            date.y == y && date.m == m && WeekdayFromDays(days) == Weekday(wd)
    ensures forall d: Byte :: FromDays(LastToDays(y, m, wd)).d < d <= LastDay(y, m) ==>
      WeekdayFromDays(ToDays(YearMonthDay(y, m, d))) != Weekday(wd)
  {
    hide Number, ToDays, FromDays, Minus, WeekdayFromDays, LastDay;
    var days, last := LastToDays(y, m, wd), LastDay(y, m);
    var off := LastOff(y, m, wd);
    AtLeast28(y, m);
    FirstFits(y, m);
    var d := last - off;
    var x := YearMonthDay(y, m, d);
    ToDaysIsNumber(x);
    OfTheMonth(y, m, d);
    OfTheMonth(y, m, last);
    DateRoundTrip(x);
    WeekdayIsFloored(days);
    forall e: Byte | d < e <= last ensures WeekdayFromDays(ToDays(YearMonthDay(y, m, e))) != Weekday(wd) {
      ToDaysIsNumber(YearMonthDay(y, m, e));
      OfTheMonth(y, m, e);
      WeekdayIsFloored(Number(y, m, e));
      NotAgainSoon(days + 4, e - d);
    }
  }

  lemma NotAgainSoon(a: int, n: int)
    requires 0 < n < 7
    ensures (a + n) % 7 != a % 7
  {
  }

  lemma LastOff(y: Year, m: Byte, wd: Nibble) returns (off: int)
    requires MonthOk(m) && Weekday(wd) <= 6
    ensures 0 <= off < 7 && LastToDays(y, m, wd) == Number(y, m, LastDay(y, m)) - off
    ensures (Number(y, m, LastDay(y, m)) - off + 4) % 7 == Weekday(wd)
  {
    hide Number, ToDays, Minus, WeekdayFromDays, LastDay;
    var last := LastDay(y, m);
    ToDaysIsNumber(YearMonthDay(y, m, last));
    FirstFits(y, m);
    AtLeast28(y, m);
    OfTheMonth(y, m, last);
    var n := Number(y, m, last);
    WeekdayIsFloored(n);
    MinusIsFloored(WeekdayFromDays(n), Weekday(wd));
    off := Minus(WeekdayFromDays(n), Weekday(wd));
    RemaindersAdd(n + 4, 0 - Weekday(wd));
    RemaindersAdd(n + 4 - Weekday(wd), n + 4);
    assert off == (n + 4 - Weekday(wd)) % 7;
    assert (n + 4 - off) % 7 == Weekday(wd) % 7;
  }
}
