/** The civil calendar of date.hpp: day counts from 1970-01-01 against dates. */
module Calendar {

  // ---------- machine arithmetic ----------

  type Byte = b: int | 0 <= b < 256

  /** The 16 bits of a year. */
  type Year = y: int | -32768 <= y < 32768

  function Short(y: int): (r: Year)
    ensures -32768 <= y < 32768 ==> r == y
    ensures (r - y) % 65536 == 0
  {
    (y + 32768) % 65536 - 32768
  }

  function U32(x: int): (r: nat) {
    x % 0x1_0000_0000
  }

  function I32(u: int): (r: int) {
    if u < 0x8000_0000 then u else u - 0x1_0000_0000
  }

  /** Division of the source language: towards zero. */
  function TruncDiv(a: int, b: int): (q: int)
    requires b > 0
    ensures a >= 0 ==> b * q <= a < b * q + b
    ensures a < 0 ==> b * q - b < a <= b * q
  {
    if a >= 0 then a / b else -((-a) / b)
  }

  lemma Scaled(n: int, a: int, b: int)
    requires n > 0 && a < b
    ensures n * a + n <= n * b
  {
    assert n * (b - a - 1) >= 0;
    assert n * (b - a - 1) == n * b - n * a - n;
  }

  lemma QuotientIsUnique(a: int, n: int, q: int, p: int)
    requires n > 0 && n * q <= a < n * q + n && n * p <= a < n * p + n
    ensures p == q
  {
    if p < q {
      Scaled(n, p, q);
    } else if q < p {
      Scaled(n, q, p);
    }
  }

  /** `(y >= 0 ? y : y - (n - 1)) / n` rounds down. */
  lemma FloorIdiom(y: int, n: int)
    requires n > 0
    ensures TruncDiv(if y >= 0 then y else y - (n - 1), n) == y / n
  {
    if y < 0 {
      var q := TruncDiv(y - (n - 1), n);
      QuotientIsUnique(y, n, q, y / n);
    }
  }

  // ---------- dates ----------

  datatype YearMonthDay = YearMonthDay(y: Year, m: Byte, d: Byte)

  predicate IsLeap(y: int) {
    y % 4 == 0 && (y % 100 != 0 || y % 400 == 0)
  }

  function LastDay(y: int, m: int): (r: Byte)
    requires 1 <= m <= 12
    ensures 28 <= r <= 31
  {
    if m != 2 || !IsLeap(y) then [31, 28, 31, 30, 31, 30, 31, 31, 30, 31, 30, 31][m - 1] else 29
  }

  predicate YearOk(y: Year) {
    y != -32768
  }

  predicate MonthOk(m: Byte) {
    1 <= m <= 12
  }

  predicate Ok(x: YearMonthDay) {
    YearOk(x.y) && MonthOk(x.m) && 1 <= x.d <= LastDay(x.y, x.m)
  }

  predicate Less(a: YearMonthDay, b: YearMonthDay) {
    if a.y < b.y then true else if a.y > b.y then false
    else if a.m < b.m then true else if a.m > b.m then false
    else a.d < b.d
  }

  /** The next day, by the calendar alone. */
  function Next(x: YearMonthDay): YearMonthDay
    requires MonthOk(x.m) && 1 <= x.d <= LastDay(x.y, x.m)
  {
    if x.d < LastDay(x.y, x.m) then x.(d := x.d + 1)
    else if x.m < 12 then YearMonthDay(x.y, x.m + 1, 1)
    else YearMonthDay(Short(x.y + 1), 1, 1)
  }

  // ---------- the conversions ----------

  function ToDays(x: YearMonthDay): (days: int) {
    var y := x.y - (if x.m <= 2 then 1 else 0);
    var era := TruncDiv(if y >= 0 then y else y - 399, 400);
    var yoe := U32(y - era * 400);
    var doy := U32((153 * (if x.m > 2 then x.m - 3 else x.m + 9) + 2) / 5 + x.d - 1);
    var doe := U32(yoe * 365 + yoe / 4 - yoe / 100 + doy);
    era * 146097 + I32(doe) - 719468
  }

  function FromDays(days: int): (x: YearMonthDay) {
    var z := days + 719468;
    var era := TruncDiv(if z >= 0 then z else z - 146096, 146097);
    var doe := U32(z - era * 146097);
    DayOfEraFacts(z, era, doe);
    DateInEra(era, doe)
  }

  /** The date of a day of an era of 400 years. */
  function DateInEra(era: int, doe: nat): (x: YearMonthDay)
    requires doe < 146097
  {
    var yoe := U32(doe - doe / 1460 + doe / 36524 - doe / 146096) / 365;
    var y := yoe + era * 400;
    var doy := U32(doe - (365 * yoe + yoe / 4 - yoe / 100));
    var mp := (5 * doy + 2) / 153;
    var d := doy - (153 * mp + 2) / 5 + 1;
    var m := if mp < 10 then mp + 3 else mp - 9;
    DateFits(doe);
    YearMonthDay(Short(y + (if m <= 2 then 1 else 0)), m, d)
  }

  lemma DayOfEraFacts(z: int, era: int, doe: int)
    requires era == TruncDiv(if z >= 0 then z else z - 146096, 146097) && doe == U32(z - era * 146097)
    ensures era == z / 146097 && doe == z % 146097
  {
    FloorIdiom(z, 146097);
  }

  lemma DateFits(doe: int)
    requires 0 <= doe < 146097
    ensures var yoe := U32(doe - doe / 1460 + doe / 36524 - doe / 146096) / 365;
            var doy := U32(doe - (365 * yoe + yoe / 4 - yoe / 100));
            var mp := (5 * doy + 2) / 153;
            0 <= mp < 12 && 1 <= doy - (153 * mp + 2) / 5 + 1 < 256
  {
    YearOfEraFacts(doe);
    var yoe := U32(doe - doe / 1460 + doe / 36524 - doe / 146096) / 365;
    assert 0 <= doe - Before(yoe) < 366;
    FitsAlready(doe - Before(yoe));
    MonthFacts(doe - Before(yoe));
  }

  /** Days before the k-th year of an era, counted from the first of March. */
  function Before(k: int): int {
    365 * k + k / 4 - k / 100
  }

  lemma YearOfEraFacts(doe: int)
    requires 0 <= doe < 146097
    ensures var k := U32(doe - doe / 1460 + doe / 36524 - doe / 146096) / 365;
            0 <= k < 400 && Before(k) <= doe && (k < 399 ==> doe < Before(k + 1))
  {
    var c := if doe == 146096 then 3 else doe / 36524;
    var r := doe - 36524 * c;
    var q := if r == 36524 then 24 else r / 1461;
    var s := r - 1461 * q;
    var t := if s == 1460 then 3 else s / 365;
    YearOfEra(c, q, t, s - 365 * t, doe);
  }

  lemma YearOfEra(c: int, q: int, t: int, u: int, doe: int)
    requires 0 <= c < 4 && 0 <= q < 25 && 0 <= t < 4 && 0 <= u <= 365
    requires u == 365 ==> t == 3 && (q < 24 || c == 3)
    requires doe == 36524 * c + 1461 * q + 365 * t + u
    ensures U32(doe - doe / 1460 + doe / 36524 - doe / 146096) / 365 == 100 * c + 4 * q + t
    ensures var k := 100 * c + 4 * q + t; Before(k) <= doe && (k < 399 ==> doe < Before(k + 1))
  {
    var k := 100 * c + 4 * q + t;
    assert Before(k) == 36524 * c + 1461 * q + 365 * t by {
      Hundreds(c, q, t);
    }
    assert k < 399 ==> doe < Before(k + 1) by {
      if t < 3 {
        Hundreds(c, q, t + 1);
      } else if q < 24 {
        Hundreds(c, q + 1, 0);
      } else if c < 3 {
        Hundreds(c + 1, 0, 0);
      }
    }
    Leaps(c, q, 365 * t + u, doe);
    var e := if 24 * c + q + 365 * t + u >= 1460 then 1 else 0;
    var steps := 36500 * c + 1460 * q + 365 * t + u - e;
    FitsAlready(steps);
    assert steps / 365 == k;
  }

  lemma Hundreds(c: int, q: int, t: int)
    requires 0 <= c < 4 && 0 <= q < 25 && 0 <= t < 4
    ensures Before(100 * c + 4 * q + t) == 36524 * c + 1461 * q + 365 * t
  {
    assert (100 * c + 4 * q + t) / 4 == 25 * c + q;
    assert (100 * c + 4 * q + t) / 100 == c;
  }

  lemma Leaps(c: int, q: int, s: int, doe: int)
    requires 0 <= c < 4 && 0 <= q < 25 && 0 <= s <= 1460 && (s == 1460 ==> q < 24 || c == 3)
    requires doe == 36524 * c + 1461 * q + s
    ensures doe / 1460 == 25 * c + q + if 24 * c + q + s >= 1460 then 1 else 0
    ensures doe / 36524 == c + if doe == 146096 then 1 else 0
    ensures doe / 146096 == if doe == 146096 then 1 else 0
  {
  }

  lemma MonthFacts(doy: int)
    requires 0 <= doy < 366
    ensures var mp := (5 * doy + 2) / 153;
            0 <= mp < 12 && (153 * mp + 2) / 5 <= doy && (mp < 11 ==> doy < (153 * (mp + 1) + 2) / 5)
  {
  }

  // ---------- day numbers on unbounded years ----------

  /** Days of a year before its month m. */
  function Into(y: int, m: int): (days: int)
    requires 1 <= m <= 12
  {
    [0, 31, 59, 90, 120, 151, 181, 212, 243, 273, 304, 334][m - 1] + if m > 2 && IsLeap(y) then 1 else 0
  }

  lemma IntoGrows(y: int, m: int, n: int)
    requires 1 <= m < n <= 12
    ensures Into(y, m) + LastDay(y, m) <= Into(y, n)
    ensures n == m + 1 ==> Into(y, m) + LastDay(y, m) == Into(y, n)
  {
  }

  /** The day on which a year begins: 365 days a year and a day for each leap year. */
  function YearStart(y: int): int {
    365 * (y - 1) + (y - 1) / 4 - (y - 1) / 100 + (y - 1) / 400 - 719162
  }

  function Number(y: int, m: int, d: int): int
    requires 1 <= m <= 12
  {
    YearStart(y) + Into(y, m) + d - 1
  }

  function YearDays(y: int): int {
    if IsLeap(y) then 366 else 365
  }

  lemma StepBy4(y: int)
    ensures y / 4 == (y - 1) / 4 + if y % 4 == 0 then 1 else 0
  {
  }

  lemma StepBy100(y: int)
    ensures y / 100 == (y - 1) / 100 + if y % 100 == 0 then 1 else 0
  {
  }

  lemma StepBy400(y: int)
    ensures y / 400 == (y - 1) / 400 + if y % 400 == 0 then 1 else 0
    ensures y % 400 == 0 ==> y % 100 == 0
    ensures y % 100 == 0 ==> y % 4 == 0
  {
    assert y == 400 * (y / 400) + y % 400;
    assert y == 100 * (y / 100) + y % 100;
  }

  lemma YearLength(y: int)
    ensures YearStart(y + 1) == YearStart(y) + YearDays(y)
  {
    StepBy4(y);
    StepBy100(y);
    StepBy400(y);
  }

  lemma YearsGrow(y: int, z: int)
    requires y < z
    ensures YearStart(y) + YearDays(y) <= YearStart(z)
  {
    YearLength(y);
  }

  /** The count by eras, of years that begin in March, is the plain count. */
  lemma EraStart(e: int, k: int)
    requires 0 <= k < 400
    ensures e * 146097 + Before(k) - 719468 == YearStart(400 * e + k + 1) - 306
    ensures (400 * e + k) / 400 == e && (400 * e + k) % 400 == k
  {
    assert (400 * e + k) / 4 == 100 * e + k / 4;
    assert (400 * e + k) / 100 == 4 * e + k / 100;
    assert (400 * e + k) / 400 == e;
  }

  /** Months counted from March: the year they belong to is yy, or yy + 1 from January on. */
  lemma MarchMonths(yy: int, m: int)
    requires 1 <= m <= 12
    ensures var y := if m <= 2 then yy + 1 else yy;
            YearStart(yy + 1) - 306 + (153 * (if m > 2 then m - 3 else m + 9) + 2) / 5 == Number(y, m, 1)
  {
    YearLength(yy);
  }

  lemma EraNumber(y: int, m: int)
    requires 1 <= m <= 12
    ensures var yy := y - (if m <= 2 then 1 else 0);
            yy / 400 * 146097 + Before(yy % 400) + (153 * (if m > 2 then m - 3 else m + 9) + 2) / 5 - 719468
            == Number(y, m, 1)
  {
    var yy := y - (if m <= 2 then 1 else 0);
    EraStart(yy / 400, yy % 400);
    MarchMonths(yy, m);
  }

  lemma WrapsBack(v: int)
    requires -0x8000_0000 <= v < 0x8000_0000
    ensures I32(U32(v)) == v
  {
  }

  lemma WrapsThrough(a: int, b: int)
    ensures U32(a + U32(b)) == U32(a + b)
  {
  }

  /** What is left over an era fits 32 bits. */
  lemma Remainder(a: int, n: int)
    requires n == 400 || n == 146097
    ensures U32(a - a / n * n) == a % n
  {
  }

  lemma ToDaysIsNumber(x: YearMonthDay)
    requires MonthOk(x.m)
    ensures ToDays(x) == Number(x.y, x.m, x.d)
  {
    hide U32, I32, Number, TruncDiv;
    var y := x.y - (if x.m <= 2 then 1 else 0);
    var doy := (153 * (if x.m > 2 then x.m - 3 else x.m + 9) + 2) / 5 + x.d - 1;
    FloorIdiom(y, 400);
    Remainder(y, 400);
    WrapsThrough(Before(y % 400), doy);
    WrapsBack(Before(y % 400) + doy);
    EraNumber(x.y, x.m);
    assert Number(x.y, x.m, x.d) == Number(x.y, x.m, 1) + x.d - 1 by {
      OfTheMonth(x.y, x.m, x.d);
    }
  }

  lemma OfTheMonth(y: int, m: int, d: int)
    requires 1 <= m <= 12
    ensures Number(y, m, d) == Number(y, m, 1) + d - 1
  {
  }

  lemma LeapRepeats(e: int, k: int)
    ensures IsLeap(400 * e + k) == IsLeap(k)
  {
    RemainderRepeats(100 * e, k, 4);
    RemainderRepeats(4 * e, k, 100);
    RemainderRepeats(e, k, 400);
  }

  lemma RemainderRepeats(e: int, k: int, n: int)
    requires n == 4 || n == 100 || n == 400
    ensures (n * e + k) % n == k % n
  {
  }

  /** The year that begins in March of year 400 e + k. */
  lemma MarchYearLength(e: int, k: int)
    requires 0 <= k < 400
    ensures YearDays(400 * e + k + 1) == if k < 399 then Before(k + 1) - Before(k) else 146097 - Before(k)
  {
    LeapRepeats(e, k + 1);
    StepBy4(k + 1);
    StepBy100(k + 1);
  }

  lemma DayOfMonth(yy: int, doy: int)
    requires 0 <= doy < YearDays(yy + 1)
    ensures var mp := (5 * doy + 2) / 153; var m := if mp < 10 then mp + 3 else mp - 9;
            0 <= mp < 12 && 1 <= doy - (153 * mp + 2) / 5 + 1 <= LastDay(if m <= 2 then yy + 1 else yy, m)
  {
    MonthFacts(doy);
    hide IsLeap;
  }

  /** The calendar year of a day, before it is cut to 16 bits. */
  lemma DayHasDate(days: int) returns (y: int)
    ensures var x := FromDays(days);
            x.y == Short(y) && MonthOk(x.m) && 1 <= x.d <= LastDay(y, x.m) && Number(y, x.m, x.d) == days
  {
    hide IsLeap, LastDay, YearDays, FromDays, U32, TruncDiv, YearStart, Into, Short, Number;
    var z := days + 719468;
    var era, doe := z / 146097, z % 146097;
    YearOfEraFacts(doe);
    var k := U32(doe - doe / 1460 + doe / 36524 - doe / 146096) / 365;
    var doy := doe - Before(k);
    var yy := era * 400 + k;
    MarchYearLength(era, k);
    YearDaysBound(yy + 1);
    DayOfMonth(yy, doy);
    var mp := (5 * doy + 2) / 153;
    var m := if mp < 10 then mp + 3 else mp - 9;
    y := if m <= 2 then yy + 1 else yy;
    FromDaysIs(days, era, doe, k, doy, mp);
    EraStart(era, k);
    MarchMonths(yy, m);
    OfTheMonth(y, m, doy - (153 * mp + 2) / 5 + 1);
  }

  lemma YearDaysBound(y: int)
    ensures 365 <= YearDays(y) <= 366
  {
  }

  lemma FromDaysIs(days: int, era: int, doe: int, k: int, doy: int, mp: int)
    requires era == (days + 719468) / 146097 && doe == (days + 719468) % 146097
    requires k == U32(doe - doe / 1460 + doe / 36524 - doe / 146096) / 365
    requires doy == doe - Before(k) && 0 <= doy < 366 && mp == (5 * doy + 2) / 153
    ensures var m := if mp < 10 then mp + 3 else mp - 9; var x := FromDays(days);
            x.y == Short(era * 400 + k + (if m <= 2 then 1 else 0)) && x.m == m && x.d == doy - (153 * mp + 2) / 5 + 1
  {
    hide U32, Short;
    InEra(days);
    FitsAlready(doy);
    hide FromDays;
  }

  lemma InEra(days: int)
    ensures FromDays(days) == DateInEra((days + 719468) / 146097, (days + 719468) % 146097)
  {
    hide U32, DateInEra, TruncDiv;
    var z := days + 719468;
    var era := TruncDiv(if z >= 0 then z else z - 146096, 146097);
    DayOfEraFacts(z, era, U32(z - era * 146097));
  }

  lemma FitsAlready(v: int)
    requires 0 <= v < 0x1_0000_0000
    ensures U32(v) == v
  {
  }
}
