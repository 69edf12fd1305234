/** ISO week dates as texts: printed with "%G-W%V-%u", and read back with a width for the year. */
module IsoTexts {
  import opened Calendar
  import opened CivilDates
  import opened Weekdays
  import opened IsoWeeks

  predicate IsDigit(c: char) {
    '0' <= c <= '9'
  }

  predicate AllDecimal(d: string) {
    forall i :: 0 <= i < |d| ==> IsDigit(d[i])
  }

  function DigitValue(c: char): (v: nat)
    requires IsDigit(c)
    ensures v < 10
  {
    c as int - '0' as int
  }

  function Digit(v: nat): (c: char)
    requires v < 10
    ensures IsDigit(c) && DigitValue(c) == v
  {
    ('0' as int + v) as char
  }

  function Value(d: string): nat
    requires AllDecimal(d)
  {
    if d == [] then 0 else Value(d[..|d| - 1]) * 10 + DigitValue(d[|d| - 1])
  }

  // ---------- printing ----------

  /** Filled up with zeros to the width. */
  function Padded(n: nat, width: nat): (d: string)
    ensures AllDecimal(d) && d != []
    decreases n + width
  {
    if n < 10 && width <= 1 then [Digit(n)]
    else Padded(n / 10, if width == 0 then 0 else width - 1) + [Digit(n % 10)]
  }

  function Abs(n: int): nat {
    if n < 0 then -n else n
  }

  function YearText(y: Year): string {
    (if y < 0 then "-" else "") + Padded(Abs(y), 4) + (if YearOk(y) then "" else " is not a valid year")
  }

  function WeekText(wn: int): string {
    (if wn < 10 then "0" else "") + (if wn < 0 then "-" else "") + Padded(Abs(wn), 1)
  }

  /** Sunday is 7. */
  function WeekdayText(wd: Byte): string
    requires wd <= 6
  {
    [Digit(if wd != 0 then wd else 7)]
  }

  function Text(g: Year, v: int, wd: Byte): string
    requires wd <= 6
  {
    YearText(g) + ("-W" + (WeekText(v) + ("-" + WeekdayText(wd))))
  }

  method Print(ymd: YearMonthDay) returns (t: string, ghost g: Year, ghost v: int)
    requires Ok(ymd)
    ensures WeekdayFromDays(ToDays(ymd)) <= 6 && t == Text(g, v, WeekdayFromDays(ToDays(ymd)))
    ensures InIsoYear(ToDays(ymd), g) && (YearOk(g) ==> v == WeekNumber(ToDays(ymd), g))
  {
    hide *;
    var days := ToDays(ymd);
    var year := IsoYear(ymd);
    var week := IsoWeek(ymd);
    WeekdayRange(days);
    t := Text(year, week, WeekdayFromDays(days));
    g, v := year, week;
    FirstDaysOnly(g);
  }

  lemma FirstDaysOnly(g: Year)
    ensures YearOk(g) <==> g != -32768
  {
  }

  // ---------- reading ----------

  datatype Read = Failed | Got(value: int, rest: string)

  /** At most so many of the digits at the start of t; 0 is no limit. */
  function Leading(t: string, most: nat): (d: string)
    ensures d <= t && AllDecimal(d)
  {
    if t == [] || !IsDigit(t[0]) then []
    else if most == 1 then [t[0]]
    else [t[0]] + Leading(t[1..], if most == 0 then 0 else most - 1)
  }

  /** At least one digit, in 32 bits. */
  function Unsigned(t: string, most: nat): Read {
    var d := Leading(t, most);
    if d == [] then Failed else Got(U32(Value(d)), t[|d|..])
  }

  function Signed(t: string, most: nat): Read {
    if t == [] || !(IsDigit(t[0]) || t[0] == '-' || t[0] == '+') then Failed
    else
      match Unsigned(if IsDigit(t[0]) then t else t[1..], most)
      case Failed => Failed
      case Got(n, rest) => Got(if t[0] == '-' then I32(U32(-I32(n))) else I32(n), rest)
  }

  predicate Stops(t: string, k: nat, most: nat) {
    k <= |t| && AllDecimal(t[..k]) && (most == 0 || k <= most) && ((k == most && k != 0) || k == |t| || !IsDigit(t[k]))
  }

  lemma {:induction false} LeadingIs(t: string, k: nat, most: nat)
    requires Stops(t, k, most)
    ensures Leading(t, most) == t[..k]
  {
    if k > 0 {
      assert t[0] == t[..k][0];
      assert t[..k] == [t[0]] + t[1..][..k - 1];
      assert t[1..][..k - 1] == t[..k][1..];
      if most != 1 {
        LeadingIs(t[1..], k - 1, if most == 0 then 0 else most - 1);
      }
    }
  }

  method ReadUnsigned(t: string, most: nat) returns (r: Read)
    ensures r == Unsigned(t, most)
  {
    var x, count := 0, 0;
    while count < |t| && IsDigit(t[count]) && (count == 0 || count != most)
      invariant count <= |t| && AllDecimal(t[..count]) && x == U32(Value(t[..count])) && (most == 0 || count <= most)
    {
      OneDigitMore(t, count);
      x := U32(10 * x + DigitValue(t[count]));
      count := count + 1;
    }
    LeadingIs(t, count, most);
    r := if count == 0 then Failed else Got(x, t[count..]);
  }

  lemma OneDigitMore(t: string, count: nat)
    requires count < |t| && AllDecimal(t[..count]) && IsDigit(t[count])
    ensures AllDecimal(t[..count + 1])
    ensures U32(Value(t[..count + 1])) == U32(10 * U32(Value(t[..count])) + DigitValue(t[count]))
  {
    assert t[..count + 1][..count] == t[..count];
    ReduceFirst(Value(t[..count]), DigitValue(t[count]));
    hide U32;
  }

  lemma ReduceFirst(a: nat, d: nat)
    ensures U32(a * 10 + d) == U32(10 * U32(a) + d)
  {
    assert a == U32(a) + a / 0x1_0000_0000 * 0x1_0000_0000;
    Congruent(10 * U32(a) + d, 10 * (a / 0x1_0000_0000));
  }

  lemma Congruent(b: int, k: int)
    ensures (b + k * 0x1_0000_0000) % 0x1_0000_0000 == b % 0x1_0000_0000
  {
  }

  method ReadSigned(t: string, most: nat) returns (r: Read)
    ensures r == Signed(t, most)
  {
    hide Unsigned;
    if t == [] || !(IsDigit(t[0]) || t[0] == '-' || t[0] == '+') {
      return Failed;
    }
    r := ReadUnsigned(if IsDigit(t[0]) then t else t[1..], most);
    if r.Got? {
      r := r.(value := if t[0] == '-' then I32(U32(-I32(r.value))) else I32(r.value));
    }
  }

  datatype Fields = Fields(g: int, v: int, wd: Nibble)

  /** What "%G-W%V-%u" reads, the year of as many digits as width says. */
  function ReadFields(t: string, width: nat): Option<Fields> {
    match Signed(t, width)
    case Failed => None
    case Got(g, t1) =>
      if !("-W" <= t1) then None
      else
        match Unsigned(t1[2..], 2)
        case Failed => None
        case Got(v, t2) => if !("-" <= t2) then None else ReadWeekday(g, v, t2[1..])
  }

  function ReadWeekday(g: int, v: int, t: string): Option<Fields> {
    match Unsigned(t, 1)
    case Failed => None
    case Got(wd, _) => if 1 <= wd <= 7 then Some(Fields(g, v, wd % 7)) else None
  }

  /** The date of these fields, if it is one, and on that weekday. */
  function DateOf(f: Fields): Parsed {
    var x := FromDays(NamedDay(f.g, f.v, f.wd));
    if Ok(x) && WeekdayFromDays(ToDays(x)) == f.wd then Date(x.y, x.m, x.d) else Broken
  }

  const NotAYear := -0x8000_0000

  method Parse(t: string, width: nat) returns (r: Parsed)
    ensures r == match ReadFields(t, width)
                 case None => Broken
                 case Some(f) => if f.g == NotAYear then Broken else DateOf(f)
  {
    hide Signed, Unsigned, NamedDay, FromDays, ToDays, WeekdayFromDays, Ok;
    var year := ReadSigned(t, width);
    if year == Failed || !("-W" <= year.rest) {
      return Broken;
    }
    var week := ReadUnsigned(year.rest[2..], 2);
    if week == Failed || !("-" <= week.rest) {
      return Broken;
    }
    var weekday := ReadUnsigned(week.rest[1..], 1);
    if weekday == Failed || !(1 <= weekday.value <= 7) || year.value == NotAYear {
      return Broken;
    }
    var wd: Nibble := weekday.value % 7;
    r := ReadIso(year.value, week.value, wd, None, None, None);
    var x := YearMonthDay(r.y, r.m, r.d);
    if !Ok(x) || WeekdayFromDays(ToDays(x)) != wd {
      return Broken;
    }
  }

  // ---------- what is printed is read ----------

  /** The digits of a year fit the width. */
  predicate Fits(g: int, width: nat) {
    width == 0 || width >= 5 || (width == 4 && -10000 < g < 10000)
  }

  lemma {:induction false} PaddedIs(n: nat, width: nat)
    ensures Value(Padded(n, width)) == n
    decreases n + width
  {
    if !(n < 10 && width <= 1) {
      var w := if width == 0 then 0 else width - 1;
      PaddedIs(n / 10, w);
      assert Padded(n, width)[..|Padded(n, width)| - 1] == Padded(n / 10, w);
    }
  }

  lemma YearDigits(n: nat)
    requires n <= 32768
    ensures |Padded(n, 4)| == if n < 10000 then 4 else 5
  {
    OneLess(n, 4);
    OneLess(n / 10, 3);
    OneLess(n / 100, 2);
    OneLess(n / 1000, 1);
    OneLess(n / 10000, 0);
    hide Padded;
  }

  lemma OneLess(n: nat, width: nat)
    ensures n < 10 && width <= 1 ==> |Padded(n, width)| == 1
    ensures !(n < 10 && width <= 1) ==>
      |Padded(n, width)| == |Padded(n / 10, if width == 0 then 0 else width - 1)| + 1
  {
  }

  lemma TwoDigits(n: nat)
    requires n <= 99
    ensures |Padded(n, 2)| == 2 && Padded(n, 2) == if n < 10 then "0" + Padded(n, 1) else Padded(n, 1)
  {
    assert Padded(n / 10, 1) == [Digit(n / 10)] == Padded(n / 10, 0);
  }

  /** Digits followed by something else are read as a whole, or too few of them. */
  lemma DigitsAreRead(d: string, rest: string, most: nat)
    requires AllDecimal(d) && d != []
    ensures (most == 0 || |d| <= most) && (|d| == most || rest == [] || !IsDigit(rest[0])) ==>
      Unsigned(d + rest, most) == Got(U32(Value(d)), rest)
    ensures 0 < most < |d| ==> Unsigned(d + rest, most).Got? && !("-" <= Unsigned(d + rest, most).rest)
  {
    hide Value, U32;
    var t := d + rest;
    if 0 < most < |d| {
      assert t[..most] == d[..most];
      LeadingIs(t, most, most);
      assert t[most..][0] == d[most];
    } else if |d| == most || rest == [] || !IsDigit(rest[0]) {
      assert t[..|d|] == d && t[|d|..] == rest;
      LeadingIs(t, |d|, most);
    }
  }

  lemma WeekIsRead(v: int, rest: string)
    requires 0 <= v <= 99
    ensures Unsigned(WeekText(v) + rest, 2) == Got(v, rest)
  {
    hide Unsigned, Padded, Value;
    TwoDigits(v);
    PaddedIs(v, 2);
    assert WeekText(v) == Padded(v, 2);
    DigitsAreRead(Padded(v, 2), rest, 2);
  }

  /** A year and what follows it; a "-" behind it is read next exactly if the year is and fits. */
  lemma YearIsRead(g: Year, rest: string, width: nat)
    requires "-" <= rest
    ensures YearOk(g) && Fits(g, width) ==> Signed(YearText(g) + rest, width) == Got(g, rest)
    ensures !(YearOk(g) && Fits(g, width)) ==>
      var r := Signed(YearText(g) + rest, width); r.Got? ==> !("-" <= r.rest)
  {
    hide Unsigned, Signed, Padded, Value, YearText, Fits, AllDecimal;
    var d := Padded(Abs(g), 4);
    var more := (if YearOk(g) then "" else " is not a valid year") + rest;
    YearDigits(Abs(g));
    PaddedIs(Abs(g), 4);
    assert |more| > 0 && more[0] == if YearOk(g) then '-' else ' ';
    DigitsAreRead(d, more, width);
    YearParts(g, rest, d, more);
    YearValue(g, YearText(g) + rest, d + more, width);
    FitsIs(g, width, d);
    assert YearOk(g) ==> more == rest;
  }

  lemma FitsIs(g: Year, width: nat, d: string)
    requires |d| == if Abs(g) < 10000 then 4 else 5
    ensures Fits(g, width) <==> width == 0 || |d| <= width
  {
  }

  /** The sign is read apart from the digits. */
  lemma YearValue(g: Year, t: string, digits: string, width: nat)
    requires t != [] && (if g < 0 then t[0] == '-' && t[1..] == digits else IsDigit(t[0]) && t == digits)
    ensures Signed(t, width).Failed? <==> Unsigned(digits, width).Failed?
    ensures Unsigned(digits, width).Got? ==> Signed(t, width).rest == Unsigned(digits, width).rest
    ensures Unsigned(digits, width).Got? && Unsigned(digits, width).value == U32(Abs(g)) ==> Signed(t, width).value == g
  {
    hide Unsigned;
  }

  lemma YearParts(g: Year, rest: string, d: string, more: string)
    requires d == Padded(Abs(g), 4) && more == (if YearOk(g) then "" else " is not a valid year") + rest
    ensures var t := YearText(g) + rest;
            t != [] && (if g < 0 then t[0] == '-' && t[1..] == d + more else IsDigit(t[0]) && t == d + more)
  {
    hide Padded;
    assert IsDigit(d[0]);
    assert g >= 0 ==> YearText(g) + rest == d + more;
    assert g < 0 ==> YearText(g) + rest == "-" + (d + more);
  }

  lemma WeekdayIsRead(g: int, v: int, wd: Byte)
    requires wd <= 6
    ensures ReadWeekday(g, v, WeekdayText(wd)) == Some(Fields(g, v, wd))
  {
    var d := WeekdayText(wd);
    assert d + [] == d && d[..0] == [];
    DigitsAreRead(d, [], 1);
    hide Unsigned;
  }

  /** A printed week date is read as it was exactly if its year is one and fits the width, and else not at all. */
  lemma TextIsRead(g: Year, v: int, wd: Byte, width: nat)
    requires wd <= 6 && (YearOk(g) ==> 0 <= v <= 99)
    ensures ReadFields(Text(g, v, wd), width) == if YearOk(g) && Fits(g, width) then Some(Fields(g, v, wd)) else None
  {
    hide Unsigned, Signed, YearText, WeekText, WeekdayText, ReadWeekday, Fits, YearOk;
    var t2 := "-" + WeekdayText(wd);
    var t1 := "-W" + (WeekText(v) + t2);
    YearIsRead(g, t1, width);
    assert t1[2..] == WeekText(v) + t2 && t2[1..] == WeekdayText(wd);
    if YearOk(g) {
      WeekIsRead(v, t2);
    }
    WeekdayIsRead(g, v, wd);
  }

  /** A date printed and read back: the same, exactly if the ISO year is one that can be read. */
  method PrintAndRead(ymd: YearMonthDay, width: nat) returns (r: Parsed)
    requires Ok(ymd)
    ensures forall g :: InIsoYear(ToDays(ymd), g) ==>
      r == if g >= -32767 && Fits(g, width) then Date(ymd.y, ymd.m, ymd.d) else Broken
  {
    hide *;
    var t, g, v := Print(ymd);
    r := Parse(t, width);
    ReadBack(ymd, g, v, width);
    forall h | InIsoYear(ToDays(ymd), h) ensures h == g {
      OneIsoYear(ToDays(ymd), g, h);
    }
  }

  lemma ReadBack(ymd: YearMonthDay, g: Year, v: int, width: nat)
    requires Ok(ymd) && InIsoYear(ToDays(ymd), g) && (YearOk(g) ==> v == WeekNumber(ToDays(ymd), g))
    requires WeekdayFromDays(ToDays(ymd)) <= 6
    ensures var f := ReadFields(Text(g, v, WeekdayFromDays(ToDays(ymd))), width);
            && (g >= -32767 && Fits(g, width) <==> f.Some?)
            && (f.Some? ==> f.value.g != NotAYear && DateOf(f.value) == Date(ymd.y, ymd.m, ymd.d))
  {
    hide *;
    var days := ToDays(ymd);
    var wd := WeekdayFromDays(days);
    FirstDaysOnly(g);
    WeekNumberRange(days, g);
    TextIsRead(g, v, wd, width);
    if YearOk(g) {
      LateEnough(ymd, g);
      assert wd % 16 == wd;
      PrintedReadsBack(ymd, g, v);
      DateIs(ymd, g, v, wd);
    }
  }

  lemma LateEnough(ymd: YearMonthDay, g: Year)
    requires Ok(ymd) && InIsoYear(ToDays(ymd), g) && YearOk(g)
    ensures ToDays(ymd) >= FirstDay + 2
  {
    hide ToDays, YearStart, WeekOne, InIsoYear;
    FinalWeek();
    IsoYearIs(ToDays(ymd), g);
    WeekOnesGrow(-32767, g);
  }

  lemma DateIs(x: YearMonthDay, g: Year, v: int, wd: Nibble)
    requires Ok(x) && FromDays(NamedDay(g, v, wd)) == x && WeekdayFromDays(ToDays(x)) == wd
    ensures g != NotAYear && DateOf(Fields(g, v, wd)) == Date(x.y, x.m, x.d)
  {
    hide FromDays, ToDays, NamedDay, WeekdayFromDays, Ok;
  }

  /** For years of four digits this is the extended format of ISO 8601:2004, section 4.1.4: ten characters, the
    * week's two digits at their place.
    */
  lemma FormatIs(g: Year, v: int, wd: Byte)
    requires 0 <= g <= 9999 && 1 <= v <= 53 && wd <= 6
    ensures var t := Text(g, v, wd);
            && |t| == 10 && t[4] == '-' && t[5] == 'W' && t[8] == '-'
            && AllDecimal(t[..4]) && Value(t[..4]) == g && AllDecimal(t[6..8]) && Value(t[6..8]) == v
            && t[9] == ['7', '1', '2', '3', '4', '5', '6'][wd]
  {
    PlainTexts(g, v, wd);
    hide *;
    YearDigits(g);
    PaddedIs(g, 4);
    TwoDigits(v);
    PaddedIs(v, 2);
    FormatParts(Padded(g, 4), Padded(v, 2), WeekdayText(wd));
  }

  lemma PlainTexts(g: Year, v: int, wd: Byte)
    requires 0 <= g <= 9999 && 1 <= v <= 53 && wd <= 6
    ensures Text(g, v, wd) == Padded(g, 4) + ("-W" + (Padded(v, 2) + ("-" + WeekdayText(wd))))
    ensures |WeekdayText(wd)| == 1 && WeekdayText(wd)[0] == ['7', '1', '2', '3', '4', '5', '6'][wd]
  {
    TwoDigits(v);
    hide Padded;
    assert YearText(g) == Padded(g, 4) && WeekText(v) == Padded(v, 2);
  }

  lemma FormatParts(year: string, week: string, day: string)
    requires |year| == 4 && |week| == 2 && |day| == 1
    ensures var t := year + ("-W" + (week + ("-" + day)));
            |t| == 10 && t[..4] == year && t[4] == '-' && t[5] == 'W' && t[6..8] == week && t[8] == '-' && t[9] == day[0]
  {
  }
}
