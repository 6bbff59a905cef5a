/**
 * `parseLocalDate` in src/lib/period.ts: a "yyyy-MM-dd" string split at its
 * dashes, each part read as a number, handed to `new Date(year, month - 1, day)`.
 * The result is modelled as its day number, counted from 1 January 1970 as
 * ECMAScript's `Day(t)` counts (ECMA-262, section 21.4.1), so local midnight
 * of the date; time zones and the time of day play no part.
 *
 * The log keeps dates as strings and the source sorts them as strings. The
 * main result here is that, for dates as the application writes them, the
 * string order is the order of the day numbers and equal strings are equal
 * days, which is why the rest of the model may keep dates as day numbers.
 */
module LocalDate {
  /** Days since 1 January 1970. */
  type Day = int

  predicate IsDigit(c: char) {
    '0' <= c <= '9'
  }

  function DigitValue(c: char): (v: int)
    requires IsDigit(c)
    ensures 0 <= v <= 9
  {
    c as int - '0' as int
  }

  predicate AllDigits(s: string) {
    forall i :: 0 <= i < |s| ==> IsDigit(s[i])
  }

  function Pow10(n: nat): (p: int)
    ensures p >= 1
  {
    if n == 0 then 1 else 10 * Pow10(n - 1)
  }

  lemma MulKeepsOrder(a: int, b: int, p: int)
    requires a <= b && p >= 0
    ensures a * p <= b * p
  {
    assert b * p - a * p == (b - a) * p;
  }

  /** `Number` applied to a string of decimal digits. */
  function DecimalValue(s: string): (v: int)
    requires AllDigits(s)
    ensures 0 <= v < Pow10(|s|)
  {
    if s == [] then 0
    else
      var p := Pow10(|s| - 1);
      MulKeepsOrder(DigitValue(s[0]), 9, p);
      DigitValue(s[0]) * p + DecimalValue(s[1..])
  }

  /** Comparison by UTF-16 code units, the first difference deciding and a
      proper prefix coming first. */
  predicate StrLess(a: string, b: string) {
    if a == [] then b != []
    else if b == [] then false
    else if a[0] != b[0] then a[0] < b[0]
    else StrLess(a[1..], b[1..])
  }

  /** A larger leading digit outweighs whatever follows it. */
  lemma LeadingDigitDecides(da: int, ra: int, db: int, rb: int, p: int)
    requires 0 <= da < db && 0 <= ra < p && 0 <= rb
    ensures da * p + ra < db * p + rb
  {
    MulKeepsOrder(da + 1, db, p);
  }

  /** Two digit strings of one length compare as strings as their values compare
      as numbers, and are equal exactly when their values are. */
  lemma {:induction false} DigitStringOrder(a: string, b: string)
    requires AllDigits(a) && AllDigits(b) && |a| == |b|
    ensures StrLess(a, b) <==> DecimalValue(a) < DecimalValue(b)
    ensures a == b <==> DecimalValue(a) == DecimalValue(b)
  {
    if a != [] {
      var p := Pow10(|a| - 1);
      var da, db := DigitValue(a[0]), DigitValue(b[0]);
      var ra, rb := DecimalValue(a[1..]), DecimalValue(b[1..]);
      assert DecimalValue(a) == da * p + ra;
      assert DecimalValue(b) == db * p + rb;
      if a[0] < b[0] {
        LeadingDigitDecides(da, ra, db, rb, p);
      } else if b[0] < a[0] {
        LeadingDigitDecides(db, rb, da, ra, p);
      } else {
        assert da == db;
        DigitStringOrder(a[1..], b[1..]);
        if a[1..] == b[1..] {
          assert a == [a[0]] + a[1..] && b == [b[0]] + b[1..];
        }
      }
    }
  }

  /** String comparison of two concatenations whose first parts have one
      length: the first parts decide, and the second parts only when the first
      parts are equal. */
  lemma {:induction false} StrLessOfConcat(a: string, b: string, c: string, d: string)
    requires |a| == |c|
    ensures StrLess(a + b, c + d) <==> StrLess(a, c) || (a == c && StrLess(b, d))
  {
    if a == [] {
      assert a + b == b && c + d == d;
    } else {
      assert (a + b)[0] == a[0] && (c + d)[0] == c[0];
      assert (a + b)[1..] == a[1..] + b && (c + d)[1..] == c[1..] + d;
      if a[0] == c[0] {
        StrLessOfConcat(a[1..], b, c[1..], d);
        assert a == c <==> a[1..] == c[1..] by {
          assert a == [a[0]] + a[1..] && c == [c[0]] + c[1..];
        }
      }
    }
  }

  /** The shape the application stores dates in: four digits, a dash, two
      digits, a dash, two digits. */
  predicate IsIsoDateString(s: string) {
    |s| == 10 && s[4] == '-' && s[7] == '-'
    && AllDigits(s[..4]) && AllDigits(s[5..7]) && AllDigits(s[8..])
  }

  /** The three numbers `dateStr.split("-").map(Number)` gives. */
  function YearOf(s: string): int
    requires IsIsoDateString(s)
  {
    DecimalValue(s[..4])
  }

  function MonthOf(s: string): int
    requires IsIsoDateString(s)
  {
    DecimalValue(s[5..7])
  }

  function DayOf(s: string): int
    requires IsIsoDateString(s)
  {
    DecimalValue(s[8..])
  }

  /** Strings of the date shape compare as their (year, month, day) triples
      compare lexicographically, and are equal exactly when the triples are. */
  lemma IsoStringOrderIsFieldOrder(s1: string, s2: string)
    requires IsIsoDateString(s1) && IsIsoDateString(s2)
    ensures StrLess(s1, s2) <==>
              TripleLess(YearOf(s1), MonthOf(s1), DayOf(s1), YearOf(s2), MonthOf(s2), DayOf(s2))
    ensures s1 == s2 <==> YearOf(s1) == YearOf(s2) && MonthOf(s1) == MonthOf(s2) && DayOf(s1) == DayOf(s2)
  {
    var t1, t2 := s1[8..], s2[8..];
    var m1, m2 := s1[5..7] + ([s1[7]] + t1), s2[5..7] + ([s2[7]] + t2);
    var u1, u2 := [s1[4]] + m1, [s2[4]] + m2;
    assert s1 == s1[..4] + u1;
    assert s2 == s2[..4] + u2;
    DigitStringOrder(s1[..4], s2[..4]);
    DigitStringOrder(s1[5..7], s2[5..7]);
    DigitStringOrder(t1, t2);
    StrLessOfConcat(s1[..4], u1, s2[..4], u2);
    StrLessOfConcat([s1[4]], m1, [s2[4]], m2);
    StrLessOfConcat(s1[5..7], [s1[7]] + t1, s2[5..7], [s2[7]] + t2);
    StrLessOfConcat([s1[7]], t1, [s2[7]], t2);
    assert !StrLess([s1[4]], [s2[4]]) && !StrLess([s1[7]], [s2[7]]);
  }

  /** ECMAScript's `DayFromYear`: the day number of 1 January of year `y`. The
      divisions are floor divisions, which Dafny's are for a positive divisor. */
  function DayFromYear(y: int): int {
    365 * (y - 1970) + (y - 1969) / 4 - (y - 1901) / 100 + (y - 1601) / 400
  }

  /** The Gregorian leap year rule. */
  predicate InLeapYear(y: int) {
    y % 4 == 0 && (y % 100 != 0 || y % 400 == 0)
  }

  function DaysInYear(y: int): int {
    if InLeapYear(y) then 366 else 365
  }

  /** The length of month `m` (1 for January). */
  function DaysInMonth(y: int, m: int): int
    requires 1 <= m <= 12
  {
    if m == 2 then (if InLeapYear(y) then 29 else 28)
    else if m == 4 || m == 6 || m == 9 || m == 11 then 30
    else 31
  }

  /** Days of the year before the first of month `mn + 1` (`mn` counted from 0
      as ECMAScript does), and for `mn == 12` the days of the whole year. */
  function DaysBeforeMonth(y: int, mn: int): int
    requires 0 <= mn <= 12
  {
    [0, 31, 59, 90, 120, 151, 181, 212, 243, 273, 304, 334, 365][mn]
    + (if InLeapYear(y) && mn >= 2 then 1 else 0)
  }

  /** Year `y` starts `DaysInYear(y)` days before year `y + 1`. */
  lemma YearLength(y: int)
    ensures DayFromYear(y + 1) - DayFromYear(y) == DaysInYear(y)
  {
    FourYearStep(y);
    CenturyStep(y);
    FourCenturyStep(y);
    var a := (y - 1968) / 4 - (y - 1969) / 4;
    var b := (y - 1900) / 100 - (y - 1901) / 100;
    var c := (y - 1600) / 400 - (y - 1601) / 400;
    assert DayFromYear(y + 1) - DayFromYear(y) == 365 + a - b + c;
    LeapDivisors(y);
  }

  /** A multiple of 400 is a multiple of 100, and a multiple of 100 one of 4. */
  lemma LeapDivisors(y: int)
    ensures y % 400 == 0 ==> y % 100 == 0
    ensures y % 100 == 0 ==> y % 4 == 0
  {
    var q400 := y / 400;
    var q100 := y / 100;
    if y % 400 == 0 {
      assert y == 400 * q400;
      var k := 4 * q400;
      assert y == 100 * k;
    }
    if y % 100 == 0 {
      assert y == 100 * q100;
      var k := 25 * q100;
      assert y == 4 * k;
    }
  }

  /** The leap day every fourth year. */
  lemma FourYearStep(y: int)
    ensures (y - 1968) / 4 - (y - 1969) / 4 == if y % 4 == 0 then 1 else 0
  {
    var q, r := y / 4, y % 4;
    assert y == 4 * q + r;
    assert y - 1969 == 4 * (q - 493) + (r + 3);
    assert y - 1968 == 4 * (q - 492) + r;
  }

  /** The leap day dropped every hundredth year. */
  lemma CenturyStep(y: int)
    ensures (y - 1900) / 100 - (y - 1901) / 100 == if y % 100 == 0 then 1 else 0
  {
    var q, r := y / 100, y % 100;
    assert y == 100 * q + r;
    assert y - 1901 == 100 * (q - 20) + (r + 99);
    assert y - 1900 == 100 * (q - 19) + r;
  }

  /** The leap day restored every four hundredth year. */
  lemma FourCenturyStep(y: int)
    ensures (y - 1600) / 400 - (y - 1601) / 400 == if y % 400 == 0 then 1 else 0
  {
    var q, r := y / 400, y % 400;
    assert y == 400 * q + r;
    assert y - 1601 == 400 * (q - 5) + (r + 399);
    assert y - 1600 == 400 * (q - 4) + r;
  }

  /** Month starts add up month by month to the length of the year. */
  lemma MonthLengthsAddUp(y: int, m: int)
    requires 1 <= m <= 12
    ensures DaysBeforeMonth(y, m - 1) + DaysInMonth(y, m) == DaysBeforeMonth(y, m)
    ensures DaysBeforeMonth(y, 12) == DaysInYear(y)
  {
  }

  /** An earlier year ends no later than a later year starts. */
  lemma {:induction false} YearsFollowEachOther(y1: int, y2: int)
    requires y1 < y2
    ensures DayFromYear(y1) + DaysInYear(y1) <= DayFromYear(y2)
    decreases y2 - y1
  {
    YearLength(y1);
    if y1 + 1 < y2 {
      YearsFollowEachOther(y1 + 1, y2);
    }
  }

  /** Months start in order through the year. */
  lemma MonthStartsIncrease(y: int, m1: int, m2: int)
    requires 0 <= m1 <= m2 <= 12
    ensures DaysBeforeMonth(y, m1) <= DaysBeforeMonth(y, m2)
  {
  }

  /** ECMAScript's `MakeDay(year, month, date)` for integral arguments: the
      month may fall outside 0..11 and carries into the year, and the date may
      run past the end of the month. */
  function MakeDay(year: int, month: int, date: int): Day {
    var ym := year + month / 12;
    var mn := month % 12;
    DayFromYear(ym) + DaysBeforeMonth(ym, mn) + date - 1
  }

  /** The `Date` constructor reads a year from 0 to 99 as 1900 to 1999. */
  function FullYear(y: int): int {
    if 0 <= y <= 99 then 1900 + y else y
  }

  /** A date as the application writes one: the date shape, a month from 1 to
      12 and a day inside that month. */
  predicate IsValidDate(s: string) {
    IsIsoDateString(s)
    && 1 <= MonthOf(s) <= 12
    && 1 <= DayOf(s) <= DaysInMonth(FullYear(YearOf(s)), MonthOf(s))
  }

  /** `parseLocalDate` on a string of the date shape. */
  function ParseLocalDate(s: string): Day
    requires IsIsoDateString(s)
  {
    MakeDay(FullYear(YearOf(s)), MonthOf(s) - 1, DayOf(s))
  }

  /** For a valid date from year 100 on, the month needs no carry and the year
      is read as written. */
  lemma ParseOfValidDate(s: string)
    requires IsValidDate(s) && YearOf(s) >= 100
    ensures ParseLocalDate(s) == DateDay(YearOf(s), MonthOf(s), DayOf(s))
  {
    var m0 := MonthOf(s) - 1;
    assert m0 / 12 == 0 && m0 % 12 == m0;
  }

  /** A valid date from year 100 on falls inside its year and inside its month,
      on the day of the month the string names. */
  lemma ParseIsInsideItsMonth(s: string)
    requires IsValidDate(s) && YearOf(s) >= 100
    ensures var d := ParseLocalDate(s);
            var monthStart := DayFromYear(YearOf(s)) + DaysBeforeMonth(YearOf(s), MonthOf(s) - 1);
            && DayFromYear(YearOf(s)) <= d < DayFromYear(YearOf(s) + 1)
            && monthStart <= d < monthStart + DaysInMonth(YearOf(s), MonthOf(s))
            && d - monthStart + 1 == DayOf(s)
  {
    var y := YearOf(s);
    var m := MonthOf(s);
    ParseOfValidDate(s);
    YearLength(y);
    MonthLengthsAddUp(y, m);
    MonthStartsIncrease(y, m, 12);
  }

  /** The day number of day `d` of month `m` (1 for January) of year `y`. */
  function DateDay(y: int, m: int, d: int): Day
    requires 1 <= m <= 12
  {
    DayFromYear(y) + DaysBeforeMonth(y, m - 1) + d - 1
  }

  /** (year, month, day) triples in lexicographic order. */
  predicate TripleLess(y1: int, m1: int, d1: int, y2: int, m2: int, d2: int) {
    y1 < y2 || (y1 == y2 && (m1 < m2 || (m1 == m2 && d1 < d2)))
  }

  /** A real date of a lexicographically smaller triple comes earlier. */
  lemma EarlierTripleIsEarlierDay(y1: int, m1: int, d1: int, y2: int, m2: int, d2: int)
    requires 1 <= m1 <= 12 && 1 <= d1 <= DaysInMonth(y1, m1)
    requires 1 <= m2 <= 12 && 1 <= d2 <= DaysInMonth(y2, m2)
    requires TripleLess(y1, m1, d1, y2, m2, d2)
    ensures DateDay(y1, m1, d1) < DateDay(y2, m2, d2)
  {
    MonthLengthsAddUp(y1, m1);
    if y1 < y2 {
      MonthStartsIncrease(y1, m1, 12);
      YearsFollowEachOther(y1, y2);
      MonthStartsIncrease(y2, 0, m2 - 1);
    } else if m1 < m2 {
      MonthStartsIncrease(y1, m1, m2 - 1);
    }
  }

  /** Real dates: one comes earlier exactly when its triple is lexicographically
      smaller, and two are the same day exactly when their triples are equal. */
  lemma DateDayOrder(y1: int, m1: int, d1: int, y2: int, m2: int, d2: int)
    requires 1 <= m1 <= 12 && 1 <= d1 <= DaysInMonth(y1, m1)
    requires 1 <= m2 <= 12 && 1 <= d2 <= DaysInMonth(y2, m2)
    ensures DateDay(y1, m1, d1) < DateDay(y2, m2, d2) <==> TripleLess(y1, m1, d1, y2, m2, d2)
    ensures DateDay(y1, m1, d1) == DateDay(y2, m2, d2) <==> y1 == y2 && m1 == m2 && d1 == d2
  {
    if TripleLess(y1, m1, d1, y2, m2, d2) {
      EarlierTripleIsEarlierDay(y1, m1, d1, y2, m2, d2);
    } else if TripleLess(y2, m2, d2, y1, m1, d1) {
      EarlierTripleIsEarlierDay(y2, m2, d2, y1, m1, d1);
    }
  }

  /** Valid dates from year 100 on: the first comes earlier exactly when its
      (year, month, day) triple is lexicographically smaller. */
  lemma FieldOrderIsDayOrder(s1: string, s2: string)
    requires IsValidDate(s1) && IsValidDate(s2) && YearOf(s1) >= 100 && YearOf(s2) >= 100
    ensures ParseLocalDate(s1) < ParseLocalDate(s2) <==>
              TripleLess(YearOf(s1), MonthOf(s1), DayOf(s1), YearOf(s2), MonthOf(s2), DayOf(s2))
    ensures ParseLocalDate(s1) == ParseLocalDate(s2) <==>
              YearOf(s1) == YearOf(s2) && MonthOf(s1) == MonthOf(s2) && DayOf(s1) == DayOf(s2)
  {
    ParseOfValidDate(s1);
    ParseOfValidDate(s2);
    DateDayOrder(YearOf(s1), MonthOf(s1), DayOf(s1), YearOf(s2), MonthOf(s2), DayOf(s2));
  }

  /** For valid dates from year 100 on, comparing the strings by code units, as
      the log's sort does, is comparing the dates: one string is smaller exactly
      when its date is earlier, and two strings are equal exactly when their
      dates are. */
  lemma IsoOrderIsDayOrder(s1: string, s2: string)
    requires IsValidDate(s1) && IsValidDate(s2) && YearOf(s1) >= 100 && YearOf(s2) >= 100
    ensures StrLess(s1, s2) <==> ParseLocalDate(s1) < ParseLocalDate(s2)
    ensures s1 == s2 <==> ParseLocalDate(s1) == ParseLocalDate(s2)
  {
    IsoStringOrderIsFieldOrder(s1, s2);
    FieldOrderIsDayOrder(s1, s2);
  }

  lemma FieldsOfEarlyDate()
    ensures IsIsoDateString("0050-01-01")
    ensures YearOf("0050-01-01") == 50 && MonthOf("0050-01-01") == 1 && DayOf("0050-01-01") == 1
  {
    var s := "0050-01-01";
    assert s[..4] == "0050" && s[5..7] == "01" && s[8..] == "01";
    assert "01"[1..] == "1" && "1"[1..] == "";
    assert "0050"[1..] == "050" && "050"[1..] == "50" && "50"[1..] == "0" && "0"[1..] == "";
  }

  lemma FieldsOfLateDate()
    ensures IsIsoDateString("0200-01-01")
    ensures YearOf("0200-01-01") == 200 && MonthOf("0200-01-01") == 1 && DayOf("0200-01-01") == 1
  {
    var s := "0200-01-01";
    assert s[..4] == "0200" && s[5..7] == "01" && s[8..] == "01";
    assert "01"[1..] == "1" && "1"[1..] == "";
    assert "0200"[1..] == "200" && "200"[1..] == "00" && "00"[1..] == "0" && "0"[1..] == "";
  }

  /** Below year 100 the two orders part: "0050-01-01" is the smaller string,
      but the constructor places it in 1950, after the year 200. */
  lemma TwoDigitYearsBreakTheOrder()
    ensures IsValidDate("0050-01-01") && IsValidDate("0200-01-01")
    ensures StrLess("0050-01-01", "0200-01-01")
    ensures ParseLocalDate("0050-01-01") > ParseLocalDate("0200-01-01")
  {
    FieldsOfEarlyDate();
    FieldsOfLateDate();
    assert ParseLocalDate("0050-01-01") == MakeDay(1950, 0, 1);
    assert ParseLocalDate("0200-01-01") == MakeDay(200, 0, 1);
    assert MakeDay(1950, 0, 1) == DayFromYear(1950) && MakeDay(200, 0, 1) == DayFromYear(200);
    assert StrLess("0050-01-01", "0200-01-01") by {
      assert "0050-01-01"[1..] == "050-01-01" && "0200-01-01"[1..] == "200-01-01";
    }
  }
}
