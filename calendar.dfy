/**
  Dates, weekdays, times of day and the week key the penalty is keyed on.

  A date is a day number in the proleptic Gregorian calendar, numbered as
  Python's `date.toordinal()` numbers it: day 1 is 0001-01-01, a Monday.
  A time of day is the number of whole minutes since midnight; every
  comparison the application makes is against a whole minute (00:00 and
  22:00), so seconds and microseconds never change an outcome.
 */
module Calendar {

  type Day = int

  type Minute = m: int | 0 <= m < 1440

  /** A wall-clock reading: the local date and the time of day. */
  datatype Instant = Instant(day: Day, minute: Minute)

  const Monday := 0
  const Friday := 4

  /** 22:00 as minutes since midnight. */
  const TenPm: Minute := 22 * 60

  /** Python's `date.weekday()`: 0 is Monday, 6 is Sunday. */
  function Weekday(d: Day): (w: int)
    ensures 0 <= w < 7
  {
    (d + 6) % 7
  }

  /** Monday to Friday. */
  predicate IsWeekday(d: Day) {
    Weekday(d) < 5
  }

  /** The Monday that starts the Monday-to-Sunday week holding `d`. */
  function MondayOf(d: Day): (m: Day)
    ensures Weekday(m) == Monday
    ensures m <= d < m + 7
  {
    d - Weekday(d)
  }

  lemma WeekdayShift(d: Day, k: int)
    ensures Weekday(d + k) == (Weekday(d) + k) % 7
  {
  }

  // ----- years -----------------------------------------------------------

  predicate IsLeap(y: int) {
    y % 4 == 0 && (y % 100 != 0 || y % 400 == 0)
  }

  function DaysInYear(y: int): (n: int) {
    if IsLeap(y) then 366 else 365
  }

  /** The day number of January 1 of year `y`. */
  function JanFirst(y: int): (d: Day) {
    var p := y - 1;
    365 * p + p / 4 - p / 100 + p / 400 + 1
  }

  /**
    The year holding day `d`, computed the way Python's `_ord2ymd` does:
    whole 400-, 100-, 4- and 1-year cycles, with the last day of a leap
    cycle (the quotient 4 in the 100- or 1-year step) belonging to the
    year before.
   */
  function YearOf(d: Day): (y: int) {
    var n := d - 1;
    var n400, r400 := n / 146097, n % 146097;
    var n100, r100 := r400 / 36524, r400 % 36524;
    var n4, r4 := r100 / 1461, r100 % 1461;
    var n1 := r4 / 365;
    var y := n400 * 400 + 1 + n100 * 100 + n4 * 4 + n1;
    if n1 == 4 || n100 == 4 then y - 1 else y
  }

  lemma DivBy4(x: int, q: int)
    requires 4 * q <= x < 4 * q + 4
    ensures x / 4 == q && x % 4 == x - 4 * q
  {
  }

  lemma DivBy7(x: int, q: int)
    requires 7 * q <= x < 7 * q + 7
    ensures x / 7 == q && x % 7 == x - 7 * q
  {
  }

  lemma DivBy100(x: int, q: int)
    requires 100 * q <= x < 100 * q + 100
    ensures x / 100 == q && x % 100 == x - 100 * q
  {
  }

  lemma DivBy400(x: int, q: int)
    requires 400 * q <= x < 400 * q + 400
    ensures x / 400 == q && x % 400 == x - 400 * q
  {
  }

  /** The start of year `400a + 100b + 4c + e + 1`, for digits in range. */
  lemma JanFirstOfDigits(a: int, b: int, c: int, e: int)
    requires 0 <= b <= 3 && 0 <= c <= 24 && 0 <= e <= 3
    ensures JanFirst(400 * a + 100 * b + 4 * c + e + 1)
         == 146097 * a + 36524 * b + 1461 * c + 365 * e + 1
  {
    var p := 400 * a + 100 * b + 4 * c + e;
    DivBy4(p, 100 * a + 25 * b + c);
    DivBy100(p, 4 * a + b);
    DivBy400(p, a);
  }

  /** The quotients `YearOf` takes, as a mixed-radix reading of `d - 1`. */
  lemma OrdinalDigits(d: Day) returns (a: int, b: int, c: int, e: int, r: int)
    ensures d - 1 == 146097 * a + 36524 * b + 1461 * c + 365 * e + r
    ensures 0 <= b <= 4 && 0 <= c <= 24 && 0 <= e <= 4 && 0 <= r < 365
    ensures b == 4 ==> c == 0 && e == 0 && r == 0
    ensures e == 4 ==> r == 0 && c <= 23
    ensures YearOf(d) == if b == 4 || e == 4 then 400 * a + 100 * b + 4 * c + e
                         else 400 * a + 100 * b + 4 * c + e + 1
  {
    var n := d - 1;
    a := n / 146097;
    var r400 := n % 146097;
    b := r400 / 36524;
    var r100 := r400 % 36524;
    c := r100 / 1461;
    var r4 := r100 % 1461;
    e := r4 / 365;
    r := r4 % 365;
  }

  /** `YearOf` is right: `d` lies between January 1 of its year and that of the next. */
  lemma YearOfCorrect(d: Day)
    ensures JanFirst(YearOf(d)) <= d < JanFirst(YearOf(d)) + DaysInYear(YearOf(d))
  {
    var a, b, c, e, r := OrdinalDigits(d);
    var y := YearOf(d);
    if b == 4 {
      // the last day of a 400-year cycle: December 31 of a year divisible by 400
      JanFirstOfDigits(a, 3, 24, 3);
      assert y == 400 * a + 400;
      DivBy4(y, 100 * a + 100);
      DivBy100(y, 4 * a + 4);
      DivBy400(y, a + 1);
      assert IsLeap(y);
    } else if e == 4 {
      // the last day of a 4-year cycle: December 31 of a leap year
      JanFirstOfDigits(a, b, c, 3);
      assert b <= 3 && y == 400 * a + 100 * b + 4 * c + 4;
      DivBy4(y, 100 * a + 25 * b + c + 1);
      DivBy100(y, 4 * a + b);
      assert IsLeap(y);
    } else {
      JanFirstOfDigits(a, b, c, e);
    }
  }

  // ----- the penalty's week key ------------------------------------------

  /**
    The value of `strftime("%Y-%W")`: the year, and the number of the
    Monday-started week within it, where the days before the year's first
    Monday are week 0. (This is not the ISO 8601 week.) The string is
    modelled as the pair it is printed from, which it determines and which
    determines it.
   */
  datatype WeekKey = WeekKey(year: int, week: int)

  /**
    The key of day `d` counted within year `y`: `d - JanFirst(y)` is the
    0-based day of the year, and the week number counts the Mondays from
    January 1 up to `d`.
   */
  function WeekKeyIn(y: int, d: Day): (k: WeekKey) {
    WeekKey(y, (d - JanFirst(y) + 7 - Weekday(d)) / 7)
  }

  function WeekKeyOf(d: Day): (k: WeekKey) {
    WeekKeyIn(YearOf(d), d)
  }

  /** Week numbers run from 0 to 53. */
  lemma WeekNumberRange(d: Day)
    ensures 0 <= WeekKeyOf(d).week <= 53
  {
    YearOfCorrect(d);
  }

  /**
    A week key never spans two Monday-to-Sunday weeks: days with the same
    key have the same Monday (the key may split one such week in two, at
    the turn of the year).
   */
  lemma SameKeySameWeek(d1: Day, d2: Day)
    requires WeekKeyOf(d1) == WeekKeyOf(d2)
    ensures MondayOf(d1) == MondayOf(d2)
  {
    SameKeyInSameWeek(YearOf(d1), d1, d2);
  }

  lemma SameKeyInSameWeek(y: int, d1: Day, d2: Day)
    requires WeekKeyIn(y, d1) == WeekKeyIn(y, d2)
    ensures MondayOf(d1) == MondayOf(d2)
  {
    SameWeekNumberSameMonday(JanFirst(y), MondayOf(d1), MondayOf(d2));
  }

  /** Two Mondays with the same week number counted from day `j` are one Monday. */
  lemma SameWeekNumberSameMonday(j: Day, m1: Day, m2: Day)
    requires Weekday(m1) == Monday && Weekday(m2) == Monday
    requires (m1 - j + 7) / 7 == (m2 - j + 7) / 7
    ensures m1 == m2
  {
    var k1, k2 := (m1 + 6) / 7, (m2 + 6) / 7;
    DivBy7(m1 + 6, k1);
    DivBy7(m2 + 6, k2);
    var x := m2 - j + 7;
    var q := x / 7;
    DivBy7(x, q);
    var t := k1 - k2;
    assert m1 - j + 7 == x + 7 * t;
    DivBy7(x + 7 * t, q + t);
  }

  /** Conversely, two days of one Monday-to-Sunday week in the same year share a key. */
  lemma SameWeekSameKey(d1: Day, d2: Day)
    requires MondayOf(d1) == MondayOf(d2) && YearOf(d1) == YearOf(d2)
    ensures WeekKeyOf(d1) == WeekKeyOf(d2)
  {
  }

  /**
    The turn of the year splits a week: Wednesday 31 December 2025 has
    key 2025-52 and Thursday 1 January 2026 has key 2026-00, in the week
    of Monday 29 December.
   */
  lemma KeySplitsAtNewYear()
    ensures MondayOf(739616) == MondayOf(739617) == 739614
    ensures WeekKeyOf(739616) == WeekKey(2025, 52)
    ensures WeekKeyOf(739617) == WeekKey(2026, 0)
  {
    assert Weekday(739616) == 2 && Weekday(739617) == 3;
    assert YearOf(739616) == 2025 by {
      assert 739615 / 146097 == 5 && 739615 % 146097 == 9130;
      assert 9130 / 36524 == 0 && 9130 % 36524 == 9130;
      assert 9130 / 1461 == 6 && 9130 % 1461 == 364;
      assert 364 / 365 == 0;
    }
    assert YearOf(739617) == 2026 by {
      assert 739616 / 146097 == 5 && 739616 % 146097 == 9131;
      assert 9131 / 36524 == 0 && 9131 % 36524 == 9131;
      assert 9131 / 1461 == 6 && 9131 % 1461 == 365;
      assert 365 / 365 == 1;
    }
    assert JanFirst(2025) == 739252 by {
      assert 2024 / 4 == 506 && 2024 / 100 == 20 && 2024 / 400 == 5;
    }
    assert JanFirst(2026) == 739617 by {
      assert 2025 / 4 == 506 && 2025 / 100 == 20 && 2025 / 400 == 5;
    }
  }

  /** So a week key holds at most one Friday. */
  lemma OneFridayPerKey(d1: Day, d2: Day)
    requires WeekKeyOf(d1) == WeekKeyOf(d2)
    requires Weekday(d1) == Friday && Weekday(d2) == Friday
    ensures d1 == d2
  {
    SameKeySameWeek(d1, d2);
  }
}
